/** Little-endian integers as byte strings. */
module Bytes {
  import opened CacheTypes

  function Pow256(w: nat): (p: nat)
    ensures p > 0
  {
    if w == 0 then 1 else 256 * Pow256(w - 1)
  }

  function ToLe(n: nat, w: nat): (b: seq<Byte>)
    ensures |b| == w
  {
    if w == 0 then [] else [n % 256] + ToLe(n / 256, w - 1)
  }

  function FromLe(b: seq<Byte>): (n: nat)
    ensures n < Pow256(|b|)
  {
    if b == [] then 0 else b[0] + 256 * FromLe(b[1..])
  }

  lemma {:induction false} FromToLe(n: nat, w: nat)
    requires n < Pow256(w)
    ensures FromLe(ToLe(n, w)) == n
  {
    if w > 0 {
      FromToLe(n / 256, w - 1);
      assert ToLe(n, w)[1..] == ToLe(n / 256, w - 1);
    }
  }

  lemma {:induction false} ToFromLe(b: seq<Byte>)
    ensures ToLe(FromLe(b), |b|) == b
  {
    if b != [] {
      ToFromLe(b[1..]);
      assert FromLe(b) % 256 == b[0] && FromLe(b) / 256 == FromLe(b[1..]);
      assert [b[0]] + b[1..] == b;
    }
  }

  const U16: nat := 0x1_0000
  const U64: nat := 0x1_0000_0000_0000_0000

  lemma Widths()
    ensures Pow256(1) == 256 && Pow256(2) == U16 && Pow256(8) == U64
  {
    assert Pow256(4) == 0x1_0000_0000;
  }

  lemma Distribute(p: int, lo: int, hi: int)
    ensures 256 * (lo + p * hi) == 256 * lo + (256 * p) * hi
  {
  }

  /** The first `k` bytes give the number modulo 256 to the `k`, the others the quotient. */
  lemma {:induction false} FromLeSplit(b: seq<Byte>, k: nat)
    requires k <= |b|
    ensures FromLe(b) == FromLe(b[..k]) + Pow256(k) * FromLe(b[k..])
  {
    if k == 0 {
      assert b[..0] == [] && b[0..] == b;
    } else {
      FromLeSplit(b[1..], k - 1);
      assert b[1..][..k - 1] == b[..k][1..];
      assert b[1..][k - 1..] == b[k..];
      Distribute(Pow256(k - 1), FromLe(b[..k][1..]), FromLe(b[k..]));
    }
  }
}
