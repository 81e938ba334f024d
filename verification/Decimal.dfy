/** Decimal numerals and the byte order of texts. */
module Decimal {
  import opened CacheTypes

  function Digit(d: int): char
    requires 0 <= d <= 9
  {
    '0' + d as char
  }

  predicate IsDigit(c: char) { '0' <= c <= '9' }

  predicate AllDigits(s: string) { forall i :: 0 <= i < |s| ==> IsDigit(s[i]) }

  /** The shortest numeral of `n`. */
  function Dec(n: nat): (s: string)
    ensures s != "" && AllDigits(s)
  {
    if n < 10 then [Digit(n)] else Dec(n / 10) + [Digit(n % 10)]
  }

  function Zeros(n: nat): (s: string)
    ensures |s| == n
  {
    if n == 0 then "" else Zeros(n - 1) + "0"
  }

  /** The numeral of `n`, padded with zeros to at least `w` digits. */
  function Pad(n: nat, w: nat): string {
    if |Dec(n)| >= w then Dec(n) else Zeros(w - |Dec(n)|) + Dec(n)
  }

  /** The last `w` decimal digits of `n`. */
  function Fixed(n: nat, w: nat): (s: string)
    ensures |s| == w && AllDigits(s)
  {
    if w == 0 then "" else Fixed(n / 10, w - 1) + [Digit(n % 10)]
  }

  /** The number a string of digits denotes. */
  function Value(s: string): nat
    requires AllDigits(s)
  {
    if s == "" then 0 else 10 * Value(s[..|s| - 1]) + (s[|s| - 1] as int - '0' as int)
  }

  function Pow10(w: nat): (p: nat)
    ensures p > 0
  {
    if w == 0 then 1 else 10 * Pow10(w - 1)
  }

  lemma {:induction false} DecValue(n: nat)
    ensures Value(Dec(n)) == n
  {
    if n >= 10 {
      DecValue(n / 10);
      assert Dec(n)[..|Dec(n)| - 1] == Dec(n / 10);
    }
  }

  lemma {:induction false} FixedValue(n: nat, w: nat)
    requires n < Pow10(w)
    ensures Value(Fixed(n, w)) == n
  {
    if w > 0 {
      FixedValue(n / 10, w - 1);
      assert Fixed(n, w)[..w - 1] == Fixed(n / 10, w - 1);
    }
  }

  lemma {:induction false} FixedZero(w: nat)
    ensures Fixed(0, w) == Zeros(w)
  {
    if w > 0 { FixedZero(w - 1); }
  }

  /** Padding to `w` digits gives exactly `w` digits when the number has no more. */
  lemma {:induction false} PadIsFixed(n: nat, w: nat)
    requires 0 < w && n < Pow10(w)
    ensures Pad(n, w) == Fixed(n, w)
  {
    if n < 10 {
      FixedZero(w - 1);
    } else {
      PadIsFixed(n / 10, w - 1);
      if |Dec(n)| < w { assert Zeros(w - |Dec(n)|) + Dec(n) == Zeros(w - |Dec(n)|) + Dec(n / 10) + [Digit(n % 10)]; }
    }
  }

  // ---------------------------------------------------------------------
  // Byte-lexicographic order
  // ---------------------------------------------------------------------

  predicate LessAt(a: string, b: string, p: nat) {
    p <= |a| && p < |b| && a[..p] == b[..p] && (p == |a| || a[p] < b[p])
  }

  ghost predicate Less(a: string, b: string) { exists p: nat :: LessAt(a, b, p) }

  lemma LessIsStrict(a: string, b: string)
    requires Less(a, b)
    ensures a != b && !Less(b, a)
  {
  }

  lemma LessPrefix(a: string, b: string, x: string, y: string)
    requires |a| == |b| && Less(a, b)
    ensures Less(a + x, b + y)
  {
    var p: nat :| LessAt(a, b, p);
    assert (a + x)[..p] == a[..p] && (b + y)[..p] == b[..p];
    assert LessAt(a + x, b + y, p);
  }

  lemma LessSuffix(a: string, x: string, y: string)
    requires Less(x, y)
    ensures Less(a + x, a + y)
  {
    var p: nat :| LessAt(x, y, p);
    assert (a + x)[..|a| + p] == a + x[..p] && (a + y)[..|a| + p] == a + y[..p];
    assert LessAt(a + x, a + y, |a| + p);
  }

  /** Numerals of equal width order like the numbers. */
  lemma {:induction false} FixedOrder(m: nat, n: nat, w: nat)
    requires m < n < Pow10(w)
    ensures Less(Fixed(m, w), Fixed(n, w))
  {
    var x, y := Fixed(m / 10, w - 1), Fixed(n / 10, w - 1);
    if m / 10 < n / 10 {
      FixedOrder(m / 10, n / 10, w - 1);
      LessPrefix(x, y, [Digit(m % 10)], [Digit(n % 10)]);
    } else {
      assert Fixed(m, w)[..w - 1] == x && Fixed(n, w)[..w - 1] == y;
      assert LessAt(Fixed(m, w), Fixed(n, w), w - 1);
    }
  }

  // ---------------------------------------------------------------------
  // Reading numerals
  // ---------------------------------------------------------------------

  const U64_MAX: nat := 0xFFFF_FFFF_FFFF_FFFF

  /** `str::parse::<u64>`: an optional plus sign, at least one digit, no overflow. */
  function ParseU64(s: string): Option<nat> {
    var digits := if s != "" && s[0] == '+' then s[1..] else s;
    if digits == "" || !AllDigits(digits) then None
    else if Value(digits) > U64_MAX then None
    else Some(Value(digits))
  }

  lemma ParseDec(n: nat)
    requires n <= U64_MAX
    ensures ParseU64(Dec(n)) == Some(n)
  {
    DecValue(n);
  }
}
