/** The versioned envelope, and the reader that accepts both it and 0.5.x records. */
module Envelope {
  import opened CacheTypes
  import opened Bytes
  import opened LegacyFormat
  import opened LegacyReader

  /** A serialization strategy; `encode` and `decode` fail with None. */
  datatype Codec = Codec(
    id: Byte,
    encode: CacheEntry -> Option<seq<Byte>>,
    decode: seq<Byte> -> Option<CacheEntry>)

  /** What a codec owes its callers: what it encodes, it decodes. */
  ghost predicate Lawful(codec: Codec) {
    forall entry :: codec.encode(entry).Some? ==> codec.decode(codec.encode(entry).value) == Some(entry)
  }

  const MAGIC: seq<Byte> := [0x54, 0x48, 0x43]
  const FORMAT_V1: Byte := 1
  const ENVELOPE_HEADER_LEN: nat := 21
  const LEGACY_REDIS_OVERHEAD: nat := 24

  function Envelope(id: Byte, expiresAt: nat, staleUntil: nat, payload: seq<Byte>): seq<Byte> {
    MAGIC + [FORMAT_V1] + [id] + ToLe(expiresAt, 8) + ToLe(staleUntil, 8) + payload
  }

  method Wrap(id: Byte, expiresAt: nat, staleUntil: nat, payload: seq<Byte>) returns (out: seq<Byte>)
    requires expiresAt < U64 && staleUntil < U64
    ensures out == Envelope(id, expiresAt, staleUntil, payload)
    ensures |out| == ENVELOPE_HEADER_LEN + |payload| && LooksLikeV2(out)
    ensures out[4] == id && FromLe(out[5..13]) == expiresAt && FromLe(out[13..21]) == staleUntil && out[21..] == payload
  {
    out := MAGIC;
    out := out + [FORMAT_V1];
    out := out + [id];
    out := out + ToLe(expiresAt, 8);
    out := out + ToLe(staleUntil, 8);
    out := out + payload;
    EnvelopeFields(id, expiresAt, staleUntil, payload);
  }

  predicate LooksLikeV2(bytes: seq<Byte>) {
    |bytes| >= ENVELOPE_HEADER_LEN && bytes[0..3] == MAGIC && bytes[3] == FORMAT_V1
  }

  /** The length identity of a 0.5.x record. */
  predicate IsLegacyRedis(bytes: seq<Byte>) {
    |bytes| >= LEGACY_REDIS_OVERHEAD && FromLe(bytes[0..8]) == |bytes| - LEGACY_REDIS_OVERHEAD
  }

  function DecodeV2(bytes: seq<Byte>, codec: Codec): Option<CacheRead> {
    if |bytes| < ENVELOPE_HEADER_LEN then None
    else if bytes[0..3] != MAGIC then None
    else if bytes[3] != FORMAT_V1 then None
    else if bytes[4] != codec.id then None
    else
      var expiresAt := FromLe(bytes[5..13]);
      var staleUntil := FromLe(bytes[13..21]);
      var entry := codec.decode(bytes[ENVELOPE_HEADER_LEN..]);
      if entry.None? then None else Some(CacheRead(entry.value, Some(expiresAt), Some(staleUntil)))
  }

  lemma EnvelopeFields(id: Byte, expiresAt: nat, staleUntil: nat, payload: seq<Byte>)
    requires expiresAt < U64 && staleUntil < U64
    ensures var b := Envelope(id, expiresAt, staleUntil, payload);
            && |b| == ENVELOPE_HEADER_LEN + |payload| && LooksLikeV2(b) && b[4] == id
            && FromLe(b[5..13]) == expiresAt && FromLe(b[13..21]) == staleUntil && b[21..] == payload
  {
    Widths();
    var b := Envelope(id, expiresAt, staleUntil, payload);
    assert b[0..3] == MAGIC && b[5..13] == ToLe(expiresAt, 8) && b[13..21] == ToLe(staleUntil, 8);
    FromToLe(expiresAt, 8);
    FromToLe(staleUntil, 8);
  }

  /** `bytes` is an envelope of the codec: its header with both timestamps, and a payload
      that the codec decodes to the entry. */
  ghost predicate IsEnvelope(bytes: seq<Byte>, codec: Codec, entry: CacheEntry, expiresAt: nat, staleUntil: nat, payload: seq<Byte>) {
    && expiresAt < U64 && staleUntil < U64
    && bytes == Envelope(codec.id, expiresAt, staleUntil, payload) && codec.decode(payload) == Some(entry)
  }

  lemma DecodesAsEnvelope(bytes: seq<Byte>, codec: Codec)
    requires DecodeV2(bytes, codec).Some?
    ensures var read := DecodeV2(bytes, codec).value;
            && read.expiresAt.Some? && read.staleUntil.Some?
            && IsEnvelope(bytes, codec, read.entry, read.expiresAt.value, read.staleUntil.value, bytes[21..])
  {
    assert bytes[..5] == MAGIC + [FORMAT_V1, codec.id] by { assert bytes[..3] == bytes[0..3]; }
    AsEnvelope(bytes, codec.id);
  }

  lemma EnvelopeDecodes(bytes: seq<Byte>, codec: Codec, entry: CacheEntry, expiresAt: nat, staleUntil: nat, payload: seq<Byte>)
    requires IsEnvelope(bytes, codec, entry, expiresAt, staleUntil, payload)
    ensures DecodeV2(bytes, codec) == Some(CacheRead(entry, Some(expiresAt), Some(staleUntil)))
  {
    EnvelopeFields(codec.id, expiresAt, staleUntil, payload);
  }

  /** The decoder is the exact inverse of the layout: it accepts a buffer if and only if it is an
      envelope of its codec whose payload the codec accepts, and returns what that is. */
  lemma DecodeV2Exactly(bytes: seq<Byte>, codec: Codec, entry: CacheEntry, expiresAt: nat, staleUntil: nat)
    ensures DecodeV2(bytes, codec) == Some(CacheRead(entry, Some(expiresAt), Some(staleUntil)))
            <==> exists payload :: IsEnvelope(bytes, codec, entry, expiresAt, staleUntil, payload)
    ensures DecodeV2(bytes, codec).None?
            <==> forall e, x, y, payload :: !IsEnvelope(bytes, codec, e, x, y, payload)
  {
    if DecodeV2(bytes, codec).Some? { DecodesAsEnvelope(bytes, codec); }
    forall e, x, y, payload | IsEnvelope(bytes, codec, e, x, y, payload)
      ensures DecodeV2(bytes, codec) == Some(CacheRead(e, Some(x), Some(y)))
    {
      EnvelopeDecodes(bytes, codec, e, x, y, payload);
    }
  }

  lemma Slices(b: seq<Byte>)
    requires |b| >= ENVELOPE_HEADER_LEN
    ensures b == b[..5] + b[5..13] + b[13..21] + b[21..]
  {
    assert b[..13] == b[..5] + b[5..13];
    assert b[..21] == b[..13] + b[13..21];
    assert b == b[..21] + b[21..];
  }

  lemma AsEnvelope(b: seq<Byte>, id: Byte)
    requires |b| >= ENVELOPE_HEADER_LEN && b[..5] == Head(id)
    ensures b == Envelope(id, FromLe(b[5..13]), FromLe(b[13..21]), b[21..])
    ensures FromLe(b[5..13]) < U64 && FromLe(b[13..21]) < U64
  {
    Widths();
    ToFromLe(b[5..13]);
    ToFromLe(b[13..21]);
    Slices(b);
    assert MAGIC + [FORMAT_V1, id] == MAGIC + [FORMAT_V1] + [id];
  }

  // ---------------------------------------------------------------------
  // Reading a stored value
  // ---------------------------------------------------------------------

  ghost function LegacyMeaning(bytes: seq<Byte>): Option<CacheRead> {
    if exists read :: IsRecord(bytes, read) then
      var read :| IsRecord(bytes, read);
      Some(read)
    else None
  }

  /** The record if the bytes are one and 0.5.x support is on, else what the envelope holds. */
  ghost function Meaning(bytes: seq<Byte>, codec: Codec, legacyOn: bool): Option<CacheRead> {
    if legacyOn && LegacyMeaning(bytes).Some? then LegacyMeaning(bytes) else DecodeV2(bytes, codec)
  }

  /** The other order of preference. */
  ghost function EnvelopeFirst(bytes: seq<Byte>, codec: Codec, legacyOn: bool): Option<CacheRead> {
    if DecodeV2(bytes, codec).Some? then DecodeV2(bytes, codec)
    else if legacyOn then LegacyMeaning(bytes)
    else None
  }

  method TryLegacy(bytes: seq<Byte>, legacyOn: bool) returns (r: Option<CacheRead>)
    requires |bytes| < U64
    ensures r == if legacyOn then LegacyMeaning(bytes) else None
  {
    if !legacyOn { return None; }
    var read := DecodeLegacyRedis(bytes);
    if read.Err? { return None; }
    LegacyMeaningIs(bytes, read.value);
    return Some(read.value);
  }

  /** The reader's order of attempts -- the record first only when the length identity
      holds -- never changes what a value means. */
  method ReadStored(bytes: seq<Byte>, codec: Codec, legacyOn: bool) returns (r: Option<CacheRead>)
    requires |bytes| < U64
    ensures r == Meaning(bytes, codec, legacyOn)
    ensures r.None? <==>
            && (legacyOn ==> forall read :: !IsRecord(bytes, read))
            && forall e, x, y, payload :: !IsEnvelope(bytes, codec, e, x, y, payload)
  {
    DecodeV2Exactly(bytes, codec, CacheEntry(200, HTTP_11, [], [], None), 0, 0);
    var legacyFirst := IsLegacyRedis(bytes);
    if legacyFirst {
      var read := TryLegacy(bytes, legacyOn);
      if read.Some? { return read; }
    }
    if LooksLikeV2(bytes) {
      var read := DecodeV2(bytes, codec);
      if read.Some? {
        if LegacyMeaning(bytes).Some? { RecordHasLength(bytes, LegacyMeaning(bytes).value); }
        return read;
      }
    }
    if !legacyFirst {
      var read := TryLegacy(bytes, legacyOn);
      if read.Some? { return read; }
    }
    return None;
  }

  lemma LegacyMeaningIs(bytes: seq<Byte>, read: CacheRead)
    requires |bytes| < U64 && IsRecord(bytes, read)
    ensures LegacyMeaning(bytes) == Some(read)
  {
    var it := LegacyMeaning(bytes).value;
    PutInjective(it, read);
  }

  /** Every 0.5.x record satisfies the length identity. */
  lemma RecordHasLength(bytes: seq<Byte>, read: CacheRead)
    requires |bytes| < U64 && IsRecord(bytes, read)
    ensures IsLegacyRedis(bytes)
  {
    Widths();
    var payload := PutEntry(read.entry);
    RecordParts(payload, read.expiresAt.value, read.staleUntil.value);
    FromToLe(|payload|, 8);
  }

  // ---------------------------------------------------------------------
  // Where the two formats separate
  // ---------------------------------------------------------------------

  /** The first five bytes of an envelope of codec `id`, read as a number. */
  function Mark(id: Byte): nat { 0x1_0000_0000 * id + 0x0143_4854 }

  const PERIOD: nat := 0x100_0000_0000

  /** The sizes at which a buffer can be both a record and an envelope of codec `id`: the
      payload length, which a record begins with, spells out the head of the envelope. */
  predicate AmbiguousSize(size: nat, id: Byte) {
    size >= LEGACY_REDIS_OVERHEAD && (size - LEGACY_REDIS_OVERHEAD) % PERIOD == Mark(id)
  }

  function Head(id: Byte): seq<Byte> { MAGIC + [FORMAT_V1, id] }

  lemma MagicValue()
    ensures FromLe(MAGIC + [FORMAT_V1]) == 0x0143_4854 && Pow256(4) == 0x1_0000_0000 && Pow256(5) == PERIOD
  {
    var a: seq<Byte>, b: seq<Byte>, c: seq<Byte>, d: seq<Byte> := [0x54, 0x48, 0x43, 1], [0x48, 0x43, 1], [0x43, 1], [1];
    assert a[1..] == b && b[1..] == c && c[1..] == d && d[1..] == [];
    assert FromLe(d) == 1;
    assert FromLe(c) == 0x0143;
    assert FromLe(b) == 0x01_4348;
    assert MAGIC + [FORMAT_V1] == a;
    assert Pow256(2) == 0x1_0000;
    assert Pow256(4) == 0x1_0000_0000;
  }

  lemma HeadValue(id: Byte)
    ensures FromLe(Head(id)) == Mark(id) < PERIOD
  {
    MagicValue();
    FromLeSplit(Head(id), 4);
    assert Head(id)[..4] == MAGIC + [FORMAT_V1] && Head(id)[4..] == [id];
    assert [id][1..] == [];
    assert FromLe([id]) == id;
  }

  lemma RemainderIs(n: nat, lo: nat, hi: nat)
    requires lo < PERIOD && n == lo + PERIOD * hi
    ensures n % PERIOD == lo && n / PERIOD == hi
  {
  }

  /** A buffer with the head of an envelope, read as a record, claims a payload length that
      leaves the mark of its codec modulo 2^40. */
  lemma HeadOfLength(bytes: seq<Byte>, id: Byte)
    requires LooksLikeV2(bytes) && bytes[4] == id
    ensures FromLe(bytes[0..8]) % PERIOD == Mark(id)
  {
    var head := bytes[0..8];
    HeadValue(id);
    MagicValue();
    FromLeSplit(head, 5);
    assert head[..5] == Head(id) by { assert head[..3] == bytes[0..3]; }
    RemainderIs(FromLe(head), Mark(id), FromLe(head[5..]));
  }

  lemma NotBoth(bytes: seq<Byte>, codec: Codec)
    requires |bytes| < U64 && !AmbiguousSize(|bytes|, codec.id)
    ensures LegacyMeaning(bytes).None? || DecodeV2(bytes, codec).None?
  {
    if LegacyMeaning(bytes).Some? && DecodeV2(bytes, codec).Some? {
      RecordHasLength(bytes, LegacyMeaning(bytes).value);
      HeadOfLength(bytes, codec.id);
    }
  }

  /** At every other size the order of attempts does not matter. */
  lemma OrdersAgree(bytes: seq<Byte>, codec: Codec, legacyOn: bool)
    requires |bytes| < U64 && !AmbiguousSize(|bytes|, codec.id)
    ensures LegacyMeaning(bytes).None? || DecodeV2(bytes, codec).None?
    ensures Meaning(bytes, codec, legacyOn) == EnvelopeFirst(bytes, codec, legacyOn)
  {
    NotBoth(bytes, codec);
  }

  /** What is wrapped is read back, with both timestamps: at every other size, and at any size
      once 0.5.x support is off. */
  lemma WrapReadBack(codec: Codec, entry: CacheEntry, expiresAt: nat, staleUntil: nat, legacyOn: bool)
    requires Lawful(codec) && codec.encode(entry).Some? && expiresAt < U64 && staleUntil < U64
    requires ENVELOPE_HEADER_LEN + |codec.encode(entry).value| < U64
    requires legacyOn ==> !AmbiguousSize(ENVELOPE_HEADER_LEN + |codec.encode(entry).value|, codec.id)
    ensures Meaning(Envelope(codec.id, expiresAt, staleUntil, codec.encode(entry).value), codec, legacyOn)
            == Some(CacheRead(entry, Some(expiresAt), Some(staleUntil)))
  {
    var payload := codec.encode(entry).value;
    EnvelopeFields(codec.id, expiresAt, staleUntil, payload);
    if legacyOn { NotBoth(Envelope(codec.id, expiresAt, staleUntil, payload), codec); }
  }

  /** A 0.5.x buffer of any size is read as the record it is, whatever prefix it carries. */
  lemma LegacyReadBack(codec: Codec, read: CacheRead)
    requires Recordable(read) && |Put(read)| < U64
    ensures Meaning(Put(read), codec, true) == Some(read)
  {
    LegacyMeaningIs(Put(read), read);
  }

  // ---------------------------------------------------------------------
  // The sizes are exact
  // ---------------------------------------------------------------------

  /** A record of `size` bytes: a successful response without headers and a body of zeros. */
  function RecordOf(size: nat): CacheRead
    requires size >= 43
  {
    CacheRead(CacheEntry(200, HTTP_11, [], Zeros(size - 43), None), Some(0), Some(0))
  }

  function Zeros(n: nat): (b: seq<Byte>)
    ensures |b| == n
  {
    seq(n, i => 0)
  }

  /** The low bytes of a number are those of its remainder. */
  lemma LowBytes(n: nat, id: Byte)
    requires n < U64 && n % PERIOD == Mark(id)
    ensures ToLe(n, 8)[..5] == Head(id)
  {
    Widths();
    MagicValue();
    HeadValue(id);
    var b := ToLe(n, 8);
    FromToLe(n, 8);
    FromLeSplit(b, 5);
    RemainderIs(n, FromLe(b[..5]), FromLe(b[5..]));
    ToFromLe(b[..5]);
    ToFromLe(Head(id));
  }

  /** At an ambiguous size, the record has the head of an envelope. */
  lemma RecordHasHead(size: nat, id: Byte)
    requires AmbiguousSize(size, id) && size < U64
    ensures size >= 43 && Recordable(RecordOf(size))
    ensures |Put(RecordOf(size))| == size && Put(RecordOf(size))[..5] == Head(id)
  {
    LeastAmbiguous(size, id);
    var read := RecordOf(size);
    var n := size - LEGACY_REDIS_OVERHEAD;
    RecordLength(read);
    RecordParts(PutEntry(read.entry), 0, 0);
    LowBytes(n, id);
    assert Put(read)[..5] == Put(read)[..8][..5];
  }

  /** `size` is that of a wrapped entry of this codec that is not read back. */
  ghost predicate Lost(size: nat, codec: Codec, entry: CacheEntry, expiresAt: nat, staleUntil: nat) {
    && Lawful(codec) && codec.encode(entry).Some? && expiresAt < U64 && staleUntil < U64
    && ENVELOPE_HEADER_LEN + |codec.encode(entry).value| == size
    && Meaning(Envelope(codec.id, expiresAt, staleUntil, codec.encode(entry).value), codec, true)
       != Some(CacheRead(entry, Some(expiresAt), Some(staleUntil)))
  }

  lemma AmbiguousIsLost(size: nat, id: Byte) returns (codec: Codec, entry: CacheEntry, expiresAt: nat, staleUntil: nat)
    requires AmbiguousSize(size, id) && size < U64
    ensures codec.id == id && Lost(size, codec, entry, expiresAt, staleUntil)
    ensures DecodeV2(Put(RecordOf(size)), codec).Some?
  {
    var b := Put(RecordOf(size));
    RecordHasHead(size, id);
    AsEnvelope(b, id);
    entry := CacheEntry(404, HTTP_11, [], [], None);
    var it := entry;
    codec := Codec(id, (e: CacheEntry) => if e == it then Some(b[21..]) else None, (p: seq<Byte>) => Some(it));
    LegacyReadBack(codec, RecordOf(size));
    expiresAt, staleUntil := FromLe(b[5..13]), FromLe(b[13..21]);
    EnvelopeFields(id, expiresAt, staleUntil, b[21..]);
    assert Lawful(codec) && codec.encode(entry) == Some(b[21..]);
  }

  /** For every size and codec id: all wrapped entries of that size are read back, by every
      lawful codec of that id, if and only if the size is not ambiguous. */
  lemma WrapReadBackExactly(size: nat, id: Byte)
    requires size < U64
    ensures (forall codec: Codec, entry: CacheEntry, expiresAt: nat, staleUntil: nat :: codec.id == id ==>
               !Lost(size, codec, entry, expiresAt, staleUntil))
            <==> !AmbiguousSize(size, id)
  {
    if AmbiguousSize(size, id) {
      var codec, entry, expiresAt, staleUntil := AmbiguousIsLost(size, id);
    } else {
      forall codec: Codec, entry: CacheEntry, expiresAt: nat, staleUntil: nat | codec.id == id
        ensures !Lost(size, codec, entry, expiresAt, staleUntil)
      {
        if Lost(size, codec, entry, expiresAt, staleUntil) {
          WrapReadBack(codec, entry, expiresAt, staleUntil, true);
        }
      }
    }
  }

  /** `bytes` decodes both as a record and as an envelope. */
  ghost predicate Both(bytes: seq<Byte>, codec: Codec) {
    LegacyMeaning(bytes).Some? && DecodeV2(bytes, codec).Some?
  }

  /** For every size and codec id: no buffer of that size decodes as both formats if and only
      if the size is not ambiguous. */
  lemma FormatsSeparateExactly(size: nat, id: Byte)
    requires size < U64
    ensures (forall bytes: seq<Byte>, codec: Codec :: |bytes| == size && codec.id == id ==> !Both(bytes, codec))
            <==> !AmbiguousSize(size, id)
  {
    if AmbiguousSize(size, id) {
      var codec, _, _, _ := AmbiguousIsLost(size, id);
      RecordHasHead(size, id);
      LegacyMeaningIs(Put(RecordOf(size)), RecordOf(size));
      assert Both(Put(RecordOf(size)), codec);
    } else {
      forall bytes: seq<Byte>, codec: Codec | |bytes| == size && codec.id == id
        ensures !Both(bytes, codec)
      {
        NotBoth(bytes, codec);
      }
    }
  }

  /** The least ambiguous size: 21 MB for codec id 0, and more than 4 GiB for every other. */
  lemma LeastAmbiguous(size: nat, id: Byte)
    ensures AmbiguousSize(size, id) ==> size >= Mark(id) + LEGACY_REDIS_OVERHEAD
    ensures AmbiguousSize(Mark(id) + LEGACY_REDIS_OVERHEAD, id)
    ensures id > 0 ==> Mark(id) > 0x1_0000_0000
  {
    HeadValue(id);
  }
}
