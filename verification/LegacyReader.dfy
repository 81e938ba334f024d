/** The hand-written reader of 0.5.x records: a bounds-checked cursor over a byte buffer. */
module LegacyReader {
  import opened CacheTypes
  import opened Bytes
  import opened LegacyFormat
  import opened Utf8Text

  datatype Result<+T> = Ok(value: T) | Err

  class Cursor {
    const bytes: seq<Byte>
    var pos: nat

    /** The cursor never leaves the buffer. */
    ghost predicate Valid()
      reads this
    {
      pos <= |bytes| < U64
    }

    /** The bytes not read yet. */
    ghost function Rest(): seq<Byte>
      requires Valid()
      reads this
    {
      bytes[pos..]
    }

    constructor (bytes: seq<Byte>)
      requires |bytes| < U64
      ensures Valid() && this.bytes == bytes && Rest() == bytes
    {
      this.bytes := bytes;
      this.pos := 0;
    }

    function Remaining(): nat
      requires Valid()
      reads this
    {
      |bytes| - pos
    }

    method Take(n: nat) returns (r: Result<seq<Byte>>)
      requires Valid()
      modifies this`pos
      ensures Valid()
      ensures r.Ok? <==> n <= |old(Rest())|
      ensures r.Ok? ==> |r.value| == n && old(Rest()) == r.value + Rest()
    {
      var end := pos + n;
      if end >= U64 {
        return Err;  // `checked_add`
      }
      if end > |bytes| {
        return Err;
      }
      var slice := bytes[pos..end];
      pos := end;
      return Ok(slice);
    }

    method TakeU8() returns (r: Result<Byte>)
      requires Valid()
      modifies this`pos
      ensures Valid()
      ensures r.Ok? <==> |old(Rest())| >= 1
      ensures r.Ok? ==> old(Rest()) == [r.value] + Rest()
    {
      var b := Take(1);
      if b.Err? { return Err; }
      return Ok(b.value[0]);
    }

    method TakeU16() returns (r: Result<nat>)
      requires Valid()
      modifies this`pos
      ensures Valid()
      ensures r.Ok? <==> |old(Rest())| >= 2
      ensures r.Ok? ==> r.value < U16 && old(Rest()) == ToLe(r.value, 2) + Rest()
    {
      var b := Take(2);
      if b.Err? { return Err; }
      ToFromLe(b.value);
      Widths();
      return Ok(FromLe(b.value));
    }

    method TakeU64() returns (r: Result<nat>)
      requires Valid()
      modifies this`pos
      ensures Valid()
      ensures r.Ok? <==> |old(Rest())| >= 8
      ensures r.Ok? ==> r.value < U64 && old(Rest()) == ToLe(r.value, 8) + Rest()
    {
      var b := Take(8);
      if b.Err? { return Err; }
      ToFromLe(b.value);
      Widths();
      return Ok(FromLe(b.value));
    }

    /** A collection length: refused at once when it exceeds the bytes left. */
    method TakeLen() returns (r: Result<nat>)
      requires Valid()
      modifies this`pos
      ensures Valid()
      ensures r.Ok? ==> r.value <= |Rest()| && old(Rest()) == ToLe(r.value, 8) + Rest()
      ensures r.Err? ==> forall n: nat :: n + 8 <= |old(Rest())| ==> !(ToLe(n, 8) <= old(Rest()))
    {
      var n := TakeU64();
      if n.Err? { return Err; }
      if n.value > Remaining() {
        CountTooLarge(old(Rest()), n.value, Rest());
        return Err;
      }
      return n;
    }

    /** Reads exactly the byte string written at the cursor, and fails only if none is. */
    method TakeBytes() returns (r: Result<seq<Byte>>)
      requires Valid()
      modifies this`pos
      ensures Valid()
      ensures r.Ok? ==> old(Rest()) == PutBytes(r.value) + Rest()
      ensures r.Err? ==> forall b :: !(PutBytes(b) <= old(Rest()))
    {
      var n := TakeLen();
      if n.Err? {
        NoLength(old(Rest()));
        return Err;
      }
      var b := Take(n.value);
      assert ToLe(n.value, 8) + (b.value + Rest()) == PutBytes(b.value) + Rest();
      return b;
    }

    method TakeString() returns (r: Result<seq<Byte>>)
      requires Valid()
      modifies this`pos
      ensures Valid()
      ensures r.Ok? ==> Utf8(r.value) && old(Rest()) == PutBytes(r.value) + Rest()
      ensures r.Err? ==> forall b :: Utf8(b) ==> !(PutBytes(b) <= old(Rest()))
    {
      var b := TakeBytes();
      if b.Err? { return Err; }
      if !Utf8(b.value) {
        OnlyString(old(Rest()), b.value, Rest());
        return Err;
      }
      return b;
    }

    /** Reads exactly the header list written at the cursor, and fails only if none is.
        The list never outgrows the capacity reserved from the bytes left. */
    method TakeHeaders() returns (r: Result<seq<Header>>, capacity: nat)
      requires Valid()
      modifies this`pos
      ensures Valid()
      ensures r.Ok? ==> NamesOk(r.value) && old(Rest()) == PutHeaders(r.value) + Rest()
      ensures r.Ok? ==> |r.value| <= capacity
      ensures 16 * (capacity - 1) <= |old(Rest())|
      ensures r.Err? ==> forall hs :: NamesOk(hs) ==> !(PutHeaders(hs) <= old(Rest()))
    {
      capacity := 0;
      ghost var whole := Rest();
      var n := TakeLen();
      if n.Err? {
        NoCount(whole);
        return Err, capacity;
      }
      ghost var start := Rest();
      capacity := if n.value < Remaining() / 16 + 1 then n.value else Remaining() / 16 + 1;
      var out := [];
      for i := 0 to n.value
        invariant Valid() && |out| == i && whole == old(Rest()) == ToLe(n.value, 8) + start
        invariant ReadSoFar(n.value, start, out, Rest())
      {
        ghost var here := Rest();
        var name := TakeString();
        if name.Err? {
          NoList(n.value, whole, start, out, here);
          return Err, capacity;
        }
        ghost var mid := Rest();
        var value := TakeBytes();
        if value.Err? {
          NoListAfterName(n.value, whole, start, out, here, name.value, mid);
          return Err, capacity;
        }
        PairRead(n.value, start, out, here, name.value, mid, value.value, Rest());
        out := out + [(name.value, value.value)];
      }
      HeadersRead(whole, start, out, Rest());
      return Ok(out), capacity;
    }

    /** Refuses trailing bytes. */
    method Finish() returns (r: Result<()>)
      requires Valid()
      ensures r.Ok? <==> Rest() == []
    {
      if pos != |bytes| { return Err; }
      return Ok(());
    }
  }

  /** `hs` is a list of `n` pairs with UTF-8 names whose pairs are written at the start of `start`. */
  ghost predicate WrittenAt(hs: seq<Header>, n: nat, start: seq<Byte>) {
    |hs| == n && NamesOk(hs) && PutPairs(hs) <= start
  }

  /** `out` was read from `start`, leaving `rest`; any list of `n` pairs written there goes on from here. */
  ghost predicate ReadSoFar(n: nat, start: seq<Byte>, out: seq<Header>, rest: seq<Byte>) {
    && |out| <= n && NamesOk(out) && start == PutPairs(out) + rest
    && forall hs: seq<Header> :: WrittenAt(hs, n, start) ==> out == hs[..|out|] && PutPairs(hs[|out|..]) <= rest
  }

  lemma NoLength(rest: seq<Byte>)
    requires forall n: nat :: n + 8 <= |rest| ==> !(ToLe(n, 8) <= rest)
    ensures forall b :: !(PutBytes(b) <= rest)
  {
    forall b: seq<Byte>
      ensures |b| + 8 <= |PutBytes(b)| && ToLe(|b|, 8) <= PutBytes(b)
    {
    }
  }

  /** The number at the front is the only one there, and it exceeds what follows. */
  lemma CountTooLarge(rest: seq<Byte>, n: nat, after: seq<Byte>)
    requires |rest| < U64 && n < U64 && rest == ToLe(n, 8) + after && n > |after|
    ensures forall m: nat :: m + 8 <= |rest| ==> !(ToLe(m, 8) <= rest)
  {
    Widths();
    assert ToLe(n, 8) <= rest;
    forall m: nat | m + 8 <= |rest|
      ensures !(ToLe(m, 8) <= rest)
    {
      if ToLe(m, 8) <= rest { NumberUnique(rest, m, n, 8); }
    }
  }

  lemma OnlyString(rest: seq<Byte>, b: seq<Byte>, after: seq<Byte>)
    requires |rest| < U64 && rest == PutBytes(b) + after && !Utf8(b)
    ensures forall c :: Utf8(c) ==> !(PutBytes(c) <= rest)
  {
    forall c: seq<Byte>
      ensures PutBytes(c) <= rest ==> c == b
    {
      if PutBytes(c) <= rest { BytesUnique(rest, b, c); }
    }
  }

  lemma NoCount(rest: seq<Byte>)
    requires forall n: nat :: n + 8 <= |rest| ==> !(ToLe(n, 8) <= rest)
    ensures forall hs :: NamesOk(hs) ==> !(PutHeaders(hs) <= rest)
  {
    forall hs: seq<Header>
      ensures |hs| + 8 <= |PutHeaders(hs)| && ToLe(|hs|, 8) <= PutHeaders(hs)
    {
      PairsCost(hs);
    }
  }

  /** A list written at the start of the buffer has the length that was read first. */
  lemma CountMatches(rest: seq<Byte>, hs: seq<Header>, n: nat, start: seq<Byte>)
    requires |rest| < U64 && n < U64 && rest == ToLe(n, 8) + start
    requires NamesOk(hs) && PutHeaders(hs) <= rest
    ensures WrittenAt(hs, n, start)
  {
    Widths();
    PairsCost(hs);
    assert ToLe(|hs|, 8) <= PutHeaders(hs) && ToLe(n, 8) <= rest;
    NumberUnique(rest, |hs|, n, 8);
    assert PutPairs(hs) == PutHeaders(hs)[8..] && start == rest[8..];
  }

  lemma PairMatches(here: seq<Byte>, hs: seq<Header>, name: seq<Byte>, value: seq<Byte>)
    requires |here| < U64 && hs != [] && PutPairs(hs) <= here && PutBytes(name) + PutBytes(value) <= here
    ensures hs[0] == (name, value)
    ensures PutPairs(hs[1..]) <= here[|PutBytes(name)| + |PutBytes(value)|..]
  {
    PairFirst(here, hs);
    PrefixParts(here, PutBytes(name), PutBytes(value), []);
    BytesUnique(here, hs[0].0, name);
    BytesUnique(here[|PutBytes(name)|..], hs[0].1, value);
  }

  lemma Regroup3(a: seq<Byte>, b: seq<Byte>, c: seq<Byte>)
    ensures a + (b + c) == a + b + c
  {
  }

  lemma {:induction false} PutPairsAppend(headers: seq<Header>, name: seq<Byte>, value: seq<Byte>)
    ensures PutPairs(headers + [(name, value)]) == PutPairs(headers) + (PutBytes(name) + PutBytes(value))
  {
    if headers == [] {
      assert PutPairs([(name, value)]) == PutBytes(name) + PutBytes(value) + PutPairs([]);
    } else {
      PutPairsAppend(headers[1..], name, value);
      assert (headers + [(name, value)])[1..] == headers[1..] + [(name, value)];
      Regroup3(PutBytes(headers[0].0) + PutBytes(headers[0].1), PutPairs(headers[1..]), PutBytes(name) + PutBytes(value));
    }
  }

  lemma PairReadFor(n: nat, start: seq<Byte>, out: seq<Header>, here: seq<Byte>,
                    name: seq<Byte>, value: seq<Byte>, rest: seq<Byte>, hs: seq<Header>)
    requires |here| < U64 && |out| < n && WrittenAt(hs, n, start)
    requires out == hs[..|out|] && PutPairs(hs[|out|..]) <= here
    requires here == PutBytes(name) + PutBytes(value) + rest
    ensures out + [(name, value)] == hs[..|out| + 1] && PutPairs(hs[|out| + 1..]) <= rest
  {
    PairMatches(here, hs[|out|..], name, value);
    assert hs[|out|..][1..] == hs[|out| + 1..];
    assert here[|PutBytes(name)| + |PutBytes(value)|..] == rest;
    assert hs[..|out| + 1] == hs[..|out|] + [hs[|out|]];
  }

  lemma Regroup(a: seq<Byte>, b: seq<Byte>, c: seq<Byte>, d: seq<Byte>)
    ensures a + (b + (c + d)) == a + (b + c) + d && b + (c + d) == b + c + d
  {
  }

  /** One more pair was read. */
  lemma PairRead(n: nat, start: seq<Byte>, out: seq<Header>, here: seq<Byte>,
                 name: seq<Byte>, mid: seq<Byte>, value: seq<Byte>, rest: seq<Byte>)
    requires |start| < U64 && |out| < n && ReadSoFar(n, start, out, here) && Utf8(name)
    requires here == PutBytes(name) + mid && mid == PutBytes(value) + rest
    ensures ReadSoFar(n, start, out + [(name, value)], rest)
  {
    Regroup(PutPairs(out), PutBytes(name), PutBytes(value), rest);
    PutPairsAppend(out, name, value);
    var longer := out + [(name, value)];
    assert start == PutPairs(longer) + rest;
    forall hs: seq<Header> | WrittenAt(hs, n, start)
      ensures longer == hs[..|longer|] && PutPairs(hs[|longer|..]) <= rest
    {
      PairReadFor(n, start, out, here, name, value, rest, hs);
    }
  }

  lemma HeadersRead(whole: seq<Byte>, start: seq<Byte>, out: seq<Header>, rest: seq<Byte>)
    requires |out| < U64 && whole == ToLe(|out|, 8) + start && start == PutPairs(out) + rest
    ensures whole == PutHeaders(out) + rest && 16 * |out| <= |start|
  {
    PairsCost(out);
    Regroup3(ToLe(|out|, 8), PutPairs(out), rest);
  }

  /** Any list of `n` headers that was written goes on at the cursor. */
  lemma ListGoesOn(n: nat, whole: seq<Byte>, start: seq<Byte>, out: seq<Header>, here: seq<Byte>, hs: seq<Header>)
    requires |whole| < U64 && n < U64 && whole == ToLe(n, 8) + start && |out| < n && ReadSoFar(n, start, out, here)
    requires NamesOk(hs) && PutHeaders(hs) <= whole
    ensures |out| < |hs| && Utf8(hs[|out|].0)
    ensures PutBytes(hs[|out|].0) <= here && PutBytes(hs[|out|].1) <= here[|PutBytes(hs[|out|].0)|..]
  {
    CountMatches(whole, hs, n, start);
    PairFirst(here, hs[|out|..]);
  }

  /** No string at the cursor: no list of `n` headers was written. */
  lemma NoList(n: nat, whole: seq<Byte>, start: seq<Byte>, out: seq<Header>, here: seq<Byte>)
    requires |whole| < U64 && n < U64 && whole == ToLe(n, 8) + start && |out| < n && ReadSoFar(n, start, out, here)
    requires forall b :: Utf8(b) ==> !(PutBytes(b) <= here)
    ensures forall hs :: NamesOk(hs) ==> !(PutHeaders(hs) <= whole)
  {
    forall hs: seq<Header> | NamesOk(hs)
      ensures !(PutHeaders(hs) <= whole)
    {
      if PutHeaders(hs) <= whole { ListGoesOn(n, whole, start, out, here, hs); }
    }
  }

  /** Where the name written at the cursor ends, its value is written. */
  lemma ValueGoesOn(n: nat, whole: seq<Byte>, start: seq<Byte>, out: seq<Header>, here: seq<Byte>,
                    name: seq<Byte>, mid: seq<Byte>, hs: seq<Header>)
    requires |whole| < U64 && n < U64 && whole == ToLe(n, 8) + start && |out| < n && ReadSoFar(n, start, out, here)
    requires here == PutBytes(name) + mid && NamesOk(hs) && PutHeaders(hs) <= whole
    ensures |out| < |hs| && PutBytes(hs[|out|].1) <= mid
  {
    ListGoesOn(n, whole, start, out, here, hs);
    BytesUnique(here, hs[|out|].0, name);
    assert here[|PutBytes(name)|..] == mid;
  }

  lemma NoListAfterName(n: nat, whole: seq<Byte>, start: seq<Byte>, out: seq<Header>, here: seq<Byte>,
                        name: seq<Byte>, mid: seq<Byte>)
    requires |whole| < U64 && n < U64 && whole == ToLe(n, 8) + start && |out| < n && ReadSoFar(n, start, out, here)
    requires here == PutBytes(name) + mid && forall b :: !(PutBytes(b) <= mid)
    ensures forall hs :: NamesOk(hs) ==> !(PutHeaders(hs) <= whole)
  {
    forall hs: seq<Header> | NamesOk(hs)
      ensures !(PutHeaders(hs) <= whole)
    {
      if PutHeaders(hs) <= whole { ValueGoesOn(n, whole, start, out, here, name, mid, hs); }
    }
  }

  // ---------------------------------------------------------------------
  // The whole record
  // ---------------------------------------------------------------------

  ghost predicate IsPayload(payload: seq<Byte>, entry: CacheEntry) {
    entry.tags.None? && NamesOk(entry.headers) && PutEntry(entry) == payload
  }

  /** The payload as cut by the reader: status, version, headers, and `rest` behind them. */
  ghost predicate Cut(payload: seq<Byte>, status: nat, a: seq<Byte>, version: Byte, b: seq<Byte>) {
    |payload| < U64 && status < U16 && payload == ToLe(status, 2) + a && a == [version] + b
  }

  lemma CutAt(payload: seq<Byte>, status: seq<Byte>, a: seq<Byte>, version: Byte, b: seq<Byte>)
    requires payload == status + a && |status| == 2 && a == [version] + b
    ensures |payload| >= 3 && payload[..2] == status && payload[2] == version && payload[3..] == b
  {
  }

  lemma Rejoined(b: seq<Byte>, x: seq<Byte>, y: seq<Byte>)
    requires x <= b && b[|x|..] == y
    ensures b == x + y
  {
  }

  lemma CutEntry(payload: seq<Byte>, status: nat, a: seq<Byte>, version: Byte, b: seq<Byte>, entry: CacheEntry)
    requires Cut(payload, status, a, version, b) && IsPayload(payload, entry)
    ensures entry.status == status && VersionToU8(entry.version) == version
    ensures b == PutHeaders(entry.headers) + PutBytes(entry.body)
  {
    Widths();
    EntryParts(entry);
    CutAt(payload, ToLe(status, 2), a, version, b);
    ToLeInjective(entry.status, status, 2);
    Rejoined(b, PutHeaders(entry.headers), PutBytes(entry.body));
  }

  lemma NoHeaders(payload: seq<Byte>, status: nat, a: seq<Byte>, version: Byte, b: seq<Byte>)
    requires Cut(payload, status, a, version, b)
    requires forall hs :: NamesOk(hs) ==> !(PutHeaders(hs) <= b)
    ensures forall entry :: !IsPayload(payload, entry)
  {
    forall entry: CacheEntry
      ensures !IsPayload(payload, entry)
    {
      if IsPayload(payload, entry) { CutEntry(payload, status, a, version, b, entry); }
    }
  }

  /** Behind the headers that were read, the writer put the body and nothing else. */
  lemma BodyFollows(payload: seq<Byte>, status: nat, a: seq<Byte>, version: Byte, b: seq<Byte>,
                    headers: seq<Header>, rest: seq<Byte>)
    requires Cut(payload, status, a, version, b) && b == PutHeaders(headers) + rest
    ensures forall entry :: IsPayload(payload, entry) ==>
              entry.headers == headers && PutBytes(entry.body) == rest
              && entry.status == status && VersionToU8(entry.version) == version
  {
    forall entry | IsPayload(payload, entry)
      ensures entry.headers == headers && PutBytes(entry.body) == rest
      ensures entry.status == status && VersionToU8(entry.version) == version
    {
      CutEntry(payload, status, a, version, b, entry);
      HeadersUnique(b, entry.headers, headers);
      assert b[|PutHeaders(headers)|..] == rest;
    }
  }

  lemma TrailingBytes(rest: seq<Byte>, body: seq<Byte>, end: seq<Byte>)
    requires |rest| < U64 && rest == PutBytes(body) + end && end != []
    ensures forall b :: PutBytes(b) != rest
  {
    forall b: seq<Byte>
      ensures PutBytes(b) != rest
    {
      if PutBytes(b) == rest { BytesUnique(rest, b, body); }
    }
  }

  lemma PayloadRead(payload: seq<Byte>, status: nat, a: seq<Byte>, b: seq<Byte>, rest: seq<Byte>, entry: CacheEntry)
    requires Cut(payload, entry.status, a, VersionToU8(entry.version), b)
    requires b == PutHeaders(entry.headers) + rest && rest == PutBytes(entry.body)
    requires entry.tags.None? && NamesOk(entry.headers)
    ensures IsPayload(payload, entry)
  {
    var x, y, z := ToLe(entry.status, 2), [VersionToU8(entry.version)], PutHeaders(entry.headers);
    assert x + (y + (z + rest)) == x + y + z + rest;
  }

  method DecodePayload(payload: seq<Byte>) returns (r: Result<CacheEntry>)
    requires |payload| < U64
    ensures r.Ok? ==> IsPayload(payload, r.value)
    ensures r.Err? ==> forall entry :: !IsPayload(payload, entry)
  {
    var inner := new Cursor(payload);
    var status := inner.TakeU16();
    if status.Err? { return Err; }
    ghost var a := inner.Rest();
    var version := inner.TakeU8();
    if version.Err? { return Err; }
    ghost var b := inner.Rest();
    assert Cut(payload, status.value, a, version.value, b);
    var headers, _ := inner.TakeHeaders();
    if headers.Err? {
      NoHeaders(payload, status.value, a, version.value, b);
      return Err;
    }
    ghost var rest := inner.Rest();
    BodyFollows(payload, status.value, a, version.value, b, headers.value, rest);
    var body := inner.TakeBytes();
    if body.Err? { return Err; }
    ghost var end := inner.Rest();
    var finished := inner.Finish();
    if finished.Err? {
      TrailingBytes(rest, body.value, end);
      return Err;
    }
    VersionRoundTrip(HTTP_11, version.value);
    if !(100 <= status.value <= 999) { return Err; }
    if VersionFromU8(version.value).None? {
      UnknownVersion(version.value);
      return Err;
    }
    var entry := CacheEntry(status.value, VersionFromU8(version.value).value, headers.value, body.value, None);
    PayloadRead(payload, status.value, a, b, rest, entry);
    return Ok(entry);
  }

  lemma UnknownVersion(value: Byte)
    requires VersionFromU8(value).None?
    ensures forall version :: VersionToU8(version) != value
  {
  }

  /** `read` is the record these bytes were written from. */
  ghost predicate IsRecord(bytes: seq<Byte>, read: CacheRead) {
    Recordable(read) && Put(read) == bytes
  }

  /** A record written as these bytes has the payload that was read, followed by exactly two timestamps. */
  lemma RecordCut(bytes: seq<Byte>, payload: seq<Byte>, tail: seq<Byte>, read: CacheRead)
    requires |bytes| < U64 && bytes == PutBytes(payload) + tail && IsRecord(bytes, read)
    ensures |tail| == 16 && IsPayload(payload, read.entry)
  {
    RecordParts(PutEntry(read.entry), read.expiresAt.value, read.staleUntil.value);
    assert PutBytes(payload) <= bytes;
    BytesUnique(bytes, PutEntry(read.entry), payload);
  }

  lemma OnlyTwoTimestamps(bytes: seq<Byte>, payload: seq<Byte>, tail: seq<Byte>)
    requires |bytes| < U64 && bytes == PutBytes(payload) + tail
    ensures |tail| != 16 ==> forall read :: !IsRecord(bytes, read)
    ensures (forall entry :: !IsPayload(payload, entry)) ==> forall read :: !IsRecord(bytes, read)
  {
    forall read: CacheRead
      ensures IsRecord(bytes, read) ==> |tail| == 16 && IsPayload(payload, read.entry)
    {
      if IsRecord(bytes, read) { RecordCut(bytes, payload, tail, read); }
    }
  }

  lemma NoPayload(bytes: seq<Byte>)
    requires forall b :: !(PutBytes(b) <= bytes)
    ensures forall read :: !IsRecord(bytes, read)
  {
    forall read: CacheRead
      ensures !IsRecord(bytes, read)
    {
      if IsRecord(bytes, read) {
        RecordParts(PutEntry(read.entry), read.expiresAt.value, read.staleUntil.value);
      }
    }
  }

  lemma RecordRead(bytes: seq<Byte>, payload: seq<Byte>, a: seq<Byte>, b: seq<Byte>, expiresAt: nat, staleUntil: nat, entry: CacheEntry)
    requires bytes == PutBytes(payload) + a && a == ToLe(expiresAt, 8) + b && b == ToLe(staleUntil, 8) + []
    requires expiresAt < U64 && staleUntil < U64 && IsPayload(payload, entry)
    ensures IsRecord(bytes, CacheRead(entry, Some(expiresAt), Some(staleUntil)))
  {
    assert b == ToLe(staleUntil, 8);
    assert PutBytes(payload) + (ToLe(expiresAt, 8) + b) == PutBytes(payload) + ToLe(expiresAt, 8) + b;
  }

  /** The reader is the exact inverse of the writer: it accepts a buffer if and only if some
      record is written as exactly these bytes, and returns that record. */
  method DecodeLegacyRedis(bytes: seq<Byte>) returns (r: Result<CacheRead>)
    requires |bytes| < U64
    ensures r.Ok? ==> IsRecord(bytes, r.value)
    ensures r.Err? ==> forall read :: !IsRecord(bytes, read)
  {
    var cursor := new Cursor(bytes);
    var payload := cursor.TakeBytes();
    if payload.Err? {
      NoPayload(bytes);
      return Err;
    }
    ghost var a := cursor.Rest();
    OnlyTwoTimestamps(bytes, payload.value, a);
    var expiresAt := cursor.TakeU64();
    if expiresAt.Err? { return Err; }
    ghost var b := cursor.Rest();
    var staleUntil := cursor.TakeU64();
    if staleUntil.Err? { return Err; }
    var finished := cursor.Finish();
    if finished.Err? { return Err; }
    var entry := DecodePayload(payload.value);
    if entry.Err? { return Err; }
    RecordRead(bytes, payload.value, a, b, expiresAt.value, staleUntil.value, entry.value);
    return Ok(CacheRead(entry.value, Some(expiresAt.value), Some(staleUntil.value)));
  }

  /** Accepted buffers and records correspond one to one: every record has a buffer, which
      gives that record back and no other. */
  lemma RecordsAndBuffers(read: CacheRead, other: CacheRead)
    requires Recordable(read) && |Put(read)| < U64
    ensures IsRecord(Put(read), read)
    ensures IsRecord(Put(read), other) ==> other == read
  {
    if IsRecord(Put(read), other) { PutInjective(read, other); }
  }
}
