/**
 The record a 0.5.x writer put into Redis: its encoding, and why no two records
 share one.
 */
module LegacyFormat {
  import opened CacheTypes
  import opened Bytes
  import opened Utf8Text

  // ---------------------------------------------------------------------
  // The writer
  // ---------------------------------------------------------------------

  function VersionToU8(version: Version): Byte {
    match version
    case HTTP_09 => 0
    case HTTP_10 => 1
    case HTTP_11 => 2
    case HTTP_2 => 3
    case HTTP_3 => 4
  }

  function VersionFromU8(value: Byte): Option<Version> {
    match value
    case 0 => Some(HTTP_09)
    case 1 => Some(HTTP_10)
    case 2 => Some(HTTP_11)
    case 3 => Some(HTTP_2)
    case 4 => Some(HTTP_3)
    case _ => None
  }

  function PutBytes(b: seq<Byte>): seq<Byte> { ToLe(|b|, 8) + b }

  function PutPairs(headers: seq<Header>): seq<Byte> {
    if headers == [] then []
    else PutBytes(headers[0].0) + PutBytes(headers[0].1) + PutPairs(headers[1..])
  }

  function PutHeaders(headers: seq<Header>): seq<Byte> { ToLe(|headers|, 8) + PutPairs(headers) }

  function PutEntry(entry: CacheEntry): seq<Byte> {
    ToLe(entry.status, 2) + [VersionToU8(entry.version)] + PutHeaders(entry.headers) + PutBytes(entry.body)
  }

  function PutRecord(payload: seq<Byte>, expiresAt: nat, staleUntil: nat): seq<Byte> {
    PutBytes(payload) + ToLe(expiresAt, 8) + ToLe(staleUntil, 8)
  }

  ghost predicate NamesOk(headers: seq<Header>) { forall i :: 0 <= i < |headers| ==> Utf8(headers[i].0) }

  /** What a 0.5.x record can say: two timestamps, UTF-8 header names, no tags. */
  ghost predicate Recordable(read: CacheRead) {
    && read.expiresAt.Some? && read.expiresAt.value < U64
    && read.staleUntil.Some? && read.staleUntil.value < U64
    && read.entry.tags.None? && NamesOk(read.entry.headers)
  }

  function Put(read: CacheRead): seq<Byte>
    requires read.expiresAt.Some? && read.staleUntil.Some?
  {
    PutRecord(PutEntry(read.entry), read.expiresAt.value, read.staleUntil.value)
  }

  // ---------------------------------------------------------------------
  // No two values start the same bytes
  // ---------------------------------------------------------------------

  lemma ToLeInjective(m: nat, n: nat, w: nat)
    requires m < Pow256(w) && n < Pow256(w) && ToLe(m, w) == ToLe(n, w)
    ensures m == n
  {
    FromToLe(m, w);
    FromToLe(n, w);
  }

  lemma PrefixesAgree(rest: seq<Byte>, x: seq<Byte>, y: seq<Byte>)
    requires x <= rest && y <= rest && |x| == |y|
    ensures x == y
  {
  }

  lemma NumberUnique(rest: seq<Byte>, m: nat, n: nat, w: nat)
    requires m < Pow256(w) && n < Pow256(w) && ToLe(m, w) <= rest && ToLe(n, w) <= rest
    ensures m == n
  {
    PrefixesAgree(rest, ToLe(m, w), ToLe(n, w));
    ToLeInjective(m, n, w);
  }

  lemma BytesUnique(rest: seq<Byte>, b: seq<Byte>, c: seq<Byte>)
    requires |rest| < U64 && PutBytes(b) <= rest && PutBytes(c) <= rest
    ensures b == c
  {
    Widths();
    assert ToLe(|b|, 8) <= PutBytes(b) && ToLe(|c|, 8) <= PutBytes(c);
    NumberUnique(rest, |b|, |c|, 8);
    PrefixesAgree(rest, PutBytes(b), PutBytes(c));
    assert b == PutBytes(b)[8..] && c == PutBytes(c)[8..];
  }

  lemma PrefixParts(rest: seq<Byte>, x: seq<Byte>, y: seq<Byte>, z: seq<Byte>)
    requires x + y + z <= rest
    ensures x <= rest && y <= rest[|x|..] && z <= rest[|x| + |y|..]
  {
    assert rest[..|x|] == x;
    assert rest[|x|..][..|y|] == y;
    assert rest[|x| + |y|..][..|z|] == z;
  }

  /** A non-empty list of pairs written at the start of `rest`, read one pair further. */
  lemma PairFirst(rest: seq<Byte>, headers: seq<Header>)
    requires headers != [] && PutPairs(headers) <= rest
    ensures var name, value := PutBytes(headers[0].0), PutBytes(headers[0].1);
            && name <= rest && value <= rest[|name|..]
            && PutPairs(headers[1..]) <= rest[|name| + |value|..]
  {
    PrefixParts(rest, PutBytes(headers[0].0), PutBytes(headers[0].1), PutPairs(headers[1..]));
  }

  lemma {:induction false} PairsUnique(rest: seq<Byte>, a: seq<Header>, b: seq<Header>)
    requires |rest| < U64 && |a| == |b| && PutPairs(a) <= rest && PutPairs(b) <= rest
    ensures a == b
  {
    if a != [] {
      PairFirst(rest, a);
      PairFirst(rest, b);
      BytesUnique(rest, a[0].0, b[0].0);
      BytesUnique(rest[|PutBytes(a[0].0)|..], a[0].1, b[0].1);
      PairsUnique(rest[|PutBytes(a[0].0)| + |PutBytes(a[0].1)|..], a[1..], b[1..]);
      assert a == [a[0]] + a[1..] && b == [b[0]] + b[1..];
    }
  }

  lemma {:induction false} PairsCost(headers: seq<Header>)
    ensures |PutPairs(headers)| >= 16 * |headers|
  {
    if headers != [] { PairsCost(headers[1..]); }
  }

  lemma HeadersUnique(rest: seq<Byte>, a: seq<Header>, b: seq<Header>)
    requires |rest| < U64 && PutHeaders(a) <= rest && PutHeaders(b) <= rest
    ensures a == b
  {
    Widths();
    PairsCost(a);
    PairsCost(b);
    assert ToLe(|a|, 8) <= PutHeaders(a) && ToLe(|b|, 8) <= PutHeaders(b);
    NumberUnique(rest, |a|, |b|, 8);
    assert PutPairs(a) == PutHeaders(a)[8..] && PutPairs(b) == PutHeaders(b)[8..];
    PairsUnique(rest[8..], a, b);
  }

  lemma VersionRoundTrip(version: Version, value: Byte)
    ensures VersionFromU8(VersionToU8(version)) == Some(version)
    ensures VersionFromU8(value).Some? <==> value <= 4
    ensures VersionFromU8(value).Some? ==> VersionToU8(VersionFromU8(value).value) == value
    ensures VersionToU8(HTTP_09) == 0 && VersionToU8(HTTP_10) == 1 && VersionToU8(HTTP_11) == 2
    ensures VersionToU8(HTTP_2) == 3 && VersionToU8(HTTP_3) == 4
  {
  }

  lemma EntryParts(entry: CacheEntry)
    ensures var b := PutEntry(entry);
            && b[..2] == ToLe(entry.status, 2) && b[2] == VersionToU8(entry.version)
            && PutHeaders(entry.headers) <= b[3..]
            && b[3..][|PutHeaders(entry.headers)|..] == PutBytes(entry.body)
  {
    assert PutEntry(entry)[3..] == PutHeaders(entry.headers) + PutBytes(entry.body);
  }

  lemma EntryInjective(a: CacheEntry, b: CacheEntry)
    requires PutEntry(a) == PutEntry(b) && |PutEntry(a)| < U64 && a.tags.None? && b.tags.None?
    ensures a == b
  {
    Widths();
    EntryParts(a);
    EntryParts(b);
    ToLeInjective(a.status, b.status, 2);
    VersionRoundTrip(a.version, 0);
    VersionRoundTrip(b.version, 0);
    HeadersUnique(PutEntry(a)[3..], a.headers, b.headers);
    BytesUnique(PutBytes(a.body), a.body, b.body);
  }

  lemma RecordParts(payload: seq<Byte>, expiresAt: nat, staleUntil: nat)
    ensures var b := PutRecord(payload, expiresAt, staleUntil);
            && PutBytes(payload) <= b && |b| == |payload| + 24
            && b[..8] == ToLe(|payload|, 8) && b[8..8 + |payload|] == payload
            && b[8 + |payload|..16 + |payload|] == ToLe(expiresAt, 8)
            && b[16 + |payload|..] == ToLe(staleUntil, 8)
  {
  }

  /** Different records are written as different bytes. */
  lemma PutInjective(a: CacheRead, b: CacheRead)
    requires Recordable(a) && Recordable(b) && Put(a) == Put(b) && |Put(a)| < U64
    ensures a == b
  {
    Widths();
    RecordParts(PutEntry(a.entry), a.expiresAt.value, a.staleUntil.value);
    RecordParts(PutEntry(b.entry), b.expiresAt.value, b.staleUntil.value);
    BytesUnique(Put(a), PutEntry(a.entry), PutEntry(b.entry));
    EntryInjective(a.entry, b.entry);
    ToLeInjective(a.expiresAt.value, b.expiresAt.value, 8);
    ToLeInjective(a.staleUntil.value, b.staleUntil.value, 8);
  }

  function HeaderBytes(headers: seq<Header>): nat {
    if headers == [] then 0 else 16 + |headers[0].0| + |headers[0].1| + HeaderBytes(headers[1..])
  }

  lemma {:induction false} PairsLength(headers: seq<Header>)
    ensures |PutPairs(headers)| == HeaderBytes(headers)
  {
    if headers != [] { PairsLength(headers[1..]); }
  }

  /** The size of a record: 43 bytes, 16 and the contents for each header, and the body. */
  lemma RecordLength(read: CacheRead)
    requires Recordable(read)
    ensures |Put(read)| == 43 + HeaderBytes(read.entry.headers) + |read.entry.body|
  {
    PairsLength(read.entry.headers);
  }

  // ---------------------------------------------------------------------
  // The layout, by offsets
  // ---------------------------------------------------------------------

  /** `piece` lies at offset `at`. */
  ghost predicate At(b: seq<Byte>, at: nat, piece: seq<Byte>) { at + |piece| <= |b| && b[at..at + |piece|] == piece }

  lemma Parts(b: seq<Byte>, at: nat, x: seq<Byte>, y: seq<Byte>)
    requires At(b, at, x + y)
    ensures At(b, at, x) && At(b, at + |x|, y)
  {
    var piece := b[at..at + |x + y|];
    assert piece[..|x|] == x && piece[|x|..] == y;
  }

  /** The `w` bytes at offset `at` read as `n`. */
  ghost predicate Reads(b: seq<Byte>, at: nat, w: nat, n: nat) { at + w <= |b| && FromLe(b[at..at + w]) == n }

  lemma NumberAt(b: seq<Byte>, at: nat, n: nat, w: nat)
    requires At(b, at, ToLe(n, w)) && n < Pow256(w)
    ensures Reads(b, at, w, n)
  {
    FromToLe(n, w);
  }

  /** A length-prefixed byte string at offset `at`. */
  ghost predicate BytesAt(b: seq<Byte>, at: nat, content: seq<Byte>) {
    Reads(b, at, 8, |content|) && At(b, at + 8, content)
  }

  lemma BytesPut(b: seq<Byte>, at: nat, content: seq<Byte>)
    requires At(b, at, PutBytes(content)) && |b| < U64
    ensures BytesAt(b, at, content)
  {
    Widths();
    Parts(b, at, ToLe(|content|, 8), content);
    NumberAt(b, at, |content|, 8);
  }

  lemma FirstHeader(headers: seq<Header>, i: nat)
    requires 0 < i < |headers|
    ensures HeaderBytes(headers[..i]) == 16 + |headers[0].0| + |headers[0].1| + HeaderBytes(headers[1..][..i - 1])
    ensures headers[i] == headers[1..][i - 1]
  {
    assert headers[..i][1..] == headers[1..][..i - 1];
  }

  function PutPair(header: Header): seq<Byte> { PutBytes(header.0) + PutBytes(header.1) }

  lemma PairAt(b: seq<Byte>, at: nat, header: Header)
    requires At(b, at, PutPair(header)) && |b| < U64
    ensures BytesAt(b, at, header.0) && BytesAt(b, at + 8 + |header.0|, header.1)
  {
    Parts(b, at, PutBytes(header.0), PutBytes(header.1));
    BytesPut(b, at, header.0);
    BytesPut(b, at + 8 + |header.0|, header.1);
  }

  /** A header, its name and then its value, behind those before it. */
  ghost predicate HeaderLies(b: seq<Byte>, at: nat, header: Header) {
    BytesAt(b, at, header.0) && BytesAt(b, at + 8 + |header.0|, header.1)
  }

  lemma FirstPair(b: seq<Byte>, at: nat, headers: seq<Header>)
    requires headers != [] && At(b, at, PutPairs(headers))
    ensures At(b, at, PutPair(headers[0]))
    ensures At(b, at + 16 + |headers[0].0| + |headers[0].1|, PutPairs(headers[1..]))
  {
    Parts(b, at, PutBytes(headers[0].0) + PutBytes(headers[0].1), PutPairs(headers[1..]));
  }

  lemma {:induction false} HeaderAt(b: seq<Byte>, at: nat, headers: seq<Header>, i: nat)
    requires i < |headers| && At(b, at, PutPairs(headers))
    ensures At(b, at + HeaderBytes(headers[..i]), PutPair(headers[i]))
    decreases i
  {
    FirstPair(b, at, headers);
    if i > 0 {
      FirstHeader(headers, i);
      HeaderAt(b, at + 16 + |headers[0].0| + |headers[0].1|, headers[1..], i - 1);
    }
  }

  /** The headers, one after the other. */
  ghost predicate HeadersAt(b: seq<Byte>, at: nat, headers: seq<Header>) {
    forall i: nat :: i < |headers| ==> HeaderLies(b, at + HeaderBytes(headers[..i]), headers[i])
  }

  lemma HeadersLie(b: seq<Byte>, at: nat, headers: seq<Header>)
    requires At(b, at, PutPairs(headers)) && |b| < U64
    ensures HeadersAt(b, at, headers)
  {
    forall i: nat | i < |headers|
      ensures HeaderLies(b, at + HeaderBytes(headers[..i]), headers[i])
    {
      HeaderAt(b, at, headers, i);
      PairAt(b, at + HeaderBytes(headers[..i]), headers[i]);
    }
  }

  lemma EntryCut(b: seq<Byte>, at: nat, entry: CacheEntry)
    requires At(b, at, PutEntry(entry))
    ensures At(b, at, ToLe(entry.status, 2)) && At(b, at + 2, ToLe(VersionToU8(entry.version), 1))
    ensures At(b, at + 3, ToLe(|entry.headers|, 8)) && At(b, at + 11, PutPairs(entry.headers))
    ensures At(b, at + 11 + HeaderBytes(entry.headers), PutBytes(entry.body))
  {
    var status, version := ToLe(entry.status, 2), [VersionToU8(entry.version)];
    PairsLength(entry.headers);
    Parts(b, at, status + version + PutHeaders(entry.headers), PutBytes(entry.body));
    Parts(b, at, status + version, PutHeaders(entry.headers));
    Parts(b, at, status, version);
    Parts(b, at + 3, ToLe(|entry.headers|, 8), PutPairs(entry.headers));
    assert version == ToLe(VersionToU8(entry.version), 1);
  }

  /** Status, version byte, number of headers, the headers, and the body. */
  ghost predicate EntryLies(b: seq<Byte>, at: nat, entry: CacheEntry) {
    && Reads(b, at, 2, entry.status) && Reads(b, at + 2, 1, VersionToU8(entry.version))
    && Reads(b, at + 3, 8, |entry.headers|) && HeadersAt(b, at + 11, entry.headers)
    && BytesAt(b, at + 11 + HeaderBytes(entry.headers), entry.body)
  }

  lemma EntryAt(b: seq<Byte>, at: nat, entry: CacheEntry)
    requires At(b, at, PutEntry(entry)) && |b| < U64 && |entry.headers| < U64
    ensures EntryLies(b, at, entry)
  {
    Widths();
    EntryCut(b, at, entry);
    NumberAt(b, at, entry.status, 2);
    NumberAt(b, at + 2, VersionToU8(entry.version), 1);
    NumberAt(b, at + 3, |entry.headers|, 8);
    HeadersLie(b, at + 11, entry.headers);
    BytesPut(b, at + 11 + HeaderBytes(entry.headers), entry.body);
  }

  lemma RecordAt(b: seq<Byte>, payload: seq<Byte>, expiresAt: nat, staleUntil: nat)
    requires b == PutRecord(payload, expiresAt, staleUntil) && expiresAt < U64 && staleUntil < U64 && |payload| < U64
    ensures |b| == |payload| + 24 && BytesAt(b, 0, payload)
    ensures Reads(b, |payload| + 8, 8, expiresAt) && Reads(b, |payload| + 16, 8, staleUntil)
  {
    Widths();
    var x, y := ToLe(expiresAt, 8), ToLe(staleUntil, 8);
    assert At(b, 0, PutBytes(payload) + x + y);
    Parts(b, 0, PutBytes(payload) + x, y);
    Parts(b, 0, PutBytes(payload), x);
    Parts(b, 0, ToLe(|payload|, 8), payload);
    NumberAt(b, 0, |payload|, 8);
    NumberAt(b, 8 + |payload|, expiresAt, 8);
    NumberAt(b, 16 + |payload|, staleUntil, 8);
  }

  /** The payload length, the entry behind it, and both timestamps at the end. */
  ghost predicate RecordLies(b: seq<Byte>, entry: CacheEntry, expiresAt: nat, staleUntil: nat) {
    && |b| == 43 + HeaderBytes(entry.headers) + |entry.body|
    && Reads(b, 0, 8, |b| - 24) && EntryLies(b, 8, entry)
    && Reads(b, |b| - 16, 8, expiresAt) && Reads(b, |b| - 8, 8, staleUntil)
  }

  lemma PayloadLies(b: seq<Byte>, payload: seq<Byte>, entry: CacheEntry)
    requires BytesAt(b, 0, payload) && payload == PutEntry(entry) && |b| < U64 && |entry.headers| < U64
    ensures EntryLies(b, 8, entry)
  {
    EntryAt(b, 8, entry);
  }

  lemma Ends(b: seq<Byte>, payload: seq<Byte>, expiresAt: nat, staleUntil: nat)
    requires b == PutRecord(payload, expiresAt, staleUntil) && expiresAt < U64 && staleUntil < U64 && |payload| < U64
    ensures |b| == |payload| + 24 && BytesAt(b, 0, payload) && Reads(b, 0, 8, |b| - 24)
    ensures Reads(b, |b| - 16, 8, expiresAt) && Reads(b, |b| - 8, 8, staleUntil)
  {
    RecordAt(b, payload, expiresAt, staleUntil);
  }

  /** Where everything lies in a record. */
  lemma RecordLayout(read: CacheRead)
    requires Recordable(read) && |Put(read)| < U64
    ensures RecordLies(Put(read), read.entry, read.expiresAt.value, read.staleUntil.value)
  {
    RecordLength(read);
    FewHeaders(read);
    Laid(Put(read), PutEntry(read.entry), read.entry, read.expiresAt.value, read.staleUntil.value);
  }

  lemma Laid(b: seq<Byte>, payload: seq<Byte>, entry: CacheEntry, expiresAt: nat, staleUntil: nat)
    requires b == PutRecord(payload, expiresAt, staleUntil) && payload == PutEntry(entry) && |b| < U64
    requires |b| == 43 + HeaderBytes(entry.headers) + |entry.body| && |entry.headers| < U64
    requires expiresAt < U64 && staleUntil < U64
    ensures RecordLies(b, entry, expiresAt, staleUntil)
  {
    assert |payload| < |b|;
    Ends(b, payload, expiresAt, staleUntil);
    PayloadLies(b, payload, entry);
  }

  lemma FewHeaders(read: CacheRead)
    requires Recordable(read) && |Put(read)| < U64
    ensures |read.entry.headers| < U64
  {
    PairsCost(read.entry.headers);
  }
}
