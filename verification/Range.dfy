/** Range requests, and the header texts around them (sections 2.1 and 4.2 of RFC 7233). */
module Range {
  import opened CacheTypes
  import opened Decimal

  datatype RangeRequest = RangeRequest(start: nat, end: Option<nat>) {

    predicate IsSatisfiable(total: nat) {
      if start >= total then false
      else if end.Some? && (end.value >= total || end.value < start) then false
      else true
    }

    /** A definite range, for exactly the satisfiable requests; it lies within the body. */
    function Normalize(total: nat): (r: Option<RangeRequest>)
      ensures r.Some? <==> start < total && (end.None? || start <= end.value < total)
      ensures r.Some? ==> r.value.start == start && r.value.end.Some? && start <= r.value.end.value < total
      ensures r.Some? ==> r.value.end.value == (if end.Some? then end.value else total - 1)
    {
      if !IsSatisfiable(total) then None
      else
        var last := if total == 0 then 0 else total - 1;
        var e := if end.Some? then end.value else last;
        Some(RangeRequest(start, Some(if e < last then e else last)))
    }
  }

  // ---------------------------------------------------------------------
  // Header texts
  // ---------------------------------------------------------------------

  /** `str::split` at every occurrence of `c`. */
  function Split(s: string, c: char): (parts: seq<string>)
    ensures parts != []
  {
    if s == "" then [""]
    else
      var rest := Split(s[1..], c);
      if s[0] == c then [""] + rest else [[s[0]] + rest[0]] + rest[1..]
  }

  predicate IsSpace(c: char) { c == ' ' || c == '\t' }

  function TrimLeft(s: string): string { if s != "" && IsSpace(s[0]) then TrimLeft(s[1..]) else s }

  function TrimRight(s: string): string {
    if s != "" && IsSpace(s[|s| - 1]) then TrimRight(s[..|s| - 1]) else s
  }

  /** `str::trim` on header text, where space and tab are the only white space. */
  function Trim(s: string): string { TrimRight(TrimLeft(s)) }

  function ParsePart(s: string): Option<nat> { ParseU64(Trim(s)) }

  /** One range, `start-end` or `start-`. */
  function ParseRangeSpec(spec: string): Option<RangeRequest> {
    var parts := Split(spec, '-');
    if |parts| != 2 then None
    else if ParsePart(parts[0]).None? then None
    else if Trim(parts[1]) == "" then Some(RangeRequest(ParsePart(parts[0]).value, None))
    else if ParsePart(parts[1]).None? then None
    else Some(RangeRequest(ParsePart(parts[0]).value, ParsePart(parts[1])))
  }

  /** Only the first of a list of ranges is looked at. */
  function ParseRangeHeader(header: Option<string>): Option<RangeRequest> {
    if header.None? || !("bytes=" <= header.value) then None
    else ParseRangeSpec(Split(header.value[6..], ',')[0])
  }

  function BuildContentRange(start: nat, end: nat, total: nat): string {
    "bytes " + Dec(start) + "-" + Dec(end) + "/" + Dec(total)
  }

  function ParseContentSpec(spec: string): Option<(nat, nat, nat)> {
    var parts := Split(spec, '/');
    if |parts| != 2 then None
    else
      var range := Split(parts[0], '-');
      if |range| != 2 then None
      else
        var start, end, total := ParsePart(range[0]), ParsePart(range[1]), ParsePart(parts[1]);
        if start.None? || end.None? || total.None? then None else Some((start.value, end.value, total.value))
  }

  function ParseContentRange(header: Option<string>): Option<(nat, nat, nat)> {
    if header.None? || !("bytes " <= header.value) then None else ParseContentSpec(header.value[6..])
  }

  // ---------------------------------------------------------------------
  // Reading back what was written
  // ---------------------------------------------------------------------

  lemma {:induction false} SplitNone(s: string, c: char)
    requires c !in s
    ensures Split(s, c) == [s]
  {
    if s != "" {
      SplitNone(s[1..], c);
      assert [s[0]] + s[1..] == s;
    }
  }

  lemma {:induction false} SplitFirst(s: string, c: char, rest: string)
    requires c !in s
    ensures Split(s + [c] + rest, c) == [s] + Split(rest, c)
  {
    var text := s + [c] + rest;
    if s == "" {
      assert text[1..] == rest;
    } else {
      SplitFirst(s[1..], c, rest);
      assert text[1..] == s[1..] + [c] + rest;
      assert [s[0]] + s[1..] == s;
    }
  }

  lemma SplitTwo(a: string, c: char, b: string)
    requires c !in a && c !in b
    ensures Split(a + [c] + b, c) == [a, b]
  {
    SplitFirst(a, c, b);
    SplitNone(b, c);
  }

  lemma DigitsPlain(s: string)
    requires AllDigits(s)
    ensures Trim(s) == s && '-' !in s && '/' !in s && ',' !in s
  {
  }

  lemma PartReadsBack(n: nat)
    requires n <= U64_MAX
    ensures ParsePart(Dec(n)) == Some(n) && Trim(Dec(n)) == Dec(n) && Dec(n) != ""
    ensures '-' !in Dec(n) && '/' !in Dec(n) && ',' !in Dec(n)
  {
    DigitsPlain(Dec(n));
    ParseDec(n);
  }

  lemma NotIn(c: char, a: string, b: string, d: string)
    requires c !in a && c !in b && c !in d
    ensures c !in a + b + d
  {
  }

  lemma ContentSpecReadsBack(start: nat, end: nat, total: nat)
    requires start <= U64_MAX && end <= U64_MAX && total <= U64_MAX
    ensures ParseContentSpec(Dec(start) + ['-'] + Dec(end) + ['/'] + Dec(total)) == Some((start, end, total))
  {
    PartReadsBack(start);
    PartReadsBack(end);
    PartReadsBack(total);
    NotIn('/', Dec(start), ['-'], Dec(end));
    SplitTwo(Dec(start) + ['-'] + Dec(end), '/', Dec(total));
    SplitTwo(Dec(start), '-', Dec(end));
  }

  lemma Prefixed(p: string, a: string, b: string, c: string, d: string, e: string)
    ensures p + a + b + c + d + e == p + (a + b + c + d + e)
    ensures p <= p + a + b + c + d + e && (p + a + b + c + d + e)[|p|..] == a + b + c + d + e
  {
  }

  /** A `Content-Range` text parses back to the triple it was built from, for all 64-bit values. */
  lemma ContentRangeReadsBack(start: nat, end: nat, total: nat)
    requires start <= U64_MAX && end <= U64_MAX && total <= U64_MAX
    ensures ParseContentRange(Some(BuildContentRange(start, end, total))) == Some((start, end, total))
  {
    ContentSpecReadsBack(start, end, total);
    Prefixed("bytes ", Dec(start), "-", Dec(end), "/", Dec(total));
  }

  lemma RangeSpecReadsBack(start: nat, end: Option<nat>)
    requires start <= U64_MAX && (end.Some? ==> end.value <= U64_MAX)
    ensures var spec := Dec(start) + ['-'] + LastByte(end);
            ',' !in spec && ParseRangeSpec(spec) == Some(RangeRequest(start, end))
  {
    PartReadsBack(start);
    LastByteReadsBack(end);
    NotIn(',', Dec(start), ['-'], LastByte(end));
    SplitTwo(Dec(start), '-', LastByte(end));
  }

  lemma LastByteReadsBack(end: Option<nat>)
    requires end.Some? ==> end.value <= U64_MAX
    ensures '-' !in LastByte(end) && ',' !in LastByte(end)
    ensures if end.Some? then Trim(LastByte(end)) != "" && ParsePart(LastByte(end)) == end else Trim(LastByte(end)) == ""
  {
    if end.Some? { PartReadsBack(end.value); }
  }

  function LastByte(end: Option<nat>): string { if end.Some? then Dec(end.value) else "" }

  lemma FirstOfList(spec: string, more: string)
    requires ',' !in spec && (more == "" || more[0] == ',')
    ensures Split(spec + more, ',')[0] == spec
  {
    if more == "" {
      assert spec + more == spec;
      SplitNone(spec, ',');
    } else {
      assert spec + more == spec + [','] + more[1..];
      SplitFirst(spec, ',', more[1..]);
    }
  }

  /** A `Range` text of one or more ranges is read as its first one, closed or open-ended. */
  lemma RangeReadsBack(start: nat, end: Option<nat>, more: string)
    requires start <= U64_MAX && (end.Some? ==> end.value <= U64_MAX) && (more == "" || more[0] == ',')
    ensures ParseRangeHeader(Some("bytes=" + Dec(start) + "-" + LastByte(end) + more)) == Some(RangeRequest(start, end))
  {
    RangeSpecReadsBack(start, end);
    FirstOfList(Dec(start) + ['-'] + LastByte(end), more);
    Prefixed("bytes=", Dec(start), "-", LastByte(end), more, "");
    assert "bytes=" + Dec(start) + "-" + LastByte(end) + more + "" == "bytes=" + Dec(start) + "-" + LastByte(end) + more;
    assert Dec(start) + "-" + LastByte(end) + more + "" == Dec(start) + ['-'] + LastByte(end) + more;
  }

  /** A suffix range, which has no first byte, is never accepted. */
  lemma SuffixRangeRefused(rest: string)
    ensures ParseRangeHeader(Some("bytes=-" + rest)) == None
  {
    var spec := ("bytes=-" + rest)[6..];
    assert spec == "-" + rest;
    var first := Split(spec, ',')[0];
    assert spec[1..] == rest;
    assert first == "-" + Split(rest, ',')[0];
    assert first[1..] == Split(rest, ',')[0];
    assert Split(first, '-')[0] == "";
  }
}
