/** Exactly which header texts the range parsers accept, and as what. */
module RangeGrammar {
  import opened CacheTypes
  import opened Decimal
  import opened Range

  // ---------------------------------------------------------------------
  // Numbers
  // ---------------------------------------------------------------------

  /** Digits, perhaps after a plus sign, that denote `n` within 64 bits. */
  ghost predicate Numeral(s: string, n: nat) {
    exists digits :: (s == digits || s == "+" + digits) && digits != "" && AllDigits(digits) && Value(digits) == n <= U64_MAX
  }

  lemma NumeralExactly(s: string, n: nat)
    ensures ParseU64(s) == Some(n) <==> Numeral(s, n)
  {
    var own := if s != "" && s[0] == '+' then s[1..] else s;
    assert own != s ==> s == "+" + own;
    forall digits | (s == digits || s == "+" + digits) && digits != "" && AllDigits(digits)
      ensures digits == own
    {
      assert ("+" + digits)[1..] == digits;
      if s == digits { assert IsDigit(s[0]); }
    }
  }

  // ---------------------------------------------------------------------
  // White space
  // ---------------------------------------------------------------------

  predicate AllSpace(s: string) { forall i :: 0 <= i < |s| ==> IsSpace(s[i]) }

  /** `core` between white space, and without any at its ends. */
  ghost predicate Padded(s: string, core: string, left: string, right: string) {
    && s == left + core + right && AllSpace(left) && AllSpace(right)
    && (core != "" ==> !IsSpace(core[0]) && !IsSpace(core[|core| - 1]))
  }

  lemma {:induction false} LeftTrimmed(s: string) returns (left: string)
    ensures s == left + TrimLeft(s) && AllSpace(left) && (TrimLeft(s) != "" ==> !IsSpace(TrimLeft(s)[0]))
  {
    left := "";
    if s != "" && IsSpace(s[0]) {
      var rest := LeftTrimmed(s[1..]);
      left := [s[0]] + rest;
      assert s == [s[0]] + s[1..];
    }
  }

  lemma {:induction false} RightTrimmed(s: string) returns (right: string)
    ensures s == TrimRight(s) + right && AllSpace(right)
    ensures TrimRight(s) != "" ==> !IsSpace(TrimRight(s)[|TrimRight(s)| - 1])
    decreases |s|
  {
    right := "";
    if s != "" && IsSpace(s[|s| - 1]) {
      var front := s[..|s| - 1];
      var rest := RightTrimmed(front);
      right := rest + [s[|s| - 1]];
      assert s == front + [s[|s| - 1]];
    }
  }

  lemma {:induction false} SkipsLeft(left: string, t: string)
    requires AllSpace(left) && (t != "" ==> !IsSpace(t[0]))
    ensures TrimLeft(left + t) == t
  {
    if left == "" {
      assert left + t == t;
    } else {
      SkipsLeft(left[1..], t);
      assert (left + t)[1..] == left[1..] + t;
    }
  }

  lemma {:induction false} SkipsRight(t: string, right: string)
    requires AllSpace(right) && (t != "" ==> !IsSpace(t[|t| - 1]))
    ensures TrimRight(t + right) == t
    decreases |right|
  {
    if right == "" {
      assert t + right == t;
    } else {
      var n := |right| - 1;
      SkipsRight(t, right[..n]);
      assert (t + right)[..|t + right| - 1] == t + right[..n];
    }
  }

  lemma {:induction false} AllTrimmed(s: string)
    requires AllSpace(s)
    ensures TrimLeft(s) == ""
  {
    if s != "" { AllTrimmed(s[1..]); }
  }

  /** `Trim` finds the one text without outer white space that the text pads. */
  lemma TrimExactly(s: string, core: string)
    ensures Trim(s) == core <==> exists left, right :: Padded(s, core, left, right)
  {
    if Trim(s) == core {
      var left := LeftTrimmed(s);
      var right := RightTrimmed(TrimLeft(s));
      assert core != "" ==> core[0] == TrimLeft(s)[0];
      assert s == left + core + right;
      assert Padded(s, core, left, right);
    }
    if left, right :| Padded(s, core, left, right) {
      if core == "" {
        AllTrimmed(s);
      } else {
        assert s == left + (core + right);
        SkipsLeft(left, core + right);
        SkipsRight(core, right);
      }
    }
  }

  // ---------------------------------------------------------------------
  // Separators
  // ---------------------------------------------------------------------

  lemma {:induction false} SplitsFirst(s: string, c: char) returns (more: string)
    ensures s == Split(s, c)[0] + more && c !in Split(s, c)[0]
    ensures if more == "" then |Split(s, c)| == 1 else more[0] == c && Split(s, c)[1..] == Split(more[1..], c)
  {
    if s == "" {
      more := "";
    } else if s[0] == c {
      more := s;
    } else {
      more := SplitsFirst(s[1..], c);
      assert s == [s[0]] + s[1..];
    }
  }

  /** A text splits in two parts exactly at its only separator. */
  lemma SplitsInTwo(s: string, c: char, a: string, b: string)
    ensures Split(s, c) == [a, b] <==> c !in a && c !in b && s == a + [c] + b
  {
    if Split(s, c) == [a, b] {
      var more := SplitsFirst(s, c);
      var last := SplitsFirst(more[1..], c);
      assert Split(more[1..], c) == [b];
      assert more == [c] + more[1..] && more[1..] == b + last;
      assert last == "";
    }
    if c !in a && c !in b && s == a + [c] + b { SplitTwo(a, c, b); }
  }

  // ---------------------------------------------------------------------
  // The range header
  // ---------------------------------------------------------------------

  ghost predicate Part(s: string, n: nat) { Numeral(Trim(s), n) }

  /** `x-y`: a first byte, and a last byte or nothing. */
  ghost predicate RangeSpec(spec: string, x: string, y: string, request: RangeRequest) {
    && '-' !in x && '-' !in y && spec == x + ['-'] + y && Part(x, request.start)
    && (if Trim(y) == "" then request.end == None else request.end.Some? && Part(y, request.end.value))
  }

  lemma SpecExactly(spec: string, request: RangeRequest)
    ensures ParseRangeSpec(spec) == Some(request) <==> exists x, y :: RangeSpec(spec, x, y, request)
  {
    if ParseRangeSpec(spec) == Some(request) {
      var x, y := Split(spec, '-')[0], Split(spec, '-')[1];
      assert Split(spec, '-') == [x, y];
      SplitsInTwo(spec, '-', x, y);
      NumeralExactly(Trim(x), request.start);
      if request.end.Some? { NumeralExactly(Trim(y), request.end.value); }
      assert RangeSpec(spec, x, y, request);
    }
    if x, y :| RangeSpec(spec, x, y, request) {
      SplitsInTwo(spec, '-', x, y);
      NumeralExactly(Trim(x), request.start);
      if request.end.Some? { NumeralExactly(Trim(y), request.end.value); }
    }
  }

  /** The unit `bytes=`, one range, and perhaps more behind a comma. */
  ghost predicate RangeHeader(header: string, spec: string, more: string, request: RangeRequest) {
    && header == "bytes=" + spec + more && ',' !in spec && (more == "" || more[0] == ',')
    && exists x, y :: RangeSpec(spec, x, y, request)
  }

  lemma HeaderIsRead(header: string, spec: string, more: string, request: RangeRequest)
    requires RangeHeader(header, spec, more, request)
    ensures ParseRangeHeader(Some(header)) == Some(request)
  {
    SpecExactly(spec, request);
    FirstOfList(spec, more);
    Unit("bytes=", spec, more);
  }

  lemma Unit(unit: string, spec: string, more: string)
    ensures unit <= unit + spec + more && (unit + spec + more)[|unit|..] == spec + more
  {
  }

  lemma ReadIsHeader(header: string, request: RangeRequest) returns (spec: string, more: string)
    requires ParseRangeHeader(Some(header)) == Some(request)
    ensures RangeHeader(header, spec, more, request)
  {
    var rest := header[6..];
    spec := Split(rest, ',')[0];
    more := SplitsFirst(rest, ',');
    SpecExactly(spec, request);
    assert header == "bytes=" + rest;
    assert header == "bytes=" + spec + more;
  }

  /** A text is read as a request if and only if it is one range of bytes, perhaps followed by
      others; any other unit, form or number is refused. */
  lemma RangeHeaderExactly(header: string, request: RangeRequest)
    ensures ParseRangeHeader(Some(header)) == Some(request) <==> exists spec, more :: RangeHeader(header, spec, more, request)
  {
    if ParseRangeHeader(Some(header)) == Some(request) {
      var spec, more := ReadIsHeader(header, request);
    }
    if spec, more :| RangeHeader(header, spec, more, request) {
      HeaderIsRead(header, spec, more, request);
    }
  }

  // ---------------------------------------------------------------------
  // The content range
  // ---------------------------------------------------------------------

  ghost predicate ContentRange(header: string, x: string, y: string, z: string, start: nat, end: nat, total: nat) {
    && header == "bytes " + (x + ['-'] + y + ['/'] + z)
    && '-' !in x && '-' !in y && '/' !in x && '/' !in y && '/' !in z
    && Part(x, start) && Part(y, end) && Part(z, total)
  }

  lemma ContentSpecParts(spec: string, start: nat, end: nat, total: nat) returns (x: string, y: string, z: string)
    requires ParseContentSpec(spec) == Some((start, end, total))
    ensures spec == x + ['-'] + y + ['/'] + z
    ensures '-' !in x && '-' !in y && '/' !in x && '/' !in y && '/' !in z
    ensures Part(x, start) && Part(y, end) && Part(z, total)
  {
    var front := Split(spec, '/')[0];
    z := Split(spec, '/')[1];
    assert Split(spec, '/') == [front, z];
    SplitsInTwo(spec, '/', front, z);
    x, y := Split(front, '-')[0], Split(front, '-')[1];
    assert Split(front, '-') == [x, y];
    SplitsInTwo(front, '-', x, y);
    NumeralExactly(Trim(x), start);
    NumeralExactly(Trim(y), end);
    NumeralExactly(Trim(z), total);
  }

  lemma PartsMakeContentSpec(x: string, y: string, z: string, start: nat, end: nat, total: nat)
    requires '-' !in x && '-' !in y && '/' !in x && '/' !in y && '/' !in z
    requires Part(x, start) && Part(y, end) && Part(z, total)
    ensures ParseContentSpec(x + ['-'] + y + ['/'] + z) == Some((start, end, total))
  {
    SplitTwo(x + ['-'] + y, '/', z);
    SplitTwo(x, '-', y);
    NumeralExactly(Trim(x), start);
    NumeralExactly(Trim(y), end);
    NumeralExactly(Trim(z), total);
  }

  /** A text is read as a content range if and only if it is `bytes start-end/total`. */
  lemma ContentRangeExactly(header: string, start: nat, end: nat, total: nat)
    ensures ParseContentRange(Some(header)) == Some((start, end, total))
            <==> exists x, y, z :: ContentRange(header, x, y, z, start, end, total)
  {
    if ParseContentRange(Some(header)) == Some((start, end, total)) {
      var x, y, z := ContentSpecParts(header[6..], start, end, total);
      assert header == header[..6] + header[6..] && header[..6] == "bytes ";
      assert ContentRange(header, x, y, z, start, end, total);
    }
    if x, y, z :| ContentRange(header, x, y, z, start, end, total) {
      PartsMakeContentSpec(x, y, z, start, end, total);
      assert header[6..] == x + ['-'] + y + ['/'] + z && header[..6] == "bytes ";
    }
  }
}
