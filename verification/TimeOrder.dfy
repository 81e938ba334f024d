/**
 What the printed timestamps are good for: they have the form of section 5.6 of
 RFC 3339, no two instants share a text, and texts sort like the instants.
 */
module TimeOrder {
  import opened Calendar
  import opened Decimal
  import opened TimeFormat

  // ---------------------------------------------------------------------
  // The fixed-width part
  // ---------------------------------------------------------------------

  /** The fields behind the year, written one by one; each has its fixed width. */
  function Clock(h: nat, mi: nat, s: nat): string {
    Fixed(h, 2) + (":" + (Fixed(mi, 2) + (":" + Fixed(s, 2))))
  }

  function MonthOn(c: Civil): (text: string)
    requires InRange(c)
    ensures |text| == 14
  {
    Fixed(c.date.m, 2) + ("-" + (Fixed(c.date.d, 2) + ("T" + Clock(c.h, c.mi, c.s))))
  }

  lemma Powers()
    ensures Pow10(2) == 100 && Pow10(3) == 1000 && Pow10(4) == 10_000 && Pow10(6) == 1_000_000 && Pow10(9) == 1_000_000_000
  {
    assert Pow10(6) == 100 * Pow10(4);
  }

  lemma MonthOnIs(c: Civil)
    requires InRange(c)
    ensures TimeText(c) == "-" + MonthOn(c)
  {
    Powers();
    PadIsFixed(c.date.m, 2);
    PadIsFixed(c.date.d, 2);
    PadIsFixed(c.h, 2);
    PadIsFixed(c.mi, 2);
    PadIsFixed(c.s, 2);
    Nest(Fixed(c.date.m, 2), Fixed(c.date.d, 2), Fixed(c.h, 2), Fixed(c.mi, 2), Fixed(c.s, 2));
  }

  lemma Regroup(a: string, b: string, c: string, d: string, e: string)
    ensures a + b + c + d + e == a + (b + (c + (d + e)))
  {
  }

  lemma Nest(m: string, d: string, h: string, mi: string, s: string)
    ensures "-" + m + "-" + d + "T" + h + ":" + mi + ":" + s
            == "-" + (m + ("-" + (d + ("T" + (h + (":" + (mi + (":" + s))))))))
  {
    Regroup("T", h, ":", mi, ":" + s);
    var date := "-" + m + "-" + d;
    assert date + "T" + h + ":" + mi + ":" + s == date + ("T" + h + ":" + mi + (":" + s));
    Regroup("-", m, "-", d, "T" + (h + (":" + (mi + (":" + s)))));
  }

  lemma Field(m: nat, n: nat, w: nat, sep: string, x: string, y: string)
    requires m < Pow10(w) && n < Pow10(w) && (m < n || (m == n && Less(x, y)))
    ensures Less(Fixed(m, w) + (sep + x), Fixed(n, w) + (sep + y))
  {
    if m < n {
      FixedOrder(m, n, w);
      LessPrefix(Fixed(m, w), Fixed(n, w), sep + x, sep + y);
    } else {
      LessSuffix(sep, x, y);
      LessSuffix(Fixed(m, w), sep + x, sep + y);
    }
  }

  lemma ClockOrder(a: Civil, b: Civil)
    requires InRange(a) && InRange(b)
    requires a.h < b.h || (a.h == b.h && (a.mi < b.mi || (a.mi == b.mi && a.s < b.s)))
    ensures Less(Clock(a.h, a.mi, a.s), Clock(b.h, b.mi, b.s))
  {
    Powers();
    if a.h == b.h {
      if a.mi == b.mi { FixedOrder(a.s, b.s, 2); }
      Field(a.mi, b.mi, 2, ":", Fixed(a.s, 2), Fixed(b.s, 2));
    }
    Field(a.h, b.h, 2, ":", Fixed(a.mi, 2) + (":" + Fixed(a.s, 2)), Fixed(b.mi, 2) + (":" + Fixed(b.s, 2)));
  }

  /** Within a year, earlier fields sort first. */
  lemma MonthOnOrder(a: Civil, b: Civil)
    requires InRange(a) && InRange(b) && a.date.y == b.date.y && Earlier(a, b)
    ensures Less(MonthOn(a), MonthOn(b))
  {
    Powers();
    if a.date.m == b.date.m {
      if a.date.d == b.date.d { ClockOrder(a, b); }
      Field(a.date.d, b.date.d, 2, "T", Clock(a.h, a.mi, a.s), Clock(b.h, b.mi, b.s));
    }
    Field(a.date.m, b.date.m, 2, "-",
          Fixed(a.date.d, 2) + ("T" + Clock(a.h, a.mi, a.s)), Fixed(b.date.d, 2) + ("T" + Clock(b.h, b.mi, b.s)));
  }

  function Stamp(c: Civil): (text: string)
    requires InRange(c) && 0 <= c.date.y <= 9999
    ensures |text| == 19
  {
    Fixed(c.date.y, 4) + ("-" + MonthOn(c))
  }

  lemma StampOrder(a: Civil, b: Civil)
    requires InRange(a) && InRange(b) && 0 <= a.date.y <= 9999 && 0 <= b.date.y <= 9999 && Earlier(a, b)
    ensures Less(Stamp(a), Stamp(b))
  {
    Powers();
    if a.date.y == b.date.y { MonthOnOrder(a, b); }
    Field(a.date.y, b.date.y, 4, "-", MonthOn(a), MonthOn(b));
  }

  // ---------------------------------------------------------------------
  // The fraction
  // ---------------------------------------------------------------------

  /** How many of the nine digits are written. */
  function Shown(nanos: nat): nat {
    if nanos % 1_000_000 == 0 then 3 else if nanos % 1_000 == 0 then 6 else 9
  }

  lemma {:induction false} FixedPrefix(n: nat, w: nat, k: nat)
    requires k <= w
    ensures Fixed(n, w)[..w - k] == Fixed(n / Pow10(k), w - k)
  {
    if k == 0 {
      assert n / 1 == n;
    } else {
      FixedPrefix(n / 10, w - 1, k - 1);
      assert Fixed(n, w)[..w - k] == Fixed(n / 10, w - 1)[..w - k];
      NestedDiv(n, Pow10(k - 1));
    }
  }

  lemma NestedDiv(n: nat, p: nat)
    requires p > 0
    ensures n / 10 / p == n / (10 * p)
  {
    var q := n / 10 / p;
    var a := n / 10;
    assert a == p * q + a % p && n == 10 * a + n % 10;
    assert 10 * (p * q) == (10 * p) * q;
    DivIs(n, 10 * p, q);
  }

  /** Digits that are not shown are zero. */
  lemma {:induction false} HiddenZero(n: nat, w: nat, k: nat, i: nat)
    requires k <= w && n % Pow10(k) == 0 && w - k <= i < w
    ensures Fixed(n, w)[i] == '0'
  {
    if k > 0 {
      var p := Pow10(k - 1);
      var q := n / (10 * p);
      assert n == (10 * p) * q + n % (10 * p);
      assert (10 * p) * q == 10 * (p * q);
      DivIs(n, 10, p * q);
      if i < w - 1 {
        DivIs(n / 10, p, q);
        HiddenZero(n / 10, w - 1, k - 1, i);
      }
    }
  }

  function Tail(nanos: nat): string { FractionText(nanos) + "+00:00" }

  lemma FractionShown(nanos: nat)
    requires 0 < nanos < 1_000_000_000
    ensures FractionText(nanos) == "." + Fixed(nanos, 9)[..Shown(nanos)]
    ensures forall i :: Shown(nanos) <= i < 9 ==> Fixed(nanos, 9)[i] == '0'
  {
    Powers();
    var k := 9 - Shown(nanos);
    assert Pow10(0) == 1 && nanos % 1 == 0 && nanos / 1 == nanos;
    assert nanos % Pow10(k) == 0;
    FixedPrefix(nanos, 9, k);
    PadIsFixed(nanos / Pow10(k), 9 - k);
    forall i | Shown(nanos) <= i < 9
      ensures Fixed(nanos, 9)[i] == '0'
    {
      HiddenZero(nanos, 9, k, i);
    }
  }

  /** Despite its varying width the fraction sorts like the nanoseconds: `+` sorts before
      `.`, and both before every digit. */
  lemma TailOrder(m: nat, n: nat)
    requires m < n < 1_000_000_000
    ensures Less(Tail(m), Tail(n))
  {
    FractionShown(n);
    if m == 0 {
      assert LessAt(Tail(m), Tail(n), 0);
    } else {
      Powers();
      FractionShown(m);
      FixedOrder(m, n, 9);
      var a, b := Fixed(m, 9), Fixed(n, 9);
      var p: nat :| LessAt(a, b, p);
      var j := if p < Shown(m) then p else Shown(m);
      assert p < Shown(n);
      CutOrder(a, b, Shown(m), Shown(n), p, j);
    }
  }

  lemma CutOrder(a: string, b: string, x: nat, y: nat, p: nat, j: nat)
    requires |a| == |b| == 9 && AllDigits(a) && AllDigits(b) && LessAt(a, b, p)
    requires x <= 9 && p < y <= 9 && j == (if p < x then p else x)
    ensures Less("." + a[..x] + "+00:00", "." + b[..y] + "+00:00")
  {
    var s, t := "." + a[..x] + "+00:00", "." + b[..y] + "+00:00";
    assert s[..j + 1] == "." + a[..j] && t[..j + 1] == "." + b[..j];
    assert a[..j] == a[..p][..j] && b[..j] == b[..p][..j];
    assert t[j + 1] == b[j];
    assert s[j + 1] == (if p < x then a[p] else '+');
    assert LessAt(s, t, j + 1);
  }

  // ---------------------------------------------------------------------
  // Whole timestamps
  // ---------------------------------------------------------------------

  ghost predicate FourDigitYear(t: int) { 0 <= Fields(t / NANOS).date.y <= 9999 }

  lemma FourDigitText(t: int)
    requires FourDigitYear(t)
    ensures Rfc3339(t) == Stamp(Fields(t / NANOS)) + Tail(t % NANOS)
  {
    Powers();
    var c := Fields(t / NANOS);
    PadIsFixed(c.date.y, 4);
    MonthOnIs(c);
    Sum(Fixed(c.date.y, 4), "-" + MonthOn(c), FractionText(t % NANOS), "+00:00");
  }

  lemma Sum(a: string, b: string, c: string, d: string)
    ensures a + b + c + d == (a + b) + (c + d)
  {
  }

  lemma SplitInstants(t: int, u: int)
    requires t < u
    ensures t / NANOS < u / NANOS || (t / NANOS == u / NANOS && t % NANOS < u % NANOS)
  {
  }

  lemma EarlierSortsFirst(t: int, u: int)
    requires FourDigitYear(t) && FourDigitYear(u) && t < u
    ensures Less(Rfc3339(t), Rfc3339(u))
  {
    FourDigitText(t);
    FourDigitText(u);
    SplitInstants(t, u);
    var a, b := Fields(t / NANOS), Fields(u / NANOS);
    if t / NANOS < u / NANOS {
      SecondsOrder(a, b);
      StampOrder(a, b);
      LessPrefix(Stamp(a), Stamp(b), Tail(t % NANOS), Tail(u % NANOS));
    } else {
      TailOrder(t % NANOS, u % NANOS);
      LessSuffix(Stamp(a), Tail(t % NANOS), Tail(u % NANOS));
    }
  }

  lemma OrderDecided(x: string, y: string, t: int, u: int)
    requires t < u ==> Less(x, y)
    requires u < t ==> Less(y, x)
    requires t == u ==> x == y
    ensures Less(x, y) <==> t < u
  {
    if Less(x, y) { LessIsStrict(x, y); }
  }

  /** In the years 0 to 9999 texts sort byte by byte exactly as the instants do. */
  lemma TextsSortLikeInstants(t: int, u: int)
    requires FourDigitYear(t) && FourDigitYear(u)
    ensures Less(Rfc3339(t), Rfc3339(u)) <==> t < u
  {
    if t < u { EarlierSortsFirst(t, u); }
    if u < t { EarlierSortsFirst(u, t); }
    OrderDecided(Rfc3339(t), Rfc3339(u), t, u);
  }

  // ---------------------------------------------------------------------
  // Injectivity, in every year
  // ---------------------------------------------------------------------

  lemma {:induction false} PadValue(n: nat, w: nat)
    ensures AllDigits(Pad(n, w)) && Value(Pad(n, w)) == n && |Pad(n, w)| >= 1
  {
    DecValue(n);
    if |Dec(n)| < w { ZerosValue(w - |Dec(n)|, Dec(n)); }
  }

  lemma {:induction false} ZerosValue(k: nat, s: string)
    requires AllDigits(s)
    ensures AllDigits(Zeros(k) + s) && Value(Zeros(k) + s) == Value(s)
    decreases k + |s|
  {
    if s == "" {
      assert Zeros(k) + s == Zeros(k);
      if k > 0 {
        ZerosValue(k - 1, "");
        assert Zeros(k - 1) + "" == Zeros(k - 1) && Zeros(k)[..k - 1] == Zeros(k - 1);
      }
    } else {
      var front := s[..|s| - 1];
      ZerosValue(k, front);
      assert (Zeros(k) + s)[..k + |s| - 1] == Zeros(k) + front;
      assert forall i :: 0 <= i < k + |s| - 1 ==> (Zeros(k) + s)[i] == (Zeros(k) + front)[i];
    }
  }

  /** Years are written without a dash behind the first character ... */
  lemma YearTextNoDash(y: int)
    ensures YearText(y) != "" && forall i :: 1 <= i < |YearText(y)| ==> YearText(y)[i] != '-'
  {
    PadValue(if y < 0 then -y else y, 4);
  }

  function Sign(y: int): string { if y < 0 then "-" else if y > 9999 then "+" else "" }

  lemma SignedText(y: int)
    ensures YearText(y) == Sign(y) + Pad(if y < 0 then -y else y, 4)
    ensures Sign(y) == "" <==> IsDigit(YearText(y)[0])
    ensures Sign(y) != "" ==> Sign(y) == YearText(y)[..1]
  {
    PadValue(if y < 0 then -y else y, 4);
  }

  lemma {:induction false} NoLeadingZero(n: nat)
    requires n > 0
    ensures Dec(n)[0] != '0'
  {
    if n >= 10 { NoLeadingZero(n / 10); }
  }

  /** The year text of any year: a sign exactly outside 0 to 9999, and then the digits of the
      magnitude, padded with zeros to four and no further. */
  lemma YearTextExactly(y: int)
    ensures var digits := YearText(y)[|Sign(y)|..];
            && YearText(y) == Sign(y) + digits && AllDigits(digits) && Value(digits) == (if y < 0 then -y else y)
            && |digits| >= 4 && (|digits| > 4 ==> digits[0] != '0')
  {
    var n := if y < 0 then -y else y;
    SignedText(y);
    PadValue(n, 4);
    if n > 0 { NoLeadingZero(n); }
  }

  /** ... and different years differently. */
  lemma YearTextInjective(y: int, z: int)
    requires YearText(y) == YearText(z)
    ensures y == z
  {
    var m, n := if y < 0 then -y else y, if z < 0 then -z else z;
    SignedText(y);
    SignedText(z);
    assert Sign(y) == Sign(z);
    assert Pad(m, 4) == YearText(y)[|Sign(y)|..] && Pad(n, 4) == YearText(z)[|Sign(z)|..];
    PadValue(m, 4);
    PadValue(n, 4);
  }

  lemma SplitAtDash(a: string, x: string, b: string, y: string)
    requires a != "" && forall i :: 1 <= i < |a| ==> a[i] != '-'
    requires b != "" && forall i :: 1 <= i < |b| ==> b[i] != '-'
    requires a + ("-" + x) == b + ("-" + y)
    ensures a == b && x == y
  {
    var s := a + ("-" + x);
    assert s[|a|] == '-' && s[|b|] == '-';
    assert |a| == |b|;
    assert a == s[..|a|] && b == s[..|b|];
    assert x == s[|a| + 1..] && y == s[|b| + 1..];
  }

  lemma DashedText(t: int)
    ensures Rfc3339(t) == YearText(Fields(t / NANOS).date.y) + ("-" + (MonthOn(Fields(t / NANOS)) + Tail(t % NANOS)))
  {
    var c := Fields(t / NANOS);
    MonthOnIs(c);
    Regroup(YearText(c.date.y), "-", MonthOn(c), FractionText(t % NANOS), "+00:00");
    Regroup3(YearText(c.date.y), "-", MonthOn(c));
  }

  lemma Regroup3(a: string, b: string, c: string)
    ensures a + (b + c) == a + b + c
  {
  }

  /** Different instants never print the same text, in any year. */
  lemma TextsAreDistinct(t: int, u: int)
    requires Rfc3339(t) == Rfc3339(u)
    ensures t == u
  {
    var a, b := Fields(t / NANOS), Fields(u / NANOS);
    DashedText(t);
    DashedText(u);
    YearTextNoDash(a.date.y);
    YearTextNoDash(b.date.y);
    var x, y := MonthOn(a) + Tail(t % NANOS), MonthOn(b) + Tail(u % NANOS);
    SplitAtDash(YearText(a.date.y), x, YearText(b.date.y), y);
    YearTextInjective(a.date.y, b.date.y);
    assert x[..14] == MonthOn(a) && y[..14] == MonthOn(b) && x[14..] == Tail(t % NANOS) && y[14..] == Tail(u % NANOS);
    SameFields(a, b);
    SameTail(t % NANOS, u % NANOS);
  }

  lemma SameFields(a: Civil, b: Civil)
    requires InRange(a) && InRange(b) && a.date.y == b.date.y && MonthOn(a) == MonthOn(b)
    ensures a == b
  {
    if Earlier(a, b) {
      MonthOnOrder(a, b);
      LessIsStrict(MonthOn(a), MonthOn(b));
    } else if Earlier(b, a) {
      MonthOnOrder(b, a);
      LessIsStrict(MonthOn(b), MonthOn(a));
    }
  }

  lemma SameTail(m: nat, n: nat)
    requires m < 1_000_000_000 && n < 1_000_000_000 && Tail(m) == Tail(n)
    ensures m == n
  {
    if m < n {
      TailOrder(m, n);
      LessIsStrict(Tail(m), Tail(n));
    } else if n < m {
      TailOrder(n, m);
      LessIsStrict(Tail(n), Tail(m));
    }
  }

  // ---------------------------------------------------------------------
  // The form of section 5.6 of RFC 3339
  // ---------------------------------------------------------------------

  ghost predicate Number(s: string, from: nat, to: nat, value: int) {
    from <= to <= |s| && AllDigits(s[from..to]) && Value(s[from..to]) == value
  }

  /** A fraction that denotes `nanos`, in the fewest of 0, 3, 6 or 9 digits, and a zero UTC offset. */
  ghost predicate FractionAndOffset(tail: string, nanos: nat) {
    && |tail| >= 6 && tail[|tail| - 6..] == "+00:00"
    && if nanos == 0 then |tail| == 6
       else
         var k := |tail| - 7;
         && (k == 3 || k == 6 || k == 9) && tail[0] == '.'
         && AllDigits(tail[1..k + 1]) && Value(tail[1..k + 1]) * Pow10(9 - k) == nanos
         && (k > 3 ==> nanos % Pow10(12 - k) != 0)
  }

  /** `s` is a date-time of RFC 3339 that reads as the fields `c` and `nanos`, with zero UTC offset. */
  ghost predicate DateTime(s: string, c: Civil, nanos: nat) {
    && |s| >= 25
    && Number(s, 0, 4, c.date.y) && s[4] == '-' && Number(s, 5, 7, c.date.m) && s[7] == '-' && Number(s, 8, 10, c.date.d)
    && s[10] == 'T'
    && Number(s, 11, 13, c.h) && s[13] == ':' && Number(s, 14, 16, c.mi) && s[16] == ':' && Number(s, 17, 19, c.s)
    && FractionAndOffset(s[19..], nanos)
  }

  lemma ReadField(s: string, from: nat, w: nat, n: nat, rest: string)
    requires from <= |s| && n < Pow10(w) && s[from..] == Fixed(n, w) + rest
    ensures from + w <= |s| && Number(s, from, from + w, n) && s[from + w..] == rest
  {
    FixedValue(n, w);
    assert s[from..from + w] == s[from..][..w] == Fixed(n, w);
    assert s[from + w..] == s[from..][w..];
  }

  lemma ReadMark(s: string, from: nat, mark: string, rest: string)
    requires from <= |s| && |mark| == 1 && s[from..] == mark + rest
    ensures from < |s| && s[from] == mark[0] && s[from + 1..] == rest
  {
    assert s[from] == s[from..][0];
    assert s[from + 1..] == s[from..][1..];
  }

  lemma Carry(a: string, b: string, c: string, tail: string)
    ensures (a + (b + c)) + tail == a + (b + (c + tail))
  {
  }

  lemma StampReads(c: Civil, tail: string)
    requires InRange(c) && 0 <= c.date.y <= 9999
    ensures var s := Stamp(c) + tail;
            && Number(s, 0, 4, c.date.y) && s[4] == '-' && Number(s, 5, 7, c.date.m) && s[7] == '-'
            && Number(s, 8, 10, c.date.d) && s[10] == 'T' && Number(s, 11, 13, c.h) && s[13] == ':'
            && Number(s, 14, 16, c.mi) && s[16] == ':' && Number(s, 17, 19, c.s)
  {
    Powers();
    var s := Stamp(c) + tail;
    var sec := Fixed(c.s, 2);
    var min := Fixed(c.mi, 2) + (":" + sec);
    var day := Fixed(c.date.d, 2) + ("T" + Clock(c.h, c.mi, c.s));
    Carry(Fixed(c.date.y, 4), "-", MonthOn(c), tail);
    Carry(Fixed(c.date.m, 2), "-", day, tail);
    Carry(Fixed(c.date.d, 2), "T", Clock(c.h, c.mi, c.s), tail);
    Carry(Fixed(c.h, 2), ":", min, tail);
    Carry(Fixed(c.mi, 2), ":", sec, tail);
    assert s[0..] == s;
    ReadField(s, 0, 4, c.date.y, "-" + (MonthOn(c) + tail));
    ReadMark(s, 4, "-", MonthOn(c) + tail);
    ReadField(s, 5, 2, c.date.m, "-" + (day + tail));
    ReadMark(s, 7, "-", day + tail);
    ReadField(s, 8, 2, c.date.d, "T" + (Clock(c.h, c.mi, c.s) + tail));
    ReadMark(s, 10, "T", Clock(c.h, c.mi, c.s) + tail);
    ReadField(s, 11, 2, c.h, ":" + (min + tail));
    ReadMark(s, 13, ":", min + tail);
    ReadField(s, 14, 2, c.mi, ":" + (sec + tail));
    ReadMark(s, 16, ":", sec + tail);
    ReadField(s, 17, 2, c.s, tail);
  }

  lemma FirstDigits(nanos: nat, k: nat, q: nat)
    requires k <= 9 && q == nanos / Pow10(9 - k) && q < Pow10(k)
    ensures Value(Fixed(nanos, 9)[..k]) == q
  {
    FixedPrefix(nanos, 9, 9 - k);
    FixedValue(q, k);
  }

  lemma DigitsValue(nanos: nat)
    requires 0 < nanos < 1_000_000_000
    ensures var k := Shown(nanos);
            && Value(Fixed(nanos, 9)[..k]) * Pow10(9 - k) == nanos
            && (k > 3 ==> nanos % Pow10(12 - k) != 0)
  {
    Powers();
    assert Pow10(0) == 1 && nanos / 1 == nanos;
    if Shown(nanos) == 3 {
      FirstDigits(nanos, 3, nanos / 1_000_000);
    } else if Shown(nanos) == 6 {
      FirstDigits(nanos, 6, nanos / 1_000);
    } else {
      FirstDigits(nanos, 9, nanos);
    }
  }

  lemma TailForm(nanos: nat)
    requires nanos < 1_000_000_000
    ensures FractionAndOffset(Tail(nanos), nanos)
  {
    if nanos == 0 {
      assert Tail(0) == "+00:00";
    } else {
      FractionShown(nanos);
      DigitsValue(nanos);
      var digits := Fixed(nanos, 9)[..Shown(nanos)];
      assert Tail(nanos) == "." + digits + "+00:00";
      assert Tail(nanos)[1..|digits| + 1] == digits;
    }
  }

  lemma Assembled(c: Civil, tail: string, nanos: nat)
    requires InRange(c) && 0 <= c.date.y <= 9999 && FractionAndOffset(tail, nanos)
    ensures DateTime(Stamp(c) + tail, c, nanos)
  {
    StampReads(c, tail);
    assert (Stamp(c) + tail)[19..] == tail;
  }

  /** In the years 0 to 9999 the text has the RFC form, and its fields and its fraction read
      back as the instant's, each within its range. */
  lemma TextsAreRfc3339(t: int)
    requires FourDigitYear(t)
    ensures InRange(Fields(t / NANOS)) && DateTime(Rfc3339(t), Fields(t / NANOS), t % NANOS)
  {
    FourDigitText(t);
    TailForm(t % NANOS);
    Assembled(Fields(t / NANOS), Tail(t % NANOS), t % NANOS);
  }
}
