/** The timestamp printer: splitting an instant, and the text it is rendered as. */
module TimeFormat {
  import opened CacheTypes
  import opened Calendar
  import opened Decimal

  const NANOS: int := 1_000_000_000
  const I64: int := 0x8000_0000_0000_0000

  /** Instants are whole nanoseconds from 1970-01-01T00:00:00Z, with seconds that fit 64 bits. */
  predicate Representable(t: int) { -I64 * NANOS <= t < I64 * NANOS }

  const FIRST_INSTANT: int := -I64 * NANOS

  /** `secs as i64`. */
  function AsI64(secs: nat): int
    requires secs < 2 * I64
  {
    if secs < I64 then secs else secs - 2 * I64
  }

  /** The cast wraps: the result is the one 64-bit integer that agrees modulo 2^64. */
  lemma AsI64Wraps(secs: nat, n: int)
    requires secs < 2 * I64
    ensures n == AsI64(secs) <==> -I64 <= n < I64 && (secs - n) % (2 * I64) == 0
  {
  }

  /** Negation of an `i64`: the least one has no negative, which panics where overflow is
      checked and gives it back where it is not. */
  function Negated(n: int, checked: bool): Option<int> {
    if n != -I64 then Some(-n) else if checked then None else Some(n)
  }

  function EpochParts(t: int, checked: bool): Option<(int, int)>
    requires Representable(t)
  {
    if t >= 0 then Some((AsI64(t / NANOS), t % NANOS))
    else
      var minus := Negated(AsI64(-t / NANOS), checked);
      var nanos := -t % NANOS;
      if minus.None? then None
      else if nanos == 0 then Some((minus.value, 0)) else Some((minus.value - 1, NANOS - nanos))
  }

  /** The split is exact before and after the epoch -- whole seconds rounded down, and the
      rest -- for every instant but the very first, on which it panics where overflow is checked. */
  lemma EpochPartsExact(t: int, checked: bool)
    requires Representable(t)
    ensures EpochParts(t, checked) == if checked && t == FIRST_INSTANT then None else Some((t / NANOS, t % NANOS))
  {
    if t < 0 {
      SplitBelow(t, -t / NANOS, -t % NANOS);
    }
  }

  lemma SplitBelow(t: int, secs: int, nanos: int)
    requires -I64 * NANOS <= t < 0 && secs == -t / NANOS && nanos == -t % NANOS
    ensures secs <= I64 && (secs == I64 <==> t == FIRST_INSTANT)
    ensures t / NANOS == (if nanos == 0 then -secs else -secs - 1)
    ensures t % NANOS == (if nanos == 0 then 0 else NANOS - nanos)
  {
    assert -t == NANOS * secs + nanos;
    DivIs(t, NANOS, if nanos == 0 then -secs else -secs - 1);
  }

  datatype Civil = Civil(date: Date, h: int, mi: int, s: int)

  function CivilFromSecs(secs: int): Civil {
    var sod := secs % 86_400;
    Civil(CivilFromDays(secs / 86_400), sod / 3600, sod % 3600 / 60, sod % 60)
  }

  predicate InRange(c: Civil) { Valid(c.date) && 0 <= c.h <= 23 && 0 <= c.mi <= 59 && 0 <= c.s <= 59 }

  ghost function Seconds(c: Civil): int
    requires c.date.m >= 0
  {
    DayNumber(c.date) * 86_400 + c.h * 3600 + c.mi * 60 + c.s
  }

  lemma TimeOfDay(date: Date, sod: int)
    requires Valid(date) && 0 <= sod < 86_400
    ensures var c := Civil(date, sod / 3600, sod % 3600 / 60, sod % 60);
            InRange(c) && Seconds(c) == DayNumber(date) * 86_400 + sod
  {
    assert sod % 60 == sod % 3600 % 60;
  }

  /** Every field is in range and the fields recompose to the input. */
  lemma CivilFromSecsExact(secs: int)
    ensures InRange(CivilFromSecs(secs)) && Seconds(CivilFromSecs(secs)) == secs
  {
    CivilIsExact(secs / 86_400);
    TimeOfDay(CivilFromDays(secs / 86_400), secs % 86_400);
  }

  /** The date and time of day that lie `secs` seconds from the epoch, whatever computes them. */
  ghost function Fields(secs: int): (c: Civil)
    ensures InRange(c) && Seconds(c) == secs
  {
    CivilFromSecsExact(secs);
    var c :| InRange(c) && Seconds(c) == secs;
    c
  }

  ghost predicate Earlier(a: Civil, b: Civil) {
    Before(a.date, b.date) || (a.date == b.date && (a.h < b.h || (a.h == b.h && (a.mi < b.mi || (a.mi == b.mi && a.s < b.s)))))
  }

  lemma SecondsOrder(a: Civil, b: Civil)
    requires InRange(a) && InRange(b)
    ensures Earlier(a, b) <==> Seconds(a) < Seconds(b)
    ensures Seconds(a) == Seconds(b) ==> a == b
  {
    DayNumberOrders(a.date, b.date);
    DayNumberOrders(b.date, a.date);
  }

  method ComputeFields(secs: int) returns (c: Civil)
    ensures c == Fields(secs)
  {
    c := CivilFromSecs(secs);
    CivilFromSecsExact(secs);
    SecondsOrder(c, Fields(secs));
  }

  // ---------------------------------------------------------------------
  // The representable range
  // ---------------------------------------------------------------------

  const CHRONO_MIN_TIMESTAMP: int := -8_334_601_228_800
  const CHRONO_MAX_TIMESTAMP: int := 8_210_266_876_799

  /** The two constants enclose exactly the years -262143 to 262142. */
  lemma RangeConstantsExact(secs: int)
    ensures CHRONO_MIN_TIMESTAMP <= secs <= CHRONO_MAX_TIMESTAMP <==> -262_143 <= Fields(secs).date.y <= 262_142
  {
    var first, last := Civil(Date(-262_143, 1, 1), 0, 0, 0), Civil(Date(262_142, 12, 31), 23, 59, 59);
    MonthTable(262_142, 12);
    assert Seconds(first) == CHRONO_MIN_TIMESTAMP;
    assert Seconds(last) == CHRONO_MAX_TIMESTAMP;
    SecondsOrder(Fields(secs), first);
    SecondsOrder(last, Fields(secs));
  }

  // ---------------------------------------------------------------------
  // Texts
  // ---------------------------------------------------------------------

  function YearText(y: int): string {
    if 0 <= y <= 9999 then Pad(y, 4)
    else if y > 9999 then "+" + Pad(y, 4)
    else "-" + Pad(-y, 4)
  }

  function TimeText(c: Civil): string
    requires InRange(c)
  {
    "-" + Pad(c.date.m, 2) + "-" + Pad(c.date.d, 2) + "T" + Pad(c.h, 2) + ":" + Pad(c.mi, 2) + ":" + Pad(c.s, 2)
  }

  ghost function DateTimeText(secs: int): string {
    YearText(Fields(secs).date.y) + TimeText(Fields(secs))
  }

  function FractionText(nanos: nat): string {
    if nanos == 0 then ""
    else if nanos % 1_000_000 == 0 then "." + Pad(nanos / 1_000_000, 3)
    else if nanos % 1_000 == 0 then "." + Pad(nanos / 1_000, 6)
    else "." + Pad(nanos, 9)
  }

  /** The text of an instant. */
  ghost function Rfc3339(t: int): string {
    DateTimeText(t / NANOS) + FractionText(t % NANOS) + "+00:00"
  }

  // ---------------------------------------------------------------------
  // The printer
  // ---------------------------------------------------------------------

  class Text {
    var chars: string

    constructor ()
      ensures chars == ""
    {
      chars := "";
    }

    method Push(s: string)
      modifies this
      ensures chars == old(chars) + s
    {
      chars := chars + s;
    }
  }

  method PushYear(out: Text, year: int)
    modifies out
    ensures out.chars == old(out.chars) + YearText(year)
  {
    if 0 <= year <= 9999 {
      out.Push(Pad(year, 4));
    } else if year > 9999 {
      out.Push("+");
      out.Push(Pad(year, 4));
      assert out.chars == old(out.chars) + ("+" + Pad(year, 4));
    } else {
      out.Push("-");
      out.Push(Pad(-year, 4));
      assert out.chars == old(out.chars) + ("-" + Pad(-year, 4));
    }
  }

  method PushDateTimeSecs(out: Text, secs: int)
    modifies out
    ensures out.chars == old(out.chars) + DateTimeText(secs)
  {
    var c := ComputeFields(secs);
    PushYear(out, c.date.y);
    out.Push(TimeText(c));
    Join(old(out.chars), YearText(c.date.y), TimeText(c));
  }

  lemma Join(a: string, b: string, c: string)
    ensures a + b + c == a + (b + c) && "" + a == a && a + "" == a
  {
  }

  method PushFraction(out: Text, nanos: nat)
    modifies out
    ensures out.chars == old(out.chars) + FractionText(nanos)
  {
    if nanos == 0 {
      Join(old(out.chars), "", "");
    } else if nanos % 1_000_000 == 0 {
      out.Push("." + Pad(nanos / 1_000_000, 3));
    } else if nanos % 1_000 == 0 {
      out.Push("." + Pad(nanos / 1_000, 6));
    } else {
      out.Push("." + Pad(nanos, 9));
    }
  }

  /** Prints every instant of the 64-bit range, and panics on the first one where overflow is checked. */
  method FormatRfc3339(t: int, checked: bool) returns (r: Option<string>)
    requires Representable(t)
    ensures r == if checked && t == FIRST_INSTANT then None else Some(Rfc3339(t))
  {
    var parts := EpochParts(t, checked);
    EpochPartsExact(t, checked);
    if parts.None? { return None; }
    var out := new Text();
    PushDateTimeSecs(out, parts.value.0);
    PushFraction(out, parts.value.1);
    out.Push("+00:00");
    Join(DateTimeText(parts.value.0), "", "");
    return Some(out.chars);
  }

  /** Whole seconds print as the instant they denote, and as the epoch exactly when their
      year is not representable. */
  method FormatRfc3339FromSecs(secs: nat) returns (s: string)
    requires secs < 2 * I64
    ensures s == Rfc3339(if -262_143 <= Fields(AsI64(secs)).date.y <= 262_142 then AsI64(secs) * NANOS else 0)
  {
    var signed := AsI64(secs);
    RangeConstantsExact(signed);
    signed := if CHRONO_MIN_TIMESTAMP <= signed <= CHRONO_MAX_TIMESTAMP then signed else 0;
    var out := new Text();
    PushDateTimeSecs(out, signed);
    out.Push("+00:00");
    Join(DateTimeText(signed), "", "");
    WholeSeconds(signed);
    return out.chars;
  }

  lemma WholeSeconds(secs: int)
    ensures Rfc3339(secs * NANOS) == DateTimeText(secs) + "+00:00"
  {
    DivIs(secs * NANOS, NANOS, secs);
    Join(DateTimeText(secs), "", "");
  }
}
