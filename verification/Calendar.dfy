/**
 The proleptic Gregorian calendar, and `civil_from_days` against it.

 The calendar is defined here twice, independently of the conversion: by the
 length of each month (leap rule as in appendix C of RFC 3339), giving the day
 after a date, and by counting the days before a date.
 */
module Calendar {

  datatype Date = Date(y: int, m: int, d: int)

  predicate Leap(y: int) { y % 4 == 0 && (y % 100 != 0 || y % 400 == 0) }

  function DaysIn(y: int, m: int): int {
    if m == 2 then (if Leap(y) then 29 else 28)
    else if m == 4 || m == 6 || m == 9 || m == 11 then 30
    else 31
  }

  predicate Valid(date: Date) { 1 <= date.m <= 12 && 1 <= date.d <= DaysIn(date.y, date.m) }

  function NextDay(date: Date): Date {
    if date.d < DaysIn(date.y, date.m) then date.(d := date.d + 1)
    else if date.m < 12 then Date(date.y, date.m + 1, 1)
    else Date(date.y + 1, 1, 1)
  }

  /** Days from 0000-01-01 to the first of January of year `y`. */
  function DaysBeforeYear(y: int): int { 365 * y + (y + 3) / 4 - (y + 99) / 100 + (y + 399) / 400 }

  function DaysBeforeMonth(y: int, m: nat): int {
    if m <= 1 then 0 else DaysBeforeMonth(y, m - 1) + DaysIn(y, m - 1)
  }

  /** Days from 1970-01-01 to `date`. */
  function DayNumber(date: Date): int
    requires date.m >= 0
  {
    DaysBeforeYear(date.y) + DaysBeforeMonth(date.y, date.m) + date.d - 1 - 719_528
  }

  // ---------------------------------------------------------------------
  // The two definitions of the calendar agree
  // ---------------------------------------------------------------------

  lemma MulMonotone(b: int, p: int, q: int)
    requires b > 0
    ensures p <= q ==> b * p <= b * q
  {
  }

  lemma DivIs(a: int, b: int, q: int)
    requires b > 0 && b * q <= a < b * q + b
    ensures a / b == q && a % b == a - b * q
  {
    var p := a / b;
    assert a == b * p + a % b;
    MulMonotone(b, p + 1, q);
    MulMonotone(b, q + 1, p);
  }

  /** Rounding a quotient up. */
  lemma CeilIs(y: int, k: int)
    requires k > 0
    ensures (y + k - 1) / k == y / k + (if y % k == 0 then 0 else 1)
  {
    var q, r := y / k, y % k;
    assert y == k * q + r;
    if r == 0 {
      DivIs(y + k - 1, k, q);
    } else {
      assert k * (q + 1) == k * q + k;
      DivIs(y + k - 1, k, q + 1);
    }
  }

  lemma NextCeil(y: int, k: int)
    requires k > 0
    ensures (y + k) / k == (y + k - 1) / k + (if y % k == 0 then 1 else 0)
  {
    var q, r := y / k, y % k;
    assert y == k * q + r && k * (q + 1) == k * q + k;
    DivIs(y + k, k, q + 1);
    CeilIs(y, k);
  }

  lemma YearLength(y: int)
    ensures DaysBeforeYear(y + 1) == DaysBeforeYear(y) + (if Leap(y) then 366 else 365)
  {
    NextCeil(y, 4);
    NextCeil(y, 100);
    NextCeil(y, 400);
    LeapNesting(y);
  }

  lemma LeapNesting(y: int)
    ensures y % 400 == 0 ==> y % 100 == 0
    ensures y % 100 == 0 ==> y % 4 == 0
  {
    if y % 400 == 0 { DivIs(y, 100, 4 * (y / 400)); }
    if y % 100 == 0 { DivIs(y, 4, 25 * (y / 100)); }
  }

  function MonthStart(m: int): int
    requires 1 <= m <= 12
  {
    [0, 31, 59, 90, 120, 151, 181, 212, 243, 273, 304, 334][m - 1]
  }

  lemma {:induction false} MonthTable(y: int, m: nat)
    requires 1 <= m <= 12
    ensures DaysBeforeMonth(y, m) == MonthStart(m) + (if m > 2 && Leap(y) then 1 else 0)
  {
    if m > 1 { MonthTable(y, m - 1); }
  }

  lemma DayNumberBounds(date: Date)
    requires Valid(date)
    ensures DaysBeforeYear(date.y) <= DayNumber(date) + 719_528 < DaysBeforeYear(date.y + 1)
  {
    YearLength(date.y);
    MonthTable(date.y, date.m);
  }

  lemma DayNumberNext(date: Date)
    requires Valid(date)
    ensures Valid(NextDay(date)) && DayNumber(NextDay(date)) == DayNumber(date) + 1
  {
    YearLength(date.y);
    MonthTable(date.y, date.m);
  }

  predicate Before(a: Date, b: Date) { a.y < b.y || (a.y == b.y && (a.m < b.m || (a.m == b.m && a.d < b.d))) }

  lemma {:induction false} YearsGrow(a: int, b: int)
    requires a <= b
    ensures DaysBeforeYear(a) <= DaysBeforeYear(b)
    decreases b - a
  {
    if a < b {
      YearsGrow(a, b - 1);
      YearLength(b - 1);
    }
  }

  /** Counting days orders dates: earlier dates have smaller day numbers. */
  lemma DayNumberOrders(a: Date, b: Date)
    requires Valid(a) && Valid(b)
    ensures Before(a, b) <==> DayNumber(a) < DayNumber(b)
    ensures DayNumber(a) == DayNumber(b) ==> a == b
  {
    DayNumberBounds(a);
    DayNumberBounds(b);
    if a.y < b.y {
      YearsGrow(a.y + 1, b.y);
    } else if b.y < a.y {
      YearsGrow(b.y + 1, a.y);
    } else {
      SameYearOrders(a, b);
    }
  }

  lemma SameYearOrders(a: Date, b: Date)
    requires Valid(a) && Valid(b) && a.y == b.y
    ensures Before(a, b) <==> DayNumber(a) < DayNumber(b)
    ensures DayNumber(a) == DayNumber(b) ==> a == b
  {
    MonthTable(a.y, a.m);
    MonthTable(b.y, b.m);
  }

  // ---------------------------------------------------------------------
  // `civil_from_days`
  // ---------------------------------------------------------------------

  /** Division of the source language: toward zero. */
  function TruncDiv(a: int, b: int): int
    requires b > 0
  {
    if a >= 0 then a / b else -(-a / b)
  }

  /** The adjustment by 146 096 turns truncation into rounding down. */
  lemma EraIsFloor(z: int)
    ensures TruncDiv(if z >= 0 then z else z - 146_096, 146_097) == z / 146_097
  {
  }

  function YearOfEra(doe: nat): int { (doe - doe / 1460 + doe / 36_524 - doe / 146_096) / 365 }

  /** Day `doy` of the year that begins in March of year `y`. */
  function MarchDate(y: int, doy: nat): Date {
    var mp := (5 * doy + 2) / 153;
    var d := doy - (153 * mp + 2) / 5 + 1;
    var m := if mp < 10 then mp + 3 else mp - 9;
    Date(if m <= 2 then y + 1 else y, m, d)
  }

  function CivilFromDays(days: int): Date {
    var z := days + 719_468;
    var era := TruncDiv(if z >= 0 then z else z - 146_096, 146_097);
    EraIsFloor(z);
    EraDate(era, z - era * 146_097)
  }

  /** Days from the first of March of year 0 of an era to that of its year `y`. */
  function EraYearStart(y: int): int { 365 * y + y / 4 - y / 100 }

  /** Centuries, four-year groups and single years before day `doe` of an era, and the day left. */
  lemma Decompose(doe: nat) returns (c: nat, q: nat, r: nat, doy: nat)
    requires doe < 146_097
    ensures c <= 3 && q <= 24 && r <= 3 && doe == 36_524 * c + 1461 * q + 365 * r + doy
    ensures doy <= 365 && (doy == 365 ==> r == 3 && (q < 24 || c == 3))
  {
    c := if doe / 36_524 > 3 then 3 else doe / 36_524;
    var rest := doe - 36_524 * c;
    q := rest / 1461;
    var rest' := rest - 1461 * q;
    r := if rest' / 365 > 3 then 3 else rest' / 365;
    doy := rest' - 365 * r;
  }

  /** The three corrections of the closed formula, on a decomposed day. */
  lemma Corrections(c: nat, q: nat, r: nat, doy: nat)
    requires c <= 3 && q <= 24 && r <= 3 && doy <= 365 && (doy == 365 ==> r == 3 && (q < 24 || c == 3))
    ensures var doe := 36_524 * c + 1461 * q + 365 * r + doy;
            && doe / 1460 == 25 * c + q + (if 24 * c + q + 365 * r + doy >= 1460 then 1 else 0)
            && doe / 36_524 - doe / 146_096 == c
  {
    var doe := 36_524 * c + 1461 * q + 365 * r + doy;
    DivIs(doe, 1460, 25 * c + q + (if 24 * c + q + 365 * r + doy >= 1460 then 1 else 0));
    var last := if doe == 146_096 then 1 else 0;
    DivIs(doe, 146_096, last);
    DivIs(doe, 36_524, c + last);
  }

  /** The decomposed year: its start, and whether its 366th day exists. */
  lemma DecomposedYear(c: nat, q: nat, r: nat)
    requires c <= 3 && q <= 24 && r <= 3
    ensures EraYearStart(100 * c + 4 * q + r) == 36_524 * c + 1461 * q + 365 * r
    ensures r == 3 && (q < 24 || c == 3) ==> Leap(100 * c + 4 * q + r + 1)
  {
    var y := 100 * c + 4 * q + r;
    DivIs(y, 4, 25 * c + q);
    DivIs(y, 100, c);
    if r == 3 && (q < 24 || c == 3) {
      DivIs(y + 1, 4, 25 * c + q + 1);
      if q < 24 { DivIs(y + 1, 100, c); }
    }
  }

  /** The closed formula finds the year of the era that contains the day. */
  lemma YearOfEraFinds(doe: nat)
    requires doe < 146_097
    ensures 0 <= YearOfEra(doe) <= 399
    ensures var y := YearOfEra(doe); var doy := doe - EraYearStart(y);
            0 <= doy <= 365 && (doy == 365 ==> Leap(y + 1))
  {
    var c, q, r, doy := Decompose(doe);
    Corrections(c, q, r, doy);
    DivIs(doe - doe / 1460 + doe / 36_524 - doe / 146_096, 365, 100 * c + 4 * q + r);
    DecomposedYear(c, q, r);
  }

  // ---------------------------------------------------------------------
  // The conversion is the calendar
  // ---------------------------------------------------------------------

  /** Day `doy` of a year that begins in March, as month and day. */
  lemma MonthOfDay(doy: nat, mp: nat, d: int)
    requires doy <= 365 && mp == (5 * doy + 2) / 153 && d == doy - (153 * mp + 2) / 5 + 1
    ensures mp <= 11
    ensures var m := if mp < 10 then mp + 3 else mp - 9;
            && 1 <= m <= 12 && 1 <= d <= (if m == 2 then 29 else DaysIn(1, m)) && (m == 2 && d == 29 <==> doy == 365)
            && doy + 1 == d + (if m > 2 then MonthStart(m) - 59 else MonthStart(m) + 306)
  {
  }

  lemma Shift(y: int, k: int, n: int)
    requires k > 0
    ensures (y + k * n) / k == y / k + n && (y + k * n) % k == y % k
  {
    var q, r := y / k, y % k;
    assert y == k * q + r && k * (q + n) == k * q + k * n;
    DivIs(y + k * n, k, q + n);
  }

  lemma LeapPeriod(y: int, era: int)
    ensures Leap(y + 400 * era) <==> Leap(y)
  {
    Shift(y, 400, era);
    Shift(y, 100, 4 * era);
    Shift(y, 4, 100 * era);
  }

  /** The first of March of year `yoe` of an era, counted by the calendar. */
  lemma MarchFirst(yoe: nat, era: int)
    requires yoe <= 399
    ensures var y := yoe + 400 * era;
            && DaysBeforeYear(y) + 59 + (if Leap(y) then 1 else 0) == EraYearStart(yoe) + 146_097 * era + 60
            && DaysBeforeYear(y + 1) == EraYearStart(yoe) + 146_097 * era + 366
  {
    Shift(yoe + 3, 4, 100 * era);
    Shift(yoe + 99, 100, 4 * era);
    Shift(yoe + 399, 400, era);
    LeapPeriod(yoe, era);
    MarchFirstOfEra(yoe);
    YearLength(yoe + 400 * era);
  }

  lemma MarchFirstOfEra(yoe: nat)
    requires yoe <= 399
    ensures (yoe + 3) / 4 - (yoe + 99) / 100 + (yoe + 399) / 400 + (if Leap(yoe) then 1 else 0)
            == yoe / 4 - yoe / 100 + 1
  {
    CeilIs(yoe, 4);
    CeilIs(yoe, 100);
    CeilIs(yoe, 400);
    LeapNesting(yoe);
    DivIs(yoe, 400, 0);
  }

  /** The date of day `doy` of the March-based year `y`, when that year begins on day `start`
      after 0000-03-01. */
  lemma FromMarch(y: int, doy: nat, start: int)
    requires doy <= 365 && (doy == 365 ==> Leap(y + 1))
    requires DaysBeforeYear(y) + 59 + (if Leap(y) then 1 else 0) == start + 60
    requires DaysBeforeYear(y + 1) == start + 366
    ensures Valid(MarchDate(y, doy)) && DayNumber(MarchDate(y, doy)) == start + doy - 719_468
  {
    var mp := (5 * doy + 2) / 153;
    var d := doy - (153 * mp + 2) / 5 + 1;
    MonthOfDay(doy, mp, d);
    if mp < 10 { MonthTable(y, mp + 3); } else { MonthTable(y + 1, mp - 9); }
  }

  lemma EraParts(era: int, doe: nat)
    requires doe < 146_097
    ensures var yoe := YearOfEra(doe); var y := yoe + era * 400; var start := EraYearStart(yoe) + 146_097 * era;
            && 0 <= yoe <= 399 && 0 <= doe - EraYearStart(yoe) <= 365
            && (doe - EraYearStart(yoe) == 365 ==> Leap(y + 1))
            && DaysBeforeYear(y) + 59 + (if Leap(y) then 1 else 0) == start + 60
            && DaysBeforeYear(y + 1) == start + 366
  {
    var yoe := YearOfEra(doe);
    YearOfEraFinds(doe);
    MarchFirst(yoe, era);
    LeapPeriod(yoe + 1, era);
    assert yoe + 1 + 400 * era == yoe + era * 400 + 1;
  }

  /** The date of day `doe` of an era. */
  function EraDate(era: int, doe: nat): Date
    requires doe < 146_097
  {
    YearOfEraFinds(doe);
    MarchDate(YearOfEra(doe) + era * 400, doe - EraYearStart(YearOfEra(doe)))
  }

  lemma EraDateIsMarchDate(era: int, doe: nat) returns (y: int, doy: nat, start: int)
    requires doe < 146_097
    ensures EraDate(era, doe) == MarchDate(y, doy) && start + doy == 146_097 * era + doe
    ensures doy <= 365 && (doy == 365 ==> Leap(y + 1))
    ensures DaysBeforeYear(y) + 59 + (if Leap(y) then 1 else 0) == start + 60
    ensures DaysBeforeYear(y + 1) == start + 366
  {
    var yoe := YearOfEra(doe);
    EraParts(era, doe);
    y, doy, start := yoe + era * 400, doe - EraYearStart(yoe), EraYearStart(yoe) + 146_097 * era;
  }

  lemma EraDateIsExact(era: int, doe: nat)
    requires doe < 146_097
    ensures Valid(EraDate(era, doe)) && DayNumber(EraDate(era, doe)) == 146_097 * era + doe - 719_468
  {
    var y, doy, start := EraDateIsMarchDate(era, doe);
    FromMarch(y, doy, start);
  }

  lemma CivilIsEraDate(days: int)
    ensures CivilFromDays(days) == EraDate((days + 719_468) / 146_097, (days + 719_468) % 146_097)
  {
    var z := days + 719_468;
    EraIsFloor(z);
    assert z - z / 146_097 * 146_097 == z % 146_097;
  }

  /** `civil_from_days` gives a valid date, and that date is exactly `days` days from 1970-01-01. */
  lemma CivilIsExact(days: int)
    ensures Valid(CivilFromDays(days)) && DayNumber(CivilFromDays(days)) == days
  {
    CivilIsEraDate(days);
    EraDateIsExact((days + 719_468) / 146_097, (days + 719_468) % 146_097);
  }

  /** Hence the conversion is a bijection between day numbers and valid dates ... */
  lemma CivilInverts(date: Date)
    requires Valid(date)
    ensures CivilFromDays(DayNumber(date)) == date
  {
    CivilIsExact(DayNumber(date));
    DayNumberOrders(CivilFromDays(DayNumber(date)), date);
  }

  /** ... that starts at the epoch and takes each day to the next. */
  lemma CivilSteps(days: int)
    ensures CivilFromDays(0) == Date(1970, 1, 1)
    ensures CivilFromDays(days + 1) == NextDay(CivilFromDays(days))
  {
    CivilInverts(Date(1970, 1, 1));
    CivilIsExact(days);
    CivilIsExact(days + 1);
    DayNumberNext(CivilFromDays(days));
    DayNumberOrders(CivilFromDays(days + 1), NextDay(CivilFromDays(days)));
  }

  /** Later days have later dates. */
  lemma CivilOrders(a: int, b: int)
    ensures a < b <==> Before(CivilFromDays(a), CivilFromDays(b))
  {
    CivilIsExact(a);
    CivilIsExact(b);
    DayNumberOrders(CivilFromDays(a), CivilFromDays(b));
  }
}
