/** Days counted along the calendar (crates/aep-domain/src/time.rs:183-264): the arithmetic that numbers
    a date counts days, so that one date is after another exactly when its number is greater. */
module Calendar {
  import opened Dates

  // ------------------------------------------------------------------ the day after

  /** The next day of the calendar: of its month, of its year, or the first of the next. */
  function NextDay(date: CivilDate): CivilDate {
    if date.day < DaysInMonth(date.year, date.month) then date.(day := date.day + 1)
    else if date.month < 12 then CivilDate(date.year, date.month + 1, 1)
    else CivilDate(date.year + 1, 1, 1)
  }

  // ------------------------------------------------------------------ as it is computed

  /** Division that truncates toward zero. */
  function Quotient(a: int, b: nat): int
    requires b > 0
  {
    if a >= 0 then a / b else -((-a) / b)
  }

  /** `days_from_epoch`: days since 1970-01-01, counted in eras of 400 years that start in March. */
  function DaysFromEpoch(date: CivilDate): int {
    var year := date.year - if date.month <= 2 then 1 else 0;
    var era := Quotient(if year >= 0 then year else year - 399, 400);
    var yearOfEra := year - era * 400;
    var dayOfYear := Quotient(153 * (date.month + if date.month > 2 then -3 else 9) + 2, 5) + date.day - 1;
    var dayOfEra := yearOfEra * 365 + Quotient(yearOfEra, 4) - Quotient(yearOfEra, 100) + dayOfYear;
    era * 146097 + dayOfEra - 719468
  }

  /** `days_since`. */
  function DaysSince(a: CivilDate, b: CivilDate): int { DaysFromEpoch(a) - DaysFromEpoch(b) }

  // ------------------------------------------------------------------ in parts

  /** The year a date belongs to when years start in March, and the month and the day within it. */
  function MarchYear(date: CivilDate): int { date.year - if date.month <= 2 then 1 else 0 }

  function MarchMonth(date: CivilDate): int { date.month + if date.month > 2 then -3 else 9 }

  /** Days before a year that starts in March. */
  function BeforeYear(year: int): int { 365 * year + year / 4 - year / 100 + year / 400 }

  /** Days before a month of such a year. */
  function BeforeMonth(month: int): int { (153 * month + 2) / 5 }

  lemma EraByEra(year: int)
    requires year >= -1
    ensures var era := Quotient(if year >= 0 then year else year - 399, 400);
            var yearOfEra := year - era * 400;
            && 0 <= yearOfEra < 400 && era == year / 400
            && era * 146097 + yearOfEra * 365 + yearOfEra / 4 - yearOfEra / 100 == BeforeYear(year)
  {
    var era := year / 400;
    var yearOfEra := year - era * 400;
    assert year == 400 * era + yearOfEra;
    assert year / 4 == 100 * era + yearOfEra / 4;
    assert year / 100 == 4 * era + yearOfEra / 100;
  }

  /** The number of a date is the days before its year, the days before its month, and its day. */
  lemma DaysInParts(date: CivilDate)
    requires date.Exists()
    ensures DaysFromEpoch(date) == BeforeYear(MarchYear(date)) + BeforeMonth(MarchMonth(date)) + date.day - 719469
    ensures 0 <= MarchMonth(date) < 12 && MarchYear(date) >= -1
  {
    hide CivilDate.Exists, BeforeYear;
    MonthsAreTwelve(date);
    EraByEra(MarchYear(date));
  }

  lemma MonthsAreTwelve(date: CivilDate)
    requires date.Exists()
    ensures 1 <= date.month <= 12 && 1 <= date.day <= DaysInMonth(date.year, date.month)
  {
  }

  lemma StepOf4(n: int)
    ensures (n + 1) / 4 - n / 4 == if (n + 1) % 4 == 0 then 1 else 0
  {
  }

  lemma StepOf100(n: int)
    ensures (n + 1) / 100 - n / 100 == if (n + 1) % 100 == 0 then 1 else 0
  {
  }

  lemma StepOf400(n: int)
    ensures (n + 1) / 400 - n / 400 == if (n + 1) % 400 == 0 then 1 else 0
  {
  }

  lemma Multiples(n: int)
    ensures n % 400 == 0 ==> n % 100 == 0
    ensures n % 100 == 0 ==> n % 4 == 0
  {
    if n % 400 == 0 { MultipleOf400(n, n / 400); }
    if n % 100 == 0 { MultipleOf100(n, n / 100); }
  }

  lemma MultipleOf400(n: int, k: int)
    requires n == 400 * k
    ensures n % 100 == 0
  {
    assert n == 100 * (4 * k);
  }

  lemma MultipleOf100(n: int, k: int)
    requires n == 100 * k
    ensures n % 4 == 0
  {
    assert n == 4 * (25 * k);
  }

  /** A year that starts in March is as long as the February it ends with makes it. */
  lemma YearLength(year: int)
    requires year >= -1
    ensures BeforeYear(year + 1) - BeforeYear(year) == if IsLeap(year + 1) then 366 else 365
  {
    StepOf4(year);
    StepOf100(year);
    StepOf400(year);
    Multiples(year + 1);
  }

  lemma MonthLength(date: CivilDate)
    requires date.Exists()
    ensures MarchMonth(date) < 11 ==> BeforeMonth(MarchMonth(date) + 1) - BeforeMonth(MarchMonth(date)) == DaysInMonth(date.year, date.month)
    ensures MarchMonth(date) == 11 ==> BeforeMonth(11) + DaysInMonth(date.year, date.month) == if IsLeap(MarchYear(date) + 1) then 366 else 365
  {
    hide IsLeap;
  }

  // ------------------------------------------------------------------ counting

  lemma NextDayExists(date: CivilDate)
    requires date.Exists()
    ensures NextDay(date).Exists()
  {
    hide IsLeap;
  }

  /** Each day's number is one more than that of the day before, from the first day of 1970 on and before. */
  lemma NumbersCountDays(date: CivilDate)
    requires date.Exists()
    ensures NextDay(date).Exists() && DaysSince(NextDay(date), date) == 1
    ensures DaysFromEpoch(CivilDate(1970, 1, 1)) == 0
  {
    hide DaysFromEpoch, BeforeYear, BeforeMonth, IsLeap, CivilDate.Exists;
    NextDayExists(date);
    MonthsAreTwelve(date);
    DaysInParts(date);
    DaysInParts(NextDay(date));
    MonthLength(date);
    YearLength(MarchYear(date));
    FirstMonth();
    Epoch();
  }

  lemma FirstMonth()
    ensures BeforeMonth(0) == 0
  {
  }

  lemma Epoch()
    ensures DaysFromEpoch(CivilDate(1970, 1, 1)) == 0
  {
  }

  // ------------------------------------------------------------------ order

  lemma {:induction false} YearsGrow(a: int, b: int)
    requires -1 <= a <= b
    ensures BeforeYear(a) + 365 * (b - a) <= BeforeYear(b)
    decreases b - a
  {
    hide BeforeYear, IsLeap;
    if a < b { YearLength(b - 1); YearsGrow(a, b - 1); }
  }

  lemma {:induction false} MonthsGrow(a: int, b: int)
    requires 0 <= a <= b < 12
    ensures BeforeMonth(a) <= BeforeMonth(b)
    decreases b - a
  {
    if a < b { MonthsGrow(a, b - 1); }
  }

  /** A day's number lies before the next month's first day, and before the next year's. */
  lemma WithinItsMonth(date: CivilDate)
    requires date.Exists()
    ensures MarchMonth(date) < 11 ==> BeforeMonth(MarchMonth(date)) + date.day <= BeforeMonth(MarchMonth(date) + 1)
    ensures BeforeYear(MarchYear(date)) + BeforeMonth(MarchMonth(date)) + date.day <= BeforeYear(MarchYear(date) + 1)
    ensures 0 <= BeforeMonth(MarchMonth(date))
  {
    hide BeforeYear, IsLeap, BeforeMonth, CivilDate.Exists;
    MonthsAreTwelve(date);
    MonthLength(date);
    YearLength(MarchYear(date));
    MonthsGrow(0, MarchMonth(date));
    FirstMonth();
    if MarchMonth(date) < 11 { MonthsGrow(MarchMonth(date) + 1, 11); LastMonth(); }
  }

  lemma LastMonth()
    ensures BeforeMonth(11) == 337
  {
  }

  lemma LaterIsGreater(a: CivilDate, b: CivilDate)
    requires a.Exists() && b.Exists() && a.After(b)
    ensures DaysFromEpoch(a) > DaysFromEpoch(b)
  {
    hide DaysFromEpoch, BeforeYear, BeforeMonth, IsLeap, CivilDate.Exists;
    MonthsAreTwelve(a); MonthsAreTwelve(b);
    DaysInParts(a); DaysInParts(b);
    WithinItsMonth(a); WithinItsMonth(b);
    if MarchYear(b) < MarchYear(a) {
      YearsGrow(MarchYear(b) + 1, MarchYear(a));
    } else if MarchMonth(b) < MarchMonth(a) {
      MonthsGrow(MarchMonth(b) + 1, MarchMonth(a));
    }
  }

  /** One date is after another exactly when more days have passed until it. */
  lemma AfterIsMoreDays(a: CivilDate, b: CivilDate)
    requires a.Exists() && b.Exists()
    ensures a.After(b) <==> DaysFromEpoch(a) > DaysFromEpoch(b)
    ensures a == b <==> DaysFromEpoch(a) == DaysFromEpoch(b)
  {
    hide DaysFromEpoch, CivilDate.Exists;
    if a.After(b) { LaterIsGreater(a, b); }
    if b.After(a) { LaterIsGreater(b, a); }
  }
}
