/** Calendar dates and horizons as documents write them (crates/aep-domain/src/time.rs). */
module Dates {
  import opened Wrappers
  import opened Decimal
  import opened Texts

  /** A day of the proleptic Gregorian calendar, from year 0 on. */
  datatype CivilDate = CivilDate(year: nat, month: nat, day: nat) {
    predicate Exists() { 1 <= month <= 12 && 1 <= day <= DaysInMonth(year, month) }

    function Show(): string { Pad(year, 4) + "-" + Pad(month, 2) + "-" + Pad(day, 2) }

    predicate After(other: CivilDate) {
      year > other.year || (year == other.year && (month > other.month || (month == other.month && day > other.day)))
    }
  }

  predicate IsLeap(year: nat) { (year % 4 == 0 && year % 100 != 0) || year % 400 == 0 }

  function DaysInMonth(year: nat, month: nat): nat {
    if month in {1, 3, 5, 7, 8, 10, 12} then 31
    else if month in {4, 6, 9, 11} then 30
    else if month == 2 then if IsLeap(year) then 29 else 28
    else 0
  }

  const DATE_LEN := 10

  /** Ten characters shaped like `YYYY-MM-DD`, whether or not the calendar has that day. */
  predicate IsIsoShaped(date: string) {
    && |date| == DATE_LEN && date[4] == '-' && date[7] == '-'
    && AllDigits(date[..4]) && AllDigits(date[5..7]) && AllDigits(date[8..])
  }

  /** `CivilDate::parse` on a text of that shape, which is the only kind the scanner gives it. */
  function ParseDate(value: string): (date: Option<CivilDate>)
    requires IsIsoShaped(value)
    ensures date.Some? ==> date.value.Exists()
  {
    var date := CivilDate(Value(value[..4]), Value(value[5..7]), Value(value[8..]));
    if date.Exists() then Some(date) else None
  }

  lemma PadIsExact(n: nat, width: nat)
    requires width >= 1 && n < Power10(width)
    ensures |Pad(n, width)| == width
  {
    PrintLength(n, Power10(width), width);
  }

  /** Every date of four-digit year is read back from how it is written. */
  lemma ShownDateIsParsed(date: CivilDate)
    requires date.Exists() && date.year <= 9999
    ensures IsIsoShaped(date.Show()) && ParseDate(date.Show()) == Some(date)
  {
    hide Pad, Value;
    assert Power10(2) == 100 && Power10(4) == 10000 by { assert Power10(1) == 10; assert Power10(3) == 1000; }
    PadIsExact(date.year, 4);
    PadIsExact(date.month, 2);
    PadIsExact(date.day, 2);
    PadSpells(date.year, 4);
    PadSpells(date.month, 2);
    PadSpells(date.day, 2);
    var shown := date.Show();
    assert shown[..4] == Pad(date.year, 4);
    assert shown[5..7] == Pad(date.month, 2);
    assert shown[8..] == Pad(date.day, 2);
  }

  /** What was read as a date is how that date is written. */
  lemma ParsedDateIsShown(value: string)
    requires IsIsoShaped(value) && ParseDate(value).Some?
    ensures ParseDate(value).value.Show() == value
  {
    hide Pad, Value;
    ReadAndPadded(value[..4]);
    ReadAndPadded(value[5..7]);
    ReadAndPadded(value[8..]);
    assert value == value[..4] + [value[4]] + value[5..7] + [value[7]] + value[8..];
  }

  lemma {:induction false} ShortDigits(s: string, length: nat)
    requires AllDigits(s) && |s| <= length
    ensures Value(s) < Power10(length)
  {
    if s != [] { ShortDigits(s[..|s| - 1], length - 1); } else { PowerIsPositive(length); }
  }

  lemma {:induction false} PowerIsPositive(n: nat)
    ensures Power10(n) > 0
  {
    if n > 0 { PowerIsPositive(n - 1); }
  }

  // ------------------------------------------------------------------ horizons

  const MAX_DAYS := 3650
  const DEFAULT_HORIZON_DAYS := 14
  const U32_MAX := 0xFFFF_FFFF

  /** A whole number of days, at least one and at most ten years of 365. */
  datatype Horizon = Horizon(days: nat) {
    predicate Accepted() { 1 <= days <= MAX_DAYS }

    function Show(): string { Print(days) + "d" }
  }

  /** `7d`, `7 d`, `7D` or a bare `7`, with whitespace around it. */
  function ParseHorizon(value: string): (horizon: Option<Horizon>)
    ensures horizon.Some? ==> horizon.value.Accepted()
  {
    var trimmed := Trim(value);
    var digits := if trimmed != [] && (trimmed[|trimmed| - 1] == 'd' || trimmed[|trimmed| - 1] == 'D')
                  then TrimEnd(trimmed[..|trimmed| - 1]) else trimmed;
    if digits != [] && AllDigits(digits) && Value(digits) <= U32_MAX && Horizon(Value(digits)).Accepted()
    then Some(Horizon(Value(digits))) else None
  }

  /** A horizon is read back from how it is written after the keyword. */
  lemma ShownHorizonIsParsed(horizon: Horizon)
    requires horizon.Accepted()
    ensures ParseHorizon(" " + horizon.Show()) == Some(horizon)
  {
    hide Print, Value;
    var digits := Print(horizon.days);
    var value := " " + horizon.Show();
    PrintSpells(horizon.days);
    assert IsDigit(digits[0]) && IsDigit(digits[|digits| - 1]);
    assert value[1..] == horizon.Show() && TrimStart(value) == horizon.Show();
    assert Trim(value) == horizon.Show();
    assert horizon.Show()[..|horizon.Show()| - 1] == digits;
  }
}
