/** The proleptic Gregorian calendar as Python's `datetime` computes it:
    date-time components, their validity, and the day ordinal
    (`date.toordinal()`, where 0001-01-01 is day 1). */
module Calendar {

  const SECONDS_PER_DAY := 86400

  /** Python's `date.toordinal()` of 1970-01-01, the Unix epoch. */
  const EPOCH_ORDINAL := 719163

  /** A naive date-time, as `datetime` holds it (no sub-second part). */
  datatype DateTime = DateTime(year: int, month: int, day: int,
                               hour: int, minute: int, second: int)
  {
    /** The ranges the `datetime` constructor accepts. */
    predicate Valid() {
      && 1 <= year <= 9999
      && 1 <= month <= 12
      && 1 <= day <= DaysInMonth(year, month)
      && 0 <= hour < 24
      && 0 <= minute < 60
      && 0 <= second < 60
    }
  }

  predicate IsLeap(year: int) {
    year % 4 == 0 && (year % 100 != 0 || year % 400 == 0)
  }

  function DaysInMonth(year: int, month: int): (n: int)
    requires 1 <= month <= 12
    ensures 28 <= n <= 31
    ensures month == 2 ==> (n == 29 <==> IsLeap(year))
  {
    if month == 2 then (if IsLeap(year) then 29 else 28)
    else if month in {4, 6, 9, 11} then 30
    else 31
  }

  /** Days of `year` before the first of `month`. */
  function DaysBeforeMonth(year: int, month: int): int
    requires 1 <= month <= 12
  {
    (match month
     case 1 => 0 case 2 => 31 case 3 => 59 case 4 => 90
     case 5 => 120 case 6 => 151 case 7 => 181 case 8 => 212
     case 9 => 243 case 10 => 273 case 11 => 304 case _ => 334)
    + (if month > 2 && IsLeap(year) then 1 else 0)
  }

  /** Days before January 1 of `year`, counted from 0001-01-01. */
  function DaysBeforeYear(year: int): int
    requires year >= 1
  {
    var y := year - 1;
    y * 365 + y / 4 - y / 100 + y / 400
  }

  function Ordinal(year: int, month: int, day: int): int
    requires year >= 1 && 1 <= month <= 12
  {
    DaysBeforeYear(year) + DaysBeforeMonth(year, month) + day
  }

  /** Days since 1970-01-01 of the date part of `dt`. */
  function DayNumber(dt: DateTime): int
    requires dt.Valid()
  {
    Ordinal(dt.year, dt.month, dt.day) - EPOCH_ORDINAL
  }

  function SecondOfDay(dt: DateTime): (s: int)
    requires dt.Valid()
    ensures 0 <= s < SECONDS_PER_DAY
  {
    dt.hour * 3600 + dt.minute * 60 + dt.second
  }

  /** The calendar date after (year, month, day). */
  function NextDate(year: int, month: int, day: int): (int, int, int)
    requires 1 <= month <= 12
  {
    if day < DaysInMonth(year, month) then (year, month, day + 1)
    else if month < 12 then (year, month + 1, 1)
    else (year + 1, 1, 1)
  }

  /** Stepping over a multiple of 4, 100 or 400, floor division by it goes
      up by one; otherwise it stays. */
  lemma DivStep(x: int, k: int)
    requires x >= 1 && (k == 4 || k == 100 || k == 400)
    ensures x / k - (x - 1) / k == if x % k == 0 then 1 else 0
  {
  }

  lemma DivisibilityChain(year: int)
    ensures year % 400 == 0 ==> year % 100 == 0
    ensures year % 100 == 0 ==> year % 4 == 0
  {
  }

  /** A year has 366 days exactly when it is a leap year. */
  lemma {:induction false} YearLength(year: int)
    requires year >= 1
    ensures DaysBeforeYear(year + 1) - DaysBeforeYear(year)
            == if IsLeap(year) then 366 else 365
  {
    DivStep(year, 4);
    DivStep(year, 100);
    DivStep(year, 400);
    DivisibilityChain(year);
    assert year * 365 - (year - 1) * 365 == 365;
  }

  /** Consecutive calendar dates have consecutive ordinals, across month
      and year ends: the ordinal counts days without gaps or repeats. */
  lemma {:induction false} OrdinalOfNextDate(year: int, month: int, day: int)
    requires year >= 1 && 1 <= month <= 12 && 1 <= day <= DaysInMonth(year, month)
    ensures var (y, m, d) := NextDate(year, month, day);
            y >= 1 && 1 <= m <= 12 && 1 <= d <= DaysInMonth(y, m)
            && Ordinal(y, m, d) == Ordinal(year, month, day) + 1
  {
    if day == DaysInMonth(year, month) && month == 12 {
      YearLength(year);
    }
  }
}
