/** The filename-date validator: a proleptic Gregorian date that Python's
    `datetime` accepts, within the years photos are assumed to be taken in. */
module Calendar {

  /** `datetime.MINYEAR` and `datetime.MAXYEAR`. */
  const MinYear: int := 1
  const MaxYear: int := 9999

  /** Photos are assumed not to be older than this year. */
  const EarliestYear: int := 1980

  predicate IsLeapYear(y: int) {
    y % 4 == 0 && (y % 100 != 0 || y % 400 == 0)
  }

  function DaysInMonth(y: int, m: int): (n: int)
    requires 1 <= m <= 12
    ensures 28 <= n <= 31
    ensures n == 29 <==> m == 2 && IsLeapYear(y)
  {
    if m == 2 then (if IsLeapYear(y) then 29 else 28)
    else if m == 4 || m == 6 || m == 9 || m == 11 then 30
    else 31
  }

  /** What the constructor `datetime(y, m, d)` accepts without `ValueError`. */
  predicate IsCalendarDate(y: int, m: int, d: int) {
    MinYear <= y <= MaxYear && 1 <= m <= 12 && 1 <= d <= DaysInMonth(y, m)
  }

  /** `is_valid_date`: a real date, then the year range test against the
      current year (passed in instead of read from the clock). */
  predicate IsValidDate(y: int, m: int, d: int, currentYear: int) {
    if !IsCalendarDate(y, m, d) then false
    else EarliestYear <= y <= currentYear
  }

  /** The number of days in months 1..k of year y. */
  function DaysBefore(y: int, k: nat): (n: nat)
    requires k <= 12
    ensures 28 * k <= n <= 31 * k
  {
    if k == 0 then 0 else DaysBefore(y, k - 1) + DaysInMonth(y, k)
  }

  /** How many days months 1..k fall short of 31 days each. */
  function Shortfall(y: int, k: nat): int {
    (if k >= 2 then (if IsLeapYear(y) then 2 else 3) else 0)
    + (if k >= 4 then 1 else 0) + (if k >= 6 then 1 else 0)
    + (if k >= 9 then 1 else 0) + (if k >= 11 then 1 else 0)
  }

  lemma {:induction false} DaysBeforeClosed(y: int, k: nat)
    requires k <= 12
    ensures DaysBefore(y, k) == 31 * k - Shortfall(y, k)
  {
    if k > 0 {
      DaysBeforeClosed(y, k - 1);
    }
  }

  /** The twelve month lengths add up to the length of the year under the
      Gregorian leap rule. */
  lemma YearLength(y: int)
    ensures DaysBefore(y, 12) == if IsLeapYear(y) then 366 else 365
  {
    DaysBeforeClosed(y, 12);
  }

  /** The validator spelled out field by field. */
  lemma ValidDateFields(y: int, m: int, d: int, currentYear: int)
    ensures IsValidDate(y, m, d, currentYear) <==>
      && 1 <= m <= 12
      && 1 <= d
      && (m == 2 ==> d <= (if IsLeapYear(y) then 29 else 28))
      && (m == 4 || m == 6 || m == 9 || m == 11 ==> d <= 30)
      && d <= 31
      && EarliestYear <= y <= currentYear
      && y <= MaxYear
  {
  }

  /** The rejections the validator is there for. */
  lemma ValidDateRejects(currentYear: int)
    ensures !IsValidDate(2020, 13, 1, currentYear)
    ensures !IsValidDate(2020, 1, 32, currentYear)
    ensures !IsValidDate(2023, 2, 29, currentYear)
    ensures !IsValidDate(1900, 2, 29, currentYear)
    ensures !IsValidDate(2021, 2, 30, currentYear)
    ensures !IsValidDate(1979, 12, 31, currentYear)
    ensures !IsValidDate(currentYear + 1, 1, 1, currentYear)
    ensures !IsValidDate(2020, 0, 1, currentYear)
    ensures !IsValidDate(2020, 1, 0, currentYear)
  {
  }

  lemma ValidDateAccepts()
    ensures IsValidDate(2024, 2, 29, 2024)
    ensures IsValidDate(2000, 2, 29, 2024)
    ensures IsValidDate(1980, 1, 1, 1980)
    ensures IsValidDate(2023, 12, 31, 2024)
  {
  }
}
