/**
 * Calendar dates as Python's datetime.date sees them, and the retention cutoff
 * computed by both prune subcommands: the first day of the current month moved
 * back by the retention period with dateutil's relativedelta.
 */
module Dates {
  import opened Wrappers

  datatype Date = Date(year: int, month: int, day: int)

  /** datetime.date refuses a year outside MINYEAR..MAXYEAR with a ValueError. */
  datatype DateError = YearOutOfRange(year: int)

  const MinYear: int := 1
  const MaxYear: int := 9999

  predicate IsLeapYear(year: int) {
    year % 4 == 0 && (year % 100 != 0 || year % 400 == 0)
  }

  function DaysInMonth(year: int, month: int): (n: int)
    requires 1 <= month <= 12
    ensures 28 <= n <= 31
  {
    if month == 2 then (if IsLeapYear(year) then 29 else 28)
    else if month == 4 || month == 6 || month == 9 || month == 11 then 30
    else 31
  }

  /** The dates datetime.date can represent. */
  predicate ValidDate(d: Date) {
    MinYear <= d.year <= MaxYear && 1 <= d.month <= 12 && 1 <= d.day <= DaysInMonth(d.year, d.month)
  }

  /** Python's `a < b` on dates: lexicographic on (year, month, day). */
  predicate Before(a: Date, b: Date) {
    a.year < b.year || (a.year == b.year && (a.month < b.month || (a.month == b.month && a.day < b.day)))
  }

  /** Months elapsed since January of year 0: the exact integer the month shift works on. */
  function MonthIndex(year: int, month: int): int {
    year * 12 + (month - 1)
  }

  function FirstOfMonth(d: Date): Date {
    Date(d.year, d.month, 1)
  }

  function Min(a: int, b: int): int {
    if a <= b then a else b
  }

  /**
   * `d - relativedelta(months=n)`: relativedelta normalises n into whole years
   * and a remainder of months, subtracts both, borrows a year when the month
   * drops below January, clamps the day to the length of the new month, and
   * fails when the year leaves the range datetime.date accepts.
   */
  function SubtractMonths(d: Date, n: nat): (r: Result<Date, DateError>)
    requires ValidDate(d)
    ensures r.Success? <==> MonthIndex(d.year, d.month) - n >= MonthIndex(MinYear, 1)
    ensures r.Success? ==> ValidDate(r.value)
    ensures r.Success? ==> MonthIndex(r.value.year, r.value.month) == MonthIndex(d.year, d.month) - n
    ensures r.Success? ==> r.value.day == Min(d.day, DaysInMonth(r.value.year, r.value.month))
    ensures r.Failure? ==> r.error.year < MinYear
  {
    var years := n / 12;
    var months := n % 12;
    var year := d.year - years;
    var month := d.month - months;
    var y := if month < 1 then year - 1 else year;
    var m := if month < 1 then month + 12 else month;
    assert n == 12 * years + months;
    if y < MinYear then Failure(YearOutOfRange(y))
    else Success(Date(y, m, Min(d.day, DaysInMonth(y, m))))
  }

  /** `first_month_to_drop`: the first day of curr's month moved back monthsRetention months. */
  function RetentionCutoff(curr: Date, monthsRetention: nat): (r: Result<Date, DateError>)
    requires ValidDate(curr)
    ensures r.Success? <==> MonthIndex(curr.year, curr.month) - monthsRetention >= MonthIndex(MinYear, 1)
    ensures r.Success? ==> ValidDate(r.value) && r.value.day == 1
    ensures r.Success? ==> MonthIndex(r.value.year, r.value.month) == MonthIndex(curr.year, curr.month) - monthsRetention
  {
    SubtractMonths(FirstOfMonth(curr), monthsRetention)
  }

  /** On first days of months, date order is the order of month indices. */
  lemma BeforeOnFirstDays(y1: int, m1: int, y2: int, m2: int)
    requires 1 <= m1 <= 12 && 1 <= m2 <= 12
    ensures Before(Date(y1, m1, 1), Date(y2, m2, 1)) <==> MonthIndex(y1, m1) < MonthIndex(y2, m2)
  {
  }

  /** A month index determines year and month. */
  lemma MonthIndexInjective(y1: int, m1: int, y2: int, m2: int)
    requires 1 <= m1 <= 12 && 1 <= m2 <= 12
    requires MonthIndex(y1, m1) == MonthIndex(y2, m2)
    ensures y1 == y2 && m1 == m2
  {
  }

  /** With no retention the cutoff is the first day of the current month. */
  lemma CutoffWithoutRetention(curr: Date)
    requires ValidDate(curr)
    ensures RetentionCutoff(curr, 0) == Success(FirstOfMonth(curr))
  {
    var c := RetentionCutoff(curr, 0).value;
    MonthIndexInjective(c.year, c.month, curr.year, curr.month);
  }

  /**
   * The cutoff is determined by its month index: it is the unique first day of
   * a month that lies exactly monthsRetention months before curr's month.
   */
  lemma CutoffIsShiftedFirstOfMonth(curr: Date, monthsRetention: nat, y: int, m: int)
    requires ValidDate(curr) && 1 <= m <= 12
    requires MonthIndex(y, m) == MonthIndex(curr.year, curr.month) - monthsRetention
    requires y >= MinYear
    ensures RetentionCutoff(curr, monthsRetention) == Success(Date(y, m, 1))
  {
    var c := RetentionCutoff(curr, monthsRetention).value;
    MonthIndexInjective(c.year, c.month, y, m);
  }

  /** A partition of month (y, m) is older than the cutoff iff it lies more than monthsRetention months back. */
  lemma OlderThanCutoffIff(curr: Date, monthsRetention: nat, y: int, m: int)
    requires ValidDate(curr) && 1 <= m <= 12
    requires RetentionCutoff(curr, monthsRetention).Success?
    ensures Before(Date(y, m, 1), RetentionCutoff(curr, monthsRetention).value)
        <==> MonthIndex(y, m) + monthsRetention < MonthIndex(curr.year, curr.month)
  {
    var c := RetentionCutoff(curr, monthsRetention).value;
    BeforeOnFirstDays(y, m, c.year, c.month);
  }

  /** A longer retention period never moves the cutoff later. */
  lemma CutoffMonotone(curr: Date, shorter: nat, longer: nat)
    requires ValidDate(curr) && shorter <= longer
    requires RetentionCutoff(curr, longer).Success?
    ensures RetentionCutoff(curr, shorter).Success?
    ensures !Before(RetentionCutoff(curr, shorter).value, RetentionCutoff(curr, longer).value)
  {
    var a := RetentionCutoff(curr, shorter).value;
    var b := RetentionCutoff(curr, longer).value;
    BeforeOnFirstDays(a.year, a.month, b.year, b.month);
  }

  /** 2018-06-15 with twelve months of retention gives the cutoff 2017-06-01. */
  lemma CutoffExample()
    ensures RetentionCutoff(Date(2018, 6, 15), 12) == Success(Date(2017, 6, 1))
  {
    CutoffIsShiftedFirstOfMonth(Date(2018, 6, 15), 12, 2017, 6);
  }
}
