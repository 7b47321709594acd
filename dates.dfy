/** Calendar arithmetic of the proleptic Gregorian calendar, as Python's
    `datetime` module does it. Days are numbered as `date.toordinal()` numbers
    them (0001-01-01 is day 1, and each month starts where the previous one
    ends), and weekdays follow `date.weekday()` (Monday is 0). Months are
    numbered consecutively by a month index k = 12 * year + month - 1, so that
    "the next month" is k + 1 across year ends. */
module Dates {

  datatype Date = Date(year: int, month: int, day: int)

  /** `date.weekday()` of a Friday. */
  const Friday: int := 4

  predicate IsLeapYear(y: int) {
    y % 4 == 0 && (y % 100 != 0 || y % 400 == 0)
  }

  function DaysInMonth(y: int, m: int): (n: int)
    requires 1 <= m <= 12
    ensures 28 <= n <= 31
  {
    if m == 2 then (if IsLeapYear(y) then 29 else 28)
    else if m == 4 || m == 6 || m == 9 || m == 11 then 30
    else 31
  }

  predicate ValidDate(d: Date) {
    1 <= d.month <= 12 && 1 <= d.day <= DaysInMonth(d.year, d.month)
  }

  /** Python's `date.weekday()` of the day with the given number. */
  function Weekday(n: int): (w: int)
    ensures 0 <= w < 7
  {
    (n + 6) % 7
  }

  /** The month index of a date. */
  function MonthOf(d: Date): int {
    d.year * 12 + d.month - 1
  }

  function YearOfMonth(k: int): int {
    k / 12
  }

  function MonthNumber(k: int): (m: int)
    ensures 1 <= m <= 12
  {
    k % 12 + 1
  }

  function MonthLength(k: int): (n: int)
    ensures 28 <= n <= 31
  {
    DaysInMonth(YearOfMonth(k), MonthNumber(k))
  }

  /** Day number of the first day of month k: January of year 1 (k = 12)
      starts on day 1 and every month starts where the one before it ends. */
  function FirstOfMonth(k: int): int
    decreases if k < 12 then 12 - k else k - 12
  {
    if k == 12 then 1
    else if k > 12 then FirstOfMonth(k - 1) + MonthLength(k - 1)
    else FirstOfMonth(k + 1) - MonthLength(k)
  }

  /** The day number of a date, Python's `date.toordinal()`. */
  function Ordinal(d: Date): int {
    FirstOfMonth(MonthOf(d)) + d.day - 1
  }

  /** The expiration of month k: the first Friday is found as
      `first_day + ((4 - first_day.weekday() + 7) % 7)` days and two weeks are
      added to it. The result is a Friday of month k falling on its 15th to
      21st day, i.e. the month's third Friday. */
  function ThirdFriday(k: int): (d: Date)
    ensures ValidDate(d) && MonthOf(d) == k
    ensures 15 <= d.day <= 21
    ensures Weekday(Ordinal(d)) == Friday
    ensures FirstOfMonth(k) + 14 <= Ordinal(d) <= FirstOfMonth(k) + 20
  {
    var first := FirstOfMonth(k);
    var toFriday := (Friday - Weekday(first) + 7) % 7;
    FridayShift(first);
    MonthIndexSplit(k);
    Date(YearOfMonth(k), MonthNumber(k), 1 + toFriday + 14)
  }

  lemma WeekdayShift(n: int, k: int)
    ensures Weekday(n + k) == (Weekday(n) + k) % 7
  {
  }

  /** `(4 - weekday + 7) % 7` days after day n is a Friday, at most six days
      later, and so is the day two weeks after that. */
  lemma FridayShift(n: int)
    ensures var s := (Friday - Weekday(n) + 7) % 7;
      0 <= s <= 6 && Weekday(n + s) == Friday && Weekday(n + s + 14) == Friday
  {
    var w := Weekday(n);
    var q := (n + 6) / 7;
    assert n + 6 == 7 * q + w;
    var s := (Friday - w + 7) % 7;
    if w <= Friday {
      assert s == Friday - w;
      assert n + s + 6 == 7 * q + 4;
      assert n + s + 14 + 6 == 7 * (q + 2) + 4;
    } else {
      assert s == Friday - w + 7;
      assert n + s + 6 == 7 * (q + 1) + 4;
      assert n + s + 14 + 6 == 7 * (q + 3) + 4;
    }
  }

  /** The year and month number of a month index give the index back. */
  lemma MonthIndexSplit(k: int)
    ensures YearOfMonth(k) * 12 + MonthNumber(k) - 1 == k
  {
  }

  /** The month holding day n (as `date.fromordinal(n).replace(day=1)` finds it). */
  function MonthContaining(n: int): (k: int)
    ensures FirstOfMonth(k) <= n < FirstOfMonth(k + 1)
  {
    if n >= 1 then SearchUp(n, 12) else SearchDown(n, 11)
  }

  function SearchUp(n: int, k: int): (r: int)
    requires FirstOfMonth(k) <= n
    ensures FirstOfMonth(r) <= n < FirstOfMonth(r + 1)
    decreases n - FirstOfMonth(k)
  {
    NextMonthLater(k);
    if FirstOfMonth(k + 1) <= n then SearchUp(n, k + 1) else k
  }

  function SearchDown(n: int, k: int): (r: int)
    requires n < FirstOfMonth(k + 1)
    ensures FirstOfMonth(r) <= n < FirstOfMonth(r + 1)
    decreases FirstOfMonth(k) - n
  {
    NextMonthLater(k - 1);
    if n < FirstOfMonth(k) then SearchDown(n, k - 1) else k
  }

  // ---------------------------------------------------------------------
  // Facts about the day numbering

  /** Month k + 1 starts 28 to 31 days after month k. */
  lemma NextMonthLater(k: int)
    ensures FirstOfMonth(k + 1) == FirstOfMonth(k) + MonthLength(k)
    ensures FirstOfMonth(k) + 28 <= FirstOfMonth(k + 1) <= FirstOfMonth(k) + 31
  {
  }

  lemma {:induction false} FirstOfMonthIncreasing(k: int, k': int)
    requires k < k'
    ensures FirstOfMonth(k) + 28 <= FirstOfMonth(k')
    decreases k' - k
  {
    NextMonthLater(k);
    if k + 1 < k' {
      FirstOfMonthIncreasing(k + 1, k');
    }
  }

  /** A month is the only one whose span holds a given day. */
  lemma MonthContainingUnique(n: int, k: int)
    requires FirstOfMonth(k) <= n < FirstOfMonth(k + 1)
    ensures MonthContaining(n) == k
  {
    var j := MonthContaining(n);
    if j < k {
      if j + 1 < k {
        FirstOfMonthIncreasing(j + 1, k);
      }
    } else if k < j {
      if k + 1 < j {
        FirstOfMonthIncreasing(k + 1, j);
      }
    }
  }

  /** A valid date lies inside its own month. */
  lemma DateInItsMonth(d: Date)
    requires ValidDate(d)
    ensures FirstOfMonth(MonthOf(d)) <= Ordinal(d) < FirstOfMonth(MonthOf(d) + 1)
    ensures MonthContaining(Ordinal(d)) == MonthOf(d)
  {
    var k := MonthOf(d);
    assert YearOfMonth(k) == d.year && MonthNumber(k) == d.month;
    NextMonthLater(k);
    MonthContainingUnique(Ordinal(d), k);
  }

  /** Later days never lie in earlier months. */
  lemma MonthContainingMonotone(n: int, n': int)
    requires n <= n'
    ensures MonthContaining(n) <= MonthContaining(n')
  {
    var k, k' := MonthContaining(n), MonthContaining(n');
    if k' < k {
      if k' + 1 < k {
        FirstOfMonthIncreasing(k' + 1, k);
      }
    }
  }

  /** Shifting the first day of month k back by 35 days lands in month k - 2,
      so `(start.replace(day=1) - timedelta(days=35)).replace(day=1)` is the
      first day of the month two months before start's month. */
  lemma ThirtyFiveDaysBack(k: int)
    ensures MonthContaining(FirstOfMonth(k) - 35) == k - 2
  {
    NextMonthLater(k - 2);
    NextMonthLater(k - 1);
    MonthContainingUnique(FirstOfMonth(k) - 35, k - 2);
  }
}
