/** The option-expiration calendar: the third Friday of every month from two
    months before the first bar's month up to the month after (sometimes two
    months after) the last bar's month. These dates are the boundaries of the
    monthly and bimonthly cycles. */
module ExpirationCalendar {
  import opened Dates

  predicate ValidDates(v: seq<Date>) {
    forall i :: 0 <= i < |v| ==> ValidDate(v[i])
  }

  /** Strictly increasing day numbers. */
  predicate Increasing(e: seq<int>) {
    forall i, j :: 0 <= i < j < |e| ==> e[i] < e[j]
  }

  /** The day numbers of a list of dates. */
  function Edges(v: seq<Date>): (e: seq<int>)
    ensures |e| == |v|
    ensures forall i :: 0 <= i < |v| ==> e[i] == Ordinal(v[i])
  {
    seq(|v|, i requires 0 <= i < |v| => Ordinal(v[i]))
  }

  /** Valid dates in strictly increasing calendar order. */
  predicate Chronological(v: seq<Date>) {
    ValidDates(v) && Increasing(Edges(v))
  }

  /** How many months, from month k on, start on or before day `limit`. */
  function MonthsUpTo(k: int, limit: int): nat
    decreases limit - FirstOfMonth(k)
  {
    if FirstOfMonth(k) > limit then 0
    else
      NextMonthLater(k);
      1 + MonthsUpTo(k + 1, limit)
  }

  /** The third Fridays of the n months from month k on. */
  function ExpirationsFrom(k: int, n: nat): (v: seq<Date>)
    ensures |v| == n
    ensures forall i :: 0 <= i < n ==> v[i] == ThirdFriday(k + i)
    ensures ValidDates(v)
  {
    var v := seq(n, i requires 0 <= i < n => ThirdFriday(k + i));
    assert forall i :: 0 <= i < n ==> v[i] == ThirdFriday(k + i);
    v
  }

  /** The month the walk starts in: start's month shifted to its first day
      and then 35 days back, which is two months before start's month. */
  function FirstMonth(startDay: int): int {
    MonthContaining(startDay) - 2
  }

  /** The walk goes on while the month's first day is at most 60 days after the
      first day of end's month. */
  function Horizon(endDay: int): int {
    FirstOfMonth(MonthContaining(endDay)) + 60
  }

  /** The expiration calendar for bars dated from startDay to endDay. */
  function Expirations(startDay: int, endDay: int): seq<Date> {
    ExpirationsFrom(FirstMonth(startDay), MonthsUpTo(FirstMonth(startDay), Horizon(endDay)))
  }

  /** The walk month by month, appending each month's third Friday unless it
      is already listed, and finally sorting the list. */
  method GenerateExpirations(startDay: int, endDay: int) returns (v: seq<Date>)
    ensures v == Expirations(startDay, endDay)
    ensures Chronological(v)
    ensures forall i :: 0 <= i < |v| ==>
      Weekday(Ordinal(v[i])) == Friday && 15 <= v[i].day <= 21 && MonthOf(v[i]) == FirstMonth(startDay) + i
  {
    var startFirst := FirstOfMonth(MonthContaining(startDay));   // start_date.replace(day=1)
    var endFirst := FirstOfMonth(MonthContaining(endDay));       // end_date.replace(day=1)
    // current_date = (start_date - 35 days).replace(day=1)
    ThirtyFiveDaysBack(MonthContaining(startDay));
    var first := MonthContaining(startFirst - 35);
    v := WalkMonths(first, endFirst + 60);
    assert first == FirstMonth(startDay) && endFirst + 60 == Horizon(endDay);
    // sorted(vencimentos) returns the list unchanged: it is already in order
    ExpirationsChronological(startDay, endDay);
    ExpirationsAreThirdFridays(startDay, endDay);
  }

  /** The loop of the walk: from month `first`, while the month's first day is
      not after `limit`, append the month's third Friday unless already listed
      and move to the next month, rolling December over into January. */
  method WalkMonths(first: int, limit: int) returns (v: seq<Date>)
    ensures v == ExpirationsFrom(first, MonthsUpTo(first, limit))
  {
    var year, month := YearOfMonth(first), MonthNumber(first);
    v := [];
    while FirstOfMonth(year * 12 + month - 1) <= limit
      invariant 1 <= month <= 12
      invariant Walked(first, limit, v, year * 12 + month - 1)
      decreases limit - FirstOfMonth(year * 12 + month - 1)
    {
      var thirdFriday := ThirdFriday(year * 12 + month - 1);
      WalkStep(first, limit, v, year * 12 + month - 1);
      if thirdFriday !in v {
        v := v + [thirdFriday];
      }
      if month == 12 {
        year, month := year + 1, 1;
      } else {
        month := month + 1;
      }
    }
    WalkDone(first, limit, v, year * 12 + month - 1);
  }

  /** The state of the walk before month `cur`: the third Fridays of the
      months from `first` up to `cur` (exclusive) have been listed. */
  ghost predicate Walked(first: int, limit: int, v: seq<Date>, cur: int) {
    && cur == first + |v|
    && (forall i :: 0 <= i < |v| ==> v[i] == ThirdFriday(first + i))
    && |v| + MonthsUpTo(cur, limit) == MonthsUpTo(first, limit)
  }

  /** Walking one more month lists a third Friday not yet listed. */
  lemma WalkStep(first: int, limit: int, v: seq<Date>, cur: int)
    requires Walked(first, limit, v, cur) && FirstOfMonth(cur) <= limit
    ensures ThirdFriday(cur) !in v
    ensures Walked(first, limit, v + [ThirdFriday(cur)], cur + 1)
    ensures FirstOfMonth(cur) < FirstOfMonth(cur + 1)
  {
    NextMonthLater(cur);
    var w := v + [ThirdFriday(cur)];
    forall i | 0 <= i < |w|
      ensures w[i] == ThirdFriday(first + i)
    {
    }
  }

  /** Once the walk passes the limit every month has been listed. */
  lemma WalkDone(first: int, limit: int, v: seq<Date>, cur: int)
    requires Walked(first, limit, v, cur) && FirstOfMonth(cur) > limit
    ensures v == ExpirationsFrom(first, MonthsUpTo(first, limit))
  {
  }

  /** Every counted month starts on or before the limit, the first month
      left out starts after it. */
  lemma {:induction false} MonthsUpToBounds(k: int, limit: int)
    ensures FirstOfMonth(k + MonthsUpTo(k, limit)) > limit
    decreases limit - FirstOfMonth(k)
  {
    if FirstOfMonth(k) <= limit {
      NextMonthLater(k);
      MonthsUpToBounds(k + 1, limit);
      assert k + MonthsUpTo(k, limit) == k + 1 + MonthsUpTo(k + 1, limit);
    }
  }

  lemma {:induction false} MonthsUpToWithin(k: int, limit: int, i: int)
    requires 0 <= i < MonthsUpTo(k, limit)
    ensures FirstOfMonth(k + i) <= limit
    decreases i
  {
    if i > 0 {
      NextMonthLater(k);
      MonthsUpToWithin(k + 1, limit, i - 1);
      assert k + 1 + (i - 1) == k + i;
    }
  }

  /** Third Fridays of later months are later days. */
  lemma ThirdFridayIncreasing(k: int, k': int)
    requires k < k'
    ensures Ordinal(ThirdFriday(k)) < Ordinal(ThirdFriday(k'))
  {
    FirstOfMonthIncreasing(k, k');
  }

  /** The calendar is strictly increasing, so sorting it changes nothing. */
  lemma ExpirationsChronological(startDay: int, endDay: int)
    ensures Chronological(Expirations(startDay, endDay))
  {
    var k := FirstMonth(startDay);
    ThirdFridaysIncreasing(k, MonthsUpTo(k, Horizon(endDay)));
  }

  /** The i-th entry of the calendar is a Friday between the 15th and the
      21st of the i-th month walked. */
  lemma ExpirationsAreThirdFridays(startDay: int, endDay: int)
    ensures forall i :: 0 <= i < |Expirations(startDay, endDay)| ==>
      var d := Expirations(startDay, endDay)[i];
      Weekday(Ordinal(d)) == Friday && 15 <= d.day <= 21 && MonthOf(d) == FirstMonth(startDay) + i
  {
    var k := FirstMonth(startDay);
    var v := ExpirationsFrom(k, MonthsUpTo(k, Horizon(endDay)));
    forall i | 0 <= i < |v|
      ensures Weekday(Ordinal(v[i])) == Friday && 15 <= v[i].day <= 21 && MonthOf(v[i]) == k + i
    {
      assert v[i] == ThirdFriday(k + i);
    }
  }

  /** The third Fridays of consecutive months are chronological. */
  lemma ThirdFridaysIncreasing(k: int, n: nat)
    ensures Chronological(ExpirationsFrom(k, n))
  {
    var v := ExpirationsFrom(k, n);
    var e := Edges(v);
    forall i, j | 0 <= i < j < |e|
      ensures e[i] < e[j]
    {
      assert e[i] == Ordinal(ThirdFriday(k + i)) && e[j] == Ordinal(ThirdFriday(k + j));
      ThirdFridayIncreasing(k + i, k + j);
    }
  }

  /** A month starting within `limit` is walked when the walk starts at or
      before it. */
  lemma WalkReaches(k: int, limit: int, j: int)
    requires k <= j && FirstOfMonth(j) <= limit
    ensures j < k + MonthsUpTo(k, limit)
  {
    MonthsUpToBounds(k, limit);
    var n := MonthsUpTo(k, limit);
    if k + n < j {
      FirstOfMonthIncreasing(k + n, j);
    }
  }

  /** The walk stops at the month after end's month or the one after that. */
  lemma CalendarEnds(startDay: int, endDay: int)
    requires startDay <= endDay
    ensures var k := FirstMonth(startDay);
      var n := MonthsUpTo(k, Horizon(endDay));
      k + n == MonthContaining(endDay) + 2 || k + n == MonthContaining(endDay) + 3
  {
    var k, e := FirstMonth(startDay), MonthContaining(endDay);
    var limit := Horizon(endDay);
    MonthContainingMonotone(startDay, endDay);
    NextMonthLater(e);
    WalkReaches(k, limit, e + 1);
    NextMonthLater(e + 1);
    NextMonthLater(e + 2);
    if e + 3 < k + MonthsUpTo(k, limit) {
      // month e + 3 starts at least 84 days after month e, past the horizon
      MonthsUpToWithin(k, limit, e + 3 - k);
    }
  }

  /** The calendar for bars dated from startDay to endDay (start not after
      end) begins two months before start's month and ends with the month
      after end's month or the one after that, so it holds at least four
      boundaries, the first before startDay and the last after endDay. */
  lemma ExpirationsCoverRange(startDay: int, endDay: int)
    requires startDay <= endDay
    ensures var v := Expirations(startDay, endDay);
      && |v| >= 4
      && v[0] == ThirdFriday(MonthContaining(startDay) - 2)
      && (v[|v| - 1] == ThirdFriday(MonthContaining(endDay) + 1) ||
          v[|v| - 1] == ThirdFriday(MonthContaining(endDay) + 2))
      && Ordinal(v[0]) < startDay
      && endDay < Ordinal(v[|v| - 1])
  {
    var k, e := FirstMonth(startDay), MonthContaining(endDay);
    var n := MonthsUpTo(k, Horizon(endDay));
    MonthContainingMonotone(startDay, endDay);
    CalendarEnds(startDay, endDay);
    CoverFrom(k, n, startDay, endDay, e);
  }

  /** The calendar for days first to last is chronological and its first
      and last expirations enclose both days. */
  lemma CalendarSpans(first: int, last: int)
    requires first <= last
    ensures var v := Expirations(first, last);
      && Chronological(v) && |v| >= 2
      && Ordinal(v[0]) < first && last < Ordinal(v[|v| - 1])
  {
    ExpirationsCoverRange(first, last);
    ExpirationsChronological(first, last);
  }

  /** The third Fridays of the n months from month k on cover the days from
      month k + 2 up to the end of month e when k + n is e + 2 or e + 3. */
  lemma CoverFrom(k: int, n: nat, startDay: int, endDay: int, e: int)
    requires FirstOfMonth(k + 2) <= startDay && endDay < FirstOfMonth(e + 1)
    requires k + 2 <= e && (k + n == e + 2 || k + n == e + 3)
    ensures var v := ExpirationsFrom(k, n);
      && |v| >= 4
      && v[0] == ThirdFriday(k)
      && (v[|v| - 1] == ThirdFriday(e + 1) || v[|v| - 1] == ThirdFriday(e + 2))
      && Ordinal(v[0]) < startDay
      && endDay < Ordinal(v[|v| - 1])
  {
    var v := ExpirationsFrom(k, n);
    assert v[0] == ThirdFriday(k) && v[n - 1] == ThirdFriday(k + n - 1);
    ExpiresBeforeMonth(k);
    ExpiresAfterMonth(e, k + n - 1);
  }

  /** The expiration of month k falls before month k + 2 starts. */
  lemma ExpiresBeforeMonth(k: int)
    ensures Ordinal(ThirdFriday(k)) < FirstOfMonth(k + 2)
  {
    NextMonthLater(k);
    NextMonthLater(k + 1);
  }

  /** The expiration of a later month falls after month e ends. */
  lemma ExpiresAfterMonth(e: int, j: int)
    requires e < j
    ensures FirstOfMonth(e + 1) <= Ordinal(ThirdFriday(j))
  {
    if e + 1 < j {
      FirstOfMonthIncreasing(e + 1, j);
    }
  }
}
