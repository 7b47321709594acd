/** Tagging each daily bar with the three periods it belongs to: its
    Saturday-to-Friday week, its monthly option cycle (between consecutive
    expirations) and its bimonthly cycle (between every other expiration).
    Bars that get no monthly or no bimonthly cycle are dropped. */
module Segmentation {
  import opened Options
  import opened Dates
  import opened ExpirationCalendar
  import opened Bars

  // ---------------------------------------------------------------------
  // Binning: pd.cut(x, bins, right=False, include_lowest=True)

  /** `bins.searchsorted(x, side='right')`: how many edges are at most x. */
  function CountAtMost(e: seq<int>, x: int): (c: nat)
    ensures c <= |e|
  {
    if |e| == 0 then 0
    else CountAtMost(e[..|e| - 1], x) + (if e[|e| - 1] <= x then 1 else 0)
  }

  /** The bin of x among the left-closed, right-open intervals
      [e[i], e[i+1]): the search position minus one, missing when x lies
      before the first edge or at or after the last one. With right=False
      the include_lowest flag changes nothing: a value equal to the first
      edge already falls in the first bin. */
  function Cut(e: seq<int>, x: int): (r: Option<nat>)
    ensures r.Some? ==> r.value + 1 < |e|
  {
    var c := CountAtMost(e, x);
    if c == 0 || c == |e| then None else Some(c - 1)
  }

  /** Over increasing edges, exactly the first CountAtMost(e, x) edges are at
      most x. */
  lemma {:induction false} CountAtMostPrefix(e: seq<int>, x: int)
    requires Increasing(e)
    ensures forall j :: 0 <= j < |e| ==> (e[j] <= x <==> j < CountAtMost(e, x))
  {
    if |e| > 0 {
      var p := e[..|e| - 1];
      assert Increasing(p);
      CountAtMostPrefix(p, x);
      assert forall j :: 0 <= j < |p| ==> p[j] == e[j];
    }
  }

  /** x falls in bin i exactly when e[i] <= x < e[i+1]: a day on a boundary
      belongs to the period that starts there. It gets no bin exactly when it
      lies before the first edge or at or after the last one. */
  lemma CutInterval(e: seq<int>, x: int)
    requires Increasing(e)
    ensures forall i :: 0 <= i < |e| - 1 ==> (Cut(e, x) == Some(i) <==> e[i] <= x < e[i + 1])
    ensures Cut(e, x) == None <==> (|e| == 0 || x < e[0] || e[|e| - 1] <= x)
  {
    var c := CountAtMost(e, x);
    CountAtMostPrefix(e, x);
    forall i | 0 <= i < |e| - 1
      ensures Cut(e, x) == Some(i) <==> e[i] <= x < e[i + 1]
    {
      assert e[i] <= x <==> i < c;
      assert e[i + 1] <= x <==> i + 1 < c;
    }
    if |e| > 0 {
      assert e[0] <= x <==> 0 < c;
      assert e[|e| - 1] <= x <==> |e| - 1 < c;
    }
  }

  // ---------------------------------------------------------------------
  // Weekly period: to_period('W-FRI')

  /** The Friday closing the Saturday-to-Friday week of a day; it stands for
      the week's period. */
  function WeekEnding(day: int): (f: int)
    ensures Weekday(f) == Friday && day <= f <= day + 6
  {
    var shift := (Friday - Weekday(day) + 7) % 7;
    WeekdayShift(day, shift);
    day + shift
  }

  /** The closing Friday is the only Friday from the day to six days later. */
  lemma WeekEndingUnique(day: int, f: int)
    requires Weekday(f) == Friday && day <= f <= day + 6
    ensures f == WeekEnding(day)
  {
    var g := WeekEnding(day);
    if f < g {
      WeekdayShift(f, g - f);
    } else if g < f {
      WeekdayShift(g, f - g);
    }
  }

  /** Two days share a weekly period exactly when the second lies in the
      seven days ending at the first one's closing Friday. */
  lemma SameWeek(a: int, b: int)
    ensures WeekEnding(a) == WeekEnding(b) <==> WeekEnding(a) - 6 <= b <= WeekEnding(a)
  {
    if WeekEnding(a) - 6 <= b <= WeekEnding(a) {
      WeekEndingUnique(b, WeekEnding(a));
    }
  }

  // ---------------------------------------------------------------------
  // Labels

  /** `v[::2]` */
  function EveryOther<T>(v: seq<T>): (w: seq<T>)
    ensures |w| == (|v| + 1) / 2
    ensures forall i :: 0 <= i < |w| ==> w[i] == v[2 * i]
    decreases |v|
  {
    if |v| == 0 then []
    else if |v| <= 2 then [v[0]]
    else
      var rest := EveryOther(v[2..]);
      assert forall i :: 0 <= i < |rest| ==> rest[i] == v[2 * (i + 1)];
      [v[0]] + rest
  }

  /** The label of a bimonthly cycle: the months of its two expirations and
      the year of the second, `Bim-<mon1>/<mon2>-<year>`. */
  datatype BimonthlyLabel = BimonthlyLabel(firstMonth: int, secondMonth: int, year: int)

  function BimonthlyLabelAt(v: seq<Date>, i: nat): BimonthlyLabel
    requires 2 * i + 1 < |v|
  {
    BimonthlyLabel(v[2 * i].month, v[2 * i + 1].month, v[2 * i + 1].year)
  }

  /** The labelling loop: for each bimonthly interval i, label it from
      expirations 2i and 2i+1 when 2i+1 is still an index of the calendar. */
  method BimonthlyLabels(v: seq<Date>, bins: seq<Date>) returns (labels: seq<BimonthlyLabel>)
    ensures |labels| == if |bins| <= 1 then 0 else Min(|bins| - 1, |v| / 2)
    ensures forall i :: 0 <= i < |labels| ==> 2 * i + 1 < |v| && labels[i] == BimonthlyLabelAt(v, i)
  {
    labels := [];
    for i := 0 to if |bins| <= 1 then 0 else |bins| - 1
      invariant |labels| == Min(i, |v| / 2)
      invariant forall j :: 0 <= j < |labels| ==> 2 * j + 1 < |v| && labels[j] == BimonthlyLabelAt(v, j)
    {
      var first := i * 2;
      var second := first + 1;
      if second < |v| {
        labels := labels + [BimonthlyLabel(v[first].month, v[second].month, v[second].year)];
      }
    }
  }

  function Min(a: int, b: int): int {
    if a <= b then a else b
  }

  /** On the calendar the guard never fails: every bimonthly interval, over
      `v[::2]` or over the closed bins below, gets exactly one label. */
  lemma OneLabelPerInterval(v: seq<Date>)
    requires |v| >= 2
    ensures Min(|EveryOther(v)| - 1, |v| / 2) == |EveryOther(v)| - 1
    ensures Min(|ClosedBimonthlyBins(v)| - 1, |v| / 2) == |ClosedBimonthlyBins(v)| - 1
  {
    var n := |v|;
    assert |EveryOther(v)| - 1 == (n + 1) / 2 - 1 <= n / 2;
    assert |ClosedBimonthlyBins(v)| - 1 == n / 2;
  }

  /** The monthly labels (the upper expirations) and the bimonthly labels of a
      calendar with one expiration per consecutive month are pairwise
      distinct, as pd.cut demands of its labels. */
  lemma LabelsDistinct(v: seq<Date>, k: int)
    requires Chronological(v)
    requires forall i :: 0 <= i < |v| ==> MonthOf(v[i]) == k + i
    ensures forall i, j :: 1 <= i < j < |v| ==> v[i] != v[j]
    ensures forall i: nat, j: nat :: i < j && 2 * j + 1 < |v| ==> BimonthlyLabelAt(v, i) != BimonthlyLabelAt(v, j)
  {
    forall i: nat, j: nat | i < j && 2 * j + 1 < |v|
      ensures BimonthlyLabelAt(v, i) != BimonthlyLabelAt(v, j)
    {
      assert MonthOf(v[2 * i + 1]) != MonthOf(v[2 * j + 1]);
    }
  }

  // ---------------------------------------------------------------------
  // Tagging and dropping

  /** A bar with its weekly period (the closing Friday's day number), its
      monthly cycle and its bimonthly cycle (bin indices). */
  datatype Row = Row(bar: Bar, week: int, monthly: nat, bimonthly: nat)

  /** The bars of some rows, in the rows' order. */
  function BarsOf(g: seq<Row>): (bars: seq<Bar>)
    ensures |bars| == |g| && forall i :: 0 <= i < |g| ==> bars[i] == g[i].bar
  {
    seq(|g|, i requires 0 <= i < |g| => g[i].bar)
  }

  /** g is s with some of its elements left out and the others in their
      order. */
  predicate Subsequence<T(==)>(g: seq<T>, s: seq<T>)
    decreases |s|
  {
    if |g| == 0 then true
    else if |s| == 0 then false
    else (g[|g| - 1] == s[|s| - 1] && Subsequence(g[..|g| - 1], s[..|s| - 1])) || Subsequence(g, s[..|s| - 1])
  }

  /** Rows whose days never decrease. */
  predicate DaysInOrder(rows: seq<Row>) {
    forall a, b :: 0 <= a <= b < |rows| ==> rows[a].bar.day <= rows[b].bar.day
  }

  /** The ids of one bar, missing when either cycle is missing. */
  function Tag(b: Bar, edges: seq<int>, bimEdges: seq<int>): Option<Row> {
    match (Cut(edges, b.day), Cut(bimEdges, b.day))
    case (Some(m), Some(bm)) => Some(Row(b, WeekEnding(b.day), m, bm))
    case _ => None
  }

  /** The tagged bars, in their original order, without those lacking a
      monthly or a bimonthly cycle (`dropna(subset=[...])`). */
  function Segmented(bars: seq<Bar>, edges: seq<int>, bimEdges: seq<int>): (rows: seq<Row>)
    ensures |rows| <= |bars|
    ensures Subsequence(BarsOf(rows), bars)
    decreases |bars|
  {
    if |bars| == 0 then []
    else
      var rest := Segmented(bars[..|bars| - 1], edges, bimEdges);
      match Tag(bars[|bars| - 1], edges, bimEdges)
      case Some(r) =>
        assert r.bar == bars[|bars| - 1];
        assert BarsOf(rest + [r])[..|rest|] == BarsOf(rest);
        rest + [r]
      case None => rest
  }

  /** processar_dados_com_periodos with given bimonthly bins: monthly bins
      over the whole calendar. */
  function ProcessPeriods(bars: seq<Bar>, v: seq<Date>, bimonthlyBins: seq<Date>): (rows: seq<Row>)
    ensures |rows| <= |bars|
    ensures Subsequence(BarsOf(rows), bars)
  {
    Segmented(bars, Edges(v), Edges(bimonthlyBins))
  }

  /** The drop is global: a bar survives, with all three of its ids, exactly
      when it has both cycles, whatever its week; every surviving row is such
      a tagged bar. */
  lemma {:induction false} SegmentedMembership(bars: seq<Bar>, edges: seq<int>, bimEdges: seq<int>)
    ensures forall i :: 0 <= i < |bars| && Tag(bars[i], edges, bimEdges).Some? ==>
      Tag(bars[i], edges, bimEdges).value in Segmented(bars, edges, bimEdges)
    ensures forall r :: r in Segmented(bars, edges, bimEdges) ==>
      exists i :: 0 <= i < |bars| && Tag(bars[i], edges, bimEdges) == Some(r)
    decreases |bars|
  {
    if |bars| > 0 {
      var p := bars[..|bars| - 1];
      SegmentedMembership(p, edges, bimEdges);
      assert forall i :: 0 <= i < |p| ==> p[i] == bars[i];
    }
  }

  /** A surviving row carries the ids of its own bar: the closing Friday of
      its week, and the monthly and bimonthly bins holding its day. */
  lemma SegmentedIds(bars: seq<Bar>, edges: seq<int>, bimEdges: seq<int>, r: Row)
    requires r in Segmented(bars, edges, bimEdges)
    ensures r.bar in bars
    ensures r.week == WeekEnding(r.bar.day)
    ensures Cut(edges, r.bar.day) == Some(r.monthly) && Cut(bimEdges, r.bar.day) == Some(r.bimonthly)
  {
    SegmentedMembership(bars, edges, bimEdges);
  }

  /** A bar that gets no cycle leaves no row behind. */
  lemma UntaggedBarDropped(bars: seq<Bar>, edges: seq<int>, bimEdges: seq<int>, b: Bar)
    requires Tag(b, edges, bimEdges).None?
    ensures forall r :: r in Segmented(bars, edges, bimEdges) ==> r.bar != b
  {
    SegmentedMembership(bars, edges, bimEdges);
    forall r | r in Segmented(bars, edges, bimEdges)
      ensures r.bar != b
    {
      var i :| 0 <= i < |bars| && Tag(bars[i], edges, bimEdges) == Some(r);
      assert r.bar == bars[i];
    }
  }

  /** Bars in day order give rows in day order. */
  lemma {:induction false} SegmentedKeepsOrder(bars: seq<Bar>, edges: seq<int>, bimEdges: seq<int>)
    requires InDayOrder(bars)
    ensures DaysInOrder(Segmented(bars, edges, bimEdges))
    decreases |bars|
  {
    if |bars| > 0 {
      var p := bars[..|bars| - 1];
      assert InDayOrder(p);
      SegmentedKeepsOrder(p, edges, bimEdges);
      var rest := Segmented(p, edges, bimEdges);
      match Tag(bars[|bars| - 1], edges, bimEdges)
      case Some(r) =>
        assert r.bar == bars[|bars| - 1];
        forall x | x in rest
          ensures x.bar.day <= r.bar.day
        {
          SegmentedIds(p, edges, bimEdges, x);
          var a :| 0 <= a < |p| && p[a] == x.bar;
          assert bars[a] == x.bar;
        }
        var rows := rest + [r];
        forall a, b | 0 <= a <= b < |rows|
          ensures rows[a].bar.day <= rows[b].bar.day
        {
          if b < |rest| {
            assert rows[a] == rest[a] && rows[b] == rest[b];
          } else if a < |rest| {
            assert rows[a] in rest;
          }
        }
      case None =>
    }
  }

  // ---------------------------------------------------------------------
  // The bimonthly bins as written, and closed by the last expiration

  /** `bins_bimestrais = vencimentos[::2]` */
  function BimonthlyBins(v: seq<Date>): seq<Date> {
    EveryOther(v)
  }

  /** With an even number of expirations, `v[::2]` stops at the
      second-to-last expiration: a bar dated on or after it gets no bimonthly
      cycle and is dropped from every period table. */
  lemma EvenCalendarLosesLastInterval(v: seq<Date>, day: int)
    requires Chronological(v) && |v| >= 2 && |v| % 2 == 0
    requires Ordinal(v[|v| - 2]) <= day
    ensures Cut(Edges(BimonthlyBins(v)), day) == None
  {
    var b := BimonthlyBins(v);
    var e := Edges(b);
    assert |b| == |v| / 2 && b[|b| - 1] == v[|v| - 2];
    assert e[|e| - 1] == Ordinal(v[|v| - 2]);
    forall i, j | 0 <= i < j < |e|
      ensures e[i] < e[j]
    {
      assert e[i] == Edges(v)[2 * i] && e[j] == Edges(v)[2 * j];
      assert Edges(v)[2 * i] < Edges(v)[2 * j];
    }
    CutInterval(e, day);
  }

  /** The calendar of bars from startDay to endDay ends with the month after
      endDay's month exactly when that month and the next are longer than 60
      days together; otherwise it ends with the second month after it. */
  lemma CalendarEndsAfterOneMonth(startDay: int, endDay: int)
    requires startDay <= endDay
    ensures FirstMonth(startDay) + |Expirations(startDay, endDay)| == MonthContaining(endDay) + 2
        <==> MonthLength(MonthContaining(endDay)) + MonthLength(MonthContaining(endDay) + 1) > 60
    ensures FirstMonth(startDay) + |Expirations(startDay, endDay)| == MonthContaining(endDay) + 3
        <==> MonthLength(MonthContaining(endDay)) + MonthLength(MonthContaining(endDay) + 1) <= 60
  {
    var k, e := FirstMonth(startDay), MonthContaining(endDay);
    var limit := Horizon(endDay);
    CalendarEnds(startDay, endDay);
    MonthContainingMonotone(startDay, endDay);
    NextMonthLater(e);
    NextMonthLater(e + 1);
    if MonthLength(e) + MonthLength(e + 1) > 60 {
      if k + MonthsUpTo(k, limit) == e + 3 {
        MonthsUpToWithin(k, limit, e + 2 - k);
      }
    } else if k + MonthsUpTo(k, limit) == e + 2 {
      MonthsUpToBounds(k, limit);
    }
  }

  /** The bars of any year from a day in March up to May 31st (May and June
      together have 61 days; six expirations, January to June). The last bar
      lies after May's expiration, the fourth of six, so it gets no bimonthly
      cycle: the bar of May 31st is dropped. */
  lemma LastBarOfMayDropped(year: int, startDay: int)
    requires 1 <= startDay <= 31
    ensures var first := Ordinal(Date(year, 3, startDay));
      var last := Ordinal(Date(year, 5, 31));
      var v := Expirations(first, last);
      |v| == 6 && Cut(Edges(BimonthlyBins(v)), last) == None
  {
    var first := Ordinal(Date(year, 3, startDay));
    var last := Ordinal(Date(year, 5, 31));
    var e := MayCalendar(year, startDay);
    var v := Expirations(first, last);
    ExpirationsChronological(first, last);
    assert v[4] == ThirdFriday(e);
    EvenCalendarLosesLastInterval(v, last);
  }

  /** The calendar from a day in March to May 31st walks January to June. */
  lemma MayCalendar(year: int, startDay: int) returns (e: int)
    requires 1 <= startDay <= 31
    ensures var first := Ordinal(Date(year, 3, startDay));
      var last := Ordinal(Date(year, 5, 31));
      && e == MonthContaining(last) && FirstMonth(first) == e - 4
      && |Expirations(first, last)| == 6
      && Ordinal(ThirdFriday(e)) <= last
  {
    var first := Ordinal(Date(year, 3, startDay));
    var last := Ordinal(Date(year, 5, 31));
    e := MarchToMay(year, startDay);
    MonthIndexParts(year, 5);
    MonthIndexParts(year, 6);
    assert MonthLength(e) + MonthLength(e + 1) == 61;
    CalendarEndsAfterOneMonth(first, last);
  }

  /** A day in March lies two months before May 31st, which is day 31 of
      its month. */
  lemma MarchToMay(year: int, startDay: int) returns (e: int)
    requires 1 <= startDay <= 31
    ensures var first := Ordinal(Date(year, 3, startDay));
      var last := Ordinal(Date(year, 5, 31));
      && e == year * 12 + 4
      && MonthContaining(first) == e - 2 && MonthContaining(last) == e
      && first <= last == FirstOfMonth(e) + 30
  {
    e := year * 12 + 4;
    DateInItsMonth(Date(year, 3, startDay));
    DateInItsMonth(Date(year, 5, 31));
    NextMonthLater(e - 1);
  }

  lemma MonthIndexParts(year: int, month: int)
    requires 1 <= month <= 12
    ensures YearOfMonth(year * 12 + month - 1) == year
    ensures MonthNumber(year * 12 + month - 1) == month
  {
  }

  /** The bimonthly bins closed by the last expiration: `v[::2]`, plus the
      last expiration when `v[::2]` leaves it out. */
  function ClosedBimonthlyBins(v: seq<Date>): (bins: seq<Date>)
    ensures |bins| == if |v| == 0 then 0 else |v| / 2 + 1
    ensures |v| % 2 == 1 ==> bins == BimonthlyBins(v)
    ensures |v| > 0 ==> bins[0] == v[0] && bins[|bins| - 1] == v[|v| - 1]
    ensures forall i :: 0 <= i < |bins| - 1 ==> bins[i] == v[2 * i]
  {
    if |v| > 0 && |v| % 2 == 0 then EveryOther(v) + [v[|v| - 1]] else EveryOther(v)
  }

  /** With the closed bins every bar from the first expiration up to (not
      including) the last one gets both cycles, so it is kept. */
  lemma ClosedBinsKeepEveryBar(v: seq<Date>, day: int)
    requires Chronological(v) && |v| >= 2
    requires Ordinal(v[0]) <= day < Ordinal(v[|v| - 1])
    ensures Cut(Edges(v), day).Some?
    ensures Cut(Edges(ClosedBimonthlyBins(v)), day).Some?
  {
    CutInterval(Edges(v), day);
    var b := ClosedBimonthlyBins(v);
    var e := Edges(b);
    forall i, j | 0 <= i < j < |e|
      ensures e[i] < e[j]
    {
      if j < |e| - 1 {
        assert Edges(v)[2 * i] < Edges(v)[2 * j];
      } else if 2 * i < |v| - 1 {
        assert Edges(v)[2 * i] < Edges(v)[|v| - 1];
      }
    }
    CutInterval(e, day);
  }
}
