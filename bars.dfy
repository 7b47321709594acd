/** Daily price bars as the downloaded history holds them, one row per
    trading day, indexed by the day number of its date. */
module Bars {

  datatype Bar = Bar(day: int, open: real, high: real, low: real, close: real)

  /** The shape a well-formed daily bar has: open and close lie between the
      low and the high. Nothing in the program checks this. */
  predicate Consistent(b: Bar) {
    b.low <= b.open <= b.high && b.low <= b.close <= b.high
  }

  /** Bars whose days never decrease, as the download delivers them. */
  predicate InDayOrder(bars: seq<Bar>) {
    forall a, b :: 0 <= a <= b < |bars| ==> bars[a].day <= bars[b].day
  }

  /** `dados.index.min()` */
  function FirstDay(bars: seq<Bar>): (d: int)
    requires |bars| > 0
    ensures forall i :: 0 <= i < |bars| ==> d <= bars[i].day
    ensures exists i :: 0 <= i < |bars| && bars[i].day == d
  {
    if |bars| == 1 then bars[0].day
    else
      var d := FirstDay(bars[1..]);
      assert forall i :: 1 <= i < |bars| ==> bars[i] == bars[1..][i - 1];
      if bars[0].day <= d then bars[0].day else d
  }

  /** `dados.index.max()` */
  function LastDay(bars: seq<Bar>): (d: int)
    requires |bars| > 0
    ensures forall i :: 0 <= i < |bars| ==> bars[i].day <= d
    ensures exists i :: 0 <= i < |bars| && bars[i].day == d
  {
    if |bars| == 1 then bars[0].day
    else
      var d := LastDay(bars[1..]);
      assert forall i :: 1 <= i < |bars| ==> bars[i] == bars[1..][i - 1];
      if bars[0].day >= d then bars[0].day else d
  }

  /** The highest high, `max` of the Maxima column. */
  function MaxHigh(bars: seq<Bar>): (h: real)
    requires |bars| > 0
    ensures forall i :: 0 <= i < |bars| ==> bars[i].high <= h
    ensures exists i :: 0 <= i < |bars| && bars[i].high == h
  {
    if |bars| == 1 then bars[0].high
    else
      var h := MaxHigh(bars[1..]);
      assert forall i :: 1 <= i < |bars| ==> bars[i] == bars[1..][i - 1];
      if bars[0].high >= h then bars[0].high else h
  }

  /** The lowest low, `min` of the Minima column. */
  function MinLow(bars: seq<Bar>): (l: real)
    requires |bars| > 0
    ensures forall i :: 0 <= i < |bars| ==> l <= bars[i].low
    ensures exists i :: 0 <= i < |bars| && bars[i].low == l
  {
    if |bars| == 1 then bars[0].low
    else
      var l := MinLow(bars[1..]);
      assert forall i :: 1 <= i < |bars| ==> bars[i] == bars[1..][i - 1];
      if bars[0].low <= l then bars[0].low else l
  }

  /** The history extended with a bar for the current day: the last
      downloaded row, prices and all, re-indexed under today's date. */
  function WithTodayBar(raw: seq<Bar>, today: int): (bars: seq<Bar>)
    requires |raw| > 0
    ensures |bars| == |raw| + 1 && bars[..|raw|] == raw
    ensures bars[|raw|].day == today
    ensures bars[|raw|] == raw[|raw| - 1].(day := today)
  {
    raw + [raw[|raw| - 1].(day := today)]
  }

  /** When no downloaded bar is dated after today, the extended history
      spans from the first downloaded day up to today. */
  lemma TodayBarIsLatest(raw: seq<Bar>, today: int)
    requires |raw| > 0
    requires forall i :: 0 <= i < |raw| ==> raw[i].day <= today
    ensures LastDay(WithTodayBar(raw, today)) == today
    ensures FirstDay(WithTodayBar(raw, today)) == FirstDay(raw)
  {
    var bars := WithTodayBar(raw, today);
    var f := FirstDay(raw);
    assert forall i :: 0 <= i < |raw| ==> bars[i] == raw[i];
    var j :| 0 <= j < |raw| && raw[j].day == f;
    assert bars[j].day == f && f <= today;
    LastDayIs(bars, today, |raw|);
    FirstDayIs(bars, f, j);
  }

  /** A day no earlier than any bar's and held by bar j is the last day. */
  lemma LastDayIs(bars: seq<Bar>, d: int, j: nat)
    requires j < |bars| && bars[j].day == d
    requires forall i :: 0 <= i < |bars| ==> bars[i].day <= d
    ensures LastDay(bars) == d
  {
    var k :| 0 <= k < |bars| && bars[k].day == LastDay(bars);
  }

  /** A day no later than any bar's and held by bar j is the first day. */
  lemma FirstDayIs(bars: seq<Bar>, d: int, j: nat)
    requires j < |bars| && bars[j].day == d
    requires forall i :: 0 <= i < |bars| ==> d <= bars[i].day
    ensures FirstDay(bars) == d
  {
    var k :| 0 <= k < |bars| && bars[k].day == FirstDay(bars);
  }

  /** Today's bar keeps a history in day order when no bar is dated after
      today. */
  lemma TodayBarKeepsOrder(raw: seq<Bar>, today: int)
    requires |raw| > 0 && InDayOrder(raw)
    requires forall i :: 0 <= i < |raw| ==> raw[i].day <= today
    ensures InDayOrder(WithTodayBar(raw, today))
  {
    var bars := WithTodayBar(raw, today);
    forall a, b | 0 <= a <= b < |bars|
      ensures bars[a].day <= bars[b].day
    {
      if b < |raw| {
        assert bars[a] == raw[a] && bars[b] == raw[b];
      } else if a < |raw| {
        assert bars[a] == raw[a];
      }
    }
  }

  /** When the history already holds a bar for today, the extended history
      holds two bars of the same date. */
  lemma TodayBarDuplicatesDate(raw: seq<Bar>, today: int)
    requires |raw| > 0 && raw[|raw| - 1].day == today
    ensures var bars := WithTodayBar(raw, today);
      bars[|raw| - 1].day == bars[|raw|].day == today
  {
  }
}
