/** The analysis panel of one kind of period: the period holding today, its
    opening and bracket, the bracket's range widths and the alert check that
    compares today's move within the period with the bracket's mean moves. */
module Alerts {
  import opened Options
  import opened Bars
  import opened ExpirationCalendar
  import opened Segmentation
  import opened Aggregation
  import opened Statistics

  /** The outcome of the alert comparison. */
  datatype Signal =
    | Quiet
    | HighReached(pullbackMean: real)   // with the bracket's mean pullback share
    | LowReached(recoveryMean: real)    // with the bracket's mean recovery share

  /** The alert column of the panel. */
  datatype Check =
    | InsufficientHistory   // the bracket has no reversal statistics
    | AwaitingFirstBar      // no daily row from the period's start up to today
    | Evaluated(varUp: real, varDown: real, avgUp: real, avgDown: real, daysLeft: int, signal: Signal)

  /** The whole panel: nothing when no period holds today. */
  datatype Panel =
    | NoActivePeriod
    | Active(opening: real, bracket: Bracket, widths: Option<RangeWidths>, check: Check)

  /** The period of a summary line holds the given day. */
  predicate Covers(s: Summary, day: int) {
    s.startDay <= day <= s.endDay
  }

  /** The first line, from index k on, whose period holds today. */
  function FirstActiveFrom(t: seq<Summary>, today: int, k: nat): (r: Option<nat>)
    requires k <= |t|
    ensures r.None? <==> forall i :: k <= i < |t| ==> !Covers(t[i], today)
    ensures r.Some? ==> k <= r.value < |t| && Covers(t[r.value], today)
    ensures r.Some? ==> forall j :: k <= j < r.value ==> !Covers(t[j], today)
    decreases |t| - k
  {
    if k == |t| then None
    else if Covers(t[k], today) then Some(k)
    else FirstActiveFrom(t, today, k + 1)
  }

  /** `periodo_atual.iloc[0]`: the first line of the table whose period holds
      today, if any. */
  function FirstActive(t: seq<Summary>, today: int): (r: Option<nat>)
    ensures r.None? <==> forall i :: 0 <= i < |t| ==> !Covers(t[i], today)
    ensures r.Some? ==> r.value < |t| && Covers(t[r.value], today)
    ensures r.Some? ==> forall j :: 0 <= j < r.value ==> !Covers(t[j], today)
  {
    FirstActiveFrom(t, today, 0)
  }

  /** The daily rows dated from the period's start up to today, in order. */
  function SinceStart(rows: seq<Row>, start: int, today: int): (g: seq<Row>)
    ensures forall r :: r in g <==> r in rows && start <= r.bar.day <= today
    decreases |rows|
  {
    if |rows| == 0 then []
    else
      var rest := SinceStart(rows[..|rows| - 1], start, today);
      var last := rows[|rows| - 1];
      assert forall r :: r in rows <==> r in rows[..|rows| - 1] || r == last;
      if start <= last.bar.day <= today then rest + [last] else rest
  }

  /** The lines of the table whose opening `get_faixa_preco` puts in the
      given bracket (the alert's history, which the statistics filter does
      not decide). */
  function Baseline(t: seq<Summary>, b: Bracket): (base: seq<Summary>)
    ensures forall s :: s in base <==> s in t && Classify(s.open) == b
    decreases |t|
  {
    if |t| == 0 then []
    else
      var rest := Baseline(t[..|t| - 1], b);
      assert forall s :: s in t <==> s in t[..|t| - 1] || s == t[|t| - 1];
      if Classify(t[|t| - 1].open) == b then rest + [t[|t| - 1]] else rest
  }

  /** The alert's history holds every line of its bracket as often as the
      table does and in table order, so the means of its moves average over
      exactly those lines. */
  lemma {:induction false} BaselineMultiset(t: seq<Summary>, b: Bracket)
    ensures forall s :: multiset(Baseline(t, b))[s] == if Classify(s.open) == b then multiset(t)[s] else 0
    ensures Subsequence(Baseline(t, b), t)
  {
    if |t| > 0 {
      BaselineMultiset(t[..|t| - 1], b);
      assert t == t[..|t| - 1] + [t[|t| - 1]];
    }
  }

  // ---------------------------------------------------------------------
  // Means

  function Sum(s: seq<real>): real {
    if |s| == 0 then 0.0 else s[0] + Sum(s[1..])
  }

  /** The arithmetic mean, `Series.mean()` over values without gaps. */
  function Mean(s: seq<real>): real
    requires |s| > 0
  {
    Sum(s) / |s| as real
  }

  /** The `Var_Alta_Rs` column of some lines. */
  function UpMoves(lines: seq<Summary>): (s: seq<real>)
    ensures |s| == |lines| && forall i :: 0 <= i < |lines| ==> s[i] == lines[i].varUp
  {
    seq(|lines|, i requires 0 <= i < |lines| => lines[i].varUp)
  }

  /** The `Var_Baixa_Rs` column of some lines. */
  function DownMoves(lines: seq<Summary>): (s: seq<real>)
    ensures |s| == |lines| && forall i :: 0 <= i < |lines| ==> s[i] == lines[i].varDown
  {
    seq(|lines|, i requires 0 <= i < |lines| => lines[i].varDown)
  }

  lemma {:induction false} SumBounds(s: seq<real>, lo: real, hi: real)
    requires forall i :: 0 <= i < |s| ==> lo <= s[i] <= hi
    ensures |s| as real * lo <= Sum(s) <= |s| as real * hi
  {
    if |s| > 0 {
      SumBounds(s[1..], lo, hi);
      assert |s| as real * lo == lo + (|s| - 1) as real * lo;
      assert |s| as real * hi == hi + (|s| - 1) as real * hi;
    }
  }

  lemma DivideBounds(x: real, n: real, lo: real, hi: real)
    requires n > 0.0 && n * lo <= x <= n * hi
    ensures lo <= x / n <= hi
  {
    assert (x / n) * n == x;
  }

  /** A mean lies within any bounds of its values. */
  lemma MeanBounds(s: seq<real>, lo: real, hi: real)
    requires |s| > 0
    requires forall i :: 0 <= i < |s| ==> lo <= s[i] <= hi
    ensures lo <= Mean(s) <= hi
  {
    SumBounds(s, lo, hi);
    DivideBounds(Sum(s), |s| as real, lo, hi);
  }

  // ---------------------------------------------------------------------
  // The alert

  /** The alert rule: the high alert when the rise reaches the mean rise,
      otherwise the low alert when the fall reaches the mean fall, otherwise
      none; each alert reports the matching mean reversal share. */
  function Decide(varUp: real, varDown: real, avgUp: real, avgDown: real, rev: Reversals): (s: Signal)
    ensures s.HighReached? <==> varUp >= avgUp
    ensures s.LowReached? <==> varUp < avgUp && varDown >= avgDown
    ensures s.Quiet? <==> varUp < avgUp && varDown < avgDown
    ensures s.HighReached? ==> s.pullbackMean == rev.pullMean
    ensures s.LowReached? ==> s.recoveryMean == rev.recMean
  {
    if varUp >= avgUp then HighReached(rev.pullMean)
    else if varDown >= avgDown then LowReached(rev.recMean)
    else Quiet
  }

  /** The alert column for the active line t[i] in bracket b. */
  function Assess(rows: seq<Row>, t: seq<Summary>, i: nat, b: Bracket, reversals: map<Bracket, Reversals>, today: int): (c: Check)
    requires i < |t| && Covers(t[i], today) && b == Classify(t[i].open)
    ensures c.InsufficientHistory? <==> b !in reversals
    ensures c.AwaitingFirstBar? <==>
      b in reversals && forall r :: r in rows ==> !(t[i].startDay <= r.bar.day <= today)
    ensures c.Evaluated? ==> c.daysLeft == t[i].endDay - today && c.daysLeft >= 0
    ensures c.Evaluated? ==>
      && (forall r :: r in rows && t[i].startDay <= r.bar.day <= today ==>
            r.bar.high - t[i].open <= c.varUp && t[i].open - r.bar.low <= c.varDown)
      && (exists r :: r in rows && t[i].startDay <= r.bar.day <= today && r.bar.high - t[i].open == c.varUp)
      && (exists r :: r in rows && t[i].startDay <= r.bar.day <= today && t[i].open - r.bar.low == c.varDown)
    ensures c.Evaluated? ==>
      c.avgUp == Mean(UpMoves(Baseline(t, b))) && c.avgDown == Mean(DownMoves(Baseline(t, b)))
    ensures c.Evaluated? ==>
      c.signal == Decide(c.varUp, c.varDown, c.avgUp, c.avgDown, reversals[b])
  {
    if b !in reversals then InsufficientHistory
    else
      var g := SinceStart(rows, t[i].startDay, today);
      if |g| == 0 then
        assert forall r :: r in rows ==> !(t[i].startDay <= r.bar.day <= today);
        AwaitingFirstBar
      else
        assert g[0] in g;
        var bars := BarsOf(g);
        var up, down := MaxHigh(bars) - t[i].open, t[i].open - MinLow(bars);
        ExtremesSinceStart(g, bars);
        var base := Baseline(t, b);
        assert t[i] in base;
        var avgUp, avgDown := Mean(UpMoves(base)), Mean(DownMoves(base));
        Evaluated(up, down, avgUp, avgDown, t[i].endDay - today, Decide(up, down, avgUp, avgDown, reversals[b]))
  }

  /** The highest high and the lowest low of some rows are attained by rows. */
  lemma ExtremesSinceStart(g: seq<Row>, bars: seq<Bar>)
    requires |g| > 0 && bars == BarsOf(g)
    ensures forall r :: r in g ==> r.bar.high <= MaxHigh(bars) && MinLow(bars) <= r.bar.low
    ensures exists r :: r in g && r.bar.high == MaxHigh(bars)
    ensures exists r :: r in g && r.bar.low == MinLow(bars)
  {
    forall r | r in g
      ensures r.bar.high <= MaxHigh(bars) && MinLow(bars) <= r.bar.low
    {
      var j :| 0 <= j < |g| && g[j] == r;
      assert bars[j] == r.bar;
    }
    var a :| 0 <= a < |bars| && bars[a].high == MaxHigh(bars);
    var c :| 0 <= c < |bars| && bars[c].low == MinLow(bars);
    assert g[a] in g && g[c] in g;
  }

  /** `exibir_painel_periodo`, without the rendering: the first line whose
      period holds today, its opening and bracket, the bracket's widths when
      the bracket has range statistics, and the alert column. */
  function EvaluatePanel(rows: seq<Row>, t: seq<Summary>, ranges: map<Bracket, RangeWidths>,
                         reversals: map<Bracket, Reversals>, today: int): (p: Panel)
    ensures p.NoActivePeriod? <==> forall i :: 0 <= i < |t| ==> !Covers(t[i], today)
    ensures p.Active? ==> exists i :: 0 <= i < |t| && Covers(t[i], today) && p.opening == t[i].open
    ensures p.Active? ==> p.bracket == Classify(p.opening)
    ensures p.Active? ==> (p.widths.Some? <==> p.bracket in ranges)
    ensures p.Active? && p.widths.Some? ==> p.widths.value == ranges[p.bracket]
    ensures p.Active? ==> (p.check.InsufficientHistory? <==> p.bracket !in reversals)
    ensures p.Active? ==>
      && FirstActive(t, today).Some?
      && p.opening == t[FirstActive(t, today).value].open
      && p.check == Assess(rows, t, FirstActive(t, today).value, p.bracket, reversals, today)
  {
    match FirstActive(t, today)
    case None => NoActivePeriod
    case Some(i) =>
      var b := Classify(t[i].open);
      Active(t[i].open, b, if b in ranges then Some(ranges[b]) else None, Assess(rows, t, i, b, reversals, today))
  }

  // ---------------------------------------------------------------------
  // Properties of the panel

  /** The alert's history includes the current period itself: the active
      line is one of the lines its means are taken over. */
  lemma BaselineIncludesCurrent(t: seq<Summary>, i: nat)
    requires i < |t|
    ensures t[i] in Baseline(t, Classify(t[i].open))
    ensures |Baseline(t, Classify(t[i].open))| > 0
  {
    assert t[i] in t;
  }

  /** The means of the alert are means over the bracket's lines, so they lie
      between the smallest and the largest rise (and fall) among them. */
  lemma AverageWithinHistory(t: seq<Summary>, i: nat, lo: real, hi: real)
    requires i < |t|
    requires forall s :: s in t && Classify(s.open) == Classify(t[i].open) ==> lo <= s.varUp <= hi && lo <= s.varDown <= hi
    ensures var base := Baseline(t, Classify(t[i].open));
      |base| > 0 && lo <= Mean(UpMoves(base)) <= hi && lo <= Mean(DownMoves(base)) <= hi
  {
    var base := Baseline(t, Classify(t[i].open));
    BaselineIncludesCurrent(t, i);
    assert forall j :: 0 <= j < |base| ==> base[j] in base;
    MeanBounds(UpMoves(base), lo, hi);
    MeanBounds(DownMoves(base), lo, hi);
  }

  /** An active period whose opening falls in a gap of the statistics
      filter is not among the lines its bracket's statistics are taken from,
      yet it is in the alert's history. */
  lemma GapOpeningOutsideStatistics(t: seq<Summary>, i: nat)
    requires i < |t|
    requires var p := t[i].open;
      || (3.50 < p < 3.51) || (6.00 < p < 6.01) || (8.00 < p < 8.01) || (10.00 < p < 10.01) || p < 0.0 || 999.0 < p
    ensures t[i] !in BracketLines(t, Classify(t[i].open))
    ensures t[i] in Baseline(t, Classify(t[i].open))
  {
    FilterGaps(t[i].open);
    BracketLinesMembers(t, Classify(t[i].open));
    BaselineIncludesCurrent(t, i);
  }

  /** In a period table every line's first day is the day of one of its
      rows, and so is its last day. */
  lemma LineEndsAreRowDays(rows: seq<Row>, kind: Kind, t: seq<Summary>, i: nat)
    requires IsPeriodTable(rows, kind, t) && i < |t|
    ensures exists r :: r in rows && r.bar.day == t[i].startDay
    ensures exists r :: r in rows && r.bar.day == t[i].endDay
  {
    var g := Group(rows, kind, t[i].key);
    AggregateBounds(t[i].key, g);
    var j :| 0 <= j < |g| && g[j].bar.day == t[i].startDay;
    var k :| 0 <= k < |g| && g[k].bar.day == t[i].endDay;
    assert g[j] in g && g[k] in g;
  }

  /** Over a period table of the same rows the alert never waits for a
      first bar: the active period's first row is dated on its start day,
      which is not after today. */
  lemma NeverAwaitingFirstBar(rows: seq<Row>, kind: Kind, t: seq<Summary>, ranges: map<Bracket, RangeWidths>,
                              reversals: map<Bracket, Reversals>, today: int)
    requires IsPeriodTable(rows, kind, t)
    ensures var p := EvaluatePanel(rows, t, ranges, reversals, today);
      p.Active? ==> !p.check.AwaitingFirstBar?
  {
    match FirstActive(t, today)
    case None =>
    case Some(i) =>
      LineEndsAreRowDays(rows, kind, t, i);
      var r :| r in rows && r.bar.day == t[i].startDay;
      assert t[i].startDay <= r.bar.day <= today;
  }

  /** When every row is dated on or before today and some row is dated
      today, a period table of the rows has a line holding today, and the
      first such line ends today. */
  lemma ActiveLineEndsToday(rows: seq<Row>, kind: Kind, t: seq<Summary>, today: int)
    requires IsPeriodTable(rows, kind, t)
    requires forall r :: r in rows ==> r.bar.day <= today
    requires exists r :: r in rows && r.bar.day == today
    ensures FirstActive(t, today).Some?
    ensures t[FirstActive(t, today).value].endDay == today
  {
    var r :| r in rows && r.bar.day == today;
    RowWithinItsPeriod(rows, kind, t, r);
    var k :| 0 <= k < |t| && t[k].startDay <= today <= t[k].endDay;
    assert Covers(t[k], today);
    var i := FirstActive(t, today).value;
    LineEndsAreRowDays(rows, kind, t, i);
    var last :| last in rows && last.bar.day == t[i].endDay;
    assert last.bar.day <= today;
  }

  /** When every row is dated on or before today and some row is dated
      today, the panel over a period table of those rows has an active
      period, and that period ends today: no day is left. */
  lemma TodayEndsActivePeriod(rows: seq<Row>, kind: Kind, t: seq<Summary>, ranges: map<Bracket, RangeWidths>,
                              reversals: map<Bracket, Reversals>, today: int)
    requires IsPeriodTable(rows, kind, t)
    requires forall r :: r in rows ==> r.bar.day <= today
    requires exists r :: r in rows && r.bar.day == today
    ensures var p := EvaluatePanel(rows, t, ranges, reversals, today);
      && p.Active?
      && !p.check.AwaitingFirstBar?
      && (p.check.Evaluated? ==> p.check.daysLeft == 0)
  {
    ActiveLineEndsToday(rows, kind, t, today);
    NeverAwaitingFirstBar(rows, kind, t, ranges, reversals, today);
  }

  /** Over a period table of rows all dated before today, no period holds
      today and the panel shows that there is no active period. */
  lemma NoRowTodayNoActivePeriod(rows: seq<Row>, kind: Kind, t: seq<Summary>, ranges: map<Bracket, RangeWidths>,
                                 reversals: map<Bracket, Reversals>, today: int)
    requires IsPeriodTable(rows, kind, t)
    requires forall r :: r in rows ==> r.bar.day < today
    ensures EvaluatePanel(rows, t, ranges, reversals, today) == NoActivePeriod
  {
    forall i | 0 <= i < |t|
      ensures !Covers(t[i], today)
    {
      LineEndsAreRowDays(rows, kind, t, i);
    }
  }
}
