/** The main flow of the dashboard: the downloaded history extended by a bar
    for today, its expiration calendar and period ids, and for each of the
    weekly, monthly and bimonthly periods the period table, its statistics
    and its panel. RowsOf, ReportOf, Dashboard and the methods follow the
    program, with every other expiration as the bimonthly boundaries
    (Segmentation.BimonthlyBins); ClosedRowsOf, ClosedReportOf and
    ClosedDashboard are the same flow over the closed boundaries
    (Segmentation.ClosedBimonthlyBins). */
module Pipeline {
  import opened Options
  import opened Dates
  import opened ExpirationCalendar
  import opened Bars
  import opened Segmentation
  import opened Aggregation
  import opened Statistics
  import opened Alerts

  /** What the dashboard shows: the calendar, the bimonthly labels and the
      three panels. */
  datatype Report = Report(
    calendar: seq<Date>,
    bimonthlyLabels: seq<BimonthlyLabel>,
    weekly: Panel, monthly: Panel, bimonthly: Panel)

  /** The labels the labelling loop produces. */
  function LabelsOf(v: seq<Date>, bins: seq<Date>): (labels: seq<BimonthlyLabel>)
    ensures |labels| == if |bins| <= 1 then 0 else Min(|bins| - 1, |v| / 2)
    ensures forall i :: 0 <= i < |labels| ==> 2 * i + 1 < |v| && labels[i] == BimonthlyLabelAt(v, i)
  {
    var n := if |bins| <= 1 then 0 else Min(|bins| - 1, |v| / 2);
    seq(n, i requires 0 <= i < n => BimonthlyLabelAt(v, i))
  }

  /** The daily rows with their period ids, for the extended history. */
  function RowsOf(bars: seq<Bar>): seq<Row>
    requires |bars| > 0
  {
    var v := Expirations(FirstDay(bars), LastDay(bars));
    ProcessPeriods(bars, v, BimonthlyBins(v))
  }

  /** The daily rows with their period ids over the closed bimonthly
      boundaries. */
  function ClosedRowsOf(bars: seq<Bar>): seq<Row>
    requires |bars| > 0
  {
    var v := Expirations(FirstDay(bars), LastDay(bars));
    ProcessPeriods(bars, v, ClosedBimonthlyBins(v))
  }

  /** The panel of one kind of period over the tagged rows. */
  function PanelOf(rows: seq<Row>, kind: Kind, today: int): Panel {
    var t := PeriodTable(rows, kind);
    EvaluatePanel(rows, t, TableUpTo(t, |Brackets|, RangesOrNone), TableUpTo(t, |Brackets|, ReversalsOrNone), today)
  }

  /** The dashboard of an extended history over its calendar and the
      given bimonthly boundaries. */
  function ReportOver(bars: seq<Bar>, v: seq<Date>, bins: seq<Date>, today: int): Report {
    var rows := ProcessPeriods(bars, v, bins);
    Report(v, LabelsOf(v, bins),
      PanelOf(rows, Weekly, today), PanelOf(rows, Monthly, today), PanelOf(rows, Bimonthly, today))
  }

  /** The dashboard of an extended history. */
  function ReportOf(bars: seq<Bar>, today: int): Report
    requires |bars| > 0
  {
    var v := Expirations(FirstDay(bars), LastDay(bars));
    ReportOver(bars, v, BimonthlyBins(v), today)
  }

  /** The dashboard of an extended history over the closed bimonthly
      boundaries. */
  function ClosedReportOf(bars: seq<Bar>, today: int): Report
    requires |bars| > 0
  {
    var v := Expirations(FirstDay(bars), LastDay(bars));
    ReportOver(bars, v, ClosedBimonthlyBins(v), today)
  }

  /** The whole dashboard, or nothing when the download is empty. */
  function Dashboard(raw: seq<Bar>, today: int): Option<Report> {
    if |raw| == 0 then None else Some(ReportOf(WithTodayBar(raw, today), today))
  }

  /** The whole dashboard over the closed bimonthly boundaries. */
  function ClosedDashboard(raw: seq<Bar>, today: int): Option<Report> {
    if |raw| == 0 then None else Some(ClosedReportOf(WithTodayBar(raw, today), today))
  }

  /** One panel: the period table, its statistics, and the panel shown. */
  method ShowPanel(rows: seq<Row>, kind: Kind, today: int) returns (p: Panel)
    ensures p == PanelOf(rows, kind, today)
  {
    var t := PeriodTable(rows, kind);
    var ranges, reversals := ComputeStatistics(t);
    p := EvaluatePanel(rows, t, ranges, reversals, today);
  }

  /** The main flow: nothing when the download is empty; otherwise the
      report of the history extended by today's bar. */
  method Analyse(raw: seq<Bar>, today: int) returns (report: Option<Report>)
    ensures report == Dashboard(raw, today)
    ensures report.None? <==> |raw| == 0
  {
    if |raw| == 0 {
      return None;
    }
    var bars := WithTodayBar(raw, today);
    var r := BuildReport(bars, today);
    report := Some(r);
  }

  /** The expiration calendar of the history and its bimonthly labels over
      every other expiration. */
  method CalendarOf(bars: seq<Bar>) returns (v: seq<Date>, labels: seq<BimonthlyLabel>)
    requires |bars| > 0
    ensures v == Expirations(FirstDay(bars), LastDay(bars))
    ensures labels == LabelsOf(v, BimonthlyBins(v))
  {
    v := GenerateExpirations(FirstDay(bars), LastDay(bars));
    var bins := BimonthlyBins(v);
    labels := BimonthlyLabels(v, bins);
    LabelsAgree(v, bins, labels);
  }

  /** Labels of the right number, each the label of its interval, are the
      labels of the calendar. */
  lemma {:induction false} LabelsAgree(v: seq<Date>, bins: seq<Date>, labels: seq<BimonthlyLabel>)
    requires |labels| == if |bins| <= 1 then 0 else Min(|bins| - 1, |v| / 2)
    requires forall i :: 0 <= i < |labels| ==> 2 * i + 1 < |v| && labels[i] == BimonthlyLabelAt(v, i)
    ensures labels == LabelsOf(v, bins)
  {
  }

  /** The history's calendar, its bimonthly labels and ids, and the three
      panels in turn. */
  method BuildReport(bars: seq<Bar>, today: int) returns (report: Report)
    requires |bars| > 0
    ensures report == ReportOf(bars, today)
  {
    var v, labels := CalendarOf(bars);
    var rows := ProcessPeriods(bars, v, BimonthlyBins(v));
    var weekly := ShowPanel(rows, Weekly, today);
    var monthly := ShowPanel(rows, Monthly, today);
    var bimonthly := ShowPanel(rows, Bimonthly, today);
    report := Report(v, labels, weekly, monthly, bimonthly);
  }

  // ---------------------------------------------------------------------
  // Properties of the whole flow

  /** A bar dated from the first expiration up to (not including) the last
      gets both cycles of the closed calendar. */
  lemma {:induction false} TaggedWithin(bar: Bar, v: seq<Date>)
    requires Chronological(v) && |v| >= 2
    requires Ordinal(v[0]) <= bar.day < Ordinal(v[|v| - 1])
    ensures Tag(bar, Edges(v), Edges(ClosedBimonthlyBins(v))).Some?
  {
    ClosedBinsKeepEveryBar(v, bar.day);
  }

  /** The tagged rows are bars of the history. */
  lemma {:induction false} RowsAreBars(bars: seq<Bar>, v: seq<Date>, bins: seq<Date>, r: Row)
    requires r in ProcessPeriods(bars, v, bins)
    ensures exists i :: 0 <= i < |bars| && bars[i] == r.bar
  {
    SegmentedIds(bars, Edges(v), Edges(bins), r);
  }

  /** A bar dated within the calendar's span is among the tagged rows. */
  lemma {:induction false} BarKept(bars: seq<Bar>, v: seq<Date>, i: nat)
    requires i < |bars| && Chronological(v) && |v| >= 2
    requires Ordinal(v[0]) <= bars[i].day < Ordinal(v[|v| - 1])
    ensures exists r :: r in ProcessPeriods(bars, v, ClosedBimonthlyBins(v)) && r.bar == bars[i]
  {
    var edges, bimEdges := Edges(v), Edges(ClosedBimonthlyBins(v));
    TaggedWithin(bars[i], v);
    SegmentedMembership(bars, edges, bimEdges);
    var r := Tag(bars[i], edges, bimEdges).value;
    assert r in ProcessPeriods(bars, v, ClosedBimonthlyBins(v)) && r.bar == bars[i];
  }

  /** The calendar of the history spans every bar of it. */
  lemma {:induction false} CalendarSpansBars(bars: seq<Bar>)
    requires |bars| > 0
    ensures var v := Expirations(FirstDay(bars), LastDay(bars));
      && Chronological(v) && |v| >= 2
      && Ordinal(v[0]) < FirstDay(bars) && LastDay(bars) < Ordinal(v[|v| - 1])
  {
    assert FirstDay(bars) <= bars[0].day <= LastDay(bars);
    CalendarSpans(FirstDay(bars), LastDay(bars));
  }

  /** Every bar of the extended history gets both cycles of the closed
      calendar and so keeps its row. */
  lemma {:induction false} EveryBarKept(bars: seq<Bar>, i: nat)
    requires |bars| > 0 && i < |bars|
    ensures exists r :: r in ClosedRowsOf(bars) && r.bar == bars[i]
  {
    var first, last := FirstDay(bars), LastDay(bars);
    var v := Expirations(first, last);
    assert ClosedRowsOf(bars) == ProcessPeriods(bars, v, ClosedBimonthlyBins(v));
    CalendarSpansBars(bars);
    assert first <= bars[i].day <= last;
    BarKept(bars, v, i);
  }

  /** With the bimonthly boundaries as written (`v[::2]`), a history running
      from a day in March up to May 31st keeps no row dated May 31st. */
  lemma {:induction false} AsWrittenDropsLastBar(bars: seq<Bar>, year: int, startDay: int)
    requires |bars| > 0 && 1 <= startDay <= 31
    requires FirstDay(bars) == Ordinal(Date(year, 3, startDay)) && LastDay(bars) == Ordinal(Date(year, 5, 31))
    ensures var v := Expirations(FirstDay(bars), LastDay(bars));
      forall r :: r in ProcessPeriods(bars, v, BimonthlyBins(v)) ==> r.bar.day != LastDay(bars)
  {
    var first, last := FirstDay(bars), LastDay(bars);
    var v := Expirations(first, last);
    var edges, bimEdges := Edges(v), Edges(BimonthlyBins(v));
    LastBarOfMayDropped(year, startDay);
    forall r | r in ProcessPeriods(bars, v, BimonthlyBins(v))
      ensures r.bar.day != last
    {
      if r.bar.day == last {
        UntaggedBarDropped(bars, edges, bimEdges, r.bar);
      }
    }
  }

  /** The tagged rows, over any bimonthly boundaries, of a download with no
      bar dated after today are dated on or before today. */
  lemma {:induction false} RowsUpToToday(raw: seq<Bar>, today: int, v: seq<Date>, bins: seq<Date>)
    requires |raw| > 0
    requires forall i :: 0 <= i < |raw| ==> raw[i].day <= today
    ensures forall r :: r in ProcessPeriods(WithTodayBar(raw, today), v, bins) ==> r.bar.day <= today
  {
    var bars := WithTodayBar(raw, today);
    TodayBarIsLatest(raw, today);
    forall r | r in ProcessPeriods(bars, v, bins)
      ensures r.bar.day <= today
    {
      RowsAreBars(bars, v, bins, r);
    }
  }

  /** A download in day order with no bar dated after today yields tagged
      rows in day order, over any bimonthly boundaries; the period tables
      over them then open and close on their first and last rows
      (Aggregation.LineOpensWithFirstRow, Aggregation.LineClosesWithLastRow). */
  lemma {:induction false} RowsInDayOrder(raw: seq<Bar>, today: int, v: seq<Date>, bins: seq<Date>)
    requires |raw| > 0 && InDayOrder(raw)
    requires forall i :: 0 <= i < |raw| ==> raw[i].day <= today
    ensures DaysInOrder(ProcessPeriods(WithTodayBar(raw, today), v, bins))
  {
    TodayBarKeepsOrder(raw, today);
    SegmentedKeepsOrder(WithTodayBar(raw, today), Edges(v), Edges(bins));
  }

  /** With no downloaded bar dated after today, the rows tagged over the
      closed boundaries are dated on or before today and one of them,
      today's bar, is dated today. */
  lemma {:induction false} TodayRowKept(raw: seq<Bar>, today: int)
    requires |raw| > 0
    requires forall i :: 0 <= i < |raw| ==> raw[i].day <= today
    ensures var rows := ClosedRowsOf(WithTodayBar(raw, today));
      && (forall r :: r in rows ==> r.bar.day <= today)
      && (exists r :: r in rows && r.bar.day == today)
  {
    var bars := WithTodayBar(raw, today);
    var v := Expirations(FirstDay(bars), LastDay(bars));
    RowsUpToToday(raw, today, v, ClosedBimonthlyBins(v));
    EveryBarKept(bars, |raw|);
  }

  /** The panel shows an active period that ends today and has its bars. */
  predicate EndsToday(p: Panel) {
    p.Active? && !p.check.AwaitingFirstBar? && (p.check.Evaluated? ==> p.check.daysLeft == 0)
  }

  /** The three panels of a non-empty download are the panels of its
      tagged rows. */
  lemma {:induction false} DashboardPanels(raw: seq<Bar>, today: int)
    requires |raw| > 0
    ensures Dashboard(raw, today).Some?
    ensures var rows := RowsOf(WithTodayBar(raw, today));
      && Dashboard(raw, today).value.weekly == PanelOf(rows, Weekly, today)
      && Dashboard(raw, today).value.monthly == PanelOf(rows, Monthly, today)
      && Dashboard(raw, today).value.bimonthly == PanelOf(rows, Bimonthly, today)
  {
  }

  /** The three panels over the closed boundaries are the panels of the
      rows tagged over them. */
  lemma {:induction false} ClosedDashboardPanels(raw: seq<Bar>, today: int)
    requires |raw| > 0
    ensures ClosedDashboard(raw, today).Some?
    ensures var rows := ClosedRowsOf(WithTodayBar(raw, today));
      && ClosedDashboard(raw, today).value.weekly == PanelOf(rows, Weekly, today)
      && ClosedDashboard(raw, today).value.monthly == PanelOf(rows, Monthly, today)
      && ClosedDashboard(raw, today).value.bimonthly == PanelOf(rows, Bimonthly, today)
  {
  }

  /** Over the closed boundaries, with no downloaded bar dated after today,
      each of the three panels shows an active period that ends today: it
      never waits for the next period or for a first bar, and no day is
      left. */
  lemma {:induction false} PanelsEndToday(raw: seq<Bar>, today: int)
    requires |raw| > 0
    requires forall i :: 0 <= i < |raw| ==> raw[i].day <= today
    ensures ClosedDashboard(raw, today).Some?
    ensures EndsToday(ClosedDashboard(raw, today).value.weekly)
    ensures EndsToday(ClosedDashboard(raw, today).value.monthly)
    ensures EndsToday(ClosedDashboard(raw, today).value.bimonthly)
  {
    ClosedDashboardPanels(raw, today);
    HistoryPanelEndsToday(raw, today, Weekly);
    HistoryPanelEndsToday(raw, today, Monthly);
    HistoryPanelEndsToday(raw, today, Bimonthly);
  }

  /** The panel of one kind over the rows tagged on the closed boundaries,
      for a download with no bar dated after today, ends today. */
  lemma {:induction false} HistoryPanelEndsToday(raw: seq<Bar>, today: int, kind: Kind)
    requires |raw| > 0
    requires forall i :: 0 <= i < |raw| ==> raw[i].day <= today
    ensures EndsToday(PanelOf(ClosedRowsOf(WithTodayBar(raw, today)), kind, today))
  {
    TodayRowKept(raw, today);
    PanelEndsToday(ClosedRowsOf(WithTodayBar(raw, today)), kind, today);
  }

  lemma {:induction false} PanelEndsToday(rows: seq<Row>, kind: Kind, today: int)
    requires forall r :: r in rows ==> r.bar.day <= today
    requires exists r :: r in rows && r.bar.day == today
    ensures EndsToday(PanelOf(rows, kind, today))
  {
    var t := PeriodTable(rows, kind);
    TodayEndsActivePeriod(rows, kind, t, TableUpTo(t, |Brackets|, RangesOrNone), TableUpTo(t, |Brackets|, ReversalsOrNone), today);
  }

  /** A panel over rows all dated before today shows no active period. */
  lemma {:induction false} PanelInactive(rows: seq<Row>, kind: Kind, today: int)
    requires forall r :: r in rows ==> r.bar.day < today
    ensures PanelOf(rows, kind, today) == NoActivePeriod
  {
    var t := PeriodTable(rows, kind);
    NoRowTodayNoActivePeriod(rows, kind, t, TableUpTo(t, |Brackets|, RangesOrNone), TableUpTo(t, |Brackets|, ReversalsOrNone), today);
  }

  /** As written, a download from a day in March up to May 31st, viewed on
      May 31st, keeps no row dated today, so none of the three panels has
      an active period. */
  lemma {:induction false} AsWrittenPanelsInactive(raw: seq<Bar>, year: int, startDay: int)
    requires |raw| > 0 && 1 <= startDay <= 31
    requires FirstDay(raw) == Ordinal(Date(year, 3, startDay))
    requires forall i :: 0 <= i < |raw| ==> raw[i].day <= Ordinal(Date(year, 5, 31))
    ensures var today := Ordinal(Date(year, 5, 31));
      && Dashboard(raw, today).Some?
      && Dashboard(raw, today).value.weekly == NoActivePeriod
      && Dashboard(raw, today).value.monthly == NoActivePeriod
      && Dashboard(raw, today).value.bimonthly == NoActivePeriod
  {
    var today := Ordinal(Date(year, 5, 31));
    var bars := WithTodayBar(raw, today);
    TodayBarIsLatest(raw, today);
    var v := Expirations(FirstDay(bars), LastDay(bars));
    var rows := ProcessPeriods(bars, v, BimonthlyBins(v));
    assert rows == RowsOf(bars);
    AsWrittenDropsLastBar(bars, year, startDay);
    RowsUpToToday(raw, today, v, BimonthlyBins(v));
    assert forall r :: r in rows ==> r.bar.day < today;
    DashboardPanels(raw, today);
    PanelInactive(rows, Weekly, today);
    PanelInactive(rows, Monthly, today);
    PanelInactive(rows, Bimonthly, today);
  }

  /** A panel's widths and its alert column depend on how many of the
      table's lines pass the bracket's filter: with ten or fewer the panel
      has no widths and reports insufficient history, with more it shows the
      widths of exactly those lines and evaluates its alert. */
  lemma {:induction false} PanelNeedsElevenPeriods(rows: seq<Row>, kind: Kind, today: int)
    ensures var t := PeriodTable(rows, kind);
      var p := PanelOf(rows, kind, today);
      p.Active? ==>
        && (p.widths.None? <==> |BracketLines(t, p.bracket)| <= MinimumPeriods)
        && (p.check.InsufficientHistory? <==> |BracketLines(t, p.bracket)| <= MinimumPeriods)
        && (p.check.Evaluated? <==> |BracketLines(t, p.bracket)| > MinimumPeriods)
        && (p.widths.Some? ==> p.widths.value == Ranges(BracketLines(t, p.bracket)))
  {
    StatisticsTables(PeriodTable(rows, kind));
    PanelNeverAwaitsFirstBar(rows, kind, today);
  }

  /** An active panel either reports insufficient history or evaluates its
      alert: its period always holds a daily row up to today. */
  lemma {:induction false} PanelNeverAwaitsFirstBar(rows: seq<Row>, kind: Kind, today: int)
    ensures var p := PanelOf(rows, kind, today);
      p.Active? ==> (p.check.Evaluated? <==> !p.check.InsufficientHistory?)
  {
    var t := PeriodTable(rows, kind);
    NeverAwaitingFirstBar(rows, kind, t, TableUpTo(t, |Brackets|, RangesOrNone),
      TableUpTo(t, |Brackets|, ReversalsOrNone), today);
  }
}
