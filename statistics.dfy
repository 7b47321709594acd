/** The statistics of a period table per opening-price bracket: range
    widths from the quantiles of the net change, and how often a period gave
    back part of its rise (pullback) or of its fall (recovery). */
module Statistics {
  import opened Quantiles
  import opened Aggregation
  import Segmentation

  /** The five opening-price brackets, from "Abaixo de R$ 3,50" to
      "Acima de R$ 10,00". */
  datatype Bracket = Below350 | From351To600 | From601To800 | From801To1000 | Above1000

  /** The brackets in the order the statistics loop visits them. */
  const Brackets: seq<Bracket> := [Below350, From351To600, From601To800, From801To1000, Above1000]

  function Lower(b: Bracket): real {
    match b
    case Below350 => 0.0
    case From351To600 => 3.51
    case From601To800 => 6.01
    case From801To1000 => 8.01
    case Above1000 => 10.01
  }

  function Upper(b: Bracket): real {
    match b
    case Below350 => 3.50
    case From351To600 => 6.00
    case From601To800 => 8.00
    case From801To1000 => 10.00
    case Above1000 => 999.0
  }

  /** The filter of the statistics: min <= Abertura <= max. */
  predicate InBracket(b: Bracket, price: real) {
    Lower(b) <= price <= Upper(b)
  }

  /** Position of a bracket in price order. */
  function Rank(b: Bracket): (r: nat)
    ensures r < |Brackets| && Brackets[r] == b
  {
    match b
    case Below350 => 0
    case From351To600 => 1
    case From601To800 => 2
    case From801To1000 => 3
    case Above1000 => 4
  }

  /** `get_faixa_preco`: total, and it puts every price the statistics filter
      assigns to a bracket in that same bracket. */
  function Classify(price: real): (b: Bracket)
    ensures forall c :: InBracket(c, price) ==> c == b
  {
    if price < 3.51 then Below350
    else if price <= 6.00 then From351To600
    else if price <= 8.00 then From601To800
    else if price <= 10.00 then From801To1000
    else Above1000
  }

  /** A higher price never gets a lower bracket. */
  lemma ClassifyMonotone(p: real, q: real)
    requires p <= q
    ensures Rank(Classify(p)) <= Rank(Classify(q))
  {
  }

  /** The filter has gaps the classifier fills: a price strictly between two
      brackets' bounds, a negative price or one above 999 is in no filtered
      bracket, yet the classifier gives it one. */
  lemma FilterGaps(price: real)
    requires || (3.50 < price < 3.51) || (6.00 < price < 6.01) || (8.00 < price < 8.01)
             || (10.00 < price < 10.01) || price < 0.0 || 999.0 < price
    ensures forall b :: !InBracket(b, price)
    ensures (price < 0.0 || 3.50 < price < 3.51) ==> Classify(price) == Below350
    ensures 6.00 < price < 6.01 ==> Classify(price) == From601To800
    ensures 8.00 < price < 8.01 ==> Classify(price) == From801To1000
    ensures (10.00 < price < 10.01 || 999.0 < price) ==> Classify(price) == Above1000
  {
  }

  /** The lines of a table whose opening price passes the bracket's filter,
      in table order. */
  function BracketLines(t: seq<Summary>, b: Bracket): (lines: seq<Summary>)
    ensures |lines| <= |t|
  {
    if |t| == 0 then []
    else
      var rest := BracketLines(t[..|t| - 1], b);
      if InBracket(b, t[|t| - 1].open) then rest + [t[|t| - 1]] else rest
  }

  /** A line is among the lines of a bracket exactly when it is a line of
      the table whose opening passes the bracket's filter. */
  lemma {:induction false} BracketLinesMembers(t: seq<Summary>, b: Bracket)
    ensures forall s :: s in BracketLines(t, b) <==> s in t && InBracket(b, s.open)
  {
    if |t| > 0 {
      BracketLinesMembers(t[..|t| - 1], b);
      assert forall s :: s in t <==> s in t[..|t| - 1] || s == t[|t| - 1];
    }
  }

  /** The lines of a bracket are the table's qualifying lines, each as often
      as it occurs in the table and in table order: the count compared with
      MinimumPeriods and the samples of the quantiles and shares are those
      lines. */
  lemma {:induction false} BracketLinesMultiset(t: seq<Summary>, b: Bracket)
    ensures forall s :: multiset(BracketLines(t, b))[s] == if InBracket(b, s.open) then multiset(t)[s] else 0
    ensures Segmentation.Subsequence(BracketLines(t, b), t)
  {
    if |t| > 0 {
      BracketLinesMultiset(t[..|t| - 1], b);
      assert t == t[..|t| - 1] + [t[|t| - 1]];
    }
  }

  // ---------------------------------------------------------------------
  // Ranges

  function Abs(x: real): real {
    if x < 0.0 then -x else x
  }

  function Max(a: real, b: real): real {
    if a >= b then a else b
  }

  /** The Delta_Rs column. */
  function Deltas(lines: seq<Summary>): (d: seq<real>)
    ensures |d| == |lines| && forall i :: 0 <= i < |lines| ==> d[i] == lines[i].delta
  {
    seq(|lines|, i requires 0 <= i < |lines| => lines[i].delta)
  }

  /** The half-width of a symmetric band around the opening price that holds
      both the p- and the q-quantile of the net change. */
  function BandWidth(d: seq<real>, p: real, q: real): (w: real)
    requires |d| > 0 && 0.0 <= p <= q <= 1.0
    ensures w >= 0.0
    ensures -w <= Quantile(d, p) && Quantile(d, q) <= w
    ensures w == Abs(Quantile(d, p)) || w == Abs(Quantile(d, q))
  {
    Max(Abs(Quantile(d, p)), Abs(Quantile(d, q)))
  }

  /** A band over a wider pair of quantiles is at least as wide. */
  lemma BandWidthMonotone(d: seq<real>, p: real, q: real, p': real, q': real)
    requires |d| > 0 && 0.0 <= p' <= p <= q <= q' <= 1.0
    ensures BandWidth(d, p, q) <= BandWidth(d, p', q')
  {
    QuantileMonotone(d, p', p);
    QuantileMonotone(d, p, q);
    QuantileMonotone(d, q, q');
  }

  /** Every historical net change between the p- and the q-quantile lies in
      the band. */
  lemma BandHoldsCentralDeltas(d: seq<real>, p: real, q: real, x: real)
    requires |d| > 0 && 0.0 <= p <= q <= 1.0
    requires Quantile(d, p) <= x <= Quantile(d, q)
    ensures -BandWidth(d, p, q) <= x <= BandWidth(d, p, q)
  {
  }

  /** The band widths for 60, 70, 75 and 80 per cent. */
  datatype RangeWidths = RangeWidths(w60: real, w70: real, w75: real, w80: real)

  /** The four widths, each from a pair of quantiles symmetric around the
      median: they are never negative and grow with the confidence. */
  function Ranges(lines: seq<Summary>): (w: RangeWidths)
    requires |lines| > 0
    ensures 0.0 <= w.w60 <= w.w70 <= w.w75 <= w.w80
  {
    var d := Deltas(lines);
    BandWidthMonotone(d, 0.20, 0.80, 0.15, 0.85);
    BandWidthMonotone(d, 0.15, 0.85, 0.125, 0.875);
    BandWidthMonotone(d, 0.125, 0.875, 0.10, 0.90);
    RangeWidths(
      BandWidth(d, 0.20, 0.80),
      BandWidth(d, 0.15, 0.85),
      BandWidth(d, 0.125, 0.875),
      BandWidth(d, 0.10, 0.90))
  }

  // ---------------------------------------------------------------------
  // Reversals

  /** How many lines gave back more than the fraction f of their rise. */
  function CountPullbacks(lines: seq<Summary>, f: real): (c: nat)
    ensures c <= |lines|
  {
    if |lines| == 0 then 0
    else CountPullbacks(lines[1..], f) + (if lines[0].pullback > f * lines[0].varUp then 1 else 0)
  }

  /** How many lines won back more than the fraction f of their fall. */
  function CountRecoveries(lines: seq<Summary>, f: real): (c: nat)
    ensures c <= |lines|
  {
    if |lines| == 0 then 0
    else CountRecoveries(lines[1..], f) + (if lines[0].recovery > f * lines[0].varDown then 1 else 0)
  }

  /** A count as a fraction of the lines. */
  function Share(c: nat, n: nat): (r: real)
    requires 0 < n && c <= n
    ensures 0.0 <= r <= 1.0
  {
    DivideWithin(c as real, n as real);
    c as real / n as real
  }

  lemma DivideWithin(c: real, n: real)
    requires 0.0 <= c <= n && n > 0.0
    ensures 0.0 <= c / n <= 1.0
  {
    assert (c / n) * n == c;
  }

  lemma DivideMonotone(c: real, c': real, n: real)
    requires c <= c' && n > 0.0
    ensures c / n <= c' / n
  {
    assert (c' / n - c / n) * n == c' - c;
  }

  /** The shares of periods that pulled back more than 20, 30, 40 and 50 per
      cent of their rise, that recovered more than 20, 30, 40 and 50 per cent
      of their fall, and the mean of each four. */
  datatype Reversals = Reversals(
    pull20: real, pull30: real, pull40: real, pull50: real,
    rec20: real, rec30: real, rec40: real, rec50: real,
    pullMean: real, recMean: real)

  function ShareInRange(r: Reversals): bool {
    && 0.0 <= r.pull20 <= 1.0 && 0.0 <= r.pull30 <= 1.0 && 0.0 <= r.pull40 <= 1.0 && 0.0 <= r.pull50 <= 1.0
    && 0.0 <= r.rec20 <= 1.0 && 0.0 <= r.rec30 <= 1.0 && 0.0 <= r.rec40 <= 1.0 && 0.0 <= r.rec50 <= 1.0
    && 0.0 <= r.pullMean <= 1.0 && 0.0 <= r.recMean <= 1.0
  }

  /** The reversal table of a bracket's lines: every entry is a share, and
      each mean is the mean of its four shares. */
  function ReversalsOf(lines: seq<Summary>): (r: Reversals)
    requires |lines| > 0
    ensures ShareInRange(r)
    ensures r.pullMean * 4.0 == r.pull20 + r.pull30 + r.pull40 + r.pull50
    ensures r.recMean * 4.0 == r.rec20 + r.rec30 + r.rec40 + r.rec50
  {
    var n := |lines|;
    var p20, p30, p40, p50 := Share(CountPullbacks(lines, 0.2), n), Share(CountPullbacks(lines, 0.3), n),
      Share(CountPullbacks(lines, 0.4), n), Share(CountPullbacks(lines, 0.5), n);
    var r20, r30, r40, r50 := Share(CountRecoveries(lines, 0.2), n), Share(CountRecoveries(lines, 0.3), n),
      Share(CountRecoveries(lines, 0.4), n), Share(CountRecoveries(lines, 0.5), n);
    Reversals(p20, p30, p40, p50, r20, r30, r40, r50,
      (p20 + p30 + p40 + p50) / 4.0, (r20 + r30 + r40 + r50) / 4.0)
  }

  /** Over lines that never fall below their opening high-water mark, a
      bigger fraction is passed by fewer lines. */
  lemma {:induction false} CountPullbacksMonotone(lines: seq<Summary>, f: real, g: real)
    requires 0.0 <= f <= g
    requires forall i :: 0 <= i < |lines| ==> lines[i].varUp >= 0.0
    ensures CountPullbacks(lines, g) <= CountPullbacks(lines, f)
  {
    if |lines| > 0 {
      CountPullbacksMonotone(lines[1..], f, g);
      MulMonotone(f, g, lines[0].varUp);
    }
  }

  lemma {:induction false} CountRecoveriesMonotone(lines: seq<Summary>, f: real, g: real)
    requires 0.0 <= f <= g
    requires forall i :: 0 <= i < |lines| ==> lines[i].varDown >= 0.0
    ensures CountRecoveries(lines, g) <= CountRecoveries(lines, f)
  {
    if |lines| > 0 {
      CountRecoveriesMonotone(lines[1..], f, g);
      MulMonotone(f, g, lines[0].varDown);
    }
  }

  lemma MulMonotone(f: real, g: real, v: real)
    requires f <= g && v >= 0.0
    ensures f * v <= g * v
  {
    MulNonNegative(g - f, v);
  }

  /** When no line has a negative rise, the pullback shares fall as the
      threshold rises from 20 to 50 per cent; likewise the recovery shares
      when no line has a negative fall. */
  lemma ReversalsMonotone(lines: seq<Summary>)
    requires |lines| > 0
    ensures (forall i :: 0 <= i < |lines| ==> lines[i].varUp >= 0.0) ==>
      var r := ReversalsOf(lines); r.pull20 >= r.pull30 >= r.pull40 >= r.pull50
    ensures (forall i :: 0 <= i < |lines| ==> lines[i].varDown >= 0.0) ==>
      var r := ReversalsOf(lines); r.rec20 >= r.rec30 >= r.rec40 >= r.rec50
  {
    var n := |lines| as real;
    if forall i :: 0 <= i < |lines| ==> lines[i].varUp >= 0.0 {
      CountPullbacksMonotone(lines, 0.2, 0.3);
      CountPullbacksMonotone(lines, 0.3, 0.4);
      CountPullbacksMonotone(lines, 0.4, 0.5);
      DivideMonotone(CountPullbacks(lines, 0.3) as real, CountPullbacks(lines, 0.2) as real, n);
      DivideMonotone(CountPullbacks(lines, 0.4) as real, CountPullbacks(lines, 0.3) as real, n);
      DivideMonotone(CountPullbacks(lines, 0.5) as real, CountPullbacks(lines, 0.4) as real, n);
    }
    if forall i :: 0 <= i < |lines| ==> lines[i].varDown >= 0.0 {
      CountRecoveriesMonotone(lines, 0.2, 0.3);
      CountRecoveriesMonotone(lines, 0.3, 0.4);
      CountRecoveriesMonotone(lines, 0.4, 0.5);
      DivideMonotone(CountRecoveries(lines, 0.3) as real, CountRecoveries(lines, 0.2) as real, n);
      DivideMonotone(CountRecoveries(lines, 0.4) as real, CountRecoveries(lines, 0.3) as real, n);
      DivideMonotone(CountRecoveries(lines, 0.5) as real, CountRecoveries(lines, 0.4) as real, n);
    }
  }

  // ---------------------------------------------------------------------
  // The loop over the brackets

  /** More than ten periods are needed for a bracket's statistics. */
  const MinimumPeriods: nat := 10

  /** `calcular_estatisticas`: a bracket is listed, in both tables, exactly
      when more than ten lines pass its filter, and then with the statistics
      of those lines; no bracket is ever listed with empty statistics. */
  method ComputeStatistics(t: seq<Summary>) returns (ranges: map<Bracket, RangeWidths>, reversals: map<Bracket, Reversals>)
    ensures forall b :: b in ranges <==> |BracketLines(t, b)| > MinimumPeriods
    ensures forall b :: b in reversals <==> |BracketLines(t, b)| > MinimumPeriods
    ensures forall b :: b in ranges ==> ranges[b] == Ranges(BracketLines(t, b))
    ensures forall b :: b in reversals ==> reversals[b] == ReversalsOf(BracketLines(t, b))
    ensures ranges == TableUpTo(t, |Brackets|, RangesOrNone) && reversals == TableUpTo(t, |Brackets|, ReversalsOrNone)
  {
    ranges, reversals := BracketLoop(t, RangesOrNone, ReversalsOrNone);
    StatisticsTables(t);
  }

  /** The loop of `calcular_estatisticas` over the brackets in order: each
      bracket whose filter passes more than ten lines gets f of those lines in
      the first table and g of them in the second. */
  method BracketLoop<R, S>(t: seq<Summary>, f: seq<Summary> -> R, g: seq<Summary> -> S)
    returns (first: map<Bracket, R>, second: map<Bracket, S>)
    ensures first == TableUpTo(t, |Brackets|, f) && second == TableUpTo(t, |Brackets|, g)
  {
    first, second := map[], map[];
    for i := 0 to |Brackets|
      invariant first == TableUpTo(t, i, f) && second == TableUpTo(t, i, g)
    {
      var b := Brackets[i];
      var lines := BracketLines(t, b);
      if |lines| > MinimumPeriods {
        first := first[b := f(lines)];
        second := second[b := g(lines)];
      }
    }
  }

  /** The tables the loop builds list exactly the brackets with more than
      ten lines, each with the statistics of its own lines. */
  lemma StatisticsTables(t: seq<Summary>)
    ensures forall b :: b in TableUpTo(t, |Brackets|, RangesOrNone) <==> |BracketLines(t, b)| > MinimumPeriods
    ensures forall b :: b in TableUpTo(t, |Brackets|, ReversalsOrNone) <==> |BracketLines(t, b)| > MinimumPeriods
    ensures forall b :: b in TableUpTo(t, |Brackets|, RangesOrNone) ==>
      TableUpTo(t, |Brackets|, RangesOrNone)[b] == Ranges(BracketLines(t, b))
    ensures forall b :: b in TableUpTo(t, |Brackets|, ReversalsOrNone) ==>
      TableUpTo(t, |Brackets|, ReversalsOrNone)[b] == ReversalsOf(BracketLines(t, b))
  {
    forall b
      ensures b in TableUpTo(t, |Brackets|, RangesOrNone) <==> |BracketLines(t, b)| > MinimumPeriods
      ensures b in TableUpTo(t, |Brackets|, RangesOrNone) ==>
        TableUpTo(t, |Brackets|, RangesOrNone)[b] == Ranges(BracketLines(t, b))
      ensures b in TableUpTo(t, |Brackets|, ReversalsOrNone) <==> |BracketLines(t, b)| > MinimumPeriods
      ensures b in TableUpTo(t, |Brackets|, ReversalsOrNone) ==>
        TableUpTo(t, |Brackets|, ReversalsOrNone)[b] == ReversalsOf(BracketLines(t, b))
    {
      TableEntry(t, |Brackets|, RangesOrNone, b);
      TableEntry(t, |Brackets|, ReversalsOrNone, b);
    }
  }

  /** Ranges of a list, with zero widths for the empty list (never stored). */
  function RangesOrNone(lines: seq<Summary>): RangeWidths {
    if |lines| > 0 then Ranges(lines) else RangeWidths(0.0, 0.0, 0.0, 0.0)
  }

  /** Reversal shares of a list, with zeros for the empty list (never stored). */
  function ReversalsOrNone(lines: seq<Summary>): Reversals {
    if |lines| > 0 then ReversalsOf(lines) else Reversals(0.0, 0.0, 0.0, 0.0, 0.0, 0.0, 0.0, 0.0, 0.0, 0.0)
  }

  /** A table after the loop has visited the first i brackets: each bracket
      with more than ten lines maps to f of its lines. */
  function TableUpTo<V>(t: seq<Summary>, i: nat, f: seq<Summary> -> V): map<Bracket, V>
    requires i <= |Brackets|
  {
    if i == 0 then map[]
    else
      var lines := BracketLines(t, Brackets[i - 1]);
      var m := TableUpTo(t, i - 1, f);
      if |lines| > MinimumPeriods then m[Brackets[i - 1] := f(lines)] else m
  }

  /** After the first i brackets the table holds bracket b exactly when b is
      among them and has more than ten lines, and then maps it to f of its
      lines. */
  lemma {:induction false} TableEntry<V>(t: seq<Summary>, i: nat, f: seq<Summary> -> V, b: Bracket)
    requires i <= |Brackets|
    ensures b in TableUpTo(t, i, f) <==> Rank(b) < i && |BracketLines(t, b)| > MinimumPeriods
    ensures b in TableUpTo(t, i, f) ==> TableUpTo(t, i, f)[b] == f(BracketLines(t, b))
  {
    if i > 0 {
      TableEntry(t, i - 1, f, b);
      assert Rank(Brackets[i - 1]) == i - 1;
    }
  }
}
