/** `Series.quantile(p)` with pandas' default linear interpolation: the
    value at position h = (n - 1) * p of the sorted values, interpolated
    between the two order statistics around h. */
module Quantiles {

  predicate Sorted(s: seq<real>) {
    forall i, j :: 0 <= i <= j < |s| ==> s[i] <= s[j]
  }

  function Insert(x: real, s: seq<real>): (r: seq<real>)
    requires Sorted(s)
    ensures |r| == |s| + 1
    ensures forall i :: 0 <= i < |r| ==> r[i] == x || r[i] in s
    ensures Sorted(r)
    ensures multiset(r) == multiset(s) + multiset{x}
  {
    if |s| == 0 then [x]
    else if x <= s[0] then [x] + s
    else
      var tail := s[1..];
      var rest := Insert(x, tail);
      assert forall y :: y in tail ==> s[0] <= y;
      assert s == [s[0]] + tail;
      [s[0]] + rest
  }

  /** The values in ascending order. */
  function Sort(s: seq<real>): (r: seq<real>)
    ensures Sorted(r) && multiset(r) == multiset(s) && |r| == |s|
  {
    if |s| == 0 then []
    else
      assert s == s[..|s| - 1] + [s[|s| - 1]];
      Insert(s[|s| - 1], Sort(s[..|s| - 1]))
  }

  /** a + t * (b - a) */
  function Lerp(a: real, b: real, t: real): real {
    a + t * (b - a)
  }

  /** The q-quantile of a non-empty sample. */
  function Quantile(s: seq<real>, p: real): real
    requires |s| > 0 && 0.0 <= p <= 1.0
  {
    ValueAt(Sort(s), Position(|s|, p))
  }

  /** The value at position h of sorted values x: the order statistic at
      floor(h), moved towards the next one by the fractional part of h. */
  function ValueAt(x: seq<real>, h: real): real
    requires |x| > 0 && 0.0 <= h <= (|x| - 1) as real
  {
    FloorBetween(h, |x| - 1);
    var lo := h.Floor;
    if lo >= |x| - 1 then x[|x| - 1] else Lerp(x[lo], x[lo + 1], h - lo as real)
  }

  /** h = (n - 1) * p, between 0 and n - 1. */
  function Position(n: nat, p: real): (h: real)
    requires n > 0 && 0.0 <= p <= 1.0
    ensures 0.0 <= h <= (n - 1) as real
    ensures 0 <= h.Floor <= n - 1
  {
    var h := (n - 1) as real * p;
    ScaleWithin((n - 1) as real, p);
    FloorBetween(h, n - 1);
    h
  }

  lemma PositionMonotone(n: nat, p: real, q: real)
    requires n > 0 && 0.0 <= p <= q <= 1.0
    ensures Position(n, p) <= Position(n, q)
  {
    ScaleMonotone((n - 1) as real, p, q);
  }

  lemma FloorBetween(h: real, k: int)
    requires 0.0 <= h <= k as real
    ensures 0 <= h.Floor <= k
  {
  }

  lemma FloorMonotone(a: real, b: real)
    requires a <= b
    ensures a.Floor <= b.Floor
  {
  }

  lemma MulNonNegative(a: real, b: real)
    requires a >= 0.0 && b >= 0.0
    ensures a * b >= 0.0
  {
  }

  lemma ScaleWithin(m: real, p: real)
    requires m >= 0.0 && 0.0 <= p <= 1.0
    ensures 0.0 <= m * p <= m
  {
    MulNonNegative(m, p);
    MulNonNegative(m, 1.0 - p);
  }

  lemma ScaleMonotone(m: real, p: real, q: real)
    requires m >= 0.0 && p <= q
    ensures m * p <= m * q
  {
    MulNonNegative(m, q - p);
  }

  /** Interpolation stays between its end points and grows with t. */
  lemma LerpBetween(a: real, b: real, t: real, u: real)
    requires a <= b && 0.0 <= t <= u <= 1.0
    ensures a <= Lerp(a, b, t) <= Lerp(a, b, u) <= b
  {
    MulNonNegative(t, b - a);
    MulNonNegative(u - t, b - a);
    MulNonNegative(1.0 - u, b - a);
  }

  /** The interpolated value at h lies between the order statistics around it. */
  lemma ValueAround(x: seq<real>, h: real)
    requires Sorted(x) && |x| > 0 && 0.0 <= h <= (|x| - 1) as real
    ensures var lo := h.Floor;
      var v := ValueAt(x, h);
      && 0 <= lo <= |x| - 1
      && x[lo] <= v
      && (lo < |x| - 1 ==> v <= x[lo + 1])
      && x[0] <= v <= x[|x| - 1]
  {
    var lo := h.Floor;
    FloorBetween(h, |x| - 1);
    if lo < |x| - 1 {
      LerpBetween(x[lo], x[lo + 1], h - lo as real, h - lo as real);
    }
  }

  /** A quantile lies between the sample's minimum and maximum. */
  lemma QuantileBounds(s: seq<real>, p: real)
    requires |s| > 0 && 0.0 <= p <= 1.0
    ensures var x := Sort(s); x[0] <= Quantile(s, p) <= x[|s| - 1]
    ensures exists i :: 0 <= i < |s| && s[i] <= Quantile(s, p)
    ensures exists j :: 0 <= j < |s| && Quantile(s, p) <= s[j]
  {
    var x := Sort(s);
    ValueAround(x, Position(|s|, p));
    assert x[0] in multiset(s) && x[|s| - 1] in multiset(s);
  }

  /** The 0-quantile is the minimum and the 1-quantile the maximum, and the
      quantile at an exact position i / (n - 1) is the i-th order statistic. */
  lemma QuantileAtOrderStatistic(s: seq<real>, p: real, i: nat)
    requires |s| > 0 && 0.0 <= p <= 1.0 && i < |s|
    requires Position(|s|, p) == i as real
    ensures Quantile(s, p) == Sort(s)[i]
  {
    var x := Sort(s);
    assert Position(|s|, p).Floor == i;
    if i < |s| - 1 {
      assert Lerp(x[i], x[i + 1], 0.0) == x[i];
    }
  }

  /** Quantiles grow with p. */
  lemma QuantileMonotone(s: seq<real>, p: real, q: real)
    requires |s| > 0 && 0.0 <= p <= q <= 1.0
    ensures Quantile(s, p) <= Quantile(s, q)
  {
    PositionMonotone(|s|, p, q);
    ValueAtMonotone(Sort(s), Position(|s|, p), Position(|s|, q));
  }

  /** The interpolated value grows with the position. */
  lemma ValueAtMonotone(x: seq<real>, h: real, k: real)
    requires Sorted(x) && |x| > 0 && 0.0 <= h <= k <= (|x| - 1) as real
    ensures ValueAt(x, h) <= ValueAt(x, k)
  {
    var lh, lk := h.Floor, k.Floor;
    FloorMonotone(h, k);
    ValueAround(x, h);
    ValueAround(x, k);
    if lh == lk {
      if lh < |x| - 1 {
        LerpBetween(x[lh], x[lh + 1], h - lh as real, k - lk as real);
      }
    } else {
      assert x[lh + 1] <= x[lk];
    }
  }
}
