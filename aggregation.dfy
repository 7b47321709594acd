/** The period tables: the tagged rows grouped by one kind of period id and
    each group reduced to one summary line (`groupby(...).agg(...)` followed
    by the five derived columns). */
module Aggregation {
  import opened Bars
  import opened ExpirationCalendar
  import opened Segmentation

  datatype Kind = Weekly | Monthly | Bimonthly

  /** The id column a table is grouped by. */
  function KeyOf(r: Row, kind: Kind): int {
    match kind
    case Weekly => r.week
    case Monthly => r.monthly
    case Bimonthly => r.bimonthly
  }

  /** One line of a period table. */
  datatype Summary = Summary(
    key: int,
    open: real, high: real, low: real, close: real,
    startDay: int, endDay: int,
    varUp: real, varDown: real, pullback: real, recovery: real, delta: real)

  /** The rows of one period, in table order. */
  function Group(rows: seq<Row>, kind: Kind, key: int): (g: seq<Row>)
    ensures forall r :: r in g <==> r in rows && KeyOf(r, kind) == key
    ensures Subsequence(g, rows)
    decreases |rows|
  {
    if |rows| == 0 then []
    else
      var rest := Group(rows[..|rows| - 1], kind, key);
      assert forall r :: r in rows <==> r in rows[..|rows| - 1] || r == rows[|rows| - 1];
      if KeyOf(rows[|rows| - 1], kind) == key then
        assert (rest + [rows[|rows| - 1]])[..|rest|] == rest;
        rest + [rows[|rows| - 1]]
      else rest
  }

  /** Rows without the id form an empty group. */
  lemma {:induction false} GroupWithoutKey(rows: seq<Row>, kind: Kind, key: int)
    requires forall j :: 0 <= j < |rows| ==> KeyOf(rows[j], kind) != key
    ensures Group(rows, kind, key) == []
    decreases |rows|
  {
    if |rows| > 0 {
      GroupWithoutKey(rows[..|rows| - 1], kind, key);
    }
  }

  /** A group starts with the first row, in table order, holding its id. */
  lemma {:induction false} GroupStartsAtFirstRow(rows: seq<Row>, kind: Kind, key: int, j: nat)
    requires j < |rows| && KeyOf(rows[j], kind) == key
    requires forall j' :: 0 <= j' < j ==> KeyOf(rows[j'], kind) != key
    ensures |Group(rows, kind, key)| > 0 && Group(rows, kind, key)[0] == rows[j]
    decreases |rows|
  {
    var p := rows[..|rows| - 1];
    if j < |rows| - 1 {
      GroupStartsAtFirstRow(p, kind, key, j);
    } else {
      GroupWithoutKey(p, kind, key);
    }
  }

  /** A group ends with the last row, in table order, holding its id. */
  lemma {:induction false} GroupEndsAtLastRow(rows: seq<Row>, kind: Kind, key: int, j: nat)
    requires j < |rows| && KeyOf(rows[j], kind) == key
    requires forall j' :: j < j' < |rows| ==> KeyOf(rows[j'], kind) != key
    ensures |Group(rows, kind, key)| > 0 && Group(rows, kind, key)[|Group(rows, kind, key)| - 1] == rows[j]
    decreases |rows|
  {
    var p := rows[..|rows| - 1];
    if j < |rows| - 1 {
      assert KeyOf(rows[|rows| - 1], kind) != key;
      assert Group(rows, kind, key) == Group(p, kind, key);
      assert p[j] == rows[j];
      GroupEndsAtLastRow(p, kind, key, j);
    }
  }

  /** The first index holding an id, given one index that holds it. */
  lemma {:induction false} FirstRowWithKey(rows: seq<Row>, kind: Kind, key: int, m: nat) returns (j: nat)
    requires m < |rows| && KeyOf(rows[m], kind) == key
    ensures j <= m && KeyOf(rows[j], kind) == key
    ensures forall j' :: 0 <= j' < j ==> KeyOf(rows[j'], kind) != key
    decreases m
  {
    if exists j' :: 0 <= j' < m && KeyOf(rows[j'], kind) == key {
      var j' :| 0 <= j' < m && KeyOf(rows[j'], kind) == key;
      j := FirstRowWithKey(rows, kind, key, j');
    } else {
      j := m;
    }
  }

  /** The last index holding an id, given one index that holds it. */
  lemma {:induction false} LastRowWithKey(rows: seq<Row>, kind: Kind, key: int, m: nat) returns (j: nat)
    requires m < |rows| && KeyOf(rows[m], kind) == key
    ensures m <= j < |rows| && KeyOf(rows[j], kind) == key
    ensures forall j' :: j < j' < |rows| ==> KeyOf(rows[j'], kind) != key
    decreases |rows| - m
  {
    if exists j' :: m < j' < |rows| && KeyOf(rows[j'], kind) == key {
      var j' :| m < j' < |rows| && KeyOf(rows[j'], kind) == key;
      j := LastRowWithKey(rows, kind, key, j');
    } else {
      j := m;
    }
  }

  /** The five derived columns of a summary line. The pullback from the high
      and the recovery from the low are the two ways of splitting the
      period's net change. */
  function Derive(key: int, open: real, high: real, low: real, close: real, startDay: int, endDay: int): (s: Summary)
    ensures s.key == key && s.open == open && s.high == high && s.low == low && s.close == close
    ensures s.startDay == startDay && s.endDay == endDay
    ensures s.varUp - s.pullback == s.delta == s.recovery - s.varDown
    ensures s.varUp == s.pullback + s.delta && s.varDown == s.recovery - s.delta
  {
    Summary(key, open, high, low, close, startDay, endDay,
      high - open, open - low, high - close, close - low, close - open)
  }

  /** The summary line of one non-empty group: the first open and the last
      close in table order, the extreme high and low, and the first and last
      day (see AggregateBounds). */
  function Aggregate(key: int, g: seq<Row>): (s: Summary)
    requires |g| > 0
    ensures s.key == key
    ensures s.open == g[0].bar.open && s.close == g[|g| - 1].bar.close
    ensures s.startDay <= s.endDay
    ensures s.varUp - s.pullback == s.delta == s.recovery - s.varDown
  {
    var bars := BarsOf(g);
    Derive(key, g[0].bar.open, MaxHigh(bars), MinLow(bars), g[|g| - 1].bar.close,
      FirstDay(bars), LastDay(bars))
  }

  /** The high and low of a summary line are the extremes of its rows, and
      its first and last day are the earliest and latest of their days. */
  lemma AggregateBounds(key: int, g: seq<Row>)
    requires |g| > 0
    ensures var s := Aggregate(key, g);
      && (forall i :: 0 <= i < |g| ==> g[i].bar.high <= s.high && s.low <= g[i].bar.low)
      && (forall i :: 0 <= i < |g| ==> s.startDay <= g[i].bar.day <= s.endDay)
      && (exists i :: 0 <= i < |g| && g[i].bar.high == s.high)
      && (exists i :: 0 <= i < |g| && g[i].bar.low == s.low)
      && (exists i :: 0 <= i < |g| && g[i].bar.day == s.startDay)
      && (exists i :: 0 <= i < |g| && g[i].bar.day == s.endDay)
  {
    var bars := BarsOf(g);
    var a :| 0 <= a < |bars| && bars[a].high == MaxHigh(bars);
    var b :| 0 <= b < |bars| && bars[b].low == MinLow(bars);
    var c :| 0 <= c < |bars| && bars[c].day == FirstDay(bars);
    var d :| 0 <= d < |bars| && bars[d].day == LastDay(bars);
  }

  /** Consistent bars give a summary line whose four variations are never
      negative. */
  lemma AggregateNonNegative(key: int, g: seq<Row>)
    requires |g| > 0
    requires forall r :: r in g ==> Consistent(r.bar)
    ensures var s := Aggregate(key, g);
      s.varUp >= 0.0 && s.varDown >= 0.0 && s.pullback >= 0.0 && s.recovery >= 0.0
  {
    AggregateBounds(key, g);
    assert g[0] in g && g[|g| - 1] in g;
  }

  // ---------------------------------------------------------------------
  // The table

  /** The keys of a table, in table order. */
  function Keys(t: seq<Summary>): (ks: seq<int>)
    ensures |ks| == |t| && forall i :: 0 <= i < |t| ==> ks[i] == t[i].key
  {
    seq(|t|, i requires 0 <= i < |t| => t[i].key)
  }

  /** What `groupby(kind).agg(...)` returns for the observed groups: one line
      per distinct id, in increasing id order, each the summary of the rows
      holding that id. */
  ghost predicate IsPeriodTable(rows: seq<Row>, kind: Kind, t: seq<Summary>) {
    && Increasing(Keys(t))
    && (forall i :: 0 <= i < |t| ==>
          |Group(rows, kind, t[i].key)| > 0 && t[i] == Aggregate(t[i].key, Group(rows, kind, t[i].key)))
    && (forall r :: r in rows ==> exists i :: 0 <= i < |t| && t[i].key == KeyOf(r, kind))
  }

  /** A key inserted into an increasing list of keys, unless already there. */
  function Insert(k: int, ks: seq<int>): (r: seq<int>)
    requires Increasing(ks)
    ensures Increasing(r)
    ensures forall x :: x in r <==> x == k || x in ks
  {
    if |ks| == 0 then [k]
    else if k < ks[0] then
      PrependIncreasing(k, ks);
      [k] + ks
    else if k == ks[0] then ks
    else
      var tail := ks[1..];
      assert Increasing(tail);
      assert forall x :: x in ks <==> x == ks[0] || x in tail by {
        assert ks == [ks[0]] + tail;
      }
      var rest := Insert(k, tail);
      assert forall j :: 0 <= j < |rest| ==> ks[0] < rest[j] by {
        forall j | 0 <= j < |rest|
          ensures ks[0] < rest[j]
        {
          assert rest[j] in rest;
        }
      }
      PrependIncreasing(ks[0], rest);
      [ks[0]] + rest
  }

  /** A key below every key of an increasing list extends it increasingly. */
  lemma PrependIncreasing(h: int, s: seq<int>)
    requires Increasing(s) && forall j :: 0 <= j < |s| ==> h < s[j]
    ensures Increasing([h] + s)
    ensures forall x :: x in [h] + s <==> x == h || x in s
  {
    var r := [h] + s;
    forall i, j | 0 <= i < j < |r|
      ensures r[i] < r[j]
    {
      assert r[j] == s[j - 1];
      if i > 0 {
        assert r[i] == s[i - 1];
      }
    }
  }

  /** The distinct ids of the rows, in increasing order. */
  function SortedKeys(rows: seq<Row>, kind: Kind): (ks: seq<int>)
    ensures Increasing(ks)
    ensures forall k :: k in ks <==> exists r :: r in rows && KeyOf(r, kind) == k
    decreases |rows|
  {
    if |rows| == 0 then []
    else
      var rest := SortedKeys(rows[..|rows| - 1], kind);
      assert forall r :: r in rows <==> r in rows[..|rows| - 1] || r == rows[|rows| - 1];
      Insert(KeyOf(rows[|rows| - 1], kind), rest)
  }

  /** The summary lines of the given keys, each over its own rows. */
  function Lines(rows: seq<Row>, kind: Kind, ks: seq<int>): (t: seq<Summary>)
    requires forall k :: k in ks ==> |Group(rows, kind, k)| > 0
    ensures Keys(t) == ks
    ensures forall i :: 0 <= i < |t| ==> t[i] == Aggregate(ks[i], Group(rows, kind, ks[i]))
  {
    if |ks| == 0 then []
    else [Aggregate(ks[0], Group(rows, kind, ks[0]))] + Lines(rows, kind, ks[1..])
  }

  /** `calcular_resumo_periodo`: the period table of one kind of id. */
  function PeriodTable(rows: seq<Row>, kind: Kind): (t: seq<Summary>)
    ensures IsPeriodTable(rows, kind, t)
  {
    var ks := SortedKeys(rows, kind);
    assert forall k :: k in ks ==> |Group(rows, kind, k)| > 0 by {
      forall k | k in ks
        ensures |Group(rows, kind, k)| > 0
      {
        var r :| r in rows && KeyOf(r, kind) == k;
        assert r in Group(rows, kind, k);
      }
    }
    var t := Lines(rows, kind, ks);
    forall r | r in rows
      ensures exists i :: 0 <= i < |t| && t[i].key == KeyOf(r, kind)
    {
      assert KeyOf(r, kind) in ks;
      var i :| 0 <= i < |ks| && ks[i] == KeyOf(r, kind);
      assert t[i].key == KeyOf(r, kind);
    }
    t
  }

  /** Two increasing lists holding the same elements are equal. */
  lemma {:induction false} IncreasingUnique(a: seq<int>, b: seq<int>)
    requires Increasing(a) && Increasing(b)
    requires forall x :: x in a <==> x in b
    ensures a == b
    decreases |a|
  {
    if |a| > 0 && |b| > 0 {
      assert a[0] in a && b[0] in b;
      var i :| 0 <= i < |b| && b[i] == a[0];
      var j :| 0 <= j < |a| && a[j] == b[0];
      assert a[0] == b[0];
      var a', b' := a[1..], b[1..];
      assert Increasing(a') && Increasing(b');
      forall x
        ensures x in a' <==> x in b'
      {
        assert x in a <==> x == a[0] || x in a';
        assert x in b <==> x == b[0] || x in b';
        assert x in a' ==> x != a[0];
        assert x in b' ==> x != b[0];
      }
      IncreasingUnique(a', b');
      assert a == [a[0]] + a' && b == [b[0]] + b';
    } else if |a| > 0 {
      HeadIsMember(a);
      assert false;
    } else if |b| > 0 {
      HeadIsMember(b);
      assert false;
    }
  }

  lemma HeadIsMember(a: seq<int>)
    requires |a| > 0
    ensures a[0] in a
  {
  }

  /** A period table of given rows is unique: the increasing keys and the
      summary of each key fix it. */
  lemma PeriodTableUnique(rows: seq<Row>, kind: Kind, t: seq<Summary>, u: seq<Summary>)
    requires IsPeriodTable(rows, kind, t) && IsPeriodTable(rows, kind, u)
    ensures t == u
  {
    KeysIncluded(rows, kind, t, u);
    KeysIncluded(rows, kind, u, t);
    IncreasingUnique(Keys(t), Keys(u));
    forall i | 0 <= i < |t|
      ensures t[i] == u[i]
    {
      assert Keys(t)[i] == Keys(u)[i];
    }
  }

  /** Every key of one period table of the rows is a key of any other. */
  lemma KeysIncluded(rows: seq<Row>, kind: Kind, t: seq<Summary>, u: seq<Summary>)
    requires IsPeriodTable(rows, kind, t) && IsPeriodTable(rows, kind, u)
    ensures forall x :: x in Keys(t) ==> x in Keys(u)
  {
    forall x | x in Keys(t)
      ensures x in Keys(u)
    {
      var i :| 0 <= i < |t| && Keys(t)[i] == x;
      var g := Group(rows, kind, x);
      assert g[0] in g;
      var j :| 0 <= j < |u| && u[j].key == KeyOf(g[0], kind);
      assert Keys(u)[j] == x;
    }
  }

  /** Every line of a period table covers the days of its own rows and no
      others: a row lies in the line with its id, and that line's first and
      last day enclose the row's day. */
  lemma RowWithinItsPeriod(rows: seq<Row>, kind: Kind, t: seq<Summary>, r: Row)
    requires IsPeriodTable(rows, kind, t) && r in rows
    ensures exists i :: 0 <= i < |t| && t[i].key == KeyOf(r, kind) && t[i].startDay <= r.bar.day && r.bar.day <= t[i].endDay
  {
    var i :| 0 <= i < |t| && t[i].key == KeyOf(r, kind);
    TableLine(rows, kind, t, i);
    GroupSpansRow(rows, kind, t[i], r);
    assert t[i].startDay <= r.bar.day <= t[i].endDay;
  }

  /** Line i of a period table summarises the rows of its key. */
  lemma TableLine(rows: seq<Row>, kind: Kind, t: seq<Summary>, i: nat)
    requires IsPeriodTable(rows, kind, t) && i < |t|
    ensures |Group(rows, kind, t[i].key)| > 0 && t[i] == Aggregate(t[i].key, Group(rows, kind, t[i].key))
  {
  }

  /** The summary of a row's group spans the row's day. */
  lemma GroupSpansRow(rows: seq<Row>, kind: Kind, s: Summary, r: Row)
    requires r in rows && KeyOf(r, kind) == s.key
    requires |Group(rows, kind, s.key)| > 0 && s == Aggregate(s.key, Group(rows, kind, s.key))
    ensures s.startDay <= r.bar.day <= s.endDay
  {
    var g := Group(rows, kind, s.key);
    assert r in g;
    var j :| 0 <= j < |g| && g[j] == r;
    AggregateBounds(s.key, g);
  }

  /** Over rows in day order, the summary of a group opens with the first
      row holding its id, and that row is dated on the summary's first day. */
  lemma GroupOpens(rows: seq<Row>, kind: Kind, key: int, j: nat)
    requires DaysInOrder(rows) && j < |rows| && KeyOf(rows[j], kind) == key
    requires forall j' :: 0 <= j' < j ==> KeyOf(rows[j'], kind) != key
    ensures |Group(rows, kind, key)| > 0
    ensures Aggregate(key, Group(rows, kind, key)).startDay == rows[j].bar.day
    ensures Aggregate(key, Group(rows, kind, key)).open == rows[j].bar.open
  {
    GroupStartsAtFirstRow(rows, kind, key, j);
    var g := Group(rows, kind, key);
    AggregateBounds(key, g);
    var k :| 0 <= k < |g| && g[k].bar.day == Aggregate(key, g).startDay;
    assert g[k] in g;
    var n :| 0 <= n < |rows| && rows[n] == g[k];
    assert j <= n;
  }

  /** Over rows in day order, the summary of a group closes with the last
      row holding its id, and that row is dated on the summary's last day. */
  lemma GroupCloses(rows: seq<Row>, kind: Kind, key: int, j: nat)
    requires DaysInOrder(rows) && j < |rows| && KeyOf(rows[j], kind) == key
    requires forall j' :: j < j' < |rows| ==> KeyOf(rows[j'], kind) != key
    ensures |Group(rows, kind, key)| > 0
    ensures Aggregate(key, Group(rows, kind, key)).endDay == rows[j].bar.day
    ensures Aggregate(key, Group(rows, kind, key)).close == rows[j].bar.close
  {
    forall n | 0 <= n < |rows| && KeyOf(rows[n], kind) == key
      ensures rows[n].bar.day <= rows[j].bar.day
    {
      assert n <= j;
    }
    GroupDaysAtMost(rows, kind, key, rows[j].bar.day);
    GroupEndsAtLastRow(rows, kind, key, j);
    LatestLastRow(key, Group(rows, kind, key));
  }

  /** When no row of a group is dated after its last row, the summary ends
      on that row's day. */
  lemma LatestLastRow(key: int, g: seq<Row>)
    requires |g| > 0 && forall k :: 0 <= k < |g| ==> g[k].bar.day <= g[|g| - 1].bar.day
    ensures Aggregate(key, g).endDay == g[|g| - 1].bar.day
  {
    AggregateBounds(key, g);
  }

  /** A bound on the days of the rows holding an id bounds the days of
      their group. */
  lemma GroupDaysAtMost(rows: seq<Row>, kind: Kind, key: int, d: int)
    requires forall n :: 0 <= n < |rows| && KeyOf(rows[n], kind) == key ==> rows[n].bar.day <= d
    ensures forall k :: 0 <= k < |Group(rows, kind, key)| ==> Group(rows, kind, key)[k].bar.day <= d
  {
    var g := Group(rows, kind, key);
    forall k | 0 <= k < |g|
      ensures g[k].bar.day <= d
    {
      assert g[k] in g;
    }
  }

  /** Over rows in day order, a line opens at the open of the first row of
      its period, which is dated on the line's first day. */
  lemma LineOpensWithFirstRow(rows: seq<Row>, kind: Kind, t: seq<Summary>, i: nat)
    requires IsPeriodTable(rows, kind, t) && i < |t| && DaysInOrder(rows)
    ensures exists j :: (0 <= j < |rows| && KeyOf(rows[j], kind) == t[i].key
      && (forall j' :: 0 <= j' < j ==> KeyOf(rows[j'], kind) != t[i].key)
      && rows[j].bar.day == t[i].startDay && rows[j].bar.open == t[i].open)
  {
    var key := t[i].key;
    TableLine(rows, kind, t, i);
    var g := Group(rows, kind, key);
    assert g[0] in g;
    var m :| 0 <= m < |rows| && rows[m] == g[0];
    var j := FirstRowWithKey(rows, kind, key, m);
    GroupOpens(rows, kind, key, j);
  }

  /** Over rows in day order, a line closes at the close of the last row of
      its period, which is dated on the line's last day. */
  lemma LineClosesWithLastRow(rows: seq<Row>, kind: Kind, t: seq<Summary>, i: nat)
    requires IsPeriodTable(rows, kind, t) && i < |t| && DaysInOrder(rows)
    ensures exists j :: (0 <= j < |rows| && KeyOf(rows[j], kind) == t[i].key
      && (forall j' :: j < j' < |rows| ==> KeyOf(rows[j'], kind) != t[i].key)
      && rows[j].bar.day == t[i].endDay && rows[j].bar.close == t[i].close)
  {
    var key := t[i].key;
    TableLine(rows, kind, t, i);
    var g := Group(rows, kind, key);
    assert g[0] in g;
    var m :| 0 <= m < |rows| && rows[m] == g[0];
    var j := LastRowWithKey(rows, kind, key, m);
    GroupCloses(rows, kind, key, j);
  }
}
