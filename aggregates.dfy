/**
 * The derived tables behind the metric cards and the charts: `value_counts()`
 * (Healthdashboard.py:107-111, 124-128, 191), the top-10 data sources with an
 * `Others` bucket (191-194) and the two-column `groupby(...).size()` tables
 * (171, 217, 250, 295).
 */
module Aggregates {
  import opened Results
  import opened Lex
  import opened Records
  import opened Counting
  import opened Filters

  lemma AscendingNoDuplicates(s: seq<string>)
    requires StrictlyAscending(s)
    ensures NoDuplicates(s)
  {
    forall i, j | 0 <= i < j < |s| ensures s[i] != s[j] {
      if s[i] == s[j] {
        LessIrreflexive(s[i]);
      }
    }
  }

  /**
   * `df[c].value_counts()`: one entry per distinct present value with the
   * number of rows holding it (so every count is positive), largest count
   * first, counts adding up to the number of rows whose value is present.
   * Entries with equal counts keep ascending label order here; pandas does
   * not fix that order.
   */
  function ValueCounts(t: Table, c: Column): (r: seq<Entry<string>>)
    ensures UniqueKeys(r)
    ensures forall v :: HasKey(r, v) <==> Some(v) in Values(t, c)
    ensures forall e | e in r :: e.count == Occurrences(Values(t, c), e.key) > 0
    ensures NonIncreasing(r)
    ensures SumCounts(r) == Present(Values(t, c))
  {
    var ks := Values(t, c);
    var labels := SortedUnique(ks);
    AscendingNoDuplicates(labels);
    CountsDescending(ks, labels)
  }

  lemma ValuesAt(t: Table, c: Column, v: string)
    ensures Some(v) in Values(t, c) <==> exists i | 0 <= i < |t| :: Get(t[i], c) == Some(v)
  {
    var ks := Values(t, c);
    if Some(v) in ks {
      var i :| 0 <= i < |ks| && ks[i] == Some(v);
      assert Get(t[i], c) == Some(v);
    }
    if exists i | 0 <= i < |t| :: Get(t[i], c) == Some(v) {
      var i :| 0 <= i < |t| && Get(t[i], c) == Some(v);
      assert ks[i] == Some(v);
    }
  }

  /** The four metric cards; `mostUsed` is the platform label with its count. */
  datatype Summary = Summary(totalRows: nat, totalSurveillance: nat, mostUsed: Option<Entry<string>>)

  /**
   * The metric cards: the number of filtered studies, the number with a
   * health event (`value_counts().sum()`), and the first entry of the
   * platform counts, which has the largest count. There is a most-used
   * platform exactly when some filtered study names a platform.
   */
  function Summarize(t: Table): (s: Summary)
    ensures s.totalRows == |t|
    ensures s.totalSurveillance == Present(Values(t, HealthEvent)) && s.totalSurveillance <= s.totalRows
    ensures s.mostUsed.None? <==> forall i | 0 <= i < |t| :: t[i].platform.None?
    ensures s.mostUsed.Some? ==>
              && s.mostUsed.value.count == Occurrences(Values(t, Platform), s.mostUsed.value.key) > 0
              && forall v :: Occurrences(Values(t, Platform), v) <= s.mostUsed.value.count
  {
    var platforms := ValueCounts(t, Platform);
    PlatformCountsEmpty(t);
    var surveillance := SumCounts(ValueCounts(t, HealthEvent));
    if platforms == [] then
      Summary(|t|, surveillance, None)
    else
      FirstCountIsLargest(t, Platform);
      Summary(|t|, surveillance, Some(platforms[0]))
  }

  lemma PlatformCountsEmpty(t: Table)
    ensures ValueCounts(t, Platform) == [] <==> forall i | 0 <= i < |t| :: t[i].platform.None?
  {
    var platforms := ValueCounts(t, Platform);
    if platforms != [] {
      assert HasKey(platforms, platforms[0].key);
      ValuesAt(t, Platform, platforms[0].key);
    } else {
      forall i | 0 <= i < |t| ensures t[i].platform.None? {
        if t[i].platform.Some? {
          ValuesAt(t, Platform, t[i].platform.value);
        }
      }
    }
  }

  /** The first entry of `value_counts()` carries the largest count of any value (what `idxmax` and `max` return). */
  lemma FirstCountIsLargest(t: Table, c: Column)
    requires ValueCounts(t, c) != []
    ensures var r := ValueCounts(t, c);
      && r[0].count == Occurrences(Values(t, c), r[0].key) > 0
      && forall v :: Occurrences(Values(t, c), v) <= r[0].count
  {
    var r := ValueCounts(t, c);
    assert r[0] in r;
    forall v ensures Occurrences(Values(t, c), v) <= r[0].count {
      if Some(v) in Values(t, c) {
        assert HasKey(r, v);
        var j :| 0 <= j < |r| && r[j].key == v;
        assert r[j] in r;
      }
    }
  }

  /** `idxmax()` on an empty series raises ValueError. */
  datatype MetricsError = EmptyArgmax

  /**
   * The metric cards as the page computes them: `idxmax()` runs on the
   * platform counts before any emptiness check, so it fails exactly when no
   * filtered study names a platform, the empty table included.
   */
  function SummarizeAsWritten(t: Table): (r: Result<Summary, MetricsError>)
    ensures r.Failure? <==> forall i | 0 <= i < |t| :: t[i].platform.None?
    ensures r.Success? ==> r.value == Summarize(t) && r.value.mostUsed.Some?
  {
    var s := Summarize(t);
    if s.mostUsed.None? then Failure(EmptyArgmax) else Success(s)
  }

  /** An empty filter result makes the metric cards fail. */
  lemma EmptyTableFailsAsWritten()
    ensures SummarizeAsWritten([]) == Failure(EmptyArgmax)
  {
  }

  /** Whenever the metric cards succeed the table is non-empty, so the "no data" branch is never taken. */
  lemma NoDataBranchUnreachableAsWritten(t: Table)
    requires SummarizeAsWritten(t).Success?
    ensures |t| > 0
  {
  }

  const Others := "Others"
  const TopSources := 10

  function Min(a: nat, b: nat): nat
  {
    if a <= b then a else b
  }

  /**
   * `head(n)` followed by one `Others` entry holding `counts[n:].sum()`: the
   * first min(n, k) entries are kept unchanged, exactly one `Others` entry is
   * appended (also when nothing is left over), and the total is unchanged.
   */
  function TopWithOthers(counts: seq<Entry<string>>, n: nat): (r: seq<Entry<string>>)
    ensures |r| == Min(n, |counts|) + 1
    ensures r[..|r| - 1] == counts[..Min(n, |counts|)]
    ensures r[|r| - 1].key == Others
    ensures SumCounts(r) == SumCounts(counts)
  {
    var k := Min(n, |counts|);
    var r := counts[..k] + [Entry(Others, SumCounts(counts[k..]))];
    SumCountsAppend(counts[..k], [Entry(Others, SumCounts(counts[k..]))]);
    SumCountsAppend(counts[..k], counts[k..]);
    assert counts[..k] + counts[k..] == counts;
    r
  }

  lemma {:induction false} SumCountsPositive(es: seq<Entry<string>>)
    requires forall e | e in es :: e.count > 0
    ensures SumCounts(es) == 0 <==> es == []
  {
    if es != [] {
      assert es[0] in es;
      SumCountsPositive(es[1..]);
    }
  }

  /** With positive counts, the `Others` bucket is empty exactly when there are at most `n` entries. */
  lemma OthersEmptyExactlyWhenFew(counts: seq<Entry<string>>, n: nat)
    requires forall e | e in counts :: e.count > 0
    ensures var r := TopWithOthers(counts, n); r[|r| - 1].count == 0 <==> |counts| <= n
  {
    var k := Min(n, |counts|);
    var r := TopWithOthers(counts, n);
    SumCountsAppend(counts[..k], counts[k..]);
    SumCountsAppend(r[..|r| - 1], [r[|r| - 1]]);
    assert counts[..k] + counts[k..] == counts;
    assert r[..|r| - 1] + [r[|r| - 1]] == r;
    SumCountsPositive(counts[k..]);
  }

  /**
   * The data-source pie: the ten most frequent sources and an `Others`
   * bucket, together counting every study that names a data source; the
   * bucket is zero exactly when at most ten distinct sources occur.
   */
  function SourceShares(t: Table): (r: seq<Entry<string>>)
    ensures |r| >= 1 && r[|r| - 1].key == Others
    ensures SumCounts(r) == Present(Values(t, DataSource))
    ensures r[|r| - 1].count == 0 <==> |ValueCounts(t, DataSource)| <= TopSources
  {
    var counts := ValueCounts(t, DataSource);
    OthersEmptyExactlyWhenFew(counts, TopSources);
    TopWithOthers(counts, TopSources)
  }

  /** Group keys in ascending order, no key twice (`groupby` sorts its keys). */
  predicate KeysAscending(es: seq<Entry<(string, string)>>)
  {
    forall i, j | 0 <= i < j < |es| :: PairLess(es[i].key, es[j].key)
  }

  predicate PairsAscending(s: seq<(string, string)>)
  {
    forall i, j | 0 <= i < j < |s| :: PairLess(s[i], s[j])
  }

  function InsertPair(x: (string, string), s: seq<(string, string)>): (r: seq<(string, string)>)
    requires PairsAscending(s)
    ensures PairsAscending(r)
    ensures forall p :: p in r <==> p == x || p in s
  {
    if s == [] then [x]
    else if x == s[0] then s
    else if PairLess(x, s[0]) then
      assert forall j | 0 < j < |s| :: PairLess(x, s[j]) by {
        forall j | 0 < j < |s| ensures PairLess(x, s[j]) {
          PairLessTransitive(x, s[0], s[j]);
        }
      }
      [x] + s
    else
      var rest := InsertPair(x, s[1..]);
      PairLessTotal(x, s[0]);
      assert forall p | p in rest :: PairLess(s[0], p);
      [s[0]] + rest
  }

  /** The distinct present group keys in ascending order. */
  function SortedUniquePairs(ks: seq<Option<(string, string)>>): (r: seq<(string, string)>)
    ensures PairsAscending(r)
    ensures forall p :: p in r <==> Some(p) in ks
  {
    if ks == [] then []
    else
      var rest := SortedUniquePairs(ks[1..]);
      assert ks == [ks[0]] + ks[1..];
      match ks[0]
      case None => rest
      case Some(p) => InsertPair(p, rest)
  }

  lemma PairValuesAt(t: Table, a: Column, b: Column, p: (string, string))
    ensures Some(p) in PairValues(t, a, b) <==>
              exists i | 0 <= i < |t| :: Get(t[i], a) == Some(p.0) && Get(t[i], b) == Some(p.1)
  {
    var ks := PairValues(t, a, b);
    if Some(p) in ks {
      var i :| 0 <= i < |ks| && ks[i] == Some(p);
      assert Get(t[i], a) == Some(p.0) && Get(t[i], b) == Some(p.1);
    }
    if exists i | 0 <= i < |t| :: Get(t[i], a) == Some(p.0) && Get(t[i], b) == Some(p.1) {
      var i :| 0 <= i < |t| && Get(t[i], a) == Some(p.0) && Get(t[i], b) == Some(p.1);
      assert ks[i] == Some(p);
    }
  }

  /**
   * `groupby([a, b]).size()`: rows missing either key are dropped; one entry
   * per observed pair, in ascending key order, with the number of rows
   * holding that pair (so positive); the counts add up to the number of rows
   * with both keys present.
   */
  function GroupCounts(t: Table, a: Column, b: Column): (r: seq<Entry<(string, string)>>)
    ensures KeysAscending(r)
    ensures forall p :: HasKey(r, p) <==>
              exists i | 0 <= i < |t| :: Get(t[i], a) == Some(p.0) && Get(t[i], b) == Some(p.1)
    ensures forall e | e in r :: e.count == Occurrences(PairValues(t, a, b), e.key) > 0
    ensures SumCounts(r) == Present(PairValues(t, a, b))
  {
    var ks := PairValues(t, a, b);
    var keys := SortedUniquePairs(ks);
    assert NoDuplicates(keys) by {
      forall i, j | 0 <= i < j < |keys| ensures keys[i] != keys[j] {
        if keys[i] == keys[j] {
          PairLessIrreflexive(keys[i]);
        }
      }
    }
    EntriesOfAllKeys(ks, keys);
    forall p ensures Some(p) in ks <==> exists i | 0 <= i < |t| :: Get(t[i], a) == Some(p.0) && Get(t[i], b) == Some(p.1) {
      PairValuesAt(t, a, b, p);
    }
    Entries(ks, keys)
  }

  /** The treemap table: studies per (country, health event), in that key order. */
  function Treemap(t: Table): (r: seq<Entry<(string, string)>>)
    ensures forall p :: HasKey(r, p) <==>
              exists i | 0 <= i < |t| :: t[i].country == Some(p.0) && t[i].healthEvent == Some(p.1)
  {
    GroupCounts(t, Country, HealthEvent)
  }

  /** The line chart table: studies per (year, first analysis method), years in string order. */
  function Trend(t: Table): (r: seq<Entry<(string, string)>>)
    ensures forall p :: HasKey(r, p) <==>
              exists i | 0 <= i < |t| :: t[i].year == p.0 && t[i].method1 == Some(p.1)
  {
    GroupCounts(t, Year, Method1)
  }

  /** The sunburst table: studies per (evaluation, objective), in that key order. */
  function Sunburst(t: Table): (r: seq<Entry<(string, string)>>)
    ensures forall p :: HasKey(r, p) <==>
              exists i | 0 <= i < |t| :: t[i].evaluation == Some(p.0) && t[i].objective == Some(p.1)
  {
    GroupCounts(t, Evaluation, Objective)
  }

  /** Every year is present after `astype(str)`, so the trend counts every study that names a first analysis method. */
  lemma TrendCountsEveryMethod(t: Table)
    ensures SumCounts(Trend(t)) == Present(Values(t, Method1))
  {
    TrendCountsEveryMethodFrom(t);
  }

  lemma {:induction false} TrendCountsEveryMethodFrom(t: Table)
    ensures Present(PairValues(t, Year, Method1)) == Present(Values(t, Method1))
  {
    if t != [] {
      TrendCountsEveryMethodFrom(t[1..]);
      assert PairValues(t, Year, Method1)[1..] == PairValues(t[1..], Year, Method1);
      assert Values(t, Method1)[1..] == Values(t[1..], Method1);
    }
  }
}
