/**
 * Proportion of each surveillance objective within each health event, and
 * the order of health events by their `Infodemiology` proportion
 * (Healthdashboard.py:250-266). Proportions are exact rationals (`real`).
 */
module Proportions {
  import opened Results
  import opened Lex
  import opened Records
  import opened Counting
  import opened Aggregates

  const Infodemiology := "Infodemiology"

  /** A row of `df_counts` after the `total` and `proportion` columns are added. */
  datatype ShareRow = ShareRow(event: string, objective: string, count: nat, total: nat, proportion: real)

  /** `groupby(event)['count'].transform('sum')` for the rows of event `e`. */
  function EventTotal(counts: seq<Entry<(string, string)>>, e: string): nat
  {
    if counts == [] then 0
    else (if counts[0].key.0 == e then counts[0].count else 0) + EventTotal(counts[1..], e)
  }

  lemma {:induction false} EventTotalAtLeast(counts: seq<Entry<(string, string)>>, i: nat)
    requires i < |counts|
    ensures EventTotal(counts, counts[i].key.0) >= counts[i].count
  {
    if i > 0 {
      EventTotalAtLeast(counts[1..], i - 1);
    }
  }

  predicate Positive(counts: seq<Entry<(string, string)>>)
  {
    forall e | e in counts :: e.count > 0
  }

  lemma EventTotalsPositive(counts: seq<Entry<(string, string)>>)
    requires Positive(counts)
    ensures forall i | 0 <= i < |counts| :: EventTotal(counts, counts[i].key.0) > 0
  {
    forall i | 0 <= i < |counts| ensures EventTotal(counts, counts[i].key.0) > 0 {
      EventTotalAtLeast(counts, i);
      assert counts[i] in counts;
    }
  }

  /** Rows built from `counts` as steps 2 and 3 build them. */
  predicate SharesOf(rows: seq<ShareRow>, counts: seq<Entry<(string, string)>>)
  {
    && |rows| == |counts|
    && forall i | 0 <= i < |rows| ::
         && (rows[i].event, rows[i].objective) == counts[i].key
         && rows[i].count == counts[i].count
         && rows[i].total == EventTotal(counts, rows[i].event) > 0
         && rows[i].proportion == rows[i].count as real / rows[i].total as real
  }

  /** Steps 2 and 3: each row gains the total of its event and the proportion count / total. */
  function WithShares(counts: seq<Entry<(string, string)>>): (rows: seq<ShareRow>)
    requires Positive(counts)
    ensures SharesOf(rows, counts)
  {
    EventTotalsPositive(counts);
    seq(|counts|, i requires 0 <= i < |counts| =>
      var total := EventTotal(counts, counts[i].key.0);
      ShareRow(counts[i].key.0, counts[i].key.1, counts[i].count, total,
               counts[i].count as real / total as real))
  }

  /** Sum of the proportions of the rows of event `e`. */
  function ShareSum(rows: seq<ShareRow>, e: string): real
  {
    if rows == [] then 0.0
    else (if rows[0].event == e then rows[0].proportion else 0.0) + ShareSum(rows[1..], e)
  }

  /** Sum of the counts of the rows of event `e`. */
  function CountSum(rows: seq<ShareRow>, e: string): nat
  {
    if rows == [] then 0
    else (if rows[0].event == e then rows[0].count else 0) + CountSum(rows[1..], e)
  }

  lemma DivSum(a: real, b: real, d: real)
    requires d > 0.0
    ensures a / d + b / d == (a + b) / d
  {
  }

  lemma DivSelf(d: real)
    requires d > 0.0
    ensures d / d == 1.0
  {
  }

  lemma {:induction false} ShareSumOverTotal(rows: seq<ShareRow>, e: string, total: nat)
    requires total > 0
    requires forall r | r in rows && r.event == e :: r.proportion == r.count as real / total as real
    ensures ShareSum(rows, e) == CountSum(rows, e) as real / total as real
  {
    if rows != [] {
      assert rows[0] in rows;
      ShareSumOverTotal(rows[1..], e, total);
      var rest := CountSum(rows[1..], e) as real;
      if rows[0].event == e {
        DivSum(rows[0].count as real, rest, total as real);
      }
    }
  }

  lemma {:induction false} CountSumIsEventTotal(rows: seq<ShareRow>, counts: seq<Entry<(string, string)>>, e: string)
    requires |rows| == |counts|
    requires forall i | 0 <= i < |rows| :: rows[i].event == counts[i].key.0 && rows[i].count == counts[i].count
    ensures CountSum(rows, e) == EventTotal(counts, e)
  {
    if rows != [] {
      CountSumIsEventTotal(rows[1..], counts[1..], e);
    }
  }

  /** The proportions within one health event add up to exactly 1. */
  lemma SharesOfEvent(rows: seq<ShareRow>, counts: seq<Entry<(string, string)>>, e: string)
    requires SharesOf(rows, counts)
    ensures forall r | r in rows && r.event == e :: r.proportion == r.count as real / EventTotal(counts, e) as real
  {
    forall r | r in rows && r.event == e ensures r.proportion == r.count as real / EventTotal(counts, e) as real {
      var j :| 0 <= j < |rows| && rows[j] == r;
    }
  }

  lemma SharesSumToOne(rows: seq<ShareRow>, counts: seq<Entry<(string, string)>>, i: nat)
    requires SharesOf(rows, counts) && i < |rows|
    ensures ShareSum(rows, rows[i].event) == 1.0
  {
    var e := rows[i].event;
    var total := EventTotal(counts, e);
    assert rows[i].total == total > 0;
    SharesOfEvent(rows, counts, e);
    ShareSumOverTotal(rows, e, total);
    CountSumIsEventTotal(rows, counts, e);
    DivSelf(total as real);
  }

  /** The number of rows whose group key has first component `e`. */
  function CountFirst(ks: seq<Option<(string, string)>>, e: string): nat
  {
    if ks == [] then 0
    else (if ks[0].Some? && ks[0].value.0 == e then 1 else 0) + CountFirst(ks[1..], e)
  }

  function KeysWithFirst(keys: seq<(string, string)>, e: string): set<(string, string)>
  {
    set p | p in keys && p.0 == e
  }

  lemma {:induction false} EventTotalOfEntries(ks: seq<Option<(string, string)>>, keys: seq<(string, string)>, e: string)
    requires NoDuplicates(keys)
    ensures EventTotal(Entries(ks, keys), e) == CountIn(ks, KeysWithFirst(keys, e))
  {
    if keys == [] {
      assert KeysWithFirst(keys, e) == {};
      CountInEmpty(ks);
    } else {
      var es := Entries(ks, keys);
      assert es[1..] == Entries(ks, keys[1..]);
      EventTotalOfEntries(ks, keys[1..], e);
      assert keys[0] !in keys[1..];
      if keys[0].0 == e {
        assert KeysWithFirst(keys, e) == KeysWithFirst(keys[1..], e) + {keys[0]};
        CountInAdd(ks, keys[0], KeysWithFirst(keys[1..], e));
      } else {
        assert KeysWithFirst(keys, e) == KeysWithFirst(keys[1..], e);
      }
    }
  }

  lemma {:induction false} CountInFirst(ks: seq<Option<(string, string)>>, s: set<(string, string)>, e: string)
    requires forall p | p in s :: p.0 == e
    requires forall p | Some(p) in ks && p.0 == e :: p in s
    ensures CountIn(ks, s) == CountFirst(ks, e)
  {
    if ks != [] {
      assert forall p | Some(p) in ks[1..] :: Some(p) in ks;
      CountInFirst(ks[1..], s, e);
    }
  }

  /** The `total` of a health event is the number of studies on that event that name an objective. */
  lemma EventTotalCountsStudies(t: Table, e: string)
    ensures EventTotal(GroupCounts(t, HealthEvent, Objective), e) == CountFirst(PairValues(t, HealthEvent, Objective), e)
  {
    var ks := PairValues(t, HealthEvent, Objective);
    var keys := SortedUniquePairs(ks);
    assert NoDuplicates(keys) by {
      forall i, j | 0 <= i < j < |keys| ensures keys[i] != keys[j] {
        if keys[i] == keys[j] {
          PairLessIrreflexive(keys[i]);
        }
      }
    }
    EventTotalOfEntries(ks, keys, e);
    CountInFirst(ks, KeysWithFirst(keys, e), e);
  }

  /**
   * Step 4: the rows whose objective is `Infodemiology`, as (event,
   * proportion). Each event has at most one such row, so the page's
   * per-event `sum()` leaves these values as they are.
   */
  function InfodemiologyShares(rows: seq<ShareRow>): (r: seq<(string, real)>)
    ensures forall x :: x in r <==>
              exists i | 0 <= i < |rows| :: rows[i].objective == Infodemiology && x == (rows[i].event, rows[i].proportion)
  {
    if rows == [] then []
    else
      var rest := InfodemiologyShares(rows[1..]);
      assert forall i | 0 < i < |rows| :: rows[i] == rows[1..][i - 1];
      (if rows[0].objective == Infodemiology then [(rows[0].event, rows[0].proportion)] else []) + rest
  }

  predicate RowsAscending(rows: seq<ShareRow>)
  {
    forall i, j | 0 <= i < j < |rows| :: PairLess((rows[i].event, rows[i].objective), (rows[j].event, rows[j].objective))
  }

  predicate DistinctEvents(xs: seq<(string, real)>)
  {
    forall i, j | 0 <= i < j < |xs| :: xs[i].0 != xs[j].0
  }

  /** A leading `Infodemiology` row's event is not among the later `Infodemiology` events. */
  lemma HeadEventNotRepeated(rows: seq<ShareRow>)
    requires RowsAscending(rows) && rows != [] && rows[0].objective == Infodemiology
    ensures forall x | x in InfodemiologyShares(rows[1..]) :: x.0 != rows[0].event
  {
    var tail := rows[1..];
    forall x | x in InfodemiologyShares(tail) ensures x.0 != rows[0].event {
      var i :| 0 <= i < |tail| && tail[i].objective == Infodemiology && x == (tail[i].event, tail[i].proportion);
      assert tail[i] == rows[i + 1];
      assert PairLess((rows[0].event, Infodemiology), (x.0, Infodemiology));
      LessIrreflexive(Infodemiology);
      LessIrreflexive(x.0);
    }
  }

  /** Rows in ascending key order carry each event at most once among the `Infodemiology` rows. */
  lemma {:induction false} InfodemiologyEventsDistinct(rows: seq<ShareRow>)
    requires RowsAscending(rows)
    ensures DistinctEvents(InfodemiologyShares(rows))
  {
    if rows != [] {
      var tail := rows[1..];
      assert RowsAscending(tail) by {
        forall i, j | 0 <= i < j < |tail|
          ensures PairLess((tail[i].event, tail[i].objective), (tail[j].event, tail[j].objective))
        {
          assert tail[i] == rows[i + 1] && tail[j] == rows[j + 1];
        }
      }
      InfodemiologyEventsDistinct(tail);
      if rows[0].objective == Infodemiology {
        HeadEventNotRepeated(rows);
        var rest := InfodemiologyShares(tail);
        var all := [(rows[0].event, rows[0].proportion)] + rest;
        forall i, j | 0 <= i < j < |all| ensures all[i].0 != all[j].0 {
          if i == 0 {
            assert all[j] == rest[j - 1];
            assert all[j] in rest;
          } else {
            assert all[i] == rest[i - 1] && all[j] == rest[j - 1];
          }
        }
      }
    }
  }

  function InsertShare(x: (string, real), s: seq<(string, real)>): (r: seq<(string, real)>)
    ensures multiset(r) == multiset([x] + s)
  {
    if s == [] || s[0].1 <= x.1 then [x] + s
    else
      assert s == [s[0]] + s[1..];
      [s[0]] + InsertShare(x, s[1..])
  }

  predicate SharesNonIncreasing(xs: seq<(string, real)>)
  {
    forall i, j | 0 <= i < j < |xs| :: xs[i].1 >= xs[j].1
  }

  lemma {:induction false} InsertShareSorted(x: (string, real), s: seq<(string, real)>)
    requires SharesNonIncreasing(s)
    ensures SharesNonIncreasing(InsertShare(x, s))
  {
    if s != [] && s[0].1 > x.1 {
      var tail := s[1..];
      var rest := InsertShare(x, tail);
      assert SharesNonIncreasing(tail) by {
        forall i, j | 0 <= i < j < |tail| ensures tail[i].1 >= tail[j].1 {
          assert tail[i] == s[i + 1] && tail[j] == s[j + 1];
        }
      }
      InsertShareSorted(x, tail);
      forall j | 0 <= j < |rest| ensures rest[j].1 <= s[0].1 {
        var y := rest[j];
        assert y in multiset(rest);
        assert y in multiset([x] + tail);
        if y != x {
          assert y in tail;
          var k :| 0 <= k < |tail| && tail[k] == y;
          assert s[k + 1] == y;
        }
      }
      assert InsertShare(x, s) == [s[0]] + rest;
    }
  }

  lemma {:induction false} InsertShareDistinct(x: (string, real), s: seq<(string, real)>)
    requires DistinctEvents(s) && forall y | y in s :: y.0 != x.0
    ensures DistinctEvents(InsertShare(x, s))
  {
    if s != [] && s[0].1 > x.1 {
      var rest := InsertShare(x, s[1..]);
      InsertShareDistinct(x, s[1..]);
      forall y | y in rest ensures y.0 != s[0].0 {
        assert y in multiset(rest);
        if y != x {
          var j :| 0 <= j < |s[1..]| && s[1..][j] == y;
          assert s[j + 1] == y;
        }
      }
    }
  }

  /** Step 5: `sort_values('proportion', ascending=False)`. */
  function SortSharesDesc(xs: seq<(string, real)>): (r: seq<(string, real)>)
    ensures multiset(r) == multiset(xs)
    ensures SharesNonIncreasing(r)
  {
    if xs == [] then []
    else
      var rest := SortSharesDesc(xs[1..]);
      InsertShareSorted(xs[0], rest);
      assert xs == [xs[0]] + xs[1..];
      InsertShare(xs[0], rest)
  }

  lemma {:induction false} SortSharesDistinct(xs: seq<(string, real)>)
    requires DistinctEvents(xs)
    ensures DistinctEvents(SortSharesDesc(xs))
  {
    if xs != [] {
      var rest := SortSharesDesc(xs[1..]);
      SortSharesDistinct(xs[1..]);
      forall y | y in rest ensures y.0 != xs[0].0 {
        assert y in multiset(xs[1..]);
        var j :| 0 <= j < |xs[1..]| && xs[1..][j] == y;
        assert xs[j + 1] == y;
      }
      InsertShareDistinct(xs[0], rest);
    }
  }

  /**
   * `ranking` lists exactly the (event, proportion) pairs of the
   * `Infodemiology` rows, largest proportion first, one per event, and
   * `order` is its column of events.
   */
  predicate RankedByInfodemiology(rows: seq<ShareRow>, ranking: seq<(string, real)>, order: seq<string>)
  {
    && (forall x | x in ranking ::
          exists i | 0 <= i < |rows| :: rows[i].objective == Infodemiology && x == (rows[i].event, rows[i].proportion))
    && (forall i | 0 <= i < |rows| && rows[i].objective == Infodemiology :: (rows[i].event, rows[i].proportion) in ranking)
    && SharesNonIncreasing(ranking)
    && DistinctEvents(ranking)
    && |order| == |ranking|
    && forall i | 0 <= i < |order| :: order[i] == ranking[i].0
  }

  lemma RankingMembers(rows: seq<ShareRow>, unsorted: seq<(string, real)>, ranking: seq<(string, real)>)
    requires forall x :: x in unsorted <==>
               exists i | 0 <= i < |rows| :: rows[i].objective == Infodemiology && x == (rows[i].event, rows[i].proportion)
    requires multiset(ranking) == multiset(unsorted)
    ensures forall x | x in ranking ::
              exists i | 0 <= i < |rows| :: rows[i].objective == Infodemiology && x == (rows[i].event, rows[i].proportion)
    ensures forall i | 0 <= i < |rows| && rows[i].objective == Infodemiology :: (rows[i].event, rows[i].proportion) in ranking
  {
    forall x | x in ranking
      ensures exists i | 0 <= i < |rows| :: rows[i].objective == Infodemiology && x == (rows[i].event, rows[i].proportion)
    {
      assert x in multiset(unsorted);
      assert x in unsorted;
    }
    forall i | 0 <= i < |rows| && rows[i].objective == Infodemiology
      ensures (rows[i].event, rows[i].proportion) in ranking
    {
      var x := (rows[i].event, rows[i].proportion);
      assert x in unsorted;
      assert x in multiset(ranking);
    }
  }

  lemma RankingOfRows(rows: seq<ShareRow>, ranking: seq<(string, real)>, order: seq<string>)
    requires RowsAscending(rows)
    requires ranking == SortSharesDesc(InfodemiologyShares(rows))
    requires |order| == |ranking| && forall i | 0 <= i < |order| :: order[i] == ranking[i].0
    ensures RankedByInfodemiology(rows, ranking, order)
  {
    var unsorted := InfodemiologyShares(rows);
    InfodemiologyEventsDistinct(rows);
    SortSharesDistinct(unsorted);
    RankingMembers(rows, unsorted, ranking);
  }

  /**
   * Steps 1 to 6: count each (health event, objective) pair, add each row's
   * event total and proportion, then list the health events that have an
   * `Infodemiology` row by that proportion, largest first.
   */
  method ObjectiveShares(t: Table) returns (rows: seq<ShareRow>, ranking: seq<(string, real)>, order: seq<string>)
    ensures SharesOf(rows, GroupCounts(t, HealthEvent, Objective))
    ensures forall i | 0 <= i < |rows| :: ShareSum(rows, rows[i].event) == 1.0
    ensures RankedByInfodemiology(rows, ranking, order)
  {
    var counts := GroupCounts(t, HealthEvent, Objective);
    assert Positive(counts);
    rows := WithShares(counts);
    forall i | 0 <= i < |rows| ensures ShareSum(rows, rows[i].event) == 1.0 {
      SharesSumToOne(rows, counts, i);
    }
    assert RowsAscending(rows);
    ranking := SortSharesDesc(InfodemiologyShares(rows));
    order := seq(|ranking|, i requires 0 <= i < |ranking| => ranking[i].0);
    RankingOfRows(rows, ranking, order);
  }
}
