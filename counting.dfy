/**
 * Counting over one column of cells, as pandas' `value_counts()` and
 * `groupby(...).size()` do: a missing cell (`None`) is never counted, and each
 * distinct present key gets one entry holding the number of rows with that key.
 */
module Counting {
  import opened Results

  datatype Entry<K> = Entry(key: K, count: nat)

  /** Number of cells holding exactly `k`. */
  function Occurrences<K(==)>(ks: seq<Option<K>>, k: K): (n: nat)
    ensures n <= |ks|
    ensures n > 0 <==> Some(k) in ks
  {
    if ks == [] then 0
    else (if ks[0] == Some(k) then 1 else 0) + Occurrences(ks[1..], k)
  }

  /** Number of cells that are not missing (`Series.count()`). */
  function Present<K>(ks: seq<Option<K>>): (n: nat)
    ensures n <= |ks|
  {
    if ks == [] then 0
    else (if ks[0].Some? then 1 else 0) + Present(ks[1..])
  }

  /** Number of cells whose key lies in `s`. */
  function CountIn<K(==)>(ks: seq<Option<K>>, s: set<K>): (n: nat)
    ensures n <= Present(ks)
  {
    if ks == [] then 0
    else (if ks[0].Some? && ks[0].value in s then 1 else 0) + CountIn(ks[1..], s)
  }

  function SumCounts<K>(es: seq<Entry<K>>): nat
  {
    if es == [] then 0 else es[0].count + SumCounts(es[1..])
  }

  function Elems<K>(keys: seq<K>): set<K>
  {
    set k | k in keys
  }

  predicate NoDuplicates<K(==)>(keys: seq<K>)
  {
    forall i, j | 0 <= i < j < |keys| :: keys[i] != keys[j]
  }

  predicate UniqueKeys<K(==)>(es: seq<Entry<K>>)
  {
    forall i, j | 0 <= i < j < |es| :: es[i].key != es[j].key
  }

  predicate HasKey<K(==)>(es: seq<Entry<K>>, k: K)
  {
    exists i | 0 <= i < |es| :: es[i].key == k
  }

  /** Counts never increase down the table. */
  predicate NonIncreasing<K>(es: seq<Entry<K>>)
  {
    forall i, j | 0 <= i < j < |es| :: es[i].count >= es[j].count
  }

  /** One entry per key of `keys`, in that order, with the number of cells holding it. */
  function Entries<K(==)>(ks: seq<Option<K>>, keys: seq<K>): seq<Entry<K>>
  {
    seq(|keys|, i requires 0 <= i < |keys| => Entry(keys[i], Occurrences(ks, keys[i])))
  }

  lemma {:induction false} SumCountsAppend<K>(a: seq<Entry<K>>, b: seq<Entry<K>>)
    ensures SumCounts(a + b) == SumCounts(a) + SumCounts(b)
  {
    if a != [] {
      assert (a + b)[0] == a[0] && (a + b)[1..] == a[1..] + b;
      SumCountsAppend(a[1..], b);
    } else {
      assert a + b == b;
    }
  }

  lemma {:induction false} CountInEmpty<K>(ks: seq<Option<K>>)
    ensures CountIn(ks, {}) == 0
  {
    if ks != [] {
      CountInEmpty(ks[1..]);
    }
  }

  lemma {:induction false} CountInAdd<K>(ks: seq<Option<K>>, k: K, s: set<K>)
    requires k !in s
    ensures CountIn(ks, s + {k}) == Occurrences(ks, k) + CountIn(ks, s)
  {
    if ks != [] {
      CountInAdd(ks[1..], k, s);
    }
  }

  /** When every present key lies in `s`, counting the cells in `s` counts every present cell. */
  lemma {:induction false} CountInCovering<K>(ks: seq<Option<K>>, s: set<K>)
    requires forall k | Some(k) in ks :: k in s
    ensures CountIn(ks, s) == Present(ks)
  {
    if ks != [] {
      assert forall k | Some(k) in ks[1..] :: Some(k) in ks;
      CountInCovering(ks[1..], s);
    }
  }

  /** The counts of distinct keys add up to the number of cells holding one of them. */
  lemma {:induction false} SumEntries<K>(ks: seq<Option<K>>, keys: seq<K>)
    requires NoDuplicates(keys)
    ensures SumCounts(Entries(ks, keys)) == CountIn(ks, Elems(keys))
  {
    if keys == [] {
      assert Elems(keys) == {};
      CountInEmpty(ks);
    } else {
      assert Entries(ks, keys) == [Entry(keys[0], Occurrences(ks, keys[0]))] + Entries(ks, keys[1..]);
      SumEntries(ks, keys[1..]);
      assert Elems(keys) == Elems(keys[1..]) + {keys[0]};
      assert keys[0] !in Elems(keys[1..]);
      CountInAdd(ks, keys[0], Elems(keys[1..]));
    }
  }

  /**
   * Entries for exactly the distinct present keys: one entry per key, every
   * count positive, and the counts add up to the number of present cells.
   */
  lemma EntriesOfAllKeys<K>(ks: seq<Option<K>>, keys: seq<K>)
    requires NoDuplicates(keys)
    requires forall k :: k in keys <==> Some(k) in ks
    ensures UniqueKeys(Entries(ks, keys))
    ensures forall k :: HasKey(Entries(ks, keys), k) <==> Some(k) in ks
    ensures forall e | e in Entries(ks, keys) :: e.count == Occurrences(ks, e.key) > 0
    ensures SumCounts(Entries(ks, keys)) == Present(ks)
  {
    var es := Entries(ks, keys);
    forall k | Some(k) in ks ensures HasKey(es, k) {
      var i :| 0 <= i < |keys| && keys[i] == k;
      assert es[i].key == k;
    }
    SumEntries(ks, keys);
    CountInCovering(ks, Elems(keys));
  }

  /** Inserts `e` before the first entry whose count is not larger. */
  function InsertByCount<K>(e: Entry<K>, s: seq<Entry<K>>): (r: seq<Entry<K>>)
    ensures multiset(r) == multiset([e] + s)
  {
    if s == [] || s[0].count <= e.count then [e] + s
    else
      assert s == [s[0]] + s[1..];
      [s[0]] + InsertByCount(e, s[1..])
  }

  lemma {:induction false} InsertByCountSorted<K>(e: Entry<K>, s: seq<Entry<K>>)
    requires NonIncreasing(s)
    ensures NonIncreasing(InsertByCount(e, s))
  {
    if s != [] && s[0].count > e.count {
      var rest := InsertByCount(e, s[1..]);
      InsertByCountSorted(e, s[1..]);
      forall x | x in rest ensures x.count <= s[0].count {
        assert x in multiset(rest);
      }
    }
  }

  lemma {:induction false} InsertByCountSum<K>(e: Entry<K>, s: seq<Entry<K>>)
    ensures SumCounts(InsertByCount(e, s)) == e.count + SumCounts(s)
  {
    if s != [] && s[0].count > e.count {
      InsertByCountSum(e, s[1..]);
    }
  }

  lemma {:induction false} InsertByCountUnique<K>(e: Entry<K>, s: seq<Entry<K>>)
    requires UniqueKeys(s) && !HasKey(s, e.key)
    ensures UniqueKeys(InsertByCount(e, s))
  {
    if s != [] && s[0].count > e.count {
      var tail := s[1..];
      var rest := InsertByCount(e, tail);
      assert !HasKey(tail, e.key) by {
        forall j | 0 <= j < |tail| ensures tail[j].key != e.key {
          assert tail[j] == s[j + 1];
        }
      }
      assert UniqueKeys(tail) by {
        forall i, j | 0 <= i < j < |tail| ensures tail[i].key != tail[j].key {
          assert tail[i] == s[i + 1] && tail[j] == s[j + 1];
        }
      }
      InsertByCountUnique(e, tail);
      assert e.key != s[0].key;
      forall j | 0 <= j < |rest| ensures rest[j].key != s[0].key {
        var x := rest[j];
        assert x in multiset(rest);
        assert x in multiset([e] + tail);
        if x != e {
          assert x in tail;
          var k :| 0 <= k < |tail| && tail[k] == x;
          assert s[k + 1] == x;
        }
      }
      assert InsertByCount(e, s) == [s[0]] + rest;
    }
  }

  /** Stable insertion sort by count, largest first. */
  function SortByCountDesc<K>(es: seq<Entry<K>>): (r: seq<Entry<K>>)
    ensures multiset(r) == multiset(es)
    ensures NonIncreasing(r)
  {
    if es == [] then []
    else
      var rest := SortByCountDesc(es[1..]);
      InsertByCountSorted(es[0], rest);
      assert es == [es[0]] + es[1..];
      InsertByCount(es[0], rest)
  }

  lemma {:induction false} SortByCountDescSum<K>(es: seq<Entry<K>>)
    ensures SumCounts(SortByCountDesc(es)) == SumCounts(es)
  {
    if es != [] {
      SortByCountDescSum(es[1..]);
      InsertByCountSum(es[0], SortByCountDesc(es[1..]));
    }
  }

  lemma {:induction false} SortByCountDescUnique<K>(es: seq<Entry<K>>)
    requires UniqueKeys(es)
    ensures UniqueKeys(SortByCountDesc(es))
  {
    if es != [] {
      var rest := SortByCountDesc(es[1..]);
      SortByCountDescUnique(es[1..]);
      assert !HasKey(rest, es[0].key) by {
        forall i | 0 <= i < |rest| ensures rest[i].key != es[0].key {
          assert rest[i] in multiset(es[1..]);
        }
      }
      InsertByCountUnique(es[0], rest);
    }
  }

  /** Reordering a table keeps its entries and therefore its keys. */
  lemma PermutationKeepsKeys<K>(a: seq<Entry<K>>, b: seq<Entry<K>>, k: K)
    requires multiset(a) == multiset(b)
    ensures HasKey(a, k) <==> HasKey(b, k)
  {
    if HasKey(a, k) {
      var i :| 0 <= i < |a| && a[i].key == k;
      assert a[i] in multiset(b);
    }
    if HasKey(b, k) {
      var i :| 0 <= i < |b| && b[i].key == k;
      assert b[i] in multiset(a);
    }
  }

  /**
   * The entries for the distinct present keys, sorted by count, largest
   * first: one entry per present key, each count positive and equal to the
   * number of cells holding the key, the counts adding up to the present cells.
   */
  function CountsDescending<K(==,!new)>(ks: seq<Option<K>>, keys: seq<K>): (r: seq<Entry<K>>)
    requires NoDuplicates(keys)
    requires forall k :: k in keys <==> Some(k) in ks
    ensures UniqueKeys(r)
    ensures forall k :: HasKey(r, k) <==> Some(k) in ks
    ensures forall e | e in r :: e.count == Occurrences(ks, e.key) > 0
    ensures NonIncreasing(r)
    ensures SumCounts(r) == Present(ks)
  {
    var es := Entries(ks, keys);
    EntriesOfAllKeys(ks, keys);
    SortByCountDescUnique(es);
    SortByCountDescSum(es);
    var r := SortByCountDesc(es);
    PermutationKeepsEntries(r, es);
    r
  }

  lemma PermutationKeepsEntries<K>(a: seq<Entry<K>>, b: seq<Entry<K>>)
    requires multiset(a) == multiset(b)
    ensures forall k :: HasKey(a, k) <==> HasKey(b, k)
    ensures forall e | e in a :: e in b
  {
    forall k ensures HasKey(a, k) <==> HasKey(b, k) {
      PermutationKeepsKeys(a, b, k);
    }
    forall e | e in a ensures e in b {
      assert e in multiset(a);
    }
  }
}
