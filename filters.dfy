/**
 * The sidebar filters (Healthdashboard.py:81-98): the option list of each
 * multi-select and the chain of `isin` filters that narrows the table.
 */
module Filters {
  import opened Results
  import opened Lex
  import opened Records

  predicate StrictlyAscending(s: seq<string>)
  {
    forall i, j | 0 <= i < j < |s| :: Less(s[i], s[j])
  }

  /** Adds `x` to an ascending list of distinct strings, unless it is already there. */
  function InsertSorted(x: string, s: seq<string>): (r: seq<string>)
    requires StrictlyAscending(s)
    ensures StrictlyAscending(r)
    ensures forall v :: v in r <==> v == x || v in s
  {
    if s == [] then [x]
    else if x == s[0] then s
    else if Less(x, s[0]) then
      assert forall j | 0 < j < |s| :: Less(x, s[j]) by {
        forall j | 0 < j < |s| ensures Less(x, s[j]) {
          LessTransitive(x, s[0], s[j]);
        }
      }
      [x] + s
    else
      var rest := InsertSorted(x, s[1..]);
      LessTotal(x, s[0]);
      assert forall v | v in rest :: Less(s[0], v);
      [s[0]] + rest
  }

  /** `sorted(column.dropna().unique())`. */
  function SortedUnique(ks: seq<Cell>): (r: seq<string>)
    ensures StrictlyAscending(r)
    ensures forall v :: v in r <==> Some(v) in ks
  {
    if ks == [] then []
    else
      var rest := SortedUnique(ks[1..]);
      assert ks == [ks[0]] + ks[1..];
      match ks[0]
      case None => rest
      case Some(v) => InsertSorted(v, rest)
  }

  /**
   * The options offered for column `c`: strictly ascending (so free of
   * duplicates), and holding exactly the values some row has in `c`.
   */
  function Options(t: Table, c: Column): (r: seq<string>)
    ensures StrictlyAscending(r)
    ensures forall v :: v in r <==> exists i | 0 <= i < |t| :: Get(t[i], c) == Some(v)
  {
    var ks := Values(t, c);
    assert forall v :: Some(v) in ks <==> exists i | 0 <= i < |t| :: Get(t[i], c) == Some(v) by {
      forall v ensures Some(v) in ks <==> exists i | 0 <= i < |t| :: Get(t[i], c) == Some(v) {
        if Some(v) in ks {
          var i :| 0 <= i < |ks| && ks[i] == Some(v);
          assert Get(t[i], c) == Some(v);
        }
        if exists i | 0 <= i < |t| :: Get(t[i], c) == Some(v) {
          var i :| 0 <= i < |t| && Get(t[i], c) == Some(v);
          assert ks[i] == Some(v);
        }
      }
    }
    SortedUnique(ks)
  }

  lemma HeadNotLess(a: seq<string>, b: seq<string>)
    requires StrictlyAscending(a) && StrictlyAscending(b) && a != [] && b != []
    requires forall v :: v in a <==> v in b
    ensures !Less(a[0], b[0])
  {
    if Less(a[0], b[0]) {
      assert a[0] in b;
      var k :| 0 <= k < |b| && b[k] == a[0];
      if k == 0 {
        LessIrreflexive(a[0]);
      } else {
        LessAsymmetric(a[0], b[0]);
      }
    }
  }

  /** A strictly ascending list is determined by its elements: whatever way it is built, it is `sorted(set(...))`. */
  lemma {:induction false} AscendingDeterminedByElements(a: seq<string>, b: seq<string>)
    requires StrictlyAscending(a) && StrictlyAscending(b)
    requires forall v :: v in a <==> v in b
    ensures a == b
  {
    if a != [] && b != [] {
      HeadNotLess(a, b);
      HeadNotLess(b, a);
      LessTotal(a[0], b[0]);
      forall v ensures v in a[1..] <==> v in b[1..] {
        if v in a[1..] {
          var j :| 1 <= j < |a| && a[j] == v;
          assert Less(a[0], a[j]);
          LessIrreflexive(v);
          assert v in b && v != b[0];
          var k :| 0 <= k < |b| && b[k] == v;
          assert b[1..][k - 1] == v;
        }
        if v in b[1..] {
          var j :| 1 <= j < |b| && b[j] == v;
          assert Less(b[0], b[j]);
          LessIrreflexive(v);
          assert v in a && v != a[0];
          var k :| 0 <= k < |a| && a[k] == v;
          assert a[1..][k - 1] == v;
        }
      }
      AscendingDeterminedByElements(a[1..], b[1..]);
      assert a == [a[0]] + a[1..] && b == [b[0]] + b[1..];
    } else {
      HeadIn(a);
      HeadIn(b);
    }
  }

  lemma HeadIn(s: seq<string>)
    ensures s != [] ==> s[0] in s
  {
  }

  /** After `astype(str)` no year is missing, so every row's year is offered (the text "nan" included). */
  lemma YearOptionsCoverEveryRow(t: Table, i: nat)
    requires i < |t|
    ensures t[i].year in Options(t, Year)
  {
    assert Get(t[i], Year) == Some(t[i].year);
  }

  /** `df[column].isin(allowed)` for one column; a missing cell is never a member. */
  datatype Constraint = Constraint(column: Column, allowed: seq<string>)

  predicate Holds(r: Record, k: Constraint)
  {
    Get(r, k.column).Some? && Get(r, k.column).value in k.allowed
  }

  predicate HoldsAll(r: Record, cs: seq<Constraint>)
  {
    forall k | k in cs :: Holds(r, k)
  }

  /** `a` is `b` with some rows dropped and the rest in their original order. */
  predicate Subsequence(a: Table, b: Table)
  {
    if a == [] then true
    else if b == [] then false
    else (a[0] == b[0] && Subsequence(a[1..], b[1..])) || Subsequence(a, b[1..])
  }

  /**
   * Boolean-mask selection `t[mask]`, the mask being the conjunction of the
   * constraints: keeps, in order, exactly the rows meeting every constraint.
   */
  function Restrict(t: Table, cs: seq<Constraint>): (res: Table)
    ensures Subsequence(res, t)
  {
    if t == [] then []
    else
      var rest := Restrict(t[1..], cs);
      assert t == [t[0]] + t[1..];
      if HoldsAll(t[0], cs) then [t[0]] + rest else rest
  }

  /** A row is kept exactly when it is in the table and meets every constraint. */
  lemma {:induction false} RestrictMembers(t: Table, cs: seq<Constraint>, r: Record)
    ensures r in Restrict(t, cs) <==> r in t && HoldsAll(r, cs)
  {
    if t != [] {
      RestrictMembers(t[1..], cs, r);
      assert t == [t[0]] + t[1..];
    }
  }

  /** Each row is kept as often as it occurs when it meets every constraint, and never otherwise. */
  lemma {:induction false} RestrictMultiplicity(t: Table, cs: seq<Constraint>)
    ensures forall r :: multiset(Restrict(t, cs))[r] == if HoldsAll(r, cs) then multiset(t)[r] else 0
  {
    if t != [] {
      RestrictMultiplicity(t[1..], cs);
      assert t == [t[0]] + t[1..];
      assert multiset(t) == multiset([t[0]]) + multiset(t[1..]);
    }
  }

  /** The positions of the rows meeting every constraint. */
  function MatchingIndices(t: Table, cs: seq<Constraint>): set<nat>
  {
    set i: nat | i < |t| && HoldsAll(t[i], cs)
  }

  function Shift(s: set<nat>): set<nat>
  {
    set i | i in s :: i + 1
  }

  lemma {:induction false} ShiftSize(s: set<nat>)
    ensures |Shift(s)| == |s|
    decreases |s|
  {
    if s != {} {
      var x :| x in s;
      ShiftSize(s - {x});
      forall y | y in Shift(s) ensures y in Shift(s - {x}) + {x + 1} {
        var i :| i in s && y == i + 1;
        if i != x {
          assert i in s - {x};
        }
      }
      assert Shift(s) == Shift(s - {x}) + {x + 1};
      assert x + 1 !in Shift(s - {x});
    }
  }

  /** The filtered table has exactly one row per matching position of the table. */
  lemma {:induction false} RestrictLength(t: Table, cs: seq<Constraint>)
    ensures |Restrict(t, cs)| == |MatchingIndices(t, cs)|
  {
    if t != [] {
      var tail := MatchingIndices(t[1..], cs);
      RestrictLength(t[1..], cs);
      ShiftSize(tail);
      var head: set<nat> := if HoldsAll(t[0], cs) then {0} else {};
      assert MatchingIndices(t, cs) == head + Shift(tail) by {
        forall i: nat | i in MatchingIndices(t, cs) && i > 0 ensures i in Shift(tail) {
          assert t[1..][i - 1] == t[i];
          assert (i - 1) in tail;
        }
        forall i | i in Shift(tail) ensures i in MatchingIndices(t, cs) {
          assert t[1..][i - 1] == t[i];
        }
      }
      assert head !! Shift(tail);
    }
  }

  lemma {:induction false} RestrictNothing(t: Table)
    ensures Restrict(t, []) == t
  {
    if t != [] {
      RestrictNothing(t[1..]);
      assert t == [t[0]] + t[1..];
    }
  }

  /** Filtering twice is filtering once by both sets of constraints. */
  lemma {:induction false} RestrictTwice(t: Table, a: seq<Constraint>, b: seq<Constraint>)
    ensures Restrict(Restrict(t, a), b) == Restrict(t, a + b)
  {
    if t != [] {
      RestrictTwice(t[1..], a, b);
      assert HoldsAll(t[0], a + b) <==> HoldsAll(t[0], a) && HoldsAll(t[0], b);
      var rest := Restrict(t[1..], a);
      if HoldsAll(t[0], a) {
        assert Restrict(t, a) == [t[0]] + rest;
        assert ([t[0]] + rest)[1..] == rest;
      }
    }
  }

  /** Only the set of constraints matters, not the order in which they are applied. */
  lemma {:induction false} RestrictOrderIrrelevant(t: Table, cs: seq<Constraint>, ds: seq<Constraint>)
    requires forall k :: k in cs <==> k in ds
    ensures Restrict(t, cs) == Restrict(t, ds)
  {
    if t != [] {
      RestrictOrderIrrelevant(t[1..], cs, ds);
      assert HoldsAll(t[0], cs) == HoldsAll(t[0], ds);
    }
  }

  /** The five multi-select lists; an empty list means no filter on that column. */
  datatype Selection = Selection(
    years: seq<string>, countries: seq<string>, healthEvents: seq<string>,
    platforms: seq<string>, methods: seq<string>)

  const NoSelection := Selection([], [], [], [], [])

  function Step(c: Column, chosen: seq<string>): seq<Constraint>
  {
    if chosen == [] then [] else [Constraint(c, chosen)]
  }

  /** The constraints the if-chain applies, in its order. */
  function Active(sel: Selection): seq<Constraint>
  {
    Step(Year, sel.years) + Step(Country, sel.countries) + Step(HealthEvent, sel.healthEvents)
    + Step(Platform, sel.platforms) + Step(Method1, sel.methods)
  }

  /** A row meets a selection list when the list is empty or the row's value is listed. */
  predicate Meets(v: Cell, chosen: seq<string>)
  {
    chosen == [] || (v.Some? && v.value in chosen)
  }

  /** What a row must satisfy to pass the sidebar filters. */
  predicate Matches(r: Record, sel: Selection)
  {
    && (sel.years == [] || r.year in sel.years)
    && Meets(r.country, sel.countries)
    && Meets(r.healthEvent, sel.healthEvents)
    && Meets(r.platform, sel.platforms)
    && Meets(r.method1, sel.methods)
  }

  /** The filter chain: copy the table, then narrow it once per non-empty selection list. */
  method ApplyFilters(t: Table, sel: Selection) returns (filtered: Table)
    ensures filtered == Restrict(t, Active(sel))
  {
    filtered := t;
    ghost var done: seq<Constraint> := [];
    RestrictNothing(t);
    if sel.years != [] {
      var k := [Constraint(Year, sel.years)];
      RestrictTwice(t, done, k);
      filtered, done := Restrict(filtered, k), done + k;
    }
    assert done == Step(Year, sel.years);
    if sel.countries != [] {
      var k := [Constraint(Country, sel.countries)];
      RestrictTwice(t, done, k);
      filtered, done := Restrict(filtered, k), done + k;
    }
    assert done == Step(Year, sel.years) + Step(Country, sel.countries);
    if sel.healthEvents != [] {
      var k := [Constraint(HealthEvent, sel.healthEvents)];
      RestrictTwice(t, done, k);
      filtered, done := Restrict(filtered, k), done + k;
    }
    assert done == Step(Year, sel.years) + Step(Country, sel.countries) + Step(HealthEvent, sel.healthEvents);
    if sel.platforms != [] {
      var k := [Constraint(Platform, sel.platforms)];
      RestrictTwice(t, done, k);
      filtered, done := Restrict(filtered, k), done + k;
    }
    assert done == Step(Year, sel.years) + Step(Country, sel.countries) + Step(HealthEvent, sel.healthEvents)
                   + Step(Platform, sel.platforms);
    if sel.methods != [] {
      var k := [Constraint(Method1, sel.methods)];
      RestrictTwice(t, done, k);
      filtered, done := Restrict(filtered, k), done + k;
    }
    assert done == Active(sel);
    assert filtered == Restrict(t, done);
  }

  lemma HoldsAllAppend(r: Record, a: seq<Constraint>, b: seq<Constraint>)
    ensures HoldsAll(r, a + b) <==> HoldsAll(r, a) && HoldsAll(r, b)
  {
  }

  lemma HoldsAllStep(r: Record, c: Column, chosen: seq<string>)
    ensures HoldsAll(r, Step(c, chosen)) <==> Meets(Get(r, c), chosen)
  {
    if chosen != [] {
      var k := Constraint(c, chosen);
      assert Step(c, chosen) == [k];
      assert HoldsAll(r, [k]) <==> Holds(r, k) by {
        assert k in [k];
      }
    }
  }

  lemma ActiveMeansMatches(r: Record, sel: Selection)
    ensures HoldsAll(r, Active(sel)) <==> Matches(r, sel)
  {
    var s1, s2, s3 := Step(Year, sel.years), Step(Country, sel.countries), Step(HealthEvent, sel.healthEvents);
    var s4, s5 := Step(Platform, sel.platforms), Step(Method1, sel.methods);
    HoldsAllAppend(r, s1 + s2 + s3 + s4, s5);
    HoldsAllAppend(r, s1 + s2 + s3, s4);
    HoldsAllAppend(r, s1 + s2, s3);
    HoldsAllAppend(r, s1, s2);
    HoldsAllStep(r, Year, sel.years);
    HoldsAllStep(r, Country, sel.countries);
    HoldsAllStep(r, HealthEvent, sel.healthEvents);
    HoldsAllStep(r, Platform, sel.platforms);
    HoldsAllStep(r, Method1, sel.methods);
  }

  /** With nothing selected the filtered table is the selected table, row for row. */
  lemma FilterNoSelection(t: Table)
    ensures Restrict(t, Active(NoSelection)) == t
  {
    RestrictNothing(t);
  }

  /** A row is in the filtered table exactly when it is in the table and meets every non-empty list. */
  lemma FilterMeetsSelection(t: Table, sel: Selection, r: Record)
    ensures r in Restrict(t, Active(sel)) <==> r in t && Matches(r, sel)
  {
    RestrictMembers(t, Active(sel), r);
    ActiveMeansMatches(r, sel);
  }

  /** Every copy of a matching row is kept, and no copy of any other row. */
  lemma FilterKeepsEveryCopy(t: Table, sel: Selection)
    ensures forall r :: multiset(Restrict(t, Active(sel)))[r] == if Matches(r, sel) then multiset(t)[r] else 0
  {
    RestrictMultiplicity(t, Active(sel));
    forall r ensures HoldsAll(r, Active(sel)) <==> Matches(r, sel) {
      ActiveMeansMatches(r, sel);
    }
  }

  /** "Total Studies Matching Filters" is the number of rows of the table that match the selection. */
  lemma FilteredCount(t: Table, sel: Selection)
    ensures |Restrict(t, Active(sel))| == |set i: nat | i < |t| && Matches(t[i], sel)|
  {
    RestrictLength(t, Active(sel));
    forall i: nat | i < |t| ensures HoldsAll(t[i], Active(sel)) <==> Matches(t[i], sel) {
      ActiveMeansMatches(t[i], sel);
    }
    assert MatchingIndices(t, Active(sel)) == set i: nat | i < |t| && Matches(t[i], sel);
  }

  /** Applying the five filters in any other order, each once, gives the same table. */
  lemma FilterOrderIrrelevant(t: Table, sel: Selection, order: seq<Constraint>)
    requires forall k :: k in order <==> k in Active(sel)
    ensures Restrict(t, order) == Restrict(t, Active(sel))
  {
    RestrictOrderIrrelevant(t, order, Active(sel));
  }
}
