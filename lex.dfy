/**
 * Python's ordering of `str` values, used by `sorted(...)` for the filter
 * option lists and by `groupby(...)` (which sorts its group keys).
 * Strings are compared code point by code point; a proper prefix comes first.
 */
module Lex {

  predicate Less(a: string, b: string)
  {
    if a == [] then b != []
    else if b == [] then false
    else a[0] < b[0] || (a[0] == b[0] && Less(a[1..], b[1..]))
  }

  lemma {:induction false} LessIrreflexive(a: string)
    ensures !Less(a, a)
  {
    if a != [] {
      LessIrreflexive(a[1..]);
    }
  }

  lemma {:induction false} LessTransitive(a: string, b: string, c: string)
    requires Less(a, b) && Less(b, c)
    ensures Less(a, c)
  {
    if a != [] && b != [] && c != [] && a[0] == b[0] && b[0] == c[0] {
      LessTransitive(a[1..], b[1..], c[1..]);
    }
  }

  lemma {:induction false} LessTotal(a: string, b: string)
    ensures a == b || Less(a, b) || Less(b, a)
  {
    if a != [] && b != [] && a[0] == b[0] {
      LessTotal(a[1..], b[1..]);
      if a[1..] == b[1..] {
        assert a == [a[0]] + a[1..] && b == [b[0]] + b[1..];
      }
    }
  }

  lemma LessAsymmetric(a: string, b: string)
    requires Less(a, b)
    ensures !Less(b, a)
  {
    if Less(b, a) {
      LessTransitive(a, b, a);
      LessIrreflexive(a);
    }
  }

  /** The order pandas uses for a two-column group key: first column, then second. */
  predicate PairLess(p: (string, string), q: (string, string))
  {
    Less(p.0, q.0) || (p.0 == q.0 && Less(p.1, q.1))
  }

  lemma PairLessIrreflexive(p: (string, string))
    ensures !PairLess(p, p)
  {
    LessIrreflexive(p.0);
    LessIrreflexive(p.1);
  }

  lemma PairLessTransitive(p: (string, string), q: (string, string), r: (string, string))
    requires PairLess(p, q) && PairLess(q, r)
    ensures PairLess(p, r)
  {
    if Less(p.0, q.0) && Less(q.0, r.0) {
      LessTransitive(p.0, q.0, r.0);
    } else if p.0 == q.0 && q.0 == r.0 {
      LessTransitive(p.1, q.1, r.1);
    }
  }

  lemma PairLessTotal(p: (string, string), q: (string, string))
    ensures p == q || PairLess(p, q) || PairLess(q, p)
  {
    LessTotal(p.0, q.0);
    LessTotal(p.1, q.1);
  }
}
