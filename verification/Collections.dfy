/** Sequences without repetition, and least elements of sets. */
module Collections {
  predicate NoRepeats<T(==)>(s: seq<T>) {
    forall i, j :: 0 <= i < j < |s| ==> s[i] != s[j]
  }

  /** A set with an element x has one where f is least. */
  lemma {:induction false} Least<T>(s: set<T>, f: T -> int, x: T) returns (m: T)
    requires x in s
    ensures m in s && forall y :: y in s ==> f(m) <= f(y)
    decreases set y | y in s && f(y) < f(x)
  {
    if y :| y in s && f(y) < f(x) {
      assert (set z | z in s && f(z) < f(y)) + {y} <= set z | z in s && f(z) < f(x);
      m := Least(s, f, y);
    } else {
      m := x;
    }
  }
}
