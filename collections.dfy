/** Sequences that list a set: the model's stand-in for iterating over a Python set,
    whose order is unspecified. */
module Collections {

  predicate Distinct<T(==)>(s: seq<T>) {
    forall i, j :: 0 <= i < j < |s| ==> s[i] != s[j]
  }

  /** s lists every element of S exactly once, in some order. */
  predicate Enumerates<T(==)>(s: seq<T>, S: set<T>) {
    Distinct(s) && (forall x :: x in s ==> x in S) && (forall x :: x in S ==> x in s)
  }

  /** A sequence listing each element of a set once is as long as the set is large. */
  lemma {:induction false} EnumerationLength<T>(s: seq<T>, S: set<T>)
    requires Enumerates(s, S)
    ensures |s| == |S|
  {
    if s != [] {
      var x, p := s[|s| - 1], s[..|s| - 1];
      assert s == p + [x];
      forall y | y in p ensures y != x {
        var i :| 0 <= i < |p| && p[i] == y;
        assert s[i] == y;
      }
      assert Enumerates(p, S - {x});
      EnumerationLength(p, S - {x});
    }
  }
}
