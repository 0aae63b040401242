/** Facts about sequences used as lists without repeated elements. */
module Seqs {

  /** No element occurs twice in `s`. */
  ghost predicate NoDuplicates<T>(s: seq<T>) {
    forall i, j :: 0 <= i < j < |s| ==> s[i] != s[j]
  }

  /** The set of elements of `s`, as Python's `set(s)` computes it. */
  function Elements<T>(s: seq<T>): set<T> {
    set x | x in s
  }

  /** A list without repetitions has as many elements as its set. */
  lemma {:induction false} DistinctCardinality<T>(s: seq<T>)
    requires NoDuplicates(s)
    ensures |Elements(s)| == |s|
  {
    if |s| > 0 {
      var t := s[..|s| - 1];
      var x := s[|s| - 1];
      assert NoDuplicates(t);
      DistinctCardinality(t);
      assert x !in Elements(t);
      assert Elements(s) == Elements(t) + {x} by {
        assert s == t + [x];
      }
    }
  }
}
