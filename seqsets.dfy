/** Cardinality facts about sequences without repeated elements: the
    counting arguments behind the edge count and the queue bound of the
    breadth-first search. */
module SeqSets {

  /** No element occurs twice in `s`. */
  predicate NoRepeats<T(==)>(s: seq<T>) {
    forall i, j :: 0 <= i < j < |s| ==> s[i] != s[j]
  }

  /** The set of elements of `s`. */
  function Elements<T(==)>(s: seq<T>): set<T> {
    set x | x in s
  }

  /** A sequence without repeats has exactly as many elements as its set. */
  lemma {:induction false} NoRepeatsCard<T>(s: seq<T>)
    requires NoRepeats(s)
    ensures |Elements(s)| == |s|
  {
    if |s| > 0 {
      var init := s[..|s| - 1];
      assert NoRepeats(init);
      NoRepeatsCard(init);
      assert Elements(s) == Elements(init) + {s[|s| - 1]};
      assert s[|s| - 1] !in Elements(init);
    }
  }

  /** The ids below `n`, in increasing order. */
  function Range(n: nat): seq<nat> {
    seq(n, i requires 0 <= i < n => i as nat)
  }

  /** A sequence of distinct ids below `n` is no longer than `n`. */
  lemma NoRepeatsBounded(s: seq<nat>, n: nat)
    requires NoRepeats(s)
    requires forall i :: 0 <= i < |s| ==> s[i] < n
    ensures |s| <= n
  {
    NoRepeatsCard(s);
    NoRepeatsCard(Range(n));
    assert Elements(s) <= Elements(Range(n)) by {
      forall x | x in Elements(s) ensures x in Elements(Range(n)) {
        assert Range(n)[x] == x;
      }
    }
    SubsetCard(Elements(s), Elements(Range(n)));
  }

  lemma {:induction false} SubsetCard<T>(a: set<T>, b: set<T>)
    requires a <= b
    ensures |a| <= |b|
  {
    if a != {} {
      var x :| x in a;
      SubsetCard(a - {x}, b - {x});
    }
  }
}
