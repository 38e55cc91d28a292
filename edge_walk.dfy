/** The traversal behind Graph::EdgeIterator. An iterator position is
    (center, outid): a node id and an index into that node's list. Only the
    canonical slots a -> b with a < b are visited, so each logical edge is
    produced once, from its smaller endpoint. */
module EdgeWalk {
  import opened SeqSets
  import opened Adjacency
  import opened Handles

  /** (center_, outid_) */
  type Pos = (nat, nat)

  predicate LexLt(p: Pos, q: Pos) {
    p.0 < q.0 || (p.0 == q.0 && p.1 < q.1)
  }

  predicate LexLe(p: Pos, q: Pos) {
    p.0 < q.0 || (p.0 == q.0 && p.1 <= q.1)
  }

  /** The position names a slot whose neighbour id exceeds its center. */
  predicate Canonical<E>(adj: Table<E>, p: Pos) {
    p.0 < |adj| && p.1 < |adj[p.0]| && adj[p.0][p.1].0 > p.0
  }

  /** EdgeIterator::operator*: the handle at a position. */
  function Deref(gid: nat, p: Pos): Edge {
    Edge(gid, p.0, p.1)
  }

  /** EdgeIterator::fix: advance (center, outid) to the first canonical slot
      at or after it, or to (size, 0) once every list is exhausted; a
      position whose center is already past the end is left alone. */
  function FixPos<E>(adj: Table<E>, c: nat, o: nat): (r: Pos)
    ensures LexLe((c, o), r)
    ensures r.0 < |adj| ==> Canonical(adj, r)
    ensures forall q: Pos :: LexLe((c, o), q) && LexLt(q, r) ==> !Canonical(adj, q)
    ensures c < |adj| && r.0 >= |adj| ==> r == (|adj|, 0)
    ensures c >= |adj| ==> r == (c, o)
    decreases |adj| - c, if c < |adj| && o < |adj[c]| then |adj[c]| - o else 0
  {
    if c >= |adj| then (c, o)
    else if o < |adj[c]| then
      (if c < adj[c][o].0 then (c, o) else FixPos(adj, c, o + 1))
    else FixPos(adj, c + 1, 0)
  }

  /** EdgeIterator::operator++ followed by fix. */
  function Step<E>(adj: Table<E>, p: Pos): Pos {
    FixPos(adj, p.0, p.1 + 1)
  }

  /** The position reached after `k` increments. */
  function Iterate<E>(adj: Table<E>, p: Pos, k: nat): Pos
    decreases k
  {
    if k == 0 then p else Iterate(adj, Step(adj, p), k - 1)
  }

  /** One more increment is one more Step after the first k. */
  lemma {:induction false} IterateStep<E>(adj: Table<E>, p: Pos, k: nat)
    ensures Iterate(adj, p, k + 1) == Step(adj, Iterate(adj, p, k))
    decreases k
  {
    if k > 0 {
      IterateStep(adj, Step(adj, p), k - 1);
    }
  }

  /** Graph::edge_end */
  function EdgeEnd<E>(adj: Table<E>): Pos {
    (|adj|, 0)
  }

  /** Graph::edge_begin, with the fix the traversal needs (see EdgeBeginAsWritten). */
  function EdgeBegin<E>(adj: Table<E>): Pos {
    FixPos(adj, 0, 0)
  }

  /** Graph::edge_begin as written: (0, 0), not fixed. */
  function EdgeBeginAsWritten<E>(adj: Table<E>): Pos {
    (0, 0)
  }

  /** The reference order of the traversal: every canonical position at or
      after (c, o), in lexicographic order. */
  function Walk<E>(adj: Table<E>, c: nat, o: nat): seq<Pos>
    decreases |adj| - c, if c < |adj| && o < |adj[c]| then |adj[c]| - o else 0
  {
    if c >= |adj| then []
    else if o < |adj[c]| then
      (if c < adj[c][o].0 then [(c, o)] else []) + Walk(adj, c, o + 1)
    else Walk(adj, c + 1, 0)
  }

  /** The walk holds exactly the canonical positions at or after (c, o). */
  lemma {:induction false} WalkMembers<E>(adj: Table<E>, c: nat, o: nat)
    ensures forall p :: p in Walk(adj, c, o) <==> Canonical(adj, p) && LexLe((c, o), p)
    decreases |adj| - c, if c < |adj| && o < |adj[c]| then |adj[c]| - o else 0
  {
    if c >= |adj| {
    } else if o < |adj[c]| {
      WalkMembers(adj, c, o + 1);
    } else {
      WalkMembers(adj, c + 1, 0);
    }
  }

  /** The walk is strictly increasing, so no position occurs twice. */
  lemma {:induction false} WalkSorted<E>(adj: Table<E>, c: nat, o: nat)
    ensures forall i, j :: 0 <= i < j < |Walk(adj, c, o)| ==>
      LexLt(Walk(adj, c, o)[i], Walk(adj, c, o)[j])
    decreases |adj| - c, if c < |adj| && o < |adj[c]| then |adj[c]| - o else 0
  {
    if c >= |adj| {
    } else if o < |adj[c]| {
      var t := Walk(adj, c, o + 1);
      WalkSorted(adj, c, o + 1);
      WalkMembers(adj, c, o + 1);
      if c < adj[c][o].0 {
        assert Walk(adj, c, o) == [(c, o)] + t;
        ConsSorted((c, o), t);
      }
    } else {
      WalkSorted(adj, c + 1, 0);
    }
  }

  lemma ConsParts(h: Pos, t: seq<Pos>)
    ensures ([h] + t)[0] == h && ([h] + t)[1..] == t
  {
  }

  /** A position below every element of a strictly increasing sequence
      extends it to a strictly increasing sequence. */
  lemma ConsSorted(h: Pos, t: seq<Pos>)
    requires forall i, j :: 0 <= i < j < |t| ==> LexLt(t[i], t[j])
    requires forall p :: p in t ==> LexLe((h.0, h.1 + 1), p)
    ensures forall i, j :: 0 <= i < j < |[h] + t| ==> LexLt(([h] + t)[i], ([h] + t)[j])
  {
    var w := [h] + t;
    forall i, j | 0 <= i < j < |w| ensures LexLt(w[i], w[j]) {
      if i == 0 {
        assert w[j] == t[j - 1];
        assert w[j] in t;
      } else {
        assert w[i] == t[i - 1] && w[j] == t[j - 1];
      }
    }
  }

  /** The walk from (c, o) is as long as the canonical slots left in c's
      list plus those of every later list. */
  lemma {:induction false} WalkLength<E>(adj: Table<E>, c: nat, o: nat)
    ensures |Walk(adj, c, o)| ==
      (if c < |adj| then CountAbove(adj[c], c, o) else 0) + SumFrom(adj, Above, c + 1)
    decreases |adj| - c, if c < |adj| && o < |adj[c]| then |adj[c]| - o else 0
  {
    if c >= |adj| {
    } else if o < |adj[c]| {
      WalkLength(adj, c, o + 1);
    } else {
      WalkLength(adj, c + 1, 0);
    }
  }

  /** fix lands past the end exactly when the walk is empty. */
  lemma {:induction false} FixWalkEmpty<E>(adj: Table<E>, c: nat, o: nat)
    ensures Walk(adj, c, o) == [] <==> FixPos(adj, c, o).0 >= |adj|
    decreases |adj| - c, if c < |adj| && o < |adj[c]| then |adj[c]| - o else 0
  {
    if c >= |adj| {
    } else if o < |adj[c]| {
      if c >= adj[c][o].0 {
        FixWalkEmpty(adj, c, o + 1);
      }
    } else {
      FixWalkEmpty(adj, c + 1, 0);
    }
  }

  /** fix lands on the head of a non-empty walk, and one increment from the
      head continues with the walk's tail. */
  lemma {:induction false} FixWalkHead<E>(adj: Table<E>, c: nat, o: nat)
    requires Walk(adj, c, o) != []
    ensures FixPos(adj, c, o) == Walk(adj, c, o)[0]
    decreases |adj| - c, if c < |adj| && o < |adj[c]| then |adj[c]| - o else 0
  {
    if o < |adj[c]| {
      if adj[c][o].0 <= c {
        assert Walk(adj, c, o) == [] + Walk(adj, c, o + 1);
        FixWalkHead(adj, c, o + 1);
      }
    } else {
      FixWalkHead(adj, c + 1, 0);
    }
  }

  /** The walk after its first position is the walk from just past it. */
  lemma {:induction false} WalkTail<E>(adj: Table<E>, c: nat, o: nat)
    requires Walk(adj, c, o) != []
    ensures Walk(adj, Walk(adj, c, o)[0].0, Walk(adj, c, o)[0].1 + 1) == Walk(adj, c, o)[1..]
    decreases |adj| - c, if c < |adj| && o < |adj[c]| then |adj[c]| - o else 0
  {
    if o < |adj[c]| && c < adj[c][o].0 {
      WalkTailHere(adj, c, o);
    } else if o < |adj[c]| {
      WalkTail(adj, c, o + 1);
      WalkSkip(adj, c, o, c, o + 1);
    } else {
      WalkTail(adj, c + 1, 0);
      WalkSkip(adj, c, o, c + 1, 0);
    }
  }

  /** On a canonical slot the walk starts with that slot. */
  lemma WalkTailHere<E>(adj: Table<E>, c: nat, o: nat)
    requires c < |adj| && o < |adj[c]| && c < adj[c][o].0
    ensures Walk(adj, c, o) != []
    ensures Walk(adj, Walk(adj, c, o)[0].0, Walk(adj, c, o)[0].1 + 1) == Walk(adj, c, o)[1..]
  {
    var t := Walk(adj, c, o + 1);
    assert Walk(adj, c, o) == [(c, o)] + t;
    ConsParts((c, o), t);
  }

  /** Off a canonical slot the walk is the walk from the next position. */
  lemma WalkSkip<E>(adj: Table<E>, c: nat, o: nat, c': nat, o': nat)
    requires c < |adj|
    requires (o < |adj[c]| && adj[c][o].0 <= c && (c', o') == (c, o + 1)) ||
      (o >= |adj[c]| && (c', o') == (c + 1, 0))
    ensures Walk(adj, c, o) == Walk(adj, c', o')
  {
    if o < |adj[c]| {
      assert Walk(adj, c, o) == [] + Walk(adj, c, o + 1);
    }
  }

  /** Starting from fix(c, o), the k-th increment reaches the k-th walk
      position, and the increment after the last one leaves the table. */
  lemma {:induction false} IterateWalk<E>(adj: Table<E>, c: nat, o: nat, k: nat)
    requires k <= |Walk(adj, c, o)|
    ensures k < |Walk(adj, c, o)| ==> Iterate(adj, FixPos(adj, c, o), k) == Walk(adj, c, o)[k]
    ensures k == |Walk(adj, c, o)| ==> Iterate(adj, FixPos(adj, c, o), k).0 >= |adj|
    ensures k == |Walk(adj, c, o)| && c < |adj| ==> Iterate(adj, FixPos(adj, c, o), k) == EdgeEnd(adj)
    decreases k
  {
    FixWalkEmpty(adj, c, o);
    var w := Walk(adj, c, o);
    if w != [] {
      FixWalkHead(adj, c, o);
      WalkTail(adj, c, o);
    }
    if k > 0 {
      var p := w[0];
      assert p == FixPos(adj, c, o) && p.0 < |adj|;
      IterateWalk(adj, p.0, p.1 + 1, k - 1);
      var t := Walk(adj, p.0, p.1 + 1);
      assert t == w[1..] && |t| == |w| - 1;
      assert Iterate(adj, p, k) == Iterate(adj, FixPos(adj, p.0, p.1 + 1), k - 1);
      if k < |w| {
        assert t[k - 1] == w[k];
      }
    }
  }

  /** The full walk has one position per logical edge. */
  lemma WalkIsEdgeCount<E>(adj: Table<E>)
    requires WellFormed(adj)
    ensures |Walk(adj, 0, 0)| == NumEdges(adj) == CanonicalSlots(adj)
  {
    WalkLength(adj, 0, 0);
    EdgeCount(adj);
  }

  /** Two canonical positions with the same key are the same position. */
  lemma CanonicalKeys<E>(adj: Table<E>, gid: nat, p: Pos, q: Pos)
    requires WellFormed(adj) && Canonical(adj, p) && Canonical(adj, q)
    ensures Key(adj, Deref(gid, p)) == (p.0, adj[p.0][p.1].0)
    ensures EdgeEq(adj, Deref(gid, p), Deref(gid, q)) <==> p == q
  {
    assert Distinct(adj[p.0]);
    EdgeEqIsKeyEq(adj, Deref(gid, p), Deref(gid, q));
  }

  /** The walk holds a valid, canonical handle per position, no two of them
      are equal edges, and every logical edge of the graph is among them. */
  lemma WalkEdges<E>(adj: Table<E>, gid: nat)
    requires WellFormed(adj)
    ensures forall k :: 0 <= k < |Walk(adj, 0, 0)| ==> Canonical(adj, Walk(adj, 0, 0)[k])
    ensures forall k1, k2 :: 0 <= k1 < k2 < |Walk(adj, 0, 0)| ==>
      Canonical(adj, Walk(adj, 0, 0)[k1]) && Canonical(adj, Walk(adj, 0, 0)[k2]) &&
      !EdgeEq(adj, Deref(gid, Walk(adj, 0, 0)[k1]), Deref(gid, Walk(adj, 0, 0)[k2]))
    ensures forall a, b :: 0 <= a < b < |adj| && HasEdge(adj, a, b) ==>
      exists k :: 0 <= k < |Walk(adj, 0, 0)| && Canonical(adj, Walk(adj, 0, 0)[k]) &&
        Key(adj, Deref(gid, Walk(adj, 0, 0)[k])) == (a, b)
  {
    var w := Walk(adj, 0, 0);
    WalkMembers(adj, 0, 0);
    WalkSorted(adj, 0, 0);
    forall k | 0 <= k < |w| ensures Canonical(adj, w[k]) {
      assert w[k] in w;
    }
    forall k1, k2 | 0 <= k1 < k2 < |w|
      ensures !EdgeEq(adj, Deref(gid, w[k1]), Deref(gid, w[k2]))
    {
      assert w[k1] in w && w[k2] in w;
      CanonicalKeys(adj, gid, w[k1], w[k2]);
    }
    forall a, b | 0 <= a < b < |adj| && HasEdge(adj, a, b)
      ensures exists k :: 0 <= k < |w| && Canonical(adj, w[k]) && Key(adj, Deref(gid, w[k])) == (a, b)
    {
      var i := Find(adj[a], b, 0);
      FindIn(adj[a], b);
      assert Canonical(adj, (a, i));
      assert (a, i) in w;
      var k :| 0 <= k < |w| && w[k] == (a, i);
      CanonicalKeys(adj, gid, w[k], w[k]);
    }
  }

  /** The edge traversal from the (fixed) begin position follows the walk:
      the k-th increment is at the k-th canonical position, and after exactly
      num_edges() increments the iterator equals edge_end. */
  lemma EdgeIteration<E>(adj: Table<E>)
    requires WellFormed(adj)
    ensures |Walk(adj, 0, 0)| == NumEdges(adj)
    ensures forall k :: 0 <= k < NumEdges(adj) ==> Iterate(adj, EdgeBegin(adj), k) == Walk(adj, 0, 0)[k]
    ensures Iterate(adj, EdgeBegin(adj), NumEdges(adj)) == EdgeEnd(adj)
  {
    var w := Walk(adj, 0, 0);
    WalkIsEdgeCount(adj);
    forall k | 0 <= k < |w| ensures Iterate(adj, EdgeBegin(adj), k) == w[k] {
      IterateWalk(adj, 0, 0, k);
    }
    IterateWalk(adj, 0, 0, |w|);
    if |adj| == 0 {
      assert Iterate(adj, EdgeBegin(adj), 0) == (0, 0);
    }
  }

  /** EdgeIterator::operator== as written: the third test compares the
      left operand's outid with itself, so the outid is never compared. */
  predicate SameIterAsWritten(g1: nat, p1: Pos, g2: nat, p2: Pos) {
    g1 == g2 && p1.0 == p2.0 && p1.1 == p1.1
  }

  /** EdgeIterator::operator== as intended: same container and position. */
  predicate SameIter(g1: nat, p1: Pos, g2: nat, p2: Pos) {
    g1 == g2 && p1 == p2
  }

  /** A graph where the as-written comparison calls two iterators over
      different edges equal: node 0 has two canonical slots. */
  lemma SameIterAsWrittenConflates(gid: nat)
    ensures var adj: Table<int> := [[(1, 0), (2, 0)], [(0, 0)], [(0, 0)]];
      WellFormed(adj) && Canonical(adj, (0, 0)) && Canonical(adj, (0, 1)) &&
      SameIterAsWritten(gid, (0, 0), gid, (0, 1)) &&
      !EdgeEq(adj, Deref(gid, (0, 0)), Deref(gid, (0, 1)))
  {
    var adj: Table<int> := [[(1, 0), (2, 0)], [(0, 0)], [(0, 0)]];
    assert Ids(adj[0]) == [1, 2];
    assert Ids(adj[1]) == [0] && Ids(adj[2]) == [0];
  }

  /** The as-written comparison is still right against edge_end: along the
      traversal it holds exactly after the last increment. */
  lemma SameIterAsWrittenAtEnd<E>(adj: Table<E>, gid: nat, k: nat)
    requires WellFormed(adj) && k <= NumEdges(adj)
    ensures SameIterAsWritten(gid, Iterate(adj, EdgeBegin(adj), k), gid, EdgeEnd(adj)) <==> k == NumEdges(adj)
  {
    EdgeIteration(adj);
    if k < NumEdges(adj) {
      WalkEdges(adj, gid);
    }
  }

  /** On canonical positions, the intended comparison is exactly edge equality
      of the dereferenced handles. */
  lemma SameIterIsEdgeEq<E>(adj: Table<E>, gid: nat, p: Pos, q: Pos)
    requires WellFormed(adj) && Canonical(adj, p) && Canonical(adj, q)
    ensures SameIter(gid, p, gid, q) <==> EdgeEq(adj, Deref(gid, p), Deref(gid, q))
  {
    CanonicalKeys(adj, gid, p, q);
  }

  /** The unfixed begin position agrees with the fixed one exactly when node 0
      has a slot (or the graph is empty). */
  lemma EdgeBeginAsWrittenAgrees<E>(adj: Table<E>)
    requires WellFormed(adj)
    ensures EdgeBeginAsWritten(adj) == EdgeBegin(adj) <==> |adj| == 0 || |adj[0]| > 0
  {
    if |adj| > 0 && |adj[0]| > 0 {
      assert adj[0][0].0 != 0;
    }
  }

  /** A graph with one edge where the unfixed begin position is neither
      edge_end nor a slot that can be dereferenced: node 0 is isolated. */
  lemma EdgeBeginAsWrittenUnfixed(gid: nat)
    ensures var adj: Table<int> := [[], [(2, 0)], [(1, 0)]];
      WellFormed(adj) && NumEdges(adj) == 1 &&
      !SameIter(gid, EdgeBeginAsWritten(adj), gid, EdgeEnd(adj)) &&
      !ValidEdge(adj, Deref(gid, EdgeBeginAsWritten(adj)))
  {
    var adj: Table<int> := [[], [(2, 0)], [(1, 0)]];
    assert Ids(adj[0]) == [] && Ids(adj[1]) == [2] && Ids(adj[2]) == [1];
    assert TotalSlots(adj) == 2;
  }

  /** Graph::edge(i) as written advances the unfixed begin. With node 0
      isolated the first increment lands on the fixed begin, so edge(0) is
      no slot, edge(i) for i > 0 is walk position i - 1, and no index below
      num_edges reaches the last edge of the walk. */
  lemma EdgeIndexAsWrittenShifted<E>(adj: Table<E>, gid: nat, i: nat)
    requires WellFormed(adj) && |adj| > 0 && adj[0] == [] && i < NumEdges(adj)
    ensures |Walk(adj, 0, 0)| == NumEdges(adj)
    ensures i == 0 ==> !ValidEdge(adj, Deref(gid, Iterate(adj, EdgeBeginAsWritten(adj), i)))
    ensures i > 0 ==> Iterate(adj, EdgeBeginAsWritten(adj), i) == Walk(adj, 0, 0)[i - 1]
    ensures Iterate(adj, EdgeBeginAsWritten(adj), i) != Walk(adj, 0, 0)[NumEdges(adj) - 1]
  {
    EdgeIteration(adj);
    var w := Walk(adj, 0, 0);
    var last := w[|w| - 1];
    assert Step(adj, (0, 0)) == EdgeBegin(adj);
    if i > 0 {
      assert Iterate(adj, (0, 0), i) == Iterate(adj, EdgeBegin(adj), i - 1);
      WalkSorted(adj, 0, 0);
      if i - 1 < |w| - 1 {
        assert LexLt(w[i - 1], last);
      }
    } else {
      WalkMembers(adj, 0, 0);
      assert last in w;
      assert !Canonical(adj, (0, 0));
    }
  }

  /** The traversal loop `for (i = edge_begin(); i != edge_end(); ++i)` with
      both the unfixed begin and the `==` as written: with node 0 isolated it
      stops only after num_edges + 1 increments, the first pass being on
      (0, 0), which is no slot. */
  lemma EdgeLoopAsWritten<E>(adj: Table<E>, gid: nat, k: nat)
    requires WellFormed(adj) && |adj| > 0 && adj[0] == [] && k <= NumEdges(adj) + 1
    ensures SameIterAsWritten(gid, Iterate(adj, EdgeBeginAsWritten(adj), k), gid, EdgeEnd(adj)) <==>
      k == NumEdges(adj) + 1
  {
    if k > 0 {
      assert Step(adj, (0, 0)) == EdgeBegin(adj);
      assert Iterate(adj, (0, 0), k) == Iterate(adj, EdgeBegin(adj), k - 1);
      SameIterAsWrittenAtEnd(adj, gid, k - 1);
    }
  }
}
