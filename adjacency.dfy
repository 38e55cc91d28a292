/** The graph container's adjacency table (`adjacency_` in Graph.hpp): for
    every node id, the list of (neighbour id, edge value) slots stored at that
    node. Every logical edge {a, b} is two slots, one in a's list and one in
    b's. This module states the table's invariant, the new table each
    mutation of the container computes, and what those new tables satisfy. */
module Adjacency {
  import opened SeqSets

  datatype Option<T> = None | Some(value: T)

  /** One physical slot: the neighbour's id and this direction's copy of the edge value. */
  type Slot<E> = (nat, E)

  /** `adjacency_`: one slot list per node id. */
  type Table<E> = seq<seq<Slot<E>>>

  /** The neighbour ids of a slot list, in list order. */
  function Ids<E>(l: seq<Slot<E>>): seq<nat> {
    seq(|l|, i requires 0 <= i < |l| => l[i].0)
  }

  /** The slot a linear scan of `l` from index `from` stops at: the first one
      whose neighbour is `b`, or |l| when there is none. This is the loop of
      has_edge, add_edge and dual. */
  function Find<E>(l: seq<Slot<E>>, b: nat, from: nat): (k: nat)
    requires from <= |l|
    ensures from <= k <= |l|
    ensures k < |l| ==> l[k].0 == b
    ensures forall j :: from <= j < k ==> l[j].0 != b
    decreases |l| - from
  {
    if from == |l| then |l|
    else if l[from].0 == b then from
    else Find(l, b, from + 1)
  }

  /** A scan of the whole list finds `b` exactly when `b` is one of its neighbours. */
  lemma FindIn<E>(l: seq<Slot<E>>, b: nat)
    ensures Find(l, b, 0) < |l| <==> b in Ids(l)
  {
    var k := Find(l, b, 0);
    if k < |l| {
      assert Ids(l)[k] == b;
    }
  }

  /** has_edge: `b` occurs as a neighbour in `a`'s list. */
  predicate HasEdge<E>(adj: Table<E>, a: nat, b: nat)
    requires a < |adj|
  {
    b in Ids(adj[a])
  }

  /** No neighbour id occurs twice in one list. */
  predicate Distinct<E>(l: seq<Slot<E>>) {
    forall i, j :: 0 <= i < j < |l| ==> l[i].0 != l[j].0
  }

  predicate InRange<E>(adj: Table<E>) {
    forall a, i :: 0 <= a < |adj| && 0 <= i < |adj[a]| ==> adj[a][i].0 < |adj|
  }

  predicate NoSelfLoops<E>(adj: Table<E>) {
    forall a, i :: 0 <= a < |adj| && 0 <= i < |adj[a]| ==> adj[a][i].0 != a
  }

  predicate NoDuplicates<E>(adj: Table<E>) {
    forall a :: 0 <= a < |adj| ==> Distinct(adj[a])
  }

  /** Every slot a -> b has its mirror slot b -> a. */
  predicate Symmetric<E>(adj: Table<E>) {
    forall a, i :: 0 <= a < |adj| && 0 <= i < |adj[a]| && adj[a][i].0 < |adj| ==>
      a in Ids(adj[adj[a][i].0])
  }

  /** The container's invariant: a simple undirected graph stored twice. */
  predicate WellFormed<E>(adj: Table<E>) {
    InRange(adj) && NoSelfLoops(adj) && NoDuplicates(adj) && Symmetric(adj)
  }

  //
  // Sums over the table
  //

  /** f(adj[c], c) + f(adj[c+1], c+1) + ... */
  function SumFrom<E>(adj: Table<E>, f: (seq<Slot<E>>, nat) -> nat, c: nat): nat
    decreases |adj| - c
  {
    if c >= |adj| then 0 else f(adj[c], c) + SumFrom(adj, f, c + 1)
  }

  /** The length of a node's list. */
  function Len<E>(l: seq<Slot<E>>, c: nat): nat {
    |l|
  }

  /** The number of slots of `l`, from index `from` on, whose neighbour id exceeds `c`. */
  function CountAbove<E>(l: seq<Slot<E>>, c: nat, from: nat): nat
    decreases |l| - from
  {
    if from >= |l| then 0
    else (if l[from].0 > c then 1 else 0) + CountAbove(l, c, from + 1)
  }

  /** The canonical slots of node `c`'s list `l`: those whose neighbour id exceeds `c`. */
  function Above<E>(l: seq<Slot<E>>, c: nat): nat {
    CountAbove(l, c, 0)
  }

  /** The sum of all list lengths (the loop of num_edges). */
  function TotalSlots<E>(adj: Table<E>): nat {
    SumFrom(adj, Len, 0)
  }

  /** The number of slots a -> b with a < b. */
  function CanonicalSlots<E>(adj: Table<E>): nat {
    SumFrom(adj, Above, 0)
  }

  /** num_edges: half the total list length. */
  function NumEdges<E>(adj: Table<E>): nat {
    TotalSlots(adj) / 2
  }

  /** The number of lists, from index `c` on, that hold `x` as a neighbour. */
  function Occurrences<E>(adj: Table<E>, x: nat, c: nat): nat
    decreases |adj| - c
  {
    if c >= |adj| then 0
    else (if x in Ids(adj[c]) then 1 else 0) + Occurrences(adj, x, c + 1)
  }

  lemma {:induction false} SumUpdate<E>(adj: Table<E>, f: (seq<Slot<E>>, nat) -> nat, c: nat, k: nat, l: seq<Slot<E>>)
    requires c <= k < |adj|
    ensures SumFrom(adj[k := l], f, c) == SumFrom(adj, f, c) - f(adj[k], k) + f(l, k)
    decreases |adj| - c
  {
    if c < k {
      SumUpdate(adj, f, c + 1, k, l);
    } else {
      SumSame(adj[k := l], adj, f, c + 1);
    }
  }

  lemma {:induction false} SumSame<E>(a: Table<E>, b: Table<E>, f: (seq<Slot<E>>, nat) -> nat, c: nat)
    requires |a| == |b|
    requires forall k :: c <= k < |a| ==> f(a[k], k) == f(b[k], k)
    ensures SumFrom(a, f, c) == SumFrom(b, f, c)
    decreases |a| - c
  {
    if c < |a| {
      SumSame(a, b, f, c + 1);
    }
  }

  lemma {:induction false} SumDropLast<E>(adj: Table<E>, f: (seq<Slot<E>>, nat) -> nat, c: nat)
    requires c < |adj|
    ensures SumFrom(adj[..|adj| - 1], f, c) + f(adj[|adj| - 1], |adj| - 1) == SumFrom(adj, f, c)
    decreases |adj| - c
  {
    if c < |adj| - 1 {
      SumDropLast(adj, f, c + 1);
    }
  }

  lemma {:induction false} CountAboveUpdate<E>(l: seq<Slot<E>>, c: nat, from: nat, k: nat, s: Slot<E>)
    requires from <= k < |l|
    ensures CountAbove(l[k := s], c, from)
         == CountAbove(l, c, from) - (if l[k].0 > c then 1 else 0) + (if s.0 > c then 1 else 0)
    decreases |l| - from
  {
    if from < k {
      CountAboveUpdate(l, c, from + 1, k, s);
    } else {
      CountAboveSame(l[k := s], l, c, from + 1);
    }
  }

  lemma {:induction false} CountAboveSame<E>(l: seq<Slot<E>>, m: seq<Slot<E>>, c: nat, from: nat)
    requires |l| == |m|
    requires forall i :: from <= i < |l| ==> l[i].0 == m[i].0
    ensures CountAbove(l, c, from) == CountAbove(m, c, from)
    decreases |l| - from
  {
    if from < |l| {
      CountAboveSame(l, m, c, from + 1);
    }
  }

  lemma {:induction false} CountAboveDropLast<E>(l: seq<Slot<E>>, c: nat, from: nat)
    requires from < |l|
    ensures CountAbove(l[..|l| - 1], c, from) + (if l[|l| - 1].0 > c then 1 else 0) == CountAbove(l, c, from)
    decreases |l| - from
  {
    if from < |l| - 1 {
      CountAboveDropLast(l, c, from + 1);
    }
  }

  lemma {:induction false} CountAboveAppend<E>(l: seq<Slot<E>>, c: nat, from: nat, s: Slot<E>)
    requires from <= |l|
    ensures CountAbove(l + [s], c, from) == CountAbove(l, c, from) + (if s.0 > c then 1 else 0)
    decreases |l| - from
  {
    if from < |l| {
      CountAboveAppend(l, c, from + 1, s);
    }
  }

  lemma {:induction false} CountAboveAtMost<E>(l: seq<Slot<E>>, c: nat, from: nat)
    requires from <= |l|
    ensures CountAbove(l, c, from) <= |l| - from
    decreases |l| - from
  {
    if from < |l| {
      CountAboveAtMost(l, c, from + 1);
    }
  }

  //
  // Removing one slot: the swap-and-pop loop of remove_edge and remove_node
  //

  /** Overwrite slot k with the last slot, then drop the last slot. */
  function SwapPop<E>(l: seq<Slot<E>>, k: nat): seq<Slot<E>>
    requires k < |l|
  {
    l[k := l[|l| - 1]][..|l| - 1]
  }

  /** The list left by the scan that, on meeting a slot pointing at `x`,
      overwrites it with the last slot and drops the last slot, when `x`
      occurs at most once. */
  function RemoveEntry<E>(l: seq<Slot<E>>, x: nat): seq<Slot<E>> {
    var k := Find(l, x, 0);
    if k < |l| then SwapPop(l, k) else l
  }

  /** RemoveEntry takes out exactly the slot pointing at `x`: it keeps the
      slot order but for the moved last slot, drops one slot when `x` was
      present, and every slot it keeps is one of `l`'s. */
  lemma RemoveEntryFacts<E>(l: seq<Slot<E>>, x: nat)
    requires Distinct(l)
    ensures |RemoveEntry(l, x)| == |l| - (if x in Ids(l) then 1 else 0)
    ensures forall y :: y in Ids(RemoveEntry(l, x)) <==> y in Ids(l) && y != x
    ensures Distinct(RemoveEntry(l, x))
    ensures forall s :: s in RemoveEntry(l, x) ==> s in l
    ensures x !in Ids(l) ==> RemoveEntry(l, x) == l
  {
    var k := Find(l, x, 0);
    FindIn(l, x);
    if k < |l| {
      var n := |l|;
      var r := SwapPop(l, k);
      assert forall i :: 0 <= i < n - 1 ==> r[i] == (if i == k then l[n - 1] else l[i]);
      forall y
        ensures y in Ids(r) <==> y in Ids(l) && y != x
      {
        if y in Ids(r) {
          var i :| 0 <= i < |r| && Ids(r)[i] == y;
          if i == k {
            assert y == l[n - 1].0 && Ids(l)[n - 1] == y;
          } else {
            assert y == l[i].0 && Ids(l)[i] == y;
          }
        }
        if y in Ids(l) && y != x {
          var j :| 0 <= j < n && Ids(l)[j] == y;
          if j < n - 1 {
            assert Ids(r)[j] == y;
          } else {
            assert Ids(r)[k] == y;
          }
        }
      }
      forall s | s in r ensures s in l {
        var i :| 0 <= i < |r| && r[i] == s;
        if i == k { assert l[n - 1] == s; } else { assert l[i] == s; }
      }
    }
  }

  /** RemoveEntry keeps all but at most one of the list's canonical slots. */
  lemma RemoveEntryAbove<E>(l: seq<Slot<E>>, x: nat, c: nat)
    requires Distinct(l)
    ensures Above(RemoveEntry(l, x), c) == Above(l, c) - (if x in Ids(l) && x > c then 1 else 0)
  {
    var k := Find(l, x, 0);
    FindIn(l, x);
    if k < |l| {
      var n := |l|;
      var u := l[k := l[n - 1]];
      CountAboveUpdate(l, c, 0, k, l[n - 1]);
      CountAboveDropLast(u, c, 0);
    }
  }

  //
  // Renaming a neighbour id: the retargeting loop of remove_node
  //

  /** Every slot pointing at `from` is made to point at `to`; values are kept. */
  function Rename<E>(l: seq<Slot<E>>, from: nat, to: nat): seq<Slot<E>> {
    seq(|l|, i requires 0 <= i < |l| => if l[i].0 == from then (to, l[i].1) else l[i])
  }

  lemma RenameFacts<E>(l: seq<Slot<E>>, from: nat, to: nat)
    requires Distinct(l)
    requires from != to && to !in Ids(l)
    ensures forall y :: y in Ids(Rename(l, from, to)) <==>
      (y == to && from in Ids(l)) || (y != from && y != to && y in Ids(l))
    ensures Distinct(Rename(l, from, to))
  {
    var r := Rename(l, from, to);
    forall y
      ensures y in Ids(r) <==> (y == to && from in Ids(l)) || (y != from && y != to && y in Ids(l))
    {
      if y in Ids(r) {
        var i :| 0 <= i < |r| && Ids(r)[i] == y;
        assert Ids(l)[i] == l[i].0;
      }
      if y == to && from in Ids(l) {
        var i :| 0 <= i < |l| && Ids(l)[i] == from;
        assert Ids(r)[i] == y;
      }
      if y != from && y != to && y in Ids(l) {
        var i :| 0 <= i < |l| && Ids(l)[i] == y;
        assert Ids(r)[i] == y;
      }
    }
    forall i, j | 0 <= i < j < |r| ensures r[i].0 != r[j].0 {
      assert Ids(l)[i] == l[i].0 && Ids(l)[j] == l[j].0;
    }
  }

  lemma RenameSelf<E>(l: seq<Slot<E>>, x: nat)
    ensures Rename(l, x, x) == l
  {
  }

  //
  // The invariant on neighbour ids
  //

  /** Neighbour ids are node ids other than the list's own, and every link has its mirror. */
  predicate LinksOk<E>(adj: Table<E>) {
    forall x: nat, y: nat :: x < |adj| && y in Ids(adj[x]) ==> y < |adj| && y != x && x in Ids(adj[y])
  }

  lemma SlotInIds<E>(l: seq<Slot<E>>, i: nat)
    requires i < |l|
    ensures l[i].0 in Ids(l)
  {
    assert Ids(l)[i] == l[i].0;
  }

  lemma LinksOkIsWellFormed<E>(adj: Table<E>)
    requires NoDuplicates(adj) && LinksOk(adj)
    ensures WellFormed(adj)
  {
    forall a: nat, i: nat | a < |adj| && i < |adj[a]|
      ensures adj[a][i].0 < |adj| && adj[a][i].0 != a && a in Ids(adj[adj[a][i].0])
    {
      SlotInIds(adj[a], i);
      LinksOkAt(adj, a, adj[a][i].0);
    }
  }

  lemma LinksOkAt<E>(adj: Table<E>, x: nat, y: nat)
    requires LinksOk(adj) && x < |adj| && y in Ids(adj[x])
    ensures y < |adj| && y != x && x in Ids(adj[y])
  {
  }

  lemma WellFormedLinksOk<E>(adj: Table<E>)
    requires WellFormed(adj)
    ensures LinksOk(adj)
  {
    forall x, y | 0 <= x < |adj| && y in Ids(adj[x])
      ensures y < |adj| && y != x && x in Ids(adj[y])
    {
      var i :| 0 <= i < |adj[x]| && Ids(adj[x])[i] == y;
      assert adj[x][i].0 == y;
    }
  }

  /** has_edge is symmetric on a well-formed table, and never links a node to itself. */
  lemma HasEdgeSymmetric<E>(adj: Table<E>, a: nat, b: nat)
    requires WellFormed(adj) && a < |adj| && b < |adj|
    ensures HasEdge(adj, a, b) <==> HasEdge(adj, b, a)
    ensures HasEdge(adj, a, b) ==> a != b
  {
    WellFormedLinksOk(adj);
  }

  //
  // add_node
  //

  /** The table after add_node: one more, empty, list. */
  function AddNodeState<E>(adj: Table<E>): Table<E> {
    adj + [[]]
  }

  /** add_node keeps the invariant and the edges, and the new node has no slots. */
  lemma AddNodeStateFacts<E>(adj: Table<E>)
    requires WellFormed(adj)
    ensures WellFormed(AddNodeState(adj))
    ensures |AddNodeState(adj)| == |adj| + 1 && AddNodeState(adj)[|adj|] == []
    ensures forall x, y :: 0 <= x < |adj| ==> (HasEdge(AddNodeState(adj), x, y) <==> HasEdge(adj, x, y))
    ensures NumEdges(AddNodeState(adj)) == NumEdges(adj)
  {
    var r := AddNodeState(adj);
    WellFormedLinksOk(adj);
    assert r[..|adj|] == adj;
    SumDropLast(r, Len, 0);
    assert LinksOk(r) by {
      forall x, y | 0 <= x < |r| && y in Ids(r[x]) ensures y < |r| && y != x && x in Ids(r[y]) {
        assert x < |adj|;
      }
    }
    LinksOkIsWellFormed(r);
  }

  //
  // add_edge
  //

  /** The table after add_edge(a, b) found no edge: a slot (b, ev) appended to
      a's list, then a slot (a, ev) appended to b's list. */
  function AddEdgeState<E>(adj: Table<E>, a: nat, b: nat, ev: E): Table<E>
    requires a < |adj| && b < |adj|
  {
    var r := adj[a := adj[a] + [(b, ev)]];
    r[b := r[b] + [(a, ev)]]
  }

  lemma AppendIds<E>(l: seq<Slot<E>>, s: Slot<E>)
    ensures forall y :: y in Ids(l + [s]) <==> y in Ids(l) || y == s.0
  {
    assert Ids(l + [s]) == Ids(l) + [s.0];
  }

  lemma AppendDistinct<E>(l: seq<Slot<E>>, s: Slot<E>)
    requires Distinct(l) && s.0 !in Ids(l)
    ensures Distinct(l + [s])
  {
    forall i, j | 0 <= i < j < |l| + 1 ensures (l + [s])[i].0 != (l + [s])[j].0 {
      if j == |l| {
        SlotInIds(l, i);
      }
    }
  }

  lemma AddEdgeIds<E>(adj: Table<E>, a: nat, b: nat, ev: E)
    requires a < |adj| && b < |adj| && a != b
    ensures |AddEdgeState(adj, a, b, ev)| == |adj|
    ensures forall x, y :: 0 <= x < |adj| ==>
      (y in Ids(AddEdgeState(adj, a, b, ev)[x]) <==>
       y in Ids(adj[x]) || (x == a && y == b) || (x == b && y == a))
  {
    AppendIds(adj[a], (b, ev));
    AppendIds(adj[b], (a, ev));
  }

  /** Adding a missing edge keeps the invariant and links exactly a and b, in
      both directions, on top of the old edges. */
  lemma AddEdgeStateFacts<E>(adj: Table<E>, a: nat, b: nat, ev: E)
    requires WellFormed(adj) && a < |adj| && b < |adj| && a != b
    requires !HasEdge(adj, a, b)
    ensures WellFormed(AddEdgeState(adj, a, b, ev))
    ensures |AddEdgeState(adj, a, b, ev)| == |adj|
    ensures forall x, y :: 0 <= x < |adj| ==>
      (HasEdge(AddEdgeState(adj, a, b, ev), x, y) <==>
       HasEdge(adj, x, y) || (x == a && y == b) || (x == b && y == a))
  {
    var r := AddEdgeState(adj, a, b, ev);
    HasEdgeSymmetric(adj, a, b);
    WellFormedLinksOk(adj);
    AddEdgeIds(adj, a, b, ev);
    AppendDistinct(adj[a], (b, ev));
    AppendDistinct(adj[b], (a, ev));
    assert NoDuplicates(r) by {
      forall x | 0 <= x < |r| ensures Distinct(r[x]) {
        if x != a && x != b { assert r[x] == adj[x]; }
      }
    }
    LinksOkIsWellFormed(r);
  }

  /** Adding a missing edge adds two slots, hence one edge. */
  lemma AddEdgeStateCount<E>(adj: Table<E>, a: nat, b: nat, ev: E)
    requires a < |adj| && b < |adj| && a != b
    ensures TotalSlots(AddEdgeState(adj, a, b, ev)) == TotalSlots(adj) + 2
    ensures NumEdges(AddEdgeState(adj, a, b, ev)) == NumEdges(adj) + 1
  {
    var r1 := adj[a := adj[a] + [(b, ev)]];
    SumUpdate(adj, Len, 0, a, adj[a] + [(b, ev)]);
    SumUpdate(r1, Len, 0, b, r1[b] + [(a, ev)]);
  }

  //
  // remove_edge
  //

  /** The table after remove_edge(a, b) found the edge: the slot pointing at b
      swap-popped from a's list, then the slot pointing at a from b's list. */
  function RemoveEdgeState<E>(adj: Table<E>, a: nat, b: nat): Table<E>
    requires a < |adj| && b < |adj|
  {
    var r := adj[a := RemoveEntry(adj[a], b)];
    r[b := RemoveEntry(r[b], a)]
  }

  lemma RemoveEdgeIds<E>(adj: Table<E>, a: nat, b: nat)
    requires NoDuplicates(adj) && a < |adj| && b < |adj| && a != b
    ensures |RemoveEdgeState(adj, a, b)| == |adj|
    ensures NoDuplicates(RemoveEdgeState(adj, a, b))
    ensures forall x, y :: 0 <= x < |adj| ==>
      (y in Ids(RemoveEdgeState(adj, a, b)[x]) <==>
       y in Ids(adj[x]) && !(x == a && y == b) && !(x == b && y == a))
  {
    var r := RemoveEdgeState(adj, a, b);
    RemoveEntryFacts(adj[a], b);
    RemoveEntryFacts(adj[b], a);
    assert NoDuplicates(r) by {
      forall x | 0 <= x < |r| ensures Distinct(r[x]) {
        if x != a && x != b { assert r[x] == adj[x]; }
      }
    }
  }

  /** Removing an existing edge keeps the invariant, unlinks exactly a and b
      and leaves every other list as it was. */
  lemma RemoveEdgeStateFacts<E>(adj: Table<E>, a: nat, b: nat)
    requires WellFormed(adj) && a < |adj| && b < |adj|
    requires HasEdge(adj, a, b)
    ensures WellFormed(RemoveEdgeState(adj, a, b))
    ensures |RemoveEdgeState(adj, a, b)| == |adj|
    ensures forall o :: 0 <= o < |adj| && o != a && o != b ==> RemoveEdgeState(adj, a, b)[o] == adj[o]
    ensures forall x, y :: 0 <= x < |adj| ==>
      (HasEdge(RemoveEdgeState(adj, a, b), x, y) <==>
       HasEdge(adj, x, y) && !(x == a && y == b) && !(x == b && y == a))
    ensures !HasEdge(RemoveEdgeState(adj, a, b), a, b) && !HasEdge(RemoveEdgeState(adj, a, b), b, a)
  {
    HasEdgeSymmetric(adj, a, b);
    WellFormedLinksOk(adj);
    RemoveEdgeIds(adj, a, b);
    LinksOkIsWellFormed(RemoveEdgeState(adj, a, b));
  }

  /** Removing an existing edge removes two slots, one of them canonical, hence one edge. */
  lemma RemoveEdgeStateCount<E>(adj: Table<E>, a: nat, b: nat)
    requires WellFormed(adj) && a < |adj| && b < |adj|
    requires HasEdge(adj, a, b)
    ensures TotalSlots(RemoveEdgeState(adj, a, b)) == TotalSlots(adj) - 2
    ensures NumEdges(RemoveEdgeState(adj, a, b)) == NumEdges(adj) - 1
    ensures CanonicalSlots(RemoveEdgeState(adj, a, b)) == CanonicalSlots(adj) - 1
  {
    HasEdgeSymmetric(adj, a, b);
    var r1 := adj[a := RemoveEntry(adj[a], b)];
    RemoveEntryFacts(adj[a], b);
    RemoveEntryFacts(adj[b], a);
    RemoveEntryAbove(adj[a], b, a);
    RemoveEntryAbove(adj[b], a, b);
    assert r1[b] == adj[b];
    SumUpdate(adj, Len, 0, a, RemoveEntry(adj[a], b));
    SumUpdate(r1, Len, 0, b, RemoveEntry(adj[b], a));
    SumUpdate(adj, Above, 0, a, RemoveEntry(adj[a], b));
    SumUpdate(r1, Above, 0, b, RemoveEntry(adj[b], a));
  }

  //
  // num_edges
  //

  /** The unordered adjacent pairs, each written (smaller id, larger id). */
  ghost function EdgeSet<E>(adj: Table<E>): set<(nat, nat)> {
    set a: nat, b: nat | a < b < |adj| && b in Ids(adj[a]) :: (a, b)
  }

  lemma {:induction false} EmptyLists<E>(adj: Table<E>, c: nat)
    requires SumFrom(adj, Len, c) == 0
    ensures SumFrom(adj, Above, c) == 0
    ensures forall o :: c <= o < |adj| ==> adj[o] == []
    decreases |adj| - c
  {
    if c < |adj| {
      EmptyLists(adj, c + 1);
    }
  }

  lemma {:induction false} NonEmptyList<E>(adj: Table<E>, c: nat) returns (a: nat)
    requires SumFrom(adj, Len, c) > 0
    ensures c <= a < |adj| && |adj[a]| > 0
    decreases |adj| - c
  {
    if |adj[c]| > 0 {
      a := c;
    } else {
      a := NonEmptyList(adj, c + 1);
    }
  }

  /** Removing edge {a, b} removes exactly its pair from the edge set. */
  lemma RemoveEdgeStateEdgeSet<E>(adj: Table<E>, a: nat, b: nat)
    requires WellFormed(adj) && a < |adj| && b < |adj|
    requires HasEdge(adj, a, b)
    ensures a != b
    ensures (if a < b then (a, b) else (b, a)) in EdgeSet(adj)
    ensures EdgeSet(RemoveEdgeState(adj, a, b)) == EdgeSet(adj) - {if a < b then (a, b) else (b, a)}
  {
    HasEdgeSymmetric(adj, a, b);
    RemoveEdgeStateFacts(adj, a, b);
    EdgeSetMinus(adj, RemoveEdgeState(adj, a, b), a, b);
  }

  /** A table with the same links as `adj` but for a -- b has the edge set
      of `adj` without that pair. */
  lemma EdgeSetMinus<E>(adj: Table<E>, r: Table<E>, a: nat, b: nat)
    requires |r| == |adj| && a != b
    requires forall x, y :: 0 <= x < |adj| ==>
      (HasEdge(r, x, y) <==> HasEdge(adj, x, y) && !(x == a && y == b) && !(x == b && y == a))
    ensures EdgeSet(r) == EdgeSet(adj) - {if a < b then (a, b) else (b, a)}
  {
    var p := if a < b then (a, b) else (b, a);
    forall e | e in EdgeSet(r) ensures e in EdgeSet(adj) - {p} {
      var (x, y) := e;
      assert x < y < |adj| && HasEdge(r, x, y);
    }
    forall e | e in EdgeSet(adj) - {p} ensures e in EdgeSet(r) {
      var (x, y) := e;
      assert x < y < |adj| && HasEdge(adj, x, y);
      assert HasEdge(r, x, y);
    }
  }

  /** On a well-formed table half of the slots are canonical, and there are
      exactly as many canonical slots as unordered adjacent pairs: num_edges
      counts the logical edges. */
  lemma {:induction false} EdgeCount<E>(adj: Table<E>)
    requires WellFormed(adj)
    ensures TotalSlots(adj) == 2 * CanonicalSlots(adj)
    ensures |EdgeSet(adj)| == CanonicalSlots(adj)
    ensures NumEdges(adj) == |EdgeSet(adj)|
    decreases TotalSlots(adj)
  {
    if TotalSlots(adj) == 0 {
      EmptyLists(adj, 0);
      assert EdgeSet(adj) == {};
    } else {
      var a := NonEmptyList(adj, 0);
      var b := adj[a][0].0;
      SlotInIds(adj[a], 0);
      var r := RemoveEdgeState(adj, a, b);
      RemoveEdgeStateFacts(adj, a, b);
      RemoveEdgeStateCount(adj, a, b);
      RemoveEdgeStateEdgeSet(adj, a, b);
      EdgeCount(r);
      var p := if a < b then (a, b) else (b, a);
      RemoveOneCard(EdgeSet(adj), p);
    }
  }

  lemma RemoveOneCard<T>(s: set<T>, p: T)
    requires p in s
    ensures |s - {p}| == |s| - 1
  {
  }

  //
  // remove_node
  //

  /** Every list with its slot pointing at `x` swap-popped (the first loop of remove_node). */
  function StripAll<E>(adj: Table<E>, x: nat): Table<E> {
    seq(|adj|, o requires 0 <= o < |adj| => RemoveEntry(adj[o], x))
  }

  /** The last element moved into position `x`, then the last position dropped:
      what remove_node does to both `nodes_` and `adjacency_`. */
  function MoveLast<T>(s: seq<T>, x: nat): seq<T>
    requires x < |s|
  {
    s[x := s[|s| - 1]][..|s| - 1]
  }

  /** Every list with `from` renamed to `to` (the second loop of remove_node). */
  function RenameAll<E>(adj: Table<E>, from: nat, to: nat): Table<E> {
    seq(|adj|, o requires 0 <= o < |adj| => Rename(adj[o], from, to))
  }

  /** The table after remove_node(x). */
  function RemoveNodeState<E>(adj: Table<E>, x: nat): Table<E>
    requires x < |adj|
  {
    RenameAll(MoveLast(StripAll(adj, x), x), |adj| - 1, x)
  }

  /** remove_node as written: after the pop at Graph.hpp:322 the second
      pass reads list `x` again (line 323), which no longer exists when `x`
      was the last id; None stands for that out-of-range read. */
  function RemoveNodeAsWritten<E>(adj: Table<E>, x: nat): Option<Table<E>>
    requires x < |adj|
  {
    var m := MoveLast(StripAll(adj, x), x);
    if x < |m| then Some(RenameAll(m, |adj| - 1, x)) else None
  }

  /** Removing the only node of a one-node graph reads past the table. */
  lemma RemoveNodeAsWrittenOnLast()
    ensures RemoveNodeAsWritten<int>([[]], 0) == None
  {
  }

  /** Away from the last id, the code as written computes RemoveNodeState,
      and on the last id RemoveNodeState is the table with the last list
      stripped and dropped, the retargeting pass being the identity. */
  lemma RemoveNodeAsWrittenAgrees<E>(adj: Table<E>, x: nat)
    requires x < |adj|
    ensures x < |adj| - 1 ==> RemoveNodeAsWritten(adj, x) == Some(RemoveNodeState(adj, x))
    ensures x == |adj| - 1 ==> RemoveNodeAsWritten(adj, x) == None
    ensures x == |adj| - 1 ==> RemoveNodeState(adj, x) == StripAll(adj, x)[..x]
  {
    if x == |adj| - 1 {
      RenameAllSelf(MoveLast(StripAll(adj, x), x), x);
      assert MoveLast(StripAll(adj, x), x) == StripAll(adj, x)[..x];
    }
  }

  /** The old id of the node that has id `y` after removing `x` from `n` nodes. */
  function Origin(n: nat, x: nat, y: nat): nat
    requires x < n
  {
    if y == x then n - 1 else y
  }

  lemma {:induction false} OccurrencesSet<E>(adj: Table<E>, x: nat, c: nat)
    ensures Occurrences(adj, x, c) == |set o: nat | c <= o < |adj| && x in Ids(adj[o])|
    decreases |adj| - c
  {
    if c < |adj| {
      OccurrencesSet(adj, x, c + 1);
      var rest := set o: nat | c + 1 <= o < |adj| && x in Ids(adj[o]);
      if x in Ids(adj[c]) {
        assert (set o: nat | c <= o < |adj| && x in Ids(adj[o])) == rest + {c};
      } else {
        assert (set o: nat | c <= o < |adj| && x in Ids(adj[o])) == rest;
      }
    }
  }

  /** On a well-formed table, exactly degree(x) lists hold x. */
  lemma OccurrencesIsDegree<E>(adj: Table<E>, x: nat)
    requires WellFormed(adj) && x < |adj|
    ensures Occurrences(adj, x, 0) == |adj[x]|
  {
    WellFormedLinksOk(adj);
    OccurrencesSet(adj, x, 0);
    var holders := set o: nat | 0 <= o < |adj| && x in Ids(adj[o]);
    forall o: nat ensures o in holders <==> o in Elements(Ids(adj[x])) {
      if o in holders { LinksOkAt(adj, o, x); }
      if o in Ids(adj[x]) { LinksOkAt(adj, x, o); }
    }
    assert holders == Elements(Ids(adj[x]));
    assert NoRepeats(Ids(adj[x])) by {
      forall i, j | 0 <= i < j < |adj[x]| ensures Ids(adj[x])[i] != Ids(adj[x])[j] {
        assert Distinct(adj[x]);
      }
    }
    NoRepeatsCard(Ids(adj[x]));
  }

  lemma {:induction false} StripAllTotal<E>(adj: Table<E>, x: nat, c: nat)
    requires NoDuplicates(adj)
    ensures SumFrom(StripAll(adj, x), Len, c) + Occurrences(adj, x, c) == SumFrom(adj, Len, c)
    decreases |adj| - c
  {
    if c < |adj| {
      RemoveEntryFacts(adj[c], x);
      StripAllTotal(adj, x, c + 1);
    }
  }

  /** The neighbours of node y after remove_node(x) are the old neighbours of
      its origin, other than x, under their new ids. */
  lemma RemoveNodeIds<E>(adj: Table<E>, x: nat, y: nat)
    requires WellFormed(adj) && x < |adj| && y < |adj| - 1
    ensures |RemoveNodeState(adj, x)| == |adj| - 1
    ensures forall z: nat :: z in Ids(RemoveNodeState(adj, x)[y]) <==>
      z < |adj| - 1 && Origin(|adj|, x, z) in Ids(adj[Origin(|adj|, x, y)])
    ensures Distinct(RemoveNodeState(adj, x)[y])
    ensures |RemoveNodeState(adj, x)[y]| == |adj[Origin(|adj|, x, y)]| - (if x in Ids(adj[Origin(|adj|, x, y)]) then 1 else 0)
  {
    var n := |adj|;
    var lid := n - 1;
    var o := Origin(n, x, y);
    var l := RemoveEntry(adj[o], x);
    var m := MoveLast(StripAll(adj, x), x);
    assert m[y] == l;
    var r := RemoveNodeState(adj, x);
    assert r[y] == Rename(l, lid, x);
    WellFormedLinksOk(adj);
    assert Distinct(adj[o]);
    RemoveEntryFacts(adj[o], x);
    forall z: nat | z in Ids(adj[o]) ensures z < n && z != o {
      LinksOkAt(adj, o, z);
    }
    if x < lid {
      RenameFacts(l, lid, x);
    } else {
      RenameSelf(l, x);
    }
  }

  /** The swap-pop scan keeps every slot that does not point at x, value included. */
  lemma RemoveEntryKeepsSlot<E>(l: seq<Slot<E>>, x: nat, s: Slot<E>)
    requires s in l && s.0 != x
    ensures s in RemoveEntry(l, x)
  {
    var k := Find(l, x, 0);
    if k < |l| {
      var n := |l|;
      var r := SwapPop(l, k);
      var j :| 0 <= j < n && l[j] == s;
      assert j != k;
      if j < n - 1 {
        assert r[j] == s;
      } else {
        assert r[k] == s;
      }
    }
  }

  /** remove_node keeps the edge value of every surviving slot: each slot of
      the new list y is a slot of y's origin with its neighbour id renamed,
      and each slot of that origin not pointing at x reappears under the
      neighbour's new id (the old last id becomes x). */
  lemma RemoveNodeKeepsValues<E>(adj: Table<E>, x: nat, y: nat)
    requires WellFormed(adj) && x < |adj| && y < |adj| - 1
    ensures |RemoveNodeState(adj, x)| == |adj| - 1
    ensures forall s :: s in RemoveNodeState(adj, x)[y] ==>
      (Origin(|adj|, x, s.0), s.1) in adj[Origin(|adj|, x, y)]
    ensures forall s :: s in adj[Origin(|adj|, x, y)] && s.0 != x ==>
      (if s.0 == |adj| - 1 then x else s.0, s.1) in RemoveNodeState(adj, x)[y]
  {
    var n := |adj|;
    var o := Origin(n, x, y);
    assert MoveLast(StripAll(adj, x), x)[y] == RemoveEntry(adj[o], x);
    assert RemoveNodeState(adj, x)[y] == Rename(RemoveEntry(adj[o], x), n - 1, x);
    assert Distinct(adj[o]);
    RenameRemoveValues(adj[o], x, n - 1);
  }

  /** One list through the strip and the retarget pass: a kept slot is an
      old slot with the old last id renamed to x, and every old slot not
      pointing at x is kept under its new id. */
  lemma RenameRemoveValues<E>(l0: seq<Slot<E>>, x: nat, lid: nat)
    requires Distinct(l0) && x <= lid
    ensures forall s :: s in Rename(RemoveEntry(l0, x), lid, x) ==> (if s.0 == x then lid else s.0, s.1) in l0
    ensures forall s :: s in l0 && s.0 != x ==> (if s.0 == lid then x else s.0, s.1) in Rename(RemoveEntry(l0, x), lid, x)
  {
    var l := RemoveEntry(l0, x);
    var r := Rename(l, lid, x);
    RemoveEntryFacts(l0, x);
    forall s | s in r ensures (if s.0 == x then lid else s.0, s.1) in l0 {
      var i :| 0 <= i < |r| && r[i] == s;
      var t := l[i];
      assert t in l && Ids(l)[i] == t.0;
      if t.0 == lid {
        assert s == (x, t.1);
      } else {
        assert s == t;
      }
    }
    forall s | s in l0 && s.0 != x ensures (if s.0 == lid then x else s.0, s.1) in r {
      RemoveEntryKeepsSlot(l0, x, s);
      var i :| 0 <= i < |l| && l[i] == s;
      assert r[i] == (if s.0 == lid then x else s.0, s.1);
    }
  }

  /** remove_node keeps the invariant, and the edges between surviving nodes
      are the old ones renamed: y and z are linked exactly when their origins were. */
  lemma RemoveNodeStateFacts<E>(adj: Table<E>, x: nat)
    requires WellFormed(adj) && x < |adj|
    ensures |RemoveNodeState(adj, x)| == |adj| - 1
    ensures WellFormed(RemoveNodeState(adj, x))
    ensures forall y, z :: 0 <= y < |adj| - 1 && 0 <= z < |adj| - 1 ==>
      (HasEdge(RemoveNodeState(adj, x), y, z) <==> HasEdge(adj, Origin(|adj|, x, y), Origin(|adj|, x, z)))
  {
    var r := RemoveNodeState(adj, x);
    var n := |adj|;
    RemoveNodeWellFormed(adj, x);
    forall y, z | 0 <= y < n - 1 && 0 <= z < n - 1
      ensures HasEdge(r, y, z) <==> HasEdge(adj, Origin(n, x, y), Origin(n, x, z))
    {
      RemoveNodeIds(adj, x, y);
    }
  }

  /** remove_node keeps the container's invariant. */
  lemma RemoveNodeWellFormed<E>(adj: Table<E>, x: nat)
    requires WellFormed(adj) && x < |adj|
    ensures |RemoveNodeState(adj, x)| == |adj| - 1
    ensures WellFormed(RemoveNodeState(adj, x))
  {
    var r := RemoveNodeState(adj, x);
    var n := |adj|;
    assert |r| == n - 1;
    assert NoDuplicates(r) by {
      forall y: nat | y < n - 1 ensures Distinct(r[y]) {
        RemoveNodeIds(adj, x, y);
      }
    }
    RemoveNodeLinks(adj, x);
    LinksOkIsWellFormed(r);
  }

  lemma RemoveNodeLinks<E>(adj: Table<E>, x: nat)
    requires WellFormed(adj) && x < |adj|
    ensures LinksOk(RemoveNodeState(adj, x))
  {
    var r := RemoveNodeState(adj, x);
    assert |r| == |adj| - 1;
    forall y: nat | y < |r| ensures forall z: nat :: z in Ids(r[y]) ==> z < |r| && z != y && y in Ids(r[z]) {
      RemoveNodeLink(adj, x, y);
    }
  }

  lemma RemoveNodeLink<E>(adj: Table<E>, x: nat, y: nat)
    requires WellFormed(adj) && x < |adj| && y < |adj| - 1
    ensures forall z: nat :: z in Ids(RemoveNodeState(adj, x)[y]) ==>
      z < |adj| - 1 && z != y && y in Ids(RemoveNodeState(adj, x)[z])
  {
    var n := |adj|;
    WellFormedLinksOk(adj);
    RemoveNodeIds(adj, x, y);
    forall z: nat | z in Ids(RemoveNodeState(adj, x)[y])
      ensures z < |adj| - 1 && z != y && y in Ids(RemoveNodeState(adj, x)[z])
    {
      RemoveNodeIds(adj, x, z);
      LinksOkAt(adj, Origin(n, x, y), Origin(n, x, z));
    }
  }

  /** The first loop of remove_node drops one slot per neighbour of x, and none of x's own. */
  lemma StripAllSlots<E>(adj: Table<E>, x: nat)
    requires WellFormed(adj) && x < |adj|
    ensures TotalSlots(StripAll(adj, x)) + |adj[x]| == TotalSlots(adj)
    ensures |StripAll(adj, x)[x]| == |adj[x]|
  {
    StripAllTotal(adj, x, 0);
    OccurrencesIsDegree(adj, x);
    WellFormedLinksOk(adj);
    RemoveEntryFacts(adj[x], x);
  }

  /** Moving the last list into position x loses exactly the slots of list x. */
  lemma MoveLastSlots<E>(s: Table<E>, x: nat)
    requires x < |s|
    ensures TotalSlots(MoveLast(s, x)) + |s[x]| == TotalSlots(s)
  {
    var n := |s|;
    var u := s[x := s[n - 1]];
    SumUpdate(s, Len, 0, x, s[n - 1]);
    assert u[n - 1] == s[n - 1];
    assert MoveLast(s, x) == u[..n - 1];
    SumDropLast(u, Len, 0);
  }

  /** Renaming ids keeps every list's length. */
  lemma RenameAllSlots<E>(adj: Table<E>, from: nat, to: nat)
    ensures TotalSlots(RenameAll(adj, from, to)) == TotalSlots(adj)
  {
    SumSame(RenameAll(adj, from, to), adj, Len, 0);
  }

  /** remove_node(x) removes the 2 * degree(x) slots of x's edges: num_edges drops by degree(x). */
  lemma RemoveNodeStateCount<E>(adj: Table<E>, x: nat)
    requires WellFormed(adj) && x < |adj|
    ensures TotalSlots(RemoveNodeState(adj, x)) == TotalSlots(adj) - 2 * |adj[x]|
    ensures NumEdges(RemoveNodeState(adj, x)) == NumEdges(adj) - |adj[x]|
  {
    var s := StripAll(adj, x);
    StripAllSlots(adj, x);
    MoveLastSlots(s, x);
    RenameAllSlots(MoveLast(s, x), |adj| - 1, x);
    var total := TotalSlots(RemoveNodeState(adj, x));
    assert total == TotalSlots(adj) - 2 * |adj[x]|;
    EdgeCount(adj);
    HalfDifference(TotalSlots(adj), CanonicalSlots(adj), |adj[x]|);
  }

  lemma HalfDifference(t: nat, c: nat, d: nat)
    requires t == 2 * c && 2 * d <= t
    ensures (t - 2 * d) / 2 == t / 2 - d
  {
  }

  /** Moving the last element into position x keeps every other element at
      its place, and puts the old last element at x. */
  lemma MoveLastFacts<T>(s: seq<T>, x: nat)
    requires x < |s|
    ensures |MoveLast(s, x)| == |s| - 1
    ensures forall y :: 0 <= y < |s| - 1 ==> MoveLast(s, x)[y] == s[Origin(|s|, x, y)]
  {
  }

  lemma RenameAbsent<E>(l: seq<Slot<E>>, from: nat, to: nat)
    requires from !in Ids(l)
    ensures Rename(l, from, to) == l
  {
    forall i | 0 <= i < |l| ensures l[i].0 != from {
      SlotInIds(l, i);
    }
  }

  /** Only the neighbours of x hold a slot pointing at x, so the strip loop of
      remove_node, which visits x's neighbours only, strips every list. */
  lemma StripTargets<E>(adj: Table<E>, x: nat, o: nat)
    requires WellFormed(adj) && x < |adj| && o < |adj| && o !in Ids(adj[x])
    ensures RemoveEntry(adj[o], x) == adj[o]
  {
    WellFormedLinksOk(adj);
    if x in Ids(adj[o]) {
      LinksOkAt(adj, o, x);
    }
    RemoveEntryFacts(adj[o], x);
  }

  /** What the retargeting loop of remove_node needs of the table it runs
      on: x's list is distinct and names surviving ids other than x, and
      only those neighbours' lists hold a slot for `from`. */
  predicate RetargetReady<E>(adj: Table<E>, x: nat, from: nat) {
    x < |adj| && Distinct(adj[x]) &&
    (forall z :: z in Ids(adj[x]) ==> z < |adj| && z != x) &&
    (forall o :: 0 <= o < |adj| && o !in Ids(adj[x]) ==> from !in Ids(adj[o]))
  }

  /** After the strip and the move of the last list into position x, the
      lists holding the old last id are exactly those of x's new neighbours,
      and those neighbours are surviving ids other than x. */
  lemma RetargetPrecondition<E>(adj: Table<E>, x: nat)
    requires WellFormed(adj) && x < |adj| - 1
    ensures |MoveLast(StripAll(adj, x), x)| == |adj| - 1
    ensures RetargetReady(MoveLast(StripAll(adj, x), x), x, |adj| - 1)
  {
    MoveLastAt(StripAll(adj, x), x, x);
    MovedHeadInRange(adj, x);
    MovedHeadAbsent(adj, x);
  }

  /** The list moved into position x is the old last list without x's slot:
      distinct, and every id in it is a surviving id other than x. */
  lemma MovedHeadInRange<E>(adj: Table<E>, x: nat)
    requires WellFormed(adj) && x < |adj| - 1
    ensures Distinct(MoveLast(StripAll(adj, x), x)[x])
    ensures forall z :: z in Ids(MoveLast(StripAll(adj, x), x)[x]) ==> z < |adj| - 1 && z != x
  {
    var lid := |adj| - 1;
    var l := RemoveEntry(adj[lid], x);
    MoveLastAt(StripAll(adj, x), x, x);
    assert MoveLast(StripAll(adj, x), x)[x] == l;
    assert Distinct(adj[lid]);
    RemoveEntryFacts(adj[lid], x);
    WellFormedLinksOk(adj);
    forall z | z in Ids(l) ensures z < lid && z != x {
      LinksOkAt(adj, lid, z);
    }
  }

  /** Only lists of the moved node's neighbours hold a slot for the old last id. */
  lemma MovedHeadAbsent<E>(adj: Table<E>, x: nat)
    requires WellFormed(adj) && x < |adj| - 1
    ensures forall o :: 0 <= o < |adj| - 1 && o !in Ids(MoveLast(StripAll(adj, x), x)[x]) ==>
      |adj| - 1 !in Ids(MoveLast(StripAll(adj, x), x)[o])
  {
    var lid := |adj| - 1;
    var m := MoveLast(StripAll(adj, x), x);
    forall o | 0 <= o < lid && o !in Ids(m[x]) ensures lid !in Ids(m[o]) {
      if o != x {
        assert Distinct(adj[o]) && Distinct(adj[lid]);
        HasEdgeSymmetric(adj, o, lid);
        MovedAbsentAt(adj, x, o);
      }
    }
  }

  /** For one list o other than x: a slot for the old last id survives the
      strip and move only when the moved list holds o. */
  lemma MovedAbsentAt<E>(adj: Table<E>, x: nat, o: nat)
    requires x < |adj| - 1 && o < |adj| - 1 && o != x
    requires Distinct(adj[o]) && Distinct(adj[|adj| - 1])
    requires |adj| - 1 in Ids(adj[o]) ==> o in Ids(adj[|adj| - 1])
    ensures |adj| - 1 in Ids(MoveLast(StripAll(adj, x), x)[o]) ==> o in Ids(MoveLast(StripAll(adj, x), x)[x])
  {
    MovedLists(adj, x, o);
    RemoveEntryKeeps(adj[o], x, |adj| - 1);
    RemoveEntryKeeps(adj[|adj| - 1], x, o);
  }

  /** The lists at o and at x after the strip and move. */
  lemma MovedLists<E>(adj: Table<E>, x: nat, o: nat)
    requires x < |adj| - 1 && o < |adj| - 1 && o != x
    ensures MoveLast(StripAll(adj, x), x)[o] == RemoveEntry(adj[o], x)
    ensures MoveLast(StripAll(adj, x), x)[x] == RemoveEntry(adj[|adj| - 1], x)
  {
    MoveLastAt(StripAll(adj, x), x, x);
    MoveLastAt(StripAll(adj, x), x, o);
  }

  /** Removing x's slot keeps every other neighbour. */
  lemma RemoveEntryKeeps<E>(l: seq<Slot<E>>, x: nat, y: nat)
    requires Distinct(l) && y != x
    ensures y in Ids(RemoveEntry(l, x)) <==> y in Ids(l)
  {
    RemoveEntryFacts(l, x);
  }

  lemma MoveLastAt<T>(s: seq<T>, x: nat, y: nat)
    requires x < |s| && y < |s| - 1
    ensures |MoveLast(s, x)| == |s| - 1 && MoveLast(s, x)[y] == s[Origin(|s|, x, y)]
  {
  }

  /** A scan that met no slot pointing at b shows that b is not a neighbour. */
  lemma ScannedAbsent<E>(l: seq<Slot<E>>, b: nat)
    requires forall j :: 0 <= j < |l| ==> l[j].0 != b
    ensures b !in Ids(l)
  {
  }

  /** The table after the strip loop of remove_node has visited the first i
      neighbours of x: one strip per visited neighbour, in list order. */
  function PartialStrip<E>(adj: Table<E>, x: nat, i: nat): Table<E>
    requires x < |adj| && i <= |adj[x]|
    decreases i
  {
    if i == 0 then adj
    else
      var p := PartialStrip(adj, x, i - 1);
      var oid := adj[x][i - 1].0;
      if oid < |p| then p[oid := RemoveEntry(p[oid], x)] else p
  }

  /** The i-th neighbour of x is a surviving id other than x that has not
      been visited before. */
  lemma NeighbourAt<E>(l: seq<Slot<E>>, x: nat, n: nat, i: nat)
    requires Distinct(l) && i < |l|
    requires forall z :: z in Ids(l) ==> z < n && z != x
    ensures l[i].0 < n && l[i].0 != x
    ensures l[i].0 !in Ids(l)[..i] && x !in Ids(l)[..i + 1]
    ensures Ids(l)[..i + 1] == Ids(l)[..i] + [l[i].0]
  {
    SlotInIds(l, i);
    var pre := Ids(l)[..i + 1];
    forall j | 0 <= j < |pre| ensures pre[j] != x {
      assert pre[j] == Ids(l)[j];
      assert Ids(l)[j] in Ids(l);
    }
  }

  lemma NeighboursInRange<E>(adj: Table<E>, x: nat)
    requires WellFormed(adj) && x < |adj|
    ensures Distinct(adj[x])
    ensures forall z :: z in Ids(adj[x]) ==> z < |adj| && z != x
  {
    WellFormedLinksOk(adj);
    forall z | z in Ids(adj[x]) ensures z < |adj| && z != x {
      LinksOkAt(adj, x, z);
    }
  }

  lemma SameEntries<T>(p: seq<T>, f: seq<T>)
    requires |p| == |f| && forall o :: 0 <= o < |p| ==> p[o] == f[o]
    ensures p == f
  {
  }

  lemma StripAllAt<E>(adj: Table<E>, x: nat, o: nat)
    requires o < |adj|
    ensures |StripAll(adj, x)| == |adj| && StripAll(adj, x)[o] == RemoveEntry(adj[o], x)
  {
  }

  lemma PartialStripUnfold<E>(adj: Table<E>, x: nat, i: nat)
    requires x < |adj| && 0 < i <= |adj[x]| && adj[x][i - 1].0 < |PartialStrip(adj, x, i - 1)|
    ensures PartialStrip(adj, x, i) ==
      PartialStrip(adj, x, i - 1)[adj[x][i - 1].0 := RemoveEntry(PartialStrip(adj, x, i - 1)[adj[x][i - 1].0], x)]
  {
  }

  /** After visiting i neighbours, exactly the visited neighbours' lists are stripped. */
  lemma {:induction false} PartialStripAt<E>(adj: Table<E>, x: nat, i: nat)
    requires x < |adj| && i <= |adj[x]| && Distinct(adj[x])
    requires forall z :: z in Ids(adj[x]) ==> z < |adj| && z != x
    ensures |PartialStrip(adj, x, i)| == |adj|
    ensures forall o :: 0 <= o < |adj| ==>
      PartialStrip(adj, x, i)[o] == (if o in Ids(adj[x])[..i] then StripAll(adj, x)[o] else adj[o])
    decreases i
  {
    if i > 0 {
      NeighbourAt(adj[x], x, |adj|, i - 1);
      var oid := adj[x][i - 1].0;
      var f := StripAll(adj, x);
      StripAllAt(adj, x, oid);
      PartialStripAt(adj, x, i - 1);
      var p := PartialStrip(adj, x, i - 1);
      PartialStripUnfold(adj, x, i);
      assert p[oid] == adj[oid];
      RefreshAt(p, adj, f, Ids(adj[x])[..i - 1], oid);
    }
  }

  /** Overwriting one more untouched entry with its final value extends the
      set of finished entries by that one. */
  lemma RefreshAt<T>(p: seq<T>, base: seq<T>, f: seq<T>, pre: seq<nat>, oid: nat)
    requires |p| == |base| == |f| && oid < |p| && oid !in pre
    requires forall o :: 0 <= o < |p| ==> p[o] == (if o in pre then f[o] else base[o])
    ensures forall o :: 0 <= o < |p| ==> p[oid := f[oid]][o] == (if o in pre + [oid] then f[o] else base[o])
  {
    forall o | 0 <= o < |p| ensures p[oid := f[oid]][o] == (if o in pre + [oid] then f[o] else base[o]) {
      assert o in pre + [oid] <==> o in pre || o == oid;
    }
  }

  /** What one step of the strip loop needs: the next neighbour's list is
      in range, untouched so far and distinct; x's own list is untouched. */
  lemma PartialStripStep<E>(adj: Table<E>, x: nat, i: nat)
    requires WellFormed(adj) && x < |adj| && i < |adj[x]|
    ensures |PartialStrip(adj, x, i)| == |adj|
    ensures adj[x][i].0 < |adj| && adj[x][i].0 != x
    ensures PartialStrip(adj, x, i)[adj[x][i].0] == adj[adj[x][i].0]
    ensures Distinct(adj[adj[x][i].0])
    ensures PartialStrip(adj, x, i)[x] == adj[x]
    ensures PartialStrip(adj, x, i + 1) ==
      PartialStrip(adj, x, i)[adj[x][i].0 := RemoveEntry(adj[adj[x][i].0], x)]
  {
    NeighboursInRange(adj, x);
    PartialStripAt(adj, x, i);
    NeighbourAt(adj[x], x, |adj|, i);
  }

  /** The strip loop ends with every list stripped. */
  lemma PartialStripEnds<E>(adj: Table<E>, x: nat)
    requires WellFormed(adj) && x < |adj|
    ensures PartialStrip(adj, x, |adj[x]|) == StripAll(adj, x)
  {
    NeighboursInRange(adj, x);
    PartialStripAt(adj, x, |adj[x]|);
    var p := PartialStrip(adj, x, |adj[x]|);
    var f := StripAll(adj, x);
    var ids := Ids(adj[x]);
    assert ids[..|adj[x]|] == ids;
    forall o | 0 <= o < |adj| ensures p[o] == f[o] {
      if o !in ids {
        StripTargets(adj, x, o);
        StripAllAt(adj, x, o);
      }
    }
    SameEntries(p, f);
  }

  /** The table after the retargeting loop of remove_node has visited the
      first k neighbours of x. */
  function PartialRename<E>(adj: Table<E>, x: nat, from: nat, k: nat): Table<E>
    requires x < |adj| && k <= |adj[x]|
    decreases k
  {
    if k == 0 then adj
    else
      var p := PartialRename(adj, x, from, k - 1);
      var loid := adj[x][k - 1].0;
      if loid < |p| then p[loid := Rename(p[loid], from, x)] else p
  }

  /** After visiting k neighbours, exactly the visited neighbours' lists are renamed. */
  lemma {:induction false} PartialRenameAt<E>(adj: Table<E>, x: nat, from: nat, k: nat)
    requires x < |adj| && k <= |adj[x]| && Distinct(adj[x])
    requires forall z :: z in Ids(adj[x]) ==> z < |adj| && z != x
    ensures |PartialRename(adj, x, from, k)| == |adj|
    ensures forall o :: 0 <= o < |adj| ==>
      PartialRename(adj, x, from, k)[o] == (if o in Ids(adj[x])[..k] then Rename(adj[o], from, x) else adj[o])
    decreases k
  {
    if k > 0 {
      PartialRenameAt(adj, x, from, k - 1);
      NeighbourAt(adj[x], x, |adj|, k - 1);
    }
  }

  /** What one step of the retargeting loop needs. */
  lemma PartialRenameStep<E>(adj: Table<E>, x: nat, from: nat, k: nat)
    requires x < |adj| && k < |adj[x]| && Distinct(adj[x])
    requires forall z :: z in Ids(adj[x]) ==> z < |adj| && z != x
    ensures |PartialRename(adj, x, from, k)| == |adj|
    ensures adj[x][k].0 < |adj| && adj[x][k].0 != x
    ensures PartialRename(adj, x, from, k)[adj[x][k].0] == adj[adj[x][k].0]
    ensures PartialRename(adj, x, from, k)[x] == adj[x]
  {
    PartialRenameAt(adj, x, from, k);
    NeighbourAt(adj[x], x, |adj|, k);
  }

  /** When only x's neighbours hold `from`, the retargeting loop ends with
      every list renamed. */
  lemma PartialRenameEnds<E>(adj: Table<E>, x: nat, from: nat)
    requires RetargetReady(adj, x, from)
    ensures PartialRename(adj, x, from, |adj[x]|) == RenameAll(adj, from, x)
  {
    PartialRenameAt(adj, x, from, |adj[x]|);
    assert Ids(adj[x])[..|adj[x]|] == Ids(adj[x]);
    forall o | 0 <= o < |adj| ensures PartialRename(adj, x, from, |adj[x]|)[o] == RenameAll(adj, from, x)[o] {
      if o !in Ids(adj[x]) {
        RenameAbsent(adj[o], from, x);
      }
    }
  }

  lemma RenameAllSelf<E>(adj: Table<E>, x: nat)
    ensures RenameAll(adj, x, x) == adj
  {
    forall o | 0 <= o < |adj| ensures Rename(adj[o], x, x) == adj[o] {
      RenameSelf(adj[o], x);
    }
  }
}
