/** The graph container (Graph<V, E> of Graph.hpp) and its three iterators.
    The container owns two index-aligned sequences: `nodes`, a (position,
    value) pair per node id, and `adj`, the per-node lists of (neighbour id,
    edge value) slots in which every logical edge appears once at each end.
    Every mutation is stated against the table function of Adjacency that
    specifies it, and the edge iterator against the positions of EdgeWalk;
    the properties of those functions are proved there. */
module Graphs {
  import opened SeqSets
  import opened Adjacency
  import opened Handles
  import opened EdgeWalk

  class Graph<P, V, E> {
    /** Stands for the container's address (`graph_` in the handles). */
    const gid: nat
    /** node_value_type() and edge_value_type(). */
    const vDefault: V
    const eDefault: E
    /** nodes_ */
    var nodes: seq<(P, V)>
    /** adjacency_ */
    var adj: Table<E>

    /** Ids are dense and index both sequences; the table is well formed. */
    ghost predicate Valid()
      reads this
    {
      |nodes| == |adj| && WellFormed(adj)
    }

    /** Graph(): no nodes and no edges. */
    constructor (gid: nat, vDefault: V, eDefault: E)
      ensures Valid()
      ensures this.gid == gid && this.vDefault == vDefault && this.eDefault == eDefault
      ensures nodes == [] && adj == []
    {
      this.gid := gid;
      this.vDefault := vDefault;
      this.eDefault := eDefault;
      nodes := [];
      adj := [];
    }

    /** size() and num_nodes(). */
    function Size(): nat
      reads this
    {
      |nodes|
    }

    /** has_node: the handle names this container and an id in range. */
    predicate HasNode(n: Node)
      reads this
    {
      n.gid == gid && n.id < |nodes|
    }

    /** node(i) */
    function NodeAt(i: nat): Node
      reads this
      requires i < |nodes|
    {
      Node(gid, i)
    }

    /** Node::degree */
    function Degree(n: Node): nat
      reads this
      requires n.gid == gid && n.id < |adj|
    {
      |adj[n.id]|
    }

    /** Node::value and Node::position, read side. */
    function Value(n: Node): V
      reads this
      requires n.gid == gid && n.id < |nodes|
    {
      nodes[n.id].1
    }

    function Position(n: Node): P
      reads this
      requires n.gid == gid && n.id < |nodes|
    {
      nodes[n.id].0
    }

    /** add_node(position, value): push a record and an empty list. */
    method AddNodeWithValue(position: P, value: V) returns (n: Node)
      requires Valid()
      modifies this
      ensures Valid()
      ensures nodes == old(nodes) + [(position, value)]
      ensures adj == AddNodeState(old(adj))
      ensures n == Node(gid, old(|nodes|)) && HasNode(n) && Degree(n) == 0 && Value(n) == value
      ensures NumEdges(adj) == NumEdges(old(adj))
      ensures forall x, y :: 0 <= x < old(|adj|) ==> (HasEdge(adj, x, y) <==> HasEdge(old(adj), x, y))
    {
      AddNodeStateFacts(adj);
      nodes := nodes + [(position, value)];
      adj := adj + [[]];
      n := Node(gid, |nodes| - 1);
    }

    /** add_node(position): the value is node_value_type(). */
    method AddNode(position: P) returns (n: Node)
      requires Valid()
      modifies this
      ensures Valid()
      ensures nodes == old(nodes) + [(position, vDefault)]
      ensures adj == AddNodeState(old(adj))
      ensures n == Node(gid, old(|nodes|)) && HasNode(n) && Degree(n) == 0 && Value(n) == vDefault
      ensures NumEdges(adj) == NumEdges(old(adj))
      ensures forall x, y :: 0 <= x < old(|adj|) ==> (HasEdge(adj, x, y) <==> HasEdge(old(adj), x, y))
    {
      n := AddNodeWithValue(position, vDefault);
    }

    /** Node::value as an lvalue. */
    method SetValue(n: Node, v: V)
      requires n.gid == gid && n.id < |nodes|
      modifies this
      ensures nodes == old(nodes)[n.id := (old(nodes)[n.id].0, v)]
      ensures adj == old(adj)
    {
      nodes := nodes[n.id := (nodes[n.id].0, v)];
    }

    /** Node::position as an lvalue. */
    method SetPosition(n: Node, p: P)
      requires n.gid == gid && n.id < |nodes|
      modifies this
      ensures nodes == old(nodes)[n.id := (p, old(nodes)[n.id].1)]
      ensures adj == old(adj)
    {
      nodes := nodes[n.id := (p, nodes[n.id].1)];
    }

    /** Edge::value as an lvalue: only this slot's copy is written. */
    method SetEdgeValue(e: Edge, v: E)
      requires Valid() && ValidEdge(adj, e)
      modifies this
      ensures Valid() && nodes == old(nodes)
      ensures adj == WithEdgeValue(old(adj), e, v)
    {
      WithEdgeValueFacts(adj, e, v);
      adj := adj[e.node1 := adj[e.node1][e.slot := (adj[e.node1][e.slot].0, v)]];
    }

    /** has_edge: scan a's list for b. */
    method AreAdjacent(a: Node, b: Node) returns (r: bool)
      requires Valid() && HasNode(a) && HasNode(b)
      ensures r <==> HasEdge(adj, a.id, b.id)
      ensures r <==> HasEdge(adj, b.id, a.id)
    {
      HasEdgeSymmetric(adj, a.id, b.id);
      var deg := |adj[a.id]|;
      var i := 0;
      while i < deg
        invariant 0 <= i <= deg
        invariant forall j :: 0 <= j < i ==> adj[a.id][j].0 != b.id
      {
        if adj[a.id][i].0 == b.id {
          SlotInIds(adj[a.id], i);
          return true;
        }
        i := i + 1;
      }
      ScannedAbsent(adj[a.id], b.id);
      return false;
    }

    /** num_edges: the total list length, halved; on a well-formed table this
        is the number of unordered adjacent pairs. */
    method CountEdges() returns (m: nat)
      requires Valid()
      ensures m == NumEdges(adj)
      ensures m == |EdgeSet(adj)|
    {
      var total := 0;
      var i := 0;
      while i < |adj|
        invariant 0 <= i <= |adj|
        invariant total + SumFrom(adj, Len, i) == TotalSlots(adj)
      {
        total := total + |adj[i]|;
        i := i + 1;
      }
      EdgeCount(adj);
      m := total / 2;
    }

    /** edge(i) advanced from the fixed begin (EdgeWalk.EdgeBegin): the handle
        i increments past it, which is the i-th edge of the iteration order, a
        valid slot with node1 < node2. The source advances the unfixed begin
        instead; EdgeWalk.EdgeIndexAsWrittenShifted states what that returns. */
    method EdgeByIndex(i: nat) returns (e: Edge)
      requires Valid() && i < NumEdges(adj)
      ensures |Walk(adj, 0, 0)| == NumEdges(adj)
      ensures e == Deref(gid, Walk(adj, 0, 0)[i])
      ensures ValidEdge(adj, e) && e.gid == gid && e.node1 < Node2Id(adj, e)
    {
      var it := EdgeBegin();
      var k := 0;
      while k < i
        invariant k <= i && it.g == this
        invariant (it.center, it.outid) == Iterate(adj, EdgeWalk.EdgeBegin(adj), k)
      {
        IterateStep(adj, EdgeWalk.EdgeBegin(adj), k);
        it.Next();
        k := k + 1;
      }
      ghost var w := Walk(adj, 0, 0);
      EdgeIteration(adj);
      assert (it.center, it.outid) == w[i];
      WalkMembers(adj, 0, 0);
      assert w[i] in w && Canonical(adj, w[i]);
      e := it.Current();
    }

    /** add_edge: return the existing slot a -> b if there is one; otherwise
        append (b, default) to a's list and (a, default) to b's list and
        return the new slot in a's list. */
    method AddEdge(a: Node, b: Node) returns (e: Edge)
      requires Valid() && HasNode(a) && HasNode(b) && a.id != b.id
      modifies this
      ensures Valid() && nodes == old(nodes)
      ensures HasEdge(old(adj), a.id, b.id) ==> adj == old(adj)
      ensures !HasEdge(old(adj), a.id, b.id) ==> adj == AddEdgeState(old(adj), a.id, b.id, eDefault)
      ensures ValidEdge(adj, e) && e.gid == gid && e.node1 == a.id && Node2Id(adj, e) == b.id
      ensures HasEdge(adj, a.id, b.id) && HasEdge(adj, b.id, a.id)
      ensures NumEdges(adj) == NumEdges(old(adj)) + (if HasEdge(old(adj), a.id, b.id) then 0 else 1)
      ensures forall x, y :: 0 <= x < |adj| ==>
        (HasEdge(adj, x, y) <==> HasEdge(old(adj), x, y) || (x == a.id && y == b.id) || (x == b.id && y == a.id))
    {
      var aid := a.id;
      var bid := b.id;
      HasEdgeSymmetric(adj, aid, bid);
      var deg := |adj[aid]|;
      var i := 0;
      while i < deg
        invariant 0 <= i <= deg
        invariant forall j :: 0 <= j < i ==> adj[aid][j].0 != bid
      {
        if adj[aid][i].0 == bid {
          SlotInIds(adj[aid], i);
          return Edge(gid, aid, i);
        }
        i := i + 1;
      }
      ScannedAbsent(adj[aid], bid);
      AddEdgeStateFacts(adj, aid, bid, eDefault);
      AddEdgeStateCount(adj, aid, bid, eDefault);
      AppendIds(adj[aid], (bid, eDefault));
      adj := adj[aid := adj[aid] + [(bid, eDefault)]];
      adj := adj[bid := adj[bid] + [(aid, eDefault)]];
      e := Edge(gid, aid, |adj[aid]| - 1);
    }

    /** One scan of remove_edge and remove_node: for each index i, if slot i
        points at `target`, overwrite it with the last slot and pop the last. */
    method StripEntry(owner: nat, target: nat)
      requires owner < |adj| && Distinct(adj[owner])
      modifies this
      ensures adj == old(adj)[owner := RemoveEntry(old(adj)[owner], target)]
      ensures nodes == old(nodes)
    {
      ghost var l := adj[owner];
      ghost var k := Find(l, target, 0);
      RemoveEntryFacts(l, target);
      var i := 0;
      while i < |adj[owner]|
        invariant |adj| == |old(adj)|
        invariant forall o :: 0 <= o < |adj| && o != owner ==> adj[o] == old(adj)[o]
        invariant i <= k ==> adj[owner] == l
        invariant k < i ==> k < |l| && adj[owner] == RemoveEntry(l, target)
        invariant i <= |adj[owner]| + 1
        invariant nodes == old(nodes)
        decreases |adj[owner]| + 1 - i
      {
        if adj[owner][i].0 == target {
          if k < i {
            SlotInIds(adj[owner], i);
          }
          var m := adj[owner];
          adj := adj[owner := m[i := m[|m| - 1]][..|m| - 1]];
        }
        i := i + 1;
      }
      if i <= k {
        FindIn(l, target);
      }
    }

    /** remove_edge(a, b): false and no change without an edge; otherwise both
        slots are swap-popped and the result is !has_edge(a, b). */
    method RemoveEdge(a: Node, b: Node) returns (r: bool)
      requires Valid() && HasNode(a) && HasNode(b)
      modifies this
      ensures Valid() && nodes == old(nodes)
      ensures r == HasEdge(old(adj), a.id, b.id)
      ensures !r ==> adj == old(adj)
      ensures r ==> adj == RemoveEdgeState(old(adj), a.id, b.id)
      ensures !HasEdge(adj, a.id, b.id) && !HasEdge(adj, b.id, a.id)
      ensures NumEdges(adj) == NumEdges(old(adj)) - (if r then 1 else 0)
      ensures forall o :: 0 <= o < |adj| && o != a.id && o != b.id ==> adj[o] == old(adj)[o]
      ensures forall x, y :: 0 <= x < |adj| ==>
        (HasEdge(adj, x, y) <==> HasEdge(old(adj), x, y) && !(x == a.id && y == b.id) && !(x == b.id && y == a.id))
    {
      var present := AreAdjacent(a, b);
      if !present {
        return false;
      }
      HasEdgeSymmetric(adj, a.id, b.id);
      RemoveEdgeStateFacts(adj, a.id, b.id);
      RemoveEdgeStateCount(adj, a.id, b.id);
      StripEntry(a.id, b.id);
      StripEntry(b.id, a.id);
      var still := AreAdjacent(a, b);
      r := !still;
    }

    /** remove_edge(Edge): remove_edge(e.node1(), e.node2()). */
    method RemoveEdgeHandle(e: Edge) returns (r: bool)
      requires Valid() && e.gid == gid && ValidEdge(adj, e)
      modifies this
      ensures Valid() && nodes == old(nodes)
      ensures r
      ensures adj == RemoveEdgeState(old(adj), e.node1, Node2Id(old(adj), e))
      ensures NumEdges(adj) == NumEdges(old(adj)) - 1
    {
      SlotInIds(adj[e.node1], e.slot);
      DualFacts(adj, e);
      r := RemoveEdge(Node1(e), Node2(adj, e));
    }

    /** remove_edge(edge_iterator): remove the edge under a copy of the
        iterator, fix the copy against the new table and return it. */
    method RemoveEdgeAt(it: EdgeIterator<P, V, E>) returns (r: EdgeIterator<P, V, E>)
      requires Valid() && it.g == this && ValidEdge(adj, it.Current())
      modifies this
      ensures Valid() && nodes == old(nodes)
      ensures adj == RemoveEdgeState(old(adj), it.center, Node2Id(old(adj), it.Current()))
      ensures fresh(r) && r.g == this
      ensures (r.center, r.outid) == FixPos(adj, it.center, it.outid)
    {
      var e := it.Current();
      var _ := RemoveEdgeHandle(e);
      r := new EdgeIterator(this, it.center, it.outid);
      r.Fix();
    }

    /** The first loop of remove_node: x's slot is stripped from the list of
        each of x's neighbours, which are the only lists that hold one. */
    method StripNeighbours(x: nat)
      requires WellFormed(adj) && x < |adj|
      modifies this
      ensures adj == StripAll(old(adj), x)
      ensures nodes == old(nodes)
    {
      ghost var adj0 := adj;
      PartialStripEnds(adj0, x);
      var i := 0;
      while i < |adj[x]|
        invariant 0 <= i <= |adj0[x]|
        invariant adj == PartialStrip(adj0, x, i) && nodes == old(nodes)
        invariant |adj| == |adj0| && adj[x] == adj0[x]
        decreases |adj0[x]| - i
      {
        PartialStripStep(adj0, x, i);
        var oid := adj[x][i].0;
        assert oid == adj0[x][i].0;
        StripEntry(oid, x);
        i := i + 1;
      }
    }

    /** One inner loop of remove_node's second pass: every slot of `owner`
        pointing at `from` is made to point at `to`. */
    method RetargetEntries(owner: nat, from: nat, to: nat)
      requires owner < |adj|
      modifies this
      ensures adj == old(adj)[owner := Rename(old(adj)[owner], from, to)]
      ensures nodes == old(nodes)
    {
      ghost var l := adj[owner];
      var j := 0;
      while j < |adj[owner]|
        invariant 0 <= j <= |l|
        invariant |adj| == |old(adj)| && |adj[owner]| == |l| && nodes == old(nodes)
        invariant forall o :: 0 <= o < |adj| && o != owner ==> adj[o] == old(adj)[o]
        invariant forall k :: 0 <= k < |l| ==>
          adj[owner][k] == (if k < j && l[k].0 == from then (to, l[k].1) else l[k])
      {
        if adj[owner][j].0 == from {
          adj := adj[owner := adj[owner][j := (to, adj[owner][j].1)]];
        }
        j := j + 1;
      }
      assert adj[owner] == Rename(l, from, to);
    }

    /** The second loop of remove_node: in the list of each of x's
        neighbours, `from` (the old last id) is retargeted to x. */
    method RetargetNeighbours(x: nat, from: nat)
      requires RetargetReady(adj, x, from)
      modifies this
      ensures adj == RenameAll(old(adj), from, x)
      ensures nodes == old(nodes)
    {
      ghost var m := adj;
      PartialRenameEnds(m, x, from);
      var k := 0;
      while k < |adj[x]|
        invariant |adj| == |m| && 0 <= k <= |m[x]|
        invariant adj == PartialRename(m, x, from, k) && nodes == old(nodes)
        invariant |adj| == |m| && adj[x] == m[x]
        decreases |m[x]| - k
      {
        PartialRenameStep(m, x, from, k);
        var loid := adj[x][k].0;
        RetargetEntries(loid, from, x);
        k := k + 1;
      }
    }

    /** remove_node(n): the last node's record and list move into n's id,
        n's slots are stripped from its neighbours and the neighbours of the
        moved node are retargeted from the old last id to n's id. The
        retargeting pass runs only when n is not the last node (see
        RemoveNodeAsWritten). */
    method RemoveNode(n: Node)
      requires Valid() && HasNode(n)
      modifies this
      ensures Valid()
      ensures nodes == MoveLast(old(nodes), n.id)
      ensures adj == RemoveNodeState(old(adj), n.id)
    {
      var nid := n.id;
      var lid := |nodes| - 1;
      ghost var adj0 := adj;
      ghost var nodes0 := nodes;
      assert lid == |adj0| - 1;
      nodes := nodes[nid := nodes[lid]][..lid];
      ghost var nodes1 := nodes;
      assert nodes1 == MoveLast(nodes0, nid);
      StripNeighbours(nid);
      adj := adj[nid := adj[lid]][..lid];
      ghost var mid := adj;
      assert mid == MoveLast(StripAll(adj0, nid), nid);
      assert RemoveNodeState(adj0, nid) == RenameAll(mid, lid, nid);
      if nid < lid {
        RetargetPrecondition(adj0, nid);
        RetargetNeighbours(nid, lid);
      } else {
        RenameAllSelf(mid, nid);
      }
      assert adj == RenameAll(mid, lid, nid);
      assert nodes == nodes1;
      RemoveNodeWellFormed(adj0, nid);
    }

    /** remove_node(node_iterator): remove the node under the iterator and
        return an iterator at the same index. */
    method RemoveNodeAt(it: NodeIterator<P, V, E>) returns (r: NodeIterator<P, V, E>)
      requires Valid() && it.g == this && it.index < |nodes|
      modifies this
      ensures Valid()
      ensures nodes == MoveLast(old(nodes), it.index)
      ensures adj == RemoveNodeState(old(adj), it.index)
      ensures fresh(r) && r.g == this && r.index == it.index
    {
      var n := it.Current();
      RemoveNode(n);
      r := new NodeIterator(this, it.index);
    }

    /** clear */
    method Clear()
      modifies this
      ensures Valid()
      ensures nodes == [] && adj == []
    {
      nodes := [];
      adj := [];
    }

    /** node_begin and node_end */
    method NodeBegin() returns (it: NodeIterator<P, V, E>)
      ensures fresh(it) && it.g == this && it.index == 0
    {
      it := new NodeIterator(this, 0);
    }

    method NodeEnd() returns (it: NodeIterator<P, V, E>)
      ensures fresh(it) && it.g == this && it.index == |nodes|
    {
      it := new NodeIterator(this, |nodes|);
    }

    /** edge_begin, fixed to the first canonical slot (see EdgeBeginAsWritten). */
    method EdgeBegin() returns (it: EdgeIterator<P, V, E>)
      ensures fresh(it) && it.g == this
      ensures (it.center, it.outid) == EdgeWalk.EdgeBegin(adj)
    {
      it := new EdgeIterator(this, 0, 0);
      it.Fix();
    }

    /** edge_end */
    method EdgeEnd() returns (it: EdgeIterator<P, V, E>)
      ensures fresh(it) && it.g == this
      ensures (it.center, it.outid) == EdgeWalk.EdgeEnd(adj)
    {
      it := new EdgeIterator(this, |adj|, 0);
    }

    /** Node::edge_begin and Node::edge_end: slots 0 and degree() of n's list. */
    method IncidentBegin(n: Node) returns (it: IncidentIterator<P, V, E>)
      requires n.gid == gid && n.id < |adj|
      ensures fresh(it) && it.g == this && it.center == n.id && it.outid == 0
    {
      it := new IncidentIterator(this, n.id, 0);
    }

    method IncidentEnd(n: Node) returns (it: IncidentIterator<P, V, E>)
      requires n.gid == gid && n.id < |adj|
      ensures fresh(it) && it.g == this && it.center == n.id && it.outid == Degree(n)
    {
      it := new IncidentIterator(this, n.id, |adj[n.id]|);
    }
  }

  /** Graph::NodeIterator: an index into the node ids. */
  class NodeIterator<P, V, E> {
    const g: Graph<P, V, E>
    var index: nat

    constructor (g: Graph<P, V, E>, index: nat)
      ensures this.g == g && this.index == index
    {
      this.g := g;
      this.index := index;
    }

    /** operator* */
    function Current(): Node
      reads this
    {
      Node(g.gid, index)
    }

    /** operator++ */
    method Next()
      modifies this
      ensures index == old(index) + 1
    {
      index := index + 1;
    }

    /** operator== */
    predicate Equals(other: NodeIterator<P, V, E>)
      reads this, other
    {
      g.gid == other.g.gid && index == other.index
    }
  }

  /** Graph::EdgeIterator: a (center, outid) position, kept on canonical slots by Fix. */
  class EdgeIterator<P, V, E> {
    const g: Graph<P, V, E>
    var center: nat
    var outid: nat

    constructor (g: Graph<P, V, E>, center: nat, outid: nat)
      ensures this.g == g && this.center == center && this.outid == outid
    {
      this.g := g;
      this.center := center;
      this.outid := outid;
    }

    /** operator* */
    function Current(): Edge
      reads this
    {
      Deref(g.gid, (center, outid))
    }

    /** fix: skip to the first canonical slot at or after the position, or to
        (size, 0) when there is none. */
    method Fix()
      modifies this
      ensures (center, outid) == FixPos(g.adj, old(center), old(outid))
    {
      while center < |g.adj|
        invariant FixPos(g.adj, center, outid) == FixPos(g.adj, old(center), old(outid))
        decreases |g.adj| - center
      {
        ghost var c := center;
        while outid < |g.adj[center]|
          invariant center == c && c < |g.adj|
          invariant FixPos(g.adj, center, outid) == FixPos(g.adj, old(center), old(outid))
          decreases |g.adj[center]| - outid
        {
          if center < g.adj[center][outid].0 {
            return;
          }
          outid := outid + 1;
        }
        center := center + 1;
        outid := 0;
      }
    }

    /** operator++: one slot on, then fix. */
    method Next()
      modifies this
      ensures (center, outid) == Step(g.adj, (old(center), old(outid)))
    {
      outid := outid + 1;
      Fix();
    }

    /** operator== as written: the outid comparison is vacuous. */
    predicate EqualsAsWritten(other: EdgeIterator<P, V, E>)
      reads this, other
    {
      SameIterAsWritten(g.gid, (center, outid), other.g.gid, (other.center, other.outid))
    }

    /** operator== as intended. */
    predicate Equals(other: EdgeIterator<P, V, E>)
      reads this, other
    {
      SameIter(g.gid, (center, outid), other.g.gid, (other.center, other.outid))
    }
  }

  /** Graph::IncidentIterator: the slots of one node's list, in order. */
  class IncidentIterator<P, V, E> {
    const g: Graph<P, V, E>
    const center: nat
    var outid: nat

    constructor (g: Graph<P, V, E>, center: nat, outid: nat)
      ensures this.g == g && this.center == center && this.outid == outid
    {
      this.g := g;
      this.center := center;
      this.outid := outid;
    }

    /** operator*: the handle (center, outid), with node1 the center. */
    function Current(): Edge
      reads this
    {
      Edge(g.gid, center, outid)
    }

    /** operator++ */
    method Next()
      modifies this
      ensures outid == old(outid) + 1
    {
      outid := outid + 1;
    }

    /** operator== */
    predicate Equals(other: IncidentIterator<P, V, E>)
      reads this, other
    {
      g.gid == other.g.gid && center == other.center && outid == other.outid
    }
  }
}
