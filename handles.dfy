/** Node and edge handles of the graph container (Graph::Node and
    Graph::Edge). A handle never owns data: it is a container identity plus
    indices into that container's storage. The container's address is
    modelled by the token `gid`, so that both the identity test and the
    address order used by the comparison operators can be stated; a handle is
    resolved against the adjacency table of the container it names. */
module Handles {
  import opened Adjacency

  /** Graph::Node: container and node id. */
  datatype Node = Node(gid: nat, id: nat)

  /** Graph::Edge: container, node1's id and the slot index in node1's list
      (one physical direction of a logical edge). */
  datatype Edge = Edge(gid: nat, node1: nat, slot: nat)

  /** Node::operator<: by id within one container, otherwise by container address. */
  predicate NodeLess(a: Node, b: Node) {
    (a.gid == b.gid && a.id < b.id) || a.gid < b.gid
  }

  /** The node order is a strict total order whose equality is handle
      equality (same container, same id). */
  lemma NodeOrder(a: Node, b: Node, c: Node)
    ensures !NodeLess(a, a)
    ensures a == b || NodeLess(a, b) || NodeLess(b, a)
    ensures !(NodeLess(a, b) && NodeLess(b, a))
    ensures NodeLess(a, b) && NodeLess(b, c) ==> NodeLess(a, c)
  {
  }

  /** The edge names an existing slot of its node1's list. */
  predicate ValidEdge<E>(adj: Table<E>, e: Edge) {
    e.node1 < |adj| && e.slot < |adj[e.node1]|
  }

  /** Edge::Node2Id: the neighbour id stored in the slot. */
  function Node2Id<E>(adj: Table<E>, e: Edge): nat
    requires ValidEdge(adj, e)
  {
    adj[e.node1][e.slot].0
  }

  /** Edge::value: this physical slot's copy of the edge value. */
  function EdgeValue<E>(adj: Table<E>, e: Edge): E
    requires ValidEdge(adj, e)
  {
    adj[e.node1][e.slot].1
  }

  /** Edge::node1 and Edge::node2 as node handles. */
  function Node1(e: Edge): Node {
    Node(e.gid, e.node1)
  }

  function Node2<E>(adj: Table<E>, e: Edge): Node
    requires ValidEdge(adj, e)
  {
    Node(e.gid, Node2Id(adj, e))
  }

  /** What the comparisons need: `adj` is the table of e1's container, and
      e2 is resolved against it only when both share that container. */
  predicate Comparable<E>(adj: Table<E>, e1: Edge, e2: Edge) {
    ValidEdge(adj, e1) && (e1.gid == e2.gid ==> ValidEdge(adj, e2))
  }

  /** Edge::operator==: same container and the same endpoints in either order. */
  predicate EdgeEq<E>(adj: Table<E>, e1: Edge, e2: Edge)
    requires Comparable(adj, e1, e2)
  {
    e1.gid == e2.gid &&
    ((e1.node1 == e2.node1 && Node2Id(adj, e1) == Node2Id(adj, e2)) ||
     (Node2Id(adj, e1) == e2.node1 && e1.node1 == Node2Id(adj, e2)))
  }

  function Min(a: nat, b: nat): nat { if a < b then a else b }
  function Max(a: nat, b: nat): nat { if a < b then b else a }

  /** The canonical key of an edge: (smaller endpoint id, larger endpoint id). */
  function Key<E>(adj: Table<E>, e: Edge): (nat, nat)
    requires ValidEdge(adj, e)
  {
    (Min(e.node1, Node2Id(adj, e)), Max(e.node1, Node2Id(adj, e)))
  }

  /** Edge::operator<: by container address, then by key lexicographically. */
  predicate EdgeLess<E>(adj: Table<E>, e1: Edge, e2: Edge)
    requires Comparable(adj, e1, e2)
  {
    e1.gid < e2.gid ||
    (e1.gid == e2.gid &&
     (Key(adj, e1).0 < Key(adj, e2).0 ||
      (Key(adj, e1).0 == Key(adj, e2).0 && Key(adj, e1).1 < Key(adj, e2).1)))
  }

  /** Within one container, edge equality is equality of unordered endpoint
      pairs, that is, of keys. */
  lemma EdgeEqIsKeyEq<E>(adj: Table<E>, e1: Edge, e2: Edge)
    requires ValidEdge(adj, e1) && ValidEdge(adj, e2) && e1.gid == e2.gid
    ensures EdgeEq(adj, e1, e2) <==> Key(adj, e1) == Key(adj, e2)
  {
  }

  /** Within one container, the edge order is irreflexive, transitive and
      trichotomous with respect to edge equality. */
  lemma EdgeOrderInOneGraph<E>(adj: Table<E>, e1: Edge, e2: Edge, e3: Edge)
    requires ValidEdge(adj, e1) && ValidEdge(adj, e2) && ValidEdge(adj, e3)
    requires e1.gid == e2.gid == e3.gid
    ensures !EdgeLess(adj, e1, e1)
    ensures EdgeEq(adj, e1, e2) || EdgeLess(adj, e1, e2) || EdgeLess(adj, e2, e1)
    ensures !(EdgeEq(adj, e1, e2) && EdgeLess(adj, e1, e2))
    ensures !(EdgeLess(adj, e1, e2) && EdgeLess(adj, e2, e1))
    ensures EdgeLess(adj, e1, e2) && EdgeLess(adj, e2, e3) ==> EdgeLess(adj, e1, e3)
  {
    EdgeEqIsKeyEq(adj, e1, e2);
  }

  /** Across containers, edges are never equal and are ordered by container
      address alone, each against its own container's table. */
  lemma EdgeOrderAcrossGraphs<E>(adj1: Table<E>, e1: Edge, adj2: Table<E>, e2: Edge)
    requires ValidEdge(adj1, e1) && ValidEdge(adj2, e2) && e1.gid != e2.gid
    ensures !EdgeEq(adj1, e1, e2)
    ensures EdgeLess(adj1, e1, e2) != EdgeLess(adj2, e2, e1)
  {
  }

  /** Edge::dual: scan node2's list for the slot pointing back at node1;
      None stands for the invalid Edge() returned when there is none. */
  function Dual<E>(adj: Table<E>, e: Edge): (r: Option<Edge>)
    requires ValidEdge(adj, e) && Node2Id(adj, e) < |adj|
    ensures r.Some? <==> e.node1 in Ids(adj[Node2Id(adj, e)])
    ensures r.Some? ==>
      r.value.gid == e.gid && r.value.node1 == Node2Id(adj, e) &&
      ValidEdge(adj, r.value) && Node2Id(adj, r.value) == e.node1
  {
    var b := Node2Id(adj, e);
    var p := Find(adj[b], e.node1, 0);
    FindIn(adj[b], e.node1);
    if p < |adj[b]| then Some(Edge(e.gid, b, p)) else None
  }

  /** On a well-formed table every edge has a dual, the dual is equal to it
      though it names the other physical slot, and the dual of the dual is
      the edge itself. */
  lemma DualFacts<E>(adj: Table<E>, e: Edge)
    requires WellFormed(adj) && ValidEdge(adj, e)
    ensures Node2Id(adj, e) < |adj|
    ensures Dual(adj, e).Some?
    ensures EdgeEq(adj, e, Dual(adj, e).value)
    ensures Dual(adj, e).value.node1 != e.node1
    ensures Node2Id(adj, Dual(adj, e).value) < |adj|
    ensures Dual(adj, Dual(adj, e).value) == Some(e)
  {
    WellFormedLinksOk(adj);
    SlotInIds(adj[e.node1], e.slot);
    LinksOkAt(adj, e.node1, Node2Id(adj, e));
    var d := Dual(adj, e).value;
    var b := Node2Id(adj, e);
    var k := Find(adj[e.node1], b, 0);
    assert Distinct(adj[e.node1]);
    assert k == e.slot;
  }

  /** The table after writing `v` into the slot of `e` only (Edge::value as an lvalue). */
  function WithEdgeValue<E>(adj: Table<E>, e: Edge, v: E): Table<E>
    requires ValidEdge(adj, e)
  {
    adj[e.node1 := adj[e.node1][e.slot := (Node2Id(adj, e), v)]]
  }

  /** Writing an edge's value changes that slot only: the structure, the
      invariant and the dual slot's copy of the value are untouched. */
  lemma WithEdgeValueFacts<E>(adj: Table<E>, e: Edge, v: E)
    requires WellFormed(adj) && ValidEdge(adj, e)
    ensures WellFormed(WithEdgeValue(adj, e, v))
    ensures forall a :: 0 <= a < |adj| ==> Ids(WithEdgeValue(adj, e, v)[a]) == Ids(adj[a])
    ensures EdgeValue(WithEdgeValue(adj, e, v), e) == v
    ensures Dual(WithEdgeValue(adj, e, v), e) == Dual(adj, e)
    ensures EdgeValue(WithEdgeValue(adj, e, v), Dual(adj, e).value) == EdgeValue(adj, Dual(adj, e).value)
  {
    var r := WithEdgeValue(adj, e, v);
    DualFacts(adj, e);
    assert Ids(r[e.node1]) == Ids(adj[e.node1]);
    assert forall a :: 0 <= a < |adj| ==> Ids(r[a]) == Ids(adj[a]);
    assert WellFormed(r) by {
      forall a, i | 0 <= a < |r| && 0 <= i < |r[a]| ensures r[a][i].0 == adj[a][i].0 {
        assert Ids(r[a])[i] == Ids(adj[a])[i];
      }
    }
  }

  /** The incident iterator of node c yields the handles (c, 0) .. (c, degree - 1):
      each is valid, has node1 == c and leads to a neighbour of c, and every
      neighbour of c is reached by exactly one of them. */
  lemma IncidentEdges<E>(adj: Table<E>, gid: nat, c: nat)
    requires WellFormed(adj) && c < |adj|
    ensures forall k :: 0 <= k < |adj[c]| ==>
      ValidEdge(adj, Edge(gid, c, k)) && Node1(Edge(gid, c, k)) == Node(gid, c) &&
      Node2Id(adj, Edge(gid, c, k)) != c && HasEdge(adj, c, Node2Id(adj, Edge(gid, c, k)))
    ensures forall b :: 0 <= b < |adj| && HasEdge(adj, c, b) ==>
      exists k :: 0 <= k < |adj[c]| && Node2Id(adj, Edge(gid, c, k)) == b
    ensures forall k1, k2 :: 0 <= k1 < k2 < |adj[c]| ==>
      Node2Id(adj, Edge(gid, c, k1)) != Node2Id(adj, Edge(gid, c, k2))
  {
    assert Distinct(adj[c]);
    forall k | 0 <= k < |adj[c]| ensures HasEdge(adj, c, Node2Id(adj, Edge(gid, c, k))) {
      SlotInIds(adj[c], k);
    }
    forall b | 0 <= b < |adj| && HasEdge(adj, c, b)
      ensures exists k :: 0 <= k < |adj[c]| && Node2Id(adj, Edge(gid, c, k)) == b
    {
      var k :| 0 <= k < |adj[c]| && Ids(adj[c])[k] == b;
      assert Node2Id(adj, Edge(gid, c, k)) == b;
    }
  }
}
