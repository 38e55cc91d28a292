/** shortest_path_lengths: a breadth-first search from a root node that
    writes hop distances into the node values of a Graph<P, int, E> and
    returns the largest distance. The root is a parameter; choosing it as the
    node nearest to a point is floating-point geometry outside this model. */
module ShortestPath {
  import opened SeqSets
  import opened Adjacency
  import opened Handles
  import opened Graphs

  /** The node values, by id. */
  function Values<P>(nodes: seq<(P, int)>): (r: seq<int>)
    ensures |r| == |nodes| && forall v :: 0 <= v < |nodes| ==> r[v] == nodes[v].1
  {
    seq(|nodes|, v requires 0 <= v < |nodes| => nodes[v].1)
  }

  /** The node positions, by id. */
  function Positions<P>(nodes: seq<(P, int)>): (r: seq<P>)
    ensures |r| == |nodes| && forall v :: 0 <= v < |nodes| ==> r[v] == nodes[v].0
  {
    seq(|nodes|, v requires 0 <= v < |nodes| => nodes[v].0)
  }

  /** Node::value as an lvalue changes one value and no position. */
  lemma ValuesUpdate<P>(nodes: seq<(P, int)>, v: nat, x: int)
    requires v < |nodes|
    ensures Values(nodes[v := (nodes[v].0, x)]) == Values(nodes)[v := x]
    ensures Positions(nodes[v := (nodes[v].0, x)]) == Positions(nodes)
  {
  }

  //
  // Paths and distances
  //

  /** A walk along the table: consecutive ids are linked by a slot. */
  ghost predicate IsPath<E>(adj: Table<E>, p: seq<nat>) {
    |p| >= 1 &&
    (forall i :: 0 <= i < |p| ==> p[i] < |adj|) &&
    (forall i :: 0 <= i < |p| - 1 ==> p[i + 1] in Ids(adj[p[i]]))
  }

  ghost predicate PathFromTo<E>(adj: Table<E>, p: seq<nat>, s: nat, t: nat) {
    IsPath(adj, p) && p[0] == s && p[|p| - 1] == t
  }

  ghost predicate Reachable<E>(adj: Table<E>, s: nat, t: nat) {
    exists p :: PathFromTo(adj, p, s, t)
  }

  /** k is the least number of hops from s to t. */
  ghost predicate IsDistance<E>(adj: Table<E>, s: nat, t: nat, k: nat) {
    (exists p :: PathFromTo(adj, p, s, t) && |p| == k + 1) &&
    (forall p :: PathFromTo(adj, p, s, t) ==> k + 1 <= |p|)
  }

  lemma PathSnoc<E>(adj: Table<E>, p: seq<nat>, v: nat)
    requires IsPath(adj, p) && v < |adj| && v in Ids(adj[p[|p| - 1]])
    ensures IsPath(adj, p + [v]) && (p + [v])[0] == p[0]
  {
    var p' := p + [v];
    forall i | 0 <= i < |p'| ensures p'[i] < |adj| {
      if i < |p| { assert p'[i] == p[i]; }
    }
    forall i | 0 <= i < |p'| - 1 ensures p'[i + 1] in Ids(adj[p'[i]]) {
      if i < |p| - 1 { assert p'[i] == p[i] && p'[i + 1] == p[i + 1]; }
    }
  }

  lemma PathInit<E>(adj: Table<E>, p: seq<nat>)
    requires IsPath(adj, p) && |p| > 1
    ensures IsPath(adj, p[..|p| - 1]) && p[..|p| - 1][0] == p[0]
    ensures p[|p| - 1] in Ids(adj[p[..|p| - 1][|p| - 2]])
  {
    var q := p[..|p| - 1];
    forall i | 0 <= i < |q| ensures q[i] < |adj| {
      assert q[i] == p[i];
    }
    forall i | 0 <= i < |q| - 1 ensures q[i + 1] in Ids(adj[q[i]]) {
      assert q[i] == p[i] && q[i + 1] == p[i + 1];
    }
    assert q[|p| - 2] == p[|p| - 2];
  }

  //
  // The labelling left by the search, and why it is the distance
  //

  /** No label below -1, the root at 0 and only the root at 0. */
  ghost predicate RootLabels(d: seq<int>, root: nat) {
    root < |d| && d[root] == 0 &&
    (forall v :: 0 <= v < |d| ==> d[v] >= -1) &&
    (forall v :: 0 <= v < |d| && d[v] == 0 ==> v == root)
  }

  /** Every positive label has a parent, labelled one less, whose list
      holds a slot leading to it. */
  ghost predicate ParentsOk<E>(adj: Table<E>, d: seq<int>, parent: seq<nat>) {
    |d| == |adj| && |parent| == |adj| &&
    forall v :: 0 <= v < |d| && d[v] > 0 ==>
      parent[v] < |adj| && v in Ids(adj[parent[v]]) && d[parent[v]] == d[v] - 1
  }

  /** Every slot of u leads to a node labelled between 0 and d[u] + 1. */
  ghost predicate Settled<E>(adj: Table<E>, d: seq<int>, u: nat) {
    |d| == |adj| && u < |adj| &&
    forall w :: w in Ids(adj[u]) ==> w < |d| && 0 <= d[w] <= d[u] + 1
  }

  /** The labelling the search leaves: root labels, parents, and every
      labelled node settled. */
  ghost predicate Labelled<E>(adj: Table<E>, d: seq<int>, root: nat, parent: seq<nat>) {
    RootLabels(d, root) && ParentsOk(adj, d, parent) &&
    forall u :: 0 <= u < |d| && d[u] >= 0 ==> Settled(adj, d, u)
  }

  /** Following parents from a labelled node gives a path from the root
      with exactly label + 1 nodes. */
  lemma {:induction false} PathToLabel<E>(adj: Table<E>, d: seq<int>, root: nat, parent: seq<nat>, v: nat)
    returns (p: seq<nat>)
    requires Labelled(adj, d, root, parent) && v < |d| && d[v] >= 0
    ensures PathFromTo(adj, p, root, v) && |p| == d[v] + 1
    decreases d[v]
  {
    if d[v] == 0 {
      p := [root];
    } else {
      var u := parent[v];
      var pu := PathToLabel(adj, d, root, parent, u);
      PathSnoc(adj, pu, v);
      p := pu + [v];
    }
  }

  /** No path from the root ends at a node labelled more than its length,
      nor at an unlabelled node. */
  lemma {:induction false} PathBound<E>(adj: Table<E>, d: seq<int>, root: nat, parent: seq<nat>, p: seq<nat>)
    requires Labelled(adj, d, root, parent) && IsPath(adj, p) && p[0] == root
    ensures 0 <= d[p[|p| - 1]] <= |p| - 1
    decreases |p|
  {
    if |p| > 1 {
      var q := p[..|p| - 1];
      PathInit(adj, p);
      PathBound(adj, d, root, parent, q);
      assert Settled(adj, d, q[|q| - 1]);
    }
  }

  /** A labelling as above gives every reachable node its hop distance from
      the root and every unreachable node -1. */
  lemma LabelsAreDistances<E>(adj: Table<E>, d: seq<int>, root: nat, parent: seq<nat>)
    requires Labelled(adj, d, root, parent)
    ensures forall v :: 0 <= v < |d| ==> (d[v] == -1 <==> !Reachable(adj, root, v))
    ensures forall v :: 0 <= v < |d| && d[v] >= 0 ==> IsDistance(adj, root, v, d[v])
  {
    forall v | 0 <= v < |d| ensures (d[v] == -1 <==> !Reachable(adj, root, v)) {
      if d[v] >= 0 {
        var p := PathToLabel(adj, d, root, parent, v);
      } else {
        forall p | PathFromTo(adj, p, root, v) ensures false {
          PathBound(adj, d, root, parent, p);
        }
      }
    }
    forall v | 0 <= v < |d| && d[v] >= 0 ensures IsDistance(adj, root, v, d[v]) {
      var p := PathToLabel(adj, d, root, parent, v);
      forall p' | PathFromTo(adj, p', root, v) ensures d[v] + 1 <= |p'| {
        PathBound(adj, d, root, parent, p');
      }
    }
  }

  //
  // The state of the search loop
  //

  /** `o` lists the visited nodes in visiting order: exactly the labelled
      ones, each once, with labels that do not decrease along it. */
  ghost predicate VisitOrder(d: seq<int>, o: seq<nat>) {
    NoRepeats(o) &&
    (forall i :: 0 <= i < |o| ==> o[i] < |d|) &&
    (forall v :: 0 <= v < |d| ==> (d[v] != -1 <==> v in o)) &&
    (forall i, j :: 0 <= i <= j < |o| ==> d[o[i]] <= d[o[j]])
  }

  /** The search between two steps: `done` holds the dequeued nodes, all
      settled, and `q` the queue, whose labels span at most two consecutive
      values. */
  ghost predicate BfsState<E>(adj: Table<E>, d: seq<int>, root: nat, done: seq<nat>, q: seq<nat>, parent: seq<nat>) {
    |d| == |adj| && RootLabels(d, root) && ParentsOk(adj, d, parent) &&
    VisitOrder(d, done + q) &&
    (forall j :: 0 <= j < |q| ==> q[j] < |d|) &&
    (|q| > 0 ==> forall j :: 0 <= j < |q| ==> d[q[j]] <= d[q[0]] + 1) &&
    (forall i :: 0 <= i < |done| ==> Settled(adj, d, done[i]))
  }

  /** The first k slots of r's list lead to nodes labelled between 0 and d[r] + 1. */
  ghost predicate Scanned<E>(adj: Table<E>, d: seq<int>, r: nat, k: nat) {
    |d| == |adj| && r < |adj| && k <= |adj[r]| &&
    forall j :: 0 <= j < k ==> adj[r][j].0 < |d| && 0 <= d[adj[r][j].0] <= d[r] + 1
  }

  /** After the initial labelling, with the root queued. */
  lemma BfsInit<E>(adj: Table<E>, d: seq<int>, root: nat, parent: seq<nat>)
    requires |d| == |adj| && |parent| == |adj| && root < |adj|
    requires forall v :: 0 <= v < |d| ==> d[v] == (if v == root then 0 else -1)
    ensures BfsState(adj, d, root, [], [root], parent)
  {
    assert [] + [root] == [root];
  }

  /** A visited node is labelled between 0 and the head's label + 1. */
  lemma VisitedBound<E>(adj: Table<E>, d: seq<int>, root: nat, done: seq<nat>, q: seq<nat>, parent: seq<nat>, w: nat)
    requires BfsState(adj, d, root, done, q, parent) && |q| > 0 && w < |d| && d[w] != -1
    ensures 0 <= d[w] <= d[q[0]] + 1
  {
    var o := done + q;
    assert w in o;
    var i :| 0 <= i < |o| && o[i] == w;
    assert o[|done|] == q[0];
    if i < |done| {
      assert d[o[i]] <= d[o[|done|]];
    } else {
      assert o[i] == q[i - |done|];
    }
  }

  /** The test of line 84 fails: the neighbour is already labelled, and its
      label is at most one more than the head's, so the test of line 89
      fails as well. */
  lemma BfsSkip<E>(adj: Table<E>, d: seq<int>, root: nat, done: seq<nat>, q: seq<nat>, parent: seq<nat>, k: nat)
    requires WellFormed(adj) && BfsState(adj, d, root, done, q, parent) && |q| > 0
    requires Scanned(adj, d, q[0], k) && k < |adj[q[0]]|
    requires d[adj[q[0]][k].0] != -1
    ensures 0 <= d[adj[q[0]][k].0] <= d[q[0]] + 1
    ensures Scanned(adj, d, q[0], k + 1)
  {
    VisitedBound(adj, d, root, done, q, parent, adj[q[0]][k].0);
  }

  /** Appending a newly labelled node w, labelled x at least every visited
      label, keeps the visiting order. */
  lemma VisitOrderSnoc(d: seq<int>, o: seq<nat>, w: nat, x: int)
    requires VisitOrder(d, o) && w < |d| && d[w] == -1 && x >= 0
    requires forall i :: 0 <= i < |o| ==> d[o[i]] <= x
    ensures VisitOrder(d[w := x], o + [w])
  {
    var d' := d[w := x];
    var o' := o + [w];
    assert w !in o;
    forall i | 0 <= i < |o| ensures d'[o[i]] == d[o[i]] && o'[i] == o[i] {
      assert o[i] in o;
    }
    forall i, j | 0 <= i < j < |o'| ensures o'[i] != o'[j] {
      if j == |o| { assert o[i] in o; }
    }
    forall v | 0 <= v < |d'| ensures (d'[v] != -1 <==> v in o') {
      assert v in o' <==> v in o || v == w;
    }
  }

  /** Labelling w (unlabelled, one slot away from r) with d[r] + 1 and
      making r its parent keeps the parent property. */
  lemma ParentsSnoc<E>(adj: Table<E>, d: seq<int>, parent: seq<nat>, r: nat, w: nat)
    requires ParentsOk(adj, d, parent) && r < |d| && w < |d| && d[w] == -1 && d[r] >= 0
    requires w in Ids(adj[r])
    ensures ParentsOk(adj, d[w := d[r] + 1], parent[w := r])
  {
    var d' := d[w := d[r] + 1];
    forall v | 0 <= v < |d'| && d'[v] > 0 && v != w
      ensures parent[v] != w
    {
    }
  }

  /** Labelling an unlabelled w keeps every dequeued node settled: none
      of their slots leads to w. */
  lemma SettledSnoc<E>(adj: Table<E>, d: seq<int>, done: seq<nat>, w: nat, x: int)
    requires forall i :: 0 <= i < |done| ==> Settled(adj, d, done[i])
    requires w < |d| && d[w] == -1
    requires forall i :: 0 <= i < |done| ==> done[i] != w
    ensures forall i :: 0 <= i < |done| ==> Settled(adj, d[w := x], done[i])
  {
    forall i | 0 <= i < |done| ensures Settled(adj, d[w := x], done[i]) {
      assert Settled(adj, d, done[i]);
      assert w !in Ids(adj[done[i]]);
    }
  }

  /** Queueing w with label head + 1 keeps the queue within two labels. */
  lemma QueueSnoc(d: seq<int>, q: seq<nat>, w: nat)
    requires |q| > 0 && w < |d|
    requires forall j :: 0 <= j < |q| ==> q[j] < |d| && q[j] != w
    requires forall j :: 0 <= j < |q| ==> d[q[j]] <= d[q[0]] + 1
    ensures forall j :: 0 <= j < |q + [w]| ==> (q + [w])[j] < |d|
    ensures forall j :: 0 <= j < |q + [w]| ==>
      d[w := d[q[0]] + 1][(q + [w])[j]] <= d[w := d[q[0]] + 1][(q + [w])[0]] + 1
  {
  }

  /** Labelling the k-th neighbour w of r with d[r] + 1 extends the scan by one slot. */
  lemma ScannedSnoc<E>(adj: Table<E>, d: seq<int>, r: nat, k: nat)
    requires Scanned(adj, d, r, k) && k < |adj[r]| && adj[r][k].0 < |d| && adj[r][k].0 != r
    requires d[adj[r][k].0] == -1 && d[r] >= 0
    ensures Scanned(adj, d[adj[r][k].0 := d[r] + 1], r, k + 1)
  {
    var w := adj[r][k].0;
    forall j | 0 <= j < k ensures adj[r][j].0 != w {
    }
  }

  /** The test of line 84 holds: the neighbour w is labelled head + 1 and
      queued, with the head as its parent. */
  lemma BfsVisit<E>(adj: Table<E>, d: seq<int>, root: nat, done: seq<nat>, q: seq<nat>, parent: seq<nat>, k: nat)
    requires WellFormed(adj) && BfsState(adj, d, root, done, q, parent) && |q| > 0
    requires Scanned(adj, d, q[0], k) && k < |adj[q[0]]|
    requires d[adj[q[0]][k].0] == -1
    ensures adj[q[0]][k].0 != q[0]
    ensures BfsState(adj, d[adj[q[0]][k].0 := d[q[0]] + 1], root, done, q + [adj[q[0]][k].0],
                     parent[adj[q[0]][k].0 := q[0]])
    ensures Scanned(adj, d[adj[q[0]][k].0 := d[q[0]] + 1], q[0], k + 1)
  {
    var r := q[0];
    var w := adj[r][k].0;
    var o := done + q;
    assert o[|done|] == r;
    assert d[r] >= 0;
    SlotInIds(adj[r], k);
    assert w !in o;
    forall i | 0 <= i < |o| ensures d[o[i]] <= d[r] + 1 {
      VisitedBound(adj, d, root, done, q, parent, o[i]);
    }
    VisitOrderSnoc(d, o, w, d[r] + 1);
    assert o + [w] == done + (q + [w]);
    ParentsSnoc(adj, d, parent, r, w);
    forall j | 0 <= j < |q| ensures q[j] != w {
      assert o[|done| + j] == q[j];
    }
    QueueSnoc(d, q, w);
    forall i | 0 <= i < |done| ensures done[i] != w {
      assert o[i] == done[i];
    }
    SettledSnoc(adj, d, done, w, d[r] + 1);
    ScannedSnoc(adj, d, r, k);
  }

  /** Line 94: the head is dequeued once its whole list is scanned. */
  lemma BfsPop<E>(adj: Table<E>, d: seq<int>, root: nat, done: seq<nat>, q: seq<nat>, parent: seq<nat>)
    requires BfsState(adj, d, root, done, q, parent) && |q| > 0
    requires Scanned(adj, d, q[0], |adj[q[0]]|)
    ensures BfsState(adj, d, root, done + [q[0]], q[1..], parent)
  {
    var r := q[0];
    var o := done + q;
    assert done + [r] + q[1..] == o;
    if |q| > 1 {
      forall j | 0 <= j < |q[1..]| ensures d[q[1..][j]] <= d[q[1..][0]] + 1 {
        assert q[1..][j] == q[j + 1] && q[1..][0] == q[1];
        assert o[|done|] == r && o[|done| + 1] == q[1];
      }
    }
    assert Settled(adj, d, r) by {
      forall w | w in Ids(adj[r]) ensures w < |d| && 0 <= d[w] <= d[r] + 1 {
        var j :| 0 <= j < |adj[r]| && Ids(adj[r])[j] == w;
        assert adj[r][j].0 == w;
      }
    }
    forall i | 0 <= i < |done + [r]| ensures Settled(adj, d, (done + [r])[i]) {
      if i < |done| { assert (done + [r])[i] == done[i]; }
    }
  }

  /** Each node is queued at most once, so done + q never outgrows the graph. */
  lemma BfsBound<E>(adj: Table<E>, d: seq<int>, root: nat, done: seq<nat>, q: seq<nat>, parent: seq<nat>)
    requires BfsState(adj, d, root, done, q, parent)
    ensures |done| + |q| <= |adj|
  {
    NoRepeatsBounded(done + q, |adj|);
  }

  /** With the queue empty, the labels satisfy Labelled. */
  lemma BfsFinish<E>(adj: Table<E>, d: seq<int>, root: nat, done: seq<nat>, parent: seq<nat>)
    requires BfsState(adj, d, root, done, [], parent)
    ensures Labelled(adj, d, root, parent)
  {
    assert done + [] == done;
    forall u | 0 <= u < |d| && d[u] >= 0 ensures Settled(adj, d, u) {
      assert u in done;
      var i :| 0 <= i < |done| && done[i] == u;
    }
  }

  /** What the search promises of its labels: the root is at 0, exactly the
      unreachable nodes are at -1, every other label is the length of a
      shortest path from the root, and every positive label is one more than
      the label of some neighbour. */
  ghost predicate DistanceLabels<E>(adj: Table<E>, d: seq<int>, root: nat) {
    |d| == |adj| && root < |d| && d[root] == 0 &&
    (forall v :: 0 <= v < |d| ==> (d[v] == -1 <==> !Reachable(adj, root, v))) &&
    (forall v :: 0 <= v < |d| && d[v] >= 0 ==> IsDistance(adj, root, v, d[v])) &&
    (forall v :: 0 <= v < |d| && d[v] > 0 ==>
      exists u :: 0 <= u < |d| && HasEdge(adj, u, v) && d[u] == d[v] - 1)
  }

  /** What the search leaves once the queue is empty: every node's label
      is its hop distance from the root, or -1 exactly when no path reaches
      it; every positive label has a neighbour labelled one less; each
      visited node was dequeued exactly once. */
  lemma BfsResult<E>(adj: Table<E>, d: seq<int>, root: nat, done: seq<nat>, parent: seq<nat>)
    requires BfsState(adj, d, root, done, [], parent)
    ensures DistanceLabels(adj, d, root)
    ensures NoRepeats(done) && |done| <= |d|
    ensures forall v :: 0 <= v < |d| ==> (v in done <==> d[v] != -1)
  {
    BfsFinish(adj, d, root, done, parent);
    LabelsAreDistances(adj, d, root, parent);
    BfsBound(adj, d, root, done, [], parent);
    assert done + [] == done;
    forall v | 0 <= v < |d| && d[v] > 0
      ensures exists u :: 0 <= u < |d| && HasEdge(adj, u, v) && d[u] == d[v] - 1
    {
      assert HasEdge(adj, parent[v], v);
    }
  }

  //
  // The search
  //

  /** `n.value() = x` through the graph: one label changes, nothing else. */
  method SetLabel<P, E>(g: Graph<P, int, E>, w: nat, x: int)
    requires w < |g.nodes|
    modifies g
    ensures g.adj == old(g.adj) && |g.nodes| == old(|g.nodes|)
    ensures Values(g.nodes) == old(Values(g.nodes))[w := x]
    ensures Positions(g.nodes) == old(Positions(g.nodes))
  {
    ValuesUpdate(g.nodes, w, x);
    g.SetValue(Node(g.gid, w), x);
  }

  /** Lines 63-67: every value -1 through the node iterators, then the root's 0. */
  method ResetValues<P, E>(g: Graph<P, int, E>, root: nat)
    requires g.Valid() && root < |g.nodes|
    modifies g
    ensures g.Valid() && g.adj == old(g.adj) && Positions(g.nodes) == old(Positions(g.nodes))
    ensures forall v :: 0 <= v < |g.nodes| ==> g.nodes[v].1 == (if v == root then 0 else -1)
  {
    var n := |g.nodes|;
    var ni := g.NodeBegin();
    var nlast := g.NodeEnd();
    while !ni.Equals(nlast)
      invariant ni.g == g && nlast.g == g && ni != nlast && nlast.index == n && ni.index <= n
      invariant g.Valid() && g.adj == old(g.adj) && Positions(g.nodes) == old(Positions(g.nodes))
      invariant forall v :: 0 <= v < ni.index ==> g.nodes[v].1 == -1
      decreases n - ni.index
    {
      SetLabel(g, ni.index, -1);
      ni.Next();
    }
    SetLabel(g, root, 0);
  }

  /** The running maximum of the search: `m` is a label, held by `at`, and no label exceeds it. */
  ghost predicate MaxLabel(d: seq<int>, m: int, at: nat) {
    m >= 0 && at < |d| && d[at] == m && forall v :: 0 <= v < |d| ==> d[v] <= m
  }

  /** Lines 83-93 for one slot of the head r: a neighbour still at -1 gets
      cur + 1, raises the maximum if larger, and is queued with r as its
      parent; any other neighbour is left alone. */
  method VisitSlot<P, E>(g: Graph<P, int, E>, rb: IncidentIterator<P, int, E>, root: nat, cur: int,
                         m: int, ghost maxAt: nat, ghost done: seq<nat>, waiting: seq<nat>, ghost parent: seq<nat>)
    returns (m': int, ghost maxAt': nat, waiting': seq<nat>, ghost parent': seq<nat>)
    requires g.Valid() && rb.g == g && |waiting| > 0 && rb.center == waiting[0]
    requires rb.center < |g.adj| && rb.outid < |g.adj[rb.center]|
    requires BfsState(g.adj, Values(g.nodes), root, done, waiting, parent)
    requires Scanned(g.adj, Values(g.nodes), rb.center, rb.outid) && Values(g.nodes)[rb.center] == cur
    requires MaxLabel(Values(g.nodes), m, maxAt)
    modifies g
    ensures g.Valid() && g.adj == old(g.adj) && Positions(g.nodes) == old(Positions(g.nodes))
    ensures |waiting'| > 0 && waiting'[0] == waiting[0] && Values(g.nodes)[rb.center] == cur
    ensures BfsState(g.adj, Values(g.nodes), root, done, waiting', parent')
    ensures Scanned(g.adj, Values(g.nodes), rb.center, rb.outid + 1)
    ensures MaxLabel(Values(g.nodes), m', maxAt')
  {
    m', maxAt', waiting', parent' := m, maxAt, waiting, parent;
    ghost var adj: Table<E> := g.adj;
    ghost var d := Values(g.nodes);
    ghost var k := rb.outid;
    var r := rb.center;
    var w := Node2Id(g.adj, rb.Current());
    assert w == adj[r][k].0 && g.nodes[w].1 == d[w];
    if g.nodes[w].1 == -1 {
      BfsVisit(adj, d, root, done, waiting, parent, k);
      SetLabel(g, w, cur + 1);
      if cur + 1 > m {
        m' := cur + 1;
        maxAt' := w;
      }
      waiting' := waiting + [w];
      parent' := parent[w := r];
    } else {
      BfsSkip(adj, d, root, done, waiting, parent, k);
    }
    // Lines 89-92 would lower a value above cur + 1; in FIFO order there is none.
    assert Values(g.nodes)[w] <= cur + 1;
  }

  /** Lines 79-93: expand the head of the queue, one slot of its list at a time. */
  method ExpandHead<P, E>(g: Graph<P, int, E>, root: nat, m: int, ghost maxAt: nat, ghost done: seq<nat>,
                          waiting: seq<nat>, ghost parent: seq<nat>)
    returns (m': int, ghost maxAt': nat, waiting': seq<nat>, ghost parent': seq<nat>)
    requires g.Valid() && |waiting| > 0
    requires BfsState(g.adj, Values(g.nodes), root, done, waiting, parent)
    requires MaxLabel(Values(g.nodes), m, maxAt)
    modifies g
    ensures g.Valid() && g.adj == old(g.adj) && Positions(g.nodes) == old(Positions(g.nodes))
    ensures |waiting'| > 0 && waiting'[0] == waiting[0]
    ensures BfsState(g.adj, Values(g.nodes), root, done, waiting', parent')
    ensures Scanned(g.adj, Values(g.nodes), waiting[0], |g.adj[waiting[0]]|)
    ensures MaxLabel(Values(g.nodes), m', maxAt')
  {
    m', maxAt', waiting', parent' := m, maxAt, waiting, parent;
    var r := waiting[0];
    var cur := g.nodes[r].1;
    var rb := g.IncidentBegin(Node(g.gid, r));
    var re := g.IncidentEnd(Node(g.gid, r));
    while !rb.Equals(re)
      invariant rb.g == g && re.g == g && rb != re && r < |g.adj|
      invariant rb.center == r && re.center == r && re.outid == |g.adj[r]| && rb.outid <= |g.adj[r]|
      invariant g.Valid() && g.adj == old(g.adj) && Positions(g.nodes) == old(Positions(g.nodes))
      invariant |waiting'| > 0 && waiting'[0] == r && Values(g.nodes)[r] == cur
      invariant BfsState(g.adj, Values(g.nodes), root, done, waiting', parent')
      invariant Scanned(g.adj, Values(g.nodes), r, rb.outid)
      invariant MaxLabel(Values(g.nodes), m', maxAt')
      decreases |g.adj[r]| - rb.outid
    {
      m', maxAt', waiting', parent' := VisitSlot(g, rb, root, cur, m', maxAt', done, waiting', parent');
      rb.Next();
    }
  }

  /** shortest_path_lengths with the root given: every node's value becomes
      its hop distance from the root, or -1 where no path reaches it, and
      the largest value is returned. `order` is the order of dequeuing. */
  method ShortestPathLengths<P, E>(g: Graph<P, int, E>, root: nat) returns (m: int, ghost order: seq<nat>)
    requires g.Valid() && root < |g.nodes|
    modifies g
    ensures g.Valid() && g.adj == old(g.adj) && Positions(g.nodes) == old(Positions(g.nodes))
    ensures DistanceLabels(g.adj, Values(g.nodes), root)
    ensures m >= 0 && forall v :: 0 <= v < |g.nodes| ==> Values(g.nodes)[v] <= m
    ensures exists v :: 0 <= v < |g.nodes| && Values(g.nodes)[v] == m
    ensures NoRepeats(order) && |order| <= |g.nodes|
    ensures forall v :: 0 <= v < |g.nodes| ==> (v in order <==> Values(g.nodes)[v] != -1)
  {
    ResetValues(g, root);
    var n := |g.nodes|;
    m := 0;
    ghost var maxAt: nat := root;
    ghost var done: seq<nat> := [];
    ghost var parent: seq<nat> := seq(n, v => 0);
    BfsInit(g.adj, Values(g.nodes), root, parent);
    var waiting: seq<nat> := [root];
    while waiting != []
      invariant g.Valid() && g.adj == old(g.adj) && |g.nodes| == n
      invariant Positions(g.nodes) == old(Positions(g.nodes))
      invariant BfsState(g.adj, Values(g.nodes), root, done, waiting, parent)
      invariant MaxLabel(Values(g.nodes), m, maxAt)
      decreases n - |done|
    {
      BfsBound(g.adj, Values(g.nodes), root, done, waiting, parent);
      var r := waiting[0];
      m, maxAt, waiting, parent := ExpandHead(g, root, m, maxAt, done, waiting, parent);
      BfsPop(g.adj, Values(g.nodes), root, done, waiting, parent);
      waiting := waiting[1..];
      done := done + [r];
    }
    BfsResult(g.adj, Values(g.nodes), root, done, parent);
    order := done;
  }
}
