/** Finite directed graphs: walks, the forward search with predecessors, the backward
    search from a set of goals, and the walk back along predecessors. */
module Search {
  import opened Ordering

  datatype Edge = Edge(id: Id, source: Id, target: Id)

  // -------------------------------------------------------------------- walks

  ghost predicate Joined(edges: seq<Edge>, a: Id, b: Id) {
    exists e :: e in edges && e.source == a && e.target == b
  }

  /** A walk is a nonempty list of nodes, each joined to the next. */
  ghost predicate Walk(edges: seq<Edge>, w: seq<Id>) {
    w != [] && forall i :: 0 <= i < |w| - 1 ==> Joined(edges, w[i], w[i + 1])
  }

  ghost predicate WalkBetween(edges: seq<Edge>, w: seq<Id>, a: Id, b: Id) {
    Walk(edges, w) && w[0] == a && w[|w| - 1] == b
  }

  ghost predicate Reaches(edges: seq<Edge>, a: Id, b: Id) {
    exists w :: WalkBetween(edges, w, a, b)
  }

  ghost predicate CanReach(edges: seq<Edge>, a: Id, goals: set<Id>) {
    exists g :: g in goals && Reaches(edges, a, g)
  }

  lemma ReachesSelf(edges: seq<Edge>, a: Id)
    ensures Reaches(edges, a, a)
  {
    assert WalkBetween(edges, [a], a, a);
  }

  lemma ReachesPrepend(edges: seq<Edge>, e: Edge, b: Id)
    requires e in edges && Reaches(edges, e.target, b)
    ensures Reaches(edges, e.source, b)
  {
    var w :| WalkBetween(edges, w, e.target, b);
    assert Joined(edges, e.source, e.target);
    assert WalkBetween(edges, [e.source] + w, e.source, b);
  }

  lemma ReachesAppend(edges: seq<Edge>, a: Id, e: Edge)
    requires e in edges && Reaches(edges, a, e.source)
    ensures Reaches(edges, a, e.target)
  {
    var w :| WalkBetween(edges, w, a, e.source);
    assert Joined(edges, e.source, e.target);
    assert WalkBetween(edges, w + [e.target], a, e.target);
  }

  lemma ReachesTransitive(edges: seq<Edge>, a: Id, b: Id, c: Id)
    requires Reaches(edges, a, b) && Reaches(edges, b, c)
    ensures Reaches(edges, a, c)
  {
    var w :| WalkBetween(edges, w, a, b);
    var u :| WalkBetween(edges, u, b, c);
    var wu := w + u[1..];
    forall i | 0 <= i < |wu| - 1
      ensures Joined(edges, wu[i], wu[i + 1])
    {
      if i < |w| - 1 {
      } else {
        var k := i - (|w| - 1);
        assert wu[i] == u[k] && wu[i + 1] == u[k + 1];
      }
    }
    assert WalkBetween(edges, wu, a, c);
  }

  /** A set closed under edges contains everything a member of it reaches. */
  lemma {:induction false} ClosedContains(edges: seq<Edge>, s: set<Id>, w: seq<Id>)
    requires forall e :: e in edges && e.source in s ==> e.target in s
    requires Walk(edges, w) && w[0] in s
    ensures w[|w| - 1] in s
  {
    if |w| > 1 {
      assert Joined(edges, w[0], w[1]);
      ClosedContains(edges, s, w[1..]);
    }
  }

  /** A set closed under reversed edges contains everything that reaches a member of it. */
  lemma {:induction false} BackClosedContains(edges: seq<Edge>, s: set<Id>, w: seq<Id>)
    requires forall e :: e in edges && e.target in s ==> e.source in s
    requires Walk(edges, w) && w[|w| - 1] in s
    ensures w[0] in s
  {
    if |w| > 1 {
      assert Joined(edges, w[0], w[1]);
      BackClosedContains(edges, s, w[1..]);
    }
  }

  // ---------------------------------------------------------------- adjacency

  predicate EdgeLe(a: Edge, b: Edge) {
    if a.target == b.target then Le(a.id, b.id) else Le(a.target, b.target)
  }

  lemma EdgeOrderIsTotal()
    ensures TotalPreorder(EdgeLe)
  {
    forall a, b ensures EdgeLe(a, b) || EdgeLe(b, a) {
      LeTotal(a.id, b.id);
      LeTotal(a.target, b.target);
    }
    forall a, b, c | EdgeLe(a, b) && EdgeLe(b, c) ensures EdgeLe(a, c) {
      if a.target == b.target == c.target {
        LeTransitive(a.id, b.id, c.id);
      } else if a.target != b.target && b.target != c.target {
        LeTransitive(a.target, b.target, c.target);
        if a.target == c.target { LeAntisymmetric(a.target, b.target); }
      }
    }
  }

  function From(edges: seq<Edge>, a: Id): seq<Edge> {
    if edges == [] then []
    else if edges[|edges| - 1].source == a then From(edges[..|edges| - 1], a) + [edges[|edges| - 1]]
    else From(edges[..|edges| - 1], a)
  }

  function Lookup<K, V>(m: map<K, seq<V>>, k: K): seq<V> {
    if k in m then m[k] else []
  }

  lemma {:induction false} FromHolds(edges: seq<Edge>, a: Id)
    ensures forall e :: e in From(edges, a) <==> e in edges && e.source == a
  {
    if edges != [] {
      FromHolds(edges[..|edges| - 1], a);
      assert edges == edges[..|edges| - 1] + [edges[|edges| - 1]];
    }
  }

  /** Outgoing edges of every node, ordered by target and then by id. */
  method GroupBySource(edges: seq<Edge>) returns (adjacency: map<Id, seq<Edge>>)
    ensures forall a :: Lookup(adjacency, a) == Sort(From(edges, a), EdgeLe)
  {
    adjacency := map[];
    for i := 0 to |edges|
      invariant forall a :: Lookup(adjacency, a) == From(edges[..i], a)
    {
      var e := edges[i];
      assert edges[..i + 1] == edges[..i] + [e];
      adjacency := adjacency[e.source := Lookup(adjacency, e.source) + [e]];
    }
    assert edges[..|edges|] == edges;
    ghost var grouped := adjacency;
    adjacency := map a | a in adjacency :: Sort(adjacency[a], EdgeLe);
    forall a ensures Lookup(adjacency, a) == Sort(From(edges, a), EdgeLe) {
      assert Lookup(grouped, a) == From(edges, a);
    }
  }

  // ----------------------------------------------------------- forward search

  /** The shape of a breadth-first tree. `order` lists the discovered nodes in the order of
      discovery and `parent[i]` is the position in `order` of the node that discovered
      `order[i]`. Discoverers come in order, and one discoverer's children are ascending. */
  ghost predicate Tree(edges: seq<Edge>, start: Id, order: seq<Id>, parent: seq<nat>) {
    && |order| == |parent| > 0 && order[0] == start && parent[0] == 0
    && (forall i, j :: 0 <= i < j < |order| ==> order[i] != order[j])
    && (forall i :: 1 <= i < |order| ==> parent[i] < i && Joined(edges, order[parent[i]], order[i]))
    && (forall i, j :: 1 <= i < j < |order| ==> parent[i] <= parent[j])
    && (forall i, j :: 1 <= i < j < |order| && parent[i] == parent[j] ==> Lt(order[i], order[j]))
  }

  ghost predicate LeastEdge(edges: seq<Edge>, e: Edge) {
    e in edges && forall f :: f in edges && f.source == e.source && f.target == e.target ==> Le(e.id, f.id)
  }

  /** The predecessor table records the tree: the discoverer and the least edge from it. */
  ghost predicate Records(edges: seq<Edge>, order: seq<Id>, parent: seq<nat>, predecessor: map<Id, (Id, Edge)>)
    requires |order| == |parent| > 0
  {
    && (forall x :: x in predecessor ==> x in order[1..])
    && (forall i :: 1 <= i < |order| ==>
          && order[i] in predecessor
          && parent[i] < |order|
          && predecessor[order[i]].0 == order[parent[i]]
          && predecessor[order[i]].1.source == order[parent[i]]
          && predecessor[order[i]].1.target == order[i]
          && LeastEdge(edges, predecessor[order[i]].1))
  }

  /** The target is discovered, by position `c` or an earlier one. */
  ghost predicate FoundBy(order: seq<Id>, parent: seq<nat>, target: Id, c: nat)
    requires |order| == |parent|
  {
    exists j :: 0 <= j < |order| && order[j] == target && (j == 0 || parent[j] <= c)
  }

  /** Every edge leaving one of the first `head` discovered nodes has been followed. */
  ghost predicate Followed(edges: seq<Edge>, order: seq<Id>, parent: seq<nat>, head: nat)
    requires |order| == |parent| && head <= |order|
  {
    forall i, e :: 0 <= i < head && e in edges && e.source == order[i] ==> FoundBy(order, parent, e.target, i)
  }

  /** A finished breadth-first tree. */
  ghost predicate Spanning(edges: seq<Edge>, start: Id, order: seq<Id>, parent: seq<nat>) {
    Tree(edges, start, order, parent) && Followed(edges, order, parent, |order|)
  }

  ghost function Targets(edges: seq<Edge>): set<Id> {
    set e | e in edges :: e.target
  }

  lemma OutgoingOrder(edges: seq<Edge>, a: Id, outgoing: seq<Edge>)
    requires outgoing == Sort(From(edges, a), EdgeLe)
    ensures SortedBy(outgoing, EdgeLe)
    ensures forall e :: e in outgoing <==> e in edges && e.source == a
  {
    EdgeOrderIsTotal();
    SortSorts(From(edges, a), EdgeLe);
    SortKeeps(From(edges, a), EdgeLe);
    FromHolds(edges, a);
  }

  lemma FoundByGrows(order: seq<Id>, parent: seq<nat>, x: Id, c: nat, t: Id, d: nat)
    requires |order| == |parent| && FoundBy(order, parent, t, d)
    ensures FoundBy(order + [x], parent + [c], t, d)
  {
    var j :| 0 <= j < |order| && order[j] == t && (j == 0 || parent[j] <= d);
    assert (order + [x])[j] == t && (parent + [c])[j] == parent[j];
  }

  /** Midway through the edges of the node at position `c`: the first `k` have been followed. */
  ghost predicate Expanding(edges: seq<Edge>, start: Id, order: seq<Id>, parent: seq<nat>,
                            predecessor: map<Id, (Id, Edge)>, outgoing: seq<Edge>, c: nat, k: nat)
  {
    && Tree(edges, start, order, parent) && Records(edges, order, parent, predecessor)
    && c < |order| && k <= |outgoing|
    && SortedBy(outgoing, EdgeLe)
    && (forall e :: e in outgoing <==> e in edges && e.source == order[c])
    && Followed(edges, order, parent, c)
    && (forall i :: 1 <= i < |order| ==> parent[i] <= c)
    && (forall m :: 0 <= m < k ==> FoundBy(order, parent, outgoing[m].target, c))
    && ChildrenListed(order, parent, outgoing, c, k)
  }

  /** The nodes discovered from position `c` are targets of the edges already followed. */
  ghost predicate ChildrenListed(order: seq<Id>, parent: seq<nat>, outgoing: seq<Edge>, c: nat, k: nat)
    requires |order| == |parent| && k <= |outgoing|
  {
    forall j :: 1 <= j < |order| && parent[j] == c ==> exists m :: 0 <= m < k && outgoing[m].target == order[j]
  }

  lemma OneMoreChild(order: seq<Id>, parent: seq<nat>, outgoing: seq<Edge>, c: nat, k: nat)
    requires |order| == |parent| && k < |outgoing| && ChildrenListed(order, parent, outgoing, c, k)
    ensures ChildrenListed(order + [outgoing[k].target], parent + [c], outgoing, c, k + 1)
  {
    var order', parent' := order + [outgoing[k].target], parent + [c];
    forall j | 1 <= j < |order'| && parent'[j] == c
      ensures exists m :: 0 <= m < k + 1 && outgoing[m].target == order'[j]
    {
      if j < |order| {
        var m :| 0 <= m < k && outgoing[m].target == order[j];
      } else {
        assert outgoing[k].target == order'[j];
      }
    }
  }

  lemma TreeShape(edges: seq<Edge>, start: Id, order: seq<Id>, parent: seq<nat>)
    requires Tree(edges, start, order, parent)
    ensures |order| == |parent|
  {
  }

  /** An undiscovered target of the node at position `c`, taken in edge order, extends the tree. */
  lemma Discover(edges: seq<Edge>, start: Id, order: seq<Id>, parent: seq<nat>, predecessor: map<Id, (Id, Edge)>,
                 outgoing: seq<Edge>, c: nat, k: nat)
    requires Expanding(edges, start, order, parent, predecessor, outgoing, c, k)
    requires k < |outgoing| && outgoing[k].target !in order
    ensures Expanding(edges, start, order + [outgoing[k].target], parent + [c],
                      predecessor[outgoing[k].target := (order[c], outgoing[k])], outgoing, c, k + 1)
  {
    hide Tree, Records, Followed, FoundBy, ChildrenListed, SortedBy, Le;
    TreeShape(edges, start, order, parent);
    DiscoverOrder(edges, start, order, parent, predecessor, outgoing, c, k);
    DiscoverRecord(edges, start, order, parent, predecessor, outgoing, c, k);
    DiscoverFound(edges, start, order, parent, predecessor, outgoing, c, k);
    OneMoreChild(order, parent, outgoing, c, k);
  }

  lemma DiscoverFound(edges: seq<Edge>, start: Id, order: seq<Id>, parent: seq<nat>, predecessor: map<Id, (Id, Edge)>,
                      outgoing: seq<Edge>, c: nat, k: nat)
    requires Expanding(edges, start, order, parent, predecessor, outgoing, c, k)
    requires k < |outgoing|
    ensures Followed(edges, order + [outgoing[k].target], parent + [c], c)
    ensures forall m :: 0 <= m < k + 1 ==> FoundBy(order + [outgoing[k].target], parent + [c], outgoing[m].target, c)
  {
    var x := outgoing[k].target;
    var order', parent' := order + [x], parent + [c];
    assert order'[|order|] == x && parent'[|order|] == c;
    forall m | 0 <= m < k + 1
      ensures FoundBy(order', parent', outgoing[m].target, c)
    {
      if m < k { FoundByGrows(order, parent, x, c, outgoing[m].target, c); }
    }
    forall i, e | 0 <= i < c && e in edges && e.source == order'[i]
      ensures FoundBy(order', parent', e.target, i)
    {
      FoundByGrows(order, parent, x, c, e.target, i);
    }
  }

  lemma AlreadyFound(edges: seq<Edge>, start: Id, order: seq<Id>, parent: seq<nat>, predecessor: map<Id, (Id, Edge)>,
                     outgoing: seq<Edge>, c: nat, k: nat)
    requires Expanding(edges, start, order, parent, predecessor, outgoing, c, k)
    requires k < |outgoing| && outgoing[k].target in order
    ensures Expanding(edges, start, order, parent, predecessor, outgoing, c, k + 1)
  {
    var j :| 0 <= j < |order| && order[j] == outgoing[k].target;
    assert FoundBy(order, parent, outgoing[k].target, c);
  }

  lemma Exhausted(edges: seq<Edge>, start: Id, order: seq<Id>, parent: seq<nat>, predecessor: map<Id, (Id, Edge)>,
                  outgoing: seq<Edge>, c: nat)
    requires Expanding(edges, start, order, parent, predecessor, outgoing, c, |outgoing|)
    ensures Searching(edges, start, order, parent, predecessor, c + 1)
  {
    forall i, e | 0 <= i < c + 1 && e in edges && e.source == order[i]
      ensures FoundBy(order, parent, e.target, i)
    {
      if i == c {
        var m :| 0 <= m < |outgoing| && outgoing[m] == e;
      }
    }
  }

  lemma DiscoverOrder(edges: seq<Edge>, start: Id, order: seq<Id>, parent: seq<nat>, predecessor: map<Id, (Id, Edge)>,
                      outgoing: seq<Edge>, c: nat, k: nat)
    requires Expanding(edges, start, order, parent, predecessor, outgoing, c, k)
    requires k < |outgoing| && outgoing[k].target !in order
    ensures Tree(edges, start, order + [outgoing[k].target], parent + [c])
  {
    hide Records, Followed, FoundBy, Le;
    var edge := outgoing[k];
    assert edge in outgoing;
    assert Joined(edges, order[c], edge.target);
    forall i | 1 <= i < |order| && parent[i] == c
      ensures Lt(order[i], edge.target)
    {
      var m :| 0 <= m < k && outgoing[m].target == order[i];
      assert EdgeLe(outgoing[m], outgoing[k]);
      assert order[i] in order;
    }
    TreeGrows(edges, start, order, parent, edge.target, c);
  }

  lemma TreeGrows(edges: seq<Edge>, start: Id, order: seq<Id>, parent: seq<nat>, x: Id, c: nat)
    requires Tree(edges, start, order, parent) && c < |order| && x !in order && Joined(edges, order[c], x)
    requires forall i :: 1 <= i < |order| ==> parent[i] <= c
    requires forall i :: 1 <= i < |order| && parent[i] == c ==> Lt(order[i], x)
    ensures Tree(edges, start, order + [x], parent + [c])
  {
    hide Joined, Lt;
  }

  lemma DiscoverRecord(edges: seq<Edge>, start: Id, order: seq<Id>, parent: seq<nat>, predecessor: map<Id, (Id, Edge)>,
                       outgoing: seq<Edge>, c: nat, k: nat)
    requires Expanding(edges, start, order, parent, predecessor, outgoing, c, k)
    requires k < |outgoing| && outgoing[k].target !in order
    ensures Records(edges, order + [outgoing[k].target], parent + [c],
                    predecessor[outgoing[k].target := (order[c], outgoing[k])])
  {
    hide Records, Followed, LeastEdge;
    assert outgoing[k] in outgoing;
    NextIsLeast(edges, start, order, parent, predecessor, outgoing, c, k);
    RecordsGrow(edges, order, parent, predecessor, outgoing[k], c);
  }

  lemma NextIsLeast(edges: seq<Edge>, start: Id, order: seq<Id>, parent: seq<nat>, predecessor: map<Id, (Id, Edge)>,
                    outgoing: seq<Edge>, c: nat, k: nat)
    requires Expanding(edges, start, order, parent, predecessor, outgoing, c, k)
    requires k < |outgoing| && outgoing[k].target !in order
    ensures LeastEdge(edges, outgoing[k])
  {
    hide Tree, Records, Followed, ChildrenListed;
    var edge := outgoing[k];
    assert edge in outgoing;
    assert forall m :: 0 <= m < k ==> outgoing[m].target in order;
    hide FoundBy;
    forall f | f in edges && f.source == edge.source && f.target == edge.target
      ensures Le(edge.id, f.id)
    {
      var m :| 0 <= m < |outgoing| && outgoing[m] == f;
      if m == k { LeReflexive(f.id); } else { assert EdgeLe(outgoing[k], outgoing[m]); }
    }
  }

  lemma RecordsGrow(edges: seq<Edge>, order: seq<Id>, parent: seq<nat>, predecessor: map<Id, (Id, Edge)>,
                      e: Edge, c: nat)
    requires |order| == |parent| > c && Records(edges, order, parent, predecessor)
    requires e.source == order[c] && e.target !in order && LeastEdge(edges, e)
    ensures Records(edges, order + [e.target], parent + [c], predecessor[e.target := (order[c], e)])
  {
    hide LeastEdge;
    var order', parent' := order + [e.target], parent + [c];
    assert order'[1..] == order[1..] + [e.target];
    forall i | 1 <= i < |order| ensures order[i] != e.target { assert order[i] in order; }
  }

  /** Everything in the tree is reached from its root. */
  lemma {:induction false} TreeReached(edges: seq<Edge>, start: Id, order: seq<Id>, parent: seq<nat>, i: nat)
    requires Tree(edges, start, order, parent) && i < |order|
    ensures Reaches(edges, start, order[i])
  {
    if i == 0 {
      ReachesSelf(edges, start);
    } else {
      TreeReached(edges, start, order, parent, parent[i]);
      var e :| e in edges && e.source == order[parent[i]] && e.target == order[i];
      ReachesAppend(edges, start, e);
    }
  }

  /** A finished tree holds exactly the nodes reached from its root. */
  lemma SpanningIsReachable(edges: seq<Edge>, start: Id, order: seq<Id>, parent: seq<nat>)
    requires Spanning(edges, start, order, parent)
    ensures forall x :: x in order <==> Reaches(edges, start, x)
  {
    forall x | x in order
      ensures Reaches(edges, start, x)
    {
      var i :| 0 <= i < |order| && order[i] == x;
      TreeReached(edges, start, order, parent, i);
    }
    var nodes := set x | x in order;
    forall e | e in edges && e.source in nodes
      ensures e.target in nodes
    {
      var i :| 0 <= i < |order| && order[i] == e.source;
      assert FoundBy(order, parent, e.target, i);
    }
    forall x | Reaches(edges, start, x)
      ensures x in order
    {
      var w :| WalkBetween(edges, w, start, x);
      assert order[0] in nodes;
      ClosedContains(edges, nodes, w);
    }
  }

  /** Between two dequeues: the first `head` discovered nodes are done with. */
  ghost predicate Searching(edges: seq<Edge>, start: Id, order: seq<Id>, parent: seq<nat>,
                            predecessor: map<Id, (Id, Edge)>, head: nat)
  {
    && Tree(edges, start, order, parent) && Records(edges, order, parent, predecessor)
    && head <= |order| && Followed(edges, order, parent, head)
    && (forall i :: 1 <= i < |order| ==> parent[i] < head)
  }

  lemma NextQueue(order: seq<Id>, head: nat, found: seq<Id>)
    requires head < |order|
    ensures order[head..][1..] + found == (order + found)[head + 1..]
  {
  }

  lemma StartSearching(edges: seq<Edge>, start: Id)
    ensures Searching(edges, start, [start], [0], map[], 0)
  {
  }

  lemma TreeFits(edges: seq<Edge>, start: Id, order: seq<Id>, parent: seq<nat>, predecessor: map<Id, (Id, Edge)>,
                 head: nat, universe: set<Id>)
    requires Searching(edges, start, order, parent, predecessor, head)
    requires forall x :: x in order ==> x in universe
    ensures |order| <= |universe|
  {
    DistinctFit(order, universe);
  }

  lemma StartExpanding(edges: seq<Edge>, start: Id, order: seq<Id>, parent: seq<nat>, predecessor: map<Id, (Id, Edge)>,
                       outgoing: seq<Edge>, c: nat)
    requires Searching(edges, start, order, parent, predecessor, c) && c < |order|
    requires outgoing == Sort(From(edges, order[c]), EdgeLe)
    ensures Expanding(edges, start, order, parent, predecessor, outgoing, c, 0)
    ensures forall k :: 0 <= k < |outgoing| ==> outgoing[k].target in Targets(edges)
  {
    OutgoingOrder(edges, order[c], outgoing);
    forall k | 0 <= k < |outgoing| ensures outgoing[k].target in Targets(edges) { assert outgoing[k] in outgoing; }
  }

  /** Follows the edges of the dequeued node, in order; `found` are the nodes they discover. */
  method Expand(edges: seq<Edge>, ghost start: Id, current: Id, outgoing: seq<Edge>, reachable0: set<Id>,
                predecessor0: map<Id, (Id, Edge)>, ghost order: seq<Id>, ghost parent: seq<nat>, ghost c: nat)
    returns (reachable: set<Id>, predecessor: map<Id, (Id, Edge)>, found: seq<Id>, ghost parent': seq<nat>)
    requires Expanding(edges, start, order, parent, predecessor0, outgoing, c, 0) && order[c] == current
    requires forall x :: x in reachable0 <==> x in order
    ensures Searching(edges, start, order + found, parent', predecessor, c + 1)
    ensures forall x :: x in reachable <==> x in order + found
    ensures forall x :: x in found ==> x in Targets(edges)
  {
    reachable, predecessor, found, parent' := reachable0, predecessor0, [], parent;
    hide Tree, Records, Followed, FoundBy;
    assert order + found == order;
    for k := 0 to |outgoing|
      invariant Expanding(edges, start, order + found, parent', predecessor, outgoing, c, k)
      invariant forall x :: x in reachable <==> x in order + found
      invariant forall x :: x in found ==> x in Targets(edges)
    {
      var edge := outgoing[k];
      assert edge in outgoing;
      if edge.target !in reachable {
        Discover(edges, start, order + found, parent', predecessor, outgoing, c, k);
        assert (order + found) + [edge.target] == order + (found + [edge.target]);
        reachable := reachable + {edge.target};
        predecessor := predecessor[edge.target := (current, edge)];
        found, parent' := found + [edge.target], parent' + [c];
      } else {
        AlreadyFound(edges, start, order + found, parent', predecessor, outgoing, c, k);
      }
    }
    Exhausted(edges, start, order + found, parent', predecessor, outgoing, c);
  }

  /** Breadth-first search along edges ordered by target and id. */
  method ForwardSearch(edges: seq<Edge>, start: Id)
    returns (reachable: set<Id>, predecessor: map<Id, (Id, Edge)>, ghost order: seq<Id>, ghost parent: seq<nat>)
    ensures Spanning(edges, start, order, parent)
    ensures Records(edges, order, parent, predecessor)
    ensures forall x :: x in reachable <==> x in order
    ensures forall x :: x in reachable <==> Reaches(edges, start, x)
  {
    var adjacency := GroupBySource(edges);
    reachable := {start};
    predecessor := map[];
    var queue := [start];
    order, parent := [start], [0];
    ghost var head: nat := 0;
    ghost var universe := Targets(edges) + {start};
    StartSearching(edges, start);
    while queue != []
      invariant Searching(edges, start, order, parent, predecessor, head) && queue == order[head..]
      invariant forall x :: x in reachable <==> x in order
      invariant forall x :: x in order ==> x in universe
      decreases |universe| - |order|, |queue|
    {
      hide *;
      var current := queue[0];
      queue := queue[1..];
      var outgoing := Lookup(adjacency, current);
      StartExpanding(edges, start, order, parent, predecessor, outgoing, head);
      var found;
      reachable, predecessor, found, parent :=
        Expand(edges, start, current, outgoing, reachable, predecessor, order, parent, head);
      NextQueue(order, head, found);
      queue := queue + found;
      order := order + found;
      head := head + 1;
      TreeFits(edges, start, order, parent, predecessor, head, universe);
    }
    SpanningIsReachable(edges, start, order, parent);
  }
}
