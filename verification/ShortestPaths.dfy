/** What a finished breadth-first tree says about paths: the path to a node along discoverers
    is a shortest walk and, among the shortest, the least one in text order. */
module ShortestPaths {
  import opened Ordering
  import opened Search

  ghost predicate Rooted(parent: seq<nat>) {
    && |parent| > 0
    && (forall i :: 1 <= i < |parent| ==> parent[i] < i)
    && (forall i, j :: 1 <= i < j < |parent| ==> parent[i] <= parent[j])
  }

  ghost function Depth(parent: seq<nat>, i: nat): nat
    requires Rooted(parent) && i < |parent|
  {
    if i == 0 then 0 else 1 + Depth(parent, parent[i])
  }

  ghost function PathTo(order: seq<Id>, parent: seq<nat>, i: nat): (p: seq<Id>)
    requires Rooted(parent) && i < |parent| == |order|
    ensures |p| == Depth(parent, i) + 1 && p[|p| - 1] == order[i]
  {
    if i == 0 then [order[0]] else PathTo(order, parent, parent[i]) + [order[i]]
  }

  lemma {:induction false} DepthMonotone(parent: seq<nat>, i: nat, j: nat)
    requires Rooted(parent) && i <= j < |parent|
    ensures Depth(parent, i) <= Depth(parent, j)
    decreases j
  {
    if i != 0 && i != j {
      DepthMonotone(parent, parent[i], parent[j]);
    }
  }

  /** Text order on equally long paths: the first difference decides. */
  ghost predicate PathLe(a: seq<Id>, b: seq<Id>) {
    a == b || exists k :: 0 <= k < |a| && k < |b| && a[..k] == b[..k] && Lt(a[k], b[k])
  }

  lemma PathLeTransitive(a: seq<Id>, b: seq<Id>, c: seq<Id>)
    requires PathLe(a, b) && PathLe(b, c)
    ensures PathLe(a, c)
  {
    if a != b && b != c {
      var k :| 0 <= k < |a| && k < |b| && a[..k] == b[..k] && Lt(a[k], b[k]);
      var l :| 0 <= l < |b| && l < |c| && b[..l] == c[..l] && Lt(b[l], c[l]);
      if k < l {
        assert b[..l][k] == c[..l][k] && b[..l][..k] == b[..k] && c[..l][..k] == c[..k];
      } else if l < k {
        assert a[..k][l] == b[..k][l] && a[..k][..l] == a[..l] && b[..k][..l] == b[..l];
      } else {
        LeTransitive(a[k], b[k], c[k]);
        if a[k] == c[k] { LeAntisymmetric(a[k], b[k]); }
      }
    }
  }

  lemma SameBelow(a: seq<Id>, b: seq<Id>, l: nat, k: nat)
    requires k < l <= |a| && l <= |b| && a[..l] == b[..l]
    ensures a[k] == b[k]
  {
    assert a[..l][k] == b[..l][k];
  }

  lemma PathLeAntisymmetric(a: seq<Id>, b: seq<Id>)
    requires PathLe(a, b) && PathLe(b, a)
    ensures a == b
  {
    if a != b {
      var k :| 0 <= k < |a| && k < |b| && a[..k] == b[..k] && Lt(a[k], b[k]);
      var l :| 0 <= l < |b| && l < |a| && b[..l] == a[..l] && Lt(b[l], a[l]);
      if k < l {
        SameBelow(a, b, l, k);
      } else if l < k {
        SameBelow(a, b, k, l);
      } else {
        LeAntisymmetric(a[k], b[k]);
      }
    }
  }

  lemma PathLeAppend(a: seq<Id>, b: seq<Id>, x: Id, y: Id)
    requires |a| == |b| && PathLe(a, b)
    requires a == b ==> Le(x, y)
    ensures PathLe(a + [x], b + [y])
  {
    if a != b {
      var k :| 0 <= k < |a| && k < |b| && a[..k] == b[..k] && Lt(a[k], b[k]);
      assert (a + [x])[..k] == a[..k] && (b + [y])[..k] == b[..k];
      assert (a + [x])[k] == a[k] && (b + [y])[k] == b[k];
    } else if x != y {
      assert (a + [x])[..|a|] == a == (b + [y])[..|a|];
      assert (a + [x])[|a|] == x && (b + [y])[|a|] == y;
    }
  }

  /** Discovery order within one depth is the text order of the paths. */
  lemma {:induction false} DiscoveryOrder(edges: seq<Edge>, start: Id, order: seq<Id>, parent: seq<nat>, i: nat, j: nat)
    requires Tree(edges, start, order, parent) && i <= j < |order|
    requires Depth(parent, i) == Depth(parent, j)
    ensures PathLe(PathTo(order, parent, i), PathTo(order, parent, j))
    decreases j
  {
    if i != j {
      var a, b := PathTo(order, parent, parent[i]), PathTo(order, parent, parent[j]);
      DiscoveryOrder(edges, start, order, parent, parent[i], parent[j]);
      if a == b {
        assert order[parent[i]] == order[parent[j]];
        assert parent[i] == parent[j];
      }
      PathLeAppend(a, b, order[i], order[j]);
    }
  }

  lemma {:induction false} PathIsWalk(edges: seq<Edge>, start: Id, order: seq<Id>, parent: seq<nat>, i: nat)
    requires Tree(edges, start, order, parent) && i < |order|
    ensures WalkBetween(edges, PathTo(order, parent, i), start, order[i])
  {
    if i != 0 {
      PathIsWalk(edges, start, order, parent, parent[i]);
      assert Joined(edges, order[parent[i]], order[i]);
    }
  }

  /** No walk to a node is shorter than the tree path to it. */
  lemma {:induction false} NoShorterWalk(edges: seq<Edge>, start: Id, order: seq<Id>, parent: seq<nat>, w: seq<Id>)
      returns (j: nat)
    requires Spanning(edges, start, order, parent)
    requires Walk(edges, w) && w[0] == start
    ensures j < |order| && order[j] == w[|w| - 1] && Depth(parent, j) <= |w| - 1
  {
    if |w| == 1 {
      j := 0;
    } else {
      var v := w[..|w| - 1];
      var i := NoShorterWalk(edges, start, order, parent, v);
      j := FollowEdge(edges, start, order, parent, i, w[|w| - 1]);
      if j > 0 { DepthMonotone(parent, parent[j], i); }
    }
  }

  lemma FollowEdge(edges: seq<Edge>, start: Id, order: seq<Id>, parent: seq<nat>, i: nat, x: Id) returns (j: nat)
    requires Spanning(edges, start, order, parent) && i < |order| && Joined(edges, order[i], x)
    ensures j < |order| && order[j] == x && (j == 0 || parent[j] <= i)
  {
    var e :| e in edges && e.source == order[i] && e.target == x;
    assert FoundBy(order, parent, e.target, i);
    j :| 0 <= j < |order| && order[j] == x && (j == 0 || parent[j] <= i);
  }

  /** Among the walks as short as the tree path, the tree path is the least. */
  lemma {:induction false} LeastAmongShortest(edges: seq<Edge>, start: Id, order: seq<Id>, parent: seq<nat>,
                                             w: seq<Id>, j: nat)
    requires Spanning(edges, start, order, parent) && j < |order|
    requires WalkBetween(edges, w, start, order[j]) && |w| == Depth(parent, j) + 1
    ensures PathLe(PathTo(order, parent, j), w)
    decreases |w|
  {
    if |w| > 1 {
      var v := w[..|w| - 1];
      var i := NoShorterWalk(edges, start, order, parent, v);
      var j' := FollowEdge(edges, start, order, parent, i, w[|w| - 1]);
      assert j' == j;
      DepthMonotone(parent, parent[j], i);
      LeastAmongShortest(edges, start, order, parent, v, i);
      DiscoveryOrder(edges, start, order, parent, parent[j], i);
      PathLeTransitive(PathTo(order, parent, parent[j]), PathTo(order, parent, i), v);
      LeReflexive(order[j]);
      PathLeAppend(PathTo(order, parent, parent[j]), v, order[j], order[j]);
      assert v + [order[j]] == w;
    } else {
      assert w == [start];
    }
  }

  // ------------------------------------------------------------ counterexamples

  /** The reported path: a shortest walk, the least of the shortest, through least edge ids. */
  ghost predicate LeastShortestPath(edges: seq<Edge>, start: Id, x: Id, states: seq<Id>, transitions: seq<Id>) {
    && WalkBetween(edges, states, start, x)
    && LeastSteps(edges, states, transitions)
    && (forall w :: WalkBetween(edges, w, start, x) ==>
          |states| <= |w| && (|w| == |states| ==> PathLe(states, w)))
  }

  /** `t` is the least id of an edge from `a` to `b`. */
  ghost predicate StepId(edges: seq<Edge>, a: Id, b: Id, t: Id) {
    exists e :: LeastEdge(edges, e) && e.source == a && e.target == b && e.id == t
  }

  ghost predicate LeastSteps(edges: seq<Edge>, states: seq<Id>, transitions: seq<Id>) {
    && |transitions| == |states| - 1
    && (forall k :: 0 <= k < |transitions| ==> StepId(edges, states[k], states[k + 1], transitions[k]))
  }

  lemma StepsAppend(edges: seq<Edge>, states: seq<Id>, transitions: seq<Id>, x: Id, t: Id)
    requires LeastSteps(edges, states, transitions) && StepId(edges, states[|states| - 1], x, t)
    ensures LeastSteps(edges, states + [x], transitions + [t])
  {
  }

  /** The reported path is determined by which edges exist, not by how they are listed. */
  lemma PathIgnoresInputOrder(edges: seq<Edge>, edges': seq<Edge>, start: Id, x: Id,
                              states: seq<Id>, transitions: seq<Id>, states': seq<Id>, transitions': seq<Id>)
    requires forall e :: e in edges <==> e in edges'
    requires LeastShortestPath(edges, start, x, states, transitions)
    requires LeastShortestPath(edges', start, x, states', transitions')
    ensures states == states' && transitions == transitions'
  {
    SameWalks(edges, edges', states, start, x);
    SameWalks(edges', edges, states', start, x);
    assert PathLe(states, states') && PathLe(states', states);
    PathLeAntisymmetric(states, states');
    forall k | 0 <= k < |transitions|
      ensures transitions[k] == transitions'[k]
    {
      assert StepId(edges, states[k], states[k + 1], transitions[k]);
      assert StepId(edges', states[k], states[k + 1], transitions'[k]);
      var e :| LeastEdge(edges, e) && e.source == states[k] && e.target == states[k + 1] && e.id == transitions[k];
      var f :| LeastEdge(edges', f) && f.source == states[k] && f.target == states[k + 1] && f.id == transitions'[k];
      LeAntisymmetric(e.id, f.id);
    }
  }

  lemma SameWalks(edges: seq<Edge>, edges': seq<Edge>, w: seq<Id>, a: Id, b: Id)
    requires forall e :: e in edges <==> e in edges'
    requires WalkBetween(edges, w, a, b)
    ensures WalkBetween(edges', w, a, b)
  {
    forall i | 0 <= i < |w| - 1 ensures Joined(edges', w[i], w[i + 1]) {
      assert Joined(edges, w[i], w[i + 1]);
    }
  }

  ghost function StepsTo(order: seq<Id>, parent: seq<nat>, predecessor: map<Id, (Id, Edge)>, i: nat): (t: seq<Id>)
    requires Rooted(parent) && i < |parent| == |order|
    requires forall k :: 1 <= k < |order| ==> order[k] in predecessor
    ensures |t| == Depth(parent, i)
  {
    if i == 0 then [] else StepsTo(order, parent, predecessor, parent[i]) + [predecessor[order[i]].1.id]
  }

  lemma {:induction false} StepsAreLeast(edges: seq<Edge>, start: Id, order: seq<Id>, parent: seq<nat>,
                                         predecessor: map<Id, (Id, Edge)>, i: nat)
    requires Tree(edges, start, order, parent) && Records(edges, order, parent, predecessor) && i < |order|
    ensures LeastSteps(edges, PathTo(order, parent, i), StepsTo(order, parent, predecessor, i))
  {
    if i != 0 {
      StepsAreLeast(edges, start, order, parent, predecessor, parent[i]);
      var e := predecessor[order[i]].1;
      assert StepId(edges, order[parent[i]], order[i], e.id);
      StepsAppend(edges, PathTo(order, parent, parent[i]), StepsTo(order, parent, predecessor, parent[i]),
                  order[i], e.id);
    }
  }

  lemma TreePathIsLeastShortest(edges: seq<Edge>, start: Id, order: seq<Id>, parent: seq<nat>,
                                predecessor: map<Id, (Id, Edge)>, i: nat)
    requires Spanning(edges, start, order, parent) && Records(edges, order, parent, predecessor) && i < |order|
    ensures LeastShortestPath(edges, start, order[i], PathTo(order, parent, i), StepsTo(order, parent, predecessor, i))
  {
    PathIsWalk(edges, start, order, parent, i);
    StepsAreLeast(edges, start, order, parent, predecessor, i);
    forall w | WalkBetween(edges, w, start, order[i])
      ensures |PathTo(order, parent, i)| <= |w|
      ensures |w| == |PathTo(order, parent, i)| ==> PathLe(PathTo(order, parent, i), w)
    {
      var j := NoShorterWalk(edges, start, order, parent, w);
      assert j == i;
      if |w| == Depth(parent, i) + 1 { LeastAmongShortest(edges, start, order, parent, w, i); }
    }
  }

  function Reversed<T>(xs: seq<T>): (r: seq<T>)
    ensures |r| == |xs|
  {
    if xs == [] then [] else Reversed(xs[1..]) + [xs[0]]
  }

  lemma {:induction false} ReversedAppend<T>(xs: seq<T>, x: T)
    ensures Reversed(xs + [x]) == [x] + Reversed(xs)
  {
    if xs == [] {
      assert Reversed([x]) == Reversed<T>([]) + [x];
    } else {
      assert (xs + [x])[1..] == xs[1..] + [x];
      ReversedAppend(xs[1..], x);
    }
  }

  /** The walk back along the predecessor table, reversed into a path from the start. */
  method CounterexamplePath(edges: seq<Edge>, stateId: Id, start: Id, predecessor: map<Id, (Id, Edge)>,
                            ghost order: seq<Id>, ghost parent: seq<nat>)
    returns (states: seq<Id>, transitions: seq<Id>)
    requires Spanning(edges, start, order, parent) && Records(edges, order, parent, predecessor)
    requires stateId in order
    ensures LeastShortestPath(edges, start, stateId, states, transitions)
  {
    states, transitions := [stateId], [];
    var current := stateId;
    ghost var last: nat :| last < |order| && order[last] == stateId;
    ghost var i: nat := last;
    WalkBackStarts(order, parent, predecessor, last);
    while current != start
      invariant i < |order| && order[i] == current
      invariant WalkedBack(order, parent, predecessor, last, i, Reversed(states), Reversed(transitions))
      decreases i
    {
      hide *;
      var (previous, edge) := predecessor[current];
      ReversedAppend(transitions, edge.id);
      ReversedAppend(states, previous);
      StepBack(edges, start, order, parent, predecessor, last, i, Reversed(states), Reversed(transitions));
      transitions := transitions + [edge.id];
      states := states + [previous];
      current := previous;
      i := parent[i];
    }
    WalkBackEnds(order, parent, predecessor, last, Reversed(states), Reversed(transitions));
    TreePathIsLeastShortest(edges, start, order, parent, predecessor, last);
    states := Reversed(states);
    transitions := Reversed(transitions);
  }

  /** The walk back from position `last` has come to position `i`. */
  ghost predicate WalkedBack(order: seq<Id>, parent: seq<nat>, predecessor: map<Id, (Id, Edge)>, last: nat, i: nat,
                             p: seq<Id>, t: seq<Id>)
  {
    && Rooted(parent) && i < |parent| == |order| && last < |parent|
    && (forall k :: 1 <= k < |order| ==> order[k] in predecessor)
    && PathTo(order, parent, last) == PathTo(order, parent, i)[..Depth(parent, i)] + p
    && StepsTo(order, parent, predecessor, last) == StepsTo(order, parent, predecessor, i) + t
  }

  lemma WalkBackStarts(order: seq<Id>, parent: seq<nat>, predecessor: map<Id, (Id, Edge)>, last: nat)
    requires Rooted(parent) && last < |parent| == |order|
    requires forall k :: 1 <= k < |order| ==> order[k] in predecessor
    ensures WalkedBack(order, parent, predecessor, last, last, Reversed([order[last]]), Reversed([]))
  {
    assert Reversed([order[last]]) == [order[last]];
  }

  lemma WalkBackEnds(order: seq<Id>, parent: seq<nat>, predecessor: map<Id, (Id, Edge)>, last: nat,
                     p: seq<Id>, t: seq<Id>)
    requires WalkedBack(order, parent, predecessor, last, 0, p, t)
    ensures p == PathTo(order, parent, last) && t == StepsTo(order, parent, predecessor, last)
  {
    assert PathTo(order, parent, 0)[..0] + p == p && [] + t == t;
  }

  lemma StepBack(edges: seq<Edge>, start: Id, order: seq<Id>, parent: seq<nat>, predecessor: map<Id, (Id, Edge)>,
                 last: nat, i: nat, p: seq<Id>, t: seq<Id>)
    requires Tree(edges, start, order, parent) && Records(edges, order, parent, predecessor)
    requires WalkedBack(order, parent, predecessor, last, i, p, t)
    requires order[i] != start
    ensures order[i] in predecessor && parent[i] < i
    ensures order[parent[i]] == predecessor[order[i]].0
    ensures WalkedBack(order, parent, predecessor, last, parent[i], [predecessor[order[i]].0] + p,
                       [predecessor[order[i]].1.id] + t)
  {
    var q := PathTo(order, parent, parent[i]);
    assert PathTo(order, parent, i)[..Depth(parent, i)] == q;
    Regroup(q[..Depth(parent, parent[i])], order[parent[i]], p);
    Regroup(StepsTo(order, parent, predecessor, parent[i]), predecessor[order[i]].1.id, t);
    assert q == q[..Depth(parent, parent[i])] + [order[parent[i]]];
  }

  lemma Regroup<T>(a: seq<T>, x: T, b: seq<T>)
    ensures (a + [x]) + b == a + ([x] + b)
  {
  }

  // ------------------------------------------------------------ backward search

  /** The sources of the edges into every node. */
  method GroupByTarget(edges: seq<Edge>) returns (reverse: map<Id, seq<Id>>)
    ensures forall u, v :: u in Lookup(reverse, v) <==> Joined(edges, u, v)
  {
    reverse := map[];
    for i := 0 to |edges|
      invariant forall u, v :: u in Lookup(reverse, v) <==> Joined(edges[..i], u, v)
    {
      var e := edges[i];
      JoinedGrows(edges[..i], e);
      assert edges[..i + 1] == edges[..i] + [e];
      reverse := reverse[e.target := Lookup(reverse, e.target) + [e.source]];
    }
    assert edges[..|edges|] == edges;
  }

  /** Adds the new sources, in order; `found` are those that were not known. */
  method Absorb(sources: seq<Id>, known: set<Id>) returns (canReach: set<Id>, found: seq<Id>)
    ensures forall v :: v in canReach <==> v in known || v in sources
    ensures forall v :: v in found <==> v in sources && v !in known
    ensures found == [] ==> canReach == known
  {
    canReach, found := known, [];
    for k := 0 to |sources|
      invariant forall v :: v in canReach <==> v in known || v in sources[..k]
      invariant forall v :: v in found <==> v in sources[..k] && v !in known
      invariant found == [] ==> canReach == known
    {
      assert sources[..k + 1] == sources[..k] + [sources[k]];
      if sources[k] !in canReach {
        canReach := canReach + {sources[k]};
        found := found + [sources[k]];
      }
    }
    assert sources[..|sources|] == sources;
  }

  /** Between two dequeues: everything known reaches a goal, and the known nodes that are not
      queued have had their predecessors added. */
  ghost predicate Backtracking(edges: seq<Edge>, goals: set<Id>, canReach: set<Id>, queue: seq<Id>) {
    && goals <= canReach
    && (forall v :: v in queue ==> v in canReach)
    && (forall v :: v in canReach ==> CanReach(edges, v, goals))
    && (forall e :: e in edges && e.target in canReach && e.target !in queue ==> e.source in canReach)
  }

  lemma Backtrack(edges: seq<Edge>, goals: set<Id>, known: set<Id>, queue: seq<Id>, sources: seq<Id>,
                  canReach: set<Id>, found: seq<Id>)
    requires Backtracking(edges, goals, known, queue) && queue != []
    requires forall u :: u in sources <==> Joined(edges, u, queue[0])
    requires forall v :: v in canReach <==> v in known || v in sources
    requires forall v :: v in found <==> v in sources && v !in known
    ensures Backtracking(edges, goals, canReach, queue[1..] + found)
    ensures forall v :: v in canReach ==> v in known || exists e :: e in edges && e.source == v
  {
    forall v | v in sources
      ensures CanReach(edges, v, goals) && exists e :: e in edges && e.source == v
    {
      Predecessor(edges, v, queue[0], goals);
    }
    forall e | e in edges && e.target in canReach && e.target !in queue[1..] + found
      ensures e.source in canReach
    {
      assert e.target in known;
      if e.target == queue[0] {
        assert Joined(edges, e.source, queue[0]);
      } else {
        assert e.target !in queue;
      }
    }
  }

  /** The nodes from which some goal is reached, by search along reversed edges. */
  method BackwardSearch(edges: seq<Edge>, goals: set<Id>) returns (canReach: set<Id>)
    ensures forall v :: v in canReach <==> CanReach(edges, v, goals)
  {
    var reverse := GroupByTarget(edges);
    canReach := goals;
    var queue := SortedIds(goals);
    ghost var universe := goals + set e | e in edges :: e.source;
    forall v | v in canReach ensures CanReach(edges, v, goals) { ReachesSelf(edges, v); }
    while queue != []
      invariant Backtracking(edges, goals, canReach, queue)
      invariant canReach <= universe
      decreases |universe - canReach|, |queue|
    {
      var sources := Sort(Lookup(reverse, queue[0]), Le);
      SortKeeps(Lookup(reverse, queue[0]), Le);
      var known, found := canReach, [];
      canReach, found := Absorb(sources, known);
      Backtrack(edges, goals, known, queue, sources, canReach, found);
      queue := queue[1..] + found;
      if found != [] {
        assert found[0] in found;
        Shrinks(universe, known, canReach);
      }
    }
    BacktrackComplete(edges, goals, canReach);
  }

  lemma BacktrackComplete(edges: seq<Edge>, goals: set<Id>, canReach: set<Id>)
    requires Backtracking(edges, goals, canReach, [])
    ensures forall v :: v in canReach <==> CanReach(edges, v, goals)
  {
    forall v | CanReach(edges, v, goals)
      ensures v in canReach
    {
      var g :| g in goals && Reaches(edges, v, g);
      var w :| WalkBetween(edges, w, v, g);
      BackClosedContains(edges, canReach, w);
    }
  }

  lemma JoinedGrows(edges: seq<Edge>, e: Edge)
    ensures forall u, v :: Joined(edges + [e], u, v) <==> Joined(edges, u, v) || (u == e.source && v == e.target)
  {
    forall u, v
      ensures Joined(edges + [e], u, v) <==> Joined(edges, u, v) || (u == e.source && v == e.target)
    {
      assert e in edges + [e];
      assert forall f :: f in edges ==> f in edges + [e];
    }
  }

  lemma Predecessor(edges: seq<Edge>, source: Id, current: Id, goals: set<Id>)
    requires Joined(edges, source, current) && CanReach(edges, current, goals)
    ensures CanReach(edges, source, goals)
    ensures exists e :: e in edges && e.source == source
  {
    var g :| g in goals && Reaches(edges, current, g);
    var e :| e in edges && e.source == source && e.target == current;
    ReachesPrepend(edges, e, g);
  }

  lemma Shrinks(universe: set<Id>, a: set<Id>, b: set<Id>)
    requires a <= b <= universe && a != b
    ensures |universe - b| < |universe - a|
  {
    var x :| x in b && x !in a;
    SubsetSize(universe - b, universe - a - {x});
  }
}
