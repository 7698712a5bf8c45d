/** Root-cause collapse: cycle detection by depth-first walk, and the downstream set of each root. */
module RootCause {
  import opened Ordering
  import opened Search

  datatype Finding = Finding(id: Id, invariant_: string)

  datatype Link = Link(source: Id, target: Id, relation: string)

  datatype Model = Model(findings: seq<Finding>, edges: seq<Link>)

  datatype Group = Group(rootFindingId: Id, rootInvariant: string, downstreamFindingIds: seq<Id>)

  datatype Outcome = Refused | CausalGraphCycle | Collapsed(roots: seq<Group>)

  ghost predicate HasFinding(m: Model, id: Id) {
    exists f :: f in m.findings && f.id == id
  }

  ghost predicate WellFormed(m: Model) {
    && (forall i, j :: 0 <= i < j < |m.findings| ==> m.findings[i].id != m.findings[j].id)
    && (forall e :: e in m.edges ==> e.relation == "CAUSES" && HasFinding(m, e.source) && HasFinding(m, e.target))
  }

  predicate Unknown(m: Model, id: Id) {
    forall i :: 0 <= i < |m.findings| ==> m.findings[i].id != id
  }

  lemma UnknownIff(m: Model, id: Id)
    ensures HasFinding(m, id) <==> !Unknown(m, id)
  {
    if i :| 0 <= i < |m.findings| && m.findings[i].id == id { assert m.findings[i] in m.findings; }
  }

  /** A model is refused exactly for a repeated finding, another relation, or an end that is no finding. */
  lemma RefusedIff(m: Model)
    ensures !WellFormed(m) <==>
            || (exists i, j :: 0 <= i < j < |m.findings| && m.findings[i].id == m.findings[j].id)
            || (exists i :: 0 <= i < |m.edges| && m.edges[i].relation != "CAUSES")
            || (exists i :: 0 <= i < |m.edges| && (Unknown(m, m.edges[i].source) || Unknown(m, m.edges[i].target)))
  {
    forall id ensures HasFinding(m, id) <==> !Unknown(m, id) { UnknownIff(m, id); }
    hide HasFinding, Unknown;
  }

  ghost function Arcs(m: Model): seq<Edge> {
    seq(|m.edges|, i requires 0 <= i < |m.edges| => Edge("", m.edges[i].source, m.edges[i].target))
  }

  /** `b` lies downstream of `a`: at least one edge leads there. */
  ghost predicate Downstream(edges: seq<Edge>, a: Id, b: Id) {
    exists w :: |w| > 1 && WalkBetween(edges, w, a, b)
  }

  ghost predicate HasCycle(edges: seq<Edge>) {
    exists a :: Downstream(edges, a, a)
  }

  ghost predicate ChildrenOf(edges: seq<Edge>, children: map<Id, seq<Id>>) {
    && (forall a, b :: Joined(edges, a, b) <==> a in children && b in children[a])
    && (forall a, b :: a in children && b in children[a] ==> b in children)
  }

  // ------------------------------------------------------------ cycle detection

  /** The state the depth-first walk of the original shares between its recursive calls. */
  class CycleSearch {
    const children: map<Id, seq<Id>>
    var visiting: set<Id>
    var visited: set<Id>
    var cycle: bool
    ghost const edges: seq<Edge>
    ghost var trail: seq<Id>     // the nodes being visited, outermost first
    ghost var finished: seq<Id>  // the visited nodes, in the order they were finished

    ghost predicate Valid()
      reads this
    {
      ChildrenOf(edges, children) && Exploring(edges, children, visiting, visited, cycle, trail, finished)
    }

    constructor (children: map<Id, seq<Id>>, ghost edges: seq<Edge>)
      requires ChildrenOf(edges, children)
      ensures Valid() && this.children == children && this.edges == edges
      ensures trail == [] && finished == [] && !cycle
    {
      this.children, this.edges := children, edges;
      visiting, visited, cycle := {}, {}, false;
      trail, finished := [], [];
    }

    method Walk(node: Id)
      requires Valid() && node in children
      requires trail != [] ==> Joined(edges, trail[|trail| - 1], node)
      modifies this
      ensures Valid() && trail == old(trail) && visiting == old(visiting)
      ensures old(finished) <= finished
      ensures old(cycle) ==> cycle
      ensures !cycle ==> node in visited
      decreases children.Keys - visiting, 1
    {
      hide Exploring, ChildrenOf, Joined, Mirrors;
      if node in visiting {
        CloseCycle(edges, children, visiting, visited, cycle, trail, finished, node);
        cycle := true;
        return;
      }
      if node in visited {
        return;
      }
      Enter(edges, children, visiting, visited, cycle, trail, finished, node);
      visiting := visiting + {node};
      trail := trail + [node];
      WalkChildren(node);
      Leave(edges, children, old(visiting), visited, cycle, old(trail), finished, node);
      visiting := visiting - {node};
      visited := visited + {node};
      finished := finished + [node];
      trail := old(trail);
      assert visiting == old(visiting);
    }

    method WalkChildren(node: Id)
      requires Valid() && node in children && trail != [] && trail[|trail| - 1] == node
      modifies this
      ensures Valid() && trail == old(trail) && visiting == old(visiting)
      ensures old(finished) <= finished
      ensures old(cycle) ==> cycle
      ensures !cycle ==> forall b :: Joined(edges, node, b) ==> b in finished
      decreases children.Keys - visiting, 2
    {
      for k := 0 to |children[node]|
        invariant Valid() && trail == old(trail) && visiting == old(visiting)
        invariant old(finished) <= finished
        invariant old(cycle) ==> cycle
        invariant !cycle ==> forall m :: 0 <= m < k ==> children[node][m] in finished
      {
        assert Joined(edges, node, children[node][k]);
        Walk(children[node][k]);
      }
    }
  }

  /** Midway: the trail is a path, and the finished nodes descend unless a cycle was met. */
  ghost predicate Exploring(edges: seq<Edge>, children: map<Id, seq<Id>>, visiting: set<Id>, visited: set<Id>,
                            cycle: bool, trail: seq<Id>, finished: seq<Id>)
  {
    && Mirrors(visiting, trail) && visiting <= children.Keys
    && Mirrors(visited, finished) && visited !! visiting
    && Linked(edges, trail) && AllDifferent(finished)
    && (cycle ==> HasCycle(edges))
    && (!cycle ==> Descending(edges, finished))
  }

  ghost predicate Mirrors(s: set<Id>, xs: seq<Id>) {
    forall x :: x in s <==> x in xs
  }

  lemma Enter(edges: seq<Edge>, children: map<Id, seq<Id>>, visiting: set<Id>, visited: set<Id>,
              cycle: bool, trail: seq<Id>, finished: seq<Id>, node: Id)
    requires Exploring(edges, children, visiting, visited, cycle, trail, finished)
    requires node in children && node !in visiting && node !in visited
    requires trail != [] ==> Joined(edges, trail[|trail| - 1], node)
    ensures Exploring(edges, children, visiting + {node}, visited, cycle, trail + [node], finished)
    ensures Mirrors(visiting, trail)
  {
    TrailGrows(edges, trail, node);
  }

  lemma Leave(edges: seq<Edge>, children: map<Id, seq<Id>>, visiting: set<Id>, visited: set<Id>,
              cycle: bool, trail: seq<Id>, finished: seq<Id>, node: Id)
    requires Exploring(edges, children, visiting + {node}, visited, cycle, trail + [node], finished)
    requires node !in visiting && Mirrors(visiting, trail)
    requires !cycle ==> forall b :: Joined(edges, node, b) ==> b in finished
    ensures Exploring(edges, children, visiting, visited + {node}, cycle, trail, finished + [node])
    ensures (visiting + {node}) - {node} == visiting
  {
    assert node in visiting + {node};
    FinishedGrows(edges, finished, node);
    assert Linked(edges, trail) by {
      forall i | 0 <= i < |trail| - 1 ensures Joined(edges, trail[i], trail[i + 1]) {
        assert Joined(edges, (trail + [node])[i], (trail + [node])[i + 1]);
      }
    }
  }

  lemma CloseCycle(edges: seq<Edge>, children: map<Id, seq<Id>>, visiting: set<Id>, visited: set<Id>,
                   cycle: bool, trail: seq<Id>, finished: seq<Id>, node: Id)
    requires Exploring(edges, children, visiting, visited, cycle, trail, finished)
    requires node in visiting && (trail != [] ==> Joined(edges, trail[|trail| - 1], node))
    ensures Exploring(edges, children, visiting, visited, true, trail, finished)
  {
    TrailCloses(edges, trail, node);
  }

  ghost predicate Linked(edges: seq<Edge>, trail: seq<Id>) {
    forall i :: 0 <= i < |trail| - 1 ==> Joined(edges, trail[i], trail[i + 1])
  }

  lemma TrailGrows(edges: seq<Edge>, trail: seq<Id>, node: Id)
    requires Linked(edges, trail) && (trail != [] ==> Joined(edges, trail[|trail| - 1], node))
    ensures Linked(edges, trail + [node])
  {
  }

  lemma FinishedGrows(edges: seq<Edge>, finished: seq<Id>, node: Id)
    requires AllDifferent(finished) && node !in finished
    ensures AllDifferent(finished + [node])
    ensures (Descending(edges, finished) && forall b :: Joined(edges, node, b) ==> b in finished)
         ==> Descending(edges, finished + [node])
  {
    if Descending(edges, finished) && forall b :: Joined(edges, node, b) ==> b in finished {
      var more := finished + [node];
      forall i, b | 0 <= i < |more| && Joined(edges, more[i], b) ensures b in more[..i] {
        if i < |finished| {
          assert more[..i] == finished[..i];
        } else {
          assert more[..i] == finished;
        }
      }
    }
  }

  /** Edges from a finished node lead to nodes finished before it. */
  ghost predicate Descending(edges: seq<Edge>, finished: seq<Id>) {
    forall i, b :: 0 <= i < |finished| && Joined(edges, finished[i], b) ==> b in finished[..i]
  }

  lemma TrailCloses(edges: seq<Edge>, trail: seq<Id>, node: Id)
    requires Linked(edges, trail)
    requires node in trail && Joined(edges, trail[|trail| - 1], node)
    ensures HasCycle(edges)
  {
    var i :| 0 <= i < |trail| && trail[i] == node;
    var w := trail[i..] + [node];
    forall k | 0 <= k < |w| - 1 ensures Joined(edges, w[k], w[k + 1]) {
      assert w[k] == trail[i + k];
    }
    assert |w| > 1 && WalkBetween(edges, w, node, node);
    assert Downstream(edges, node, node);
  }

  lemma {:induction false} WalksDescend(edges: seq<Edge>, finished: seq<Id>, w: seq<Id>, i: nat) returns (j: nat)
    requires Descending(edges, finished)
    requires Walk(edges, w) && i < |finished| && w[0] == finished[i]
    ensures j < |finished| && w[|w| - 1] == finished[j] && j <= i && (|w| > 1 ==> j < i)
  {
    if |w| == 1 {
      j := i;
    } else {
      assert Joined(edges, w[0], w[1]);
      var k :| 0 <= k < i && finished[..i][k] == w[1];
      j := WalksDescend(edges, finished, w[1..], k);
    }
  }

  /** A finishing order in which every edge descends rules out cycles. */
  lemma DescendingIsAcyclic(edges: seq<Edge>, finished: seq<Id>)
    requires Descending(edges, finished)
    requires AllDifferent(finished)
    requires forall e :: e in edges ==> e.source in finished
    ensures !HasCycle(edges)
  {
    if HasCycle(edges) {
      var a :| Downstream(edges, a, a);
      var w :| |w| > 1 && WalkBetween(edges, w, a, a);
      assert Joined(edges, w[0], w[1]);
      var i :| 0 <= i < |finished| && finished[i] == a;
      var j := WalksDescend(edges, finished, w, i);
    }
  }

  /** Walks from every finding in id order; `cyclic` says whether some walk met its own trail. */
  method DetectCycle(children: map<Id, seq<Id>>, ghost edges: seq<Edge>) returns (cyclic: bool)
    requires ChildrenOf(edges, children)
    ensures cyclic <==> HasCycle(edges)
    ensures !cyclic ==> exists finished ::
              Descending(edges, finished) && AllDifferent(finished) && forall x :: x in children ==> x in finished
  {
    var search := new CycleSearch(children, edges);
    var ids := SortedIds(children.Keys);
    hide SortedIds, Ascending;
    for k := 0 to |ids|
      invariant search.Valid() && search.trail == [] && fresh(search)
      invariant search.children == children && search.edges == edges
      invariant !search.cycle ==> forall m :: 0 <= m < k ==> ids[m] in search.finished
    {
      assert ids[k] in ids;
      search.Walk(ids[k]);
    }
    cyclic := search.cycle;
    if !cyclic {
      forall x | x in children ensures x in search.finished {
        assert x in ids;
        var m :| 0 <= m < |ids| && ids[m] == x;
      }
      forall e | e in edges ensures e.source in search.finished { assert Joined(edges, e.source, e.target); }
      DescendingIsAcyclic(edges, search.finished);
    }
  }

  // ---------------------------------------------------------- downstream sets

  lemma DownstreamOne(edges: seq<Edge>, a: Id, b: Id)
    requires Joined(edges, a, b)
    ensures Downstream(edges, a, b)
  {
    assert WalkBetween(edges, [a, b], a, b);
  }

  lemma DownstreamAppend(edges: seq<Edge>, a: Id, b: Id, c: Id)
    requires Downstream(edges, a, b) && Joined(edges, b, c)
    ensures Downstream(edges, a, c)
  {
    var w :| |w| > 1 && WalkBetween(edges, w, a, b);
    assert WalkBetween(edges, w + [c], a, c);
  }

  /** A set that takes in the children of `a` and of its own members takes in all of downstream. */
  lemma DownstreamWithin(edges: seq<Edge>, a: Id, s: set<Id>)
    requires forall b :: Joined(edges, a, b) ==> b in s
    requires forall x, y :: x in s && Joined(edges, x, y) ==> y in s
    ensures forall b :: Downstream(edges, a, b) ==> b in s
  {
    forall b | Downstream(edges, a, b) ensures b in s {
      var w :| |w| > 1 && WalkBetween(edges, w, a, b);
      assert Joined(edges, w[0], w[1]);
      forall e | e in edges && e.source in s ensures e.target in s { assert Joined(edges, e.source, e.target); }
      ClosedContains(edges, s, w[1..]);
    }
  }

  /** Between two pops: what is known is downstream, and what is missing is stacked. */
  ghost predicate Gathering(edges: seq<Edge>, root: Id, descendants: set<Id>, stack: seq<Id>) {
    && (forall x :: x in descendants || x in stack ==> Downstream(edges, root, x))
    && (forall b :: Joined(edges, root, b) ==> b in descendants || b in stack)
    && (forall x, y :: x in descendants && Joined(edges, x, y) ==> y in descendants || y in stack)
  }

  lemma Pop(edges: seq<Edge>, root: Id, descendants: set<Id>, stack: seq<Id>, x: Id, below: seq<Id>, next: seq<Id>)
    requires Gathering(edges, root, descendants, stack) && stack == below + [x]
    requires forall y :: y in next <==> Joined(edges, x, y)
    ensures x in descendants ==> Gathering(edges, root, descendants, below)
    ensures Gathering(edges, root, descendants + {x}, below + next)
  {
    hide Joined, Downstream;
    assert x in stack;
    forall y | y in next ensures Downstream(edges, root, y) {
      DownstreamAppend(edges, root, x, y);
    }
  }

  method DownstreamOf(children: map<Id, seq<Id>>, root: Id, ghost edges: seq<Edge>) returns (downstream: seq<Id>)
    requires ChildrenOf(edges, children) && root in children
    ensures Ascending(downstream) && forall x :: x in downstream <==> Downstream(edges, root, x)
  {
    var descendants: set<Id> := {};
    var stack := children[root];
    forall b | b in stack ensures Downstream(edges, root, b) { DownstreamOne(edges, root, b); }
    while stack != []
      invariant Gathering(edges, root, descendants, stack)
      invariant forall x :: x in stack ==> x in children
      decreases children.Keys - descendants, |stack|
    {
      var current, below := stack[|stack| - 1], stack[..|stack| - 1];
      assert current in stack && stack == below + [current];
      Pop(edges, root, descendants, stack, current, below, children[current]);
      hide Gathering, Joined;
      stack := below;
      if current !in descendants {
        descendants := descendants + {current};
        stack := below + children[current];
      }
    }
    DownstreamWithin(edges, root, descendants);
    hide SortedIds, Ascending, Downstream, Gathering;
    downstream := SortedIds(descendants);
  }

  // ----------------------------------------------------------------- the verdict

  ghost predicate IsRoot(m: Model, id: Id) {
    HasFinding(m, id) && forall e :: e in m.edges ==> e.target != id
  }

  ghost predicate GroupOf(m: Model, g: Group) {
    && IsRoot(m, g.rootFindingId)
    && Finding(g.rootFindingId, g.rootInvariant) in m.findings
    && Ascending(g.downstreamFindingIds)
    && forall x :: x in g.downstreamFindingIds <==> Downstream(Arcs(m), g.rootFindingId, x)
  }

  ghost predicate RootsOf(m: Model, groups: seq<Group>) {
    && (forall i :: 0 <= i < |groups| ==> GroupOf(m, groups[i]))
    && (forall i, j :: 0 <= i < j < |groups| ==> Lt(groups[i].rootFindingId, groups[j].rootFindingId))
    && (forall id :: IsRoot(m, id) ==> exists i :: 0 <= i < |groups| && groups[i].rootFindingId == id)
  }

  ghost predicate Linking(links: seq<Link>, a: Id, b: Id) {
    exists e :: e in links && e.source == a && e.target == b
  }

  ghost predicate Targeted(links: seq<Link>, b: Id) {
    exists e :: e in links && e.target == b
  }

  lemma LinkingGrows(links: seq<Link>, e: Link)
    ensures forall a, b :: Linking(links + [e], a, b) <==> Linking(links, a, b) || (a == e.source && b == e.target)
    ensures forall b :: Targeted(links + [e], b) <==> Targeted(links, b) || b == e.target
  {
    assert e in links + [e] && forall f :: f in links ==> f in links + [e];
    forall a, b | Linking(links + [e], a, b) ensures Linking(links, a, b) || (a == e.source && b == e.target) { }
  }

  lemma ArcMembers(m: Model)
    ensures forall a, b :: Joined(Arcs(m), a, b) <==> Linking(m.edges, a, b)
  {
    var arcs, links := Arcs(m), m.edges;
    forall a, b ensures Joined(arcs, a, b) <==> Linking(links, a, b) {
      if e :| e in links && e.source == a && e.target == b {
        var i :| 0 <= i < |links| && links[i] == e;
        assert arcs[i] in arcs;
      }
    }
  }

  method IndexFindings(m: Model) returns (findings: map<Id, string>, ok: bool)
    ensures ok <==> forall i, j :: 0 <= i < j < |m.findings| ==> m.findings[i].id != m.findings[j].id
    ensures ok ==> forall x :: x in findings <==> HasFinding(m, x)
    ensures ok ==> forall x :: x in findings ==> Finding(x, findings[x]) in m.findings
  {
    findings, ok := map[], false;
    for k := 0 to |m.findings|
      invariant forall i, j :: 0 <= i < j < k ==> m.findings[i].id != m.findings[j].id
      invariant forall x :: x in findings ==> exists i :: 0 <= i < k && m.findings[i] == Finding(x, findings[x])
      invariant forall i :: 0 <= i < k ==> m.findings[i].id in findings
    {
      if m.findings[k].id in findings {
        return;
      }
      findings := findings[m.findings[k].id := m.findings[k].invariant_];
    }
    ok := true;
    forall x | HasFinding(m, x) ensures x in findings {
      var f :| f in m.findings && f.id == x;
      var i :| 0 <= i < |m.findings| && m.findings[i] == f;
    }
  }

  ghost predicate Counted(links: seq<Link>, ids: set<Id>, children: map<Id, seq<Id>>, incoming: map<Id, nat>) {
    && children.Keys == ids && incoming.Keys == ids
    && (forall a, b :: a in ids ==> (b in children[a] <==> Linking(links, a, b)))
    && (forall b :: b in ids ==> (incoming[b] == 0 <==> !Targeted(links, b)))
  }

  lemma CountOneMore(links: seq<Link>, ids: set<Id>, children: map<Id, seq<Id>>, incoming: map<Id, nat>, e: Link)
    requires Counted(links, ids, children, incoming) && e.source in ids && e.target in ids
    ensures Counted(links + [e], ids, children[e.source := children[e.source] + [e.target]],
                    incoming[e.target := incoming[e.target] + 1])
  {
    LinkingGrows(links, e);
    hide Linking, Targeted;
  }

  /** The targets of the links from `a`, in the order of the links. */
  ghost function TargetsOf(links: seq<Link>, a: Id): seq<Id> {
    if links == [] then []
    else
      var n := |links| - 1;
      TargetsOf(links[..n], a) + When(links[n].source == a, links[n].target)
  }

  /** How many links lead to `b`. */
  ghost function IncomingOf(links: seq<Link>, b: Id): nat {
    if links == [] then 0
    else
      var n := |links| - 1;
      IncomingOf(links[..n], b) + if links[n].target == b then 1 else 0
  }

  /** The lists of children and the counts are exact. */
  ghost predicate Tallied(links: seq<Link>, ids: set<Id>, children: map<Id, seq<Id>>, incoming: map<Id, nat>) {
    && (forall a :: a in ids ==> a in children && children[a] == TargetsOf(links, a))
    && (forall b :: b in ids ==> b in incoming && incoming[b] == IncomingOf(links, b))
  }

  lemma TallyOneMore(links: seq<Link>, ids: set<Id>, children: map<Id, seq<Id>>, incoming: map<Id, nat>, e: Link)
    requires Tallied(links, ids, children, incoming) && e.source in ids && e.target in ids
    ensures Tallied(links + [e], ids, children[e.source := children[e.source] + [e.target]],
                    incoming[e.target := incoming[e.target] + 1])
  {
    assert (links + [e])[..|links|] == links;
  }

  /** Children and incoming counts of every finding, unless some edge is refused. */
  method IndexEdges(links: seq<Link>, ids: set<Id>)
    returns (children: map<Id, seq<Id>>, incoming: map<Id, nat>, ok: bool)
    ensures ok <==> forall e :: e in links ==> e.relation == "CAUSES" && e.source in ids && e.target in ids
    ensures ok ==> Counted(links, ids, children, incoming) && Tallied(links, ids, children, incoming)
  {
    children, incoming, ok := map x | x in ids :: [], map x | x in ids :: 0, false;
    for k := 0 to |links|
      invariant forall e :: e in links[..k] ==> e.relation == "CAUSES" && e.source in ids && e.target in ids
      invariant Counted(links[..k], ids, children, incoming)
      invariant Tallied(links[..k], ids, children, incoming)
    {
      hide Tallied;
      var e := links[k];
      TakeMore(links, k);
      if e.relation != "CAUSES" || e.source !in ids || e.target !in ids {
        return;
      }
      CountOneMore(links[..k], ids, children, incoming, e);
      TallyOneMore(links[..k], ids, children, incoming, e);
      hide Linking, Targeted;
      children := children[e.source := children[e.source] + [e.target]];
      incoming := incoming[e.target := incoming[e.target] + 1];
    }
    TakeAll(links);
    ok := true;
  }

  method Evaluate(m: Model) returns (r: Outcome)
    ensures r.Refused? <==> !WellFormed(m)
    ensures r.CausalGraphCycle? <==> WellFormed(m) && HasCycle(Arcs(m))
    ensures r.Collapsed? ==> RootsOf(m, r.roots)
  {
    var findings, distinct := IndexFindings(m);
    if !distinct {
      return Refused;
    }
    var children, incoming, known := IndexEdges(m.edges, findings.Keys);
    if !known {
      return Refused;
    }
    IndexIsChildren(m, children);
    hide ChildrenOf, Linking, Targeted, HasCycle, Arcs, RootsOf;
    var cyclic := DetectCycle(children, Arcs(m));
    if cyclic {
      return CausalGraphCycle;
    }
    var groups := CollapseRoots(m, findings, children, incoming);
    return Collapsed(groups);
  }

  lemma IndexIsChildren(m: Model, children: map<Id, seq<Id>>)
    requires WellFormed(m) && forall x :: x in children <==> HasFinding(m, x)
    requires forall a, b :: a in children ==> (b in children[a] <==> Linking(m.edges, a, b))
    ensures ChildrenOf(Arcs(m), children)
  {
    ArcMembers(m);
  }

  method CollapseRoots(m: Model, findings: map<Id, string>, children: map<Id, seq<Id>>, incoming: map<Id, nat>)
    returns (groups: seq<Group>)
    requires ChildrenOf(Arcs(m), children)
    requires forall x :: x in findings <==> HasFinding(m, x)
    requires forall x :: x in findings ==> Finding(x, findings[x]) in m.findings
    requires Counted(m.edges, findings.Keys, children, incoming)
    ensures RootsOf(m, groups)
  {
    var roots := SortedIds(set x | x in incoming && incoming[x] == 0);
    groups := [];
    RootsAreUncounted(m, findings.Keys, children, incoming);
    hide SortedIds, GroupOf, ChildrenOf, Lt, IsRoot, Arcs, Counted, Ascending, RootsOf;
    for k := 0 to |roots|
      invariant |groups| == k
      invariant forall i :: 0 <= i < k ==> groups[i].rootFindingId == roots[i] && GroupOf(m, groups[i])
    {
      assert roots[k] in roots;
      var group := GroupFor(m, roots[k], findings[roots[k]], children);
      groups := groups + [group];
    }
    RootsListed(m, roots, groups);
  }

  lemma RootsListed(m: Model, roots: seq<Id>, groups: seq<Group>)
    requires |groups| == |roots| && Ascending(roots) && forall id :: IsRoot(m, id) <==> id in roots
    requires forall i :: 0 <= i < |groups| ==> groups[i].rootFindingId == roots[i] && GroupOf(m, groups[i])
    ensures RootsOf(m, groups)
  {
    hide IsRoot, GroupOf, Lt;
    forall id | IsRoot(m, id) ensures exists i :: 0 <= i < |groups| && groups[i].rootFindingId == id {
      var i :| 0 <= i < |roots| && roots[i] == id;
      assert groups[i].rootFindingId == id;
    }
  }

  method GroupFor(m: Model, root: Id, invariant_: string, children: map<Id, seq<Id>>) returns (group: Group)
    requires ChildrenOf(Arcs(m), children) && root in children
    requires IsRoot(m, root) && Finding(root, invariant_) in m.findings
    ensures GroupOf(m, group) && group.rootFindingId == root
  {
    var downstream := DownstreamOf(children, root, Arcs(m));
    group := Group(root, invariant_, downstream);
  }

  lemma RootsAreUncounted(m: Model, ids: set<Id>, children: map<Id, seq<Id>>, incoming: map<Id, nat>)
    requires Counted(m.edges, ids, children, incoming) && forall x :: x in ids <==> HasFinding(m, x)
    ensures forall id :: IsRoot(m, id) <==> id in incoming && incoming[id] == 0
  {
  }

  /** No root lies downstream of anything, so no group contains a root. */
  lemma RootsAreIndependent(m: Model, a: Id, root: Id)
    requires IsRoot(m, root)
    ensures !Downstream(Arcs(m), a, root)
  {
    if Downstream(Arcs(m), a, root) {
      DownstreamHasCause(m, a, root);
    }
  }

  lemma DownstreamHasCause(m: Model, a: Id, b: Id)
    requires Downstream(Arcs(m), a, b)
    ensures exists e :: e in m.edges && e.target == b
  {
    var w :| |w| > 1 && WalkBetween(Arcs(m), w, a, b);
    assert Joined(Arcs(m), w[|w| - 2], w[|w| - 1]);
    ArcMembers(m);
  }

  lemma StretchLeadsOn(edges: seq<Edge>, w: seq<Id>, i: nat, j: nat)
    requires Walk(edges, w) && i < j < |w|
    ensures Downstream(edges, w[i], w[j])
  {
    assert |w[i..j + 1]| > 1 && WalkBetween(edges, w[i..j + 1], w[i], w[j]);
  }

  lemma AcyclicWalksFit(m: Model, w: seq<Id>)
    requires WellFormed(m) && !HasCycle(Arcs(m))
    requires Walk(Arcs(m), w) && HasFinding(m, w[0])
    ensures |w| <= |set f | f in m.findings :: f.id|
  {
    var ids := set f | f in m.findings :: f.id;
    ArcMembers(m);
    forall k | 0 <= k < |w| ensures w[k] in ids {
      if k > 0 { assert Joined(Arcs(m), w[k - 1], w[k]); }
    }
    forall i, j | 0 <= i < j < |w| ensures w[i] != w[j] {
      StretchLeadsOn(Arcs(m), w, i, j);
    }
    DistinctFit(w, ids);
  }

  /** Following edges backwards from any walk ends at a root. */
  lemma {:induction false} BackToRoot(m: Model, w: seq<Id>) returns (longer: seq<Id>)
    requires WellFormed(m) && !HasCycle(Arcs(m))
    requires Walk(Arcs(m), w) && HasFinding(m, w[0])
    ensures Walk(Arcs(m), longer) && IsRoot(m, longer[0])
    ensures longer[|longer| - 1] == w[|w| - 1] && |longer| >= |w|
    ensures |longer| == |w| ==> longer == w
    decreases |set f | f in m.findings :: f.id| - |w|
  {
    longer := w;
    if !IsRoot(m, w[0]) {
      var e :| e in m.edges && e.target == w[0];
      ArcMembers(m);
      assert Joined(Arcs(m), e.source, w[0]);
      AcyclicWalksFit(m, [e.source] + w);
      longer := BackToRoot(m, [e.source] + w);
    }
  }

  /** Without cycles every finding is a root or lies downstream of one. */
  lemma EveryFindingIsExplained(m: Model, id: Id)
    requires WellFormed(m) && !HasCycle(Arcs(m)) && HasFinding(m, id)
    ensures IsRoot(m, id) || exists root :: IsRoot(m, root) && Downstream(Arcs(m), root, id)
  {
    var w := BackToRoot(m, [id]);
    if |w| > 1 {
      assert WalkBetween(Arcs(m), w, w[0], id);
      assert Downstream(Arcs(m), w[0], id);
    }
  }
}
