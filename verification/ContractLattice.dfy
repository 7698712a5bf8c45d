/** The contract lattice verifier: version causality, source binding of references, and a safe
    exit for every reachable point that holds locked value. */
module ContractLattice {
  import opened Ordering
  import opened Search
  import opened ShortestPaths

  datatype Point = Point(id: Id, state: string, version: int, lockedValue: int,
                         authorityRefs: seq<Id>, evidenceRefs: seq<Id>, timeWitnessRefs: seq<Id>)

  datatype Transition = Transition(id: Id, source: Id, target: Id, action: string, authorityRef: Option<Id>,
                                   evidenceRefs: seq<Id>, timeSensitive: bool, timeWitnessRefs: seq<Id>)

  datatype Lattice = Lattice(initialPoint: Id, safeTerminals: seq<Id>, points: seq<Point>, transitions: seq<Transition>)

  datatype Violation =
    | NonUnitVersionStep(transitionId: Id, sourceVersion: int, targetVersion: int)
    | AuthorityNotBound(transitionId: Id, authorityRef: Id)
    | EvidenceNotBound(transitionId: Id, missingRefs: seq<Id>)
    | TimeWitnessNotBound(transitionId: Id, missingRefs: seq<Id>)
    | TimeSensitiveWithoutWitness(transitionId: Id)
    | NoSafeExit(pointId: Id, state: string, version: int, lockedValue: int, counterexamplePath: seq<Id>)

  datatype Verdict = Verdict(pass: bool, reachablePoints: seq<Id>, violations: seq<Violation>)

  // -------------------------------------------------------------- the document

  predicate Known(points: seq<Point>, id: Id) {
    exists p :: p in points && p.id == id
  }

  ghost predicate PointFits(p: Point) {
    && p.version >= 0 && p.lockedValue >= 0
    && AllDifferent(p.authorityRefs) && AllDifferent(p.evidenceRefs) && AllDifferent(p.timeWitnessRefs)
  }

  ghost predicate TransitionFits(t: Transition) {
    AllDifferent(t.evidenceRefs) && AllDifferent(t.timeWitnessRefs)
  }

  /** What parsing a lattice document establishes before the verifier sees it. */
  ghost predicate Accepted(m: Lattice) {
    && m.points != []
    && (forall p :: p in m.points ==> PointFits(p))
    && (forall t :: t in m.transitions ==> TransitionFits(t))
    && DistinctIds(m.points)
    && (forall i, j :: 0 <= i < j < |m.transitions| ==> m.transitions[i].id != m.transitions[j].id)
    && Known(m.points, m.initialPoint)
    && AllDifferent(m.safeTerminals) && m.safeTerminals != []
    && (forall s :: s in m.safeTerminals ==> Known(m.points, s))
    && (forall t :: t in m.transitions ==> Known(m.points, t.source) && Known(m.points, t.target))
    && (forall s, p :: s in m.safeTerminals && p in m.points && p.id == s ==> p.lockedValue == 0)
  }

  function EdgesOf(transitions: seq<Transition>): seq<Edge> {
    seq(|transitions|, i requires 0 <= i < |transitions| =>
      Edge(transitions[i].id, transitions[i].source, transitions[i].target))
  }

  ghost predicate IndexedBy(points: seq<Point>, index: map<Id, Point>) {
    && (forall p :: p in points ==> p.id in index && index[p.id] == p)
    && (forall x :: x in index ==> index[x] in points && index[x].id == x)
  }

  predicate DistinctIds(points: seq<Point>) {
    forall i, j :: 0 <= i < j < |points| ==> points[i].id != points[j].id
  }

  method IndexPoints(points: seq<Point>) returns (index: map<Id, Point>)
    requires DistinctIds(points)
    ensures IndexedBy(points, index)
  {
    index := map[];
    for k := 0 to |points|
      invariant forall i :: 0 <= i < k ==> points[i].id in index && index[points[i].id] == points[i]
      invariant forall x :: x in index ==> index[x] in points && index[x].id == x
    {
      index := index[points[k].id := points[k]];
    }
  }

  // ------------------------------------------------------- faults of transitions

  function Missing(wanted: seq<Id>, bound: seq<Id>): set<Id> {
    (set x | x in wanted) - (set x | x in bound)
  }

  /** `x` is a violation that transition `t` from `source` to `target` has earned. */
  ghost predicate Earned(source: Point, target: Point, t: Transition, x: Violation) {
    match x
    case NonUnitVersionStep(id, sv, tv) =>
      id == t.id && sv == source.version && tv == target.version && tv != sv + 1
    case AuthorityNotBound(id, ref) =>
      id == t.id && t.authorityRef == Some(ref) && ref !in source.authorityRefs
    case EvidenceNotBound(id, missing) =>
      id == t.id && missing != [] && missing == SortedIds(Missing(t.evidenceRefs, source.evidenceRefs))
    case TimeWitnessNotBound(id, missing) =>
      id == t.id && missing != [] && missing == SortedIds(Missing(t.timeWitnessRefs, source.timeWitnessRefs))
    case TimeSensitiveWithoutWitness(id) =>
      id == t.id && t.timeSensitive && t.timeWitnessRefs == []
    case NoSafeExit(_, _, _, _, _) => false
  }

  function Kind(x: Violation): nat {
    match x
    case NonUnitVersionStep(_, _, _) => 0
    case AuthorityNotBound(_, _) => 1
    case EvidenceNotBound(_, _) => 2
    case TimeWitnessNotBound(_, _) => 3
    case TimeSensitiveWithoutWitness(_) => 4
    case NoSafeExit(_, _, _, _, _) => 5
  }

  /** The order of the list of violations: transitions by id, at each one the kinds in the order above,
      then points by id. */
  predicate Precedes(x: Violation, y: Violation) {
    if x.NoSafeExit? then y.NoSafeExit? && Lt(x.pointId, y.pointId)
    else y.NoSafeExit? || Lt(x.transitionId, y.transitionId) || (x.transitionId == y.transitionId && Kind(x) < Kind(y))
  }

  /** That order, said of the kinds of violation: of one transition its version, then its authority, its evidence, its
      time witnesses and their absence; transitions by id; stuck points last. */
  lemma OrderSays(x: Violation, y: Violation)
    requires Precedes(x, y)
    ensures x.NoSafeExit? ==> y.NoSafeExit? && Lt(x.pointId, y.pointId)
    ensures !x.NoSafeExit? && !y.NoSafeExit? && x.transitionId != y.transitionId ==> Lt(x.transitionId, y.transitionId)
    ensures !x.NoSafeExit? && !y.NoSafeExit? && x.transitionId == y.transitionId ==>
              && !x.TimeSensitiveWithoutWitness? && !y.NonUnitVersionStep?
              && (x.AuthorityNotBound? ==> !y.AuthorityNotBound?)
              && (x.EvidenceNotBound? ==> y.TimeWitnessNotBound? || y.TimeSensitiveWithoutWitness?)
              && (x.TimeWitnessNotBound? ==> y.TimeSensitiveWithoutWitness?)
  {
  }

  ghost predicate InOrder(xs: seq<Violation>) {
    forall i, j :: 0 <= i < j < |xs| ==> Precedes(xs[i], xs[j])
  }

  /** In order, and all about transition `id`, of kinds before `k`. */
  ghost predicate Below(xs: seq<Violation>, id: Id, k: nat) {
    InOrder(xs) && forall x :: x in xs ==> !x.NoSafeExit? && x.transitionId == id && Kind(x) < k
  }

  function AddIf(faults: seq<Violation>, condition: bool, x: Violation): (r: seq<Violation>)
    ensures forall y :: y in r <==> y in faults || (condition && y == x)
    ensures !x.NoSafeExit? && Below(faults, x.transitionId, Kind(x)) ==> Below(r, x.transitionId, Kind(x) + 1)
  {
    if condition then faults + [x] else faults
  }

  method TransitionFaults(source: Point, target: Point, t: Transition) returns (faults: seq<Violation>)
    ensures forall x :: x in faults <==> Earned(source, target, t, x)
    ensures Below(faults, t.id, 5)
  {
    hide SortedIds, Ascending, Missing, AddIf, InOrder;
    NoneBelow(t.id);
    faults := AddIf([], target.version != source.version + 1,
                    NonUnitVersionStep(t.id, source.version, target.version));
    if t.authorityRef.Some? {
      faults := AddIf(faults, t.authorityRef.value !in source.authorityRefs,
                            AuthorityNotBound(t.id, t.authorityRef.value));
    }
    var missingEvidence := SortedIds(Missing(t.evidenceRefs, source.evidenceRefs));
    faults := AddIf(faults, missingEvidence != [], EvidenceNotBound(t.id, missingEvidence));
    var missingTime := SortedIds(Missing(t.timeWitnessRefs, source.timeWitnessRefs));
    faults := AddIf(faults, missingTime != [], TimeWitnessNotBound(t.id, missingTime));
    faults := AddIf(faults, t.timeSensitive && t.timeWitnessRefs == [], TimeSensitiveWithoutWitness(t.id));
  }

  lemma NoneBelow(id: Id)
    ensures Below([], id, 0)
  {
  }

  // -------------------------------------------------------------- what is proved

  /** The point with a given id; ids are unique in an accepted document. */
  ghost function PointOf(m: Lattice, id: Id): (p: Point)
    requires Known(m.points, id)
    ensures p in m.points && p.id == id
  {
    var p :| p in m.points && p.id == id;
    p
  }

  lemma PointIsUnique(m: Lattice, p: Point)
    requires Accepted(m) && p in m.points
    ensures Known(m.points, p.id) && PointOf(m, p.id) == p
  {
    var q := PointOf(m, p.id);
    var i :| 0 <= i < |m.points| && m.points[i] == p;
    var j :| 0 <= j < |m.points| && m.points[j] == q;
  }

  lemma IndexIsPointOf(m: Lattice, index: map<Id, Point>)
    requires Accepted(m) && IndexedBy(m.points, index)
    ensures forall x :: x in index <==> Known(m.points, x)
    ensures forall x :: x in index ==> index[x] == PointOf(m, x)
  {
    forall x | x in index ensures Known(m.points, x) && index[x] == PointOf(m, x) {
      PointIsUnique(m, index[x]);
    }
  }

  /** The transition steps the version by one and uses only references its source carries. */
  ghost predicate Clean(source: Point, target: Point, t: Transition) {
    && target.version == source.version + 1
    && (t.authorityRef.Some? ==> t.authorityRef.value in source.authorityRefs)
    && (forall r :: r in t.evidenceRefs ==> r in source.evidenceRefs)
    && (forall r :: r in t.timeWitnessRefs ==> r in source.timeWitnessRefs)
    && (t.timeSensitive ==> t.timeWitnessRefs != [])
  }

  ghost predicate Causal(m: Lattice)
    requires Accepted(m)
  {
    forall t :: t in m.transitions ==> Clean(PointOf(m, t.source), PointOf(m, t.target), t)
  }

  ghost function SafeSet(m: Lattice): set<Id> {
    set s | s in m.safeTerminals
  }

  /** A point that the run can get to and that holds value it can never release. */
  ghost predicate Stuck(m: Lattice, p: Point) {
    && p in m.points && Reaches(EdgesOf(m.transitions), m.initialPoint, p.id)
    && p.lockedValue > 0 && !CanReach(EdgesOf(m.transitions), p.id, SafeSet(m))
  }

  ghost predicate EarnedBySome(m: Lattice, transitions: seq<Transition>, x: Violation)
    requires Accepted(m) && forall t :: t in transitions ==> t in m.transitions
  {
    exists t :: t in transitions && Earned(PointOf(m, t.source), PointOf(m, t.target), t, x)
  }

  /** `x` reports the stuck point `p`, with the least of the shortest paths that lead to it. */
  ghost predicate ReportsStuck(m: Lattice, p: Point, x: Violation) {
    && Stuck(m, p) && x.NoSafeExit? && x.pointId == p.id && x.state == p.state && x.version == p.version
    && x.lockedValue == p.lockedValue
    && exists steps :: LeastShortestPath(EdgesOf(m.transitions), m.initialPoint, p.id, x.counterexamplePath, steps)
  }

  predicate TransitionIdLe(a: Transition, b: Transition) {
    Le(a.id, b.id)
  }

  lemma EdgeMembers(m: Lattice)
    ensures forall e :: e in EdgesOf(m.transitions)
              <==> exists t :: t in m.transitions && e == Edge(t.id, t.source, t.target)
  {
    var edges := EdgesOf(m.transitions);
    forall e
      ensures e in edges <==> exists t :: t in m.transitions && e == Edge(t.id, t.source, t.target)
    {
      if t :| t in m.transitions && e == Edge(t.id, t.source, t.target) {
        var i :| 0 <= i < |m.transitions| && m.transitions[i] == t;
        assert edges[i] == e;
      }
    }
  }

  lemma ReachedIsKnown(m: Lattice, x: Id)
    requires Accepted(m) && Reaches(EdgesOf(m.transitions), m.initialPoint, x)
    ensures Known(m.points, x)
  {
    var ids := set p | p in m.points :: p.id;
    EdgeMembers(m);
    var w :| WalkBetween(EdgesOf(m.transitions), w, m.initialPoint, x);
    ClosedContains(EdgesOf(m.transitions), ids, w);
  }

  /** First pass of the verifier: the faults of every transition, in id order. */
  method AllTransitionFaults(m: Lattice, index: map<Id, Point>) returns (violations: seq<Violation>)
    requires Accepted(m) && IndexedBy(m.points, index)
    ensures forall x :: x in violations <==> EarnedBySome(m, m.transitions, x)
    ensures InOrder(violations) && forall x :: x in violations ==> !x.NoSafeExit?
  {
    hide Earned, Sort, IndexedBy, InOrder, Below;
    violations := [];
    var sorted := Sort(m.transitions, TransitionIdLe);
    SortKeeps(m.transitions, TransitionIdLe);
    TransitionOrder(m, sorted);
    IndexIsPointOf(m, index);
    NoneSoFar(sorted);
    for k := 0 to |sorted|
      invariant forall x :: x in violations <==> EarnedBySome(m, sorted[..k], x)
      invariant UpTo(sorted, k, violations)
    {
      var t := sorted[k];
      assert t in sorted;
      var faults := TransitionFaults(index[t.source], index[t.target], t);
      EarnedByOneMore(m, sorted[..k], t);
      assert sorted[..k + 1] == sorted[..k] + [t];
      OneMoreInOrder(sorted, k, violations, faults);
      violations := violations + faults;
    }
    assert sorted[..|sorted|] == sorted;
  }

  ghost predicate StrictIds(sorted: seq<Transition>) {
    forall i, j :: 0 <= i < j < |sorted| ==> Lt(sorted[i].id, sorted[j].id)
  }

  /** The violations of the first `k` transitions, in order. */
  ghost predicate UpTo(sorted: seq<Transition>, k: nat, violations: seq<Violation>)
    requires k <= |sorted|
  {
    && InOrder(violations)
    && forall x :: x in violations ==> !x.NoSafeExit? && exists i :: 0 <= i < k && sorted[i].id == x.transitionId
  }

  lemma NoneSoFar(sorted: seq<Transition>)
    ensures UpTo(sorted, 0, [])
  {
  }

  lemma TransitionOrder(m: Lattice, sorted: seq<Transition>)
    requires Accepted(m) && sorted == Sort(m.transitions, TransitionIdLe)
    ensures StrictIds(sorted)
  {
    hide Sort;
    assert TotalPreorder(TransitionIdLe) by {
      forall a, b ensures TransitionIdLe(a, b) || TransitionIdLe(b, a) { LeTotal(a.id, b.id); }
      forall a, b, c | TransitionIdLe(a, b) && TransitionIdLe(b, c) ensures TransitionIdLe(a, c) {
        LeTransitive(a.id, b.id, c.id);
      }
    }
    SortSorts(m.transitions, TransitionIdLe);
    SortKeeps(m.transitions, TransitionIdLe);
    StaysDifferent(m.transitions, sorted);
    forall i, j | 0 <= i < j < |sorted| ensures Lt(sorted[i].id, sorted[j].id) {
      assert TransitionIdLe(sorted[i], sorted[j]);
      assert sorted[i] in m.transitions && sorted[j] in m.transitions;
    }
  }

  lemma OneMoreInOrder(sorted: seq<Transition>, k: nat, violations: seq<Violation>, faults: seq<Violation>)
    requires k < |sorted| && StrictIds(sorted) && UpTo(sorted, k, violations) && Below(faults, sorted[k].id, 5)
    ensures UpTo(sorted, k + 1, violations + faults)
  {
    var all := violations + faults;
    forall i, j | 0 <= i < j < |all| ensures Precedes(all[i], all[j]) {
      if i < |violations| <= j {
        assert violations[i] in violations && faults[j - |violations|] in faults;
      }
    }
  }

  lemma EarnedByOneMore(m: Lattice, transitions: seq<Transition>, t: Transition)
    requires Accepted(m) && t in m.transitions && forall u :: u in transitions ==> u in m.transitions
    ensures forall x :: EarnedBySome(m, transitions + [t], x)
              <==> EarnedBySome(m, transitions, x) || Earned(PointOf(m, t.source), PointOf(m, t.target), t, x)
  {
    hide Earned;
    forall x | EarnedBySome(m, transitions, x) || Earned(PointOf(m, t.source), PointOf(m, t.target), t, x)
      ensures EarnedBySome(m, transitions + [t], x)
    {
      assert t in transitions + [t];
      assert forall u :: u in transitions ==> u in transitions + [t];
    }
  }

  /** Second pass: every reachable locked point without a safe exit, in id order, with its path. */
  method StuckPoints(m: Lattice, index: map<Id, Point>) returns (reachablePoints: seq<Id>, violations: seq<Violation>)
    requires Accepted(m) && IndexedBy(m.points, index)
    ensures Ascending(reachablePoints)
    ensures forall x :: x in reachablePoints <==> Reaches(EdgesOf(m.transitions), m.initialPoint, x)
    ensures forall x :: x in violations ==> exists p :: ReportsStuck(m, p, x)
    ensures forall p :: Stuck(m, p) ==> exists x :: x in violations && ReportsStuck(m, p, x)
    ensures InOrder(violations) && forall x :: x in violations ==> x.NoSafeExit?
  {
    var edges := EdgesOf(m.transitions);
    var reachable, predecessor;
    ghost var order, parent;
    reachable, predecessor, order, parent := ForwardSearch(edges, m.initialPoint);
    var canReachSafe := BackwardSearch(edges, set s | s in m.safeTerminals);
    reachablePoints := SortedIds(reachable);
    violations := [];
    IndexIsPointOf(m, index);
    hide Spanning, Records, Reaches, SortedIds, Ascending, CanReach, Accepted, IndexedBy,
         Stuck, ReportsStuck, ReportedUpTo;
    NoReportsYet(reachablePoints);
    for k := 0 to |reachablePoints|
      invariant Covered(m, reachablePoints[..k], violations)
      invariant ReportedUpTo(reachablePoints, k, violations)
    {
      TakeMore(reachablePoints, k);
      var id := reachablePoints[k];
      ReachedIsKnown(m, id);
      var report := StuckReport(m, index[id], edges, canReachSafe, predecessor, order, parent);
      CoverOneMore(m, reachablePoints[..k], violations, id, report);
      ReportOneMore(m, reachablePoints, k, violations, report);
      violations := violations + report;
    }
    TakeAll(reachablePoints);
    AllCovered(m, reachablePoints, violations);
    ReportsInOrder(reachablePoints, violations);
  }

  /** The reports on the first `k` of `ids`, in order. */
  ghost predicate ReportedUpTo(ids: seq<Id>, k: nat, reports: seq<Violation>)
    requires k <= |ids|
  {
    && InOrder(reports)
    && forall x :: x in reports ==> x.NoSafeExit? && exists i :: 0 <= i < k && ids[i] == x.pointId
  }

  lemma NoReportsYet(ids: seq<Id>)
    ensures ReportedUpTo(ids, 0, [])
  {
  }

  lemma ReportsInOrder(ids: seq<Id>, reports: seq<Violation>)
    requires ReportedUpTo(ids, |ids|, reports)
    ensures InOrder(reports) && forall x :: x in reports ==> x.NoSafeExit?
  {
  }

  lemma ReportOneMore(m: Lattice, ids: seq<Id>, k: nat, reports: seq<Violation>, report: seq<Violation>)
    requires k < |ids| && Ascending(ids) && ReportedUpTo(ids, k, reports) && Known(m.points, ids[k])
    requires report == [] || (|report| == 1 && ReportsStuck(m, PointOf(m, ids[k]), report[0]))
    ensures ReportedUpTo(ids, k + 1, reports + report)
  {
    hide Stuck, LeastShortestPath;
    var all := reports + report;
    forall i, j | 0 <= i < j < |all| ensures Precedes(all[i], all[j]) {
      if i < |reports| <= j { assert reports[i] in reports; }
    }
  }

  method StuckReport(m: Lattice, point: Point, edges: seq<Edge>, canReachSafe: set<Id>,
                     predecessor: map<Id, (Id, Edge)>, ghost order: seq<Id>, ghost parent: seq<nat>)
    returns (report: seq<Violation>)
    requires edges == EdgesOf(m.transitions) && point in m.points
    requires Spanning(edges, m.initialPoint, order, parent) && Records(edges, order, parent, predecessor)
    requires point.id in order && Reaches(edges, m.initialPoint, point.id)
    requires forall v :: v in canReachSafe <==> CanReach(edges, v, SafeSet(m))
    ensures if Stuck(m, point) then |report| == 1 && ReportsStuck(m, point, report[0]) else report == []
  {
    hide LeastShortestPath, Spanning, Records, Reaches, CanReach;
    report := [];
    if point.lockedValue > 0 && point.id !in canReachSafe {
      var path, steps := CounterexamplePath(edges, point.id, m.initialPoint, predecessor, order, parent);
      report := [NoSafeExit(point.id, point.state, point.version, point.lockedValue, path)];
    }
  }

  lemma AllCovered(m: Lattice, ids: seq<Id>, reports: seq<Violation>)
    requires Covered(m, ids, reports)
    requires forall x :: Reaches(EdgesOf(m.transitions), m.initialPoint, x) ==> x in ids
    ensures forall p :: Stuck(m, p) ==> exists x :: x in reports && ReportsStuck(m, p, x)
  {
  }

  /** The reports are genuine and cover the stuck points among `ids`. */
  ghost predicate Covered(m: Lattice, ids: seq<Id>, reports: seq<Violation>) {
    && (forall x :: x in reports ==> exists p :: ReportsStuck(m, p, x))
    && (forall p :: Stuck(m, p) && p.id in ids ==> exists x :: x in reports && ReportsStuck(m, p, x))
  }

  lemma CoverOneMore(m: Lattice, ids: seq<Id>, reports: seq<Violation>, id: Id, report: seq<Violation>)
    requires Accepted(m) && Covered(m, ids, reports) && Known(m.points, id)
    requires if Stuck(m, PointOf(m, id)) then |report| == 1 && ReportsStuck(m, PointOf(m, id), report[0])
                else report == []
    ensures Covered(m, ids + [id], reports + report)
  {
    hide Stuck, ReportsStuck, Accepted;
    forall p | Stuck(m, p) && p.id in ids + [id]
      ensures exists x :: x in reports + report && ReportsStuck(m, p, x)
    {
      if p.id in ids {
        var x :| x in reports && ReportsStuck(m, p, x);
        assert x in reports + report;
      } else {
        StuckIsPoint(m, p);
        PointIsUnique(m, p);
        assert report[0] in reports + report;
      }
    }
  }

  lemma StuckIsPoint(m: Lattice, p: Point)
    requires Stuck(m, p)
    ensures p in m.points
  {
  }

  /** The verdict on an accepted document. */
  ghost predicate VerdictOf(m: Lattice, v: Verdict)
    requires Accepted(m)
  {
    && (v.pass <==> v.violations == [])
    && (forall x :: x in v.violations ==> EarnedBySome(m, m.transitions, x) || exists p :: ReportsStuck(m, p, x))
    && (forall x :: EarnedBySome(m, m.transitions, x) ==> x in v.violations)
    && (forall p :: Stuck(m, p) ==> exists x :: x in v.violations && ReportsStuck(m, p, x))
    && InOrder(v.violations)
    && Ascending(v.reachablePoints)
    && forall x :: x in v.reachablePoints <==> Reaches(EdgesOf(m.transitions), m.initialPoint, x)
  }

  method RunContractLattice(m: Lattice) returns (v: Verdict)
    requires Accepted(m)
    ensures VerdictOf(m, v)
    ensures v.pass <==> Causal(m) && forall p :: !Stuck(m, p)
  {
    hide EarnedBySome, Stuck, ReportsStuck, Causal, InOrder, Reaches, Accepted, Ascending, DistinctIds, IndexedBy;
    PointsDiffer(m);
    var index := IndexPoints(m.points);
    var first := AllTransitionFaults(m, index);
    var reachablePoints, second := StuckPoints(m, index);
    v := Verdict(first + second == [], reachablePoints, first + second);
    NoFaultsIffCausal(m, first);
    NoReportsIffNoneStuck(m, second);
    FirstThenSecond(first, second);
    AllListed(m, first, second);
  }

  lemma PointsDiffer(m: Lattice)
    requires Accepted(m)
    ensures DistinctIds(m.points)
  {
  }

  lemma FirstThenSecond(first: seq<Violation>, second: seq<Violation>)
    requires InOrder(first) && InOrder(second)
    requires (forall x :: x in first ==> !x.NoSafeExit?) && forall x :: x in second ==> x.NoSafeExit?
    ensures InOrder(first + second)
  {
    var all := first + second;
    forall i, j | 0 <= i < j < |all| ensures Precedes(all[i], all[j]) {
      if i < |first| <= j { assert first[i] in first && second[j - |first|] in second; }
    }
  }

  lemma AllListed(m: Lattice, first: seq<Violation>, second: seq<Violation>)
    requires forall p :: Stuck(m, p) ==> exists x :: x in second && ReportsStuck(m, p, x)
    ensures forall p :: Stuck(m, p) ==> exists x :: x in first + second && ReportsStuck(m, p, x)
  {
    hide Stuck, ReportsStuck;
    forall p | Stuck(m, p) ensures exists x :: x in first + second && ReportsStuck(m, p, x) {
      var x :| x in second && ReportsStuck(m, p, x);
      assert x in first + second;
    }
  }

  /** The specification leaves one verdict: violations, their order and the paths are determined. */
  lemma VerdictIsDetermined(m: Lattice, v: Verdict, v': Verdict)
    requires Accepted(m) && VerdictOf(m, v) && VerdictOf(m, v')
    ensures v == v'
  {
    SameViolations(m, v, v');
    SameViolations(m, v', v);
    hide EarnedBySome, Stuck, ReportsStuck, Accepted, Reaches;
    PrecedesIsStrict();
    StrictListIsUnique(v.violations, v'.violations, Precedes);
    TextStrictOrder();
    StrictListIsUnique(v.reachablePoints, v'.reachablePoints, Lt);
  }

  lemma PrecedesIsStrict()
    ensures forall x, y :: !(Precedes(x, y) && Precedes(y, x))
  {
    TextStrictOrder();
    hide Lt;
  }

  lemma SameViolations(m: Lattice, v: Verdict, v': Verdict)
    requires Accepted(m) && VerdictOf(m, v) && VerdictOf(m, v')
    ensures forall x :: x in v.violations ==> x in v'.violations
  {
    hide EarnedBySome, Stuck, InOrder, Reaches, Ascending, Accepted;
    forall x | x in v.violations ensures x in v'.violations {
      if !EarnedBySome(m, m.transitions, x) {
        var p :| ReportsStuck(m, p, x);
        var y :| y in v'.violations && ReportsStuck(m, p, y);
        SameReport(m, p, x, y);
      }
    }
  }

  lemma SameReport(m: Lattice, p: Point, x: Violation, y: Violation)
    requires ReportsStuck(m, p, x) && ReportsStuck(m, p, y)
    ensures x == y
  {
    hide Stuck, LeastShortestPath;
    var edges := EdgesOf(m.transitions);
    var steps :| LeastShortestPath(edges, m.initialPoint, p.id, x.counterexamplePath, steps);
    var steps' :| LeastShortestPath(edges, m.initialPoint, p.id, y.counterexamplePath, steps');
    PathIgnoresInputOrder(edges, edges, m.initialPoint, p.id,
                        x.counterexamplePath, steps, y.counterexamplePath, steps');
  }

  lemma NoReportsIffNoneStuck(m: Lattice, reports: seq<Violation>)
    requires forall x :: x in reports ==> exists p :: ReportsStuck(m, p, x)
    requires forall p :: Stuck(m, p) ==> exists x :: x in reports && ReportsStuck(m, p, x)
    ensures reports == [] <==> forall p :: !Stuck(m, p)
  {
    if reports != [] {
      assert reports[0] in reports;
    }
  }

  lemma NoFaultsIffCausal(m: Lattice, faults: seq<Violation>)
    requires Accepted(m) && forall x :: x in faults <==> EarnedBySome(m, m.transitions, x)
    ensures faults == [] <==> Causal(m)
  {
    if faults != [] {
      assert faults[0] in faults;
      var t :| t in m.transitions && Earned(PointOf(m, t.source), PointOf(m, t.target), t, faults[0]);
      FaultsSpoil(PointOf(m, t.source), PointOf(m, t.target), t);
    }
    forall t | t in m.transitions && faults == []
      ensures Clean(PointOf(m, t.source), PointOf(m, t.target), t)
    {
      forall x ensures !Earned(PointOf(m, t.source), PointOf(m, t.target), t, x) {
        assert !EarnedBySome(m, m.transitions, x);
      }
      FaultsSpoil(PointOf(m, t.source), PointOf(m, t.target), t);
    }
  }

  /** A transition is clean exactly when it has earned no violation. */
  lemma FaultsSpoil(source: Point, target: Point, t: Transition)
    ensures Clean(source, target, t) <==> forall x :: !Earned(source, target, t, x)
  {
    var evidence := SortedIds(Missing(t.evidenceRefs, source.evidenceRefs));
    var time := SortedIds(Missing(t.timeWitnessRefs, source.timeWitnessRefs));
    hide SortedIds, Ascending;
    NothingMissing(t.evidenceRefs, source.evidenceRefs, evidence);
    NothingMissing(t.timeWitnessRefs, source.timeWitnessRefs, time);
    if forall x :: !Earned(source, target, t, x) {
      assert !Earned(source, target, t, NonUnitVersionStep(t.id, source.version, target.version));
      assert t.authorityRef.Some? ==> !Earned(source, target, t, AuthorityNotBound(t.id, t.authorityRef.value));
      assert !Earned(source, target, t, EvidenceNotBound(t.id, evidence));
      assert !Earned(source, target, t, TimeWitnessNotBound(t.id, time));
      assert !Earned(source, target, t, TimeSensitiveWithoutWitness(t.id));
    }
  }

  /** A report of unbound references lists, in order and each once, exactly the references the transition uses and
      its source does not carry, and there is one only when there are some. */
  lemma MissingReported(source: Point, target: Point, t: Transition, x: Violation, r: Id)
    requires Earned(source, target, t, x)
    ensures x.EvidenceNotBound? ==>
              Ascending(x.missingRefs) && x.missingRefs != []
              && (r in x.missingRefs <==> r in t.evidenceRefs && r !in source.evidenceRefs)
    ensures x.TimeWitnessNotBound? ==>
              Ascending(x.missingRefs) && x.missingRefs != []
              && (r in x.missingRefs <==> r in t.timeWitnessRefs && r !in source.timeWitnessRefs)
  {
    hide SortedIds, Ascending;
  }

  lemma NothingMissing(wanted: seq<Id>, bound: seq<Id>, missing: seq<Id>)
    requires forall x :: x in missing <==> x in Missing(wanted, bound)
    ensures missing == [] <==> forall r :: r in wanted ==> r in bound
  {
    if missing == [] {
      forall r | r in wanted ensures r in bound {
        assert r !in missing;
      }
    } else {
      assert missing[0] in missing;
    }
  }

  /** What a passing verdict says of the document: every transition steps the version of its source by one and uses
      only what its source carries, and every walk from the initial point to one that holds locked value goes on to a
      safe terminal. */
  lemma VerdictMeans(m: Lattice, v: Verdict)
    requires Accepted(m) && VerdictOf(m, v)
    ensures v.pass <==>
            && (forall t, p, q :: (t in m.transitions && p in m.points && q in m.points
                                   && p.id == t.source && q.id == t.target) ==> Clean(p, q, t))
            && (forall w, p :: w != [] && Walk(EdgesOf(m.transitions), w) && w[0] == m.initialPoint
                               && p in m.points && p.id == w[|w| - 1] && p.lockedValue > 0 ==>
                                 exists on :: on != [] && Walk(EdgesOf(m.transitions), on) && on[0] == p.id
                                              && on[|on| - 1] in m.safeTerminals)
  {
    PassIff(m, v);
    CausalIff(m);
    NoneStuckIff(m);
    hide *;
  }

  lemma PassIff(m: Lattice, v: Verdict)
    requires Accepted(m) && VerdictOf(m, v)
    ensures v.pass <==> Causal(m) && forall p :: !Stuck(m, p)
  {
    hide Stuck, Causal, InOrder, Reaches, Ascending, LeastShortestPath, EarnedBySome, Accepted;
    EarnedIffNotCausal(m);
    if v.violations != [] { assert v.violations[0] in v.violations; }
  }

  lemma EarnedIffNotCausal(m: Lattice)
    requires Accepted(m)
    ensures (exists x :: EarnedBySome(m, m.transitions, x)) <==> !Causal(m)
  {
    hide Earned, Clean;
    forall t | t in m.transitions
      ensures Clean(PointOf(m, t.source), PointOf(m, t.target), t) <==>
              forall x :: !Earned(PointOf(m, t.source), PointOf(m, t.target), t, x)
    {
      FaultsSpoil(PointOf(m, t.source), PointOf(m, t.target), t);
    }
    if t :| t in m.transitions && !Clean(PointOf(m, t.source), PointOf(m, t.target), t) {
      var x :| Earned(PointOf(m, t.source), PointOf(m, t.target), t, x);
      assert EarnedBySome(m, m.transitions, x);
    }
  }

  lemma CausalIff(m: Lattice)
    requires Accepted(m)
    ensures Causal(m) <==>
            forall t, p, q :: (t in m.transitions && p in m.points && q in m.points
                               && p.id == t.source && q.id == t.target) ==> Clean(p, q, t)
  {
    hide Clean;
    forall p | p in m.points ensures Known(m.points, p.id) && PointOf(m, p.id) == p { PointIsUnique(m, p); }
  }

  lemma NoneStuckIff(m: Lattice)
    ensures (forall p :: !Stuck(m, p)) <==>
            forall w, p :: w != [] && Walk(EdgesOf(m.transitions), w) && w[0] == m.initialPoint
                           && p in m.points && p.id == w[|w| - 1] && p.lockedValue > 0 ==>
                             exists on :: on != [] && Walk(EdgesOf(m.transitions), on) && on[0] == p.id
                                          && on[|on| - 1] in m.safeTerminals
  {
    hide Joined, EdgesOf;
    var edges := EdgesOf(m.transitions);
    if forall p :: !Stuck(m, p) {
      forall w, p | w != [] && Walk(edges, w) && w[0] == m.initialPoint
                    && p in m.points && p.id == w[|w| - 1] && p.lockedValue > 0
        ensures exists on :: on != [] && Walk(edges, on) && on[0] == p.id && on[|on| - 1] in m.safeTerminals
      {
        assert WalkBetween(edges, w, m.initialPoint, p.id);
        assert !Stuck(m, p);
        var g :| g in SafeSet(m) && Reaches(edges, p.id, g);
        var on :| WalkBetween(edges, on, p.id, g);
      }
    } else {
      var p :| Stuck(m, p);
      var w :| WalkBetween(edges, w, m.initialPoint, p.id);
      forall on | on != [] && Walk(edges, on) && on[0] == p.id ensures on[|on| - 1] !in m.safeTerminals {
        assert WalkBetween(edges, on, p.id, on[|on| - 1]);
        assert on[|on| - 1] !in SafeSet(m);
      }
    }
  }

  // ---------------------------------------------------- can be released, will be

  /** A run follows transitions from the initial point; it is maximal when none leaves its end. */
  ghost predicate Run(m: Lattice, run: seq<Id>) {
    Walk(EdgesOf(m.transitions), run) && run[0] == m.initialPoint
  }

  ghost predicate Maximal(m: Lattice, run: seq<Id>)
    requires run != []
  {
    forall t :: t in m.transitions ==> t.source != run[|run| - 1]
  }

  lemma {:induction false} VersionsCountSteps(m: Lattice, run: seq<Id>, k: nat)
    requires Accepted(m) && Causal(m) && Run(m, run) && k < |run|
    ensures Known(m.points, run[k])
    ensures PointOf(m, run[k]).version == PointOf(m, m.initialPoint).version + k
  {
    if k > 0 {
      VersionsCountSteps(m, run, k - 1);
      assert Joined(EdgesOf(m.transitions), run[k - 1], run[k]);
      EdgeMembers(m);
    }
  }

  /** Unit version steps make every run finite: it visits no point twice. */
  lemma RunsAreFinite(m: Lattice, run: seq<Id>)
    requires Accepted(m) && Causal(m) && Run(m, run)
    ensures |run| <= |m.points|
    ensures forall i, j :: 0 <= i < j < |run| ==> run[i] != run[j]
  {
    forall i, j | 0 <= i < j < |run| ensures run[i] != run[j] {
      VersionsCountSteps(m, run, i);
      VersionsCountSteps(m, run, j);
    }
    var ids := set p | p in m.points :: p.id;
    forall x | x in run ensures x in ids {
      var k :| 0 <= k < |run| && run[k] == x;
      VersionsCountSteps(m, run, k);
    }
    DistinctFit(run, ids);
    IdsFit(m.points);
  }

  lemma {:induction false} IdsFit(points: seq<Point>)
    ensures |set p | p in points :: p.id| <= |points|
  {
    if points != [] {
      IdsFit(points[1..]);
      assert (set p | p in points :: p.id) == (set p | p in points[1..] :: p.id) + {points[0].id};
    }
  }

  lemma NoWayOn(m: Lattice, run: seq<Id>, w: seq<Id>)
    requires run != [] && Maximal(m, run) && Walk(EdgesOf(m.transitions), w) && w[0] == run[|run| - 1]
    ensures |w| == 1
  {
    if |w| > 1 {
      assert Joined(EdgesOf(m.transitions), w[0], w[1]);
      EdgeMembers(m);
    }
  }

  /** A passing lattice: value that can be released is always released. Every run is shorter than
      the number of points, and a run that cannot continue has released all locked value. */
  lemma PassMeansAlwaysReleased(m: Lattice, run: seq<Id>)
    requires Accepted(m) && Causal(m) && forall p :: !Stuck(m, p)
    requires Run(m, run)
    ensures |run| <= |m.points|
    ensures Known(m.points, run[|run| - 1])
    ensures Maximal(m, run) ==> PointOf(m, run[|run| - 1]).lockedValue == 0
  {
    RunsAreFinite(m, run);
    VersionsCountSteps(m, run, |run| - 1);
    var edges, end := EdgesOf(m.transitions), run[|run| - 1];
    var p := PointOf(m, end);
    assert WalkBetween(edges, run, m.initialPoint, end);
    assert !Stuck(m, p);
    if Maximal(m, run) && CanReach(edges, end, SafeSet(m)) {
      var g :| g in SafeSet(m) && Reaches(edges, end, g);
      var w :| WalkBetween(edges, w, end, g);
      NoWayOn(m, run, w);
    }
  }

  lemma StepOn(m: Lattice, run: seq<Id>, t: Transition)
    requires Run(m, run) && t in m.transitions && t.source == run[|run| - 1]
    ensures Run(m, run + [t.target])
  {
    EdgeMembers(m);
    assert Edge(t.id, t.source, t.target) in EdgesOf(m.transitions);
    assert Joined(EdgesOf(m.transitions), t.source, t.target);
  }

  /** Every run extends to a maximal one, so in a passing lattice release is inevitable. */
  lemma {:induction false} RunExtends(m: Lattice, run: seq<Id>) returns (full: seq<Id>)
    requires Accepted(m) && Causal(m) && Run(m, run)
    ensures Run(m, full) && Maximal(m, full) && run <= full
    decreases |m.points| - |run|
  {
    full := run;
    if !Maximal(m, run) {
      var t :| t in m.transitions && t.source == run[|run| - 1];
      StepOn(m, run, t);
      RunsAreFinite(m, run + [t.target]);
      full := RunExtends(m, run + [t.target]);
    }
  }
}
