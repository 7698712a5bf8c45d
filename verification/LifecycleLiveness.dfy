/** The lifecycle liveness verifier: every reachable state that holds value must have a path to a
    safe terminal, and a state that has none is reported with its canonical counterexample. */
module LifecycleLiveness {
  import opened Ordering
  import opened Search
  import opened ShortestPaths

  datatype State = State(id: Id, holdsValue: bool, safeTerminal: bool)

  datatype Model = Model(states: seq<State>, transitions: seq<Edge>, initialState: Id)

  datatype Reason = DeadEnd | Trap

  datatype Violation = Violation(state: Id, reason: Reason, counterexampleStates: seq<Id>,
                                 counterexampleTransitions: seq<Id>, outgoingTransitions: seq<Id>)

  datatype Verdict = Verdict(pass: bool, safeEconomicTerminals: seq<Id>, reachableStates: seq<Id>,
                             reachableValueHoldingStates: seq<Id>, violations: seq<Violation>)

  // ---------------------------------------------------------------- validation

  ghost predicate HasState(m: Model, id: Id) {
    exists s :: s in m.states && s.id == id
  }

  ghost predicate Valid(m: Model) {
    && (forall i, j :: 0 <= i < j < |m.states| ==> m.states[i].id != m.states[j].id)
    && (forall s :: s in m.states && s.safeTerminal ==> !s.holdsValue)
    && (exists s :: s in m.states && s.safeTerminal)
    && HasState(m, m.initialState)
    && (forall i, j :: 0 <= i < j < |m.transitions| ==> m.transitions[i].id != m.transitions[j].id)
    && (forall e :: e in m.transitions ==> HasState(m, e.source) && HasState(m, e.target))
  }

  /** One pass over the states and one over the transitions, each with the ids seen so far. */
  method Validate(m: Model) returns (valid: bool)
    ensures valid <==> Valid(m)
  {
    var stateIds, statesValid := ValidateStates(m);
    if !statesValid || m.initialState !in stateIds {
      return false;
    }
    var transitionIds: set<Id> := {};
    for k := 0 to |m.transitions|
      invariant forall x :: x in transitionIds <==> exists i :: 0 <= i < k && m.transitions[i].id == x
      invariant forall i, j :: 0 <= i < j < k ==> m.transitions[i].id != m.transitions[j].id
      invariant forall i :: 0 <= i < k ==> HasState(m, m.transitions[i].source) && HasState(m, m.transitions[i].target)
    {
      var edge := m.transitions[k];
      if edge.id in transitionIds || edge.source !in stateIds || edge.target !in stateIds {
        assert edge in m.transitions;
        return false;
      }
      transitionIds := transitionIds + {edge.id};
    }
    return true;
  }

  method ValidateStates(m: Model) returns (stateIds: set<Id>, valid: bool)
    ensures valid <==>
              && (forall i, j :: 0 <= i < j < |m.states| ==> m.states[i].id != m.states[j].id)
              && (forall s :: s in m.states && s.safeTerminal ==> !s.holdsValue)
              && (exists s :: s in m.states && s.safeTerminal)
    ensures valid ==> forall x :: x in stateIds <==> HasState(m, x)
  {
    stateIds, valid := {}, false;
    var someSafe := false;
    for k := 0 to |m.states|
      invariant forall x :: x in stateIds <==> exists i :: 0 <= i < k && m.states[i].id == x
      invariant forall i, j :: 0 <= i < j < k ==> m.states[i].id != m.states[j].id
      invariant forall i :: 0 <= i < k && m.states[i].safeTerminal ==> !m.states[i].holdsValue
      invariant someSafe <==> exists i :: 0 <= i < k && m.states[i].safeTerminal
    {
      var state := m.states[k];
      assert state in m.states;
      if state.id in stateIds || (state.safeTerminal && state.holdsValue) {
        return;
      }
      stateIds := stateIds + {state.id};
      someSafe := someSafe || state.safeTerminal;
    }
    StateIds(m, stateIds);
    valid := someSafe;
  }

  lemma StateIds(m: Model, stateIds: set<Id>)
    requires forall x :: x in stateIds <==> exists i :: 0 <= i < |m.states| && m.states[i].id == x
    ensures forall x :: x in stateIds <==> HasState(m, x)
  {
    forall x | HasState(m, x) ensures x in stateIds {
      var s :| s in m.states && s.id == x;
      var i :| 0 <= i < |m.states| && m.states[i] == s;
    }
  }

  predicate Unknown(m: Model, id: Id) {
    forall i :: 0 <= i < |m.states| ==> m.states[i].id != id
  }

  lemma UnknownIff(m: Model, id: Id)
    ensures HasState(m, id) <==> !Unknown(m, id)
  {
    if i :| 0 <= i < |m.states| && m.states[i].id == id { assert m.states[i] in m.states; }
  }

  /** A model is refused exactly for one of these: a state or transition id repeated, a safe terminal that holds
      value, no safe terminal, or a state that is referred to and not declared. */
  lemma RefusedIff(m: Model)
    ensures !Valid(m) <==>
            || (exists i, j :: 0 <= i < j < |m.states| && m.states[i].id == m.states[j].id)
            || (exists i, j :: 0 <= i < j < |m.transitions| && m.transitions[i].id == m.transitions[j].id)
            || (exists i :: 0 <= i < |m.states| && m.states[i].safeTerminal && m.states[i].holdsValue)
            || (forall i :: 0 <= i < |m.states| ==> !m.states[i].safeTerminal)
            || Unknown(m, m.initialState)
            || (exists i :: 0 <= i < |m.transitions|
                            && (Unknown(m, m.transitions[i].source) || Unknown(m, m.transitions[i].target)))
  {
    forall id ensures HasState(m, id) <==> !Unknown(m, id) { UnknownIff(m, id); }
    hide HasState, Unknown;
  }

  // -------------------------------------------------------------- what is proved

  ghost predicate HoldsValue(m: Model, id: Id) {
    exists s :: s in m.states && s.id == id && s.holdsValue
  }

  function SafeIds(m: Model): set<Id> {
    set s | s in m.states && s.safeTerminal :: s.id
  }

  /** Reachable, holding value, and without any path to a safe terminal. */
  ghost predicate Stranded(m: Model, id: Id) {
    && Reaches(m.transitions, m.initialState, id) && HoldsValue(m, id)
    && !CanReach(m.transitions, id, SafeIds(m))
  }

  /** The ids of the edges leaving `id`, ordered by target and then by id. */
  function OutgoingIds(m: Model, id: Id): seq<Id> {
    var edges := Sort(From(m.transitions, id), EdgeLe);
    seq(|edges|, i requires 0 <= i < |edges| => edges[i].id)
  }

  ghost predicate Reports(m: Model, x: Violation) {
    && Stranded(m, x.state)
    && (x.reason == DeadEnd <==> forall e :: e in m.transitions ==> e.source != x.state)
    && LeastShortestPath(m.transitions, m.initialState, x.state, x.counterexampleStates, x.counterexampleTransitions)
    && x.outgoingTransitions == OutgoingIds(m, x.state)
  }

  /** Everything the verdict says, in terms of the declared graph alone. */
  ghost predicate VerdictOf(m: Model, v: Verdict) {
    && (v.pass <==> forall id :: !Stranded(m, id))
    && Ascending(v.safeEconomicTerminals) && Ascending(v.reachableStates) && Ascending(v.reachableValueHoldingStates)
    && (forall id :: id in v.safeEconomicTerminals <==> id in SafeIds(m))
    && (forall id :: id in v.reachableStates <==> Reaches(m.transitions, m.initialState, id))
    && (forall id :: id in v.reachableValueHoldingStates
          <==> Reaches(m.transitions, m.initialState, id) && HoldsValue(m, id))
    && (forall i :: 0 <= i < |v.violations| ==> Reports(m, v.violations[i]))
    && (forall i, j :: 0 <= i < j < |v.violations| ==> Lt(v.violations[i].state, v.violations[j].state))
    && (forall id :: Stranded(m, id) ==> exists x :: x in v.violations && x.state == id)
  }

  method IndexStates(m: Model) returns (holds: map<Id, bool>)
    requires Valid(m)
    ensures forall id :: id in holds <==> HasState(m, id)
    ensures forall id :: id in holds ==> (holds[id] <==> HoldsValue(m, id))
  {
    holds := map[];
    for k := 0 to |m.states|
      invariant forall i :: 0 <= i < k ==> m.states[i].id in holds && holds[m.states[i].id] == m.states[i].holdsValue
      invariant forall id :: id in holds ==> exists i :: 0 <= i < k && m.states[i].id == id
    {
      holds := holds[m.states[k].id := m.states[k].holdsValue];
    }
    StateIds(m, holds.Keys);
    forall id | id in holds ensures holds[id] <==> HoldsValue(m, id) {
      var i :| 0 <= i < |m.states| && m.states[i].id == id;
      assert m.states[i] in m.states;
      if HoldsValue(m, id) {
        var s :| s in m.states && s.id == id && s.holdsValue;
        var j :| 0 <= j < |m.states| && m.states[j] == s;
        assert i == j;
      }
    }
  }

  lemma ReachedHasState(m: Model, id: Id)
    requires Valid(m) && Reaches(m.transitions, m.initialState, id)
    ensures HasState(m, id)
  {
    var ids := set s | s in m.states :: s.id;
    var w :| WalkBetween(m.transitions, w, m.initialState, id);
    ClosedContains(m.transitions, ids, w);
  }

  method ReportStranded(m: Model, id: Id, predecessor: map<Id, (Id, Edge)>,
                          ghost order: seq<Id>, ghost parent: seq<nat>)
    returns (x: Violation)
    requires Spanning(m.transitions, m.initialState, order, parent)
             && Records(m.transitions, order, parent, predecessor)
    requires Stranded(m, id) && id in order
    ensures Reports(m, x) && x.state == id
  {
    hide Spanning, Records, Stranded, LeastShortestPath;
    var states, transitions := CounterexamplePath(m.transitions, id, m.initialState, predecessor, order, parent);
    var outgoing := OutgoingIds(m, id);
    NothingLeaves(m, id);
    x := Violation(id, if outgoing == [] then DeadEnd else Trap, states, transitions, outgoing);
  }

  lemma NothingLeaves(m: Model, id: Id)
    ensures OutgoingIds(m, id) == [] <==> forall e :: e in m.transitions ==> e.source != id
  {
    var edges := Sort(From(m.transitions, id), EdgeLe);
    hide Sort, From;
    OutgoingOrder(m.transitions, id, edges);
    if edges != [] { assert edges[0] in edges; }
  }

  /** The verdict on a valid model; an invalid one is refused. */
  method RunLifecycleLiveness(m: Model) returns (r: Option<Verdict>)
    ensures r.Some? <==> Valid(m)
    ensures r.Some? ==> VerdictOf(m, r.value)
    ensures r.Some? ==> (r.value.pass <==> r.value.violations == [])
  {
    var valid := Validate(m);
    if !valid {
      return None;
    }
    var v := Analyse(m);
    return Some(v);
  }

  method Analyse(m: Model) returns (v: Verdict)
    requires Valid(m)
    ensures VerdictOf(m, v)
    ensures v.pass <==> v.violations == []
  {
    var holds := IndexStates(m);
    var reachable, predecessor;
    ghost var order, parent;
    reachable, predecessor, order, parent := ForwardSearch(m.transitions, m.initialState);
    var canReachTerminal := BackwardSearch(m.transitions, SafeIds(m));
    forall id | id in reachable ensures id in holds { ReachedHasState(m, id); }
    hide *;
    var valueHolding := SortedIds(set id | id in reachable && holds[id]);
    var violations := StrandedReports(m, valueHolding, canReachTerminal, predecessor, order, parent);
    v := Verdict(violations == [], SortedIds(SafeIds(m)), SortedIds(reachable), valueHolding, violations);
    Assemble(m, v);
  }

  lemma Assemble(m: Model, v: Verdict)
    requires v.pass <==> v.violations == []
    requires Ascending(v.safeEconomicTerminals) && Ascending(v.reachableStates)
             && Ascending(v.reachableValueHoldingStates)
    requires forall id :: id in v.safeEconomicTerminals <==> id in SafeIds(m)
    requires forall id :: id in v.reachableStates <==> Reaches(m.transitions, m.initialState, id)
    requires forall id :: id in v.reachableValueHoldingStates
               <==> Reaches(m.transitions, m.initialState, id) && HoldsValue(m, id)
    requires forall i :: 0 <= i < |v.violations| ==> Reports(m, v.violations[i])
    requires forall i, j :: 0 <= i < j < |v.violations| ==> Lt(v.violations[i].state, v.violations[j].state)
    requires forall id :: Stranded(m, id) ==> exists x :: x in v.violations && x.state == id
    ensures VerdictOf(m, v)
  {
    PassesIffEmpty(m, v.violations);
  }

  lemma PassesIffEmpty(m: Model, violations: seq<Violation>)
    requires forall i :: 0 <= i < |violations| ==> Reports(m, violations[i])
    requires forall id :: Stranded(m, id) ==> exists x :: x in violations && x.state == id
    ensures violations == [] <==> forall id :: !Stranded(m, id)
  {
    if violations != [] {
      assert Reports(m, violations[0]);
    }
  }

  method StrandedReports(m: Model, valueHolding: seq<Id>, canReachTerminal: set<Id>,
                         predecessor: map<Id, (Id, Edge)>, ghost order: seq<Id>, ghost parent: seq<nat>)
    returns (violations: seq<Violation>)
    requires Spanning(m.transitions, m.initialState, order, parent)
             && Records(m.transitions, order, parent, predecessor)
    requires Ascending(valueHolding) && forall id :: id in valueHolding ==> id in order
    requires forall id :: id in valueHolding <==> Reaches(m.transitions, m.initialState, id) && HoldsValue(m, id)
    requires forall id :: id in canReachTerminal <==> CanReach(m.transitions, id, SafeIds(m))
    ensures forall i :: 0 <= i < |violations| ==> Reports(m, violations[i])
    ensures forall i, j :: 0 <= i < j < |violations| ==> Lt(violations[i].state, violations[j].state)
    ensures forall id :: Stranded(m, id) ==> exists x :: x in violations && x.state == id
  {
    violations := [];
    hide Reports, Spanning, Records, CanReach, Reaches, HoldsValue, Lt;
    for k := 0 to |valueHolding|
      invariant forall i :: 0 <= i < |violations| ==> Reports(m, violations[i])
      invariant forall i :: 0 <= i < |violations| ==> violations[i].state in valueHolding[..k]
      invariant forall i, j :: 0 <= i < j < |violations| ==> Lt(violations[i].state, violations[j].state)
      invariant forall id :: id in valueHolding[..k] && Stranded(m, id) ==> exists x :: x in violations && x.state == id
    {
      TakeMore(valueHolding, k);
      var id := valueHolding[k];
      if id !in canReachTerminal {
        var x := ReportStranded(m, id, predecessor, order, parent);
        ghost var before := violations;
        violations := violations + [x];
        assert x in violations && forall y :: y in before ==> y in violations;
      }
    }
    TakeAll(valueHolding);
  }

  // ------------------------------------------------------- meaning of a verdict

  /** From a reported state nothing that follows is safe, or can become safe. */
  lemma StrandedForever(m: Model, id: Id, w: seq<Id>, k: nat)
    requires Stranded(m, id)
    requires Walk(m.transitions, w) && w[0] == id && k < |w|
    ensures w[k] !in SafeIds(m) && !CanReach(m.transitions, w[k], SafeIds(m))
  {
    assert WalkBetween(m.transitions, w[..k + 1], id, w[k]);
    ReachesSelf(m.transitions, w[k]);
    if CanReach(m.transitions, w[k], SafeIds(m)) {
      var g :| g in SafeIds(m) && Reaches(m.transitions, w[k], g);
      ReachesTransitive(m.transitions, id, w[k], g);
    }
  }

  /** In a passing model every reachable state holding value has a path that ends in a safe
      terminal, where no value is held. */
  lemma PassGivesSafeExit(m: Model, v: Verdict, id: Id) returns (w: seq<Id>)
    requires Valid(m) && VerdictOf(m, v) && v.pass
    requires Reaches(m.transitions, m.initialState, id) && HoldsValue(m, id)
    ensures Walk(m.transitions, w) && w[0] == id && w[|w| - 1] in SafeIds(m) && !HoldsValue(m, w[|w| - 1])
  {
    assert !Stranded(m, id);
    var g :| g in SafeIds(m) && Reaches(m.transitions, id, g);
    w :| WalkBetween(m.transitions, w, id, g);
  }

  /** A declared safe terminal ends the walk. */
  ghost predicate EndsSafely(m: Model, w: seq<Id>)
    requires w != []
  {
    exists s :: s in m.states && s.id == w[|w| - 1] && s.safeTerminal
  }

  lemma SafeIsDeclared(m: Model, id: Id)
    ensures id in SafeIds(m) <==> exists s :: s in m.states && s.id == id && s.safeTerminal
  {
  }

  /** What a verdict says of the declarations: it passes exactly when every walk from the initial state to a state
      that holds value goes on to a declared safe terminal. */
  lemma VerdictMeans(m: Model, v: Verdict)
    requires VerdictOf(m, v)
    ensures v.pass <==>
            forall w, s :: w != [] && Walk(m.transitions, w) && w[0] == m.initialState
                           && s in m.states && s.id == w[|w| - 1] && s.holdsValue ==>
                             exists on :: on != [] && Walk(m.transitions, on) && on[0] == s.id && EndsSafely(m, on)
    ensures forall x :: x in v.safeEconomicTerminals <==> exists s :: s in m.states && s.id == x && s.safeTerminal
  {
    hide Joined;
    if v.pass {
      forall w, s | Walk(m.transitions, w) && w != [] && w[0] == m.initialState
                    && s in m.states && s.id == w[|w| - 1] && s.holdsValue
        ensures exists on :: Walk(m.transitions, on) && on != [] && on[0] == s.id && EndsSafely(m, on)
      {
        assert WalkBetween(m.transitions, w, m.initialState, s.id);
        assert !Stranded(m, s.id);
        var g :| g in SafeIds(m) && Reaches(m.transitions, s.id, g);
        var on :| WalkBetween(m.transitions, on, s.id, g);
        SafeIsDeclared(m, g);
        assert EndsSafely(m, on);
      }
    } else {
      var id :| Stranded(m, id);
      var w :| WalkBetween(m.transitions, w, m.initialState, id);
      var s :| s in m.states && s.id == id && s.holdsValue;
      forall on | Walk(m.transitions, on) && on != [] && on[0] == s.id ensures !EndsSafely(m, on) {
        assert WalkBetween(m.transitions, on, s.id, on[|on| - 1]);
        assert on[|on| - 1] !in SafeIds(m);
      }
    }
  }

  // ------------------------------------------------- independence of input order

  ghost predicate SameDeclarations(m: Model, m': Model) {
    && m.initialState == m'.initialState
    && (forall s :: s in m.states <==> s in m'.states)
    && (forall e :: e in m.transitions <==> e in m'.transitions)
  }

  /** Listing the same states and transitions in another order gives the same verdict, down to
      every counterexample. */
  lemma VerdictIgnoresInputOrder(m: Model, m': Model, v: Verdict, v': Verdict)
    requires Valid(m) && Valid(m') && SameDeclarations(m, m')
    requires VerdictOf(m, v) && VerdictOf(m', v')
    ensures v == v'
  {
    SameGraph(m, m');
    SameViolations(m, m', v, v');
    TextStrictOrder();
    hide Stranded, Valid, SameDeclarations, Reports, Lt, Reaches, HoldsValue, SafeIds;
    StrictListIsUnique(v.safeEconomicTerminals, v'.safeEconomicTerminals, Lt);
    StrictListIsUnique(v.reachableStates, v'.reachableStates, Lt);
    StrictListIsUnique(v.reachableValueHoldingStates, v'.reachableValueHoldingStates, Lt);
  }

  predicate StateLt(x: Violation, y: Violation) {
    Lt(x.state, y.state)
  }

  lemma SameViolations(m: Model, m': Model, v: Verdict, v': Verdict)
    requires Valid(m) && Valid(m') && SameDeclarations(m, m')
    requires VerdictOf(m, v) && VerdictOf(m', v')
    ensures v.violations == v'.violations
  {
    hide Stranded, Valid, SameDeclarations, Reports, Reaches, HoldsValue, SafeIds, Ascending, Lt;
    SameDeclarationsSwap(m, m');
    SameReports(m, m', v, v');
    SameReports(m', m, v', v);
    StateOrderIsStrict();
    StrictListIsUnique(v.violations, v'.violations, StateLt);
  }

  lemma SameDeclarationsSwap(m: Model, m': Model)
    requires SameDeclarations(m, m')
    ensures SameDeclarations(m', m)
  {
  }

  lemma StateOrderIsStrict()
    ensures forall a, b :: !(StateLt(a, b) && StateLt(b, a))
  {
    TextStrictOrder();
  }

  lemma SameGraph(m: Model, m': Model)
    requires SameDeclarations(m, m')
    ensures forall a, b :: Reaches(m.transitions, a, b) <==> Reaches(m'.transitions, a, b)
    ensures forall id :: HoldsValue(m, id) <==> HoldsValue(m', id)
    ensures forall id :: Stranded(m, id) <==> Stranded(m', id)
    ensures SafeIds(m) == SafeIds(m')
  {
    forall a, b ensures Reaches(m.transitions, a, b) <==> Reaches(m'.transitions, a, b) {
      if w :| WalkBetween(m.transitions, w, a, b) { SameWalks(m.transitions, m'.transitions, w, a, b); }
      if w :| WalkBetween(m'.transitions, w, a, b) { SameWalks(m'.transitions, m.transitions, w, a, b); }
    }
    assert SafeIds(m) == SafeIds(m');
  }

  lemma SameReports(m: Model, m': Model, v: Verdict, v': Verdict)
    requires Valid(m) && Valid(m') && SameDeclarations(m, m')
    requires VerdictOf(m, v) && VerdictOf(m', v')
    ensures forall x :: x in v.violations ==> x in v'.violations
  {
    SameGraph(m, m');
    hide Stranded, Valid, SameDeclarations, LeastShortestPath, OutgoingIds, Ascending, Lt, Reaches, HoldsValue;
    forall x | x in v.violations ensures x in v'.violations {
      assert Reports(m, x);
      var y :| y in v'.violations && y.state == x.state;
      assert Reports(m', y);
      SameReport(m, m', x, y);
    }
  }

  lemma SameReport(m: Model, m': Model, x: Violation, y: Violation)
    requires Valid(m) && Valid(m') && SameDeclarations(m, m')
    requires Reports(m, x) && Reports(m', y) && x.state == y.state
    ensures x == y
  {
    hide Stranded, Valid, LeastShortestPath, OutgoingIds;
    PathIgnoresInputOrder(m.transitions, m'.transitions, m.initialState, x.state,
      x.counterexampleStates, x.counterexampleTransitions, y.counterexampleStates, y.counterexampleTransitions);
    SameOutgoing(m, m', x.state);
  }

  lemma SameOutgoing(m: Model, m': Model, id: Id)
    requires Valid(m) && Valid(m') && SameDeclarations(m, m')
    ensures OutgoingIds(m, id) == OutgoingIds(m', id)
  {
    var edges, edges' := Sort(From(m.transitions, id), EdgeLe), Sort(From(m'.transitions, id), EdgeLe);
    OutgoingStrict(m.transitions, id);
    OutgoingStrict(m'.transitions, id);
    forall a, b ensures !(EdgeLt(a, b) && EdgeLt(b, a)) {
      if EdgeLe(a, b) && EdgeLe(b, a) {
        if a.target != b.target { LeAntisymmetric(a.target, b.target); }
        LeAntisymmetric(a.id, b.id);
      }
    }
    StrictListIsUnique(edges, edges', EdgeLt);
  }

  predicate EdgeLt(a: Edge, b: Edge) {
    EdgeLe(a, b) && a.id != b.id
  }

  /** With distinct edge ids the outgoing edges are strictly ordered. */
  lemma OutgoingStrict(edges: seq<Edge>, id: Id)
    requires DistinctIds(edges)
    ensures var out := Sort(From(edges, id), EdgeLe);
            && (forall i, j :: 0 <= i < j < |out| ==> EdgeLt(out[i], out[j]))
            && (forall e :: e in out <==> e in edges && e.source == id)
  {
    var from := From(edges, id);
    var out := Sort(from, EdgeLe);
    OutgoingOrder(edges, id, out);
    SortKeeps(from, EdgeLe);
    FromDistinct(edges, id);
    StaysDifferent(from, out);
    forall i, j | 0 <= i < j < |out| ensures EdgeLt(out[i], out[j]) {
      assert EdgeLe(out[i], out[j]);
      assert out[i] in from && out[j] in from;
    }
  }

  ghost predicate DistinctIds(edges: seq<Edge>) {
    forall i, j :: 0 <= i < j < |edges| ==> edges[i].id != edges[j].id
  }

  lemma {:induction false} FromDistinct(edges: seq<Edge>, id: Id)
    requires DistinctIds(edges)
    ensures DistinctIds(From(edges, id))
  {
    if edges != [] {
      var init, last := edges[..|edges| - 1], edges[|edges| - 1];
      FromDistinct(init, id);
      FromHolds(init, id);
      var from := From(init, id);
      forall i | 0 <= i < |from| ensures from[i].id != last.id {
        assert from[i] in init;
      }
      assert DistinctIds(from + [last]);
    }
  }

  /** The outgoing list of a state: exactly the ids of the transitions that leave it, each once, by target and then
      by id. */
  lemma OutgoingListed(m: Model, id: Id) returns (edges: seq<Edge>)
    requires Valid(m)
    ensures |OutgoingIds(m, id)| == |edges| && forall i :: 0 <= i < |edges| ==> OutgoingIds(m, id)[i] == edges[i].id
    ensures forall e :: e in edges <==> e in m.transitions && e.source == id
    ensures forall i, j :: 0 <= i < j < |edges| ==>
              Lt(edges[i].target, edges[j].target)
              || (edges[i].target == edges[j].target && Lt(edges[i].id, edges[j].id))
  {
    hide Sort, From;
    edges := Sort(From(m.transitions, id), EdgeLe);
    OutgoingStrict(m.transitions, id);
  }
}
