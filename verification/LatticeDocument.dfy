/** Parsing a lattice document: its points, transitions and safe terminals are checked pass by pass before
    the verifier runs. */
module LatticeDocument {
  import opened Ordering
  import opened ContractLattice

  /** A list of references is as long as its set. */
  method Unique(refs: seq<Id>) returns (ok: bool)
    ensures ok <==> AllDifferent(refs)
  {
    UniqueIff(refs);
    ok := |refs| == |set x | x in refs|;
  }

  ghost predicate IdsOf(points: seq<Point>, ids: seq<Id>) {
    |ids| == |points| && forall i :: 0 <= i < |points| ==> ids[i] == points[i].id
  }

  method ParsePoints(points: seq<Point>) returns (ids: seq<Id>, ok: bool)
    ensures ok <==> forall p :: p in points ==> PointFits(p)
    ensures ok ==> IdsOf(points, ids)
  {
    ids, ok := [], false;
    hide AllDifferent;
    for k := 0 to |points|
      invariant |ids| == k && forall i :: 0 <= i < k ==> ids[i] == points[i].id
      invariant forall i :: 0 <= i < k ==> PointFits(points[i])
    {
      var p := points[k];
      assert p in points;
      var authority := Unique(p.authorityRefs);
      var evidence := Unique(p.evidenceRefs);
      var time := Unique(p.timeWitnessRefs);
      if p.version < 0 || p.lockedValue < 0 || !authority || !evidence || !time {
        return;
      }
      ids := ids + [p.id];
    }
    ok := true;
  }

  method ParseTransitions(transitions: seq<Transition>) returns (ids: seq<Id>, ok: bool)
    ensures ok <==> forall t :: t in transitions ==> TransitionFits(t)
    ensures ok ==> |ids| == |transitions| && forall i :: 0 <= i < |transitions| ==> ids[i] == transitions[i].id
  {
    ids, ok := [], false;
    hide AllDifferent;
    for k := 0 to |transitions|
      invariant |ids| == k && forall i :: 0 <= i < k ==> ids[i] == transitions[i].id
      invariant forall i :: 0 <= i < k ==> TransitionFits(transitions[i])
    {
      var t := transitions[k];
      assert t in transitions;
      var evidence := Unique(t.evidenceRefs);
      var time := Unique(t.timeWitnessRefs);
      if !evidence || !time {
        return;
      }
      ids := ids + [t.id];
    }
    ok := true;
  }

  method CheckEndpoints(m: Lattice, known: set<Id>) returns (ok: bool)
    requires forall x :: x in known <==> Known(m.points, x)
    ensures ok <==> forall t :: t in m.transitions ==> Known(m.points, t.source) && Known(m.points, t.target)
  {
    hide Known;
    for k := 0 to |m.transitions|
      invariant forall i :: 0 <= i < k ==> Known(m.points, m.transitions[i].source)
                                             && Known(m.points, m.transitions[i].target)
    {
      var t := m.transitions[k];
      assert t in m.transitions;
      if t.source !in known || t.target !in known {
        return false;
      }
    }
    ok := true;
  }

  /** No safe terminal holds locked value. */
  method CheckSafeTerminals(m: Lattice, index: map<Id, Point>) returns (ok: bool)
    requires IndexedBy(m.points, index) && DistinctIds(m.points)
    requires forall s :: s in m.safeTerminals ==> s in index
    ensures ok <==> forall s, p :: s in m.safeTerminals && p in m.points && p.id == s ==> p.lockedValue == 0
  {
    for k := 0 to |m.safeTerminals|
      invariant forall i :: 0 <= i < k ==> index[m.safeTerminals[i]].lockedValue == 0
    {
      var s := m.safeTerminals[k];
      assert s in m.safeTerminals;
      if index[s].lockedValue != 0 {
        return false;
      }
    }
    ok := true;
  }

  lemma IdsAreKnown(points: seq<Point>, ids: seq<Id>)
    requires IdsOf(points, ids)
    ensures forall x :: x in ids <==> Known(points, x)
    ensures AllDifferent(ids) <==> DistinctIds(points)
  {
    forall x | Known(points, x) ensures x in ids {
      var p :| p in points && p.id == x;
      var i :| 0 <= i < |points| && points[i] == p;
      assert ids[i] == x;
    }
    forall x | x in ids ensures Known(points, x) {
      var i :| 0 <= i < |ids| && ids[i] == x;
      assert points[i] in points;
    }
  }

  lemma IndexKnows(points: seq<Point>, index: map<Id, Point>)
    requires IndexedBy(points, index)
    ensures forall x :: x in index <==> Known(points, x)
  {
  }

  /** A document is accepted exactly when every pass succeeds. */
  method Parse(m: Lattice) returns (ok: bool)
    ensures ok <==> Accepted(m)
  {
    hide PointFits, TransitionFits, AllDifferent, Known, DistinctIds, IndexedBy;
    var pointIds, pointsFit := ParsePoints(m.points);
    var transitionIds, transitionsFit := ParseTransitions(m.transitions);
    if m.points == [] || !pointsFit || !transitionsFit {
      return false;
    }
    IdsAreKnown(m.points, pointIds);
    var pointsDiffer := Unique(pointIds);
    var transitionsDiffer := Unique(transitionIds);
    TransitionIds(m, transitionIds);
    var safeDiffer := Unique(m.safeTerminals);
    var known := set x | x in pointIds;
    if !pointsDiffer || !transitionsDiffer || !safeDiffer || m.safeTerminals == []
       || m.initialPoint !in known || exists s :: s in m.safeTerminals && s !in known {
      return false;
    }
    var linked := CheckEndpoints(m, known);
    if !linked {
      return false;
    }
    var index := IndexPoints(m.points);
    IndexKnows(m.points, index);
    ok := CheckSafeTerminals(m, index);
  }

  lemma TransitionIds(m: Lattice, ids: seq<Id>)
    requires |ids| == |m.transitions| && forall i :: 0 <= i < |ids| ==> ids[i] == m.transitions[i].id
    ensures AllDifferent(ids) <==>
              forall i, j :: 0 <= i < j < |m.transitions| ==> m.transitions[i].id != m.transitions[j].id
  {
  }

  /** Parsing and verifying: a document that is not accepted gets no verdict. */
  method VerifyDocument(m: Lattice) returns (r: Option<Verdict>)
    ensures r.Some? <==> Accepted(m)
    ensures r.Some? ==> VerdictOf(m, r.value) && (r.value.pass <==> Causal(m) && forall p :: !Stuck(m, p))
  {
    hide *;
    var ok := Parse(m);
    if !ok {
      return None;
    }
    var v := RunContractLattice(m);
    r := Some(v);
  }

  // --------------------------------------------------------------- what is refused

  predicate Repeats(refs: seq<Id>) {
    exists i, j :: 0 <= i < j < |refs| && refs[i] == refs[j]
  }

  predicate Unknown(m: Lattice, id: Id) {
    forall i :: 0 <= i < |m.points| ==> m.points[i].id != id
  }

  predicate BadPoint(p: Point) {
    || p.version < 0 || p.lockedValue < 0
    || Repeats(p.authorityRefs) || Repeats(p.evidenceRefs) || Repeats(p.timeWitnessRefs)
  }

  predicate BadTransition(m: Lattice, t: Transition) {
    Repeats(t.evidenceRefs) || Repeats(t.timeWitnessRefs) || Unknown(m, t.source) || Unknown(m, t.target)
  }

  /** A document is refused exactly for one of these: nothing declared, an id or a reference repeated, a number below
      zero, a point that is referred to and not declared, or a safe terminal that holds locked value. */
  lemma RefusedIff(m: Lattice)
    ensures !Accepted(m) <==>
            || m.points == [] || m.safeTerminals == [] || Repeats(m.safeTerminals) || Unknown(m, m.initialPoint)
            || (exists i :: 0 <= i < |m.points| && BadPoint(m.points[i]))
            || (exists i :: 0 <= i < |m.transitions| && BadTransition(m, m.transitions[i]))
            || (exists i, j :: 0 <= i < j < |m.points| && m.points[i].id == m.points[j].id)
            || (exists i, j :: 0 <= i < j < |m.transitions| && m.transitions[i].id == m.transitions[j].id)
            || (exists i :: 0 <= i < |m.safeTerminals| && Unknown(m, m.safeTerminals[i]))
            || (exists i, j :: 0 <= i < |m.safeTerminals| && 0 <= j < |m.points|
                  && m.points[j].id == m.safeTerminals[i] && m.points[j].lockedValue != 0)
  {
    forall id ensures Known(m.points, id) <==> !Unknown(m, id) { UnknownIff(m, id); }
    forall p ensures PointFits(p) <==> !BadPoint(p) { }
    forall t
      ensures TransitionFits(t) && Known(m.points, t.source) && Known(m.points, t.target) <==> !BadTransition(m, t)
    {
    }
    hide Known, Unknown, PointFits, BadPoint, TransitionFits, BadTransition;
    EachPoint(m);
    EachTransition(m);
    EachTerminal(m);
  }

  lemma UnknownIff(m: Lattice, id: Id)
    ensures Known(m.points, id) <==> !Unknown(m, id)
  {
    if i :| 0 <= i < |m.points| && m.points[i].id == id { assert m.points[i] in m.points; }
  }

  lemma EachPoint(m: Lattice)
    ensures (forall p :: p in m.points ==> PointFits(p)) <==>
            forall i :: 0 <= i < |m.points| ==> PointFits(m.points[i])
  {
    hide PointFits;
  }

  lemma EachTransition(m: Lattice)
    ensures (forall t :: t in m.transitions ==>
                           TransitionFits(t) && Known(m.points, t.source) && Known(m.points, t.target)) <==>
            forall i :: 0 <= i < |m.transitions| ==>
                          !BadTransition(m, m.transitions[i])
  {
    forall t
      ensures TransitionFits(t) && Known(m.points, t.source) && Known(m.points, t.target) <==> !BadTransition(m, t)
    {
      UnknownIff(m, t.source);
      UnknownIff(m, t.target);
    }
    hide TransitionFits, Known, BadTransition;
  }

  lemma EachTerminal(m: Lattice)
    ensures (forall s :: s in m.safeTerminals ==> Known(m.points, s)) <==>
            forall i :: 0 <= i < |m.safeTerminals| ==> !Unknown(m, m.safeTerminals[i])
    ensures (forall s, p :: s in m.safeTerminals && p in m.points && p.id == s ==> p.lockedValue == 0) <==>
            !exists i, j :: 0 <= i < |m.safeTerminals| && 0 <= j < |m.points|
                            && m.points[j].id == m.safeTerminals[i] && m.points[j].lockedValue != 0
  {
    forall id ensures Known(m.points, id) <==> !Unknown(m, id) { UnknownIff(m, id); }
    hide Known, Unknown;
    if s, p :| s in m.safeTerminals && p in m.points && p.id == s && p.lockedValue != 0 {
      var i :| 0 <= i < |m.safeTerminals| && m.safeTerminals[i] == s;
      var j :| 0 <= j < |m.points| && m.points[j] == p;
      assert m.points[j].id == m.safeTerminals[i] && m.points[j].lockedValue != 0;
    }
    if i, j :| 0 <= i < |m.safeTerminals| && 0 <= j < |m.points|
               && m.points[j].id == m.safeTerminals[i] && m.points[j].lockedValue != 0 {
      assert m.safeTerminals[i] in m.safeTerminals && m.points[j] in m.points;
    }
  }
}
