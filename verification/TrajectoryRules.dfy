/** The rules a violation-free trajectory obeys, said of its events alone, and the theorem that these are all:
    a trace is clean exactly when every event is allowed by the events before it. */
module TrajectoryRules {
  import opened Ordering
  import opened Trajectory
  import opened TrajectorySafety
  import opened TrajectoryFaults
  import opened TrajectoryPromises

  // -------------------------------------------------------------------- the rules

  /** Nothing has happened to `op` before `n`; stopping an operation does not touch it. */
  ghost predicate Untouched(es: seq<Event>, n: nat, op: Id) {
    forall k :: 0 <= k < n <= |es| && es[k].op == op ==> es[k].action.Stop?
  }

  /** The last event of `op` before `n`, stops aside, is in segment `s`. */
  ghost predicate Located(es: seq<Event>, n: nat, op: Id, s: Id) {
    exists k: nat :: k < n <= |es| && es[k].op == op && !es[k].action.Stop? && es[k].segment == s
                     && forall l :: k < l < n && es[l].op == op ==> es[l].action.Stop?
  }

  /** The latest attempt of `op` is the execution `x`. */
  ghost predicate LatestNamed(es: seq<Event>, n: nat, op: Id, x: Id) {
    exists i: nat :: AttemptAt(es, n, op, i) && es[i].action.execution == x
  }

  /** `b` is the last observation of `op` before `n`. */
  ghost predicate LastSeen(es: seq<Event>, n: nat, op: Id, b: nat) {
    b < n <= |es| && es[b].op == op && Observes(es[b]) && NoObservationIn(es, b + 1, n, op)
  }

  /** `r` settled the outcome of `op`, and nothing of it was observed or executed since. */
  ghost predicate SettledAt(es: seq<Event>, n: nat, op: Id, r: nat) {
    LastSeen(es, n, op, r) && Settles(es[r]) && NoExecutionIn(es, r + 1, n, op)
  }

  /** An execution is authorized, in the segment of its operation, under a fresh name, not while the last
      observation is open, and not on top of a commitment; a retry names the latest attempt, and where an
      outcome without effect was settled, that reconciliation granted it. */
  ghost predicate MayExecute(es: seq<Event>, n: nat)
    requires n < |es| && Executes(es[n])
  {
    var e, op := es[n], es[n].op;
    && (exists k :: 0 <= k < n && es[k].op == op && es[k].action.Authorize?)
    && Located(es, n, op, e.segment)
    && (forall i :: 0 <= i < n && Executes(es[i]) ==> es[i].action.execution != e.action.execution)
    && (forall u: nat :: LastSeen(es, n, op, u) ==> Settles(es[u]))
    && (forall r: nat :: SettledAt(es, n, op, r) ==> es[r].action.reading.outcome != Committed)
    && (e.action.Retry? ==>
          && e.action.retryOf.Some? && LatestNamed(es, n, op, e.action.retryOf.value)
          && forall r: nat :: SettledAt(es, n, op, r) ==> es[r].action.retryFlag)
  }

  /** Event `n` is allowed by the events before it. */
  ghost predicate Allowed(policy: Policy, trajectory: Id, es: seq<Event>, n: nat)
    requires n < |es|
  {
    var e, op := es[n], es[n].op;
    && e.trajectory == trajectory
    && (e.action.Authorize? || e.action.Stop? ==> Untouched(es, n, op) || Located(es, n, op, e.segment))
    && (Executes(e) ==> MayExecute(es, n))
    && (Observes(e) || e.action.Crash? ==> LatestNamed(es, n, op, e.action.execution) && Located(es, n, op, e.segment))
    && (Continues(e) ==>
          && e.action.predecessor.Some? && LatestNamed(es, n, op, e.action.predecessor.value)
          && e.action.predecessorSegment.Some? && Located(es, n, op, e.action.predecessorSegment.value)
          && (policy.requirePredecessorProof ==> e.action.proof.Some?))
    && (e.action.Terminal? ==>
          && Located(es, n, op, e.segment)
          && exists r: nat :: SettledAt(es, n, op, r) && Backs(policy, es[r], e))
  }

  // ---------------------------------------------------- histories of a clean beginning

  ghost predicate CleanBefore(policy: Policy, trajectory: Id, es: seq<Event>, n: nat) {
    n <= |es| && forall k :: 0 <= k < n ==> FaultsAt(policy, trajectory, es, k) == []
  }

  lemma NothingEarned(policy: Policy, trajectory: Id, es: seq<Event>, n: nat, k: nat, x: Fault)
    requires CleanBefore(policy, trajectory, es, n) && k < n
    ensures !Earns(policy, trajectory, es, k, x)
  {
    EarnsIff(policy, trajectory, es, k, x);
  }

  lemma ObservedCounts(policy: Policy, trajectory: Id, es: seq<Event>, n: nat, k: nat)
    requires CleanBefore(policy, trajectory, es, n) && k < n && Observes(es[k])
    ensures Counts(es, k)
  {
    NothingEarned(policy, trajectory, es, n, k, AmbiguousUnbound);
    NothingEarned(policy, trajectory, es, n, k, ReconcileUnbound);
    BoundIff(es, k, es[k].action.execution);
    hide Bound, BoundTo;
  }

  lemma {:induction false} SegmentIff(policy: Policy, trajectory: Id, es: seq<Event>, n: nat, op: Id)
    requires CleanBefore(policy, trajectory, es, n)
    ensures Segment(es, n, op) == None <==> Untouched(es, n, op)
    ensures forall s :: Segment(es, n, op) == Some(s) <==> Located(es, n, op, s)
  {
    if n == 0 {
    } else if es[n - 1].op == op && !es[n - 1].action.Stop? {
      hide *;
      StaysPut(policy, trajectory, es, n);
      JustTouched(es, n, op);
    } else {
      SegmentIff(policy, trajectory, es, n - 1, op);
      NotTouched(es, n, op);
      hide Located, Untouched, CleanBefore;
      assert Segment(es, n, op) == Segment(es, n - 1, op);
    }
  }

  lemma JustTouched(es: seq<Event>, n: nat, op: Id)
    requires 0 < n <= |es| && es[n - 1].op == op && !es[n - 1].action.Stop?
    ensures !Untouched(es, n, op)
    ensures forall s :: Located(es, n, op, s) <==> s == es[n - 1].segment
  {
    assert Located(es, n, op, es[n - 1].segment);
  }

  /** After an event that is not a stop, the operation is in the segment of that event. */
  lemma StaysPut(policy: Policy, trajectory: Id, es: seq<Event>, n: nat)
    requires CleanBefore(policy, trajectory, es, n) && n > 0 && !es[n - 1].action.Stop?
    ensures Segment(es, n, es[n - 1].op) == Some(es[n - 1].segment)
  {
    var k := n - 1;
    var e := es[k];
    forall x ensures !Earns(policy, trajectory, es, k, x) { NothingEarned(policy, trajectory, es, n, k, x); }
    if Continues(e) {
      assert !Earns(policy, trajectory, es, k, BoundaryUnbound);
      ContinuousIff(es, k);
    } else {
      assert !Earns(policy, trajectory, es, k, AuthorizationMoved);
      assert !Earns(policy, trajectory, es, k, ExecutionOutsideSegment);
      assert !Earns(policy, trajectory, es, k, AmbiguousUnbound);
      assert !Earns(policy, trajectory, es, k, CrashUnbound);
      assert !Earns(policy, trajectory, es, k, ReconcileUnbound);
      assert !Earns(policy, trajectory, es, k, TerminalOutsideSegment);
    }
  }

  lemma NotTouched(es: seq<Event>, n: nat, op: Id)
    requires 0 < n <= |es| && (es[n - 1].op != op || es[n - 1].action.Stop?)
    ensures Untouched(es, n, op) <==> Untouched(es, n - 1, op)
    ensures forall s :: Located(es, n, op, s) <==> Located(es, n - 1, op, s)
  {
    forall s ensures Located(es, n, op, s) <==> Located(es, n - 1, op, s) {
      if Located(es, n - 1, op, s) {
        var k: nat :| k < n - 1 && es[k].op == op && !es[k].action.Stop? && es[k].segment == s
                      && forall l :: k < l < n - 1 && es[l].op == op ==> es[l].action.Stop?;
        assert forall l :: k < l < n && es[l].op == op ==> es[l].action.Stop?;
      }
    }
  }

  lemma LatestIff(policy: Policy, trajectory: Id, es: seq<Event>, n: nat, op: Id, x: Id)
    requires CleanBefore(policy, trajectory, es, n)
    ensures LatestNamed(es, n, op, x) <==> IsLatest(es, n, op, x)
  {
    if i: nat :| AttemptAt(es, n, op, i) && es[i].action.execution == x {
      forall j: nat | i < j < n ensures !Uses(es, j, x) {
        if Uses(es, j, x) {
          NothingEarned(policy, trajectory, es, n, j, ExecutionIdReused);
          assert Uses(es, i, x);
        }
      }
      assert Uses(es, i, x);
    }
  }

  lemma WordIsLastSeen(policy: Policy, trajectory: Id, es: seq<Event>, n: nat, op: Id, b: nat)
    requires CleanBefore(policy, trajectory, es, n)
    ensures WordAt(es, n, op, b) <==> LastSeen(es, n, op, b)
    ensures StandsAt(es, n, op, b) <==> SettledAt(es, n, op, b)
  {
    hide BoundTo, CleanBefore;
    forall k | 0 <= k < n <= |es| && Observes(es[k]) ensures Counts(es, k) {
      ObservedCounts(policy, trajectory, es, n, k);
    }
  }

  // ---------------------------------------------------------------- the rules are all

  lemma NoneEarned(policy: Policy, trajectory: Id, es: seq<Event>, n: nat)
    requires n < |es|
    ensures FaultsAt(policy, trajectory, es, n) == [] <==> forall x :: !Earns(policy, trajectory, es, n, x)
  {
    hide FaultsAt, Earns;
    forall x ensures x in FaultsAt(policy, trajectory, es, n) <==> Earns(policy, trajectory, es, n, x) {
      EarnsIff(policy, trajectory, es, n, x);
    }
    var faults := FaultsAt(policy, trajectory, es, n);
    if faults != [] { assert faults[0] in faults; }
  }

  lemma MovedIff(policy: Policy, trajectory: Id, es: seq<Event>, n: nat)
    requires CleanBefore(policy, trajectory, es, n) && n < |es|
    ensures !Moved(es, n) <==> Untouched(es, n, es[n].op) || Located(es, n, es[n].op, es[n].segment)
  {
    hide Segment, CleanBefore, Located, Untouched;
    SegmentIff(policy, trajectory, es, n, es[n].op);
  }

  lemma BoundHere(policy: Policy, trajectory: Id, es: seq<Event>, n: nat, x: Id)
    requires CleanBefore(policy, trajectory, es, n) && n < |es|
    ensures Bound(es, n, x) <==> LatestNamed(es, n, es[n].op, x) && Located(es, n, es[n].op, es[n].segment)
  {
    hide Segment, CleanBefore, Located, Untouched, LatestNamed, IsLatest;
    SegmentIff(policy, trajectory, es, n, es[n].op);
    LatestIff(policy, trajectory, es, n, es[n].op, x);
  }

  lemma ContinuousHere(policy: Policy, trajectory: Id, es: seq<Event>, n: nat)
    requires CleanBefore(policy, trajectory, es, n) && n < |es| && Continues(es[n])
    ensures Continuous(es, n) <==>
            && es[n].action.predecessor.Some? && LatestNamed(es, n, es[n].op, es[n].action.predecessor.value)
            && es[n].action.predecessorSegment.Some?
            && Located(es, n, es[n].op, es[n].action.predecessorSegment.value)
  {
    hide Segment, CleanBefore, Located, Untouched, LatestNamed, IsLatest;
    SegmentIff(policy, trajectory, es, n, es[n].op);
    if es[n].action.predecessor.Some? {
      LatestIff(policy, trajectory, es, n, es[n].op, es[n].action.predecessor.value);
    }
  }

  lemma ExecutionAllowed(policy: Policy, trajectory: Id, es: seq<Event>, n: nat)
    requires CleanBefore(policy, trajectory, es, n) && n < |es| && Executes(es[n])
    ensures (forall x :: !ExecutionEarns(es, n, x)) <==> MayExecute(es, n)
  {
    var op := es[n].op;
    MovedIff(policy, trajectory, es, n);
    forall b: nat
      ensures WordAt(es, n, op, b) <==> LastSeen(es, n, op, b)
      ensures StandsAt(es, n, op, b) <==> SettledAt(es, n, op, b)
    {
      WordIsLastSeen(policy, trajectory, es, n, op, b);
    }
    if exists k :: 0 <= k < n && es[k].op == op && es[k].action.Authorize? { AuthorizedTouches(es, n, op); }
    hide CleanBefore, Moved, Untouched, Located, WordAt, LastSeen, StandsAt, SettledAt, AttemptAt;
    if forall x :: !ExecutionEarns(es, n, x) { NoneMeansMay(es, n); }
  }

  lemma NoneMeansMay(es: seq<Event>, n: nat)
    requires n < |es| && Executes(es[n]) && forall x :: !ExecutionEarns(es, n, x)
    requires forall b: nat :: WordAt(es, n, es[n].op, b) <==> LastSeen(es, n, es[n].op, b)
    requires forall b: nat :: StandsAt(es, n, es[n].op, b) <==> SettledAt(es, n, es[n].op, b)
    requires !Moved(es, n) <==> Untouched(es, n, es[n].op) || Located(es, n, es[n].op, es[n].segment)
    requires (exists k :: 0 <= k < n && es[k].op == es[n].op && es[k].action.Authorize?) ==> !Untouched(es, n, es[n].op)
    ensures MayExecute(es, n)
  {
    hide Moved, Untouched, Located, WordAt, LastSeen, StandsAt, SettledAt, AttemptAt;
    assert !ExecutionEarns(es, n, ExecutionIdReused);
    assert !ExecutionEarns(es, n, Unauthorized);
    assert !ExecutionEarns(es, n, ExecutionOutsideSegment);
    assert !ExecutionEarns(es, n, UnresolvedRedispatch);
    assert !ExecutionEarns(es, n, RedispatchAfterCommit);
    assert !ExecutionEarns(es, n, RetryUnbound);
    assert !ExecutionEarns(es, n, RetryNotGranted);
    forall i | 0 <= i < n && Executes(es[i]) ensures es[i].action.execution != es[n].action.execution {
      assert !Uses(es, i, es[n].action.execution);
    }
  }

  lemma AuthorizedTouches(es: seq<Event>, n: nat, op: Id)
    requires n <= |es| && exists k :: 0 <= k < n && es[k].op == op && es[k].action.Authorize?
    ensures !Untouched(es, n, op)
  {
  }

  /** After a clean beginning, an event is without fault exactly when the rules allow it. */
  lemma AllowedIff(policy: Policy, trajectory: Id, es: seq<Event>, n: nat)
    requires CleanBefore(policy, trajectory, es, n) && n < |es|
    ensures FaultsAt(policy, trajectory, es, n) == [] <==> Allowed(policy, trajectory, es, n)
  {
    hide FaultsAt, MayExecute, ExecutionEarns, Moved, Bound, Continuous, Located, Untouched, LatestNamed, StandsAt,
         SettledAt, Segment;
    var e, op := es[n], es[n].op;
    NoneEarned(policy, trajectory, es, n);
    MovedIff(policy, trajectory, es, n);
    if Executes(e) { ExecutionAllowed(policy, trajectory, es, n); }
    if Observes(e) || e.action.Crash? { BoundHere(policy, trajectory, es, n, e.action.execution); }
    if Continues(e) { ContinuousHere(policy, trajectory, es, n); }
    if e.action.Terminal? { TerminalAllowed(policy, trajectory, es, n); }
    hide CleanBefore;
    if forall x :: !Earns(policy, trajectory, es, n, x) {
      EarnsNothing(policy, trajectory, es, n);
    }
  }

  lemma EarnsNothing(policy: Policy, trajectory: Id, es: seq<Event>, n: nat)
    requires n < |es| && forall x :: !Earns(policy, trajectory, es, n, x)
    ensures es[n].trajectory == trajectory
    ensures es[n].action.Authorize? || es[n].action.Stop? ==> !Moved(es, n)
    ensures Executes(es[n]) ==> forall x :: !ExecutionEarns(es, n, x)
    ensures Observes(es[n]) || es[n].action.Crash? ==> Bound(es, n, es[n].action.execution)
    ensures Continues(es[n]) ==> Continuous(es, n) && (policy.requirePredecessorProof ==> es[n].action.proof.Some?)
    ensures es[n].action.Terminal? ==>
              && Segment(es, n, es[n].op) == Some(es[n].segment)
              && exists r: nat :: StandsAt(es, n, es[n].op, r) && Backs(policy, es[r], es[n])
  {
    hide ExecutionEarns, Moved, Bound, Continuous, StandsAt, Segment;
    assert !Earns(policy, trajectory, es, n, TrajectoryDrift);
    assert !Earns(policy, trajectory, es, n, AuthorizationMoved);
    assert !Earns(policy, trajectory, es, n, StopOutsideSegment);
    assert !Earns(policy, trajectory, es, n, AmbiguousUnbound);
    assert !Earns(policy, trajectory, es, n, ReconcileUnbound);
    assert !Earns(policy, trajectory, es, n, CrashUnbound);
    assert !Earns(policy, trajectory, es, n, BoundaryUnbound);
    assert !Earns(policy, trajectory, es, n, BoundaryWithoutProof);
    assert !Earns(policy, trajectory, es, n, TerminalOutsideSegment);
    assert !Earns(policy, trajectory, es, n, TerminalWithoutProof);
    if Executes(es[n]) {
      forall x ensures !ExecutionEarns(es, n, x) {
        assert !Earns(policy, trajectory, es, n, x);
        if ExecutionEarns(es, n, x) { OnlyExecutionEarns(es, n, x); }
      }
    }
  }

  lemma TerminalAllowed(policy: Policy, trajectory: Id, es: seq<Event>, n: nat)
    requires CleanBefore(policy, trajectory, es, n) && n < |es| && es[n].action.Terminal?
    ensures var e, op := es[n], es[n].op;
            && (Segment(es, n, op) == Some(e.segment) <==> Located(es, n, op, e.segment))
            && ((exists r: nat :: StandsAt(es, n, op, r) && Backs(policy, es[r], e)) <==>
                exists r: nat :: SettledAt(es, n, op, r) && Backs(policy, es[r], e))
  {
    hide CleanBefore, Located, StandsAt, SettledAt, Segment;
    SegmentIff(policy, trajectory, es, n, es[n].op);
    forall r: nat ensures StandsAt(es, n, es[n].op, r) <==> SettledAt(es, n, es[n].op, r) {
      WordIsLastSeen(policy, trajectory, es, n, es[n].op, r);
    }
  }

  /** A trace is clean exactly when every event is allowed by the events before it. */
  lemma CleanIffAllowed(policy: Policy, trajectory: Id, es: seq<Event>)
    ensures Clean(policy, trajectory, es) <==> forall n :: 0 <= n < |es| ==> Allowed(policy, trajectory, es, n)
  {
    hide Allowed, FaultsAt;
    if Clean(policy, trajectory, es) {
      forall n | 0 <= n < |es| ensures Allowed(policy, trajectory, es, n) { AllowedIff(policy, trajectory, es, n); }
    }
    if forall n :: 0 <= n < |es| ==> Allowed(policy, trajectory, es, n) {
      AllAllowed(policy, trajectory, es, |es|);
    }
  }

  lemma {:induction false} AllAllowed(policy: Policy, trajectory: Id, es: seq<Event>, n: nat)
    requires n <= |es| && forall k :: 0 <= k < n ==> Allowed(policy, trajectory, es, k)
    ensures CleanBefore(policy, trajectory, es, n)
  {
    hide Allowed, FaultsAt;
    if n > 0 {
      AllAllowed(policy, trajectory, es, n - 1);
      AllowedIff(policy, trajectory, es, n - 1);
    }
  }

  /** After a clean trace a terminal claim, in the trajectory and in the segment of its operation, is accepted
      exactly when a reconciliation has settled that outcome, nothing of the operation has been observed or
      executed since, and where the policy asks the claim repeats its evidence in its segment. */
  lemma TerminalAcceptedIff(policy: Policy, trajectory: Id, es: seq<Event>, claim: Event)
    requires Clean(policy, trajectory, es) && claim.action.Terminal? && claim.trajectory == trajectory
    requires Located(es, |es|, claim.op, claim.segment)
    ensures Clean(policy, trajectory, es + [claim]) <==>
            exists r: nat :: SettledAt(es, |es|, claim.op, r) && Backs(policy, es[r], claim)
  {
    var all, n := es + [claim], |es|;
    CleanOneMore(policy, trajectory, es, claim);
    SameBefore(policy, trajectory, es, claim);
    AllowedIff(policy, trajectory, all, n);
    assert Located(all, n, claim.op, claim.segment) by {
      var k: nat :| k < n && es[k].op == claim.op && !es[k].action.Stop? && es[k].segment == claim.segment
                    && forall l :: k < l < n && es[l].op == claim.op ==> es[l].action.Stop?;
      assert all[k] == es[k];
    }
    forall r: nat ensures SettledAt(all, n, claim.op, r) <==> SettledAt(es, n, claim.op, r) {
      SettledSame(es, all, claim.op, r);
    }
    hide FaultsAt, Clean, CleanBefore, Located, SettledAt;
  }

  lemma SameBefore(policy: Policy, trajectory: Id, es: seq<Event>, e: Event)
    requires Clean(policy, trajectory, es)
    ensures CleanBefore(policy, trajectory, es + [e], |es|)
  {
    hide FaultsAt;
    forall k | 0 <= k < |es| ensures FaultsAt(policy, trajectory, es + [e], k) == [] {
      SameFaults(policy, trajectory, es, es + [e], k);
    }
  }

  lemma SettledSame(es: seq<Event>, all: seq<Event>, op: Id, r: nat)
    requires es <= all
    ensures SettledAt(all, |es|, op, r) <==> SettledAt(es, |es|, op, r)
  {
  }
}
