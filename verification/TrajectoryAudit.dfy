/** The trajectory evaluator: one pass over the events that keeps the history in dictionaries. */
module TrajectoryAudit {
  import opened EventLog
  import opened Ordering
  import opened Trajectory

  // --------------------------------------------- what one event does to the books

  predicate SameIdentity(b: Books, b': Books) {
    b'.authorizedOps == b.authorizedOps && b'.lastExecution == b.lastExecution && b'.activeSegment == b.activeSegment
  }

  predicate SameUse(b: Books, b': Books) {
    b'.seenExecutionIds == b.seenExecutionIds && b'.executionToOperation == b.executionToOperation
  }

  predicate SameOutcome(b: Books, b': Books) {
    && b'.unresolved == b.unresolved && b'.resolvedOutcome == b.resolvedOutcome
    && b'.retryAuthorized == b.retryAuthorized && b'.reconciliationEvidence == b.reconciliationEvidence
  }

  lemma IdentityKept(b: Books, b': Books, es: seq<Event>, n: nat, op: Id)
    requires n < |es| && KnowsIdentity(b, es, n, op) && SameIdentity(b, b')
    requires es[n].op != op || !(es[n].action.Authorize? || Executes(es[n]) ||
                                        (Continues(es[n]) && BoundaryBound(es, n)))
    ensures KnowsIdentity(b', es, n + 1, op)
  {
  }

  lemma UseKept(b: Books, b': Books, es: seq<Event>, n: nat, x: Id)
    requires n < |es| && KnowsUse(b, es, n, x) && SameUse(b, b') && !Executes(es[n])
    ensures KnowsUse(b', es, n + 1, x)
  {
  }

  lemma OutcomeKept(b: Books, b': Books, es: seq<Event>, n: nat, op: Id)
    requires n < |es| && KnowsOutcome(b, es, n, op) && SameOutcome(b, b')
    requires es[n].op != op || !(Executes(es[n]) || Counts(es, n))
    ensures KnowsOutcome(b', es, n + 1, op)
  {
  }

  lemma NothingChanges(b: Books, es: seq<Event>, n: nat)
    requires n < |es| && Agrees(b, es, n)
    requires !es[n].action.Authorize? && !Executes(es[n]) && !Counts(es, n)
    requires Continues(es[n]) ==> !BoundaryBound(es, n)
    ensures Agrees(b, es, n + 1)
  {
    var next := n + 1;
    hide KnowsIdentity, KnowsUse, KnowsOutcome, Counts, BoundaryBound;
    forall op ensures KnowsIdentity(b, es, next, op) { IdentityKept(b, b, es, n, op); }
    forall x ensures KnowsUse(b, es, next, x) { UseKept(b, b, es, n, x); }
    forall op ensures KnowsOutcome(b, es, next, op) { OutcomeKept(b, b, es, n, op); }
  }

  method OnAuthorize(b: Books, es: seq<Event>, n: nat) returns (b': Books, faults: seq<Fault>)
    requires n < |es| && Agrees(b, es, n) && es[n].action.Authorize?
    ensures Agrees(b', es, n + 1)
    ensures faults == When(Segment(es, n, es[n].op).Some? && Segment(es, n, es[n].op).value != es[n].segment,
                           AuthorizationMoved)
  {
    var e, next := es[n], n + 1;
    assert KnowsIdentity(b, es, n, e.op);
    faults := When(e.op in b.activeSegment && b.activeSegment[e.op] != e.segment, AuthorizationMoved);
    b' := b.(authorizedOps := b.authorizedOps + {e.op}, activeSegment := SetDefault(b.activeSegment, e.op, e.segment));
    hide KnowsIdentity, KnowsUse, KnowsOutcome, Segment;
    forall op ensures KnowsIdentity(b', es, next, op) { IdentityAuthorized(b, b', es, n, op); }
    forall x ensures KnowsUse(b', es, next, x) { UseKept(b, b', es, n, x); }
    forall op ensures KnowsOutcome(b', es, next, op) { OutcomeKept(b, b', es, n, op); }
  }

  lemma IdentityAuthorized(b: Books, b': Books, es: seq<Event>, n: nat, op: Id)
    requires n < |es| && KnowsIdentity(b, es, n, op) && es[n].action.Authorize?
    requires b'.authorizedOps == b.authorizedOps + {es[n].op} && b'.lastExecution == b.lastExecution
    requires b'.activeSegment == SetDefault(b.activeSegment, es[n].op, es[n].segment)
    ensures KnowsIdentity(b', es, n + 1, op)
  {
    assert Authorized(es, n + 1, op) <==> Authorized(es, n, op) || op == es[n].op;
  }

  method OnExecution(b: Books, es: seq<Event>, n: nat) returns (b': Books, faults: seq<Fault>)
    requires n < |es| && Agrees(b, es, n) && Executes(es[n])
    ensures Agrees(b', es, n + 1)
    ensures faults == ExecutionFaults(es, n)
  {
    faults := FindExecutionFaults(b, es, n);
    var next, e := n + 1, es[n];
    var op, x := e.op, e.action.execution;
    b' := b.(retryAuthorized := if e.action.Retry? then b.retryAuthorized - {op} else b.retryAuthorized,
             seenExecutionIds := b.seenExecutionIds + {x},
             executionToOperation := b.executionToOperation[x := op],
             lastExecution := b.lastExecution[op := x],
             activeSegment := SetDefault(b.activeSegment, op, e.segment),
             resolvedOutcome := b.resolvedOutcome - {op},
             reconciliationEvidence := b.reconciliationEvidence - {op});
    hide KnowsIdentity, KnowsUse, KnowsOutcome, ExecutionFaults;
    forall o ensures KnowsIdentity(b', es, next, o) { IdentityExecuted(b, b', es, n, o); }
    forall y ensures KnowsUse(b', es, next, y) { UseExecuted(b, b', es, n, y); }
    forall o ensures KnowsOutcome(b', es, next, o) { OutcomeExecuted(b, b', es, n, o); }
  }

  method FindExecutionFaults(b: Books, es: seq<Event>, n: nat) returns (faults: seq<Fault>)
    requires n < |es| && Agrees(b, es, n) && Executes(es[n])
    ensures faults == ExecutionFaults(es, n)
  {
    var e := es[n];
    var op, x := e.op, e.action.execution;
    assert KnowsIdentity(b, es, n, op) && KnowsOutcome(b, es, n, op) && KnowsUse(b, es, n, x);
    hide LastExecution, LastUse, Segment, LastObservation, Unresolved, Standing, Granted, Authorized,
         LastRetry, StandingEvidence;
    var outcome, prior := Get(b.resolvedOutcome, op), Get(b.lastExecution, op);
    faults := When(x in b.seenExecutionIds, ExecutionIdReused);
    faults := faults + When(op !in b.authorizedOps, Unauthorized);
    faults := faults + When(op in b.activeSegment && b.activeSegment[op] != e.segment, ExecutionOutsideSegment);
    faults := faults + When(op in b.unresolved, UnresolvedRedispatch);
    faults := faults + When(outcome == Some(Committed), RedispatchAfterCommit);
    faults := faults + When(e.action.Retry? && (prior == None || e.action.retryOf != prior), RetryUnbound);
    faults := faults + When(e.action.Retry? && op !in b.unresolved && outcome in {Some(Failed), Some(NoEffect)}
                            && op !in b.retryAuthorized, RetryNotGranted);
  }

  lemma IdentityExecuted(b: Books, b': Books, es: seq<Event>, n: nat, op: Id)
    requires n < |es| && KnowsIdentity(b, es, n, op) && Executes(es[n])
    requires b'.authorizedOps == b.authorizedOps
             && b'.lastExecution == b.lastExecution[es[n].op := es[n].action.execution]
    requires b'.activeSegment == SetDefault(b.activeSegment, es[n].op, es[n].segment)
    ensures KnowsIdentity(b', es, n + 1, op)
  {
  }

  lemma UseExecuted(b: Books, b': Books, es: seq<Event>, n: nat, x: Id)
    requires n < |es| && KnowsUse(b, es, n, x) && Executes(es[n])
    requires b'.seenExecutionIds == b.seenExecutionIds + {es[n].action.execution}
    requires b'.executionToOperation == b.executionToOperation[es[n].action.execution := es[n].op]
    ensures KnowsUse(b', es, n + 1, x)
  {
  }

  lemma OutcomeExecuted(b: Books, b': Books, es: seq<Event>, n: nat, op: Id)
    requires n < |es| && KnowsOutcome(b, es, n, op) && Executes(es[n])
    requires b'.retryAuthorized == if es[n].action.Retry? then b.retryAuthorized - {es[n].op} else b.retryAuthorized
    requires b'.unresolved == b.unresolved && b'.resolvedOutcome == b.resolvedOutcome - {es[n].op}
    requires b'.reconciliationEvidence == b.reconciliationEvidence - {es[n].op}
    ensures KnowsOutcome(b', es, n + 1, op)
  {
  }

  /** The lookup by which observations and crashes are bound to an execution. */
  predicate Names(b: Books, op: Id, x: Id, segment: Id) {
    && Get(b.executionToOperation, x) == Some(op)
    && Get(b.lastExecution, op) == Some(x)
    && Get(b.activeSegment, op) == Some(segment)
  }

  lemma NamesMeansBound(b: Books, es: seq<Event>, n: nat, x: Id)
    requires n < |es| && Agrees(b, es, n)
    ensures Names(b, es[n].op, x, es[n].segment) <==> BoundTo(es, n, x)
  {
    assert KnowsIdentity(b, es, n, es[n].op) && KnowsUse(b, es, n, x);
    hide LastExecution, LastUse, Segment, Authorized;
  }

  /** A counted observation that leaves the outcome open. */
  function LeaveOpen(b: Books, op: Id, x: Id): Books {
    b.(unresolved := b.unresolved[op := x],
       resolvedOutcome := b.resolvedOutcome - {op},
       reconciliationEvidence := b.reconciliationEvidence - {op},
       retryAuthorized := b.retryAuthorized - {op})
  }

  /** A counted reconciliation that settles the outcome. */
  function Settle(b: Books, e: Event): Books
    requires Settles(e)
  {
    var a, outcome := e.action, e.action.reading.outcome;
    b.(unresolved := b.unresolved - {e.op},
       resolvedOutcome := b.resolvedOutcome[e.op := outcome],
       reconciliationEvidence :=
         b.reconciliationEvidence[e.op := Evidence(a.execution, e.segment, a.evidenceKind, a.evidenceRef, outcome)],
       retryAuthorized :=
         if outcome in {Failed, NoEffect} && a.retryFlag then b.retryAuthorized + {e.op}
            else b.retryAuthorized - {e.op})
  }

  method OnObservation(b: Books, es: seq<Event>, n: nat) returns (b': Books, bound: bool)
    requires n < |es| && Agrees(b, es, n) && Observes(es[n])
    ensures Agrees(b', es, n + 1)
    ensures bound <==> BoundTo(es, n, es[n].action.execution)
  {
    var e, next := es[n], n + 1;
    NamesMeansBound(b, es, n, e.action.execution);
    bound := Names(b, e.op, e.action.execution, e.segment);
    if !bound {
      NothingChanges(b, es, n);
      return b, bound;
    }
    b' := if Settles(e) then Settle(b, e) else LeaveOpen(b, e.op, e.action.execution);
    hide KnowsIdentity, KnowsUse, KnowsOutcome, BoundTo;
    forall op ensures KnowsIdentity(b', es, next, op) { IdentityKept(b, b', es, n, op); }
    forall x ensures KnowsUse(b', es, next, x) { UseKept(b, b', es, n, x); }
    forall op ensures KnowsOutcome(b', es, next, op) { OutcomeObserved(b, b', es, n, op); }
  }

  lemma OutcomeObserved(b: Books, b': Books, es: seq<Event>, n: nat, op: Id)
    requires n < |es| && KnowsOutcome(b, es, n, op) && Counts(es, n)
    requires b' == if Settles(es[n]) then Settle(b, es[n]) else LeaveOpen(b, es[n].op, es[n].action.execution)
    ensures KnowsOutcome(b', es, n + 1, op)
  {
    if op != es[n].op {
      OutcomeElsewhere(b, b', es, n, op);
    } else {
      assert LastObservation(es, n + 1, op) == n;
      hide Counts;
      assert LastExecution(es, n + 1, op) < n && LastRetry(es, n + 1, op) < n;
    }
  }

  lemma OutcomeElsewhere(b: Books, b': Books, es: seq<Event>, n: nat, op: Id)
    requires n < |es| && KnowsOutcome(b, es, n, op) && es[n].op != op
    requires Get(b'.unresolved, op) == Get(b.unresolved, op)
    requires Get(b'.resolvedOutcome, op) == Get(b.resolvedOutcome, op)
    requires Get(b'.reconciliationEvidence, op) == Get(b.reconciliationEvidence, op)
    requires op in b'.retryAuthorized <==> op in b.retryAuthorized
    ensures KnowsOutcome(b', es, n + 1, op)
  {
  }

  method OnBoundary(policy: Policy, b: Books, es: seq<Event>, n: nat) returns (b': Books, faults: seq<Fault>)
    requires n < |es| && Agrees(b, es, n) && Continues(es[n])
    ensures Agrees(b', es, n + 1)
    ensures faults == When(!BoundaryBound(es, n), BoundaryUnbound)
                    + When(policy.requirePredecessorProof && es[n].action.proof == None, BoundaryWithoutProof)
  {
    var e, next := es[n], n + 1;
    var latest, current := Get(b.lastExecution, e.op), Get(b.activeSegment, e.op);
    var bound :=
      && e.action.predecessor.Some? && e.action.predecessor == latest
      && Get(b.executionToOperation, e.action.predecessor.value) == Some(e.op)
      && e.action.predecessorSegment.Some? && e.action.predecessorSegment == current;
    BoundaryMeansBound(b, es, n);
    faults := When(!bound, BoundaryUnbound);
    faults := faults + When(policy.requirePredecessorProof && e.action.proof == None, BoundaryWithoutProof);
    if !bound {
      NothingChanges(b, es, n);
      return b, faults;
    }
    b' := b.(activeSegment := b.activeSegment[e.op := e.segment]);
    hide KnowsIdentity, KnowsUse, KnowsOutcome, BoundaryBound;
    forall op ensures KnowsIdentity(b', es, next, op) { IdentityMoved(b, b', es, n, op); }
    forall x ensures KnowsUse(b', es, next, x) { UseKept(b, b', es, n, x); }
    forall op ensures KnowsOutcome(b', es, next, op) { OutcomeKept(b, b', es, n, op); }
  }

  lemma BoundaryMeansBound(b: Books, es: seq<Event>, n: nat)
    requires n < |es| && Agrees(b, es, n) && Continues(es[n])
    ensures BoundaryBound(es, n) <==>
              && es[n].action.predecessor.Some? && es[n].action.predecessor == Get(b.lastExecution, es[n].op)
              && Get(b.executionToOperation, es[n].action.predecessor.value) == Some(es[n].op)
              && es[n].action.predecessorSegment.Some?
              && es[n].action.predecessorSegment == Get(b.activeSegment, es[n].op)
  {
    assert KnowsIdentity(b, es, n, es[n].op);
    if es[n].action.predecessor.Some? { assert KnowsUse(b, es, n, es[n].action.predecessor.value); }
    hide LastExecution, LastUse, Segment, Authorized;
  }

  lemma IdentityMoved(b: Books, b': Books, es: seq<Event>, n: nat, op: Id)
    requires n < |es| && KnowsIdentity(b, es, n, op) && Continues(es[n]) && BoundaryBound(es, n)
    requires b'.authorizedOps == b.authorizedOps && b'.lastExecution == b.lastExecution
    requires b'.activeSegment == b.activeSegment[es[n].op := es[n].segment]
    ensures KnowsIdentity(b', es, n + 1, op)
  {
  }

  // ----------------------------------------------------------- terminal claims

  /** A standing outcome was observed after the latest execution, so its evidence names it. */
  lemma StandingNamesLatest(es: seq<Event>, n: nat, op: Id)
    requires n <= |es| && Standing(es, n, op).Some?
    ensures var k := LastObservation(es, n, op);
            && k >= 0 && Settles(es[k]) && Counts(es, k)
            && LastExecution(es, n, op) == LastExecution(es, k, op) >= 0
            && es[k].action.execution == es[LastExecution(es, n, op)].action.execution
  {
    var k := LastObservation(es, n, op);
    NoneSince(es, k, n, op);
  }

  /** A grant is consulted while an outcome stands, and then it was given for the latest execution: one
      left over from an earlier attempt is never consulted. */
  lemma OnlyFreshGrantsCount(b: Books, es: seq<Event>, n: nat, op: Id)
    requires n <= |es| && Agrees(b, es, n) && op in b.resolvedOutcome && op in b.retryAuthorized
    ensures var k, last := LastObservation(es, n, op), LastExecution(es, n, op);
            && 0 <= last < k && Settles(es[k]) && es[k].action.retryFlag
            && es[k].action.execution == es[last].action.execution
            && es[k].action.reading.outcome != Committed
  {
    hide LastObservation, LastExecution, LastRetry;
    assert KnowsOutcome(b, es, n, op);
    StandingNamesLatest(es, n, op);
  }

  lemma {:induction false} NoneSince(es: seq<Event>, k: nat, n: nat, op: Id)
    requires k <= n <= |es| && LastExecution(es, n, op) < k
    ensures LastExecution(es, n, op) == LastExecution(es, k, op)
  {
    if k < n { NoneSince(es, k, n - 1, op); }
  }

  method OnTerminal(policy: Policy, b: Books, es: seq<Event>, n: nat) returns (faults: seq<Fault>)
    requires n < |es| && Agrees(b, es, n) && es[n].action.Terminal?
    ensures Agrees(b, es, n + 1)
    ensures faults == When(Segment(es, n, es[n].op) != Some(es[n].segment), TerminalOutsideSegment)
                    + When(!Proved(policy, es, n), TerminalWithoutProof)
  {
    var e := es[n];
    NothingChanges(b, es, n);
    faults := When(Get(b.activeSegment, e.op) != Some(e.segment), TerminalOutsideSegment);
    var stored := Get(b.reconciliationEvidence, e.op);
    var proofValid := Get(b.resolvedOutcome, e.op) == Some(e.action.outcome);
    if policy.requireTerminalEvidence {
      proofValid :=
        && proofValid
        && e.action.kind.Some? && e.action.ref.Some? && stored.Some?
        && stored.value.outcome == e.action.outcome && stored.value.segment == e.segment
        && Some(stored.value.kind) == e.action.kind && Some(stored.value.ref) == e.action.ref
        && Some(stored.value.execution) == Get(b.lastExecution, e.op);
    }
    assert KnowsIdentity(b, es, n, e.op) && KnowsOutcome(b, es, n, e.op);
    if Standing(es, n, e.op).Some? { StandingNamesLatest(es, n, e.op); }
    faults := faults + When(!proofValid, TerminalWithoutProof);
  }

  // ------------------------------------------------------------------- the pass

  method OnEvent(policy: Policy, trajectory: Id, b: Books, es: seq<Event>, n: nat)
    returns (b': Books, faults: seq<Fault>)
    requires n < |es| && Agrees(b, es, n)
    ensures Agrees(b', es, n + 1)
    ensures faults == FaultsAt(policy, trajectory, es, n)
  {
    var e := es[n];
    b', faults := b, [];
    hide Agrees, ExecutionFaults, BoundTo, BoundaryBound, Proved, Segment;
    var drift := When(e.trajectory != trajectory, TrajectoryDrift);
    match e.action {
      case Authorize => b', faults := OnAuthorize(b, es, n);
      case Dispatch(_) => b', faults := OnExecution(b, es, n);
      case Retry(_, _) => b', faults := OnExecution(b, es, n);
      case Ambiguous(_) =>
        var bound;
        b', bound := OnObservation(b, es, n);
        faults := When(!bound, AmbiguousUnbound);
      case Reconcile(_, _, _, _, _) =>
        var bound;
        b', bound := OnObservation(b, es, n);
        faults := When(!bound, ReconcileUnbound);
      case Crash(x) =>
        NamesMeansBound(b, es, n, x);
        NothingChanges(b, es, n);
        faults := When(!Names(b, e.op, x, e.segment), CrashUnbound);
      case Resume(_, _, _) => b', faults := OnBoundary(policy, b, es, n);
      case Handoff(_, _, _) => b', faults := OnBoundary(policy, b, es, n);
      case Terminal(_, _, _) => faults := OnTerminal(policy, b, es, n);
      case Stop =>
        StopSegment(b, es, n);
        NothingChanges(b, es, n);
        faults := When(e.op in b.activeSegment && b.activeSegment[e.op] != e.segment, StopOutsideSegment);
    }
    faults := drift + faults;
  }

  lemma StopSegment(b: Books, es: seq<Event>, n: nat)
    requires n < |es| && Agrees(b, es, n)
    ensures Get(b.activeSegment, es[n].op) == Segment(es, n, es[n].op)
  {
    assert KnowsIdentity(b, es, n, es[n].op);
  }

  const EMPTY_BOOKS := Books({}, map[], map[], {}, map[], map[], map[], map[], {})

  lemma EmptyBooksAgree(es: seq<Event>)
    ensures Agrees(EMPTY_BOOKS, es, 0)
  {
  }

  /** The evaluator: the violations in the order they are recorded, the final dictionaries, and the
      sorted operations whose outcome is still open. The trace passes when nothing is recorded. */
  method Evaluate(policy: Policy, trajectory: Id, es: seq<Event>)
    returns (violations: seq<Violation<Fault>>, books: Books, unresolvedOps: seq<Id>)
    ensures violations == ViolationsOf(policy, trajectory, es, |es|)
    ensures violations == [] <==> Clean(policy, trajectory, es)
    ensures Agrees(books, es, |es|)
    ensures Ascending(unresolvedOps) && forall op :: op in unresolvedOps <==> Unresolved(es, |es|, op)
  {
    violations, books := [], EMPTY_BOOKS;
    EmptyBooksAgree(es);
    for n := 0 to |es|
      invariant Agrees(books, es, n)
      invariant violations == ViolationsOf(policy, trajectory, es, n)
    {
      hide Agrees, FaultsAt;
      var faults;
      books, faults := OnEvent(policy, trajectory, books, es, n);
      violations := violations + Tagged(faults, n + 1);
    }
    NoViolationsIffClean(policy, trajectory, es, |es|);
    UnresolvedKeys(books, es);
    hide SortedIds, Agrees, Unresolved;
    unresolvedOps := SortedIds(books.unresolved.Keys);
  }

  lemma UnresolvedKeys(b: Books, es: seq<Event>)
    requires Agrees(b, es, |es|)
    ensures forall op :: op in b.unresolved <==> Unresolved(es, |es|, op)
  {
    forall op ensures op in b.unresolved <==> Unresolved(es, |es|, op) {
      assert KnowsOutcome(b, es, |es|, op);
    }
  }
}
