/** Proof-carrying agent trajectories: the history an event trace builds up, the faults an event
    commits against that history, and the evaluator that keeps the history in dictionaries. */
module Trajectory {
  import opened EventLog
  import opened Ordering

  datatype Outcome = Committed | Failed | NoEffect

  /** What a reconciliation reads: a settled outcome, or one that is still open. */
  datatype Reading = Settled(outcome: Outcome) | Pending | Unknown

  datatype Action =
    | Authorize
    | Dispatch(execution: Id)
    | Retry(execution: Id, retryOf: Option<Id>)
    | Ambiguous(execution: Id)
    | Crash(execution: Id)
    | Resume(predecessor: Option<Id>, predecessorSegment: Option<Id>, proof: Option<Id>)
    | Handoff(predecessor: Option<Id>, predecessorSegment: Option<Id>, proof: Option<Id>)
    | Reconcile(execution: Id, evidenceKind: Id, evidenceRef: Id, reading: Reading, retryFlag: bool)
    | Terminal(outcome: Outcome, kind: Option<Id>, ref: Option<Id>)
    | Stop

  datatype Event = Event(op: Id, trajectory: Id, segment: Id, action: Action)

  datatype Policy = Policy(requirePredecessorProof: bool, requireTerminalEvidence: bool)

  /** One constructor for each violation message. */
  datatype Fault =
    | TrajectoryDrift | AuthorizationMoved
    | ExecutionIdReused | Unauthorized | ExecutionOutsideSegment
    | UnresolvedRedispatch | RedispatchAfterCommit | RetryUnbound | RetryNotGranted
    | AmbiguousUnbound | CrashUnbound | BoundaryUnbound | BoundaryWithoutProof
    | ReconcileUnbound | TerminalOutsideSegment | TerminalWithoutProof | StopOutsideSegment

  predicate Executes(e: Event) {
    e.action.Dispatch? || e.action.Retry?
  }

  predicate Continues(e: Event) {
    e.action.Resume? || e.action.Handoff?
  }

  predicate Observes(e: Event) {
    e.action.Ambiguous? || e.action.Reconcile?
  }

  // -------------------------------------------------------------- the history

  /** The last execution of `op` among the first `n` events, or -1. */
  ghost function LastExecution(es: seq<Event>, n: nat, op: Id): (k: int)
    requires n <= |es|
    ensures -1 <= k < n && (k >= 0 ==> es[k].op == op && Executes(es[k]))
  {
    if n == 0 then -1
    else if es[n - 1].op == op && Executes(es[n - 1]) then n - 1
    else LastExecution(es, n - 1, op)
  }

  ghost function LastRetry(es: seq<Event>, n: nat, op: Id): (k: int)
    requires n <= |es|
    ensures -1 <= k < n
  {
    if n == 0 then -1
    else if es[n - 1].op == op && es[n - 1].action.Retry? then n - 1
    else LastRetry(es, n - 1, op)
  }

  /** The last execution, of whatever operation, that used execution id `x`, or -1. */
  ghost function LastUse(es: seq<Event>, n: nat, x: Id): (k: int)
    requires n <= |es|
    ensures -1 <= k < n && (k >= 0 ==> Executes(es[k]) && es[k].action.execution == x)
  {
    if n == 0 then -1
    else if Executes(es[n - 1]) && es[n - 1].action.execution == x then n - 1
    else LastUse(es, n - 1, x)
  }

  ghost predicate Authorized(es: seq<Event>, n: nat, op: Id)
    requires n <= |es|
  {
    exists k :: 0 <= k < n && es[k].op == op && es[k].action.Authorize?
  }

  /** `x` is the latest execution of `op`, and `op` the latest operation to use it. */
  ghost predicate Latest(es: seq<Event>, n: nat, op: Id, x: Id)
    requires n <= |es|
  {
    var last, use := LastExecution(es, n, op), LastUse(es, n, x);
    last >= 0 && es[last].action.execution == x && use >= 0 && es[use].op == op
  }

  /** The active segment of `op`: opened by its first authorization or execution, and moved only
      by a continuity boundary that names the latest execution and the segment it leaves. */
  ghost function Segment(es: seq<Event>, n: nat, op: Id): Option<Id>
    requires n <= |es|
  {
    if n == 0 then None
    else
      var before, e := Segment(es, n - 1, op), es[n - 1];
      if e.op != op then before
      else if (e.action.Authorize? || Executes(e)) && before == None then Some(e.segment)
      else if Continues(e) && e.action.predecessor.Some? && Latest(es, n - 1, op, e.action.predecessor.value)
              && e.action.predecessorSegment.Some? && before == e.action.predecessorSegment then Some(e.segment)
      else before
  }

  /** Event `k` names the latest execution of its operation, in the active segment. */
  ghost predicate BoundTo(es: seq<Event>, k: nat, x: Id)
    requires k < |es|
  {
    Latest(es, k, es[k].op, x) && Segment(es, k, es[k].op) == Some(es[k].segment)
  }

  ghost predicate BoundaryBound(es: seq<Event>, k: nat)
    requires k < |es| && Continues(es[k])
  {
    var a := es[k].action;
    && a.predecessor.Some? && Latest(es, k, es[k].op, a.predecessor.value)
    && a.predecessorSegment.Some? && Segment(es, k, es[k].op) == a.predecessorSegment
  }

  /** Event `k` is an observation that is bound, and so counts. */
  ghost predicate Counts(es: seq<Event>, k: nat)
    requires k < |es|
  {
    Observes(es[k]) && BoundTo(es, k, es[k].action.execution)
  }

  ghost function LastObservation(es: seq<Event>, n: nat, op: Id): (k: int)
    requires n <= |es|
    ensures -1 <= k < n && (k >= 0 ==> es[k].op == op && Counts(es, k))
  {
    if n == 0 then -1
    else if es[n - 1].op == op && Counts(es, n - 1) then n - 1
    else LastObservation(es, n - 1, op)
  }

  predicate Settles(e: Event) {
    e.action.Reconcile? && e.action.reading.Settled?
  }

  /** The last counted observation of `op` left its outcome open. */
  ghost predicate Unresolved(es: seq<Event>, n: nat, op: Id)
    requires n <= |es|
  {
    var k := LastObservation(es, n, op);
    k >= 0 && !Settles(es[k])
  }

  /** The settled outcome that stands: the last execution or counted observation settled it. */
  ghost function Standing(es: seq<Event>, n: nat, op: Id): Option<Outcome>
    requires n <= |es|
  {
    var k := LastObservation(es, n, op);
    if k >= 0 && k > LastExecution(es, n, op) && Settles(es[k]) then Some(es[k].action.reading.outcome) else None
  }

  /** The last counted observation of `op` granted a retry, and no retry has used it. */
  ghost predicate Granted(es: seq<Event>, n: nat, op: Id)
    requires n <= |es|
  {
    var k := LastObservation(es, n, op);
    && k >= 0 && k > LastRetry(es, n, op) && Settles(es[k])
    && es[k].action.reading.outcome != Committed && es[k].action.retryFlag
  }

  // ---------------------------------------------------------------- the faults

  ghost function ExecutionFaults(es: seq<Event>, n: nat): seq<Fault>
    requires n < |es| && Executes(es[n])
  {
    var e, op := es[n], es[n].op;
    var segment, last := Segment(es, n, op), LastExecution(es, n, op);
    When(LastUse(es, n, e.action.execution) >= 0, ExecutionIdReused)
    + When(!Authorized(es, n, op), Unauthorized)
    + When(segment.Some? && segment.value != e.segment, ExecutionOutsideSegment)
    + When(Unresolved(es, n, op), UnresolvedRedispatch)
    + When(Standing(es, n, op) == Some(Committed), RedispatchAfterCommit)
    + When(e.action.Retry? && (last < 0 || e.action.retryOf != Some(es[last].action.execution)), RetryUnbound)
    + When(e.action.Retry? && !Unresolved(es, n, op) && Standing(es, n, op) in {Some(Failed), Some(NoEffect)}
           && !Granted(es, n, op), RetryNotGranted)
  }

  /** A terminal claim is proved by the reconciliation that stands. */
  ghost predicate Proved(policy: Policy, es: seq<Event>, n: nat)
    requires n < |es| && es[n].action.Terminal?
  {
    var e, k := es[n], LastObservation(es, n, es[n].op);
    && Standing(es, n, e.op) == Some(e.action.outcome)
    && (policy.requireTerminalEvidence ==>
          && e.action.kind == Some(es[k].action.evidenceKind) && e.action.ref == Some(es[k].action.evidenceRef)
          && es[k].segment == e.segment)
  }

  /** The faults event `n` commits, in the order they are recorded. */
  ghost function FaultsAt(policy: Policy, trajectory: Id, es: seq<Event>, n: nat): seq<Fault>
    requires n < |es|
  {
    var e := es[n];
    var segment := Segment(es, n, e.op);
    When(e.trajectory != trajectory, TrajectoryDrift) +
    match e.action
    case Authorize => When(segment.Some? && segment.value != e.segment, AuthorizationMoved)
    case Dispatch(_) => ExecutionFaults(es, n)
    case Retry(_, _) => ExecutionFaults(es, n)
    case Ambiguous(x) => When(!BoundTo(es, n, x), AmbiguousUnbound)
    case Crash(x) => When(!BoundTo(es, n, x), CrashUnbound)
    case Resume(_, _, proof) =>
      When(!BoundaryBound(es, n), BoundaryUnbound)
      + When(policy.requirePredecessorProof && proof == None, BoundaryWithoutProof)
    case Handoff(_, _, proof) =>
      When(!BoundaryBound(es, n), BoundaryUnbound)
      + When(policy.requirePredecessorProof && proof == None, BoundaryWithoutProof)
    case Reconcile(x, _, _, _, _) => When(!BoundTo(es, n, x), ReconcileUnbound)
    case Terminal(_, _, _) =>
      When(segment != Some(e.segment), TerminalOutsideSegment)
      + When(!Proved(policy, es, n), TerminalWithoutProof)
    case Stop => When(segment.Some? && segment.value != e.segment, StopOutsideSegment)
  }

  /** All violations of the first `n` events; events are numbered from 1. */
  ghost function ViolationsOf(policy: Policy, trajectory: Id, es: seq<Event>, n: nat): seq<Violation<Fault>>
    requires n <= |es|
  {
    if n == 0 then []
    else ViolationsOf(policy, trajectory, es, n - 1) + Tagged(FaultsAt(policy, trajectory, es, n - 1), n)
  }

  /** No event commits a fault. */
  ghost predicate Clean(policy: Policy, trajectory: Id, es: seq<Event>) {
    forall n :: 0 <= n < |es| ==> FaultsAt(policy, trajectory, es, n) == []
  }

  lemma {:induction false} NoViolationsIffClean(policy: Policy, trajectory: Id, es: seq<Event>, n: nat)
    requires n <= |es|
    ensures ViolationsOf(policy, trajectory, es, n) == []
       <==> forall k :: 0 <= k < n ==> FaultsAt(policy, trajectory, es, k) == []
  {
    hide FaultsAt;
    if n > 0 {
      NoViolationsIffClean(policy, trajectory, es, n - 1);
    }
  }

  // ------------------------------------------------------------- the dictionaries

  datatype Evidence = Evidence(execution: Id, segment: Id, kind: Id, ref: Id, outcome: Outcome)

  datatype Books = Books(
    authorizedOps: set<Id>, unresolved: map<Id, Id>, resolvedOutcome: map<Id, Outcome>, retryAuthorized: set<Id>,
    executionToOperation: map<Id, Id>, lastExecution: map<Id, Id>, activeSegment: map<Id, Id>,
    reconciliationEvidence: map<Id, Evidence>, seenExecutionIds: set<Id>)

  function SetDefault<K, V>(m: map<K, V>, k: K, v: V): map<K, V> {
    if k in m then m else m[k := v]
  }

  /** What identity the books hold for `op`: authorization, latest execution, active segment. */
  ghost predicate KnowsIdentity(b: Books, es: seq<Event>, n: nat, op: Id)
    requires n <= |es|
  {
    var last := LastExecution(es, n, op);
    && (op in b.authorizedOps <==> Authorized(es, n, op))
    && Get(b.lastExecution, op) == (if last >= 0 then Some(es[last].action.execution) else None)
    && Get(b.activeSegment, op) == Segment(es, n, op)
  }

  ghost predicate KnowsUse(b: Books, es: seq<Event>, n: nat, x: Id)
    requires n <= |es|
  {
    var use := LastUse(es, n, x);
    && (x in b.seenExecutionIds <==> use >= 0)
    && Get(b.executionToOperation, x) == (if use >= 0 then Some(es[use].op) else None)
  }

  ghost function StandingEvidence(es: seq<Event>, n: nat, op: Id): Option<Evidence>
    requires n <= |es|
  {
    if Standing(es, n, op) == None then None
    else
      var e := es[LastObservation(es, n, op)];
      Some(Evidence(e.action.execution, e.segment, e.action.evidenceKind, e.action.evidenceRef,
                    e.action.reading.outcome))
  }

  /** What outcome the books hold for `op`. */
  ghost predicate KnowsOutcome(b: Books, es: seq<Event>, n: nat, op: Id)
    requires n <= |es|
  {
    && Get(b.unresolved, op)
         == (if Unresolved(es, n, op) then Some(es[LastObservation(es, n, op)].action.execution) else None)
    && Get(b.resolvedOutcome, op) == Standing(es, n, op)
    && Get(b.reconciliationEvidence, op) == StandingEvidence(es, n, op)
    && (op in b.retryAuthorized <==> Granted(es, n, op))
  }

  /** The dictionaries say exactly what the history says. */
  ghost predicate Agrees(b: Books, es: seq<Event>, n: nat)
    requires n <= |es|
  {
    && (forall op :: KnowsIdentity(b, es, n, op))
    && (forall x :: KnowsUse(b, es, n, x))
    && (forall op :: KnowsOutcome(b, es, n, op))
  }
}
