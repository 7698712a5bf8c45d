/** What earns each fault of a trajectory, on every trace, said of the events themselves: which attempt is the
    latest, which observation the last that counts, which reconciliation stands. */
module TrajectoryFaults {
  import opened EventLog
  import opened Ordering
  import opened Trajectory
  import opened TrajectorySafety

  // --------------------------------------------------------- the latest and the last

  /** The attempt at `i` is the latest of `op` before `n`. */
  ghost predicate AttemptAt(es: seq<Event>, n: nat, op: Id, i: nat) {
    i < n <= |es| && es[i].op == op && Executes(es[i]) && NoExecutionIn(es, i + 1, n, op)
  }

  ghost predicate Uses(es: seq<Event>, i: nat, x: Id) {
    i < |es| && Executes(es[i]) && es[i].action.execution == x
  }

  /** `x` is the execution of the latest attempt of `op`, and no other operation has used that name since. */
  ghost predicate IsLatest(es: seq<Event>, n: nat, op: Id, x: Id) {
    && (exists i: nat :: AttemptAt(es, n, op, i) && es[i].action.execution == x)
    && (exists u: nat :: u < n && Uses(es, u, x) && es[u].op == op && forall j: nat :: u < j < n ==> !Uses(es, j, x))
  }

  /** The observation at `b` is the last of `op` before `n` that counts. */
  ghost predicate WordAt(es: seq<Event>, n: nat, op: Id, b: nat) {
    && b < n <= |es| && es[b].op == op && Counts(es, b)
    && forall j :: b < j < n && es[j].op == op ==> !Counts(es, j)
  }

  /** The reconciliation at `r` settled the outcome of `op`, and nothing of it was observed or executed since. */
  ghost predicate StandsAt(es: seq<Event>, n: nat, op: Id, r: nat) {
    WordAt(es, n, op, r) && Settles(es[r]) && NoExecutionIn(es, r + 1, n, op)
  }

  lemma {:induction false} NoUseAfter(es: seq<Event>, n: nat, x: Id)
    requires n <= |es|
    ensures forall j: nat :: LastUse(es, n, x) < j < n ==> !Uses(es, j, x)
  {
    if n > 0 { NoUseAfter(es, n - 1, x); }
  }

  lemma {:induction false} LastUseIs(es: seq<Event>, u: nat, n: nat, x: Id)
    requires u < n <= |es| && Uses(es, u, x) && forall j: nat :: u < j < n ==> !Uses(es, j, x)
    ensures LastUse(es, n, x) == u
  {
    if u + 1 < n {
      assert !Uses(es, n - 1, x);
      LastUseIs(es, u, n - 1, x);
    }
  }

  lemma UsedIff(es: seq<Event>, n: nat, x: Id)
    requires n <= |es|
    ensures LastUse(es, n, x) >= 0 <==> exists i: nat :: i < n && Uses(es, i, x)
  {
    hide LastUse;
    NoUseAfter(es, n, x);
    if LastUse(es, n, x) >= 0 { assert Uses(es, LastUse(es, n, x), x); }
  }

  lemma AttemptIff(es: seq<Event>, n: nat, op: Id, i: nat)
    requires n <= |es|
    ensures AttemptAt(es, n, op, i) <==> LastExecution(es, n, op) == i
  {
    NothingAfterLast(es, n, op);
    if AttemptAt(es, n, op, i) { LastExecutionIs(es, i, n, op); }
    hide LastExecution, LastObservation;
  }

  lemma IsLatestIff(es: seq<Event>, n: nat, op: Id, x: Id)
    requires n <= |es|
    ensures IsLatest(es, n, op, x) <==> Latest(es, n, op, x)
  {
    hide LastExecution, LastUse, AttemptAt;
    var last, use := LastExecution(es, n, op), LastUse(es, n, x);
    forall i: nat ensures AttemptAt(es, n, op, i) <==> last == i { AttemptIff(es, n, op, i); }
    NoUseAfter(es, n, x);
    if Latest(es, n, op, x) {
      assert AttemptAt(es, n, op, last);
      assert Uses(es, use, x);
    }
    if IsLatest(es, n, op, x) {
      var u: nat :| u < n && Uses(es, u, x) && es[u].op == op && forall j: nat :: u < j < n ==> !Uses(es, j, x);
      LastUseIs(es, u, n, x);
    }
  }

  lemma {:induction false} LastWordIs(es: seq<Event>, b: nat, n: nat, op: Id)
    requires WordAt(es, n, op, b)
    ensures LastObservation(es, n, op) == b
  {
    hide Counts;
    if b + 1 < n { LastWordIs(es, b, n - 1, op); }
  }

  lemma WordIff(es: seq<Event>, n: nat, op: Id, b: nat)
    requires n <= |es|
    ensures WordAt(es, n, op, b) <==> LastObservation(es, n, op) == b
  {
    hide BoundTo;
    NothingAfterLast(es, n, op);
    if WordAt(es, n, op, b) { LastWordIs(es, b, n, op); }
  }

  lemma StandsIff(es: seq<Event>, n: nat, op: Id, r: nat)
    requires n <= |es|
    ensures StandsAt(es, n, op, r) <==> Standing(es, n, op).Some? && LastObservation(es, n, op) == r
  {
    WordIff(es, n, op, r);
    NothingAfterLast(es, n, op);
    if StandsAt(es, n, op, r) { NotLater(es, r, n, op); }
    hide LastExecution, LastObservation, BoundTo;
  }

  lemma {:induction false} NotLater(es: seq<Event>, r: nat, n: nat, op: Id)
    requires r < n <= |es| && Observes(es[r]) && NoExecutionIn(es, r + 1, n, op)
    ensures LastExecution(es, n, op) < r
  {
    if r + 1 < n { NotLater(es, r, n - 1, op); }
  }

  // ---------------------------------------------------------------- what earns a fault

  /** The event is in another segment than the active one. */
  ghost predicate Moved(es: seq<Event>, k: nat)
    requires k < |es|
  {
    var segment := Segment(es, k, es[k].op);
    segment.Some? && segment.value != es[k].segment
  }

  /** The event names the latest attempt, in the active segment. */
  ghost predicate Bound(es: seq<Event>, k: nat, x: Id)
    requires k < |es|
  {
    IsLatest(es, k, es[k].op, x) && Segment(es, k, es[k].op) == Some(es[k].segment)
  }

  /** The boundary names the latest attempt and the segment it leaves. */
  ghost predicate Continuous(es: seq<Event>, k: nat)
    requires k < |es| && Continues(es[k])
  {
    var a := es[k].action;
    && a.predecessor.Some? && IsLatest(es, k, es[k].op, a.predecessor.value)
    && a.predecessorSegment.Some? && Segment(es, k, es[k].op) == a.predecessorSegment
  }

  /** The reconciliation bears out the claim, with the same evidence and segment where the policy asks. */
  predicate Backs(policy: Policy, r: Event, claim: Event)
    requires Settles(r) && claim.action.Terminal?
  {
    && r.action.reading.outcome == claim.action.outcome
    && (policy.requireTerminalEvidence ==>
          && claim.action.kind == Some(r.action.evidenceKind) && claim.action.ref == Some(r.action.evidenceRef)
          && claim.segment == r.segment)
  }

  /** Event `k` has earned `x`. */
  ghost predicate Earns(policy: Policy, trajectory: Id, es: seq<Event>, k: nat, x: Fault)
    requires k < |es|
  {
    var e, op := es[k], es[k].op;
    match x
    case TrajectoryDrift => e.trajectory != trajectory
    case AuthorizationMoved => e.action.Authorize? && Moved(es, k)
    case AmbiguousUnbound => e.action.Ambiguous? && !Bound(es, k, e.action.execution)
    case CrashUnbound => e.action.Crash? && !Bound(es, k, e.action.execution)
    case BoundaryUnbound => Continues(e) && !Continuous(es, k)
    case BoundaryWithoutProof => Continues(e) && policy.requirePredecessorProof && e.action.proof == None
    case ReconcileUnbound => e.action.Reconcile? && !Bound(es, k, e.action.execution)
    case TerminalOutsideSegment => e.action.Terminal? && Segment(es, k, op) != Some(e.segment)
    case TerminalWithoutProof =>
      e.action.Terminal? && !exists r: nat :: StandsAt(es, k, op, r) && Backs(policy, es[r], e)
    case StopOutsideSegment => e.action.Stop? && Moved(es, k)
    case _ => Executes(e) && ExecutionEarns(es, k, x)
  }

  /** The execution at `k` has earned `x`. */
  ghost predicate ExecutionEarns(es: seq<Event>, k: nat, x: Fault)
    requires k < |es| && Executes(es[k])
  {
    var e, op := es[k], es[k].op;
    match x
    case ExecutionIdReused => exists i: nat :: i < k && Uses(es, i, e.action.execution)
    case Unauthorized => forall i :: 0 <= i < k && es[i].op == op ==> !es[i].action.Authorize?
    case ExecutionOutsideSegment => Moved(es, k)
    case UnresolvedRedispatch => exists u: nat :: WordAt(es, k, op, u) && !Settles(es[u])
    case RedispatchAfterCommit =>
      exists r: nat :: StandsAt(es, k, op, r) && es[r].action.reading.outcome == Committed
    case RetryUnbound =>
      e.action.Retry? && !exists i: nat :: AttemptAt(es, k, op, i) && e.action.retryOf == Some(es[i].action.execution)
    case RetryNotGranted =>
      && e.action.Retry?
      && exists r: nat :: StandsAt(es, k, op, r) && es[r].action.reading.outcome != Committed && !es[r].action.retryFlag
    case _ => false
  }

  // ------------------------------------------------------------ what the history says

  lemma OpenIffWord(es: seq<Event>, n: nat, op: Id)
    requires n <= |es|
    ensures Unresolved(es, n, op) <==> exists u: nat :: WordAt(es, n, op, u) && !Settles(es[u])
  {
    hide LastObservation, WordAt;
    forall u: nat ensures WordAt(es, n, op, u) <==> LastObservation(es, n, op) == u { WordIff(es, n, op, u); }
    if Unresolved(es, n, op) { assert WordAt(es, n, op, LastObservation(es, n, op)); }
  }

  lemma StandingIff(es: seq<Event>, n: nat, op: Id, outcome: Outcome)
    requires n <= |es|
    ensures Standing(es, n, op) == Some(outcome) <==>
            exists r: nat :: StandsAt(es, n, op, r) && es[r].action.reading.outcome == outcome
  {
    hide LastObservation, LastExecution, StandsAt;
    forall r: nat
      ensures StandsAt(es, n, op, r) <==> Standing(es, n, op).Some? && LastObservation(es, n, op) == r
    {
      StandsIff(es, n, op, r);
    }
    if Standing(es, n, op) == Some(outcome) { assert StandsAt(es, n, op, LastObservation(es, n, op)); }
  }

  lemma UngrantedIff(es: seq<Event>, n: nat, op: Id)
    requires n <= |es|
    ensures !Unresolved(es, n, op) && Standing(es, n, op) in {Some(Failed), Some(NoEffect)} && !Granted(es, n, op) <==>
            exists r: nat :: StandsAt(es, n, op, r) && es[r].action.reading.outcome != Committed
                             && !es[r].action.retryFlag
  {
    LastRetryIsExecution(es, n, op);
    hide LastObservation, LastExecution, LastRetry, StandsAt;
    forall r: nat
      ensures StandsAt(es, n, op, r) <==> Standing(es, n, op).Some? && LastObservation(es, n, op) == r
    {
      StandsIff(es, n, op, r);
    }
    var k := LastObservation(es, n, op);
    if Standing(es, n, op).Some? {
      assert StandsAt(es, n, op, k);
      OutcomesAre(Standing(es, n, op));
    }
  }

  lemma RetryBoundIff(es: seq<Event>, k: nat)
    requires k < |es| && es[k].action.Retry?
    ensures var last := LastExecution(es, k, es[k].op);
            last < 0 || es[k].action.retryOf != Some(es[last].action.execution) <==>
            !exists i: nat :: AttemptAt(es, k, es[k].op, i) && es[k].action.retryOf == Some(es[i].action.execution)
  {
    hide LastExecution, AttemptAt;
    var op, last := es[k].op, LastExecution(es, k, es[k].op);
    forall i: nat ensures AttemptAt(es, k, op, i) <==> last == i { AttemptIff(es, k, op, i); }
    if last >= 0 { assert AttemptAt(es, k, op, last); }
  }

  /** A terminal claim is proved exactly when a standing reconciliation bears it out, on every trace. */
  lemma ProvedIff(policy: Policy, es: seq<Event>, k: nat)
    requires k < |es| && es[k].action.Terminal?
    ensures Proved(policy, es, k) <==> exists r: nat :: StandsAt(es, k, es[k].op, r) && Backs(policy, es[r], es[k])
  {
    hide LastObservation, LastExecution, StandsAt;
    var op := es[k].op;
    forall r: nat
      ensures StandsAt(es, k, op, r) <==> Standing(es, k, op).Some? && LastObservation(es, k, op) == r
    {
      StandsIff(es, k, op, r);
    }
    if Standing(es, k, op).Some? { assert StandsAt(es, k, op, LastObservation(es, k, op)); }
  }

  lemma BoundIff(es: seq<Event>, k: nat, x: Id)
    requires k < |es|
    ensures Bound(es, k, x) <==> BoundTo(es, k, x)
  {
    hide Segment, Latest, IsLatest;
    IsLatestIff(es, k, es[k].op, x);
  }

  lemma ContinuousIff(es: seq<Event>, k: nat)
    requires k < |es| && Continues(es[k])
    ensures Continuous(es, k) <==> BoundaryBound(es, k)
  {
    hide Segment, Latest, IsLatest;
    if es[k].action.predecessor.Some? { IsLatestIff(es, k, es[k].op, es[k].action.predecessor.value); }
  }

  // -------------------------------------------------------------- what is in the log

  lemma InSum<T>(xs: seq<T>, condition: bool, y: T, x: T)
    ensures x in xs + When(condition, y) <==> x in xs || (condition && x == y)
  {
  }

  /** Membership in a list of seven possible faults. */
  lemma InSeven(a: bool, b: bool, c: bool, d: bool, e: bool, f: bool, g: bool, x: Fault)
    ensures x in When(a, ExecutionIdReused) + When(b, Unauthorized) + When(c, ExecutionOutsideSegment)
                 + When(d, UnresolvedRedispatch) + When(e, RedispatchAfterCommit) + When(f, RetryUnbound)
                 + When(g, RetryNotGranted) <==>
            (a && x == ExecutionIdReused) || (b && x == Unauthorized) || (c && x == ExecutionOutsideSegment)
            || (d && x == UnresolvedRedispatch) || (e && x == RedispatchAfterCommit) || (f && x == RetryUnbound)
            || (g && x == RetryNotGranted)
  {
    var xs := When(a, ExecutionIdReused);
    InSum(xs, b, Unauthorized, x);
    xs := xs + When(b, Unauthorized);
    InSum(xs, c, ExecutionOutsideSegment, x);
    xs := xs + When(c, ExecutionOutsideSegment);
    InSum(xs, d, UnresolvedRedispatch, x);
    xs := xs + When(d, UnresolvedRedispatch);
    InSum(xs, e, RedispatchAfterCommit, x);
    xs := xs + When(e, RedispatchAfterCommit);
    InSum(xs, f, RetryUnbound, x);
    xs := xs + When(f, RetryUnbound);
    InSum(xs, g, RetryNotGranted, x);
  }

  lemma InTwo(a: bool, y: Fault, b: bool, z: Fault, x: Fault)
    ensures x in When(a, y) + When(b, z) <==> (a && x == y) || (b && x == z)
  {
  }

  /** The position of a fault among those of one event. */
  function Rank(x: Fault): nat {
    match x
    case TrajectoryDrift => 0
    case AuthorizationMoved => 1
    case ExecutionIdReused => 2
    case Unauthorized => 3
    case ExecutionOutsideSegment => 4
    case UnresolvedRedispatch => 5
    case RedispatchAfterCommit => 6
    case RetryUnbound => 7
    case RetryNotGranted => 8
    case AmbiguousUnbound => 9
    case CrashUnbound => 10
    case BoundaryUnbound => 11
    case BoundaryWithoutProof => 12
    case ReconcileUnbound => 13
    case TerminalOutsideSegment => 14
    case TerminalWithoutProof => 15
    case StopOutsideSegment => 16
  }

  /** The same in terms of the history functions. */
  ghost predicate HistoryEarns(es: seq<Event>, k: nat, x: Fault)
    requires k < |es| && Executes(es[k])
  {
    var e, op, last := es[k], es[k].op, LastExecution(es, k, es[k].op);
    match x
    case ExecutionIdReused => LastUse(es, k, e.action.execution) >= 0
    case Unauthorized => !Authorized(es, k, op)
    case ExecutionOutsideSegment => Moved(es, k)
    case UnresolvedRedispatch => Unresolved(es, k, op)
    case RedispatchAfterCommit => Standing(es, k, op) == Some(Committed)
    case RetryUnbound => e.action.Retry? && (last < 0 || e.action.retryOf != Some(es[last].action.execution))
    case RetryNotGranted => e.action.Retry? && Ungranted(es, k)
    case _ => false
  }

  /** An outcome settled as failed or without effect, with no grant. */
  ghost predicate Ungranted(es: seq<Event>, k: nat)
    requires k < |es|
  {
    var op := es[k].op;
    && !Unresolved(es, k, op) && Standing(es, k, op) in {Some(Failed), Some(NoEffect)} && !Granted(es, k, op)
  }

  lemma HistoryListed(es: seq<Event>, k: nat, x: Fault)
    requires k < |es| && Executes(es[k])
    ensures x in ExecutionFaults(es, k) <==> HistoryEarns(es, k, x)
  {
    hide *;
    HistorySum(es, k);
    if HistoryEarns(es, k, x) { OnlyListed(es, k, x); }
    InSeven(HistoryEarns(es, k, ExecutionIdReused), HistoryEarns(es, k, Unauthorized),
            HistoryEarns(es, k, ExecutionOutsideSegment), HistoryEarns(es, k, UnresolvedRedispatch),
            HistoryEarns(es, k, RedispatchAfterCommit), HistoryEarns(es, k, RetryUnbound),
            HistoryEarns(es, k, RetryNotGranted), x);
  }

  lemma HistorySum(es: seq<Event>, k: nat)
    requires k < |es| && Executes(es[k])
    ensures ExecutionFaults(es, k)
         == When(HistoryEarns(es, k, ExecutionIdReused), ExecutionIdReused)
            + When(HistoryEarns(es, k, Unauthorized), Unauthorized)
            + When(HistoryEarns(es, k, ExecutionOutsideSegment), ExecutionOutsideSegment)
            + When(HistoryEarns(es, k, UnresolvedRedispatch), UnresolvedRedispatch)
            + When(HistoryEarns(es, k, RedispatchAfterCommit), RedispatchAfterCommit)
            + When(HistoryEarns(es, k, RetryUnbound), RetryUnbound)
            + When(HistoryEarns(es, k, RetryNotGranted), RetryNotGranted)
  {
    hide Unresolved, Standing, Granted, LastExecution, LastUse, Segment, Authorized, When;
  }

  lemma OnlyListed(es: seq<Event>, k: nat, x: Fault)
    requires k < |es| && Executes(es[k]) && HistoryEarns(es, k, x)
    ensures x.ExecutionIdReused? || x.Unauthorized? || x.ExecutionOutsideSegment? || x.UnresolvedRedispatch?
            || x.RedispatchAfterCommit? || x.RetryUnbound? || x.RetryNotGranted?
  {
  }

  lemma ExecutionEarnsIff(es: seq<Event>, k: nat, x: Fault)
    requires k < |es| && Executes(es[k])
    ensures HistoryEarns(es, k, x) <==> ExecutionEarns(es, k, x)
  {
    hide Unresolved, Standing, Granted, LastExecution, LastUse, Segment, AttemptAt, StandsAt, WordAt, Uses;
    var e, op := es[k], es[k].op;
    match x
    case ExecutionIdReused => UsedIff(es, k, e.action.execution);
    case UnresolvedRedispatch => OpenIffWord(es, k, op);
    case RedispatchAfterCommit => StandingIff(es, k, op, Committed);
    case RetryUnbound => if e.action.Retry? { RetryBoundIff(es, k); }
    case RetryNotGranted => UngrantedIff(es, k, op);
    case _ =>
  }

  /** What event `k` commits besides drifting to another trajectory. */
  ghost function OwnFaults(policy: Policy, es: seq<Event>, k: nat): seq<Fault>
    requires k < |es|
  {
    var e, segment := es[k], Segment(es, k, es[k].op);
    if Executes(e) then ExecutionFaults(es, k)
    else if Continues(e) then
      When(!BoundaryBound(es, k), BoundaryUnbound)
      + When(policy.requirePredecessorProof && e.action.proof == None, BoundaryWithoutProof)
    else if e.action.Terminal? then
      When(segment != Some(e.segment), TerminalOutsideSegment) + When(!Proved(policy, es, k), TerminalWithoutProof)
    else match e.action
      case Authorize => When(segment.Some? && segment.value != e.segment, AuthorizationMoved)
      case Ambiguous(x) => When(!BoundTo(es, k, x), AmbiguousUnbound)
      case Crash(x) => When(!BoundTo(es, k, x), CrashUnbound)
      case Reconcile(x, _, _, _, _) => When(!BoundTo(es, k, x), ReconcileUnbound)
      case _ => When(segment.Some? && segment.value != e.segment, StopOutsideSegment)
  }

  lemma OwnThenDrift(policy: Policy, trajectory: Id, es: seq<Event>, k: nat)
    requires k < |es|
    ensures FaultsAt(policy, trajectory, es, k)
         == When(es[k].trajectory != trajectory, TrajectoryDrift) + OwnFaults(policy, es, k)
  {
    hide ExecutionFaults, Segment, BoundTo, BoundaryBound, Proved, When;
  }

  lemma InWhen(condition: bool, y: Fault, x: Fault)
    ensures x in When(condition, y) <==> condition && x == y
  {
  }

  lemma ExecutionOwn(policy: Policy, trajectory: Id, es: seq<Event>, k: nat, x: Fault)
    requires k < |es| && x != TrajectoryDrift && Executes(es[k])
    ensures x in OwnFaults(policy, es, k) <==> Earns(policy, trajectory, es, k, x)
  {
    hide ExecutionFaults, HistoryEarns;
    HistoryListed(es, k, x);
    ExecutionEarnsIff(es, k, x);
    if ExecutionEarns(es, k, x) { OnlyExecutionEarns(es, k, x); }
    hide ExecutionEarns;
  }

  lemma OnlyExecutionEarns(es: seq<Event>, k: nat, x: Fault)
    requires k < |es| && Executes(es[k]) && ExecutionEarns(es, k, x)
    ensures 2 <= Rank(x) <= 8
  {
  }

  lemma BoundaryOwn(policy: Policy, trajectory: Id, es: seq<Event>, k: nat, x: Fault)
    requires k < |es| && x != TrajectoryDrift && Continues(es[k])
    ensures x in OwnFaults(policy, es, k) <==> Earns(policy, trajectory, es, k, x)
  {
    hide BoundaryBound, Continuous, When;
    ContinuousIff(es, k);
    InTwo(!BoundaryBound(es, k), BoundaryUnbound, policy.requirePredecessorProof && es[k].action.proof == None,
          BoundaryWithoutProof, x);
  }

  lemma TerminalOwn(policy: Policy, trajectory: Id, es: seq<Event>, k: nat, x: Fault)
    requires k < |es| && x != TrajectoryDrift && es[k].action.Terminal?
    ensures x in OwnFaults(policy, es, k) <==> Earns(policy, trajectory, es, k, x)
  {
    hide Segment, Proved, When, StandsAt;
    ProvedIff(policy, es, k);
    InTwo(Segment(es, k, es[k].op) != Some(es[k].segment), TerminalOutsideSegment, !Proved(policy, es, k),
          TerminalWithoutProof, x);
  }

  lemma OtherOwn(policy: Policy, trajectory: Id, es: seq<Event>, k: nat, x: Fault)
    requires k < |es| && x != TrajectoryDrift && !Executes(es[k]) && !Continues(es[k]) && !es[k].action.Terminal?
    ensures x in OwnFaults(policy, es, k) <==> Earns(policy, trajectory, es, k, x)
  {
    hide Segment, BoundTo, Bound;
    match es[k].action
    case Ambiguous(y) => BoundIff(es, k, y);
    case Crash(y) => BoundIff(es, k, y);
    case Reconcile(y, _, _, _, _) => BoundIff(es, k, y);
    case _ =>
  }

  /** The faults of an event are exactly those it has earned. */
  lemma EarnsIff(policy: Policy, trajectory: Id, es: seq<Event>, k: nat, x: Fault)
    requires k < |es|
    ensures x in FaultsAt(policy, trajectory, es, k) <==> Earns(policy, trajectory, es, k, x)
  {
    OwnThenDrift(policy, trajectory, es, k);
    if x == TrajectoryDrift {
      NoOwnDrift(policy, es, k);
      hide OwnFaults, FaultsAt;
    } else {
      hide OwnFaults, FaultsAt, Earns;
      if Executes(es[k]) {
        ExecutionOwn(policy, trajectory, es, k, x);
      } else if Continues(es[k]) {
        BoundaryOwn(policy, trajectory, es, k, x);
      } else if es[k].action.Terminal? {
        TerminalOwn(policy, trajectory, es, k, x);
      } else {
        OtherOwn(policy, trajectory, es, k, x);
      }
    }
  }

  lemma NoOwnDrift(policy: Policy, es: seq<Event>, k: nat)
    requires k < |es|
    ensures TrajectoryDrift !in OwnFaults(policy, es, k)
  {
    if Executes(es[k]) { HistoryListed(es, k, TrajectoryDrift); }
    hide Segment, BoundTo, BoundaryBound, Proved, ExecutionFaults;
  }

  lemma SevenRise(a: bool, b: bool, c: bool, d: bool, e: bool, f: bool, g: bool)
    ensures Rising(When(a, ExecutionIdReused) + When(b, Unauthorized) + When(c, ExecutionOutsideSegment)
                   + When(d, UnresolvedRedispatch) + When(e, RedispatchAfterCommit) + When(f, RetryUnbound)
                   + When(g, RetryNotGranted), Rank, 2, 9)
  {
    hide Rising, When;
    var xs := When(a, ExecutionIdReused);
    RisingWhen(a, ExecutionIdReused, Rank);
    xs := NextRises(xs, b, Unauthorized, 2);
    xs := NextRises(xs, c, ExecutionOutsideSegment, 2);
    xs := NextRises(xs, d, UnresolvedRedispatch, 2);
    xs := NextRises(xs, e, RedispatchAfterCommit, 2);
    xs := NextRises(xs, f, RetryUnbound, 2);
    xs := NextRises(xs, g, RetryNotGranted, 2);
  }

  lemma ExecutionFaultsRise(es: seq<Event>, k: nat)
    requires k < |es| && Executes(es[k])
    ensures Rising(ExecutionFaults(es, k), Rank, 2, 9)
  {
    hide *;
    HistorySum(es, k);
    SevenRise(HistoryEarns(es, k, ExecutionIdReused), HistoryEarns(es, k, Unauthorized),
              HistoryEarns(es, k, ExecutionOutsideSegment), HistoryEarns(es, k, UnresolvedRedispatch),
              HistoryEarns(es, k, RedispatchAfterCommit), HistoryEarns(es, k, RetryUnbound),
              HistoryEarns(es, k, RetryNotGranted));
  }

  lemma NextRises(xs: seq<Fault>, condition: bool, y: Fault, lo: nat) returns (all: seq<Fault>)
    requires lo <= Rank(y) && Rising(xs, Rank, lo, Rank(y))
    ensures all == xs + When(condition, y) && Rising(all, Rank, lo, Rank(y) + 1)
  {
    all := xs + When(condition, y);
    RisingWhen(condition, y, Rank);
    RisingJoin(xs, When(condition, y), Rank, lo, Rank(y), Rank(y), Rank(y) + 1);
  }

  lemma FaultsRise(policy: Policy, trajectory: Id, es: seq<Event>, k: nat)
    requires k < |es|
    ensures Rising(FaultsAt(policy, trajectory, es, k), Rank, 0, 17)
  {
    OwnThenDrift(policy, trajectory, es, k);
    OwnRise(policy, es, k);
    hide FaultsAt, OwnFaults, Rising, When;
    RisingWhen(es[k].trajectory != trajectory, TrajectoryDrift, Rank);
    RisingJoin(When(es[k].trajectory != trajectory, TrajectoryDrift), OwnFaults(policy, es, k), Rank, 0, 1, 1, 17);
  }

  lemma OwnRise(policy: Policy, es: seq<Event>, k: nat)
    requires k < |es|
    ensures Rising(OwnFaults(policy, es, k), Rank, 1, 17)
  {
    hide Segment, BoundTo, BoundaryBound, Proved, ExecutionFaults;
    if Executes(es[k]) { ExecutionFaultsRise(es, k); }
  }

  /** The log of every trace: it holds exactly what each event has earned, under the number of the event, in
      the order of the events and at each event in that of the ranks, each once. */
  lemma {:induction false} LogHolds(policy: Policy, trajectory: Id, es: seq<Event>, n: nat)
    requires n <= |es|
    ensures LogInOrder(ViolationsOf(policy, trajectory, es, n), Rank)
    ensures forall v :: v in ViolationsOf(policy, trajectory, es, n) <==>
                          1 <= v.eventSeq <= n && Earns(policy, trajectory, es, v.eventSeq - 1, v.fault)
  {
    hide FaultsAt, Earns, Rising;
    if n > 0 {
      LogHolds(policy, trajectory, es, n - 1);
      var before, faults := ViolationsOf(policy, trajectory, es, n - 1), FaultsAt(policy, trajectory, es, n - 1);
      forall v
        ensures v in before + Tagged(faults, n) <==>
                1 <= v.eventSeq <= n && Earns(policy, trajectory, es, v.eventSeq - 1, v.fault)
      {
        InTagged(faults, n, v);
        EarnsIff(policy, trajectory, es, n - 1, v.fault);
      }
      FaultsRise(policy, trajectory, es, n - 1);
      assert forall i :: 0 <= i < |before| ==> before[i] in before;
      OneMoreEvent(before, faults, n, Rank, 17);
    }
  }
}
