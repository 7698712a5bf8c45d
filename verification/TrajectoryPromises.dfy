/** The two promises of the repository, "one authorized intent, at most one economic effect" and "unknown
    outcome, no new financial action", on violation-free trajectories: when they hold, and runs on which
    they do not. */
module TrajectoryPromises {
  import opened Ordering
  import opened Trajectory
  import opened TrajectorySafety

  // ------------------------------------------------------- histories of longer traces

  lemma {:induction false} SameExecutions(es: seq<Event>, all: seq<Event>, n: nat, op: Id, x: Id)
    requires n <= |es| && es <= all
    ensures LastExecution(all, n, op) == LastExecution(es, n, op) && LastRetry(all, n, op) == LastRetry(es, n, op)
    ensures LastUse(all, n, x) == LastUse(es, n, x)
  {
    if n > 0 { SameExecutions(es, all, n - 1, op, x); }
  }

  lemma SameLatest(es: seq<Event>, all: seq<Event>, n: nat, op: Id, x: Id)
    requires n <= |es| && es <= all
    ensures Latest(all, n, op, x) <==> Latest(es, n, op, x)
  {
    hide LastRetry;
    SameExecutions(es, all, n, op, x);
  }

  lemma {:induction false} SameSegment(es: seq<Event>, all: seq<Event>, n: nat, op: Id)
    requires n <= |es| && es <= all
    ensures Segment(all, n, op) == Segment(es, n, op)
  {
    hide Latest;
    if n > 0 {
      SameSegment(es, all, n - 1, op);
      var e := es[n - 1];
      if Continues(e) && e.action.predecessor.Some? { SameLatest(es, all, n - 1, op, e.action.predecessor.value); }
    }
  }

  lemma SameBound(es: seq<Event>, all: seq<Event>, k: nat, x: Id)
    requires k < |es| && es <= all
    ensures BoundTo(all, k, x) <==> BoundTo(es, k, x)
  {
    hide Latest, Segment;
    SameLatest(es, all, k, es[k].op, x);
    SameSegment(es, all, k, es[k].op);
  }

  lemma {:induction false} SameObservations(es: seq<Event>, all: seq<Event>, n: nat, op: Id)
    requires n <= |es| && es <= all
    ensures LastObservation(all, n, op) == LastObservation(es, n, op)
  {
    hide BoundTo;
    if n > 0 {
      SameObservations(es, all, n - 1, op);
      if Observes(es[n - 1]) { SameBound(es, all, n - 1, es[n - 1].action.execution); }
    }
  }

  lemma SameOutcome(es: seq<Event>, all: seq<Event>, n: nat, op: Id)
    requires n <= |es| && es <= all
    ensures Unresolved(all, n, op) <==> Unresolved(es, n, op)
    ensures Standing(all, n, op) == Standing(es, n, op) && (Granted(all, n, op) <==> Granted(es, n, op))
    ensures Authorized(all, n, op) <==> Authorized(es, n, op)
  {
    hide LastObservation, LastExecution, LastRetry, LastUse;
    SameObservations(es, all, n, op);
    SameExecutions(es, all, n, op, op);
  }

  lemma SameExecutionFaults(es: seq<Event>, all: seq<Event>, k: nat)
    requires k < |es| && es <= all && Executes(es[k])
    ensures ExecutionFaults(all, k) == ExecutionFaults(es, k)
  {
    hide Unresolved, Standing, Granted, LastExecution, LastUse, Segment, Authorized, When;
    var op := es[k].op;
    SameExecutions(es, all, k, op, es[k].action.execution);
    SameSegment(es, all, k, op);
    SameOutcome(es, all, k, op);
  }

  lemma SameProof(policy: Policy, es: seq<Event>, all: seq<Event>, k: nat)
    requires k < |es| && es <= all && es[k].action.Terminal?
    ensures Proved(policy, all, k) <==> Proved(policy, es, k)
  {
    hide LastObservation, LastExecution;
    SameOutcome(es, all, k, es[k].op);
    SameObservations(es, all, k, es[k].op);
  }

  lemma SameBoundary(es: seq<Event>, all: seq<Event>, k: nat)
    requires k < |es| && es <= all && Continues(es[k])
    ensures BoundaryBound(all, k) <==> BoundaryBound(es, k)
  {
    hide Latest, Segment;
    SameSegment(es, all, k, es[k].op);
    if es[k].action.predecessor.Some? { SameLatest(es, all, k, es[k].op, es[k].action.predecessor.value); }
  }

  /** What follows an event does not change its faults. */
  lemma SameFaults(policy: Policy, trajectory: Id, es: seq<Event>, all: seq<Event>, k: nat)
    requires k < |es| && es <= all
    ensures FaultsAt(policy, trajectory, all, k) == FaultsAt(policy, trajectory, es, k)
  {
    hide BoundTo, BoundaryBound, Proved, Segment, ExecutionFaults, When;
    var e := es[k];
    SameSegment(es, all, k, e.op);
    match e.action
    case Authorize =>
    case Dispatch(_) => SameExecutionFaults(es, all, k);
    case Retry(_, _) => SameExecutionFaults(es, all, k);
    case Ambiguous(x) => SameBound(es, all, k, x);
    case Crash(x) => SameBound(es, all, k, x);
    case Resume(_, _, _) => SameBoundary(es, all, k);
    case Handoff(_, _, _) => SameBoundary(es, all, k);
    case Reconcile(x, _, _, _, _) => SameBound(es, all, k, x);
    case Terminal(_, _, _) => SameProof(policy, es, all, k);
    case Stop =>
  }

  lemma CleanOneMore(policy: Policy, trajectory: Id, es: seq<Event>, e: Event)
    ensures Clean(policy, trajectory, es + [e]) <==>
            Clean(policy, trajectory, es) && FaultsAt(policy, trajectory, es + [e], |es|) == []
  {
    hide FaultsAt;
    var all := es + [e];
    forall k | 0 <= k < |es| ensures FaultsAt(policy, trajectory, all, k) == FaultsAt(policy, trajectory, es, k) {
      SameFaults(policy, trajectory, es, all, k);
    }
  }

  // -------------------------------------------------------------- what is admitted next

  /** An execution with nothing wrong about its identity: right trajectory, new id, authorized, in the
      active segment, and if a retry then of the latest execution. */
  ghost predicate InOrder(trajectory: Id, es: seq<Event>, e: Event) {
    var n, op := |es|, e.op;
    && Executes(e) && e.trajectory == trajectory && LastUse(es, n, e.action.execution) < 0 && Authorized(es, n, op)
    && (Segment(es, n, op).Some? ==> Segment(es, n, op).value == e.segment)
    && (e.action.Retry? ==>
          var last := LastExecution(es, n, op);
          last >= 0 && e.action.retryOf == Some(es[last].action.execution))
  }

  /** The outcome of the operation lets it be executed again. */
  ghost predicate Executable(es: seq<Event>, n: nat, op: Id, retry: bool)
    requires n <= |es|
  {
    && !Unresolved(es, n, op) && Standing(es, n, op) != Some(Committed)
    && (retry && Standing(es, n, op).Some? ==> Granted(es, n, op))
  }

  lemma NoExecutionFaults(trajectory: Id, es: seq<Event>, e: Event)
    requires InOrder(trajectory, es, e)
    ensures ExecutionFaults(es + [e], |es|) == [] <==> Executable(es, |es|, e.op, e.action.Retry?)
  {
    hide Unresolved, Standing, Granted, LastExecution, LastUse, Segment, Authorized;
    PrefixHistory(es, es + [e], e.op, e.action.execution);
    OutcomesAre(Standing(es, |es|, e.op));
  }

  /** After a clean trace an execution in order is admitted exactly when its operation has no open
      outcome, no commitment stands, and a retry of a settled outcome was granted. */
  lemma AdmittedIff(policy: Policy, trajectory: Id, es: seq<Event>, e: Event)
    requires Clean(policy, trajectory, es) && InOrder(trajectory, es, e)
    ensures Clean(policy, trajectory, es + [e]) <==> Executable(es, |es|, e.op, e.action.Retry?)
  {
    hide InOrder, Executable, ExecutionFaults, Clean;
    CleanOneMore(policy, trajectory, es, e);
    NoExecutionFaults(trajectory, es, e);
    OnlyExecutionFaults(policy, trajectory, es, e);
  }

  lemma OnlyExecutionFaults(policy: Policy, trajectory: Id, es: seq<Event>, e: Event)
    requires InOrder(trajectory, es, e)
    ensures FaultsAt(policy, trajectory, es + [e], |es|) == ExecutionFaults(es + [e], |es|)
  {
    hide Unresolved, Standing, Granted, LastExecution, LastUse, Segment, Authorized, ExecutionFaults;
  }

  lemma PrefixHistory(es: seq<Event>, all: seq<Event>, op: Id, x: Id)
    requires es <= all
    ensures var n := |es|;
            && LastUse(all, n, x) == LastUse(es, n, x) && (Authorized(all, n, op) <==> Authorized(es, n, op))
            && Segment(all, n, op) == Segment(es, n, op) && (Unresolved(all, n, op) <==> Unresolved(es, n, op))
            && Standing(all, n, op) == Standing(es, n, op) && (Granted(all, n, op) <==> Granted(es, n, op))
            && LastExecution(all, n, op) == LastExecution(es, n, op)
  {
    hide Unresolved, Standing, Granted, LastExecution, LastUse, Segment, Authorized, LastRetry;
    SameExecutions(es, all, |es|, op, x);
    SameSegment(es, all, |es|, op);
    SameOutcome(es, all, |es|, op);
  }

  // ------------------------------------------------------------ effects and their readings

  /** Event `b` reads a commitment of `op`. */
  ghost predicate Commits(es: seq<Event>, b: nat, op: Id) {
    b < |es| && es[b].op == op && Settles(es[b]) && es[b].action.reading.outcome == Committed
  }

  /** Event `c` reads the execution that `b` read as committed as failed or without effect. */
  ghost predicate Overturns(es: seq<Event>, b: nat, c: nat) {
    && b < c < |es| && Settles(es[b]) && Settles(es[c]) && es[c].op == es[b].op
    && es[c].action.reading.outcome != Committed && es[c].action.execution == es[b].action.execution
  }

  /** In a clean trace an observation names the latest execution. */
  lemma NamesLatest(policy: Policy, trajectory: Id, es: seq<Event>, b: nat)
    requires Clean(policy, trajectory, es) && b < |es| && Observes(es[b])
    ensures Counts(es, b) && var i := LastExecution(es, b, es[b].op);
                             0 <= i < b && es[i].action.execution == es[b].action.execution
  {
    hide LastExecution, LastUse, Segment, FaultsAt;
    CleanOther(policy, trajectory, es, b);
  }

  /** Without executions between, two observations name the same execution. */
  lemma SameName(policy: Policy, trajectory: Id, es: seq<Event>, b: nat, c: nat)
    requires Clean(policy, trajectory, es) && b <= c < |es| && Observes(es[b]) && Observes(es[c])
             && es[b].op == es[c].op
    requires NoExecutionIn(es, b, c, es[b].op)
    ensures es[b].action.execution == es[c].action.execution
  {
    hide Clean;
    NamesLatest(policy, trajectory, es, b);
    NamesLatest(policy, trajectory, es, c);
    hide LastExecution;
    KeepsLatest(es, b, c, es[b].op);
  }

  lemma {:induction false} KeepsLatest(es: seq<Event>, b: nat, c: nat, op: Id)
    requires b <= c <= |es| && NoExecutionIn(es, b, c, op)
    ensures LastExecution(es, c, op) == LastExecution(es, b, op)
  {
    if b < c { KeepsLatest(es, b, c - 1, op); }
  }

  // ------------------------------------------------- one intent, at most one economic effect

  /** The last observation before `j` is a settled reading without effect. */
  ghost predicate LastReadWithoutEffect(es: seq<Event>, b: nat, c: nat, j: nat) {
    Overturns(es, b, c) && c < j <= |es| && NoObservationIn(es, c + 1, j, es[b].op)
  }

  lemma LastAfterCommit(policy: Policy, trajectory: Id, es: seq<Event>, b: nat, j: nat)
    requires Clean(policy, trajectory, es) && b < j <= |es| && Commits(es, b, es[b].op)
    requires NoExecutionIn(es, b, j, es[b].op)
    ensures var op, k := es[b].op, LastObservation(es, j, es[b].op);
            && b <= k < j && LastExecution(es, j, op) < b && NoObservationIn(es, k + 1, j, op)
            && es[k].action.execution == es[b].action.execution
  {
    hide Clean, BoundTo, LastExecution, LastObservation;
    var op := es[b].op;
    NamesLatest(policy, trajectory, es, b);
    KeepsLatest(es, b, j, op);
    NothingAfterLast(es, j, op);
    var k := LastObservation(es, j, op);
    forall l | k < l < j && es[l].op == op ensures !Observes(es[l]) {
      if Observes(es[l]) { NamesLatest(policy, trajectory, es, l); }
    }
    SameName(policy, trajectory, es, b, k);
  }

  /** With a commitment read and nothing executed since, a further execution is possible exactly when the
      last observation has overturned the commitment (and granted the retry, if it is one). */
  lemma ExecutableAfterCommitIff(policy: Policy, trajectory: Id, es: seq<Event>, b: nat, j: nat, retry: bool)
    requires Clean(policy, trajectory, es) && b < j <= |es| && Commits(es, b, es[b].op)
    requires NoExecutionIn(es, b, j, es[b].op)
    ensures Executable(es, j, es[b].op, retry) <==>
            exists c: nat :: LastReadWithoutEffect(es, b, c, j) && (retry ==> es[c].action.retryFlag)
  {
    var op := es[b].op;
    LastAfterCommit(policy, trajectory, es, b, j);
    LastRetryIsExecution(es, j, op);
    hide LastObservation, LastExecution, LastRetry, Clean;
    var k: nat := LastObservation(es, j, op);
    if Executable(es, j, op, retry) { assert LastReadWithoutEffect(es, b, k, j); }
    if c: nat :| LastReadWithoutEffect(es, b, c, j) && (retry ==> es[c].action.retryFlag) {
      assert c == k;
    }
  }

  /** So an execution in order is admitted after a commitment exactly then. */
  lemma AdmittedAfterCommitIff(policy: Policy, trajectory: Id, es: seq<Event>, b: nat, e: Event)
    requires Clean(policy, trajectory, es) && b < |es| && Commits(es, b, e.op) && InOrder(trajectory, es, e)
    requires NoExecutionIn(es, b, |es|, e.op)
    ensures Clean(policy, trajectory, es + [e]) <==>
            exists c: nat :: LastReadWithoutEffect(es, b, c, |es|) && (e.action.Retry? ==> es[c].action.retryFlag)
  {
    hide Clean, InOrder, Executable, LastReadWithoutEffect;
    AdmittedIff(policy, trajectory, es, e);
    ExecutableAfterCommitIff(policy, trajectory, es, b, |es|, e.action.Retry?);
  }

  /** Whenever an execution follows a commitment, the commitment was overturned before it. */
  lemma {:induction false} OverturnedFirst(policy: Policy, trajectory: Id, es: seq<Event>, b: nat, j: nat)
    returns (c: nat)
    requires Clean(policy, trajectory, es) && b < j < |es| && Commits(es, b, es[b].op)
    requires es[j].op == es[b].op && Executes(es[j])
    ensures Overturns(es, b, c) && c < j && NoExecutionIn(es, b, c, es[b].op)
    decreases j
  {
    var op := es[b].op;
    if k :| b < k < j && es[k].op == op && Executes(es[k]) {
      c := OverturnedFirst(policy, trajectory, es, b, k);
    } else {
      CleanExecution(policy, trajectory, es, j);
      hide Clean, Unresolved, Standing, Granted;
      assert Executable(es, j, op, es[j].action.Retry?);
      ExecutableAfterCommitIff(policy, trajectory, es, b, j, es[j].action.Retry?);
      c :| LastReadWithoutEffect(es, b, c, j);
    }
  }

  /** Every commitment read of an operation names one execution. */
  ghost predicate AtMostOneEffect(es: seq<Event>, op: Id) {
    forall b: nat, b': nat :: Commits(es, b, op) && Commits(es, b', op) ==>
      es[b].action.execution == es[b'].action.execution
  }

  /** No commitment is overturned, followed by a further execution, and then by another commitment. */
  ghost predicate NoCommitReplaced(es: seq<Event>, op: Id) {
    forall b: nat, c: nat, j: nat, b': nat ::
      (Commits(es, b, op) && Overturns(es, b, c) && c < j < b' && Commits(es, b', op) && es[j].op == op) ==>
        !Executes(es[j])
  }

  /** A clean trajectory keeps the first promise for an operation exactly when no commitment is overturned,
      followed by a further execution and then by another commitment; in particular when none is
      overturned. */
  lemma AtMostOneEffectIff(policy: Policy, trajectory: Id, es: seq<Event>, op: Id)
    requires Clean(policy, trajectory, es)
    ensures AtMostOneEffect(es, op) <==> NoCommitReplaced(es, op)
    ensures (forall b: nat, c: nat :: Commits(es, b, op) ==> !Overturns(es, b, c)) ==> AtMostOneEffect(es, op)
  {
    hide Clean;
    forall b: nat, b': nat | b < b' && Commits(es, b, op) && Commits(es, b', op)
                             && es[b].action.execution != es[b'].action.execution
      ensures exists c: nat, j: nat :: Overturns(es, b, c) && c < j < b' && es[j].op == op && Executes(es[j])
    {
      var c, j := OverturnBetween(policy, trajectory, es, b, b');
    }
    forall b: nat, j: nat, b': nat | b < j < b' && Commits(es, b, op) && Commits(es, b', op)
                                     && es[j].op == op && Executes(es[j])
      ensures es[b].action.execution != es[b'].action.execution
    {
      NamesDiffer(policy, trajectory, es, b, j, b');
    }
  }

  lemma OverturnBetween(policy: Policy, trajectory: Id, es: seq<Event>, b: nat, b': nat) returns (c: nat, j: nat)
    requires Clean(policy, trajectory, es) && b < b' < |es| && Commits(es, b, es[b].op) && Commits(es, b', es[b].op)
    requires es[b].action.execution != es[b'].action.execution
    ensures Overturns(es, b, c) && c < j < b' && es[j].op == es[b].op && Executes(es[j])
  {
    var op := es[b].op;
    hide Clean;
    if NoExecutionIn(es, b, b', op) { SameName(policy, trajectory, es, b, b'); }
    j :| b <= j < b' && es[j].op == op && Executes(es[j]);
    c := OverturnedFirst(policy, trajectory, es, b, j);
  }

  lemma {:induction false} UsedSince(es: seq<Event>, i: nat, n: nat)
    requires i < n <= |es| && Executes(es[i])
    ensures LastUse(es, n, es[i].action.execution) >= i
  {
    if i + 1 < n { UsedSince(es, i, n - 1); }
  }

  lemma {:induction false} ExecutedSince(es: seq<Event>, j: nat, n: nat)
    requires j < n <= |es| && Executes(es[j])
    ensures LastExecution(es, n, es[j].op) >= j
  {
    if j + 1 < n { ExecutedSince(es, j, n - 1); }
  }

  /** Observations on either side of an execution name different executions. */
  lemma NamesDiffer(policy: Policy, trajectory: Id, es: seq<Event>, b: nat, j: nat, b': nat)
    requires Clean(policy, trajectory, es) && b < j < b' < |es| && es[b].op == es[j].op == es[b'].op
    requires Observes(es[b]) && Executes(es[j]) && Observes(es[b'])
    ensures es[b].action.execution != es[b'].action.execution
  {
    hide Clean, LastUse;
    NamesLatest(policy, trajectory, es, b);
    NamesLatest(policy, trajectory, es, b');
    ExecutedSince(es, j, b');
    var i, i' := LastExecution(es, b, es[b].op), LastExecution(es, b', es[b].op);
    hide LastExecution;
    UsedSince(es, i, i');
    CleanExecution(policy, trajectory, es, i');
  }

  // ------------------------------------------------------ attempts nobody looked at

  ghost predicate Consecutive(es: seq<Event>, i: nat, j: nat, op: Id) {
    && i < j < |es| && es[i].op == op && es[j].op == op && Executes(es[i]) && Executes(es[j])
    && NoExecutionIn(es, i + 1, j, op)
  }

  /** The attempt at `i` is known to be without effect when the one at `j` is made. */
  ghost predicate Spent(es: seq<Event>, i: nat, j: nat) {
    exists b: nat :: i < b < j < |es| && Executes(es[i]) && LastWordBetween(es, i, b, j, es[i].op) && Settles(es[b])
                     && es[b].action.reading.outcome != Committed && es[b].action.execution == es[i].action.execution
  }

  ghost predicate Watched(es: seq<Event>, i: nat, j: nat) {
    exists b: nat :: i < b < j < |es| && es[b].op == es[i].op && Observes(es[b])
  }

  lemma {:induction false} LastOfSome(es: seq<Event>, i: nat, b: nat, j: nat) returns (last: nat)
    requires i < b < j <= |es| && es[b].op == es[i].op && Observes(es[b])
    ensures LastWordBetween(es, i, last, j, es[i].op) && b <= last
    decreases j - b
  {
    if k :| b < k < j && es[k].op == es[i].op && Observes(es[k]) {
      last := LastOfSome(es, i, k, j);
    } else {
      last := b;
    }
  }

  /** Of two consecutive attempts the first is known to be without effect exactly when anything of the
      operation is observed between them. */
  lemma SpentIffWatched(policy: Policy, trajectory: Id, es: seq<Event>, i: nat, j: nat)
    requires Clean(policy, trajectory, es) && i < |es| && Consecutive(es, i, j, es[i].op)
    ensures Spent(es, i, j) <==> Watched(es, i, j)
  {
    if b: nat :| i < b < j < |es| && es[b].op == es[i].op && Observes(es[b]) {
      var last := LastOfSome(es, i, b, j);
      RedispatchOnlyAfterFailure(policy, trajectory, es, i, j);
    }
  }

  /** A clean trajectory has, at every moment, at most one attempt of an operation that may have had an
      effect, exactly when every attempt is observed before the next is made. */
  lemma OneOpenAttemptIff(policy: Policy, trajectory: Id, es: seq<Event>, op: Id)
    requires Clean(policy, trajectory, es)
    ensures (forall i: nat, j: nat :: Consecutive(es, i, j, op) ==> Spent(es, i, j))
       <==> (forall i: nat, j: nat :: Consecutive(es, i, j, op) ==> Watched(es, i, j))
  {
    hide Clean, Spent, Watched;
    forall i: nat, j: nat | Consecutive(es, i, j, op) ensures Spent(es, i, j) <==> Watched(es, i, j) {
      SpentIffWatched(policy, trajectory, es, i, j);
    }
  }

  // -------------------------------------------------- unknown outcome, no new action

  lemma {:induction false} ObservedSince(es: seq<Event>, u: nat, k: nat)
    requires u < k <= |es| && Counts(es, u)
    ensures LastObservation(es, k, es[u].op) >= u
  {
    hide BoundTo;
    if u + 1 < k { ObservedSince(es, u, k - 1); }
  }

  /** The outcome of an operation is open exactly when some observation has left it open and no settling
      reconciliation has come since. */
  lemma OpenIff(policy: Policy, trajectory: Id, es: seq<Event>, k: nat, op: Id)
    requires Clean(policy, trajectory, es) && k <= |es|
    ensures Unresolved(es, k, op) <==> exists u: nat :: LeftOpen(es, u, k, op)
  {
    hide Clean, BoundTo, LastObservation, LastExecution;
    forall u: nat | u < |es| && Observes(es[u]) ensures Counts(es, u) { NamesLatest(policy, trajectory, es, u); }
    NothingAfterLast(es, k, op);
    forall u: nat | LeftOpen(es, u, k, op) ensures LastObservation(es, k, op) >= u { ObservedSince(es, u, k); }
    var last := LastObservation(es, k, op);
    if Unresolved(es, k, op) { assert LeftOpen(es, last, k, op); }
  }

  /** Event `u` observes an outcome of `op` that is not settled before `k`. */
  ghost predicate LeftOpen(es: seq<Event>, u: nat, k: nat, op: Id) {
    && u < k <= |es| && es[u].op == op && Observes(es[u]) && !Settles(es[u])
    && forall r :: u < r < k && es[r].op == op ==> !Settles(es[r])
  }

  /** Whoever observes an open outcome, another operation is executed only after it is settled. */
  ghost predicate OthersWait(es: seq<Event>) {
    forall u: nat, k: nat ::
      (u < k < |es| && Observes(es[u]) && !Settles(es[u]) && Executes(es[k]) && es[u].op != es[k].op) ==>
        exists r :: u < r < k && es[r].op == es[u].op && Settles(es[r])
  }

  /** A clean trajectory keeps the second promise, no execution while any outcome is open, exactly when
      after each open observation other operations wait for its settlement. */
  lemma UnknownContainedIff(policy: Policy, trajectory: Id, es: seq<Event>)
    requires Clean(policy, trajectory, es)
    ensures (forall k, op :: 0 <= k < |es| && Executes(es[k]) ==> !Unresolved(es, k, op)) <==> OthersWait(es)
  {
    hide Unresolved, Clean;
    forall k | 0 <= k < |es| && Executes(es[k]) ensures !Unresolved(es, k, es[k].op) {
      CleanExecution(policy, trajectory, es, k);
    }
    forall k, op | 0 <= k < |es| ensures Unresolved(es, k, op) <==> exists u: nat :: LeftOpen(es, u, k, op) {
      OpenIff(policy, trajectory, es, k, op);
    }
    if OthersWait(es) {
      forall k, op | 0 <= k < |es| && Executes(es[k]) ensures !Unresolved(es, k, op) {
        if op != es[k].op { NothingLeftOpen(es, k, op); }
      }
    } else {
      var u, k := SomeoneGoesOn(es);
      assert Unresolved(es, k, es[u].op);
    }
  }

  lemma NothingLeftOpen(es: seq<Event>, k: nat, op: Id)
    requires OthersWait(es) && k < |es| && Executes(es[k]) && op != es[k].op
    ensures forall u: nat :: !LeftOpen(es, u, k, op)
  {
  }

  lemma SomeoneGoesOn(es: seq<Event>) returns (u: nat, k: nat)
    requires !OthersWait(es)
    ensures u < k < |es| && Executes(es[k]) && LeftOpen(es, u, k, es[u].op)
  {
    u, k :| u < k < |es| && Observes(es[u]) && !Settles(es[u]) && Executes(es[k]) && es[u].op != es[k].op
            && forall r :: u < r < k && es[r].op == es[u].op ==> !Settles(es[r]);
  }

  // ------------------------------------------------------------------------ witnesses

  function Of(op: Id, action: Action): Event {
    Event(op, "t", "s", action)
  }

  function Read(x: Id, reading: Reading, retry: bool): Action {
    Reconcile(x, "k", "r", reading, retry)
  }

  /** What makes a single event of the witnesses faultless. */
  lemma Faultless(policy: Policy, trajectory: Id, es: seq<Event>, k: nat)
    requires k < |es| && es[k].trajectory == trajectory
    requires es[k].action.Authorize? || Executes(es[k]) || Observes(es[k])
    requires es[k].action.Authorize? ==> Segment(es, k, es[k].op) == None
    requires Executes(es[k]) ==> ExecutionFaults(es, k) == []
    requires Observes(es[k]) ==> BoundTo(es, k, es[k].action.execution)
    ensures FaultsAt(policy, trajectory, es, k) == []
  {
    hide Segment, ExecutionFaults, BoundTo;
  }

  function Redispatched(): seq<Event> {
    [Of("o", Authorize), Of("o", Dispatch("x")), Of("o", Dispatch("y"))]
  }

  lemma RedispatchExecutes(es: seq<Event>)
    requires es == Redispatched()
    ensures Segment(es, 0, "o") == None && ExecutionFaults(es, 1) == [] && ExecutionFaults(es, 2) == []
  {
    assert es[0].op == "o" && es[0].action.Authorize?;
    assert Authorized(es, 1, "o") && Authorized(es, 2, "o");
    assert LastUse(es, 1, "x") == -1 && LastUse(es, 2, "y") == -1;
    assert Segment(es, 1, "o") == Some("s") && Segment(es, 2, "o") == Some("s");
    assert LastObservation(es, 1, "o") == -1 && LastObservation(es, 2, "o") == -1;
    hide LastUse, Segment, LastObservation, Authorized, LastExecution, LastRetry;
  }

  /** Two dispatches of one authorized operation, with nothing observed between them. */
  lemma UnwatchedRedispatch(policy: Policy)
    ensures Clean(policy, "t", Redispatched()) && Consecutive(Redispatched(), 1, 2, "o")
    ensures !Watched(Redispatched(), 1, 2) && !Spent(Redispatched(), 1, 2)
  {
    hide FaultsAt, ExecutionFaults, Segment;
    var es := Redispatched();
    RedispatchExecutes(es);
    Faultless(policy, "t", es, 0);
    Faultless(policy, "t", es, 1);
    Faultless(policy, "t", es, 2);
  }

  function ReplacedCommit(): seq<Event> {
    [Of("o", Authorize), Of("o", Dispatch("x")), Of("o", Read("x", Settled(Committed), false)),
     Of("o", Read("x", Settled(Failed), true)), Of("o", Retry("y", Some("x"))),
     Of("o", Read("y", Settled(Committed), false))]
  }

  /** The history of that trace, event by event. */
  lemma ReplacedCommitHistory(es: seq<Event>)
    requires es == ReplacedCommit()
    ensures LastExecution(es, 1, "o") == -1 && LastUse(es, 1, "x") == -1 && Segment(es, 1, "o") == Some("s")
    ensures forall n :: 2 <= n <= 4 ==> LastExecution(es, n, "o") == 1 && LastUse(es, n, "x") == 1
    ensures forall n :: 1 <= n <= 5 ==> Segment(es, n, "o") == Some("s")
    ensures LastUse(es, 4, "y") == -1 && LastExecution(es, 5, "o") == 4 && LastUse(es, 5, "y") == 4
  {
    assert LastExecution(es, 2, "o") == 1 && LastExecution(es, 3, "o") == 1;
    assert LastUse(es, 2, "x") == 1 && LastUse(es, 3, "x") == 1;
    assert LastUse(es, 2, "y") == -1 && LastUse(es, 3, "y") == -1;
    assert Segment(es, 2, "o") == Some("s");
    assert Segment(es, 3, "o") == Some("s");
    assert Segment(es, 4, "o") == Some("s");
  }

  lemma ReplacedCommitReadings(es: seq<Event>)
    requires es == ReplacedCommit()
    ensures LastObservation(es, 1, "o") == -1 && LastObservation(es, 4, "o") == 3 && LastRetry(es, 4, "o") == -1
    ensures BoundTo(es, 2, "x") && BoundTo(es, 3, "x") && BoundTo(es, 5, "y")
  {
    ReplacedCommitHistory(es);
    hide LastExecution, LastUse, Segment;
    assert BoundTo(es, 3, "x") && BoundTo(es, 2, "x") && BoundTo(es, 5, "y");
    hide BoundTo;
    assert LastRetry(es, 2, "o") == -1;
    assert LastRetry(es, 3, "o") == -1;
  }

  lemma ReplacedCommitExecutes(policy: Policy, es: seq<Event>)
    requires es == ReplacedCommit()
    ensures ExecutionFaults(es, 1) == [] && ExecutionFaults(es, 4) == []
  {
    ReplacedCommitHistory(es);
    ReplacedCommitReadings(es);
    hide LastExecution, LastUse, Segment, LastObservation, LastRetry, BoundTo;
    assert es[0].op == "o" && es[0].action.Authorize?;
    assert Authorized(es, 1, "o") && Authorized(es, 4, "o");
    hide Authorized;
    assert !Unresolved(es, 1, "o") && Standing(es, 1, "o") == None;
    assert !Unresolved(es, 4, "o") && Standing(es, 4, "o") == Some(Failed) && Granted(es, 4, "o");
    hide Unresolved, Standing, Granted;
  }

  /** A commitment overturned by a later reading that grants a retry: two executions of one operation are
      read as committed. */
  lemma CommitReplaced(policy: Policy)
    ensures Clean(policy, "t", ReplacedCommit()) && !AtMostOneEffect(ReplacedCommit(), "o")
  {
    hide FaultsAt, ExecutionFaults, BoundTo, LastExecution, LastUse, LastObservation, LastRetry;
    var es := ReplacedCommit();
    ReplacedCommitReadings(es);
    ReplacedCommitExecutes(policy, es);
    Faultless(policy, "t", es, 0);
    Faultless(policy, "t", es, 1);
    Faultless(policy, "t", es, 2);
    Faultless(policy, "t", es, 3);
    Faultless(policy, "t", es, 4);
    Faultless(policy, "t", es, 5);
    assert Commits(es, 2, "o") && Commits(es, 5, "o");
  }

  function TwoOperations(): seq<Event> {
    [Of("a", Authorize), Of("b", Authorize), Of("a", Dispatch("x")), Of("a", Ambiguous("x")), Of("b", Dispatch("y"))]
  }

  lemma TwoOperationsHistory(es: seq<Event>)
    requires es == TwoOperations()
    ensures forall n :: 1 <= n <= 4 ==> Segment(es, n, "a") == Some("s") && LastUse(es, n, "y") == -1
    ensures forall n :: 2 <= n <= 4 ==> Segment(es, n, "b") == Some("s") && LastObservation(es, n, "b") == -1
    ensures LastUse(es, 2, "x") == -1 && LastUse(es, 3, "x") == 2 && LastExecution(es, 3, "a") == 2
    ensures LastObservation(es, 2, "a") == -1 && LastObservation(es, 4, "a") == 3 && BoundTo(es, 3, "x")
  {
    assert Segment(es, 1, "a") == Some("s") && Segment(es, 2, "a") == Some("s") && Segment(es, 3, "a") == Some("s");
    assert Segment(es, 2, "b") == Some("s") && Segment(es, 3, "b") == Some("s");
    assert LastUse(es, 1, "y") == -1 && LastUse(es, 2, "y") == -1 && LastUse(es, 3, "y") == -1;
    assert LastExecution(es, 3, "a") == 2;
    assert BoundTo(es, 3, "x");
    hide BoundTo, Segment, LastUse, LastExecution;
    assert LastObservation(es, 2, "b") == -1 && LastObservation(es, 3, "b") == -1;
    assert LastObservation(es, 2, "a") == -1;
  }

  lemma TwoOperationsExecute(policy: Policy, es: seq<Event>)
    requires es == TwoOperations()
    ensures ExecutionFaults(es, 2) == [] && ExecutionFaults(es, 4) == [] && Unresolved(es, 4, "a")
  {
    TwoOperationsHistory(es);
    hide LastExecution, LastUse, Segment, LastObservation, LastRetry, BoundTo;
    assert es[0].op == "a" && es[0].action.Authorize? && es[1].op == "b" && es[1].action.Authorize?;
    assert Authorized(es, 2, "a") && Authorized(es, 4, "b");
    hide Authorized;
    assert !Unresolved(es, 2, "a") && Standing(es, 2, "a") == None;
    assert !Unresolved(es, 4, "b") && Standing(es, 4, "b") == None && Unresolved(es, 4, "a");
    hide Unresolved, Standing, Granted;
  }

  /** One operation is executed while the outcome of another is open. */
  lemma OtherOperationGoesOn(policy: Policy)
    ensures Clean(policy, "t", TwoOperations()) && Unresolved(TwoOperations(), 4, "a") && Executes(TwoOperations()[4])
  {
    hide FaultsAt, Unresolved, ExecutionFaults, BoundTo, LastExecution, LastUse, LastObservation;
    var es := TwoOperations();
    TwoOperationsExecute(policy, es);
    TwoOperationsHistory(es);
    Faultless(policy, "t", es, 0);
    Faultless(policy, "t", es, 1);
    Faultless(policy, "t", es, 2);
    Faultless(policy, "t", es, 3);
    Faultless(policy, "t", es, 4);
  }
}
