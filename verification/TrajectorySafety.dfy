/** What a violation-free trajectory guarantees over the whole run. */
module TrajectorySafety {
  import opened Ordering
  import opened Trajectory
  import opened TrajectoryAudit

  // ------------------------------------------------------ events between events

  ghost predicate NoExecutionIn(es: seq<Event>, from: nat, to: nat, op: Id)
    requires to <= |es|
  {
    forall k :: from <= k < to && es[k].op == op ==> !Executes(es[k])
  }

  ghost predicate NoObservationIn(es: seq<Event>, from: nat, to: nat, op: Id)
    requires to <= |es|
  {
    forall k :: from <= k < to && es[k].op == op ==> !Observes(es[k])
  }

  lemma {:induction false} LastExecutionIs(es: seq<Event>, i: nat, n: nat, op: Id)
    requires i < n <= |es| && es[i].op == op && Executes(es[i]) && NoExecutionIn(es, i + 1, n, op)
    ensures LastExecution(es, n, op) == i
  {
    if i + 1 < n { LastExecutionIs(es, i, n - 1, op); }
  }

  lemma {:induction false} LastObservationIs(es: seq<Event>, b: nat, n: nat, op: Id)
    requires b < n <= |es| && es[b].op == op && Counts(es, b) && NoObservationIn(es, b + 1, n, op)
    ensures LastObservation(es, n, op) == b
  {
    hide BoundTo;
    if b + 1 < n { LastObservationIs(es, b, n - 1, op); }
  }

  lemma {:induction false} LastRetryIsExecution(es: seq<Event>, n: nat, op: Id)
    requires n <= |es|
    ensures LastRetry(es, n, op) <= LastExecution(es, n, op)
  {
    if n > 0 { LastRetryIsExecution(es, n - 1, op); }
  }

  lemma {:induction false} NothingAfterLast(es: seq<Event>, n: nat, op: Id)
    requires n <= |es|
    ensures NoExecutionIn(es, (LastExecution(es, n, op) + 1) as nat, n, op)
    ensures forall k :: LastObservation(es, n, op) < k < n && es[k].op == op && Observes(es[k]) ==> !Counts(es, k)
  {
    hide BoundTo;
    if n > 0 { NothingAfterLast(es, n - 1, op); }
  }

  // --------------------------------------------------- a clean trace, event by event

  lemma CleanExecution(policy: Policy, trajectory: Id, es: seq<Event>, k: nat)
    requires Clean(policy, trajectory, es) && k < |es| && Executes(es[k])
    ensures LastUse(es, k, es[k].action.execution) < 0 && Authorized(es, k, es[k].op)
    ensures Segment(es, k, es[k].op).Some? ==> Segment(es, k, es[k].op).value == es[k].segment
    ensures !Unresolved(es, k, es[k].op) && Standing(es, k, es[k].op) != Some(Committed)
    ensures es[k].action.Retry? ==> LastExecution(es, k, es[k].op) >= 0
    ensures es[k].action.Retry? ==> es[k].action.retryOf == Some(es[LastExecution(es, k, es[k].op)].action.execution)
    ensures es[k].action.Retry? && Standing(es, k, es[k].op).Some? ==> Granted(es, k, es[k].op)
  {
    hide Unresolved, Standing, Granted, LastExecution, LastUse, Segment, Authorized;
    assert FaultsAt(policy, trajectory, es, k) == [];
    assert ExecutionFaults(es, k) == [];
    var standing := Standing(es, k, es[k].op);
    assert standing == None || standing == Some(standing.value);
    assert standing.Some? ==> standing.value == Committed || standing.value == Failed || standing.value == NoEffect;
  }

  lemma CleanOther(policy: Policy, trajectory: Id, es: seq<Event>, k: nat)
    requires Clean(policy, trajectory, es) && k < |es|
    ensures es[k].trajectory == trajectory
    ensures Observes(es[k]) ==> Counts(es, k)
    ensures es[k].action.Crash? ==> BoundTo(es, k, es[k].action.execution)
    ensures Continues(es[k]) ==> BoundaryBound(es, k)
    ensures Continues(es[k]) && policy.requirePredecessorProof ==> es[k].action.proof.Some?
    ensures es[k].action.Terminal? ==> Segment(es, k, es[k].op) == Some(es[k].segment) && Proved(policy, es, k)
    ensures es[k].action.Authorize? || es[k].action.Stop? ==>
              (Segment(es, k, es[k].op).Some? ==> Segment(es, k, es[k].op).value == es[k].segment)
  {
    hide BoundTo, BoundaryBound, Proved, Segment, ExecutionFaults;
    assert FaultsAt(policy, trajectory, es, k) == [];
  }

  lemma OutcomesAre(standing: Option<Outcome>)
    ensures standing in {Some(Failed), Some(NoEffect)} <==> standing.Some? && standing != Some(Committed)
  {
    if standing.Some? {
      match standing.value
      case Committed => assert standing == Some(Committed);
      case Failed => assert standing == Some(Failed);
      case NoEffect => assert standing == Some(NoEffect);
    }
  }

  // --------------------------------------------------------- at most one effect

  /** `b` is the last observation of the operation between its executions `i` and `j`. */
  ghost predicate LastWordBetween(es: seq<Event>, i: nat, b: nat, j: nat, op: Id) {
    && i < b < j <= |es| && es[b].op == op && Observes(es[b])
    && NoObservationIn(es, b + 1, j, op)
  }

  /** Two consecutive executions of one operation: the last observation between them, if there is
      one, settled the first as failed or without effect; a retry names the first, and was granted. */
  lemma RedispatchOnlyAfterFailure(policy: Policy, trajectory: Id, es: seq<Event>, i: nat, j: nat)
    requires Clean(policy, trajectory, es) && i < j < |es|
    requires es[i].op == es[j].op && Executes(es[i]) && Executes(es[j]) && NoExecutionIn(es, i + 1, j, es[j].op)
    ensures forall b: nat :: LastWordBetween(es, i, b, j, es[j].op) ==>
              && Settles(es[b]) && es[b].action.reading.outcome != Committed
              && es[b].action.execution == es[i].action.execution
              && (es[j].action.Retry? ==> es[b].action.retryFlag)
    ensures es[j].action.Retry? ==> es[j].action.retryOf == Some(es[i].action.execution)
  {
    var op := es[j].op;
    LastExecutionIs(es, i, j, op);
    CleanExecution(policy, trajectory, es, j);
    forall b: nat | LastWordBetween(es, i, b, j, op)
      ensures Settles(es[b]) && es[b].action.reading.outcome != Committed
      ensures es[b].action.execution == es[i].action.execution
      ensures es[j].action.Retry? ==> es[b].action.retryFlag
    {
      CleanOther(policy, trajectory, es, b);
      LastObservationIs(es, b, j, op);
      LastExecutionIs(es, i, b, op);
    }
  }

  /** The last observation of execution `i`, before the next execution or the end, is a commit. */
  ghost predicate CommitStands(es: seq<Event>, i: nat, b: nat, end: nat) {
    && i < b < end <= |es| && Executes(es[i])
    && LastWordBetween(es, i, b, end, es[i].op)
    && NoExecutionIn(es, i + 1, end, es[i].op)
    && Settles(es[b]) && es[b].action.reading.outcome == Committed
    && (end == |es| || (es[end].op == es[i].op && Executes(es[end])))
  }

  /** A commit that stands is the operation's last execution. */
  lemma CommitIsLast(policy: Policy, trajectory: Id, es: seq<Event>, i: nat, b: nat, end: nat)
    requires Clean(policy, trajectory, es) && CommitStands(es, i, b, end)
    ensures end == |es| && NoExecutionIn(es, i + 1, |es|, es[i].op)
  {
    if end < |es| {
      RedispatchOnlyAfterFailure(policy, trajectory, es, i, end);
    }
  }

  /** One authorized intent, at most one economic effect: two executions of one operation whose
      commits stand are the same execution. */
  lemma AtMostOneStandingCommit(policy: Policy, trajectory: Id, es: seq<Event>,
                                i: nat, b: nat, end: nat, i': nat, b': nat, end': nat)
    requires Clean(policy, trajectory, es)
    requires CommitStands(es, i, b, end) && CommitStands(es, i', b', end') && es[i].op == es[i'].op
    ensures i == i'
  {
    CommitIsLast(policy, trajectory, es, i, b, end);
    CommitIsLast(policy, trajectory, es, i', b', end');
  }

  /** Unknown outcome, no new action: after an observation that leaves the outcome open, the next
      execution of the operation comes only after a reconciliation that settles it. */
  lemma {:induction false} UnknownBlocksExecution(policy: Policy, trajectory: Id, es: seq<Event>, u: nat, j: nat)
    returns (r: nat)
    requires Clean(policy, trajectory, es) && u < j < |es|
    requires Observes(es[u]) && !Settles(es[u])
    requires es[j].op == es[u].op && Executes(es[j])
    ensures u < r < j && es[r].op == es[u].op && Settles(es[r])
    ensures NoExecutionIn(es, u + 1, r, es[u].op)
    decreases j
  {
    var op := es[u].op;
    if k :| u < k < j && es[k].op == op && Executes(es[k]) {
      r := UnknownBlocksExecution(policy, trajectory, es, u, k);
    } else {
      CleanExecution(policy, trajectory, es, j);
      CleanOther(policy, trajectory, es, u);
      NothingAfterLast(es, j, op);
      r := LastObservation(es, j, op);
    }
  }

  // ------------------------------------------------------------- terminal claims

  /** Every terminal claim rests on a reconciliation of the latest execution, with nothing executed
      or observed since; where the policy asks for evidence, the claim repeats that evidence. */
  lemma TerminalIsBacked(policy: Policy, trajectory: Id, es: seq<Event>, t: nat) returns (r: nat)
    requires Clean(policy, trajectory, es) && t < |es| && es[t].action.Terminal?
    ensures r < t && es[r].op == es[t].op && Settles(es[r])
    ensures es[r].action.reading.outcome == es[t].action.outcome
    ensures NoExecutionIn(es, r, t, es[t].op) && NoObservationIn(es, r + 1, t, es[t].op)
    ensures exists i :: 0 <= i < r && es[i].op == es[t].op && Executes(es[i])
                     && es[i].action.execution == es[r].action.execution && NoExecutionIn(es, i + 1, t, es[t].op)
    ensures policy.requireTerminalEvidence ==>
              && es[t].action.kind == Some(es[r].action.evidenceKind)
              && es[t].action.ref == Some(es[r].action.evidenceRef)
              && es[t].segment == es[r].segment
  {
    var op := es[t].op;
    CleanOther(policy, trajectory, es, t);
    StandingNamesLatest(es, t, op);
    r := LastObservation(es, t, op);
    NothingAfterLast(es, t, op);
    forall k | r < k < t && es[k].op == op ensures !Observes(es[k]) {
      CleanOther(policy, trajectory, es, k);
    }
    var i := LastExecution(es, t, op);
    assert i < r;
  }

  // ---------------------------------------------------------------- segment chain

  /** The segment of the first authorization or execution of `op`. */
  ghost function Opening(es: seq<Event>, n: nat, op: Id): Option<Id>
    requires n <= |es|
  {
    if n == 0 then None
    else
      var before, e := Opening(es, n - 1, op), es[n - 1];
      if before == None && e.op == op && (e.action.Authorize? || Executes(e)) then Some(e.segment) else before
  }

  /** The bound continuity boundaries of `op`, each as the segment left and the segment entered. */
  ghost function Hops(es: seq<Event>, n: nat, op: Id): seq<(Id, Id)>
    requires n <= |es|
  {
    if n == 0 then []
    else
      var before, e := Hops(es, n - 1, op), es[n - 1];
      if e.op == op && Continues(e) && BoundaryBound(es, n - 1)
      then before + [(e.action.predecessorSegment.value, e.segment)] else before
  }

  ghost predicate Chained(opening: Option<Id>, hops: seq<(Id, Id)>, current: Option<Id>) {
    && (hops == [] ==> current == opening)
    && (hops != [] ==> opening == Some(hops[0].0) && current == Some(hops[|hops| - 1].1))
    && (forall i :: 0 <= i < |hops| - 1 ==> hops[i].1 == hops[i + 1].0)
  }

  /** The segments of an operation form a chain from the one it opened in to the active one, and
      only boundaries that name the segment left and the latest execution are links in it. */
  lemma {:induction false} SegmentsFormChain(es: seq<Event>, n: nat, op: Id)
    requires n <= |es|
    ensures Chained(Opening(es, n, op), Hops(es, n, op), Segment(es, n, op))
    ensures Opening(es, n, op) == None <==> Segment(es, n, op) == None
  {
    if n > 0 {
      SegmentsFormChain(es, n - 1, op);
      hide Latest;
    }
  }

  lemma SegmentMovesOnlyAtBoundary(policy: Policy, trajectory: Id, es: seq<Event>, n: nat, op: Id)
    requires n < |es| && Segment(es, n, op).Some? && Segment(es, n + 1, op) != Segment(es, n, op)
    ensures es[n].op == op && Continues(es[n]) && Segment(es, n + 1, op) == Some(es[n].segment)
    ensures es[n].action.predecessorSegment == Segment(es, n, op)
    ensures LastExecution(es, n, op) >= 0
         && es[n].action.predecessor == Some(es[LastExecution(es, n, op)].action.execution)
    ensures Clean(policy, trajectory, es) && policy.requirePredecessorProof ==> es[n].action.proof.Some?
  {
    if Clean(policy, trajectory, es) { CleanOther(policy, trajectory, es, n); }
  }

  /** In a clean trace everything an operation does happens in its active segment. */
  lemma CleanStaysInSegment(policy: Policy, trajectory: Id, es: seq<Event>, k: nat)
    requires Clean(policy, trajectory, es) && k < |es|
    ensures Continues(es[k]) ==>
              && Segment(es, k, es[k].op) == es[k].action.predecessorSegment
              && Segment(es, k + 1, es[k].op) == Some(es[k].segment)
    ensures !Continues(es[k]) ==>
              (Segment(es, k, es[k].op).Some? ==> Segment(es, k, es[k].op).value == es[k].segment)
  {
    CleanOther(policy, trajectory, es, k);
    if Executes(es[k]) { CleanExecution(policy, trajectory, es, k); }
  }
}
