/** The result of a trajectory scenario: score, counters and invariant flags, and what the flags say of the
    trace. */
module TrajectoryReport {
  import opened EventLog
  import opened Ordering
  import opened Trajectory
  import opened TrajectoryAudit
  import opened TrajectoryFaults

  datatype Code = UnresolvedRedispatchCode | IdentityDriftCode | BoundaryProofCode | TerminalProofCode
                | RedispatchAfterCommitCode | ExecutionIdReusedCode | UnauthorizedCode

  function CodeOf(fault: Fault): Code {
    match fault
    case UnresolvedRedispatch => UnresolvedRedispatchCode
    case RetryNotGranted => UnresolvedRedispatchCode
    case BoundaryWithoutProof => BoundaryProofCode
    case TerminalWithoutProof => TerminalProofCode
    case RedispatchAfterCommit => RedispatchAfterCommitCode
    case ExecutionIdReused => ExecutionIdReusedCode
    case Unauthorized => UnauthorizedCode
    case _ => IdentityDriftCode
  }

  function Penalty(fault: Fault): nat {
    match CodeOf(fault)
    case UnresolvedRedispatchCode => 60
    case RedispatchAfterCommitCode => 60
    case IdentityDriftCode => 50
    case UnauthorizedCode => 50
    case BoundaryProofCode => 45
    case TerminalProofCode => 45
    case ExecutionIdReusedCode => 20
  }

  predicate Critical(fault: Fault) {
    fault != ExecutionIdReused
  }

  predicate Free(log: seq<Violation<Fault>>, code: Code) {
    forall i :: 0 <= i < |log| ==> CodeOf(log[i].fault) != code
  }

  datatype Observed = Observed(events: nat, ambiguousOutcomes: nat, reconciliations: nat, continuityBoundaries: nat,
                               handoffs: nat, unresolvedOperations: seq<Id>)

  datatype Flags = Flags(unknownDoesNotAuthorizeRedispatch: bool, trajectoryIdentityContinuous: bool,
                         proofCarriedAcrossBoundaries: bool, terminalOutcomeBound: bool, committedNotRepeated: bool)

  datatype Report = Report(pass: bool, score: nat, criticalFailure: bool, observed: Observed, flags: Flags,
                           violations: seq<Violation<Fault>>)

  function FlagsOf(log: seq<Violation<Fault>>): Flags {
    Flags(Free(log, UnresolvedRedispatchCode), Free(log, IdentityDriftCode), Free(log, BoundaryProofCode),
          Free(log, TerminalProofCode), Free(log, RedispatchAfterCommitCode))
  }

  /** The verdict on a scenario; one without events is refused. */
  method EvaluateScenario(policy: Policy, trajectory: Id, es: seq<Event>) returns (r: Option<Report>)
    ensures r.Some? <==> es != []
    ensures r.Some? ==> r.value.violations == ViolationsOf(policy, trajectory, es, |es|)
                        && r.value.flags == FlagsOf(r.value.violations)
    ensures r.Some? ==> (r.value.pass <==> Clean(policy, trajectory, es)) && (r.value.score == 100 <==> r.value.pass)
    ensures r.Some? ==> r.value.score == Score(r.value.violations, Penalty, Critical)
                        && (r.value.criticalFailure <==> AnyCritical(r.value.violations, Critical))
                        && (r.value.criticalFailure ==> r.value.score < 50)
    ensures r.Some? ==>
              var o := r.value.observed;
              && o.events == |es| && o.ambiguousOutcomes == CountIf(es, (e: Event) => e.action.Ambiguous?)
              && o.reconciliations == CountIf(es, (e: Event) => e.action.Reconcile?)
              && o.continuityBoundaries == CountIf(es, Continues)
              && o.handoffs == CountIf(es, (e: Event) => e.action.Handoff?)
              && Ascending(o.unresolvedOperations)
              && forall op :: op in o.unresolvedOperations <==> Unresolved(es, |es|, op)
  {
    hide *;
    if es == [] {
      return None;
    }
    var log, _, unresolved := Evaluate(policy, trajectory, es);
    PenaltiesArePositive(log);
    ScoreMeans(log, Penalty, Critical);
    var observed := Observed(
      |es|, CountIf(es, (e: Event) => e.action.Ambiguous?), CountIf(es, (e: Event) => e.action.Reconcile?),
      CountIf(es, Continues), CountIf(es, (e: Event) => e.action.Handoff?), unresolved);
    r := Some(Report(log == [], Score(log, Penalty, Critical), AnyCritical(log, Critical), observed,
                     FlagsOf(log), log));
  }

  lemma PenaltiesArePositive(log: seq<Violation<Fault>>)
    ensures forall i :: 0 <= i < |log| ==> Penalty(log[i].fault) > 0
  {
  }

  // ------------------------------------------------------------------ what the flags say

  /** Event `k` breaks continuity: another trajectory, another segment, or another execution than the latest. */
  ghost predicate Strays(trajectory: Id, es: seq<Event>, k: nat)
    requires k < |es|
  {
    var e, op := es[k], es[k].op;
    || e.trajectory != trajectory
    || ((e.action.Authorize? || Executes(e) || e.action.Stop?) && Moved(es, k))
    || (e.action.Retry?
        && !exists i: nat :: AttemptAt(es, k, op, i) && e.action.retryOf == Some(es[i].action.execution))
    || ((Observes(e) || e.action.Crash?) && !Bound(es, k, e.action.execution))
    || (Continues(e) && !Continuous(es, k))
    || (e.action.Terminal? && Segment(es, k, op) != Some(e.segment))
  }

  /** An execution goes ahead although the last observation of its operation is open, or retries an outcome
      that was settled without effect and without a grant. */
  ghost predicate GoesAheadOpen(es: seq<Event>, k: nat)
    requires k < |es|
  {
    var op := es[k].op;
    && Executes(es[k])
    && ((exists u: nat :: WordAt(es, k, op, u) && !Settles(es[u]))
        || (es[k].action.Retry?
            && exists r: nat :: StandsAt(es, k, op, r) && es[r].action.reading.outcome != Committed
                                && !es[r].action.retryFlag))
  }

  /** An execution repeats an operation whose commitment stands. */
  ghost predicate RepeatsCommitted(es: seq<Event>, k: nat)
    requires k < |es|
  {
    Executes(es[k]) && exists r: nat :: StandsAt(es, k, es[k].op, r) && es[r].action.reading.outcome == Committed
  }

  predicate DropsProof(policy: Policy, es: seq<Event>, k: nat)
    requires k < |es|
  {
    Continues(es[k]) && policy.requirePredecessorProof && es[k].action.proof == None
  }

  /** A terminal claim that no standing reconciliation bears out. */
  ghost predicate Unbacked(policy: Policy, es: seq<Event>, k: nat)
    requires k < |es|
  {
    es[k].action.Terminal? && !exists r: nat :: StandsAt(es, k, es[k].op, r) && Backs(policy, es[r], es[k])
  }

  ghost predicate Used(es: seq<Event>, k: nat)
    requires k < |es|
  {
    Executes(es[k]) && exists i: nat :: i < k && Uses(es, i, es[k].action.execution)
  }

  ghost predicate Unasked(es: seq<Event>, k: nat)
    requires k < |es|
  {
    Executes(es[k]) && forall i :: 0 <= i < k && es[i].op == es[k].op ==> !es[i].action.Authorize?
  }

  /** What each code is about. */
  ghost predicate Offends(policy: Policy, trajectory: Id, es: seq<Event>, k: nat, code: Code)
    requires k < |es|
  {
    match code
    case UnresolvedRedispatchCode => GoesAheadOpen(es, k)
    case IdentityDriftCode => Strays(trajectory, es, k)
    case BoundaryProofCode => DropsProof(policy, es, k)
    case TerminalProofCode => Unbacked(policy, es, k)
    case RedispatchAfterCommitCode => RepeatsCommitted(es, k)
    case ExecutionIdReusedCode => Used(es, k)
    case UnauthorizedCode => Unasked(es, k)
  }

  lemma OffendsIff(policy: Policy, trajectory: Id, es: seq<Event>, k: nat, code: Code)
    requires k < |es|
    ensures Offends(policy, trajectory, es, k, code) <==>
            exists x :: CodeOf(x) == code && Earns(policy, trajectory, es, k, x)
  {
    hide Moved, Bound, Continuous, Segment, AttemptAt, WordAt, StandsAt, Uses;
    if Offends(policy, trajectory, es, k, code) {
      var x := FaultOf(trajectory, es, k, code);
      assert CodeOf(x) == code && Earns(policy, trajectory, es, k, x);
    }
  }

  /** The fault by which event `k` offends. */
  ghost function FaultOf(trajectory: Id, es: seq<Event>, k: nat, code: Code): Fault
    requires k < |es|
  {
    var e := es[k];
    match code
    case UnresolvedRedispatchCode =>
      if exists u: nat :: WordAt(es, k, e.op, u) && !Settles(es[u]) then UnresolvedRedispatch else RetryNotGranted
    case IdentityDriftCode =>
      if e.trajectory != trajectory then TrajectoryDrift
      else if Executes(e) then if Moved(es, k) then ExecutionOutsideSegment else RetryUnbound
      else if Continues(e) then BoundaryUnbound
      else if e.action.Authorize? then AuthorizationMoved
      else if e.action.Ambiguous? then AmbiguousUnbound
      else if e.action.Crash? then CrashUnbound
      else if e.action.Reconcile? then ReconcileUnbound
      else if e.action.Terminal? then TerminalOutsideSegment
      else StopOutsideSegment
    case BoundaryProofCode => BoundaryWithoutProof
    case TerminalProofCode => TerminalWithoutProof
    case RedispatchAfterCommitCode => RedispatchAfterCommit
    case ExecutionIdReusedCode => ExecutionIdReused
    case UnauthorizedCode => Unauthorized
  }

  /** A code is absent from the log exactly when no event offends in its way. */
  lemma FreeIff(policy: Policy, trajectory: Id, es: seq<Event>, code: Code)
    ensures Free(ViolationsOf(policy, trajectory, es, |es|), code) <==>
            forall k :: 0 <= k < |es| ==> !Offends(policy, trajectory, es, k, code)
  {
    hide Earns, ViolationsOf, CodeOf, Offends;
    LogHolds(policy, trajectory, es, |es|);
    var log := ViolationsOf(policy, trajectory, es, |es|);
    forall k | 0 <= k < |es| && Free(log, code) ensures !Offends(policy, trajectory, es, k, code) {
      OffendsIff(policy, trajectory, es, k, code);
      forall x | CodeOf(x) == code ensures !Earns(policy, trajectory, es, k, x) {
        FreeMeansNone(log, code, Violation(x, k + 1));
      }
    }
    if !Free(log, code) {
      var i :| 0 <= i < |log| && CodeOf(log[i].fault) == code;
      assert log[i] in log;
      OffendsIff(policy, trajectory, es, log[i].eventSeq - 1, code);
    }
  }

  lemma FreeMeansNone(log: seq<Violation<Fault>>, code: Code, v: Violation<Fault>)
    requires Free(log, code) && CodeOf(v.fault) == code
    ensures v !in log
  {
  }

  /** On every trace, clean or not, a flag holds exactly when no event does what it is about. */
  lemma FlagsMean(policy: Policy, trajectory: Id, es: seq<Event>)
    ensures var flags := FlagsOf(ViolationsOf(policy, trajectory, es, |es|));
            && (flags.trajectoryIdentityContinuous <==> forall k :: 0 <= k < |es| ==> !Strays(trajectory, es, k))
            && (flags.unknownDoesNotAuthorizeRedispatch <==> forall k :: 0 <= k < |es| ==> !GoesAheadOpen(es, k))
            && (flags.committedNotRepeated <==> forall k :: 0 <= k < |es| ==> !RepeatsCommitted(es, k))
            && (flags.proofCarriedAcrossBoundaries <==> forall k :: 0 <= k < |es| ==> !DropsProof(policy, es, k))
            && (flags.terminalOutcomeBound <==> forall k :: 0 <= k < |es| ==> !Unbacked(policy, es, k))
  {
    hide ViolationsOf, Free, Strays, GoesAheadOpen, RepeatsCommitted, DropsProof, Unbacked, Used, Unasked;
    FreeIff(policy, trajectory, es, IdentityDriftCode);
    FreeIff(policy, trajectory, es, UnresolvedRedispatchCode);
    FreeIff(policy, trajectory, es, RedispatchAfterCommitCode);
    FreeIff(policy, trajectory, es, BoundaryProofCode);
    FreeIff(policy, trajectory, es, TerminalProofCode);
    forall k | 0 <= k < |es|
      ensures Offends(policy, trajectory, es, k, IdentityDriftCode) <==> Strays(trajectory, es, k)
      ensures Offends(policy, trajectory, es, k, UnresolvedRedispatchCode) <==> GoesAheadOpen(es, k)
      ensures Offends(policy, trajectory, es, k, RedispatchAfterCommitCode) <==> RepeatsCommitted(es, k)
      ensures Offends(policy, trajectory, es, k, BoundaryProofCode) <==> DropsProof(policy, es, k)
      ensures Offends(policy, trajectory, es, k, TerminalProofCode) <==> Unbacked(policy, es, k)
    {
    }
    hide Offends;
  }

  // ------------------------------------------------------------------- what a log costs

  predicate Is(code: Code, v: Violation<Fault>) {
    CodeOf(v.fault) == code
  }

  function CountCode(log: seq<Violation<Fault>>, code: Code): nat {
    CountIf(log, (v: Violation<Fault>) => Is(code, v))
  }

  /** Sixty for each execution over an open or committed outcome, fifty for each break of identity and each
      execution without authorization, forty-five for each missing proof, twenty for each name used again;
      everything but the last is critical. */
  lemma {:induction false} LogCosts(log: seq<Violation<Fault>>)
    ensures Total(log, Penalty)
         == 60 * (CountCode(log, UnresolvedRedispatchCode) + CountCode(log, RedispatchAfterCommitCode))
            + 50 * (CountCode(log, IdentityDriftCode) + CountCode(log, UnauthorizedCode))
            + 45 * (CountCode(log, BoundaryProofCode) + CountCode(log, TerminalProofCode))
            + 20 * CountCode(log, ExecutionIdReusedCode)
    ensures AnyCritical(log, Critical) <==> CountCode(log, ExecutionIdReusedCode) < |log|
  {
    hide CountCode, Total, AnyCritical;
    if log == [] {
      NothingCosts();
    } else {
      var n := |log| - 1;
      LogCosts(log[..n]);
      TotalNext(log, Penalty);
      CriticalNext(log);
      forall code ensures CountCode(log, code) == CountCode(log[..n], code) + if Is(code, log[n]) then 1 else 0 {
        CountNext(log, code);
      }
    }
  }

  lemma NothingCosts()
    ensures Total<Fault>([], Penalty) == 0 && !AnyCritical<Fault>([], Critical)
    ensures forall code :: CountCode([], code) == 0
  {
  }

  lemma CountNext(log: seq<Violation<Fault>>, code: Code)
    requires log != []
    ensures var n := |log| - 1;
            CountCode(log, code) == CountCode(log[..n], code) + if Is(code, log[n]) then 1 else 0
    ensures CountCode(log, code) <= |log|
  {
  }

  lemma CriticalNext(log: seq<Violation<Fault>>)
    requires log != []
    ensures AnyCritical(log, Critical) <==> AnyCritical(log[..|log| - 1], Critical) || Critical(log[|log| - 1].fault)
    ensures CountCode(log[..|log| - 1], ExecutionIdReusedCode) <= |log| - 1
  {
  }
}
