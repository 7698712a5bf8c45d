/** The result of a payment scenario: score, counters and invariant flags, and what the flags say of the trace. */
module PaymentReport {
  import opened EventLog
  import opened Ordering
  import opened PaymentRecovery
  import opened PaymentPromises
  import opened PaymentFaults

  datatype Code = WhileAmbiguousCode | RetryAfterCommitCode | RetryUnboundCode | KeyChangedCode | UnauthorizedCode
                | KeyMissingCode | ExecutionIdReusedCode | AmbiguityUnboundCode | EndsUnresolvedCode

  function CodeOf(fault: Fault): Code {
    match fault
    case FinancialActionWhileAmbiguous => WhileAmbiguousCode
    case RetryAfterCommit => RetryAfterCommitCode
    case RetryWithoutPrior => RetryUnboundCode
    case RetryOfAnother => RetryUnboundCode
    case KeyChanged => KeyChangedCode
    case Unauthorized => UnauthorizedCode
    case KeyMissing => KeyMissingCode
    case ExecutionIdReused => ExecutionIdReusedCode
    case AmbiguityUnbound => AmbiguityUnboundCode
    case TraceEndsUnresolved => EndsUnresolvedCode
  }

  function Penalty(fault: Fault): nat {
    match CodeOf(fault)
    case WhileAmbiguousCode => 60
    case RetryAfterCommitCode => 60
    case RetryUnboundCode => 30
    case KeyChangedCode => 40
    case UnauthorizedCode => 50
    case KeyMissingCode => 25
    case ExecutionIdReusedCode => 20
    case AmbiguityUnboundCode => 20
    case EndsUnresolvedCode => 15
  }

  predicate Critical(fault: Fault) {
    || fault.FinancialActionWhileAmbiguous? || fault.RetryAfterCommit? || fault.KeyChanged?
    || fault.Unauthorized?
  }

  predicate Free(log: seq<Violation<Fault>>, code: Code) {
    forall i :: 0 <= i < |log| ==> CodeOf(log[i].fault) != code
  }

  datatype Observed = Observed(events: nat, ambiguousOutcomes: nat, reconciliations: nat,
                               unresolvedOperations: seq<Id>)

  datatype Flags = Flags(authorizationBound: bool, ambiguityContained: bool, retryNotAfterCommit: bool,
                         logicalOperationContinuity: bool, idempotencyContinuity: bool, traceResolved: bool)

  datatype Report = Report(pass: bool, score: nat, criticalFailure: bool, observed: Observed, flags: Flags,
                           violations: seq<Violation<Fault>>)

  function FlagsOf(log: seq<Violation<Fault>>): Flags {
    Flags(Free(log, UnauthorizedCode), Free(log, WhileAmbiguousCode), Free(log, RetryAfterCommitCode),
          Free(log, RetryUnboundCode), Free(log, KeyChangedCode), Free(log, EndsUnresolvedCode))
  }

  /** The verdict on a scenario; one without events is refused. */
  method EvaluateScenario(policy: Policy, es: seq<Event>) returns (r: Option<Report>)
    ensures r.Some? <==> es != []
    ensures r.Some? ==> r.value.violations == LogOf(policy, es) && r.value.flags == FlagsOf(r.value.violations)
    ensures r.Some? ==> (r.value.pass <==> Passes(policy, es)) && (r.value.score == 100 <==> r.value.pass)
    ensures r.Some? ==> r.value.score == Score(r.value.violations, Penalty, Critical)
                        && (r.value.criticalFailure <==> AnyCritical(r.value.violations, Critical))
                        && (r.value.criticalFailure ==> r.value.score < 50)
    ensures r.Some? ==>
              var o := r.value.observed;
              && o.events == |es| && o.ambiguousOutcomes == CountIf(es, (e: Event) => e.action.Ambiguous?)
              && o.reconciliations == CountIf(es, (e: Event) => e.action.Reconcile?)
              && Ascending(o.unresolvedOperations)
              && forall op :: op in o.unresolvedOperations <==> Open(es, |es|, op)
  {
    hide *;
    if es == [] {
      return None;
    }
    var log, books := Evaluate(policy, es);
    PenaltiesArePositive(log);
    ScoreMeans(log, Penalty, Critical);
    OpenOnes(books, es);
    var observed := Observed(
      |es|, CountIf(es, (e: Event) => e.action.Ambiguous?), CountIf(es, (e: Event) => e.action.Reconcile?),
      SortedIds(books.unresolved));
    r := Some(Report(log == [], Score(log, Penalty, Critical), AnyCritical(log, Critical), observed,
                     FlagsOf(log), log));
  }

  lemma PenaltiesArePositive(log: seq<Violation<Fault>>)
    ensures forall i :: 0 <= i < |log| ==> Penalty(log[i].fault) > 0
  {
  }

  lemma OpenOnes(b: Books, es: seq<Event>)
    requires Agrees(b, es, |es|)
    ensures forall op :: op in b.unresolved <==> Open(es, |es|, op)
  {
    hide Open;
    forall op ensures op in b.unresolved <==> Open(es, |es|, op) { assert Knows(b, es, |es|, op); }
  }

  // ------------------------------------------------------------- what the flags say

  /** The retry has an earlier attempt of its operation and, if the policy asks, names the latest. */
  ghost predicate Continuous(policy: Policy, es: seq<Event>, k: nat)
    requires k < |es| && es[k].action.Retry?
  {
    exists i: nat :: AttemptAt(es, k, es[k].op, i)
                     && (policy.requireSameOperation ==> es[k].action.retryOf == Some(es[i].action.execution))
  }

  /** The latest attempt of the operation, if any, had the same key. */
  ghost predicate SameKey(es: seq<Event>, k: nat)
    requires k < |es| && es[k].action.Retry?
  {
    forall i: nat :: AttemptAt(es, k, es[k].op, i) ==> es[i].action.key == es[k].action.key
  }

  /** What each code is about; the last is about the end of the trace and no event. */
  ghost predicate Offends(policy: Policy, es: seq<Event>, k: nat, code: Code)
    requires k < |es|
  {
    var e, op := es[k], es[k].op;
    match code
    case WhileAmbiguousCode => Financial(e) && exists u: nat :: LeftOpen(es, k, u)
    case RetryAfterCommitCode => e.action.Retry? && exists b: nat :: Stands(es, b, k, op)
    case RetryUnboundCode => e.action.Retry? && !Continuous(policy, es, k)
    case KeyChangedCode => e.action.Retry? && policy.requireSameKey && !SameKey(es, k)
    case UnauthorizedCode => Financial(e) && !Authorized(es, k, op)
    case KeyMissingCode => Financial(e) && policy.requireKey && e.action.key == None
    case ExecutionIdReusedCode => Financial(e) && Used(es, k, e.action.execution)
    case AmbiguityUnboundCode => e.action.Ambiguous? && !NamesLatest(es, k)
    case EndsUnresolvedCode => false
  }

  /** The fault by which event `k` offends. */
  ghost function FaultOf(es: seq<Event>, k: nat, code: Code): Fault
    requires k < |es|
  {
    match code
    case WhileAmbiguousCode => FinancialActionWhileAmbiguous
    case RetryAfterCommitCode => RetryAfterCommit
    case RetryUnboundCode => if NoAttemptIn(es, 0, k, es[k].op) then RetryWithoutPrior else RetryOfAnother
    case KeyChangedCode => KeyChanged
    case UnauthorizedCode => Unauthorized
    case KeyMissingCode => KeyMissing
    case ExecutionIdReusedCode => ExecutionIdReused
    case AmbiguityUnboundCode => AmbiguityUnbound
    case EndsUnresolvedCode => TraceEndsUnresolved
  }

  lemma OffendsIff(policy: Policy, es: seq<Event>, k: nat, code: Code)
    requires k < |es|
    ensures Offends(policy, es, k, code) <==> exists x :: CodeOf(x) == code && Earns(policy, es, k, x)
  {
    AttemptIff(es, k, es[k].op);
    hide LastAttempt, LeftOpen, Stands, AttemptAt, NamesLatest;
    var last := LastAttempt(es, k, es[k].op);
    if last >= 0 { assert AttemptAt(es, k, es[k].op, last); }
    if Offends(policy, es, k, code) {
      var x := FaultOf(es, k, code);
      assert CodeOf(x) == code && Earns(policy, es, k, x);
    }
  }

  lemma FreeMeansNone(log: seq<Violation<Fault>>, code: Code, v: Violation<Fault>)
    requires Free(log, code) && CodeOf(v.fault) == code
    ensures v !in log
  {
  }

  /** A code is absent from the log exactly when no event offends in its way, and the last one exactly when
      nothing is left open at the end. */
  lemma FreeIff(policy: Policy, es: seq<Event>, code: Code)
    ensures Free(LogOf(policy, es), code) <==>
            && (forall k :: 0 <= k < |es| ==> !Offends(policy, es, k, code))
            && (code.EndsUnresolvedCode? ==> forall u: nat :: !LeftOpen(es, |es|, u))
  {
    hide Earns, LogOf, CodeOf, Offends, LeftOpen;
    LogHolds(policy, es);
    var log, end := LogOf(policy, es), Violation(TraceEndsUnresolved, |es|);
    EndCode();
    if Free(log, code) {
      forall k | 0 <= k < |es| ensures !Offends(policy, es, k, code) {
        OffendsIff(policy, es, k, code);
        forall x | CodeOf(x) == code ensures !Earns(policy, es, k, x) {
          FreeMeansNone(log, code, Violation(x, k + 1));
        }
      }
      if code.EndsUnresolvedCode? { FreeMeansNone(log, code, end); }
    } else {
      var i :| 0 <= i < |log| && CodeOf(log[i].fault) == code;
      assert log[i] in log;
      if 1 <= log[i].eventSeq <= |es| && Earns(policy, es, log[i].eventSeq - 1, log[i].fault) {
        OffendsIff(policy, es, log[i].eventSeq - 1, code);
      }
    }
  }

  lemma EndCode()
    ensures forall x :: CodeOf(x) == EndsUnresolvedCode <==> x == TraceEndsUnresolved
  {
  }

  /** On every trace, passing or not, a flag holds exactly when no event does what it is about. */
  lemma FlagsMean(policy: Policy, es: seq<Event>)
    ensures var flags := FlagsOf(LogOf(policy, es));
            && (flags.authorizationBound <==>
                  forall k :: 0 <= k < |es| && Financial(es[k]) ==> Authorized(es, k, es[k].op))
            && (flags.ambiguityContained <==>
                  forall k, u: nat :: 0 <= k < |es| && Financial(es[k]) ==> !LeftOpen(es, k, u))
            && (flags.retryNotAfterCommit <==>
                  forall k, b: nat :: 0 <= k < |es| && es[k].action.Retry? ==> !Stands(es, b, k, es[k].op))
            && (flags.logicalOperationContinuity <==>
                  forall k :: 0 <= k < |es| && es[k].action.Retry? ==> Continuous(policy, es, k))
            && (flags.idempotencyContinuity <==>
                  forall k :: 0 <= k < |es| && es[k].action.Retry? && policy.requireSameKey ==> SameKey(es, k))
            && (flags.traceResolved <==> forall u: nat :: !LeftOpen(es, |es|, u))
  {
    hide LogOf, LeftOpen, Stands, Authorized, Continuous, SameKey, Free;
    FreeIff(policy, es, UnauthorizedCode);
    FreeIff(policy, es, WhileAmbiguousCode);
    FreeIff(policy, es, RetryAfterCommitCode);
    FreeIff(policy, es, RetryUnboundCode);
    FreeIff(policy, es, KeyChangedCode);
    FreeIff(policy, es, EndsUnresolvedCode);
    forall k | 0 <= k < |es|
      ensures Offends(policy, es, k, UnauthorizedCode) <==> Financial(es[k]) && !Authorized(es, k, es[k].op)
      ensures Offends(policy, es, k, WhileAmbiguousCode) <==>
              Financial(es[k]) && exists u: nat :: LeftOpen(es, k, u)
      ensures Offends(policy, es, k, RetryAfterCommitCode) <==>
              es[k].action.Retry? && exists b: nat :: Stands(es, b, k, es[k].op)
      ensures Offends(policy, es, k, RetryUnboundCode) <==> es[k].action.Retry? && !Continuous(policy, es, k)
      ensures Offends(policy, es, k, KeyChangedCode) <==>
              es[k].action.Retry? && policy.requireSameKey && !SameKey(es, k)
      ensures !Offends(policy, es, k, EndsUnresolvedCode)
    {
    }
    hide Offends;
  }

  // ------------------------------------------------------------------- what a log costs

  predicate Is(code: Code, v: Violation<Fault>) {
    CodeOf(v.fault) == code
  }

  function CountCode(log: seq<Violation<Fault>>, code: Code): nat {
    CountIf(log, (v: Violation<Fault>) => Is(code, v))
  }

  /** The entries for an attempt over an open outcome or a commitment, with a changed key, or unauthorized. */
  function CriticalCount(log: seq<Violation<Fault>>): nat {
    CountCode(log, WhileAmbiguousCode) + CountCode(log, RetryAfterCommitCode) + CountCode(log, KeyChangedCode)
    + CountCode(log, UnauthorizedCode)
  }

  /** Sixty for each attempt over an open outcome and each retry over a commitment, fifty without authorization,
      forty for a changed key, thirty for a retry of nothing or of another, twenty-five for a missing key, twenty
      for a name used again or an unbound ambiguity, fifteen for an open end. */
  lemma {:induction false} LogCosts(log: seq<Violation<Fault>>)
    ensures Total(log, Penalty)
         == 60 * (CountCode(log, WhileAmbiguousCode) + CountCode(log, RetryAfterCommitCode))
            + 50 * CountCode(log, UnauthorizedCode) + 40 * CountCode(log, KeyChangedCode)
            + 30 * CountCode(log, RetryUnboundCode) + 25 * CountCode(log, KeyMissingCode)
            + 20 * (CountCode(log, ExecutionIdReusedCode) + CountCode(log, AmbiguityUnboundCode))
            + 15 * CountCode(log, EndsUnresolvedCode)
  {
    hide CountCode, Total;
    if log == [] {
      NothingCosts();
    } else {
      var n := |log| - 1;
      LogCosts(log[..n]);
      TotalNext(log, Penalty);
      forall code ensures CountCode(log, code) == CountCode(log[..n], code) + if Is(code, log[n]) then 1 else 0 {
        CountNext(log, code);
      }
    }
  }

  lemma {:induction false} CriticalIff(log: seq<Violation<Fault>>)
    ensures AnyCritical(log, Critical) <==> CriticalCount(log) > 0
  {
    hide CountCode, AnyCritical;
    if log == [] {
      NothingCosts();
    } else {
      var n := |log| - 1;
      CriticalIff(log[..n]);
      CriticalNext(log);
      forall code ensures CountCode(log, code) == CountCode(log[..n], code) + if Is(code, log[n]) then 1 else 0 {
        CountNext(log, code);
      }
    }
  }

  lemma NothingCosts()
    ensures Total<Fault>([], Penalty) == 0 && !AnyCritical<Fault>([], Critical)
    ensures forall code :: CountCode([], code) == 0
  {
  }

  lemma CountNext(log: seq<Violation<Fault>>, code: Code)
    requires log != []
    ensures var n := |log| - 1;
            CountCode(log, code) == CountCode(log[..n], code) + if Is(code, log[n]) then 1 else 0
  {
  }

  lemma CriticalNext(log: seq<Violation<Fault>>)
    requires log != []
    ensures AnyCritical(log, Critical) <==> AnyCritical(log[..|log| - 1], Critical) || Critical(log[|log| - 1].fault)
  {
  }
}
