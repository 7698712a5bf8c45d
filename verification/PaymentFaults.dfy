/** What earns each fault of a payment trace, on every trace, said of the events themselves, and what the log
    holds. */
module PaymentFaults {
  import opened EventLog
  import opened Ordering
  import opened PaymentRecovery
  import opened PaymentPromises

  /** The attempt at `i` is the latest of `op` before `n`. */
  ghost predicate AttemptAt(es: seq<Event>, n: nat, op: Id, i: nat) {
    i < n <= |es| && es[i].op == op && Financial(es[i]) && NoAttemptIn(es, i + 1, n, op)
  }

  /** The last word on the operation of event `u`, before `n`, is at `u` and leaves its outcome open. */
  ghost predicate LeftOpen(es: seq<Event>, n: nat, u: nat) {
    u < n <= |es| && Speaks(es[u]) && !Settles(es[u]) && NoWordIn(es, u + 1, n, es[u].op)
  }

  /** The ambiguity at `k` names the latest attempt of its operation. */
  ghost predicate NamesLatest(es: seq<Event>, k: nat)
    requires k < |es| && es[k].action.Ambiguous?
  {
    exists i: nat :: AttemptAt(es, k, es[k].op, i) && es[i].action.execution == es[k].action.observed
  }

  /** The attempt at `k` has earned `x`. */
  ghost predicate AttemptEarns(policy: Policy, es: seq<Event>, k: nat, x: Fault)
    requires k < |es| && Financial(es[k])
  {
    var e, op := es[k], es[k].op;
    match x
    case FinancialActionWhileAmbiguous => exists u: nat :: LeftOpen(es, k, u)
    case Unauthorized => forall i :: 0 <= i < k && es[i].op == op ==> !es[i].action.Authorize?
    case ExecutionIdReused => exists i :: 0 <= i < k && Financial(es[i]) && es[i].action.execution == e.action.execution
    case KeyMissing => policy.requireKey && e.action.key == None
    case RetryWithoutPrior => e.action.Retry? && NoAttemptIn(es, 0, k, op)
    case RetryOfAnother =>
      && e.action.Retry? && policy.requireSameOperation
      && exists i: nat :: AttemptAt(es, k, op, i) && e.action.retryOf != Some(es[i].action.execution)
    case KeyChanged =>
      && e.action.Retry? && policy.requireSameKey
      && exists i: nat :: AttemptAt(es, k, op, i) && e.action.key != es[i].action.key
    case RetryAfterCommit => e.action.Retry? && exists b: nat :: Stands(es, b, k, op)
    case _ => false
  }

  /** Event `k` has earned `x`. */
  ghost predicate Earns(policy: Policy, es: seq<Event>, k: nat, x: Fault)
    requires k < |es|
  {
    if Financial(es[k]) then AttemptEarns(policy, es, k, x)
    else x == AmbiguityUnbound && es[k].action.Ambiguous? && !NamesLatest(es, k)
  }

  // ------------------------------------------------------------ what the history says

  lemma {:induction false} LastAttemptAt(es: seq<Event>, i: nat, n: nat, op: Id)
    requires AttemptAt(es, n, op, i)
    ensures LastAttempt(es, n, op) == i
  {
    if i + 1 < n { LastAttemptAt(es, i, n - 1, op); }
  }

  lemma AttemptIff(es: seq<Event>, n: nat, op: Id)
    requires n <= |es|
    ensures forall i: nat :: AttemptAt(es, n, op, i) <==> LastAttempt(es, n, op) == i
    ensures LastAttempt(es, n, op) < 0 <==> NoAttemptIn(es, 0, n, op)
  {
    LastAttemptIs(es, n, op);
    forall i: nat ensures AttemptAt(es, n, op, i) <==> LastAttempt(es, n, op) == i {
      if AttemptAt(es, n, op, i) { LastAttemptAt(es, i, n, op); }
    }
    hide LastAttempt;
  }

  lemma OpenIff(es: seq<Event>, n: nat, op: Id)
    requires n <= |es|
    ensures Open(es, n, op) <==> exists u: nat :: LeftOpen(es, n, u) && es[u].op == op
  {
    hide LastWord;
    NothingSaidSince(es, n, op);
    if Open(es, n, op) { assert LeftOpen(es, n, LastWord(es, n, op)); }
    if u: nat :| LeftOpen(es, n, u) && es[u].op == op { LastWordStays(es, u, n, op); }
  }

  lemma SomeOpenIff(es: seq<Event>, n: nat)
    requires n <= |es|
    ensures (exists op :: Open(es, n, op)) <==> exists u: nat :: LeftOpen(es, n, u)
  {
    hide Open, LeftOpen;
    if op :| Open(es, n, op) { OpenIff(es, n, op); }
    if u: nat :| LeftOpen(es, n, u) {
      LeftOpenIn(es, n, u);
      OpenIff(es, n, es[u].op);
    }
  }

  lemma LeftOpenIn(es: seq<Event>, n: nat, u: nat)
    requires LeftOpen(es, n, u)
    ensures u < |es|
  {
  }

  // -------------------------------------------------------------- what is in the log

  /** The position of a fault among those of one event. */
  function Rank(x: Fault): nat {
    match x
    case FinancialActionWhileAmbiguous => 0
    case Unauthorized => 1
    case ExecutionIdReused => 2
    case KeyMissing => 3
    case RetryWithoutPrior => 4
    case RetryOfAnother => 5
    case KeyChanged => 6
    case RetryAfterCommit => 7
    case AmbiguityUnbound => 8
    case TraceEndsUnresolved => 9
  }

  lemma InFour(a: bool, u: Fault, b: bool, v: Fault, c: bool, w: Fault, d: bool, y: Fault, x: Fault)
    ensures x in When(a, u) + When(b, v) + When(c, w) + When(d, y) <==>
            (a && x == u) || (b && x == v) || (c && x == w) || (d && x == y)
  {
  }

  /** Four faults of rising rank. */
  lemma FourRise(a: bool, u: Fault, b: bool, v: Fault, c: bool, w: Fault, d: bool, y: Fault, lo: nat)
    requires lo <= Rank(u) < Rank(v) < Rank(w) < Rank(y)
    ensures Rising(When(a, u) + When(b, v) + When(c, w) + When(d, y), Rank, lo, Rank(y) + 1)
  {
    hide Rising, When, Rank;
    RisingWhen(a, u, Rank);
    RisingWhen(b, v, Rank);
    RisingWhen(c, w, Rank);
    RisingWhen(d, y, Rank);
    RisingFrom(When(a, u), lo, Rank(u), Rank(u) + 1);
    RisingJoin(When(a, u), When(b, v), Rank, lo, Rank(u) + 1, Rank(v), Rank(v) + 1);
    RisingJoin(When(a, u) + When(b, v), When(c, w), Rank, lo, Rank(v) + 1, Rank(w), Rank(w) + 1);
    RisingJoin(When(a, u) + When(b, v) + When(c, w), When(d, y), Rank, lo, Rank(w) + 1, Rank(y), Rank(y) + 1);
  }

  lemma RisingFrom(xs: seq<Fault>, lo: nat, lo': nat, hi: nat)
    requires lo <= lo' && Rising(xs, Rank, lo', hi)
    ensures Rising(xs, Rank, lo, hi)
  {
  }

  lemma RetryFaultsAre(policy: Policy, es: seq<Event>, k: nat, x: Fault)
    requires k < |es| && es[k].action.Retry?
    ensures x in RetryFaults(policy, es, k) <==> 4 <= Rank(x) && AttemptEarns(policy, es, k, x)
    ensures Rising(RetryFaults(policy, es, k), Rank, 4, 8)
  {
    hide LastAttempt, OnRecord, LeftOpen, When, AttemptAt, Stands, Rising;
    var e, op, last := es[k], es[k].op, LastAttempt(es, k, es[k].op);
    AttemptIff(es, k, op);
    OnRecordIff(es, k, op);
    var none, committed := last < 0, OnRecord(es, k, op) == Some(Committed);
    var other := last >= 0 && policy.requireSameOperation && e.action.retryOf != Some(es[last].action.execution);
    var changed := last >= 0 && policy.requireSameKey && es[last].action.key != e.action.key;
    InFour(none, RetryWithoutPrior, other, RetryOfAnother, changed, KeyChanged, committed, RetryAfterCommit, x);
    FourRise(none, RetryWithoutPrior, other, RetryOfAnother, changed, KeyChanged, committed, RetryAfterCommit, 4);
    if last >= 0 { assert AttemptAt(es, k, op, last); }
    assert other <==> AttemptEarns(policy, es, k, RetryOfAnother);
    assert changed <==> AttemptEarns(policy, es, k, KeyChanged);
  }

  /** What an attempt commits whether or not it is a retry. */
  ghost function OwnFaults(policy: Policy, es: seq<Event>, k: nat): seq<Fault>
    requires k < |es| && Financial(es[k])
  {
    When(AttemptEarns(policy, es, k, FinancialActionWhileAmbiguous), FinancialActionWhileAmbiguous)
    + When(AttemptEarns(policy, es, k, Unauthorized), Unauthorized)
    + When(AttemptEarns(policy, es, k, ExecutionIdReused), ExecutionIdReused)
    + When(AttemptEarns(policy, es, k, KeyMissing), KeyMissing)
  }

  lemma AttemptFaultsSum(policy: Policy, es: seq<Event>, k: nat)
    requires k < |es| && Financial(es[k])
    ensures FaultsAt(policy, es, k)
         == OwnFaults(policy, es, k) + if es[k].action.Retry? then RetryFaults(policy, es, k) else []
  {
    hide LastAttempt, OnRecord, Open, LeftOpen, RetryFaults, When, AttemptAt, Stands;
    SomeOpenIff(es, k);
  }

  lemma OwnFaultsAre(policy: Policy, es: seq<Event>, k: nat, x: Fault)
    requires k < |es| && Financial(es[k])
    ensures x in OwnFaults(policy, es, k) <==> Rank(x) < 4 && AttemptEarns(policy, es, k, x)
    ensures Rising(OwnFaults(policy, es, k), Rank, 0, 4)
  {
    hide AttemptEarns, When, Rising;
    InFour(AttemptEarns(policy, es, k, FinancialActionWhileAmbiguous), FinancialActionWhileAmbiguous,
           AttemptEarns(policy, es, k, Unauthorized), Unauthorized,
           AttemptEarns(policy, es, k, ExecutionIdReused), ExecutionIdReused,
           AttemptEarns(policy, es, k, KeyMissing), KeyMissing, x);
    FourRise(AttemptEarns(policy, es, k, FinancialActionWhileAmbiguous), FinancialActionWhileAmbiguous,
             AttemptEarns(policy, es, k, Unauthorized), Unauthorized,
             AttemptEarns(policy, es, k, ExecutionIdReused), ExecutionIdReused,
             AttemptEarns(policy, es, k, KeyMissing), KeyMissing, 0);
  }

  lemma OnlyRetriesEarn(policy: Policy, es: seq<Event>, k: nat, x: Fault)
    requires k < |es| && Financial(es[k]) && AttemptEarns(policy, es, k, x) && Rank(x) >= 4
    ensures es[k].action.Retry?
  {
  }

  lemma AttemptFaultsAre(policy: Policy, es: seq<Event>, k: nat, x: Fault)
    requires k < |es| && Financial(es[k])
    ensures x in FaultsAt(policy, es, k) <==> AttemptEarns(policy, es, k, x)
    ensures Rising(FaultsAt(policy, es, k), Rank, 0, 9)
  {
    hide FaultsAt, OwnFaults, RetryFaults, Rising, AttemptEarns, Rank;
    AttemptFaultsSum(policy, es, k);
    OwnFaultsAre(policy, es, k, x);
    if es[k].action.Retry? {
      RetryFaultsAre(policy, es, k, x);
      RisingJoin(OwnFaults(policy, es, k), RetryFaults(policy, es, k), Rank, 0, 4, 4, 8);
    } else {
      assert OwnFaults(policy, es, k) + [] == OwnFaults(policy, es, k);
      if AttemptEarns(policy, es, k, x) && Rank(x) >= 4 { OnlyRetriesEarn(policy, es, k, x); }
    }
    RisingUp(FaultsAt(policy, es, k));
  }

  lemma RisingUp(xs: seq<Fault>)
    ensures Rising(xs, Rank, 0, 4) || Rising(xs, Rank, 0, 8) ==> Rising(xs, Rank, 0, 9)
  {
  }

  /** The faults of an event are exactly those it has earned, in rising rank. */
  lemma EarnsIff(policy: Policy, es: seq<Event>, k: nat, x: Fault)
    requires k < |es|
    ensures x in FaultsAt(policy, es, k) <==> Earns(policy, es, k, x)
    ensures Rising(FaultsAt(policy, es, k), Rank, 0, 9)
  {
    if Financial(es[k]) {
      hide FaultsAt, AttemptEarns, Rising;
      AttemptFaultsAre(policy, es, k, x);
    } else if es[k].action.Ambiguous? {
      NamesLatestIff(es, k);
      hide LastAttempt, NamesLatest;
    }
  }

  lemma NamesLatestIff(es: seq<Event>, k: nat)
    requires k < |es| && es[k].action.Ambiguous?
    ensures var last := LastAttempt(es, k, es[k].op);
            NamesLatest(es, k) <==> last >= 0 && es[last].action.execution == es[k].action.observed
  {
    hide LastAttempt, AttemptAt;
    AttemptIff(es, k, es[k].op);
    var last := LastAttempt(es, k, es[k].op);
    if last >= 0 { assert AttemptAt(es, k, es[k].op, last); }
  }

  lemma {:induction false} EventsHold(policy: Policy, es: seq<Event>, n: nat)
    requires n <= |es|
    ensures LogInOrder(ViolationsOf(policy, es, n), Rank)
    ensures forall v :: v in ViolationsOf(policy, es, n) <==>
                          1 <= v.eventSeq <= n && Earns(policy, es, v.eventSeq - 1, v.fault)
  {
    hide FaultsAt, Earns, Rising;
    if n > 0 {
      EventsHold(policy, es, n - 1);
      var before, faults := ViolationsOf(policy, es, n - 1), FaultsAt(policy, es, n - 1);
      forall v
        ensures v in before + Tagged(faults, n) <==> 1 <= v.eventSeq <= n && Earns(policy, es, v.eventSeq - 1, v.fault)
      {
        InTagged(faults, n, v);
        EarnsIff(policy, es, n - 1, v.fault);
      }
      EarnsIff(policy, es, n - 1, KeyMissing);
      assert forall i :: 0 <= i < |before| ==> before[i] in before;
      OneMoreEvent(before, faults, n, Rank, 9);
    }
  }

  /** The log of every trace: it holds exactly what each event has earned, under the number of the event, and one
      entry more if an outcome is left open at the end; by event, and at each event by rank, each once. */
  lemma LogHolds(policy: Policy, es: seq<Event>)
    ensures LogInOrder(LogOf(policy, es), Rank)
    ensures forall v :: v in LogOf(policy, es) <==>
                          || (1 <= v.eventSeq <= |es| && Earns(policy, es, v.eventSeq - 1, v.fault))
                          || (v == Violation(TraceEndsUnresolved, |es|) && exists u: nat :: LeftOpen(es, |es|, u))
  {
    hide Earns, ViolationsOf, LeftOpen, Open;
    EventsHold(policy, es, |es|);
    SomeOpenIff(es, |es|);
    var before := ViolationsOf(policy, es, |es|);
    forall i | 0 <= i < |before| ensures Before(Rank, before[i], Violation(TraceEndsUnresolved, |es|)) {
      assert before[i] in before;
      NoEndAtEvent(policy, es, before[i].eventSeq - 1);
    }
  }

  lemma NoEndAtEvent(policy: Policy, es: seq<Event>, k: nat)
    requires k < |es|
    ensures !Earns(policy, es, k, TraceEndsUnresolved)
  {
  }

  /** On every trace an ambiguity is logged as unbound exactly when no attempt of its operation precedes it or it
      names another execution than the latest. */
  lemma UnboundIff(policy: Policy, es: seq<Event>, k: nat)
    requires k < |es|
    ensures Violation(AmbiguityUnbound, k + 1) in LogOf(policy, es) <==>
            && es[k].action.Ambiguous?
            && forall i: nat :: AttemptAt(es, k, es[k].op, i) ==> es[i].action.execution != es[k].action.observed
  {
    hide LogOf, LeftOpen, AttemptAt;
    LogHolds(policy, es);
  }

  // -------------------------------------------------------------------- the rules

  /** Event `n` is allowed by the events before it: an attempt is authorized, under a fresh name, keyed where
      asked, and made while nothing is open; a retry follows an attempt, as the policy asks, and no commitment
      that stands; and an ambiguity names the latest attempt. */
  ghost predicate Allowed(policy: Policy, es: seq<Event>, n: nat)
    requires n < |es|
  {
    var e, op := es[n], es[n].op;
    && (e.action.Ambiguous? ==> NamesLatest(es, n))
    && (Financial(e) ==>
          && (forall u: nat :: !LeftOpen(es, n, u))
          && (exists i :: 0 <= i < n && es[i].op == op && es[i].action.Authorize?)
          && (forall i :: 0 <= i < n && Financial(es[i]) ==> es[i].action.execution != e.action.execution)
          && (policy.requireKey ==> e.action.key.Some?))
    && (e.action.Retry? ==>
          && (forall b: nat :: !Stands(es, b, n, op))
          && exists i: nat :: AttemptAt(es, n, op, i)
                && (policy.requireSameOperation ==> e.action.retryOf == Some(es[i].action.execution))
                && (policy.requireSameKey ==> e.action.key == es[i].action.key))
  }

  lemma AllowedIff(policy: Policy, es: seq<Event>, n: nat)
    requires n < |es|
    ensures FaultsAt(policy, es, n) == [] <==> Allowed(policy, es, n)
  {
    var faults := FaultsAt(policy, es, n);
    forall x ensures x in faults <==> Earns(policy, es, n, x) { EarnsIff(policy, es, n, x); }
    hide FaultsAt, Earns;
    if faults != [] { assert faults[0] in faults; }
    EarnsNothingIff(policy, es, n);
  }

  lemma EarnsNothingIff(policy: Policy, es: seq<Event>, n: nat)
    requires n < |es|
    ensures (forall x :: !Earns(policy, es, n, x)) <==> Allowed(policy, es, n)
  {
    var op := es[n].op;
    AttemptIff(es, n, op);
    hide LastAttempt, LeftOpen, Stands, AttemptAt, NamesLatest;
    if forall x :: !Earns(policy, es, n, x) {
      assert !Earns(policy, es, n, FinancialActionWhileAmbiguous);
      assert !Earns(policy, es, n, Unauthorized);
      assert !Earns(policy, es, n, ExecutionIdReused);
      assert !Earns(policy, es, n, KeyMissing);
      assert !Earns(policy, es, n, RetryWithoutPrior);
      assert !Earns(policy, es, n, RetryOfAnother);
      assert !Earns(policy, es, n, KeyChanged);
      assert !Earns(policy, es, n, RetryAfterCommit);
      assert !Earns(policy, es, n, AmbiguityUnbound);
      if es[n].action.Retry? { assert AttemptAt(es, n, op, LastAttempt(es, n, op)); }
    }
  }

  /** A trace passes exactly when every event is allowed by the events before it and nothing is left open. */
  lemma PassesIffAllowed(policy: Policy, es: seq<Event>)
    ensures Passes(policy, es) <==>
            && (forall n :: 0 <= n < |es| ==> Allowed(policy, es, n))
            && forall u: nat :: !LeftOpen(es, |es|, u)
  {
    hide FaultsAt, Allowed, Open, LeftOpen;
    forall n | 0 <= n < |es| ensures FaultsAt(policy, es, n) == [] <==> Allowed(policy, es, n) {
      AllowedIff(policy, es, n);
    }
    SomeOpenIff(es, |es|);
  }

  /** In a passing trace every ambiguity names the latest attempt of its operation. */
  lemma AmbiguitiesAreBound(policy: Policy, es: seq<Event>, k: nat) returns (i: nat)
    requires Passes(policy, es) && k < |es| && es[k].action.Ambiguous?
    ensures i < k && es[i].op == es[k].op && Financial(es[i]) && NoAttemptIn(es, i + 1, k, es[k].op)
    ensures es[i].action.execution == es[k].action.observed
  {
    PassesIffAllowed(policy, es);
    assert Allowed(policy, es, k);
    i :| AttemptAt(es, k, es[k].op, i) && es[i].action.execution == es[k].action.observed;
  }
}
