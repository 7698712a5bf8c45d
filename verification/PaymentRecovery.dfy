/** Payment recovery: an ambiguous payment outcome must be reconciled before any further monetary
    action, and a retry must continue the attempt it repeats. */
module PaymentRecovery {
  import opened EventLog
  import opened Ordering

  datatype Outcome = Committed | Failed

  datatype Reading = Settled(outcome: Outcome) | Pending | Unknown

  datatype Action =
    | Authorize
    | Submit(execution: Id, key: Option<Id>)
    | Retry(execution: Id, key: Option<Id>, retryOf: Option<Id>)
    | NewPayment(execution: Id, key: Option<Id>)
    | Ambiguous(observed: Id)
    | Reconcile(reading: Reading)
    | Stop

  datatype Event = Event(op: Id, action: Action)

  datatype Policy = Policy(requireKey: bool, requireSameOperation: bool, requireSameKey: bool)

  datatype Fault =
    | FinancialActionWhileAmbiguous | Unauthorized | ExecutionIdReused | KeyMissing
    | RetryWithoutPrior | RetryOfAnother | KeyChanged | RetryAfterCommit
    | AmbiguityUnbound | TraceEndsUnresolved

  predicate Financial(e: Event) {
    e.action.Submit? || e.action.Retry? || e.action.NewPayment?
  }

  predicate Speaks(e: Event) {
    e.action.Ambiguous? || e.action.Reconcile?
  }

  predicate Settles(e: Event) {
    e.action.Reconcile? && e.action.reading.Settled?
  }

  // -------------------------------------------------------------- the history

  /** The last attempt of `op` among the first `n` events, or -1. */
  ghost function LastAttempt(es: seq<Event>, n: nat, op: Id): (k: int)
    requires n <= |es|
    ensures -1 <= k < n && (k >= 0 ==> es[k].op == op && Financial(es[k]))
  {
    if n == 0 then -1
    else if es[n - 1].op == op && Financial(es[n - 1]) then n - 1
    else LastAttempt(es, n - 1, op)
  }

  /** The last ambiguity or reconciliation of `op`, or -1. */
  ghost function LastWord(es: seq<Event>, n: nat, op: Id): (k: int)
    requires n <= |es|
    ensures -1 <= k < n && (k >= 0 ==> es[k].op == op && Speaks(es[k]))
  {
    if n == 0 then -1
    else if es[n - 1].op == op && Speaks(es[n - 1]) then n - 1
    else LastWord(es, n - 1, op)
  }

  /** The last submission or new payment of `op`, which starts a fresh outcome, or -1. */
  ghost function LastFresh(es: seq<Event>, n: nat, op: Id): (k: int)
    requires n <= |es|
    ensures -1 <= k < n
  {
    if n == 0 then -1
    else if es[n - 1].op == op && (es[n - 1].action.Submit? || es[n - 1].action.NewPayment?) then n - 1
    else LastFresh(es, n - 1, op)
  }

  ghost predicate Used(es: seq<Event>, n: nat, x: Id)
    requires n <= |es|
  {
    exists k :: 0 <= k < n && Financial(es[k]) && es[k].action.execution == x
  }

  ghost predicate Authorized(es: seq<Event>, n: nat, op: Id)
    requires n <= |es|
  {
    exists k :: 0 <= k < n && es[k].op == op && es[k].action.Authorize?
  }

  ghost predicate Open(es: seq<Event>, n: nat, op: Id)
    requires n <= |es|
  {
    var k := LastWord(es, n, op);
    k >= 0 && !Settles(es[k])
  }

  /** The outcome on record: settled by the last word, unless a fresh payment followed it. */
  ghost function OnRecord(es: seq<Event>, n: nat, op: Id): Option<Outcome>
    requires n <= |es|
  {
    var k := LastWord(es, n, op);
    if k >= 0 && k > LastFresh(es, n, op) && Settles(es[k]) then Some(es[k].action.reading.outcome) else None
  }

  // ---------------------------------------------------------------- the faults

  ghost function RetryFaults(policy: Policy, es: seq<Event>, n: nat): seq<Fault>
    requires n < |es| && es[n].action.Retry?
  {
    var e, last := es[n], LastAttempt(es, n, es[n].op);
    When(last < 0, RetryWithoutPrior)
    + When(last >= 0 && policy.requireSameOperation && e.action.retryOf != Some(es[last].action.execution),
           RetryOfAnother)
    + When(last >= 0 && policy.requireSameKey && es[last].action.key != e.action.key, KeyChanged)
    + When(OnRecord(es, n, e.op) == Some(Committed), RetryAfterCommit)
  }

  ghost function FaultsAt(policy: Policy, es: seq<Event>, n: nat): seq<Fault>
    requires n < |es|
  {
    var e := es[n];
    if Financial(e) then
      When(exists op :: Open(es, n, op), FinancialActionWhileAmbiguous)
      + When(!Authorized(es, n, e.op), Unauthorized)
      + When(Used(es, n, e.action.execution), ExecutionIdReused)
      + When(policy.requireKey && e.action.key == None, KeyMissing)
      + (if e.action.Retry? then RetryFaults(policy, es, n) else [])
    else if e.action.Ambiguous? then
      var last := LastAttempt(es, n, e.op);
      When(last < 0 || es[last].action.execution != e.action.observed, AmbiguityUnbound)
    else []
  }

  ghost function ViolationsOf(policy: Policy, es: seq<Event>, n: nat): seq<Violation<Fault>>
    requires n <= |es|
  {
    if n == 0 then [] else ViolationsOf(policy, es, n - 1) + Tagged(FaultsAt(policy, es, n - 1), n)
  }

  /** The whole log: one more entry when the trace ends with an open outcome. */
  ghost function LogOf(policy: Policy, es: seq<Event>): seq<Violation<Fault>> {
    ViolationsOf(policy, es, |es|) + When(exists op :: Open(es, |es|, op), Violation(TraceEndsUnresolved, |es|))
  }

  /** A passing trace: no event commits a fault and no outcome is open at the end. */
  ghost predicate Passes(policy: Policy, es: seq<Event>) {
    && (forall n :: 0 <= n < |es| ==> FaultsAt(policy, es, n) == [])
    && (forall op :: !Open(es, |es|, op))
  }

  lemma {:induction false} NoViolationsIffFaultless(policy: Policy, es: seq<Event>, n: nat)
    requires n <= |es|
    ensures ViolationsOf(policy, es, n) == [] <==> forall k :: 0 <= k < n ==> FaultsAt(policy, es, k) == []
  {
    hide FaultsAt;
    if n > 0 { NoViolationsIffFaultless(policy, es, n - 1); }
  }

  // --------------------------------------------------------------- the evaluator

  datatype Books = Books(authorizedOps: set<Id>, unresolved: set<Id>, resolvedOutcome: map<Id, Outcome>,
                         lastExecution: map<Id, (Id, Option<Id>)>, seenExecutionIds: set<Id>)

  ghost predicate Knows(b: Books, es: seq<Event>, n: nat, op: Id)
    requires n <= |es|
  {
    var last := LastAttempt(es, n, op);
    && (op in b.authorizedOps <==> Authorized(es, n, op))
    && (op in b.unresolved <==> Open(es, n, op))
    && Get(b.resolvedOutcome, op) == OnRecord(es, n, op)
    && Get(b.lastExecution, op)
         == (if last >= 0 then Some((es[last].action.execution, es[last].action.key)) else None)
  }

  /** The dictionaries say exactly what the history says. */
  ghost predicate Agrees(b: Books, es: seq<Event>, n: nat)
    requires n <= |es|
  {
    && (forall op :: Knows(b, es, n, op))
    && (forall x :: x in b.seenExecutionIds <==> Used(es, n, x))
  }

  /** The dictionaries after an event. */
  function Record(b: Books, e: Event): Books {
    match e.action
    case Authorize => b.(authorizedOps := b.authorizedOps + {e.op})
    case Submit(x, key) =>
      b.(seenExecutionIds := b.seenExecutionIds + {x}, lastExecution := b.lastExecution[e.op := (x, key)],
         resolvedOutcome := b.resolvedOutcome - {e.op})
    case NewPayment(x, key) =>
      b.(seenExecutionIds := b.seenExecutionIds + {x}, lastExecution := b.lastExecution[e.op := (x, key)],
         resolvedOutcome := b.resolvedOutcome - {e.op})
    case Retry(x, key, _) =>
      b.(seenExecutionIds := b.seenExecutionIds + {x}, lastExecution := b.lastExecution[e.op := (x, key)])
    case Ambiguous(_) => b.(unresolved := b.unresolved + {e.op}, resolvedOutcome := b.resolvedOutcome - {e.op})
    case Reconcile(Settled(outcome)) =>
      b.(unresolved := b.unresolved - {e.op}, resolvedOutcome := b.resolvedOutcome[e.op := outcome])
    case Reconcile(_) => b.(unresolved := b.unresolved + {e.op}, resolvedOutcome := b.resolvedOutcome - {e.op})
    case Stop => b
  }

  lemma RecordKnows(b: Books, es: seq<Event>, n: nat, op: Id)
    requires n < |es| && Knows(b, es, n, op)
    ensures Knows(Record(b, es[n]), es, n + 1, op)
  {
    AuthorizedStep(es, n, op);
    hide Authorized;
    if op != es[n].op {
      RecordElsewhere(b, es[n], op);
    } else {
      match es[n].action {
        case Authorize =>
        case Submit(_, _) =>
        case Retry(_, _, _) =>
        case NewPayment(_, _) =>
        case Ambiguous(_) =>
        case Reconcile(_) =>
        case Stop =>
      }
    }
  }

  lemma AuthorizedStep(es: seq<Event>, n: nat, op: Id)
    requires n < |es|
    ensures Authorized(es, n + 1, op) <==> Authorized(es, n, op) || (op == es[n].op && es[n].action.Authorize?)
  {
  }

  lemma RecordElsewhere(b: Books, e: Event, op: Id)
    requires op != e.op
    ensures var b' := Record(b, e);
            && (op in b'.authorizedOps <==> op in b.authorizedOps) && (op in b'.unresolved <==> op in b.unresolved)
            && Get(b'.resolvedOutcome, op) == Get(b.resolvedOutcome, op)
            && Get(b'.lastExecution, op) == Get(b.lastExecution, op)
  {
  }

  lemma RecordAgrees(b: Books, es: seq<Event>, n: nat)
    requires n < |es| && Agrees(b, es, n)
    ensures Agrees(Record(b, es[n]), es, n + 1)
  {
    hide Knows;
    var b', next := Record(b, es[n]), n + 1;
    forall op ensures Knows(b', es, next, op) { RecordKnows(b, es, n, op); }
    forall x ensures x in b'.seenExecutionIds <==> Used(es, next, x) {
      assert Used(es, next, x) <==> Used(es, n, x) || (Financial(es[n]) && es[n].action.execution == x);
    }
  }

  method FindFaults(policy: Policy, b: Books, es: seq<Event>, n: nat) returns (faults: seq<Fault>)
    requires n < |es| && Agrees(b, es, n)
    ensures faults == FaultsAt(policy, es, n)
  {
    hide LastAttempt, LastWord, LastFresh, Authorized, Open, OnRecord, Used;
    var e := es[n];
    var prior := Get(b.lastExecution, e.op);
    assert Knows(b, es, n, e.op);
    faults := [];
    if Financial(e) {
      AnyOpen(b, es, n);
      faults := When(b.unresolved != {}, FinancialActionWhileAmbiguous);
      faults := faults + When(e.op !in b.authorizedOps, Unauthorized);
      faults := faults + When(e.action.execution in b.seenExecutionIds, ExecutionIdReused);
      faults := faults + When(policy.requireKey && e.action.key == None, KeyMissing);
      var more := [];
      if e.action.Retry? {
        more := When(prior == None, RetryWithoutPrior);
        more := more + When(prior.Some? && policy.requireSameOperation && e.action.retryOf != Some(prior.value.0),
                            RetryOfAnother);
        more := more + When(prior.Some? && policy.requireSameKey && prior.value.1 != e.action.key, KeyChanged);
        more := more + When(Get(b.resolvedOutcome, e.op) == Some(Committed), RetryAfterCommit);
      }
      faults := faults + more;
    } else if e.action.Ambiguous? {
      faults := When(prior == None || prior.value.0 != e.action.observed, AmbiguityUnbound);
    }
  }

  lemma AnyOpen(b: Books, es: seq<Event>, n: nat)
    requires n <= |es| && Agrees(b, es, n)
    ensures b.unresolved != {} <==> exists op :: Open(es, n, op)
  {
    hide Open;
    forall op ensures op in b.unresolved <==> Open(es, n, op) { assert Knows(b, es, n, op); }
  }

  /** The evaluator; the trace passes when no violation is recorded. */
  method Evaluate(policy: Policy, es: seq<Event>) returns (violations: seq<Violation<Fault>>, books: Books)
    ensures violations == LogOf(policy, es)
    ensures violations == [] <==> Passes(policy, es)
    ensures Agrees(books, es, |es|)
  {
    hide Agrees, FaultsAt, Open, Record;
    violations, books := [], Books({}, {}, map[], map[], {});
    EmptyAgrees(es);
    for n := 0 to |es|
      invariant Agrees(books, es, n)
      invariant violations == ViolationsOf(policy, es, n)
    {
      var faults := FindFaults(policy, books, es, n);
      violations := violations + Tagged(faults, n + 1);
      RecordAgrees(books, es, n);
      books := Record(books, es[n]);
    }
    NoViolationsIffFaultless(policy, es, |es|);
    AnyOpen(books, es, |es|);
    if books.unresolved != {} {
      violations := violations + [Violation(TraceEndsUnresolved, |es|)];
    }
  }

  lemma EmptyAgrees(es: seq<Event>)
    ensures Agrees(Books({}, {}, map[], map[], {}), es, 0)
  {
  }

  // ------------------------------------------------------------ what passing means

  lemma {:induction false} SilentSince(es: seq<Event>, k: nat, n: nat, op: Id)
    requires k < n <= |es| && es[k].op == op && Speaks(es[k]) && !Settles(es[k])
    requires forall i :: k < i < n && es[i].op == op ==> !Settles(es[i])
    ensures Open(es, n, op)
  {
    if k + 1 < n { SilentSince(es, k, n - 1, op); }
  }

  lemma {:induction false} SettledSince(es: seq<Event>, k: nat, n: nat, op: Id)
    requires k < n <= |es| && es[k].op == op && Speaks(es[k]) && !Settles(es[k])
    requires !Open(es, n, op)
    ensures exists i :: k < i < n && es[i].op == op && Settles(es[i])
  {
    if forall i :: k < i < n && es[i].op == op ==> !Settles(es[i]) {
      SilentSince(es, k, n, op);
    }
  }

  lemma {:induction false} FirstSettlement(es: seq<Event>, k: nat, i: nat, op: Id) returns (r: nat)
    requires k < i < |es| && es[i].op == op && Settles(es[i])
    ensures k < r <= i && es[r].op == op && Settles(es[r])
    ensures forall j :: k < j < r && es[j].op == op ==> !Settles(es[j])
  {
    if j :| k < j < i && es[j].op == op && Settles(es[j]) {
      r := FirstSettlement(es, k, j, op);
    } else {
      r := i;
    }
  }

  lemma NoFaultAt(policy: Policy, es: seq<Event>, n: nat)
    requires Passes(policy, es) && n < |es|
    ensures FaultsAt(policy, es, n) == []
  {
  }

  /** Every ambiguity is reconciled, and no payment of any operation happens before that. */
  lemma AmbiguityIsContained(policy: Policy, es: seq<Event>, a: nat) returns (r: nat)
    requires Passes(policy, es) && a < |es| && Speaks(es[a]) && !Settles(es[a])
    ensures a < r < |es| && es[r].op == es[a].op && Settles(es[r])
    ensures forall k :: a < k < r ==> !Financial(es[k])
  {
    var op := es[a].op;
    SettledSince(es, a, |es|, op);
    var i :| a < i < |es| && es[i].op == op && Settles(es[i]);
    r := FirstSettlement(es, a, i, op);
    forall k | a < k < r ensures !Financial(es[k]) {
      SilentSince(es, a, k, op);
      NoFaultAt(policy, es, k);
    }
  }

  /** Every payment is authorized before it happens. */
  lemma PaymentsAreAuthorized(policy: Policy, es: seq<Event>, k: nat)
    requires Passes(policy, es) && k < |es| && Financial(es[k])
    ensures Authorized(es, k, es[k].op)
    ensures policy.requireKey ==> es[k].action.key.Some?
  {
    hide Open, Authorized, Used, RetryFaults;
    NoFaultAt(policy, es, k);
  }

  /** Execution ids are distinct over the whole trace. */
  lemma ExecutionIdsAreDistinct(policy: Policy, es: seq<Event>, i: nat, j: nat)
    requires Passes(policy, es) && i < j < |es| && Financial(es[i]) && Financial(es[j])
    ensures es[i].action.execution != es[j].action.execution
  {
    hide Open, Authorized, RetryFaults;
    NoFaultAt(policy, es, j);
    assert !Used(es, j, es[j].action.execution);
  }

  ghost predicate NoAttemptIn(es: seq<Event>, from: nat, to: nat, op: Id)
    requires to <= |es|
  {
    forall k :: from <= k < to && es[k].op == op ==> !Financial(es[k])
  }

  lemma {:induction false} LastAttemptIs(es: seq<Event>, n: nat, op: Id)
    requires n <= |es|
    ensures NoAttemptIn(es, (LastAttempt(es, n, op) + 1) as nat, n, op)
  {
    if n > 0 { LastAttemptIs(es, n - 1, op); }
  }

  /** A retry continues the attempt right before it: under the default policy it names that attempt
      and carries its key; under any policy no commit is on record. */
  lemma RetryContinues(policy: Policy, es: seq<Event>, j: nat) returns (i: nat)
    requires Passes(policy, es) && j < |es| && es[j].action.Retry?
    ensures i < j && es[i].op == es[j].op && Financial(es[i]) && NoAttemptIn(es, i + 1, j, es[j].op)
    ensures policy.requireSameOperation ==> es[j].action.retryOf == Some(es[i].action.execution)
    ensures policy.requireSameKey ==> es[j].action.key == es[i].action.key
    ensures OnRecord(es, j, es[j].op) != Some(Committed)
  {
    NoFaultAt(policy, es, j);
    assert RetryFaults(policy, es, j) == [] by { hide Open, Authorized, Used, RetryFaults; }
    LastAttemptIs(es, j, es[j].op);
    i := LastAttempt(es, j, es[j].op);
  }

  /** `j` retries `i`, with no other attempt of the operation between them. */
  ghost predicate Retries(es: seq<Event>, i: nat, j: nat) {
    && i < j < |es| && es[i].op == es[j].op && Financial(es[i]) && es[j].action.Retry?
    && NoAttemptIn(es, i + 1, j, es[j].op)
    && es[j].action.retryOf == Some(es[i].action.execution)
    && es[j].action.key == es[i].action.key
  }

  /** A list of attempts, each after the first retrying the one before it. */
  ghost predicate RetryChain(es: seq<Event>, chain: seq<nat>) {
    forall l, m :: 0 <= l < |chain| && m == l + 1 && m < |chain| ==> Retries(es, chain[l], chain[m])
  }

  /** Every retry ends a chain of consecutive attempts, with one key throughout, that starts at a
      submission or a new payment. */
  lemma {:induction false} RetriesFormChains(policy: Policy, es: seq<Event>, j: nat) returns (chain: seq<nat>)
    requires Passes(policy, es) && policy.requireSameOperation && policy.requireSameKey
    requires j < |es| && Financial(es[j])
    ensures RetryChain(es, chain) && chain != [] && chain[|chain| - 1] == j
    ensures chain[0] <= j && Financial(es[chain[0]]) && !es[chain[0]].action.Retry? && es[chain[0]].op == es[j].op
    ensures es[chain[0]].action.key == es[j].action.key
  {
    hide Passes;
    if !es[j].action.Retry? {
      chain := [j];
    } else {
      var i := RetryContinues(policy, es, j);
      assert Retries(es, i, j);
      hide Retries;
      var before := RetriesFormChains(policy, es, i);
      chain := before + [j];
    }
  }
}
