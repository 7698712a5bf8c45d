/** The promise "one authorized intent, at most one economic effect" on passing payment traces: what is
    admitted after a commitment, when the promise holds, and a trace on which it does not. */
module PaymentPromises {
  import opened Ordering
  import opened PaymentRecovery

  // ------------------------------------------------------- histories of longer traces

  lemma {:induction false} SameHistory(es: seq<Event>, all: seq<Event>, n: nat, op: Id)
    requires n <= |es| && es <= all
    ensures LastAttempt(all, n, op) == LastAttempt(es, n, op) && LastWord(all, n, op) == LastWord(es, n, op)
    ensures LastFresh(all, n, op) == LastFresh(es, n, op)
  {
    if n > 0 { SameHistory(es, all, n - 1, op); }
  }

  lemma SameRecord(es: seq<Event>, all: seq<Event>, n: nat, op: Id, x: Id)
    requires n <= |es| && es <= all
    ensures LastAttempt(all, n, op) == LastAttempt(es, n, op) && OnRecord(all, n, op) == OnRecord(es, n, op)
    ensures Open(all, n, op) <==> Open(es, n, op)
    ensures (Used(all, n, x) <==> Used(es, n, x)) && (Authorized(all, n, op) <==> Authorized(es, n, op))
  {
    SameHistory(es, all, n, op);
    hide LastAttempt, LastWord, LastFresh;
  }

  /** What follows an event does not change its faults. */
  lemma SameFaults(policy: Policy, es: seq<Event>, all: seq<Event>, k: nat)
    requires k < |es| && es <= all
    ensures FaultsAt(policy, all, k) == FaultsAt(policy, es, k)
  {
    hide LastAttempt, OnRecord, Open, Used, Authorized, When;
    var x := if Financial(es[k]) then es[k].action.execution else es[k].op;
    SameRecord(es, all, k, es[k].op, x);
    forall op ensures Open(all, k, op) <==> Open(es, k, op) { SameRecord(es, all, k, op, x); }
  }

  ghost predicate Faultless(policy: Policy, es: seq<Event>) {
    forall n :: 0 <= n < |es| ==> FaultsAt(policy, es, n) == []
  }

  lemma FaultlessOneMore(policy: Policy, es: seq<Event>, e: Event)
    ensures Faultless(policy, es + [e]) <==> Faultless(policy, es) && FaultsAt(policy, es + [e], |es|) == []
  {
    hide FaultsAt;
    var all := es + [e];
    forall k | 0 <= k < |es| ensures FaultsAt(policy, all, k) == FaultsAt(policy, es, k) {
      SameFaults(policy, es, all, k);
    }
  }

  // -------------------------------------------------------------- what is admitted next

  /** An attempt with nothing wrong about its identity: authorized, a new id, a key where one is asked for,
      and if a retry then of the latest attempt, as far as the policy asks. */
  ghost predicate InOrder(policy: Policy, es: seq<Event>, e: Event) {
    var n := |es|;
    && Financial(e) && Authorized(es, n, e.op) && !Used(es, n, e.action.execution)
    && (policy.requireKey ==> e.action.key.Some?)
    && (e.action.Retry? ==>
          var last := LastAttempt(es, n, e.op);
          && last >= 0
          && (policy.requireSameOperation ==> e.action.retryOf == Some(es[last].action.execution))
          && (policy.requireSameKey ==> e.action.key == es[last].action.key))
  }

  lemma AttemptFaults(policy: Policy, es: seq<Event>, e: Event)
    requires InOrder(policy, es, e) && forall op :: !Open(es, |es|, op)
    ensures FaultsAt(policy, es + [e], |es|) == [] <==>
            !(e.action.Retry? && OnRecord(es, |es|, e.op) == Some(Committed))
  {
    hide LastAttempt, OnRecord, Open, Used, Authorized;
    var all := es + [e];
    forall op ensures !Open(all, |es|, op) { SameRecord(es, all, |es|, op, e.action.execution); }
    SameRecord(es, all, |es|, e.op, e.action.execution);
  }

  lemma NothingOpened(es: seq<Event>, e: Event, op: Id)
    requires Financial(e)
    ensures Open(es + [e], |es| + 1, op) <==> Open(es, |es|, op)
  {
    SameHistory(es, es + [e], |es|, op);
  }

  /** After a passing trace an attempt in order is admitted exactly when it is not a retry of a committed
      operation: a submission or a new payment is admitted with a commitment on record. */
  lemma AdmittedIff(policy: Policy, es: seq<Event>, e: Event)
    requires Passes(policy, es) && InOrder(policy, es, e)
    ensures Passes(policy, es + [e]) <==> !(e.action.Retry? && OnRecord(es, |es|, e.op) == Some(Committed))
  {
    hide FaultsAt, InOrder, Open, OnRecord;
    AttemptFaults(policy, es, e);
    FaultlessOneMore(policy, es, e);
    forall op ensures !Open(es + [e], |es + [e]|, op) {
      assert InOrder(policy, es, e) ==> Financial(e) by { OrderIsFinancial(policy, es, e); }
      NothingOpened(es, e, op);
    }
  }

  lemma OrderIsFinancial(policy: Policy, es: seq<Event>, e: Event)
    requires InOrder(policy, es, e)
    ensures Financial(e)
  {
  }

  // ------------------------------------------------------------ effects and their readings

  ghost predicate Commits(es: seq<Event>, b: nat, op: Id) {
    b < |es| && es[b].op == op && Settles(es[b]) && es[b].action.reading.outcome == Committed
  }

  ghost predicate Fresh(es: seq<Event>, j: nat, op: Id) {
    j < |es| && es[j].op == op && (es[j].action.Submit? || es[j].action.NewPayment?)
  }

  /** A commitment read is about the latest attempt before it. Every commitment of the operation is about one. */
  ghost predicate AtMostOneEffect(es: seq<Event>, op: Id) {
    forall b: nat, b': nat :: Commits(es, b, op) && Commits(es, b', op) ==>
      LastAttempt(es, b, op) == LastAttempt(es, b', op)
  }

  /** `w` reads the operation as failed after `b`, and `j` retries it after that. */
  ghost predicate FailedAndRetried(es: seq<Event>, b: nat, w: nat, j: nat, op: Id) {
    && b < w < j < |es| && es[w].op == op && es[j].op == op && es[j].action.Retry?
    && Settles(es[w]) && es[w].action.reading.outcome == Failed
  }

  /** Between two commitments the operation is neither submitted afresh nor retried after a failure. */
  ghost predicate NoAttemptBetweenCommits(es: seq<Event>, op: Id) {
    forall b: nat, b': nat :: b < b' && Commits(es, b, op) && Commits(es, b', op) ==>
                                && (forall j: nat :: b < j < b' ==> !Fresh(es, j, op))
                                && (forall w: nat, j: nat :: j < b' ==> !FailedAndRetried(es, b, w, j, op))
  }

  lemma {:induction false} LastWordIs(es: seq<Event>, b: nat, n: nat, op: Id)
    requires b < n <= |es| && es[b].op == op && Speaks(es[b])
    ensures LastWord(es, n, op) >= b
  {
    if b + 1 < n { LastWordIs(es, b, n - 1, op); }
  }

  lemma {:induction false} LastFreshIsAttempt(es: seq<Event>, n: nat, op: Id)
    requires n <= |es|
    ensures LastFresh(es, n, op) <= LastAttempt(es, n, op)
  {
    if n > 0 { LastFreshIsAttempt(es, n - 1, op); }
  }

  lemma {:induction false} AttemptsSince(es: seq<Event>, b: nat, n: nat, op: Id)
    requires b <= n <= |es|
    ensures LastAttempt(es, b, op) <= LastAttempt(es, n, op)
    ensures LastAttempt(es, n, op) < b ==> LastAttempt(es, b, op) == LastAttempt(es, n, op)
    ensures (exists j :: b <= j < n && es[j].op == op && Financial(es[j])) <==> LastAttempt(es, n, op) >= b
  {
    if b < n {
      AttemptsSince(es, b, n - 1, op);
      if es[n - 1].op == op && Financial(es[n - 1]) { assert b <= n - 1 < n; }
    }
  }

  /** The first attempt after a commitment, if a retry, comes after a reading that the operation failed. */
  lemma RetriedAfterFailure(policy: Policy, es: seq<Event>, b: nat, j: nat, op: Id) returns (w: nat)
    requires Passes(policy, es) && Commits(es, b, op) && b < j < |es| && es[j].op == op && es[j].action.Retry?
    requires NoAttemptIn(es, b, j, op)
    ensures FailedAndRetried(es, b, w, j, op)
  {
    LastWordIs(es, b, j, op);
    AttemptsSince(es, b, j, op);
    LastFreshIsAttempt(es, j, op);
    var i := RetryContinues(policy, es, j);
    NothingOpenAt(policy, es, j, op);
    hide Passes;
    w := LastWord(es, j, op);
  }

  lemma NothingOpenAt(policy: Policy, es: seq<Event>, j: nat, op: Id)
    requires Passes(policy, es) && j < |es| && Financial(es[j])
    ensures !Open(es, j, op)
  {
    hide Open, Used, Authorized, RetryFaults;
    NoFaultAt(policy, es, j);
  }

  lemma {:induction false} FirstAttempt(es: seq<Event>, b: nat, j: nat, op: Id) returns (first: nat)
    requires b < j < |es| && es[j].op == op && Financial(es[j]) && !Financial(es[b])
    ensures b < first <= j && es[first].op == op && Financial(es[first]) && NoAttemptIn(es, b, first, op)
    decreases j
  {
    if k :| b < k < j && es[k].op == op && Financial(es[k]) {
      first := FirstAttempt(es, b, k, op);
    } else {
      first := j;
    }
  }

  /** A passing trace keeps the promise for an operation exactly when no two commitments have, between
      them, a fresh submission or a retry after a failure was read. */
  lemma AtMostOneEffectIff(policy: Policy, es: seq<Event>, op: Id)
    requires Passes(policy, es)
    ensures AtMostOneEffect(es, op) <==> NoAttemptBetweenCommits(es, op)
  {
    hide Passes, LastAttempt;
    if AtMostOneEffect(es, op) {
      forall b: nat, b': nat, j: nat | b < j < b' && Commits(es, b, op) && Commits(es, b', op)
        ensures !(es[j].op == op && Financial(es[j]))
      {
        AttemptsSince(es, b, b', op);
      }
    }
    if NoAttemptBetweenCommits(es, op) {
      forall b: nat, b': nat | b < b' && Commits(es, b, op) && Commits(es, b', op)
        ensures LastAttempt(es, b, op) == LastAttempt(es, b', op)
      {
        SameAttempt(policy, es, b, b', op);
      }
    }
  }

  lemma SameAttempt(policy: Policy, es: seq<Event>, b: nat, b': nat, op: Id)
    requires Passes(policy, es) && b < b' && Commits(es, b, op) && Commits(es, b', op)
    requires NoAttemptBetweenCommits(es, op)
    ensures LastAttempt(es, b, op) == LastAttempt(es, b', op)
  {
    hide Passes;
    AttemptsSince(es, b, b', op);
    if j :| b <= j < b' && es[j].op == op && Financial(es[j]) {
      var first := FirstAttempt(es, b, j, op);
      if !Fresh(es, first, op) { var w := RetriedAfterFailure(policy, es, b, first, op); }
    }
  }

  // ------------------------------------------------------ attempts over a commitment

  ghost predicate NoWordIn(es: seq<Event>, from: nat, to: nat, op: Id)
    requires to <= |es|
  {
    forall k :: from <= k < to && es[k].op == op ==> !Speaks(es[k])
  }

  lemma {:induction false} NothingSaidSince(es: seq<Event>, n: nat, op: Id)
    requires n <= |es|
    ensures NoWordIn(es, (LastWord(es, n, op) + 1) as nat, n, op)
  {
    if n > 0 { NothingSaidSince(es, n - 1, op); }
  }

  lemma {:induction false} LastWordStays(es: seq<Event>, b: nat, n: nat, op: Id)
    requires b < n <= |es| && es[b].op == op && Speaks(es[b]) && NoWordIn(es, b + 1, n, op)
    ensures LastWord(es, n, op) == b
  {
    if b + 1 < n { LastWordStays(es, b, n - 1, op); }
  }

  lemma {:induction false} FreshSince(es: seq<Event>, b: nat, n: nat, op: Id)
    requires b <= n <= |es|
    ensures LastFresh(es, n, op) >= b <==> exists m: nat :: b <= m < n && Fresh(es, m, op)
  {
    if b < n {
      FreshSince(es, b, n - 1, op);
      if Fresh(es, n - 1, op) { assert b <= n - 1 < n; }
    }
  }

  /** A commitment is read at `b`, and up to `j` the operation is neither read again nor attempted afresh. */
  ghost predicate Stands(es: seq<Event>, b: nat, j: nat, op: Id) {
    && Commits(es, b, op) && b < j <= |es| && NoWordIn(es, b + 1, j, op)
    && forall m: nat :: b < m < j ==> !Fresh(es, m, op)
  }

  lemma OnRecordIff(es: seq<Event>, j: nat, op: Id)
    requires j <= |es|
    ensures OnRecord(es, j, op) == Some(Committed) <==> exists b: nat :: Stands(es, b, j, op)
  {
    hide LastWord, LastFresh, Fresh;
    NothingSaidSince(es, j, op);
    if OnRecord(es, j, op) == Some(Committed) {
      var k: nat := LastWord(es, j, op);
      FreshSince(es, k, j, op);
      assert Stands(es, k, j, op);
    }
    if b: nat :| Stands(es, b, j, op) {
      LastWordStays(es, b, j, op);
      NotFresh(es, b, op);
      FreshSince(es, b, j, op);
    }
  }

  lemma NotFresh(es: seq<Event>, b: nat, op: Id)
    requires b < |es| && Speaks(es[b])
    ensures !Fresh(es, b, op)
  {
  }

  /** No attempt of an operation is made with its commitment on record exactly when no submission or new
      payment comes after a commitment that still stands: retries are guarded, fresh attempts are not. */
  lemma GuardedRetriesIff(policy: Policy, es: seq<Event>, op: Id)
    requires Passes(policy, es)
    ensures (forall j :: 0 <= j < |es| && es[j].op == op && Financial(es[j]) ==> OnRecord(es, j, op) != Some(Committed))
       <==> (forall b: nat, j: nat :: Fresh(es, j, op) ==> !Stands(es, b, j, op))
  {
    hide Passes, OnRecord, Stands;
    forall j | 0 <= j < |es| && es[j].action.Retry? ensures OnRecord(es, j, es[j].op) != Some(Committed) {
      var i := RetryContinues(policy, es, j);
    }
    forall j | 0 <= j < |es| ensures OnRecord(es, j, op) == Some(Committed) <==> exists b: nat :: Stands(es, b, j, op) {
      OnRecordIff(es, j, op);
    }
  }

  // ---------------------------------------------------------- attempts nobody looked at

  ghost predicate Consecutive(es: seq<Event>, i: nat, j: nat, op: Id) {
    && i < j < |es| && es[i].op == op && es[j].op == op && Financial(es[i]) && Financial(es[j])
    && NoAttemptIn(es, i + 1, j, op)
  }

  /** The last reading between the attempts says that the first failed. */
  ghost predicate Spent(es: seq<Event>, i: nat, j: nat, op: Id) {
    exists w: nat :: i < w < j < |es| && es[w].op == op && Settles(es[w]) && es[w].action.reading.outcome == Failed
                     && NoWordIn(es, w + 1, j, op)
  }

  /** Anything of the operation is read between the attempts. */
  ghost predicate Watched(es: seq<Event>, i: nat, j: nat, op: Id) {
    exists w: nat :: i < w < j < |es| && es[w].op == op && Speaks(es[w])
  }

  /** Of two consecutive attempts the first is known to have failed exactly when the operation is read
      between them and the second is not a fresh attempt over a commitment on record. */
  lemma SpentIff(policy: Policy, es: seq<Event>, i: nat, j: nat, op: Id)
    requires Passes(policy, es) && Consecutive(es, i, j, op)
    ensures Spent(es, i, j, op) <==>
            Watched(es, i, j, op) && !(Fresh(es, j, op) && OnRecord(es, j, op) == Some(Committed))
  {
    NothingOpenAt(policy, es, j, op);
    NothingSaidSince(es, j, op);
    LastFreshIsAttempt(es, j, op);
    AttemptsSince(es, i + 1, j, op);
    if es[j].action.Retry? { var k := RetryContinues(policy, es, j); }
    hide Passes, LastFresh, LastAttempt;
    if w: nat :| i < w < j && es[w].op == op && Settles(es[w]) && es[w].action.reading.outcome == Failed
                 && NoWordIn(es, w + 1, j, op) {
      LastWordStays(es, w, j, op);
    }
    if w: nat :| i < w < j && es[w].op == op && Speaks(es[w]) { LastWordIs(es, w, j, op); }
    hide LastWord;
  }

  /** In a passing trace every attempt of an operation but the last is known to have failed when the next is
      made, exactly when every attempt is read before the next and none is made afresh over a commitment
      on record. */
  lemma OneOpenAttemptIff(policy: Policy, es: seq<Event>, op: Id)
    requires Passes(policy, es)
    ensures (forall i: nat, j: nat :: Consecutive(es, i, j, op) ==> Spent(es, i, j, op))
       <==> (forall i: nat, j: nat :: Consecutive(es, i, j, op) ==>
               Watched(es, i, j, op) && !(Fresh(es, j, op) && OnRecord(es, j, op) == Some(Committed)))
  {
    hide Passes, Spent, Watched, OnRecord, Fresh;
    forall i: nat, j: nat | Consecutive(es, i, j, op)
      ensures Spent(es, i, j, op) <==>
              Watched(es, i, j, op) && !(Fresh(es, j, op) && OnRecord(es, j, op) == Some(Committed))
    {
      SpentIff(policy, es, i, j, op);
    }
  }

  // ------------------------------------------------------------------------ witnesses

  const DEFAULT_POLICY := Policy(true, true, true)

  function PaidTwice(): seq<Event> {
    [Event("o", Authorize), Event("o", Submit("x", Some("k"))), Event("o", Reconcile(Settled(Committed))),
     Event("o", Submit("y", Some("k"))), Event("o", Reconcile(Settled(Committed)))]
  }

  lemma PaidTwiceAttempts(es: seq<Event>)
    requires es == PaidTwice()
    ensures FaultsAt(DEFAULT_POLICY, es, 1) == [] && FaultsAt(DEFAULT_POLICY, es, 3) == []
  {
    assert es[0].op == "o" && es[0].action.Authorize?;
    assert Authorized(es, 1, "o") && Authorized(es, 3, "o");
    forall op ensures !Open(es, 1, op) && !Open(es, 3, op) {
      assert LastWord(es, 2, op) == -1;
    }
    hide Open, Authorized;
  }

  lemma NoFaults(policy: Policy, es: seq<Event>, k: nat)
    requires k < |es| && !Financial(es[k]) && !es[k].action.Ambiguous?
    ensures FaultsAt(policy, es, k) == []
  {
  }

  lemma PaidTwiceCloses(es: seq<Event>, op: Id)
    requires es == PaidTwice()
    ensures !Open(es, 5, op) && LastAttempt(es, 2, "o") == 1 && LastAttempt(es, 4, "o") == 3
  {
    assert op != "o" ==> LastWord(es, 2, op) == -1 && LastWord(es, 4, op) == -1;
  }

  /** One authorization, two submissions, both read as committed: the trace passes. */
  lemma PaidTwicePasses()
    ensures Passes(DEFAULT_POLICY, PaidTwice()) && !AtMostOneEffect(PaidTwice(), "o")
  {
    hide Open, LastAttempt, FaultsAt;
    var es := PaidTwice();
    PaidTwiceAttempts(es);
    NoFaults(DEFAULT_POLICY, es, 0);
    NoFaults(DEFAULT_POLICY, es, 2);
    NoFaults(DEFAULT_POLICY, es, 4);
    forall op ensures !Open(es, |es|, op) { PaidTwiceCloses(es, op); }
    PaidTwiceCloses(es, "o");
    assert Commits(es, 2, "o") && Commits(es, 4, "o");
  }

  function Unwatched(): seq<Event> {
    [Event("o", Authorize), Event("o", Submit("x", Some("k"))), Event("o", Submit("y", Some("k")))]
  }

  lemma UnwatchedAttempts(es: seq<Event>, op: Id)
    requires Unwatched() <= es
    ensures FaultsAt(DEFAULT_POLICY, es, 1) == [] && FaultsAt(DEFAULT_POLICY, es, 2) == []
    ensures LastWord(es, 3, op) == -1
  {
    assert es[0] == Unwatched()[0] && es[1] == Unwatched()[1] && es[2] == Unwatched()[2];
    assert Authorized(es, 1, "o") && Authorized(es, 2, "o");
    forall op ensures !Open(es, 1, op) && !Open(es, 2, op) && LastWord(es, 3, op) == -1 {
      assert LastWord(es, 1, op) == -1 && LastWord(es, 2, op) == -1;
    }
    hide Open, Authorized;
  }

  /** One authorization and two submissions, with nothing read between them: the trace passes as it stands,
      and also when only the second is then read as committed. No two commitments differ, yet both
      submissions may have had an effect. */
  lemma UnwatchedSubmissionPasses()
    ensures var es := Unwatched();
            Passes(DEFAULT_POLICY, es) && Consecutive(es, 1, 2, "o") && !Watched(es, 1, 2, "o")
            && !Spent(es, 1, 2, "o") && AtMostOneEffect(es, "o")
    ensures var es := Unwatched() + [Event("o", Reconcile(Settled(Committed)))];
            Passes(DEFAULT_POLICY, es) && Consecutive(es, 1, 2, "o") && !Watched(es, 1, 2, "o")
            && !Spent(es, 1, 2, "o") && AtMostOneEffect(es, "o")
  {
    hide FaultsAt, LastWord, LastAttempt;
    var es, all := Unwatched(), Unwatched() + [Event("o", Reconcile(Settled(Committed)))];
    UnwatchedAttempts(es, "o");
    UnwatchedAttempts(all, "o");
    NoFaults(DEFAULT_POLICY, es, 0);
    NoFaults(DEFAULT_POLICY, all, 0);
    NoFaults(DEFAULT_POLICY, all, 3);
    forall op ensures !Open(es, 3, op) { UnwatchedAttempts(es, op); }
    forall op ensures !Open(all, 4, op) {
      UnwatchedAttempts(all, op);
      LastWordNext(all, 3, op);
    }
  }

  lemma LastWordNext(es: seq<Event>, n: nat, op: Id)
    requires n < |es|
    ensures LastWord(es, n + 1, op) == if es[n].op == op && Speaks(es[n]) then n else LastWord(es, n, op)
  {
  }
}
