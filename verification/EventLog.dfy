/** The log both trace evaluators keep, faults with the number of the event that committed them, how a log is
    graded, and the counters of a result. */
module EventLog {
  import opened Ordering

  datatype Violation<+F> = Violation(fault: F, eventSeq: nat)

  function Tagged<F>(faults: seq<F>, eventSeq: nat): seq<Violation<F>> {
    seq(|faults|, i requires 0 <= i < |faults| => Violation(faults[i], eventSeq))
  }

  // --------------------------------------------------------------------------- order

  /** The faults have rising ranks, from `lo` up to but not including `hi`. */
  predicate Rising<F>(faults: seq<F>, rank: F -> nat, lo: nat, hi: nat) {
    && (forall i :: 0 <= i < |faults| ==> lo <= rank(faults[i]) < hi)
    && (forall i, j :: 0 <= i < j < |faults| ==> rank(faults[i]) < rank(faults[j]))
  }

  lemma RisingWhen<F>(condition: bool, x: F, rank: F -> nat)
    ensures Rising(When(condition, x), rank, rank(x), rank(x) + 1)
  {
  }

  lemma RisingJoin<F>(xs: seq<F>, ys: seq<F>, rank: F -> nat, lo: nat, mid: nat, mid': nat, hi: nat)
    requires Rising(xs, rank, lo, mid) && Rising(ys, rank, mid', hi) && lo <= mid <= mid' <= hi
    ensures Rising(xs + ys, rank, lo, hi)
  {
  }

  /** By event, and at each event by rank. */
  predicate Before<F>(rank: F -> nat, a: Violation<F>, b: Violation<F>) {
    a.eventSeq < b.eventSeq || (a.eventSeq == b.eventSeq && rank(a.fault) < rank(b.fault))
  }

  predicate LogInOrder<F>(log: seq<Violation<F>>, rank: F -> nat) {
    forall i, j :: 0 <= i < j < |log| ==> Before(rank, log[i], log[j])
  }

  lemma InTagged<F>(faults: seq<F>, eventSeq: nat, v: Violation<F>)
    ensures v in Tagged(faults, eventSeq) <==> v.eventSeq == eventSeq && v.fault in faults
  {
    if v.fault in faults && v.eventSeq == eventSeq {
      var i :| 0 <= i < |faults| && faults[i] == v.fault;
      assert Tagged(faults, eventSeq)[i] == v;
    }
  }

  lemma OneMoreEvent<F>(log: seq<Violation<F>>, faults: seq<F>, n: nat, rank: F -> nat, hi: nat)
    requires LogInOrder(log, rank) && Rising(faults, rank, 0, hi)
    requires forall i :: 0 <= i < |log| ==> log[i].eventSeq < n
    ensures LogInOrder(log + Tagged(faults, n), rank)
  {
  }

  /** Two logs in order that hold the same violations are the same log. */
  lemma OneLog<F(!new)>(log: seq<Violation<F>>, log': seq<Violation<F>>, rank: F -> nat)
    requires LogInOrder(log, rank) && LogInOrder(log', rank) && forall v :: v in log <==> v in log'
    ensures log == log'
  {
    var lt := (a: Violation<F>, b: Violation<F>) => Before(rank, a, b);
    assert forall i, j :: 0 <= i < j < |log| ==> lt(log[i], log[j]);
    assert forall i, j :: 0 <= i < j < |log'| ==> lt(log'[i], log'[j]);
    StrictListIsUnique(log, log', lt);
  }

  // ------------------------------------------------------------------------- grading

  function Total<F>(log: seq<Violation<F>>, penalty: F -> nat): nat {
    if log == [] then 0 else penalty(log[0].fault) + Total(log[1..], penalty)
  }

  lemma {:induction false} TotalNext<F>(log: seq<Violation<F>>, penalty: F -> nat)
    requires log != []
    ensures Total(log, penalty) == Total(log[..|log| - 1], penalty) + penalty(log[|log| - 1].fault)
  {
    if |log| > 1 {
      TotalNext(log[1..], penalty);
      assert log[1..][..|log| - 2] == log[..|log| - 1][1..];
    }
  }

  predicate AnyCritical<F>(log: seq<Violation<F>>, critical: F -> bool) {
    exists i :: 0 <= i < |log| && critical(log[i].fault)
  }

  /** A hundred less the penalties, at least 0, and below 50 after a critical fault. */
  function Score<F>(log: seq<Violation<F>>, penalty: F -> nat, critical: F -> bool): nat {
    var score := if Total(log, penalty) > 100 then 0 else 100 - Total(log, penalty);
    if AnyCritical(log, critical) && score > 49 then 49 else score
  }

  lemma {:induction false} TotalIsPositive<F>(log: seq<Violation<F>>, penalty: F -> nat)
    requires forall i :: 0 <= i < |log| ==> penalty(log[i].fault) > 0
    ensures Total(log, penalty) == 0 <==> log == []
    ensures Total(log, penalty) >= |log|
  {
    if log != [] { TotalIsPositive(log[1..], penalty); }
  }

  /** The full score is given exactly to empty logs, and a critical fault keeps it below half; otherwise the
      penalties are taken off, down to nothing. */
  lemma ScoreMeans<F>(log: seq<Violation<F>>, penalty: F -> nat, critical: F -> bool)
    requires forall i :: 0 <= i < |log| ==> penalty(log[i].fault) > 0
    ensures Score(log, penalty, critical) == 100 <==> log == []
    ensures AnyCritical(log, critical) ==> Score(log, penalty, critical) < 50
    ensures var total, score := Total(log, penalty), Score(log, penalty, critical);
            && (total <= 50 && AnyCritical(log, critical) ==> score == 49)
            && (total > 50 || !AnyCritical(log, critical) ==>
                  && (total <= 100 ==> score + total == 100) && (total > 100 ==> score == 0))
  {
    TotalIsPositive(log, penalty);
  }

  function CountIf<E>(es: seq<E>, p: E -> bool): (n: nat)
    ensures n <= |es|
  {
    if es == [] then 0 else CountIf(es[..|es| - 1], p) + if p(es[|es| - 1]) then 1 else 0
  }

  /** A counter holds the number of places it is about. */
  lemma {:induction false} CountIsNumber<E>(es: seq<E>, p: E -> bool, places: set<int>)
    requires forall i :: i in places <==> 0 <= i < |es| && p(es[i])
    ensures CountIf(es, p) == |places|
  {
    if es == [] {
      assert forall i :: i !in places;
      assert places == {};
    } else {
      var n := |es| - 1;
      CountIsNumber(es[..n], p, places - {n});
      if !p(es[n]) { assert places - {n} == places; }
    }
  }

  lemma {:induction false} CountsAddUp<E>(es: seq<E>, p: E -> bool, q: E -> bool)
    requires forall i :: 0 <= i < |es| ==> p(es[i]) != q(es[i])
    ensures CountIf(es, p) + CountIf(es, q) == |es|
  {
    if es != [] { CountsAddUp(es[..|es| - 1], p, q); }
  }

  lemma {:induction false} CountsAgree<E>(es: seq<E>, p: E -> bool, q: E -> bool)
    requires forall i :: 0 <= i < |es| ==> (p(es[i]) <==> q(es[i]))
    ensures CountIf(es, p) == CountIf(es, q)
  {
    if es != [] { CountsAgree(es[..|es| - 1], p, q); }
  }

  lemma {:induction false} CountsNone<E>(es: seq<E>, p: E -> bool)
    ensures CountIf(es, p) == 0 <==> forall i :: 0 <= i < |es| ==> !p(es[i])
  {
    if es != [] {
      var before := es[..|es| - 1];
      CountsNone(before, p);
      assert forall i :: 0 <= i < |before| ==> before[i] == es[i];
    }
  }
}
