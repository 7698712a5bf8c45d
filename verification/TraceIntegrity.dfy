/** Trace integrity: event sequence numbers and gap markers must tile one range of integers. */
module TraceIntegrity {
  import opened EventLog
  import opened Ordering
  import Text

  datatype Kind = Ordinary | Gap(from: int, to: int)

  datatype Event = Event(id: Id, sequence: int, subjectHash: Id, predecessorId: Option<Id>, kind: Kind)

  datatype Reason =
    | ForeignSubjectEvent(id: Id)
    | DuplicateEventId(id: Id)
    | DuplicateSequence(id: Id, sequence: int)
    | OutOfOrder(id: Id, expected: int, sequence: int)
    | UnmarkedTraceGap(id: Id, expected: int, sequence: int)
    | PredecessorMismatch(id: Id, previous: Id)
    | InvalidGapMarker(id: Id)
    | PartialTraceWithoutGapMarker

  function IntText(n: int): string {
    if n < 0 then "-" + Text.Decimal(-n) else Text.Decimal(n)
  }

  function Code(r: Reason): string {
    match r
    case ForeignSubjectEvent(_) => "FOREIGN_SUBJECT_EVENT"
    case DuplicateEventId(_) => "DUPLICATE_EVENT_ID"
    case DuplicateSequence(_, _) => "DUPLICATE_SEQUENCE"
    case OutOfOrder(_, _, _) => "OUT_OF_ORDER"
    case UnmarkedTraceGap(_, _, _) => "UNMARKED_TRACE_GAP"
    case PredecessorMismatch(_, _) => "PREDECESSOR_MISMATCH"
    case InvalidGapMarker(_) => "INVALID_GAP_MARKER"
    case PartialTraceWithoutGapMarker => "PARTIAL_TRACE_WITHOUT_GAP_MARKER"
  }

  function Refs(r: Reason): seq<string> {
    match r
    case ForeignSubjectEvent(id) => [id]
    case DuplicateEventId(id) => [id]
    case DuplicateSequence(id, sequence) => [id, IntText(sequence)]
    case OutOfOrder(id, expected, sequence) => [id, IntText(expected), IntText(sequence)]
    case UnmarkedTraceGap(id, expected, sequence) => [id, IntText(expected), IntText(sequence)]
    case PredecessorMismatch(id, previous) => [id, previous]
    case InvalidGapMarker(id) => [id]
    case PartialTraceWithoutGapMarker => []
  }

  /** The order of the result: by code, then by references. */
  predicate ReasonLe(x: Reason, y: Reason) {
    if Code(x) == Code(y) then ListLe(Refs(x), Refs(y)) else Le(Code(x), Code(y))
  }

  lemma ReasonOrderIsTotal()
    ensures TotalPreorder(ReasonLe)
  {
    hide Code, Refs, ListLe, Le;
    forall x, y ensures ReasonLe(x, y) || ReasonLe(y, x) {
      LeTotal(Code(x), Code(y));
      ListLeTotal(Refs(x), Refs(y));
    }
    forall x, y, z | ReasonLe(x, y) && ReasonLe(y, z) ensures ReasonLe(x, z) { ReasonLeTransitive(x, y, z); }
  }

  lemma ReasonLeTransitive(x: Reason, y: Reason, z: Reason)
    requires ReasonLe(x, y) && ReasonLe(y, z)
    ensures ReasonLe(x, z)
  {
    hide Code, Refs, ListLe, Le;
    if Code(x) == Code(y) == Code(z) {
      ListLeTransitive(Refs(x), Refs(y), Refs(z));
    } else if Code(x) != Code(y) && Code(y) != Code(z) {
      LeTransitive(Code(x), Code(y), Code(z));
      if Code(x) == Code(z) { LeAntisymmetric(Code(x), Code(y)); }
    }
  }

  // ---------------------------------------------------------------- what is meant

  predicate ValidMarker(e: Event) {
    e.kind.Gap? ==> e.kind.from == e.sequence && e.kind.to >= e.kind.from
  }

  /** The last sequence number an event accounts for; the first is its own. */
  function End(e: Event): int {
    if e.kind.Gap? && ValidMarker(e) then e.kind.to else e.sequence
  }

  ghost predicate Accepted(es: seq<Event>) {
    es != [] && forall e :: e in es ==> e.sequence >= 0
  }

  /** Neighbouring events account for neighbouring stretches of sequence numbers. */
  ghost predicate Tiles(es: seq<Event>) {
    forall k :: 1 <= k < |es| ==> es[k].sequence == End(es[k - 1]) + 1
  }

  ghost predicate Linked(es: seq<Event>) {
    forall k :: 1 <= k < |es| ==> es[k].predecessorId == Some(es[k - 1].id)
  }

  ghost predicate Sound(subjectHash: Id, completeExpected: bool, es: seq<Event>) {
    && (forall e :: e in es ==> e.subjectHash == subjectHash && ValidMarker(e))
    && (forall i, j :: 0 <= i < j < |es| ==> es[i].id != es[j].id)
    && Linked(es) && Tiles(es)
    && (completeExpected || exists e :: e in es && e.kind.Gap?)
  }

  // ------------------------------------------------------------------- the reasons

  ghost function ReasonsAt(subjectHash: Id, es: seq<Event>, k: nat): seq<Reason>
    requires k < |es|
  {
    var e := es[k];
    var expected := if k == 0 then e.sequence else End(es[k - 1]) + 1;
    When(e.subjectHash != subjectHash, ForeignSubjectEvent(e.id))
    + When(exists i :: 0 <= i < k && es[i].id == e.id, DuplicateEventId(e.id))
    + When(exists i :: 0 <= i < k && es[i].sequence == e.sequence, DuplicateSequence(e.id, e.sequence))
    + When(e.sequence < expected, OutOfOrder(e.id, expected, e.sequence))
    + When(e.sequence > expected, UnmarkedTraceGap(e.id, expected, e.sequence))
    + (if k == 0 then [] else When(e.predecessorId != Some(es[k - 1].id), PredecessorMismatch(e.id, es[k - 1].id)))
    + When(!ValidMarker(e), InvalidGapMarker(e.id))
  }

  ghost function ReasonsOf(subjectHash: Id, es: seq<Event>, n: nat): seq<Reason>
    requires n <= |es|
  {
    if n == 0 then [] else ReasonsOf(subjectHash, es, n - 1) + ReasonsAt(subjectHash, es, n - 1)
  }

  /** What the pass carries: the ids and numbers seen, the number expected next, the previous id. */
  datatype Scan = Scan(seenIds: set<Id>, seenSequences: set<int>, expectedSequence: Option<int>, previousId: Option<Id>)

  ghost predicate Scanned(s: Scan, es: seq<Event>, k: nat)
    requires k <= |es|
  {
    && (forall x :: x in s.seenIds <==> exists i :: 0 <= i < k && es[i].id == x)
    && (forall x :: x in s.seenSequences <==> exists i :: 0 <= i < k && es[i].sequence == x)
    && s.expectedSequence == (if k == 0 then None else Some(End(es[k - 1]) + 1))
    && s.previousId == (if k == 0 then None else Some(es[k - 1].id))
  }

  method Visit(subjectHash: Id, s: Scan, e: Event, ghost es: seq<Event>, ghost k: nat)
    returns (s': Scan, found: seq<Reason>)
    requires k < |es| && es[k] == e && Scanned(s, es, k)
    ensures Scanned(s', es, k + 1)
    ensures found == ReasonsAt(subjectHash, es, k)
  {
    found := When(e.subjectHash != subjectHash, ForeignSubjectEvent(e.id));
    found := found + When(e.id in s.seenIds, DuplicateEventId(e.id));
    found := found + When(e.sequence in s.seenSequences, DuplicateSequence(e.id, e.sequence));
    var expected := if s.expectedSequence == None then e.sequence else s.expectedSequence.value;
    found := found + When(e.sequence < expected, OutOfOrder(e.id, expected, e.sequence));
    found := found + When(e.sequence > expected, UnmarkedTraceGap(e.id, expected, e.sequence));
    found := found
      + (if s.previousId.Some? then When(e.predecessorId != s.previousId, PredecessorMismatch(e.id, s.previousId.value))
         else []);
    var invalid := e.kind.Gap? && (e.kind.from != e.sequence || e.kind.to < e.kind.from);
    found := found + When(invalid, InvalidGapMarker(e.id));
    var next := if e.kind.Gap? && !invalid then e.kind.to + 1 else e.sequence + 1;
    s' := Scan(s.seenIds + {e.id}, s.seenSequences + {e.sequence}, Some(next), Some(e.id));
  }

  /** The pass itself; a negative number stops it. */
  method ScanAll(subjectHash: Id, es: seq<Event>) returns (found: Option<(seq<Reason>, bool)>)
    ensures found.Some? <==> forall i :: 0 <= i < |es| ==> es[i].sequence >= 0
    ensures found.Some? ==> found.value.0 == ReasonsOf(subjectHash, es, |es|)
                            && (found.value.1 <==> exists i :: 0 <= i < |es| && es[i].kind.Gap?)
  {
    hide ReasonsAt, Scanned, ValidMarker;
    var reasons: seq<Reason> := [];
    var scan := Scan({}, {}, None, None);
    var someGap := false;
    ScannedNone(es);
    for k := 0 to |es|
      invariant forall i :: 0 <= i < k ==> es[i].sequence >= 0
      invariant reasons == ReasonsOf(subjectHash, es, k)
      invariant Scanned(scan, es, k)
      invariant someGap <==> exists i :: 0 <= i < k && es[i].kind.Gap?
    {
      var e := es[k];
      if e.sequence < 0 {
        return None;
      }
      var more;
      scan, more := Visit(subjectHash, scan, e, es, k);
      someGap := someGap || e.kind.Gap?;
      reasons := reasons + more;
    }
    found := Some((reasons, someGap));
  }

  /** The verdict on a trace; one that is empty or has a negative number is refused. */
  method Evaluate(subjectHash: Id, completeExpected: bool, es: seq<Event>) returns (r: Option<seq<Reason>>)
    ensures r.Some? <==> Accepted(es)
    ensures r.Some? ==> multiset(r.value) == multiset(AllReasons(subjectHash, completeExpected, es))
                        && SortedBy(r.value, ReasonLe)
    ensures r.Some? ==> (r.value == [] <==> Sound(subjectHash, completeExpected, es))
  {
    hide ReasonsOf, Sound, Sort, SortedBy, ReasonLe, TotalPreorder;
    if es == [] {
      return None;
    }
    var found := ScanAll(subjectHash, es);
    if found == None {
      return None;
    }
    var (reasons, someGap) := found.value;
    NoReasonsIffSound(subjectHash, completeExpected, es);
    if !completeExpected && !someGap {
      reasons := reasons + [PartialTraceWithoutGapMarker];
    }
    assert reasons == AllReasons(subjectHash, completeExpected, es);
    ReasonOrderIsTotal();
    SortKeeps(reasons, ReasonLe);
    SortSorts(reasons, ReasonLe);
    r := Some(Sort(reasons, ReasonLe));
  }

  /** Every reason of the trace, in the order of the events. */
  ghost function AllReasons(subjectHash: Id, completeExpected: bool, es: seq<Event>): seq<Reason> {
    ReasonsOf(subjectHash, es, |es|)
    + When(!completeExpected && forall e :: e in es ==> !e.kind.Gap?, PartialTraceWithoutGapMarker)
  }

  lemma ScannedNone(es: seq<Event>)
    ensures Scanned(Scan({}, {}, None, None), es, 0)
  {
  }

  lemma NoReasonsIffSound(subjectHash: Id, completeExpected: bool, es: seq<Event>)
    ensures (ReasonsOf(subjectHash, es, |es|) == [] && (completeExpected || exists e :: e in es && e.kind.Gap?))
       <==> Sound(subjectHash, completeExpected, es)
  {
    hide ReasonsAt;
    NoReasons(subjectHash, es, |es|);
    forall k | 0 <= k < |es| && ReasonsAt(subjectHash, es, k) == [] ensures Blameless(subjectHash, es, k) {
      NoReasonsAt(subjectHash, es, k);
    }
    if forall k :: 0 <= k < |es| ==> Blameless(subjectHash, es, k) {
      forall k | 0 <= k < |es| ensures ReasonsAt(subjectHash, es, k) == [] {
        BlamelessHasNoReasons(subjectHash, es, k);
      }
    }
    SoundIsBlameless(subjectHash, es);
  }

  /** What the reasons at one event leave standing. */
  ghost predicate Blameless(subjectHash: Id, es: seq<Event>, k: nat)
    requires k < |es|
  {
    && es[k].subjectHash == subjectHash && ValidMarker(es[k])
    && (forall i :: 0 <= i < k ==> es[i].id != es[k].id)
    && (k > 0 ==> es[k].sequence == End(es[k - 1]) + 1 && es[k].predecessorId == Some(es[k - 1].id))
  }

  lemma SoundIsBlameless(subjectHash: Id, es: seq<Event>)
    ensures (forall k :: 0 <= k < |es| ==> Blameless(subjectHash, es, k)) <==> Sound(subjectHash, true, es)
  {
    if forall k :: 0 <= k < |es| ==> Blameless(subjectHash, es, k) {
      forall e | e in es ensures e.subjectHash == subjectHash && ValidMarker(e) {
        var k :| 0 <= k < |es| && es[k] == e;
        assert Blameless(subjectHash, es, k);
      }
      forall i, j | 0 <= i < j < |es| ensures es[i].id != es[j].id { assert Blameless(subjectHash, es, j); }
      forall k | 1 <= k < |es|
        ensures es[k].sequence == End(es[k - 1]) + 1 && es[k].predecessorId == Some(es[k - 1].id)
      {
        assert Blameless(subjectHash, es, k);
      }
    }
    if Sound(subjectHash, true, es) {
      forall k | 0 <= k < |es| ensures Blameless(subjectHash, es, k) { assert es[k] in es; }
    }
  }

  lemma BlamelessHasNoReasons(subjectHash: Id, es: seq<Event>, k: nat)
    requires k < |es| && forall i :: 0 <= i < |es| ==> Blameless(subjectHash, es, i)
    ensures ReasonsAt(subjectHash, es, k) == []
  {
    assert Tiles(es) by {
      forall j | 1 <= j < |es| ensures es[j].sequence == End(es[j - 1]) + 1 { assert Blameless(subjectHash, es, j); }
    }
    assert Blameless(subjectHash, es, k);
    forall i | 0 <= i < k ensures es[i].sequence != es[k].sequence { NumbersRise(es, i, k); }
  }

  lemma NoReasonsAt(subjectHash: Id, es: seq<Event>, k: nat)
    requires k < |es| && ReasonsAt(subjectHash, es, k) == []
    ensures Blameless(subjectHash, es, k)
  {
  }

  lemma {:induction false} NoReasons(subjectHash: Id, es: seq<Event>, n: nat)
    requires n <= |es|
    ensures ReasonsOf(subjectHash, es, n) == [] <==> forall k :: 0 <= k < n ==> ReasonsAt(subjectHash, es, k) == []
  {
    hide ReasonsAt;
    if n > 0 { NoReasons(subjectHash, es, n - 1); }
  }

  // ------------------------------------------------------------- what each reason says

  /** The number expected after an event: one past a proper gap marker, or past the event's own number. */
  function Next(e: Event): int {
    if e.kind.Gap? && e.kind.from == e.sequence && e.kind.to >= e.kind.from then e.kind.to + 1 else e.sequence + 1
  }

  /** Event `k` gives the reason `r`: a foreign subject; an id or a number that an event before it has; a number below
      or above the one expected after the event before it; a predecessor other than that event; an improper marker. */
  ghost predicate Gives(subjectHash: Id, es: seq<Event>, k: nat, r: Reason)
    requires k < |es|
  {
    var e := es[k];
    match r
    case ForeignSubjectEvent(id) => id == e.id && e.subjectHash != subjectHash
    case DuplicateEventId(id) => id == e.id && exists i :: 0 <= i < k && es[i].id == id
    case DuplicateSequence(id, n) => id == e.id && n == e.sequence && exists i :: 0 <= i < k && es[i].sequence == n
    case OutOfOrder(id, expected, n) =>
      k > 0 && id == e.id && n == e.sequence && expected == Next(es[k - 1]) && n < expected
    case UnmarkedTraceGap(id, expected, n) =>
      k > 0 && id == e.id && n == e.sequence && expected == Next(es[k - 1]) && n > expected
    case PredecessorMismatch(id, previous) =>
      k > 0 && id == e.id && previous == es[k - 1].id && e.predecessorId != Some(previous)
    case InvalidGapMarker(id) => id == e.id && e.kind.Gap? && (e.kind.from != e.sequence || e.kind.to < e.kind.from)
    case PartialTraceWithoutGapMarker => false
  }

  lemma InSum(xs: seq<Reason>, condition: bool, y: Reason, r: Reason)
    ensures r in xs + When(condition, y) <==> r in xs || (condition && r == y)
  {
  }

  /** The reasons before the last two kinds. */
  ghost function FirstReasons(subjectHash: Id, es: seq<Event>, k: nat): seq<Reason>
    requires k < |es|
  {
    var e := es[k];
    var expected := if k == 0 then e.sequence else End(es[k - 1]) + 1;
    When(e.subjectHash != subjectHash, ForeignSubjectEvent(e.id))
    + When(exists i :: 0 <= i < k && es[i].id == e.id, DuplicateEventId(e.id))
    + When(exists i :: 0 <= i < k && es[i].sequence == e.sequence, DuplicateSequence(e.id, e.sequence))
    + When(e.sequence < expected, OutOfOrder(e.id, expected, e.sequence))
    + When(e.sequence > expected, UnmarkedTraceGap(e.id, expected, e.sequence))
  }

  /** One of the first reasons, with what goes with it. */
  ghost predicate Listed(subjectHash: Id, es: seq<Event>, k: nat, r: Reason)
    requires k < |es|
  {
    var e := es[k];
    var expected := if k == 0 then e.sequence else End(es[k - 1]) + 1;
    || (e.subjectHash != subjectHash && r == ForeignSubjectEvent(e.id))
    || ((exists i :: 0 <= i < k && es[i].id == e.id) && r == DuplicateEventId(e.id))
    || ((exists i :: 0 <= i < k && es[i].sequence == e.sequence) && r == DuplicateSequence(e.id, e.sequence))
    || (e.sequence < expected && r == OutOfOrder(e.id, expected, e.sequence))
    || (e.sequence > expected && r == UnmarkedTraceGap(e.id, expected, e.sequence))
  }

  lemma FirstReasonsListed(subjectHash: Id, es: seq<Event>, k: nat, r: Reason)
    requires k < |es|
    ensures r in FirstReasons(subjectHash, es, k) <==> Listed(subjectHash, es, k, r)
  {
    hide When, End;
    var e := es[k];
    var expected := if k == 0 then e.sequence else End(es[k - 1]) + 1;
    InFive(e.subjectHash != subjectHash, ForeignSubjectEvent(e.id),
           exists i :: 0 <= i < k && es[i].id == e.id, DuplicateEventId(e.id),
           exists i :: 0 <= i < k && es[i].sequence == e.sequence, DuplicateSequence(e.id, e.sequence),
           e.sequence < expected, OutOfOrder(e.id, expected, e.sequence),
           e.sequence > expected, UnmarkedTraceGap(e.id, expected, e.sequence), r);
  }

  lemma FirstReasonsAre(subjectHash: Id, es: seq<Event>, k: nat, r: Reason)
    requires k < |es|
    ensures r in FirstReasons(subjectHash, es, k) <==>
            Gives(subjectHash, es, k, r) && !r.PredecessorMismatch? && !r.InvalidGapMarker?
  {
    FirstReasonsListed(subjectHash, es, k, r);
    hide FirstReasons;
  }

  lemma InFive(a: bool, u: Reason, b: bool, v: Reason, c: bool, w: Reason, d: bool, x: Reason, e: bool, y: Reason,
               r: Reason)
    ensures r in When(a, u) + When(b, v) + When(c, w) + When(d, x) + When(e, y) <==>
            (a && r == u) || (b && r == v) || (c && r == w) || (d && r == x) || (e && r == y)
  {
    var xs := When(a, u);
    InSum(xs, b, v, r);
    InSum(xs + When(b, v), c, w, r);
    InSum(xs + When(b, v) + When(c, w), d, x, r);
    InSum(xs + When(b, v) + When(c, w) + When(d, x), e, y, r);
  }

  /** What one event contributes. */
  lemma ReasonsAtAre(subjectHash: Id, es: seq<Event>, k: nat, r: Reason)
    requires k < |es|
    ensures r in ReasonsAt(subjectHash, es, k) <==> Gives(subjectHash, es, k, r)
  {
    hide FirstReasons;
    var e, first := es[k], FirstReasons(subjectHash, es, k);
    var mismatch := k > 0 && e.predecessorId != Some(es[k - 1].id);
    var previous := if k == 0 then e.id else es[k - 1].id;
    FirstReasonsAre(subjectHash, es, k, r);
    SumOfReasons(subjectHash, es, k);
    hide ReasonsAt;
    InSum(first, mismatch, PredecessorMismatch(e.id, previous), r);
    InSum(first + When(mismatch, PredecessorMismatch(e.id, previous)), !ValidMarker(e), InvalidGapMarker(e.id), r);
    hide When;
  }

  lemma SumOfReasons(subjectHash: Id, es: seq<Event>, k: nat)
    requires k < |es|
    ensures ReasonsAt(subjectHash, es, k)
         == FirstReasons(subjectHash, es, k)
            + When(k > 0 && es[k].predecessorId != Some(es[k - 1].id),
                   PredecessorMismatch(es[k].id, if k == 0 then es[k].id else es[k - 1].id))
            + When(!ValidMarker(es[k]), InvalidGapMarker(es[k].id))
  {
  }

  /** The turn of a reason among those of one event. */
  function Turn(r: Reason): nat {
    match r
    case ForeignSubjectEvent(_) => 0
    case DuplicateEventId(_) => 1
    case DuplicateSequence(_, _) => 2
    case OutOfOrder(_, _, _) => 3
    case UnmarkedTraceGap(_, _, _) => 4
    case PredecessorMismatch(_, _) => 5
    case InvalidGapMarker(_) => 6
    case PartialTraceWithoutGapMarker => 7
  }

  lemma NextRises(xs: seq<Reason>, condition: bool, y: Reason) returns (all: seq<Reason>)
    requires Rising(xs, Turn, 0, Turn(y))
    ensures all == xs + When(condition, y) && Rising(all, Turn, 0, Turn(y) + 1)
  {
    all := xs + When(condition, y);
    RisingWhen(condition, y, Turn);
    RisingJoin(xs, When(condition, y), Turn, 0, Turn(y), Turn(y), Turn(y) + 1);
  }

  /** One event gives a kind of reason once at most. */
  lemma ReasonsRise(subjectHash: Id, es: seq<Event>, k: nat)
    requires k < |es|
    ensures Rising(ReasonsAt(subjectHash, es, k), Turn, 0, 7)
  {
    FirstReasonsRise(subjectHash, es, k);
    SumOfReasons(subjectHash, es, k);
    hide ReasonsAt, FirstReasons, Rising, When;
    var xs := NextRises(FirstReasons(subjectHash, es, k), k > 0 && es[k].predecessorId != Some(es[k - 1].id),
                        PredecessorMismatch(es[k].id, if k == 0 then es[k].id else es[k - 1].id));
    xs := NextRises(xs, !ValidMarker(es[k]), InvalidGapMarker(es[k].id));
  }

  lemma FirstReasonsRise(subjectHash: Id, es: seq<Event>, k: nat)
    requires k < |es|
    ensures Rising(FirstReasons(subjectHash, es, k), Turn, 0, 5)
  {
    hide When, End, Rising;
    var e := es[k];
    var expected := if k == 0 then e.sequence else End(es[k - 1]) + 1;
    FiveRise(e.subjectHash != subjectHash, ForeignSubjectEvent(e.id),
             exists i :: 0 <= i < k && es[i].id == e.id, DuplicateEventId(e.id),
             exists i :: 0 <= i < k && es[i].sequence == e.sequence, DuplicateSequence(e.id, e.sequence),
             e.sequence < expected, OutOfOrder(e.id, expected, e.sequence),
             e.sequence > expected, UnmarkedTraceGap(e.id, expected, e.sequence));
  }

  lemma FiveRise(a: bool, u: Reason, b: bool, v: Reason, c: bool, w: Reason, d: bool, x: Reason, e: bool, y: Reason)
    requires Turn(u) == 0 && Turn(v) == 1 && Turn(w) == 2 && Turn(x) == 3 && Turn(y) == 4
    ensures Rising(When(a, u) + When(b, v) + When(c, w) + When(d, x) + When(e, y), Turn, 0, 5)
  {
    hide Rising, When, Turn;
    RisingWhen(a, u, Turn);
    var xs := NextRises(When(a, u), b, v);
    xs := NextRises(xs, c, w);
    xs := NextRises(xs, d, x);
    xs := NextRises(xs, e, y);
  }

  /** The result of every trace holds exactly the reasons its events give, and one more if a trace expected to be
      partial has no gap marker. */
  lemma ReasonsMean(subjectHash: Id, completeExpected: bool, es: seq<Event>, r: Reason)
    ensures r in AllReasons(subjectHash, completeExpected, es) <==>
            || (exists k :: 0 <= k < |es| && Gives(subjectHash, es, k, r))
            || (r.PartialTraceWithoutGapMarker? && !completeExpected && forall e :: e in es ==> !e.kind.Gap?)
  {
    hide ReasonsOf, Gives;
    ReasonsOfAre(subjectHash, es, |es|, r);
  }

  lemma {:induction false} ReasonsOfAre(subjectHash: Id, es: seq<Event>, n: nat, r: Reason)
    requires n <= |es|
    ensures r in ReasonsOf(subjectHash, es, n) <==> exists k :: 0 <= k < n && Gives(subjectHash, es, k, r)
  {
    hide ReasonsAt, Gives;
    if n > 0 {
      ReasonsOfAre(subjectHash, es, n - 1, r);
      ReasonsAtAre(subjectHash, es, n - 1, r);
    }
  }

  // ------------------------------------------------------------------ the order of codes

  function CodeRank(r: Reason): nat {
    match r
    case DuplicateEventId(_) => 0
    case DuplicateSequence(_, _) => 1
    case ForeignSubjectEvent(_) => 2
    case InvalidGapMarker(_) => 3
    case OutOfOrder(_, _, _) => 4
    case PartialTraceWithoutGapMarker => 5
    case PredecessorMismatch(_, _) => 6
    case UnmarkedTraceGap(_, _, _) => 7
  }

  lemma Precedes(a: string, b: string, i: nat)
    requires i < |a| && i < |b| && a[..i] == b[..i] && a[i] < b[i]
    ensures Le(a, b) && !Le(b, a) && a != b
  {
    LeIff(a, b);
    assert SmallerFirst(a, b);
    if Le(b, a) { LeAntisymmetric(a, b); }
  }

  /** How far the texts of two codes agree. */
  function Agreement(x: Reason, y: Reason): nat {
    if x.DuplicateEventId? && y.DuplicateSequence? then 10
    else if x.PartialTraceWithoutGapMarker? && y.PredecessorMismatch? then 1
    else 0
  }

  lemma CodesDiffer(x: Reason, y: Reason)
    requires CodeRank(x) < CodeRank(y)
    ensures var a, b, i := Code(x), Code(y), Agreement(x, y);
            i < |a| && i < |b| && a[..i] == b[..i] && a[i] < b[i]
  {
  }

  /** Reasons of different codes come in this order. */
  lemma CodesInOrder(x: Reason, y: Reason)
    requires CodeRank(x) < CodeRank(y)
    ensures ReasonLe(x, y) && !ReasonLe(y, x)
  {
    CodesDiffer(x, y);
    hide Refs, ListLe, Code;
    Precedes(Code(x), Code(y), Agreement(x, y));
  }

  // -------------------------------------------------------------------- the tiling

  lemma {:induction false} NumbersRise(es: seq<Event>, i: nat, j: nat)
    requires Tiles(es) && i < j < |es|
    ensures End(es[i]) < es[j].sequence
  {
    if i + 1 < j { NumbersRise(es, i, j - 1); }
  }

  ghost predicate Covers(e: Event, x: int) {
    e.sequence <= x <= End(e)
  }

  /** In a tiled trace every number between the first and the last is accounted for by exactly one
      event, and no other number by any. */
  lemma {:induction false} EachNumberOnce(es: seq<Event>, x: int)
    requires es != [] && Tiles(es)
    ensures es[0].sequence <= x <= End(es[|es| - 1]) <==> exists k :: 0 <= k < |es| && Covers(es[k], x)
    ensures forall i, j :: 0 <= i < |es| && 0 <= j < |es| && Covers(es[i], x) && Covers(es[j], x) ==> i == j
  {
    forall i, j | 0 <= i < j < |es| ensures !(Covers(es[i], x) && Covers(es[j], x)) { NumbersRise(es, i, j); }
    if es[0].sequence <= x <= End(es[|es| - 1]) {
      var k := Coverer(es, |es|, x);
    }
    if k :| 0 <= k < |es| && Covers(es[k], x) {
      if k > 0 { NumbersRise(es, 0, k); }
      if k < |es| - 1 { NumbersRise(es, k, |es| - 1); }
    }
  }

  lemma {:induction false} Coverer(es: seq<Event>, n: nat, x: int) returns (k: nat)
    requires 0 < n <= |es| && Tiles(es) && es[0].sequence <= x <= End(es[n - 1])
    ensures k < n && Covers(es[k], x)
  {
    if es[n - 1].sequence <= x {
      k := n - 1;
    } else {
      k := Coverer(es, n - 1, x);
    }
  }

  ghost function TotalLength(es: seq<Event>): int {
    if es == [] then 0 else TotalLength(es[..|es| - 1]) + End(es[|es| - 1]) - es[|es| - 1].sequence + 1
  }

  /** The stretches add up to the whole range. */
  lemma {:induction false} LengthsAddUp(es: seq<Event>)
    requires es != [] && Tiles(es)
    ensures TotalLength(es) == End(es[|es| - 1]) - es[0].sequence + 1
  {
    if |es| > 1 {
      LengthsAddUp(es[..|es| - 1]);
    } else {
      assert es[..0] == [];
    }
  }
}
