/** Verification-work planning: screen, rank, and greedily admit work under a capacity and a budget.
    Costs, weights and scores are reals. */
module Planner {
  import opened Ordering

  datatype Weights = Weights(risk: real, priority: real, age: real, informationGain: real, cost: real)

  datatype Policy = Policy(capacityUnits: int, budget: real, requireInformationGain: bool, weights: Weights)

  datatype Work = Work(id: Id, capability: Id, required: bool, riskWeight: real, priority: real, age: nat,
                       capacityUnits: int, declaredCost: Option<real>, observedCost: Option<real>,
                       estimatedCost: real, expectedInformationGain: Option<real>, prerequisites: seq<Id>)

  datatype CostBasis = Observed | Estimated

  datatype Disposition =
    | BlockedPrerequisite | UnmodeledInformationValue | DeferredOversized
    | DeferredCapacity | DeferredBudget | Selected

  /** A row repeats its item. */
  datatype Row = Row(item: Work, planningCost: real, basis: CostBasis, disposition: Disposition,
                     missingPrerequisites: seq<Id>, score: Option<real>)

  datatype DebtStatus = Admitted | OwedCapacity | OwedBudget | OwedOversized | Blocked

  /** The debt receipt of a required item. */
  datatype Receipt = Receipt(id: Id, capability: Id, status: DebtStatus)

  datatype Left = Left(capacity: int, budget: real)

  /** What validation establishes about a campaign. */
  predicate ValidPolicy(p: Policy) {
    && p.capacityUnits >= 0 && p.budget >= 0.0
    && p.weights.risk >= 0.0 && p.weights.priority >= 0.0 && p.weights.informationGain >= 0.0
    && p.weights.cost >= 0.0 && p.weights.age > 0.0
  }

  predicate ValidWork(w: Work) {
    && w.riskWeight >= 0.0 && w.priority >= 0.0 && w.capacityUnits >= 0 && w.estimatedCost >= 0.0
    && (w.observedCost.Some? ==> w.observedCost.value >= 0.0)
    && (w.declaredCost.Some? ==> w.declaredCost.value >= 0.0)
    && (w.expectedInformationGain.Some? ==> w.expectedInformationGain.value >= 0.0)
  }

  predicate ValidCampaign(p: Policy, work: seq<Work>) {
    && ValidPolicy(p) && (forall w :: w in work ==> ValidWork(w))
    && forall i, j :: 0 <= i < j < |work| ==> work[i].id != work[j].id
  }

  // --------------------------------------------------------- screening and ranking

  function PlanningCost(w: Work): real {
    if w.observedCost.Some? then w.observedCost.value else w.estimatedCost
  }

  function BasisOf(w: Work): CostBasis {
    if w.observedCost.Some? then Observed else Estimated
  }

  function Missing(completed: set<Id>, w: Work): set<Id> {
    (set x | x in w.prerequisites) - completed
  }

  /** Why an item never competes; None for a candidate. */
  function Screen(p: Policy, completed: set<Id>, w: Work): Option<Disposition> {
    if Missing(completed, w) != {} then Some(BlockedPrerequisite)
    else if p.requireInformationGain && w.expectedInformationGain == None then Some(UnmodeledInformationValue)
    else if w.capacityUnits > p.capacityUnits || PlanningCost(w) > p.budget then Some(DeferredOversized)
    else None
  }

  /** The score without the contribution of age. */
  function BaseScore(p: Policy, w: Work): real {
    var gain := if w.expectedInformationGain.Some? then w.expectedInformationGain.value else 0.0;
    w.riskWeight * p.weights.risk + w.priority * p.weights.priority
    + gain * p.weights.informationGain - PlanningCost(w) * p.weights.cost
  }

  function Score(p: Policy, w: Work): real {
    BaseScore(p, w) + (w.age as real) * p.weights.age
  }

  predicate IdLe(a: Work, b: Work) {
    Le(a.id, b.id)
  }

  /** Higher score first, then text order of the id. */
  predicate RankLe(p: Policy, a: Work, b: Work) {
    Score(p, a) > Score(p, b) || (Score(p, a) == Score(p, b) && Le(a.id, b.id))
  }

  function Rank(p: Policy): (Work, Work) -> bool {
    (a, b) => RankLe(p, a, b)
  }

  lemma RankIsTotal(p: Policy)
    ensures TotalPreorder(Rank(p))
  {
    hide Score;
    forall a, b ensures Rank(p)(a, b) || Rank(p)(b, a) { LeTotal(a.id, b.id); }
    forall a, b, c | Rank(p)(a, b) && Rank(p)(b, c) ensures Rank(p)(a, c) {
      if Score(p, a) == Score(p, b) == Score(p, c) { LeTransitive(a.id, b.id, c.id); }
    }
  }

  function Candidates(p: Policy, completed: set<Id>, work: seq<Work>): seq<Work> {
    if work == [] then []
    else
      var init, last := Candidates(p, completed, work[..|work| - 1]), work[|work| - 1];
      if Screen(p, completed, last) == None then init + [last] else init
  }

  /** The candidates in the order in which they are considered. */
  function Ranked(p: Policy, completed: set<Id>, work: seq<Work>): seq<Work> {
    Sort(Candidates(p, completed, Sort(work, IdLe)), Rank(p))
  }

  lemma {:induction false} CandidatesHold(p: Policy, completed: set<Id>, work: seq<Work>)
    ensures forall w :: w in Candidates(p, completed, work) <==> w in work && Screen(p, completed, w) == None
  {
    hide Screen;
    if work != [] {
      CandidatesHold(p, completed, work[..|work| - 1]);
      TakeMore(work, |work| - 1);
      TakeAll(work);
    }
  }

  lemma RankedHolds(p: Policy, completed: set<Id>, work: seq<Work>)
    ensures SortedBy(Ranked(p, completed, work), Rank(p))
    ensures forall w :: w in Ranked(p, completed, work) <==> w in work && Screen(p, completed, w) == None
  {
    hide Candidates, Screen, Sort, Rank;
    var byId := Sort(work, IdLe);
    SortKeeps(work, IdLe);
    CandidatesHold(p, completed, byId);
    SortKeeps(Candidates(p, completed, byId), Rank(p));
    RankIsTotal(p);
    SortSorts(Candidates(p, completed, byId), Rank(p));
  }

  // ---------------------------------------------------------------- greedy choice

  function Decide(w: Work, left: Left): Disposition {
    if w.capacityUnits > left.capacity then DeferredCapacity
    else if PlanningCost(w) > left.budget then DeferredBudget
    else Selected
  }

  /** What is left after the first `k` ranked items have been decided. */
  ghost function LeftAfter(total: Left, ranked: seq<Work>, k: nat): Left
    requires k <= |ranked|
  {
    if k == 0 then total
    else
      var left, w := LeftAfter(total, ranked, k - 1), ranked[k - 1];
      if Decide(w, left) == Selected then Left(left.capacity - w.capacityUnits, left.budget - PlanningCost(w)) else left
  }

  ghost function DecisionAt(total: Left, ranked: seq<Work>, k: nat): Disposition
    requires k < |ranked|
  {
    Decide(ranked[k], LeftAfter(total, ranked, k))
  }

  ghost function SelectedUnits(total: Left, ranked: seq<Work>, k: nat): int
    requires k <= |ranked|
  {
    if k == 0 then 0
    else SelectedUnits(total, ranked, k - 1)
         + if DecisionAt(total, ranked, k - 1) == Selected then ranked[k - 1].capacityUnits else 0
  }

  ghost function SelectedCost(total: Left, ranked: seq<Work>, k: nat): real
    requires k <= |ranked|
  {
    if k == 0 then 0.0
    else SelectedCost(total, ranked, k - 1)
         + if DecisionAt(total, ranked, k - 1) == Selected then PlanningCost(ranked[k - 1]) else 0.0
  }

  /** Conservation: what is selected and what is left make up the totals, and nothing is overdrawn. */
  lemma {:induction false} Conservation(total: Left, ranked: seq<Work>, k: nat)
    requires k <= |ranked| && total.capacity >= 0 && total.budget >= 0.0
    ensures SelectedUnits(total, ranked, k) + LeftAfter(total, ranked, k).capacity == total.capacity
    ensures SelectedCost(total, ranked, k) + LeftAfter(total, ranked, k).budget == total.budget
    ensures LeftAfter(total, ranked, k).capacity >= 0 && LeftAfter(total, ranked, k).budget >= 0.0
  {
    if k > 0 { Conservation(total, ranked, k - 1); }
  }

  lemma {:induction false} LeftShrinks(total: Left, ranked: seq<Work>, i: nat, k: nat)
    requires i <= k <= |ranked| && forall w :: w in ranked ==> ValidWork(w)
    ensures LeftAfter(total, ranked, k).capacity <= LeftAfter(total, ranked, i).capacity
    ensures LeftAfter(total, ranked, k).budget <= LeftAfter(total, ranked, i).budget
  {
    if i < k {
      LeftShrinks(total, ranked, i, k - 1);
      assert ranked[k - 1] in ranked;
    }
  }

  /** Maximality: nothing that was deferred fits in what is left at the end. */
  lemma NothingDeferredFits(total: Left, ranked: seq<Work>, i: nat)
    requires i < |ranked| && forall w :: w in ranked ==> ValidWork(w)
    requires DecisionAt(total, ranked, i) != Selected
    ensures var left := LeftAfter(total, ranked, |ranked|);
            ranked[i].capacityUnits > left.capacity || PlanningCost(ranked[i]) > left.budget
  {
    LeftShrinks(total, ranked, i, |ranked|);
  }

  // ------------------------------------------------------------------- the planner

  function Total(p: Policy): Left {
    Left(p.capacityUnits, p.budget)
  }

  datatype Plan = Plan(selectedWorkIds: seq<Id>, left: Left, rows: seq<Row>, debts: seq<Receipt>)

  /** The row an item that never competes gets. */
  function ScreenedRow(p: Policy, completed: set<Id>, w: Work): Row
    requires Screen(p, completed, w).Some?
  {
    Row(w, PlanningCost(w), BasisOf(w), Screen(p, completed, w).value,
        if Missing(completed, w) != {} then SortedIds(Missing(completed, w)) else [], None)
  }

  function RankedRow(p: Policy, w: Work, d: Disposition): Row {
    Row(w, PlanningCost(w), BasisOf(w), d, [], Some(Score(p, w)))
  }

  /** `row` is the row of `w`: screened out, or decided at its rank. */
  ghost predicate RowFor(p: Policy, completed: set<Id>, work: seq<Work>, w: Work, row: Row) {
    if Screen(p, completed, w).Some? then row == ScreenedRow(p, completed, w)
    else
      var ranked := Ranked(p, completed, work);
      exists k :: 0 <= k < |ranked| && ranked[k] == w && row == RankedRow(p, w, DecisionAt(Total(p), ranked, k))
  }

  predicate RowIdLe(a: Row, b: Row) {
    Le(a.item.id, b.item.id)
  }

  /** First pass: rows for the items screened out, and the candidates, in id order. */
  method ScreenAll(p: Policy, completed: set<Id>, byId: seq<Work>) returns (rows: seq<Row>, candidates: seq<Work>)
    ensures candidates == Candidates(p, completed, byId)
    ensures forall row :: row in rows <==>
              exists w :: w in byId && Screen(p, completed, w).Some? && row == ScreenedRow(p, completed, w)
    ensures |rows| + |candidates| == |byId|
  {
    rows, candidates := [], [];
    hide Screen, ScreenedRow;
    for k := 0 to |byId|
      invariant candidates == Candidates(p, completed, byId[..k])
      invariant forall row :: row in rows <==>
                  exists w :: w in byId[..k] && Screen(p, completed, w).Some? && row == ScreenedRow(p, completed, w)
      invariant |rows| + |candidates| == k
    {
      TakeMore(byId, k);
      assert byId[..k + 1][..k] == byId[..k];
      var w := byId[k];
      if Screen(p, completed, w).Some? {
        rows := rows + [ScreenedRow(p, completed, w)];
      } else {
        candidates := candidates + [w];
      }
    }
    TakeAll(byId);
  }

  lemma LeftAtFirst(p: Policy, ranked: seq<Work>)
    ensures LeftAfter(Total(p), ranked, 0) == Left(p.capacityUnits, p.budget)
  {
  }

  lemma LeftNext(p: Policy, ranked: seq<Work>, k: nat)
    requires k < |ranked|
    ensures var left, w := LeftAfter(Total(p), ranked, k), ranked[k];
            && DecisionAt(Total(p), ranked, k) == Decide(w, left)
            && LeftAfter(Total(p), ranked, k + 1)
               == if Decide(w, left) == Selected
                  then Left(left.capacity - w.capacityUnits, left.budget - PlanningCost(w))
                  else left
  {
  }

  /** Second pass: the greedy choice over the ranked candidates. */
  method Admit(p: Policy, ranked: seq<Work>) returns (rows: seq<Row>, left: Left)
    ensures left == LeftAfter(Total(p), ranked, |ranked|)
    ensures |rows| == |ranked|
    ensures forall k :: 0 <= k < |ranked| ==> rows[k] == RankedRow(p, ranked[k], DecisionAt(Total(p), ranked, k))
  {
    var capacity, budget := p.capacityUnits, p.budget;
    rows := [];
    hide RankedRow, PlanningCost, LeftAfter, DecisionAt;
    LeftAtFirst(p, ranked);
    for k := 0 to |ranked|
      invariant Left(capacity, budget) == LeftAfter(Total(p), ranked, k)
      invariant |rows| == k
      invariant forall i :: 0 <= i < k ==> rows[i] == RankedRow(p, ranked[i], DecisionAt(Total(p), ranked, i))
    {
      LeftNext(p, ranked, k);
      var w := ranked[k];
      var disposition;
      if w.capacityUnits > capacity {
        disposition := DeferredCapacity;
      } else if PlanningCost(w) > budget {
        disposition := DeferredBudget;
      } else {
        disposition := Selected;
        capacity := capacity - w.capacityUnits;
        budget := budget - PlanningCost(w);
      }
      rows := rows + [RankedRow(p, w, disposition)];
    }
    left := Left(capacity, budget);
  }

  /** The plan for a valid campaign; any other campaign is refused. */
  method Evaluate(p: Policy, completed: set<Id>, work: seq<Work>) returns (r: Option<Plan>)
    ensures r.Some? <==> ValidCampaign(p, work)
    ensures r.Some? ==> PlanFor(p, completed, work, r.value)
  {
    if !ValidCampaign(p, work) {
      return None;
    }
    var plan := MakePlan(p, completed, work);
    return Some(plan);
  }

  ghost function LeftOver(total: Left, ranked: seq<Work>): Left {
    LeftAfter(total, ranked, |ranked|)
  }

  ghost predicate RowsDecided(p: Policy, ranked: seq<Work>, rows: seq<Row>) {
    forall k :: 0 <= k < |ranked| ==> RankedRow(p, ranked[k], DecisionAt(Total(p), ranked, k)) in rows
  }

  /** Every item has a row, every row is some item's, there are as many rows as items, in id order. */
  ghost predicate PlanFor(p: Policy, completed: set<Id>, work: seq<Work>, plan: Plan) {
    && plan.left == LeftOver(Total(p), Ranked(p, completed, work))
    && (forall w :: w in work ==> exists row :: row in plan.rows && RowFor(p, completed, work, w, row))
    && (forall row :: row in plan.rows ==> exists w :: w in work && RowFor(p, completed, work, w, row))
    && RowsDecided(p, Ranked(p, completed, work), plan.rows)
    && |plan.rows| == |work| && SortedBy(plan.rows, RowIdLe)
    && plan.selectedWorkIds == SelectedOf(plan.rows) && plan.debts == DebtsOf(plan.rows)
  }

  /** The plan: a row for every item, in id order, and the selected ids. */
  method MakePlan(p: Policy, completed: set<Id>, work: seq<Work>) returns (plan: Plan)
    ensures PlanFor(p, completed, work, plan)
  {
    hide Candidates, Screen, Sort, Rank, LeftAfter, DecisionAt, ScreenedRow, RankedRow, SortedBy, RowFor;
    var byId := Sort(work, IdLe);
    SortKeeps(work, IdLe);
    var screened, candidates := ScreenAll(p, completed, byId);
    var ranked := Sort(candidates, Rank(p));
    SortKeeps(candidates, Rank(p));
    var decided, left := Admit(p, ranked);
    RowsOfWork(p, completed, work, screened, decided);
    RowOrderIsTotal();
    var rows := Sort(screened + decided, RowIdLe);
    SortKeeps(screened + decided, RowIdLe);
    SortSorts(screened + decided, RowIdLe);
    hide SelectedOf, DebtsOf, Decide, PlanningCost;
    DecidedRows(p, ranked, screened, decided, rows);
    var selected := SelectedIds(rows);
    var debts := DebtReceipts(rows);
    plan := Plan(selected, left, rows, debts);
  }

  lemma DecidedRows(p: Policy, ranked: seq<Work>, screened: seq<Row>, decided: seq<Row>, rows: seq<Row>)
    requires |decided| == |ranked|
    requires forall k :: 0 <= k < |ranked| ==> decided[k] == RankedRow(p, ranked[k], DecisionAt(Total(p), ranked, k))
    requires forall row :: row in rows <==> row in screened + decided
    ensures RowsDecided(p, ranked, rows)
  {
    hide RankedRow, DecisionAt;
    forall k | 0 <= k < |ranked| ensures decided[k] in rows { assert decided[k] in screened + decided; }
  }

  /** The ids of the selected rows, in the order of the rows. */
  ghost function SelectedOf(rows: seq<Row>): (ids: seq<Id>)
    ensures forall x :: x in ids <==> exists row :: row in rows && row.item.id == x && row.disposition == Selected
  {
    if rows == [] then []
    else
      var n := |rows| - 1;
      TakeMore(rows, n);
      TakeAll(rows);
      SelectedOf(rows[..n]) + if rows[n].disposition == Selected then [rows[n].item.id] else []
  }

  method SelectedIds(rows: seq<Row>) returns (selected: seq<Id>)
    ensures selected == SelectedOf(rows)
  {
    selected := [];
    for k := 0 to |rows|
      invariant selected == SelectedOf(rows[..k])
    {
      assert rows[..k + 1][..k] == rows[..k];
      if rows[k].disposition == Selected {
        selected := selected + [rows[k].item.id];
      }
    }
    TakeAll(rows);
  }

  function StatusOf(d: Disposition): DebtStatus {
    match d
    case Selected => Admitted
    case DeferredCapacity => OwedCapacity
    case DeferredBudget => OwedBudget
    case DeferredOversized => OwedOversized
    case BlockedPrerequisite => Blocked
    case UnmodeledInformationValue => Blocked
  }

  function ReceiptFor(row: Row): Receipt {
    Receipt(row.item.id, row.item.capability, StatusOf(row.disposition))
  }

  /** The receipts of the required rows, in the order of the rows. */
  ghost function DebtsOf(rows: seq<Row>): (debts: seq<Receipt>)
    ensures forall r :: r in debts <==> exists row :: row in rows && row.item.required && r == ReceiptFor(row)
  {
    if rows == [] then []
    else
      var n := |rows| - 1;
      TakeMore(rows, n);
      TakeAll(rows);
      DebtsOf(rows[..n]) + When(rows[n].item.required, ReceiptFor(rows[n]))
  }

  method DebtReceipts(rows: seq<Row>) returns (debts: seq<Receipt>)
    ensures debts == DebtsOf(rows)
  {
    debts := [];
    hide ReceiptFor;
    for k := 0 to |rows|
      invariant debts == DebtsOf(rows[..k])
    {
      assert rows[..k + 1][..k] == rows[..k];
      if rows[k].item.required {
        debts := debts + [ReceiptFor(rows[k])];
      }
    }
    TakeAll(rows);
  }

  lemma RowOrderIsTotal()
    ensures TotalPreorder(RowIdLe)
  {
    TextOrderIsTotal();
  }

  lemma RowsOfWork(p: Policy, completed: set<Id>, work: seq<Work>, screened: seq<Row>, decided: seq<Row>)
    requires forall row :: row in screened <==>
               exists w :: w in Sort(work, IdLe) && Screen(p, completed, w).Some? && row == ScreenedRow(p, completed, w)
    requires var ranked := Ranked(p, completed, work);
             |decided| == |ranked| &&
             forall k :: 0 <= k < |ranked| ==> decided[k] == RankedRow(p, ranked[k], DecisionAt(Total(p), ranked, k))
    ensures forall w :: w in work ==> exists row :: row in screened + decided && RowFor(p, completed, work, w, row)
    ensures forall row :: row in screened + decided ==> exists w :: w in work && RowFor(p, completed, work, w, row)
  {
    hide Screen, ScreenedRow, RankedRow, DecisionAt, Ranked, Sort;
    var ranked := Ranked(p, completed, work);
    SortKeeps(work, IdLe);
    RankedHolds(p, completed, work);
    forall w | w in work ensures exists row :: row in screened + decided && RowFor(p, completed, work, w, row) {
      if Screen(p, completed, w).Some? {
        assert ScreenedRow(p, completed, w) in screened && RowFor(p, completed, work, w, ScreenedRow(p, completed, w));
      } else {
        var k :| 0 <= k < |ranked| && ranked[k] == w;
        assert decided[k] in decided && RowFor(p, completed, work, w, decided[k]);
      }
    }
    forall row | row in screened + decided ensures exists w :: w in work && RowFor(p, completed, work, w, row) {
      if row in screened {
        var w :| w in Sort(work, IdLe) && Screen(p, completed, w).Some? && row == ScreenedRow(p, completed, w);
        assert RowFor(p, completed, work, w, row);
      } else {
        var k :| 0 <= k < |decided| && decided[k] == row;
        assert ranked[k] in ranked;
        assert RowFor(p, completed, work, ranked[k], row);
      }
    }
  }

  // --------------------------------------------------------- progress and fairness

  /** The plan selects `w`. */
  ghost predicate Chosen(p: Policy, completed: set<Id>, work: seq<Work>, w: Work) {
    ChosenFrom(p, Ranked(p, completed, work), w)
  }

  ghost predicate ChosenFrom(p: Policy, ranked: seq<Work>, w: Work) {
    exists k :: 0 <= k < |ranked| && ranked[k] == w && DecisionAt(Total(p), ranked, k) == Selected
  }

  /** The ids the plan lists are those of the chosen items. */
  lemma RowIdIsItems(p: Policy, completed: set<Id>, work: seq<Work>, w: Work, row: Row)
    requires RowFor(p, completed, work, w, row)
    ensures row.item == w
  {
    hide Ranked, LeftAfter, Decide;
  }

  ghost predicate StrictById(rows: seq<Row>) {
    forall i, j :: 0 <= i < j < |rows| ==> Lt(rows[i].item.id, rows[j].item.id)
  }

  ghost predicate EachHasRow(work: seq<Work>, rows: seq<Row>) {
    forall w :: w in work ==> exists row :: row in rows && row.item.id == w.id
  }

  ghost predicate EachHasWork(rows: seq<Row>, work: seq<Work>) {
    forall row :: row in rows ==> exists w :: w in work && w.id == row.item.id
  }

  /** Every item gets exactly one row; the rows are strictly in id order. */
  lemma OneRowPerItem(p: Policy, completed: set<Id>, work: seq<Work>, plan: Plan)
    requires ValidCampaign(p, work) && PlanFor(p, completed, work, plan)
    ensures EachHasRow(work, plan.rows) && EachHasWork(plan.rows, work) && StrictById(plan.rows)
  {
    hide RowFor, RowsDecided, LeftOver, SelectedOf, SortedBy;
    forall w, row | RowFor(p, completed, work, w, row) ensures row.item.id == w.id {
      RowIdIsItems(p, completed, work, w, row);
    }
    hide ValidPolicy, ValidWork, StrictById;
    IdsAreStrict(work, plan.rows);
  }

  ghost function WorkIds(work: seq<Work>): seq<Id> {
    MapSeq((w: Work) => w.id, work)
  }

  ghost function RowIds(rows: seq<Row>): seq<Id> {
    MapSeq((row: Row) => row.item.id, rows)
  }

  lemma HasRowId(work: seq<Work>, rows: seq<Row>, x: Id)
    requires EachHasRow(work, rows) && x in WorkIds(work)
    ensures x in RowIds(rows)
  {
    var i :| 0 <= i < |work| && WorkIds(work)[i] == x;
    assert work[i] in work;
    var row :| row in rows && row.item.id == x;
    var k :| 0 <= k < |rows| && rows[k] == row;
    assert RowIds(rows)[k] == x;
  }

  lemma IdsAreStrict(work: seq<Work>, rows: seq<Row>)
    requires (forall i, j :: 0 <= i < j < |work| ==> work[i].id != work[j].id) && EachHasRow(work, rows)
    requires |rows| == |work| && SortedBy(rows, RowIdLe)
    ensures StrictById(rows)
  {
    hide EachHasRow;
    var workIds, rowIds := WorkIds(work), RowIds(rows);
    var ids := set x | x in workIds;
    DistinctFit(workIds, ids);
    forall x | x in ids ensures x in rowIds { HasRowId(work, rows, x); }
    FullListIsDifferent(ids, rowIds);
    DifferentIsStrict(rows);
  }

  lemma DifferentIsStrict(rows: seq<Row>)
    requires SortedBy(rows, RowIdLe) && AllDifferent(RowIds(rows))
    ensures StrictById(rows)
  {
    forall i, j | 0 <= i < j < |rows| ensures Lt(rows[i].item.id, rows[j].item.id) {
      assert RowIdLe(rows[i], rows[j]) && RowIds(rows)[i] != RowIds(rows)[j];
    }
  }

  ghost predicate OneReceiptEach(debts: seq<Receipt>) {
    forall i, j :: 0 <= i < j < |debts| ==> Lt(debts[i].id, debts[j].id)
  }

  lemma {:induction false} ReceiptsAreStrict(rows: seq<Row>)
    requires StrictById(rows)
    ensures OneReceiptEach(DebtsOf(rows))
  {
    if rows != [] {
      var n := |rows| - 1;
      ReceiptsAreStrict(rows[..n]);
      var before := DebtsOf(rows[..n]);
      forall i | 0 <= i < |before| ensures Lt(before[i].id, rows[n].item.id) {
        assert before[i] in before;
        var row :| row in rows[..n] && row.item.required && before[i] == ReceiptFor(row);
      }
    }
  }

  lemma SameRow(rows: seq<Row>, a: Row, b: Row)
    requires StrictById(rows) && a in rows && b in rows && a.item.id == b.item.id
    ensures a == b
  {
    var i :| 0 <= i < |rows| && rows[i] == a;
    var j :| 0 <= j < |rows| && rows[j] == b;
    assert !Lt(a.item.id, a.item.id);
  }

  /** No debt is lost: every required item has one receipt, admitted exactly when the item is chosen, and
      blocked exactly when a prerequisite or a required estimate of its value is missing. */
  lemma DebtsAreKept(p: Policy, completed: set<Id>, work: seq<Work>, plan: Plan, w: Work)
    requires ValidCampaign(p, work) && PlanFor(p, completed, work, plan) && w in work
    ensures OneReceiptEach(plan.debts)
    ensures w.required <==> exists r :: r in plan.debts && r.id == w.id
    ensures forall r :: r in plan.debts && r.id == w.id ==>
                          && r.capability == w.capability
                          && (r.status == Admitted <==> Chosen(p, completed, work, w))
                          && (r.status == Blocked <==>
                                || Missing(completed, w) != {}
                                || (p.requireInformationGain && w.expectedInformationGain == None))
  {
    hide *;
    OneRowPerItem(p, completed, work, plan);
    var row := RowOf(p, completed, work, plan, w);
    ReceiptsAreStrict(plan.rows);
    ReceiptIsThere(plan.rows, row);
    forall r | r in plan.debts && r.id == w.id ensures r == ReceiptFor(row) && w.required {
      ReceiptIsRows(plan.rows, r, row);
    }
    ReceiptMeans(p, completed, work, plan.rows, w, row);
  }

  lemma RowOf(p: Policy, completed: set<Id>, work: seq<Work>, plan: Plan, w: Work) returns (row: Row)
    requires PlanFor(p, completed, work, plan) && w in work
    ensures row in plan.rows && RowFor(p, completed, work, w, row) && row.item == w
    ensures RowsDecided(p, Ranked(p, completed, work), plan.rows) && plan.debts == DebtsOf(plan.rows)
  {
    hide RowFor, RowsDecided, LeftOver, DebtsOf, SelectedOf, SortedBy, Ranked;
    row :| row in plan.rows && RowFor(p, completed, work, w, row);
    hide PlanFor;
    RowIdIsItems(p, completed, work, w, row);
  }

  lemma ReceiptIsThere(rows: seq<Row>, row: Row)
    requires row in rows
    ensures ReceiptFor(row).id == row.item.id && (row.item.required ==> ReceiptFor(row) in DebtsOf(rows))
  {
  }

  lemma ReceiptIsRows(rows: seq<Row>, r: Receipt, row: Row)
    requires StrictById(rows) && r in DebtsOf(rows) && row in rows && r.id == row.item.id
    ensures r == ReceiptFor(row) && row.item.required
  {
    hide StrictById;
    var other :| other in rows && other.item.required && r == ReceiptFor(other);
    SameRow(rows, other, row);
  }

  lemma ReceiptMeans(p: Policy, completed: set<Id>, work: seq<Work>, rows: seq<Row>, w: Work, row: Row)
    requires RowsDecided(p, Ranked(p, completed, work), rows) && StrictById(rows)
    requires row in rows && RowFor(p, completed, work, w, row)
    ensures var r := ReceiptFor(row);
            && r.capability == w.capability
            && (r.status == Admitted <==> Chosen(p, completed, work, w))
            && (r.status == Blocked <==>
                  || Missing(completed, w) != {}
                  || (p.requireInformationGain && w.expectedInformationGain == None))
  {
    hide Ranked, StrictById, ChosenFrom, RowsDecided, RowFor, Missing;
    RowIdIsItems(p, completed, work, w, row);
    BlockedIff(p, completed, work, w, row);
    if row.disposition == Selected { SelectedRowIsChosen(p, completed, work, w, row); }
    if Chosen(p, completed, work, w) {
      ChosenHasRow(p, Ranked(p, completed, work), w, rows);
      var other :| other in rows && other.item.id == w.id && other.disposition == Selected;
      SameRow(rows, other, row);
    }
  }

  lemma BlockedIff(p: Policy, completed: set<Id>, work: seq<Work>, w: Work, row: Row)
    requires RowFor(p, completed, work, w, row)
    ensures row.disposition in {BlockedPrerequisite, UnmodeledInformationValue} <==>
            || Missing(completed, w) != {}
            || (p.requireInformationGain && w.expectedInformationGain == None)
  {
    hide Ranked, LeftAfter, Missing;
  }

  lemma SelectedAreChosen(p: Policy, completed: set<Id>, work: seq<Work>, plan: Plan, x: Id)
    requires PlanFor(p, completed, work, plan)
    ensures x in plan.selectedWorkIds <==> exists w :: w in work && w.id == x && Chosen(p, completed, work, w)
  {
    hide *;
    if x in plan.selectedWorkIds { SelectedIsChosen(p, completed, work, plan, x); }
    forall w | w in work && w.id == x && Chosen(p, completed, work, w) ensures x in plan.selectedWorkIds {
      ChosenIsSelected(p, completed, work, plan, w);
    }
  }

  lemma SelectedIsChosen(p: Policy, completed: set<Id>, work: seq<Work>, plan: Plan, x: Id)
    requires PlanFor(p, completed, work, plan) && x in plan.selectedWorkIds
    ensures exists w :: w in work && w.id == x && Chosen(p, completed, work, w)
  {
    hide PlanFor, Ranked, ChosenFrom, RowFor, SelectedOf;
    var row, w := ItemOf(p, completed, work, plan, x);
    SelectedRowIsChosen(p, completed, work, w, row);
  }

  lemma ItemOf(p: Policy, completed: set<Id>, work: seq<Work>, plan: Plan, x: Id) returns (row: Row, w: Work)
    requires PlanFor(p, completed, work, plan) && x in plan.selectedWorkIds
    ensures row in plan.rows && row.item.id == x && row.disposition == Selected
    ensures w in work && RowFor(p, completed, work, w, row)
  {
    hide RowFor, RowsDecided, LeftOver, DebtsOf, SortedBy, Ranked;
    row :| row in plan.rows && row.item.id == x && row.disposition == Selected;
    w :| w in work && RowFor(p, completed, work, w, row);
  }

  lemma ChosenIsSelected(p: Policy, completed: set<Id>, work: seq<Work>, plan: Plan, w: Work)
    requires PlanFor(p, completed, work, plan) && Chosen(p, completed, work, w)
    ensures w.id in plan.selectedWorkIds
  {
    hide Ranked, Screen, LeftAfter, ChosenFrom, RowFor, RowsDecided, SortedBy;
    ChosenHasRow(p, Ranked(p, completed, work), w, plan.rows);
  }

  lemma SelectedRowIsChosen(p: Policy, completed: set<Id>, work: seq<Work>, w: Work, row: Row)
    requires RowFor(p, completed, work, w, row) && row.disposition == Selected
    ensures row.item == w && ChosenFrom(p, Ranked(p, completed, work), w)
  {
    hide Ranked, LeftAfter;
    ScreenedIsNotSelected(p, completed, w);
  }

  lemma ChosenHasRow(p: Policy, ranked: seq<Work>, w: Work, rows: seq<Row>)
    requires RowsDecided(p, ranked, rows) && ChosenFrom(p, ranked, w)
    ensures exists row :: row in rows && row.item.id == w.id && row.disposition == Selected
  {
    hide LeftAfter;
    var k :| 0 <= k < |ranked| && ranked[k] == w && DecisionAt(Total(p), ranked, k) == Selected;
    assert RankedRow(p, ranked[k], DecisionAt(Total(p), ranked, k)) in rows;
  }

  lemma ScreenedIsNotSelected(p: Policy, completed: set<Id>, w: Work)
    ensures Screen(p, completed, w).Some? ==>
              Screen(p, completed, w).value !in {Selected, DeferredCapacity, DeferredBudget}
  {
  }

  /** The item ranked first is always selected. */
  lemma TopIsChosen(p: Policy, completed: set<Id>, work: seq<Work>)
    requires Ranked(p, completed, work) != []
    ensures Chosen(p, completed, work, Ranked(p, completed, work)[0])
  {
    hide Ranked;
    var ranked := Ranked(p, completed, work);
    RankedHolds(p, completed, work);
    assert ranked[0] in ranked;
    assert DecisionAt(Total(p), ranked, 0) == Selected;
  }

  ghost function CandidateSet(p: Policy, completed: set<Id>, work: seq<Work>): set<Work> {
    set w | w in work && Screen(p, completed, w) == None
  }

  /** The work that is left for the next round: everything not selected. */
  ghost function Unchosen(p: Policy, completed: set<Id>, all: seq<Work>, work: seq<Work>): seq<Work> {
    if work == [] then []
    else if Chosen(p, completed, all, work[0]) then Unchosen(p, completed, all, work[1..])
    else [work[0]] + Unchosen(p, completed, all, work[1..])
  }

  lemma {:induction false} UnchosenHolds(p: Policy, completed: set<Id>, all: seq<Work>, work: seq<Work>)
    ensures forall w :: w in Unchosen(p, completed, all, work) <==> w in work && !Chosen(p, completed, all, w)
  {
    hide Chosen;
    if work != [] { UnchosenHolds(p, completed, all, work[1..]); }
  }

  /** The work remaining after `n` rounds of planning, each removing what it selected. */
  ghost function Remaining(p: Policy, completed: set<Id>, work: seq<Work>, n: nat): seq<Work> {
    if n == 0 then work
    else
      var before := Remaining(p, completed, work, n - 1);
      Unchosen(p, completed, before, before)
  }

  lemma RoundMakesProgress(p: Policy, completed: set<Id>, work: seq<Work>)
    ensures var next := CandidateSet(p, completed, Unchosen(p, completed, work, work));
            && next <= CandidateSet(p, completed, work)
            && (CandidateSet(p, completed, work) != {} ==> |next| < |CandidateSet(p, completed, work)|)
  {
    hide Chosen, Screen, Ranked;
    UnchosenHolds(p, completed, work, work);
    var now, next := CandidateSet(p, completed, work), CandidateSet(p, completed, Unchosen(p, completed, work, work));
    if now != {} {
      var w :| w in now;
      var ranked := Ranked(p, completed, work);
      RankedHolds(p, completed, work);
      assert w in ranked;
      TopIsChosen(p, completed, work);
      assert ranked[0] in ranked;
      SubsetSize(next, now - {ranked[0]});
    }
  }

  /** Planning drains: with `n` candidates, none is left after `n` rounds. */
  lemma {:induction false} PlanningDrains(p: Policy, completed: set<Id>, work: seq<Work>, n: nat)
    ensures |CandidateSet(p, completed, Remaining(p, completed, work, n))| + n <= |CandidateSet(p, completed, work)|
         || CandidateSet(p, completed, Remaining(p, completed, work, n)) == {}
    ensures n >= |CandidateSet(p, completed, work)| ==>
              CandidateSet(p, completed, Remaining(p, completed, work, n)) == {}
  {
    hide Chosen, Screen, CandidateSet, Unchosen;
    if n > 0 {
      PlanningDrains(p, completed, work, n - 1);
      RoundMakesProgress(p, completed, Remaining(p, completed, work, n - 1));
    }
  }

  /** So every candidate is selected in one of those rounds. */
  lemma {:induction false} EachCandidateIsChosen(p: Policy, completed: set<Id>, work: seq<Work>, w: Work, n: nat)
    requires w in CandidateSet(p, completed, work)
    requires w !in CandidateSet(p, completed, Remaining(p, completed, work, n))
    ensures exists k :: 0 <= k < n && w in Remaining(p, completed, work, k)
                        && Chosen(p, completed, Remaining(p, completed, work, k), w)
  {
    hide Chosen, Screen, Unchosen;
    if n > 0 {
      var before := Remaining(p, completed, work, n - 1);
      if w in CandidateSet(p, completed, before) {
        UnchosenHolds(p, completed, before, before);
        assert Chosen(p, completed, before, w);
      } else {
        EachCandidateIsChosen(p, completed, work, w, n - 1);
      }
    }
  }

  lemma NoCandidateStarves(p: Policy, completed: set<Id>, work: seq<Work>, w: Work)
    requires w in CandidateSet(p, completed, work)
    ensures exists k :: 0 <= k < |CandidateSet(p, completed, work)|
                     && w in Remaining(p, completed, work, k)
                     && Chosen(p, completed, Remaining(p, completed, work, k), w)
  {
    var n := |CandidateSet(p, completed, work)|;
    PlanningDrains(p, completed, work, n);
    EachCandidateIsChosen(p, completed, work, w, n);
  }

  // ------------------------------------------------------------- anti-starvation

  /** The highest score among the items, at least 0. */
  function TopScore(p: Policy, work: seq<Work>): real {
    if work == [] then 0.0
    else
      var rest, s := TopScore(p, work[1..]), Score(p, work[0]);
      if s > rest then s else rest
  }

  lemma {:induction false} TopIsHighest(p: Policy, work: seq<Work>, w: Work)
    requires w in work
    ensures Score(p, w) <= TopScore(p, work)
  {
    hide Score;
    if w != work[0] {
      assert w in work[1..];
      TopIsHighest(p, work[1..], w);
    }
  }

  /** An age at which `w` outscores every item of `others`. */
  function AgeBound(p: Policy, w: Work, others: seq<Work>): nat
    requires p.weights.age > 0.0
  {
    var gap := TopScore(p, others) - BaseScore(p, w);
    if gap < 0.0 then 0 else (gap / p.weights.age).Floor + 1
  }

  lemma OldEnoughOutscores(p: Policy, w: Work, others: seq<Work>, age: nat)
    requires p.weights.age > 0.0 && age >= AgeBound(p, w, others)
    ensures forall x :: x in others ==> Score(p, w.(age := age)) > Score(p, x)
  {
    var gap, weight := TopScore(p, others) - BaseScore(p, w), p.weights.age;
    assert BaseScore(p, w.(age := age)) == BaseScore(p, w);
    forall x | x in others ensures Score(p, x) <= TopScore(p, others) { TopIsHighest(p, others, x); }
    assert (age as real) * weight > gap by {
      hide BaseScore, TopScore;
      if gap >= 0.0 {
        assert age as real > gap / weight;
        ScaleUp(age as real, gap / weight, weight);
        assert gap / weight * weight == gap;
      } else {
        ScaleNonNegative(age as real, weight);
      }
    }
  }

  lemma ScaleUp(a: real, b: real, w: real)
    requires a > b && w > 0.0
    ensures a * w > b * w
  {
  }

  lemma ScaleNonNegative(a: real, w: real)
    requires a >= 0.0 && w > 0.0
    ensures a * w >= 0.0
  {
  }

  /** Anti-starvation: an eligible item that has waited past its bound is selected, whatever else
      competes. */
  lemma OldEnoughIsChosen(p: Policy, completed: set<Id>, before: seq<Work>, w: Work, after: seq<Work>, age: nat)
    requires ValidPolicy(p) && Screen(p, completed, w) == None
    requires age >= AgeBound(p, w, before + after)
    ensures Chosen(p, completed, before + [w.(age := age)] + after, w.(age := age))
  {
    var aged, work := w.(age := age), before + [w.(age := age)] + after;
    OldEnoughOutscores(p, w, before + after, age);
    assert Screen(p, completed, aged) == None;
    hide Screen, Score, Ranked, Chosen, AgeBound, Sort;
    RankedHolds(p, completed, work);
    var ranked := Ranked(p, completed, work);
    assert work[|before|] == aged;
    forall x | x in ranked ensures x == aged || Score(p, aged) > Score(p, x) {
      assert x in work;
      assert x == aged || x in before + after;
    }
    HighestIsFirst(p, ranked, aged);
    TopIsChosen(p, completed, work);
  }

  lemma HighestIsFirst(p: Policy, ranked: seq<Work>, w: Work)
    requires SortedBy(ranked, Rank(p)) && w in ranked
    requires forall x :: x in ranked ==> x == w || Score(p, w) > Score(p, x)
    ensures ranked[0] == w
  {
    hide Score;
    var k :| 0 <= k < |ranked| && ranked[k] == w;
    if k > 0 { assert Rank(p)(ranked[0], ranked[k]); }
    assert ranked[0] in ranked;
  }
}
