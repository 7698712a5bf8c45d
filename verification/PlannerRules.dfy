/** What planning costs, scores and dispositions mean: how each input moves the rank of an item, and exactly which
    items are blocked, oversized, deferred for capacity or for budget, and selected. */
module PlannerRules {
  import opened Ordering
  import opened Planner

  // ------------------------------------------------------------------ cost and score

  /** An observed cost replaces the estimate: with one, the estimate does not matter, and an item without one is
      treated as if its estimate had been observed. */
  lemma ObservedReplacesEstimate(p: Policy, completed: set<Id>, w: Work, estimate: real, left: Left)
    ensures var other := w.(estimatedCost := estimate);
            w.observedCost.Some? ==>
              && PlanningCost(other) == PlanningCost(w) == w.observedCost.value && Score(p, other) == Score(p, w)
              && Screen(p, completed, other) == Screen(p, completed, w) && Decide(other, left) == Decide(w, left)
    ensures var other := w.(observedCost := Some(w.estimatedCost));
            w.observedCost == None ==>
              && PlanningCost(other) == PlanningCost(w) == w.estimatedCost && Score(p, other) == Score(p, w)
              && Screen(p, completed, other) == Screen(p, completed, w) && Decide(other, left) == Decide(w, left)
  {
  }

  /** An item with nothing to its credit and no cost. */
  predicate Blankly(w: Work) {
    && w.riskWeight == 0.0 && w.priority == 0.0 && w.age == 0
    && w.expectedInformationGain == None && PlanningCost(w) == 0.0
  }

  /** The score is nothing for nothing, and each input adds its weight's worth; cost takes it away. */
  lemma ScoreMoves(p: Policy, w: Work, d: real, years: nat)
    ensures Blankly(w) ==> Score(p, w) == 0.0
    ensures Score(p, w.(riskWeight := w.riskWeight + d)) == Score(p, w) + d * p.weights.risk
    ensures Score(p, w.(priority := w.priority + d)) == Score(p, w) + d * p.weights.priority
    ensures Score(p, w.(age := w.age + years)) == Score(p, w) + (years as real) * p.weights.age
    ensures w.expectedInformationGain == None ==>
              Score(p, w.(expectedInformationGain := Some(d))) == Score(p, w) + d * p.weights.informationGain
    ensures w.expectedInformationGain.Some? ==>
              var more := w.(expectedInformationGain := Some(w.expectedInformationGain.value + d));
              Score(p, more) == Score(p, w) + d * p.weights.informationGain
    ensures Score(p, w.(observedCost := Some(PlanningCost(w) + d))) == Score(p, w) - d * p.weights.cost
  {
    Distribute(w.riskWeight, d, p.weights.risk);
    Distribute(w.priority, d, p.weights.priority);
    Distribute(w.age as real, years as real, p.weights.age);
    Distribute(PlanningCost(w), d, p.weights.cost);
    if w.expectedInformationGain.Some? {
      Distribute(w.expectedInformationGain.value, d, p.weights.informationGain);
    } else {
      Distribute(0.0, d, p.weights.informationGain);
    }
  }

  lemma Distribute(a: real, d: real, weight: real)
    ensures (a + d) * weight == a * weight + d * weight
  {
  }

  lemma MoreThanNothing(d: real, weight: real)
    requires d > 0.0 && weight > 0.0
    ensures d * weight > 0.0
  {
  }

  /** With positive weights, more risk, priority, gain or age ranks an item before its like, and more cost after. */
  lemma RankMoves(p: Policy, w: Work, d: real, years: nat)
    requires d > 0.0 && years > 0
    requires p.weights.risk > 0.0 && p.weights.priority > 0.0 && p.weights.informationGain > 0.0
    requires p.weights.cost > 0.0 && p.weights.age > 0.0
    ensures var more := w.(riskWeight := w.riskWeight + d); RankLe(p, more, w) && !RankLe(p, w, more)
    ensures var more := w.(priority := w.priority + d); RankLe(p, more, w) && !RankLe(p, w, more)
    ensures var more := w.(age := w.age + years); RankLe(p, more, w) && !RankLe(p, w, more)
    ensures w.expectedInformationGain == None ==>
              var more := w.(expectedInformationGain := Some(d)); RankLe(p, more, w) && !RankLe(p, w, more)
    ensures var dear := w.(observedCost := Some(PlanningCost(w) + d)); RankLe(p, w, dear) && !RankLe(p, dear, w)
  {
    ScoreMoves(p, w, d, years);
    MoreThanNothing(d, p.weights.risk);
    MoreThanNothing(d, p.weights.priority);
    MoreThanNothing(d, p.weights.informationGain);
    MoreThanNothing(d, p.weights.cost);
    MoreThanNothing(years as real, p.weights.age);
    hide Score, PlanningCost;
  }

  /** The higher score comes first, and equal scores are ordered by id. */
  lemma RankSays(p: Policy, a: Work, b: Work)
    ensures Score(p, a) > Score(p, b) ==> RankLe(p, a, b) && !RankLe(p, b, a)
    ensures Score(p, a) == Score(p, b) && a.id != b.id ==> (RankLe(p, a, b) <==> Lt(a.id, b.id))
  {
    hide Score;
  }

  // -------------------------------------------------------------------- dispositions

  /** Why an item is set aside before ranking, exactly: a prerequisite not completed, then a missing estimate of its
      value where one is asked for, then a size that no empty plan could hold. */
  lemma SetAsideIff(p: Policy, completed: set<Id>, w: Work)
    ensures var missing := exists x :: x in w.prerequisites && x !in completed;
            var unvalued := p.requireInformationGain && w.expectedInformationGain == None;
            var oversized := w.capacityUnits > p.capacityUnits || PlanningCost(w) > p.budget;
            && (Screen(p, completed, w) == Some(BlockedPrerequisite) <==> missing)
            && (Screen(p, completed, w) == Some(UnmodeledInformationValue) <==> !missing && unvalued)
            && (Screen(p, completed, w) == Some(DeferredOversized) <==> !missing && !unvalued && oversized)
            && (Screen(p, completed, w) == None <==> !missing && !unvalued && !oversized)
  {
    MissingIff(completed, w);
  }

  lemma MissingIff(completed: set<Id>, w: Work)
    ensures Missing(completed, w) != {} <==> exists x :: x in w.prerequisites && x !in completed
    ensures forall x :: x in Missing(completed, w) <==> x in w.prerequisites && x !in completed
  {
    if x :| x in w.prerequisites && x !in completed { assert x in Missing(completed, w); }
  }

  /** What a plan's row says of its item. */
  lemma RowSays(p: Policy, completed: set<Id>, work: seq<Work>, w: Work, row: Row)
    requires RowFor(p, completed, work, w, row)
    ensures row.item == w && row.planningCost == PlanningCost(w)
    ensures row.basis == Observed <==> w.observedCost.Some?
    ensures Ascending(row.missingPrerequisites)
    ensures forall x :: x in row.missingPrerequisites <==> x in w.prerequisites && x !in completed
    ensures row.score == if Screen(p, completed, w).Some? then None else Some(Score(p, w))
    ensures Screen(p, completed, w).Some? ==> row.disposition == Screen(p, completed, w).value
    ensures Screen(p, completed, w) == None ==> row.disposition in {DeferredCapacity, DeferredBudget, Selected}
  {
    hide Ranked, LeftAfter, Score, PlanningCost, SortedIds, Missing, Ascending;
    MissingIff(completed, w);
    NoneAscends();
  }

  lemma NoneAscends()
    ensures Ascending([])
  {
  }

  /** Why a ranked item is deferred, exactly: the units chosen before it leave too few, or, where they do not, the
      costs chosen before it leave too little. Otherwise it is selected. */
  lemma DeferredIff(total: Left, ranked: seq<Work>, k: nat)
    requires k < |ranked| && total.capacity >= 0 && total.budget >= 0.0
    ensures var units, cost := SelectedUnits(total, ranked, k), SelectedCost(total, ranked, k);
            var crowded := units + ranked[k].capacityUnits > total.capacity;
            var dear := cost + PlanningCost(ranked[k]) > total.budget;
            && (DecisionAt(total, ranked, k) == DeferredCapacity <==> crowded)
            && (DecisionAt(total, ranked, k) == DeferredBudget <==> !crowded && dear)
            && (DecisionAt(total, ranked, k) == Selected <==> !crowded && !dear)
  {
    Conservation(total, ranked, k);
    hide LeftAfter, SelectedUnits, SelectedCost, PlanningCost;
  }

  /** What a receipt says of its item: the disposition of the item's row. */
  lemma ReceiptSays(p: Policy, completed: set<Id>, work: seq<Work>, plan: Plan, w: Work, r: Receipt)
    returns (row: Row)
    requires ValidCampaign(p, work) && PlanFor(p, completed, work, plan) && w in work
    requires r in plan.debts && r.id == w.id
    ensures row in plan.rows && RowFor(p, completed, work, w, row) && w.required && r.capability == w.capability
    ensures r.status == Admitted <==> row.disposition == Selected
    ensures r.status == OwedCapacity <==> row.disposition == DeferredCapacity
    ensures r.status == OwedBudget <==> row.disposition == DeferredBudget
    ensures r.status == OwedOversized <==> row.disposition == DeferredOversized
    ensures r.status == Blocked <==> row.disposition in {BlockedPrerequisite, UnmodeledInformationValue}
  {
    hide ValidCampaign, PlanFor, RowFor, DebtsOf, StrictById, RowsDecided;
    OneRowPerItem(p, completed, work, plan);
    row := RowOf(p, completed, work, plan, w);
    ReceiptIsRows(plan.rows, r, row);
  }

  // -------------------------------------------------------------------- what is refused

  predicate BelowZero(x: Option<real>) {
    x.Some? && x.value < 0.0
  }

  predicate BadWork(w: Work) {
    || w.riskWeight < 0.0 || w.priority < 0.0 || w.capacityUnits < 0 || w.estimatedCost < 0.0
    || BelowZero(w.observedCost) || BelowZero(w.declaredCost) || BelowZero(w.expectedInformationGain)
  }

  /** A campaign is refused exactly for a number below zero, a repeated work id, or a weight of age that is not
      positive. */
  lemma RefusedIff(p: Policy, work: seq<Work>)
    ensures !ValidCampaign(p, work) <==>
            || p.capacityUnits < 0 || p.budget < 0.0 || p.weights.age <= 0.0
            || p.weights.risk < 0.0 || p.weights.priority < 0.0 || p.weights.informationGain < 0.0
            || p.weights.cost < 0.0
            || (exists i :: 0 <= i < |work| && BadWork(work[i]))
            || (exists i, j :: 0 <= i < j < |work| && work[i].id == work[j].id)
  {
    forall w ensures ValidWork(w) <==> !BadWork(w) {
    }
    hide ValidWork, BadWork;
  }
}
