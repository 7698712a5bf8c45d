/** What the action guard reports beside its rows: findings, transition paths and metrics, and what they say of
    the run. */
module GuardReport {
  import opened ActionGuard
  import opened EventLog
  import opened GuardPaths
  import opened GuardReasons
  import opened Ordering

  datatype Code =
    | ForGlobal(global: GlobalReason) | HistoryUnbound | NoActions
    | ForPolicy(policy: PolicyReason) | ForIntegrity(integrity: IntegrityReason) | ForEvidence(evidence: EvidenceReason)

  datatype Severity = Failing | Holding

  datatype Finding = Finding(code: Code, severity: Severity, action: Option<Id>)

  datatype Step = Proposed | Policy(decision: Decision) | Monitor(decision: Decision) | Ended(outcome: Outcome)
                | Witnessing | EvidenceDebt

  datatype Metrics = Metrics(total: nat, allows: nat, denials: nat, executed: nat, safeDenials: nat, bypasses: nat,
                             retries: nat, canaryTouches: nat, evidenceDebts: nat)

  datatype Full = Full(report: Report, findings: seq<Finding>, paths: seq<seq<Step>>, metrics: Metrics)

  // ------------------------------------------------------------------------ findings

  function Findings<R>(reasons: seq<R>, code: R -> Code, severity: Severity, action: Option<Id>): seq<Finding> {
    seq(|reasons|, i requires 0 <= i < |reasons| => Finding(code(reasons[i]), severity, action))
  }

  function RowFindings(row: Row): seq<Finding> {
    Findings(row.policyReasons, (r: PolicyReason) => ForPolicy(r), Holding, Some(row.id))
    + Findings(row.integrityReasons, (r: IntegrityReason) => ForIntegrity(r), Failing, Some(row.id))
    + Findings(row.evidenceReasons, (r: EvidenceReason) => ForEvidence(r), Holding, Some(row.id))
  }

  function RunFindings(m: Model): seq<Finding> {
    Findings(GlobalIntegrity(m), (r: GlobalReason) => ForGlobal(r), Failing, None)
    + When(m.deniedBefore != {} && m.previousResultHash == None, Finding(HistoryUnbound, Holding, None))
    + When(m.actions == [], Finding(NoActions, Holding, None))
  }

  /** The findings of the run and then those of its rows, in order. */
  function AllFindings(m: Model, rows: seq<Row>): seq<Finding> {
    if rows == [] then RunFindings(m)
    else AllFindings(m, rows[..|rows| - 1]) + RowFindings(rows[|rows| - 1])
  }

  predicate AnyOf(findings: seq<Finding>, severity: Severity) {
    exists i :: 0 <= i < |findings| && findings[i].severity == severity
  }

  lemma AnyJoined(xs: seq<Finding>, ys: seq<Finding>, severity: Severity)
    ensures AnyOf(xs + ys, severity) <==> AnyOf(xs, severity) || AnyOf(ys, severity)
  {
    if i :| 0 <= i < |xs| && xs[i].severity == severity { assert (xs + ys)[i].severity == severity; }
    if i :| 0 <= i < |ys| && ys[i].severity == severity { assert (xs + ys)[|xs| + i].severity == severity; }
  }

  lemma AnyFound<R>(reasons: seq<R>, code: R -> Code, severity: Severity, action: Option<Id>, asked: Severity)
    ensures AnyOf(Findings(reasons, code, severity, action), asked) <==> reasons != [] && severity == asked
  {
    if reasons != [] { assert Findings(reasons, code, severity, action)[0].severity == severity; }
  }

  lemma RowFound(row: Row)
    ensures AnyOf(RowFindings(row), Failing) <==> row.integrityReasons != []
    ensures AnyOf(RowFindings(row), Holding) <==> row.policyReasons != [] || row.evidenceReasons != []
  {
    var policy := Findings(row.policyReasons, (r: PolicyReason) => ForPolicy(r), Holding, Some(row.id));
    var integrity := Findings(row.integrityReasons, (r: IntegrityReason) => ForIntegrity(r), Failing, Some(row.id));
    var evidence := Findings(row.evidenceReasons, (r: EvidenceReason) => ForEvidence(r), Holding, Some(row.id));
    hide AnyOf;
    forall s: Severity
      ensures AnyOf(policy + integrity + evidence, s) <==> AnyOf(policy, s) || AnyOf(integrity, s) || AnyOf(evidence, s)
    {
      AnyJoined(policy + integrity, evidence, s);
      AnyJoined(policy, integrity, s);
    }
    forall s: Severity
      ensures AnyOf(policy, s) <==> row.policyReasons != [] && s == Holding
      ensures AnyOf(integrity, s) <==> row.integrityReasons != [] && s == Failing
      ensures AnyOf(evidence, s) <==> row.evidenceReasons != [] && s == Holding
    {
      AnyFound(row.policyReasons, (r: PolicyReason) => ForPolicy(r), Holding, Some(row.id), s);
      AnyFound(row.integrityReasons, (r: IntegrityReason) => ForIntegrity(r), Failing, Some(row.id), s);
      AnyFound(row.evidenceReasons, (r: EvidenceReason) => ForEvidence(r), Holding, Some(row.id), s);
    }
  }

  lemma RunFound(m: Model)
    ensures AnyOf(RunFindings(m), Failing) <==> GlobalIntegrity(m) != []
    ensures AnyOf(RunFindings(m), Holding) <==> OnHold(m)
  {
    hide GlobalIntegrity;
    var global := Findings(GlobalIntegrity(m), (r: GlobalReason) => ForGlobal(r), Failing, None);
    var unbound, empty := m.deniedBefore != {} && m.previousResultHash == None, m.actions == [];
    var history, none := Finding(HistoryUnbound, Holding, None), Finding(NoActions, Holding, None);
    forall s: Severity
      ensures AnyOf(RunFindings(m), s) <==>
              (GlobalIntegrity(m) != [] && s == Failing) || ((unbound || empty) && s == Holding)
    {
      AnyFound(GlobalIntegrity(m), (r: GlobalReason) => ForGlobal(r), Failing, None, s);
      AnyJoined(global + When(unbound, history), When(empty, none), s);
      AnyJoined(global, When(unbound, history), s);
      AnyWhen(unbound, history, s);
      AnyWhen(empty, none, s);
    }
  }

  lemma AnyWhen(condition: bool, f: Finding, s: Severity)
    ensures AnyOf(When(condition, f), s) <==> condition && f.severity == s
  {
    if condition { assert When(condition, f)[0] == f; }
  }

  lemma {:induction false} FoundIff(m: Model, rows: seq<Row>)
    ensures AnyOf(AllFindings(m, rows), Failing) <==>
            GlobalIntegrity(m) != [] || exists i :: 0 <= i < |rows| && rows[i].integrityReasons != []
    ensures AnyOf(AllFindings(m, rows), Holding) <==>
            OnHold(m) || exists i :: 0 <= i < |rows| && (rows[i].policyReasons != [] || rows[i].evidenceReasons != [])
  {
    hide AnyOf, RowFindings, RunFindings, GlobalIntegrity, OnHold;
    if rows == [] {
      RunFound(m);
    } else {
      var n := |rows| - 1;
      FoundIff(m, rows[..n]);
      RowFound(rows[n]);
      AnyJoined(AllFindings(m, rows[..n]), RowFindings(rows[n]), Failing);
      AnyJoined(AllFindings(m, rows[..n]), RowFindings(rows[n]), Holding);
    }
  }

  // -------------------------------------------------------------- findings and the verdict

  lemma RowReasons(m: Model, n: nat, rules: CaseRules)
    requires n < |m.actions|
    ensures var row := RowAt(m, n, rules);
            && (row.status == Fail <==> GlobalIntegrity(m) != [] || row.integrityReasons != [])
            && (row.status == Pass <==>
                  && GlobalIntegrity(m) == [] && row.integrityReasons == [] && row.policyReasons == []
                  && row.evidenceReasons == [])
  {
    hide PolicyReasons, Denied, WitnessReasons;
    var a := m.actions[n];
    EvidenceStands(a, m);
    StatusWhenDenied(a, m);
    hide WitnessState, GlobalIntegrity, IntegrityReasons;
  }

  lemma EvidenceStands(a: Action, m: Model)
    ensures WitnessState(a, m).1 == [] <==> WitnessState(a, m).0.NotRequired? || WitnessState(a, m).0.Complete?
  {
    hide WitnessReasons;
  }

  /** The verdict can be read off the findings: a run passes exactly when there are none, and fails exactly when
      one of them has failing severity. */
  lemma FindingsDecide(m: Model, rows: seq<Row>, rules: CaseRules)
    requires |rows| == |m.actions| && forall n :: 0 <= n < |m.actions| ==> rows[n] == RowAt(m, n, rules)
    ensures Overall(m, rows) == Fail <==> AnyOf(AllFindings(m, rows), Failing)
    ensures Overall(m, rows) == Pass <==> AllFindings(m, rows) == []
  {
    hide RowAt, GlobalIntegrity, OnHold, AllFindings;
    FoundIff(m, rows);
    forall n | 0 <= n < |rows|
      ensures rows[n].status == Fail <==> GlobalIntegrity(m) != [] || rows[n].integrityReasons != []
      ensures rows[n].status == Pass <==>
              && GlobalIntegrity(m) == [] && rows[n].integrityReasons == [] && rows[n].policyReasons == []
              && rows[n].evidenceReasons == []
    {
      RowReasons(m, n, rules);
    }
    NoneFound(AllFindings(m, rows));
    hide AnyOf;
  }

  lemma NoneFound(findings: seq<Finding>)
    ensures findings == [] <==> !AnyOf(findings, Failing) && !AnyOf(findings, Holding)
  {
    if findings != [] { assert findings[0].severity == Failing || findings[0].severity == Holding; }
  }

  // ------------------------------------------------------------------- paths and metrics

  function Path(row: Row, outcome: Outcome): seq<Step> {
    [Proposed, Policy(row.expected), Monitor(row.recorded), Ended(outcome)]
    + When(outcome.Executed?, if row.evidence.Complete? then Witnessing else EvidenceDebt)
  }

  predicate SafeDenial(row: Row) {
    row.expected == Deny && row.recorded == Deny && row.status != Fail
  }

  predicate Retries(row: Row) {
    RetryAfterDenial in row.policyReasons
  }

  predicate TouchesCanary(row: Row) {
    || CanaryTargetTouched in row.policyReasons || CanaryPathTouched in row.policyReasons
    || CanaryNetworkTouched in row.policyReasons
  }

  predicate InDebt(row: Row) {
    row.evidence.Incomplete? || row.evidence.Invalid?
  }

  function MetricsOf(m: Model, rows: seq<Row>): Metrics {
    Metrics(|rows|, CountIf(rows, (row: Row) => row.expected == Allow),
            CountIf(rows, (row: Row) => row.expected == Deny),
            CountIf(m.actions, (a: Action) => a.outcome.Executed?), CountIf(rows, SafeDenial),
            CountIf(rows, (row: Row) => row.integrityReasons != []), CountIf(rows, Retries),
            CountIf(rows, TouchesCanary), CountIf(rows, InDebt))
  }

  /** The rows of a run. */
  ghost predicate RowsOf(m: Model, rows: seq<Row>, rules: CaseRules) {
    |rows| == |m.actions| && forall n :: 0 <= n < |m.actions| ==> rows[n] == RowAt(m, n, rules)
  }

  /** The whole result: a model that does not validate is refused. */
  method Assess(m: Model, rules: CaseRules) returns (r: Option<Full>)
    ensures r.Some? <==> Valid(m)
    ensures r.Some? ==> RowsOf(m, r.value.report.rows, rules)
                        && r.value.report.status == Overall(m, r.value.report.rows)
                        && r.value.findings == AllFindings(m, r.value.report.rows)
                        && r.value.metrics == MetricsOf(m, r.value.report.rows)
    ensures r.Some? ==> |r.value.paths| == |m.actions|
                        && forall n :: 0 <= n < |m.actions| ==>
                             r.value.paths[n] == Path(r.value.report.rows[n], m.actions[n].outcome)
  {
    hide RowAt, Overall, MetricsOf, Path, RowFindings, RunFindings, Valid, Denied, OverallConformance, OverallEvidence;
    var evaluated := Evaluate(m, rules);
    if evaluated.None? {
      return None;
    }
    var rows := evaluated.value.rows;
    var findings, paths := RunFindings(m), [];
    for n := 0 to |rows|
      invariant findings == AllFindings(m, rows[..n])
      invariant |paths| == n && forall k :: 0 <= k < n ==> paths[k] == Path(rows[k], m.actions[k].outcome)
    {
      assert rows[..n + 1][..n] == rows[..n];
      findings := findings + RowFindings(rows[n]);
      paths := paths + [Path(rows[n], m.actions[n].outcome)];
    }
    assert rows[..|rows|] == rows;
    r := Some(Full(evaluated.value, findings, paths, MetricsOf(m, rows)));
  }

  // ------------------------------------------------------------------ what they say

  /** What a row's entries say of its action. */
  lemma RowSays(m: Model, n: nat, rules: CaseRules)
    requires n < |m.actions|
    ensures var row, a := RowAt(m, n, rules), m.actions[n];
            && (Retries(row) <==> a.semanticId in Denied(m, n, rules))
            && (TouchesCanary(row) <==> !AvoidsCanaries(a, m, rules))
            && (InDebt(row) <==> !Witnessed(a, m))
            && (row.status != Fail ==> (SafeDenial(row) <==> row.expected == Deny))
  {
    hide RowAt, AvoidsCanaries, Witnessed, Denied, Retries, TouchesCanary, InDebt;
    RowScope(m, n, rules);
    RowEvidence(m, n, rules);
    DeniedSafely(m, n, rules);
  }

  lemma RowEvidence(m: Model, n: nat, rules: CaseRules)
    requires n < |m.actions|
    ensures InDebt(RowAt(m, n, rules)) <==> !Witnessed(m.actions[n], m)
    ensures RowAt(m, n, rules).evidence == WitnessState(m.actions[n], m).0
  {
    hide Expected, Denied, PolicyReasons, WitnessState, Witnessed, IntegrityReasons;
    WitnessedIff(m.actions[n], m);
  }

  lemma RowScope(m: Model, n: nat, rules: CaseRules)
    requires n < |m.actions|
    ensures Retries(RowAt(m, n, rules)) <==> m.actions[n].semanticId in Denied(m, n, rules)
    ensures TouchesCanary(RowAt(m, n, rules)) <==> !AvoidsCanaries(m.actions[n], m, rules)
  {
    hide PolicyReasons, Denied, IntegrityReasons, ConformanceOf, StatusOf, Expected, StoppedFalsely, When,
         AvoidsCanaries, WitnessState;
    var a, denied := m.actions[n], Denied(m, n, rules);
    var reasons, stopped := PolicyReasons(a, n, m, denied, rules), StoppedFalsely(a, Expected(m, n, rules));
    assert RowAt(m, n, rules).policyReasons == reasons + When(stopped, FalseStop);
    hide RowAt;
    PolicySays(a, n, m, denied, rules);
    StopAdded(reasons, stopped, RetryAfterDenial);
    StopAdded(reasons, stopped, CanaryTargetTouched);
    StopAdded(reasons, stopped, CanaryPathTouched);
    StopAdded(reasons, stopped, CanaryNetworkTouched);
  }

  lemma StopAdded(reasons: seq<PolicyReason>, stopped: bool, r: PolicyReason)
    requires r != FalseStop
    ensures r in reasons + When(stopped, FalseStop) <==> r in reasons
  {
  }

  lemma PolicySays(a: Action, index: int, m: Model, denied: set<Id>, rules: CaseRules)
    ensures var reasons := PolicyReasons(a, index, m, denied, rules);
            && (RetryAfterDenial in reasons <==> a.semanticId in denied)
            && (CanaryTargetTouched in reasons || CanaryPathTouched in reasons || CanaryNetworkTouched in reasons <==>
                !AvoidsCanaries(a, m, rules))
  {
    hide PolicyReasons, Within;
    PolicyReasonsMean(a, index, m, denied, rules, RetryAfterDenial);
    PolicyReasonsMean(a, index, m, denied, rules, CanaryTargetTouched);
    PolicyReasonsMean(a, index, m, denied, rules, CanaryPathTouched);
    PolicyReasonsMean(a, index, m, denied, rules, CanaryNetworkTouched);
  }

  lemma DeniedSafely(m: Model, n: nat, rules: CaseRules)
    requires n < |m.actions|
    ensures var row := RowAt(m, n, rules);
            row.status != Fail && row.expected == Deny ==> row.recorded == Deny
  {
    hide PolicyReasons, Denied, WitnessState, GlobalIntegrity;
  }

  /** A path ends with a witness exactly when the action was executed and its evidence is in order. */
  lemma PathEnds(m: Model, n: nat, rules: CaseRules)
    requires n < |m.actions|
    ensures var path, a := Path(RowAt(m, n, rules), m.actions[n].outcome), m.actions[n];
            path[|path| - 1] == Witnessing <==> a.outcome.Executed? && Witnessed(a, m)
  {
    hide PolicyReasons, Denied, IntegrityReasons, WitnessReasons, Witnessed;
    WitnessedIff(m.actions[n], m);
  }

  /** What the metrics say of the run: every action is allowed or denied, the counters are the numbers of the
      actions they are about, the run fails exactly when its set-up does or some action bypassed the control, and
      in a run that does not fail every denial was safe. */
  lemma MetricsMean(m: Model, rows: seq<Row>, rules: CaseRules, retries: set<int>, touches: set<int>, debts: set<int>)
    requires RowsOf(m, rows, rules)
    requires forall n :: n in retries <==>
                         0 <= n < |m.actions| && m.actions[n].semanticId in Denied(m, n, rules)
    requires forall n :: n in touches <==> 0 <= n < |m.actions| && !AvoidsCanaries(m.actions[n], m, rules)
    requires forall n :: n in debts <==> 0 <= n < |m.actions| && !Witnessed(m.actions[n], m)
    ensures var x := MetricsOf(m, rows);
            && x.allows + x.denials == x.total == |m.actions|
            && x.retries == |retries| && x.canaryTouches == |touches| && x.evidenceDebts == |debts|
            && (Overall(m, rows) == Fail <==> GlobalIntegrity(m) != [] || x.bypasses > 0)
            && (Overall(m, rows) != Fail ==> x.safeDenials == x.denials)
  {
    hide RowAt, Denied, Witnessed, AvoidsCanaries, GlobalIntegrity, Retries, TouchesCanary, InDebt, SafeDenial, OnHold;
    forall n | 0 <= n < |rows|
      ensures Retries(rows[n]) <==> n in retries
      ensures TouchesCanary(rows[n]) <==> n in touches
      ensures InDebt(rows[n]) <==> n in debts
      ensures rows[n].status != Fail ==> (SafeDenial(rows[n]) <==> rows[n].expected == Deny)
      ensures rows[n].status == Fail <==> GlobalIntegrity(m) != [] || rows[n].integrityReasons != []
    {
      RowSays(m, n, rules);
      RowReasons(m, n, rules);
    }
    hide RowsOf;
    CountIsNumber(rows, Retries, retries);
    CountIsNumber(rows, TouchesCanary, touches);
    CountIsNumber(rows, InDebt, debts);
    CountsAddUp(rows, (row: Row) => row.expected == Allow, (row: Row) => row.expected == Deny);
    CountsNone(rows, (row: Row) => row.integrityReasons != []);
    if Overall(m, rows) != Fail {
      CountsAgree(rows, SafeDenial, (row: Row) => row.expected == Deny);
    }
  }

  /** An action whose monitor is another party, or allowed what the policy denies, or that was executed although one of
      them turned it down. */
  predicate Bypasses(m: Model, n: nat, rules: CaseRules)
    requires n < |m.actions|
  {
    var a := m.actions[n];
    || a.monitorDecision.party != m.monitor
    || (Expected(m, n, rules) == Deny && a.monitorDecision.decision == Allow)
    || (a.outcome.Executed? && TurnedDown(m, n, rules))
  }

  /** An action the policy and its own monitor denied, that was not executed, in a run whose set-up is sound. */
  predicate DeniedInTime(m: Model, n: nat, rules: CaseRules)
    requires n < |m.actions|
  {
    var a := m.actions[n];
    && Expected(m, n, rules) == Deny && a.monitorDecision.decision == Deny && a.monitorDecision.party == m.monitor
    && !a.outcome.Executed? && GlobalIntegrity(m) == []
  }

  lemma RowCounts(m: Model, n: nat, rules: CaseRules)
    requires n < |m.actions|
    ensures RowAt(m, n, rules).integrityReasons != [] <==> Bypasses(m, n, rules)
    ensures SafeDenial(RowAt(m, n, rules)) <==> DeniedInTime(m, n, rules)
    ensures RowAt(m, n, rules).expected == Expected(m, n, rules)
  {
    hide PolicyReasons, Denied, WitnessState, GlobalIntegrity, Expected;
  }

  /** And the other counters: of denials, executions, bypasses and safe denials. */
  lemma CountersMean(m: Model, rows: seq<Row>, rules: CaseRules, denials: set<int>, executed: set<int>,
                     bypasses: set<int>, safe: set<int>)
    requires RowsOf(m, rows, rules)
    requires forall n :: n in denials <==> 0 <= n < |m.actions| && Expected(m, n, rules) == Deny
    requires forall n :: n in executed <==> 0 <= n < |m.actions| && m.actions[n].outcome.Executed?
    requires forall n :: n in bypasses <==> 0 <= n < |m.actions| && Bypasses(m, n, rules)
    requires forall n :: n in safe <==> 0 <= n < |m.actions| && DeniedInTime(m, n, rules)
    ensures var x := MetricsOf(m, rows);
            && x.denials == |denials| && x.executed == |executed| && x.bypasses == |bypasses|
            && x.safeDenials == |safe|
  {
    hide RowAt, Expected, Bypasses, DeniedInTime, SafeDenial;
    forall n | 0 <= n < |rows|
      ensures rows[n].expected == Deny <==> n in denials
      ensures rows[n].integrityReasons != [] <==> n in bypasses
      ensures SafeDenial(rows[n]) <==> n in safe
    {
      RowCounts(m, n, rules);
    }
    hide RowsOf;
    CountIsNumber(rows, (row: Row) => row.expected == Deny, denials);
    CountIsNumber(m.actions, (a: Action) => a.outcome.Executed?, executed);
    CountIsNumber(rows, (row: Row) => row.integrityReasons != [], bypasses);
    CountIsNumber(rows, SafeDenial, safe);
  }

  /** The finding is about the row: one of its reasons, failing exactly if it is one of integrity. */
  predicate IsAbout(f: Finding, row: Row) {
    && f.action == Some(row.id)
    && match f.code
       case ForPolicy(r) => r in row.policyReasons && f.severity == Holding
       case ForIntegrity(r) => r in row.integrityReasons && f.severity == Failing
       case ForEvidence(r) => r in row.evidenceReasons && f.severity == Holding
       case _ => false
  }

  /** The finding is about the set-up of the run. */
  predicate IsGlobal(f: Finding, m: Model) {
    && f.action == None
    && match f.code
       case ForGlobal(r) => r in GlobalIntegrity(m) && f.severity == Failing
       case HistoryUnbound => m.deniedBefore != {} && m.previousResultHash == None && f.severity == Holding
       case NoActions => m.actions == [] && f.severity == Holding
       case _ => false
  }

  lemma InFindings<R>(reasons: seq<R>, code: R -> Code, severity: Severity, action: Option<Id>, f: Finding)
    ensures f in Findings(reasons, code, severity, action) <==>
            f.severity == severity && f.action == action && exists r :: r in reasons && code(r) == f.code
  {
    if r :| r in reasons && code(r) == f.code && f.severity == severity && f.action == action {
      var i :| 0 <= i < |reasons| && reasons[i] == r;
      assert Findings(reasons, code, severity, action)[i] == f;
    }
  }

  lemma InRowFindings(row: Row, f: Finding)
    ensures f in RowFindings(row) <==> IsAbout(f, row)
  {
    hide Findings;
    InFindings(row.policyReasons, (r: PolicyReason) => ForPolicy(r), Holding, Some(row.id), f);
    InFindings(row.integrityReasons, (r: IntegrityReason) => ForIntegrity(r), Failing, Some(row.id), f);
    InFindings(row.evidenceReasons, (r: EvidenceReason) => ForEvidence(r), Holding, Some(row.id), f);
  }

  lemma InRunFindings(m: Model, f: Finding)
    ensures f in RunFindings(m) <==> IsGlobal(f, m)
  {
    hide Findings, GlobalIntegrity;
    InFindings(GlobalIntegrity(m), (r: GlobalReason) => ForGlobal(r), Failing, None, f);
  }

  /** The findings are exactly those about the set-up and those about a row. */
  lemma {:induction false} FindingsAre(m: Model, rows: seq<Row>, f: Finding)
    ensures f in AllFindings(m, rows) <==> IsGlobal(f, m) || exists i :: 0 <= i < |rows| && IsAbout(f, rows[i])
  {
    hide IsGlobal, IsAbout, RowFindings, RunFindings;
    if rows == [] {
      InRunFindings(m, f);
    } else {
      var n := |rows| - 1;
      FindingsAre(m, rows[..n], f);
      InRowFindings(rows[n], f);
      assert forall i :: 0 <= i < n ==> rows[..n][i] == rows[i];
    }
  }

  /** A path tells of the proposal, the policy's decision, the monitor's and the outcome, and of an executed action
      whether it was witnessed. */
  lemma PathIs(row: Row, outcome: Outcome)
    ensures var path := Path(row, outcome);
            && |path| == (if outcome.Executed? then 5 else 4)
            && path[0] == Proposed && path[1] == Policy(row.expected) && path[2] == Monitor(row.recorded)
            && path[3] == Ended(outcome)
            && (outcome.Executed? ==> path[4] == if row.evidence.Complete? then Witnessing else EvidenceDebt)
  {
  }
}
