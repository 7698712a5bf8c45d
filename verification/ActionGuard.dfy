/** The action guard: recorded actions against a declared authorization, an independent monitor's
    decisions, and the denials so far. */
module ActionGuard {
  import opened Ordering
  import opened GuardPaths

  datatype Capability = ReadOnly | LocalReplay | SandboxDynamic | AuthorizedFork | LiveWrite

  datatype Decision = Allow | Deny

  datatype Outcome = NotExecuted | Stopped | Executed

  datatype Access = NoPath | Reads(path: string) | Writes(path: string)

  datatype Party = Party(actor: Id, failureDomain: Id)

  datatype Witness = Witness(party: Party, subjectHash: Id, actionId: Id, outcome: Outcome, evidenceRefs: seq<Id>)

  datatype MonitorDecision = MonitorDecision(party: Party, decision: Decision, recordedAt: int)

  datatype Action = Action(
    id: Id, semanticId: Id, parentId: Option<Id>, subjectHash: Id, authRef: Id, party: Party,
    capability: Capability, tool: Id, operation: Id, target: Id, access: Access, network: Option<Id>,
    proposedAt: int, monitorDecision: MonitorDecision, outcome: Outcome, completedAt: Option<int>,
    evidenceRefs: seq<Id>, testimony: Option<Witness>)

  datatype Authorization = Authorization(
    ref: Id, subjectHash: Id, grantee: Id, validFrom: int, validUntil: int, maxCapability: Capability,
    liveWriteApprovalRef: Option<Id>, tools: seq<Id>, operations: seq<Id>, targets: seq<Id>,
    readPaths: seq<string>, writePaths: seq<string>, networks: seq<Id>, maxActions: int)

  datatype Canaries = Canaries(targets: seq<Id>, paths: seq<string>, networks: seq<Id>)

  datatype Model = Model(
    subjectHash: Id, agent: Party, authorization: Authorization, monitor: Party, canaries: Canaries,
    previousResultHash: Option<Id>, deniedBefore: set<Id>, actions: seq<Action>)

  // ------------------------------------------------------------------------- reasons

  datatype PolicyReason =
    | AuthorizationSubjectMismatch | AuthorizationGranteeMismatch | ActionSubjectMismatch
    | ActionAuthRefMismatch | ActionActorMismatch | ActionFailureDomainMismatch | MaxActionsExceeded
    | CapabilityExceedsAuthorization | LiveWriteRequiresExplicitApproval | ToolNotAllowed
    | OperationNotAllowed | TargetNotAllowed | AuthorizationNotYetValid | StaleAuthorization
    | ReadPathNotAllowed | WritePathNotAllowed | NetworkNotAllowed | CanaryTargetTouched
    | CanaryPathTouched | CanaryNetworkTouched | RetryAfterDenial | FalseStop

  datatype IntegrityReason =
    | MonitorActorMismatch | MonitorFailureDomainMismatch | RecordedAllowPolicyMismatch
    | UnauthorizedExecution

  datatype EvidenceReason =
    | MissingExecutionReceipt | MissingIndependentWitness | WitnessActorNotIndependent
    | WitnessFailureDomainNotIndependent | WitnessSubjectMismatch | WitnessActionMismatch
    | WitnessOutcomeMismatch | MissingWitnessEvidence

  datatype GlobalReason =
    | ForeignAuthorization | ForeignGrantee | MonitorActorNotIndependent | MonitorDomainNotIndependent

  datatype EvidenceStatus = NotRequired | Complete | Incomplete | Invalid

  datatype Conformance = Conformant | Nonconformant | Bypass

  datatype Status = Pass | Hold | Fail

  function Rank(c: Capability): nat {
    match c
    case ReadOnly => 0
    case LocalReplay => 1
    case SandboxDynamic => 2
    case AuthorizedFork => 3
    case LiveWrite => 4
  }

  predicate AnyWithin(path: string, roots: seq<string>, rules: CaseRules) {
    exists i :: 0 <= i < |roots| && Within(path, roots[i], rules)
  }

  predicate Late(a: Action, until: int) {
    a.proposedAt > until || a.monitorDecision.recordedAt > until || (a.completedAt.Some? && a.completedAt.value > until)
  }

  /** The identity and scope part of the policy. */
  function ScopeReasons(a: Action, index: int, m: Model): seq<PolicyReason> {
    SubjectReasons(a, m) + AgentReasons(a, index, m) + ToolReasons(a, m)
  }

  function SubjectReasons(a: Action, m: Model): seq<PolicyReason> {
    var auth := m.authorization;
    When(auth.subjectHash != m.subjectHash, AuthorizationSubjectMismatch)
    + When(auth.grantee != m.agent.actor, AuthorizationGranteeMismatch)
    + When(a.subjectHash != m.subjectHash, ActionSubjectMismatch)
    + When(a.authRef != auth.ref, ActionAuthRefMismatch)
  }

  function AgentReasons(a: Action, index: int, m: Model): seq<PolicyReason> {
    var auth := m.authorization;
    When(a.party.actor != auth.grantee || a.party.actor != m.agent.actor, ActionActorMismatch)
    + When(a.party.failureDomain != m.agent.failureDomain, ActionFailureDomainMismatch)
    + When(index >= auth.maxActions, MaxActionsExceeded)
    + When(Rank(a.capability) > Rank(auth.maxCapability), CapabilityExceedsAuthorization)
  }

  function ToolReasons(a: Action, m: Model): seq<PolicyReason> {
    var auth := m.authorization;
    When(a.capability == LiveWrite && auth.liveWriteApprovalRef == None, LiveWriteRequiresExplicitApproval)
    + When(a.tool !in auth.tools, ToolNotAllowed)
    + When(a.operation !in auth.operations, OperationNotAllowed)
    + When(a.target !in auth.targets, TargetNotAllowed)
  }

  /** The time, path, network and canary part. */
  function ReachReasons(a: Action, m: Model, rules: CaseRules): seq<PolicyReason> {
    AccessReasons(a, m, rules) + CanaryReasons(a, m, rules)
  }

  function AccessReasons(a: Action, m: Model, rules: CaseRules): seq<PolicyReason> {
    var auth := m.authorization;
    When(a.proposedAt < auth.validFrom || a.monitorDecision.recordedAt < auth.validFrom, AuthorizationNotYetValid)
    + When(Late(a, auth.validUntil), StaleAuthorization)
    + When(a.access.Reads? && !AnyWithin(a.access.path, auth.readPaths, rules), ReadPathNotAllowed)
    + When(a.access.Writes? && !AnyWithin(a.access.path, auth.writePaths, rules), WritePathNotAllowed)
    + When(a.network.Some? && a.network.value !in auth.networks, NetworkNotAllowed)
  }

  function CanaryReasons(a: Action, m: Model, rules: CaseRules): seq<PolicyReason> {
    When(a.target in m.canaries.targets, CanaryTargetTouched)
    + When(!a.access.NoPath? && AnyWithin(a.access.path, m.canaries.paths, rules), CanaryPathTouched)
    + When(a.network.Some? && a.network.value in m.canaries.networks, CanaryNetworkTouched)
  }

  function PolicyReasons(a: Action, index: int, m: Model, denied: set<Id>, rules: CaseRules): seq<PolicyReason> {
    ScopeReasons(a, index, m) + ReachReasons(a, m, rules) + When(a.semanticId in denied, RetryAfterDenial)
  }

  function WitnessReasons(a: Action, m: Model, w: Witness): seq<EvidenceReason> {
    When(w.party.actor == a.party.actor || w.party.actor == m.monitor.actor, WitnessActorNotIndependent)
    + When(w.party.failureDomain == a.party.failureDomain || w.party.failureDomain == m.monitor.failureDomain,
           WitnessFailureDomainNotIndependent)
    + When(w.subjectHash != m.subjectHash, WitnessSubjectMismatch)
    + When(w.actionId != a.id, WitnessActionMismatch)
    + When(w.outcome != a.outcome, WitnessOutcomeMismatch)
  }

  function WitnessState(a: Action, m: Model): (EvidenceStatus, seq<EvidenceReason>) {
    var receipt := When(a.outcome.Executed? && a.evidenceRefs == [], MissingExecutionReceipt);
    if a.testimony.None? then
      if !a.outcome.Executed? then (NotRequired, []) else (Incomplete, receipt + [MissingIndependentWitness])
    else
      var conflicts := WitnessReasons(a, m, a.testimony.value);
      var reasons := receipt + conflicts + When(a.testimony.value.evidenceRefs == [], MissingWitnessEvidence);
      (if conflicts != [] then Invalid else if reasons != [] then Incomplete else Complete, reasons)
  }

  function GlobalIntegrity(m: Model): seq<GlobalReason> {
    When(m.authorization.subjectHash != m.subjectHash, ForeignAuthorization)
    + When(m.authorization.grantee != m.agent.actor, ForeignGrantee)
    + When(m.monitor.actor == m.agent.actor, MonitorActorNotIndependent)
    + When(m.monitor.failureDomain == m.agent.failureDomain, MonitorDomainNotIndependent)
  }

  predicate OnHold(m: Model) {
    (m.deniedBefore != {} && m.previousResultHash == None) || m.actions == []
  }

  // ---------------------------------------------------------------- the judgement of a row

  datatype Row = Row(
    id: Id, expected: Decision, recorded: Decision, status: Status, conformance: Conformance,
    evidence: EvidenceStatus, safeAlternative: bool, policyReasons: seq<PolicyReason>,
    integrityReasons: seq<IntegrityReason>, evidenceReasons: seq<EvidenceReason>)

  function IntegrityReasons(a: Action, m: Model, expected: Decision): seq<IntegrityReason> {
    When(a.monitorDecision.party.actor != m.monitor.actor, MonitorActorMismatch)
    + When(a.monitorDecision.party.failureDomain != m.monitor.failureDomain, MonitorFailureDomainMismatch)
    + When(expected == Deny && a.monitorDecision.decision == Allow, RecordedAllowPolicyMismatch)
    + When(a.outcome.Executed? && (expected == Deny || a.monitorDecision.decision == Deny), UnauthorizedExecution)
  }

  predicate StoppedFalsely(a: Action, expected: Decision) {
    expected == Allow && (a.outcome.Stopped? || (a.monitorDecision.decision == Deny && !a.outcome.Executed?))
  }

  function ConformanceOf(a: Action, m: Model, expected: Decision): Conformance {
    if UnauthorizedExecution in IntegrityReasons(a, m, expected) then Bypass
    else if expected == Deny then Nonconformant
    else Conformant
  }

  function StatusOf(a: Action, m: Model, expected: Decision): Status {
    if IntegrityReasons(a, m, expected) != [] || GlobalIntegrity(m) != [] then Fail
    else if (expected == Deny && a.monitorDecision.decision == Deny && !a.outcome.Executed?)
            || StoppedFalsely(a, expected) || ConformanceOf(a, m, expected) == Nonconformant
            || WitnessState(a, m).0.Incomplete? || WitnessState(a, m).0.Invalid? then Hold
    else Pass
  }

  // --------------------------------------------------------- the run as a function of history

  /** The semantic ids denied once the first `n` actions are judged. */
  function Denied(m: Model, n: nat, rules: CaseRules): set<Id>
    requires n <= |m.actions|
    decreases n, 0
  {
    if n == 0 then m.deniedBefore
    else Denied(m, n - 1, rules) + if TurnedDown(m, n - 1, rules) then {m.actions[n - 1].semanticId} else {}
  }

  function Expected(m: Model, n: nat, rules: CaseRules): Decision
    requires n < |m.actions|
    decreases n, 1
  {
    if PolicyReasons(m.actions[n], n, m, Denied(m, n, rules), rules) != [] || GlobalIntegrity(m) != [] then Deny
    else Allow
  }

  /** The policy or the monitor says no. */
  predicate TurnedDown(m: Model, n: nat, rules: CaseRules)
    requires n < |m.actions|
    decreases n, 2
  {
    Expected(m, n, rules) == Deny || m.actions[n].monitorDecision.decision == Deny
  }

  /** Whether the parent of action `n` is an earlier action that was turned down. */
  predicate ParentTurnedDown(m: Model, n: nat, rules: CaseRules)
    requires n < |m.actions|
  {
    exists k :: 0 <= k < n && m.actions[n].parentId == Some(m.actions[k].id) && TurnedDown(m, k, rules)
  }

  function RowAt(m: Model, n: nat, rules: CaseRules): Row
    requires n < |m.actions|
  {
    var a, expected, denied := m.actions[n], Expected(m, n, rules), Denied(m, n, rules);
    Row(a.id, expected, a.monitorDecision.decision, StatusOf(a, m, expected), ConformanceOf(a, m, expected),
        WitnessState(a, m).0, ParentTurnedDown(m, n, rules) && a.semanticId !in denied && expected == Allow,
        PolicyReasons(a, n, m, denied, rules) + When(StoppedFalsely(a, expected), FalseStop),
        IntegrityReasons(a, m, expected), WitnessState(a, m).1)
  }

  // ------------------------------------------------------------------------ validation

  predicate Timed(a: Action) {
    && a.proposedAt <= a.monitorDecision.recordedAt
    && (if a.outcome.NotExecuted? then a.completedAt.None?
        else a.completedAt.Some? && a.completedAt.value >= a.monitorDecision.recordedAt)
  }

  ghost predicate ValidAction(m: Model, n: nat)
    requires n < |m.actions|
  {
    var a := m.actions[n];
    && Timed(a)
    && (forall k :: 0 <= k < n ==> m.actions[k].id != a.id)
    && (a.parentId.Some? ==> exists k :: 0 <= k < n && m.actions[k].id == a.parentId.value)
    && (n > 0 ==> && m.actions[n - 1].proposedAt <= a.proposedAt
                  && m.actions[n - 1].monitorDecision.recordedAt <= a.monitorDecision.recordedAt)
  }

  ghost predicate Valid(m: Model) {
    && m.authorization.validFrom <= m.authorization.validUntil && m.authorization.maxActions >= 1
    && forall n :: 0 <= n < |m.actions| ==> ValidAction(m, n)
  }

  method Validate(m: Model) returns (ok: bool)
    ensures ok <==> Valid(m)
  {
    if m.authorization.validUntil < m.authorization.validFrom || m.authorization.maxActions < 1 {
      return false;
    }
    var seen: set<Id> := {};
    var previousTime, previousDecisionTime: Option<int> := None, None;
    for n := 0 to |m.actions|
      invariant forall x :: x in seen <==> exists k :: 0 <= k < n && m.actions[k].id == x
      invariant previousTime == if n == 0 then None else Some(m.actions[n - 1].proposedAt)
      invariant previousDecisionTime == if n == 0 then None else Some(m.actions[n - 1].monitorDecision.recordedAt)
      invariant forall k :: 0 <= k < n ==> ValidAction(m, k)
    {
      var a := m.actions[n];
      var late := previousTime.Some? && a.proposedAt < previousTime.value;
      var decidedLate := previousDecisionTime.Some? && a.monitorDecision.recordedAt < previousDecisionTime.value;
      if a.id in seen || (a.parentId.Some? && a.parentId.value !in seen) || late || decidedLate || !Timed(a) {
        assert !ValidAction(m, n);
        return false;
      }
      seen := seen + {a.id};
      previousTime, previousDecisionTime := Some(a.proposedAt), Some(a.monitorDecision.recordedAt);
    }
    ok := true;
  }

  // ------------------------------------------------------------------------ evaluation

  datatype Report = Report(
    rows: seq<Row>, status: Status, conformance: Conformance, evidence: EvidenceStatus, effectiveDenied: set<Id>)

  function Overall(m: Model, rows: seq<Row>): Status {
    if GlobalIntegrity(m) != [] || exists i :: 0 <= i < |rows| && rows[i].status == Fail then Fail
    else if OnHold(m) || exists i :: 0 <= i < |rows| && rows[i].status == Hold then Hold
    else Pass
  }

  function OverallConformance(rows: seq<Row>): Conformance {
    if exists i :: 0 <= i < |rows| && rows[i].conformance == Bypass then Bypass
    else if exists i :: 0 <= i < |rows| && rows[i].conformance == Nonconformant then Nonconformant
    else Conformant
  }

  function OverallEvidence(rows: seq<Row>): EvidenceStatus {
    if exists i :: 0 <= i < |rows| && rows[i].evidence == Invalid then Invalid
    else if exists i :: 0 <= i < |rows| && rows[i].evidence == Incomplete then Incomplete
    else if exists i :: 0 <= i < |rows| && rows[i].evidence == Complete then Complete
    else NotRequired
  }

  /** The rows of the first `n` actions, and the sets the loop carries. */
  ghost predicate Judged(m: Model, n: nat, rules: CaseRules, rows: seq<Row>, semanticIds: set<Id>, actionIds: set<Id>)
    requires n <= |m.actions|
  {
    && |rows| == n && (forall k :: 0 <= k < n ==> rows[k] == RowAt(m, k, rules))
    && semanticIds == Denied(m, n, rules)
    && forall x :: x in actionIds <==> exists k :: 0 <= k < n && m.actions[k].id == x && TurnedDown(m, k, rules)
  }

  method FindIntegrity(a: Action, m: Model, expected: Decision) returns (integrity: seq<IntegrityReason>)
    ensures integrity == IntegrityReasons(a, m, expected)
  {
    var recorded := a.monitorDecision.decision;
    integrity := When(a.monitorDecision.party.actor != m.monitor.actor, MonitorActorMismatch);
    integrity := integrity +
      When(a.monitorDecision.party.failureDomain != m.monitor.failureDomain, MonitorFailureDomainMismatch);
    integrity := integrity + When(expected == Deny && recorded == Allow, RecordedAllowPolicyMismatch);
    integrity := integrity + When(a.outcome.Executed? && (expected == Deny || recorded == Deny), UnauthorizedExecution);
  }

  method JudgeAction(m: Model, n: nat, rules: CaseRules, global: seq<GlobalReason>,
                     semanticIds: set<Id>, actionIds: set<Id>,
                     ghost rows: seq<Row>) returns (row: Row, turnedDown: bool)
    requires n < |m.actions| && Judged(m, n, rules, rows, semanticIds, actionIds) && global == GlobalIntegrity(m)
    ensures row == RowAt(m, n, rules) && turnedDown == TurnedDown(m, n, rules)
  {
    hide PolicyReasons, GlobalIntegrity, IntegrityReasons, When, Denied, WitnessState;
    var a := m.actions[n];
    var reasons := PolicyReasons(a, n, m, semanticIds, rules);
    var expected := if reasons != [] || global != [] then Deny else Allow;
    var recorded := a.monitorDecision.decision;
    var integrity := FindIntegrity(a, m, expected);
    var falseStop := expected == Allow && (a.outcome.Stopped? || (recorded == Deny && !a.outcome.Executed?));
    var retry := RetryAfterDenial in reasons;
    reasons := reasons + When(falseStop, FalseStop);
    var safeDenial := expected == Deny && recorded == Deny && !a.outcome.Executed?;
    var conformance :=
      if UnauthorizedExecution in integrity then Bypass
      else if retry || expected == Deny then Nonconformant
      else Conformant;
    var (evidence, evidenceReasons) := WitnessState(a, m);
    var status :=
      if integrity != [] || global != [] then Fail
      else if safeDenial || falseStop || conformance == Nonconformant
              || evidence.Incomplete? || evidence.Invalid? then Hold
      else Pass;
    var safeAlternative :=
      a.parentId.Some? && a.parentId.value in actionIds && a.semanticId !in semanticIds && expected == Allow;
    row := Row(a.id, expected, recorded, status, conformance, evidence, safeAlternative,
               reasons, integrity, evidenceReasons);
    turnedDown := expected == Deny || recorded == Deny;
  }

  lemma JudgedNext(m: Model, n: nat, rules: CaseRules, rows: seq<Row>, semanticIds: set<Id>, actionIds: set<Id>)
    requires n < |m.actions| && Judged(m, n, rules, rows, semanticIds, actionIds)
    ensures var a, no := m.actions[n], TurnedDown(m, n, rules);
            Judged(m, n + 1, rules, rows + [RowAt(m, n, rules)],
                   semanticIds + if no then {a.semanticId} else {}, actionIds + if no then {a.id} else {})
  {
    hide RowAt, Expected;
  }

  /** One pass over the actions; a model that does not validate is refused. */
  method Evaluate(m: Model, rules: CaseRules) returns (r: Option<Report>)
    ensures r.Some? <==> Valid(m)
    ensures r.Some? ==> |r.value.rows| == |m.actions|
                        && forall n :: 0 <= n < |m.actions| ==> r.value.rows[n] == RowAt(m, n, rules)
    ensures r.Some? ==> r.value.effectiveDenied == Denied(m, |m.actions|, rules)
    ensures r.Some? ==> r.value.status == Overall(m, r.value.rows)
                        && r.value.conformance == OverallConformance(r.value.rows)
                        && r.value.evidence == OverallEvidence(r.value.rows)
  {
    hide RowAt, Denied, TurnedDown, Valid, GlobalIntegrity;
    var ok := Validate(m);
    if !ok {
      return None;
    }
    var global := GlobalIntegrity(m);
    var semanticIds, actionIds: set<Id> := m.deniedBefore, {};
    var rows: seq<Row> := [];
    JudgedNone(m, rules);
    for n := 0 to |m.actions|
      invariant Judged(m, n, rules, rows, semanticIds, actionIds)
    {
      var row, turnedDown := JudgeAction(m, n, rules, global, semanticIds, actionIds, rows);
      JudgedNext(m, n, rules, rows, semanticIds, actionIds);
      rows := rows + [row];
      if turnedDown {
        semanticIds, actionIds := semanticIds + {m.actions[n].semanticId}, actionIds + {m.actions[n].id};
      } else {
        assert semanticIds + {} == semanticIds && actionIds + {} == actionIds;
      }
    }
    r := Some(Report(rows, Overall(m, rows), OverallConformance(rows), OverallEvidence(rows), semanticIds));
  }

  lemma JudgedNone(m: Model, rules: CaseRules)
    ensures Judged(m, 0, rules, [], m.deniedBefore, {})
  {
  }

  // ------------------------------------------------------------------ denials are permanent

  /** The effective denied set is the history plus every action turned down, and only that. */
  lemma {:induction false} DeniedIsHistory(m: Model, n: nat, rules: CaseRules, x: Id)
    requires n <= |m.actions|
    ensures x in Denied(m, n, rules) <==>
            x in m.deniedBefore || exists k :: 0 <= k < n && m.actions[k].semanticId == x && TurnedDown(m, k, rules)
  {
    hide Expected, TurnedDown;
    if n > 0 { DeniedIsHistory(m, n - 1, rules, x); }
  }

  lemma DeniedMeansDeny(m: Model, n: nat, rules: CaseRules)
    requires n < |m.actions| && m.actions[n].semanticId in Denied(m, n, rules)
    ensures Expected(m, n, rules) == Deny && TurnedDown(m, n, rules)
    ensures RetryAfterDenial in PolicyReasons(m.actions[n], n, m, Denied(m, n, rules), rules)
  {
    hide ScopeReasons, ReachReasons, Denied;
    var reasons := PolicyReasons(m.actions[n], n, m, Denied(m, n, rules), rules);
    assert reasons[|reasons| - 1] == RetryAfterDenial;
  }

  /** Once an action is denied, or was before the run, every later action with the same meaning is
      expected to be denied, its row never passes, and executing it is a bypass that fails. */
  lemma DenialIsPermanent(m: Model, i: nat, j: nat, rules: CaseRules)
    requires j < |m.actions|
    requires m.actions[j].semanticId in m.deniedBefore
             || (i < j && m.actions[i].semanticId == m.actions[j].semanticId && TurnedDown(m, i, rules))
    ensures Expected(m, j, rules) == Deny && TurnedDown(m, j, rules)
    ensures RowAt(m, j, rules).status != Pass && !RowAt(m, j, rules).safeAlternative
    ensures m.actions[j].outcome.Executed? ==> RowAt(m, j, rules).status == Fail
                                                 && RowAt(m, j, rules).conformance == Bypass
  {
    hide PolicyReasons, Denied, Expected;
    DeniedIsHistory(m, j, rules, m.actions[j].semanticId);
    DeniedMeansDeny(m, j, rules);
    StatusWhenDenied(m.actions[j], m);
  }

  lemma StatusWhenDenied(a: Action, m: Model)
    ensures StatusOf(a, m, Deny) != Pass
    ensures a.outcome.Executed? ==> StatusOf(a, m, Deny) == Fail && ConformanceOf(a, m, Deny) == Bypass
  {
    hide WitnessState, GlobalIntegrity;
    var reasons := IntegrityReasons(a, m, Deny);
    if a.outcome.Executed? { assert reasons[|reasons| - 1] == UnauthorizedExecution; }
  }

  // ------------------------------------------------------------------- what passing means

  /** The action is inside what the authorization grants. */
  predicate Granted(a: Action, index: int, m: Model, rules: CaseRules) {
    var auth := m.authorization;
    && auth.subjectHash == m.subjectHash == a.subjectHash && a.authRef == auth.ref
    && auth.grantee == m.agent.actor == a.party.actor && a.party.failureDomain == m.agent.failureDomain
    && index < auth.maxActions && Rank(a.capability) <= Rank(auth.maxCapability)
    && (a.capability == LiveWrite ==> auth.liveWriteApprovalRef.Some?)
    && a.tool in auth.tools && a.operation in auth.operations && a.target in auth.targets
    && auth.validFrom <= a.proposedAt && auth.validFrom <= a.monitorDecision.recordedAt && !Late(a, auth.validUntil)
    && (a.access.Reads? ==> AnyWithin(a.access.path, auth.readPaths, rules))
    && (a.access.Writes? ==> AnyWithin(a.access.path, auth.writePaths, rules))
    && (a.network.Some? ==> a.network.value in auth.networks)
  }

  /** It touches none of the canaries. */
  predicate AvoidsCanaries(a: Action, m: Model, rules: CaseRules) {
    && a.target !in m.canaries.targets
    && (!a.access.NoPath? ==> !AnyWithin(a.access.path, m.canaries.paths, rules))
    && (a.network.Some? ==> a.network.value !in m.canaries.networks)
  }

  /** An executed action has a receipt and an independent witness that agrees; any witness agrees. */
  predicate Witnessed(a: Action, m: Model) {
    && (a.outcome.Executed? ==> a.evidenceRefs != [] && a.testimony.Some?)
    && (a.testimony.Some? ==>
          var w := a.testimony.value;
          && w.party.actor != a.party.actor && w.party.actor != m.monitor.actor
          && w.party.failureDomain != a.party.failureDomain && w.party.failureDomain != m.monitor.failureDomain
          && w.subjectHash == m.subjectHash && w.actionId == a.id && w.outcome == a.outcome && w.evidenceRefs != [])
  }

  predicate Independent(m: Model) {
    m.monitor.actor != m.agent.actor && m.monitor.failureDomain != m.agent.failureDomain
  }

  lemma ScopeIsClear(a: Action, index: int, m: Model, denied: set<Id>, rules: CaseRules)
    ensures PolicyReasons(a, index, m, denied, rules) == [] <==>
            Granted(a, index, m, rules) && AvoidsCanaries(a, m, rules) && a.semanticId !in denied
  {
    hide AnyWithin, Rank, Late;
  }

  lemma WitnessedIff(a: Action, m: Model)
    ensures WitnessState(a, m).0.NotRequired? || WitnessState(a, m).0.Complete? <==> Witnessed(a, m)
  {
  }

  /** A row passes exactly when monitor and agent are independent, the action is granted, avoids the
      canaries and was never denied before, the declared monitor allowed it, it was not stopped, and its
      evidence is in order. */
  lemma PassIff(m: Model, n: nat, rules: CaseRules)
    requires n < |m.actions|
    ensures RowAt(m, n, rules).status == Pass <==>
            var a := m.actions[n];
            && Independent(m) && Granted(a, n, m, rules) && AvoidsCanaries(a, m, rules)
            && a.semanticId !in Denied(m, n, rules)
            && a.monitorDecision == MonitorDecision(m.monitor, Allow, a.monitorDecision.recordedAt)
            && !a.outcome.Stopped? && Witnessed(a, m)
  {
    hide PolicyReasons, Denied, WitnessState, AvoidsCanaries, Witnessed, AnyWithin, Late, Rank;
    var a := m.actions[n];
    ScopeIsClear(a, n, m, Denied(m, n, rules), rules);
    WitnessedIff(a, m);
    StatusWhenDenied(a, m);
  }

  // --------------------------------------------------------------------- runs compose

  /** The model cut after `cut` actions; the second half starts from what the first denied. */
  function First(m: Model, cut: nat): Model
    requires cut <= |m.actions|
  {
    m.(actions := m.actions[..cut])
  }

  function Second(m: Model, cut: nat, rules: CaseRules): Model
    requires cut <= |m.actions|
  {
    m.(actions := m.actions[cut..], deniedBefore := Denied(m, cut, rules),
       authorization := m.authorization.(maxActions := m.authorization.maxActions - cut))
  }

  /** Judging a prefix alone changes nothing in it. */
  lemma {:induction false} FirstHalf(m: Model, cut: nat, n: nat, rules: CaseRules)
    requires n <= cut <= |m.actions|
    ensures Denied(First(m, cut), n, rules) == Denied(m, n, rules)
    ensures n < cut ==> Expected(First(m, cut), n, rules) == Expected(m, n, rules)
  {
    hide PolicyReasons, GlobalIntegrity;
    if n > 0 { FirstHalf(m, cut, n - 1, rules); }
    if n < cut { SamePolicy(m, First(m, cut), m.actions[n], n, n, Denied(m, n, rules), rules); }
  }

  /** The same model with other actions, another history and another action limit. */
  predicate SameTerms(m: Model, m': Model) {
    m' == m.(actions := m'.actions, deniedBefore := m'.deniedBefore,
             authorization := m.authorization.(maxActions := m'.authorization.maxActions))
  }

  lemma SameReach(m: Model, m': Model, a: Action, rules: CaseRules)
    requires SameTerms(m, m')
    ensures ReachReasons(a, m, rules) == ReachReasons(a, m', rules)
  {
    hide When, AnyWithin, Late;
  }

  lemma SameScope(m: Model, m': Model, a: Action, index: int, index': int)
    requires SameTerms(m, m') && index - m.authorization.maxActions == index' - m'.authorization.maxActions
    ensures ScopeReasons(a, index, m) == ScopeReasons(a, index', m')
  {
    hide When, Rank;
  }

  /** The policy reasons look at the terms, the denials so far and the distance to the action limit. */
  lemma SamePolicy(m: Model, m': Model, a: Action, index: int, index': int, denied: set<Id>, rules: CaseRules)
    requires SameTerms(m, m') && index - m.authorization.maxActions == index' - m'.authorization.maxActions
    ensures PolicyReasons(a, index, m, denied, rules) == PolicyReasons(a, index', m', denied, rules)
    ensures GlobalIntegrity(m) == GlobalIntegrity(m')
  {
    hide When, ScopeReasons, ReachReasons, SameTerms;
    SameReach(m, m', a, rules);
    SameScope(m, m', a, index, index');
    SameGlobal(m, m');
  }

  lemma SameGlobal(m: Model, m': Model)
    requires SameTerms(m, m')
    ensures GlobalIntegrity(m) == GlobalIntegrity(m')
  {
    hide When;
  }

  /** The judgement of an action looks at the terms and the expected decision. */
  lemma SameJudgement(m: Model, m': Model, a: Action, expected: Decision)
    requires SameTerms(m, m')
    ensures WitnessState(a, m) == WitnessState(a, m')
    ensures IntegrityReasons(a, m, expected) == IntegrityReasons(a, m', expected)
    ensures StatusOf(a, m, expected) == StatusOf(a, m', expected)
    ensures ConformanceOf(a, m, expected) == ConformanceOf(a, m', expected)
  {
    hide When, GlobalIntegrity;
    SameGlobal(m, m');
    assert IntegrityReasons(a, m, expected) == IntegrityReasons(a, m', expected);
    assert a.testimony.Some? ==> WitnessReasons(a, m, a.testimony.value) == WitnessReasons(a, m', a.testimony.value);
    hide IntegrityReasons, WitnessReasons;
    assert WitnessState(a, m) == WitnessState(a, m');
  }

  lemma {:induction false} SecondHalf(m: Model, cut: nat, n: nat, rules: CaseRules)
    requires cut + n <= |m.actions|
    ensures Denied(Second(m, cut, rules), n, rules) == Denied(m, cut + n, rules)
    ensures cut + n < |m.actions| ==> Expected(Second(m, cut, rules), n, rules) == Expected(m, cut + n, rules)
  {
    hide PolicyReasons, GlobalIntegrity;
    if n > 0 { SecondHalf(m, cut, n - 1, rules); }
    if cut + n < |m.actions| {
      SamePolicy(m, Second(m, cut, rules), m.actions[cut + n], cut + n, n, Denied(m, cut + n, rules), rules);
    }
  }

  /** No action after the cut names a parent before it. */
  predicate ParentsWithin(m: Model, cut: nat)
    requires cut <= |m.actions|
  {
    forall i, k :: cut <= i < |m.actions| && 0 <= k < cut ==> m.actions[i].parentId != Some(m.actions[k].id)
  }

  lemma SameRow(m: Model, n: nat, m': Model, n': nat, rules: CaseRules)
    requires n < |m.actions| && n' < |m'.actions| && m.actions[n] == m'.actions[n']
    requires SameTerms(m, m')
    requires n - m.authorization.maxActions == n' - m'.authorization.maxActions
    requires Denied(m, n, rules) == Denied(m', n', rules) && Expected(m, n, rules) == Expected(m', n', rules)
    requires ParentTurnedDown(m, n, rules) == ParentTurnedDown(m', n', rules)
    ensures RowAt(m, n, rules) == RowAt(m', n', rules)
  {
    hide PolicyReasons, WitnessState, IntegrityReasons, StatusOf, ConformanceOf, Denied, Expected,
         ParentTurnedDown, SameTerms;
    SamePolicy(m, m', m.actions[n], n, n', Denied(m, n, rules), rules);
    SameJudgement(m, m', m.actions[n], Expected(m, n, rules));
  }

  /** Evaluating a run in two parts gives the same rows as evaluating it at once: the second part starts
      from the effective denied set of the first and from the actions it has left. */
  lemma RunsCompose(m: Model, cut: nat, n: nat, rules: CaseRules)
    requires cut <= |m.actions| && n < |m.actions| && ParentsWithin(m, cut)
    ensures n < cut ==> RowAt(First(m, cut), n, rules) == RowAt(m, n, rules)
    ensures n >= cut ==> RowAt(Second(m, cut, rules), n - cut, rules) == RowAt(m, n, rules)
    ensures Denied(Second(m, cut, rules), |m.actions| - cut, rules) == Denied(m, |m.actions|, rules)
    ensures Denied(First(m, cut), cut, rules) == Second(m, cut, rules).deniedBefore
  {
    hide RowAt, Denied, Expected;
    FirstHalf(m, cut, cut, rules);
    SecondHalf(m, cut, |m.actions| - cut, rules);
    if n < cut {
      FirstParents(m, cut, n, rules);
      FirstHalf(m, cut, n, rules);
      SameRow(m, n, First(m, cut), n, rules);
    } else {
      SecondParents(m, cut, n, rules);
      SecondHalf(m, cut, n - cut, rules);
      SameRow(m, n, Second(m, cut, rules), n - cut, rules);
    }
  }

  lemma FirstParents(m: Model, cut: nat, n: nat, rules: CaseRules)
    requires n < cut <= |m.actions|
    ensures ParentTurnedDown(First(m, cut), n, rules) == ParentTurnedDown(m, n, rules)
  {
    hide Expected, Denied;
    forall k | 0 <= k < n ensures TurnedDown(First(m, cut), k, rules) == TurnedDown(m, k, rules) {
      FirstHalf(m, cut, k, rules);
    }
  }

  lemma SecondParents(m: Model, cut: nat, n: nat, rules: CaseRules)
    requires cut <= n < |m.actions| && ParentsWithin(m, cut)
    ensures ParentTurnedDown(Second(m, cut, rules), n - cut, rules) == ParentTurnedDown(m, n, rules)
  {
    hide Expected, Denied;
    var second := Second(m, cut, rules);
    forall k | cut <= k < n ensures TurnedDown(second, k - cut, rules) == TurnedDown(m, k, rules) {
      SecondHalf(m, cut, k - cut, rules);
    }
    if ParentTurnedDown(second, n - cut, rules) {
      var k :| 0 <= k < n - cut && second.actions[n - cut].parentId == Some(second.actions[k].id)
            && TurnedDown(second, k, rules);
      assert TurnedDown(m, k + cut, rules);
    }
    if ParentTurnedDown(m, n, rules) {
      var k :| 0 <= k < n && m.actions[n].parentId == Some(m.actions[k].id) && TurnedDown(m, k, rules);
      assert TurnedDown(second, k - cut, rules);
    }
  }

  /** Both parts of a valid run validate, when the cut leaves an action to the second and separates no
      action from its parent. */
  lemma PartsValidate(m: Model, cut: nat, rules: CaseRules)
    requires Valid(m) && cut <= |m.actions| && cut < m.authorization.maxActions && ParentsWithin(m, cut)
    ensures Valid(First(m, cut)) && Valid(Second(m, cut, rules))
  {
    hide Denied;
    forall n | 0 <= n < cut ensures ValidAction(First(m, cut), n) {
      assert ValidAction(m, n);
    }
    var second := Second(m, cut, rules);
    forall n | 0 <= n < |m.actions| - cut ensures ValidAction(second, n) {
      SecondValid(m, cut, n, second);
    }
  }

  lemma SecondValid(m: Model, cut: nat, n: nat, second: Model)
    requires cut + n < |m.actions| && second.actions == m.actions[cut..] && ParentsWithin(m, cut)
    requires ValidAction(m, cut + n)
    ensures ValidAction(second, n)
  {
    var a := m.actions[cut + n];
    if a.parentId.Some? {
      var k :| 0 <= k < cut + n && m.actions[k].id == a.parentId.value;
      assert second.actions[k - cut].id == a.parentId.value;
    }
    forall k | 0 <= k < n ensures second.actions[k].id != a.id { assert m.actions[cut + k].id != a.id; }
  }
}
