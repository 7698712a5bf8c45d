/** What each reason in a row of the action guard says of the action, and when evidence, conformance, alternatives and
    the overall verdict are what. */
module GuardReasons {
  import opened ActionGuard
  import opened GuardPaths
  import opened Ordering

  // ------------------------------------------------------------------- policy reasons

  /** The policy gives the reason `r` for denying action number `index`. */
  predicate PolicyGives(a: Action, index: int, m: Model, denied: set<Id>, rules: CaseRules, r: PolicyReason) {
    var auth, decided := m.authorization, a.monitorDecision.recordedAt;
    match r
    case AuthorizationSubjectMismatch => auth.subjectHash != m.subjectHash
    case AuthorizationGranteeMismatch => auth.grantee != m.agent.actor
    case ActionSubjectMismatch => a.subjectHash != m.subjectHash
    case ActionAuthRefMismatch => a.authRef != auth.ref
    case ActionActorMismatch => a.party.actor != auth.grantee || a.party.actor != m.agent.actor
    case ActionFailureDomainMismatch => a.party.failureDomain != m.agent.failureDomain
    case MaxActionsExceeded => index >= auth.maxActions
    case CapabilityExceedsAuthorization => Above(a.capability, auth.maxCapability)
    case LiveWriteRequiresExplicitApproval => a.capability == LiveWrite && auth.liveWriteApprovalRef == None
    case ToolNotAllowed => a.tool !in auth.tools
    case OperationNotAllowed => a.operation !in auth.operations
    case TargetNotAllowed => a.target !in auth.targets
    case AuthorizationNotYetValid => a.proposedAt < auth.validFrom || decided < auth.validFrom
    case StaleAuthorization =>
      || a.proposedAt > auth.validUntil || decided > auth.validUntil
      || (a.completedAt.Some? && a.completedAt.value > auth.validUntil)
    case ReadPathNotAllowed =>
      a.access.Reads? && forall i :: 0 <= i < |auth.readPaths| ==> !Within(a.access.path, auth.readPaths[i], rules)
    case WritePathNotAllowed =>
      a.access.Writes? && forall i :: 0 <= i < |auth.writePaths| ==> !Within(a.access.path, auth.writePaths[i], rules)
    case NetworkNotAllowed => a.network.Some? && a.network.value !in auth.networks
    case CanaryTargetTouched => a.target in m.canaries.targets
    case CanaryPathTouched =>
      && !a.access.NoPath?
      && exists i :: 0 <= i < |m.canaries.paths| && Within(a.access.path, m.canaries.paths[i], rules)
    case CanaryNetworkTouched => a.network.Some? && a.network.value in m.canaries.networks
    case RetryAfterDenial => a.semanticId in denied
    case FalseStop => false
  }

  /** `c` is further up the ladder of capabilities than `d`. */
  predicate Above(c: Capability, d: Capability) {
    match d
    case ReadOnly => c != ReadOnly
    case LocalReplay => c == SandboxDynamic || c == AuthorizedFork || c == LiveWrite
    case SandboxDynamic => c == AuthorizedFork || c == LiveWrite
    case AuthorizedFork => c == LiveWrite
    case LiveWrite => false
  }

  lemma InSum<T>(xs: seq<T>, condition: bool, y: T, x: T)
    ensures x in xs + When(condition, y) <==> x in xs || (condition && x == y)
  {
  }

  lemma InFour<T>(a: bool, u: T, b: bool, v: T, c: bool, w: T, d: bool, y: T, x: T)
    ensures x in When(a, u) + When(b, v) + When(c, w) + When(d, y) <==>
            (a && x == u) || (b && x == v) || (c && x == w) || (d && x == y)
  {
    InSum(When(a, u), b, v, x);
    InSum(When(a, u) + When(b, v), c, w, x);
    InSum(When(a, u) + When(b, v) + When(c, w), d, y, x);
  }

  lemma SubjectGives(a: Action, index: int, m: Model, denied: set<Id>, rules: CaseRules, r: PolicyReason)
    ensures r in SubjectReasons(a, m) <==>
            && PolicyGives(a, index, m, denied, rules, r)
            && (r.AuthorizationSubjectMismatch? || r.AuthorizationGranteeMismatch? || r.ActionSubjectMismatch?
                || r.ActionAuthRefMismatch?)
  {
    hide When, Within, Above;
    var auth := m.authorization;
    InFour(auth.subjectHash != m.subjectHash, AuthorizationSubjectMismatch,
           auth.grantee != m.agent.actor, AuthorizationGranteeMismatch,
           a.subjectHash != m.subjectHash, ActionSubjectMismatch, a.authRef != auth.ref, ActionAuthRefMismatch, r);
  }

  lemma AgentGives(a: Action, index: int, m: Model, denied: set<Id>, rules: CaseRules, r: PolicyReason)
    ensures r in AgentReasons(a, index, m) <==>
            && PolicyGives(a, index, m, denied, rules, r)
            && (r.ActionActorMismatch? || r.ActionFailureDomainMismatch? || r.MaxActionsExceeded?
                || r.CapabilityExceedsAuthorization?)
  {
    RankIsLadder(a.capability, m.authorization.maxCapability);
    hide When, Within, Above, Rank;
    var auth := m.authorization;
    InFour(a.party.actor != auth.grantee || a.party.actor != m.agent.actor, ActionActorMismatch,
           a.party.failureDomain != m.agent.failureDomain, ActionFailureDomainMismatch,
           index >= auth.maxActions, MaxActionsExceeded,
           Rank(a.capability) > Rank(auth.maxCapability), CapabilityExceedsAuthorization, r);
  }

  lemma RankIsLadder(c: Capability, d: Capability)
    ensures Rank(c) > Rank(d) <==> Above(c, d)
  {
  }

  lemma ToolGives(a: Action, index: int, m: Model, denied: set<Id>, rules: CaseRules, r: PolicyReason)
    ensures r in ToolReasons(a, m) <==>
            && PolicyGives(a, index, m, denied, rules, r)
            && (r.LiveWriteRequiresExplicitApproval? || r.ToolNotAllowed? || r.OperationNotAllowed?
                || r.TargetNotAllowed?)
  {
    hide When, Within, Above;
    var auth := m.authorization;
    InFour(a.capability == LiveWrite && auth.liveWriteApprovalRef == None, LiveWriteRequiresExplicitApproval,
           a.tool !in auth.tools, ToolNotAllowed, a.operation !in auth.operations, OperationNotAllowed,
           a.target !in auth.targets, TargetNotAllowed, r);
  }

  lemma AccessSum(a: Action, index: int, m: Model, denied: set<Id>, rules: CaseRules)
    ensures AccessReasons(a, m, rules)
         == When(PolicyGives(a, index, m, denied, rules, AuthorizationNotYetValid), AuthorizationNotYetValid)
            + When(PolicyGives(a, index, m, denied, rules, StaleAuthorization), StaleAuthorization)
            + When(PolicyGives(a, index, m, denied, rules, ReadPathNotAllowed), ReadPathNotAllowed)
            + When(PolicyGives(a, index, m, denied, rules, WritePathNotAllowed), WritePathNotAllowed)
            + When(PolicyGives(a, index, m, denied, rules, NetworkNotAllowed), NetworkNotAllowed)
  {
    hide When, Within, Above;
  }

  lemma AccessGives(a: Action, index: int, m: Model, denied: set<Id>, rules: CaseRules, r: PolicyReason)
    ensures r in AccessReasons(a, m, rules) <==>
            && PolicyGives(a, index, m, denied, rules, r)
            && (r.AuthorizationNotYetValid? || r.StaleAuthorization? || r.ReadPathNotAllowed?
                || r.WritePathNotAllowed? || r.NetworkNotAllowed?)
  {
    hide *;
    AccessSum(a, index, m, denied, rules);
    var early := PolicyGives(a, index, m, denied, rules, AuthorizationNotYetValid);
    var late := PolicyGives(a, index, m, denied, rules, StaleAuthorization);
    var reading := PolicyGives(a, index, m, denied, rules, ReadPathNotAllowed);
    var writing := PolicyGives(a, index, m, denied, rules, WritePathNotAllowed);
    InFour(early, AuthorizationNotYetValid, late, StaleAuthorization, reading, ReadPathNotAllowed,
           writing, WritePathNotAllowed, r);
    InSum(When(early, AuthorizationNotYetValid) + When(late, StaleAuthorization) + When(reading, ReadPathNotAllowed)
          + When(writing, WritePathNotAllowed), PolicyGives(a, index, m, denied, rules, NetworkNotAllowed),
          NetworkNotAllowed, r);
  }

  lemma CanaryGives(a: Action, index: int, m: Model, denied: set<Id>, rules: CaseRules, r: PolicyReason)
    ensures r in CanaryReasons(a, m, rules) <==>
            && PolicyGives(a, index, m, denied, rules, r)
            && (r.CanaryTargetTouched? || r.CanaryPathTouched? || r.CanaryNetworkTouched?)
  {
    hide When, Within, Above;
    InFour(a.target in m.canaries.targets, CanaryTargetTouched,
           !a.access.NoPath? && AnyWithin(a.access.path, m.canaries.paths, rules), CanaryPathTouched,
           a.network.Some? && a.network.value in m.canaries.networks, CanaryNetworkTouched, false, FalseStop, r);
    assert When(false, FalseStop) == [] by { NothingWhenFalse(); }
  }

  lemma NothingWhenFalse()
    ensures When(false, FalseStop) == []
  {
  }

  /** The reasons of the policy are exactly those it gives. */
  lemma PolicyReasonsMean(a: Action, index: int, m: Model, denied: set<Id>, rules: CaseRules, r: PolicyReason)
    ensures r in PolicyReasons(a, index, m, denied, rules) <==> PolicyGives(a, index, m, denied, rules, r)
  {
    hide SubjectReasons, AgentReasons, ToolReasons, AccessReasons, CanaryReasons, When;
    var given := PolicyGives(a, index, m, denied, rules, r);
    SubjectGives(a, index, m, denied, rules, r);
    AgentGives(a, index, m, denied, rules, r);
    ToolGives(a, index, m, denied, rules, r);
    AccessGives(a, index, m, denied, rules, r);
    CanaryGives(a, index, m, denied, rules, r);
    InSum(ScopeReasons(a, index, m) + ReachReasons(a, m, rules), a.semanticId in denied, RetryAfterDenial, r);
    assert r == RetryAfterDenial ==> (given <==> a.semanticId in denied);
    assert r == FalseStop ==> !given;
    hide PolicyGives;
  }

  // -------------------------------------------------------- reasons of the other kinds

  predicate GlobalGives(m: Model, r: GlobalReason) {
    match r
    case ForeignAuthorization => m.authorization.subjectHash != m.subjectHash
    case ForeignGrantee => m.authorization.grantee != m.agent.actor
    case MonitorActorNotIndependent => m.monitor.actor == m.agent.actor
    case MonitorDomainNotIndependent => m.monitor.failureDomain == m.agent.failureDomain
  }

  lemma GlobalReasonsMean(m: Model, r: GlobalReason)
    ensures r in GlobalIntegrity(m) <==> GlobalGives(m, r)
  {
    hide When;
    InFour(m.authorization.subjectHash != m.subjectHash, ForeignAuthorization,
           m.authorization.grantee != m.agent.actor, ForeignGrantee,
           m.monitor.actor == m.agent.actor, MonitorActorNotIndependent,
           m.monitor.failureDomain == m.agent.failureDomain, MonitorDomainNotIndependent, r);
  }

  predicate IntegrityGives(a: Action, m: Model, expected: Decision, r: IntegrityReason) {
    var recorded := a.monitorDecision;
    match r
    case MonitorActorMismatch => recorded.party.actor != m.monitor.actor
    case MonitorFailureDomainMismatch => recorded.party.failureDomain != m.monitor.failureDomain
    case RecordedAllowPolicyMismatch => expected == Deny && recorded.decision == Allow
    case UnauthorizedExecution => a.outcome.Executed? && (expected == Deny || recorded.decision == Deny)
  }

  lemma IntegrityReasonsMean(a: Action, m: Model, expected: Decision, r: IntegrityReason)
    ensures r in IntegrityReasons(a, m, expected) <==> IntegrityGives(a, m, expected, r)
  {
    hide When;
    InFour(a.monitorDecision.party.actor != m.monitor.actor, MonitorActorMismatch,
           a.monitorDecision.party.failureDomain != m.monitor.failureDomain, MonitorFailureDomainMismatch,
           expected == Deny && a.monitorDecision.decision == Allow, RecordedAllowPolicyMismatch,
           a.outcome.Executed? && (expected == Deny || a.monitorDecision.decision == Deny), UnauthorizedExecution, r);
  }

  predicate EvidenceGives(a: Action, m: Model, r: EvidenceReason) {
    if a.testimony.None? then
      a.outcome.Executed? && (r.MissingIndependentWitness? || (r.MissingExecutionReceipt? && a.evidenceRefs == []))
    else
      var w := a.testimony.value;
      match r
      case MissingExecutionReceipt => a.outcome.Executed? && a.evidenceRefs == []
      case MissingIndependentWitness => false
      case WitnessActorNotIndependent => w.party.actor == a.party.actor || w.party.actor == m.monitor.actor
      case WitnessFailureDomainNotIndependent =>
        w.party.failureDomain == a.party.failureDomain || w.party.failureDomain == m.monitor.failureDomain
      case WitnessSubjectMismatch => w.subjectHash != m.subjectHash
      case WitnessActionMismatch => w.actionId != a.id
      case WitnessOutcomeMismatch => w.outcome != a.outcome
      case MissingWitnessEvidence => w.evidenceRefs == []
  }

  lemma WitnessReasonsMean(a: Action, m: Model, w: Witness, r: EvidenceReason)
    requires a.testimony == Some(w)
    ensures r in WitnessReasons(a, m, w) <==>
            && EvidenceGives(a, m, r)
            && !r.MissingExecutionReceipt? && !r.MissingIndependentWitness? && !r.MissingWitnessEvidence?
  {
    hide When;
    var actor := w.party.actor == a.party.actor || w.party.actor == m.monitor.actor;
    var domain := w.party.failureDomain == a.party.failureDomain || w.party.failureDomain == m.monitor.failureDomain;
    InFour(actor, WitnessActorNotIndependent, domain, WitnessFailureDomainNotIndependent,
           w.subjectHash != m.subjectHash, WitnessSubjectMismatch, w.actionId != a.id, WitnessActionMismatch, r);
    InSum(When(actor, WitnessActorNotIndependent) + When(domain, WitnessFailureDomainNotIndependent)
          + When(w.subjectHash != m.subjectHash, WitnessSubjectMismatch)
          + When(w.actionId != a.id, WitnessActionMismatch),
          w.outcome != a.outcome, WitnessOutcomeMismatch, r);
  }

  lemma EvidenceReasonsMean(a: Action, m: Model, r: EvidenceReason)
    ensures r in WitnessState(a, m).1 <==> EvidenceGives(a, m, r)
  {
    if a.testimony.Some? {
      WitnessReasonsMean(a, m, a.testimony.value, r);
    }
    hide WitnessReasons;
  }

  // ---------------------------------------------------------------------------- evidence

  /** A witness that contradicts the action or is not independent. */
  predicate Conflicting(a: Action, m: Model, w: Witness) {
    || w.party.actor == a.party.actor || w.party.actor == m.monitor.actor
    || w.party.failureDomain == a.party.failureDomain || w.party.failureDomain == m.monitor.failureDomain
    || w.subjectHash != m.subjectHash || w.actionId != a.id || w.outcome != a.outcome
  }

  /** Evidence is invalid with a conflicting witness; otherwise incomplete if the witness or a required receipt has no
      references, or an executed action no witness; not required without a witness and execution; else complete. */
  lemma EvidenceIs(a: Action, m: Model)
    ensures var w, status := a.testimony, WitnessState(a, m).0;
            var lacking := (a.outcome.Executed? && a.evidenceRefs == []) || (w.Some? && w.value.evidenceRefs == []);
            && (status.Invalid? <==> w.Some? && Conflicting(a, m, w.value))
            && (status.Incomplete? <==>
                  if w.None? then a.outcome.Executed? else !Conflicting(a, m, w.value) && lacking)
            && (status.NotRequired? <==> w.None? && !a.outcome.Executed?)
            && (status.Complete? <==> w.Some? && !Conflicting(a, m, w.value) && !lacking)
  {
  }

  // ----------------------------------------------------------------- decisions and verdicts

  /** An action is allowed exactly when the parties are independent, it is granted, touches no canary and was never
      denied before. */
  lemma AllowedIff(m: Model, n: nat, rules: CaseRules)
    requires n < |m.actions|
    ensures var a := m.actions[n];
            Expected(m, n, rules) == Allow <==>
            && Independent(m) && m.authorization.subjectHash == m.subjectHash
            && m.authorization.grantee == m.agent.actor
            && Granted(a, n, m, rules) && AvoidsCanaries(a, m, rules)
            && a.semanticId !in m.deniedBefore
            && forall k :: 0 <= k < n && TurnedDown(m, k, rules) ==> m.actions[k].semanticId != a.semanticId
  {
    hide PolicyReasons, Denied, Granted, AvoidsCanaries, TurnedDown;
    var a := m.actions[n];
    ScopeIsClear(a, n, m, Denied(m, n, rules), rules);
    DeniedIsHistory(m, n, rules, a.semanticId);
  }

  /** An alternative is safe exactly when it is allowed and follows up an earlier action that was turned down. */
  lemma SafeAlternativeIff(m: Model, n: nat, rules: CaseRules)
    requires n < |m.actions|
    ensures RowAt(m, n, rules).safeAlternative <==>
            && Expected(m, n, rules) == Allow
            && exists k :: 0 <= k < n && m.actions[n].parentId == Some(m.actions[k].id) && TurnedDown(m, k, rules)
  {
    hide PolicyReasons, Denied, TurnedDown, WitnessState, IntegrityReasons;
    if m.actions[n].semanticId in Denied(m, n, rules) { DeniedMeansDeny(m, n, rules); }
  }

  /** Some action was executed although the policy or the monitor turned it down. */
  predicate SomeBypass(m: Model, rules: CaseRules) {
    exists n :: 0 <= n < |m.actions| && m.actions[n].outcome.Executed? && TurnedDown(m, n, rules)
  }

  /** Some action should have been denied. */
  predicate SomeDenial(m: Model, rules: CaseRules) {
    exists n :: 0 <= n < |m.actions| && Expected(m, n, rules) == Deny
  }

  predicate SomeRow(rows: seq<Row>, conformance: Conformance) {
    exists i :: 0 <= i < |rows| && rows[i].conformance == conformance
  }

  /** The run's conformance: a bypass when some action was executed though turned down; otherwise not conformant when
      some action should have been denied. */
  lemma ConformanceIs(m: Model, rows: seq<Row>, rules: CaseRules)
    requires |rows| == |m.actions| && forall n :: 0 <= n < |m.actions| ==> rows[n] == RowAt(m, n, rules)
    ensures OverallConformance(rows)
         == if SomeBypass(m, rules) then Bypass else if SomeDenial(m, rules) then Nonconformant else Conformant
  {
    hide RowAt, Expected, TurnedDown;
    forall n | 0 <= n < |rows|
      ensures rows[n].conformance == Bypass <==> m.actions[n].outcome.Executed? && TurnedDown(m, n, rules)
      ensures rows[n].conformance == Nonconformant <==>
              !(m.actions[n].outcome.Executed? && TurnedDown(m, n, rules)) && Expected(m, n, rules) == Deny
    {
      RowConformance(m, n, rules);
    }
    assert SomeRow(rows, Bypass) <==> SomeBypass(m, rules);
    if !SomeBypass(m, rules) {
      if n :| 0 <= n < |m.actions| && Expected(m, n, rules) == Deny { assert rows[n].conformance == Nonconformant; }
      if i :| 0 <= i < |rows| && rows[i].conformance == Nonconformant { assert Expected(m, i, rules) == Deny; }
      assert SomeRow(rows, Nonconformant) <==> SomeDenial(m, rules);
    }
    hide SomeBypass, SomeDenial;
  }

  lemma RowConformance(m: Model, n: nat, rules: CaseRules)
    requires n < |m.actions|
    ensures var conformance := RowAt(m, n, rules).conformance;
            var bypass := m.actions[n].outcome.Executed? && TurnedDown(m, n, rules);
            && (conformance == Bypass <==> bypass)
            && (conformance == Nonconformant <==> !bypass && Expected(m, n, rules) == Deny)
  {
    IntegrityReasonsMean(m.actions[n], m, Expected(m, n, rules), UnauthorizedExecution);
    hide PolicyReasons, Denied, WitnessState, IntegrityReasons, Expected;
  }

  /** The run's evidence: invalid when any row's is, otherwise incomplete when any row's is, otherwise complete when any
      row's is, and not required when no row's is. */
  lemma EvidenceOverall(m: Model, rows: seq<Row>, rules: CaseRules)
    requires |rows| == |m.actions| && forall n :: 0 <= n < |m.actions| ==> rows[n] == RowAt(m, n, rules)
    ensures var invalid := exists n :: 0 <= n < |m.actions| && WitnessState(m.actions[n], m).0.Invalid?;
            var incomplete := exists n :: 0 <= n < |m.actions| && WitnessState(m.actions[n], m).0.Incomplete?;
            var complete := exists n :: 0 <= n < |m.actions| && WitnessState(m.actions[n], m).0.Complete?;
            && (OverallEvidence(rows).Invalid? <==> invalid)
            && (OverallEvidence(rows).Incomplete? <==> !invalid && incomplete)
            && (OverallEvidence(rows).Complete? <==> !invalid && !incomplete && complete)
            && (OverallEvidence(rows).NotRequired? <==> !invalid && !incomplete && !complete)
  {
    hide WitnessState, PolicyReasons, Denied, Expected, IntegrityReasons;
    forall n | 0 <= n < |rows| ensures rows[n].evidence == WitnessState(m.actions[n], m).0 {
    }
    hide RowAt;
  }

  // -------------------------------------------------------------------- what is refused

  /** The times of an action run backwards, or its completion does not fit its outcome. */
  predicate Untimely(a: Action) {
    || a.monitorDecision.recordedAt < a.proposedAt
    || (a.outcome.NotExecuted? && a.completedAt.Some?)
    || (!a.outcome.NotExecuted?
        && (a.completedAt.None? || a.completedAt.value < a.monitorDecision.recordedAt))
  }

  predicate OrphanAt(m: Model, n: nat)
    requires n < |m.actions|
  {
    m.actions[n].parentId.Some? && forall k :: 0 <= k < n ==> m.actions[k].id != m.actions[n].parentId.value
  }

  predicate OutOfTurn(m: Model, n: nat)
    requires 0 < n < |m.actions|
  {
    || m.actions[n].proposedAt < m.actions[n - 1].proposedAt
    || m.actions[n].monitorDecision.recordedAt < m.actions[n - 1].monitorDecision.recordedAt
  }

  /** A run is refused exactly for one of these: a period that ends before it begins, no action granted, a repeated id,
      a parent that is no earlier action, or times out of order. */
  lemma RefusedIff(m: Model)
    ensures !Valid(m) <==>
            || m.authorization.validUntil < m.authorization.validFrom || m.authorization.maxActions < 1
            || (exists i, j :: 0 <= i < j < |m.actions| && m.actions[i].id == m.actions[j].id)
            || (exists n :: 0 <= n < |m.actions| && (Untimely(m.actions[n]) || OrphanAt(m, n)))
            || (exists n :: 0 < n < |m.actions| && OutOfTurn(m, n))
  {
    forall n | 0 <= n < |m.actions|
      ensures ValidAction(m, n) <==>
              && (forall k :: 0 <= k < n ==> m.actions[k].id != m.actions[n].id)
              && !Untimely(m.actions[n]) && !OrphanAt(m, n) && (n > 0 ==> !OutOfTurn(m, n))
    {
      TimelyIff(m.actions[n]);
      hide Timed, Untimely;
    }
    hide ValidAction, Untimely, OrphanAt, OutOfTurn;
  }

  lemma TimelyIff(a: Action)
    ensures Timed(a) <==> !Untimely(a)
  {
  }
}
