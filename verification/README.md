# Verified model of the ContractGraph-QA verifiers

ContractGraph-QA replays event traces and searches declared finite graphs, and returns verdicts that
callers rely on. This project models those verifiers in Dafny, step by step as the code takes them, and
proves that a verdict means what it says: over every trace, every graph, every source text, every
document, and for the planner every campaign.

| file | models | main results |
|---|---|---|
| `Ordering.dfy` | text order, stable sort by key, sorted id lists | the order is total, sorting permutes and orders |
| `Search.dfy`, `ShortestPaths.dfy` | the two breadth-first searches and the walk back through predecessors | sound and complete against walks; the path is the least shortest one |
| `ContractLattice.dfy`, `LatticeDocument.dfy` | `run_contract_lattice` and the parser before it | a pass turns "value can be released" into "value is always released" |
| `LifecycleLiveness.dfy` | `run_lifecycle_liveness_model` | pass exactly when no reachable value is stranded; the verdict ignores input order |
| `RootCause.dfy` | `evaluate_root_cause` | cycle report exact; roots independent; every finding explained |
| `EventLog.dfy` | the violation log, scores and counters of both evaluators | a full score exactly for an empty log |
| `Trajectory.dfy`, `TrajectoryAudit.dfy`, `TrajectorySafety.dfy` | `evaluate_agent_trajectory_scenario` | the dictionaries are functions of history; what a clean trace rules out |
| `PaymentRecovery.dfy` | `evaluate_payment_recovery_scenario` | no payment between an ambiguity and its reconciliation; retry chains |
| `TrajectoryFaults.dfy`, `TrajectoryRules.dfy`, `PaymentFaults.dfy` | both evaluators | on every trace, what earns each fault, said of the events; the rules a trace must obey are all there are |
| `TrajectoryPromises.dfy`, `PaymentPromises.dfy` | both evaluators | exactly when the two documented promises hold, and traces on which they do not |
| `TrajectoryReport.dfy`, `PaymentReport.dfy` | the results of both evaluators | what each invariant flag says of the trace, on every trace; what a log costs |
| `TraceIntegrity.dfy` | `evaluate_trace_integrity` | no reasons exactly when the events tile one range of numbers |
| `Planner.dfy`, `PlannerRules.dfy` | `evaluate_active_verification` | conservation, maximality, progress, anti-starvation, no debt lost; what moves a rank |
| `Text.dfy`, `SourceMutation.dfy`, `MutationGenerator.dfy`, `MutationMisses.dfy`, `CommentedLines.dfy` | counting, splicing, contexts, the generation loop | what each generated mutation does to the source |
| `Slashes.dfy`, `JsonPointer.dfy`, `JsonEdits.dfy` | JSON Pointer tokens and document edits | two-sided inverses, frames, undo laws |
| `GuardPaths.dfy`, `GuardContainment.dfy`, `GuardSpelling.dfy` | the path rules | escapes and containment exactly, drives included, however a path is spelled |
| `ActionGuard.dfy`, `GuardReasons.dfy`, `GuardReport.dfy` | the action guard | denials are permanent; runs compose; findings and metrics decide the verdict |

Each loop of the original is a method with a loop. A method is tied to a declarative specification (for
the traces: functions of the event list such as "the last bound observation of this operation"), and
the theorems are about that specification.

## Where the code and its documentation differ, and where a property fails

- "One authorized intent, at most one economic effect" (README.md:17) fails on traces without violations.
  - Trajectories admit a second attempt nobody looked at the first of (`UnwatchedRedispatch`). Each earlier
    attempt is known to be without effect exactly when each is observed before the next
    (`OneOpenAttemptIff`).
  - A later reading may overturn a commitment and grant a retry (`CommitReplaced`). All commitments read name
    one execution exactly when none is overturned, followed by a further execution, and then by another
    commitment (`TrajectoryPromises.AtMostOneEffectIff`); after a commitment an execution is admitted exactly
    when the last observation overturned it (`AdmittedAfterCommitIff`).
  - Payment traces admit a second submission with nothing read since the first (`UnwatchedSubmissionPasses`), and
    a second submission of a committed operation (`PaidTwicePasses`). Each earlier attempt is known to have
    failed exactly when each is read before the next and none is made afresh over a commitment on record
    (`PaymentPromises.OneOpenAttemptIff`); with a commitment on record an attempt is admitted exactly when it is
    no retry (`PaymentPromises.AdmittedIff`).
  - Of the commitments that are read, and of those only: all are about one attempt exactly when between two of
    them there is no fresh submission and no retry after a failure (`PaymentPromises.AtMostOneEffectIff`).
- "Unknown outcome, no new financial action" (README.md:19) holds of passing payment traces for every
  operation (`AmbiguityIsContained`). The trajectory evaluator blocks the operation concerned only
  (`UnknownBlocksExecution`; `OtherOperationGoesOn` is a trace), so it holds there exactly when, after each
  observation that leaves an outcome open, other operations wait for a settling reconciliation
  (`UnknownContainedIff`).
- A generated mutation need not hit its own line: `str.count` counts occurrences that do not overlap, so a
  context counted once may occur earlier as well. On three equal statements, such as
  `state = State.A;`, the mutation of the third replaces the second (`GeneratedMutationMisses`,
  `StateWriteMisses`). `HitsTargetIff` is the exact condition: the first occurrence is at the context's own
  offset.
- A generated mutation keeps the other lines exactly when its line is the last or ends in a newline
  (`LinesStayIff`): after a line that ends otherwise, in a carriage return for one, the comment takes the next
  line with it (`CarriageReturnSwallows`).
- The root `.` contains only itself and not the relative paths below it (`DotHoldsOnlyItself`), and a relative
  path whose first component is spelled `!escape!` is treated as an escape (`SpelledMarkerIsOutside`).
  `WithinIff` states containment with both.
- A bare drive such as `c:` is taken for the top of the drive, and holds `c:/a` but not `c:a`
  (`BareDriveIsTop`).
- Adding an existing object member is refused, which is stricter than section 4.1 of RFC 6902.

## Model

| member | source | states |
|---|---|---|
| Search.GroupBySource | contractgraph_qa/lifecycle_liveness.py:198-202 | the adjacency lists hold each node's outgoing edges, ordered by target and then by id |
| Search.Expand | contractgraph_qa/lifecycle_liveness.py:209-214 | following a dequeued node's edges extends the breadth-first tree and its predecessor table |
| Search.ForwardSearch | contractgraph_qa/lifecycle_liveness.py:195-215 | the nodes found are exactly those some walk from the start reaches; every recorded predecessor is the discoverer and its least edge |
| Search.SpanningIsReachable | contractgraph_qa/contract_lattice.py:263-280 | a finished breadth-first tree holds exactly the reachable nodes |
| ShortestPaths.NoShorterWalk | contractgraph_qa/lifecycle_liveness.py:195-215 | no walk to a node has fewer steps than its tree path |
| ShortestPaths.LeastAmongShortest | contractgraph_qa/lifecycle_liveness.py:201-202 | among the walks of that length the tree path is the least in text order |
| ShortestPaths.TreePathIsLeastShortest | contractgraph_qa/lifecycle_liveness.py:195-215 | the tree path with its recorded ids is a walk, shortest, least among the shortest, with the least id on each step |
| ShortestPaths.CounterexamplePath | contractgraph_qa/lifecycle_liveness.py:238-253 | the walk back through predecessors ends and yields that path |
| ShortestPaths.PathIgnoresInputOrder | contractgraph_qa/lifecycle_liveness.py:201-202 | two listings of the same edges give the same path and the same ids |
| Ordering.LeIff | contractgraph_qa/lifecycle_liveness.py:201-202 | the text order: a prefix comes first, and otherwise the smaller character at the first difference |
| ShortestPaths.BackwardSearch | contractgraph_qa/lifecycle_liveness.py:218-235 | the nodes found are exactly those with a walk to a safe terminal |
| ContractLattice.TransitionFaults | contractgraph_qa/contract_lattice.py:312-354 | a violation is listed for a transition exactly when that transition has earned it |
| ContractLattice.MissingReported | contractgraph_qa/contract_lattice.py:332-347 | a report of unbound references lists in order exactly those the transition uses and its source does not carry |
| ContractLattice.OrderSays | contractgraph_qa/contract_lattice.py:312-369 | violations come transition by transition in id order, at each by kind, and stuck points last in id order |
| ContractLattice.StuckPoints | contractgraph_qa/contract_lattice.py:356-369 | one report for every reachable point that holds value and has no way to a safe terminal, with its shortest path; no others |
| LatticeDocument.Parse | contractgraph_qa/contract_lattice.py:163-208 | the passes over points, transitions, endpoints and safe terminals all succeed exactly for documents with unique ids and references, known endpoints, non-negative numbers and zero lock at safe terminals |
| LatticeDocument.CheckSafeTerminals | contractgraph_qa/contract_lattice.py:194-197 | the loop over safe terminals succeeds exactly when none holds locked value |
| LatticeDocument.RefusedIff | contractgraph_qa/contract_lattice.py:163-208 | a document is refused exactly for nothing declared, a repeated id or reference, a negative number, an undeclared point, or a safe terminal that holds locked value |
| LatticeDocument.VerifyDocument | contractgraph_qa/contract_lattice.py:163-384 | exactly the documents that parse get a verdict |
| ContractLattice.RunContractLattice | contractgraph_qa/contract_lattice.py:308-384 | it passes exactly when every transition is causal and no point is stuck; violations, their order and the reachable points are exact |
| ContractLattice.VerdictIsDetermined | contractgraph_qa/contract_lattice.py:308-384 | that specification leaves one verdict, counterexample paths included |
| ContractLattice.VerdictMeans | contractgraph_qa/contract_lattice.py:308-384 | a verdict passes exactly when every transition between its two points is clean and every walk to a point with locked value goes on to a safe terminal |
| ContractLattice.VersionsCountSteps | contractgraph_qa/contract_lattice.py:313-321 | along any run of a causal lattice the version is the initial one plus the number of steps |
| ContractLattice.RunsAreFinite | contractgraph_qa/contract_lattice.py:313-321 | hence a run repeats no point and has fewer steps than there are points |
| ContractLattice.RunExtends | contractgraph_qa/contract_lattice.py:308-384 | every run extends to a maximal one |
| ContractLattice.PassMeansAlwaysReleased | contractgraph_qa/contract_lattice.py:194-197 | when the verifier passes, every maximal run from the initial point ends with nothing locked |
| LifecycleLiveness.Validate | contractgraph_qa/lifecycle_liveness.py:69-98 | a model is accepted exactly when ids are unique, safe terminals hold no value and exist, and all endpoints and the initial state are known |
| LifecycleLiveness.RefusedIff | contractgraph_qa/lifecycle_liveness.py:69-98 | a model is refused exactly for a repeated id, a safe terminal that holds value, no safe terminal, or an undeclared state |
| LifecycleLiveness.StrandedReports | contractgraph_qa/lifecycle_liveness.py:276-298 | one report for every stranded state, in id order, with the least shortest path and the right reason |
| LifecycleLiveness.RunLifecycleLiveness | contractgraph_qa/lifecycle_liveness.py:256-312 | invalid models are refused; the verdict passes exactly when no reachable value-holding state is without a path to a safe terminal |
| LifecycleLiveness.StrandedForever | contractgraph_qa/lifecycle_liveness.py:276-298 | from a reported state no continuation ever reaches a safe terminal or a state that can |
| LifecycleLiveness.NothingLeaves | contractgraph_qa/lifecycle_liveness.py:276-298 | a dead end is a state whose list of outgoing transitions is empty |
| LifecycleLiveness.OutgoingListed | contractgraph_qa/lifecycle_liveness.py:276-298 | the outgoing list holds exactly the ids of the transitions that leave the state, each once, by target and then by id |
| LifecycleLiveness.PassGivesSafeExit | contractgraph_qa/lifecycle_liveness.py:256-312 | when it passes, each reachable value-holding state has a walk to a safe terminal, which holds no value |
| LifecycleLiveness.VerdictMeans | contractgraph_qa/lifecycle_liveness.py:256-312 | a verdict passes exactly when every walk from the initial state to a declared value-holding state goes on to a declared safe terminal |
| LifecycleLiveness.VerdictIgnoresInputOrder | contractgraph_qa/lifecycle_liveness.py:256-312 | two listings of the same declarations get the same verdict, counterexamples included |
| RootCause.CycleSearch.Walk | contractgraph_qa/proof_integrity.py:295-306 | the recursive walk keeps the trail and finishing order; without a cycle the node ends up visited |
| RootCause.DetectCycle | contractgraph_qa/proof_integrity.py:292-309 | a cycle is reported exactly when some finding lies downstream of itself; otherwise the finishing order descends |
| RootCause.DescendingIsAcyclic | contractgraph_qa/proof_integrity.py:295-306 | a finishing order in which every edge descends rules out cycles |
| RootCause.DownstreamOf | contractgraph_qa/proof_integrity.py:323-330 | the stack loop collects exactly the findings downstream of a root, in id order |
| RootCause.IndexEdges | contractgraph_qa/proof_integrity.py:279-290 | edges are accepted exactly when all are CAUSES edges between findings; each finding's list of children and incoming count are then exact |
| RootCause.RefusedIff | contractgraph_qa/proof_integrity.py:264-290 | a model is refused exactly for a repeated finding, another relation, or an end that is no finding |
| RootCause.Evaluate | contractgraph_qa/proof_integrity.py:264-345 | malformed models are refused, cyclic ones reported, and any other gets exactly its roots with their downstream findings |
| RootCause.RootsAreIndependent | contractgraph_qa/proof_integrity.py:320-337 | no root lies downstream of any finding |
| RootCause.BackToRoot | contractgraph_qa/proof_integrity.py:320-337 | without cycles, following causes backwards from any walk ends at a root |
| RootCause.EveryFindingIsExplained | contractgraph_qa/proof_integrity.py:320-337 | without cycles every finding is a root or lies downstream of one |
| TrajectoryAudit.OnAuthorize | contractgraph_qa/agent_trajectory.py:153-166 | an authorization keeps the dictionaries equal to history and is a violation exactly when it moves the active segment |
| TrajectoryAudit.OnExecution | contractgraph_qa/agent_trajectory.py:168-258 | a dispatch or retry keeps the dictionaries equal to history and earns exactly the faults history gives it |
| TrajectoryAudit.OnObservation | contractgraph_qa/agent_trajectory.py:260-284 | an ambiguity or reconciliation changes the dictionaries only when bound to the latest execution and active segment |
| TrajectoryAudit.OnBoundary | contractgraph_qa/agent_trajectory.py:306-353 | a resume or handoff moves the segment only when it names the latest execution and the segment left |
| TrajectoryAudit.OnTerminal | contractgraph_qa/agent_trajectory.py:420-467 | a terminal claim is accepted exactly when the standing reconciliation proves it |
| TrajectoryAudit.Evaluate | contractgraph_qa/agent_trajectory.py:119-482 | for every event list the final dictionaries equal functions of history, the violation log is the one history determines, and it is empty exactly for clean traces |
| TrajectoryReport.EvaluateScenario | contractgraph_qa/agent_trajectory.py:97-533 | a scenario without events is refused; any other gets the violations its history determines, a pass exactly for clean traces, a full score exactly with a pass and one below 50 after a critical fault, the counters, the open operations in order, and the flags |
| TrajectoryReport.FlagsMean | contractgraph_qa/agent_trajectory.py:489-502 | on every trace, clean or not: each of the five flags holds exactly when no event does what it is about, stated on the history |
| TrajectoryReport.LogCosts | contractgraph_qa/agent_trajectory.py:142-487 | the penalties of a log are sixty, fifty, forty-five or twenty for each entry by its code, and all codes but a name used again are critical |
| TrajectoryFaults.EarnsIff | contractgraph_qa/agent_trajectory.py:142-480 | on every trace an event has exactly the faults it has earned, each said of the attempts, observations and reconciliations before it |
| TrajectoryFaults.LogHolds | contractgraph_qa/agent_trajectory.py:119-482 | the log of every trace holds exactly what each event has earned, under its number, in order, each once |
| TrajectoryFaults.ProvedIff | contractgraph_qa/agent_trajectory.py:433-458 | on every trace a terminal claim is proved exactly when a reconciliation that still stands bears it out |
| TrajectoryRules.CleanIffAllowed | contractgraph_qa/agent_trajectory.py:119-482 | a trace is clean exactly when every event is allowed by the events before it, by rules that name no history function |
| TrajectoryRules.TerminalAcceptedIff | contractgraph_qa/agent_trajectory.py:420-467 | after a clean trace a terminal claim in its segment is accepted exactly when a reconciliation settled that outcome, nothing of the operation was observed or executed since, and where asked the claim repeats its evidence in its segment |
| TrajectoryAudit.StandingNamesLatest | contractgraph_qa/agent_trajectory.py:390-417 | stored evidence names the latest execution of its operation |
| TrajectoryAudit.OnlyFreshGrantsCount | contractgraph_qa/agent_trajectory.py:238-251 | when a retry grant is consulted it was given for the latest execution, never for an earlier attempt |
| TrajectorySafety.CleanExecution | contractgraph_qa/agent_trajectory.py:168-258 | in a clean trace every execution is authorized, fresh, in its segment, not while unresolved, not after a commitment, and a retry repeats the latest attempt with a live grant |
| TrajectorySafety.RedispatchOnlyAfterFailure | contractgraph_qa/agent_trajectory.py:206-251 | between two consecutive executions the last observation, if any, settled the first one without effect, and granted the retry if the second is one |
| TrajectorySafety.CommitIsLast | contractgraph_qa/agent_trajectory.py:217-224 | once a commitment stands, no execution of the operation follows while it stands |
| TrajectorySafety.AtMostOneStandingCommit | contractgraph_qa/agent_trajectory.py:206-251 | at most one execution of an operation has a standing commitment |
| TrajectorySafety.UnknownBlocksExecution | contractgraph_qa/agent_trajectory.py:206-215 | after an open observation the operation is executed again only after a settling reconciliation |
| TrajectorySafety.TerminalIsBacked | contractgraph_qa/agent_trajectory.py:420-467 | every terminal event rests on a reconciliation of the latest execution, with nothing of that operation in between and, if required, the same evidence and segment |
| TrajectorySafety.SegmentsFormChain | contractgraph_qa/agent_trajectory.py:306-353 | the segments of an operation form a chain of hops from its opening segment to the active one |
| TrajectorySafety.SegmentMovesOnlyAtBoundary | contractgraph_qa/agent_trajectory.py:306-353 | the active segment changes only at a bound resume or handoff, with proof where required |
| TrajectorySafety.CleanStaysInSegment | contractgraph_qa/agent_trajectory.py:195-204 | in a clean trace every other event stays in the active segment |
| TrajectoryPromises.SameFaults | contractgraph_qa/agent_trajectory.py:119-482 | what follows an event does not change the faults it commits |
| TrajectoryPromises.AdmittedIff | contractgraph_qa/agent_trajectory.py:206-251 | after a clean trace an execution in order is admitted exactly when its outcome is not open, no commitment stands, and a retry of a settled outcome was granted |
| TrajectoryPromises.AdmittedAfterCommitIff | contractgraph_qa/agent_trajectory.py:216-251 | with a commitment read and nothing executed since, an execution is admitted exactly when the last observation overturned that commitment, and granted it if it is a retry |
| TrajectoryPromises.OverturnedFirst | contractgraph_qa/agent_trajectory.py:216-224 | an execution after a commitment comes after a reading of that same execution as failed or without effect |
| TrajectoryPromises.AtMostOneEffectIff | contractgraph_qa/agent_trajectory.py:390-409 | all commitments read of an operation name one execution exactly when none is overturned, followed by a further execution of it, and then by another commitment; in particular when none is overturned |
| TrajectoryPromises.SpentIffWatched | contractgraph_qa/agent_trajectory.py:206-251 | of two consecutive attempts the first is known to be without effect exactly when anything of the operation is observed between them |
| TrajectoryPromises.OneOpenAttemptIff | contractgraph_qa/agent_trajectory.py:206-251 | over the whole trace, every earlier attempt is known to be without effect exactly when every one is observed before the next |
| TrajectoryPromises.OpenIff | contractgraph_qa/agent_trajectory.py:206-214 | an outcome is open exactly when some observation left it open and no settling reconciliation has come since |
| TrajectoryPromises.UnknownContainedIff | contractgraph_qa/agent_trajectory.py:206-214 | nothing is executed while any outcome is open exactly when between each observation that leaves one open and any later execution of another operation a reconciliation settles it |
| TrajectoryPromises.UnwatchedRedispatch | contractgraph_qa/agent_trajectory.py:206-224 | a clean trace with two dispatches of one operation and nothing observed between them |
| TrajectoryPromises.CommitReplaced | contractgraph_qa/agent_trajectory.py:390-409 | a clean trace in which two executions of one operation are read as committed |
| TrajectoryPromises.OtherOperationGoesOn | contractgraph_qa/agent_trajectory.py:206-214 | a clean trace in which one operation is executed while another's outcome is open |
| PaymentRecovery.RecordAgrees | contractgraph_qa/payment_recovery.py:98-265 | each event keeps the dictionaries equal to history |
| PaymentRecovery.FindFaults | contractgraph_qa/payment_recovery.py:116-233 | the faults found from the dictionaries are those history determines |
| PaymentRecovery.Evaluate | contractgraph_qa/payment_recovery.py:89-282 | the violation log is the one history determines, and empty exactly for passing traces |
| PaymentReport.EvaluateScenario | contractgraph_qa/payment_recovery.py:65-319 | a scenario without events is refused; any other gets the log its history determines, a pass exactly for passing traces, a full score exactly with a pass and one below 50 after a critical fault, the counters, the open operations in order, and the flags |
| PaymentReport.FlagsMean | contractgraph_qa/payment_recovery.py:288-296 | on every trace, passing or not: each of the six flags holds exactly when no event does what it is about, stated on the history |
| PaymentReport.LogCosts | contractgraph_qa/payment_recovery.py:116-284 | the penalties of a log, entry by entry, by code |
| PaymentReport.CriticalIff | contractgraph_qa/payment_recovery.py:116-283 | a log is critical exactly when it has an entry for an attempt over an open outcome, over a commitment, with a changed key, or unauthorized |
| PaymentFaults.LogHolds | contractgraph_qa/payment_recovery.py:98-282 | the log of every trace holds exactly what each event has earned, said of the events, in order and each once, and one entry more for an open end |
| PaymentFaults.UnboundIff | contractgraph_qa/payment_recovery.py:216-229 | on every trace an ambiguity is logged as unbound exactly when no attempt of its operation precedes it or it names another execution than the latest |
| PaymentFaults.AmbiguitiesAreBound | contractgraph_qa/payment_recovery.py:216-229 | in a passing trace every ambiguity names the latest attempt of its operation |
| PaymentFaults.PassesIffAllowed | contractgraph_qa/payment_recovery.py:98-282 | a trace passes exactly when every event is allowed by the events before it and nothing is left open |
| PaymentRecovery.AmbiguityIsContained | contractgraph_qa/payment_recovery.py:116-128 | in a passing trace every open observation is settled later, and no payment of any operation happens before that |
| PaymentRecovery.PaymentsAreAuthorized | contractgraph_qa/payment_recovery.py:112-135 | in a passing trace every payment is authorized, and keyed where required |
| PaymentRecovery.ExecutionIdsAreDistinct | contractgraph_qa/payment_recovery.py:116-214 | in a passing trace no execution id is used twice |
| PaymentRecovery.RetryContinues | contractgraph_qa/payment_recovery.py:150-214 | a retry repeats the latest attempt of its operation, with the same key where required, and never after a commitment |
| PaymentRecovery.RetriesFormChains | contractgraph_qa/payment_recovery.py:150-214 | under the default policies every payment ends a chain of consecutive retries that starts at a first attempt and shares its key |
| PaymentPromises.AdmittedIff | contractgraph_qa/payment_recovery.py:116-214 | after a passing trace an attempt in order is admitted exactly when it is not a retry of an operation with a commitment on record |
| PaymentPromises.OnRecordIff | contractgraph_qa/payment_recovery.py:209-265 | a commitment is on record exactly when one was read and since then the operation was neither read again nor attempted afresh |
| PaymentPromises.GuardedRetriesIff | contractgraph_qa/payment_recovery.py:198-213 | no attempt is made with a commitment on record exactly when no submission or new payment comes after a commitment read with nothing read and nothing fresh in between |
| PaymentPromises.RetriedAfterFailure | contractgraph_qa/payment_recovery.py:198-206 | the first attempt after a commitment, if a retry, comes after a reading that the operation failed |
| PaymentPromises.SpentIff | contractgraph_qa/payment_recovery.py:198-213 | of two consecutive attempts the first is known to have failed exactly when the operation is read between them and the second is not a fresh attempt over a commitment on record |
| PaymentPromises.OneOpenAttemptIff | contractgraph_qa/payment_recovery.py:116-265 | over the whole trace, every earlier attempt is known to have failed exactly when every one is read before the next and none is made afresh over a commitment on record |
| PaymentPromises.UnwatchedSubmissionPasses | contractgraph_qa/payment_recovery.py:116-214 | traces with two submissions of one authorized operation and nothing read between them pass, also when a commitment is read at the end |
| PaymentPromises.AtMostOneEffectIff | contractgraph_qa/payment_recovery.py:116-265 | all commitments read of an operation are about one attempt exactly when between two of them there is no fresh submission and no retry after a failure |
| PaymentPromises.PaidTwicePasses | contractgraph_qa/payment_recovery.py:212-213 | a trace with one authorization and two committed submissions passes under the default policy |
| TraceIntegrity.Visit | contractgraph_qa/proof_integrity.py:133-177 | one event's reasons are those the trace before it determines |
| TraceIntegrity.Evaluate | contractgraph_qa/proof_integrity.py:122-186 | empty traces and negative numbers are refused; the result holds every reason of the trace, sorted by code and references; there are none exactly when subjects match, ids differ, predecessors link, and the stretches tile, with a gap marker in a partial trace |
| TraceIntegrity.ReasonsMean | contractgraph_qa/proof_integrity.py:133-177 | the result holds exactly the reasons the events give: too early or leaving a gap against the number expected after the event before, repeats against all events before |
| TraceIntegrity.ReasonsRise | contractgraph_qa/proof_integrity.py:133-177 | one event gives each kind of reason once at most |
| TraceIntegrity.CodesInOrder | contractgraph_qa/proof_integrity.py:178-178 | reasons of different codes come in the text order of the codes |
| TraceIntegrity.EachNumberOnce | contractgraph_qa/proof_integrity.py:133-177 | when they tile, each number of the range belongs to exactly one event and no other number to any |
| TraceIntegrity.LengthsAddUp | contractgraph_qa/proof_integrity.py:133-177 | and the lengths of the stretches sum to the length of the range |
| Planner.ScreenAll | contractgraph_qa/active_verification.py:118-177 | items blocked, unmodelled or oversized get their row at once, all others become candidates |
| PlannerRules.SetAsideIff | contractgraph_qa/active_verification.py:122-168 | an item is set aside exactly for a prerequisite not completed, else a missing estimate where one is asked for, else its size |
| Planner.Admit | contractgraph_qa/active_verification.py:179-206 | each ranked candidate is selected exactly when it fits in what the ones before it left |
| PlannerRules.DeferredIff | contractgraph_qa/active_verification.py:197-206 | a ranked item is deferred for capacity exactly when the units chosen before it leave too few, for budget exactly when they do not and the costs chosen leave too little |
| Planner.Evaluate | contractgraph_qa/active_verification.py:106-252 | invalid campaigns are refused; any other gets one row per item, in id order, with its cost and basis, the selected ids and the debt receipts |
| PlannerRules.RowSays | contractgraph_qa/active_verification.py:119-208 | a row repeats its item, its cost and basis, the prerequisites not completed in order, and its score if it was ranked |
| PlannerRules.RefusedIff | contractgraph_qa/active_verification.py:47-91 | a campaign is refused exactly for a negative number, a repeated id, or a weight of age that is not positive |
| Planner.OneRowPerItem | contractgraph_qa/active_verification.py:208-209 | every item gets exactly one row, and the rows are strictly in id order |
| Planner.RankedHolds | contractgraph_qa/active_verification.py:169-179 | the ranking holds exactly the candidates, ordered by score and then id |
| PlannerRules.ObservedReplacesEstimate | contractgraph_qa/active_verification.py:99-103 | an observed cost replaces the estimate in cost, score, screening and choice |
| PlannerRules.ScoreMoves | contractgraph_qa/active_verification.py:169-176 | nothing scores nothing; risk, priority, age and gain add their weight's worth, and cost takes it away |
| PlannerRules.RankMoves | contractgraph_qa/active_verification.py:169-179 | with positive weights more risk, priority, gain or age ranks an item before its like, and more cost after |
| Planner.Conservation | contractgraph_qa/active_verification.py:179-206 | selected units plus remaining capacity make the total, the same for cost and budget, and neither goes negative |
| Planner.NothingDeferredFits | contractgraph_qa/active_verification.py:179-206 | no deferred candidate fits in what remains at the end |
| Planner.SelectedAreChosen | contractgraph_qa/active_verification.py:208-209 | the selected ids are exactly those of the items chosen |
| Planner.DebtsAreKept | contractgraph_qa/active_verification.py:210-229 | every required item has exactly one debt receipt and no other item has one; it is admitted exactly when the item is chosen, and blocked exactly when a prerequisite or a required estimate is missing |
| PlannerRules.ReceiptSays | contractgraph_qa/active_verification.py:212-229 | a receipt's status is the one its item's disposition stands for |
| Planner.TopIsChosen | contractgraph_qa/active_verification.py:179-206 | the top-ranked candidate is always selected |
| Planner.PlanningDrains | contractgraph_qa/active_verification.py:179-206 | replanning with the selected items removed leaves no candidate after as many rounds as there were candidates |
| Planner.NoCandidateStarves | contractgraph_qa/active_verification.py:179-206 | every candidate is selected in one of those rounds |
| Planner.OldEnoughIsChosen | contractgraph_qa/active_verification.py:61-62 | an eligible item past an age bound computed from the other scores is selected, whatever else competes |
| Text.CountOne | contractgraph_qa/fault_mutation_generator.py:308-308 | when the count is one, every further occurrence overlaps the first |
| Text.CountOneIff | contractgraph_qa/fault_mutation_generator.py:308-308 | the count is one exactly when there is an occurrence and no other starts at or after its end |
| Text.SplitJoins | contractgraph_qa/fault_mutation_generator.py:333-333 | splitting loses nothing and gives lines: each with at most one terminator, at its end, and all but the last with one |
| Text.JoinSplits | contractgraph_qa/fault_mutation_generator.py:333-333 | any such list of lines is what its text is split into |
| Text.PositionsFollowOffsets | contractgraph_qa/mutation_acquisition.py:300-306 | positions are ordered as offsets are, so each determines the other |
| Text.PositionGivesOffset | contractgraph_qa/mutation_acquisition.py:300-306 | reading a line and column back gives the offset |
| SourceMutation.ApplyExactMutation | contractgraph_qa/mutation_acquisition.py:297-315 | refused unless the match is counted once; otherwise spliced at its first occurrence with that span recorded |
| SourceMutation.SpanIsExact | contractgraph_qa/mutation_acquisition.py:297-315 | the recorded slice is the match, start is before end, each position names one offset, and putting the match back restores the source |
| SourceMutation.SpliceBack | contractgraph_qa/mutation_acquisition.py:297-315 | splicing the match back into the mutated text restores the source |
| SourceMutation.UniqueContextMutation | contractgraph_qa/fault_mutation_generator.py:294-313 | it returns the context of least radius that is counted once, or nothing when no radius up to 8 has one |
| SourceMutation.ContextIsWithin | contractgraph_qa/fault_mutation_generator.py:300-313 | a context holds the target line and exactly its neighbours within the radius, with the target replaced |
| SourceMutation.OwnSplice | contractgraph_qa/fault_mutation_generator.py:305-312 | replacing the context at its own offset replaces the target line and nothing else |
| SourceMutation.HitsTargetIff | contractgraph_qa/fault_mutation_generator.py:294-313 | a mutation replaces its target line and nothing else exactly when the first occurrence of its context is at the context's own offset |
| SourceMutation.SingleOffsetHitsTarget | contractgraph_qa/fault_mutation_generator.py:294-313 | it does when the context occurs at one offset, overlaps included |
| CommentedLines.CommentBegins | contractgraph_qa/fault_mutation_generator.py:239-242 | the comment keeps the line's indentation, starts with two slashes after it, and names the operator |
| CommentedLines.LinesStayIff | contractgraph_qa/fault_mutation_generator.py:239-242 | with the comment in place of a statement the text has as many lines, all others as they were, exactly when the line is the last or ends in a newline |
| CommentedLines.GeneratedMutationKeepsLines | contractgraph_qa/fault_mutation_generator.py:372-394 | so does a generated mutation that hits its line |
| CommentedLines.CarriageReturnSwallows | contractgraph_qa/fault_mutation_generator.py:239-242 | a statement that ends in a carriage return takes the next line with it |
| MutationGenerator.FirstBinding | contractgraph_qa/fault_mutation_generator.py:229-236 | the first binding of a class in a function, with none before it, or nothing when there is none |
| MutationGenerator.ExactBeforeWildcard | contractgraph_qa/fault_mutation_generator.py:229-236 | a binding is found exactly when the class is bound in the function or by the wildcard, the function's own before the wildcard |
| MutationGenerator.Generate | contractgraph_qa/fault_mutation_generator.py:333-394 | lines are served first come, first served: the discovered, ambiguous and generated lists hold exactly the lines whose fate that is, in order, where a line is over the limit only when mutations of earlier lines have used it up; unbound classes and class counts are exact; every mutation is genuine |
| MutationGenerator.FateMeans | contractgraph_qa/fault_mutation_generator.py:345-394 | a matched line is over the limit exactly when that many earlier lines of its class became mutations, else unbound exactly without a binding, else ambiguous exactly when no radius up to 8 has a context counted once |
| MutationGenerator.TakenFits | contractgraph_qa/fault_mutation_generator.py:364-365 | no class gets more mutations than its limit |
| MutationGenerator.HarvestIsDetermined | contractgraph_qa/fault_mutation_generator.py:333-394 | these conditions leave one result, mutations included |
| MutationGenerator.GeneratedMutationApplies | contractgraph_qa/fault_mutation_generator.py:372-394 | every generated mutation is accepted by the exact splice, has the least radius, changes its text, and hits its line exactly when its context first occurs there |
| MutationMisses.OverlapMissesTarget | contractgraph_qa/fault_mutation_generator.py:304-312 | for every statement on a line of its own, written three times: the least unique context of the third line is counted once and its mutation replaces the second line |
| MutationMisses.GeneratedMutationMisses | contractgraph_qa/fault_mutation_generator.py:345-394 | whatever the generator collects from three such lines, matched and bound with a limit of at least three, contains that misplaced mutation, and the exact splice accepts it |
| MutationMisses.GenerateThrice | contractgraph_qa/fault_mutation_generator.py:345-394 | running the generator on such a source yields it |
| MutationMisses.StateWriteMisses | contractgraph_qa/fault_mutation_generator.py:252-253 | in particular for three state writes under the state-write operator |
| Slashes.SplitJoin | contractgraph_qa/interop_conformance.py:381-382 | joining the parts of a split text gives the text, and no part holds a slash |
| Slashes.JoinSplit | contractgraph_qa/interop_conformance.py:381-382 | splitting joined parts gives the parts |
| JsonPointer.UnescapeEscape | contractgraph_qa/interop_conformance.py:381-382 | unescaping undoes escaping for every text |
| JsonPointer.EscapeUnescape | contractgraph_qa/interop_conformance.py:321-325 | escaping undoes unescaping for every validated token |
| JsonPointer.TokensOfPointer | contractgraph_qa/interop_conformance.py:381-382 | any nonempty token list is read back from its pointer, which validates |
| JsonPointer.PointerOfTokens | contractgraph_qa/interop_conformance.py:321-325 | every validated pointer is the pointer of its tokens |
| JsonEdits.ContainerAndKey | contractgraph_qa/interop_conformance.py:385-405 | the cursor ends at the container and key the tokens name, or is refused for the first step that fails |
| JsonEdits.IndexToken | contractgraph_qa/interop_conformance.py:395-403 | the decimal text of a number is read back as that index |
| JsonEdits.LocateIff | contractgraph_qa/interop_conformance.py:385-405 | tokens name a position exactly when they read as its member names and indices and every step starts from an object or list of its kind |
| JsonEdits.PointerEditsItsPosition | contractgraph_qa/interop_conformance.py:385-444 | the pointer that spells a position edits that position |
| JsonEdits.ApplyOperation | contractgraph_qa/interop_conformance.py:419-444 | changing the container found changes the document as the edit at that position does, and is refused alike |
| JsonEdits.AcceptedIff | contractgraph_qa/interop_conformance.py:421-443 | an add is accepted exactly at an index up to the length or at a free member, the others exactly where something is |
| JsonEdits.RefusalSays | contractgraph_qa/interop_conformance.py:421-443 | an edit whose pointer leads is refused for an index past the list, a member already there, or one that is missing |
| JsonEdits.ReadBack | contractgraph_qa/interop_conformance.py:421-443 | what was added or replaced is read back, and a removed member is gone |
| JsonEdits.Frame | contractgraph_qa/interop_conformance.py:421-443 | every position apart from the edited one holds what it held, at its shifted place in an edited array |
| JsonEdits.RemoveUndoesAdd | contractgraph_qa/interop_conformance.py:421-443 | removing what was added restores the document, in objects and arrays |
| JsonEdits.AddUndoesRemove | contractgraph_qa/interop_conformance.py:421-443 | adding back what was removed restores the document |
| JsonEdits.LastReplaceWins | contractgraph_qa/interop_conformance.py:421-443 | the last replacement wins, and replacing by the present value changes nothing |
| JsonEdits.LocateAfter | contractgraph_qa/interop_conformance.py:385-405 | after an edit its own pointer still names the same position |
| JsonEdits.OperationsUndo | contractgraph_qa/interop_conformance.py:408-444 | an accepted operation reads back, and its opposite with the same pointer restores the document |
| GuardPaths.NormalizePath | contractgraph_qa/action_guard.py:215-241 | the loop over the components renders the cleaned path with its escape marker |
| GuardPaths.EscapedIffClimbs | contractgraph_qa/action_guard.py:226-237 | an escape is marked exactly when some prefix of the components has more `..` than names; otherwise only names remain, as many as the components leave |
| GuardPaths.CleaningRewrites | contractgraph_qa/action_guard.py:226-237 | a name and the `..` after it cancel anywhere, and empty and `.` components drop out |
| GuardContainment.WithinIff | contractgraph_qa/action_guard.py:244-253 | a path is within a root exactly when neither is marked and the root's segments (drive and cleaned components) start the path's, folded when both lie below a drive |
| GuardContainment.WithoutDrivesIff | contractgraph_qa/action_guard.py:244-253 | for paths without a drive: both absolute or both relative, and the root's parts start the path's, the root `.` holding only itself |
| GuardContainment.WithinIsAnOrder | contractgraph_qa/action_guard.py:244-253 | containment is reflexive exactly on unmarked paths, and transitive, drives and case folding included |
| GuardContainment.BareDriveIsTop | contractgraph_qa/action_guard.py:221-241 | the root `c:` holds `c:/a` and not `c:a`, and `c:` and `c:/` hold each other |
| GuardSpelling.RawIs | contractgraph_qa/action_guard.py:218-218 | what is read of a path is the text between its outer blanks with slashes for backslashes |
| GuardSpelling.BackslashesAreSlashes | contractgraph_qa/action_guard.py:218-253 | containment is the same with every backslash of path and root written as a slash |
| GuardSpelling.BlanksDoNotMatter | contractgraph_qa/action_guard.py:218-253 | and with blanks around path and root |
| GuardSpelling.SpelledWithinIff | contractgraph_qa/action_guard.py:215-253 | for paths spelled with names, with or without a drive: containment exactly, on drives and names alone |
| GuardSpelling.DriveCaseIgnored | contractgraph_qa/action_guard.py:221-224 | a drive letter is read in any case |
| GuardSpelling.BackslashesClimb | contractgraph_qa/action_guard.py:218-253 | climbing with backslashes leaves the root |
| GuardContainment.DotHoldsOnlyItself | contractgraph_qa/action_guard.py:253-253 | the root `.` holds itself but not the relative path `a` |
| GuardContainment.SpelledMarkerIsOutside | contractgraph_qa/action_guard.py:247-248 | a relative path that spells out the escape marker is not within itself |
| ActionGuard.Validate | contractgraph_qa/action_guard.py:345-440 | a run is accepted exactly when ids are unique, parents earlier, times ordered and completions consistent |
| GuardReasons.RefusedIff | contractgraph_qa/action_guard.py:345-440 | a run is refused exactly for a period that ends before it begins, no action granted, a repeated id, a parent that is no earlier action, or times out of order |
| ActionGuard.JudgeAction | contractgraph_qa/action_guard.py:615-714 | one action's row is the one the run before it determines |
| GuardReasons.PolicyReasonsMean | contractgraph_qa/action_guard.py:473-542 | each policy reason is given exactly under its condition on the action, the authorization, the canaries and the denials |
| GuardReasons.IntegrityReasonsMean | contractgraph_qa/action_guard.py:624-634 | each integrity reason likewise |
| GuardReasons.EvidenceReasonsMean | contractgraph_qa/action_guard.py:545-579 | each evidence reason likewise |
| GuardReasons.EvidenceIs | contractgraph_qa/action_guard.py:545-579 | evidence is invalid with a conflicting witness, otherwise incomplete with something missing, not required without witness and execution, otherwise complete |
| GuardReasons.AllowedIff | contractgraph_qa/action_guard.py:615-622 | an action is allowed exactly when the parties are independent, it is granted, touches no canary, and no earlier action of its meaning was denied |
| GuardReasons.SafeAlternativeIff | contractgraph_qa/action_guard.py:666-671 | an alternative is safe exactly when it is allowed and follows up an earlier action that was turned down |
| ActionGuard.Evaluate | contractgraph_qa/action_guard.py:582-741 | the rows, the effective denied set and the overall status, conformance and evidence are those of the run |
| GuardReasons.ConformanceIs | contractgraph_qa/action_guard.py:724-731 | a run is a bypass exactly when some action was executed though turned down, otherwise not conformant exactly when some action should have been denied |
| GuardReasons.EvidenceOverall | contractgraph_qa/action_guard.py:732-740 | the run's evidence is the worst of its rows' |
| ActionGuard.DeniedIsHistory | contractgraph_qa/action_guard.py:712-714 | the effective denied set is the history plus every action the policy or the monitor denied, and only that |
| ActionGuard.DenialIsPermanent | contractgraph_qa/action_guard.py:540-541 | a later action with a denied meaning is expected to be denied, never passes, is never a safe alternative, and fails as a bypass if executed |
| ActionGuard.PassIff | contractgraph_qa/action_guard.py:615-664 | a row passes exactly when the parties are independent, the action is granted, touches no canary, was never denied, is allowed by the declared monitor, was not stopped and is witnessed |
| GuardReport.Assess | contractgraph_qa/action_guard.py:582-798 | models that do not validate are refused; any other gets its rows, its findings in order, a transition path per action and the metrics |
| GuardReport.FindingsDecide | contractgraph_qa/action_guard.py:606-741 | a run passes exactly when it has no findings, and fails exactly when it has one of failing severity |
| GuardReport.FindingsAre | contractgraph_qa/action_guard.py:606-690 | the findings are exactly those about the set-up and one for each reason of a row, failing exactly for integrity |
| GuardReport.MetricsMean | contractgraph_qa/action_guard.py:770-798 | allows and denials make the total; retries, canary touches and evidence debts are the numbers of those actions; a run fails exactly when its set-up does or some action bypassed the control, and otherwise every denial was safe |
| GuardReport.CountersMean | contractgraph_qa/action_guard.py:770-786 | denials, executions, bypasses and safe denials are the numbers of those actions |
| GuardReport.PathEnds | contractgraph_qa/action_guard.py:672-681 | a transition path ends with a witness exactly when the action was executed and its evidence is in order |
| ActionGuard.RunsCompose | contractgraph_qa/action_guard.py:603-714 | judging a run in two parts, the second starting from the first's denied set and its remaining action limit, gives the same rows and the same denied set |
| ActionGuard.PartsValidate | contractgraph_qa/action_guard.py:345-440 | both parts of a valid run validate when the cut leaves an action to the second and splits no action from its parent |

## Left out

- Command lines, file and ZIP input and output, subprocesses, SHA-256 digests and canonical JSON bytes.
- JSON shape validation: models start from typed values. The facts the proofs need are kept (unique ids, known endpoints, zero lock at safe terminals, a positive age weight, ordered times).
- TrajectoryReport.EvaluateScenario: takes typed events, so malformed ones, which the code refuses, are not modelled.
- PaymentReport.EvaluateScenario: takes typed events in the same way; the missing-evidence check cannot fire on validated events and is not modelled.
- Planner.Conservation: scores and costs are real numbers, so rounding of binary floating point is not modelled.
- RootCause.CycleSearch.Walk: recursion is unbounded, so the recursion limit of Python is not modelled.
- MutationGenerator.Generate: the line patterns for Solidity and the function found for a line are inputs; of the patterns the model keeps that a matched line starts, after its indentation, with something other than a slash.
- JsonEdits.ApplyOperation: the code edits a deep copy in place; the model builds the edited document as a value. The operations `identity` and `duplicate_root_key` work on bytes and are left out.
- JsonEdits.ContainerAndKey: which characters count as digits and what they are worth is a parameter, as Unicode decides it; a digit without a decimal value is a refusal where the code lets the conversion fail.
- GuardContainment.WithinIff: the two Unicode mappings are parameters, of which it needs that lower case keeps a drive's colon and that folding goes character by character, keeps slashes, colons and lower-case letters, and makes no new slash.
- ActionGuard.Evaluate: checks for blank texts are not modelled; findings, transition paths and metrics are in `GuardReport.Assess`.
- `path_replay.py`, `graph_delta.py`, `change_gate.py`, `causal_graph.py`, `postimpact.py`, `client_proof.py` and the single-pass classification tables are not modelled.
