# Container orchestration control plane: a verified model

This project models the control plane of a small container orchestrator in Dafny and proves properties of
whole runs of it. The system registers nodes, accepts deployments, places workloads on nodes, rolls revisions
forward and back, hands assignments to workers through a keyed queue, and elects one controller by a lease.
Around that core it autoscales deployments, retries batch jobs, binds storage claims, resolves role bindings and
balances service traffic.

`dafny verify dfyconfig.toml` checks everything. Nothing was executed.

## How the model is laid out

- `Text`, `Sorting`, `Tables`: string order, stable sort, and the store as tables sorted by key with prefix scans.
- `Types`: the records. `Scheduler`: filters, scores and node choice.
- `Rollout`: the two counts a pass works on. `Reconciliation`: the same pass on workload records.
- `Cluster`: the control plane as a state machine over the actions of its methods, with the history of each run.
  `Protocol`: what is enqueued and what workers receive. `Provenance`: which step set each field of a stored
  workload and of an assignment. `Announcements`: whether a worker is told to start a
  workload and how often to stop it. `Deletion`: what becomes of a deployment's workloads. `Draining`: how long a
  drained node stays out. `Preemption`: eviction. `Revisions`, `History`: specifications and their recorded
  revisions. `Example`: small concrete runs.
- `Orchestrator.dfy` (module `Orchestration`): the service methods as a class over mutable tables. A ghost trace
  holds the steps taken; `Valid()` says the tables are what those steps lead to. So every theorem about traces
  holds for every sequence of method calls, whatever the workers report.
- `PassProperties`, `Promotion`: what the outcome of a reconcile pass means, for one pass and for runs of passes.
- `Lease`, `Roles`, `Balancer.dfy` (`Balancing`), `Autoscaler.dfy` (`Autoscaling`), `Jobs`, `Claims`: the smaller
  machines, each a class or methods tied to a run of its own state machine.

## What the code does not promise

Several natural properties are false of the code. For each, the first lemma named gives the exact condition under
which it holds (for repeated deletes, a bound that is reached) and the second an input or a run on which it fails.

- Used follows the placed workloads only while workers report exactly that: `Cluster.LedgerFollowsReportsExactly`,
  `Example.LaggingHeartbeatBreaksLedger`.
- A negative request lets a release stop at zero, and Used is wrong though every report was true:
  `Cluster.LedgerHoldsExactly`, `Example.NegativeRequestBreaksLedger`.
- A workload whose secrets do not resolve is stored and charged, and no worker ever starts it:
  `Announcements.CreatedExactly` with `Announcements.UnresolvedIsNeverStarted`, `Example.UnresolvedWorkloadWaits`.
- A drained node is back at its next heartbeat, registration or good health check: `Draining.DrainLastsExactly`,
  `Example.DrainedNodeComesBack`.
- A worker that reports Terminating unasked is not told to stop until it reports something else:
  `Protocol.AnnouncedThroughoutExactly` with `Announcements.SilenceLasts`, `Example.SilentTerminatingReport`.
- A workload that is reported Running after it was marked can be told to stop again:
  `Announcements.DeletesAreBounded`, `Example.RevivedWorkloadGetsTwoDeletes`.
- A rollout with both budgets at zero never finishes from a mixed state: `Rollout.ConvergesExactly`,
  `Rollout.ZeroBudgetsNeverFinish`.
- A canary is never promoted when `maxSurge` is below its target: `Promotion.PromotionReachableOnRecords`,
  `Rollout.CanaryNeverPromoted`.
- A preemption can evict in vain, because the victim's node may be tainted: `Preemption.RetryLandsOnVictimNode`,
  `Preemption.EvictionInVain`.
- A Terminated report writes phase Stable without looking at revisions or readiness:
  `Orchestration.ReportSaysStableTooEarly`, `Orchestration.StableWithNothingRunning`.
- A released lease is deleted, so terms start again at 1. A new leader's term need not be higher than the last
  one's: `Lease.TermRisesExactly`, `Lease.TermsRepeatAfterRelease`. It can even be lower: `Lease.TermFallsExactly`,
  `Lease.TermFallsAfterRelease`.
- Role inheritance has no visited set: `Roles.VisitEndsExactly`, `Roles.SelfInheritanceNeverEnds`.
- Low memory takes a replica away however busy the CPU is: `Autoscaling.ShrinksExactly` and
  `Autoscaling.GrowsExactly`, `Autoscaling.BusyDeploymentShrinks`.
- A policy written through the API without its last scale time can scale again within its cooldown:
  `Autoscaling.UpsertKeepsSpacingExactly`, `Autoscaling.BusyPolicyScalesTwice`.
- A retried job clears its deployment before asking for its removal: `Jobs.RemovalNamesDeploymentExactly`,
  `Jobs.FailedAttemptIsForgotten`.
- A job listed twice asks for two deployments: `Jobs.CreatesOnceExactly`, `Jobs.DefaultJobCreatesTwo`.
- A pass can see a job succeed and end without the success: `Jobs.SuccessUndoneExactly`, `Jobs.AttemptLosesItsSuccess`.
- Two claims can take one volume in one pass, and no later pass repairs it: `Claims.MatchingOverPassesExactly`,
  `Claims.LogsAndDataTakeOneDisk`.
- The second visit of the default namespace can change which claim a volume names: `Claims.DuplicateVisitExactly`,
  `Claims.LogsAndDataTakeOneDisk`.

## Model

| member | source | states |
|---|---|---|
| `Cluster.RecordsHold` | internal/service/orchestrator.go:1783-1853 | in every run, whatever workers report, every stored workload names a stored node and deployment, was issued once and is not Terminated |
| `Cluster.LedgerHolds` | internal/service/orchestrator.go:1783-1853 | in every run whose registrations and heartbeats report the placed load and whose specifications ask for nothing negative, Used equals the sum over the stored workloads and never exceeds Allocatable |
| `Cluster.LedgerHoldsExactly` | internal/service/orchestrator.go:627-639 | in every run, signs included: Used equals the placed load within Allocatable all along it if and only if every registration and heartbeat reports that load and no release reaches a stop at zero or passes Allocatable |
| `Cluster.LedgerFollowsReportsExactly` | internal/service/orchestrator.go:41-89 | in every run without negative specifications, that holds if and only if every registration and heartbeat reports the placed load |
| `Cluster.FreeKeepsLedgerExactly` | internal/service/orchestrator.go:627-639 | a release keeps the ledger if and only if the workload's share is within Used and Used without it is within Allocatable |
| `Example.NegativeRequestBreaksLedger` | internal/service/orchestrator.go:1944-1957 | a reachable run with true reports: a workload of minus one beside one of one, and releasing the second stops at zero |
| `Cluster.ClampsNeverFire` | internal/service/orchestrator.go:627-639 | in every truthful run without negative specifications, releasing a stored workload and charging it again gives back the same Used, so the two stops at zero are never reached |
| `Cluster.ChargedAndReleasedOnce` | internal/service/orchestrator.go:619-642 | in every run a workload is charged at most once and released at most once, late and duplicate Terminated reports included, and is stored exactly in between |
| `Cluster.StepKeepsLedgerExactly` | internal/service/orchestrator.go:1944-1957 | a step keeps the ledger if and only if it is no registration or heartbeat that misreports and no release that reaches a stop at zero or passes Allocatable |
| `Cluster.ShareWithinUsed` | internal/service/orchestrator.go:1944-1951 | under the ledger and without negative requests, a stored workload's resources are part of its node's Used |
| `Cluster.SweepRemovesNothing` | internal/store/store.go:157-185 | when a deployment record may be removed, no stored workload names it, so the store's workload sweep removes nothing |
| `Cluster.HeartbeatKeepsLedgerExactly` | internal/service/orchestrator.go:73-89 | a heartbeat keeps the ledger if and only if it reports the load that is placed |
| `Example.LaggingHeartbeatBreaksLedger` | internal/service/orchestrator.go:73-89 | a reachable run: one workload placed, and a worker that has not started it reports nothing used |
| `Cluster.RegisterKeepsLedgerExactly` | internal/service/orchestrator.go:41-71 | a registration, first or repeated, keeps the ledger if and only if its record reports exactly the load the store has placed on the node and has room for it |
| `Cluster.NewNodeIsEmpty` | internal/service/orchestrator.go:41-71 | a node that is not registered carries nothing, so a first registration must report nothing used |
| `Protocol.ProtocolHolds` | internal/service/orchestrator.go:1807-1872 | in every run all assignments of a workload go to one node with the resources it was charged, at most one is a create and it comes before every delete, and everything enqueued is delivered or still queued, each exactly once |
| `Protocol.KeyCarriesStamp` | internal/store/store.go:834-840 | equal queue keys have equal stamps, whatever the node and workload identifiers contain, so an enqueue never overwrites |
| `Protocol.MarkingEnqueuesDelete` | internal/service/orchestrator.go:1855-1872 | a controller step that newly puts a workload into Terminating enqueues one delete that carries its node and resources |
| `Provenance.RecordsAreTraced` | internal/service/orchestrator.go:1807-1817 | in every run a stored workload carries the image, priority, resources and revision its deployment's record had when it was placed, the status it was last given, the container last reported and the number of failures reported |
| `Provenance.AssignmentsAreTraced` | internal/service/orchestrator.go:1838-1848 | in every run each create in the log carries the image its deployment's specification had at the placement and no container; each delete carries the container last reported for its workload when it was marked, and no image |
| `Provenance.NewestIsSent` | internal/service/orchestrator.go:1855-1868 | and each placement whose secrets resolve, and each mark, adds exactly its own such assignment at the end of the log |
| `Protocol.AnnouncedExactly` | internal/service/orchestrator.go:669-674 | a step keeps every Terminating workload announced by a delete if and only if it is not a report that says Terminating of a workload without one |
| `Protocol.AnnouncedThroughoutExactly` | internal/service/orchestrator.go:669-674 | all along a run each Terminating workload has its delete in the log if and only if no report of the run is such a one |
| `Announcements.NoDeleteWhileTerminating` | internal/service/orchestrator.go:1066-1070 | in every run a Terminating workload gets no delete, and no further one, until a report takes it out of Terminating |
| `Announcements.SilenceLasts` | internal/service/orchestrator.go:669-674 | after an unasked Terminating report nothing tells the worker to stop until it reports something else |
| `Example.SilentTerminatingReport` | internal/service/orchestrator.go:669-674 | a reachable run: one workload placed and reported Terminating |
| `Announcements.DeletesAreBounded` | internal/service/orchestrator.go:1855-1872 | in every run a workload gets at most one delete more than reports took it out of Terminating |
| `Announcements.AtMostOneDelete` | internal/service/orchestrator.go:1855-1872 | so at most one where no report takes a Terminating workload back |
| `Announcements.RevivedIsToldAgain` | internal/service/orchestrator.go:669-674 | from any run, a mark, a late Running report and a second mark make two deletes |
| `Example.RevivedWorkloadGetsTwoDeletes` | internal/service/orchestrator.go:669-674 | a reachable run: one workload placed, marked, reported Running late and marked again is told to stop twice |
| `Announcements.EvictedIsNeverTold` | internal/service/orchestrator.go:1944-1957 | an eviction enqueues nothing: in every run after it, the workload has a delete if and only if it had one before |
| `Announcements.CreatedExactly` | internal/service/orchestrator.go:1829-1853 | in every run a workload has a create in the log if and only if the secrets resolved at its placement |
| `Announcements.UnresolvedIsNeverStarted` | internal/service/orchestrator.go:1818-1832 | after a placement without its secrets no later step sends a create, while the workload stays stored until it is released |
| `Example.UnresolvedWorkloadWaits` | internal/service/orchestrator.go:1818-1832 | a reachable run: one workload stored and charged, and no create |
| `Announcements.NoDeleteOnceGone` | internal/service/orchestrator.go:619-642 | once its record is gone, a workload never gets another delete, whatever is reported |
| `Protocol.TerminatingIsAnnounced` | internal/service/orchestrator.go:1066-1085 | in every run whose reports never say Terminating, each Terminating workload has had its delete enqueued |
| `Protocol.PopConserves` | internal/store/store.go:681-710 | what a pop takes and what it leaves make up what was queued |
| `Protocol.PopTakesAsAsked` | internal/store/store.go:681-710 | a pop takes no more than it is asked for, in key order, and leaves entries of the node only when it took that many |
| `Protocol.PopTakesOldest` | internal/store/store.go:681-710 | with nineteen-digit stamps, what a pop leaves behind for a workload is younger than what it takes |
| `Protocol.DeliveryHolds` | internal/store/store.go:674-710 | in every run with nanosecond stamps the assignments of a workload are delivered in the order they were enqueued |
| `Protocol.CreateDeliveredBeforeDelete` | internal/store/store.go:674-710 | a worker is handed a workload's create before any of its deletes |
| `Protocol.PopReturnsOwnAssignments` | internal/store/store.go:834-840 | with node identifiers free of ':', a pop for a node returns only that node's assignments |
| `Preemption.VictimIsLowest` | internal/service/orchestrator.go:1906-1971 | there is a victim if and only if some strictly lower-priority workload of another deployment makes room on its own on a Ready node; of those none has a lower priority, and none of its priority was created later |
| `Preemption.PreemptsExactly` | internal/service/orchestrator.go:1783-1800 | a placement preempts if and only if no node is eligible, the deployment's priority is positive and some outranked workload makes room |
| `Preemption.RetryLandsOnVictimNode` | internal/service/orchestrator.go:1788-1804 | under the ledger and without negative requests, the retried selection can only return the victim's node, and does so if and only if its taints and affinity admit the deployment |
| `Preemption.RetryReturnsOnlyVictimNode` | internal/service/orchestrator.go:1788-1804 | whatever Used says, the retry returns the victim's node if that is eligible once freed, and nothing else |
| `Preemption.EvictionInVain` | internal/service/orchestrator.go:1906-1971 | one tainted node: the only workload on it is evicted and the retry still fails |
| `Preemption.PlacementNodeFits` | internal/scheduler/scheduler.go:100-104 | the node a placement ends on is stored and fits the request |
| `Preemption.EvictionIsEnabled` | internal/service/orchestrator.go:1920-1925 | the evicted workload is stored and belongs to another deployment |
| `Scheduler.MatchesExactly` | internal/scheduler/scheduler.go:173-204 | a toleration matches a taint of its key unless it names another effect, or another value without the operator exists |
| `Scheduler.AffineExactly` | internal/scheduler/scheduler.go:206-232 | affinity.x asks for the value under x, anti-affinity.x for any other; a missing label counts as empty |
| `Scheduler.ToleratesNodeTaints` | internal/scheduler/scheduler.go:173-204 | accepts a node if and only if every taint has a matching toleration |
| `Scheduler.MatchesAffinity` | internal/scheduler/scheduler.go:206-232 | accepts a node if and only if every affinity label matches and no anti-affinity label does, in any map order |
| `Scheduler.SelectNode` | internal/scheduler/scheduler.go:72-98 | filter, stable sort and take first is the leftmost cheapest eligible node |
| `Scheduler.SelectFails` | internal/scheduler/scheduler.go:72-98 | fails if and only if no node passes all four filters |
| `Scheduler.SelectIsLeftmostCheapest` | internal/scheduler/scheduler.go:72-98 | the chosen node is eligible, none eligible is cheaper, every earlier eligible one is dearer |
| `Scheduler.PenaltyKeepsOrder` | internal/scheduler/scheduler.go:147-171 | both scores are strictly monotone in their two components |
| `Scheduler.LeastLoadedIsUndominated` | internal/scheduler/scheduler.go:147-156 | least-loaded never picks a node when an eligible one would be no fuller in CPU and in memory and emptier in one, used plus requested compared with allocatable in whole numbers |
| `Scheduler.LeastLoadedWeighs` | internal/scheduler/scheduler.go:147-156 | its score weighs the fuller dimension 65 to 35 |
| `Scheduler.BestFitIsUndominated` | internal/scheduler/scheduler.go:158-171 | best-fit never picks a node when an eligible one would be left no freer in CPU and in memory and fuller in one, compared in whole numbers |
| `Scheduler.BestFitWeighs` | internal/scheduler/scheduler.go:158-171 | its score weighs the emptier dimension 60 to 40 |
| `Rollout.SurgeBound` | internal/service/orchestrator.go:939-975 | creation never takes the active count above the larger of its start and replicas plus maxSurge |
| `Rollout.AvailabilityBound` | internal/service/orchestrator.go:985-1009 | a full pass ends with at most `replicas` active workloads and not below the availability floor it started above |
| `Rollout.ExcessMeetsOnlyLatest` | internal/service/orchestrator.go:1000-1008 | when the excess step has work, no old workload is active and the new count started above `replicas` |
| `Rollout.PassIsIdleExactly` | internal/service/orchestrator.go:912-1009 | a pass changes nothing if and only if the goal is reached, or both budgets are zero and the total is right |
| `Rollout.PassApproaches` | internal/service/orchestrator.go:912-1009 | every pass that changes anything strictly lowers old plus missing new workloads; one with too many new ones reaches the goal at once |
| `Rollout.ConvergesExactly` | internal/service/orchestrator.go:912-1009 | repeated passes reach no old and `replicas` new workloads if and only if a budget is positive, or nothing old is active, or enough new ones are |
| `Rollout.ZeroBudgetsNeverFinish` | internal/service/orchestrator.go:912-1009 | one old workload, one replica, no budget: no number of passes replaces it |
| `Rollout.CanaryTargetRange` | internal/service/orchestrator.go:924-930 | the canary target lies between 1 and `replicas` |
| `Rollout.CanaryTargetExactly` | internal/service/orchestrator.go:924-930 | it is the whole number of replicas in the percentage, and one when there is none |
| `Rollout.CanaryGate` | internal/service/orchestrator.go:931-975 | a pass in phase Canary removes nothing and does not go above the target |
| `Rollout.PromotionReachableExactly` | internal/service/orchestrator.go:921-960 | on the counts, from `replicas` old and no new workloads, promotion is reachable if and only if maxSurge is at least the canary target |
| `Rollout.CanaryNeverPromoted` | internal/service/orchestrator.go:921-960 | ten replicas at twenty percent with a surge of one: no run promotes |
| `Promotion.PromotionReachableOnRecords` | internal/service/orchestrator.go:921-975 | on records, where the placements of a pass can succeed: passes and Running reports can lead to promotion if and only if maxSurge is at least the canary target |
| `Promotion.StaysStarved` | internal/service/orchestrator.go:921-975 | with a smaller surge no table of any run of passes, completed or not, and Running reports is promoted |
| `Rollout.PlanIsSane` | internal/service/orchestrator.go:917-937 | phase and target of a pass: Canary only with old workloads active, otherwise the full replica count |
| `Rollout.PlanExactly` | internal/service/orchestrator.go:917-937 | on the fields of the specification: Canary with its share, twenty percent unless given, while old workloads are active and fewer than the share run; CanaryPromoting from then on; Progressing without a canary strategy or old workloads |
| `Reconciliation.Keep` | internal/service/orchestrator.go:1711-1759 | the filter loops return exactly the matching entries in order |
| `Reconciliation.CountWhere` | internal/service/orchestrator.go:1721-1739 | the counting loops return the number of matching entries |
| `Reconciliation.ListActive` | internal/service/orchestrator.go:1711-1719 | the nested listing is the active workloads of the deployment, in store order |
| `Reconciliation.CountActive` | internal/service/orchestrator.go:912-919 | the two counts a pass starts from, and the Running ones of the current revision |
| `Reconciliation.PickScaleDownVictims` | internal/service/orchestrator.go:1884-1904 | returns the first `count` of the active entries in eviction order |
| `Reconciliation.VictimsGoFirst` | internal/service/orchestrator.go:1884-1904 | if a Pending workload is spared, every victim is Pending; a victim is no older than a spared workload of its status |
| `Reconciliation.VictimsAreActive` | internal/service/orchestrator.go:1884-1904 | victims are active entries of the list, as many as asked for or all there are |
| `Reconciliation.ScaledDownCounts` | internal/service/orchestrator.go:985-1009 | marking the two groups of victims changes the counts as the counting model says |
| `Reconciliation.StabilityIsExact` | internal/service/orchestrator.go:1011-1034 | the end-of-pass test holds if and only if exactly `replicas` workloads are active, all Running and all current; the second test never adds a case |
| `Reconciliation.Assess` | internal/service/orchestrator.go:1011-1033 | computes the test and the two counts; availableNow cannot hold when it fails |
| `Reconciliation.PickFirstVictims` | internal/service/orchestrator.go:985-994 | old-revision victims within the availability budget, stored as listed |
| `Reconciliation.PickExcessVictims` | internal/service/orchestrator.go:996-1008 | victims beyond the replica count, stored as listed |
| `PassProperties.PassKeepsBudgets` | internal/service/orchestrator.go:939-1009 | on the record's own fields, however far the placements get: the active count stays within replicas plus maxSurge or where it was; a completed non-Canary pass ends with at most replicas, and with at least replicas minus maxUnavailable or what there was |
| `PassProperties.PassUsesBudgets` | internal/service/orchestrator.go:948-992 | a completed pass reaches its target of current workloads or the surge ceiling; outside Canary it leaves an old workload active only when the active count is down to the floor |
| `PassProperties.PassRecords` | internal/service/orchestrator.go:1011-1051 | the record a pass writes keeps specification, history and generation, counts what the table holds, and is Stable and Running if and only if exactly replicas workloads are active, all Running and of the current revision |
| `PassProperties.TerminationRecords` | internal/service/orchestrator.go:644-666 | the record a Terminated report writes keeps specification and history, is Stable and Running, and has the counts of the table |
| `PassProperties.PassLeavesTableExactly` | internal/service/orchestrator.go:912-1009 | a completed non-Canary pass leaves the workload table untouched if and only if the rollout is done, or both budgets are zero and the total is right |
| `PassProperties.CanaryPassMarksNothing` | internal/service/orchestrator.go:985-1009 | a pass in phase Canary leaves every workload of the deployment as it was and its new ones within the target |
| `PassProperties.ExcessStepSparesOldRevisions` | internal/service/orchestrator.go:996-1008 | the excess step marks only current-revision workloads, and only when there were too many to begin with |
| `PassProperties.RolloutConverges` | internal/service/orchestrator.go:880-1051 | a run of completed passes on records, whose record may change in all but specification and revision, ends at the goal once it is as long as the initial distance, if and only if the rollout can finish |
| `PassProperties.ConsecutivePassesConverge` | internal/service/orchestrator.go:880-1051 | the same for consecutive passes, each over the record the one before wrote, with Terminated reports in between |
| `PassProperties.PassReadsPlan` | internal/service/orchestrator.go:880-1051 | the outcome of a pass depends on the record only through specification and revision |
| `Deletion.ReportLeavesOneFewer` | internal/service/orchestrator.go:627-642 | each Terminated report leaves one fewer workload of its deployment |
| `Deletion.OwnedAfterRun` | internal/service/orchestrator.go:619-642 | from any state of any run, while nothing is placed for a deployment, it keeps exactly the workloads that no Terminated report or eviction removed |
| `Deletion.RemainderEmptiesExactly` | internal/service/orchestrator.go:1087-1095 | so no workload names it any more if and only if each has been reported Terminated or evicted, duplicate and late reports included |
| `Orchestration.Orchestrator.ReconcileDeployment` | internal/service/orchestrator.go:880-1051 | a missing record; a deadline, exceeded if and only if a rollout under way has run for longer than its positive number of seconds; a failed placement; a completed pass: the workload table after each, the counts, and the record written |
| `Orchestration.DeadlineOutcome` | internal/service/orchestrator.go:892-911 | a missed deadline goes back to the previous revision where that is asked for and there is one, and else marks the rollout failed |
| `Orchestration.Orchestrator.CreateWorkload` | internal/service/orchestrator.go:1783-1853 | one placement is at most one eviction followed by at most one placement on the selected node; it fails if no node is found or the secrets do not resolve |
| `Orchestration.Orchestrator.CreateAll` | internal/service/orchestrator.go:960-975 | the creation loop stops at the first failure; own workloads are untouched and the new count grows by the placements made |
| `Orchestration.Orchestrator.SelectOrPreempt` | internal/service/orchestrator.go:1784-1804 | select, and on failure with positive priority preempt once and select again |
| `Orchestration.Orchestrator.TryPreemptForPriority` | internal/service/orchestrator.go:1906-1971 | evicts a workload of the lowest outranked priority that makes room, the newest on ties, releasing its share and deleting its record |
| `Orchestration.Orchestrator.PlaceNow` | internal/service/orchestrator.go:1807-1853 | stores a workload under an identifier never issued before, charges the node and enqueues the create only when the secrets resolve |
| `Orchestration.Orchestrator.EnqueueDelete` | internal/service/orchestrator.go:1855-1872 | marks the victim Terminating and enqueues its delete with a fresh stamp |
| `Orchestration.Orchestrator.ScaleDown` | internal/service/orchestrator.go:985-1009 | the two scale-down loops mark exactly the two groups of victims |
| `Orchestration.Orchestrator.Conclude` | internal/service/orchestrator.go:1011-1051 | writes phase Stable and status Running exactly when the rollout is stable |
| `Orchestration.Orchestrator.ReportWorkloadStatus` | internal/service/orchestrator.go:619-675 | unknown workloads are ignored; Terminated releases, deletes and may write the deployment; other statuses are written down |
| `Orchestration.ReportSaysStableTooEarly` | internal/service/orchestrator.go:643-660 | the Stable it writes is premature if and only if fewer than `replicas` current-revision workloads are Running |
| `Orchestration.StableWithNothingRunning` | internal/service/orchestrator.go:643-660 | the last workload terminates and the rollout is called complete |
| `Orchestration.Orchestrator.DeleteDeployment` | internal/service/orchestrator.go:200-223 | an unknown deployment is an error; otherwise its record is marked, keeps specification and history, and no other record changes |
| `Orchestration.Orchestrator.ReconcileDeletion` | internal/service/orchestrator.go:1053-1110 | every remaining workload ends up Terminating with a delete unless it was Terminating without one before; the record goes if and only if no workload names it and no other finalizer is left |
| `Orchestration.Orchestrator.ReconcileAll` | internal/service/orchestrator.go:677-694 | a marked deployment gains no workload, what it has left ends up Terminating, and its record is gone once no workload names it and only the cleanup finalizer holds it |
| `Orchestration.Orchestrator.VisitMarked` | internal/service/orchestrator.go:684-689 | cleaning up one deployment touches no workload and no record of another |
| `Orchestration.Orchestrator.VisitLive` | internal/service/orchestrator.go:690-693 | reconciling one deployment adds no workload to another, changes none of another but by eviction, and writes no other record |
| `Orchestration.PassTouchesOnly` | internal/service/orchestrator.go:880-1051 | a reconcile pass keeps the workloads of other deployments as they are, or evicts them |
| `Orchestration.MarksAnnounce` | internal/service/orchestrator.go:1066-1085 | a run of marks adds a delete for exactly the workloads it marks |
| `Orchestration.RemoveFinalizer` | internal/service/orchestrator.go:2009-2017 | drops every occurrence of the finalizer and keeps the rest in order |
| `Orchestration.WithoutExactly` | internal/service/orchestrator.go:2009-2017 | that is, what is left is left part by part, and holds exactly the other finalizers |
| `Orchestration.Orchestrator.RegisterNode` | internal/service/orchestrator.go:41-71 | a blank identifier changes nothing; otherwise the node is stored, first or again, Ready with its own figure and the allocatable, the capacity or the default, whichever comes first, and one rebalance follows |
| `Orchestration.Orchestrator.HeartbeatNode` | internal/service/orchestrator.go:73-89 | an unknown node is an error; otherwise the node is Ready with whatever figure was reported |
| `Orchestration.Orchestrator.RebalanceWorkloads` | internal/service/features.go:558-596 | marks exactly the rebalance victim, if there is one |
| `Orchestration.RebalanceVictimMeans` | internal/service/features.go:566-592 | there is a victim if and only if some node is emptier by a quarter than the first of the fullest nodes and a workload is Running there |
| `Orchestration.EndsShowGap` | internal/service/features.go:566-579 | the difference between the ends of the sorted nodes is a quarter if and only if some node is that much emptier than the fullest |
| `Orchestration.FullerExactly` | internal/service/features.go:566-579 | which of two nodes is fuller, and whether by a quarter, in whole numbers of CPU plus memory used and allocatable |
| `Orchestration.Orchestrator.RemediateUnhealthyNode` | internal/service/orchestrator.go:1172-1201 | marks exactly the active workloads of the node, so none on it stays active |
| `Orchestration.Orchestrator.DrainNode` | internal/service/features.go:531-543 | the node stops being Ready, keeps its figures, nothing on it stays active and no deployment's placement ends on it |
| `Draining.OutLastsExactly` | internal/service/orchestrator.go:1120-1155 | in every run a node that is not Ready stays so all along if and only if no heartbeat, Ready registration or health check that finds it well comes |
| `Draining.DrainLastsExactly` | internal/service/features.go:531-543 | the same from a drain on |
| `Draining.NotReadyNotSelected` | internal/scheduler/scheduler.go:73-78 | no placement, with or without preemption, ends on a node that is not Ready |
| `Draining.HeartbeatUndoesDrain` | internal/service/orchestrator.go:73-89 | after a drain and a heartbeat the node is eligible for exactly what fits and is admitted |
| `Example.DrainedNodeComesBack` | internal/service/orchestrator.go:73-89 | a reachable run: a drained node is eligible again after one true heartbeat |
| `Orchestration.Orchestrator.CreateDeployment` | internal/service/orchestrator.go:91-198 | a blank name or image changes nothing; otherwise the completed record is stored, one reconcile pass has its full outcome, and the accepted record is written back |
| `Orchestration.Orchestrator.UpdateDeployment` | internal/service/orchestrator.go:300-354 | an unknown deployment is an error; otherwise what the submitted specification sets is stored and what it leaves unset stays, recorded entries stay, the revision rises if and only if the specification changes, and no other record changes |
| `Revisions.CreateTakesOver` | internal/service/orchestrator.go:91-160 | a created deployment stores what was submitted with the defaults for the rest, under revision 1 and the cleanup finalizer |
| `Revisions.NormalizeKeepsSettings` | internal/service/orchestrator.go:1523-1555 | stored rollout settings are the given ones with negative numbers at zero, a missing strategy RollingUpdate and a canary percentage in 1 to 100 |
| `Revisions.UpdateSucceeds` | internal/service/orchestrator.go:300-354 | an update keeps every recorded entry and the deletion mark, and appends the new specification if and only if it differs |
| `Orchestration.Orchestrator.RollbackDeployment` | internal/service/orchestrator.go:356-408 | succeeds if and only if the deployment and the target revision are recorded |
| `Orchestration.Orchestrator.PollAssignments` | internal/service/orchestrator.go:612-617 | returns and removes the first assignments under the node's prefix, ten when no limit is given |
| `Orchestration.LaterIdIsNew` | internal/service/orchestrator.go:1807-1808 | an identifier built from a later clock reading was never issued |
| `Tables.ScanPrefix` | internal/store/store.go:681-710 | the iterator loop reads the first entries under a prefix, and exactly those |
| `Sorting.SortStable` | internal/service/orchestrator.go:1894-1899 | the stable sort keeps elements that tie in their original order |
| `Revisions.HistoryHolds` | internal/service/orchestrator.go:300-354 | over any run of updates, rollbacks, deadline rollbacks, autoscalings and reconciliations, entry i is revision i + 1, the length is the current revision, no entry ever changes, and the last one is the live specification up to the replica count |
| `History.HistoryOnlyGrows` | internal/service/orchestrator.go:300-354 | in every run of the control plane whose record writes keep recorded entries, a deployment's stored history only grows and stays well formed until its record is removed |
| `History.TargetsStay` | internal/service/orchestrator.go:356-394 | so the current revision never falls and a recorded rollback target stays, with its specification |
| `Orchestration.Orchestrator.StoredHistoryGrows` | internal/service/orchestrator.go:300-394 | every service method writes records in that way, so the history stored now extends the one stored at any earlier point |
| `Revisions.RollbackExactly` | internal/service/orchestrator.go:356-408 | succeeds if and only if the target, by default the previous revision, is recorded; restores that specification and appends it |
| `Revisions.AutoRollbackIsWellFormed` | internal/service/orchestrator.go:1624-1648 | the deadline rollback restores the previous specification, appends it and keeps the history in step |
| `Revisions.TwoRollbacksUndoEachOther` | internal/service/orchestrator.go:356-408 | two default rollbacks in a row bring back the specification recorded first |
| `Revisions.FindRevision` | internal/service/orchestrator.go:370-379 | the lookup loop returns the first entry of that revision |
| `Revisions.NormalizeIsIdempotent` | internal/service/orchestrator.go:1523-1555 | normalising a rollout specification twice is normalising it once |
| `Lease.MutualExclusion` | internal/service/features.go:272-318 | in every run with a non-decreasing clock, at any time from the last event on, at most one controller holds an unexpired, unreleased grant, and the stored lease names it |
| `Lease.StaleReleaseIsHarmless` | internal/service/features.go:303-318 | a release by another controller leaves a holder's lease alone |
| `Lease.TermsHold` | internal/service/features.go:284-291 | in every run, between two releases terms never fall and rise at each change of leader |
| `Lease.EpochAndTermNameOneController` | internal/service/features.go:284-291 | the number of releases so far and the term together never belong to two controllers |
| `Lease.TermsWithoutRelease` | internal/service/features.go:272-301 | in runs without release, terms never fall, rise at each change of leader, and one term belongs to one controller |
| `Lease.GrantedExactly` | internal/service/features.go:272-301 | in every run a tick of a named controller is granted if and only if no other controller holds the lease; otherwise it is told who does |
| `Lease.HolderRenews` | internal/service/features.go:284-291 | in every run a holder's tick is granted and keeps its term |
| `Lease.GrantLastsExactly` | internal/service/features.go:276-299 | a granted tick leaves its controller holding until now plus the duration, ten seconds unless a positive one is given, and no longer |
| `Lease.TermRisesExactly` | internal/service/features.go:284-291 | at a change of leader the term rises, by one, if and only if the lease was not released in between; otherwise it is 1 |
| `Lease.TermFallsExactly` | internal/service/features.go:303-318 | the next grant has a lower term than the last if and only if a release removed the lease and the last term was above one |
| `Lease.TermFallsAfterRelease` | internal/service/features.go:303-318 | a run with terms 1, 2 and, after a release, 1 |
| `Lease.TermsRepeatAfterRelease` | internal/service/features.go:303-318 | a run in which two controllers lead under term 1, one after the other |
| `Lease.ReconcilesOnlyAsLeader` | internal/controller/manager.go:46-57 | a tick that is granted the lease holds it at that moment and nobody else does |
| `Lease.LeaseStore.TryAcquire` | internal/service/features.go:272-301 | a blank identifier is an error; the lease is granted if and only if no other controller holds it, and then lasts for exactly the duration |
| `Lease.LeaseStore.Release` | internal/service/features.go:303-318 | removes the lease if and only if the caller is its leader |
| `Lease.LeaseStore.ManagerTick` | internal/controller/manager.go:46-57 | a named manager reconciles if and only if no other holds the lease, and then it alone holds it |
| `Roles.VisitEndsExactly` | internal/service/features.go:245-258 | the recursion ends if and only if no chain of inherited bindings meets a binding twice |
| `Roles.SelfInheritanceNeverEnds` | internal/service/features.go:245-258 | a binding that inherits itself is visited without end |
| `Roles.NamespaceShadowsGlobal` | internal/service/features.go:229-242 | a namespace binding hides the global ones of its name; the other globals stay visible |
| `Roles.LastWins` | internal/service/features.go:240-243 | among bindings of one name the last one listed counts |
| `Roles.NamespaceDecides` | internal/service/features.go:233-243 | a name bound in the namespace grants what that binding gives and inherits, and nothing of a global one |
| `Roles.Visitor.Visit` | internal/service/features.go:245-258 | adds exactly the roles granted at the end of some chain from the name |
| `Roles.Visitor.AddRoles` | internal/service/features.go:250-254 | adds exactly the trimmed, lower-case forms of the roles that are not blank |
| `Roles.EffectiveRoles` | internal/service/features.go:228-270 | on every input where the recursion ends, the strictly sorted list of exactly the roles granted along chains from the subject's bindings, with the namespace's bindings before the global ones |
| `Roles.SortedList` | internal/service/features.go:264-269 | any map order gives a strictly sorted list with the same elements |
| `Sorting.SortedListIsUnique` | internal/service/features.go:264-269 | a strictly sorted list is fixed by its elements |
| `Balancing.RoundRobinIsFair` | internal/loadbalancer/balancer.go:49-54 | k round-robin turns of a service over n distinct ready endpoints, in any listing order and with anything in between, give each k / n turns and one more to the first k % n from where the run began |
| `Balancing.FloorOrCeiling` | internal/loadbalancer/balancer.go:49-54 | so each endpoint gets the floor or the ceiling of k / n |
| `Balancing.OrderDoesNotMatter` | internal/loadbalancer/balancer.go:44-46 | the sort brings every list of the same distinct ready endpoints to one order |
| `Balancing.LeastConnectionsKeepsLevel` | internal/loadbalancer/balancer.go:55-65 | without releases from a fresh balancer, the counts of the endpoints stay within one of each other |
| `Balancing.LeastIndexIsLeftmostMinimum` | internal/loadbalancer/balancer.go:56-63 | the choice is the leftmost endpoint with the fewest requests in flight |
| `Balancing.InflightIsBalanceExactly` | internal/loadbalancer/balancer.go:71-77 | the in-flight count is at least selections minus releases, with equality if and only if every release had a selection before it |
| `Balancing.NeverNegative` | internal/loadbalancer/balancer.go:71-77 | in every run no count or position is negative |
| `Balancing.Balancer.Select` | internal/loadbalancer/balancer.go:30-69 | no ready endpoint and an unknown strategy are errors; otherwise a ready endpoint of the list is returned and both tables follow the run |
| `Balancing.Balancer.Release` | internal/loadbalancer/balancer.go:71-77 | the tables follow the run; a count at zero stays there |
| `Balancing.FindLeast` | internal/loadbalancer/balancer.go:56-63 | the minimum loop returns the leftmost minimum |
| `Balancing.SortedReady` | internal/loadbalancer/balancer.go:34-46 | filter and sort keep exactly the ready endpoints, in identifier order |
| `Autoscaling.RecommendationIsSafe` | internal/service/orchestrator.go:1242-1267 | the written count is the wanted one or the nearer end of [min, max]; it is at least min(max, current - 1), and at most max(min, current) when no used metric is above its target |
| `Autoscaling.GrowsExactly` | internal/service/orchestrator.go:1242-1262 | growth is wanted if and only if custom or memory is above target, or CPU is and memory is not low |
| `Autoscaling.WantedIsLeast` | internal/service/orchestrator.go:1242-1262 | a growing count is the least n with n times target at least current times value for memory, for custom and, unless memory is low, for CPU |
| `Autoscaling.ShrinksExactly` | internal/service/orchestrator.go:1242-1262 | exactly one replica is given up if and only if memory is low, or CPU is low and the memory load fits one replica less, and in both cases the custom load fits one replica less |
| `Autoscaling.LowMemoryOverrulesCpu` | internal/service/orchestrator.go:1245-1258 | low memory takes a replica away however far the CPU is above target |
| `Autoscaling.BusyDeploymentShrinks` | internal/service/orchestrator.go:1245-1264 | ten replicas at five times the CPU target shrink to nine |
| `Autoscaling.ScalingsAreSafe` | internal/service/orchestrator.go:1203-1314 | in every run of passes and policy writes every scaling lies in range, gives up at most one replica and grows only with a metric above target |
| `Autoscaling.ScalingsAreSpaced` | internal/service/orchestrator.go:1268-1276 | in every run, two scalings by a policy whose API writes keep its last time are at least the cooldown of the later one's direction apart |
| `Autoscaling.UpsertKeepsSpacingExactly` | internal/service/orchestrator.go:229-271 | after an API write the policy's next visit, whatever deployments, metrics and later time it meets, keeps its scalings a cooldown apart if and only if the write brings a time no earlier than any scaling it made |
| `Autoscaling.ForgetfulPolicyScalesTwice` | internal/service/orchestrator.go:229-271 | a busy deployment whose policy is written again without the time is scaled twice in one instant |
| `Autoscaling.BusyPolicyScalesTwice` | internal/service/orchestrator.go:229-271 | for instance one replica at twice its CPU target |
| `Autoscaling.SoundHolds` | internal/service/orchestrator.go:1203-1314 | the invariant behind it, for every policy write: normal policies, positive replica counts, safe scalings |
| `Autoscaling.SteadyLoadDoesNotGrow` | internal/service/orchestrator.go:1218-1266 | without prediction, samples at or below the targets in use never raise the count above max(min, current) |
| `Autoscaling.MeanBetween` | internal/service/orchestrator.go:1316-1330 | the mean of a metric lies where its samples lie |
| `Autoscaling.MeanJoins` | internal/service/orchestrator.go:1316-1330 | the mean of one sample is its value, and the mean of two lists weighs theirs by length |
| `Autoscaling.EffectiveIsGreater` | internal/service/orchestrator.go:1229-1241 | with prediction each metric counts at the greater of its mean and its prediction, without it at its mean |
| `Autoscaling.Aggregate` | internal/service/orchestrator.go:1316-1330 | the loop computes the three means |
| `Autoscaling.SelectWindow` | internal/service/orchestrator.go:1218-1227 | the samples of the stabilisation window, or all when it is empty |
| `Autoscaling.WithinExactly` | internal/service/orchestrator.go:1218-1224 | a sample is in the window if and only if it is no older than its start |
| `Autoscaling.WindowExactly` | internal/service/orchestrator.go:1218-1227 | the window holds the samples of its last seconds, or all of them when there is none |
| `Autoscaling.PredictionContinuesLine` | internal/service/orchestrator.go:1650-1692 | a metric that changes by equal steps is continued along its line, never below zero |
| `Autoscaling.PredictedExactly` | internal/service/orchestrator.go:1650-1692 | each metric is predicted from its own values in the look-back, a custom one only where it is named and reported |
| `Autoscaling.LatestAreNewest` | internal/service/orchestrator.go:1651-1664 | the look-back keeps that many of the newest samples, at least two where there are, oldest first |
| `Autoscaling.NormalizeIsNormal` | internal/service/orchestrator.go:236-257 | an accepted policy has 1 <= min <= max and positive window and cooldowns; normalising is idempotent |
| `Autoscaling.NormalizeFills` | internal/service/orchestrator.go:236-257 | what is given and positive is stored, and everything else takes its default |
| `Autoscaling.Autoscaler.ReconcileAutoscaling` | internal/service/orchestrator.go:1203-1314 | the loop over listed policies is one pass of the run |
| `Autoscaling.Autoscaler.ScaleOne` | internal/service/orchestrator.go:1209-1306 | one policy: skip without deployment or samples, without change or while cooling down; otherwise write both records |
| `Autoscaling.DecisionExactly` | internal/service/orchestrator.go:1264-1277 | a policy with a deployment and samples scales if and only if the recommendation differs from the count and the cooldown of that direction is over |
| `Autoscaling.ScalingIsWritten` | internal/service/orchestrator.go:1279-1305 | a scaling writes its count into the deployment's specification and its time into the policy, and changes no other record |
| `Autoscaling.Autoscaler.UpsertPolicy` | internal/service/orchestrator.go:229-271 | stores any policy normalised, as one step of the run |
| `Jobs.RetriesAreBounded` | internal/service/features.go:475-527 | in every run of passes and submissions, a job submitted Pending with Failed = 0 has Failed at most BackoffLimit + 1, with equality exactly in phase Failed, at most BackoffLimit while active, and a completion time once finished, whatever else is submitted |
| `Jobs.TerminalIsFinal` | internal/service/features.go:522-525 | a Succeeded or Failed record stays that very record until it is removed |
| `Jobs.ChangesAreBounded` | internal/service/features.go:475-527 | a job's record changes at most 2 * (BackoffLimit + 1) times while it is active, whatever the workloads do and however often it is visited |
| `Jobs.PassIsOneVisit` | internal/service/features.go:465-527 | however often a job is visited from stale copies, a pass comes to its last effective visit of the record it began with |
| `Jobs.VisitMakesProgress` | internal/service/features.go:475-527 | a visit that stores anything finds the job active and uses up rank; only finished jobs are dropped |
| `Jobs.TtlRemovesExactly` | internal/service/features.go:522-525 | a finished job is removed by exactly those passes that visit it once its TTL has run out |
| `Jobs.VisitsExactly` | internal/service/features.go:465-474 | a job is visited once per matching stored namespace, and once more in the default namespace |
| `Jobs.SuccessUndoneExactly` | internal/service/features.go:490-521 | a pass that saw a running attempt succeed ends without the success if and only if the last decision its visits met was a failure |
| `Jobs.SecondVisitUndoesSuccess` | internal/service/features.go:490-521 | two visits of one stale copy, one meeting a Running and one a Failed workload |
| `Jobs.AttemptLosesItsSuccess` | internal/service/features.go:490-521 | for instance the first attempt of a job with one retry |
| `Jobs.CreatesOnceExactly` | internal/service/features.go:465-489 | a pass asks for one deployment per listing of a stored job that wants one, so at most once if and only if the job wants none or is listed at most once |
| `Jobs.DefaultJobCreatesTwo` | internal/service/features.go:465-489 | a new job of the default namespace where that namespace is stored too: two deployments are asked for |
| `Jobs.SecondVisitOrphansDeployment` | internal/service/features.go:477-489 | of the two deployments the record names only the second |
| `Jobs.RemovalNamesDeploymentExactly` | internal/service/features.go:508-519 | once a workload decides the attempt, the removal request names the job's deployment if and only if that workload ran or no retry is left; otherwise it names nothing |
| `Jobs.FirstDecidedExactly` | internal/service/features.go:499-520 | the first Running or Failed workload of the listing decides the attempt |
| `Jobs.AttemptDecided` | internal/service/features.go:499-520 | a success is counted and final; a failure is counted, final once it exceeds the limit, and otherwise clears the deployment for the next attempt |
| `Jobs.AttemptStarts` | internal/service/features.go:477-491 | a Pending job without a deployment becomes Running under the one created for it, and otherwise stays |
| `Jobs.FailedAttemptIsForgotten` | internal/service/features.go:508-519 | the first of two attempts fails and the request is for the empty name |
| `Jobs.Examine` | internal/service/features.go:475-527 | the switch on the phase decides as specified: what is stored, which deployment is to be removed and whether one is asked for |
| `Jobs.ListJobs` | internal/store/store.go:462-477 | the jobs of a namespace, compared without case or surrounding space |
| `Jobs.SelectedExactly` | internal/store/store.go:462-477 | a listing holds exactly the stored jobs of the namespace, without regard to case and outer space |
| `Jobs.JobController.ReconcileJobs` | internal/service/features.go:465-527 | the two listing loops and the visiting loop are one pass of the run; the removals and creations asked for are those of its visits |
| `Jobs.JobController.Submit` | internal/service/features.go:375-398 | stores any job with its defaults, replacing a stored one of its identifier |
| `Claims.ChoiceIsBestFit` | internal/service/features.go:102-120 | a claim that is not yet bound to a named volume takes the smallest Available one that is large enough and agrees in class and mode wherever both name one, the first by name among equals; none if and only if there is no such volume |
| `Claims.ClaimsAfterPass` | internal/service/features.go:103-134 | each visited claim that needs a volume ends with its choice; every other claim is untouched |
| `Claims.VolumesAfterPass` | internal/service/features.go:103-134 | each volume ends with the last claim that chose it, and is untouched when none did |
| `Claims.SettledIsUntouched` | internal/service/features.go:104-111 | bound claims and volumes that are not Available are left alone |
| `Claims.FirstVisitIsRedundant` | internal/service/features.go:87-100 | of the two visits of the default namespace the first never matters |
| `Claims.SecondVisitMattersExactly` | internal/service/features.go:87-100 | for any lists A, B, C: the second visit of A in A, B, A, C changes nothing if and only if no volume is chosen from A and from B and not from C |
| `Claims.DefaultIsVisitedTwice` | internal/service/features.go:87-100 | with the default namespace stored between others, the code's listing is such a list |
| `Claims.DuplicateVisitExactly` | internal/service/features.go:87-100 | for the code's listing: the first visit of the default namespace never matters, and the second changes nothing if and only if no volume is chosen from it and from an earlier namespace and not from a later one |
| `Claims.MatchingKeptExactly` | internal/service/features.go:103-134 | a pass keeps bound claims and volumes one to one if and only if no two different claims choose one volume |
| `Claims.MatchingOverPassesExactly` | internal/service/features.go:82-136 | after any run of passes claims and volumes are one to one if and only if they were at the start and no pass was contended, so a broken matching is never repaired |
| `Claims.UnheldStays` | internal/service/features.go:103-110 | a bound claim whose volume does not name it back stays so after a pass |
| `Claims.SingleClaimIsSafe` | internal/service/features.go:103-134 | in particular when at most one claim needs a volume |
| `Claims.NoSharedVolume` | internal/service/features.go:121-131 | under the matching no two claims name one volume |
| `Claims.OneVolumeTwoClaims` | internal/service/features.go:103-134 | one volume and two claims it suits: both choose it |
| `Claims.LogsAndDataTakeOneDisk` | internal/service/features.go:87-134 | one disk of ten and two stored claims of five, over the code's listing: the matching breaks, and the second visit of the default namespace changes the outcome |
| `Claims.FindVolume` | internal/service/features.go:107-120 | the search loop returns the first volume that suits |
| `Claims.ClaimBinder.ReconcileBindings` | internal/service/features.go:82-136 | the listing and binding loops are one pass, and keep the matching exactly without contention |

## Left out

- Concurrency inside one step: a step of `Cluster` joins the store writes of one action, such as storing a workload, charging its node and enqueuing its create, and a pass of the autoscaler or of the claim binder is one step of its machine; a write of another method between them is not modelled. The visits of a job pass may each meet a different cluster.
- Integer width: counters, resources and clock readings are unbounded integers; 32- and 64-bit overflow is not modelled.
- Floating point: utilisations, scores and metrics are reals; rounding, infinities and NaN are not modelled.
- Case folding: ToLower and EqualFold fold ASCII letters only.
- Store errors and JSON: every read and write succeeds, and a missing record is the only error; encoding is not modelled.
- Clock and random numbers: clock readings strictly increase, so stamps are distinct; random digits are any text.
- Orchestration.Orchestrator.CreateDeployment: admission, namespace, claim and quota checks are left out, and the identifier is a parameter.
- Orchestration.Orchestrator.CreateWorkload: whether the secrets resolve is a parameter, the same for all placements of a pass.
- PassProperties.RolloutConverges: asks that every pass completes outside phase Canary, that the specification stays the same and that no workload becomes active or inactive between passes.
- Promotion.PromotionReachableOnRecords: runs of passes and Running reports of active workloads, without failures; whether placements can succeed is a condition on the start.
- Custom and external scoring: any score function is covered by the choice theorems; running an external command is not modelled.
- Balancing.Balancer.Select: the sort is modelled as stable, so with duplicate identifiers the endpoint returned may differ from the code's; its identifier does not.
- Autoscaling.SteadyLoadDoesNotGrow: without prediction; an extrapolated load may exceed every sample.
- Orchestration.Orchestrator.ReconcileAll: the dispatch over deployments; the autoscaling, health, endpoint, claim and job passes that follow it are separate machines or left out.
- Jobs.JobController.ReconcileJobs: what a visit meets in the cluster is a parameter; the deployments it creates and asks to have removed are not tied to the `Orchestration` store.
- Roles.EffectiveRoles: defined where the recursion ends; elsewhere the code does not return.
- Lease.LeaseStore.TryAcquire: asks for a clock that does not go back.
- Shards: ReconcileShard and the hash that assigns deployments to shards.
- Node health by missed heartbeats, liveness probes and failure-count rollback: they take steps the `Cluster` machine already has.
- Cron jobs, service endpoints and their selectors, network policies, namespaces and quotas, DNS answers and cluster addresses: each reads or writes its own records and none takes part in the runs above.
- Events, conditions, messages, metrics output and display timestamps.
- HTTP and gRPC servers, authentication, encryption, the worker and container runtimes.
