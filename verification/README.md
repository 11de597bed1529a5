# OpenCoda: a verified model

OpenCoda keeps a buffer of warm GPU nodes across cloud pools, runs model-serving replicas on them and
routes chat requests to the replicas. This project models the parts of it whose correctness depends on
state shared between components or on arithmetic, and proves what they promise.

**The capacity control loop** (`cluster`, `knapsack`, `greedy`, `reports`, `fills`, `pool_controller`, `buffer_controller`,
`health_controller` and the property files `pool_laws`, `buffer_laws`, `stored_pools`, `duplicates`, `loop`, `pool_runs`,
`cordons`, `node_health`, `releases`, `windows`, `release_runs`, `relabelling`). Three controllers write one store: node records and the counters
`Active`, `Buffered` and `Provisioning` per pool, and the cluster's nodes. Each controller is a class whose
methods keep the loops of the Go code, proved equal to a function of the old store. The store, the
three reconciles and the cluster's own events (a node joins, leaves, changes eligibility or its pool label, is
cordoned, uncordoned or reports an Xid; pools and policies are written) form one state machine, and the
main results are about all runs of it.

**The endpoint controller** (`endpoint_controller`, `replicas`, `pods`, `rollouts`, `percentile`): desired replicas,
counting by generation, creating and draining pods, cold-start samples and their percentiles.

**Gateway and kernels** (`router`, `round_robin`, `autoscaler`, `words`, `decimal`, `metrics`, `fake_server`, `fingerprint`):
queue and in-flight counters under concurrent requests, the smoothed demand signal, the metrics printer
and the parser that reads it, the KV fingerprint.

Calls that may fail (API reads and writes, provider calls) take their answers from an environment value
that is a parameter of the step, so a theorem about a step holds for every combination of failures. Each read of
a referenced pool or of a node has its own answer; a read whose failure the code treats like that of the next
call shares its answer. A reconcile that cannot read the very object it was called for does nothing but
report the error, so it is no step. Times
are integers in nanoseconds and one reconcile reads the clock once. Node names are never reused.

## What the proofs found

- `PRD.md:465` and the comment at `pkg/scheduler/greedy/greedy.go:9` describe the greedy order as the pair
  (priority, price × penalty). The code sorts by the sum. The model follows the code; optimality is with
  respect to that sum.
- An availability report of 0 means "no cap". Filling in two steps equals filling in one exactly when no
  report cuts a pool's headroom (`Greedy.FillComposesIff`): after a first step the report is not reduced,
  so a cut pool receives more than it reported.
- Which of two equally expensive pools gets a node is left to the sort. A plan's share of a pool is the same
  whatever the sort does exactly when the pool is full or every other pool of its cost is
  (`FillComposition.TieProofIff`).
- The buffer loop counts nodes and GPUs in the same unit. Its count passes over a pool for any failing read, not
  only for one that is not found (`internal/controller/buffer/buffer_controller.go:92-94`), so a stored pool that
  cannot be read looks empty. The loop never crosses its target exactly when the policy names each pool once
  and the count reads every one of them (`DuplicateReferences.NeverCrossesIff`): every list with a repetition and
  every list with an unread pool has a state in which a reconcile overshoots. With distinct references it
  overshoots by at most the warm nodes that were not read (`BufferProperties.PassesByTheUnseen`). A policy that
  has reached its target is left alone for certain exactly when every pool is read
  (`DuplicateReferences.SecondPassIdleIff`).
- `MaxNodes` depends on the references alone: two views of one pool each carry the full headroom, and no reconcile
  passes it exactly for policies that name each pool once (`DuplicateReferences.LimitsHoldIff`); the spend ceiling
  holds for every list (`BufferProperties.CeilingHolds`).
- Scale-down spends a unit of excess on every buffered record past its window, also on one whose node is gone, which
  takes nothing out. `BufferProperties.DrainsTheExcessIff` says exactly when one pass reaches the target from above.
- A node relabelled to another pool stays buffered in its old pool's records, while the next reconcile of
  that pool no longer counts it; draining it then makes `Buffered` negative. Exactly the relabellings of a
  node that its pool has as buffered open the way to that (`Relabelling.UnderflowIff`); all runs without one
  keep every counter natural (`CounterSafety.CountersNeverNegative`).
- Any written duration is taken as a stabilization window, a negative one too; without a window, or with one that does
  not parse, a node is kept for ten minutes (`ReleaseWindows.ReleasedPastWindow`).
- Instances launched before a failing launch, or before a failing status update, are forgotten: the stored
  pool knows all started instances if and only if none was started, or all were and the update went
  through (`BufferProperties.LaunchesRecordedIff`).
- A pool's scale-down pass that calls `Release` and fails loses the record's new state, whether the release
  itself, a later drain in the same pool or the status update failed. `ReleaseSafety.PassKeepsLedgerIff` says which
  faults on which records do that: the pass reaches a record whose node is there and whose drain gets as far as
  the call, and it reaches a record that fails or its status update fails. Exactly these passes, and
  uncordoning a released node, open the way to a second release of a record (`ReleaseRuns.RepeatIff`). A pool
  reconcile in between repairs a loss exactly when the released nodes still bear the pool's label
  (`ReleaseSafety.PoolReconcileHealsIff`). All other failures are harmless: without such a step each record is
  released at most once. (The continuation that releases again is driven by a policy with a low enough
  target, which may have to be negative; neither the code nor the CRD rejects that.)
- Xid handling releases every record of its node whatever the record's state, so it releases again what
  scale-down has released while the node is still there. `ReleaseRuns.StepKeepsJointIff` says exactly which steps
  keep the releases of both controllers together at one per record, and `ReleaseRuns.JointRepeatIff` that exactly
  the others open the way to a second release by either.
- The hold-off before scaling to zero delays nothing: the desired count is the same during and after it
  (`EndpointRuns.DesiredIsTimeless`).
- Pod names carry no generation. A pod of another generation keeps its name, creation of that index is swallowed
  as "already exists", and old pods are deleted only when the new generation is complete. After a spec change
  some run finishes the rollout if and only if no name below the desired count is taken; one taken name stalls
  it for good (`EndpointRollouts.NewGenerationFinishesIff`, `EndpointRollouts.RolloutStalls`; for a rollout in
  progress `EndpointRollouts.RolloutFinishesIff`). Counting ready pods twice makes a pass skip indices;
  `EndpointRuns.OnePassSufficesIff` says exactly when one pass is enough.
- The gateway's sync registers an endpoint, which resets both counters, before it reads them. The load it
  scales by counts only the handler steps in between (`SyncedLoad.SyncSeesOnlyTheGap`).
- `InFlight` is never decremented; it serves as the round-robin position.

## Model

| member | source | states |
|---|---|---|
| Greedy.SortByCost | pkg/scheduler/greedy/greedy.go:19-24 | the result is a permutation of the pools in ascending order of the summed cost; which of two equal pools comes first is left open, as with an unstable sort |
| Greedy.FillInOrder | pkg/scheduler/greedy/greedy.go:26-54 | the loop computes the allocation of the sorted pools |
| Greedy.Fill | pkg/scheduler/greedy/greedy.go:14-55 | the result is a plan that some outcome of the sort produces |
| Greedy.GrantedIsShare | pkg/scheduler/greedy/greedy.go:29-52 | a plan gives each pool by name exactly the share that filling its cap in order leaves for it |
| Greedy.FillCount | pkg/scheduler/greedy/greedy.go:14-55 | every plan stays within every pool's cap and hands out min(need, total capacity) nodes |
| Greedy.FillIsCheapest | pkg/scheduler/greedy/greedy.go:19-52 | no allocation of as many nodes within the caps has a smaller sum of count times cost than the plan |
| Greedy.TiesDoNotMatter | pkg/scheduler/greedy/greedy.go:20-24 | any two plans for the same need agree in node count and cost, whatever the sort did with ties |
| Reports.FeasibleIff | pkg/scheduler/greedy/greedy.go:33-43 | an allocation is feasible if and only if no pool gets more than fits under its maximum or, if availability is reported, than is available |
| Reports.PlanRespectsReports | pkg/scheduler/greedy/greedy.go:26-54 | every plan respects these figures, hands out no more than needed, and if it hands out less then one node more would fit in no pool |
| Reports.CheaperIsFullFirst | pkg/scheduler/greedy/greedy.go:19-24 | a pool of smaller priority plus penalised price gets all it may before a dearer one gets anything |
| Knapsack.Exchange | pkg/scheduler/greedy/greedy.go:29-52 | the exchange argument: each node a rival hands out beyond the greedy count costs at least the floor price, and otherwise the rival is no cheaper |
| Knapsack.GreedyIsCheapest | pkg/scheduler/greedy/greedy.go:29-52 | filling slots of ascending price in order is cheapest for its count |
| Knapsack.SharesSum | pkg/scheduler/greedy/greedy.go:27-51 | the shares add up to min(need, sum of caps) |
| Knapsack.SharesCompose | pkg/scheduler/greedy/greedy.go:29-52 | filling for a and then the remaining room for b is filling for a + b, slot by slot |
| Knapsack.LargerNeedKeepsShares | pkg/scheduler/greedy/greedy.go:29-52 | a larger need takes nothing away from any slot |
| Greedy.UncutComposes | pkg/scheduler/greedy/greedy.go:33-51 | when no report cuts the headroom, two fills in one order give each pool what one fill gives it |
| Greedy.CutBreaks | pkg/scheduler/greedy/greedy.go:37-39 | when a report cuts a pool's headroom there is a need for which two fills differ from one |
| Greedy.FillComposesIff | pkg/scheduler/greedy/greedy.go:33-51 | fills compose for all needs if and only if no report cuts a headroom |
| FillComposition.PlansCompose | pkg/scheduler/greedy/greedy.go:14-55 | a plan for a, the pools raised by it, and a plan for b hand out as many nodes at the same cost as a plan for a + b, however all three sorts break ties |
| FillComposition.UntiedShare | pkg/scheduler/greedy/greedy.go:19-52 | every plan gives a pool that ties with no other pool with room the same: the need left by the cheaper pools, up to its cap |
| FillComposition.TieProofIff | pkg/scheduler/greedy/greedy.go:20-24 | a pool's share is the same in all plans for a need, for every need, if and only if the pool is full or every other pool of its cost is |
| FillComposition.PlansComposePerPool | pkg/scheduler/greedy/greedy.go:14-55 | every pool whose share ties cannot change gets in two steps what it gets in one |
| FillComposition.LargerNeedKeepsPools | pkg/scheduler/greedy/greedy.go:14-55 | a plan for a larger need takes no node away from a pool whose share ties cannot change |
| PoolController.Reconciler.Known | internal/controller/pool/pool_controller.go:79-84 | the set of non-empty names of the records |
| PoolController.Reconciler.Discover | internal/controller/pool/pool_controller.go:85-95 | the old records stay in front; behind them is exactly one record in state discovered for every listed node without one |
| PoolController.Reconciler.Recount | internal/controller/pool/pool_controller.go:97-120 | every record's state and the three counters are those derived from the listed nodes |
| PoolController.Reconciler.ReconcileNodeRecords | internal/controller/pool/pool_controller.go:67-121 | the pool's records and counters are rederived from the listed nodes |
| PoolController.Reconciler.Reconcile | internal/controller/pool/pool_controller.go:33-65 | the whole new store, for every combination of failing provider, capacity report, listing and update |
| PoolProperties.RecordsIndexNodes | internal/controller/pool/pool_controller.go:79-95 | distinct record names stay distinct, records without a name aside, and every listed node ends with exactly one record |
| PoolProperties.CountersCountNodes | internal/controller/pool/pool_controller.go:97-120 | Active and Buffered equal a direct count over the listed nodes |
| PoolProperties.ProvisioningCountsAwaited | internal/controller/pool/pool_controller.go:114-120 | Provisioning is the number of records in that state, which are exactly the launched records whose node is not listed yet |
| PoolProperties.RecordsKeepIdentity | internal/controller/pool/pool_controller.go:85-117 | no record changes anything but its state, and none whose node is not listed changes at all; new ones are for listed nodes, launched at time zero; every record of a listed node shows whether that is cordoned, eligible or neither |
| PoolProperties.RederivingTwice | internal/controller/pool/pool_controller.go:74-120 | a second run over the same nodes changes nothing |
| PoolRuns.AppendDistinctIff | internal/controller/buffer/buffer_controller.go:206-212 | appending launched records keeps the names distinct if and only if the new names are fresh |
| PoolRuns.StepKeepsDistinct | internal/controller/buffer/buffer_controller.go:206-212 | every step in which providers hand out fresh names keeps the record names of all pools distinct |
| PoolRuns.EveryRunIndexesNodes | internal/controller/pool/pool_controller.go:67-121 | after any such run from the empty cluster a pool reconcile leaves exactly one record per listed node and three counters that are direct counts, over the listed nodes and over the launched records without one |
| BufferController.Reconciler.CountWarmGPUs | internal/controller/buffer/buffer_controller.go:88-98 | the sum of Buffered and Provisioning over the references whose pool is read and exists; all others are passed over |
| BufferController.Reconciler.BuildPoolViews | internal/controller/buffer/buffer_controller.go:122-144 | one view per reference whose pool is read and exists, with the ICE penalty and the current node count |
| BufferController.Reconciler.Provision | internal/controller/buffer/buffer_controller.go:159-216 | the whole new store after provisioning one pool and the error returned, for every exit |
| BufferProperties.ProvisionEffect | internal/controller/buffer/buffer_controller.go:159-216 | a pool gains all the nodes, with the records of their handles, or nothing changes; no error is returned exactly when it gained them or, being static, had them already |
| BufferController.Reconciler.ProvisionPlan | internal/controller/buffer/buffer_controller.go:64-72 | the plan's pools are provisioned in turn; failing pools are passed over |
| BufferController.Reconciler.DrainOne | internal/controller/buffer/buffer_controller.go:265-307 | the pool's working copy, the nodes and the release calls after draining one record, with every error exit |
| BufferController.Reconciler.ScaleDownOne | internal/controller/buffer/buffer_controller.go:237-261 | the store, the remaining excess and the failure after the records of one pool that was read were visited |
| BufferController.Reconciler.ScaleDownAll | internal/controller/buffer/buffer_controller.go:232-263 | the same after all references, unread pools passed over, stopping at the first error |
| BufferController.Reconciler.RebalancePolicy | internal/controller/buffer/buffer_controller.go:52-80 | provisioning or draining as the warm count asks for, as far as it was read |
| BufferController.Reconciler.Reconcile | internal/controller/buffer/buffer_controller.go:44-86 | the whole new store of one reconcile, for every combination of failing reads and calls and a plan that the scheduler may return |
| BufferProperties.PlanIsSound | pkg/scheduler/greedy/greedy.go:26-54 | a plan names distinct pools, stays within their caps and sums to min(need, capacity) |
| BufferProperties.ProvisionAllGains | internal/controller/buffer/buffer_controller.go:64-72 | the warm count rises by exactly the nodes planned for the pools that go smoothly |
| BufferProperties.SmoothBounds | internal/controller/buffer/buffer_controller.go:64-72 | that is at most what was planned, and all of it if and only if every planned pool goes smoothly |
| BufferProperties.MovesByTheGap | internal/controller/buffer/buffer_controller.go:52-80 | whatever fails, a reconcile moves the warm count by at most the gap that was seen, in its direction |
| BufferProperties.NeverCrossesTarget | internal/controller/buffer/buffer_controller.go:52-80 | when the count reads every referenced pool, a reconcile moves the warm count towards the target and never past it, whatever else fails or is missing |
| BufferProperties.PassesByTheUnseen | internal/controller/buffer/buffer_controller.go:88-98 | otherwise it passes the target by at most the warm nodes that were not seen, and from above never |
| BufferProperties.ReachesTargetIff | internal/controller/buffer/buffer_controller.go:57-72 | below the target one pass reaches it if and only if the nodes planned for the pools that go smoothly are the gap; with all pools counted, if and only if the capacity in view suffices and every planned pool goes smoothly |
| BufferProperties.SecondPassIsIdle | internal/controller/buffer/buffer_controller.go:52-86 | after a pass that reached the target a next one that reads every pool changes no pool, node or release |
| BufferProperties.DrainsTheExcessIff | internal/controller/buffer/buffer_controller.go:232-263 | above the target one pass takes out the whole excess if and only if the candidates suffice and all that the excess pays for are named, joined and drained without a fault, and no status update on the way fails |
| BufferProperties.DrainsTheExcess | internal/controller/buffer/buffer_controller.go:242-257 | without faults a pass takes out exactly the joined nodes among the candidates that the excess pays for |
| BufferProperties.LimitsHold | internal/controller/buffer/buffer_controller.go:122-165 | from any stored state, for distinct references, a reconcile raises no pool above max(its count, MaxNodes), and a raised pool with a spend ceiling stays within it |
| BufferProperties.CeilingHolds | internal/controller/buffer/buffer_controller.go:146-166 | a raised pool stays within its spend ceiling whatever the references |
| BufferProperties.LaunchesRecordedIff | internal/controller/buffer/buffer_controller.go:197-215 | the stored pool holds the records of all started instances, with their handles' ids and names, and counts them, if and only if none was started, or all were and the update succeeded |
| StoredPools.DesiredFollowsDemand | internal/controller/buffer/buffer_controller.go:100-120 | the target is the whole part of the minimum plus k times the demand, as far as these are positive, up to the maximum; without a dynamic target the minimum, or 0 |
| StoredPools.PlanFollowsPools | internal/controller/buffer/buffer_controller.go:122-144 | a reconcile lets every pool in view grow only up to MaxNodes and by what was last reported available; if less is handed out than needed, every pool in view grows by all it may |
| StoredPools.CheaperPoolFirst | internal/controller/buffer/buffer_controller.go:129-141 | a pool gets all it may before one with a greater sum of priority and price does, where the price counts twice for 15 minutes after a lack of capacity |
| StoredPools.ProvisionsIff | internal/controller/buffer/buffer_controller.go:146-174 | with all other calls succeeding, nodes are ordered if and only if the pool can afford them on top of all it has, an unpriced node counting 1, and it is not a static pool with as many listed nodes |
| StoredPools.LargerIsAffordable | internal/controller/buffer/buffer_controller.go:146-157 | a pool that a reconcile made larger can afford all its nodes, whatever the references |
| StoredPools.StatusShowsWarm | internal/controller/buffer/buffer_controller.go:82-85 | the policy's status shows the warm count left behind and no other policy changes |
| StoredPools.IceIff | internal/controller/buffer/buffer_controller.go:64-72 | a failing provisioning counts as lack of capacity if and only if the first failing launch was one |
| StoredPools.ReportIsFelt | internal/controller/pool/pool_controller.go:47-57 | a capacity report is stored, and its last lack of capacity doubles the price at which the scheduler sees the pool for 15 minutes |
| DuplicateReferences.OvershootsWhenRepeated | internal/controller/buffer/buffer_controller.go:88-98 | for every list with a repeated reference there are a state, an environment and a plan with which a reconcile passes its target from below |
| DuplicateReferences.NeverCrossesIff | internal/controller/buffer/buffer_controller.go:52-98 | no state, environment or plan makes a policy with these references, whose count reads these pools, cross its target if and only if the references are distinct and all of them are read |
| DuplicateReferences.UnreadProvisions | internal/controller/buffer/buffer_controller.go:92-94 | for every list and every unread reference there is a state at its target in which a reconcile provisions past it |
| DuplicateReferences.SecondPassIdleIff | internal/controller/buffer/buffer_controller.go:52-98 | no pass after one that reached the target changes a pool, node or release if and only if its count reads every referenced pool |
| DuplicateReferences.LimitBrokenWhenRepeated | internal/controller/buffer/buffer_controller.go:133-141 | for every list with a repeated reference a reconcile can raise a pool past MaxNodes |
| DuplicateReferences.LimitsHoldIff | internal/controller/buffer/buffer_controller.go:122-165 | no reconcile breaks a limit if and only if the references are distinct |
| DuplicateReferences.TwinOvershoots | internal/controller/buffer/buffer_controller.go:88-98 | with one pool named twice and read, every state below its target whose gap is closed smoothly ends past it by the whole gap |
| HealthController.Reconciler.HandleXidCritical | internal/controller/health/health_controller.go:102-146 | the whole new store and the release calls: cordon, release of the node's records, forgotten Xid, with every failing write |
| HealthController.Reconciler.Reconcile | internal/controller/health/health_controller.go:61-100 | the whole new store of one reconcile of a node |
| NodeHealth.BootedNodeIsBuffered | internal/controller/health/health_controller.go:76-89 | a GPU node is recorded as buffered at its pool's next reconcile if and only if it passed the boot check and its update succeeded, and as active otherwise |
| NodeHealth.XidLeaves | internal/controller/health/health_controller.go:102-146 | for every failing call, what Xid handling leaves behind: the node cordoned, then without eligibility and Xid; exactly its records released and a lack of capacity noted in its pool; nothing else changed |
| NodeHealth.XidNodeNeedsBootCheck | internal/controller/health/health_controller.go:138-139 | such a node, uncordoned, is recorded as active and not as buffered |
| CounterSafety.StepSafeIff | internal/controller/buffer/buffer_controller.go:232-307 | every step of every controller and of the cluster keeps the counters safe (Buffered is at least the number of buffered records whose node exists, such a node bears the pool's label, Active and Provisioning are not negative) if and only if it does not relabel a node that its pool has as buffered |
| CounterSafety.RunSafeIff | internal/controller/pool/pool_controller.go:67-121 | this holds throughout a run if and only if no step of it is such a relabelling |
| CounterSafety.CountersNeverNegative | internal/controller/buffer/buffer_controller.go:88-98 | in every such run from the empty cluster no counter and no policy's warm count is ever negative |
| Relabelling.UnderflowIff | internal/controller/buffer/buffer_controller.go:300-304 | from such a state a step opens the way to a negative Buffered counter if and only if it relabels a node that its pool has as buffered |
| CordonSafety.RunKeepsOut | internal/controller/pool/pool_controller.go:101-111 | a node that is out stays out in every run in which nobody uncordons it |
| CordonSafety.NeverCountedAgain | internal/controller/pool/pool_controller.go:97-117 | no later pool reconcile counts such a node Active or Buffered, and its records are draining while it is listed |
| ReleaseSafety.ReleasesIff | internal/controller/buffer/buffer_controller.go:242-307 | whatever fails, a drain calls Release on a record if and only if it is a candidate, the candidates before it leave some excess and none of them fails, its node is there and nothing before the call fails |
| ReleaseSafety.DrainFailsIff | internal/controller/buffer/buffer_controller.go:242-307 | a drain fails if and only if it reaches a record that cannot be looked up, or whose node is there and whose cordon, provider or release fails |
| ReleaseSafety.FaultlessReleasesIff | internal/controller/buffer/buffer_controller.go:242-257 | a pass without faults releases a record if and only if it is buffered and past its window, its node exists and the candidates before it leave some excess |
| ReleaseSafety.PassKeepsLedgerIff | internal/controller/buffer/buffer_controller.go:237-261 | one pass over a pool keeps the ledger (what was released is not buffered, its node is out, and it was released once and past its window) unless it reaches a record on which it calls Release, and reaches a record that fails or its status update fails; then it does not |
| ReleaseSafety.LosesInInputs | internal/controller/buffer/buffer_controller.go:237-261 | for distinct references, which pools' passes reach what is determined by the state before all of them |
| ReleaseSafety.StepKeepsLedgerIff | internal/controller/buffer/buffer_controller.go:242-257 | every step of every controller and of the cluster keeps the ledger if and only if no pool's pass of it meets this condition and no released node that is still there is uncordoned |
| ReleaseSafety.RunKeepsLedgerIff | internal/controller/buffer/buffer_controller.go:242-257 | the ledger holds throughout a run if and only if every step of it is of this kind |
| ReleaseSafety.ReleasedAtMostOnce | internal/controller/buffer/buffer_controller.go:242-257 | in every such run from the empty cluster scale-down calls Release at most once per record |
| ReleaseWindows.StepReleasesPastWindow | internal/controller/buffer/buffer_controller.go:250-252 | every step keeps the log of releases, and adds only releases by a reconcile of a stored policy, of nodes launched at least as long ago as this policy's window says, or ten minutes if it says nothing readable |
| ReleaseWindows.ReleasedPastWindow | internal/controller/buffer/buffer_controller.go:309-317 | in every run, careful or not, each release by scale-down was made by such a step |
| ReleaseWindows.ReconcileReleasesIff | internal/controller/buffer/buffer_controller.go:232-263 | a reconcile without faults releases a record if and only if it is buffered and past that time, its node is there, and the records of this kind before it, in its pool and in the pools referred to earlier, are fewer than the excess |
| ReleaseSafety.ReleasedNodesNeverCounted | internal/controller/pool/pool_controller.go:97-117 | however the system goes on without uncordoning, no released node is ever counted Active or Buffered again |
| ReleaseSafety.LostReleaseRepeatsIff | internal/controller/buffer/buffer_controller.go:253-260 | after a pass that calls Release on a record and fails, whichever record and failure, a later pass without faults releases it again if and only if it is still a candidate and the candidates before it leave some excess |
| ReleaseSafety.PoolReconcileHealsIff | internal/controller/pool/pool_controller.go:101-111 | a successful reconcile of that pool in between restores the ledger if and only if the released nodes bear the pool's label |
| ReleaseRuns.RepeatIff | internal/controller/buffer/buffer_controller.go:242-260 | after a step some careful continuation makes scale-down release a record twice if and only if the step itself lost a release or uncordoned a released node |
| ReleaseRuns.StepKeepsJointIff | internal/controller/health/health_controller.go:124-135 | every step keeps the releases of scale-down and Xid handling together at one per record, all gone, if and only if nothing is lost or freed and Xid handling releases no record that was released before or that its pool keeps as buffered |
| ReleaseRuns.RunKeepsJointIff | internal/controller/health/health_controller.go:124-135 | this holds throughout a run if and only if every step of it is of this kind |
| ReleaseRuns.ReleasedOnceByEither | internal/controller/health/health_controller.go:124-135 | in every run of such steps from the empty cluster both controllers together release each record at most once |
| ReleaseRuns.JointRepeatIff | internal/controller/health/health_controller.go:124-135 | after a step some such continuation makes either controller release a record that either has released if and only if the step itself was not of this kind |
| EndpointController.Reconciler.DesiredReplicas | internal/controller/endpoint/endpoint_controller.go:126-156 | the desired count and the new idle times |
| EndpointController.Reconciler.CountReplicaPods | internal/controller/endpoint/endpoint_controller.go:158-186 | the counts are the sizes of the sets of (ready) pods of the current hash, or of any other; 0 when listing fails |
| EndpointController.Reconciler.DrainOldHashPods | internal/controller/endpoint/endpoint_controller.go:208-221 | exactly the endpoint's pods with another non-empty hash whose deletion succeeds are gone |
| EndpointController.Reconciler.Observe | internal/controller/endpoint/endpoint_controller.go:350-354 | the window stays the last 50 observations of the full history, and the percentiles are those of the window |
| EndpointController.Reconciler.VisitPod | internal/controller/endpoint/endpoint_controller.go:322-361 | a pod is observed exactly when it is ready and unmarked, and marked exactly when the patch succeeds |
| EndpointController.Reconciler.RecordColdStarts | internal/controller/endpoint/endpoint_controller.go:314-363 | the new marks; the history grows by the elapsed time of every newly ready pod, each once |
| EndpointController.ElapsedIsSeconds | internal/controller/endpoint/endpoint_controller.go:345-348 | elapsed times are seconds since the start, never negative |
| EndpointController.Reconciler.CreatePods | internal/controller/endpoint/endpoint_controller.go:96-106 | the missing indices are created in order up to the first error; taken names are passed over |
| EndpointController.Reconciler.RollOut | internal/controller/endpoint/endpoint_controller.go:96-110 | creation, and draining only after complete creation with enough ready pods and some old one ready |
| EndpointController.Reconciler.Reconcile | internal/controller/endpoint/endpoint_controller.go:65-113 | the new pods and idle times of one reconcile, for every combination of failing calls |
| EndpointController.WindowIsLast | internal/controller/endpoint/endpoint_controller.go:350-353 | appending and trimming observation by observation leaves the last 50 of the whole history |
| EndpointRuns.PodNameInjective | internal/controller/endpoint/endpoint_controller.go:258 | two indices never share a pod name |
| EndpointRuns.SlotsCount | internal/controller/endpoint/endpoint_controller.go:258 | m indices have exactly m names |
| EndpointRuns.DesiredIsTimeless | internal/controller/endpoint/endpoint_controller.go:126-156 | with 0 <= min <= max the desired count lies in [min, max] and depends neither on the clock nor on idle times |
| EndpointRuns.DesiredIsNearest | internal/controller/endpoint/endpoint_controller.go:142-155 | it is the number in [min, max] nearest to the annotation's, and min without a usable annotation |
| EndpointRuns.HoldOffFromFirst | internal/controller/endpoint/endpoint_controller.go:130-141 | the hold-off counts from the first reconcile that saw zero asked for, any other number forgets it, and it delays nothing unless the minimum is negative |
| EndpointPods.CreatedIff | internal/controller/endpoint/endpoint_controller.go:80-106 | a pod is created if and only if it bears the name of a missing index, counted from ready + total on, that is reached without an error; it is of the current spec and starts now |
| EndpointPods.CreationGoesWellIff | internal/controller/endpoint/endpoint_controller.go:96-106 | creation goes well if and only if no index that is tried meets an error |
| EndpointPods.DeletedIff | internal/controller/endpoint/endpoint_controller.go:96-110 | a pod is deleted if and only if it bears another, known hash, all lists succeed, at least desired > 0 current pods and some other one are ready, and its deletion succeeds; otherwise all that changes is that a ready pod is marked as observed when the patch succeeds |
| EndpointPods.StartsAreObservedOnce | internal/controller/endpoint/endpoint_controller.go:322-361 | the starts observed are those of the ready pods without the mark, and only a pod whose listing or patch fails is observed again |
| EndpointRuns.NeverAboveMaxReplicas | internal/controller/endpoint/endpoint_controller.go:96-106 | over any run there are never more than MaxReplicas controller-made pods across all generations |
| EndpointRuns.RolloutIsSafe | internal/controller/endpoint/endpoint_controller.go:108-110 | no reconcile deletes a pod of the current hash, and one that deletes anything leaves at least desired >= 1 ready current pods |
| EndpointRuns.ColdStartMakesAll | internal/controller/endpoint/endpoint_controller.go:79-106 | from no pods, one reconcile whose calls succeed makes exactly the pods 0, ..., desired - 1 |
| EndpointRuns.ColdStartSettles | internal/controller/endpoint/endpoint_controller.go:79-110 | afterwards no reconcile with the same spec and annotation creates or deletes a pod, however readiness evolves and whatever calls fail |
| EndpointRollouts.RolloutFinishesIff | internal/controller/endpoint/endpoint_controller.go:96-110 | some run of reconciles and readiness changes brings the current generation to the desired count and deletes the others if and only if the free names within reach make up the difference; otherwise no run, whatever calls fail, ever reaches the count or deletes a pod |
| EndpointRollouts.ReachIff | internal/controller/endpoint/endpoint_controller.go:80-106 | while pods can be listed, that is so if and only if the count is reached or every index from the generation's size on has a free name |
| EndpointRollouts.NewGenerationFinishesIff | internal/controller/endpoint/endpoint_controller.go:96-110 | after a spec change some run finishes the rollout if and only if no name below the desired count is taken |
| EndpointRollouts.RolloutStalls | internal/controller/endpoint/endpoint_controller.go:96-106 | with one such name taken no run ever brings the new generation to the desired count or deletes a pod, and with all of them taken it never has a pod |
| EndpointRuns.CurrentAfter | internal/controller/endpoint/endpoint_controller.go:80-106 | a pass whose calls succeed grows the current generation by the number of free indices from ready + total on |
| EndpointRuns.OnePassSufficesIff | internal/controller/endpoint/endpoint_controller.go:80-106 | one such pass reaches the desired count if and only if it was reached before, or no current pod is ready and all further indices are free |
| Percentile.SortFloats | internal/controller/endpoint/endpoint_controller.go:369-370 | the sorted copy is the sorted sequence |
| Percentile.ComputePercentileMs | internal/controller/endpoint/endpoint_controller.go:365-388 | the two interpolated percentiles in milliseconds, (0, 0) for no samples |
| Percentile.PercentilesInterpolate | internal/controller/endpoint/endpoint_controller.go:371-387 | over the samples in ascending order p50 and p95 lie at 10/20 and 19/20 of the way from the first to the last, interpolated between neighbours, in milliseconds without the fraction |
| Percentile.MedianIsMiddle | internal/controller/endpoint/endpoint_controller.go:371-387 | p50 is the middle sample, or the mean of the middle two |
| Percentile.OrderDoesNotMatter | internal/controller/endpoint/endpoint_controller.go:369-387 | the percentiles do not depend on the order of the samples |
| Percentile.PercentilesAreOrdered | internal/controller/endpoint/endpoint_controller.go:371-387 | least sample <= p50 <= p95 <= greatest sample, in truncated milliseconds |
| Percentile.RaisingNeverLowers | internal/controller/endpoint/endpoint_controller.go:365-388 | raising samples never lowers a percentile |
| Router.Router.RegisterEndpoint | internal/gateway/server.go:35-39 | the endpoint's state is replaced and both counters are zero |
| Router.Router.PickReplica | internal/gateway/server.go:47-57 | the URL at the in-flight count modulo the number of replicas, the count grows by one; nothing without replicas |
| Router.Router.IncQueue | internal/gateway/server.go:77-83 | a known endpoint's queue depth grows by one |
| Router.Router.DecQueue | internal/gateway/server.go:85-91 | it shrinks by one unless it is zero |
| Router.Router.InFlight | internal/gateway/server.go:59-66 | the in-flight count, 0 for an unknown endpoint |
| Router.Router.QueueDepth | internal/gateway/server.go:68-75 | the queue depth, 0 for an unknown endpoint |
| Router.Router.PickEndpointByModel | internal/gateway/server.go:93-102 | an endpoint is found if and only if one matches by model or name, and the one found does |
| RouterRuns.QueueDepthCountsLiveRequests | internal/gateway/server.go:250-251 | in every interleaving the queue depth is at most the number of live requests, and equal to it if and only if the endpoint was not re-registered while one was live, or has been idle since |
| RoundRobin.EvenlySpread | internal/gateway/server.go:54 | among m consecutive numbers each remainder modulo n occurs floor(m/n) or ceil(m/n) times |
| RouterRuns.RoundRobinIsFair | internal/gateway/server.go:47-57 | between two registrations the registered URLs are served in turn, so every window of m choices among n URLs serves each floor(m/n) or ceil(m/n) times per place at which it is registered |
| Autoscaler.Scaler.Evaluate | internal/gateway/server.go:114-136 | the clamped replica count, and the smoothed signal of this endpoint only |
| Autoscaler.WantedServesLoad | internal/gateway/server.go:117-128 | within [min, max] it is the number of replicas that the load keeps busy at the target per replica, 8 by default |
| Autoscaler.Scaler.TotalDemand | internal/gateway/server.go:142-148 | the sum of all signals in whatever order they are visited |
| Autoscaler.Scaler.ExportDemand | internal/gateway/k8s.go:169-173 | the total, or the load when the total is zero |
| Autoscaler.K8sSync.SyncEndpoint | internal/gateway/k8s.go:44-88 | with no handler step in between, the sync registers the ready pods and scales by a load of zero; nothing happens when listing fails |
| Autoscaler.UrlOfReadyPod | internal/gateway/k8s.go:56-74 | every ready pod with an address has its URL, in order, and there are no others |
| Autoscaler.SignalIsWeightedSum | internal/gateway/server.go:130-133 | after any interleaving of calls an endpoint's signal is the sum of 0.3 * 0.7^(n-1-k) * load k over its own loads |
| Autoscaler.SignalIsBounded | internal/gateway/server.go:130-133 | it lies between 0 and the endpoint's greatest load |
| Autoscaler.SignalApproachesLoad | internal/gateway/server.go:130-133 | on a constant load the gap shrinks by 0.7 per call |
| Autoscaler.FallbackChangesNothing | internal/gateway/k8s.go:169-173 | after any calls the zero fallback never changes the exported value |
| SyncedLoad.SyncSeesOnlyTheGap | internal/gateway/k8s.go:76-85 | the load read after a registration is at most the number of handler steps in between; with none the endpoint scales as if idle |
| Fingerprint.Compute | pkg/kv/lmcache/lmcache.go:153-167 | the FNV-1a hash of the big-endian token bytes; none for no tokens |
| Fingerprint.BytesAreBigEndian | pkg/kv/lmcache/lmcache.go:159-163 | four bytes per token give its value modulo 2^32, most significant byte first |
| Fingerprint.XorComparesBits | pkg/kv/lmcache/lmcache.go:164 | the exclusive-or sets exactly the bits in which its arguments differ |
| Fingerprint.KnownFingerprint | pkg/kv/lmcache/lmcache.go:157-166 | four zero bytes hash to the standard's value |
| Fingerprint.StepInvertible | pkg/kv/lmcache/lmcache.go:157-164 | knowing the byte, the state before a step is recovered from the state after it |
| Fingerprint.SuffixCancels | pkg/kv/lmcache/lmcache.go:153-167 | two non-empty lists collide if and only if they collide with a common suffix |
| Fingerprint.OneByteNeverCollides | pkg/kv/lmcache/lmcache.go:157-164 | lists of equal length whose encodings differ in exactly one byte never collide |
| Fingerprint.HighBitsIgnored | pkg/kv/lmcache/lmcache.go:159-163 | lists whose tokens, at any positions, are multiples of 2^32 apart collide |
| Decimal.Itoa | test/e2e/fakevllm/main.go:72-84 | the numeral of any 64-bit value; the index never leaves the 20-byte buffer |
| Decimal.ParseUintLoop | internal/gateway/k8s.go:144 | base-10 parsing with the errors for an empty string, a non-digit and a value of 2^64 or more |
| Decimal.PrintParse | internal/gateway/k8s.go:139-145 | parsing the numeral of a 64-bit value gives the value back |
| Decimal.TooBig | internal/gateway/k8s.go:144 | the numeral of a value of 2^64 or more is a range error and reads as 2^64 - 1 |
| Decimal.OnlyDigitsParse | internal/gateway/k8s.go:144 | a text whose first character that is no digit follows a number in range, or nothing, is a syntax error and reads as 0 |
| Decimal.NumeralInjective | internal/controller/endpoint/endpoint_controller.go:258 | different numbers have different numerals |
| MetricsText.ParseMetricCounter | internal/gateway/k8s.go:139-145 | the value of the line's second field, as the caller uses it |
| MetricsText.ParsePrefixCacheMetrics | internal/gateway/k8s.go:114-137 | the scan of a page: comments skipped, the last line of each counter wins |
| MetricsText.EveryPageIsRead | internal/gateway/k8s.go:114-137 | every page of comments and of the two counters under either of their names is read as the last value of each, 0 if there is none |
| MetricsText.PaddingIsIgnored | internal/gateway/k8s.go:117 | white space around a line makes no difference |
| MetricsText.PageRoundTrip | internal/gateway/k8s.go:114-137 | the parser recovers exactly the pair a page was printed from |
| FakeServer.WritePage | test/e2e/fakevllm/main.go:23-35 | the page is the six lines of the two counters |
| FakeServer.ScrapedRateIsARate | test/e2e/fakevllm/main.go:23-51 | in every interleaving with fewer than 2^64 chats a printed page shows hits <= queries, is read back exactly, and the rate lies in [0, 1] |
| FakeServer.OtherOrderWouldFail | test/e2e/fakevllm/main.go:28-33 | loading the queries first could print more hits than queries |

`Greedy.UncutComposes`, `Greedy.CutBreaks` and `Greedy.FillComposesIff` compare fills that visit the pools in one
order. Raising the node counts does not change a sort key, and Go's sort is a function of the length and
the comparisons, so consecutive fills of one list of pools do use one order. `FillComposition` states what remains true
when ties may be broken differently each time.

## Left out

- The Kubernetes API machinery: caches, watches, field-level merging. A reconcile is one step of the state machine; a write that conflicts with another controller is a failing update. In particular a scale-down is one step although the code waits for the drain timeout in the middle of it.
- Cloud provider code (AWS, GCP, pricing, bootstrap). A provider call succeeds with an arbitrary handle, reports lack of capacity, or fails; a quote returns at least one offer.
- Deleting pools.
- Evicting pods and sleeping for the drain timeout; the deep health check, which only logs.
- Fields that are only reported: status conditions, the endpoint's replica and cold-start status, Prometheus metrics, KV hit rates.
- Pod rendering, LMCache configuration and GPU scheduling. Building a pod either fails or yields a pod with the index's name and the spec hash; the SHA-256 spec hash is an opaque non-empty string.
- A pod's deletion takes effect at once; termination grace is not modelled. All pods are in one namespace. An unparsable creation annotation is not distinguished from a missing one: a pod just has a start time.
- Floating-point rounding: prices, samples and signals are real numbers. Conversions of huge values to 64-bit integers are not modelled.
- HTTP proxying, request rewriting, authentication, log streaming, the scanner's 64 KiB line limit. Metric pages are sequences of characters and a scrape returns the whole page.
- `RegisterByModel` and the unused `DesiredReplicas` field of the router; writing the exported demand into the buffer policies, whose `demand` any run may set.
- Autoscaler.K8sSync.SyncEndpoint: describes a sync during which no request handler takes a step; SyncedLoad.SyncSeesOnlyTheGap covers handlers in between.
- The Studio UI, the CLI, the Python SDK, Helm charts, scripts and the cache-fill daemon.
- Intentions of the design document that the code does not carry out: exponential ICE decay, KV-affine routing, snapshots, a linear-programming scheduler.
