# Verified models of the serving stack's host-side logic

A Dafny 4.11 project about the parts of the repository whose correctness is not visible from one
function: the resident latent cache and the registry of request states behind it, the signatures
of compiled graph partitions, the reconstruction and merging of top-k logs, the weighted build-time
sweep, the flat log-probability container, streamed output merging, bad-word masking, the host side
of expert dispatch, and the trace scan and profiler control of the smoke tool. `dafny verify
dfyconfig.toml` checks everything.

## The resident latent cache

A decode step selects tokens whose latents live in an offloaded store, keeps the ones already in
the request's scratch where they are, loads the others into freed or fresh scratch slots, and
rewrites the top-k entries to slots. `ResidentPlanner` states the planning step as a function and
proves its specification; `PlannerLoops` holds the loops. `PlanOrder` fixes the order: residents leave
by shard and then by token, misses come in that order too and take the freed slots in it before new
ones, and no other plan does so. `ResidentRegistry` and `RegistryObject` hold the registry that gives
every request a state row and a generation. `RegistryHistory` reads off the sequence of operations
when each request was last bound, and shows that after every history a batch takes a row only from
the request outside it that was bound longest ago. `ResidentMemory` adds the scratch memory and block
tables, with cells that remember which request and token they hold.

`ResidentSystem` puts these together: rows, registry, memory, and four kinds of events (requests
finish, requests go cold, something else overwrites memory, a batch decodes). The main theorem,
`EveryRunReadsTheRightLatents`, covers every run of any length: no step fails, every remapped entry
reads the latent of the token it named, through the block table, after the whole batch has been
loaded, and entries left in place still read the cells they read before, unless the scratch covers
them. What a run must respect is spelled out in `AdmissibleBatch`: requests of a batch differ and sit
on different blocks, the batch fits the rows, each request brings distinct blocks that back its
scratch, and a request that resumes (same blocks, same generation) has not had its scratch
overwritten.

`ResidentStaleness` shows what that last condition is worth. A request that resumes reads its own
latents if and only if every selected token its row still maps is where it was, and for every request
and state the sequence decode, overwrite, decode is correct if and only if the request went cold in
between. `ResidentHandover` states the run theorem over events alone: from startup, whatever rows and
memory hold, every run is correct in which blocks change hands, or are overwritten by something else,
only after their last user finished or went cold.

`ResidentBoundary` and `ResidentGuard` are about entries left in place. Slots stay below a boundary
shared by all rows, so the rewrite is one-to-one. Without a shared boundary the exact conditions are
proved: the rewrite is one-to-one after every history if and only if no position left in place within
the scratch stands beside another token that is offloaded, and cells read in place are kept after
every history if and only if nothing is selected or no entry left in place lies within the scratch.
The guard on scratch capacity looks at the rows of a request one by one and leaves a case open: rows
on boundaries 0 and 4096 of a 4096-slot scratch pass it, and the load of the second row writes to a
cell that the first row reads. `GuardCapacity` shows what its first check is good for: a request that
passes never selects more tokens than the scratch holds.

## Other models

- `PartitionSignatures`, `PartitionPass`, `PartitionLifetimes`: the backward liveness pass, judged by a forward run that
  drops freed buffers. The code lets every partition find its inputs exactly when no partition
  uses an unallocated buffer of another one for the last time or under a mutation name; a
  two-partition graph shows the failure. After each partition exactly those buffers are available
  that came from outside or were defined for somebody later, and that nothing so far used last.
- `LogReconstruction`, `LogRoundTrip`, `LogAcceptance`, `LogSingleLayer`, `LogConservation`, `LogLoops`,
  `LogMerge`, `LogMergeCopies`, `LogRanks`, `LogMergeRoundTrip`: cutting, checking and unioning the
  per-layer log, and merging partial ranks. The round trip holds for every well-formed trace of two or
  more layers, and the logs of such traces are exactly the logs that are accepted. With one layer every row
  is cut off as its own step, and the round trip holds exactly for traces that log one row per
  request in order.
- `BuildSweep`, `BuildEvents`, `BuildBusy`, `BuildSummary`, `BuildOverlap`: the start/stop sweep. Its
  weighted durations sum to the busy time, which is the length of the union of the spans; they reach
  the elapsed time exactly when there is no idle gap, and the CPU time exactly when no two tasks overlap.
- `FlatLogprobs`, `FlatContainer`: the flat container as a refinement of a list of dictionaries.
  Slices with a negative step do not act as list slices; the exact condition is proved.
- `SummaryStats`: quantile summaries, their values on any sorted rearrangement of the samples, and
  their reversal under complement.
- `BadWords`: the mask of one step and its consequence for whole generations.
- `DispatchLayout`: send indices and the transposed prefix-sum receive layout.
- `RequestOutputs`, `RequestObjects`: what a stream of outputs adds up to. Merging is associative
  exactly for middle deltas that carry each index once.
- `ChunkScan`, `ProfilerControl`: the chunked byte scan and the profiler's start and stop requests.
- `SortedSets`, `SortedReals`, `Orders`, `Arithmetic`, `Options`: shared vocabulary.

Numbers are mathematical: durations, log probabilities and samples are `real`, and logits have an
extra minus-infinity. Where a comment and the code differ, the model follows the code.

## Model

| member | source | states |
|---|---|---|
| `ResidentPlanner.CheckNeedsDistinctSlots` | tools/inspect_target_sfa_snapshots.py:176-181 | the entry check accepts exactly the dense residencies among those in which no two tokens share a slot |
| `ResidentPlanner.SharedSlotPassesCheck` | tools/inspect_target_sfa_snapshots.py:176-181 | two tokens in one slot pass the entry check, so distinctness has to come from the run |
| `ResidentPlanner.DensePassesCheck` | tools/inspect_target_sfa_snapshots.py:176-181 | the density error cannot fire on a residency whose slots are distinct and exactly 0..n-1 |
| `ResidentPlanner.VictimsEnumerate` | tools/inspect_target_sfa_snapshots.py:184-192 | the victims collected shard by shard are exactly the unselected residents, each once |
| `ResidentPlanner.MissesEnumerate` | tools/inspect_target_sfa_snapshots.py:196-211 | the misses are exactly the selected tokens that are not resident, each once |
| `ResidentPlanner.RefillKeepsDense` | tools/inspect_target_sfa_snapshots.py:200-216 | reusing victims' slots and then growing keeps slots distinct and exactly 0..n-1, and evicts min(misses, victims) residents |
| `ResidentPlanner.PlanMeetsSpecification` | tools/inspect_target_sfa_snapshots.py:171-217 | a step succeeds exactly when the selection fits; then the size is max(old size, selection), hits stay, misses are loaded once into the slots they are mapped to, nothing else is overwritten, and only unselected residents leave, no more than needed |
| `ResidentPlanner.ShardingIsInvisible` | tools/inspect_target_sfa_snapshots.py:320-331 | success, the set of misses, the slots of hits and the new size are the same for every sharding of the same selection |
| `PlanOrder.ShardedMissesInOrder` | tools/inspect_target_sfa_snapshots.py:196-211 | the misses of a sharded selection come in ascending order of remainder and then token |
| `PlanOrder.PlanInOrder` | tools/inspect_target_sfa_snapshots.py:182-216 | for every sharding: among unselected residents the evicted come before the kept, by remainder and then token; misses take the slots of the evicted in that order, and new slots last, ascending |
| `PlanOrder.PlanIsDetermined` | tools/inspect_target_sfa_snapshots.py:171-217 | two plans for the same misses that achieve a step and keep this order of slots are the same plan |
| `PlanOrder.PlanExactly` | tools/inspect_target_sfa_snapshots.py:171-217 | for every selection that fits, the computed plan is the one and only plan that achieves the step with misses, evictions and slots in that order |
| `ResidentRequest.SelectedMembers` | tools/inspect_target_sfa_snapshots.py:319-331 | the selection is exactly the non-negative tokens below their row's boundary, and no larger than the entries read |
| `ResidentRequest.ShardedPartition` | tools/inspect_target_sfa_snapshots.py:320-331 | sharding by remainder loses no selected token and repeats none |
| `ResidentRequest.AddressInBlock` | tools/inspect_target_sfa_snapshots.py:403-407 | an address names the block of the position in the table and the offset within it |
| `ResidentRequest.AddressInjective` | tools/inspect_target_sfa_snapshots.py:403-407 | with distinct block ids, different positions of a request have different addresses |
| `PlannerLoops.EvictableSlots` | tools/inspect_target_sfa_snapshots.py:182-192 | the loop over shards collects the slots of the victims, whose order `PlanInOrder` fixes |
| `PlannerLoops.AssignShard` | tools/inspect_target_sfa_snapshots.py:196-211 | one shard is placed after the earlier ones, or placement stops at the first token whose slot does not fit |
| `PlannerLoops.ReferenceStep` | tools/inspect_target_sfa_snapshots.py:171-217 | the loops compute the specified plan, errors included, for every input; `PlanExactly` says which plan that is |
| `PlannerLoops.BuildShards` | tools/inspect_target_sfa_snapshots.py:319-331 | the per-row loops with their sets and sorting build the sharded selection |
| `PlannerLoops.RemapTopK` | tools/inspect_target_sfa_snapshots.py:338-343 | the in-place rewrite replaces exactly the offloaded entries by their slots and leaves the others as they are |
| `ResidentRegistry.RowAvailable` | vllm/distributed/kv_transfer/ascend/sparse_offload/resident_sparse_cache.py:67-85 | a protected request without a row always finds a free or evictable row while the protected requests fit (pigeonhole) |
| `ResidentRegistry.ReleaseAdvances` | vllm/distributed/kv_transfer/ascend/sparse_offload/resident_sparse_cache.py:49-58 | releasing unbinds exactly the named requests, moves nobody, and raises the generation of every row it changes |
| `ResidentRegistry.ReleasedRow` | vllm/distributed/kv_transfer/ascend/sparse_offload/resident_sparse_cache.py:49-58 | the row of a named request loses owner and blocks and gains exactly one generation, however often it is named; every other row keeps all three |
| `ResidentRegistry.InvalidateAdvances` | vllm/distributed/kv_transfer/ascend/sparse_offload/resident_sparse_cache.py:60-65 | invalidating keeps every row bound to the same blocks, raises the generation of every named bound request and of no other |
| `ResidentRegistry.BindOneFacts` | vllm/distributed/kv_transfer/ascend/sparse_offload/resident_sparse_cache.py:113-125 | binding a request always succeeds in a batch that fits, gives it a row for its blocks, and disturbs no other protected request |
| `ResidentRegistry.BindKeepsTrust` | vllm/distributed/kv_transfer/ascend/sparse_offload/resident_sparse_cache.py:94-126 | a batch of different requests that fits is always bound to different rows, and a row whose generation did not grow still has its owner and blocks |
| `RegistryObject.RequestStateRegistry.constructor` | vllm/distributed/kv_transfer/ascend/sparse_offload/resident_sparse_cache.py:38-47 | a new registry has no owners and generation 0 everywhere |
| `RegistryObject.RequestStateRegistry.Release` | vllm/distributed/kv_transfer/ascend/sparse_offload/resident_sparse_cache.py:49-58 | the loop releases the requests in order; the whole new state |
| `RegistryObject.RequestStateRegistry.Invalidate` | vllm/distributed/kv_transfer/ascend/sparse_offload/resident_sparse_cache.py:60-65 | only generations change, as specified |
| `RegistryObject.RequestStateRegistry.FindRow` | vllm/distributed/kv_transfer/ascend/sparse_offload/resident_sparse_cache.py:67-85 | the scans find the first free row, else the least recently used unprotected one, first on ties |
| `RegistryObject.RequestStateRegistry.AllocateRow` | vllm/distributed/kv_transfer/ascend/sparse_offload/resident_sparse_cache.py:67-92 | the evicted owner is forgotten and the row starts a new generation without blocks; nothing changes on failure |
| `RegistryObject.RequestStateRegistry.TouchRow` | vllm/distributed/kv_transfer/ascend/sparse_offload/resident_sparse_cache.py:119-123 | changed blocks start a new generation, and the row gets a stamp above all earlier ones (`StampsAreLastBinds`); the whole new state |
| `RegistryObject.RequestStateRegistry.BindRequest` | vllm/distributed/kv_transfer/ascend/sparse_offload/resident_sparse_cache.py:116-125 | one round of the batch loop; the whole new state, with exact generations in `BindOneGenerations` |
| `RegistryObject.RequestStateRegistry.Bind` | vllm/distributed/kv_transfer/ascend/sparse_offload/resident_sparse_cache.py:94-126 | the two entry errors leave the registry alone; otherwise the batch is bound as specified and the eviction error never occurs, repeated ids included; whom it evicts is `EvictsLeastRecentlyBound` |
| `RegistryHistory.StampsAreLastBinds` | vllm/distributed/kv_transfer/ascend/sparse_offload/resident_sparse_cache.py:38-126 | after every sequence of binds, releases and invalidations the row of each bound request carries the position of its last bind, so no two stamps agree |
| `RegistryHistory.EvictsLeastRecentlyBound` | vllm/distributed/kv_transfer/ascend/sparse_offload/resident_sparse_cache.py:28-126 | after every such history a batch that fits is bound; it takes a row from a request only when every row is taken, that request is outside the batch, and every other one outside it was bound more recently; nobody else moves |
| `RegistryHistory.BindOneGenerations` | vllm/distributed/kv_transfer/ascend/sparse_offload/resident_sparse_cache.py:86-125 | binding adds 2 to the generation of a newly given row, 1 on changed blocks, 0 on the same ones, and touches no other row |
| `ResidentMemory.MissLoadSuffices` | tools/inspect_target_sfa_snapshots.py:195-217 | loading only the misses leaves every resident token's latent in its slot |
| `ResidentMemory.MissLoadEqualsFullLoad` | tools/inspect_target_sfa_snapshots.py:195-217 | loading the misses gives the very memory that reloading the whole selection gives |
| `ResidentMemory.DisjointLoadKeeps` | vllm/v1/attention/backends/ascend/sfa_v1.py:655-705 | loads into one scratch leave a residency in a disjoint scratch as it was |
| `ResidentMemory.SeparateTables` | tools/inspect_target_sfa_snapshots.py:403-407 | scratches on different blocks do not overlap |
| `ResidentSystem.StartupState` | vllm/distributed/kv_transfer/ascend/sparse_offload/resident_sparse_cache.py:38-47 | with state rows at generation -1, whatever they and memory hold, the start is a trusted state |
| `ResidentSystem.FinishKeepsInv` | vllm/v1/worker/npu_model_runner.py:896-990 | finishing requests keeps every trusted row backed by memory |
| `ResidentSystem.GoColdKeepsInv` | vllm/v1/worker/npu_model_runner.py:896-990 | making requests cold keeps the invariant |
| `ResidentSystem.OverwriteKeepsInv` | vllm/v1/worker/npu_model_runner.py:896-990 | arbitrary writes keep the invariant once the requests whose scratch they meet are marked |
| `ResidentSystem.RequestPlanned` | tools/inspect_target_sfa_snapshots.py:304-336 | in every reachable state neither planner error fires when the capacity is the width of a request, and the plan meets its specification |
| `ResidentSystem.RequestStepKeepsInv` | csrc/kernels/resident_sorted_cache.cpp:1911-1914 | planning and loading one request serves it, stores its generation, and keeps every other row trusted |
| `ResidentSystem.BindReadies` | vllm/v1/worker/npu_model_runner.py:896-990 | binding an admissible batch readies every request of it |
| `ResidentSystem.BatchStepsKeepInv` | tools/inspect_target_sfa_snapshots.py:304-343 | stepping the batch one request at a time never fails and leaves the earlier requests served |
| `ResidentSystem.ServedReads` | tools/inspect_target_sfa_snapshots.py:338-343 | a served request reads the latent of the original token through every remapped entry |
| `ResidentSystem.BatchInPlaceKept` | tools/inspect_target_sfa_snapshots.py:338-343 | if nothing is selected or no entry left in place lies within the scratch, no load of the batch writes to a cell such an entry reads |
| `ResidentSystem.BatchCorrect` | tools/inspect_target_sfa_snapshots.py:304-343 | a whole batch reads the right latents and keeps the invariant |
| `ResidentSystem.EventCorrect` | tools/inspect_target_sfa_snapshots.py:304-343 | every admissible event is correct and keeps the invariant |
| `ResidentSystem.EveryRunReadsTheRightLatents` | tools/inspect_target_sfa_snapshots.py:304-407 | over every admissible run of any length nothing fails, every decode reads the latents its entries name, and entries left in place off the scratch read unchanged cells |
| `ResidentStaleness.RequestReadsExactly` | tools/inspect_target_sfa_snapshots.py:304-343 | one request, whatever its scratch holds, reads its own latents if and only if every selected token its trusted row still maps is where the row says |
| `ResidentStaleness.ResumedDecodeReads` | vllm/v1/worker/npu_model_runner.py:917-983 | a request that comes back on the same blocks in the same generation reads its own latents if and only if its hits are still in memory; the decode itself never fails |
| `ResidentStaleness.DecodedResumes` | csrc/kernels/resident_sorted_cache.cpp:1911-1914 | after a batch every request of it can resume, with all it selected in its row |
| `ResidentStaleness.ColdBeforeOverwriteDecides` | vllm/v1/worker/npu_model_runner.py:935-938 | for every request and every state it may decode in: decode, overwrite, decode is correct if and only if the request went cold before the write |
| `ResidentStaleness.OverwrittenSevenIsMisread` | vllm/v1/worker/npu_model_runner.py:935-938 | a concrete run from an empty start that misreads without going cold and is correct with it |
| `ResidentHandover.OrderlyIsAdmissible` | vllm/v1/worker/npu_model_runner.py:917-983 | an event that respects the warm blocks is admissible in every state such events lead to |
| `ResidentHandover.DecodeKeepsWarm` | vllm/v1/worker/npu_model_runner.py:917-983 | after a batch every row of the current generation belongs to a warm request whose scratch nothing has disturbed |
| `ResidentHandover.OrderlyRunsAreCorrect` | tools/inspect_target_sfa_snapshots.py:304-407 | runs that respect the warm blocks are correct from any state that does |
| `ResidentHandover.HandoverIsEnough` | vllm/v1/worker/npu_model_runner.py:896-983 | from startup, judged by events alone: every run is correct in which blocks change hands, or are overwritten by something else, only after their last user finished or went cold |
| `ResidentBoundary.RemapSeparates` | tools/inspect_target_sfa_snapshots.py:338-343 | with slots below a shared boundary, the rewrite is one-to-one on distinct non-negative tokens, moved or left in place |
| `ResidentBoundary.StepBelowBoundary` | tools/inspect_target_sfa_snapshots.py:320-343 | one step keeps every slot below the boundary |
| `ResidentBoundary.SlotsStayBelowBoundary` | tools/inspect_target_sfa_snapshots.py:196-343 | over any number of steps with a boundary that never decreases, slots stay below it and every rewrite is one-to-one |
| `ResidentBoundary.RewriteSeparatesExactly` | tools/inspect_target_sfa_snapshots.py:320-343 | a step is rewritten one-to-one after every history if and only if no position left in place within the scratch stands beside another token that is offloaded |
| `ResidentBoundary.MixedBoundariesCollide` | tools/inspect_target_sfa_snapshots.py:320-343 | a concrete step on boundaries 0 and 4096 whose moved token takes the slot of a position left in place |
| `ResidentGuard.FirstFault` | vllm/v1/attention/backends/ascend/sfa_v1.py:684-701 | the loop over requests reports the fault of the first request in order that has one, if any has |
| `ResidentGuard.ValidateScratchCapacity` | vllm/v1/attention/backends/ascend/sfa_v1.py:655-701 | the checks of the arguments in turn, then those of every request, with the exact outcome of each |
| `ResidentGuard.PassingRows` | vllm/v1/attention/backends/ascend/sfa_v1.py:687-701 | in a request that passes, every row has boundary zero or clears the scratch |
| `GuardCapacity.FaultExactly` | vllm/v1/attention/backends/ascend/sfa_v1.py:686-701 | row by row: a request is refused as too small if and only if its rows with a boundary, times the width, exceed the capacity; else as aliasing if and only if one of them lies below the capacity |
| `GuardCapacity.PassingRequestFits` | vllm/v1/attention/backends/ascend/sfa_v1.py:687-694 | a request that passes never selects more tokens than the capacity, whatever its top-k rows hold |
| `GuardCapacity.CapacityCheckExact` | vllm/v1/attention/backends/ascend/sfa_v1.py:687-694 | when the boundaries leave room for it, the capacity check passes if and only if every selection fits |
| `ResidentGuard.InPlaceKeptExactly` | vllm/v1/attention/backends/ascend/sfa_v1.py:662-701 | entries left in place keep their cells after every history if and only if nothing is selected or none of them reads within the scratch |
| `ResidentGuard.GuardedExactly` | vllm/v1/attention/backends/ascend/sfa_v1.py:687-701 | for a request that passes the guard the condition is: nothing is selected or no row of boundary zero reads within the scratch |
| `ResidentGuard.MixedLoadOverwritesPosition` | vllm/v1/attention/backends/ascend/sfa_v1.py:687-701 | rows on boundaries 0 and 4096 pass the guard, and from an empty scratch token 7 is loaded into the cell that position 0 is read from |
| `PartitionSignatures.SignaturesRunThrough` | vllm/env_override.py:117-241 | every partition finds its inputs in a forward run that drops freed buffers, if and only if no partition uses an unallocated buffer of another one for the last time or under a mutation name that counts as allocated |
| `PartitionSignatures.GraphOutputsSurvive` | vllm/env_override.py:117-241 | every allocated graph output that is an input or defined by some partition is available at the end |
| `PartitionSignatures.ReturnsOnlyWhatIsNeeded` | vllm/env_override.py:190-241 | a partition returns a buffer it defines only if it is a graph output or an input of a later partition |
| `PartitionSignatures.ReturnedNamesHaveNodes` | vllm/env_override.py:190-241 | looking up the nodes of returned names cannot fail |
| `PartitionSignatures.UnallocatedLastUseFails` | vllm/env_override.py:120-188 | a concrete well-formed graph whose second partition is given an input nothing returns |
| `PartitionPass.Summaries` | vllm/env_override.py:140-188 | the loops over nodes collect a partition's outputs, accesses and last uses |
| `PartitionPass.SignPartition` | vllm/env_override.py:140-241 | one step of the pass gives the specified signature and needed names; what they are is in `TakenExactly`, `ReturnedExactly` and `FreedMeaning` |
| `PartitionPass.ComputeSignatures` | vllm/env_override.py:117-241 | the reversed loop computes the specified signatures in forward order, judged by `AvailableExactly` |
| `PartitionLifetimes.TakenExactly` | vllm/env_override.py:147-227 | node by node: a partition takes a buffer, and lists a constant, if and only if some node touches it from outside under an allocated name or uses it last without the partition defining it |
| `PartitionLifetimes.ReturnedExactly` | vllm/env_override.py:145-223 | a partition returns an allocated buffer if and only if it defined it and a graph output or a later partition needs it, or it took it and does not use it last |
| `PartitionLifetimes.FreedMeaning` | vllm/env_override.py:173-199 | a partition frees exactly what it uses last and did not define |
| `PartitionLifetimes.AvailableExactly` | vllm/env_override.py:117-241 | after k partitions a buffer is available if and only if it is deliverable, a graph input or defined for somebody later, and not used last so far |
| `PartitionLifetimes.GoneAfterLastUse` | vllm/env_override.py:173-199 | what a partition uses last is not available after it, and nothing else ceases to be |
| `PartitionLifetimes.UnallocatedExactly` | vllm/env_override.py:120-138 | a buffer counts as unallocated if and only if it has no layout and, when it is the output of a mutation, the buffer it mutates has none either |
| `LogRoundTrip.ReconstructionInvertsFlattening` | tools/analyze_dsa_topk.py:246-355 | for two or more layers, the log of any well-formed trace is rebuilt into exactly its per-request, per-step, per-layer unions with their step numbers |
| `LogRoundTrip.CyclesMatch` | tools/analyze_dsa_topk.py:275-354 | reading correctly cut cycles yields what the trace means, and the counters agree with how often each request was seen |
| `LogAcceptance.AcceptedExactly` | tools/analyze_dsa_topk.py:246-355 | with two or more layers a parsed log is accepted if and only if it is the log of a well-formed trace, so differing names, missing layers, differing requests and repeated rows are refused and nothing else |
| `LogAcceptance.AcceptedIsTrace` | tools/analyze_dsa_topk.py:246-355 | with any number of layers an accepted log is the log of the trace its cycles spell out |
| `LogAcceptance.BadWrapExactly` | tools/analyze_dsa_topk.py:253-273 | a bad wrap is reported if and only if some layer falls other than from last to first, and then at the first such row |
| `LogSingleLayer.SingleLayerReconstruction` | tools/analyze_dsa_topk.py:256-354 | a single-layer log is accepted exactly when every row has a request, and then every row is a step of its own |
| `LogSingleLayer.SingleLayerRoundTrip` | tools/analyze_dsa_topk.py:246-355 | with one layer the round trip holds if and only if every step logs one row per request, all real, in the order of their ids |
| `LogConservation.AcceptedRowsAreCounted` | tools/analyze_dsa_topk.py:246-355 | the row counts of an accepted log add up to its rows that belong to a request, and to all rows if and only if every row does |
| `LogLoops.CutLog` | tools/analyze_dsa_topk.py:253-273 | the loop cuts the log at last-to-first wraps and reports the first bad wrap |
| `LogLoops.GroupByLayer` | tools/analyze_dsa_topk.py:277-280 | grouping gives each layer its rows in log order |
| `LogLoops.UnionRows` | tools/analyze_dsa_topk.py:321-334 | the rows of one request are unioned unless a row number repeats |
| `LogLoops.ReadLayer` | tools/analyze_dsa_topk.py:291-342 | a layer's first fault in the order of the checks, else the count and union of every request |
| `LogLoops.ReadCycle` | tools/analyze_dsa_topk.py:276-354 | a cycle's first fault, else its records in sorted request order with their step numbers |
| `LogLoops.ReconstructUnions` | tools/analyze_dsa_topk.py:246-355 | the whole method computes the specified reconstruction, faults included |
| `LogRanks.FlatRowOccurs` | tools/analyze_dsa_topk.py:246-273 | every position of the flattened trace holds a row of its step, in its own layer |
| `LogRanks.StepsRecoveredExactly` | tools/analyze_dsa_topk.py:562-570 | for a log that is part of a trace, counting layer drops finds the step of every row if and only if the log starts in the first step, skips none and shows every step boundary as a drop |
| `LogMerge.MergeRanksKeep` | tools/analyze_dsa_topk.py:556-590 | merging conflict-free partial ranks finds no conflict, keeps every logged row and invents none |
| `LogMergeCopies.MergeExactly` | tools/analyze_dsa_topk.py:556-590 | for all logs: a conflict is reported if and only if two logged copies of one key disagree, and its key has such copies; otherwise each logged key keeps its first copy and exactly the ranks that logged a first copy are used |
| `LogMergeCopies.MergedInOrder` | tools/analyze_dsa_topk.py:556-590 | merged rows are listed by step, layer, request id and row number |
| `LogMerge.RowOrderIsInvisible` | tools/analyze_dsa_topk.py:246-355 | what a trace means does not depend on the order of rows within a layer |
| `LogMergeRoundTrip.MergeIsComplete` | tools/analyze_dsa_topk.py:556-590 | if no row is missing from all ranks, the merge holds exactly the trace |
| `LogMergeRoundTrip.MergeThenReconstruct` | tools/analyze_dsa_topk.py:556-642 | if the ranks' logs are parts of one trace in order, show their step boundaries and together miss no row, merging finds no conflict, holds every row of the trace exactly once, and reconstruction returns what the trace means |
| `LogMergeRoundTrip.MergePartialRanks` | tools/analyze_dsa_topk.py:556-590 | the loops merge the ranks into one table, or report the first conflict, and list it in key order |
| `LogMergeRoundTrip.MergeOneRank` | tools/analyze_dsa_topk.py:562-587 | one rank is merged row by row with its own step counter |
| `BuildSweep.SharesAddUpToBusy` | tools/report_build_time_ninja.py:207-256 | the weighted durations sum exactly to the time during which at least one task runs |
| `BuildSweep.ShareAtMostDuration` | tools/report_build_time_ninja.py:74-89 | every weighted duration lies between zero and the full duration of its target |
| `BuildSweep.BusyAgainstElapsed` | tools/report_build_time_ninja.py:207-256 | busy time never exceeds elapsed time and equals it if and only if there is no idle gap |
| `BuildBusy.BusyIsUnionLength` | tools/report_build_time_ninja.py:207-256 | any two ordered lists of moments that contain every start and end measure the same busy time, so it is the length of the union of the spans |
| `BuildEvents.SortedArrangement` | tools/report_build_time_ninja.py:207-222 | sorting the listed events arranges every start and stop once, in visiting order |
| `BuildEvents.RunningIsCovering` | tools/report_build_time_ninja.py:226-256 | between events at different times, those started and not stopped are exactly the ones whose span covers the interval |
| `BuildSummary.StopFindsTask` | tools/report_build_time_ninja.py:226-256 | a stop finds its task running if and only if that one does not end before it starts |
| `BuildSummary.SweepEnd` | tools/report_build_time_ninja.py:226-256 | after the last event nothing is left running and every weight is the share of its target |
| `BuildSummary.EarliestExactly` | tools/report_build_time_ninja.py:207-222 | the scan finds the earliest start if and only if nothing starts before time zero, or the last entry does and nothing starts before it |
| `BuildSummary.LatestExactly` | tools/report_build_time_ninja.py:207-222 | the scan finds the latest end if and only if something ends at time zero or later |
| `BuildSummary.ExtentIsElapsed` | tools/report_build_time_ninja.py:207-222 | earliest and latest are the times of the first and last event if and only if the respective condition holds |
| `BuildSummary.WeightedTotalAgainstLength` | tools/report_build_time_ninja.py:207-256 | when the scan sees the extent, the weighted total is at most the build's length and equals it if and only if some task runs at every moment |
| `BuildSummary.SweepMeasuresUnion` | tools/report_build_time_ninja.py:226-256 | the sweep's busy time is the one measured at any ordered moments that contain every start and end |
| `BuildSummary.WeightWithinDuration` | tools/report_build_time_ninja.py:74-89 | the asserted bound on each weighted duration holds without the tolerance |
| `BuildOverlap.SharesSplitEqually` | tools/report_build_time_ninja.py:226-256 | tasks that run in the same interval gain the same |
| `BuildOverlap.UndividedExactly` | tools/report_build_time_ninja.py:226-256 | a weighted duration is the full duration if and only if no other task overlaps it |
| `BuildOverlap.CpuTimeAgainstTotal` | tools/report_build_time_ninja.py:198-256 | the weighted total never exceeds the CPU time and equals it if and only if no two tasks overlap |
| `BuildSummary.Summarize` | tools/report_build_time_ninja.py:198-256 | the method sets every target's share, and its totals, length and CPU time are the specified ones; it fails exactly on an empty log or a task that ends before it starts |
| `BuildSummary.Sweep` | tools/report_build_time_ninja.py:226-256 | the event loop with its running table computes shares and busy time |
| `FlatLogprobs.GrownRefines` | vllm/logprobs.py:63-93 | appending adds one dictionary and leaves the others alone, also after a slice that left gaps |
| `FlatLogprobs.ClimbingSliceRefines` | vllm/logprobs.py:121-135 | a non-empty slice with a positive step holds exactly the picked dictionaries |
| `FlatLogprobs.PickedExactly` | vllm/logprobs.py:121-135 | a position is picked if and only if it is in the list, at or past the start, before the stop (absent, negative and oversized bounds as Python has them), and a whole number of steps from where the slice begins; likewise for negative steps |
| `FlatLogprobs.SlicesActAsList` | vllm/logprobs.py:110-135 | a slice picks exactly the positions between its bounds that its steps reach; if there are any, it acts as the slice of the list if and only if its step is positive, it picks one position, or every picked dictionary is empty |
| `FlatContainer.FlatStore.Append` | vllm/logprobs.py:63-72 | the list of dictionaries grows by one; None adds an empty one |
| `FlatContainer.FlatStore.AppendFast` | vllm/logprobs.py:74-93 | appending columns adds the dictionary of the zipped columns |
| `FlatContainer.FlatStore.Extend` | vllm/logprobs.py:95-98 | the list grows by all the positions in order |
| `FlatContainer.FlatStore.GetItem` | vllm/logprobs.py:110-120 | index i reads dictionary i, index -i the i-th from the end, and any other index is an error |
| `FlatContainer.FlatStore.Iterate` | vllm/logprobs.py:146-152 | iteration yields the list |
| `FlatContainer.FlatStore.GetSlice` | vllm/logprobs.py:121-135 | the picked positions are exactly those between the bounds that the steps reach, in step order; a slice that picks nothing fails; otherwise a new store, the list's slice when the step is positive |
| `FlatContainer.FlatStore.AppendNext` | vllm/logprobs.py:175-206 | the flat branch adds the same dictionary as the list branch, also when the sampled token repeats in the top-k |
| `FlatContainer.ListAppendNext` | vllm/logprobs.py:175-206 | the list branch adds the same dictionary as the flat branch |
| `FlatContainer.NextPositionEntries` | vllm/logprobs.py:175-206 | the appended dictionary, entry by entry: the sampled token has its own rank, the k-th top token rank k; the shortest column ends it and a repeated token keeps its last entry |
| `SummaryStats.OrderIsInvisible` | tools/analyze_dsa_topk.py:375-403 | the summary does not depend on the order of the samples |
| `SummaryStats.SummaryValues` | tools/analyze_dsa_topk.py:375-403 | on any sorted rearrangement: mean times count is the sum of the samples as given, min and max are samples that bound all, and p10 and p90 lie one and nine tenths of the way between the first and last sample, between the two samples around that place |
| `SummaryStats.EvenlySpacedPercentiles` | tools/analyze_dsa_topk.py:387-394 | on evenly spaced samples a + b*i the percentiles are exactly a + b*(n-1)/10 and a + 9b*(n-1)/10 |
| `SummaryStats.SummaryOrdered` | tools/analyze_dsa_topk.py:375-403 | min <= p10 <= p90 <= max for any samples; `SummaryValues` says where they lie |
| `SummaryStats.ComplementReversesSummary` | tools/analyze_dsa_topk.py:921-933 | summarizing 1-x gives mean 1-mean, p10 = 1-p90, p90 = 1-p10, min = 1-max, max = 1-min; the values themselves are in `SummaryValues` |
| `BadWords.NoBadWords.constructor` | vllm/logits_process.py:52-54 | the word bias is not built yet |
| `BadWords.NoBadWords.InitWordBias` | vllm/logits_process.py:89-121 | the bias of one-token words is built exactly when every token is in the vocabulary |
| `BadWords.NoBadWords.Call` | vllm/logits_process.py:56-87 | first and later calls: a finite logit becomes minus infinity if and only if its token would complete a bad word, every other logit is unchanged, and the two failures occur exactly on tokens outside the vocabulary and on empty words |
| `BadWords.NoBadWords.LongWordBias` | vllm/logits_process.py:64-87 | the loop bans exactly the last tokens of longer words whose prefix was just generated |
| `BadWords.NoBadWordIsGenerated` | vllm/logits_process.py:56-104 | if every generated token had a processed logit above minus infinity, no bad word occurs anywhere in the generation |
| `DispatchLayout.AssignSendIndices` | csrc/torch_binding.cpp:3318-3333 | the in-place loops give every routed entry its rank among the entries of its expert and leave the others alone |
| `DispatchLayout.SendIndicesNumberEntries` | csrc/torch_binding.cpp:3318-3333 | for every expert the send indices are exactly 0..count-1, each once, in row-major order |
| `DispatchLayout.LayoutIsTransposition` | csrc/torch_binding.cpp:3348-3352 | both numberings of (expert, rank) pairs are one-to-one |
| `DispatchLayout.EveryPlaceIsHit` | csrc/torch_binding.cpp:3348-3352 | every place is the place of some pair in both numberings, so each is a bijection |
| `DispatchLayout.ReceiveLayout` | csrc/torch_binding.cpp:3343-3377 | the loops place the running end of every pair's segment and its offset at the pair's place, count per expert and in total, and return the least batch bound: it covers the given one and every pair's tokens times the ranks, and is reached |
| `DispatchLayout.SegmentsTile` | csrc/torch_binding.cpp:3346-3366 | every received token lies in exactly one segment |
| `DispatchLayout.ExpertHoldsItsSegments` | csrc/torch_binding.cpp:3346-3369 | per-expert totals are differences of segment ends, and the last end is the total |
| `DispatchLayout.TotalIsStoredSum` | csrc/torch_binding.cpp:3346-3369 | the expert-major total equals the sum of the counts in rank-major storage order |
| `DispatchLayout.BoundCoversRanks` | csrc/torch_binding.cpp:3376-3377 | the global batch bound is at least the sum of all source ranks' token counts |
| `RequestObjects.CompletionOutput.Absorb` | vllm/outputs.py:155-166 | merging one completion in place, with the state left behind when the assertion on log probabilities fails |
| `RequestObjects.RequestOutput.Locate` | vllm/outputs.py:152-153 | finds the first completion with the index |
| `RequestObjects.RequestOutput.AddCompletion` | vllm/outputs.py:151-173 | one completion is merged, replaces or is appended; the whole new state |
| `RequestObjects.RequestOutput.Add` | vllm/outputs.py:145-173 | adding an output in place equals folding its completions over the old ones, also when it stops on the assertion |
| `RequestOutputs.StreamIsSummarised` | vllm/outputs.py:145-173 | folding a stream succeeds if and only if no index that began without log probabilities later brings some; then there is one completion per index in first-seen order with text, tokens and log probabilities concatenated in arrival order and the last finish fields |
| `RequestOutputs.RefusedStreamStops` | vllm/outputs.py:151-167 | a stream that is refused stops at its first unacceptable piece: everything before it is summarised, that piece has extended text and tokens only, and the rest is unread |
| `RequestOutputs.DistinctIsMerged` | vllm/outputs.py:145-173 | completions with distinct indices are their own merge, so a stream may start from any of them |
| `RequestOutputs.ReplacingKeepsTheLatest` | vllm/outputs.py:168-173 | without aggregation every index holds the latest completion sent for it |
| `RequestOutputs.MergingIsAssociative` | vllm/outputs.py:145-173 | grouping the stream differently gives the same completions and the same failures |
| `RequestOutputs.AssociativeExactlyWhenDistinct` | vllm/outputs.py:145-173 | grouping is invisible if and only if the middle delta carries each index once |
| `ChunkScan.CountedIffOccurs` | tools/staged_sfa_graph_smoke.py:464-466 | left-to-right counting is positive if and only if the needle occurs |
| `ChunkScan.CountIsReached` | tools/staged_sfa_graph_smoke.py:464-466 | some occurrences that do not overlap are as many as the count says |
| `ChunkScan.CountIsMost` | tools/staged_sfa_graph_smoke.py:464-466 | no occurrences that do not overlap are more, so the count is their largest number |
| `ChunkScan.CarryMissesNothing` | tools/staged_sfa_graph_smoke.py:463-467 | counting before a border and again from a carry of all but one byte of the needle never counts less than the whole |
| `ChunkScan.ScanBinary` | tools/staged_sfa_graph_smoke.py:457-468 | for every chunking and all needles at once, a count is the sum over the chunks of the count in the last longest-minus-one earlier bytes and the chunk; it is at least the count over the whole file and positive if and only if the needle occurs, except an empty needle in an empty file; without needles the scan fails |
| `ProfilerControl.RunStreamingDecode` | tools/staged_sfa_graph_smoke.py:210-306 | whatever fails, either nothing is sent or one start and then one stop, and a start is sent exactly when the stream reaches the starting chunk; the run returns exactly when the stream is intact and long enough and, with profiling, both requests succeeded |

## Left out

- The NPU kernels and every `aclnn` call: their bodies are outside the repository's host code; the notify exchange is an arbitrary array, and the resident kernel appears only as storing the requested generation.
- Machine integer widths and floating-point rounding: counts, offsets and totals are unbounded, durations and log probabilities are reals.
- `memory_plan_reuse_patched` in vllm/env_override.py: the stack of planning states.
- Chains of mutation names in vllm/env_override.py: names resolve in one step (`Resolved`), as the code's single lookup assumes.
- PartitionSignatures.SignaturesRunThrough: stated for well-formed graphs, in which each name is defined once and before its uses, a last use is last, and names are real ones.
- PartitionSignatures.ReturnsOnlyWhatIsNeeded: same assumptions.
- PartitionLifetimes.AvailableExactly: same assumptions, as for the other laws of `PartitionLifetimes` but `TakenExactly` and `UnallocatedExactly`.
- LogAcceptance.AcceptedExactly: stated for two or more layers and rows with a layer in range, as the parser delivers them; one layer is in SingleLayerReconstruction.
- GuardCapacity.CapacityCheckExact: stated for boundaries of at least the selection's largest size; with smaller ones the check is stricter than needed.
- Line numbers in log rows and error messages: they only enter messages. Parsing text into rows, CSV output and plots.
- LogMergeRoundTrip.MergeThenReconstruct: stated for two or more layers, like the reconstruction it uses; the single-layer condition is in SingleLayerRoundTrip.
- BuildSummary.WeightedTotalAgainstLength: stated for logs whose extent the scan sees; ExtentIsElapsed says exactly which those are.
- BuildSummary.Summarize: the grouping by extension and the printed statistics, with their division by the build's length, are not modelled.
- BadWords.NoBadWordIsGenerated: empty words are excluded; the code fails on them in the loop over longer words.
- RequestObjects.RequestOutput.Add: completion objects are distinct and an output is not added to itself; token and log-probability lists are values, so lists shared between completions are not modelled.
- DispatchLayout.SegmentsTile: stated for non-negative counts.
- Barriers and concurrent requests of the smoke tool: only the single-request path of the profiler control is modelled.
- Tensor checks, configuration, HTTP, subprocess and file handling throughout.
