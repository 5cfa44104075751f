# IDA mesh: verified core

A Dafny 4.11 model of the parts of IDA mesh where a mistake is easy to make and hard to see: the worker-pool
lifecycle, the bounded call graph, the def-use and taint tracers, the annotation merge and its wire form,
stack-string reconstruction, call-argument splitting, forwarding to workers, JSON-RPC dispatch with
cancellation, and number conversion. Each property holds for all inputs, all runs or all interleavings.

`dafny verify dfyconfig.toml` checks everything.

## How it is laid out

| file | what it holds |
|---|---|
| `Common.dfy`, `Strings.dfy` | options and results; code-point order and white-space stripping |
| `CallGraph.dfy`, `CallGraphLaws.dfy` | a queue-free reference order, its laws, and the worklist algorithm proved to list exactly that order; the graph in terms of call distances and bounds |
| `WorkerPool.dfy`, `WorkerPoolRuns.dfy`, `WorkerPoolHistory.dfy`, `WorkerPoolObject.dfy` | the critical sections as functions, one program counter for each operation in flight, the invariant and the theorems over interleavings, and the class that implements the sections in place |
| `Decoded.dfy`, `DataFlow.dfy`, `DataFlowLaws.dfy`, `Taint.dfy`, `TaintLaws.dfy` | decoded instructions, the two walks and the propagation primitive, and source-to-sink paths; the same in terms of operands and mnemonics |
| `Reconciliation.dfy`, `MergeLaws.dfy`, `MergeOutcome.dfy` | the merge and its loops, its algebra, and what becomes of every key |
| `AnnotationWire.dfy`, `AnnotationWireLaws.dfy` | the JSON document, and what it says value by value |
| `StackStrings.dfy`, `StackStringsLaws.dfy` | byte memory, maximal printable blocks, and detection over all base registers; the strings in terms of the instructions |
| `CallArgs.dfy` | the quote- and depth-aware argument scanner |
| `WorkerClient.dfy`, `WorkerClientLaws.dfy`, `WorkerClientRetries.dfy` | the forwarding steps and the client class; what holds against any worker, network and other threads |
| `RequestContext.dfy`, `Router.dfy`, `RouterLaws.dfy`, `CancellationRuns.dfy`, `CancellationObject.dfy` | tokens and registry, dispatch of single requests and batches, interleaved dispatches and cancels, and the same steps taken by the token and registry objects |
| `Number.dfy`, `NumberLaws.dfy` | parsing, two's complement and the renderings; the tokens read and the fields given |

Code that changes state in the original is a class or a method with loops here, proved against a function of its
inputs or its old state; the laws are lemmas about those functions. Where threads interleave, a step is one
critical section or one blocking action, and the environment chooses the order, the failures and the replies.

## What the proofs found

- **A worker can be orphaned.** After launching, `_spawn_worker` cleans up only on its own spawn error. Any other
  exception, in an open whose session was closed before its process was attached, leaves the process running.
  `FaultCanOrphan` gives the run; `OrphansAreAbandoned` says these are the only orphans.
- **A failing open can cancel another one.** `_discard` pops by id. `DiscardCanCancelAnother` gives the run,
  `DiscardHitsAnother` the exact condition.
- **An internal signal escapes `forward`.** If the worker forgets the session between granting it and receiving
  `notifications/initialized`, `_StaleSession` reaches the caller, although the documentation promises a
  `WorkerClientError`. `InternalSignalEscapes` gives the exchange, `ResultIsLastExchange` the exact condition; it
  also shows that a malformed HTTP reply escapes as an HTTP exception.
- **A freshly shaken session can be replayed.** `was_cached` and the cache lookup are two lock acquisitions.
  `FreshCanBeReplayed` gives the race, `FreshReplayIsARace` the exact condition; replay stays at most once.
- **The backward `truncated` flag is one-sided.** `BackwardFlagIsOneSided` has a complete trace flagged as truncated;
  `BackwardFlagIsRight` says exactly when the flag is wrong: the trace ends with the budget above the first instruction.
- **Duality of the two walks needs clean copies.** It holds from every anchor and at every hop if and only if each
  followed copy writes only its destination or its own source (`DualIffCopiesAreClean`); a copy that writes a third
  operand breaks it (`TwoDestinationsBreakDuality`).
- **Taint propagation needs honest zeroing.** It misses no copy on any execution if and only if a zeroing
  instruction is decoded as writing the register it clears (`SoundIffClearsWhatItWrites`); `UnwrittenZeroingLosesTaint`
  has one that is not.
- **Cancellation is lost when ids are reused.** The registry is keyed by the id alone and is shared by all sessions, so
  two calls in flight can collide. After two calls under one id and the end of the first, the second can no longer be
  cancelled (`ReusedIdLosesTheCall`). A cancel reaches a call exactly while nothing has touched the call's id since it
  began (`ListedIffUndisturbed`), and the registry is exact all along a run if and only if the calls in flight have
  distinct ids (`ExactIffDistinctIds`). Whatever the ids, a cancel trips only a call it named.
- **One bad entry can stop a merge.** The parser is meant to skip malformed entries, but an entry at an infinite number
  (which JSON text such as `1e999` decodes to) raises out of the integer conversion, in whichever list it stands
  (`OneBadEntryStopsTheMerge`). So does a provenance that is neither false nor an object
  (`BadProvenanceStopsTheMerge`). `RaisesIff` says exactly which documents raise, and what.
- **Merging in groups is flat merging only under FIRST and LAST** (`HierarchicalIsFlat`). Under PREFER the preferred
  session loses its say when it is merged in a group first (`PreferredCanBeLost`); under MANUAL a conflict left open in
  one group no longer stands against another group's edit (`OpenConflictCanBeLost`).
  `HierarchicalIffSettledAlike` has the exact condition for both.
- **The worker limit counts sessions, not processes.** While a closed open has yet to notice, a second one can launch:
  under a limit of one there can be two live workers (`LimitCanBeExceeded`). With nothing in flight there cannot
  (`QuietPoolFitsLimit`).

## Model

| member | source | states |
|---|---|---|
| `CallGraph.OrderIsReachability` | src/idamesh/domain/services/call_graph.py:63-108 | the reference order after k rounds contains exactly the functions some path of at most k calls reaches |
| `CallGraph.DistanceIsRound` | src/idamesh/domain/services/call_graph.py:63-108 | a function's shortest call distance is the round that first lists it |
| `CallGraph.KeptWithinDepth` | src/idamesh/domain/services/call_graph.py:49-108 | every kept function has a shortest call distance and it is at most the depth bound |
| `CallGraph.NearestFirst` | src/idamesh/domain/services/call_graph.py:49-108 | even when the node ceiling bites, every function strictly closer than a kept one is kept and listed before it |
| `CallGraph.DistancesAscend` | src/idamesh/domain/services/call_graph.py:49-108 | kept functions are listed in non-decreasing distance |
| `CallGraph.BoundsOnlyAppend` | src/idamesh/domain/services/call_graph.py:49-108 | raising the depth or the ceiling only appends to the node list |
| `CallGraph.EdgesFacts` | src/idamesh/domain/services/call_graph.py:102-105 | the edge list holds each call from a followed function to a kept one exactly once, and nothing else |
| `CallGraph.NotTruncatedIsComplete` | src/idamesh/domain/services/call_graph.py:79-115 | a graph not flagged truncated is the whole reachable set with its entire call relation, whatever the bounds |
| `CallGraph.FollowChild` | src/idamesh/domain/services/call_graph.py:85-108 | one call site keeps the worklist on the reference order and flags truncation exactly when its target is dropped |
| `CallGraph.FollowChildren` | src/idamesh/domain/services/call_graph.py:85-108 | a whole list of call sites does |
| `CallGraph.Visit` | src/idamesh/domain/services/call_graph.py:64-108 | one turn of the worklist follows or elides the next function, keeping the flag exact |
| `CallGraph.Build` | src/idamesh/domain/services/call_graph.py:30-115 | terminates on any callee relation, finite or not; fails only when the root cannot be looked up; otherwise every field of the graph is the reference's, names included, and `truncated` holds iff some kept function has a call missing from `edges` |
| `CallGraphLaws.NodesAreWithinDepth` | src/idamesh/domain/services/call_graph.py:49-108 | every node is the root or at most `depth` calls away from it, each listed once, the root first |
| `CallGraphLaws.NodeCeiling` | src/idamesh/domain/services/call_graph.py:89-93 | never more than `max_nodes` nodes, save that the root is always one |
| `CallGraphLaws.BelowCeilingIsComplete` | src/idamesh/domain/services/call_graph.py:79-108 | with fewer nodes than `max_nodes`, every function at most `depth` calls away is a node |
| `CallGraphLaws.EdgesAreFollowedCalls` | src/idamesh/domain/services/call_graph.py:79-115 | the edges are exactly the calls from nodes less than `depth` calls away to nodes, each once; truncated iff some call from a node is not an edge |
| `CallGraphLaws.DiscoveryOrder` | src/idamesh/domain/services/call_graph.py:64-108 | nodes are listed in the order in which the followed call sites, node by node, first name them |
| `CallGraphLaws.NodeNames` | src/idamesh/domain/services/call_graph.py:94-101 | a node has the name of the first followed call site that gives it one, and none if none does |
| `WorkerPool.StepKeeps` | src/idamesh/infrastructure/process/worker_pool.py:196-313 | every step of every operation keeps the pool invariant: records, program counters, readiness and the worker limit |
| `WorkerPool.RunKeeps` | src/idamesh/infrastructure/process/worker_pool.py:196-313 | so does every interleaving of any length |
| `WorkerPool.ReserveKeeps` | src/idamesh/infrastructure/process/worker_pool.py:209-236 | a reservation never lands on an id that is still registered after reaping |
| `WorkerPoolRuns.StepAccounts` | src/idamesh/infrastructure/process/worker_pool.py:196-313 | a process that stays alive across a step stays accounted for, save in a fault nobody else answers for |
| `WorkerPoolRuns.OrphansAreAbandoned` | src/idamesh/infrastructure/process/worker_pool.py:386-411 | over any run a live process is unaccounted for iff it was so at the start or a fault of the run abandoned it |
| `WorkerPoolRuns.NoOrphans` | src/idamesh/infrastructure/process/worker_pool.py:196-313 | when opens fail only by spawn errors, every process ever launched is dead, attached to a registered session, or held by an operation that must kill or commit it |
| `WorkerPoolRuns.QuietPool` | src/idamesh/infrastructure/process/worker_pool.py:196-313 | with nothing in flight, every live process belongs to a registered session that is ready and has a token |
| `WorkerPoolRuns.QuietPoolFitsLimit` | src/idamesh/infrastructure/process/worker_pool.py:219-225 | with nothing in flight and opens failing only by spawn errors, no more processes live than a non-zero limit allows |
| `WorkerPoolRuns.LimitCanBeExceeded` | src/idamesh/infrastructure/process/worker_pool.py:219-225 | a run in which two workers live under a limit of one |
| `WorkerPoolRuns.ReachableSessions` | src/idamesh/infrastructure/process/worker_pool.py:273-289 | what `get` and `list_sessions` show has finished its handshake and has a process; sessions, reservations included, never exceed a non-zero limit |
| `WorkerPoolRuns.OpenOutcome` | src/idamesh/infrastructure/process/worker_pool.py:209-236 | an open is refused, shared, limited or given a reservation according to what is registered and alive; dead sessions never count against the limit |
| `WorkerPoolRuns.NothingIsStuck` | src/idamesh/infrastructure/process/worker_pool.py:196-313 | in every state the invariant allows, each operation in flight can take a step |
| `WorkerPoolRuns.StepsRunOut` | src/idamesh/infrastructure/process/worker_pool.py:196-313 | each of its own steps brings an operation nearer its end, at most seven for an open, and no other step moves it |
| `WorkerPoolRuns.OpenReturnsReady` | src/idamesh/infrastructure/process/worker_pool.py:196-271 | in every interleaving, what an open returns is registered, ready, and has a process and a token |
| `WorkerPoolRuns.GetIsExact` | src/idamesh/infrastructure/process/worker_pool.py:280-289 | in every reachable state, `get` answers with a record iff that record is registered under the id with a finished handshake, a token and a running process, and drops it iff the process has exited |
| `WorkerPoolRuns.RemovedStays` | src/idamesh/infrastructure/process/worker_pool.py:256-268 | no step restores a removed reservation, publishes its port or token, or returns it |
| `WorkerPoolRuns.RemovedForGood` | src/idamesh/infrastructure/process/worker_pool.py:256-268 | nor does any run |
| `WorkerPoolRuns.CloseBeatsCommit` | src/idamesh/infrastructure/process/worker_pool.py:256-313 | an open whose reservation was removed before its commit never returns success or exposes an endpoint, and its worker ends up dead |
| `WorkerPoolRuns.FaultCanOrphan` | src/idamesh/infrastructure/process/worker_pool.py:397-409 | a run in which an exception other than the spawn error leaves a live process nobody answers for |
| `WorkerPoolRuns.DiscardHitsAnother` | src/idamesh/infrastructure/process/worker_pool.py:502-510 | a failing open pops somebody else's session iff its id is registered for another record by then |
| `WorkerPoolRuns.DiscardCanCancelAnother` | src/idamesh/infrastructure/process/worker_pool.py:249-254 | a run in which a failing open cancels a later open of the same preferred id |
| `WorkerPoolHistory.OpenPublishesItsHandshake` | src/idamesh/infrastructure/process/worker_pool.py:256-268 | in every interleaving, what an open's commit returns has the id the open asked for or was given, the process it launched, and the port and token of its last handshake, then and after any later steps |
| `WorkerPoolHistory.EndpointsAreHandshaken` | src/idamesh/infrastructure/process/worker_pool.py:196-271 | in every reachable state, any record with a port got its id, process, port and token from its own open before one of its commits |
| `WorkerPoolHistory.PublishedForGood` | src/idamesh/infrastructure/process/worker_pool.py:256-289 | once published, a record is never changed again |
| `WorkerPoolObject.WorkerPoolState.constructor` | src/idamesh/infrastructure/process/worker_pool.py:164-188 | the pool starts empty |
| `WorkerPoolObject.WorkerPoolState.ReserveLocked` | src/idamesh/infrastructure/process/worker_pool.py:209-236 | the first locked section shares, refuses or reserves as the transition system's step does |
| `WorkerPoolObject.WorkerPoolState.CommitLocked` | src/idamesh/infrastructure/process/worker_pool.py:256-260 | sets exactly the port and token given on exactly this record iff it is still the registered one, else changes nothing |
| `WorkerPoolObject.WorkerPoolState.GetLocked` | src/idamesh/infrastructure/process/worker_pool.py:280-289 | returns only ready live sessions and drops a dead one |
| `WorkerPoolObject.WorkerPoolState.ListLocked` | src/idamesh/infrastructure/process/worker_pool.py:273-278 | reaps, then lists exactly the ready sessions, each once, in order of creation |
| `WorkerPoolObject.WorkerPoolState.ReapLocked` | src/idamesh/infrastructure/process/worker_pool.py:490-500 | removes and returns exactly the ids whose process has exited |
| `WorkerPoolObject.WorkerPoolState.PopLocked` | src/idamesh/infrastructure/process/worker_pool.py:291-296 | removes one id and hands over its record |
| `WorkerPoolObject.WorkerPoolState.TerminateRecord` | src/idamesh/infrastructure/process/worker_pool.py:512-526 | kills the record's process and no other |
| `WorkerPoolObject.WorkerPoolState.CloseAllSessions` | src/idamesh/infrastructure/process/worker_pool.py:306-313 | empties the map and kills exactly the processes its records carried |
| `DataFlow.Locations` | src/idamesh/domain/services/data_flow.py:339-362 | collects exactly the read and the written locations asked for, address registers included |
| `DataFlow.QuietIffUntouched` | src/idamesh/domain/services/data_flow.py:182-229 | an instruction emits a step iff it reads or writes a tracked location, and otherwise leaves the set alone |
| `DataFlow.Visit` | src/idamesh/domain/services/data_flow.py:182-229 | one turn of the forward loop has the effect and the step of the specification |
| `DataFlow.HasMore` | src/idamesh/domain/services/data_flow.py:384-400 | the truncation probe says yes iff the rest of the uncapped trace is non-empty |
| `DataFlow.Forward` | src/idamesh/domain/services/data_flow.py:165-230 | returns exactly the first `cap` steps of the uncapped trace; `truncated` iff that trace is longer |
| `DataFlow.Backward` | src/idamesh/domain/services/data_flow.py:232-281 | returns the first `cap` hops of the uncapped trace and flags truncation iff the budget is spent above the start |
| `DataFlow.VisitBack` | src/idamesh/domain/services/data_flow.py:249-280 | one turn of the backward loop: the tracked set after it and the hop it emits |
| `DataFlowLaws.TraceDescribes` | src/idamesh/domain/services/data_flow.py:182-229 | the forward steps are the instructions that read or write something tracked, in order; each is noted as a copy, a transform, a use or a redefinition according to the operands it reads and writes, at its own address |
| `DataFlowLaws.TrackedIff` | src/idamesh/domain/services/data_flow.py:182-229 | a location is tracked iff it was seeded, or copied to by an instruction that reads something tracked, and not overwritten since by one that reads nothing tracked |
| `DataFlowLaws.ReadsAndWrites` | src/idamesh/domain/services/data_flow.py:340-362 | what an instruction reads and writes, operand by operand: registers by family, plain stack slots, fixed addresses, and the registers of an address |
| `DataFlowLaws.CopiesMean` | src/idamesh/domain/services/data_flow.py:365-382 | what a copy copies from and to: operands 1 and 0 of the copying mnemonics, if read and written |
| `DataFlow.BackwardTracksOne` | src/idamesh/domain/services/data_flow.py:240-280 | the set the backward walk tracks never has more than one location, and the hops still to come are those of that location |
| `DataFlow.BackwardFlag` | src/idamesh/domain/services/data_flow.py:232-281 | an unflagged backward trace is complete |
| `DataFlow.BackwardFlagIsRight` | src/idamesh/domain/services/data_flow.py:243-246 | the flag says whether the uncapped trace is longer than the budget, except exactly when the trace ends with the budget and an instruction is left to examine |
| `DataFlow.BackwardFlagIsOneSided` | src/idamesh/domain/services/data_flow.py:244-246 | the flag can be raised on a complete trace |
| `DataFlow.HopIsNearestWrite` | src/idamesh/domain/services/data_flow.py:243-280 | each hop is the nearest preceding write of the location it looks for |
| `DataFlow.BackwardIsForward` | src/idamesh/domain/services/data_flow.py:165-281 | over clean copies, if the backward walk hops through copies to an origin, the forward walk started there tracks the anchor's location on reaching the anchor |
| `DataFlow.DualIffCopiesAreClean` | src/idamesh/domain/services/data_flow.py:165-281 | the walks are dual from every anchor and at every hop iff every followed copy writes only its destination or its own source |
| `DataFlow.OneOperandCopiesCleanly` | src/idamesh/domain/services/data_flow.py:364-382 | a copy that writes operand 0 only, as every move does, is clean |
| `DataFlow.TwoDestinationsBreakDuality` | src/idamesh/domain/services/data_flow.py:186-189 | a copy that also writes another operand breaks that duality |
| `DataFlow.ApplyPropagation` | src/idamesh/domain/services/data_flow.py:285-310 | updates the tainted set as the specification does: calls clobber, zeroing clears, copies add, other writes kill |
| `DataFlow.ForwardReach` | src/idamesh/domain/services/data_flow.py:132-161 | reports, instruction by instruction, the set tainted before it, within the clamped budget |
| `DataFlow.PropagateMonotone` | src/idamesh/domain/services/data_flow.py:285-310 | more taint before an instruction never means less after it |
| `DataFlow.ReachMonotone` | src/idamesh/domain/services/data_flow.py:132-161 | adding seeds never shortens the reach nor removes a location from a reported set |
| `DataFlow.ReachIsTaint` | src/idamesh/domain/services/data_flow.py:154-160 | stopping at the empty set loses nothing: within the budget an instruction is reported iff something is tainted there, with exactly that set |
| `DataFlow.NothingStaysNothing` | src/idamesh/domain/services/data_flow.py:285-310 | taint never appears from nothing |
| `DataFlow.PropagateSound` | src/idamesh/domain/services/data_flow.py:285-310 | after any execution of an instruction, every holder of the tagged value is still in the set |
| `DataFlow.SoundIffClearsWhatItWrites` | src/idamesh/domain/services/data_flow.py:294-310 | that holds for all executions iff a zeroing instruction writes the register it clears |
| `DataFlow.UnwrittenZeroingLosesTaint` | src/idamesh/domain/services/data_flow.py:294-300 | a zeroing instruction decoded without a written operand drops the taint of a register that still holds the value |
| `DataFlow.NoMissedCopy` | src/idamesh/domain/services/data_flow.py:132-161 | along any execution, every exact copy of the seeded value is in the tainted set |
| `DataFlowLaws.TaintedIff` | src/idamesh/domain/services/data_flow.py:285-310 | a location is tainted iff it was seeded, or copied to by an instruction that reads something tainted, and since then no call clobbered it, nothing zeroed it, and nothing wrote it without reading taint |
| `DataFlowLaws.PropagatesIff` | src/idamesh/domain/services/data_flow.py:285-310 | the same for one instruction, in terms of operands and mnemonics |
| `Taint.RecordStackWrites` | src/idamesh/domain/services/taint.py:208-218 | adds exactly the stack slots the instruction writes |
| `Taint.PathsFromSource` | src/idamesh/domain/services/taint.py:106-182 | the loop collects exactly the specified paths of one source |
| `Taint.ScanIsExact` | src/idamesh/domain/services/taint.py:134-181 | a scan reports a path ending at an instruction iff it is a dangerous call with a tainted argument register or a tainted slot of its own window |
| `Taint.PathsAreExactlySinks` | src/idamesh/domain/services/taint.py:106-206 | a source reports a sink iff the sink lies within 512 instructions and the source taints one of its arguments |
| `Taint.NoMissedFlow` | src/idamesh/domain/services/taint.py:106-206 | if along some execution a dangerous call within the window is passed an exact copy of the source's return value, the uncapped result has that path |
| `Taint.Trace` | src/idamesh/domain/services/taint.py:73-102 | returns exactly the first `cap` of all paths in source order; `truncated` iff more exist |
| `TaintLaws.AllPathsAreSpelledOut` | src/idamesh/domain/services/taint.py:90-104 | the uncapped result is exactly the paths from source calls to the dangerous calls they reach within 512 instructions, ordered by source and sink |
| `TaintLaws.PathsAreSpelledOut` | src/idamesh/domain/services/taint.py:106-182 | each path names its source, its sink and the sink's api; its steps are the source, every instruction between but the sinks reached before, and the sink |
| `TaintLaws.ReachesMeans` | src/idamesh/domain/services/taint.py:184-230 | an argument of a call is one of six registers, or a slot at a non-negative displacement stored to since the last named call |
| `Reconciliation.KeyTrichotomy` | src/idamesh/domain/services/reconciliation.py:341-347 | the key order is total |
| `Reconciliation.KeyTransitive` | src/idamesh/domain/services/reconciliation.py:341-347 | and transitive |
| `Reconciliation.SortKeys` | src/idamesh/domain/services/reconciliation.py:341-347 | lists the keys in the one strictly ascending order |
| `Reconciliation.DistinctFacts` | src/idamesh/domain/services/reconciliation.py:332-338 | there is one distinct signature iff all contributions agree, and none is lost |
| `Reconciliation.DistinctLoop` | src/idamesh/domain/services/reconciliation.py:332-338 | the loop lists the distinct signatures in first-seen order |
| `Reconciliation.GroupEdits` | src/idamesh/domain/services/reconciliation.py:279-294 | groups, in record order, exactly the edits that are non-empty and differ from their session's baseline |
| `Reconciliation.ResolveLoop` | src/idamesh/domain/services/reconciliation.py:314-329 | picks the winner each policy names, or leaves the divergence open |
| `Reconciliation.ReconcileKey` | src/idamesh/domain/services/reconciliation.py:298-310 | one key's plan entry and conflict, the candidates and the resolution included |
| `Reconciliation.ReconcileField` | src/idamesh/domain/services/reconciliation.py:261-311 | one field's plan and its conflicts in key order |
| `Reconciliation.SelectFields` | src/idamesh/domain/services/reconciliation.py:222-233 | the selected fields, or the first unknown name |
| `Reconciliation.Reconcile` | src/idamesh/domain/services/reconciliation.py:105-182 | the loops compute the merge, errors in the source's order |
| `MergeOutcome.MergedKey` | src/idamesh/domain/services/reconciliation.py:261-329 | for every key: nobody edited it and the plan is silent; or all edits agree and the plan has them; or there is one conflict with every session's last word and what the policy settles on, which is what the plan has. An edit is a text, or a comment with a half, that is not empty and not in the session's own baseline, else the shared one |
| `MergeOutcome.ConflictsInOrder` | src/idamesh/domain/services/reconciliation.py:168-182 | conflicts come field by field and in ascending key order |
| `MergeOutcome.KeyOrder` | src/idamesh/domain/services/reconciliation.py:341-347 | keys are ordered by address and, at one address, by the code points of the scope |
| `MergeOutcome.MergeGoesThrough` | src/idamesh/domain/services/reconciliation.py:157-164 | a merge goes through unless a name is no field, or two records or baselines name different hashes or load addresses; the error is the first that applies |
| `MergeLaws.RefusedIff` | src/idamesh/domain/services/reconciliation.py:157-164 | a merge is refused iff a field name is unknown, or two records or baselines name different file hashes, or different load addresses, in that order of precedence; the first unknown name is the one reported |
| `MergeLaws.HierarchicalIsFlat` | src/idamesh/domain/services/reconciliation.py:105-201 | under FIRST or LAST, merging any groups of records separately, turning the plans into records and merging those succeeds and gives the flat merge's tables |
| `MergeLaws.HierarchicalIffSettledAlike` | src/idamesh/domain/services/reconciliation.py:314-329 | under MANUAL, or PREFER with no group named like the preferred session, it does so iff every key the sessions diverge on is settled by the policy exactly when the groups' plans agree on it |
| `MergeLaws.PreferredCanBeLost` | src/idamesh/domain/services/reconciliation.py:324-328 | two groups of one record each whose PREFER merges differ |
| `MergeLaws.OpenConflictCanBeLost` | src/idamesh/domain/services/reconciliation.py:329 | two groups of records whose MANUAL merges differ |
| `MergeLaws.RemergeIsIdentity` | src/idamesh/domain/services/reconciliation.py:185-201 | merging a merged record alone, under any policy, reproduces it with no conflicts |
| `MergeLaws.ConflictListIsExact` | src/idamesh/domain/services/reconciliation.py:298-311 | there is exactly one conflict for each diverging key, with its candidates and resolution, in ascending key order |
| `MergeLaws.EveryEditIsSettled` | src/idamesh/domain/services/reconciliation.py:261-329 | a key with a genuine edit is in the plan or in an unresolved conflict, never both; nothing is invented |
| `MergeLaws.OrderDoesNotMatter` | src/idamesh/domain/services/reconciliation.py:261-338 | with distinct session ids, MANUAL and PREFER give the same plan and conflicts for every order of the records |
| `MergeLaws.FirstIsLastReversed` | src/idamesh/domain/services/reconciliation.py:314-323 | with distinct session ids, FIRST on a list equals LAST on its reverse, conflicts included |
| `MergeLaws.UnchangedSessionIsSilent` | src/idamesh/domain/services/reconciliation.py:281-294 | a session identical to its own baseline changes nothing, wherever it stands |
| `AnnotationWire.RenderLoop` | src/idamesh/application/annotation_wire.py:129-150 | one list rendered in ascending key order |
| `AnnotationWire.ParseLoop` | src/idamesh/application/annotation_wire.py:168-206 | one list parsed, malformed elements skipped, addresses read from numbers and texts alike; raises iff an address is infinite |
| `AnnotationWire.RecordToWire` | src/idamesh/application/annotation_wire.py:105-156 | the whole document |
| `AnnotationWire.RecordFromWire` | src/idamesh/application/annotation_wire.py:115-195 | the whole record of a document, or what reading it raises |
| `AnnotationWire.RaisesIff` | src/idamesh/application/annotation_wire.py:115-195 | reading overflows iff some element of some list, or the load address, is an infinite number; it raises on the provenance iff that is no object and no element is infinite; nothing else raises |
| `AnnotationWire.OneBadEntryStopsTheMerge` | src/idamesh/application/annotation_wire.py:252-260 | a document with an element at an infinite address in any list raises, whatever else it holds |
| `AnnotationWire.BadProvenanceStopsTheMerge` | src/idamesh/application/annotation_wire.py:117 | a rendered record whose provenance is replaced by a value that is no object raises |
| `AnnotationWire.RecordRoundTrip` | src/idamesh/application/annotation_wire.py:129-195 | parsing a record's wire form never raises and gives the record back |
| `AnnotationWire.NormalFormIsIdempotent` | src/idamesh/application/annotation_wire.py:129-195 | rendering a parsed document is a normal form: a second round changes nothing |
| `AnnotationWire.LastEntryWins` | src/idamesh/application/annotation_wire.py:168-189 | parsing keeps, for each key, what the last well-formed element says, and nothing else |
| `AnnotationWire.RenderedAscends` | src/idamesh/application/annotation_wire.py:209-224 | a rendered list is strictly ascending in its keys |
| `AnnotationWire.ReadFits` | src/idamesh/application/annotation_wire.py:159-195 | every parsed record keeps the key and signature conventions the merge expects |
| `AnnotationWire.MergedRecordSurvivesTheWire` | src/idamesh/domain/services/reconciliation.py:185-201 | a merge of well-shaped records is well shaped, so it comes back from the wire unchanged |
| `AnnotationWireLaws.DocumentIsSpelledOut` | src/idamesh/application/annotation_wire.py:115-195 | what a readable document holds: for each list and key the last element that says anything of it, missing texts empty; and its provenance |
| `AnnotationWireLaws.NumberIsSpelledOut` | src/idamesh/application/annotation_wire.py:252-260 | the integer a value stands for: itself, a fraction cut towards zero, or a decimal text |
| `AnnotationWireLaws.RenderingIsSpelledOut` | src/idamesh/application/annotation_wire.py:129-156 | a rendered list has one element for each entry, in key order, with every text under its name |
| `StackStrings.StoreReadsBack` | src/idamesh/domain/services/stack_strings.py:54-59 | the little-endian bytes, as many as the width, read back to the value reduced modulo 256 to the width, negative or not |
| `StackStrings.StoreIsExact` | src/idamesh/domain/services/stack_strings.py:102-133 | exactly the immediate stores to a writable plain stack slot are recognized, with the slot, the address, the width the operand sizes call for, and bytes that read back to the immediate |
| `StackStrings.MemoryIsLastWrite` | src/idamesh/domain/services/stack_strings.py:142-151 | every byte of the map is the one the last store covering it wrote, and no other byte is there |
| `StackStrings.LayStores` | src/idamesh/domain/services/stack_strings.py:142-151 | the nested loops compute that memory |
| `StackStrings.Flush` | src/idamesh/domain/services/stack_strings.py:161-172 | closing a run reports it iff it is long enough, anchored at its least address |
| `StackStrings.Runs` | src/idamesh/domain/services/stack_strings.py:135-187 | the results are exactly the maximal contiguous printable blocks of at least the threshold, ascending |
| `StackStrings.RunListIsUnique` | src/idamesh/domain/services/stack_strings.py:153-187 | the memory and the threshold determine those results |
| `StackStrings.FindingIsWhatSurvives` | src/idamesh/domain/services/stack_strings.py:161-187 | each character is the byte of the store that last wrote its position, and the anchor is the least address of the stores that survive in the block |
| `StackStrings.BasesAreListedOnce` | src/idamesh/domain/services/stack_strings.py:84-92 | the grouping has each stored-to base register once, and only those |
| `StackStrings.GroupStores` | src/idamesh/domain/services/stack_strings.py:84-92 | groups the stores by base register in program order, the registers in order of first use |
| `StackStrings.Detect` | src/idamesh/domain/services/stack_strings.py:65-98 | the answer is a permutation of all bases' results sorted by address, then value |
| `StackStrings.DetectionIsUnique` | src/idamesh/domain/services/stack_strings.py:94-98 | there is only one such answer |
| `StackStrings.DetectionIsExact` | src/idamesh/domain/services/stack_strings.py:65-98 | a string is reported iff it is a long enough maximal printable block behind some base register |
| `StackStringsLaws.DetectionIsSpelledOut` | src/idamesh/domain/services/stack_strings.py:65-97 | reported are exactly the maximal stretches, of at least the threshold, of places whose last stored byte is an ASCII character from space to tilde; text and least contributing address, sorted by address and text |
| `StackStringsLaws.MemoryIsSpelledOut` | src/idamesh/domain/services/stack_strings.py:146-155 | the byte at a place is the one the last instruction to store there put there, with its address |
| `StackStringsLaws.StoreIsFound` | src/idamesh/domain/services/stack_strings.py:54-133 | a store writes the low bytes of its immediate, lowest first, as many as the first positive operand size says |
| `CallArgs.Split` | src/idamesh/domain/services/vuln_heuristics.py:221-269 | `None` iff the opening parenthesis is never closed outside quotes; otherwise arguments that are balanced, have no top-level comma, and join to exactly the text up to the matching parenthesis |
| `CallArgs.DepthIsBalance` | src/idamesh/domain/services/vuln_heuristics.py:238-268 | the scanner's depth is the parentheses opened less those closed outside string literals, and its quote and escape state are those of the literal it stands in, literals being found from quotes and runs of backslashes alone |
| `CallArgs.TopLevelIsBalanced` | src/idamesh/domain/services/vuln_heuristics.py:252-265 | a character is at the top level iff it stands outside string literals with as many parentheses closed as opened before it |
| `CallArgs.SplitIsUnique` | src/idamesh/domain/services/vuln_heuristics.py:221-269 | a call has at most one such split |
| `CallArgs.JoinIsInjective` | src/idamesh/domain/services/vuln_heuristics.py:259-261 | joining with commas loses nothing |
| `CallArgs.JoinThenSplit` | src/idamesh/domain/services/vuln_heuristics.py:221-269 | arguments put between parentheses split back into themselves, whatever follows |
| `CallArgs.ArgIsExact` | src/idamesh/domain/services/vuln_heuristics.py:271-283 | an argument is missing iff the call has none or the index is out of range at either end; otherwise it is the one at the index, without the blanks around it; the two ways of counting agree |
| `WorkerClient.Client.ForwardFrame` | src/idamesh/infrastructure/rpc/worker_client.py:104-148 | the retry loop is one pass, or two when the endpoint was cached and the first was rejected as stale |
| `WorkerClient.Client.Ensure` | src/idamesh/infrastructure/rpc/worker_client.py:172-213 | returns the cached session, or shakes hands and caches the granted one |
| `WorkerClient.Client.CallHttp` | src/idamesh/infrastructure/rpc/worker_client.py:215-262 | one frame posted and its reply read, the errors told apart |
| `WorkerClient.Client.PostFrame` | src/idamesh/infrastructure/rpc/worker_client.py:264-308 | a refused connect is retried up to the limit and nothing else is |
| `WorkerClient.Client.Invalidate` | src/idamesh/infrastructure/rpc/worker_client.py:165-168 | forgets one endpoint, after whatever other threads did |
| `WorkerClientLaws.PostFacts` | src/idamesh/infrastructure/rpc/worker_client.py:264-308 | every connect but the last was refused, the last decides the outcome, and giving up takes exactly one more than the retries |
| `WorkerClientLaws.HandshakeFacts` | src/idamesh/infrastructure/rpc/worker_client.py:186-213 | a handshake sends no forwarded frame, and caches a session only after it was granted and announced |
| `WorkerClientLaws.AtMostOnce` | src/idamesh/infrastructure/rpc/worker_client.py:104-148 | against any environment: all sendings but the last were refused or rejected as stale, at most two got past connecting, and two only if a second pass was due |
| `WorkerClientLaws.WorkerActsAtMostOnce` | src/idamesh/infrastructure/rpc/worker_client.py:104-148 | a worker that does not act on what it rejects acts on at most one sending of the frame |
| `WorkerClientLaws.ResultIsLastExchange` | src/idamesh/infrastructure/rpc/worker_client.py:104-148 | the last exchange decides the result; the internal signal escapes iff the announcement was refused with a stale 404, an HTTP exception iff the reply was malformed |
| `WorkerClientLaws.FreshReplayIsARace` | src/idamesh/infrastructure/rpc/worker_client.py:125-134 | a freshly shaken session is replayed iff another thread dropped the endpoint between two locks and the fresh session was rejected |
| `WorkerClientLaws.FreshIsNeverReplayed` | src/idamesh/infrastructure/rpc/worker_client.py:124-148 | with no other thread at work, a forward that has to shake hands gets past connecting at most once |
| `WorkerClientLaws.CacheFollowsLastExchange` | src/idamesh/infrastructure/rpc/worker_client.py:124-213 | with no other thread at work, the endpoint is cached afterwards iff the last exchange was the frame and not rejected as stale, under the session it carried; other endpoints are untouched |
| `WorkerClientLaws.SessionsAreEstablished` | src/idamesh/infrastructure/rpc/worker_client.py:172-213 | with no other thread at work, every forwarded frame carries the cached session or one granted and announced before it |
| `WorkerClientLaws.InternalSignalEscapes` | src/idamesh/infrastructure/rpc/worker_client.py:204-210 | an exchange after which `forward` raises its internal signal |
| `WorkerClientLaws.FreshCanBeReplayed` | src/idamesh/infrastructure/rpc/worker_client.py:125-128 | a race in which a fresh session's frame gets past connecting twice |
| `WorkerClientRetries.RefusedIsRetried` | src/idamesh/infrastructure/rpc/worker_client.py:264-308 | in a whole forward a refused connect is tried again with the same frame and session; it is given up exactly after one more refusal than the retries allow |
| `RequestContext.CancellationToken.Cancel` | src/idamesh/infrastructure/rpc/context.py:41-43 | the flag is set |
| `RequestContext.CancellationRegistry.Open` | src/idamesh/infrastructure/rpc/context.py:70-75 | a new, unset token is registered under the id |
| `RequestContext.CancellationRegistry.Close` | src/idamesh/infrastructure/rpc/context.py:77-80 | the id is dropped, whether or not it was there |
| `RequestContext.CancellationRegistry.Trip` | src/idamesh/infrastructure/rpc/context.py:82-89 | sets the named token and no other, and says whether one was live |
| `Router.AnsweredIfOwed` | src/idamesh/infrastructure/rpc/router.py:79-107 | an element is answered iff an answer is owed, under its own id or null when none can be made out, with the error its fault calls for |
| `Router.BatchIsInOrder` | src/idamesh/infrastructure/rpc/router.py:193-221 | the k-th response answers the k-th element owed one, from that element's own handler, and there are as many as owed |
| `Router.ReplyShape` | src/idamesh/infrastructure/rpc/router.py:193-226 | nothing is sent when nothing is owed, never an empty list, and a lone object only for a lone element, an empty batch or a parse error |
| `RouterLaws.AnswerIsSpelledOut` | src/idamesh/infrastructure/rpc/router.py:79-107 | who is answered, under which id, and with which result or error code for each way a handler can end |
| `RouterLaws.ReplyIsSpelledOut` | src/idamesh/infrastructure/rpc/router.py:193-226 | the whole reply to a payload: the answers of the elements that want one, in order, each from its own handler's outcome; the codes for a parse error and an empty batch |
| `RouterLaws.CancelIsSpelledOut` | src/idamesh/infrastructure/rpc/router.py:313-319 | which id a cancel names |
| `RouterLaws.RegisteredIsSpelledOut` | src/idamesh/infrastructure/rpc/router.py:273-278 | which calls get a token that can be cancelled |
| `Router.Dispatcher.Register` | src/idamesh/infrastructure/rpc/router.py:159-168 | binds one method, the rest unchanged |
| `Router.Dispatcher.HandleCancelled` | src/idamesh/infrastructure/rpc/router.py:313-319 | trips the named token only, and none for a null or missing name |
| `Router.Dispatcher.DispatchOne` | src/idamesh/infrastructure/rpc/router.py:228-309 | gives the specified answer, leaves no token of its own behind, and trips only a token a cancel named |
| `Router.Dispatcher.DispatchBatch` | src/idamesh/infrastructure/rpc/router.py:214-219 | collects the specified answers in order |
| `Router.Dispatcher.Dispatch` | src/idamesh/infrastructure/rpc/router.py:170-226 | sends the specified reply and leaves no token behind |
| `CancellationRuns.StepKeeps` | src/idamesh/infrastructure/rpc/router.py:273-303 | every step of interleaved dispatches and cancels, ids reused or not, keeps the registry to calls in flight and every lookup aimed at its id |
| `CancellationRuns.RegistryIsInFlight` | src/idamesh/infrastructure/rpc/context.py:63-89 | in every run, whatever the registry lists is a registered call in flight, under its own id and with its own token |
| `CancellationRuns.ListedIffUndisturbed` | src/idamesh/infrastructure/rpc/context.py:70-80 | in every run, a call is listed iff no call has begun or ended under its id since it began |
| `CancellationRuns.TrippedByItsCancel` | src/idamesh/infrastructure/rpc/context.py:82-89 | in every run, a token is tripped only by a cancel that named its own call's id while that call was in flight |
| `CancellationRuns.CancelReachesUndisturbed` | src/idamesh/infrastructure/rpc/context.py:82-89 | a cancel gets hold of a call's token iff the call's id is undisturbed, and can then trip it at any later time |
| `CancellationRuns.CancelAfterCompletionIsNoOp` | src/idamesh/infrastructure/rpc/router.py:313-319 | a cancel that names no registered call in flight finds nothing and never trips anything |
| `CancellationRuns.NeverCancelled` | src/idamesh/infrastructure/rpc/router.py:268-278 | `initialize`, notifications and calls with a null id are never cancelled |
| `CancellationRuns.TrippedIffFired` | src/idamesh/infrastructure/rpc/context.py:30-48 | over any run the tripped tokens are those tripped before and those a step of the run fired: no other token is touched and none is reset |
| `CancellationRuns.ExactIffIdIsFree` | src/idamesh/infrastructure/rpc/context.py:70-75 | registering a call leaves an exact registry exact iff its id is free |
| `CancellationRuns.ExactIffDistinctIds` | src/idamesh/infrastructure/rpc/context.py:63-89 | the registry lists exactly the registered calls in flight all along a run iff every call begins under an id no call in flight uses |
| `CancellationRuns.ReusedIdLosesTheCall` | src/idamesh/infrastructure/rpc/router.py:273-303 | two calls under one id, the first ended: the second is in flight and can no longer be cancelled |
| `CancellationObject.Calls.Begin` | src/idamesh/infrastructure/rpc/router.py:273-278 | the objects take the step of the transition system: a registered call's fresh token is listed under its id |
| `CancellationObject.Calls.End` | src/idamesh/infrastructure/rpc/router.py:301-303 | so do they when a dispatch ends |
| `CancellationObject.Calls.Find` | src/idamesh/infrastructure/rpc/context.py:84-85 | the locked half of a cancel finds the object of the token the transition system finds |
| `CancellationObject.Calls.Fire` | src/idamesh/infrastructure/rpc/context.py:86-89 | the other half sets that object and no other |
| `Number.ViewsAreRepresentatives` | src/idamesh/domain/services/number.py:47-50 | the unsigned and signed views are the number's representatives modulo 2^bits in their two ranges |
| `Number.SignedIfItFits` | src/idamesh/domain/services/number.py:47-50 | the signed view is the number itself iff the number fits the width |
| `Number.WideningKeepsSigned` | src/idamesh/domain/services/number.py:47-50 | the signed view survives widening |
| `Number.NarrowingIsTruncation` | src/idamesh/domain/services/number.py:47-50 | narrowing a wide view gives the narrow view |
| `Number.PrefixedReadsBack` | src/idamesh/domain/services/number.py:78-113 | each prefixed rendering parses to the number it renders |
| `Number.DecimalReadsBack` | src/idamesh/domain/services/number.py:78-113 | so does the decimal one, sign included |
| `Number.LiteralReadsBack` | src/idamesh/domain/services/number.py:94-99 | a quoted character parses to its code point, the quote itself and blanks included |
| `Number.BlanksDoNotMatter` | src/idamesh/domain/services/number.py:82-84 | blank space around a token does not matter, and a blank token is the only empty one |
| `Number.SignNegates` | src/idamesh/domain/services/number.py:86-92 | a leading minus negates what follows, a leading plus keeps it, and neither makes an unreadable token readable |
| `Number.ReconvertKeepsViews` | src/idamesh/domain/services/number.py:31-64 | converting any rendering again at the same width gives the same unsigned and signed values |
| `Number.WidthsAgree` | src/idamesh/domain/services/number.py:31-64 | converting the signed decimal at a greater width keeps the signed value; converting the hexadecimal at a smaller one agrees with converting the token there |
| `Number.SignedFieldIfItFits` | src/idamesh/domain/services/number.py:47-60 | the signed field equals the parsed number iff it fits the width |
| `NumberLaws.TokenIsRead` | src/idamesh/domain/services/number.py:78-113 | exactly these tokens are read, each as the number it stands for: blanks, a sign, a quoted character, a radix prefix in either case, digits in either case with single underscores, valued by place |
| `NumberLaws.DigitIsSpelledOut` | src/idamesh/domain/services/number.py:104-113 | the digits are 0 to 9 and a to f in either case, each worth its place in that list |
| `NumberLaws.Powers` | src/idamesh/domain/services/number.py:47-50 | the modulus of a width is two to that power |
| `NumberLaws.ConversionIsSpelledOut` | src/idamesh/domain/services/number.py:31-64 | when there is a conversion, and every field of it; the renderings in lower case without leading zeros |
| `NumberLaws.ErrorIsSpelledOut` | src/idamesh/domain/services/number.py:69-84 | a width outside 1 to 512 is refused first, then a blank token |

## Left out

Assumptions of the models:

- Worker pool: minted ids are fresh, terminating a process succeeds, and a process exits between critical sections rather than inside one. Two mints could collide on their eight hexadecimal digits.
- Worker pool: the thread that opens a session fills in a record other threads hold; records live in a store and are named by identity instead of being heap objects.
- Worker pool: the private copy, scratch cleanup, the stderr drain, argument building and the handshake's text are not part of this model; an open prepares, launches, attaches, and its handshake succeeds or fails. Sessions adopted from a running user interface are left out.
- Worker pool: the order of sessions created at the same instant, and the return value of close.
- Call graph: lookups are a pure partial function of the address, so a callee relation that changes while it is walked is left out.
- Decoded instructions: the alias table is a register family and width, mnemonics are already trimmed and in lower case, and step texts and renderings are left out.
- DataFlow.BackwardIsForward: states duality over clean copies; DualIffCopiesAreClean shows the premise is exactly what is needed.
- DataFlow.NoMissedCopy: takes as given that a zeroing instruction writes the register it clears, which SoundIffClearsWhatItWrites shows is exactly what is needed, and that only copies and the source itself produce the tagged value.
- Data flow: the wrapper that finds the anchor by address, seeds the walk and clamps the budget.
- Taint: which names are sources or dangerous, and how names are undecorated, are parameters.
- Merge: mixed key types and the fallback order by printed form; session ids are already strings; the dry-run report.
- Annotation wire: bare-address comment keys, short comment signatures, texts (the provenance's included) that are not strings, a document that is itself no object, and JSON encoding.
- Annotation wire: a list under `provenance` whose elements are all pairs, of which `dict` makes an object; it reads as that object does. Which of the two exceptions `dict` raises on other values is not told apart.
- MergeLaws.HierarchicalIffSettledAlike: leaves out a group that goes by the preferred session's id, since its plan is then preferred as a whole.
- Stack strings: the store's position in the program is its place in the list, so sorting by it again is not modelled; the function name a finding carries.
- Call arguments: the regular expression that finds calls and the rules applied to the arguments.
- Worker client: ping, bearer tokens, timeouts and back-off; request headers; whether a text contains a stale-session marker is a flag of the reply.
- Router: error messages and tracebacks, the bound request context, deadlines and JSON decoding; what an injected handler returns or throws is the environment's choice.
- Router: ids that Python counts as equal though they differ in type, such as a cancel that names `true` for the call with id 1.
- Number: the limit on the length of decimal tokens and decimal digits outside ASCII.
- Everything under `src/idamesh/infrastructure/ida/`, the transports, the installer, the discovery directory and the thin use-cases.
