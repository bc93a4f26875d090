# A verified model of the OACP orchestration core

OACP lets agents delegate work to each other over a message bus and shows operators what happened. This
project models the parts of it whose behaviour spans whole runs and proves what they promise. `dafny verify
dfyconfig.toml` checks everything.

**Plans.** `PlanValidation` is the level-by-level Kahn walk over `dependsOn`: counters with repetition, child
lists, a queue per level. Batching fails exactly on dependency cycles, the batches are the longest-chain levels,
and no schedule is shorter. `DagExecutor` runs batches with a handler that is any function of the step and its
context, merges results only at the batch barrier, and under fail-fast stops at the first error. Two runs over
any two schedules, one step at a time included, record the same results. `Graphs`, `DependencyCounts`, `WalkOrders`
(the orders in which queue-driven walks list nodes) and `Selections` hold what these share with the other modules.

**Delegation graphs.** `AgentDepths` has the server's longest-label queue and the console's shortest-label queue
over one worklist, `LabelWorklist`. `DelegationGraph` folds duplicated and reordered messages into a mutable graph
state, and `RecordedGraph` says field by field what any list of recordings makes of nodes and edges.
`DelegationDepth`, `DelegationQueries` and `DelegationOrder` finalize the state, walk it and order it. `DepthWalk` is
the depth-first walk with its shared visited set, and `DelegationExamples` holds recorded logs whose graphs show what
the documentation leaves out. `MemoryReplay` rebuilds a graph from memory entries and says which messages of a run of
agent runtimes come back.

**Messaging.** `TraceStore`, `Routing`, `Mailboxes` and `MessageBus` are the in-process bus, `BusMail` its mailboxes
over runs of bus operations, and `AgentRuntime` the request/reply side of an agent. The classes are proved against
functions on values, and `MessagingSystem` interleaves those same functions freely: sends, deliveries, timers,
cancellations, stops, a bus closing and reopening. `Recovery` is the failover loop over capabilities, agents and tries, against any sequence of answers.

**Observability and storage.** `EventBus` is the bounded event log with cursors and live subscribers, together
with the connection step of the event stream. `MemoryQuery` compiles a query to SQL text, gives the text a
meaning of its own (words, placeholders, three-valued logic), and proves that meaning equal to the in-memory one.
`Decimals` supports both; `Protocol` and `Wrappers` hold the shared types.

Object state is a class whose methods are proved equal to a function on its value (`View()`); the theorems are
about that function. Functions that only compute are in turn pinned down by lemmas that say what they compute without
calling them. History that the code does not keep (who was handed what, which wait was settled) is ghost or
part of the value only.

## Where the code and its documentation differ

- `stop()` is documented to reject pending waiters; the code clears their timers and settles none of them, ever
  (`MessagingSystem.PendingAtStopIsLost`; `MessagingSystem.StopLosesWait` is a run with such a wait).
- The graph depth is documented as the maximum chain length. On any recorded edges, cycles included, it is the
  length of the longest *first* chain from a root: a chain of distinct messages that at every message goes on to the
  first listed child from which the end is reached past the messages already on the chain
  (`DelegationDepth.DepthIsLongestFirstChain`). So it is the maximum chain length if and only if some longest chain
  is a first chain (`DelegationDepth.FinalizedDepthExactly`), as it is with one parent per message
  (`DelegationDepth.FinalizedForest`) and may be on a cycle (`DelegationExamples.DepthOnCycle`). With a request
  recorded under two parents it can be less and depends on the recording order
  (`DelegationExamples.DepthDependsOnRecordingOrder`).
- Rebuilding a graph from memory is documented to restore it. A message that a runtime received and no sender put
  into the same memory is in the graph only, and is lost (`MemoryReplay.LostMessages`;
  `MemoryReplay.ReceivedIsLost` is one). `MemoryReplay.RuntimeRebuild` says exactly when the graph is restored.
- The topological order is documented as roots first; below a parent that was never recorded an edge can point
  backwards (`DelegationExamples.UnrecordedParentBreaksOrder`). `DelegationOrder.EdgeGoesForward` says exactly when
  it does not.
- The console's depth is said to mirror the server's; it is a shortest distance where the server's is a longest
  one (`AgentDepths.DepthsCompared` says exactly when they agree, `AgentDepths.DepthsDiffer` is three agents on
  which they do not; `AgentDepths.DepthsAgreeExactly` gives the condition link by link).
- A stream with a lost cursor is documented to receive `stream.resync`; the event is published before the stream
  subscribes and is never delivered to it (`EventBus.LostCursorMissesItsResync`; `EventBus.LostCursorStream` is one).
- `computeAgentDepths` never comes to an end once a delegation cycle is processed
  (`LabelWorklist.EndsExactlyWithoutReachableCycle`, `AgentDepths.NoRootNeverEnds`; two agents that
  delegate to each other are enough, `AgentDepths.MutualDelegationNeverEnds`).

## Model

| member | source | states |
|---|---|---|
| PlanValidation.PlanExecutionBatches | core/src/workflow/plan-validation.ts:70-128 | the first unknown dependency of the first step that has one is reported exactly when there is one; for unique ids and known dependencies a cycle is reported if and only if `dependsOn` has one (self-dependencies and repeated entries included), and otherwise the batches are a layering: every step once, after its dependencies, each level waiting for the one before; the first batch stands in plan order, later steps in the order in which their last dependency was drained |
| PlanValidation.ValidateSubtaskPlan | core/src/workflow/plan-validation.ts:5-68 | accepts exactly the well-formed acyclic plans; `PLAN_CYCLE` only when acyclicity is the one fault |
| PlanValidation.TrimBlank | core/src/workflow/plan-validation.ts:16-38 | trimming leaves nothing of an id exactly when all its characters are white space |
| PlanValidation.DrainLevels | core/src/workflow/plan-validation.ts:97-117 | the level loop ends and keeps counters equal to the entries still unreleased, levels layered, and the queue equal to the unplaced steps whose counter is zero |
| PlanValidation.DrainLevel | core/src/workflow/plan-validation.ts:101-115 | draining one level counts every child down once per entry and queues, once each, the steps that reach zero |
| PlanValidation.FinishLevels | core/src/workflow/plan-validation.ts:119-125 | with the queue empty, all steps placed means a layering and no cycle, and a step left over means a cycle |
| PlanValidation.LeftoverSteps | core/src/workflow/plan-validation.ts:119-125 | steps that were never placed hold a dependency cycle |
| PlanValidation.LayeringIsLongestChain | core/src/workflow/plan-validation.ts:97-127 | batch `k` holds exactly the steps whose longest dependency chain has `k` edges |
| PlanValidation.LayeringIsShortest | core/src/workflow/plan-validation.ts:97-127 | no schedule that respects the dependencies needs fewer batches |
| PlanValidation.ScheduleForbidsCycle | core/src/workflow/plan-validation.ts:119-125 | a plan that can be scheduled at all has no cycle |
| Graphs.LeftoverHasCycle | core/src/workflow/plan-validation.ts:119-125 | a non-empty set in which every node keeps a predecessor holds a cycle |
| DagExecutor.ExecuteDagPlan | core/src/workflow/dag-executor.ts:80-165 | a plan is rejected exactly when it is malformed or cyclic, with the right error; otherwise the run is the batch semantics over a layering, fails only under fail-fast with a recorded error, and its output is the last recorded result's |
| DagExecutor.RunBatch | core/src/workflow/dag-executor.ts:98-121 | every handler of a batch is called once, against the results and parents from before the batch |
| DagExecutor.CompletedRun | core/src/workflow/dag-executor.ts:97-164 | a run is not stopped exactly when fail-fast is off or everything it recorded succeeded, and then it records every step once in schedule order |
| DagExecutor.StoppedRun | core/src/workflow/dag-executor.ts:123-142 | a failed run has recorded the earlier batches and the failing batch up to its first error, the only error recorded, after starting the whole failing batch |
| DagExecutor.StartsAfterDependencies | core/src/workflow/dag-executor.ts:97-152 | when a handler starts, every transitive dependency has a recorded result, a success under fail-fast, and sees it as it stays to the end |
| DagExecutor.ParentExactly | core/src/workflow/dag-executor.ts:58-74 | the parent of every started step is the request of its first listed dependency that succeeded and sent one, else that of the first step of the earlier batches, in schedule order, that did, and none exactly when none did |
| DagExecutor.ResultsAreReturned | core/src/workflow/dag-executor.ts:98-124 | every recorded result is what the handler returned to the one recorded call for its step, with the context recorded |
| DagExecutor.ParentFromEarlierLevel | core/src/workflow/dag-executor.ts:58-74 | first-batch steps get no parent; any other parent is the request of a successful step of a strictly earlier batch |
| DagExecutor.ParentLinksAcyclic | core/src/workflow/dag-executor.ts:58-74 | with distinct request ids the parent links of a run form no cycle |
| DagExecutor.Confluence | core/src/workflow/dag-executor.ts:97-152 | handlers that depend only on the step and its dependencies' results give every step recorded in two runs the same result, whatever the schedules |
| DagExecutor.FailureIsConfluent | core/src/workflow/dag-executor.ts:126-142 | whether a fail-fast run is stopped does not depend on the schedule |
| DagExecutor.BatchedEqualsSequential | core/src/workflow/dag-executor.ts:97-152 | a batched run without failure ends with the result map of the one-step-at-a-time run over any topological order |
| AgentDepths.ComputeAgentDepths | server/src/observability/trace-graph.ts:90-149 | where no start reaches a cycle the loop ends and gives every reachable agent the length of its longest walk from a start, and 0 to the rest |
| AgentDepths.ComputeOpsGraphAgentDepths | apps/console/src/graph/ops-graph-depth.ts:7-64 | on every link set the loop ends and gives every reachable agent its shortest distance from a start, and 0 to the rest |
| AgentDepths.LinkGraph | server/src/observability/trace-graph.ts:90-115 | an edge stands for a `delegates` or `subtask` link between two known agents |
| AgentDepths.StartAgents | server/src/observability/trace-graph.ts:116-120 | the worklist starts at exactly the agents nobody delegates to, or at all agents when there is none |
| LabelWorklist.EndsExactlyWithoutReachableCycle | server/src/observability/trace-graph.ts:121-146 | the queue runs dry if and only if no start reaches a cycle (longest labels), and always (shortest labels) |
| LabelWorklist.FinalLabels | server/src/observability/trace-graph.ts:121-148 | when the queue has run dry every reachable agent carries its best label, and no other agent carries one |
| AgentDepths.NoRootReachesCycle | server/src/observability/trace-graph.ts:116-120 | with agents but no root every agent is a start and some start reaches a cycle |
| AgentDepths.NoRootNeverEnds | server/src/observability/trace-graph.ts:116-146 | the loop then has an entry left in its queue after every number of turns |
| AgentDepths.MutualDelegationNeverEnds | server/src/observability/trace-graph.ts:116-146 | two agents that delegate to each other are such links |
| AgentDepths.AcyclicDepthIsLongestChain | server/src/observability/trace-graph.ts:116-148 | on acyclic links the loop ends and the depth is the longest delegation chain ending in the agent |
| AgentDepths.DepthsCompared | apps/console/src/graph/ops-graph-depth.ts:6-64 | the console's depth is never more than the server's, and equal exactly when all walks from a start have one length |
| AgentDepths.DepthsAgreeExactly | apps/console/src/graph/ops-graph-depth.ts:6-64 | both sides show the same depths if and only if the agents have levels: 0 on the starts, one more along every link out of a reachable agent |
| AgentDepths.DepthsDiffer | apps/console/src/graph/ops-graph-depth.ts:6-64 | three agents and three links, without a cycle, that give an agent depth 2 on the server and 1 in the console |
| AgentDepths.ForestDepthsAgree | apps/console/src/graph/ops-graph-depth.ts:31-63 | with at most one delegating agent per agent both depths are equal |
| DelegationGraph.MutableDelegationGraphState.UpsertNode | core/src/memory/delegation-graph-builder.ts:33-60 | a new node is appended; a known one keeps identity and agent, takes the new kind, and of each other field what is given anew, if anything; no other node changes |
| DelegationGraph.MutableDelegationGraphState.AddEdge | core/src/memory/delegation-graph-builder.ts:62-72 | an edge is added unless one with its endpoints and kind is there |
| DelegationGraph.MutableDelegationGraphState.ApplyMessage | core/src/memory/delegation-graph-builder.ts:83-171 | node and parent edge of each message kind, the agent label looked up after the node is in |
| DelegationGraph.BuildFromRecordings | core/src/memory/delegation-graph-builder.ts:361-364 | the state of a log is the fold of its recordings |
| DelegationGraph.LogDescribesState | core/src/memory/delegation-graph-builder.ts:33-171 | the state after a coherent log has exactly the nodes and edges its recordings name, each edge once |
| DelegationGraph.SameContentSameGraph | core/src/memory/delegation-graph-builder.ts:33-171 | two coherent logs that record the same messages under the same parents, in any order and number, give the same node map and the same set and number of edges |
| DelegationGraph.LogOrderIrrelevant | core/src/memory/delegation-graph-builder.ts:33-171 | any reordering or repetition of a coherent log gives the same node map and the same set and number of edges |
| RecordedGraph.NodeOfMessage | core/src/memory/delegation-graph-builder.ts:99-171 | in a coherent log every recorded message has its node, field by field, under the parent some recording tells |
| RecordedGraph.NodeKeepsFirst | core/src/memory/delegation-graph-builder.ts:33-60 | whatever is recorded later under its id, a node keeps the trace and the agent of the first recording |
| RecordedGraph.NodeTakesLast | core/src/memory/delegation-graph-builder.ts:33-60 | and has the kind of the last |
| RecordedGraph.NodeOrder | core/src/memory/delegation-graph-builder.ts:33-60 | nodes stand in the order in which their messages were first recorded |
| RecordedGraph.EdgeOrder | core/src/memory/delegation-graph-builder.ts:62-171 | the edges of any log are one for each recording that asks for an edge nobody asked for before, in that order, with the fields this recording tells and the agent of the parent as known then |
| DelegationDepth.FinalizeDelegationGraph | core/src/memory/delegation-graph-builder.ts:268-303 | the finalized graph of the state, whose parts the next rows describe |
| DelegationDepth.RootsAndLeaves | core/src/memory/delegation-graph-builder.ts:268-303 | the nodes are those of the state in their order; the roots are, in node order, exactly the work nodes into which no delegates or subtask edge leads, and the leaves those from which none leads on |
| DelegationDepth.ComputeDelegationDepth | core/src/memory/delegation-graph-builder.ts:305-346 | the maximum over the roots of the depth-first walk with one visited set per root |
| DelegationDepth.BuildDelegationGraphFromMessages | core/src/memory/delegation-graph-builder.ts:349-366 | no graph exactly for an empty list or a first message without a trace id, otherwise the finalized state of all the messages |
| DelegationDepth.DepthIsAChain | core/src/memory/delegation-graph-builder.ts:330-346 | the depth never exceeds the longest chain of distinct messages from a root: it is the length of one |
| DepthWalk.WalkVisitsReachable | core/src/memory/delegation-graph-builder.ts:330-346 | on any edges, cyclic or not, a walk that starts with nothing visited visits exactly what can be reached from its start |
| DepthWalk.WalkVisits | core/src/memory/delegation-graph-builder.ts:330-346 | in the middle of a walk, on any edges, a node adds exactly what it reaches without meeting the path that leads to it |
| DepthWalk.FirstChainStepwise | core/src/memory/delegation-graph-builder.ts:330-346 | a chain is a first chain if and only if each of its nodes is the first listed child of the one before that reaches the end without meeting the chain so far |
| DelegationDepth.DepthIsLongestFirstChain | core/src/memory/delegation-graph-builder.ts:305-346 | on any edges, cyclic or not, the depth is the length of the longest first chain from a root |
| DelegationDepth.DepthIsHeightExactly | core/src/memory/delegation-graph-builder.ts:305-346 | on any edges, cyclic or not, the depth is the length of the longest chain of distinct messages from a root if and only if there is no root or some longest such chain is a first chain |
| DelegationDepth.FinalizedDepthExactly | core/src/memory/delegation-graph-builder.ts:268-346 | the same for every finalized graph |
| DelegationDepth.ForestDepthIsHeight | core/src/memory/delegation-graph-builder.ts:305-346 | with at most one parent per message the depth is the maximum chain length from a root, and no walk from a root repeats a message |
| DelegationDepth.FinalizedForest | core/src/memory/delegation-graph-builder.ts:268-346 | the depth of a finalized single-parent graph is the height in nodes of its forest |
| DelegationDepth.CoherentLogIsForest | core/src/memory/delegation-graph-builder.ts:83-171 | a coherent log names at most one parent per message |
| DelegationDepth.FinalizedOrderIrrelevant | core/src/memory/delegation-graph-builder.ts:268-303 | reordering or repeating a coherent log leaves root set, leaf set and depth unchanged |
| DelegationDepth.SameContentSameOutcome | core/src/memory/delegation-graph-builder.ts:268-346 | coherent logs of the same messages under the same parents finalize to the same root set, leaf set and depth |
| DelegationExamples.DepthDependsOnRecordingOrder | core/src/memory/delegation-graph-builder.ts:330-346 | two logs of the same four recordings, one request under two parents: both hierarchies have three nodes on their longest chain, and one graph has depth 3, the other 2 |
| DelegationExamples.DepthOnCycle | core/src/memory/delegation-graph-builder.ts:330-346 | a log that records a request below its own child: the parent edges have a cycle, and depth and longest chain are both 3 |
| DelegationQueries.GetDelegationDescendants | core/src/memory/delegation-graph-builder.ts:416-446 | exactly the recorded nodes reachable over parent edges, each once, without the start, in the order in which the first edge into them is seen from the start on |
| DelegationQueries.GetDelegationAncestors | core/src/memory/delegation-graph-builder.ts:389-413 | the recorded nodes on the chain of first parents, nearest first, until a parent repeats |
| DelegationQueries.AncestorsInOrder | core/src/memory/delegation-graph-builder.ts:389-413 | the ancestors are the recorded nodes of a chain, in its order, that climbs each time to the source of the first edge into the node before and ends where there is none or where it was met before |
| DelegationQueries.ByIdIsLast | core/src/memory/delegation-graph-builder.ts:393 | the node found under an id is the last one listed with it |
| DelegationQueries.AncestorsExact | core/src/memory/delegation-graph-builder.ts:389-413 | with at most one parent per message the ancestors are exactly the recorded proper ancestors |
| DelegationQueries.AncestorsMirrorDescendants | core/src/memory/delegation-graph-builder.ts:389-446 | on acyclic single-parent graphs a is among the ancestors of d exactly when d is among the descendants of a |
| DelegationOrder.DelegationTopologicalOrder | core/src/memory/delegation-graph-builder.ts:449-502 | the order lists exactly the work nodes: first those the walk emits, roots first and in their order, the others in the order in which the last edge into them is followed, parents first; then the rest in node order |
| WalkOrders.ReleaseStep | core/src/memory/delegation-graph-builder.ts:476-494 | taking a node from the queue and appending what it releases keeps that order |
| WalkOrders.DiscoverStep | core/src/memory/delegation-graph-builder.ts:425-443 | taking a node from the queue and appending what it discovers keeps the order of discovery |
| DelegationOrder.OrderIsPermutation | core/src/memory/delegation-graph-builder.ts:449-502 | for a finalized graph the order is a permutation of the work nodes |
| DelegationOrder.NotEmittedIsBlocked | core/src/memory/delegation-graph-builder.ts:476-499 | a work node the walk does not emit lies below a cycle or below a node that has a parent but none recorded |
| DelegationOrder.EmittedNotBlocked | core/src/memory/delegation-graph-builder.ts:476-499 | and what is emitted lies below neither |
| DelegationOrder.EdgeGoesForward | core/src/memory/delegation-graph-builder.ts:449-502 | a parent edge between work nodes goes forward if and only if its parent is not blocked or was recorded first |
| DelegationOrder.RecordedAcyclicIsOrdered | core/src/memory/delegation-graph-builder.ts:449-502 | with acyclic parent edges that all join recorded work nodes every edge goes forward |
| DelegationOrder.LogGraphIsFinalized | core/src/memory/delegation-graph-builder.ts:268-303 | every graph finalized from a log, coherent or not, meets the conditions of these results |
| DelegationExamples.UnrecordedParentBreaksOrder | core/src/memory/delegation-graph-builder.ts:495-499 | a coherent log of two delegations, the lower one recorded first and the upper one under a parent never recorded: its finalized graph is acyclic and has an edge that goes backwards in the order |
| MemoryReplay.ApplyMemoryEntry | core/src/memory/delegation-graph-builder.ts:174-265 | node and edge of an entry; entries without a message id or without the parent they need change nothing |
| MemoryReplay.BuildFromMemoryEntries | core/src/memory/delegation-graph-builder.ts:381-384 | the state of stored entries is their fold |
| MemoryReplay.BuildDelegationGraphFromMemoryEntries | core/src/memory/delegation-graph-builder.ts:369-386 | no graph exactly without entries or without a trace id on the first, otherwise the finalized state of all the entries |
| MemoryReplay.RebuiltGraph | core/src/memory/task-recorder.ts:41-110 | for every history the graph rebuilt from the recorded entries is the graph of its replayable messages, node times aside |
| MemoryReplay.RebuiltNodes | core/src/memory/delegation-graph-builder.ts:174-265 | a message is in the rebuilt graph exactly when some recording of its id has an id and the parent it needs |
| MemoryReplay.SameHistoryRebuilds | core/src/memory/task-recorder.ts:41-110 | when both recorders hear one history in one order, and ids and needed parents are not empty, rebuilding keeps nodes (times aside), edges, roots, leaves and depth |
| MemoryReplay.RebuildIsFaithful | core/src/memory/delegation-graph-builder.ts:349-386 | for two recorders that hear what they hear, in their own orders, the rebuilt graph has the recorded nodes (times aside) if and only if the replayable memory has the content of the graph log; then edges up to agent labels, roots, leaves and depth agree |
| MemoryReplay.LostMessages | core/src/runtime/agent-runtime.ts:299-310 | over any run of runtimes, with any writes failing, a message of the graph is in the rebuilt graph exactly when the memory took it, with its id and needed parent, from some runtime |
| MemoryReplay.ReceivedIsLost | core/src/runtime/agent-runtime.ts:299-310 | one received request is in the graph and not in the rebuilt one |
| MemoryReplay.RuntimeRebuild | core/src/runtime/agent-runtime.ts:394-427 | over any run of runtimes, with any writes failing and swallowed, the rebuilt graph has the recorded nodes if and only if the graph's messages are those that survive and both recorders were told the same parents for requests, and then it has the same hierarchy |
| MemoryReplay.WrittenRebuild | core/src/runtime/agent-runtime.ts:394-427 | when no write fails this is so if and only if every message of the graph survives |
| TraceStore.TraceStore.Record | core/src/routing/trace-store.ts:48-61 | push, drop the oldest beyond the bound, index by id |
| TraceStore.TraceStore.ReplayTraceMessage | core/src/routing/message-bus.ts:271-280 | a known id is not recorded again |
| TraceStore.TraceIsTail | core/src/routing/trace-store.ts:48-61 | a trace list is the last `maxMessagesPerTrace` messages of its trace |
| TraceStore.IndexIsUnbounded | core/src/routing/trace-store.ts:48-66 | the index answers with the last message recorded under an id, whatever has left the lists |
| TraceStore.LastWithIdIsTheMessage | core/src/routing/trace-store.ts:64-66 | with unique ids that is the message itself |
| Mailboxes.Mailbox.Deliver | core/src/routing/message-bus.ts:406-413 | the oldest waiter gets the message, else it is queued last |
| Mailboxes.Mailbox.Wait | core/src/routing/message-bus.ts:243-264 | the oldest queued message at once, else a place behind the other waiters |
| Mailboxes.Mailbox.TimeOut | core/src/routing/message-bus.ts:250-257 | a timeout removes its own waiter and touches nothing else |
| Mailboxes.RunConserves | core/src/routing/message-bus.ts:243-264 | over any run, messages put in are those handed out followed by the queue, in order; queue and waiters are never both occupied; waits are served in order |
| Mailboxes.WaitGetsAtMostOne | core/src/routing/message-bus.ts:243-264 | no wait gets two messages and a timed-out wait gets none |
| Mailboxes.TimeoutsEndWaits | core/src/routing/message-bus.ts:250-257 | only a wait that was started and timed out afterwards is given up, and such a wait is out of the line: it was served or is given up |
| BusMail.KeptMailbox | core/src/routing/message-bus.ts:335-348 | over any run of the bus, merging registrations and other agents' comings and goings included, a kept mailbox goes through exactly the deliveries, waits and timeouts addressed to its agent |
| BusMail.BusConserves | core/src/routing/message-bus.ts:243-264 | over any such run what was delivered to the agent is what its waits were handed followed by what is queued, in order; no wait gets two messages and a timed-out one none |
| Routing.IndexedIsInverse | core/src/routing/message-bus.ts:354-363 | indexing a new agent gives the exact inverse of the registrations with it |
| Routing.UnindexedIsInverse | core/src/routing/message-bus.ts:365-375 | unindexing gives the inverse of the registrations without the agent, with no empty entries |
| Routing.ReindexedIsInverse | core/src/routing/message-bus.ts:327-352 | replacing an agent's capabilities keeps the index the inverse |
| Routing.SortAgents | core/src/routing/router.ts:88-90 | the members of a set, each once, in order |
| Routing.ResolveByCapability | core/src/routing/router.ts:92-112 | mode first picks the least registered agent declaring the capability, mode all picks all of them sorted, and neither only when there is none |
| Routing.ResolveCapabilityQuery | core/src/routing/router.ts:134-157 | the registry agent when registered, else the least declaring agent |
| Routing.ResolveRoute | core/src/routing/router.ts:29-71 | the route of every message kind, direct recipient before capability |
| MessageBuses.MessageBus.Register | core/src/routing/message-bus.ts:87-118 | merge or replace keeps the index the inverse of the registrations; a merge keeps the mailbox with its contents, a replacement gets a fresh one |
| MessageBuses.MessageBus.MergeRegistration | core/src/routing/message-bus.ts:327-352 | handler, capabilities and mailbox are kept unless given anew |
| MessageBuses.MessageBus.Unregister | core/src/routing/message-bus.ts:121-129 | the agent and its index entries go, the others stay |
| MessageBuses.MessageBus.IndexAgent | core/src/routing/message-bus.ts:354-363 | the agent is listed under each of its capabilities |
| MessageBuses.MessageBus.UnindexAgent | core/src/routing/message-bus.ts:365-375 | the agent is delisted and empty entries go |
| MessageBuses.MessageBus.Deliver | core/src/routing/message-bus.ts:377-431 | each registered recipient's mailbox takes the message once, other mailboxes are untouched, unregistered recipients are reported |
| MessageBuses.MessageBus.Send | core/src/routing/message-bus.ts:146-201 | recorded before routing; the recipients satisfy the route; delivery fails exactly for a response to an agent that has left; mailboxes change only on success |
| MessageBuses.MessageBus.WaitForMessage | core/src/routing/message-bus.ts:227-264 | an error without registration or mailbox, else the wait on that mailbox alone |
| MessageBuses.MessageBus.OnWaitTimer | core/src/routing/message-bus.ts:250-257 | the timeout changes the mailboxes by that one step only |
| MessageBuses.RouteIsRegistered | core/src/routing/router.ts:29-112 | only a response can be routed to an agent that is not registered |
| AgentRuntimes.AgentRuntime.Start | core/src/runtime/agent-runtime.ts:102-118 | only a created runtime starts, and it is then registered with its capabilities and a handler |
| AgentRuntimes.AgentRuntime.Stop | core/src/runtime/agent-runtime.ts:121-135 | a running runtime leaves the bus and forgets its waits |
| AgentRuntimes.AgentRuntime.SendTask | core/src/runtime/agent-runtime.ts:140-208 | the wait opens before the send and is dropped exactly when the send fails; a running agent's request is recorded exactly when the bus is open; on success the recipients satisfy the route and only their mailboxes take it |
| AgentRuntimes.AgentRuntime.CreateResponsePromise | core/src/runtime/agent-runtime.ts:359-376 | a new wait with its timer, under its request id |
| AgentRuntimes.AgentRuntime.ResolvePendingResponse | core/src/runtime/agent-runtime.ts:349-357 | the pending wait of the named request is settled and its timer cleared; without one nothing happens |
| AgentRuntimes.AgentRuntime.OnTimer | core/src/runtime/agent-runtime.ts:364-367 | a live timer removes its request and settles its wait as timed out |
| AgentRuntimes.AgentRuntime.CancelResponseWait | core/src/runtime/agent-runtime.ts:378-384 | timer and pending entry go without settling |
| AgentRuntimes.AgentRuntime.ClearPendingResponses | core/src/runtime/agent-runtime.ts:386-391 | all pending waits are forgotten without settling |
| AgentRuntimes.FailedSendUndoesOpen | core/src/runtime/agent-runtime.ts:168-173 | cancelling after a failed send restores timers, and pending requests exactly when the id was not pending before |
| MessagingSystem.StepKeepsOk | core/src/runtime/agent-runtime.ts:349-391 | every send, delivery, timer, cancellation, start, stop and replay keeps the system invariant |
| MessagingSystem.WaitsSettleSafely | core/src/runtime/agent-runtime.ts:349-391 | in every state of every run a wait settles at most once, only with a recorded response naming its request or a timeout, and the waiting agent sent that request |
| MessagingSystem.HandedResponseSettles | core/src/runtime/agent-runtime.ts:349-357 | in every run, handing a response to a running agent with a live wait for the request it names settles that wait with that response |
| MessagingSystem.TimerSettles | core/src/runtime/agent-runtime.ts:364-367 | in every run a live timer settles its wait as timed out and takes its request out of the pending ones; a timer that is not live does nothing |
| MessagingSystem.CancelDrops | core/src/runtime/agent-runtime.ts:378-384 | in every run a cancellation drops the pending wait of its request without settling it |
| MessagingSystem.WaitsEndOnlyThen | core/src/runtime/agent-runtime.ts:349-391 | in every step of every run a wait is dropped only by cancelling it, stopping its agent or failing its own send, and settles only by its own timer or a response to its request handed to its agent |
| MessagingSystem.DeliveriesConserved | core/src/routing/message-bus.ts:377-431 | a routed send adds one delivery for each recipient, handing over takes one away, and nothing else touches them |
| MessagingSystem.RequestIsAnswered | core/src/runtime/agent-runtime.ts:140-208 | in every run, unless the wait of a delivered request times out, is cancelled or its agent stops first, the first response to it that is handed over goes to the requesting agent and settles exactly that wait |
| MessagingSystem.ResponseRoute | core/src/routing/router.ts:114-132 | however small the trace bound, a response is routed to the sender of the message it names, or nowhere when there is none |
| MessagingSystem.ResponsesReachRequesters | core/src/routing/router.ts:114-132 | in every state of every run a response in flight is addressed to the sender of the message it names |
| MessagingSystem.StoppedNeverSettles | core/src/runtime/agent-runtime.ts:121-135 | a stopped agent settles nothing any more |
| MessagingSystem.PendingAtStopIsLost | core/src/runtime/agent-runtime.ts:386-391 | a wait that is live when its agent stops is never settled |
| MessagingSystem.StopLosesWait | core/src/runtime/agent-runtime.ts:121-135 | a run of three actions, under every configuration, in which an agent stops with a live wait |
| Recovery.Normalize | core/src/resilience/recovery-policy.ts:51-68 | at least one try per agent; a total cap only when positive |
| Recovery.SendTaskWithRecovery | core/src/resilience/resilient-send.ts:100-232 | the audit list has the shape of `Audited`, and stands for a walk over chain, candidates and tries that passes no candidate over: lists are the candidates less those tried before, each agent starts with try one, and a failure means the cap was hit or every listed candidate was tried |
| Recovery.TryAgent | core/src/resilience/resilient-send.ts:127-222 | the tries of one candidate: stop on success or cap, go on exactly after a retryable failure with tries left |
| Recovery.TryCandidates | core/src/resilience/resilient-send.ts:126-224 | every candidate of a capability in order, and the failed agents collected are exactly those tried |
| Recovery.RunIsAudited | core/src/resilience/resilient-send.ts:134-218 | attempts are numbered from one within the total cap, tell the answer they got under a capability of the chain, exactly the last attempt of a success is a success and names the selected agent, and with exclusion each agent's tries form one block |
| Recovery.OneBlockPerAgent | core/src/resilience/resilient-send.ts:113-222 | with exclusion and no repeated candidates an agent's tries form one block of at most `maxAttemptsPerAgent` under one capability |
| Recovery.OneBlockPerCapability | core/src/resilience/resilient-send.ts:113-222 | without exclusion the same holds under each capability |
| Recovery.TurnsAreABlock | core/src/resilience/resilient-send.ts:127-222 | between two tries of one candidate lie only tries of it, without gaps |
| Recovery.FailureTriedEveryone | core/src/resilience/resilient-send.ts:113-231 | failing below the cap means every candidate of every capability was tried |
| Recovery.ChainInOrder | core/src/resilience/recovery-policy.ts:94-107 | the chain is the primary capability, the fallbacks of the step and those of the policy, each at its first occurrence, in order |
| Recovery.CandidatesInOrder | core/src/resilience/resilient-send.ts:59-72 | a capability is offered, in order, to the explicit recipient alone, else to the policy's agents, else to those found, and unless the policy says otherwise without those tried for an earlier capability; the attempts walk this list |
| Recovery.ExplicitRecipientOnly | core/src/resilience/resilient-send.ts:65-67 | with an explicit recipient nobody else is ever tried |
| Recovery.RetriesFollowPolicy | core/src/resilience/recovery-policy.ts:70-82 | an attempt is followed by another try of the same candidate if and only if its transport code is listed, or by default one of the five, or its task code is in the list or the list empty, and the policy allows one more try |
| Recovery.GivesUpOnlyThen | core/src/resilience/resilient-send.ts:127-231 | a run gives up only with as many attempts as a positive cap allows, or when every listed candidate of every capability was tried and the last try may not be retried |
| EventBus.InMemoryObservabilityEventBus.StoreAndNotify | server/src/observability/observability-event-bus.ts:147-162 | push, trim to the newest `maxEvents`, call each subscriber whose filter matches |
| EventBus.InMemoryObservabilityEventBus.Publish | server/src/observability/observability-event-bus.ts:70-82 | stores and notifies under the given or the next decimal id; a closed bus refuses |
| EventBus.InMemoryObservabilityEventBus.Record | server/src/observability/observability-event-bus.ts:84-96 | the same without notifying |
| EventBus.InMemoryObservabilityEventBus.Connect | server/src/observability/events-route.ts:99-124 | a lost cursor publishes a resync event first and replays nothing; otherwise the buffer is replayed; the subscription starts after either |
| EventBus.ReachableOk | server/src/observability/observability-event-bus.ts:56-163 | in every reachable state the buffer is the last `maxEvents` of all stored events, numbered in decimal from one |
| EventBus.HasEventExactly | server/src/observability/observability-event-bus.ts:138-140 | an id is known exactly when it is the number of one of the last `maxEvents` events |
| EventBus.ReplayAfterCursor | server/src/observability/observability-event-bus.ts:123-136 | replay from a retained cursor gives the matching events stored after it, in order |
| EventBus.LiveDelivery | server/src/observability/observability-event-bus.ts:153-161 | a subscriber receives exactly the matching events published while subscribed, in order, whatever else happens |
| EventBus.LiveDeliveryExactly | server/src/observability/observability-event-bus.ts:37-55 | of trace `t` a subscriber receives, once and in order, exactly the events published while it is subscribed that are heartbeats, name `t`, or are resyncs without a trace; without a filter all of them |
| EventBus.ReplayExactly | server/src/observability/observability-event-bus.ts:123-136 | replay writes exactly those of the events stored after a retained cursor, once and in order |
| EventBus.ReplayFromStart | server/src/observability/observability-event-bus.ts:123-136 | without a cursor exactly those of the last `maxEvents` events |
| EventBus.LeftReceivesNothing | server/src/observability/observability-event-bus.ts:111-121 | a subscriber that has left receives nothing any more, whatever happens |
| EventBus.ClosedIsSilent | server/src/observability/observability-event-bus.ts:142-145 | a closed bus stays closed, stores nothing and calls no listener |
| EventBus.StepStores | server/src/observability/observability-event-bus.ts:70-96 | each operation on an open bus stores exactly its event under the next number, and tells subscribers exactly when it publishes |
| EventBus.ResumeExactlyOnce | server/src/observability/events-route.ts:99-124 | written on connect plus received afterwards is each later matching event once and in order |
| EventBus.ResumeExactly | server/src/observability/events-route.ts:99-124 | a stream that resumes is written exactly the wanted events after its cursor, and then receives exactly the wanted events published |
| EventBus.StoredIdsDistinct | server/src/observability/observability-event-bus.ts:70-96 | no two stored events share an id |
| EventBus.LostCursorMissesItsResync | server/src/observability/events-route.ts:99-124 | a stream with a lost cursor never gets the resync event published for it |
| EventBus.LostCursorStream | server/src/observability/events-route.ts:99-124 | a bus that keeps one event, two events and the cursor of the first: the resync event is stored and the stream has received nothing |
| MemoryQuery.BuildWhereClause | server/src/storage/sql-utils.ts:73-111 | text and parameters of the fixed column order; for every row the text keeps it if and only if its entry matches the query, before and after rewriting the placeholders |
| MemoryQuery.CompiledQueryMeansQuery | core/src/memory/in-memory-store.ts:10-33 | the SQL condition, NULLs included, and `matchesQuery` on the row's entry are equivalent |
| MemoryQuery.ConditionsMeanQuery | core/src/memory/in-memory-store.ts:10-33 | all conditions of a query are true of a row exactly when its entry matches |
| MemoryQuery.QueryMeans | core/src/memory/in-memory-store.ts:10-33 | an entry matches exactly when every given field is equal and its time comes, code unit by code unit, not before `since` and not after `until` |
| MemoryQuery.WordsOfText | server/src/storage/sql-utils.ts:109-110 | splitting the generated text at its spaces gives back column, operator and placeholder of each condition |
| MemoryQuery.EvaluateConditions | server/src/storage/sql-utils.ts:109-110 | the text has a truth value, true exactly when every condition is true |
| MemoryQuery.PlaceholderIsBound | server/src/storage/sql-utils.ts:80-107 | the placeholder of condition `i`, numbered or positional, is bound to parameter `i` |
| MemoryQuery.RewrittenText | server/src/storage/sql-utils.ts:114-116 | rewriting `$n` to `?` turns the numbered text into the positional text and touches nothing else |

## Left out

- PlanValidation.PlanExecutionBatches: for repeated step ids only the unknown-dependency report and the batch total are stated; plan validation rejects such plans before batching.
- AgentDepths.ComputeAgentDepths: requires that no start reaches a cycle, because exactly otherwise the code does not end.
- DelegationGraph.LogOrderIrrelevant: agent labels on edges are not compared, because they depend on whether the parent was recorded first.
- DagExecutor.ExecuteDagPlan: handlers are functions of step and context; thrown exceptions, callbacks, `mapInput` (its value is not passed to the handler) and custom `reduceOutput` are not modelled.
- MessageBuses.MessageBus.Send: schema validation and handlers invoked during a delivery are not part of the class; handlers that send, respond or stop in between are covered by the interleavings of `MessagingSystem`.
- MessageBuses.MessageBus.Deliver: handlers and the errors they throw are not part of the class.
- BusMail.BusConserves: a replaced or removed registration ends a mailbox, and what it still holds is not followed further.
- AgentRuntimes.AgentRuntime.Start: identity validation before registering is left out.
- AgentRuntimes.AgentRuntime.SendTask: what the caller gets back after the wait is the settled outcome in `MessagingSystem`; persisting the messages is in `MemoryReplay`.
- MessagingSystem.WaitsSettleSafely: message ids are assumed fresh, as UUIDs are; two runtimes under one id are not modelled.
- Recovery.Normalize: its own contract gives the bounds only; what the defaults mean for a run is in `Recovery.RetriesFollowPolicy`, `Recovery.CandidatesInOrder` and `Recovery.GivesUpOnlyThen`.
- Recovery.SendTaskWithRecovery: the answer to each try is arbitrary; backoff sleeps, the separate label of a timed-out try and the final error message are left out.
- EventBus.ResumeExactlyOnce: ids are assigned by the bus; events ingested from another instance, listeners that publish, heartbeats and SSE formatting are left out.
- EventBus.InMemoryObservabilityEventBus.Connect: the synthetic catch-up events of a lost cursor are left out.
- MemoryQuery.BuildWhereClause: ordering, limit and offset of the surrounding statement, payload and metadata parsing, and database collations other than by code unit are left out.
- MemoryReplay.RuntimeRebuild: all runtimes share one graph recorder and one memory; with a recorder for each agent the same results hold of each agent's own events.
- MemoryReplay.RebuildIsFaithful: entries are replayed in recording order; the store's sort by creation time and its limit of 1000 entries are left out.
- Locale collation is an arbitrary total order given to the router.
- Trace summaries, retry policy, pipelines, permissions, link aggregation, timelines, HTTP routes, databases, SDKs and user interfaces are left out: they add only easier members.
