# maars backend core in Dafny

This project models the core of the maars backend: the engine that runs a
plan's atomic tasks, and the pure logic around it. The model covers:

- the three task runners (the task agent's canonical runner, the executor
  package's runner with a separate validator pool, and the workers package's
  mock runner), with their scheduling, retry, rollback, error and stop steps;
- the worker pools: the slot tables of the execution, executor, workers and
  validator packages, and the task agent's counter pool;
- the task-id hierarchy and the dependency-graph utilities: parent, ancestor
  chain and path, natural sort key, graph construction, acyclicity,
  topological generations, transitive reduction, dependency sinking and
  cleaning, and the timetable grid;
- the plan-to-execution builders and the tree-data caches;
- the validators and small transforms: the decompose and atomicity answer
  checks, plan and task id checks, API-configuration resolution,
  `merge_phase_config`, output validation, the plan agent's tool effects,
  artifact resolution against a map-modelled store, and `chunk_string`.

Each runner is a record of its bookkeeping: the chain cache, the task map,
the pending, running and completed sets, failure counts, launched handles and
the reverse-dependency index. Every `await`-delimited piece of a task's
coroutine is one pure step function, and the outcome of an LLM call, a random
draw or a validation is an input of the step. The runners share their
bookkeeping in `Scheduling` and differ in a `Flavor`: whether scheduling is
refused once the run has stopped, and how `_update_task_status` finds the
entry to write. Invariant lemmas (`*KeepsInv`) show that every step keeps each
runner's invariant.

Several source files hold near-copies of one function. One Dafny member
models all of them, and its row cites the copy it follows:

- `backend/shared/graph.py` and `backend/plan/graph.py`;
- the two `task_stages.py` and the two `task_cache.py` files;
- the three `from_plan.py` builders;
- the decompose and atomicity checks in `backend/plan_agent/llm/executor.py`,
  `backend/planner/index.py` and `backend/plan/index.py`;
- the four slot pools.

Where the copies differ, the model takes the difference as a parameter.

## Model

| member | source | states |
|---|---|---|
| TaskIds.ParentId | backend/shared/graph.py:11-15 | an id without `_` has parent `0`; otherwise the parent is a proper prefix followed by `_`, and no `_` follows it in the id |
| TaskIds.AncestorChain | backend/shared/graph.py:18-28 | the chain starts at the parent, ends at `0`, and each entry is the parent of the one before |
| TaskIds.ChainIsDescent | backend/shared/graph.py:18-28 | a non-root id is in the chain exactly when the task lies below it |
| TaskIds.ChainLength | backend/shared/graph.py:18-28 | the chain has one entry per `_` plus one; an id starting `0_` reaches the root one step early |
| TaskIds.PathParts | backend/shared/graph.py:31-42 | the path parts start at `0` and end with the id |
| TaskIds.PathPartsIsReversedChain | backend/shared/graph.py:31-42 | the path parts of a non-root id are its ancestor chain reversed, followed by the id |
| TaskIds.AncestorPath | backend/shared/graph.py:31-42 | the path is empty exactly for the empty id; otherwise it starts with `0` and ends with the id |
| TaskIds.NaturalKey | backend/shared/graph.py:45-48 | the key has one part per segment |
| TaskIds.NaturalOrderExample | backend/shared/graph.py:45-48 | `1 < 1_1 < 1_2 < 1_10` under the key, although `1_10` sorts before `1_2` as text |
| TaskIds.KeyLessStrictTotal | backend/shared/graph.py:45-48 | the key order is irreflexive, total and transitive, so sorting by it is well defined |
| TaskIds.NaturalKeyRoundTrip | backend/shared/graph.py:45-48 | for ids whose numeric segments have no leading zero, printing the key gives the id back |
| TaskIds.InSubtree | backend/tasks/task_stages.py:15-20 | below `0` means a positive decimal without a leading zero; below any other parent means that parent is an ancestor; empty ids belong nowhere |
| Tasks.FindTaskIdx | backend/planner/index.py:81-83 | the first index holding the id, or -1 exactly when no task has it |
| Tasks.ById | backend/shared/graph.py:101 | the map's keys are the ids present, and each key maps to the last task with that id |
| Tasks.UniqueById | backend/tasks/task_stages.py:31 | one task per non-empty id, with distinct ids, covering exactly the ids present |
| Digraph.AddDeps | backend/shared/graph.py:56-62 | one loop step adds exactly the chosen dependencies other than the task itself, as nodes and as edges into the task |
| Digraph.BuildFrom | backend/shared/graph.py:51-63 | the nodes are distinct; the edges are exactly the contributed dependency edges |
| Digraph.BuildDependencyGraph | backend/shared/graph.py:51-63 | an edge `d → t` exists exactly when `d` is a chosen dependency of a chosen task `t` and `d ≠ t`; there are no self-loops; without `ids` the nodes are all the ids present |
| Digraph.GensCharacterised | backend/shared/graph.py:108-112 | the generations partition the nodes into non-empty layers, every edge goes to a later layer, and each node sits right after its latest dependency |
| Digraph.GensNoneIffCycle | backend/shared/graph.py:105-112 | Kahn's layering fails exactly when the remaining nodes carry a cycle |
| Digraph.GenerationsIffAcyclic | backend/shared/graph.py:105-112 | generations exist exactly when the graph is acyclic |
| Digraph.Reduce | backend/shared/graph.py:66-79 | the reduction keeps only edges of the graph, and keeps every edge not implied by another path |
| Digraph.RedundantIffLongPath | backend/planner/visualization/tasks/task_stages.py:14-29 | in an acyclic graph an edge is dropped exactly when a path of two or more edges joins its ends |
| Digraph.ReductionCharacterised | backend/planner/visualization/tasks/task_stages.py:14-29 | the reduction has exactly the reachability of the graph, and no kept edge can be dropped without losing some of it |
| Stages.Normalise | backend/shared/graph.py:97-100 | a task without an id gets its 1-based position as id; other tasks keep id, dependencies and fields |
| Stages.ComputeTaskStages | backend/shared/graph.py:82-119 | empty input gives no stages; the only failure is the cycle error |
| Stages.StagesOkIffAcyclic | backend/shared/graph.py:94-106 | stages exist exactly when the dependency graph of the normalised tasks is acyclic |
| Stages.StagesValue | backend/shared/graph.py:101-119 | the stages are the topological generations, each id replaced by its task and finished for its stage |
| Stages.StagesPartitionIds | backend/shared/graph.py:108-119 | every id of the normalised list is in exactly one stage, once |
| Stages.StagesRespectDependencies | backend/shared/graph.py:101-119 | a task sits in a later stage than every other task it depends on |
| Stages.StagesAreTight | backend/shared/graph.py:101-119 | every task after the first stage has a dependency in the stage right before |
| Stages.StagesContent | backend/shared/graph.py:108-119 | each task records its 1-based stage; without `reduce` it keeps its dependencies, and with `reduce` exactly those that are edges of the transitive reduction |
| Stages.ReducedDependenciesKeepReach | backend/planner/visualization/tasks/task_stages.py:14-29 | with `reduce` the kept dependencies lose no reachability, and none is implied by a longer path |
| Stages.HasCycleInSubsetIff | backend/planner/graph_utils.py:11-25 | the test holds exactly when a cycle runs through the dependency edges among the chosen tasks |
| Stages.NoEdgesNoCycle | backend/planner/graph_utils.py:13-15 | with no chosen id there is no cycle |
| Sink.SubtreeTasks | backend/tasks/task_stages.py:34-37 | the subtree of `p` is exactly the tasks strictly below `p` |
| Sink.LeavesMeaning | backend/tasks/task_stages.py:33-50 | a leaf of `p` is the id of a task below `p` that no task below `p` depends on, and every such id is a leaf |
| Sink.LeavesExist | backend/tasks/task_stages.py:33-50 | a non-empty subtree without a dependency cycle among its tasks has a leaf |
| Sink.SinkDeps | backend/tasks/task_stages.py:52-66 | a dependency list sinks to the union of what each of its dependencies becomes |
| Sink.SinkDependencies | backend/tasks/task_stages.py:23-68 | empty input is returned as is; otherwise one task per id, each with its dependency list sunk and nothing else changed |
| Sink.SinkDepsMeaning | backend/tasks/task_stages.py:55-65 | a non-empty dependency `d` is kept when the task lies below `d` or `d` has no leaves, and is otherwise replaced by exactly the leaves of `d`'s subtree |
| Sink.AncestorDependencyKept | backend/tasks/task_stages.py:58-60 | a dependency on one of the task's own ancestors survives unchanged |
| Sink.SinkDropsEmpty | backend/tasks/task_stages.py:56-57 | no empty dependency survives sinking |
| Sink.SinkKeepsTasks | backend/tasks/task_stages.py:31 | sinking keeps one task per id of the input, with distinct non-empty ids, and keeps each task's other fields |
| Sink.SinkGraph | backend/tasks/task_stages.py:87-92 | the nodes are the ids, and an edge `d → t` exists exactly when `t` lists `d` and `d` names a task, self-dependencies included |
| Sink.ComputeSunkStages | backend/tasks/task_stages.py:71-107 | empty input gives no stages; the only failure is the cycle error |
| Sink.SunkStagesOkIffAcyclic | backend/tasks/task_stages.py:94-95 | stages exist exactly when the sunk dependency graph is acyclic |
| Sink.SelfDependencyFails | backend/tasks/task_stages.py:88-95 | a sunk task that depends on itself makes staging fail |
| Sink.SelfDependencyExample | backend/tasks/task_stages.py:88-95 | the task list `[1 depends on 1]` fails here but stages in the shared staging, which drops self-loops |
| Sink.SunkStagesValue | backend/tasks/task_stages.py:97-107 | the stages are the generations of the sunk graph, cleaned and numbered |
| Sink.SunkStagesNumbered | backend/tasks/task_stages.py:104-107 | stage `k` (from zero) stamps `stage = k + 1` on its tasks |
| Sink.SunkStagesDependOnPrevious | backend/tasks/task_stages.py:103-107 | after cleaning, every dependency of a task in a later stage names a task of the stage right before |
| Sink.SunkStagesPartitionIds | backend/tasks/task_stages.py:97-101 | every task of the sunk list sits in exactly one stage, once |
| Timetable.DeepClone | backend/monitor/timetable.py:10-16 | the clone equals the value |
| Timetable.CleanDeps | backend/monitor/timetable.py:57-65 | the kept dependencies are exactly the stripped forms of the entries that pass the filter |
| Timetable.CleanDependencies | backend/monitor/timetable.py:19-67 | the first stage is unchanged, and every later stage is cleaned against the ids of the stage before it |
| Timetable.CleanDependenciesMeaning | backend/monitor/timetable.py:39-65 | in a later stage a task keeps exactly the stripped ids of previous-stage tasks among its dependencies, none blank, `undefined` or `null`; a task without dependencies keeps none |
| Timetable.CleanDependenciesIdempotent | backend/monitor/timetable.py:19-67 | cleaning cleaned stages changes nothing |
| Timetable.CleanStageKeepsIds | backend/monitor/timetable.py:53-65 | cleaning keeps the ids of a stage |
| Timetable.TreeEntry | backend/monitor/timetable.py:182 | an entry keeps every field of the task and adds `stage`, which defaults to 1 |
| Timetable.TreeData | backend/monitor/timetable.py:179-182 | one entry per staged task, in stage order |
| Timetable.BuildTreeLayout | backend/planner/visualization/timetable.py:8-19 | empty stages give empty tree data; otherwise the tree data of the stages |
| Timetable.TreeDataByStage | backend/planner/visualization/timetable.py:15-18 | the tree data is the first stage's entries followed by the rest's |
| TaskLayout.Select | backend/monitor/timetable.py:98-104 | the selection is exactly the tasks that satisfy the predicate, in order |
| TaskLayout.ColumnsCharacterised | backend/monitor/timetable.py:110-131 | the placement loop puts every unplaced task in exactly one column; each column holds only ready tasks, or, when none is ready, all the unplaced ones |
| TaskLayout.Positions | backend/monitor/timetable.py:158-165 | positions are recorded for exactly the ids placed in earlier columns, each naming an earlier column that holds the id |
| TaskLayout.PositionsAreColumns | backend/monitor/timetable.py:158-165 | with no id in two columns, an id's position is its column |
| TaskLayout.Rightmost | backend/monitor/timetable.py:143-149 | no dependency is placed exactly when there is none; otherwise the chosen dependency is placed, no other sits further right, and it is the first listed in its column |
| TaskLayout.GroupRows | backend/monitor/timetable.py:135-156 | the grouping is a permutation of the column: tasks without a placed non-empty rightmost dependency go to the free list, every other task to the one group keyed by that dependency, keys distinct |
| TaskLayout.OrderedColumnCharacterised | backend/monitor/timetable.py:135-165 | a column's row order is a permutation of it, with the tasks without a placed dependency first |
| TaskLayout.MaxLen | backend/monitor/timetable.py:169-170 | no column is longer than the result, some column is exactly that long, and the result is 0 when there are no columns |
| TaskLayout.DependencyTasksFacts | backend/monitor/timetable.py:98-104 | the tasks laid out in columns are exactly the distinct staged tasks that have dependencies or dependents |
| TaskLayout.BuildTaskLayout | backend/monitor/timetable.py:75-76 | empty input gives an empty grid with `maxRows` and `maxCols` 0, and `maxRows` is 0 only then |
| TaskLayout.LayoutShape | backend/monitor/timetable.py:169-177 | the grid has `maxRows` rows of `maxCols` cells; `maxCols` is the number of columns and `maxRows` the longest column's length, or 1 when every column is shorter; column `c` is filled from the top |
| TaskLayout.LayoutIsolated | backend/monitor/timetable.py:98-104 | the isolated list holds exactly the tasks with neither dependencies nor dependents, and the columns exactly the others |
| TaskLayout.LayoutPlacement | backend/monitor/timetable.py:172-177 | grid column `c` holds exactly the tasks of placement column `c` |
| TaskLayout.LayoutPlacesOnce | backend/monitor/timetable.py:172-177 | no id occupies two cells of the grid |
| TaskCache.ExtractFromTask | backend/tasks/task_cache.py:13-19 | no entry for a missing task or an empty id; otherwise an entry with the task's id and dependencies and nothing else |
| TaskCache.ExtractFromTasks | backend/tasks/task_cache.py:22-33 | one entry per task with a non-empty id, and only those; every entry has a non-empty id |
| TaskCache.ExtractKeepsIds | backend/planner/visualization/tasks/task_cache.py:16-27 | the entries carry exactly the non-empty ids of the tasks, each with the dependencies of a task of that id, and, in the execution cache, a non-empty status |
| TaskCache.UpsertMeaning | backend/tasks/task_cache.py:44-49 | the entry ends up in the cache; an id already present is replaced in place, length kept, other entries unchanged; a new id is appended; distinct ids stay distinct |
| TaskCache.UpsertIdempotent | backend/tasks/task_cache.py:44-49 | upserting the same entry twice is upserting it once |
| TaskCache.AppendPlanCache | backend/tasks/task_cache.py:40-49 | a task without an entry leaves the cache as it is; otherwise the plan gains a list, and other plans' lists are untouched |
| TaskCache.AppendKeepsUnique | backend/tasks/task_cache.py:40-49 | each plan's list keeps distinct ids, and the appended entry can be read back |
| TaskCache.ClearPlanCache | backend/tasks/task_cache.py:52-54 | only the plan's list is removed |
| TaskCache.Merge | backend/tasks/task_cache.py:69 | the merged dictionary has both key sets, the staged entry's value winning |
| TaskCache.EnrichTreeData | backend/tasks/task_cache.py:63-70 | one entry per staged task, in stage order, keeping the staged id, dependencies and fields and adding the fields of the full task of that id that the staged entry lacks |
| TaskCache.EnrichRestores | backend/tasks/task_cache.py:63-70 | enriching a task's own cache entry gives the task back, with the status defaulted to `undone` in the execution cache |
| TaskCache.BuildTreeData | backend/tasks/task_cache.py:73-79 | no tasks give no tree data; the only failure is the cycle error |
| TaskCache.TreeDataIds | backend/tasks/task_cache.py:73-79 | the tree data carries exactly the non-empty ids of the tasks |
| TaskCache.BuildPlannerTreeData | backend/planner/visualization/tasks/task_cache.py:40-49 | no tasks give no tree data; the only failure is the cycle error |
| TaskCache.PlannerTreeDataIds | backend/planner/visualization/tasks/task_cache.py:40-49 | the tree data carries exactly the non-empty ids of the tasks |
| Plans.AtomicTasks | backend/plan_agent/execution_builder.py:11-13 | the atomic tasks are exactly those whose `input` and `output` are both truthy |
| Plans.TaskMap | backend/plan_agent/execution_builder.py:30 | every non-empty id maps to the last task carrying it, and nothing else is mapped |
| Plans.MarkUndoneMeaning | backend/plan_agent/execution_builder.py:81-85 | every task of the execution has status `undone`, and the execution holds exactly the staged ids |
| Plans.FlattenedIds | backend/plan_agent/execution_builder.py:81-84 | stages that partition a set of ids flatten to a list with exactly those ids |
| PlanBuilder.AtomicDescendantsMeaning | backend/plan_agent/execution_builder.py:16-19 | the atomic descendants of `d` are exactly the atomic ids starting with `d` and an underscore |
| PlanBuilder.CollectedMeaning | backend/plan_agent/execution_builder.py:37-48 | the collected dependencies are exactly the non-empty dependencies of the task and of its ancestors present in the plan |
| PlanBuilder.ResolveMeaning | backend/plan_agent/execution_builder.py:50-59 | every resolved dependency is atomic and not the task itself; an atomic collected dependency is kept; a non-atomic one is replaced by all its atomic descendants; nothing else appears |
| PlanBuilder.ResolveDepsForAtomic | backend/plan_agent/execution_builder.py:22-63 | one resolved task per atomic task, in order |
| PlanBuilder.ResolvedTasksFacts | backend/plan_agent/execution_builder.py:61 | a resolved task keeps its id and fields, and its dependencies are sorted, distinct, atomic and exclude itself |
| PlanBuilder.AncestorDependencyInherited | backend/plan_agent/execution_builder.py:42-55 | an atomic dependency of an ancestor becomes a dependency of the atomic task |
| PlanBuilder.BuildExecutionFromPlan | backend/plan_agent/execution_builder.py:66-85 | a plan without atomic tasks gives an empty execution; the only failure is the cycle error |
| PlanBuilder.BuiltExecutionFacts | backend/plan_agent/execution_builder.py:79-85 | every task of the built execution is `undone`, and the execution carries exactly the atomic tasks' ids, an atomic task without an id taking its 1-based position |
| MonitorBuilder.TransitiveAtomic | backend/monitor/from_plan.py:13-31 | the walk marks its start visited, and every atomic id it finds is atomic and reachable from the start through non-atomic plan tasks |
| MonitorBuilder.TransitiveList | backend/monitor/from_plan.py:29-30 | every id found for a list is atomic and reachable from one of its entries |
| MonitorBuilder.CyclicWalkEnds | backend/monitor/from_plan.py:20-22 | two non-atomic tasks depending on each other end the walk with nothing found |
| MonitorBuilder.Candidates | backend/monitor/from_plan.py:46-55 | every candidate is atomic, and every atomic dependency is a candidate |
| MonitorBuilder.Dedup | backend/monitor/from_plan.py:44-55 | the result is distinct and has exactly the ids of the input |
| MonitorBuilder.DedupOrder | backend/monitor/from_plan.py:44-55 | the kept ids are in order of first appearance |
| MonitorBuilder.CleanForAtomic | backend/monitor/from_plan.py:34-57 | one cleaned task per atomic task, in order, ids kept |
| MonitorBuilder.CleanedTaskFacts | backend/monitor/from_plan.py:42-56 | a cleaned task keeps its id and fields; its dependencies are distinct and atomic, include every atomic dependency it had, and are each reachable from one of them |
| MonitorBuilder.CandidatesReach | backend/monitor/from_plan.py:46-55 | every candidate is reachable from a listed dependency |
| MonitorBuilder.BuildExecutionFromPlan | backend/monitor/from_plan.py:60-82 | a plan without atomic tasks gives an empty execution; the only failure is the cycle error |
| MonitorBuilder.BuiltExecutionFacts | backend/monitor/from_plan.py:73-82 | every task of the built execution is `undone`, and it carries exactly the non-empty atomic ids |
| MonitorBuilder.CleanedIds | backend/monitor/from_plan.py:40-57 | cleaning keeps exactly the non-empty atomic ids |
| Decompose.CheckDeps | backend/plan_agent/llm/executor.py:250-260 | a dependency list passes exactly when each entry passes, and then it is the list of those strings |
| Decompose.CheckTask | backend/plan_agent/llm/executor.py:234-260 | an accepted child has the child's non-empty id, new among the ids so far, and lists only dependencies it was given |
| Decompose.CheckChildren | backend/plan_agent/llm/executor.py:233-260 | the accepted children are one per remaining item, each with that item's id and only its dependencies |
| Decompose.ValidateDecompose | backend/plan_agent/llm/executor.py:226-262 | an accepted decomposition has at least one child |
| Decompose.ValidateDecomposeIff | backend/plan_agent/llm/executor.py:226-262 | a decomposition is accepted exactly when it is a dict whose `tasks` is a non-empty list of children, each a dict with a well-formed non-empty id, a non-empty description and a list of string dependencies naming earlier siblings or nothing, and no two children share an id; the same holds for the planner's copy at backend/planner/index.py:241-278, which also allows the parent |
| Decompose.ValidateItemsIff | backend/plan_agent/llm/executor.py:233-262 | for a non-empty list of children, acceptance is the declarative rule |
| Decompose.CheckChildrenIff | backend/plan_agent/llm/executor.py:233-260 | the per-child loop succeeds from position `i` exactly when every later child is well formed and their ids are new |
| Decompose.CheckTaskIff | backend/plan_agent/llm/executor.py:234-260 | one child passes exactly when it is well formed and its id is new |
| Decompose.ChildrenAcyclic | backend/plan_agent/llm/executor.py:260-262 | children that passed the per-child checks never form a cycle, so the final cycle test never refuses |
| Decompose.ParentNotChild | backend/plan_agent/llm/executor.py:242-247 | a well-formed child id differs from its parent's |
| LlmChecks.ValidAtomicityIff | backend/plan_agent/llm/executor.py:217-223 | an answer is valid exactly when it is a dict holding `atomic` that is a bool, 0, 1 (as integer or float), `"true"` or `"false"` |
| LlmChecks.AtomicAnswerAsWritten | backend/plan_agent/llm/executor.py:303 | the answer read as written is the truthiness of `atomic` |
| LlmChecks.FalseStringReadAsAtomic | backend/plan_agent/llm/executor.py:217-223 | the answer `{"atomic": "false"}` is valid and read as atomic |
| LlmChecks.AtomicAnswerMeaning | backend/planner/index.py:231-238 | the corrected reading is atomic exactly for `true`, 1, 1.0 and `"true"` |
| LlmChecks.AtomicReadingsAgreeElsewhere | backend/plan/index.py:368 | the two readings differ only on `"false"` |
| LlmChecks.AssessScore | backend/plan_agent/llm/executor.py:449-453 | the score lies in 0..100 |
| LlmChecks.AssessScoreMeaning | backend/plan/index.py:511-515 | an integer score is clamped to 0..100; a float is truncated toward zero and then clamped; anything else gives 0 |
| LlmChecks.RaiseIfAborted | backend/plan_agent/llm/executor.py:266-269 | the call fails exactly when an abort event is present and set |
| LlmChecks.RecursiveStep | backend/planner/index.py:418-446 | a task is formatted without an atomicity check exactly when the run is not aborted and the depth has reached 5; decomposition happens only below that depth, for a non-atomic answer, one level deeper |
| LlmChecks.LevelsBounded | backend/planner/index.py:421-459 | a chain of decompositions starting at depth `d` goes at most `5 - d` levels deeper |
| LlmChecks.FormatTask | backend/planner/index.py:360-402 | a formatted task has truthy `input` and `output`, and `validation` only when the second answer's `validation` is a non-empty dict; a first answer without truthy `input` and `output` is refused |
| LlmChecks.MergeFormattedMeaning | backend/planner/index.py:425-427 | only the first task with the id changes, gaining the formatted fields over its own; every other task is unchanged |
| LlmChecks.TurnsFromMeaning | backend/plan/index.py:527-528 | without a truthy `planAgentMaxTurns` the budget is 30; a positive integer or a string of digits is used as given; a list or dict cannot be converted |
| LlmChecks.PlanAgentMaxTurnsMeaning | backend/plan/index.py:522-535 | without a truthy `modeConfig` the budget is 30; a dict `agent` section decides it, and a missing one gives 30; the call raises on a truthy non-dict `modeConfig` or `agent` section, on a truthy non-dict `llm` section when the agent section has no truthy `planLlmTemperature`, and when `float()` refuses the temperature chosen (the agent's, else the `llm` section's, else 0.3) |
| LlmChecks.DigitsAreFloat | backend/plan/index.py:534 | a string of digits is accepted by `float()` |
| LlmChecks.RefusedAgentTemperatureRaises | backend/plan/index.py:529-534 | an agent section whose own truthy `planLlmTemperature` is refused by `float()` makes the call raise |
| LlmChecks.AcceptedLlmTemperatureKeepsBudget | backend/plan/index.py:529-534 | with no agent section, a truthy `llm` temperature that `float()` accepts leaves the budget at 30 |
| LlmChecks.TemperatureWordRaises | backend/plan/index.py:529-534 | `{"modeConfig": {"agent": {"planLlmTemperature": "warm"}}}` makes the call raise |
| LlmChecks.TemperatureNumeralAccepted | backend/plan/index.py:529-534 | a temperature `"0.7"` in the `llm` section is accepted and the budget is 30 |
| LlmChecks.NonDictLlmSectionRaises | backend/plan/index.py:525-533 | `{"modeConfig": {"agent": {}, "llm": "x"}}` makes the call raise |
| AgentTools.FindDictIdx | backend/plan_agent/agent_tools.py:25-27 | the index of the first task whose `task_id` equals the id under Python equality, or -1 exactly when there is none |
| AgentTools.FindEquatesNumbers | backend/plan_agent/agent_tools.py:25-27 | a task with id `1` is found by `1.0` and by `True`, and not by `"1"` |
| AgentTools.Siblings | backend/plan_agent/agent_tools.py:311 | the siblings are exactly the other tasks whose id has the same parent, kept in list order as a subsequence of the task list, where a list or dict id without `"_"` has parent `"0"`; the step fails exactly when some other task's id cannot be read by `get_parent_id` |
| AgentTools.ListIdIsSibling | backend/shared/graph.py:11-15 | a task whose id is the list `["x"]` is a sibling of the top-level task `1` |
| AgentTools.GetNextTask | backend/plan_agent/agent_tools.py:304-319 | the tasks are untouched and the run goes on; an empty queue answers with no task; otherwise the head of the queue is popped, and a reply carries it with depth one more than the number of underscores in its id and only siblings whose descriptions can be sliced |
| AgentTools.GetNextTaskRaisesIff | backend/plan_agent/agent_tools.py:306-318 | the step raises exactly on a non-text head id, on another task whose id `get_parent_id` cannot read, or on a task under the same parent whose truthy description is neither text nor a list |
| AgentTools.DrainIsFifo | backend/plan_agent/agent_tools.py:304-307 | `n` calls hand out the first `n` queued ids in order |
| AgentTools.WithDepsList | backend/plan_agent/agent_tools.py:343-345 | a task whose dependencies are not a list gets an empty list; every other field is kept, and a list is left alone |
| AgentTools.FirstRefused | backend/plan_agent/agent_tools.py:340-342 | the position of the first task without a truthy id and description, every earlier one passing |
| AgentTools.AddFromAppends | backend/plan_agent/agent_tools.py:340-351 | the tasks before the first refused one are stored and queued, in order, and the call errs exactly when one is refused |
| AgentTools.AddTasks | backend/plan_agent/agent_tools.py:335-351 | adding never finishes the plan |
| AgentTools.AddTasksMeaning | backend/plan_agent/agent_tools.py:335-351 | with a parent and a non-empty task list, the tasks before the first refused one are appended to the plan and queued; the call errs exactly when some task is refused, and otherwise reports every id |
| AgentTools.AddTasksNotAtomic | backend/plan_agent/agent_tools.py:340-347 | a batch whose second task lacks a description errs after storing and queueing the first |
| AgentTools.UpdateTask | backend/plan_agent/agent_tools.py:353-367 | an update leaves the queue and the number of tasks as they are |
| AgentTools.UpdateTaskMeaning | backend/plan_agent/agent_tools.py:353-367 | the update succeeds exactly when the id, input and output are truthy and the id is found; otherwise nothing changes; on success only the first task with the id changes, taking the input, the output and any non-null validation |
| AgentTools.WithResultMeaning | backend/plan_agent/agent_tools.py:363-366 | the updated task takes the new input and output, takes the validation only when it is not null, and keeps every other field |
| AgentTools.ExecuteTool | backend/plan_agent/agent_tools.py:295-298 | unreadable arguments give an error and change nothing; the tools that call the language model are exactly the ones left to the caller |
| AgentTools.GetPlan | backend/plan_agent/agent_tools.py:321-333 | the plan is unchanged; the call raises exactly when some task's truthy description is neither text nor a list, and otherwise reports the task and queue counts |
| AgentTools.FinishOnlyByFinishPlan | backend/plan_agent/agent_tools.py:369-435 | only `FinishPlan` ends the run, and it changes nothing; an unknown tool name gives an error and changes nothing |
| Chunks.ChunkString | backend/shared/utils.py:4-7 | a zero size fails, and a negative size gives nothing |
| Chunks.PiecesRoundTrip | backend/shared/utils.py:6-7 | the pieces concatenate back to the string |
| Chunks.PiecesBounds | backend/shared/utils.py:6-7 | every piece is non-empty and at most `size` long, and all but the last are exactly `size` long |
| Chunks.PiecesCount | backend/shared/utils.py:6 | there are `ceil(len / size)` pieces |
| Chunks.ChunkStringMeaning | backend/shared/utils.py:4-7 | for a positive size the chunking succeeds, concatenates back, has `ceil(len / size)` pieces, each non-empty and at most `size` long |
| OutputValidation.Checks | backend/executor/validation.py:20-51 | there are exactly three checks |
| OutputValidation.ValidateTaskOutput | backend/executor/validation.py:10-58 | the check fails exactly when the spec names a format that is not text; the report starts with the task's heading |
| OutputValidation.ValidateTaskOutputMeaning | backend/executor/validation.py:10-58 | the output passes exactly when the format check and the completeness check pass, and the report ends with the matching verdict line |
| OutputValidation.JsonFormatCheck | backend/executor/validation.py:23-33 | under a JSON format a dict passes, and a string passes exactly when it parses |
| OutputValidation.OtherFormatCheck | backend/executor/validation.py:34-40 | under any other format the content passes exactly when it is present and, if text, not blank |
| OutputValidation.CompletenessCheck | backend/executor/validation.py:42-47 | a dict is complete exactly when non-empty; anything else exactly when present and, if text, not blank |
| DbConfig.ValidatePlanIdIff | backend/db/__init__.py:23-28 | a plan id is accepted exactly when it is a non-empty string without `..`, `/` or `\` |
| DbConfig.TrailingNewlineAccepted | backend/db/__init__.py:37 | the check as written accepts the task id `"1\n"` |
| DbConfig.ValidateTaskIdIff | backend/db/__init__.py:31-38 | the corrected check accepts a task id exactly when it is a non-empty string of ASCII letters, digits and underscores |
| DbConfig.TaskIdChecksDiffer | backend/db/__init__.py:37 | every id the corrected check accepts passes the check as written, and the two differ only on ids ending in a newline |
| DbConfig.ModeFlagsRoundTrip | backend/db/__init__.py:174-180 | the three modes map to flags and back; flags map to a mode and back, an agent flag being dropped under mock; the two flags are never both set |
| DbConfig.ResolvedMode | backend/db/__init__.py:187-192 | the chosen mode is always truthy |
| DbConfig.LegacyFlagsDecide | backend/db/__init__.py:188-192 | without a mode name, a truthy `useMock` selects `mock`, a falsy one with an agent flag selects `llm-agent`, and no legacy flag at all selects `mock` |
| DbConfig.ResolvedBase | backend/db/__init__.py:195-201 | a chosen preset's settings without `label` form the base, failing when the preset is not a dict; otherwise the raw settings without the selection keys, failing only when `current` is an unhashable truthy value and `presets` a dict |
| DbConfig.ResolveApiConfig | backend/db/__init__.py:183-186 | empty settings resolve to empty settings |
| DbConfig.ResolveApiConfigMeaning | backend/db/__init__.py:183-212 | the resolved settings carry the flags of the chosen mode, never both set, `modeConfig` defaulted to an empty dict, and otherwise the base's settings |
| DbConfig.WithFlagsMeaning | backend/db/__init__.py:202-212 | the resolved settings carry the two mode flags and the mode configuration given, and every setting other than those and the temperature comes from the base |
| PhaseConfig.Canonical | backend/shared/llm_client.py:31 | `base_url` and `api_key` become `baseUrl` and `apiKey`; every other key stays |
| PhaseConfig.OverrideFor | backend/shared/llm_client.py:30-33 | a chosen override is neither null nor empty, and every key an applicable override lands on has one |
| PhaseConfig.BaseSettings | backend/shared/llm_client.py:25-29 | the base has exactly `baseUrl`, `apiKey` and `model` |
| PhaseConfig.Overlay | backend/shared/llm_client.py:30-33 | the overlay has the base's keys plus those the applicable overrides land on |
| PhaseConfig.MergePhaseConfig | backend/shared/llm_client.py:15-37 | the merge fails exactly when a truthy `phases` is not a dict |
| PhaseConfig.NonDictPhaseKeepsConfig | backend/shared/llm_client.py:21-37 | a phase entry that is not a dict leaves the configuration as it is |
| PhaseConfig.MergedShape | backend/shared/llm_client.py:24-36 | a dict phase entry gives the three base keys plus the overridden ones, a truthy model, and no snake_case key |
| PhaseConfig.MergedValues | backend/shared/llm_client.py:25-35 | each merged value is the phase's applicable override, or else the global setting, and the model falls back to `gemini-2.5-flash` |
| PhaseConfig.EmptyOverrideIgnored | backend/shared/llm_client.py:32 | a null or empty override changes nothing |
| Artifacts.GetTaskArtifact | backend/db/__init__.py:68-82 | a read succeeds only for a valid task id, and a found artifact is the stored non-null value |
| Artifacts.ToSave | backend/db/__init__.py:89-90 | what is written is a dict |
| Artifacts.SaveTaskArtifact | backend/db/__init__.py:85-99 | a save fails exactly when the plan id or the task id is refused; otherwise only the task's artifact changes |
| Artifacts.SaveThenGet | backend/db/__init__.py:68-99 | reading a saved artifact back gives it, a string wrapped as `content`, and other tasks' artifacts read as before |
| Artifacts.EntryOf | backend/task_agent/artifact_resolver.py:37-43 | a dependency counts only when it names a known task whose output names a truthy artifact |
| Artifacts.Absorb | backend/task_agent/artifact_resolver.py:44-48 | a skipped dependency changes nothing; a ready artifact is recorded under its name; a missing one is added to the missing list |
| Artifacts.Entries | backend/task_agent/artifact_resolver.py:36-48 | one entry per dependency, in order |
| Artifacts.ResolveStrict | backend/task_agent/artifact_resolver.py:19-56 | no dependencies give no artifacts; a missing-artifact error names the task (or `?`) and at least one missing input |
| Artifacts.ResolveLenient | backend/execution/execution/artifact_resolver.py:10-36 | no dependencies give no artifacts |
| Artifacts.FoldHasReady | backend/task_agent/artifact_resolver.py:44-46 | every ready artifact's name is in the result |
| Artifacts.FoldLastWins | backend/task_agent/artifact_resolver.py:46 | each name holds the value of the last ready artifact with that name |
| Artifacts.FoldMissing | backend/task_agent/artifact_resolver.py:47-48 | the missing list is exactly the named inputs that are not ready, in order |
| Artifacts.LenientMeaning | backend/execution/execution/artifact_resolver.py:20-36 | the lenient resolver never fails for a missing input; its keys are exactly the artifact names of the ready inputs, each holding the last ready value of that name |
| Artifacts.StrictVersusLenient | backend/task_agent/artifact_resolver.py:50-56 | the strict resolver fails exactly when some named input is missing, listing all of them; otherwise it agrees with the lenient resolver, which never fails for a missing input |
| ChainCache.ExecutionIndex | backend/executor/runner.py:504-508 | every indexed id is the text id of one of the execution's tasks |
| ChainCache.LayoutEntry | backend/executor/runner.py:513-525 | an entry with a text id gives a chain task with that id, a truthy status and exactly the copied fields; a falsy entry or id gives none |
| ChainCache.LayoutChain | backend/executor/runner.py:511-539 | the chain has at most one task per layout entry |
| ChainCache.LayoutChainIds | backend/executor/runner.py:511-539 | a chain built without error lists exactly the layout's ids, in layout order |
| ChainCache.LayoutChainEntries | backend/executor/runner.py:516-524 | every chain task has a truthy status and exactly the copied fields |
| ChainCache.LayoutChainAppend | backend/executor/runner.py:511-539 | building from two lists is building from the first and, when it raised nothing, continuing with the second |
| ChainCache.Iterate | backend/executor/runner.py:512 | a value can be iterated as `x or []` exactly when it is a list, an empty string or an empty dict, and yields the list's items or nothing |
| ChainCache.GridCellsRowMajor | backend/executor/runner.py:511-512 | a grid of lists and falsy rows is read row by row |
| ChainCache.GridChainOrder | backend/executor/runner.py:509-539 | the chain is the grid's cells in row-major order followed by the isolated tasks, and lists their ids in that order |
| ChainCache.GridChainEntries | backend/executor/runner.py:516-538 | every chain task built from a layout has a truthy status and exactly the copied fields |
| SlotPool.IdleSlots | backend/execution/pools.py:14 | `n` idle slots numbered 1 to `n`, none bound |
| SlotPool.Init | backend/execution/pools.py:12-14 | a fresh pool is well formed, binds no task twice, and has every slot idle and unbound |
| SlotPool.FirstIdle | backend/execution/pools.py:25-29 | the first idle slot, or none exactly when no slot is idle |
| SlotPool.Assign | backend/execution/pools.py:31-40 | assignment fails, changing nothing, exactly when no slot is idle; otherwise the first idle slot becomes busy with the task and its number is returned |
| SlotPool.AssignGivesSlot | backend/execution/pools.py:31-40 | a successful assignment answers a number within the capacity whose slot now holds the task, busy, and keeps the number of slots |
| SlotPool.Release | backend/execution/pools.py:42-50 | release answers nothing, changing nothing, exactly when no slot holds the task; otherwise it answers the first such slot's number and frees that slot only when its status allows it |
| SlotPool.SetStatus | backend/execution/pools.py:52-56 | only the numbered slot's status changes, bindings are kept, and an unknown number changes nothing |
| SlotPool.ReleaseAll | backend/executor/runner.py:468-478 | releasing a set of tasks frees, for each of them, the first slot bound to it when that slot's status is releasable, and leaves every other slot as it was, a second slot of the same task included |
| SlotPool.ReleaseAllIsReleases | backend/execution/pools.py:42-50 | whatever the bindings, releasing a set is releasing any one member with `release_by_task_id` and then the rest, so the loop's order does not matter; releasing a one-task set is that one release |
| SlotPool.ReleaseKeepsOthersFirst | backend/execution/pools.py:42-50 | releasing one task leaves every other task's first bound slot where it was |
| SlotPool.ReleaseAllKeepsWellFormed | backend/execution/pools.py:42-50 | releasing keeps the pool's shape |
| SlotPool.ReleaseAllFrees | backend/execution/pools.py:42-50 | after releasing a set, each member's first bound slot is idle and unbound when its status was releasable, its other slots are untouched, and when no task held two slots no member is left on a releasable slot |
| SlotPool.ReleaseAllSecondSlotStays | backend/execution/pools.py:42-50 | with two slots busy for one task, releasing it frees the first and leaves the second busy and bound |
| SlotPool.Normalize | backend/execution/pools.py:59-62 | each slot is normalised on its own, in place |
| SlotPool.GetStats | backend/execution/pools.py:58-70 | the counts total the capacity, a three-state pool reports no validating slot, and a pool whose counts do not add up is re-initialised and reported all idle |
| SlotPool.CountsCoverRecognised | backend/execution/pools.py:63-67 | when every status is recognised the per-status counts add up to the number of slots |
| SlotPool.OperationsKeepWellFormed | backend/execution/pools.py:12-70 | every operation keeps one slot per unit of capacity, numbered from 1 |
| SlotPool.StatsKeepBindings | backend/execution/pools.py:58-62 | reading the statistics leaves every slot with a recognised status as it was |
| SlotPool.OperationsKeepUnique | backend/execution/pools.py:31-56 | no operation binds a task to two slots, given it is not assigned while already bound |
| SlotPool.ReleaseIdempotent | backend/execution/pools.py:42-50 | a release that freed the task's slot leaves it unbound, and a second release changes nothing |
| SlotPool.ReleaseFrees | backend/execution/pools.py:42-50 | when the task's slots are all releasable, release leaves it unbound |
| SlotPool.ReleaseSole | backend/execution/pools.py:42-50 | when exactly one slot holds the task, release frees that slot if its status allows it and otherwise changes nothing |
| SlotPool.FailThenRelease | backend/executor/runner.py:402-414 | marking a task's slot failed and then releasing it leaves the slot idle and the task unbound |
| SlotPool.ValidatingReleaseDiffers | backend/workers/__init__.py:42-50 | a slot left `validating` stays held when released in a three-state pool and is freed in a four-state one |
| CounterPool.Initialize | backend/task_agent/pools.py:14-19 | a reset pool holds nothing, and its capacity is the given maximum clamped to at least 1 |
| CounterPool.Assign | backend/task_agent/pools.py:22-29 | assignment fails, changing nothing, exactly at capacity; otherwise one more slot is in use and the task is tracked as busy |
| CounterPool.Release | backend/task_agent/pools.py:32-39 | release succeeds exactly for a tracked task, untracking it and freeing one slot; otherwise nothing changes |
| CounterPool.ReleaseAll | backend/task_agent/runner.py:506-515 | releasing a set untracks its members and frees one slot per tracked member |
| CounterPool.ReleaseAllStep | backend/task_agent/pools.py:32-39 | releasing a set is releasing one member and then the rest |
| CounterPool.SetTaskStatus | backend/task_agent/pools.py:42-45 | only a tracked task's status changes |
| CounterPool.GetStats | backend/task_agent/pools.py:48-56 | busy and validating together never exceed the tracked tasks, the maximum is the capacity, and with every task busy all are counted busy |
| CounterPool.OperationsKeepInv | backend/task_agent/pools.py:14-45 | every operation keeps the slots in use between the number of tracked tasks and the capacity |
| CounterPool.AssignKeepsInv | backend/task_agent/pools.py:22-29 | assignment keeps that bound |
| CounterPool.ReleaseAllKeepsInv | backend/task_agent/pools.py:32-39 | releasing a set keeps that bound |
| CounterPool.ExactKept | backend/task_agent/pools.py:14-45 | the slots in use equal the tracked tasks after every operation, provided no tracked task is assigned again |
| CounterPool.DoubleAssignDrifts | backend/task_agent/pools.py:27-28 | assigning one task twice uses two slots but tracks one task |
| Scheduling.LastIdx | backend/task_agent/runner.py:164-165 | the last chain entry with the id, or none exactly when the id is not in the chain |
| Scheduling.TaskOf | backend/task_agent/runner.py:165 | the task the map holds for a known id has that id |
| Scheduling.WriteStatus | backend/task_agent/runner.py:465-470 | a status write keeps the chain's length and changes only the status of the entries the variant's write reaches |
| Scheduling.ResetAll | backend/task_agent/runner.py:187-189 | every entry gets the status and nothing else changes |
| Scheduling.TaskDict | backend/workers/runner.py:383-398 | the dictionary form of a chain task carries its id, its dependencies and its other fields |
| Scheduling.DepIds | backend/task_agent/runner.py:170 | a dependency list is refused exactly when it is truthy and not a list of strings; otherwise it is the list, or nothing for a falsy value |
| Scheduling.TaskMap | backend/task_agent/runner.py:164-165 | the task map has exactly the chain's ids |
| Scheduling.ReadyIds | backend/task_agent/runner.py:206-214 | the ready ids are exactly the known pending tasks, neither running nor completed, whose dependencies are all completed |
| Scheduling.ScheduleMeaning | backend/task_agent/runner.py:427-445 | scheduling only adds run handles; a stopped run adds none; otherwise every ready candidate gets one and nothing else does |
| Scheduling.BuildIndex | backend/task_agent/runner.py:167-172 | the reverse index has an entry for every chain id |
| Scheduling.DependentsOfMeaning | backend/task_agent/runner.py:169-172 | `t` is listed as a dependent of `d` exactly when some chain entry with id `t` lists `d` |
| Scheduling.BuildIndexEdges | backend/task_agent/runner.py:167-172 | the index has an edge from `d` to `t` exactly when `d` is a chain id and some entry with id `t` lists `d` |
| Scheduling.Downstream | backend/task_agent/runner.py:95-109 | the roots are downstream of themselves |
| Scheduling.CollectDownstream | backend/task_agent/runner.py:95-109 | the walk collects exactly the downstream set |
| Scheduling.DownstreamMeaning | backend/task_agent/runner.py:95-109 | a task is downstream exactly when it is reachable from a root along dependent edges |
| Scheduling.ResetCore | backend/task_agent/runner.py:155-172 | a reset run is running, with every chain id pending, nothing running, completed or launched, no failure counts, and the reverse index of the chain |
| Scheduling.LaunchReady | backend/task_agent/runner.py:216-227 | a task gets a handle exactly when it had one or it is a known pending task, neither running nor completed, whose dependencies have all completed; nothing else changes |
| Scheduling.Begin | backend/task_agent/runner.py:265-267 | the task joins the running set; pending, completed, handles and failures are unchanged; chain entries keep their ids and only entries with the task's id may turn `doing`, and through the task map the task reads back `doing` |
| Scheduling.AbandonMeaning | backend/task_agent/runner.py:255-263 | an abandoned task is completed, neither pending nor running, with its status written; failure counts stay; new handles go only to dependents of the task that became ready |
| Scheduling.WriteKeepsIds | backend/task_agent/runner.py:465-470 | status writes keep every entry's id and dependencies |
| Scheduling.WriteViaMapReads | backend/task_agent/runner.py:465-468 | through the task map, a written id reads back with the new status and every other id as before |
| Scheduling.WriteFirstOnly | backend/workers/runner.py:308-313 | writing to the first entry with an id changes only that entry, and no entry of another id |
| Scheduling.SucceedMeaning | backend/task_agent/runner.py:407-425 | a successful task is completed, neither pending nor running, with no failure count and status `done`; new handles go to the ready candidates: its dependents, tasks without dependencies and every ready task |
| Scheduling.FailuresCount | backend/task_agent/runner.py:316-333 | after `n` failures the count is `n`, and the next failure allows a retry exactly when `n + 1 < maxFailures` |
| Scheduling.RollbackSet | backend/task_agent/runner.py:484-487 | the task and its dependencies are rolled back |
| Scheduling.RollbackSetMeaning | backend/task_agent/runner.py:484-503 | the rolled-back tasks are exactly those reachable along dependent edges from the task or one of its dependencies |
| Scheduling.ResetMembersMeaning | backend/task_agent/runner.py:505-515 | a reset member the chain knows is pending, not running, not completed, has no failure count and no handle, and is ready exactly when its dependencies are completed |
| Scheduling.RollbackMeaning | backend/task_agent/runner.py:481-530 | every rolled-back known member ends pending, not running or completed, without a failure count, `undone`, and gets a handle exactly when the run goes on and its dependencies are completed |
| Scheduling.RollbackLeavesOthers | backend/task_agent/runner.py:505-530 | a task outside the rolled-back set keeps its membership, failure count, handle and status |
| Scheduling.StepsKeepDisjoint | backend/task_agent/runner.py:155-530 | no step makes a task both pending and completed |
| Runner.SetLayout | backend/task_agent/runner.py:532-561 | a running runner refuses the layout and changes nothing; otherwise the layout, the plan id and a new chain are stored and nothing else changes |
| Runner.ResumeMeaning | backend/task_agent/runner.py:174-183 | resuming from a known task resets exactly the task and its downstream tasks to pending and `undone`, clears running tasks, handles and failure counts, and keeps the chain's order and ids |
| Runner.ResumeKeepsDone | backend/task_agent/runner.py:184-186 | an entry outside the reset set is kept, and its id counts as completed exactly when some entry with that id is `done` |
| Runner.FreshStartMeaning | backend/task_agent/runner.py:187-189 | without a known resume task every task is pending and `undone` and nothing is completed |
| Runner.Start | backend/task_agent/runner.py:111-196 | a start is refused, changing only the failure limit, exactly when the run is already going, the chain is empty or there is no layout; otherwise the run is going with a fresh pool, the chain's reverse index, nothing running and a handle for exactly the ready tasks |
| Runner.TryAcquire | backend/task_agent/runner.py:240-263 | a stopped run before any attempt does nothing; the step waits only while running, under 50 attempts and at capacity; it gives up once stopped after an attempt or after 50 attempts |
| Runner.TryAcquireMeaning | backend/task_agent/runner.py:244-266 | a held slot leaves the task running, tracked as busy and `doing`; giving up marks the task `done` and completed without touching the pool |
| Runner.Crash | backend/task_agent/runner.py:447-457 | a crashed task loses its slot and is completed, not running |
| Runner.RollbackStep | backend/task_agent/runner.py:481-519 | the rolled-back tasks the map knows lose their slots, and, with a plan, every rolled-back task's artifact is deleted |
| Runner.FailAttemptMeaning | backend/task_agent/runner.py:316-333 | a failed attempt retries exactly while the earlier failures are below the limit less one, and otherwise rolls back; a retry counts one more failure, frees the slot and leaves the task neither running nor completed, with the failure status |
| Runner.ExecuteWithoutSpec | backend/task_agent/runner.py:270-273 | a task without an output spec crashes: `execution-failed`, completed, slot freed |
| Runner.ExecuteWithSpec | backend/task_agent/runner.py:274-338 | with an output spec the task goes on to validation exactly when an artifact was produced, which is then stored, the task `validating` and its slot too; otherwise it is a failed attempt |
| Runner.MissingInputBlocks | backend/task_agent/runner.py:274-275 | a task whose input artifacts are missing does not reach validation, and stores nothing unless it rolls back |
| Runner.ValidateMeaning | backend/task_agent/runner.py:378-405 | a pass finishes the task, freeing its slot, completed and `done`; a raise crashes it as `execution-failed`; a rejection is a failed attempt with `validation-failed` |
| Runner.RetryTask | backend/task_agent/runner.py:563-589 | a refused retry changes nothing |
| Runner.RetryTaskMeaning | backend/task_agent/runner.py:563-589 | a retry is accepted exactly for a known task of a running run whose status is `execution-failed` or `validation-failed`; the task is then pending, `undone`, without failures or artifact, and is launched exactly when its dependencies are completed |
| Runner.Stop | backend/task_agent/runner.py:591-606 | a stopped run has no handles and nothing running, the launched tasks lose their slots, and pending and completed are kept |
| Runner.Finish | backend/task_agent/runner.py:229-237 | the run keeps waiting exactly while it is going and not every task is completed or some task runs; on return the pool is reset, and a completed run has every task completed and none running |
| Runner.InitialInv | backend/task_agent/runner.py:40-60 | the initial runner satisfies the invariant: no task both pending and completed, the pool's bounds, running tasks holding slots, nothing running when stopped |
| Runner.LayoutKeepsInv | backend/task_agent/runner.py:532-561 | setting a layout keeps the invariant |
| Runner.StartKeepsInv | backend/task_agent/runner.py:111-196 | starting keeps the invariant |
| Runner.StopKeepsInv | backend/task_agent/runner.py:591-606 | stopping and finishing keep the invariant |
| Runner.AcquireKeepsInv | backend/task_agent/runner.py:240-266 | acquiring or giving up keeps the invariant |
| Runner.CrashKeepsInv | backend/task_agent/runner.py:447-457 | a crash keeps the invariant |
| Runner.FailKeepsInv | backend/task_agent/runner.py:316-333 | a failed attempt keeps the invariant |
| Runner.RollbackKeepsInv | backend/task_agent/runner.py:481-530 | a rollback keeps the invariant |
| Runner.ExecuteKeepsInv | backend/task_agent/runner.py:269-338 | execution keeps the invariant |
| Runner.ValidateKeepsInv | backend/task_agent/runner.py:378-405 | validation keeps the invariant |
| Runner.RetryKeepsInv | backend/task_agent/runner.py:563-589 | a retry keeps the invariant |
| SplitRunner.SetLayout | backend/executor/runner.py:493-539 | a running runner refuses the layout and changes nothing; otherwise the layout, the plan id and a new chain are stored and the pools and artifacts are untouched |
| SplitRunner.SetLayoutOrder | backend/executor/runner.py:509-539 | the chain lists the grid's tasks row by row and then the isolated tasks, each with a truthy status |
| SplitRunner.Start | backend/executor/runner.py:98-130 | a start is refused, changing only the failure limit, exactly when the run is already going, the chain is empty or there is no layout |
| SplitRunner.StartMeaning | backend/executor/runner.py:120-165 | a started run has every chain entry `undone` and pending, nothing running or completed, no failure counts, the chain's reverse index, a handle for exactly the ready tasks, and fresh executor and validator pools |
| SplitRunner.TryAcquire | backend/executor/runner.py:200-224 | a stopped run returns before the first attempt; the step waits only while running, under 50 attempts and with no idle executor; it gives up exactly when it was stopped after an attempt or has made 50 attempts |
| SplitRunner.TryAcquireMeaning | backend/executor/runner.py:200-230 | a held executor is the numbered slot, busy with the task, and the task is running and `doing`; giving up marks the task `done` and completed and leaves both pools alone |
| SplitRunner.Crash | backend/executor/runner.py:402-414 | a crashed task is completed, neither running nor pending |
| SplitRunner.CrashMeaning | backend/executor/runner.py:402-414 | a crashed task is `execution-failed`, its failure count is untouched, it alone joins the completed set, and only its dependents are newly launched |
| SplitRunner.RollbackStep | backend/executor/runner.py:443-491 | a rollback deletes no artifact and releases each rolled-back task the map knows once in both pools: its first bound slot is freed when releasable and its other slots are untouched |
| SplitRunner.RollbackStepMeaning | backend/executor/runner.py:468-478 | after a rollback, each rolled-back task the map knows has its first executor and validator slot freed when a release can free it and its other slots untouched; when no task held two slots of a pool, it holds no slot of that pool a release could free |
| SplitRunner.FailExecutionMeaning | backend/executor/runner.py:266-282 | a failed execution retries exactly while the earlier failures are below the limit less one, and otherwise rolls back; a retry counts one more failure and leaves the task neither running nor completed, `execution-failed`; an executor slot bound only to the task ends idle and unbound |
| SplitRunner.ExecuteWithoutSpec | backend/executor/runner.py:226-235 | a task without an output spec crashes as `execution-failed`, completed, with its executor and validator slots released |
| SplitRunner.ExecuteWithSpec | backend/executor/runner.py:236-291 | with an output spec the task goes on exactly when a result was produced and saved; then the output is in the store, the task is `validating`, it is no longer bound to an executor slot when its bindings were unique and busy, and the validator pool is untouched; any other outcome is an execution failure |
| SplitRunner.AcquireValidator | backend/executor/runner.py:284-303 | the step waits exactly while under 50 attempts with no idle validator; after 50 attempts it goes on without one; acquiring changes neither the run nor the executors |
| SplitRunner.ValidateMeaning | backend/executor/runner.py:323-352 | a pass finishes the task, completed, `done`, without failures, its validator released if it held one; a rejection retries exactly while the failures are below the limit less one |
| SplitRunner.FailedValidationFreesSlot | backend/executor/runner.py:336-345 | a rejected task retrying has its validator slot idle and unbound |
| SplitRunner.Stop | backend/executor/runner.py:541-558 | a stopped run has no handles and nothing running, each launched task is released once in both pools (its first bound slot freed when releasable, its other slots untouched), and pending, completed and the chain are kept |
| SplitRunner.Finish | backend/executor/runner.py:191-199 | the run keeps waiting exactly while it is going and not every task is completed or some task runs; on return both pools are fresh, and a completed run has every task completed and none running |
| SplitRunner.InitialInv | backend/executor/runner.py:43-60 | the initial runner satisfies the invariant: no task both pending and completed, both pools well formed and of their kinds, nothing running when stopped |
| SplitRunner.LayoutKeepsInv | backend/executor/runner.py:493-539 | setting a layout keeps the invariant |
| SplitRunner.StartKeepsInv | backend/executor/runner.py:98-165 | starting keeps the invariant |
| SplitRunner.StopKeepsInv | backend/executor/runner.py:541-558 | stopping and finishing keep the invariant |
| SplitRunner.AcquireKeepsInv | backend/executor/runner.py:200-303 | acquiring an executor or a validator keeps the invariant |
| SplitRunner.CrashKeepsInv | backend/executor/runner.py:402-414 | a crash keeps the invariant |
| SplitRunner.RollbackKeepsInv | backend/executor/runner.py:443-491 | a rollback keeps the invariant |
| SplitRunner.FailKeepsInv | backend/executor/runner.py:266-282 | a failure count step with well-formed pools keeps the invariant |
| SplitRunner.FailExecutionKeepsInv | backend/executor/runner.py:266-282 | a failed execution keeps the invariant |
| SplitRunner.ExecuteKeepsInv | backend/executor/runner.py:226-291 | execution keeps the invariant |
| SplitRunner.RejectKeepsInv | backend/executor/runner.py:336-352 | a rejected validation keeps the invariant |
| SplitRunner.ValidateKeepsInv | backend/executor/runner.py:323-380 | validation keeps the invariant |
| MockRunner.FirstIdx | backend/workers/runner.py:308-313 | the status writer finds nothing exactly when no chain entry has the id; otherwise it finds the first entry with that id |
| MockRunner.WriteFirstReads | backend/workers/runner.py:308-313 | after a status write the first entry of the written id reads the new status and every other id's first entry reads as before |
| MockRunner.SetTimetableLayout | backend/workers/runner.py:379-398 | storing a layout replaces only the chain and records whether the layout is non-empty |
| MockRunner.SetTimetableLayoutMeaning | backend/workers/runner.py:384-398 | every chain entry has exactly the keys `task_id`, `dependencies` and `status`, with a truthy status; a grid of list rows read without error gives the ids row by row and then the isolated tasks |
| MockRunner.Start | backend/workers/runner.py:42-50 | a start is refused, changing nothing, exactly when the run is already going, the chain is empty or there is no layout |
| MockRunner.StartMeaning | backend/workers/runner.py:50-114 | a started run has every chain entry `undone` and pending, nothing running or completed, no failure counts, the chain's reverse index, a handle for exactly the ready tasks, and fresh executor and verifier pools |
| MockRunner.TryAcquire | backend/workers/runner.py:123-135 | the step waits exactly while under 50 attempts with no idle executor, whether or not the run is on, and gives up exactly after 50 attempts |
| MockRunner.TryAcquireMeaning | backend/workers/runner.py:123-150 | a held executor is the numbered slot, busy with the task, and the task's first entry is `doing`; giving up completes the task with its first entry `done` and the executors untouched |
| MockRunner.RollbackStep | backend/workers/runner.py:329-377 | a rollback keeps the stored layout and releases each rolled-back task the map knows once in both pools: its first bound slot is freed when releasable and its other slots are untouched |
| MockRunner.RollbackStepMeaning | backend/workers/runner.py:329-377 | every rolled-back task the map knows is pending, not running, completed or counted, its first entry `undone`, relaunched exactly when its dependencies are complete; its first slot in each pool is freed when a release can free it and its other slots untouched, and when no task held two slots of a pool it holds no slot of that pool a release could free |
| MockRunner.FailStepMeaning | backend/workers/runner.py:155-232 | a failed attempt retries exactly while the earlier failures number fewer than two, and otherwise rolls back; a retry counts one more failure and writes the failure status on the first entry, leaving the pools alone |
| MockRunner.ExecuteMeaning | backend/workers/runner.py:147-177 | the task goes on to verification exactly when execution passed, its first entry `verifying`; a failure is a failed attempt with `execution-failed`, after which an executor slot bound only to the task is idle and unbound |
| MockRunner.AcquireVerifier | backend/workers/runner.py:179-200 | the step waits exactly while under 50 attempts with no idle verifier; after 50 attempts it goes on without one; acquiring changes neither the run nor the executors |
| MockRunner.VerifyMeaning | backend/workers/runner.py:203-260 | the task finishes exactly when verification passed: completed, first entry `done`, no failure count, its verifier released if it held one; otherwise it is a failed attempt with `verification-failed` |
| MockRunner.HandleError | backend/workers/runner.py:282-291 | after an uncaught error the task is completed, neither running nor pending |
| MockRunner.HandleErrorMeaning | backend/workers/runner.py:292-298 | after the error handler the task's first entry reads `verifying` and after the delayed write `done`; other tasks' entries are untouched |
| MockRunner.Stop | backend/workers/runner.py:400-421 | a stopped run has no handles, each launched task is released once in both pools (its first bound slot freed when releasable, its other slots untouched), and the rest of the bookkeeping, running tasks included, is kept |
| MockRunner.Finish | backend/workers/runner.py:86-118 | the run keeps waiting, whatever the run flag, exactly while fewer tasks are completed than the chain holds or some task runs; on return both pools are fresh |
| MockRunner.StopKeepsWaiting | backend/workers/runner.py:400-409 | stopping a run with a task still running does not end the wait |
| MockRunner.InitialInv | backend/workers/runner.py:17-32 | the initial runner satisfies the invariant: no task both pending and completed, both pools well formed three-state pools |
| MockRunner.SetupKeepsInv | backend/workers/runner.py:379-421 | setting a layout, starting, stopping and finishing keep the invariant |
| MockRunner.AcquireKeepsInv | backend/workers/runner.py:123-200 | acquiring an executor or a verifier keeps the invariant |
| MockRunner.HandleErrorKeepsInv | backend/workers/runner.py:282-300 | the error handler and its delayed write keep the invariant |
| MockRunner.RollbackKeepsInv | backend/workers/runner.py:329-377 | a rollback keeps the invariant |
| MockRunner.FailStepKeepsInv | backend/workers/runner.py:203-232 | a failed attempt keeps the invariant |
| MockRunner.ExecuteKeepsInv | backend/workers/runner.py:147-177 | execution keeps the invariant |
| MockRunner.VerifyKeepsInv | backend/workers/runner.py:203-260 | verification keeps the invariant |

## Left out

- Concurrency and timing in the runners. The model leaves out asyncio tasks, sleeps and back-off, the polling loop, the worker lock and handle cancellation. Each await-delimited piece is one atomic step, and interleavings are whatever order a caller applies the steps in.
- Socket emits, broadcasts and persistence calls. `save_ai_response`, `save_validation_report` and the emitted events are fire-and-forget output, so no state of the model depends on them.
- External calls. The LLM calls, the agent loops, the task executor's `execute` and the JSON repair parsers are out of scope. Their outcomes are step inputs: a result or none, passed or not, a parsed answer value. The executor package's `execution` module is not part of this model.
- The mock runner's random pass/fail draws. The outcome is a boolean input, and the pass probabilities are not modelled.
- Floating point. A float is a real number: NaN and the infinities are not modelled, and truncation in `int(score)` is exact.
- The temperature `_get_plan_agent_params` returns. The model decides only whether `float()` accepts the chosen temperature, because nothing in the core uses its value.
- LlmChecks.FloatAccepts: Python's `float()` also accepts underscores between digits (`"1_0"`) and non-ASCII digits and spaces. The model refuses those strings, so for them it raises where the source returns.
- File and network I/O in `db`. The artifact store is a map from task id to value. Atomic renames, directory listing and `clear_db` are not modelled.
- The validation report text. The mock report's contents are not modelled; only pass or fail is.
- networkx. Acyclicity, topological generations and transitive reduction are defined directly on finite sets, not by calling the library.
- Non-ASCII text. `str.isdigit`, `str.strip` and `str.upper` are modelled on ASCII only. A Unicode digit or space is treated as any other character.
- Non-list `dependencies` and non-text ids in task records. The `Task` record shared by the planners, the builders, the staging code and the caches holds a text id (a missing `task_id` key reads as the empty id) and a list of text dependencies. So a `dependencies` string, which `list(t.get("dependencies") or [])` would split into one-character ids, and a non-text id are outside what that record can express. When a chain is built from a layout, a truthy `dependencies` value that is not a list of strings, or a task id that is not text, stops the build with an error. The source would store such values and fail, or compare them, only later.
- PlanBuilder.BuildExecutionFromPlan: an atomic task without a `task_id` key raises KeyError in the source (`t["task_id"]` when the atomic id set is built). In the model a missing key reads as the empty id, so that raise is not among the failures stated, which name only the cycle error.
- PlanBuilder.BuiltExecutionFacts: for the same reason, an atomic task without a `task_id` key takes its 1-based position in the model, where the source raises before any execution is built.
- MonitorBuilder.BuildExecutionFromPlan: an atomic task without a `task_id` key raises KeyError in the source (`t["task_id"]` when the atomic id set is built). The model reads the missing key as the empty id, so only the cycle error is stated as a failure.
- MonitorBuilder.BuiltExecutionFacts: for the same reason, an atomic task without a `task_id` key is dropped in the model, where the source raises.
- Stages.StagesValue: a stage is listed in the tasks' input order. networkx lists every generation after the first in discovery order instead: by parent in the previous generation, then by edge order. The members of each stage are the same, and the order inside a stage is not modelled. For tasks `1`, `2`, `3` (depending on `2`) and `4` (depending on `1`), the source gives the second stage as `[4, 3]` and the model as `[3, 4]`.
- Sink.SunkStagesValue: the same difference in the order inside a stage as for Stages.StagesValue. It reaches the tree data and the flattened execution order, whose contents are unaffected.
- TaskIds.KeyLessStrictTotal: Python raises TypeError when a sort compares an integer segment with a text segment at the same position, as for the keys of `"1"` and `"a"`. The model orders numbers before text there instead, so sorting ids such as these does not fail in the model.
- Artifacts.GetTaskArtifact: uses the corrected task-id check of the Findings table. So an id ending in one newline, such as `"1\n"`, is refused here where the source reads the store. The dependency resolvers reading through it (EntryOf, ResolveStrict, ResolveLenient) inherit the difference.
- Artifacts.SaveTaskArtifact: uses the corrected task-id check of the Findings table, so an id ending in one newline is refused here where the source writes it.
- LlmChecks.RecursiveStep: branches on the corrected atomicity reading of the Findings table. So the answer `{"atomic": "false"}` below depth 5 leads to decomposition here, where the source formats the task as atomic.
- Artifacts.DepsOf: a truthy dict under `dependencies` is refused. The source iterates its keys in insertion order, which a map does not keep.
- ChainCache.Iterate: a dict whose only key is the empty string is walked without error by the source, because its one key is falsy and skipped. The model refuses any non-empty dict.
- PhaseConfig.OverrideFor: when a phase entry carries both `base_url` and `baseUrl` (or both `api_key` and `apiKey`), the source keeps whichever key comes later in the dict. Maps have no order, so the model lets the camelCase spelling win.
- LlmChecks.IntOfString: Python's `int()` also accepts underscores between digits. The model refuses them.
- Duplicate task ids in a chain. They are modelled as written, and their effect is not stated as a property. The completed set can then never reach the chain's length, so a run never finishes.

## Findings

| source | as written | input that shows it | evidently intended | confidence | as-written member | corrected member |
|---|---|---|---|---|---|---|
| backend/plan_agent/llm/executor.py:217-223,303 | the atomicity check accepts the string `"false"`, and the answer is then read as `bool(...)`, under which any non-empty string is true | `{"atomic": "false"}` | `"false"` means not atomic, as the accepted spellings suggest | high, not executed | LlmChecks.AtomicAnswerAsWritten, LlmChecks.FalseStringReadAsAtomic | LlmChecks.AtomicAnswer, LlmChecks.AtomicAnswerMeaning |
| backend/db/__init__.py:31-38 | the task-id check uses `re.match` with `^...$`, and `$` also matches before one final newline | `"1\n"` | only letters, digits and underscores, as the error message says | medium, not executed | DbConfig.ValidateTaskIdAsWritten, DbConfig.TrailingNewlineAccepted | DbConfig.ValidateTaskId, DbConfig.ValidateTaskIdIff |
