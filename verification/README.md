# Verified model of the assistant core

A Dafny model of the parts of the core whose correctness is hard to see: the dependency injection
container, the planner's and the lifecycle orchestrator's dependency graphs, the memory store with
its indexes, search and retention, the workflow submission protocol, file actions with rollback, the
logger hierarchy, and the layered configuration merge.

| file | models |
|---|---|
| `StringOrder.dfy`, `Sorting.dfy`, `DependencyGraph.dfy` | shared theory: Python's string order and stable sort; cycles, dependency-respecting orders, the greedy order, the counters of a Kahn sort |
| `Planner.dfy` | `ExecutionGraph`: depth-first cycle check and priority Kahn sort |
| `Lifecycle.dfy`, `LifecycleOrchestrator.dfy`, `LifecycleTheorems.dfy`, `LifecycleReports.dfy` | `LifecycleOrchestrator`: execution order, startup with rollback, shutdown, restart, for every pattern of hook failures |
| `ContainerValidation.dfy`, `ContainerResolver.dfy` | the static validator, and the resolver with its caches and locks serving one request at a time |
| `ContainerTrails.dfy` | what constructions ask of each other: trails, singletons that need each other, and what comes to suspend |
| `ContainerInterleaving.dfy`, `ContainerTheorems.dfy`, `ContainerVerdicts.dfy`, `ContainerAssembly.dfy`, `ContainerTermination.dfy`, `ContainerDeadlock.dfy` | any number of concurrent `resolve` tasks, in every interleaving of their steps |
| `ContainerScheduling.dfy`, `ContainerSuspending.dfy`, `ContainerKnots.dfy`, `ContainerProgress.dfy`, `ContainerScopes.dfy` | the same tasks in the runs that an event loop allows |
| `MemoryIndex.dfy`, `MemoryStore.dfy`, `MemorySearch.dfy`, `MemoryRetention.dfy` | the memory subsystem over its four dictionaries |
| `WorkflowQueue.dfy`, `WorkflowSubmit.dfy`, `WorkflowTheorems.dfy`, `WorkflowOrder.dfy`, `WorkflowStatus.dfy` | the queue, and concurrent `submit` calls, in every interleaving at their awaits |
| `WorkflowLoop.dfy` | the same calls in the runs that an event loop allows |
| `FileRollback.dfy` | the mock file bridge and the write capability as an undo log |
| `Logging.dfy` | loggers and their factory |
| `ConfigMerge.dfy` | the deep merge and the fold over providers |

Objects that the source updates in place are classes whose methods are proved against functions of
the old state; concurrent code is a transition function over events, and its theorems are about the
state `After` every sequence of events. Dictionaries and sets are iterated in an arbitrary order.

An await is a place where control may leave a task, but it does so only if something suspends. What holds
of every interleaving holds of the runs of an event loop in particular; what says that something can go
wrong is about those runs alone (`LoopRun`). In the container a task keeps control until it is finished,
waits for a lock that is held or that others have waited for longer, or calls a coroutine target that
suspends (core/container/resolver.py:71 and 122-123); locks are handed out first come, first served. In
the workflow manager a submission keeps control until it is over or comes to an await that suspends:
an announcement that has a subscriber or middleware, or the dispatch.

## Where the code does not do what one would expect

For each of these one lemma names a case that goes wrong, and another says exactly when it does not.

- Workflow tasks leave the queue first in first out, but they are not always dispatched in that order,
  because `submit` awaits an announcement between dequeuing and dispatching. A case, for every two tasks:
  `DispatchCanOvertake`. Exactly when: if and only if that announcement suspends (`OvertakingExactly`). For one
  dispatch: it is safe if and only if no other submission still announces an earlier task
  (`DispatchKeepsOrder`); for one run: it is in order if and only if no task that was passed over is
  dispatched later (`DispatchOrder`), and where none is dropped, if and only if no dispatch overtakes
  anybody (`DispatchOrderInTheEnd`).
- A cancelled workflow can still complete. A case, for every await of the normal course that suspends:
  `CancelIsOverwritten`. Exactly when: if and only if there is such an await (`OverwritingExactly`). For one
  cancellation: `CancelStaysExactly`, and in terms of the status that the caller sees, `CancelStaysAsSeen`.
- `MemoryStore.update` can rename a record onto another live one and leave stale index entries behind. A
  case: `ClobberingRun`. Exactly when: `OperationExact`. Clearing the store does not help
  (`ClobberedTagStays`); it empties everything exactly if nothing is stale (`ClearedExactly`).
- Requests for two singletons that need each other each raise a circular dependency error alone, but can
  deadlock when they run at once. A case, for every such pair that comes to suspend: `KnotDeadlocks`.
  Exactly when, as long as no constructor raises: `DeadlockExactly`, if and only if there is such a pair; in
  other words, one of the types on the way round asks, before the request that leads on, for something
  behind which a target suspends (`TangleIsPause`). Without a suspending target there is no deadlock,
  whatever goes round and whatever raises (`NothingSuspendsNoDeadlock`), and none between requests for
  interfaces that are not reported as cyclic (`NoDeadlock`).
- A scoped service can be built more than once for one scope, because it is built without a lock. A case,
  for every scoped type that comes to suspend: `ScopedBuiltTwice`. Exactly when: if and only if it does
  (`ScopedTwiceReachable`); for one run, `ScopedTwiceExactly`.
- Enqueuing a task whose id is queued already puts list and dictionary out of step. A case:
  `EnqueuedTwice`. Exactly when: `EnqueueInStep`.
- Merging configuration layers is not associative. A case: `GroupingMatters`. Exactly when:
  `AssociativeExactly`.
- Rolling writes back oldest first does not always restore the files. A case: `OldestFirstFails`. Exactly
  when: `OldestFirstExactly`.

The documentation of `Logger` says that a child inherits its parent's level unless it has one of its
own; the factory gives every logger a level of its own (core/logging/factory.py:60-76), so this never
comes into play for loggers it makes. The model follows the code.

## Model

| member | source | states |
|---|---|---|
| Planner.ValidateNoCycle | core/planner/graph.py:24-41 | the depth-first search accepts a graph exactly when it has no directed cycle, for every graph and every order of the nodes; it terminates |
| Planner.CycleSearch.Visit | core/planner/graph.py:28-37 | a visit finishes the node and leaves the stack as it was, or the graph has a cycle; finished nodes are always listed after their dependencies |
| Planner.CycleSearch.Push | core/planner/graph.py:33 | the stack stays a path of dependencies and the unvisited rest shrinks |
| Planner.CycleSearch.Finish | core/planner/graph.py:36-37 | a node whose dependencies are finished moves from the stack to the finished nodes |
| Planner.Build | core/planner/graph.py:11-22 | the graph of the last task under each id; an error names a real unknown dependency or means a real cycle |
| Planner.TopologicalSort | core/planner/graph.py:43-71 | succeeds exactly when all dependencies are known and there is no cycle, with the greedy plan; the final length check cannot fire |
| Planner.KahnSort | core/planner/graph.py:55-66 | the sort produces the greedy order by (-priority, id), and drains exactly when there is no cycle |
| Planner.CountDependencies | core/planner/graph.py:45-53 | counters and reversed graph agree with the graph, repeated entries counted as often as they occur |
| Planner.PlaceLeast | core/planner/graph.py:60-66 | one round places the least available task and keeps counters and ready list exact |
| Planner.Release | core/planner/graph.py:63-66 | after all dependents are decremented the ready list is again exactly the unplaced tasks with no pending dependency |
| Planner.PlanIsPermutation | core/planner/graph.py:43-71 | with distinct ids a plan is a permutation of the tasks |
| Planner.PlanFollowsDependencies | core/planner/graph.py:55-66 | in a plan each task comes after every task it depends on |
| Planner.PlanByPriority | core/planner/graph.py:59-62 | of two tasks in a plan that could both have been placed where the first one is, the first has the higher priority, or the same priority and the id that comes first in a dictionary |
| StringOrder.LessIsDictionaryOrder | core/planner/graph.py:60 | ids and names are compared by their first differing character, a proper prefix coming first |
| Planner.PlanIgnoresInputOrder | core/planner/graph.py:55-60 | permuting tasks with distinct ids does not change the plan |
| DependencyGraph.GreedyUnique | core/planner/graph.py:55-66 | two greedy orders of one length are equal |
| DependencyGraph.StuckMeansCycle | core/planner/graph.py:68-69 | if nothing is available and nodes are left over, there is a cycle |
| DependencyGraph.OrderMeansAcyclic | core/planner/graph.py:24-41 | a graph all of whose nodes can be listed after their dependencies has no cycle |
| DependencyGraph.FullGreedyIsPermutation | core/planner/graph.py:59-71 | a greedy order of full length lists every node once, after its dependencies |
| LifecycleOrchestrator.LifecycleOrchestrator.BuildExecutionOrder | core/lifecycle/orchestrator.py:24-68 | succeeds exactly when every dependency is registered and there is no cycle, with the greedy order by (priority, name); which error is raised otherwise |
| LifecycleOrchestrator.LifecycleOrchestrator.CountDependencies | core/lifecycle/orchestrator.py:32-41 | exact counters and reversed graph, or an unregistered dependency exists |
| LifecycleOrchestrator.LifecycleOrchestrator.SortComponents | core/lifecycle/orchestrator.py:45-63 | the sort with its list kept sorted at every insertion yields the greedy order, and all components exactly when there is no cycle |
| LifecycleOrchestrator.LifecycleOrchestrator.RunDrill | core/lifecycle/orchestrator.py:70-90 | three hooks in turn up to the first that raises, with the health states on the way; it succeeds exactly if all were called and none raised |
| LifecycleOrchestrator.LifecycleOrchestrator.RunStartupPhase | core/lifecycle/orchestrator.py:98-135 | for every pattern of failures the phase runs through, or breaks at the first critical failure and takes down what it started; without an order nothing happens |
| LifecycleOrchestrator.LifecycleOrchestrator.Rollback | core/lifecycle/orchestrator.py:137-160 | attempts the started components newest first, whatever fails |
| LifecycleOrchestrator.LifecycleOrchestrator.RunShutdownPhase | core/lifecycle/orchestrator.py:168-202 | attempts the enabled components in reverse execution order, or in reverse (priority, name) order if the graph is broken, and reports who stopped and who did not |
| LifecycleOrchestrator.LifecycleOrchestrator.FallbackOrder | core/lifecycle/orchestrator.py:175-176 | all components once, strictly ascending by (priority, name) |
| LifecycleOrchestrator.LifecycleOrchestrator.Boot | core/lifecycle/orchestrator.py:92-93 | startup with the boot hooks and states; its rollback uses the shutdown hooks |
| LifecycleOrchestrator.LifecycleOrchestrator.Start | core/lifecycle/orchestrator.py:95-96 | startup with the start hooks and states; its rollback uses the stop hooks |
| LifecycleOrchestrator.LifecycleOrchestrator.Stop | core/lifecycle/orchestrator.py:162-163 | shutdown phase with the stop hooks and states |
| LifecycleOrchestrator.LifecycleOrchestrator.Shutdown | core/lifecycle/orchestrator.py:165-166 | shutdown phase with the shutdown hooks and states |
| LifecycleOrchestrator.LifecycleOrchestrator.Restart | core/lifecycle/orchestrator.py:204-212 | starts only after a stop without errors, from the state the stop left |
| Lifecycle.ExecutionOrderSound | core/lifecycle/orchestrator.py:24-68 | an execution order lists every component once, after its dependencies |
| Lifecycle.ExecutionOrderUnique | core/lifecycle/orchestrator.py:43-63 | a registry has at most one execution order |
| Lifecycle.OrderByPriority | core/lifecycle/orchestrator.py:43-63 | of two components that could both have been placed where the first one is, the first has the lower priority number, or the same and the name that comes first |
| Lifecycle.AttemptTells | core/lifecycle/orchestrator.py:110-120 | an attempt succeeds if and only if all three hooks were called and none of these calls raised in the history it was made in; otherwise the last call made is the one that raised |
| Lifecycle.AttemptAllTells | core/lifecycle/orchestrator.py:184-200 | of components attempted in turn, those flagged as successes had all hooks called without a failure, each of the others had hooks called up to one that raised |
| LifecycleReports.StartTells | core/lifecycle/orchestrator.py:95-160 | a started component had its three start hooks called, in the starting state, and none raised; the failed component is critical, and the last of its hooks called raised; in a success every enabled component is started or had a hook that raised and is not critical; otherwise the started ones were taken down with the stop hooks, and marked stopped unless one of these raised |
| LifecycleReports.BootTells | core/lifecycle/orchestrator.py:92-160 | the same for the boot hooks and states, taken down with the shutdown hooks |
| LifecycleReports.StopTells | core/lifecycle/orchestrator.py:162-202 | a stopped component had its three stop hooks called and none raised, of one with an error the last hook called raised, and these two are the enabled ones |
| LifecycleReports.ShutdownHooksTell | core/lifecycle/orchestrator.py:165-202 | the same for the shutdown hooks and states |
| LifecycleTheorems.StartFollowsDependencies | core/lifecycle/orchestrator.py:105-135 | every started component comes after each of its enabled dependencies, unless that one failed and is marked so, also after a rollback |
| LifecycleTheorems.RollbackCalls | core/lifecycle/orchestrator.py:122-160 | hooks called: first those of the enabled components up to the culprit, then those of exactly the started ones in exact reverse order, each a nonempty run of its hooks |
| LifecycleTheorems.RollbackCallsNoOther | core/lifecycle/orchestrator.py:106-131 | no hook of a component after the culprit is ever called |
| LifecycleTheorems.RollbackHealth | core/lifecycle/orchestrator.py:118-160 | each started component ends stopped or failed, the culprit failed, everything not reached is untouched |
| LifecycleTheorems.ShutdownAttemptsAll | core/lifecycle/orchestrator.py:184-200 | every enabled component is attempted exactly once, whatever fails |
| LifecycleTheorems.ShutdownPartition | core/lifecycle/orchestrator.py:181-202 | stopped components and error keys partition the enabled ones, in agreement with the health states; success means that all stopped |
| LifecycleTheorems.ShutdownReversesDependencies | core/lifecycle/orchestrator.py:178-190 | on a valid graph each component is attempted before anything it depends on |
| LifecycleTheorems.FallbackByPriority | core/lifecycle/orchestrator.py:175-176 | the fallback order goes by ascending priority number, and by name among equals |
| LifecycleTheorems.FallbackDescends | core/lifecycle/orchestrator.py:172-179 | on a broken graph components of higher priority number are attempted first, among equals those of later name |
| ContainerValidation.Validate | core/container/validation.py:14-27 | one error for each interface that is not accepted, none otherwise |
| ContainerValidation.CyclicExactly | core/container/validation.py:29-80 | the validator reports a cycle exactly when following the requests that a construction would make goes round |
| ContainerVerdicts.VerdictExactly | core/container/validation.py:29-80 | an interface is accepted if and only if it is an instance, or all its parameters are accepted or missing with a default; it is cyclic if and only if the first other parameter is, and missing a dependency if and only if that one is, or it is not registered, or has no target |
| ContainerValidation.ChainIndependent | core/container/validation.py:32-34 | asked along any chain of requests, an interface gets the verdict it gets from the root |
| ContainerValidation.SmallerChain | core/container/validation.py:48-80 | a verdict other than "cyclic" stays the same for every smaller chain |
| ContainerValidation.TrailReturns | core/container/validation.py:32-34 | asking again for an interface of the current chain always ends in a cycle |
| ContainerResolver.Resolver.Resolve | core/container/resolver.py:39-82 | ends as the validator says for the chain, whatever is cached; caches only grow and only hold objects of accepted types; objects are assembled as registered, with shared singletons; a scoped instance that the scope has is the one returned, and a new one is kept; a lock is never requested while held by the same request; terminates on every registry |
| ContainerResolver.Resolver.BuildSingleton | core/container/resolver.py:69-77 | takes a free lock, releases it on success and on failure, and caches the result |
| ContainerResolver.Resolver.Build | core/container/resolver.py:84-125 | the arguments in order, or the first error, in agreement with the validator's walk over the parameters |
| ContainerResolver.Resolver.Argument | core/container/resolver.py:103-120 | a missing dependency is swallowed by a default, a cycle never |
| ContainerResolver.Resolver.ResolveRoot | core/container/container.py:96-105 | root resolution succeeds, reports a cycle, or reports a missing dependency exactly when the validator does; a cached singleton is returned |
| ContainerInterleaving.RunInv | core/container/resolver.py:39-125 | after every interleaving: a lock is held exactly by the task that builds its singleton, which is not cached; stacks are request chains without repetition |
| ContainerInterleaving.StepInv | core/container/resolver.py:66-82 | every step of every task keeps this |
| ContainerTheorems.SingletonsBuiltOnce | core/container/resolver.py:69-77 | in every interleaving, failed attempts included, a singleton is built successfully at most once and every task gets that one instance |
| ContainerTheorems.CachedForGood | core/container/resolver.py:54-57 | a cached singleton stays cached, unchanged, for the rest of the run |
| ContainerAssembly.HandedOutIsAssembled | core/container/resolver.py:101-125 | in every interleaving, whatever constructors raise, an object handed out is the registered instance, or made for its type with one argument for each parameter in order: the default of a parameter that has one, or an object itself handed out for the type of the parameter, the cached one if that is a singleton; different objects have different numbers |
| ContainerAssembly.DefaultsAreForMissing | core/container/resolver.py:112-120 | as long as no constructor raises, a default is used exactly where the validator reports the type of the parameter as missing a dependency |
| ContainerAssembly.FinishedIsHandedOut | core/container/resolver.py:39-82 | what a finished task has returned was handed out for the interface that it requested |
| ContainerTheorems.TargetRaises | core/container/resolver.py:69-82 | a constructor that raises caches and hands out nothing, and the lock is released |
| ContainerTheorems.RaisedIsRaised | core/container/resolver.py:112-125 | what a constructor raises is raised by the whole request, through all nested calls and whatever has defaults, unless it is an error about a missing dependency |
| ContainerTheorems.NeverSwallowed | core/container/resolver.py:112-120 | no error but that about a missing dependency is ever swallowed on the way |
| ContainerVerdicts.RunsEndAsValidated | core/container/resolver.py:39-120 | on every registry and in every interleaving in which no constructor raises, a finished request returned a value, raised a circular dependency or raised a missing one exactly as the validator says for its interface |
| ContainerVerdicts.MissingNeverResolves | core/container/resolver.py:103-120 | whatever constructors raise, nothing is returned for an interface reported as missing a dependency |
| ContainerVerdicts.RunTells | core/container/resolver.py:39-125 | after every interleaving all that is collected, cached or replied agrees with the verdicts |
| ContainerVerdicts.CleanRunsSucceed | core/container/validation.py:14-27 | if the validator finds no error and no constructor raises, every request for a registered interface that finishes has a value |
| ContainerDeadlock.NoDeadlock | core/container/resolver.py:66-77 | if no request is for an interface that the validator reports as cyclic, whatever else is registered and whatever constructors raise, no reachable state of any number of tasks is deadlocked |
| ContainerDeadlock.CleanNeverDeadlocks | core/container/validation.py:14-27 | if `validate` returns no errors, no reachable state is deadlocked |
| ContainerDeadlock.SomeoneAdvances | core/container/resolver.py:70-75 | without a request for a cyclic interface some task can go on as long as one is unfinished |
| ContainerDeadlock.DeadlockIsKnot | core/container/resolver.py:70-75 | following who waits for whom in a deadlock finds two different singletons that need each other |
| ContainerTrails.TangleIsPause | core/container/resolver.py:103-120 | two singletons that need each other come to suspend if and only if a type on the way round asks, before the request that leads on, for something behind which a target suspends |
| ContainerScheduling.RunIdleHung | core/container/resolver.py:66-82 | in every run of the event loop a task that has begun, is not finished and has no control comes to suspend with everything it is at |
| ContainerScheduling.NothingSuspendsNoDeadlock | core/container/resolver.py:122-125 | where no target suspends the event loop never deadlocks, whatever goes round and whatever constructors raise |
| ContainerScheduling.DeadlockIsTangle | core/container/resolver.py:66-77 | a deadlock of the event loop in which no constructor has raised has two singletons that need each other and come to suspend |
| ContainerKnots.KnotDeadlocks | core/container/resolver.py:66-77 | for any two singletons that need each other, through whatever other services, and come to suspend, both verdicts are "cyclic", yet the event loop can come to a deadlock of two requests without any constructor raising |
| ContainerKnots.DeadlockExactly | core/container/resolver.py:66-77 | in the runs of an event loop in which no constructor raises, a deadlock can be reached if and only if two different singletons need each other and come to suspend |
| ContainerKnots.GripDeadlocks | core/container/resolver.py:70-75 | once each of two tasks on its way holds the lock at the other's end, the event loop comes to a deadlock |
| ContainerSuspending.StepLight | core/container/resolver.py:84-125 | until a task first suspends, nothing behind which a target suspends is cached, collected or replied |
| ContainerTermination.StepsBounded | core/container/resolver.py:39-125 | on every registry, cyclic ones included, and in every interleaving a task takes at most as many steps as the work of its request from the root, so no task goes on for ever |
| ContainerTermination.AdvanceWork | core/container/resolver.py:39-125 | every step of a task leaves that task strictly less to do and no other task anything different |
| ContainerProgress.EveryRunCanFinish | core/container/resolver.py:66-77 | without a request for a cyclic interface, or without two singletons that need each other as long as no constructor raises, every interleaving can be continued until all its tasks are finished |
| ContainerProgress.EveryLoopRunCanFinish | core/container/resolver.py:66-77 | every run of the event loop can be continued by it until all tasks are finished, if no request is for a cyclic interface, or nothing suspends, or no constructor raises and no two singletons need each other and come to suspend |
| ContainerScopes.ScopedTwiceExactly | core/container/resolver.py:78-82 | once all tasks of a run without raising constructors are finished, a scoped type that the validator accepts was built more than once for a scope if and only if some task started building it while another task of the scope was at it |
| ContainerScopes.ScopedTwiceReachable | core/container/resolver.py:78-82 | in the runs of an event loop without raising constructors such a type can be built more than once for a scope if and only if building it comes to suspend |
| ContainerScopes.ScopedBuiltTwice | core/container/resolver.py:78-82 | for every such type that comes to suspend a run of two requests in one scope that builds it twice and finishes |
| ContainerScopes.CountsAgree | core/container/resolver.py:58-60 | every start of a scoped build is completed or still at work, and what is completed is cached |
| MemoryIndex.MemoryIndex.Add | core/memory/indexes.py:18-24 | the new value of all four dictionaries |
| MemoryIndex.MemoryIndex.Remove | core/memory/indexes.py:31-48 | the new value of all four dictionaries; empty buckets are dropped |
| MemoryIndex.MemoryIndex.Update | core/memory/indexes.py:26-29 | removes under the old id, then adds |
| MemoryIndex.AddExact | core/memory/indexes.py:18-24 | adding keeps the indexes exact inverse images, without empty buckets, if and only if it overwrites no record found under something the new one is not found under |
| MemoryIndex.RemoveExact | core/memory/indexes.py:31-48 | removing always keeps them exact, repeated tags included |
| MemoryStore.OperationExact | core/memory/store.py:15-64 | one store operation keeps the indexes exact if and only if it is not an update that clobbers another live record |
| MemoryStore.RunExact | core/memory/store.py:15-64 | after every sequence of operations without such an update the indexes are exact |
| MemoryStore.ClobberingRun | core/memory/store.py:21-26 | a run of two additions and one renaming update after which they are not |
| MemoryStore.ClobberedTagStays | core/memory/store.py:61-64 | clearing the store after that run leaves an index entry behind |
| MemoryIndex.ClearedExactly | core/memory/store.py:61-64 | removing record by record empties all four dictionaries if and only if no bucket holds anything stale |
| MemoryIndex.PurgeStep | core/memory/indexes.py:31-48 | removing records one by one amounts to the same in whatever order |
| MemoryStore.ExactKeys | core/memory/indexes.py:66-72 | with exact indexes the keys are the namespaces and tags of live records |
| MemoryStore.MemoryStore.Add | core/memory/store.py:15-19 | refuses a live id, otherwise files the record under its id and changes no other |
| MemoryStore.MemoryStore.Update | core/memory/store.py:21-26 | the fields that are given are taken over, the others stay, the update time is set, and the record is filed under its new id instead of the old one; or an error changes nothing |
| MemoryStore.MemoryStore.Replace | core/memory/store.py:28-33 | files the record instead of the live one of its id, or an error changes nothing |
| MemoryStore.MemoryStore.Delete | core/memory/store.py:35-39 | removes a live record and no other, or an error changes nothing |
| MemoryStore.MemoryStore.List | core/memory/store.py:52-59 | with filters it lists exactly what a scan of all records finds, each once |
| MemoryStore.MemoryStore.Clear | core/memory/store.py:61-64 | removes record by record, stale entries or not; with exact indexes nothing is left |
| MemoryStore.MemoryStore.StatsOf | core/memory/store.py:66-72 | the true numbers of records, distinct namespaces and distinct tags |
| MemorySearch.SearchEngine.Search | core/memory/search.py:37-56 | a limit-long prefix of the ranking by descending score, then ascending update time, of exactly the matches a full scan finds; no omitted match ranks strictly before a returned one; an error exactly for a limit below one |
| MemorySearch.ScoreRecord | core/memory/search.py:9-28 | the accumulated score is the sum of its parts, with one half for each matching metadata value and one for each distinct shared tag |
| MemorySearch.ScoreExactly | core/memory/search.py:9-28 | the score by where the query text occurs, at any position: two points in the title, one in the content, half a point in the namespace and in each metadata value, and one for each tag in common |
| MemorySearch.ContainsExactly | core/memory/search.py:14 | the search for a substring finds one if and only if it is at some position |
| MemorySearch.StripExactly | core/memory/search.py:11 | stripping leaves the part between the white space at both ends, as long as there is any |
| MemorySearch.LowerExactly | core/memory/search.py:11 | lowering keeps the length and changes exactly the capitals A to Z |
| MemorySearch.LargeSearchFindsAll | core/memory/search.py:46-56 | with a limit that is large enough every match is among the results |
| MemorySearch.TitleIsFound | core/memory/search.py:13-15 | a record of the namespace whose title has the query text anywhere, but for case and outer white space, is among the results of every search with room for all records, with a score of at least two |
| MemorySearch.SearchEngine.SearchTags | core/memory/search.py:58-68 | exactly the records that carry all the tags, each update time no later than the one before |
| MemorySearch.SearchEngine.SearchNamespace | core/memory/search.py:70-71 | exactly the records of the namespace |
| MemorySearch.SearchEngine.Recent | core/memory/search.py:73-78 | the limit most recently accessed records in order |
| MemorySearch.SearchEngine.Important | core/memory/search.py:80-85 | the limit most important records, ties by earliest update |
| MemorySearch.PrefixIsBest | core/memory/search.py:55-56 | a prefix of a sorted list leaves out nothing that ranks strictly before something in it |
| MemoryRetention.CandidatesAreRecords | core/memory/retention.py:22-70 | every policy selects records of the list, each at most once, and the one that never forgets selects none |
| MemoryRetention.ThresholdsExact | core/memory/retention.py:37-43 | time-to-live and importance select exactly the records past their threshold |
| MemoryRetention.OverflowIsOldest | core/memory/retention.py:54-60 | least-recently-used selects exactly the overflow, nothing in it accessed later than anything spared |
| MemoryRetention.MemoryManager.Cleanup | core/memory/manager.py:188-193 | an uninterrupted cleanup forgets exactly what the policy selects, every forget succeeds, the indexes stay exact |
| MemoryRetention.MemoryManager.Forget | core/memory/manager.py:97-100 | forgets one record or reports that there is none |
| MemoryRetention.MemoryManager.Recall | core/memory/manager.py:71-75 | replaces the record by one that has the access time and one access more, all its other fields as before; no other record changes |
| MemoryRetention.LruCleanup | core/memory/manager.py:188-193 | leaves min(n, max_records) records, unchanged, and forgets none accessed later than a survivor |
| MemoryRetention.LruCleanupTwice | core/memory/manager.py:188-193 | a second cleanup forgets nothing |
| MemoryRetention.LastAccessedSurvives | core/memory/retention.py:54-60 | the record accessed last survives whenever any record does |
| WorkflowQueue.InMemoryWorkflowQueue.Enqueue | core/workflow/queue.py:17-19 | appends; list and dictionary stay in step exactly when the id is new |
| WorkflowQueue.InMemoryWorkflowQueue.Dequeue | core/workflow/queue.py:21-26 | takes the head, in step with the dictionary |
| WorkflowQueue.InMemoryWorkflowQueue.Remove | core/workflow/queue.py:33-38 | removes all tasks of the id from both |
| WorkflowQueue.WithoutKeepsOrder | core/workflow/queue.py:33-38 | the tasks that stay in the queue keep their order |
| WorkflowQueue.InMemoryWorkflowQueue.Lookup | core/workflow/queue.py:40-41 | a found task is queued; while list and dictionary are in step every queued task is found |
| WorkflowQueue.InMemoryWorkflowQueue.Status | core/workflow/queue.py:43-47 | the lengths of list and dictionary, which are equal while the two are in step |
| WorkflowQueue.EnqueueInStep | core/workflow/queue.py:17-19 | enqueuing keeps the two in step if and only if the id is not queued |
| WorkflowQueue.EnqueuedTwice | core/workflow/queue.py:17-26 | one task enqueued twice: after one dequeue it is queued, and cannot be looked up |
| WorkflowSubmit.RunInv | core/workflow/manager.py:70-121 | after every interleaving, failed publishes and cancelled coroutines included: nothing enqueued is lost or doubled, and the queue holds one task for each submission that waits or gave up waiting |
| WorkflowSubmit.StepInv | core/workflow/manager.py:70-140 | every step keeps this |
| WorkflowTheorems.QueueConserves | core/workflow/manager.py:79-92 | what was enqueued is what was dequeued, in order, followed by the queue; the "queue empty" branch is unreachable |
| WorkflowTheorems.DispatchedAtMostOnce | core/workflow/manager.py:90-96 | no task is dispatched twice, and none that was dropped is dispatched |
| WorkflowTheorems.EveryTaskAccountedFor | core/workflow/manager.py:79-121 | when all submissions are over, every task was dispatched once, or dropped, or is one of those left in the queue by a submission that gave up |
| WorkflowOrder.DispatchKeepsOrder | core/workflow/manager.py:90-96 | after a dispatch only later tasks are dispatched, however the run goes on, if and only if at the dispatch no other submission still announces an earlier task |
| WorkflowOrder.DispatchOrder | core/workflow/manager.py:90-96 | a run dispatches in first-in-first-out order if and only if no task that was passed over, still announced while a later one was dispatched, is dispatched afterwards |
| WorkflowOrder.DispatchOrderInTheEnd | core/workflow/manager.py:90-96 | when all submissions are over and none gave up between taking and dispatching its task, dispatches were in order if and only if no event dispatched a task while an earlier one was announced |
| WorkflowOrder.QuietRunsKeepOrder | core/workflow/manager.py:90-96 | if never two submissions hold undispatched tasks at once, dispatches are in order |
| WorkflowLoop.DispatchCanOvertake | core/workflow/manager.py:90-96 | if announcing a task suspends, a run of the event loop with two submissions that dispatches the second task first |
| WorkflowLoop.OvertakingExactly | core/workflow/manager.py:83-96 | under an event loop dispatches can be out of order if and only if announcing a task suspends |
| WorkflowStatus.StatusTells | core/workflow/manager.py:70-121 | the status of a workflow submitted once and left alone tells how far its submission is |
| WorkflowStatus.HowItGoesOn | core/workflow/manager.py:83-121 | a submission returns a success exactly when the announcement of its end comes back, a failure exactly when that of its failure does, and raises exactly if that one raises or it is cancelled; any other await that raises leads to the announcement of the failure |
| WorkflowStatus.PauseAndContinue | core/workflow/manager.py:129-140 | pausing a workflow and continuing it makes it running, whatever its status was; continuing one that is not paused changes nothing |
| WorkflowStatus.CancelStaysExactly | core/workflow/manager.py:103-127 | for a workflow submitted once, cancelled and not disturbed afterwards: once its submission is over the status is "cancelled" if and only if at the cancellation the submission had returned, was announcing its failure, or was gone |
| WorkflowStatus.CancelStaysAsSeen | core/workflow/manager.py:123-127 | as the caller sees it: the cancellation stays if and only if the status was completed or failed before, unless the submission was gone |
| WorkflowLoop.CancelIsOverwritten | core/workflow/manager.py:84-127 | for every await of the normal course that suspends, a run of the event loop in which a workflow is cancelled there and ends as completed |
| WorkflowLoop.OverwritingExactly | core/workflow/manager.py:84-127 | under an event loop a workflow submitted once can complete after a cancellation if and only if some await of the normal course suspends |
| FileRollback.RollbackUndoes | core/android/capabilities/files.py:64-109 | rolling an action back right after it never raises and restores the files exactly; failed actions change nothing and their rollback is a no-op |
| FileRollback.RunRollsBack | core/android/capabilities/files.py:57-109 | rolling a run of any actions back newest first passes through every earlier state of the files |
| FileRollback.RollbackTwice | core/android/capabilities/files.py:64-109 | rolling a result back twice in a row is the same as once |
| FileRollback.OldestFirstExactly | core/android/capabilities/files.py:81-86 | a run of writes rolled back oldest first restores the files if and only if each path written had its first content again just before its newest write |
| FileRollback.OldestFirstFails | core/android/capabilities/files.py:81-86 | two writes to one file rolled back oldest first leave the first one's content, so they restore the file only if that is what it was |
| FileRollback.MockFileBridge.Execute | core/android/bridge/files.py:23-81 | each write action succeeds exactly under its conditions on arguments and paths, and then has its effect on the files and no other, or raises and changes nothing; the state before is in the result, in an entry that the bridge no longer uses as long as no two paths share one |
| FileRollback.ExecutedDoes | core/android/bridge/files.py:23-81 | a created or written path has the given content, a deleted one is gone, a moved file is at its destination and not at its source, and every other path is as before; when each action succeeds in terms of arguments and paths |
| FileRollback.MockFileBridge.Write | core/android/bridge/files.py:33-44 | copies the entry for the result and changes it in place, under every path that has it |
| FileRollback.MockFileBridge.Move | core/android/bridge/files.py:46-71 | the entry changes its path, nothing else changes |
| FileRollback.MockFileBridge.Delete | core/android/bridge/files.py:73-81 | the entry itself goes into the result |
| FileRollback.MockFileBridge.Create | core/android/bridge/files.py:23-31 | a new entry with the given content under a path that had none |
| FileRollback.MockFileBridge.Restore | core/android/bridge/files.py:84-94 | puts an entry back under its path; two paths come to share it exactly when another path has it already |
| FileRollback.MockFileBridge.RestoreMove | core/android/bridge/files.py:96-106 | moves an entry back, or raises and changes nothing if it is gone |
| FileRollback.FilesWriteCapability.ExecuteAction | core/android/capabilities/base.py:21-53 | never raises; succeeds exactly when the action is possible, and then has its effect on the files; what succeeds supports rollback |
| FileRollback.FilesWriteCapability.Rollback | core/android/capabilities/files.py:64-109 | any result may be rolled back, at any time and again: restores from action and result data, and raises exactly when the file to take away is not there |
| FileRollback.FilesWriteCapability.RunAndRollBack | core/android/capabilities/files.py:57-109 | on the heap, with entries shared between results and bridge and changed in place, a run rolled back newest first raises nothing and leaves the contents as they were |
| Logging.FindParent | core/logging/factory.py:36-45 | the longest proper dotted prefix of the name that has a logger, if there is any |
| Logging.LoggerFactory.Get | core/logging/factory.py:47-79 | the cached logger, or a new one below its nearest existing ancestor; all parent chains stay finite, each parent a proper dotted prefix |
| Logging.LoggerFactory.DefaultSinksOnce | core/logging/factory.py:58-76 | whatever was created in whatever order, the sinks along every parent chain are the default sinks, each once |
| Logging.LoggerFactory.Log | core/logging/logger.py:86-90 | an entry that passes its logger's level reaches each default sink exactly once, in order, whichever sinks raise and whatever the ancestors' levels; any other entry reaches none |
| Logging.LoggerFactory.SetLevel | core/logging/factory.py:81-84 | changes the level of one logger and of no other |
| Logging.Logger.Log | core/logging/logger.py:86-90 | only the effective level of the logger that is called decides; what passes goes, with its level, message and the name of the logger, to every sink along the parent chain |
| Logging.Logger.NearestLevel | core/logging/logger.py:41-48 | the effective level is that of the nearest logger on the way up that has one, or the lowest level if none has |
| Logging.Logger.Dispatch | core/logging/logger.py:56-66 | emits the entry once to every sink along the parent chain, in order, and swallows exactly the errors that are raised |
| Logging.Logger.Child | core/logging/logger.py:146-155 | a child delivers where its parent delivers |
| ConfigMerge.DeepMerge | core/config/loader.py:17-25 | the loop over the override's keys computes the recursive merge, whatever the order of the keys |
| ConfigMerge.MergedLeaf | core/config/loader.py:17-25 | a leaf of the merge is the override's, or the base's where the override has no leaf at or above the path and no dictionary at it |
| ConfigMerge.MergedDict | core/config/loader.py:21-24 | a dictionary of the merge is the override's, or the base's where the override has no leaf at or above the path |
| ConfigMerge.LoadRaw | core/config/loader.py:27-33 | the loop over the providers computes the fold |
| ConfigMerge.LastWriterWins | core/config/loader.py:27-33 | the loaded tree has a leaf at a path exactly when some provider has it and no later one has a leaf at the path or above it, or a dictionary at it |
| ConfigMerge.DictionariesSurvive | core/config/loader.py:27-33 | it has a dictionary at a path exactly when some provider has one and no later one has a leaf at the path or above it |
| ConfigMerge.SameEverywhere | core/config/loader.py:17-25 | leaves and dictionaries at all paths determine a tree, so the two theorems above determine the loaded one |
| ConfigMerge.MergeTwice | core/config/loader.py:17-25 | merging the same override again changes nothing |
| ConfigMerge.ReloadingLastChangesNothing | core/config/loader.py:27-33 | loading the last provider once more changes nothing |
| ConfigMerge.AssociativeExactly | core/config/loader.py:17-25 | three layers may be grouped either way if and only if no path of the first is hidden by a leaf of the second and opened again by a dictionary of the third that does not mention it |
| ConfigMerge.GroupingMatters | core/config/loader.py:17-25 | three layers for which the grouping matters |

## Left out

- Event publishing, log text, timestamps, UUIDs and timeouts: publishes are steps that may fail, times are ordered integers, a timed-out hook is a failed hook.
- Reflection: parameter lists with annotations and defaults are given; a lifecycle hook that an instance lacks counts as called with success.
- Factories that resolve services from their closures: only dependencies declared by parameters are seen, as in the validator itself.
- Re-registering, replacing, evicting and shutting down the container: the registry is fixed during a run.
- ContainerResolver.Resolver.Build: constructors and factories return; those that raise are in the interleaving model only.
- ContainerInterleaving.StepInv: cancellation of a waiting task; and of the interleavings of steps only those of `LoopRun` keep to the wake-up order of asyncio locks.
- ContainerProgress.EveryLoopRunCanFinish: that suspended targets do come back; with bounded steps and no deadlock, an event loop in which they do finishes all tasks.
- ContainerKnots.DeadlockExactly: runs in which constructors raise; a constructor that raises can let a construction get past a parameter that the validator stops at, so a knot is then not the exact condition.
- ContainerScopes.ScopedTwiceReachable: runs in which constructors raise, where a second build may follow a failed one.
- WorkflowStatus.CancelStaysExactly: a submission that is itself cancelled as a coroutine after the cancellation, which leaves the status as it is at that moment.
- FileRollback.OldestFirstExactly: runs of writes, failed ones included; for runs that also create, delete or move files only the newest-first order is treated.
- Planner.Build: tasks are a list; a one-shot iterator, which the source would exhaust in its first comprehension, is not modelled, nor is the recursion limit of Python.
- MemorySearch.ScoreRecord: scores are exact reals (all are multiples of one half); case folding is ASCII.
- MemoryRetention.MemoryManager.Cleanup: uninterrupted only; between two forgets another task could delete a candidate, which makes the cleanup raise.
- Locks of the memory store and of the logger factory: their methods are taken as atomic.
- MemoryStore: values that are not strings in metadata and content are taken as their text.
- WorkflowLoop.OvertakingExactly: whether an await suspends is fixed for each kind of await; an event bus that suspends for some events of a kind only has fewer runs.
- WorkflowSubmit.StepInv: the scheduler's and executor's own work, and what dispatch returns.
- FileRollback.MockFileBridge.Execute: reading and listing files, which change nothing; other capabilities and bridges.
- Logging.LoggerFactory.Log: sinks added later through `add_sink`, and the optional event bus.
- ConfigMerge.LoadRaw: deep copies are values, so aliasing is not modelled; file and environment providers, coercion, and data that is not a dictionary.
- The execution and mutation services, identity, security, plugins, goals, runtime and session registries: straight-line code or a single guarded map.
