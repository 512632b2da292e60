# Initializer task runner and reference-attribute index array

This project models two parts of a search node.

**The initializer task scheduler.** Initializer tasks form a dependency
DAG, and each task is BLOCKED, RUNNING or DONE. A run starts from a root
task. Every poll of the run does one of three things:

- nothing, once the run is finished;
- the one-shot completion action, once the root is DONE;
- otherwise a depth-first readiness walk from the root. The walk uses a
  `checked` set, so a shared dependency is examined only once. Every task
  it finds (BLOCKED, all dependencies DONE) is dispatched to a worker
  executor.

Dispatch marks a task RUNNING and increments the running-task counter. When
the task body returns, its completion runs on the context lane: DONE, one
fewer running task, and another poll.

Modelling choices (module `Initializer`):

- Tasks live in an arena: `deps[t]` lists the dependencies of task `t`, and
  the states are an `array`.
- Acyclicity is a ghost rank that strictly decreases along every edge.
- The lane is sequential, so every lane step is a method call.
- The worker pool is `inFlight`, a map from each submitted task to its run's
  context. `RunInFlight(t)` lets the unit of the caller's choosing finish.
- `ran` is a ghost log of the task bodies that have run to completion.

**The document → reference array of a reference attribute.** `_indices`
holds, for each local document id (lid), the unique-store ref of the
document it refers to, or the invalid ref when it refers to nothing. The
unique store keeps one entry per referenced global id (gid), with a count
of the slots that hold its ref.

Modelling choices (module `Attribute`):

- The store is the map `entries` (ref → gid and count), the map
  `dictionary` (gid → ref) and the next free ref.
- The reverse mapping (ref → lids) is ghost state, from its observable
  calls.
- Every add/remove call is logged in `reverseCalls`.
- The per-ref builder calls of the last `buildReverseMapping` are logged
  in `builtGroups`.
- `Valid()` states three things: the store shape, counts equal to the number
  of slots holding each ref, and a reverse mapping holding exactly the lids
  of every valid ref.

## Model

Paths are relative to the repository root.

| member | source | states |
|---|---|---|
| Initializer.TaskRunner.constructor | searchcore/src/vespa/searchcore/proton/initializer/task_runner.cpp:12-16 | A new runner over a valid graph whose tasks are all BLOCKED has a zero running count, nothing in flight and an empty log. It starts valid. |
| Initializer.TaskRunner.Destroy | searchcore/src/vespa/searchcore/proton/initializer/task_runner.cpp:18-21 | The teardown assertion: with a zero counter, nothing is in flight and no task is RUNNING. |
| Initializer.TaskRunner.CounterCountsRunning | searchcore/src/vespa/searchcore/proton/initializer/task_runner.cpp:52-66 | In every valid state, `_runningTasks` is the number of RUNNING tasks, and it is zero exactly when no task is RUNNING. |
| Initializer.TaskRunner.GetReadyTasks | searchcore/src/vespa/searchcore/proton/initializer/task_runner.cpp:23-49 | The walk changes no task state. From a non-BLOCKED task it adds nothing and checks nothing; a BLOCKED task ends up checked. The ready list only grows. Each addition is distinct, newly checked, BLOCKED and has all dependencies DONE. Every newly checked ready task is added, and the BLOCKED dependencies of every newly checked task are checked. Every newly checked task is reachable from the walk's task through BLOCKED tasks. When no RUNNING task is reachable through BLOCKED tasks, the walk from a BLOCKED root finds at least one task. |
| Initializer.TaskRunner.VisitDep | searchcore/src/vespa/searchcore/proton/initializer/task_runner.cpp:34-45 | One round of the dependency loop. A RUNNING or BLOCKED dependency clears the ready flag, and a BLOCKED one is walked recursively. The packaged walk invariant holds for one more dependency. |
| Initializer.TaskGraph.WalkDone | searchcore/src/vespa/searchcore/proton/initializer/task_runner.cpp:29-48 | After the dependency loop, appending the task exactly when all its dependencies are DONE restores the walk's ready-list and checked-set contract for the caller's inputs. |
| Initializer.TaskGraph.WalkInto | searchcore/src/vespa/searchcore/proton/initializer/task_runner.cpp:34-45 | After the recursive walk into a BLOCKED dependency, the loop invariant holds for one more dependency, with the ready flag cleared. What the inner walk checked stays reachable from the outer task. |
| Initializer.TaskGraph.WithinStep | searchcore/src/vespa/searchcore/proton/initializer/task_runner.cpp:41-43 | What a walk from a dependency of a BLOCKED task checks is reachable from that task through BLOCKED tasks too. |
| Initializer.TaskGraph.ReachClosed | searchcore/src/vespa/searchcore/proton/initializer/task_runner.cpp:26-45 | A checked set closed under BLOCKED dependencies holds every task reachable through BLOCKED tasks from any task it holds. |
| Initializer.TaskGraph.WalkExact | searchcore/src/vespa/searchcore/proton/initializer/task_runner.cpp:23-49 | A whole walk started with nothing checked collects exactly the tasks that are BLOCKED, have all dependencies DONE and are reachable from the root through BLOCKED tasks. This holds in both directions. |
| Initializer.TaskGraph.ReachBelow | searchcore/src/vespa/searchcore/proton/initializer/task_runner.cpp:26-45 | Whatever the states, every task the walk can reach from a task is that task or one of its dependencies, directly or transitively. |
| Initializer.TaskGraph.ClosureKept | searchcore/src/vespa/searchcore/proton/initializer/task_runner.cpp:111-114 | A dispatch found by a walk from the root keeps every task outside the root's dependencies in its state and submits only tasks below the root. |
| Initializer.TaskGraph.ReadyAddedTrans | searchcore/src/vespa/searchcore/proton/initializer/task_runner.cpp:43 | A recursive walk followed by the rest of the loop collects what one walk would: the ready-list contract composes. |
| Initializer.TaskGraph.CheckedAddedTrans | searchcore/src/vespa/searchcore/proton/initializer/task_runner.cpp:29-31 | The checked-set contract composes over a recursive walk. |
| Initializer.NoRunningAnywhereBelow | searchcore/src/vespa/searchcore/proton/initializer/task_runner.cpp:111-114 | With no RUNNING task anywhere, none is reachable from any task. This is the premise of the walk's progress property. |
| Initializer.TaskRunner.SetTaskRunning | searchcore/src/vespa/searchcore/proton/initializer/task_runner.cpp:51-57 | Exactly the task's state becomes RUNNING, and the counter grows by one. |
| Initializer.DispatchKeepsRunnerOk | searchcore/src/vespa/searchcore/proton/initializer/task_runner.cpp:72-77 | Moving a ready task to RUNNING, counting it and putting it in flight keeps the runner invariant: the tasks in flight are exactly the RUNNING ones, each with its dependencies DONE, and the counter is their number. |
| Initializer.TaskRunner.InternalRunTask | searchcore/src/vespa/searchcore/proton/initializer/task_runner.cpp:68-78 | A ready task becomes RUNNING and nothing else changes state. Its work unit joins the in-flight map with its context, and the counter grows by one. The invariant is kept and states only move forward. |
| Initializer.WithRunning | searchcore/src/vespa/searchcore/proton/initializer/task_runner.cpp:84-86 | The state vector after dispatching a list: exactly the listed tasks are RUNNING, and every other task keeps its state. |
| Initializer.Submitted | searchcore/src/vespa/searchcore/proton/initializer/task_runner.cpp:84-86 | The in-flight map after dispatching a list: its keys are the old ones plus the listed tasks, and each listed task maps to the run's context. |
| Initializer.StillReady | searchcore/src/vespa/searchcore/proton/initializer/task_runner.cpp:84-86 | In a duplicate-free ready list, dispatching the earlier entries leaves each later entry BLOCKED with all its dependencies DONE. So each `internalRunTask` of the loop finds its task still ready. |
| Initializer.TaskRunner.InternalRunTasks | searchcore/src/vespa/searchcore/proton/initializer/task_runner.cpp:80-87 | Dispatching a duplicate-free ready list makes exactly the listed tasks RUNNING and submits each of them with the run's context. The counter grows by the list's length and the invariant is kept. |
| Initializer.WithRunningProgressed | searchcore/src/vespa/searchcore/proton/initializer/task_runner.cpp:84-86 | Dispatching BLOCKED tasks only moves states forward. |
| Initializer.SubmittedNonEmpty | searchcore/src/vespa/searchcore/proton/initializer/task_runner.cpp:111-114 | After a submission something is in flight exactly when something was in flight before or the list submitted is non-empty. |
| Initializer.TaskRunner.PollTask | searchcore/src/vespa/searchcore/proton/initializer/task_runner.cpp:100-115 | A finished run changes nothing. For an unfinished run whose root is DONE, the one-shot completion runs: the context is finished, the action has run exactly once, and nothing else changes. Otherwise exactly the ready tasks reachable from the root through BLOCKED tasks are dispatched: they alone become RUNNING, and they alone join the in-flight map, with this run's context. Afterwards the run is finished or some work is in flight. That work may belong to another run, so the run cannot stall only while no other run's work is in flight. |
| Initializer.TaskRunner.ReadyFromRoot | searchcore/src/vespa/searchcore/proton/initializer/task_runner.cpp:111-113 | The walk of one poll changes nothing. Its list has no repetition, and it holds a task if and only if that task is BLOCKED, has all dependencies DONE, is reachable from the root through BLOCKED tasks, and is not in flight. It is non-empty when the root is BLOCKED and no RUNNING task is reachable from it. |
| Initializer.TaskRunner.DispatchReady | searchcore/src/vespa/searchcore/proton/initializer/task_runner.cpp:111-114 | The walk from an unfinished root, then the dispatch of what it found. The dispatched tasks are exactly the BLOCKED tasks with every dependency DONE that are reachable from the root through BLOCKED tasks. They alone become RUNNING and join the in-flight map with this run's context. Afterwards work is in flight. |
| Initializer.Context.SetDone | searchcore/src/vespa/searchcore/proton/initializer/task_runner.cpp:107-109 | Marks the run done and runs the completion action once more. |
| Initializer.DoneKeepsRunnerOk | searchcore/src/vespa/searchcore/proton/initializer/task_runner.cpp:62-64 | Completing a task in flight keeps the runner invariant: the counter was positive, and the finished body is logged once. |
| Initializer.TaskRunner.MarkTaskDone | searchcore/src/vespa/searchcore/proton/initializer/task_runner.cpp:62-64 | A task in flight becomes DONE and every other state is unchanged. It leaves the in-flight map, the counter drops by one, and its body is logged as run. |
| Initializer.TaskRunner.SetTaskDone | searchcore/src/vespa/searchcore/proton/initializer/task_runner.cpp:59-66 | The task becomes DONE and leaves the in-flight map, and its body is logged. Then comes a poll of its run. The tasks dispatched are exactly the ready tasks reachable from the root, judged with the task already DONE. They alone become RUNNING and are submitted with this run's context. The run is finished or has work in flight. The run ends up finished exactly when it was finished before or its root is DONE once the task is. Its completion count rises by one on that transition and is otherwise unchanged. |
| Initializer.TaskRunner.RunInFlight | searchcore/src/vespa/searchcore/proton/initializer/task_runner.cpp:74-77 | The worker finishes one submitted unit: a RUNNING task, which becomes DONE. Then its run's poll dispatches exactly the ready tasks reachable from that run's root, with the task done. The set of unfinished tasks strictly shrinks, so any sequence of such steps ends. The unit's run ends up finished exactly when it was finished before or its root is DONE once the task is. Its completion count rises by one on that transition and is otherwise unchanged. |
| Initializer.TaskRunner.RunTask | searchcore/src/vespa/searchcore/proton/initializer/task_runner.cpp:117-125 | A fresh context for the root and its first poll. The context is finished exactly when the root was already DONE. Otherwise it dispatches exactly the ready tasks reachable from the root through BLOCKED tasks, and work is in flight. Every new unit belongs to this run. |
| Initializer.TaskRunner.RunToCompletion | searchcore/src/vespa/searchcore/proton/initializer/task_runner.cpp:89-98 | A whole run with nothing else in flight, with units finishing in any order. It ends with the root DONE, the completion action run exactly once, nothing in flight and a zero counter. The log of bodies run has no repetition and holds every task the root depends on, directly or transitively, all DONE: each of them ran exactly once. Nothing else is touched: a task outside the root's dependencies keeps its state, and every body newly logged is the root or one of its dependencies. |
| Initializer.TaskGraph.DoneBelow | searchcore/src/vespa/searchcore/proton/initializer/task_runner.cpp:59-66 | Under the runner invariant, every task a DONE task depends on, directly or transitively, is DONE and logged as run. |
| Attribute.ReferenceAttribute.constructor | searchlib/src/vespa/searchlib/attribute/reference_attribute.cpp:32-43 | A new attribute: no slots, an empty store, an empty reverse mapping and empty call logs, with all invariants holding. |
| Attribute.ReferenceAttribute.AddDoc | searchlib/src/vespa/searchlib/attribute/reference_attribute.cpp:65-80 | The new document id is the old size. One invalid slot is appended, earlier slots are unchanged, the result is true and the invariants are kept. |
| Attribute.SlotAppend | searchlib/src/vespa/searchlib/attribute/reference_attribute.cpp:69-70 | An appended invalid slot changes no valid ref's holders or count. |
| Attribute.ReferenceAttribute.RemoveReverseMapping | searchlib/src/vespa/searchlib/attribute/reference_attribute.cpp:82-87 | lid leaves the reverse mapping of ref, and the call is logged. |
| Attribute.ReferenceAttribute.AddReverseMapping | searchlib/src/vespa/searchlib/attribute/reference_attribute.cpp:89-94 | lid joins the reverse mapping of ref, and the call is logged. |
| Attribute.ReferenceAttribute.BuildOne | searchlib/src/vespa/searchlib/attribute/reference_attribute.cpp:96-101 | The per-ref builder: the reverse mapping of ref becomes exactly the given lids, and the call is logged. |
| Attribute.ReferenceAttribute.CollectPairs | searchlib/src/vespa/searchlib/attribute/reference_attribute.cpp:106-114 | The first loop collects the valid slots' (ref, lid) pairs in lid order. |
| Attribute.SlotPairs | searchlib/src/vespa/searchlib/attribute/reference_attribute.cpp:109-114 | Every collected pair is a valid slot's (ref, lid). Lids strictly increase along the pairs, and every valid slot is collected. |
| Attribute.SlotPairsExact | searchlib/src/vespa/searchlib/attribute/reference_attribute.cpp:109-114 | A pair is collected if and only if its ref is valid and its slot holds that ref. |
| Attribute.LidsDistinct | searchlib/src/vespa/searchlib/attribute/reference_attribute.cpp:109-114 | Pairs with strictly increasing lids are pairwise distinct. |
| Attribute.Insert | searchlib/src/vespa/searchlib/attribute/reference_attribute.cpp:115 | Inserting into a strictly sorted sequence keeps it strictly sorted, adds one element, and adds exactly the new element. |
| Attribute.SortPairs | searchlib/src/vespa/searchlib/attribute/reference_attribute.cpp:115 | The sort of distinct pairs is strictly sorted by (ref, lid), has the same length and holds the same elements. |
| Attribute.SortInput | searchlib/src/vespa/searchlib/attribute/reference_attribute.cpp:109-115 | The collected pairs are distinct, and every sorted pair has a valid ref. |
| Attribute.ReferenceAttribute.BuildGroups | searchlib/src/vespa/searchlib/attribute/reference_attribute.cpp:116-130 | The second loop, from an empty reverse mapping: one builder call for each run of equal refs in the sorted pairs, with that run's lids. The reverse mapping left is the one those calls build. |
| Attribute.GroupingStep | searchlib/src/vespa/searchlib/attribute/reference_attribute.cpp:118-127 | One element of the second loop. A new ref closes the open group and opens a new one; an equal ref extends the open group. Either way, closed plus open groups are the groups of the prefix seen so far. |
| Attribute.ReverseOfSnoc | searchlib/src/vespa/searchlib/attribute/reference_attribute.cpp:119-130 | One more builder call sets its ref's lids and leaves every other ref's lids as they were. |
| Attribute.GroupsAscending | searchlib/src/vespa/searchlib/attribute/reference_attribute.cpp:116-130 | Grouping sorted pairs yields groups in strictly ascending ref order, so there is one call per distinct ref. |
| Attribute.GroupsIncreasing | searchlib/src/vespa/searchlib/attribute/reference_attribute.cpp:116-130 | Grouping pairs sorted by (ref, lid) gives groups whose lids strictly increase. |
| Attribute.GroupsNonEmpty | searchlib/src/vespa/searchlib/attribute/reference_attribute.cpp:116-130 | Every group of any pair sequence is non-empty, so every builder call gets at least one lid. |
| Attribute.GroupsLidsSound | searchlib/src/vespa/searchlib/attribute/reference_attribute.cpp:116-130 | Every lid in a group comes from a pair with that group's ref. |
| Attribute.GroupsLidsComplete | searchlib/src/vespa/searchlib/attribute/reference_attribute.cpp:116-130 | Every pair with a group's ref contributes its lid to that group. |
| Attribute.GroupsCover | searchlib/src/vespa/searchlib/attribute/reference_attribute.cpp:116-130 | Every pair's ref is the ref of some group. |
| Attribute.ReverseOfGroups | searchlib/src/vespa/searchlib/attribute/reference_attribute.cpp:116-130 | With ascending refs, the calls leave each group's ref mapped to exactly that group's lids, and no other ref mapped. |
| Attribute.GroupsOfSlotPairs | searchlib/src/vespa/searchlib/attribute/reference_attribute.cpp:103-131 | Grouping any sorted sequence that holds exactly the valid slots' pairs gives exact builder calls (see below). |
| Attribute.ReverseMappingGroups | searchlib/src/vespa/searchlib/attribute/reference_attribute.cpp:103-131 | The builder calls are exact: there is one call per distinct valid ref, in ascending ref order. Each call receives exactly the lids holding its ref, in ascending order. Every valid slot is covered, and invalid slots are skipped. |
| Attribute.ExactDisjoint | searchlib/src/vespa/searchlib/attribute/reference_attribute.cpp:103-131 | With exact builder calls, every valid lid lands in exactly one group. |
| Attribute.ExactHolders | searchlib/src/vespa/searchlib/attribute/reference_attribute.cpp:103-131 | With exact builder calls, each call's lids are exactly the lids holding its ref. |
| Attribute.ExactReverse | searchlib/src/vespa/searchlib/attribute/reference_attribute.cpp:103-131 | Exact builder calls leave a reverse mapping that is exact for every valid ref. |
| Attribute.BuilderReverseOk | searchlib/src/vespa/searchlib/attribute/reference_attribute.cpp:103-131 | The reverse mapping left by buildReverseMapping's calls holds, for every valid ref, exactly the lids whose slot holds it. |
| Attribute.ReferenceAttribute.BuildReverseMapping | searchlib/src/vespa/searchlib/attribute/reference_attribute.cpp:103-131 | From an empty reverse mapping, the builder calls made are `BuilderCalls(indices)`, which are exact by `ReverseMappingGroups`. Afterwards every invariant holds. |
| Attribute.ReferenceAttribute.ClearSlot | searchlib/src/vespa/searchlib/attribute/reference_attribute.cpp:138-146 | Only the slot becomes invalid. For a valid old ref there is exactly one removal call, and the store is the old one with one count fewer for that ref. Otherwise the store is unchanged. The result tells whether the slot held a valid ref. |
| Attribute.CountsAfterClear | searchlib/src/vespa/searchlib/attribute/reference_attribute.cpp:139-142 | Clearing a valid slot and dropping one store count for its ref keeps the counts exact. |
| Attribute.ReverseAfterClear | searchlib/src/vespa/searchlib/attribute/reference_attribute.cpp:139-141 | Clearing a valid slot and removing its lid from the ref's reverse mapping keeps the mapping exact. |
| Attribute.ReferenceAttribute.ClearDoc | searchlib/src/vespa/searchlib/attribute/reference_attribute.cpp:133-147 | Requires doc < size. The result is 1 exactly when the slot held a valid ref. Exactly then a removal call is made and the store loses one count of that ref. The slot is invalid afterwards, so getReference gives nothing. Other slots are unchanged, and so is getReference for every other document. |
| Attribute.ClearedRange | searchlib/src/vespa/searchlib/attribute/reference_attribute.cpp:355-362 | The slots after clearing [lo, hi) slot by slot in lid order: same length, invalid inside the range, unchanged outside it. |
| Attribute.ClearStep | searchlib/src/vespa/searchlib/attribute/reference_attribute.cpp:355-362 | One more round of the loop clears one more slot. That slot still held its original ref, and a removal call is made exactly when that ref was valid. |
| Attribute.ReferenceAttribute.ClearDocs | searchlib/src/vespa/searchlib/attribute/reference_attribute.cpp:350-363 | Requires lidLow <= lidLimit <= size. Every slot of [lidLow, lidLimit) becomes invalid and the rest are unchanged. One removal call is made per valid slot cleared, in lid order. The store only loses counts: every ref it still holds keeps its gid. So every document outside the range keeps its getReference answer, and the invariants are kept. |
| Attribute.ReferenceAttribute.ClearNext | searchlib/src/vespa/searchlib/attribute/reference_attribute.cpp:356-361 | One loop iteration extends the cleared range by one lid and keeps the invariants. The store has still only lost counts since the loop began. |
| Attribute.ReferenceAttribute.StoreAdd | searchlib/src/vespa/searchlib/attribute/reference_attribute.cpp:252 | The store's add: for a known gid its ref, otherwise a fresh valid ref. The entry's count grows by one. |
| Attribute.ReferenceAttribute.StoreRemove | searchlib/src/vespa/searchlib/attribute/reference_attribute.cpp:259 | The store's remove: one count fewer. The entry and its gid go with the last count. |
| Attribute.IncDecCommute | searchlib/src/vespa/searchlib/attribute/reference_attribute.cpp:252-259 | Adding a count for one ref and then removing one for a different ref equals doing the two in the other order. |
| Attribute.CountsAfterUpdate | searchlib/src/vespa/searchlib/attribute/reference_attribute.cpp:247-260 | Writing the store's ref into the slot, after the add and the remove of the old ref, keeps the counts exact. The new ref stays in the store with the new gid. For an invalid old slot, the remove changes nothing. |
| Attribute.ReverseAfterUpdate | searchlib/src/vespa/searchlib/attribute/reference_attribute.cpp:254-263 | The guarded remove and add keep the reverse mapping exact for every valid ref. |
| Attribute.ReferenceAttribute.UpdateTail | searchlib/src/vespa/searchlib/attribute/reference_attribute.cpp:255-263 | After the slot is written, a valid old ref loses one store count, and only a replaced one loses its mapping. A changed ref gains the doc in its mapping. |
| Attribute.ReferenceAttribute.SetSlot | searchlib/src/vespa/searchlib/attribute/reference_attribute.cpp:254-263 | The slot holds the new ref and other slots are unchanged. The store entry carries the gid, and the store loses one count of the slot's old ref. The reverse-mapping calls are the guarded remove, then the guarded add, and the invariants are restored. |
| Attribute.ReferenceAttribute.Update | searchlib/src/vespa/searchlib/attribute/reference_attribute.cpp:242-264 | Requires doc < size. Afterwards the slot holds the store's ref for the gid: the existing ref when the gid was known. The store gains one count for that ref and loses one for the slot's old ref. Other slots are unchanged, and every other document keeps its getReference answer. A reverse mapping is removed and added only when the old and new refs differ. An unknown gid gets a ref not in the old store, so the slot's valid old ref always loses its mapping for the doc and the new ref always gains it. The invariants are kept. |
| Attribute.FreshRefCalls | searchlib/src/vespa/searchlib/attribute/reference_attribute.cpp:252-263 | With a fresh ref from the store add, the removal step removes the valid old ref's mapping for the lid, and the addition step always adds the new ref's mapping. |
| Attribute.UpdateKeepsGids | searchlib/src/vespa/searchlib/attribute/reference_attribute.cpp:247-260 | update's store change, one count more for the gid's ref and one fewer for the old ref, keeps the gid of every ref that was already stored. |
| Attribute.OtherSlotsKept | searchlib/src/vespa/searchlib/attribute/reference_attribute.cpp:242-264 | When the slots change only at doc and every ref still stored keeps its gid, every other valid slot refers to the same stored gid as before. |
| Attribute.ReferenceAttribute.GetReference | searchlib/src/vespa/searchlib/attribute/reference_attribute.cpp:266-276 | Requires doc < size. The result is nothing exactly when the slot is invalid; otherwise it is the store entry's gid. |
| Attribute.ReferenceAttribute.SameRefSameGid | searchlib/src/vespa/searchlib/attribute/reference_attribute.cpp:266-276 | Two documents hold the same ref exactly when getReference gives the same answer for both. |
| Attribute.ReferenceAttribute.GetIndicesCopy | searchlib/src/vespa/searchlib/attribute/reference_attribute.cpp:308-313 | Requires size to be at most the number of slots. The copy has exactly size elements, equal to the first size slots. |
| Attribute.ReferenceAttribute.OnShrinkLidSpace | searchlib/src/vespa/searchlib/attribute/reference_attribute.cpp:365-374 | The slots become exactly the first committedDocIdLimit ones, and the invariants are kept. |
| Attribute.SlotTruncate | searchlib/src/vespa/searchlib/attribute/reference_attribute.cpp:368-371 | Cutting off a tail of invalid slots changes no valid ref's holders or count. |

`Valid()` of `Initializer.TaskRunner` (through `RunnerOk`) also holds that
`ran` has no repetitions and lists exactly the DONE tasks, each with its
dependencies DONE. Every lane step above keeps it, so a task's body
runs at most once, and only after its dependencies have finished.
`SetTaskRunning` alone breaks it for a moment: the task is RUNNING before it
is in flight. Its only caller, `InternalRunTask`, restores it in the same
step.

## Left out

- The thread pools and executors (`ThreadStackExecutor`,
  `_executor.execute`, `context->execute`) are not modelled as concurrency.
  The context lane is a sequence of method calls. The worker pool is the
  `inFlight` map, and which unit finishes next is the caller's choice.
- The blocking `runTask(task)` with its promise and future is modelled as
  `RunToCompletion`, a loop that drains the worker pool. The one-thread
  executor it creates is not modelled.
- Task bodies (`task->run()`) are not modelled: they change nothing in the
  model.
- `InitializerTask` and `Context` are not part of this model beyond the
  state each task exposes and the context's done flag and its one-shot
  completion action. `Context.completions` counts how often that action ran.
- `Initializer.TaskRunner.InternalRunTask`: requires that every dependency
  is DONE. This is stronger than the source's assertion, which checks only
  BLOCKED (task_runner.cpp:72). Its only caller dispatches tasks the
  readiness walk found, and those have all dependencies DONE.
- `Initializer.TaskRunner.RunInFlight`: `ran` logs a body when its
  completion reaches the lane, not while the body runs.
- `Initializer.TaskRunner.constructor`: requires every task to be
  BLOCKED, the state a task is built in. `InitializerTask` is not part of
  this model.
- `Attribute.ReferenceAttribute.constructor`: the base attribute, its
  configuration, the enumerated-attribute flags (`setEnum`,
  `enableEnumeratedSave`) and the generation holders are not modelled.
- `Initializer.TaskRunner.RunToCompletion`: requires nothing in flight
  from other runs, so the drained pool belongs to this run alone. This
  requires is also what rules out a stall: when two runs share a task, the
  source only re-polls the run that dispatched it (task_runner.cpp:65).
  Take dependencies `[[2],[2],[]]`, start runs from 0 and from 1, and let
  task 2 and then task 0 finish. Run 1's first poll found task 2 RUNNING and
  dispatched nothing, so it is never polled again: it ends unfinished, with
  nothing in flight and task 1 BLOCKED. The model behaves the same way.
  `PollTask`, `SetTaskDone`, `RunInFlight` and `RunTask` only promise that
  the run is finished or that someone's work is in flight.
- `Attribute.ReferenceAttribute.BuildReverseMapping`: requires an empty
  reverse mapping. In the source it runs after a load, before any mapping
  exists.
- `Attribute.ReferenceAttribute.OnShrinkLidSpace`: requires that the slots
  cut off are already invalid, as the source's comment says callers
  guarantee. The committed doc id limit is a parameter.
- The document count is the length of `indices`; the source keeps
  `numDocs` equal to it.
- `updateUncommittedDocIdLimit` and `incNumDocs` are not modelled.
- Generations, hold lists and `isFull()` growth, compaction
  (`considerCompact` uses a floating-point ratio), `onLoad`, the saver,
  memory statistics and the release fence are not modelled.
- `onAddDocs` only reserves capacity and is not modelled.
- The gid-to-lid mapper (`setGidToLidMapperFactory`,
  `notifyGidToLidChange`, `populateReferencedLids`, and the `setLid` in
  `update`) is not modelled: it calls classes not shown.
- The unique store is abstracted to `entries`, `dictionary` and `nextRef`.
  A fresh ref is the next number, and entry reuse and ref encoding are not
  modelled.
- The reverse mapping (`_referenceMappings`) is ghost state plus a log of
  calls into it. Its B-tree form and its `addDoc`, `shrink` and
  `onAddDocs` are not modelled.
- `std::sort` is modelled by the insertion sort `SortPairs`, which has the
  same result on distinct pairs.
- `uint32_t` lids and the width of `EntryRef` are unbounded `nat`s. No
  operation here can overflow them short of 2^32 documents.
