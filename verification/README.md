# TaskManager in Dafny

A model of `TaskManager`, the façade of a personal task tracker. It creates
tasks, lists them under one of three filters, updates a task's status,
priority, due date and tags, deletes tasks, summarises the store, and runs
the auto-abandon sweep. Every operation is a pure function (or a short
method with a loop) from the store and an environment to a result and the
store afterwards.

Files, one module each:

- `wrappers.dfy` (`Wrappers`): `Option` for Java's `null` and `Result` for an escaping exception.
- `tasks.dfy` (`Tasks`): the `Task` record, `Priority` and `Status`, instants in nanoseconds, `EndOfDay` (a date at `LocalTime.MAX`), and the task mutators `markAsDone`, `addTag` and `removeTag`.
- `environment.dfy` (`Environment`): `Env`, everything the manager takes from outside. This is the clock `now`, the ISO date parser, `TaskPriority.fromValue`, `TaskStatus.fromValue`, `Task.isOverdue` and `Task.isOverdueByMoreThanDays`. Each is an uninterpreted field, so every property holds for any behaviour of these collaborators.
- `storage.dfy` (`Storage`): the task store. It holds a map from id to task plus the insertion-ordered id list, with the invariant `Valid`. It provides add, get, update-by-patch, delete and the filtered listings.
- `manager.dfy` (`Manager`): the operations of `TaskManager`.
- `statistics.dfy` (`Statistics`): `getStatistics` and its counting lemmas.
- `sweep.dfy` (`Sweep`): `abandonOverdueTasks` and its policy lemmas.
- `laws.dfy` (`Laws`): properties that relate several calls.

Assumptions about code this model cannot see. `Task`, `TaskStorage`,
`TaskPriority` and `TaskStatus` are not part of this model.

- `TaskStorage.updateTask(id, partial)` is assumed to overwrite exactly the one field the caller set on the update object. This is `Storage.Merge`. Nothing else is copied: not the update object's title, and not its default priority and status. The call returns false and changes nothing when the id is unknown.
- `getOverdueTasks`, `getTasksByStatus` and `getTasksByPriority` are assumed to filter `getAllTasks` in order. `getAllTasks` is assumed to list tasks in insertion order.
- The id a new task gets (a generated identifier) is an input, `freshId`, assumed unused in the store.
- `getTask` hands out the stored task itself, so the in-place mutations in `updateTaskStatus`, `addTagToTask` and `removeTagFromTask` change the store. The model writes the mutated task back with `Storage.Put`.

Error discipline, as the code has it:

- An enum parser that rejects its input throws `IllegalArgumentException`. This escapes from `createTask`, `listTasks` and `updateTaskStatus`, and is modelled as `Err(InvalidArgument)` with the store unchanged.
- `updateTaskPriority` catches that exception and returns `false`.
- A date that does not parse gives `null` from `createTask` and `false` from `updateTaskDueDate`.
- Unknown ids give `false` or `null`.

Two points in the code that the model makes explicit:

- `updateTaskStatus` parses the status before it looks up the id (TaskManager.java:66-67). An unknown status string therefore raises even when the id is unknown as well. See `Manager.UpdateTaskStatus`.
- The update objects the code hands to `updateTask` are whole tasks built by the `Task` constructor, so they also carry a title and the constructor's default priority and status. The title is the placeholder `"tempTitle"` for the priority and due-date updates (TaskManager.java:89, :99) and the task's own title in the sweep (TaskManager.java:191). The model assumes none of these is merged (`Storage.Merge`).

## Model

| member | source | states |
|---|---|---|
| Tasks.EndOfDay | use-cases/code-algorithms/java/TaskManager/src/main/java/za/co/wethinkcode/taskmanager/app/TaskManager.java:36 | a parsed date becomes an instant that still lies on that day while the next nanosecond lies on the following day, so it is the day's last instant |
| Tasks.MarkAsDone | use-cases/code-algorithms/java/TaskManager/src/main/java/za/co/wethinkcode/taskmanager/app/TaskManager.java:70-72 | marking done sets status DONE and stamps completion with the current instant, and touches no other field |
| Tasks.AddTag | use-cases/code-algorithms/java/TaskManager/src/main/java/za/co/wethinkcode/taskmanager/app/TaskManager.java:119 | adding a tag puts it in the tag set, changes no other tag and no other field, and is a no-op when the tag is already there |
| Tasks.RemoveTag | use-cases/code-algorithms/java/TaskManager/src/main/java/za/co/wethinkcode/taskmanager/app/TaskManager.java:128 | tag removal reports true exactly when the tag was present; afterwards the tag is absent and a failed removal changes nothing |
| Storage.Get | use-cases/code-algorithms/java/TaskManager/src/main/java/za/co/wethinkcode/taskmanager/app/TaskManager.java:67 | the lookup returns a task exactly when the id is stored, and that task carries the id |
| Storage.Add | use-cases/code-algorithms/java/TaskManager/src/main/java/za/co/wethinkcode/taskmanager/app/TaskManager.java:44 | adding a task with an unused id files it under its id, lists it last, leaves every other task as it was and keeps the invariant |
| Storage.AllTasks | use-cases/code-algorithms/java/TaskManager/src/main/java/za/co/wethinkcode/taskmanager/app/TaskManager.java:136 | the listing has one entry per id in insertion order, each the stored task, and contains exactly the stored tasks |
| Storage.Filter | use-cases/code-algorithms/java/TaskManager/src/main/java/za/co/wethinkcode/taskmanager/app/TaskManager.java:47-59 | a filtered listing contains exactly the tasks of the listing that meet the selection, and is no longer than it |
| Storage.Merge | use-cases/code-algorithms/java/TaskManager/src/main/java/za/co/wethinkcode/taskmanager/app/TaskManager.java:89-101 | the assumed merge of a partial update sets the one patched field to the given value and keeps every other field |
| Storage.Update | use-cases/code-algorithms/java/TaskManager/src/main/java/za/co/wethinkcode/taskmanager/app/TaskManager.java:89-91 | a partial update succeeds exactly when the id is stored; on failure the store is unchanged; the invariant is kept |
| Storage.Delete | use-cases/code-algorithms/java/TaskManager/src/main/java/za/co/wethinkcode/taskmanager/app/TaskManager.java:108-110 | deleting reports true exactly when the id was stored; a failed delete changes nothing; a successful one removes the task and closes its gap in the listing, keeping the other ids in order |
| Storage.WithoutAt | use-cases/code-algorithms/java/TaskManager/src/main/java/za/co/wethinkcode/taskmanager/app/TaskManager.java:108-110 | in a listing without repeats, removing the id at position k leaves the entries before and after k in their order |
| Storage.AddThenDelete | use-cases/code-algorithms/java/TaskManager/src/main/java/za/co/wethinkcode/taskmanager/app/TaskManager.java:44 | deleting a task just added restores the store exactly, listing order included |
| Storage.DistinctCardinality | use-cases/code-algorithms/java/TaskManager/src/main/java/za/co/wethinkcode/taskmanager/app/TaskManager.java:136-137 | a listing without repeated ids has as many entries as distinct ids, which makes the task count the size of the store |
| Manager.CreateTask | use-cases/code-algorithms/java/TaskManager/src/main/java/za/co/wethinkcode/taskmanager/app/TaskManager.java:28-45 | an unknown priority fails before any store change; a given but unparseable date yields null and adds nothing; otherwise exactly one TODO task is added under the new id, last in order, with its due date at the end of the parsed day and its tags as a set |
| Manager.ListTasks | use-cases/code-algorithms/java/TaskManager/src/main/java/za/co/wethinkcode/taskmanager/app/TaskManager.java:47-63 | with the overdue flag the result is the overdue tasks whatever the filters; otherwise a status filter decides (an error if it does not parse); otherwise a priority filter; with no filter, all tasks |
| Manager.UpdateTaskStatus | use-cases/code-algorithms/java/TaskManager/src/main/java/za/co/wethinkcode/taskmanager/app/TaskManager.java:65-77 | an unknown status fails even for an unknown id; an unknown id gives false with the store untouched; otherwise only that task changes, it gets the new status, DONE also stamps the completion time with now, other statuses keep the old stamp, and save is called exactly on success |
| Manager.UpdateTaskPriority | use-cases/code-algorithms/java/TaskManager/src/main/java/za/co/wethinkcode/taskmanager/app/TaskManager.java:79-92 | succeeds exactly when the priority parses and the id is stored; on failure the store is unchanged; on success only the task's priority changes |
| Manager.UpdateTaskDueDate | use-cases/code-algorithms/java/TaskManager/src/main/java/za/co/wethinkcode/taskmanager/app/TaskManager.java:94-106 | succeeds exactly when the date parses and the id is stored, with no empty-string escape; on success only the due date changes, to the end of the parsed day |
| Manager.DeleteTask | use-cases/code-algorithms/java/TaskManager/src/main/java/za/co/wethinkcode/taskmanager/app/TaskManager.java:108-110 | reports true exactly when the id was stored; a failed delete leaves the store unchanged; afterwards the id is gone, every other task is unchanged and keeps its place in the listing |
| Manager.GetTaskDetails | use-cases/code-algorithms/java/TaskManager/src/main/java/za/co/wethinkcode/taskmanager/app/TaskManager.java:112-114 | returns a task exactly when the id is stored, and that task carries the id and is in the listing |
| Manager.AddTagToTask | use-cases/code-algorithms/java/TaskManager/src/main/java/za/co/wethinkcode/taskmanager/app/TaskManager.java:116-124 | succeeds and saves exactly when the id is stored; the tag is then in the task's tags, and nothing else changes |
| Manager.RemoveTagFromTask | use-cases/code-algorithms/java/TaskManager/src/main/java/za/co/wethinkcode/taskmanager/app/TaskManager.java:126-133 | succeeds and saves only when the task exists and had the tag; otherwise the store is unchanged |
| Statistics.CountByStatus | use-cases/code-algorithms/java/TaskManager/src/main/java/za/co/wethinkcode/taskmanager/app/TaskManager.java:140-148 | every status has an entry, seeded at zero, equal to the number of tasks with that status |
| Statistics.CountByPriority | use-cases/code-algorithms/java/TaskManager/src/main/java/za/co/wethinkcode/taskmanager/app/TaskManager.java:151-159 | every priority has an entry, seeded at zero, equal to the number of tasks with that priority |
| Statistics.StatusCountsPartition | use-cases/code-algorithms/java/TaskManager/src/main/java/za/co/wethinkcode/taskmanager/app/TaskManager.java:145-148 | the per-status counts of any task list sum to its length |
| Statistics.PriorityCountsPartition | use-cases/code-algorithms/java/TaskManager/src/main/java/za/co/wethinkcode/taskmanager/app/TaskManager.java:156-159 | the per-priority counts of any task list sum to its length |
| Statistics.GetStatistics | use-cases/code-algorithms/java/TaskManager/src/main/java/za/co/wethinkcode/taskmanager/app/TaskManager.java:135-178 | the result summarises the full listing at the given instant: total is the number of stored tasks; every status and every priority has an entry equal to the number of tasks with it; overdue counts the tasks the overdue test accepts and the recent count the tasks completed strictly after now minus 7 days, both at most total |
| Statistics.StatusSummaryAddsUp | use-cases/code-algorithms/java/TaskManager/src/main/java/za/co/wethinkcode/taskmanager/app/TaskManager.java:137-148 | in any summary the per-status counts sum to total |
| Statistics.PrioritySummaryAddsUp | use-cases/code-algorithms/java/TaskManager/src/main/java/za/co/wethinkcode/taskmanager/app/TaskManager.java:137-159 | in any summary the per-priority counts sum to total |
| Statistics.CountMeansMatching | use-cases/code-algorithms/java/TaskManager/src/main/java/za/co/wethinkcode/taskmanager/app/TaskManager.java:162-168 | in a listing without repeated ids, a count is the number of distinct tasks meeting its test |
| Statistics.StatsCountStoredTasks | use-cases/code-algorithms/java/TaskManager/src/main/java/za/co/wethinkcode/taskmanager/app/TaskManager.java:162-168 | each statistics count equals the number of stored tasks meeting its test |
| Sweep.AbandonOverdueTasks | use-cases/code-algorithms/java/TaskManager/src/main/java/za/co/wethinkcode/taskmanager/app/TaskManager.java:180-196 | the single pass over the listing gives the same store as abandoning, task by task, exactly those the policy selects |
| Sweep.SweepAbandonsExactly | use-cases/code-algorithms/java/TaskManager/src/main/java/za/co/wethinkcode/taskmanager/app/TaskManager.java:183-194 | a task changes exactly when it is overdue by more than 7 days, unresolved and not HIGH; it then becomes ABANDONED with every other field kept |
| Sweep.SweepSparesHighPriority | use-cases/code-algorithms/java/TaskManager/src/main/java/za/co/wethinkcode/taskmanager/app/TaskManager.java:187-189 | HIGH-priority tasks are never changed by the sweep |
| Sweep.SweepSparesResolvedAndRecent | use-cases/code-algorithms/java/TaskManager/src/main/java/za/co/wethinkcode/taskmanager/app/TaskManager.java:183-189 | DONE or ABANDONED tasks, and tasks not more than 7 days overdue, are never changed |
| Sweep.SweepKeepsIds | use-cases/code-algorithms/java/TaskManager/src/main/java/za/co/wethinkcode/taskmanager/app/TaskManager.java:181-195 | the sweep keeps the set of ids and the listing order |
| Sweep.SweepIdempotent | use-cases/code-algorithms/java/TaskManager/src/main/java/za/co/wethinkcode/taskmanager/app/TaskManager.java:180-196 | a second sweep at the same instant changes nothing |
| Laws.ListPrecedence | use-cases/code-algorithms/java/TaskManager/src/main/java/za/co/wethinkcode/taskmanager/app/TaskManager.java:47-63 | the overdue flag makes both filters irrelevant, and a status filter makes the priority filter irrelevant, even a malformed one |
| Laws.RemoveTagTwice | use-cases/code-algorithms/java/TaskManager/src/main/java/za/co/wethinkcode/taskmanager/app/TaskManager.java:126-133 | removing the same tag twice: the second call returns false, does not save and changes nothing |
| Laws.AddTagTwice | use-cases/code-algorithms/java/TaskManager/src/main/java/za/co/wethinkcode/taskmanager/app/TaskManager.java:116-124 | adding the same tag twice leaves the store as adding it once |
| Laws.AddThenRemoveTag | use-cases/code-algorithms/java/TaskManager/src/main/java/za/co/wethinkcode/taskmanager/app/TaskManager.java:116-133 | adding a new tag and removing it again restores the store |
| Laws.CreateThenDetails | use-cases/code-algorithms/java/TaskManager/src/main/java/za/co/wethinkcode/taskmanager/app/TaskManager.java:28-45 | a created task can be read back under the returned id and is listed last |
| Laws.DeleteTwice | use-cases/code-algorithms/java/TaskManager/src/main/java/za/co/wethinkcode/taskmanager/app/TaskManager.java:108-114 | a deleted task cannot be read back and a second delete returns false |
| Laws.CreateThenDelete | use-cases/code-algorithms/java/TaskManager/src/main/java/za/co/wethinkcode/taskmanager/app/TaskManager.java:28-45 | deleting the task createTask just created gives back the store as it was |
| Laws.CompletionStampSurvivesReopen | use-cases/code-algorithms/java/TaskManager/src/main/java/za/co/wethinkcode/taskmanager/app/TaskManager.java:65-77 | moving a task out of DONE does not clear its completion stamp |

## Left out

- Persistence: the store's file I/O and `save()` are not modelled. `Step.saved` records only whether the manager itself called `save()`. Any saving inside the store's add, update and delete is outside the model.
- Console messages on `System.err`: only the sentinel return (`null` or `false`) is modelled.
- ISO date parsing (`LocalDate.parse`) is `Env.parseDate`, an uninterpreted partial function from strings to days.
- The wall clock is `Env.now`, read once per call. `markAsDone` and `isOverdue` read it too and are given the same instant.
- `Task.isOverdue` and `Task.isOverdueByMoreThanDays` are uninterpreted (`Env`), because their bodies are not part of this model. The 7-day threshold is passed to them as in the code.
- `TaskPriority.fromValue` and `TaskStatus.fromValue` are uninterpreted partial functions, because the enums' numeric and string values are not part of this model. The statistics are therefore keyed by the enum values themselves rather than by `getValue()`.
- The statistics are a typed record `Stats` instead of a `Map<String, Object>`.
- Null arguments other than a null due-date string in `createTask` and null filters in `listTasks` are not modelled; the Java code would throw on most of them.
- Title and description validation inside the `Task` constructor is not part of this model.
- `getStorage()` and the constructor only wire up the store and are not modelled.
- The counts of `getStatistics` are unbounded naturals. Java's 32-bit `int` would only wrap with more than 2^31 tasks, so the wrap-around is not modelled.
- `getStatistics` does not write to the store. The model guarantees this by its shape: `Statistics.GetStatistics` takes the store as a value and returns only a `Stats` record.
