# Gantt scheduler (Critical Path Method) in Dafny

This project models the scheduler in `gantt.js`. `calculateSchedule` takes task
records (id, duration, predecessor ids). It writes onto each record its earliest
start, its latest start and its reserve (latest minus earliest). The model
proves that the memoised, in-place JavaScript computation stores exactly what a
set of pure recursive definitions say.

Files:

- `schedule_spec.dfy`, module `ScheduleSpec`. The task graph as a value
  (`Graph`: id to duration and dependency ids). The conditions the code
  assumes but never checks (`WellFormed`: every dependency resolves, a rank
  strictly decreases along every dependency edge so the graph is acyclic,
  durations are non-negative). The reference definitions:
  - `Earliest`, the forward pass;
  - `Completion`, the project completion time;
  - `Latest`, the backward pass.
  Also the lemmas about them and the sample project.
- `gantt.dfy`, module `Gantt`. The `Task` class, whose three computed fields
  are written in place, and `readInput`. The id-to-task map and the two
  memoised recursive methods. The three `forEach` passes and
  `calculateSchedule` itself.

What is proved, in the system's own terms:

- The forward pass gives 0 to a task without dependencies. Any other task
  gets exactly the maximum over its dependencies `d` of
  `earliestStart(d) + duration(d)`. The value is never negative.
- The completion time is at least every task's `earliestStart + duration`,
  and equal to it for some task.
- The backward pass is modelled **as written**, not as textbook CPM. It
  descends into a task's dependencies, not its successors, and subtracts the
  task's own duration.
  - A task without dependencies gets `completion - duration`.
  - Any other task gets exactly the minimum of the completion time and, over
    its dependencies `d`, `latestStart(d) - duration(task)`.
  - Every latest start is at most `completion - duration(task)`.
- The memo guards test `!== 0`, so a legitimately zero value is simply
  recomputed. The methods keep the invariant that every stored earliest (and
  latest) start is either 0 or its reference value. From it follows:
  - after each pass every task holds its reference value, whatever order the
    tasks come in;
  - every task ends with `reserve == latestStart - earliestStart`.
- Only `earliestStart`, `latestStart` and `reserve` are written: each method's
  `modifies` names exactly those fields. The result is the input sequence of
  the same task objects in the same order.
- `readInput` makes one fresh task per descriptor, in order. Each task has the
  descriptor's id, duration and dependencies, and both computed fields 0.

On the sample project (gantt.js:93-98) the code computes these values:

| task | earliest | latest | reserve |
|---|---|---|---|
| 1 | 0 | 5 | 5 |
| 2 | 4 | 3 | -1 |
| 3 | 4 | 4 | 0 |
| 4 | 6 | 0 | -6 |

`ScheduleSpec.SampleSchedule` proves, on the sample graph, that the
completion time is 9 and that the earliest and latest starts are as in the
table. `Gantt.RunSample` proves the whole table end to end, through
`ReadInput` and `CalculateSchedule`: the stored earliest starts, latest starts
and reserves.

A textbook CPM description of this scheduler promises more than the code
delivers:
- a never-negative reserve;
- a non-empty critical path;
- latest starts bounded by successors;
- reserves 0, 0, 1, 0 on the sample.

The code delivers none of these, as the table shows. The model follows the
code. In the same way, the code has no cycle detection, no error for an
unresolved dependency id, and no "computed" flags distinct from the value 0.
The model states these as preconditions or proves them harmless; it adds no
error paths the code does not have.

## Model

| member | source | states |
|---|---|---|
| `Gantt.Task.constructor` | gantt.js:4-10 | the new task carries the given id, duration and dependencies (default `[]`) and has `earliestStart == latestStart == 0` |
| `Gantt.BuildTaskMap` | gantt.js:15-16 | the map's keys are exactly the tasks' ids; under each key is the task with that id that comes last in the list (a later duplicate replaces an earlier one) |
| `Gantt.TaskMapMirrors` | gantt.js:15-16 | with distinct ids, the map holds every task under its own id, holds nothing else, and agrees with the task graph on durations and dependencies |
| `Gantt.CalculateEarliestStart` | gantt.js:19-28 | returns and stores the task's reference earliest start; every other task's stored value is unchanged or becomes its own reference value, so "each stored value is 0 or its reference value" is preserved |
| `Gantt.ForwardPass` | gantt.js:30 | after `forEach(calculateEarliestStart)` every task holds its reference earliest start; only `earliestStart` is written |
| `Gantt.MaxFinish` | gantt.js:32 | `Math.max` of `earliestStart + duration` over the tasks: at least every task's finish time and equal to some task's |
| `Gantt.MaxFinishIsCompletion` | gantt.js:32 | once earliest starts are stored, the value computed from the fields equals the reference completion time |
| `Gantt.CalculateLatestStart` | gantt.js:35-48 | returns and stores the task's reference latest start for the given completion time; every other task's stored value is unchanged or becomes its own reference value |
| `Gantt.LatestUnsetIsMemo` | gantt.js:36 | while every stored latest start is still 0, the backward pass's memo invariant holds for any completion time |
| `Gantt.BackwardPass` | gantt.js:51 | after `forEach(calculateLatestStart)` every task holds its reference latest start; only `latestStart` is written |
| `Gantt.ReservePass` | gantt.js:54-56 | every task ends with `reserve == latestStart - earliestStart`; only `reserve` is written |
| `Gantt.CalculateSchedule` | gantt.js:13-59 | on a non-empty list of distinct-id tasks forming a well-formed graph with computed fields 0, it returns the same list; every task holds its reference earliest start, its reference latest start against the reference completion time, and reserve = latest - earliest; only those three fields change |
| `Gantt.ReadInput` | gantt.js:61-64 | one fresh, distinct task per descriptor, in order, with the same id, duration and dependencies and both computed fields 0 |
| `Gantt.SampleTasksGraph` | gantt.js:93-98 | the tasks built from the sample descriptors have distinct ids 1-4 and describe the sample graph |
| `Gantt.SampleStored` | gantt.js:93-98 | scheduled sample tasks hold earliest 0, 4, 4, 6, latest 5, 3, 4, 0 and reserve 5, -1, 0, -6 |
| `Gantt.RunSample` | gantt.js:100-103 | `readInput` then `calculateSchedule` on the sample yields earliest 0, 4, 4, 6, latest 5, 3, 4, 0 and reserve 5, -1, 0, -6 |
| `ScheduleSpec.Completion` | gantt.js:32 | the reference completion time is at least every listed task's earliest finish and equal to one of them |
| `ScheduleSpec.EarliestOverIsMax` | gantt.js:21-25 | the loop accumulator after k dependencies is non-negative, at least each visited dependency's finish time, and (for k > 0) equal to one of them |
| `ScheduleSpec.EarliestIsMaxOfDependencies` | gantt.js:19-28 | earliest start is 0 without dependencies, otherwise exactly the maximum of `Earliest(d) + duration(d)` over the dependencies; never negative |
| `ScheduleSpec.LatestOverIsMin` | gantt.js:40-44 | the loop accumulator after k dependencies is at most the completion time and each visited `Latest(d) - duration(task)`, and equals one of these |
| `ScheduleSpec.LatestIsMinOverDependencies` | gantt.js:35-48 | latest start is `completion - duration` without dependencies, otherwise exactly the minimum of the completion time and `Latest(d) - duration(task)` over the dependencies |
| `ScheduleSpec.LatestLeavesOwnDuration` | gantt.js:35-48 | every latest start is at most `completion - duration(task)` |
| `ScheduleSpec.SingleTask` | gantt.js:13-59 | a lone task of duration d without dependencies gets earliest 0, completion d and latest 0, hence reserve 0 |
| `ScheduleSpec.SampleEarliest` | gantt.js:93-98 | on the sample graph the earliest starts are 0, 4, 4, 6 |
| `ScheduleSpec.SampleLatest` | gantt.js:93-98 | on the sample graph with completion 9 the latest starts are 5, 3, 4, 0 |
| `ScheduleSpec.SampleSchedule` | gantt.js:93-98 | the sample graph is well formed, its completion time is 9, and it has the earliest and latest starts above |

## Left out

- `displaySchedule` (gantt.js:66-70): console output only.
- `renderGanttChart` (gantt.js:72-91): output through the external `cli-chart` library, which is not part of this model.
- The script at gantt.js:100-108: console I/O. Only its input and its `readInput` / `calculateSchedule` calls are modelled (`RunSample`).
- JavaScript numbers: durations and times are unbounded `int`s and durations are required to be non-negative. Floating point, `NaN` and `Math.max()` of nothing (`-Infinity`) are not modelled, so an empty task list is excluded by a precondition.
- Cycles, unresolved dependency ids and duplicate ids: the code checks none of them. A cycle recurses without bound until the JavaScript engine throws a stack-overflow `RangeError`, an unknown id crashes on `undefined`, and a duplicate id is silently shadowed in the map. `CalculateSchedule` requires a rank that strictly decreases along dependency edges, resolvable ids and distinct ids. `BuildTaskMap` alone models the last-one-wins behaviour for duplicates.
- Call-stack depth of the recursive passes is not modelled.
- CalculateSchedule: the JavaScript array is modelled as the sequence of task references it holds. The code never writes the array itself, so the model keeps its contents and order but not the identity of the container object.
- CalculateSchedule: requires both computed fields to be 0, as `readInput` leaves them. A call on tasks whose fields already hold other values is not covered, so a second scheduling of the same records is not modelled.
- Task: `id`, `duration` and `dependencies` are constants. The scheduler never writes them, and writes to them by other code are outside this model. `reserve` holds no specified value before the reserve pass; in JavaScript it is absent.
- ReadInput: `input.map(...)` that allocates tasks is written as a loop, because allocation needs a method in Dafny.
