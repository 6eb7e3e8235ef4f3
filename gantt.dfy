/** The imperative scheduler of gantt.js: `Task` objects whose computed fields
    are written in place, the id -> task map, the two memoised recursive passes,
    the completion time and the reserve pass, and `readInput`.

    The memo guards test `!== 0`, so a stored 0 means "not computed yet" even
    when 0 is the right answer; the invariant that makes this harmless is that
    every stored value is either 0 or the value of the reference definition
    (EarliestMemo, LatestMemo). */
module Gantt {
  import opened ScheduleSpec

  /** An input descriptor `{id, duration, dependencies}`. */
  datatype Desc = Desc(id: int, duration: int, dependencies: seq<int>)

  /** A task. The scheduler never writes `id`, `duration` or `dependencies`,
      so they are constants here; it writes the other three fields in place.
      `reserve` is not set by the constructor (in the source it is absent until
      the reserve pass writes it). */
  class Task {
    const id: int
    const duration: int
    const dependencies: seq<int>
    var earliestStart: int
    var latestStart: int
    var reserve: int

    constructor (id: int, duration: int, dependencies: seq<int> := [])
      ensures this.id == id && this.duration == duration && this.dependencies == dependencies
      ensures earliestStart == 0 && latestStart == 0
    {
      this.id := id;
      this.duration := duration;
      this.dependencies := dependencies;
      earliestStart := 0;
      latestStart := 0;
    }
  }

  /** The tasks' ids, in list order: position i holds the id of task i. */
  function Ids(ts: seq<Task>): (ids: seq<int>)
    ensures |ids| == |ts| && forall i | 0 <= i < |ts| :: ids[i] == ts[i].id
  {
    if |ts| == 0 then [] else Ids(ts[..|ts| - 1]) + [ts[|ts| - 1].id]
  }

  predicate UniqueIds(ts: seq<Task>) {
    forall i, j | 0 <= i < |ts| && 0 <= j < |ts| && ts[i].id == ts[j].id :: i == j
  }

  /** The task graph the tasks describe, keyed by id. */
  function TaskGraph(ts: seq<Task>): Graph
    requires UniqueIds(ts)
  {
    map i | 0 <= i < |ts| :: ts[i].id := Node(ts[i].duration, ts[i].dependencies)
  }

  /** `tm` holds, under each id of `g`, a task with that id carrying `g`'s data. */
  predicate Mirrors(tm: map<int, Task>, g: Graph) {
    (forall k | k in g :: k in tm) &&
    (forall k | k in tm :: tm[k].id == k && k in g && g[k] == Node(tm[k].duration, tm[k].dependencies))
  }

  /** Each stored earliest start is 0 (not computed, or computed as 0) or its value. */
  ghost predicate EarliestMemo(tm: map<int, Task>, g: Graph, rank: map<int, nat>)
    requires WellFormed(g, rank) && Mirrors(tm, g)
    reads tm.Values`earliestStart
  {
    forall k | k in tm :: tm[k].earliestStart == 0 || tm[k].earliestStart == Earliest(g, rank, k)
  }

  /** Each stored latest start is 0 (not computed, or computed as 0) or its value. */
  ghost predicate LatestMemo(tm: map<int, Task>, g: Graph, rank: map<int, nat>, pct: int)
    requires WellFormed(g, rank) && Mirrors(tm, g)
    reads tm.Values`latestStart
  {
    forall k | k in tm :: tm[k].latestStart == 0 || tm[k].latestStart == Latest(g, rank, pct, k)
  }

  /** No task of `tm` has a latest start stored yet. */
  ghost predicate LatestUnset(tm: map<int, Task>)
    reads tm.Values`latestStart
  {
    forall k | k in tm :: tm[k].latestStart == 0
  }

  /** With no latest start stored, the memo invariant of the backward pass holds for any horizon. */
  lemma LatestUnsetIsMemo(tm: map<int, Task>, g: Graph, rank: map<int, nat>, pct: int)
    requires WellFormed(g, rank) && Mirrors(tm, g)
    requires LatestUnset(tm)
    ensures LatestMemo(tm, g, rank, pct)
  {
  }

  /** `tasks.forEach(task => taskMap.set(task.id, task))`: the map has one key
      per id, and a later task replaces an earlier one with the same id. */
  method BuildTaskMap(tasks: seq<Task>) returns (m: map<int, Task>)
    ensures forall k :: k in m <==> exists i | 0 <= i < |tasks| :: tasks[i].id == k
    ensures forall k | k in m :: m[k].id == k
    ensures forall i | 0 <= i < |tasks| && (forall j | i < j < |tasks| :: tasks[j].id != tasks[i].id) ::
              m[tasks[i].id] == tasks[i]
  {
    m := map[];
    for i := 0 to |tasks|
      invariant forall k :: k in m <==> exists j | 0 <= j < i :: tasks[j].id == k
      invariant forall k | k in m :: m[k].id == k
      invariant forall j | 0 <= j < i && (forall l | j < l < i :: tasks[l].id != tasks[j].id) :: m[tasks[j].id] == tasks[j]
    {
      m := m[tasks[i].id := tasks[i]];
    }
  }

  /** `calculateEarliestStart`: returns and stores the earliest start of `task`;
      every other task's field keeps its value or receives its own earliest start. */
  method CalculateEarliestStart(taskMap: map<int, Task>, task: Task, ghost g: Graph, ghost rank: map<int, nat>)
    returns (e: int)
    requires WellFormed(g, rank) && Mirrors(taskMap, g)
    requires task.id in taskMap && taskMap[task.id] == task
    requires EarliestMemo(taskMap, g, rank)
    modifies taskMap.Values`earliestStart
    ensures e == Earliest(g, rank, task.id) && task.earliestStart == e
    ensures forall k | k in taskMap ::
              taskMap[k].earliestStart == old(taskMap[k].earliestStart) ||
              taskMap[k].earliestStart == Earliest(g, rank, k)
    ensures EarliestMemo(taskMap, g, rank)
    decreases rank[task.id]
  {
    if task.earliestStart != 0 {
      return task.earliestStart;
    }
    var earliest := 0;
    for i := 0 to |task.dependencies|
      invariant earliest == EarliestOver(g, rank, task.id, i)
      invariant EarliestMemo(taskMap, g, rank)
      invariant forall k | k in taskMap ::
                  taskMap[k].earliestStart == old(taskMap[k].earliestStart) ||
                  taskMap[k].earliestStart == Earliest(g, rank, k)
    {
      var dep := task.dependencies[i];
      var depTask := taskMap[dep];
      var depEarliest := CalculateEarliestStart(taskMap, depTask, g, rank);
      earliest := Max(earliest, depEarliest + depTask.duration);
    }
    task.earliestStart := earliest;
    e := earliest;
  }

  /** `calculateLatestStart` against the completion time `pct`: returns and stores
      the latest start of `task`; every other task's field keeps its value or
      receives its own latest start. */
  method CalculateLatestStart(taskMap: map<int, Task>, task: Task, pct: int, ghost g: Graph, ghost rank: map<int, nat>)
    returns (l: int)
    requires WellFormed(g, rank) && Mirrors(taskMap, g)
    requires task.id in taskMap && taskMap[task.id] == task
    requires LatestMemo(taskMap, g, rank, pct)
    modifies taskMap.Values`latestStart
    ensures l == Latest(g, rank, pct, task.id) && task.latestStart == l
    ensures forall k | k in taskMap ::
              taskMap[k].latestStart == old(taskMap[k].latestStart) ||
              taskMap[k].latestStart == Latest(g, rank, pct, k)
    ensures LatestMemo(taskMap, g, rank, pct)
    decreases rank[task.id]
  {
    if task.latestStart != 0 {
      return task.latestStart;
    }
    if |task.dependencies| == 0 {
      task.latestStart := pct - task.duration;
    } else {
      var latest := pct;
      for i := 0 to |task.dependencies|
        invariant latest == LatestOver(g, rank, pct, task.id, i)
        invariant LatestMemo(taskMap, g, rank, pct)
        invariant forall k | k in taskMap ::
                    taskMap[k].latestStart == old(taskMap[k].latestStart) ||
                    taskMap[k].latestStart == Latest(g, rank, pct, k)
      {
        var dep := task.dependencies[i];
        var depTask := taskMap[dep];
        var depLatest := CalculateLatestStart(taskMap, depTask, pct, g, rank);
        latest := Min(latest, depLatest - task.duration);
      }
      task.latestStart := latest;
    }
    l := task.latestStart;
  }

  /** `Math.max(...tasks.map(task => task.earliestStart + task.duration))`. */
  function MaxFinish(ts: seq<Task>): (m: int)
    requires |ts| > 0
    reads ts
    ensures forall i | 0 <= i < |ts| :: ts[i].earliestStart + ts[i].duration <= m
    ensures exists i | 0 <= i < |ts| :: ts[i].earliestStart + ts[i].duration == m
  {
    if |ts| == 1 then ts[0].earliestStart + ts[0].duration
    else Max(MaxFinish(ts[..|ts| - 1]), ts[|ts| - 1].earliestStart + ts[|ts| - 1].duration)
  }

  /** The id -> task map of distinct-id tasks mirrors their graph and holds exactly them. */
  lemma TaskMapMirrors(tasks: seq<Task>, m: map<int, Task>)
    requires UniqueIds(tasks)
    requires forall k :: k in m <==> exists i | 0 <= i < |tasks| :: tasks[i].id == k
    requires forall k | k in m :: m[k].id == k
    requires forall i | 0 <= i < |tasks| && (forall j | i < j < |tasks| :: tasks[j].id != tasks[i].id) ::
               m[tasks[i].id] == tasks[i]
    ensures Mirrors(m, TaskGraph(tasks))
    ensures forall i | 0 <= i < |tasks| :: tasks[i].id in m && m[tasks[i].id] == tasks[i]
    ensures m.Values <= set t | t in tasks
  {
    var g := TaskGraph(tasks);
    forall i | 0 <= i < |tasks| ensures tasks[i].id in m && m[tasks[i].id] == tasks[i] {
    }
    forall k | k in m ensures m[k] in tasks && k in g && g[k] == Node(m[k].duration, m[k].dependencies) {
      var i :| 0 <= i < |tasks| && tasks[i].id == k;
      assert tasks[i] in tasks;
    }
    forall k | k in g ensures k in m {
      var i :| 0 <= i < |tasks| && tasks[i].id == k;
    }
  }

  /** The id -> task map of distinct-id tasks, built by `BuildTaskMap`: it
      mirrors their graph, holds every task under its own id and nothing else. */
  method DistinctTaskMap(tasks: seq<Task>) returns (m: map<int, Task>)
    requires UniqueIds(tasks)
    ensures Mirrors(m, TaskGraph(tasks))
    ensures forall i | 0 <= i < |tasks| :: tasks[i].id in m && m[tasks[i].id] == tasks[i]
    ensures m.Values <= set t | t in tasks
  {
    m := BuildTaskMap(tasks);
    TaskMapMirrors(tasks, m);
  }

  /** Every task holds its earliest start. */
  ghost predicate EarliestStored(tasks: seq<Task>, g: Graph, rank: map<int, nat>)
    requires WellFormed(g, rank) && forall i | 0 <= i < |tasks| :: tasks[i].id in g
    reads tasks`earliestStart
  {
    forall i | 0 <= i < |tasks| :: tasks[i].earliestStart == Earliest(g, rank, tasks[i].id)
  }

  /** Every task holds its latest start against `pct`. */
  ghost predicate LatestStored(tasks: seq<Task>, g: Graph, rank: map<int, nat>, pct: int)
    requires WellFormed(g, rank) && forall i | 0 <= i < |tasks| :: tasks[i].id in g
    reads tasks`latestStart
  {
    forall i | 0 <= i < |tasks| :: tasks[i].latestStart == Latest(g, rank, pct, tasks[i].id)
  }

  /** Every task holds reserve = latest start - earliest start. */
  ghost predicate ReserveStored(tasks: seq<Task>)
    reads tasks`reserve, tasks`latestStart, tasks`earliestStart
  {
    forall i | 0 <= i < |tasks| :: tasks[i].reserve == tasks[i].latestStart - tasks[i].earliestStart
  }

  /** `tasks.forEach(task => calculateEarliestStart(task))`: afterwards every
      task holds its earliest start. */
  method ForwardPass(tasks: seq<Task>, taskMap: map<int, Task>, ghost g: Graph, ghost rank: map<int, nat>)
    requires WellFormed(g, rank) && Mirrors(taskMap, g)
    requires forall i | 0 <= i < |tasks| :: tasks[i].id in taskMap && taskMap[tasks[i].id] == tasks[i]
    requires taskMap.Values <= set t | t in tasks
    requires EarliestMemo(taskMap, g, rank)
    modifies tasks`earliestStart
    ensures EarliestStored(tasks, g, rank)
  {
    for i := 0 to |tasks|
      invariant EarliestMemo(taskMap, g, rank)
      invariant forall j | 0 <= j < i :: tasks[j].earliestStart == Earliest(g, rank, tasks[j].id)
    {
      label before:
      var _ := CalculateEarliestStart(taskMap, tasks[i], g, rank);
      forall j | 0 <= j < i ensures tasks[j].earliestStart == Earliest(g, rank, tasks[j].id) {
        assert taskMap[tasks[j].id] == tasks[j];
        assert old@before(tasks[j].earliestStart) == Earliest(g, rank, tasks[j].id);
      }
    }
  }

  /** `tasks.forEach(task => calculateLatestStart(task))`: afterwards every
      task holds its latest start against `pct`. */
  method BackwardPass(tasks: seq<Task>, taskMap: map<int, Task>, pct: int, ghost g: Graph, ghost rank: map<int, nat>)
    requires WellFormed(g, rank) && Mirrors(taskMap, g)
    requires forall i | 0 <= i < |tasks| :: tasks[i].id in taskMap && taskMap[tasks[i].id] == tasks[i]
    requires taskMap.Values <= set t | t in tasks
    requires LatestMemo(taskMap, g, rank, pct)
    modifies tasks`latestStart
    ensures LatestStored(tasks, g, rank, pct)
  {
    for i := 0 to |tasks|
      invariant LatestMemo(taskMap, g, rank, pct)
      invariant forall j | 0 <= j < i :: tasks[j].latestStart == Latest(g, rank, pct, tasks[j].id)
    {
      var _ := CalculateLatestStart(taskMap, tasks[i], pct, g, rank);
    }
  }

  /** `tasks.forEach(task => { task.reserve = task.latestStart - task.earliestStart; })`. */
  method ReservePass(tasks: seq<Task>)
    modifies tasks`reserve
    ensures ReserveStored(tasks)
  {
    for i := 0 to |tasks|
      invariant forall j | 0 <= j < i :: tasks[j].reserve == tasks[j].latestStart - tasks[j].earliestStart
    {
      tasks[i].reserve := tasks[i].latestStart - tasks[i].earliestStart;
    }
  }

  /** Once every task holds its earliest start, the stored completion time is the
      reference one: both are the largest finish time. */
  lemma MaxFinishIsCompletion(ts: seq<Task>, g: Graph, rank: map<int, nat>)
    requires |ts| > 0 && WellFormed(g, rank)
    requires forall i | 0 <= i < |ts| :: ts[i].id in g && g[ts[i].id].duration == ts[i].duration
    requires forall i | 0 <= i < |ts| :: ts[i].earliestStart == Earliest(g, rank, ts[i].id)
    ensures MaxFinish(ts) == Completion(g, rank, Ids(ts))
  {
  }

  /** `calculateSchedule`: on distinct-id tasks that form a well-formed graph and
      whose computed fields are 0 (as `readInput` leaves them), it returns the
      same tasks in the same order; every task then holds its earliest start,
      its latest start against the completion time of all tasks, and
      reserve = latest - earliest (EarliestStored, LatestStored, ReserveStored),
      whatever order the tasks come in. Only those three fields are written. */
  method CalculateSchedule(tasks: seq<Task>, ghost rank: map<int, nat>) returns (result: seq<Task>)
    requires |tasks| > 0
    requires UniqueIds(tasks)
    requires WellFormed(TaskGraph(tasks), rank)
    requires forall i | 0 <= i < |tasks| :: tasks[i].earliestStart == 0 && tasks[i].latestStart == 0
    modifies tasks`earliestStart, tasks`latestStart, tasks`reserve
    ensures result == tasks
    ensures WellFormed(TaskGraph(tasks), rank) && forall i | 0 <= i < |tasks| :: tasks[i].id in TaskGraph(tasks)
    ensures EarliestStored(tasks, TaskGraph(tasks), rank)
    ensures LatestStored(tasks, TaskGraph(tasks), rank, Completion(TaskGraph(tasks), rank, Ids(tasks)))
    ensures ReserveStored(tasks)
  {
    ghost var g := TaskGraph(tasks);
    var taskMap := DistinctTaskMap(tasks);
    assert forall k | k in taskMap :: taskMap[k].earliestStart == 0 && taskMap[k].latestStart == 0 by {
      forall k | k in taskMap ensures taskMap[k].earliestStart == 0 && taskMap[k].latestStart == 0 {
        assert taskMap[k] in taskMap.Values;
      }
    }
    assert EarliestMemo(taskMap, g, rank);
    assert LatestUnset(taskMap);
    ForwardPass(tasks, taskMap, g, rank);

    var projectCompletionTime := MaxFinish(tasks);
    MaxFinishIsCompletion(tasks, g, rank);
    LatestUnsetIsMemo(taskMap, g, rank, projectCompletionTime);
    BackwardPass(tasks, taskMap, projectCompletionTime, g, rank);
    assert EarliestStored(tasks, g, rank);
    ReservePass(tasks);
    return tasks;
  }

  /** `readInput`: one fresh task per descriptor, in order, with the same id,
      duration and dependencies and with both computed fields 0. */
  method ReadInput(input: seq<Desc>) returns (tasks: seq<Task>)
    ensures |tasks| == |input|
    ensures forall i | 0 <= i < |input| ::
              fresh(tasks[i]) &&
              tasks[i].id == input[i].id && tasks[i].duration == input[i].duration &&
              tasks[i].dependencies == input[i].dependencies &&
              tasks[i].earliestStart == 0 && tasks[i].latestStart == 0
    ensures forall i, j | 0 <= i < j < |input| :: tasks[i] != tasks[j]
  {
    tasks := [];
    for i := 0 to |input|
      invariant |tasks| == i
      invariant forall j | 0 <= j < i ::
                  fresh(tasks[j]) &&
                  tasks[j].id == input[j].id && tasks[j].duration == input[j].duration &&
                  tasks[j].dependencies == input[j].dependencies &&
                  tasks[j].earliestStart == 0 && tasks[j].latestStart == 0
      invariant forall j, l | 0 <= j < l < i :: tasks[j] != tasks[l]
    {
      var task := new Task(input[i].id, input[i].duration, input[i].dependencies);
      tasks := tasks + [task];
    }
  }

  /** The sample input of gantt.js:93-98. */
  function SampleInput(): seq<Desc> {
    [Desc(1, 4, []), Desc(2, 2, [1]), Desc(3, 1, [1]), Desc(4, 3, [2, 3])]
  }

  /** Tasks carrying the sample's descriptors describe the sample graph. */
  lemma SampleTasksGraph(tasks: seq<Task>)
    requires |tasks| == 4
    requires tasks[0].id == 1 && tasks[0].duration == 4 && tasks[0].dependencies == []
    requires tasks[1].id == 2 && tasks[1].duration == 2 && tasks[1].dependencies == [1]
    requires tasks[2].id == 3 && tasks[2].duration == 1 && tasks[2].dependencies == [1]
    requires tasks[3].id == 4 && tasks[3].duration == 3 && tasks[3].dependencies == [2, 3]
    ensures Ids(tasks) == [1, 2, 3, 4]
    ensures UniqueIds(tasks) && TaskGraph(tasks) == SampleGraph()
  {
    // Not needed for validity; these steps keep the proof cheap and stable.
    var g := TaskGraph(tasks);
    assert g.Keys == SampleGraph().Keys by {
      assert tasks[0].id in g && tasks[1].id in g && tasks[2].id in g && tasks[3].id in g;
    }
  }

  /** What the stored fields of the sample tasks are once scheduled. */
  lemma SampleStored(tasks: seq<Task>)
    requires |tasks| == 4 && Ids(tasks) == [1, 2, 3, 4]
    requires WellFormed(SampleGraph(), SampleRank())
    requires EarliestStored(tasks, SampleGraph(), SampleRank())
    requires LatestStored(tasks, SampleGraph(), SampleRank(), 9)
    requires ReserveStored(tasks)
    ensures tasks[0].earliestStart == 0 && tasks[1].earliestStart == 4 &&
            tasks[2].earliestStart == 4 && tasks[3].earliestStart == 6
    ensures tasks[0].latestStart == 5 && tasks[1].latestStart == 3 &&
            tasks[2].latestStart == 4 && tasks[3].latestStart == 0
    ensures tasks[0].reserve == 5 && tasks[1].reserve == -1 &&
            tasks[2].reserve == 0 && tasks[3].reserve == -6
  {
  }

  /** The script's run: `readInput` then `calculateSchedule` on the sample
      yields earliest starts 0, 4, 4, 6, latest starts 5, 3, 4, 0 and
      reserves 5, -1, 0, -6. */
  method RunSample() returns (scheduled: seq<Task>)
    ensures |scheduled| == 4
    ensures scheduled[0].earliestStart == 0 && scheduled[1].earliestStart == 4 &&
            scheduled[2].earliestStart == 4 && scheduled[3].earliestStart == 6
    ensures scheduled[0].latestStart == 5 && scheduled[1].latestStart == 3 &&
            scheduled[2].latestStart == 4 && scheduled[3].latestStart == 0
    ensures scheduled[0].reserve == 5 && scheduled[1].reserve == -1 &&
            scheduled[2].reserve == 0 && scheduled[3].reserve == -6
  {
    var input := SampleInput();
    var tasks := ReadInput(input);
    assert tasks[0].id == input[0].id && tasks[1].id == input[1].id && tasks[2].id == input[2].id && tasks[3].id == input[3].id;
    SampleTasksGraph(tasks);
    SampleSchedule();
    scheduled := CalculateSchedule(tasks, SampleRank());
    SampleStored(tasks);
  }
}
