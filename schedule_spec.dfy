/** Reference definitions of the schedule that `calculateSchedule` in gantt.js
    computes, stated over an immutable task graph. The imperative model in
    gantt.dfy is proved to store exactly these values.

    The definitions follow the code, not textbook CPM: the backward pass
    descends into a task's *dependencies* (its predecessors) and subtracts the
    task's *own* duration, so the latest starts and reserves it yields may be
    negative. */
module ScheduleSpec {

  /** What the scheduler uses of one task besides its id. */
  datatype Node = Node(duration: int, dependencies: seq<int>)

  /** Task id -> duration and predecessor ids. */
  type Graph = map<int, Node>

  function Max(a: int, b: int): int { if a >= b then a else b }   // Math.max of two numbers
  function Min(a: int, b: int): int { if a <= b then a else b }   // Math.min of two numbers

  /** Every dependency id names a task of the graph (a lookup never yields `undefined`). */
  predicate Resolved(g: Graph) {
    forall id, d | id in g && d in g[id].dependencies :: d in g
  }

  /** `rank` strictly decreases along every dependency edge, so the graph is acyclic
      and both memoised recursions terminate. */
  predicate Ranked(g: Graph, rank: map<int, nat>) {
    forall id | id in g :: id in rank && forall d | d in g[id].dependencies :: d in rank && rank[d] < rank[id]
  }

  predicate NonNegativeDurations(g: Graph) {
    forall id | id in g :: g[id].duration >= 0
  }

  /** What the scheduler assumes of its input and does not check. */
  predicate WellFormed(g: Graph, rank: map<int, nat>) {
    Resolved(g) && Ranked(g, rank) && NonNegativeDurations(g)
  }

  // ---------------------------------------------------------------------------
  // Forward pass

  /** Earliest start of task `id`: 0 for a task without dependencies, otherwise
      the largest finish time of its dependencies. */
  function Earliest(g: Graph, rank: map<int, nat>, id: int): int
    requires WellFormed(g, rank) && id in g
    decreases rank[id], 1, 0
  {
    EarliestOver(g, rank, id, |g[id].dependencies|)
  }

  /** The accumulator `earliest` once the loop has visited the first `k` dependencies of `id`. */
  function EarliestOver(g: Graph, rank: map<int, nat>, id: int, k: nat): int
    requires WellFormed(g, rank) && id in g && k <= |g[id].dependencies|
    decreases rank[id], 0, k
  {
    if k == 0 then 0
    else
      var d := g[id].dependencies[k - 1];
      Max(EarliestOver(g, rank, id, k - 1), Earliest(g, rank, d) + g[d].duration)
  }

  /** When task `id` is finished at the earliest. */
  function Finish(g: Graph, rank: map<int, nat>, id: int): int
    requires WellFormed(g, rank) && id in g
  {
    Earliest(g, rank, id) + g[id].duration
  }

  /** Project completion time over the tasks listed in `ids`: the largest finish time. */
  function Completion(g: Graph, rank: map<int, nat>, ids: seq<int>): (c: int)
    requires WellFormed(g, rank) && |ids| > 0
    requires forall i | 0 <= i < |ids| :: ids[i] in g
    ensures forall i | 0 <= i < |ids| :: Finish(g, rank, ids[i]) <= c
    ensures exists i | 0 <= i < |ids| :: Finish(g, rank, ids[i]) == c
  {
    if |ids| == 1 then Finish(g, rank, ids[0])
    else Max(Completion(g, rank, ids[..|ids| - 1]), Finish(g, rank, ids[|ids| - 1]))
  }

  // ---------------------------------------------------------------------------
  // Backward pass, as the code computes it

  /** Latest start of task `id` against the horizon `pct`: `pct - duration` for a
      task without dependencies; otherwise the least of `pct` and, for each
      dependency `d`, `Latest(d) - duration(id)`. */
  function Latest(g: Graph, rank: map<int, nat>, pct: int, id: int): int
    requires WellFormed(g, rank) && id in g
    decreases rank[id], 1, 0
  {
    if |g[id].dependencies| == 0 then pct - g[id].duration
    else LatestOver(g, rank, pct, id, |g[id].dependencies|)
  }

  /** The accumulator `latest` once the loop has visited the first `k` dependencies of `id`. */
  function LatestOver(g: Graph, rank: map<int, nat>, pct: int, id: int, k: nat): int
    requires WellFormed(g, rank) && id in g && k <= |g[id].dependencies|
    decreases rank[id], 0, k
  {
    if k == 0 then pct
    else
      var d := g[id].dependencies[k - 1];
      Min(LatestOver(g, rank, pct, id, k - 1), Latest(g, rank, pct, d) - g[id].duration)
  }

  // ---------------------------------------------------------------------------
  // Properties of the forward pass

  lemma {:induction false} EarliestOverIsMax(g: Graph, rank: map<int, nat>, id: int, k: nat)
    requires WellFormed(g, rank) && id in g && k <= |g[id].dependencies|
    ensures EarliestOver(g, rank, id, k) >= 0
    ensures forall j | 0 <= j < k :: EarliestOver(g, rank, id, k) >= Finish(g, rank, g[id].dependencies[j])
    ensures k > 0 ==> exists j | 0 <= j < k :: EarliestOver(g, rank, id, k) == Finish(g, rank, g[id].dependencies[j])
    decreases rank[id], k
  {
    if k > 0 {
      EarliestOverIsMax(g, rank, id, k - 1);
      if k == 1 {
        // the first finish time is not below the initial 0
        var d := g[id].dependencies[0];
        EarliestOverIsMax(g, rank, d, |g[d].dependencies|);
      }
    }
  }

  /** The forward pass: 0 without dependencies, else exactly the maximum over the
      dependencies `d` of `Earliest(d) + duration(d)`; never negative. */
  lemma EarliestIsMaxOfDependencies(g: Graph, rank: map<int, nat>, id: int)
    requires WellFormed(g, rank) && id in g
    ensures Earliest(g, rank, id) >= 0
    ensures |g[id].dependencies| == 0 ==> Earliest(g, rank, id) == 0
    ensures forall d | d in g[id].dependencies :: Earliest(g, rank, id) >= Earliest(g, rank, d) + g[d].duration
    ensures |g[id].dependencies| > 0 ==>
              exists d | d in g[id].dependencies :: Earliest(g, rank, id) == Earliest(g, rank, d) + g[d].duration
  {
    var deps := g[id].dependencies;
    EarliestOverIsMax(g, rank, id, |deps|);
    forall d | d in deps ensures Earliest(g, rank, id) >= Finish(g, rank, d) {
      var j :| 0 <= j < |deps| && deps[j] == d;
    }
    if |deps| > 0 {
      var j :| 0 <= j < |deps| && Earliest(g, rank, id) == Finish(g, rank, deps[j]);
      assert deps[j] in deps;
    }
  }

  // ---------------------------------------------------------------------------
  // Properties of the backward pass

  lemma {:induction false} LatestOverIsMin(g: Graph, rank: map<int, nat>, pct: int, id: int, k: nat)
    requires WellFormed(g, rank) && id in g && k <= |g[id].dependencies|
    ensures LatestOver(g, rank, pct, id, k) <= pct
    ensures forall j | 0 <= j < k ::
              LatestOver(g, rank, pct, id, k) <= Latest(g, rank, pct, g[id].dependencies[j]) - g[id].duration
    ensures LatestOver(g, rank, pct, id, k) == pct ||
            exists j | 0 <= j < k ::
              LatestOver(g, rank, pct, id, k) == Latest(g, rank, pct, g[id].dependencies[j]) - g[id].duration
  {
    if k > 0 {
      LatestOverIsMin(g, rank, pct, id, k - 1);
    }
  }

  /** The backward pass as written: `pct - duration` without dependencies, else
      exactly the minimum of `pct` and, over the dependencies `d`,
      `Latest(d) - duration(id)`. */
  lemma LatestIsMinOverDependencies(g: Graph, rank: map<int, nat>, pct: int, id: int)
    requires WellFormed(g, rank) && id in g
    ensures |g[id].dependencies| == 0 ==> Latest(g, rank, pct, id) == pct - g[id].duration
    ensures |g[id].dependencies| > 0 ==> Latest(g, rank, pct, id) <= pct
    ensures forall d | d in g[id].dependencies :: Latest(g, rank, pct, id) <= Latest(g, rank, pct, d) - g[id].duration
    ensures |g[id].dependencies| > 0 ==>
              Latest(g, rank, pct, id) == pct ||
              exists d | d in g[id].dependencies :: Latest(g, rank, pct, id) == Latest(g, rank, pct, d) - g[id].duration
  {
    var deps := g[id].dependencies;
    if |deps| > 0 {
      LatestOverIsMin(g, rank, pct, id, |deps|);
      forall d | d in deps ensures Latest(g, rank, pct, id) <= Latest(g, rank, pct, d) - g[id].duration {
        var j :| 0 <= j < |deps| && deps[j] == d;
      }
      if Latest(g, rank, pct, id) != pct {
        var j :| 0 <= j < |deps| && Latest(g, rank, pct, id) == Latest(g, rank, pct, deps[j]) - g[id].duration;
        assert deps[j] in deps;
      }
    }
  }

  /** Every latest start leaves room for the task itself before the horizon. */
  lemma {:induction false} LatestLeavesOwnDuration(g: Graph, rank: map<int, nat>, pct: int, id: int)
    requires WellFormed(g, rank) && id in g
    ensures Latest(g, rank, pct, id) <= pct - g[id].duration
    decreases rank[id]
  {
    var deps := g[id].dependencies;
    if |deps| > 0 {
      var d := deps[0];
      LatestIsMinOverDependencies(g, rank, pct, id);
      LatestLeavesOwnDuration(g, rank, pct, d);
    }
  }

  // ---------------------------------------------------------------------------
  // Scenarios

  /** A single task of duration `dur` without dependencies: earliest 0, the
      project completes at `dur`, latest start 0, hence reserve 0. */
  lemma SingleTask(id: int, dur: nat)
    ensures var g := map[id := Node(dur, [])];
            var rank := map[id := 0];
            WellFormed(g, rank) &&
            Earliest(g, rank, id) == 0 &&
            Completion(g, rank, [id]) == dur &&
            Latest(g, rank, dur, id) == 0
  {
    var g := map[id := Node(dur, [])];
    var rank := map[id := 0];
    assert EarliestOver(g, rank, id, 0) == 0;
  }

  /** The sample project of gantt.js:93-98. */
  function SampleGraph(): Graph {
    map[1 := Node(4, []), 2 := Node(2, [1]), 3 := Node(1, [1]), 4 := Node(3, [2, 3])]
  }

  function SampleRank(): map<int, nat> {
    map[1 := 0, 2 := 1, 3 := 1, 4 := 2]
  }

  lemma SampleEarliest()
    ensures WellFormed(SampleGraph(), SampleRank())
    ensures var g, rank := SampleGraph(), SampleRank();
            Earliest(g, rank, 1) == 0 && Earliest(g, rank, 2) == 4 &&
            Earliest(g, rank, 3) == 4 && Earliest(g, rank, 4) == 6
  {
    var g, rank := SampleGraph(), SampleRank();
    assert WellFormed(g, rank);
    assert Earliest(g, rank, 1) == 0;
    assert Earliest(g, rank, 2) == 4;
    assert Earliest(g, rank, 3) == 4;
    assert EarliestOver(g, rank, 4, 1) == 6;
  }

  lemma SampleLatest()
    requires WellFormed(SampleGraph(), SampleRank())
    ensures var g, rank := SampleGraph(), SampleRank();
            Latest(g, rank, 9, 1) == 5 && Latest(g, rank, 9, 2) == 3 &&
            Latest(g, rank, 9, 3) == 4 && Latest(g, rank, 9, 4) == 0
  {
    var g, rank := SampleGraph(), SampleRank();
    assert Latest(g, rank, 9, 1) == 5;
    assert Latest(g, rank, 9, 2) == 3;
    assert Latest(g, rank, 9, 3) == 4;
    assert LatestOver(g, rank, 9, 4, 1) == 0;
  }

  /** On the sample the code yields earliest starts 0, 4, 4, 6, completion 9 and
      latest starts 5, 3, 4, 0 (reserves 5, -1, 0, -6). */
  lemma SampleSchedule()
    ensures WellFormed(SampleGraph(), SampleRank())
    ensures var g, rank := SampleGraph(), SampleRank();
            Earliest(g, rank, 1) == 0 && Earliest(g, rank, 2) == 4 &&
            Earliest(g, rank, 3) == 4 && Earliest(g, rank, 4) == 6 &&
            Completion(g, rank, [1, 2, 3, 4]) == 9 &&
            Latest(g, rank, 9, 1) == 5 && Latest(g, rank, 9, 2) == 3 &&
            Latest(g, rank, 9, 3) == 4 && Latest(g, rank, 9, 4) == 0
  {
    var g, rank := SampleGraph(), SampleRank();
    SampleEarliest();
    SampleLatest();
    assert [1, 2, 3, 4][..3] == [1, 2, 3];
    assert [1, 2, 3][..2] == [1, 2];
    assert [1, 2][..1] == [1];
  }
}
