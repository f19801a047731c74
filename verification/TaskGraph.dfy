/** Task dependency graphs: chains, cycles, and schedules in stages. */
module TaskGraph {

  type TaskId = string

  datatype TaskNode = TaskNode(taskId: TaskId, dependsOn: seq<TaskId>, teamType: string)

  type Tasks = map<TaskId, TaskNode>

  predicate DependsOn(g: Tasks, u: TaskId, w: TaskId) {
    u in g && w in g[u].dependsOn
  }

  /** Every dependency names a task. */
  ghost predicate IsClosed(g: Tasks) {
    forall u, w | DependsOn(g, u, w) :: w in g
  }

  /** A walk from a task to a dependency, on to a dependency of that, and so on. */
  ghost predicate IsChain(g: Tasks, p: seq<TaskId>) {
    p != [] && forall i | 0 <= i < |p| - 1 :: DependsOn(g, p[i], p[i + 1])
  }

  ghost predicate IsCycle(g: Tasks, p: seq<TaskId>) {
    IsChain(g, p) && |p| >= 2 && p[0] == p[|p| - 1]
  }

  ghost predicate IsCyclic(g: Tasks) {
    exists p :: IsCycle(g, p)
  }

  /** The longest chain that starts at u has n links. */
  ghost predicate LongestChain(g: Tasks, u: TaskId, n: nat) {
    (exists p :: IsChain(g, p) && p[0] == u && |p| == n + 1) &&
    forall p | IsChain(g, p) && p[0] == u :: |p| <= n + 1
  }

  /** Each task is in exactly one stage, and after everything it depends on. */
  ghost predicate IsSchedule(g: Tasks, stages: seq<seq<TaskId>>) {
    (forall u | u in g :: exists s :: 0 <= s < |stages| && u in stages[s]) &&
    (forall s, u | 0 <= s < |stages| && u in stages[s] :: u in g) &&
    (forall s, t, u | 0 <= s < t < |stages| && u in stages[s] :: u !in stages[t]) &&
    (forall s, t, u, w | 0 <= s < |stages| && 0 <= t < |stages| && u in stages[s] && w in stages[t] &&
        DependsOn(g, u, w) :: t < s)
  }

  /** No task appears twice, within a stage or across stages. */
  ghost predicate IsDuplicateFree(stages: seq<seq<TaskId>>) {
    (forall s, i, j | 0 <= s < |stages| && 0 <= i < j < |stages[s]| :: stages[s][i] != stages[s][j]) &&
    (forall s, t, u | 0 <= s < t < |stages| && u in stages[s] :: u !in stages[t])
  }

  /** The tasks of the first n stages. */
  function Scheduled(stages: seq<seq<TaskId>>): set<TaskId> {
    set s, u | 0 <= s < |stages| && u in stages[s] :: u
  }

  /** Every task sits as early as its dependencies allow. */
  ghost predicate IsTight(g: Tasks, stages: seq<seq<TaskId>>) {
    forall s, u | 0 <= s < |stages| && u in stages[s] ::
      u in g && (forall w | DependsOn(g, u, w) :: w in Scheduled(stages[..s])) &&
      (s > 0 ==> exists w :: DependsOn(g, u, w) && w in stages[s - 1])
  }

  /** What the planner returns: all tasks, each once, in non-empty stages, each as early as possible. */
  ghost predicate IsPlan(g: Tasks, stages: seq<seq<TaskId>>) {
    Scheduled(stages) == g.Keys && IsDuplicateFree(stages) && IsTight(g, stages) &&
    forall s | 0 <= s < |stages| :: stages[s] != []
  }

  // ---- Building chains ---------------------------------------------------------------

  lemma SingleChain(g: Tasks, u: TaskId)
    ensures IsChain(g, [u])
  {
  }

  lemma ChainSuffix(g: Tasks, p: seq<TaskId>, i: nat)
    requires IsChain(g, p) && i < |p|
    ensures IsChain(g, p[i..])
  {
    forall j | 0 <= j < |p[i..]| - 1
      ensures DependsOn(g, p[i..][j], p[i..][j + 1])
    {
      assert DependsOn(g, p[i + j], p[i + j + 1]);
    }
  }

  lemma ChainAppend(g: Tasks, p: seq<TaskId>, q: seq<TaskId>)
    requires IsChain(g, p) && IsChain(g, q) && DependsOn(g, p[|p| - 1], q[0])
    ensures IsChain(g, p + q)
  {
    forall i | 0 <= i < |p + q| - 1
      ensures DependsOn(g, (p + q)[i], (p + q)[i + 1])
    {
      if i < |p| - 1 {
        assert DependsOn(g, p[i], p[i + 1]);
      } else if i >= |p| {
        assert DependsOn(g, q[i - |p|], q[i - |p| + 1]);
      }
    }
  }

  // ---- Plans, chains and cycles ------------------------------------------------------

  /** A tight staging puts dependencies strictly earlier. */
  lemma TightIsEarlier(g: Tasks, stages: seq<seq<TaskId>>, s: nat, u: TaskId, w: TaskId) returns (t: nat)
    requires IsTight(g, stages) && s < |stages| && u in stages[s] && DependsOn(g, u, w)
    ensures t < s && w in stages[t]
  {
    assert w in Scheduled(stages[..s]);
    t :| 0 <= t < s && w in stages[..s][t];
  }

  lemma {:induction false} ChainFitsBelow(g: Tasks, stages: seq<seq<TaskId>>, s: nat, p: seq<TaskId>) returns (t: nat)
    requires IsTight(g, stages) && IsChain(g, p) && s < |stages| && p[0] in stages[s]
    ensures |p| - 1 <= s && t < |stages| && p[|p| - 1] in stages[t] && t <= s && (|p| >= 2 ==> t < s)
    decreases |p|
  {
    if |p| == 1 {
      t := s;
    } else {
      assert DependsOn(g, p[0], p[0 + 1]);
      var s' := TightIsEarlier(g, stages, s, p[0], p[1]);
      ChainSuffix(g, p, 1);
      hide IsTight, IsChain;
      t := ChainFitsBelow(g, stages, s', p[1..]);
    }
  }

  lemma {:induction false} ChainFromStage(g: Tasks, stages: seq<seq<TaskId>>, s: nat, u: TaskId)
    returns (p: seq<TaskId>)
    requires IsTight(g, stages) && s < |stages| && u in stages[s]
    ensures IsChain(g, p) && p[0] == u && |p| == s + 1
  {
    if s == 0 {
      p := [u];
    } else {
      var w :| DependsOn(g, u, w) && w in stages[s - 1];
      var rest := ChainFromStage(g, stages, s - 1, w);
      p := [u] + rest;
      ChainAppend(g, [u], rest);
    }
  }

  /** The stage of a task is the length of its longest dependency chain. */
  lemma StageIsLongestChain(g: Tasks, stages: seq<seq<TaskId>>, s: nat, u: TaskId)
    requires IsTight(g, stages) && s < |stages| && u in stages[s]
    ensures LongestChain(g, u, s)
  {
    var p := ChainFromStage(g, stages, s, u);
    forall p | IsChain(g, p) && p[0] == u
      ensures |p| <= s + 1
    {
      var _ := ChainFitsBelow(g, stages, s, p);
    }
  }

  /** A graph that can be staged tightly in full has no cycle. */
  lemma PlanIsAcyclic(g: Tasks, stages: seq<seq<TaskId>>)
    requires Scheduled(stages) == g.Keys && IsDuplicateFree(stages) && IsTight(g, stages)
    ensures !IsCyclic(g)
  {
    forall p | IsCycle(g, p)
      ensures false
    {
      assert DependsOn(g, p[0], p[0 + 1]);
      var s :| 0 <= s < |stages| && p[0] in stages[s];
      var t := ChainFitsBelow(g, stages, s, p);
      assert false;
    }
  }

  /** A plan is a schedule. */
  lemma PlanIsSchedule(g: Tasks, stages: seq<seq<TaskId>>)
    requires IsPlan(g, stages)
    ensures IsSchedule(g, stages)
  {
    forall u | u in g
      ensures exists s :: 0 <= s < |stages| && u in stages[s]
    {
      assert u in Scheduled(stages);
    }
    forall s, t, u, w | 0 <= s < |stages| && 0 <= t < |stages| && u in stages[s] && w in stages[t] && DependsOn(g, u, w)
      ensures t < s
    {
      var t' := TightIsEarlier(g, stages, s, u, w);
      assert t == t' || t < t' || t' < t;
    }
  }

  lemma {:induction false} ChainNeedsStages(g: Tasks, other: seq<seq<TaskId>>, p: seq<TaskId>, s: nat)
    requires IsClosed(g) && IsSchedule(g, other) && IsChain(g, p) && s < |other| && p[0] in other[s]
    ensures |p| - 1 <= s
    decreases |p|
  {
    if |p| <= 1 {
    } else {
      assert DependsOn(g, p[0], p[0 + 1]);
      var t :| 0 <= t < |other| && p[1] in other[t];
      ChainSuffix(g, p, 1);
      ChainNeedsStages(g, other, p[1..], t);
    }
  }

  lemma PlanReaches(g: Tasks, plan: seq<seq<TaskId>>) returns (u: TaskId)
    requires IsPlan(g, plan) && plan != []
    ensures u in g && u in plan[|plan| - 1]
  {
    u := plan[|plan| - 1][0];
    assert u in plan[|plan| - 1] && u in Scheduled(plan);
  }

  /** No schedule has fewer stages than a plan. */
  lemma PlanHasFewestStages(g: Tasks, plan: seq<seq<TaskId>>, other: seq<seq<TaskId>>)
    requires IsClosed(g) && IsPlan(g, plan) && IsSchedule(g, other)
    ensures |plan| <= |other|
  {
    if plan != [] {
      var u := PlanReaches(g, plan);
      var p := ChainFromStage(g, plan, |plan| - 1, u);
      hide IsPlan, IsTight, IsChain, IsClosed;
      var s :| 0 <= s < |other| && u in other[s];
      ChainNeedsStages(g, other, p, s);
    }
  }

  lemma StageWithin(g: Tasks, plan: seq<seq<TaskId>>, other: seq<seq<TaskId>>, s: nat)
    requires IsPlan(g, plan) && IsPlan(g, other) && s < |plan| == |other|
    ensures forall u | u in plan[s] :: u in other[s]
  {
    forall u | u in plan[s]
      ensures u in other[s]
    {
      StageIsLongestChain(g, plan, s, u);
      assert u in Scheduled(other);
      var t: nat :| t < |other| && u in other[t];
      StageIsLongestChain(g, other, t, u);
      assert t == s;
    }
  }

  lemma {:induction false} AtMostOnce(x: seq<TaskId>, u: TaskId)
    requires forall i, j | 0 <= i < j < |x| :: x[i] != x[j]
    ensures multiset(x)[u] <= 1
  {
    if x == [] {
    } else {
      assert x == [x[0]] + x[1..];
      AtMostOnce(x[1..], u);
      assert multiset(x) == multiset{x[0]} + multiset(x[1..]);
      if u == x[0] {
        assert u !in x[1..];
        assert u !in multiset(x[1..]);
      }
    }
  }

  lemma SameMultiset(x: seq<TaskId>, y: seq<TaskId>)
    requires forall i, j | 0 <= i < j < |x| :: x[i] != x[j]
    requires forall i, j | 0 <= i < j < |y| :: y[i] != y[j]
    requires forall u :: u in x <==> u in y
    ensures multiset(x) == multiset(y)
  {
    forall u
      ensures multiset(x)[u] == multiset(y)[u]
    {
      AtMostOnce(x, u);
      AtMostOnce(y, u);
      assert u in multiset(x) <==> u in x;
      assert u in multiset(y) <==> u in y;
    }
  }

  /** Plans of one graph agree stage by stage, up to the order within a stage. */
  lemma PlansAgree(g: Tasks, plan: seq<seq<TaskId>>, other: seq<seq<TaskId>>)
    requires IsClosed(g) && IsPlan(g, plan) && IsPlan(g, other)
    ensures |plan| == |other| && forall s | 0 <= s < |plan| :: multiset(plan[s]) == multiset(other[s])
  {
    PlanIsSchedule(g, plan);
    PlanIsSchedule(g, other);
    PlanHasFewestStages(g, plan, other);
    PlanHasFewestStages(g, other, plan);
    forall s | 0 <= s < |plan|
      ensures multiset(plan[s]) == multiset(other[s])
    {
      StageWithin(g, plan, other, s);
      StageWithin(g, other, plan, s);
      SameMultiset(plan[s], other[s]);
    }
  }

  // ---- Finding a cycle ---------------------------------------------------------------

  function Visited(p: seq<TaskId>): set<TaskId> {
    set u | u in p
  }

  lemma RepeatMakesCycle(g: Tasks, p: seq<TaskId>, next: TaskId)
    requires IsChain(g, p) && DependsOn(g, p[|p| - 1], next) && next in p
    ensures IsCyclic(g)
  {
    var i :| 0 <= i < |p| && p[i] == next;
    ChainSuffix(g, p, i);
    ChainAppend(g, p[i..], [next]);
    assert IsCycle(g, p[i..] + [next]);
  }

  ghost predicate WaitsWithin(g: Tasks, u: TaskId, waiting: set<TaskId>) {
    exists w :: DependsOn(g, u, w) && w in waiting
  }

  lemma VisitedAppend(p: seq<TaskId>, u: TaskId)
    ensures Visited(p + [u]) == Visited(p) + {u}
  {
  }

  /** Tasks that all wait for one another contain a cycle: follow dependencies until one repeats. */
  lemma {:induction false} WaitingTasksHaveCycle(g: Tasks, waiting: set<TaskId>, p: seq<TaskId>)
    requires forall u | u in waiting :: WaitsWithin(g, u, waiting)
    requires p != [] && IsChain(g, p) && Visited(p) <= waiting
    ensures IsCyclic(g)
    decreases waiting - Visited(p)
  {
    hide IsChain, IsCyclic;
    var last := p[|p| - 1];
    assert last in Visited(p);
    assert WaitsWithin(g, last, waiting);
    var next :| DependsOn(g, last, next) && next in waiting;
    if next in p {
      RepeatMakesCycle(g, p, next);
    } else {
      SingleChain(g, next);
      ChainAppend(g, p, [next]);
      VisitedAppend(p, next);
      WaitingTasksHaveCycle(g, waiting, p + [next]);
    }
  }
}
