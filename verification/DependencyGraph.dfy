/** The dependency planner: cycle check, dependency check, and a level-by-level topological sort. */
module DependencyGraphs {
  import opened Wrappers
  import opened TaskGraph

  datatype GraphError =
    | CyclicDependency(message: string)
    | MissingDependency(message: string)
    | InvalidTask(message: string)

  datatype DependencyGraph = DependencyGraph(tasks: Tasks, executionOrder: seq<seq<TaskId>>)

  // ---- What the errors claim ---------------------------------------------------------

  /** e names a dependency u -> w that closes a cycle. */
  ghost predicate ReportsCycle(g: Tasks, e: GraphError) {
    exists p, u, w :: IsChain(g, p) && p[0] == w && p[|p| - 1] == u && DependsOn(g, u, w) &&
      e == CyclicDependency("Cycle detected: " + u + " -> " + w)
  }

  /** e names a dependency that no task provides. */
  ghost predicate ReportsMissing(g: Tasks, e: GraphError) {
    exists u, w :: DependsOn(g, u, w) && w !in g &&
      e == MissingDependency("Task " + u + " depends on missing task " + w)
  }

  lemma ReportedCycleExists(g: Tasks, e: GraphError)
    requires ReportsCycle(g, e)
    ensures IsCyclic(g)
  {
    var p, u, w :| IsChain(g, p) && p[0] == w && p[|p| - 1] == u && DependsOn(g, u, w) &&
      e == CyclicDependency("Cycle detected: " + u + " -> " + w);
    assert IsChain(g, [u]);
    ChainAppend(g, [u], p);
    assert IsCycle(g, [u] + p);
  }

  // ---- Depth-first search ------------------------------------------------------------

  ghost function Names(g: Tasks): set<TaskId> {
    g.Keys + (set u, w | u in g && w in g[u].dependsOn :: w)
  }

  ghost predicate OnCycle(g: Tasks, u: TaskId) {
    exists p :: IsCycle(g, p) && p[0] == u
  }

  /** The finished names: closed under dependencies, and none on a cycle. */
  ghost predicate IsSettled(g: Tasks, done: set<TaskId>) {
    forall u | u in done :: !OnCycle(g, u) && forall w | DependsOn(g, u, w) :: w in done
  }

  lemma {:induction false} ChainStaysSettled(g: Tasks, done: set<TaskId>, p: seq<TaskId>)
    requires IsSettled(g, done) && IsChain(g, p) && p[0] in done
    ensures p[|p| - 1] in done
    decreases |p|
  {
    if |p| <= 1 {
    } else {
      assert DependsOn(g, p[0], p[0 + 1]);
      ChainSuffix(g, p, 1);
      ChainStaysSettled(g, done, p[1..]);
    }
  }

  /** A name whose dependencies are all finished can be finished too. */
  lemma SettleOne(g: Tasks, done: set<TaskId>, u: TaskId)
    requires IsSettled(g, done) && u !in done && forall w | DependsOn(g, u, w) :: w in done
    ensures IsSettled(g, done + {u})
  {
    forall p | IsCycle(g, p) && p[0] == u
      ensures false
    {
      assert DependsOn(g, p[0], p[0 + 1]);
      ChainSuffix(g, p, 1);
      ChainStaysSettled(g, done, p[1..]);
      assert false;
    }
  }

  /** The recursion stack is the path that led to id. */
  ghost predicate IsPathTo(g: Tasks, path: seq<TaskId>, recStack: set<TaskId>, id: TaskId) {
    IsChain(g, path + [id]) && recStack == Visited(path)
  }

  lemma PathReportsCycle(g: Tasks, path: seq<TaskId>, recStack: set<TaskId>, id: TaskId, dep: TaskId)
    requires IsPathTo(g, path, recStack, id) && DependsOn(g, id, dep) && dep in recStack + {id}
    ensures ReportsCycle(g, CyclicDependency("Cycle detected: " + id + " -> " + dep))
  {
    var p := path + [id];
    assert dep in p;
    var i :| 0 <= i < |p| && p[i] == dep;
    ChainSuffix(g, p, i);
    var q := p[i..];
    assert q[0] == dep && q[|q| - 1] == id;
  }

  // ---- The topological sort ----------------------------------------------------------

  /** How many entries of deps are not in done yet. */
  function Pending(deps: seq<TaskId>, done: set<TaskId>): nat {
    if deps == [] then 0 else (if deps[0] in done then 0 else 1) + Pending(deps[1..], done)
  }

  lemma {:induction false} PendingStep(deps: seq<TaskId>, done: set<TaskId>, id: TaskId)
    requires id !in done
    ensures Pending(deps, done) == Pending(deps, done + {id}) + multiset(deps)[id]
  {
    if deps == [] {
    } else {
      PendingStep(deps[1..], done, id);
      assert deps == [deps[0]] + deps[1..];
      assert multiset(deps) == multiset{deps[0]} + multiset(deps[1..]);
    }
  }

  lemma {:induction false} PendingZero(deps: seq<TaskId>, done: set<TaskId>)
    ensures Pending(deps, done) == 0 <==> forall w | w in deps :: w in done
    ensures Pending(deps, {}) == |deps|
  {
    if deps == [] {
    } else {
      PendingZero(deps[1..], done);
      assert forall w :: w in deps <==> w == deps[0] || w in deps[1..];
    }
  }

  /** graph lists, under each task, its dependents as often as they name it. */
  ghost predicate IsReverseGraph(g: Tasks, graph: map<TaskId, seq<TaskId>>) {
    graph.Keys == g.Keys &&
    forall w, u {:trigger multiset(graph[w])[u]} | w in graph ::
      multiset(graph[w])[u] == if u in g then multiset(g[u].dependsOn)[w] else 0
  }

  /** Each in-degree is the number of dependency entries still unscheduled. */
  ghost predicate CountsPending(g: Tasks, inDegree: map<TaskId, nat>, done: set<TaskId>) {
    inDegree.Keys == g.Keys && forall u | u in g :: inDegree[u] == Pending(g[u].dependsOn, done)
  }

  predicate IsDistinct(q: seq<TaskId>) {
    forall i, j | 0 <= i < j < |q| :: q[i] != q[j]
  }

  function TotalLength(stages: seq<seq<TaskId>>): nat {
    if stages == [] then 0 else TotalLength(stages[..|stages| - 1]) + |stages[|stages| - 1]|
  }

  /** The stages emitted so far hold exactly the tasks in done. */
  ghost predicate IsProgress(g: Tasks, stages: seq<seq<TaskId>>, done: set<TaskId>) {
    done == Scheduled(stages) && done <= g.Keys && TotalLength(stages) == |done| &&
    IsDuplicateFree(stages) && IsTight(g, stages) && forall s | 0 <= s < |stages| :: stages[s] != []
  }

  /** The queue between stages: the unscheduled tasks that have become free, all through the last stage. */
  ghost predicate IsFrontier(g: Tasks, stages: seq<seq<TaskId>>, done: set<TaskId>, queue: seq<TaskId>) {
    IsDistinct(queue) &&
    (forall u | u in g :: Pending(g[u].dependsOn, done) == 0 <==> u in done || u in queue) &&
    (forall u | u in queue :: u in g && u !in done &&
      (stages != [] ==> exists w :: DependsOn(g, u, w) && w in stages[|stages| - 1]))
  }

  /** The tasks whose last pending dependency has gone since done0. */
  ghost predicate IsFreed(g: Tasks, freed: seq<TaskId>, inDegree: map<TaskId, nat>, done0: set<TaskId>)
    requires inDegree.Keys == g.Keys
  {
    IsDistinct(freed) &&
    forall u :: u in freed <==> u in g && inDegree[u] == 0 && Pending(g[u].dependsOn, done0) > 0
  }

  lemma {:induction false} DistinctSize(q: seq<TaskId>)
    requires IsDistinct(q)
    ensures |Visited(q)| == |q|
  {
    if q == [] {
    } else {
      DistinctSize(q[1..]);
      assert Visited(q) == {q[0]} + Visited(q[1..]);
    }
  }

  lemma ScheduledAppend(stages: seq<seq<TaskId>>, stage: seq<TaskId>)
    ensures Scheduled(stages + [stage]) == Scheduled(stages) + Visited(stage)
  {
    var next := stages + [stage];
    forall u | u in Scheduled(stages) + Visited(stage)
      ensures u in Scheduled(next)
    {
      if u in stage {
        assert u in next[|stages|];
      } else {
        var s :| 0 <= s < |stages| && u in stages[s];
        assert u in next[s];
      }
    }
  }

  lemma NewStageIsTight(g: Tasks, stages: seq<seq<TaskId>>, done: set<TaskId>, stage: seq<TaskId>, u: TaskId)
    requires IsFrontier(g, stages, done, stage) && u in stage
    ensures u in g && forall w | DependsOn(g, u, w) :: w in done
    ensures |stages| > 0 ==> exists w :: DependsOn(g, u, w) && w in stages[|stages| - 1]
  {
    PendingZero(g[u].dependsOn, done);
  }

  lemma OldStageIsTight(g: Tasks, stages: seq<seq<TaskId>>, s: nat, u: TaskId)
    requires IsTight(g, stages) && s < |stages| && u in stages[s]
    ensures u in g && forall w | DependsOn(g, u, w) :: w in Scheduled(stages[..s])
    ensures s > 0 ==> exists w :: DependsOn(g, u, w) && w in stages[s - 1]
  {
  }

  lemma StageStaysTight(g: Tasks, stages: seq<seq<TaskId>>, done: set<TaskId>, stage: seq<TaskId>)
    requires done == Scheduled(stages) && IsTight(g, stages) && IsFrontier(g, stages, done, stage)
    ensures IsTight(g, stages + [stage])
  {
    hide Pending, Scheduled, IsFrontier;
    var next := stages + [stage];
    forall s, u | 0 <= s < |next| && u in next[s]
      ensures u in g && (forall w | DependsOn(g, u, w) :: w in Scheduled(next[..s]))
      ensures s > 0 ==> exists w :: DependsOn(g, u, w) && w in next[s - 1]
    {
      if s == |stages| {
        assert next[..s] == stages && u in stage;
        NewStageIsTight(g, stages, done, stage, u);
      } else {
        assert u in stages[s] && next[..s] == stages[..s];
        OldStageIsTight(g, stages, s, u);
        assert s > 0 ==> next[s - 1] == stages[s - 1];
      }
    }
  }

  lemma StageStaysDuplicateFree(g: Tasks, stages: seq<seq<TaskId>>, done: set<TaskId>, stage: seq<TaskId>)
    requires done == Scheduled(stages) && IsDuplicateFree(stages) && IsFrontier(g, stages, done, stage)
    ensures IsDuplicateFree(stages + [stage])
  {
    var next := stages + [stage];
    forall s, t, u | 0 <= s < t < |next| && u in next[s]
      ensures u !in next[t]
    {
      assert u in stages[s] && u in Scheduled(stages);
    }
  }

  /** Emitting the queue as a stage keeps the staging tight, and leaves what it freed as the next queue. */
  lemma StageAdvances(g: Tasks, stages: seq<seq<TaskId>>, done: set<TaskId>, stage: seq<TaskId>)
    requires IsProgress(g, stages, done) && IsFrontier(g, stages, done, stage) && stage != []
    ensures IsProgress(g, stages + [stage], done + Visited(stage))
  {
    hide IsTight, IsDuplicateFree, Scheduled, Pending;
    ScheduledAppend(stages, stage);
    DistinctSize(stage);
    StageStaysTight(g, stages, done, stage);
    StageStaysDuplicateFree(g, stages, done, stage);
    var next := stages + [stage];
    assert TotalLength(next) == |done| + |stage| by {
      assert next[..|next| - 1] == stages;
    }
    assert |done + Visited(stage)| == |done| + |stage| by {
      assert done !! Visited(stage);
    }
  }

  lemma FrontierAdvances(g: Tasks, stages: seq<seq<TaskId>>, done: set<TaskId>, stage: seq<TaskId>,
                         freed: seq<TaskId>, inDegree: map<TaskId, nat>)
    requires IsProgress(g, stages, done) && IsFrontier(g, stages, done, stage)
    requires CountsPending(g, inDegree, done + Visited(stage)) && IsFreed(g, freed, inDegree, done)
    ensures IsFrontier(g, stages + [stage], done + Visited(stage), freed)
  {
    var done' := done + Visited(stage);
    forall u | u in g
      ensures Pending(g[u].dependsOn, done') == 0 <==> u in done' || u in freed
      ensures u in freed ==> u !in done' && exists w :: DependsOn(g, u, w) && w in stage
    {
      PendingZero(g[u].dependsOn, done);
      PendingZero(g[u].dependsOn, done');
      if u in freed {
        var w :| w in g[u].dependsOn && w !in done;
        assert DependsOn(g, u, w);
      }
    }
  }

  /** When the queue runs dry early, the tasks left over wait for one another. */
  lemma StuckIsCyclic(g: Tasks, stages: seq<seq<TaskId>>, done: set<TaskId>)
    requires IsClosed(g) && IsProgress(g, stages, done) && IsFrontier(g, stages, done, [])
    requires TotalLength(stages) != |g|
    ensures IsCyclic(g)
  {
    hide IsTight, IsDuplicateFree, Scheduled, IsCyclic;
    var waiting := g.Keys - done;
    assert waiting != {};
    forall u | u in waiting
      ensures WaitsWithin(g, u, waiting)
    {
      PendingZero(g[u].dependsOn, done);
      var w :| w in g[u].dependsOn && w !in done;
      assert DependsOn(g, u, w);
    }
    var u :| u in waiting;
    WaitingTasksHaveCycle(g, waiting, [u]);
  }

  lemma SubsetOfSameSize(s: set<TaskId>, t: set<TaskId>)
    requires s <= t && |s| == |t|
    ensures s == t
  {
    assert |t - s| == 0;
  }

  lemma AllScheduled(g: Tasks, stages: seq<seq<TaskId>>, done: set<TaskId>)
    requires IsProgress(g, stages, done) && TotalLength(stages) == |g|
    ensures IsPlan(g, stages)
  {
    SubsetOfSameSize(done, g.Keys);
  }

  /** Mid-way through releasing a task: the entries in rest are still counted although already scheduled. */
  ghost predicate IsReleasing(g: Tasks, inDegree: map<TaskId, nat>, done: set<TaskId>, rest: seq<TaskId>) {
    inDegree.Keys == g.Keys && forall u | u in g :: inDegree[u] == Pending(g[u].dependsOn, done) + multiset(rest)[u]
  }

  lemma ReleaseStarts(g: Tasks, inDegree: map<TaskId, nat>, graph: map<TaskId, seq<TaskId>>, done: set<TaskId>,
                      id: TaskId)
    requires CountsPending(g, inDegree, done) && IsReverseGraph(g, graph) && id in g && id !in done
    ensures IsReleasing(g, inDegree, done + {id}, graph[id])
  {
    forall u | u in g
      ensures inDegree[u] == Pending(g[u].dependsOn, done + {id}) + multiset(graph[id])[u]
    {
      PendingStep(g[u].dependsOn, done, id);
    }
  }

  lemma ReleaseSteps(g: Tasks, inDegree: map<TaskId, nat>, done: set<TaskId>, dependent: TaskId, rest: seq<TaskId>,
                     start: set<TaskId>, freed: seq<TaskId>)
    requires IsReleasing(g, inDegree, done, [dependent] + rest) && IsFreed(g, freed, inDegree, start)
    requires dependent in g && Pending(g[dependent].dependsOn, start) > 0
    ensures inDegree.Keys == g.Keys && inDegree[dependent] > 0
    ensures var next := inDegree[dependent := inDegree[dependent] - 1];
            IsReleasing(g, next, done, rest) &&
            IsFreed(g, if next[dependent] == 0 then freed + [dependent] else freed, next, start)
  {
    assert multiset([dependent] + rest) == multiset{dependent} + multiset(rest);
  }

  lemma ReverseGraphCovers(g: Tasks, graph: map<TaskId, seq<TaskId>>, inDegree: map<TaskId, nat>, done: set<TaskId>)
    requires CountsPending(g, inDegree, done) && IsReverseGraph(g, graph)
    ensures inDegree.Keys == graph.Keys == g.Keys
  {
  }

  lemma ReleaseEnds(g: Tasks, inDegree: map<TaskId, nat>, done: set<TaskId>)
    requires IsReleasing(g, inDegree, done, [])
    ensures CountsPending(g, inDegree, done)
  {
  }

  lemma DependentIsWaiting(g: Tasks, graph: map<TaskId, seq<TaskId>>, id: TaskId, dependent: TaskId, start: set<TaskId>)
    requires IsReverseGraph(g, graph) && id in graph && dependent in graph[id] && id !in start
    ensures dependent in g && Pending(g[dependent].dependsOn, start) > 0
  {
    assert multiset(graph[id])[dependent] > 0;
    assert id in multiset(g[dependent].dependsOn);
    PendingZero(g[dependent].dependsOn, start);
  }

  lemma NothingFreed(g: Tasks, inDegree: map<TaskId, nat>, done: set<TaskId>)
    requires CountsPending(g, inDegree, done)
    ensures IsFreed(g, [], inDegree, done) && CountsPending(g, inDegree, done + Visited([]))
  {
    assert done + Visited([]) == done;
    forall u | u in g && Pending(g[u].dependsOn, done) > 0
      ensures inDegree[u] != 0
    {
    }
  }

  lemma VisitedNext(q: seq<TaskId>, i: nat, done: set<TaskId>)
    ensures i < |q| ==> q[..i + 1] == q[..i] + [q[i]] && done + Visited(q[..i + 1]) == done + Visited(q[..i]) + {q[i]}
  {
    if i < |q| {
      assert q[..i + 1] == q[..i] + [q[i]];
      VisitedAppend(q[..i], q[i]);
    }
  }

  lemma NotYetVisited(q: seq<TaskId>, i: nat)
    requires IsDistinct(q) && i < |q|
    ensures q[i] in q && q[i] !in Visited(q[..i])
  {
  }

  class DependencyGraphBuilder {
    var tasks: Tasks

    ghost predicate Valid()
      reads this
    {
      forall id | id in tasks :: tasks[id].taskId == id
    }

    constructor ()
      ensures Valid() && tasks == map[]
    {
      tasks := map[];
    }

    method AddTask(taskId: TaskId, teamType: string, dependencies: seq<TaskId>)
      requires Valid()
      modifies this
      ensures Valid() && tasks == old(tasks)[taskId := TaskNode(taskId, dependencies, teamType)]
    {
      tasks := tasks[taskId := TaskNode(taskId, dependencies, teamType)];
    }

    /** The three passes agree: a plan comes back exactly when nothing is missing and nothing is cyclic. */
    method Build() returns (r: Result<DependencyGraph, GraphError>)
      requires Valid()
      ensures r.Ok? <==> IsClosed(tasks) && !IsCyclic(tasks)
      ensures r.Ok? ==> r.value.tasks == tasks && IsPlan(tasks, r.value.executionOrder)
      ensures IsCyclic(tasks) ==> r.Err? && ReportsCycle(tasks, r.error)
      ensures !IsCyclic(tasks) && !IsClosed(tasks) ==> r.Err? && ReportsMissing(tasks, r.error)
    {
      var cycles := CheckCycles();
      if cycles.Err? {
        return Err(cycles.error);
      }
      var missing := ValidateDependencies();
      if missing.Err? {
        return Err(missing.error);
      }
      var order := ComputeExecutionStages();
      r := match order
        case Err(e) => Err(e)
        case Ok(stages) => Ok(DependencyGraph(tasks, stages));
    }

    /** Sound and complete, whatever order the tasks are visited in. */
    method CheckCycles() returns (r: Result<(), GraphError>)
      ensures r.Ok? <==> !IsCyclic(tasks)
      ensures r.Err? ==> ReportsCycle(tasks, r.error)
    {
      var visited: set<TaskId>, recStack: set<TaskId> := {}, {};
      var remaining := tasks.Keys;
      while remaining != {}
        invariant remaining <= tasks.Keys <= remaining + visited && recStack == {}
        invariant visited <= Names(tasks) && IsSettled(tasks, visited - recStack)
        decreases remaining
      {
        var taskId :| taskId in remaining;
        remaining := remaining - {taskId};
        if taskId !in visited {
          r, visited, recStack := DfsCycleCheck(taskId, visited, recStack, []);
          if r.Err? {
            ReportedCycleExists(tasks, r.error);
            return;
          }
        }
      }
      forall p | IsCycle(tasks, p)
        ensures false
      {
        assert DependsOn(tasks, p[0], p[0 + 1]);
        assert p[0] in visited;
        assert OnCycle(tasks, p[0]);
        assert false;
      }
      r := Ok(());
    }

    /** path is the chain of calls in progress; it is what recStack holds. */
    method DfsCycleCheck(taskId: TaskId, visited0: set<TaskId>, recStack0: set<TaskId>, ghost path: seq<TaskId>)
      returns (r: Result<(), GraphError>, visited: set<TaskId>, recStack: set<TaskId>)
      requires taskId in Names(tasks) && taskId !in visited0 && recStack0 <= visited0 <= Names(tasks)
      requires IsPathTo(tasks, path, recStack0, taskId)
      requires IsSettled(tasks, visited0 - recStack0)
      ensures r.Ok? ==> visited0 + {taskId} <= visited <= Names(tasks) && recStack == recStack0
      ensures r.Ok? ==> IsSettled(tasks, visited - recStack)
      ensures r.Err? ==> ReportsCycle(tasks, r.error)
      decreases Names(tasks) - visited0
    {
      visited := visited0 + {taskId};
      recStack := recStack0 + {taskId};
      assert visited - recStack == visited0 - recStack0;
      if taskId in tasks {
        var deps := tasks[taskId].dependsOn;
        for i := 0 to |deps|
          invariant visited0 + {taskId} <= visited <= Names(tasks) && recStack == recStack0 + {taskId}
          invariant IsSettled(tasks, visited - recStack)
          invariant forall j | 0 <= j < i :: deps[j] in visited - recStack
        {
          var dep := deps[i];
          assert DependsOn(tasks, taskId, dep);
          if dep !in visited {
            assert IsPathTo(tasks, path + [taskId], recStack, dep) by {
              ChainAppend(tasks, path + [taskId], [dep]);
            }
            r, visited, recStack := DfsCycleCheck(dep, visited, recStack, path + [taskId]);
            if r.Err? {
              return;
            }
          } else if dep in recStack {
            PathReportsCycle(tasks, path, recStack0, taskId, dep);
            return Err(CyclicDependency("Cycle detected: " + taskId + " -> " + dep)), visited, recStack;
          }
        }
      }
      SettleOne(tasks, visited - recStack, taskId);
      recStack := recStack - {taskId};
      assert recStack == recStack0 && visited - recStack == (visited - (recStack0 + {taskId})) + {taskId};
      r := Ok(());
    }

    method ValidateDependencies() returns (r: Result<(), GraphError>)
      requires Valid()
      ensures r.Ok? <==> IsClosed(tasks)
      ensures r.Err? ==> ReportsMissing(tasks, r.error)
    {
      var remaining := tasks.Keys;
      while remaining != {}
        invariant remaining <= tasks.Keys
        invariant forall u, w | DependsOn(tasks, u, w) && u !in remaining :: w in tasks
        decreases remaining
      {
        var id :| id in remaining;
        remaining := remaining - {id};
        var task := tasks[id];
        for i := 0 to |task.dependsOn|
          invariant forall j | 0 <= j < i :: task.dependsOn[j] in tasks
        {
          var dep := task.dependsOn[i];
          if dep !in tasks {
            assert DependsOn(tasks, id, dep);
            return Err(MissingDependency("Task " + task.taskId + " depends on missing task " + dep));
          }
        }
      }
      r := Ok(());
    }

    /** Kahn's algorithm: on a closed graph it succeeds exactly when there is no cycle. */
    method ComputeExecutionStages() returns (r: Result<seq<seq<TaskId>>, GraphError>)
      requires Valid() && IsClosed(tasks)
      ensures r.Ok? <==> !IsCyclic(tasks)
      ensures r.Ok? ==> IsPlan(tasks, r.value)
      ensures r.Err? ==> r.error == CyclicDependency("Unable to schedule all tasks")
    {
      var inDegree, graph := CountDependencies();
      var queue := InitiallyFree(inDegree);
      var stages: seq<seq<TaskId>> := [];
      ghost var done: set<TaskId> := {};
      while queue != []
        invariant IsProgress(tasks, stages, done) && CountsPending(tasks, inDegree, done)
        invariant IsFrontier(tasks, stages, done, queue)
        decreases tasks.Keys - done
      {
        StageAdvances(tasks, stages, done, queue);
        ghost var before := queue;
        var stage;
        inDegree, queue, stage := RunStage(inDegree, graph, queue, done);
        FrontierAdvances(tasks, stages, done, stage, queue, inDegree);
        stages := stages + [stage];
        assert stage[0] in Visited(stage);
        done := done + Visited(stage);
      }
      if TotalLength(stages) != |tasks| {
        StuckIsCyclic(tasks, stages, done);
        return Err(CyclicDependency("Unable to schedule all tasks"));
      }
      AllScheduled(tasks, stages, done);
      PlanIsAcyclic(tasks, stages);
      return Ok(stages);
    }

    /** In-degrees and the reverse graph; every lookup finds its key because the graph is closed. */
    method CountDependencies() returns (inDegree: map<TaskId, nat>, graph: map<TaskId, seq<TaskId>>)
      requires Valid() && IsClosed(tasks)
      ensures CountsPending(tasks, inDegree, {}) && IsReverseGraph(tasks, graph)
    {
      hide Pending;
      inDegree := map id | id in tasks :: 0;
      graph := map id | id in tasks :: [];
      var remaining := tasks.Keys;
      while remaining != {}
        invariant remaining <= tasks.Keys == graph.Keys == inDegree.Keys
        invariant forall u | u in tasks :: inDegree[u] == if u in remaining then 0 else |tasks[u].dependsOn|
        invariant forall w, u {:trigger multiset(graph[w])[u]} | w in graph ::
          multiset(graph[w])[u] == if u in tasks && u !in remaining then multiset(tasks[u].dependsOn)[w] else 0
        decreases remaining
      {
        var id :| id in remaining;
        assert forall w | w in tasks[id].dependsOn :: DependsOn(tasks, id, w);
        inDegree, graph := CountOne(inDegree, graph, tasks[id]);
        remaining := remaining - {id};
      }
      forall u | u in tasks
        ensures inDegree[u] == Pending(tasks[u].dependsOn, {})
      {
        PendingZero(tasks[u].dependsOn, {});
      }
    }

    /** The dependencies of one task. */
    method CountOne(inDegree0: map<TaskId, nat>, graph0: map<TaskId, seq<TaskId>>, task: TaskNode)
      returns (inDegree: map<TaskId, nat>, graph: map<TaskId, seq<TaskId>>)
      requires task.taskId in inDegree0 && inDegree0[task.taskId] == 0
      requires forall w | w in task.dependsOn :: w in graph0
      requires forall w | w in graph0 :: multiset(graph0[w])[task.taskId] == 0
      ensures inDegree == inDegree0[task.taskId := |task.dependsOn|] && graph.Keys == graph0.Keys
      ensures forall w, u {:trigger multiset(graph[w])[u]} | w in graph ::
        multiset(graph[w])[u] == if u == task.taskId then multiset(task.dependsOn)[w] else multiset(graph0[w])[u]
    {
      inDegree, graph := inDegree0, graph0;
      for i := 0 to |task.dependsOn|
        invariant inDegree == inDegree0[task.taskId := i] && graph.Keys == graph0.Keys
        invariant forall w, u {:trigger multiset(graph[w])[u]} | w in graph ::
          multiset(graph[w])[u] == if u == task.taskId then multiset(task.dependsOn[..i])[w] else multiset(graph0[w])[u]
      {
        var dep := task.dependsOn[i];
        assert task.dependsOn[..i + 1] == task.dependsOn[..i] + [dep];
        graph := graph[dep := graph[dep] + [task.taskId]];
        inDegree := inDegree[task.taskId := inDegree[task.taskId] + 1];
      }
      assert task.dependsOn[..|task.dependsOn|] == task.dependsOn;
    }

    /** The tasks with in-degree zero, in whatever order the map yields them. */
    method InitiallyFree(inDegree: map<TaskId, nat>) returns (queue: seq<TaskId>)
      requires CountsPending(tasks, inDegree, {})
      ensures IsFrontier(tasks, [], {}, queue)
    {
      queue := [];
      var remaining := inDegree.Keys;
      while remaining != {}
        invariant remaining <= inDegree.Keys && IsDistinct(queue)
        invariant forall u :: u in queue <==> u in inDegree && u !in remaining && inDegree[u] == 0
        decreases remaining
      {
        var id :| id in remaining;
        remaining := remaining - {id};
        if inDegree[id] == 0 {
          queue := queue + [id];
        }
      }
    }

    /** One level: take as many tasks as the queue held, releasing the dependents of each. */
    method RunStage(inDegree0: map<TaskId, nat>, graph: map<TaskId, seq<TaskId>>, queue0: seq<TaskId>,
                    ghost done: set<TaskId>)
      returns (inDegree: map<TaskId, nat>, queue: seq<TaskId>, stage: seq<TaskId>)
      requires CountsPending(tasks, inDegree0, done) && IsReverseGraph(tasks, graph) && IsDistinct(queue0)
      requires forall u | u in queue0 :: u in tasks && u !in done
      ensures stage == queue0
      ensures CountsPending(tasks, inDegree, done + Visited(stage)) && IsFreed(tasks, queue, inDegree, done)
    {
      inDegree, queue, stage := inDegree0, queue0, [];
      var stageSize := |queue|;
      ghost var freed: seq<TaskId> := [];
      NothingFreed(tasks, inDegree, done);
      hide Visited, Pending, IsReverseGraph;
      for i := 0 to stageSize
        invariant stage == queue0[..i] && queue == queue0[i..] + freed
        invariant CountsPending(tasks, inDegree, done + Visited(stage)) && IsFreed(tasks, freed, inDegree, done)
      {
        var taskId := queue[0];
        assert taskId == queue0[i] && taskId in queue0;
        queue := queue[1..];
        stage := stage + [taskId];
        assert queue == queue0[i + 1..] + freed;
        VisitedNext(queue0, i, done);
        NotYetVisited(queue0, i);
        inDegree, queue, freed :=
          Release(inDegree, graph, taskId, queue, done, done + Visited(queue0[..i]), queue0[i + 1..], freed);
      }
    }

    /** Drop one pending entry per mention, and queue the dependents that reach zero. */
    method Release(inDegree0: map<TaskId, nat>, graph: map<TaskId, seq<TaskId>>, taskId: TaskId, queue0: seq<TaskId>,
                   ghost start: set<TaskId>, ghost done: set<TaskId>, ghost rest: seq<TaskId>,
                   ghost freed0: seq<TaskId>)
      returns (inDegree: map<TaskId, nat>, queue: seq<TaskId>, ghost freed: seq<TaskId>)
      requires CountsPending(tasks, inDegree0, done) && IsReverseGraph(tasks, graph)
      requires taskId in tasks && taskId !in done && start <= done
      requires queue0 == rest + freed0 && IsFreed(tasks, freed0, inDegree0, start)
      ensures CountsPending(tasks, inDegree, done + {taskId})
      ensures queue == rest + freed && IsFreed(tasks, freed, inDegree, start)
    {
      hide *;
      inDegree, queue, freed := inDegree0, queue0, freed0;
      ReverseGraphCovers(tasks, graph, inDegree, done);
      var dependents := graph[taskId];
      assert dependents[0..] == dependents;
      ReleaseStarts(tasks, inDegree, graph, done, taskId);
      for j := 0 to |dependents|
        invariant inDegree.Keys == tasks.Keys && IsReleasing(tasks, inDegree, done + {taskId}, dependents[j..])
        invariant queue == rest + freed && IsFreed(tasks, freed, inDegree, start)
      {
        var dependent := dependents[j];
        DependentIsWaiting(tasks, graph, taskId, dependent, start);
        assert dependents[j..] == [dependent] + dependents[j + 1..];
        ReleaseSteps(tasks, inDegree, done + {taskId}, dependent, dependents[j + 1..], start, freed);
        var degree := inDegree[dependent];
        degree := degree - 1;
        inDegree := inDegree[dependent := degree];
        if degree == 0 {
          queue := queue + [dependent];
          freed := freed + [dependent];
        }
      }
      ReleaseEnds(tasks, inDegree, done + {taskId});
    }
  }
}
