/** Sharing a number of sandboxes among teams in proportion to their tasks. */
module SandboxAllocation {
  import opened TaskGraph

  type Team = string

  ghost function Teams(tasks: seq<TaskNode>): set<Team> {
    set i | 0 <= i < |tasks| :: tasks[i].teamType
  }

  function TaskCount(tasks: seq<TaskNode>, team: Team): nat {
    if tasks == [] then 0
    else TaskCount(tasks[..|tasks| - 1], team) + (if tasks[|tasks| - 1].teamType == team then 1 else 0)
  }

  /** The sum of a map's values. */
  ghost function Sum(m: map<Team, nat>): nat
    decreases m.Keys
  {
    if m == map[] then 0
    else
      var t :| t in m;
      m[t] + Sum(m - {t})
  }

  lemma {:induction false} SumRemove(m: map<Team, nat>, t: Team)
    requires t in m
    ensures Sum(m) == m[t] + Sum(m - {t})
    decreases m.Keys
  {
    var p :| p in m && Sum(m) == m[p] + Sum(m - {p});
    if p == t {
    } else {
      SumRemove(m - {p}, t);
      SumRemove(m - {t}, p);
      assert m - {p} - {t} == m - {t} - {p};
    }
  }

  lemma SumUpdate(m: map<Team, nat>, t: Team, n: nat)
    ensures Sum(m[t := n]) == Sum(m - {t}) + n
    ensures Sum(m) == Sum(m - {t}) + (if t in m then m[t] else 0)
  {
    SumRemove(m[t := n], t);
    assert m[t := n] - {t} == m - {t};
    if t in m {
      SumRemove(m, t);
    } else {
      assert m - {t} == m;
    }
  }

  /** n sandboxes are one per team, at least one in all, and one per hundred units of complexity up to ten. */
  ghost predicate IsEnough(tasks: seq<TaskNode>, complexitySum: nat, n: nat) {
    n >= 1 && n >= |Teams(tasks)| && (n >= 10 || n >= complexitySum / 100)
  }

  /** The least number of sandboxes that is enough. */
  function EstimateSandboxCount(tasks: seq<TaskNode>, complexitySum: nat): (count: nat)
    ensures IsEnough(tasks, complexitySum, count)
    ensures forall n: nat | IsEnough(tasks, complexitySum, n) :: count <= n
  {
    var atLeastOne := if complexitySum / 100 > 1 then complexitySum / 100 else 1;
    var baseCount := if atLeastOne < 10 then atLeastOne else 10;
    var teamTypes := set t | t in tasks :: t.teamType;
    assert teamTypes == Teams(tasks);
    if baseCount > |teamTypes| then baseCount else |teamTypes|
  }

  // ---- Arithmetic of the shares -----------------------------------------------------

  /** n teams holding `counts` tasks got `shares` sandboxes: off by less than one sandbox per team. */
  predicate IsBalanced(total: nat, tasks: int, counts: nat, shares: nat, n: nat) {
    total * counts <= tasks * shares + (tasks - 1) * n &&
    (total > 0 ==> tasks * shares <= total * counts + (tasks - 1) * n)
  }

  lemma NothingToBalance(total: nat, tasks: nat)
    ensures Sum(map[]) == 0 && IsBalanced(total, tasks, 0, 0, 0)
  {
  }

  /** `(total * count / tasks).max(1)` */
  function SandboxesForTeam(total: nat, count: nat, tasks: nat): nat
    requires tasks > 0
  {
    if total * count / tasks > 1 then total * count / tasks else 1
  }

  /** At least one, and the rounded-down proportional share unless that is zero. */
  predicate IsShare(total: nat, tasks: nat, count: nat, share: nat) {
    share >= 1 && total * count < tasks * (share + 1) && (share == 1 || tasks * share <= total * count)
  }

  lemma ShareBounds(total: nat, tasks: nat, count: nat)
    requires 0 < count <= tasks
    ensures var share := SandboxesForTeam(total, count, tasks);
            IsShare(total, tasks, count, share) &&
            total * count <= tasks * share + (tasks - 1) &&
            (total > 0 ==> tasks * share <= total * count + (tasks - 1))
  {
    var q, quotient := total * count, total * count / tasks;
    assert q == tasks * quotient + q % tasks;
    assert tasks * (quotient + 1) == tasks * quotient + tasks;
    assert total > 0 ==> q >= 1 * count;
    assert quotient == 0 ==> tasks * quotient == 0;
    assert tasks * 1 == tasks && tasks * 2 == tasks + tasks;
  }

  lemma Distribute(t: int, x: int, y: int)
    ensures t * (x + y) == t * x + t * y
  {
  }

  lemma AddShare(total: nat, tasks: nat, count: nat, share: nat, counts: nat, shares: nat, n: nat)
    requires 0 < count <= tasks && share == SandboxesForTeam(total, count, tasks)
    requires IsBalanced(total, tasks, counts, shares, n)
    ensures IsShare(total, tasks, count, share)
    ensures IsBalanced(total, tasks, counts + count, shares + share, n + 1)
  {
    hide SandboxesForTeam;
    ShareBounds(total, tasks, count);
    Distribute(total, counts, count);
    Distribute(tasks, shares, share);
    Distribute(tasks - 1, n, 1);
  }

  lemma {:induction false} SumsBalance(total: nat, tasks: nat, counts: map<Team, nat>, allocation: map<Team, nat>)
    requires counts.Keys == allocation.Keys && tasks > 0
    requires forall t | t in counts ::
      0 < counts[t] <= tasks && allocation[t] == SandboxesForTeam(total, counts[t], tasks)
    ensures IsBalanced(total, tasks, Sum(counts), Sum(allocation), |counts|)
    decreases counts.Keys
  {
    hide SandboxesForTeam, IsShare, IsBalanced;
    if counts == map[] {
      assert allocation == map[];
      NothingToBalance(total, tasks);
    } else {
      var t :| t in counts;
      var counts', allocation' := counts - {t}, allocation - {t};
      SumsBalance(total, tasks, counts', allocation');
      SumRemove(counts, t);
      SumRemove(allocation, t);
      var c, s, n := Sum(counts'), Sum(allocation'), |counts'|;
      assert |counts| == n + 1 by {
        assert counts'.Keys == counts.Keys - {t};
        assert |counts'.Keys| == |counts.Keys| - 1;
      }
      AddShare(total, tasks, counts[t], allocation[t], c, s, n);
    }
  }

  // ---- Allocation -------------------------------------------------------------------

  /** counts holds the number of tasks of each team; together they account for every task. */
  ghost predicate IsTally(tasks: seq<TaskNode>, counts: map<Team, nat>) {
    counts.Keys == Teams(tasks) && Sum(counts) == |tasks| &&
    (forall t | t in counts :: counts[t] == TaskCount(tasks, t) && 0 < counts[t] <= |tasks|) &&
    forall t | t !in counts :: TaskCount(tasks, t) == 0
  }

  lemma FirstTeam(tasks: seq<TaskNode>)
    requires tasks != []
    ensures |Teams(tasks)| > 0
  {
    assert tasks[0].teamType in Teams(tasks);
  }

  lemma CancelFactor(t: nat, x: int, y: int)
    requires t * x < t * y
    ensures x < y
  {
  }

  lemma TotalBounds(total: nat, tasks: nat, shares: nat, teams: nat)
    requires tasks > 0 && teams > 0 && IsBalanced(total, tasks, tasks, shares, teams)
    ensures shares >= total - teams + 1
    ensures total > 0 ==> shares <= total + teams - 1
  {
    assert (tasks - 1) * teams == tasks * teams - teams;
    Distribute(tasks, shares, teams);
    CancelFactor(tasks, total, shares + teams);
    Distribute(tasks, total, teams);
    if total > 0 {
      CancelFactor(tasks, shares, total + teams);
    }
  }

  /** What proportional shares add up to. */
  lemma SharesAddUp(tasks: seq<TaskNode>, total: nat, counts: map<Team, nat>, allocation: map<Team, nat>)
    requires IsTally(tasks, counts) && allocation.Keys == counts.Keys
    requires forall t | t in counts :: allocation[t] == SandboxesForTeam(total, counts[t], |tasks|)
    ensures forall t | t in allocation :: IsShare(total, |tasks|, TaskCount(tasks, t), allocation[t])
    ensures tasks != [] ==> Sum(allocation) >= total - |Teams(tasks)| + 1
    ensures tasks != [] && total > 0 ==> Sum(allocation) <= total + |Teams(tasks)| - 1
  {
    hide SandboxesForTeam, IsShare, IsBalanced, Sum, TaskCount, Teams;
    forall t | t in allocation
      ensures IsShare(total, |tasks|, TaskCount(tasks, t), allocation[t])
    {
      ShareBounds(total, |tasks|, counts[t]);
    }
    if tasks != [] {
      FirstTeam(tasks);
      SumsBalance(total, |tasks|, counts, allocation);
      assert |counts| == |counts.Keys| == |Teams(tasks)|;
      TotalBounds(total, |tasks|, Sum(allocation), |Teams(tasks)|);
    }
  }

  lemma TallyFacts(tasks: seq<TaskNode>, counts: map<Team, nat>)
    requires IsTally(tasks, counts)
    ensures counts.Keys == Teams(tasks) && forall t | t in counts :: 0 < counts[t] <= |tasks|
  {
  }

  lemma TeamsAppend(tasks: seq<TaskNode>, i: nat)
    requires i < |tasks|
    ensures Teams(tasks[..i + 1]) == Teams(tasks[..i]) + {tasks[i].teamType}
  {
    var longer := tasks[..i + 1];
    assert longer[i].teamType in Teams(longer);
    forall t | t in Teams(tasks[..i])
      ensures t in Teams(longer)
    {
      var j :| 0 <= j < i && t == tasks[..i][j].teamType;
      assert t == longer[j].teamType;
    }
  }

  lemma TallyOne(tasks: seq<TaskNode>, i: nat, counts: map<Team, nat>)
    requires i < |tasks| && IsTally(tasks[..i], counts)
    ensures var team := tasks[i].teamType;
            IsTally(tasks[..i + 1], counts[team := (if team in counts then counts[team] else 0) + 1])
  {
    hide Sum, Teams;
    var team := tasks[i].teamType;
    assert tasks[..i + 1][..i] == tasks[..i];
    TeamsAppend(tasks, i);
    SumUpdate(counts, team, (if team in counts then counts[team] else 0) + 1);
  }

  method CountTasks(tasks: seq<TaskNode>) returns (counts: map<Team, nat>)
    ensures IsTally(tasks, counts)
  {
    counts := map[];
    for i := 0 to |tasks|
      invariant IsTally(tasks[..i], counts)
    {
      var team := tasks[i].teamType;
      TallyOne(tasks, i, counts);
      counts := counts[team := (if team in counts then counts[team] else 0) + 1];
    }
    assert tasks[..|tasks|] == tasks;
  }

  /** Each share is within one sandbox of proportional, so the total is within one per team of the request. */
  method AllocateSandboxesByTeam(tasks: seq<TaskNode>, totalSandboxes: nat) returns (allocation: map<Team, nat>)
    ensures allocation.Keys == Teams(tasks)
    ensures forall t | t in allocation :: IsShare(totalSandboxes, |tasks|, TaskCount(tasks, t), allocation[t])
    ensures tasks != [] ==> Sum(allocation) >= totalSandboxes - |Teams(tasks)| + 1
    ensures tasks != [] && totalSandboxes > 0 ==> Sum(allocation) <= totalSandboxes + |Teams(tasks)| - 1
  {
    hide *;
    var teamTaskCount := CountTasks(tasks);
    TallyFacts(tasks, teamTaskCount);
    allocation := map[];
    var totalTasks := |tasks|;
    var remaining := teamTaskCount.Keys;
    while remaining != {}
      invariant remaining <= teamTaskCount.Keys && allocation.Keys == teamTaskCount.Keys - remaining
      invariant forall t | t in allocation ::
        allocation[t] == SandboxesForTeam(totalSandboxes, teamTaskCount[t], totalTasks)
      decreases remaining
    {
      var team :| team in remaining;
      allocation := allocation[team := SandboxesForTeam(totalSandboxes, teamTaskCount[team], totalTasks)];
      remaining := remaining - {team};
    }
    SharesAddUp(tasks, totalSandboxes, teamTaskCount, allocation);
  }
}
