/**
 The socket server's work queue: a mutex-guarded queue with a condition variable, shared by a pool of
 workers. Every critical section is one atomic step, except that a worker holds the mutex from the
 moment it has read the shutdown flag until `wait` releases it, because `shutdown` takes no lock.
 */
module WorkQueues {
  import opened Wrappers

  /** A queued connection, named by a number. */
  type Job = nat

  type WorkerId = nat

  /**
   Awake: about to look at the queue (entering `pop`, or woken from `wait`). Checked: holding the mutex,
   having found the queue empty and the flag clear. Busy: running a job outside the queue.
   */
  datatype Worker = Awake | Checked | Sleeping | Busy(job: Job) | Exited

  /** `pushed` and `taken` record history; `late` records a push made after the flag was set. */
  datatype State = State(queue: seq<Job>, shutdown: bool, notified: bool, workers: seq<Worker>,
                         pushed: seq<Job>, taken: seq<Job>, late: bool)

  datatype Step =
    | Push(job: Job, woken: Option<WorkerId>)
    | Take(w: WorkerId)
    | Check(w: WorkerId)
    | Wait(w: WorkerId)
    | Exit(w: WorkerId)
    | SpuriousWake(w: WorkerId)
    | Finish(w: WorkerId)
    | StoreShutdown
    | NotifyAll

  /** What one turn of the loop in `pop` does with the queue it locked. */
  datatype Turn = Got(job: Job) | Stop | MustWait

  function PopTurn(queue: seq<Job>, shutdown: bool): Turn {
    if queue != [] then Got(queue[0]) else if shutdown then Stop else MustWait
  }

  predicate IsLocked(s: State) {
    Checked in s.workers
  }

  predicate Is(s: State, w: WorkerId, state: Worker) {
    w < |s.workers| && s.workers[w] == state
  }

  /** `notify_one` wakes some sleeping worker, if there is any. */
  predicate CanNotify(s: State, woken: Option<WorkerId>) {
    match woken
    case Some(w) => Is(s, w, Sleeping)
    case None => Sleeping !in s.workers
  }

  predicate Enabled(s: State, step: Step) {
    match step
    case Push(_, woken) => !IsLocked(s) && CanNotify(s, woken)
    case Take(w) => !IsLocked(s) && Is(s, w, Awake) && PopTurn(s.queue, s.shutdown).Got?
    case Check(w) => !IsLocked(s) && Is(s, w, Awake) && PopTurn(s.queue, s.shutdown).MustWait?
    case Exit(w) => !IsLocked(s) && Is(s, w, Awake) && PopTurn(s.queue, s.shutdown).Stop?
    case Wait(w) => Is(s, w, Checked)
    case SpuriousWake(w) => Is(s, w, Sleeping)
    case Finish(w) => w < |s.workers| && s.workers[w].Busy?
    case StoreShutdown => true
    case NotifyAll => s.shutdown
  }

  function WakeAll(workers: seq<Worker>): seq<Worker> {
    if workers == [] then [] else [if workers[0].Sleeping? then Awake else workers[0]] + WakeAll(workers[1..])
  }

  function Apply(s: State, step: Step): State
    requires Enabled(s, step)
  {
    match step
    case Push(job, woken) =>
      s.(queue := s.queue + [job], pushed := s.pushed + [job], late := s.late || s.shutdown,
         workers := if woken.Some? then s.workers[woken.value := Awake] else s.workers)
    case Take(w) =>
      s.(queue := s.queue[1..], taken := s.taken + [s.queue[0]], workers := s.workers[w := Busy(s.queue[0])])
    case Check(w) => s.(workers := s.workers[w := Checked])
    case Wait(w) => s.(workers := s.workers[w := Sleeping])
    case Exit(w) => s.(workers := s.workers[w := Exited])
    case SpuriousWake(w) => s.(workers := s.workers[w := Awake])
    case Finish(w) => s.(workers := s.workers[w := Awake])
    case StoreShutdown => s.(shutdown := true)
    case NotifyAll => s.(notified := true, workers := WakeAll(s.workers))
  }

  function Start(workers: nat): State {
    State([], false, false, seq(workers, _ => Awake), [], [], false)
  }

  /** steps is a possible interleaving from s, and t is the state it ends in. */
  ghost predicate IsRun(s: State, steps: seq<Step>, t: State)
    decreases |steps|
  {
    if steps == [] then s == t else Enabled(s, steps[0]) && IsRun(Apply(s, steps[0]), steps[1..], t)
  }

  // ---- Counting workers --------------------------------------------------------------

  function Count(workers: seq<Worker>, state: Worker): nat {
    if workers == [] then 0 else (if workers[0] == state then 1 else 0) + Count(workers[1..], state)
  }

  lemma {:induction false} CountUpdate(workers: seq<Worker>, w: WorkerId, new_: Worker, state: Worker)
    requires w < |workers|
    ensures Count(workers[w := new_], state)
         == Count(workers, state) - (if workers[w] == state then 1 else 0) + (if new_ == state then 1 else 0)
  {
    if w > 0 {
      assert workers[w := new_][1..] == workers[1..][w - 1 := new_];
      CountUpdate(workers[1..], w - 1, new_, state);
    } else {
      assert workers[w := new_][1..] == workers[1..];
    }
  }

  lemma {:induction false} CountPositive(workers: seq<Worker>, state: Worker)
    ensures Count(workers, state) > 0 <==> state in workers
  {
    if workers == [] {
    } else {
      CountPositive(workers[1..], state);
    }
  }

  lemma {:induction false} CountWoken(workers: seq<Worker>)
    ensures Count(WakeAll(workers), Sleeping) == 0
    ensures Count(WakeAll(workers), Awake) == Count(workers, Awake) + Count(workers, Sleeping)
    ensures Count(WakeAll(workers), Checked) == Count(workers, Checked)
    ensures Count(WakeAll(workers), Exited) == Count(workers, Exited)
  {
    if workers == [] {
    } else {
      CountWoken(workers[1..]);
    }
  }

  // ---- The invariant -----------------------------------------------------------------

  ghost predicate Invariant(s: State) {
    // First in, first out, and nothing is lost or duplicated.
    && s.pushed == s.taken + s.queue
    // At most one worker holds the mutex inside `pop`, and then nothing is queued.
    && Count(s.workers, Checked) <= 1
    && (Count(s.workers, Checked) > 0 ==> s.queue == [])
    // No lost wake-up: while anyone sleeps, there is an awake worker for every queued job.
    && (Count(s.workers, Sleeping) > 0 ==> |s.queue| <= Count(s.workers, Awake))
    // A worker leaves only once the flag is set and the queue drained.
    && (Count(s.workers, Exited) > 0 ==> s.shutdown && (s.late || s.queue == []))
    // After `notify_all` at most one worker can be left behind.
    && (s.notified ==> s.shutdown && Count(s.workers, Sleeping) + Count(s.workers, Checked) <= 1)
  }

  lemma CountStep(s: State, w: WorkerId, new_: Worker)
    requires w < |s.workers|
    ensures forall state {:trigger Count(s.workers, state)} ::
      Count(s.workers[w := new_], state)
      == Count(s.workers, state) - (if s.workers[w] == state then 1 else 0) + (if new_ == state then 1 else 0)
  {
    forall state {:trigger Count(s.workers, state)}
      ensures Count(s.workers[w := new_], state)
           == Count(s.workers, state) - (if s.workers[w] == state then 1 else 0) + (if new_ == state then 1 else 0)
    {
      CountUpdate(s.workers, w, new_, state);
    }
  }

  lemma StepKeepsInvariant(s: State, step: Step)
    requires Invariant(s) && Enabled(s, step)
    ensures Invariant(Apply(s, step))
  {
    hide Count, WakeAll;
    CountPositive(s.workers, Checked);
    CountPositive(s.workers, Sleeping);
    match step {
      case Push(_, woken) => if woken.Some? { CountStep(s, woken.value, Awake); }
      case Take(w) => CountStep(s, w, Busy(s.queue[0]));
      case Check(w) => CountStep(s, w, Checked);
      case Wait(w) => CountStep(s, w, Sleeping);
      case Exit(w) => CountStep(s, w, Exited);
      case SpuriousWake(w) => CountStep(s, w, Awake);
      case Finish(w) => CountStep(s, w, Awake);
      case StoreShutdown =>
      case NotifyAll => CountWoken(s.workers);
    }
  }

  lemma {:induction false} StartCounts(n: nat, state: Worker)
    ensures Count(Start(n).workers, state) == if state == Awake then n else 0
  {
    if n == 0 {
    } else {
      StartCounts(n - 1, state);
      assert Start(n).workers[1..] == Start(n - 1).workers;
    }
  }

  lemma StartInvariant(n: nat)
    ensures Invariant(Start(n))
  {
    StartCounts(n, Checked);
    StartCounts(n, Sleeping);
    StartCounts(n, Exited);
  }

  lemma {:induction false} RunKeepsInvariant(s: State, steps: seq<Step>, t: State)
    requires Invariant(s) && IsRun(s, steps, t)
    ensures Invariant(t)
    decreases |steps|
  {
    if steps == [] {
    } else {
      StepKeepsInvariant(s, steps[0]);
      RunKeepsInvariant(Apply(s, steps[0]), steps[1..], t);
    }
  }

  // ---- What every run satisfies ------------------------------------------------------

  /** Jobs come out in the order they went in, each once, whatever the interleaving. */
  lemma FirstInFirstOut(n: nat, steps: seq<Step>, t: State)
    requires IsRun(Start(n), steps, t)
    ensures t.pushed == t.taken + t.queue
  {
    StartInvariant(n);
    RunKeepsInvariant(Start(n), steps, t);
  }

  /** While jobs are queued, either every worker is running a job or gone, or one can take a job now. */
  lemma QueuedJobsAreServed(n: nat, steps: seq<Step>, t: State)
    requires IsRun(Start(n), steps, t) && t.queue != []
    ensures (forall w | 0 <= w < |t.workers| :: t.workers[w].Busy? || t.workers[w].Exited?) ||
            exists w :: Enabled(t, Take(w))
    ensures Sleeping in t.workers ==> Count(t.workers, Awake) >= |t.queue|
  {
    StartInvariant(n);
    RunKeepsInvariant(Start(n), steps, t);
    CountPositive(t.workers, Checked);
    CountPositive(t.workers, Sleeping);
    CountPositive(t.workers, Awake);
    if Awake in t.workers {
      var w :| 0 <= w < |t.workers| && t.workers[w] == Awake;
      assert Enabled(t, Take(w));
    }
  }

  ghost predicate PushesPrecedeShutdown(steps: seq<Step>) {
    forall i, j | 0 <= i < j < |steps| && steps[i] == StoreShutdown :: !steps[j].Push?
  }

  lemma {:induction false} NoLatePush(s: State, steps: seq<Step>, t: State)
    requires IsRun(s, steps, t) && PushesPrecedeShutdown(steps) && !s.late
    requires s.shutdown ==> forall i | 0 <= i < |steps| :: !steps[i].Push?
    ensures !t.late
    decreases |steps|
  {
    if steps == [] {
    } else {
      assert forall i | 0 <= i < |steps[1..]| :: steps[1..][i] == steps[i + 1];
      NoLatePush(Apply(s, steps[0]), steps[1..], t);
    }
  }

  /** The server stops accepting before it shuts its queues down, so a worker leaves only when all is done. */
  lemma ExitMeansDrained(n: nat, steps: seq<Step>, t: State)
    requires IsRun(Start(n), steps, t) && PushesPrecedeShutdown(steps) && Exited in t.workers
    ensures t.shutdown && t.queue == [] && t.taken == t.pushed
  {
    StartInvariant(n);
    RunKeepsInvariant(Start(n), steps, t);
    NoLatePush(Start(n), steps, t);
    CountPositive(t.workers, Exited);
  }

  // ---- Nothing gets stuck ------------------------------------------------------------

  /** A worker at the mutex can always go on, in the one way that the queue and the flag call for. */
  lemma AwakeWorkerMoves(s: State, w: WorkerId)
    requires Is(s, w, Awake) && !IsLocked(s)
    ensures Enabled(s, Take(w)) <==> s.queue != []
    ensures Enabled(s, Exit(w)) <==> s.queue == [] && s.shutdown
    ensures Enabled(s, Check(w)) <==> s.queue == [] && !s.shutdown
  {
  }

  /**
   A push is possible whenever the mutex is free, and the worker that holds it can always let go of it. Nothing
   ever blocks setting the flag, and a sleeper may wake at any time.
   */
  lemma MutexIsReleased(n: nat, steps: seq<Step>, t: State, job: Job)
    requires IsRun(Start(n), steps, t)
    ensures IsLocked(t) ==> exists w :: Enabled(t, Wait(w)) && !IsLocked(Apply(t, Wait(w)))
    ensures !IsLocked(t) ==> exists woken :: Enabled(t, Push(job, woken))
    ensures Enabled(t, StoreShutdown) && forall w | Is(t, w, Sleeping) :: Enabled(t, SpuriousWake(w))
  {
    StartInvariant(n);
    RunKeepsInvariant(Start(n), steps, t);
    if IsLocked(t) {
      var w :| 0 <= w < |t.workers| && t.workers[w] == Checked;
      CountUpdate(t.workers, w, Sleeping, Checked);
      CountPositive(t.workers[w := Sleeping], Checked);
      assert Enabled(t, Wait(w));
    } else if Sleeping in t.workers {
      var w :| 0 <= w < |t.workers| && t.workers[w] == Sleeping;
      assert Enabled(t, Push(job, Some(w)));
    } else {
      assert Enabled(t, Push(job, None));
    }
  }

  /** While jobs are queued the mutex is free, and a worker that finishes its job can take the next one. */
  lemma FinishedWorkerTakesNext(s: State, w: WorkerId)
    requires Invariant(s) && s.queue != [] && Enabled(s, Finish(w))
    ensures var idle := Apply(s, Finish(w));
            Enabled(idle, Take(w)) &&
            var busy := Apply(idle, Take(w));
            busy.workers == s.workers[w := Busy(s.queue[0])] && busy.queue == s.queue[1..] &&
            busy.taken == s.taken + [s.queue[0]]
  {
    CountPositive(s.workers, Checked);
    CountUpdate(s.workers, w, Awake, Checked);
    CountPositive(s.workers[w := Awake], Checked);
  }

  lemma RunOfOne(s: State, step: Step)
    requires Enabled(s, step)
    ensures IsRun(s, [step], Apply(s, step))
  {
    var t := Apply(s, step);
    hide Enabled, Apply;
    assert [step][1..] == [] && IsRun(t, [], t);
  }

  /** A worker that can take the next job, after finishing its own if all are busy. */
  lemma FindTaker(s: State, w: WorkerId) returns (first: seq<Step>, idle: State, v: WorkerId)
    requires Invariant(s) && s.queue != [] && w < |s.workers| && s.workers[w] != Exited
    ensures IsRun(s, first, idle) && Enabled(idle, Take(v)) && forall step | step in first :: step.Finish?
    ensures idle.queue == s.queue && idle.taken == s.taken && |idle.workers| == |s.workers|
  {
    CountPositive(s.workers, Checked);
    CountPositive(s.workers, Sleeping);
    CountPositive(s.workers, Awake);
    if Awake in s.workers {
      v :| 0 <= v < |s.workers| && s.workers[v] == Awake;
      first, idle := [], s;
    } else {
      assert s.workers[w] in s.workers;
      v := w;
      idle := Apply(s, Finish(v));
      first := [Finish(v)];
      FinishedWorkerTakesNext(s, v);
      RunOfOne(s, Finish(v));
    }
  }

  lemma {:induction false} RunConcat(s: State, x: seq<Step>, t: State, y: seq<Step>, u: State)
    requires IsRun(s, x, t) && IsRun(t, y, u)
    ensures IsRun(s, x + y, u)
    decreases |x|
  {
    hide Enabled, Apply;
    if x == [] {
      assert x + y == y;
    } else {
      RunConcat(Apply(s, x[0]), x[1..], t, y, u);
      assert (x + y)[1..] == x[1..] + y;
    }
  }

  /** As long as one worker is left, all that is queued can be taken, in order, with nothing pushed or woken. */
  lemma {:induction false} CanDrain(s: State, w: WorkerId) returns (steps: seq<Step>, t: State)
    requires Invariant(s) && w < |s.workers| && s.workers[w] != Exited
    ensures IsRun(s, steps, t) && t.queue == [] && t.taken == s.taken + s.queue
    ensures forall step | step in steps :: step.Take? || step.Finish?
    decreases |s.queue|
  {
    if s.queue == [] {
      steps, t := [], s;
      assert s.taken + [] == s.taken;
    } else {
      var first, idle, v := FindTaker(s, w);
      var busy := Apply(idle, Take(v));
      RunKeepsInvariant(s, first, idle);
      StepKeepsInvariant(idle, Take(v));
      hide Invariant, Enabled;
      var rest;
      rest, t := CanDrain(busy, v);
      assert s.taken + s.queue == s.taken + [s.queue[0]] + s.queue[1..];
      assert ([Take(v)] + rest)[1..] == rest;
      hide Apply;
      RunConcat(s, first, idle, [Take(v)] + rest, t);
      steps := first + ([Take(v)] + rest);
    }
  }

  lemma {:induction false} NothingPushed(s: State, steps: seq<Step>, t: State)
    requires IsRun(s, steps, t) && forall step | step in steps :: step.Take? || step.Finish?
    ensures t.pushed == s.pushed
    decreases |steps|
  {
    if steps == [] {
    } else {
      assert steps[0] in steps;
      NothingPushed(Apply(s, steps[0]), steps[1..], t);
    }
  }

  /** In every run, whatever is queued is served as long as one worker is left. */
  lemma EveryJobCanBeServed(n: nat, before: seq<Step>, s: State, w: WorkerId) returns (steps: seq<Step>, t: State)
    requires IsRun(Start(n), before, s) && w < |s.workers| && s.workers[w] != Exited
    ensures IsRun(s, steps, t) && t.queue == [] && t.taken == t.pushed == s.pushed
  {
    StartInvariant(n);
    RunKeepsInvariant(Start(n), before, s);
    hide Invariant;
    steps, t := CanDrain(s, w);
    NothingPushed(s, steps, t);
    FirstInFirstOut(n, before, s);
  }

  // ---- Shutdown ----------------------------------------------------------------------

  /** The flag is set, and no worker waits or is about to. */
  ghost predicate NobodyWaits(s: State) {
    s.shutdown && Count(s.workers, Checked) == 0 && Count(s.workers, Sleeping) == 0
  }

  lemma NobodyStartsWaiting(s: State, step: Step)
    requires NobodyWaits(s) && Enabled(s, step)
    ensures NobodyWaits(Apply(s, step))
  {
    hide Count, WakeAll;
    CountPositive(s.workers, Checked);
    CountPositive(s.workers, Sleeping);
    match step {
      case Push(_, woken) =>
      case Take(w) => CountStep(s, w, Busy(s.queue[0]));
      case Exit(w) => CountStep(s, w, Exited);
      case Finish(w) => CountStep(s, w, Awake);
      case StoreShutdown =>
      case NotifyAll => CountWoken(s.workers);
    }
  }

  lemma {:induction false} NobodyEverWaits(s: State, steps: seq<Step>, t: State)
    requires IsRun(s, steps, t) && NobodyWaits(s)
    ensures NobodyWaits(t)
    decreases |steps|
  {
    if steps == [] {
    } else {
      NobodyStartsWaiting(s, steps[0]);
      NobodyEverWaits(Apply(s, steps[0]), steps[1..], t);
    }
  }

  ghost predicate CanFallAsleep(s: State) {
    exists steps, t :: IsRun(s, steps, t) && Sleeping in t.workers
  }

  lemma CheckedFallsAsleep(s: State)
    requires Checked in s.workers
    ensures CanFallAsleep(s)
  {
    var w :| 0 <= w < |s.workers| && s.workers[w] == Checked;
    var t := Apply(s, Wait(w));
    assert t.workers[w] == Sleeping;
    assert IsRun(t, [], t);
    assert IsRun(s, [Wait(w)], t);
  }

  lemma {:induction false} StaysNotified(s: State, steps: seq<Step>, t: State)
    requires IsRun(s, steps, t) && s.notified
    ensures t.notified
    decreases |steps|
  {
    if steps == [] {
    } else {
      StaysNotified(Apply(s, steps[0]), steps[1..], t);
    }
  }

  /**
   `shutdown` sets its flag without the mutex, so it can miss a worker that has read the flag but not yet
   begun to wait. That is the only way: some later state has a sleeping worker exactly when `notify_all`
   ran while a worker stood at that point, and then it is one worker.
   */
  lemma WhoMissesShutdown(n: nat, before: seq<Step>, s: State)
    requires IsRun(Start(n), before, s) && Enabled(s, NotifyAll)
    ensures CanFallAsleep(Apply(s, NotifyAll)) <==> Checked in s.workers
    ensures forall steps, t | IsRun(Apply(s, NotifyAll), steps, t) :: Count(t.workers, Sleeping) <= 1
  {
    hide Count, WakeAll, IsRun;
    StartInvariant(n);
    RunKeepsInvariant(Start(n), before, s);
    var s' := Apply(s, NotifyAll);
    StepKeepsInvariant(s, NotifyAll);
    CountWoken(s.workers);
    CountPositive(s.workers, Checked);
    CountPositive(s'.workers, Checked);
    if Checked in s.workers {
      CheckedFallsAsleep(s');
    }
    forall steps, t | IsRun(s', steps, t)
      ensures Count(t.workers, Sleeping) <= 1
      ensures Checked !in s.workers ==> Sleeping !in t.workers
    {
      StaysNotified(s', steps, t);
      RunKeepsInvariant(s', steps, t);
      CountPositive(t.workers, Sleeping);
      if Checked !in s.workers {
        NobodyEverWaits(s', steps, t);
      }
    }
  }

  lemma RunOfTwo(s: State, first: Step, second: Step)
    requires Enabled(s, first) && Enabled(Apply(s, first), second)
    ensures IsRun(s, [first, second], Apply(Apply(s, first), second))
  {
    var t := Apply(s, first);
    RunOfOne(t, second);
    hide Enabled, Apply;
    assert [first, second][1..] == [second];
  }

  /**
   For instance one worker: it finds the queue empty and the flag clear, the flag is set, all are notified, it
   waits.
   */
  lemma OneWorkerMissesShutdown()
    ensures var s := Apply(Apply(Start(1), Check(0)), StoreShutdown);
            IsRun(Start(1), [Check(0), StoreShutdown], s) && Enabled(s, NotifyAll) && Checked in s.workers &&
            IsRun(Apply(s, NotifyAll), [Wait(0)], Apply(Apply(s, NotifyAll), Wait(0))) &&
            Apply(Apply(s, NotifyAll), Wait(0)).workers == [Sleeping]
  {
    var s1 := Apply(Start(1), Check(0));
    assert s1.workers == [Checked];
    var s := Apply(s1, StoreShutdown);
    RunOfTwo(Start(1), Check(0), StoreShutdown);
    assert [Checked][1..] == [] && WakeAll([Checked]) == [Checked];
    hide WakeAll, IsRun;
    var t := Apply(s, NotifyAll);
    assert t.workers == [Checked] && Apply(t, Wait(0)).workers == [Sleeping];
    RunOfOne(t, Wait(0));
  }

  // ---- The object --------------------------------------------------------------------

  /** What the queue object holds: the jobs, the flag, and the condition variable's waiters. */
  datatype Shared = Shared(queue: seq<Job>, shutdown: bool, waiting: set<WorkerId>)

  function Waiting(workers: seq<Worker>): set<WorkerId> {
    set w | 0 <= w < |workers| && workers[w] == Sleeping
  }

  function View(s: State): Shared {
    Shared(s.queue, s.shutdown, Waiting(s.workers))
  }

  /** What each step does to the object. */
  function OnShared(q: Shared, step: Step): Shared {
    match step
    case Push(job, woken) =>
      q.(queue := q.queue + [job], waiting := if woken.Some? then q.waiting - {woken.value} else q.waiting)
    case Take(_) => q.(queue := if q.queue == [] then [] else q.queue[1..])
    case Wait(w) => q.(waiting := q.waiting + {w})
    case SpuriousWake(w) => q.(waiting := q.waiting - {w})
    case StoreShutdown => q.(shutdown := true)
    case NotifyAll => q.(waiting := {})
    case Check(_) => q
    case Exit(_) => q
    case Finish(_) => q
  }

  /** `notify_one` on the object's waiters. */
  predicate MayWake(q: Shared, woken: Option<WorkerId>) {
    match woken case Some(w) => w in q.waiting case None => q.waiting == {}
  }

  lemma {:induction false} WakeAllWakes(workers: seq<Worker>)
    ensures |WakeAll(workers)| == |workers|
    ensures forall w | 0 <= w < |workers| :: WakeAll(workers)[w] == if workers[w].Sleeping? then Awake else workers[w]
  {
    if workers == [] {
    } else {
      WakeAllWakes(workers[1..]);
    }
  }

  lemma NotifyAgrees(s: State, woken: Option<WorkerId>)
    ensures CanNotify(s, woken) <==> MayWake(View(s), woken)
  {
    if woken.None? && Sleeping in s.workers {
      var w :| 0 <= w < |s.workers| && s.workers[w] == Sleeping;
      assert w in View(s).waiting;
    }
  }

  lemma WaitingUpdate(workers: seq<Worker>, w: WorkerId, new_: Worker)
    requires w < |workers|
    ensures Waiting(workers[w := new_]) == if new_ == Sleeping then Waiting(workers) + {w} else Waiting(workers) - {w}
    ensures workers[w] != Sleeping ==> Waiting(workers) - {w} == Waiting(workers)
  {
  }

  lemma WaitingAllWoken(workers: seq<Worker>)
    ensures Waiting(WakeAll(workers)) == {}
  {
    WakeAllWakes(workers);
  }

  /** The state machine and the object agree on every step. */
  lemma StepOnShared(s: State, step: Step)
    requires Enabled(s, step)
    ensures View(Apply(s, step)) == OnShared(View(s), step)
    ensures step.Push? ==> MayWake(View(s), step.woken)
  {
    hide WakeAll, Waiting;
    match step {
      case Push(_, woken) =>
        NotifyAgrees(s, woken);
        if woken.Some? { WaitingUpdate(s.workers, woken.value, Awake); }
      case Take(w) => WaitingUpdate(s.workers, w, Busy(s.queue[0]));
      case Check(w) => WaitingUpdate(s.workers, w, Checked);
      case Wait(w) => WaitingUpdate(s.workers, w, Sleeping);
      case Exit(w) => WaitingUpdate(s.workers, w, Exited);
      case SpuriousWake(w) => WaitingUpdate(s.workers, w, Awake);
      case Finish(w) => WaitingUpdate(s.workers, w, Awake);
      case StoreShutdown =>
      case NotifyAll => WaitingAllWoken(s.workers);
    }
  }

  /** The object: its fields, and the methods whose sections the steps above are. */
  class WorkQueue {
    var queue: seq<Job>
    var shutdown: bool
    var waiting: set<WorkerId>

    constructor ()
      ensures Contents() == Shared([], false, {})
    {
      queue, shutdown, waiting := [], false, {};
    }

    function Contents(): Shared
      reads this
    {
      Shared(queue, shutdown, waiting)
    }

    /** The lock is held throughout; `notify_one` picks any waiter. */
    method Push(job: Job) returns (woken: Option<WorkerId>)
      modifies this
      ensures MayWake(old(Contents()), woken) && Contents() == OnShared(old(Contents()), Step.Push(job, woken))
    {
      queue := queue + [job];
      woken := None;
      if waiting != {} {
        var w :| w in waiting;
        waiting := waiting - {w};
        woken := Some(w);
      }
    }

    /** One turn of the loop in `pop`, up to where a worker that must wait is about to. */
    method TryPop(w: WorkerId) returns (turn: Turn)
      modifies this
      ensures turn == PopTurn(old(queue), old(shutdown))
      ensures Contents() == OnShared(old(Contents()),
          match turn case Got(_) => Take(w) case Stop => Exit(w) case MustWait => Check(w))
      ensures old(queue) == (if turn.Got? then [turn.job] else []) + queue
    {
      if queue != [] {
        turn := Got(queue[0]);
        queue := queue[1..];
      } else if shutdown {
        turn := Stop;
      } else {
        turn := MustWait;
      }
    }

    method Wait(w: WorkerId)
      modifies this
      ensures Contents() == OnShared(old(Contents()), Step.Wait(w))
    {
      waiting := waiting + {w};
    }

    /** Not one step but two, and no lock: a worker may run between the store and the notification. */
    method Shutdown()
      modifies this
      ensures Contents() == OnShared(OnShared(old(Contents()), Step.StoreShutdown), Step.NotifyAll)
      ensures shutdown && waiting == {} && queue == old(queue)
    {
      shutdown := true;
      waiting := {};
    }
  }
}
