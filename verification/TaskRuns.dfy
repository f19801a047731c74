/** Every interleaving of a task's output threads, its finisher, and the streams that watch it. */
module TaskRuns {
  import opened Arithmetic
  import opened Wrappers
  import opened TaskStreams

  /** `run_orchestration`: inserted, marked running, reading the child's output, over. */
  datatype Phase = Inserted | Running | Streaming | Over

  /** A line of child output, or None where the bytes were not text and the reader skips it. */
  type Output = seq<Option<string>>

  /** out and err are the child's whole output; outRead and errRead say how far each thread has come. */
  datatype State = State(task: Task, phase: Phase, out: Output, outRead: nat, err: Output, errRead: nat,
                         readers: seq<Reader>)

  datatype Outcome = Success(patch: Option<string>) | Failure(line: string)

  datatype Step =
    | Begin
    | Spawn(out: Output, err: Output)
    | SpawnFails(line: string)
    | ReadOut
    | ReadErr
    | Finish(outcome: Outcome)
    | SetPrompt(prompt: Option<string>)
    | Poll(i: nat)

  const STARTING := "Starting orchestration..."
  const COMPLETE := "Orchestration complete."

  predicate Enabled(s: State, step: Step) {
    match step
    case Begin => s.phase.Inserted?
    case Spawn(_, _) => s.phase.Running?
    case SpawnFails(_) => s.phase.Running?
    case ReadOut => s.phase.Streaming? && s.outRead < |s.out|
    case ReadErr => s.phase.Streaming? && s.errRead < |s.err|
    case Finish(_) => s.phase.Streaming? && s.outRead == |s.out| && s.errRead == |s.err|
    case SetPrompt(_) => true
    case Poll(i) => i < |s.readers| && !s.readers[i].closed && s.readers[i].lastLogLine <= |s.task.log|
  }

  function Push(task: Task, line: Option<string>): Task {
    if line.Some? then task.(log := task.log + [line.value]) else task
  }

  function Apply(s: State, step: Step): State
    requires Enabled(s, step)
  {
    match step
    case Begin => s.(phase := Running, task := Push(s.task.(status := "running"), Some(STARTING)))
    case Spawn(out, err) => s.(phase := Streaming, out := out, err := err, outRead := 0, errRead := 0)
    case SpawnFails(line) => s.(phase := Over, task := Push(s.task.(status := "failed"), Some(line)))
    case ReadOut => s.(outRead := s.outRead + 1, task := Push(s.task, s.out[s.outRead]))
    case ReadErr => s.(errRead := s.errRead + 1, task := Push(s.task, s.err[s.errRead]))
    case Finish(Success(patch)) =>
      var diff := if patch.Some? then patch else s.task.diff;
      s.(phase := Over, task := Push(s.task.(status := "complete", diff := diff), Some(COMPLETE)))
    case Finish(Failure(line)) => s.(phase := Over, task := Push(s.task.(status := "failed"), Some(line)))
    case SetPrompt(prompt) => s.(task := s.task.(prompt := prompt))
    case Poll(i) => s.(readers := s.readers[i := Polled(s.task, s.readers[i])])
  }

  function Fresh(writes: nat): Reader {
    Reader(0, "", [], false, writes)
  }

  /** A task just inserted, and the streams that will be opened on it, each with its peer's patience. */
  function Start(writes: seq<nat>): State {
    State(Task("starting", [], None, None, None), Inserted, [], 0, [], 0,
          seq(|writes|, i requires 0 <= i < |writes| => Fresh(writes[i])))
  }

  ghost predicate IsRun(s: State, steps: seq<Step>, t: State)
    decreases |steps|
  {
    if steps == [] then s == t else Enabled(s, steps[0]) && IsRun(Apply(s, steps[0]), steps[1..], t)
  }

  // ---- The log -----------------------------------------------------------------------

  /** The readable lines of an output. */
  function Lines(o: Output): seq<string> {
    if o == [] then [] else Lines(o[..|o| - 1]) + (if o[|o| - 1].Some? then [o[|o| - 1].value] else [])
  }

  /** m holds the lines of x and of y, each in its own order. */
  ghost predicate IsMerge(m: seq<string>, x: seq<string>, y: seq<string>)
    decreases |m|
  {
    if m == [] then x == [] && y == []
    else
      var m', last := m[..|m| - 1], m[|m| - 1];
      (x != [] && x[|x| - 1] == last && IsMerge(m', x[..|x| - 1], y)) ||
      (y != [] && y[|y| - 1] == last && IsMerge(m', x, y[..|y| - 1]))
  }

  /** log is the start line followed by a merge of what the two threads have read. */
  ghost predicate IsPartialLog(log: seq<string>, x: seq<string>, y: seq<string>) {
    log != [] && log[0] == STARTING && IsMerge(log[1..], x, y)
  }

  lemma MergeLeft(m: seq<string>, x: seq<string>, y: seq<string>, line: string)
    requires IsMerge(m, x, y)
    ensures IsMerge(m + [line], x + [line], y)
  {
    assert (m + [line])[..|m|] == m && (x + [line])[..|x|] == x;
  }

  lemma MergeRight(m: seq<string>, x: seq<string>, y: seq<string>, line: string)
    requires IsMerge(m, x, y)
    ensures IsMerge(m + [line], x, y + [line])
  {
    assert (m + [line])[..|m|] == m && (y + [line])[..|y|] == y;
  }

  /**
   The finished log: start line, everything the child wrote to both pipes, nothing if it never ran, and a last line.
   */
  ghost predicate IsFinalLog(task: Task, out: Output, err: Output) {
    task.log != [] &&
    var body, last := task.log[..|task.log| - 1], task.log[|task.log| - 1];
    (task.status == "complete" ==> last == COMPLETE) &&
    IsPartialLog(body, Lines(out), Lines(err))
  }

  /** What the log holds in each phase. */
  ghost predicate LogInvariant(s: State) {
    s.outRead <= |s.out| && s.errRead <= |s.err| &&
    match s.phase
    case Inserted => s.task.log == [] && s.task.status == "starting" && s.out == [] && s.err == []
    case Running => s.task.log == [STARTING] && s.task.status == "running" && s.out == [] && s.err == []
    case Streaming => IsPartialLog(s.task.log, Lines(s.out[..s.outRead]), Lines(s.err[..s.errRead])) &&
      s.task.status == "running"
    case Over => IsTerminal(s.task.status) && IsFinalLog(s.task, s.out, s.err)
  }

  lemma LinesRead(o: Output, k: nat)
    requires k < |o|
    ensures Lines(o[..k + 1]) == if o[k].Some? then Lines(o[..k]) + [o[k].value] else Lines(o[..k])
  {
    assert o[..k + 1][..k] == o[..k];
  }

  lemma PartialLogLeft(log: seq<string>, x: seq<string>, y: seq<string>, line: string)
    requires IsPartialLog(log, x, y)
    ensures IsPartialLog(log + [line], x + [line], y)
  {
    hide IsMerge;
    MergeLeft(log[1..], x, y, line);
    assert (log + [line])[1..] == log[1..] + [line];
  }

  lemma PartialLogRight(log: seq<string>, x: seq<string>, y: seq<string>, line: string)
    requires IsPartialLog(log, x, y)
    ensures IsPartialLog(log + [line], x, y + [line])
  {
    hide IsMerge;
    MergeRight(log[1..], x, y, line);
    assert (log + [line])[1..] == log[1..] + [line];
  }

  lemma ReadOutKeepsLog(s: State)
    requires LogInvariant(s) && Enabled(s, ReadOut)
    ensures LogInvariant(Apply(s, ReadOut))
  {
    LinesRead(s.out, s.outRead);
    hide Lines, IsPartialLog;
    var line := s.out[s.outRead];
    if line.Some? {
      PartialLogLeft(s.task.log, Lines(s.out[..s.outRead]), Lines(s.err[..s.errRead]), line.value);
    }
  }

  lemma ReadErrKeepsLog(s: State)
    requires LogInvariant(s) && Enabled(s, ReadErr)
    ensures LogInvariant(Apply(s, ReadErr))
  {
    LinesRead(s.err, s.errRead);
    hide Lines, IsPartialLog;
    var line := s.err[s.errRead];
    if line.Some? {
      PartialLogRight(s.task.log, Lines(s.out[..s.outRead]), Lines(s.err[..s.errRead]), line.value);
    }
  }

  lemma StepKeepsLog(s: State, step: Step)
    requires LogInvariant(s) && Enabled(s, step)
    ensures LogInvariant(Apply(s, step))
  {
    match step {
      case ReadOut => ReadOutKeepsLog(s);
      case ReadErr => ReadErrKeepsLog(s);
      case Spawn(_, _) => assert [STARTING][1..] == [];
      case Finish(_) =>
        assert s.out[..s.outRead] == s.out && s.err[..s.errRead] == s.err;
        assert Apply(s, step).task.log[..|s.task.log|] == s.task.log;
      case SpawnFails(line) =>
        assert Apply(s, step).task.log[..1] == [STARTING];
      case _ =>
    }
  }

  // ---- The streams -------------------------------------------------------------------

  /** The log lines among the events sent. */
  function LogLines(events: seq<Event>): seq<string> {
    if events == [] then []
    else LogLines(events[..|events| - 1]) + (if events[|events| - 1].Log? then [events[|events| - 1].line] else [])
  }

  /** The status last sent, or the one before if none was sent. */
  function StatusAfter(before: string, events: seq<Event>): string {
    if events == [] then before
    else if events[|events| - 1].Status? then events[|events| - 1].status
    else StatusAfter(before, events[..|events| - 1])
  }

  lemma {:induction false} EventsConcat(x: seq<Event>, y: seq<Event>, before: string)
    ensures LogLines(x + y) == LogLines(x) + LogLines(y)
    ensures StatusAfter(before, x + y) == StatusAfter(StatusAfter(before, x), y)
    decreases |y|
  {
    if y == [] {
      assert x + y == x;
    } else {
      var init, last := y[..|y| - 1], y[|y| - 1];
      assert (x + y)[..|x + y| - 1] == x + init;
      var line := if last.Log? then [last.line] else [];
      assert LogLines(x + y) == LogLines(x + init) + line && LogLines(y) == LogLines(init) + line;
      EventsConcat(x, init, before);
      hide LogLines;
      assert LogLines(x) + LogLines(init) + line == LogLines(x) + (LogLines(init) + line);
    }
  }

  lemma {:induction false} LogEventsRoundTrip(lines: seq<string>, before: string)
    ensures LogLines(LogEvents(lines)) == lines
    ensures StatusAfter(before, LogEvents(lines)) == before
    ensures Done !in LogEvents(lines)
  {
    if lines == [] {
    } else {
      var init := lines[..|lines| - 1];
      LogEventsRoundTrip(init, before);
      assert LogEvents(lines)[..|lines| - 1] == LogEvents(init);
    }
  }

  lemma {:induction false} NeitherLogNorStatus(events: seq<Event>, before: string)
    requires forall e | e in events :: !e.Log? && !e.Status?
    ensures LogLines(events) == [] && StatusAfter(before, events) == before
  {
    if events == [] {
    } else {
      NeitherLogNorStatus(events[..|events| - 1], before);
    }
  }

  /** A stream that has said it is done sent its task's last status, then any diff, and nothing after. */
  ghost predicate IsClosing(task: Task, r: Reader) {
    r.sent != [] && r.sent[|r.sent| - 1] == Done && Done !in r.sent[..|r.sent| - 1] &&
    r.closed && r.lastLogLine == |task.log| && IsTerminal(task.status) && r.lastStatus == task.status &&
    (task.diff.Some? ==> |r.sent| >= 2 && r.sent[|r.sent| - 2] == Diff(task.diff.value, task.summary))
  }

  /** A stream has sent the log so far, line by line, and the status it last saw. */
  ghost predicate IsInStep(task: Task, r: Reader) {
    r.lastLogLine <= |task.log| && LogLines(r.sent) == task.log[..r.lastLogLine] &&
      StatusAfter("", r.sent) == r.lastStatus
  }

  ghost predicate ReaderInvariant(task: Task, r: Reader) {
    IsInStep(task, r) && (Done in r.sent ==> IsClosing(task, r))
  }

  lemma SendingLogKeepsStep(task: Task, r: Reader)
    requires IsInStep(task, r) && Done !in r.sent
    ensures IsInStep(task, LogSent(task.log, r)) && Done !in LogSent(task.log, r).sent
  {
    hide LogLines, StatusAfter, LogEvents;
    var n := Min(r.writesLeft, |task.log| - r.lastLogLine);
    var lines := task.log[r.lastLogLine..r.lastLogLine + n];
    var events := LogEvents(lines);
    assert LogSent(task.log, r).sent == r.sent + events;
    LogEventsRoundTrip(lines, r.lastStatus);
    EventsConcat(r.sent, events, "");
    assert task.log[..r.lastLogLine] + lines == task.log[..r.lastLogLine + n];
  }

  /** What a poll sends behind the status: nothing that counts as log or status, and at the end the diff and `done`. */
  ghost predicate IsTail(task: Task, tail: seq<Event>) {
    (forall e | e in tail :: !e.Log? && !e.Status?) &&
    if IsTerminal(task.status)
    then tail != [] && tail[|tail| - 1] == Done && Done !in tail[..|tail| - 1] &&
         (task.diff.Some? ==> |tail| >= 2 && tail[|tail| - 2] == Diff(task.diff.value, task.summary))
    else Done !in tail
  }

  lemma TailIs(task: Task)
    ensures IsTail(task, PromptEvents(task) + EndEvents(task))
  {
    var diff := if task.diff.Some? then [Diff(task.diff.value, task.summary)] else [];
    var tail := PromptEvents(task) + EndEvents(task);
    if IsTerminal(task.status) {
      assert EndEvents(task) == diff + [Done];
      assert tail == PromptEvents(task) + diff + [Done];
      assert tail[..|tail| - 1] == PromptEvents(task) + diff;
    }
  }

  /** The parts of a trailer: a status, and the rest. */
  lemma TrailerParts(task: Task, last: string) returns (head: seq<Event>, tail: seq<Event>)
    ensures Trailer(task, last) == head + tail
    ensures head == if task.status != last then [Status(task.status)] else []
    ensures IsTail(task, tail)
  {
    head := StatusEvents(task, last);
    tail := PromptEvents(task) + EndEvents(task);
    TailIs(task);
    hide IsTail, PromptEvents, EndEvents;
    assert Trailer(task, last) == head + tail;
  }

  /** However far the peer lets it get, a trailer adds no log line, and its status as soon as it gets anywhere. */
  lemma TrailerSlice(head: seq<Event>, tail: seq<Event>, n: nat, before: string, status: string)
    requires head == [] || head == [Status(status)]
    requires n <= |head| + |tail| && forall e | e in tail :: !e.Log? && !e.Status?
    ensures LogLines((head + tail)[..n]) == []
    ensures StatusAfter(before, (head + tail)[..n]) == if n > 0 && head != [] then status else before
  {
    if head == [] {
      assert (head + tail)[..n] == tail[..n];
      NeitherLogNorStatus(tail[..n], before);
    } else if n > 0 {
      assert (head + tail)[..n] == head + tail[..n - 1];
      EventsConcat(head, tail[..n - 1], before);
      assert LogLines(head) == [] && StatusAfter(before, head) == status by {
        assert head[..0] == [];
      }
      NeitherLogNorStatus(tail[..n - 1], status);
    }
  }

  lemma SendingTrailerKeepsStep(task: Task, r: Reader)
    requires IsInStep(task, r)
    ensures IsInStep(task, TrailerSent(task, r))
  {
    var head, tail := TrailerParts(task, r.lastStatus);
    hide Trailer, LogLines, StatusAfter;
    var n := Min(r.writesLeft, |head + tail|);
    EventsConcat(r.sent, (head + tail)[..n], "");
    TrailerSlice(head, tail, n, r.lastStatus, task.status);
  }

  lemma DoneComesLast(sent: seq<Event>, head: seq<Event>, tail: seq<Event>, n: nat)
    requires Done !in sent && Done !in head && n <= |head| + |tail|
    requires tail == [] || (tail[|tail| - 1] == Done && Done !in tail[..|tail| - 1])
    ensures var all := sent + (head + tail)[..n];
            (Done in all <==> tail != [] && n == |head| + |tail|) &&
            (Done in all ==> all == sent + (head + tail) && Done !in all[..|all| - 1])
  {
    var all := sent + (head + tail)[..n];
    if tail != [] {
      var init := head + tail[..|tail| - 1];
      assert Done !in init;
      if n < |head| + |tail| {
        assert (head + tail)[..n] == init[..n];
      } else {
        assert (head + tail)[..n] == head + tail && all[..|all| - 1] == sent + init;
        assert all[|all| - 1] == Done;
      }
    } else {
      assert head + tail == head;
    }
  }

  lemma SendingTrailerCloses(task: Task, r: Reader)
    requires Done !in r.sent && r.lastLogLine == |task.log|
    ensures Done in TrailerSent(task, r).sent ==> IsClosing(task, TrailerSent(task, r))
    ensures IsTerminal(task.status) && r.writesLeft >= |Trailer(task, r.lastStatus)| ==>
      Done in TrailerSent(task, r).sent
  {
    var head, tail := TrailerParts(task, r.lastStatus);
    hide Trailer;
    assert IsTerminal(task.status) || tail == [] || Done !in tail;
    var n := Min(r.writesLeft, |head + tail|);
    if IsTerminal(task.status) {
      DoneComesLast(r.sent, head, tail, n);
    } else {
      assert Done !in (head + tail)[..n];
    }
  }

  lemma PollKeepsReader(task: Task, r: Reader)
    requires ReaderInvariant(task, r) && !r.closed
    ensures ReaderInvariant(task, Polled(task, r))
  {
    PollInTwoParts(task, r);
    SendingLogKeepsStep(task, r);
    var mid := LogSent(task.log, r);
    hide LogLines, StatusAfter, Trailer;
    if !mid.closed {
      SendingTrailerKeepsStep(task, mid);
      SendingTrailerCloses(task, mid);
    }
  }

  // ---- Whole runs --------------------------------------------------------------------

  ghost predicate Invariant(s: State) {
    LogInvariant(s) && forall i | 0 <= i < |s.readers| :: ReaderInvariant(s.task, s.readers[i])
  }

  lemma WritersKeepReader(s: State, step: Step, r: Reader)
    requires LogInvariant(s) && Enabled(s, step) && !step.Poll? && ReaderInvariant(s.task, r)
    ensures ReaderInvariant(Apply(s, step).task, r)
  {
    var task' := Apply(s, step).task;
    assert s.task.log <= task'.log;
    assert task'.log[..r.lastLogLine] == s.task.log[..r.lastLogLine];
  }

  lemma StepKeepsInvariant(s: State, step: Step)
    requires Invariant(s) && Enabled(s, step)
    ensures Invariant(Apply(s, step))
  {
    StepKeepsLog(s, step);
    hide LogInvariant, ReaderInvariant, Polled;
    match step {
      case Poll(i) => PollKeepsReader(s.task, s.readers[i]);
      case _ =>
        forall i | 0 <= i < |s.readers|
          ensures ReaderInvariant(Apply(s, step).task, s.readers[i])
        {
          WritersKeepReader(s, step, s.readers[i]);
        }
    }
  }

  lemma {:induction false} RunKeepsInvariant(s: State, steps: seq<Step>, t: State)
    requires Invariant(s) && IsRun(s, steps, t)
    ensures Invariant(t)
    decreases |steps|
  {
    if steps == [] {
    } else {
      StepKeepsInvariant(s, steps[0]);
      RunKeepsInvariant(Apply(s, steps[0]), steps[1..], t);
    }
  }

  /** At every moment of every run, each stream has sent exactly the first lines of the log, in order. */
  lemma StreamsFollowTheLog(writes: seq<nat>, steps: seq<Step>, t: State, i: nat)
    requires IsRun(Start(writes), steps, t) && i < |t.readers|
    ensures LogLines(t.readers[i].sent) <= t.task.log
    ensures !t.readers[i].closed ==> Enabled(t, Poll(i))
  {
    RunKeepsInvariant(Start(writes), steps, t);
  }

  /** A stream that has sent `done` has sent the complete final log, and the terminal status after everything. */
  lemma DoneMeansComplete(writes: seq<nat>, steps: seq<Step>, t: State, i: nat)
    requires IsRun(Start(writes), steps, t) && i < |t.readers| && Done in t.readers[i].sent
    ensures t.phase.Over? && IsFinalLog(t.task, t.out, t.err)
    ensures LogLines(t.readers[i].sent) == t.task.log
    ensures StatusAfter("", t.readers[i].sent) == t.task.status && IsTerminal(t.task.status)
    ensures IsClosing(t.task, t.readers[i])
  {
    RunKeepsInvariant(Start(writes), steps, t);
    assert t.task.log[..|t.task.log|] == t.task.log;
  }

  lemma SilentTrailer(task: Task, lastStatus: string)
    ensures Trailer(task, lastStatus) == [] ==> task.status == lastStatus
  {
  }

  lemma PromptIsSent(task: Task, r: Reader)
    requires r.lastLogLine <= |task.log|
    ensures forall prompt :: Interactive(prompt) in PollEvents(task, r) <==> task.prompt == Some(prompt)
  {
  }

  /**
   What one poll comes to. If the peer takes everything, the stream has sent the whole log, the status, and the
   prompt if and only if one is pending; it stays open unless the task is over. Otherwise it closes, with every
   write the peer would take used up.
   */
  lemma PollOutcome(task: Task, r: Reader)
    requires ReaderInvariant(task, r) && !r.closed
    ensures var p := Polled(task, r);
            |p.sent| + p.writesLeft == |r.sent| + r.writesLeft && r.sent <= p.sent &&
            if r.writesLeft < |PollEvents(task, r)| then p.closed && p.writesLeft == 0
            else
              LogLines(p.sent) == task.log && StatusAfter("", p.sent) == task.status &&
              (p.closed <==> IsTerminal(task.status)) &&
              forall prompt :: Interactive(prompt) in p.sent[|r.sent|..] <==> task.prompt == Some(prompt)
  {
    PollKeepsReader(task, r);
    PromptIsSent(task, r);
    SilentTrailer(task, r.lastStatus);
    hide LogLines, StatusAfter, Trailer, LogEvents, IsClosing;
    var p, events := Polled(task, r), PollEvents(task, r);
    if r.writesLeft >= |events| {
      assert events[..|events|] == events && p.sent[|r.sent|..] == events;
      assert task.log[..|task.log|] == task.log;
    }
  }

  /** Once the task is over, a poll whose peer takes every event ends the stream with `done`. */
  lemma PollAfterTheEndFinishes(writes: seq<nat>, steps: seq<Step>, t: State, i: nat)
    requires IsRun(Start(writes), steps, t) && t.phase.Over? && i < |t.readers| && !t.readers[i].closed
    ensures Enabled(t, Poll(i))
    ensures t.readers[i].writesLeft >= |PollEvents(t.task, t.readers[i])| ==> Done in Apply(t, Poll(i)).readers[i].sent
  {
    RunKeepsInvariant(Start(writes), steps, t);
    var r := t.readers[i];
    PollInTwoParts(t.task, r);
    SendingLogKeepsStep(t.task, r);
    var mid := LogSent(t.task.log, r);
    if !mid.closed {
      SendingTrailerCloses(t.task, mid);
    }
  }

  // ---- How a run ends ----------------------------------------------------------------

  /** The last line of the log, the status and the diff, as the step that ended the task set them. */
  ghost predicate EndsAs(task: Task, step: Step) {
    task.log != [] &&
    var last := task.log[|task.log| - 1];
    match step
    case SpawnFails(line) => task.status == "failed" && last == line && task.diff == None
    case Finish(Failure(line)) => task.status == "failed" && last == line && task.diff == None
    case Finish(Success(patch)) => task.status == "complete" && last == COMPLETE && task.diff == patch
    case _ => false
  }

  predicate IsEnding(step: Step) {
    step.SpawnFails? || step.Finish?
  }

  function LastPrompt(steps: seq<Step>): Option<string> {
    if steps == [] then None
    else if steps[|steps| - 1].SetPrompt? then steps[|steps| - 1].prompt
    else LastPrompt(steps[..|steps| - 1])
  }

  /** What the steps so far have left behind in s. */
  ghost predicate IsHistory(steps: seq<Step>, s: State) {
    (forall step | step in steps && IsEnding(step) :: s.phase.Over? && EndsAs(s.task, step)) &&
    (s.phase.Over? ==> exists step :: step in steps && IsEnding(step)) &&
    (!s.phase.Over? ==> s.task.diff == None) &&
    (forall step | step in steps && step.Spawn? :: s.out == step.out && s.err == step.err) &&
    (s.phase.Inserted? || s.phase.Running? ==> forall step | step in steps :: !step.Spawn?) &&
    s.task.prompt == LastPrompt(steps)
  }

  lemma StepKeepsHistory(steps: seq<Step>, s: State, step: Step)
    requires IsHistory(steps, s) && Enabled(s, step)
    ensures IsHistory(steps + [step], Apply(s, step))
  {
    assert (steps + [step])[..|steps|] == steps && step in steps + [step];
    assert forall other | other in steps + [step] :: other in steps || other == step;
    if s.phase.Over? {
      var ending :| ending in steps && IsEnding(ending);
      assert ending in steps + [step];
    }
  }

  lemma {:induction false} RunKeepsHistory(before: seq<Step>, s: State, steps: seq<Step>, t: State)
    requires IsHistory(before, s) && IsRun(s, steps, t)
    ensures IsHistory(before + steps, t)
    decreases |steps|
  {
    hide IsHistory, Enabled, Apply;
    if steps == [] {
      assert before + steps == before;
    } else {
      StepKeepsHistory(before, s, steps[0]);
      RunKeepsHistory(before + [steps[0]], Apply(s, steps[0]), steps[1..], t);
      assert before + [steps[0]] + steps[1..] == before + steps;
    }
  }

  /**
   A task ends as its child did, once, on all the output the child was spawned with; the prompt is the last one set.
   */
  lemma RunEndsAsChildDid(writes: seq<nat>, steps: seq<Step>, t: State)
    requires IsRun(Start(writes), steps, t)
    ensures forall step | step in steps && IsEnding(step) :: t.phase.Over? && EndsAs(t.task, step)
    ensures t.phase.Over? <==> exists step :: step in steps && IsEnding(step)
    ensures forall step | step in steps && step.Spawn? :: t.out == step.out && t.err == step.err
    ensures t.task.prompt == LastPrompt(steps)
  {
    assert IsHistory([], Start(writes));
    RunKeepsHistory([], Start(writes), steps, t);
    assert [] + steps == steps;
  }

  /** Until it is over a task can always go on, whatever comes of the child; and a prompt can be set at any time. */
  lemma TaskCanGoOn(s: State, out: Output, err: Output, line: string, outcome: Outcome, prompt: Option<string>)
    requires LogInvariant(s)
    ensures match s.phase
            case Inserted => Enabled(s, Begin)
            case Running => Enabled(s, Spawn(out, err)) && Enabled(s, SpawnFails(line))
            case Streaming =>
              (Enabled(s, ReadOut) <==> s.outRead < |s.out|) && (Enabled(s, ReadErr) <==> s.errRead < |s.err|) &&
              (Enabled(s, Finish(outcome)) <==> !Enabled(s, ReadOut) && !Enabled(s, ReadErr))
            case Over => true
    ensures Enabled(s, SetPrompt(prompt))
  {
  }

  /** A stream moves by its own polls alone. */
  lemma {:induction false} OnlyOwnPollsMove(s: State, steps: seq<Step>, t: State, j: nat)
    requires IsRun(s, steps, t) && j < |s.readers| && Poll(j) !in steps
    ensures |t.readers| == |s.readers| && t.readers[j] == s.readers[j]
    decreases |steps|
  {
    if steps == [] {
    } else {
      hide Polled;
      OnlyOwnPollsMove(Apply(s, steps[0]), steps[1..], t, j);
    }
  }

  // ---- Which logs are possible -------------------------------------------------------

  lemma {:induction false} RunAppend(s: State, steps: seq<Step>, t: State, step: Step)
    requires IsRun(s, steps, t) && Enabled(t, step)
    ensures IsRun(s, steps + [step], Apply(t, step))
    decreases |steps|
  {
    hide Enabled, Apply;
    if steps == [] {
      assert IsRun(Apply(t, step), [], Apply(t, step));
      assert (steps + [step])[1..] == [];
    } else {
      RunAppend(Apply(s, steps[0]), steps[1..], t, step);
      assert (steps + [step])[1..] == steps[1..] + [step];
    }
  }

  /** A running child, when the threads have read i and j entries of its output and logged the lines of m. */
  function HasRead(s: State, out: Output, i: nat, err: Output, j: nat, m: seq<string>): State {
    s.(phase := Streaming, out := out, outRead := i, err := err, errRead := j, task := s.task.(log := s.task.log + m))
  }

  function LineOf(entry: Option<string>): seq<string> {
    if entry.Some? then [entry.value] else []
  }

  /** Which thread may have read last, and what the log held before. */
  /** Either output may have given the last line of a merge, unless it has none or another one. */
  lemma MergeEndsInEither(m: seq<string>, x: seq<string>, y: seq<string>) returns (fromX: bool)
    requires IsMerge(m, x, y) && (x != [] || y != [])
    ensures m != []
    ensures if fromX then x != [] && x[|x| - 1] == m[|m| - 1] && IsMerge(m[..|m| - 1], x[..|x| - 1], y)
            else y != [] && y[|y| - 1] == m[|m| - 1] && IsMerge(m[..|m| - 1], x, y[..|y| - 1])
  {
    fromX := x != [] && x[|x| - 1] == m[|m| - 1] && IsMerge(m[..|m| - 1], x[..|x| - 1], y);
  }

  /** The entry read last: nothing if it was no text, and otherwise the last line. */
  lemma LinesDropLast(o: Output, k: nat)
    requires 0 < k <= |o|
    ensures o[k - 1].None? ==> Lines(o[..k]) == Lines(o[..k - 1])
    ensures o[k - 1].Some? ==> var x := Lines(o[..k]);
                               x != [] && x[|x| - 1] == o[k - 1].value && x[..|x| - 1] == Lines(o[..k - 1])
  {
    LinesRead(o, k - 1);
  }

  lemma LinesOfNothing(o: Output, k: nat)
    requires k <= |o|
    ensures k == 0 ==> Lines(o[..k]) == []
  {
  }

  lemma LineOfIs(m: seq<string>, entry: Option<string>)
    ensures entry.None? ==> m + LineOf(entry) == m
    ensures m != [] && entry == Some(m[|m| - 1]) ==> m[..|m| - 1] + LineOf(entry) == m
  {
  }

  /** Which thread may have read last, and what the log held before. */
  lemma LastRead(out: Output, i: nat, err: Output, j: nat, m: seq<string>) returns (fromOut: bool, before: seq<string>)
    requires i <= |out| && j <= |err| && i + j > 0 && IsMerge(m, Lines(out[..i]), Lines(err[..j]))
    ensures if fromOut
            then i > 0 && m == before + LineOf(out[i - 1]) && IsMerge(before, Lines(out[..i - 1]), Lines(err[..j]))
            else j > 0 && m == before + LineOf(err[j - 1]) && IsMerge(before, Lines(out[..i]), Lines(err[..j - 1]))
  {
    hide *;
    LinesOfNothing(out, i);
    LinesOfNothing(err, j);
    if i > 0 {
      LinesDropLast(out, i);
      LineOfIs(m, out[i - 1]);
    }
    if j > 0 {
      LinesDropLast(err, j);
      LineOfIs(m, err[j - 1]);
    }
    if i > 0 && out[i - 1].None? {
      fromOut, before := true, m;
    } else if j > 0 && err[j - 1].None? {
      fromOut, before := false, m;
    } else {
      fromOut := MergeEndsInEither(m, Lines(out[..i]), Lines(err[..j]));
      before := m[..|m| - 1];
    }
  }

  lemma ReadNext(s: State, out: Output, i: nat, err: Output, j: nat, before: seq<string>)
    requires i <= |out| && j <= |err|
    ensures i < |out| ==> Enabled(HasRead(s, out, i, err, j, before), ReadOut) &&
                          Apply(HasRead(s, out, i, err, j, before), ReadOut)
                          == HasRead(s, out, i + 1, err, j, before + LineOf(out[i]))
    ensures j < |err| ==> Enabled(HasRead(s, out, i, err, j, before), ReadErr) &&
                          Apply(HasRead(s, out, i, err, j, before), ReadErr)
                          == HasRead(s, out, i, err, j + 1, before + LineOf(err[j]))
  {
    assert before + [] == before;
    assert forall line :: s.task.log + before + [line] == s.task.log + (before + [line]);
  }

  lemma {:induction false} MergeIsReached(s: State, out: Output, i: nat, err: Output, j: nat, m: seq<string>)
    returns (steps: seq<Step>)
    requires i <= |out| && j <= |err| && IsMerge(m, Lines(out[..i]), Lines(err[..j]))
    ensures IsRun(HasRead(s, out, 0, err, 0, []), steps, HasRead(s, out, i, err, j, m))
    decreases i + j
  {
    if i + j == 0 {
      assert out[..0] == [] && err[..0] == [] && m == [];
      steps := [];
    } else {
      var fromOut, before := LastRead(out, i, err, j, m);
      hide Enabled, Apply, IsMerge, Lines, HasRead, LineOf;
      if fromOut {
        steps := MergeIsReached(s, out, i - 1, err, j, before);
        ReadNext(s, out, i - 1, err, j, before);
        RunAppend(HasRead(s, out, 0, err, 0, []), steps, HasRead(s, out, i - 1, err, j, before), ReadOut);
        steps := steps + [ReadOut];
      } else {
        steps := MergeIsReached(s, out, i, err, j - 1, before);
        ReadNext(s, out, i, err, j - 1, before);
        RunAppend(HasRead(s, out, 0, err, 0, []), steps, HasRead(s, out, i, err, j - 1, before), ReadErr);
        steps := steps + [ReadErr];
      }
    }
  }

  lemma {:induction false} RunConcat(s: State, x: seq<Step>, t: State, y: seq<Step>, u: State)
    requires IsRun(s, x, t) && IsRun(t, y, u)
    ensures IsRun(s, x + y, u)
    decreases |x|
  {
    hide Enabled, Apply;
    if x == [] {
      assert x + y == y;
    } else {
      RunConcat(Apply(s, x[0]), x[1..], t, y, u);
      assert (x + y)[1..] == x[1..] + y;
    }
  }

  function LastLine(outcome: Outcome): string {
    match outcome case Success(_) => COMPLETE case Failure(line) => line
  }

  lemma StartsReading(writes: seq<nat>, out: Output, err: Output)
    ensures var s1 := Apply(Start(writes), Begin);
            IsRun(Start(writes), [Begin, Spawn(out, err)], HasRead(s1, out, 0, err, 0, []))
  {
    var s0 := Start(writes);
    var s1 := Apply(s0, Begin);
    var s2 := Apply(s1, Spawn(out, err));
    assert [STARTING] + [] == [STARTING] && s2 == HasRead(s1, out, 0, err, 0, []);
    hide Start, HasRead;
    assert IsRun(s2, [], s2) && [Spawn(out, err)][1..] == [];
    assert IsRun(s1, [Spawn(out, err)], s2) && [Begin, Spawn(out, err)][1..] == [Spawn(out, err)];
  }

  lemma FinishesReading(writes: seq<nat>, out: Output, err: Output, m: seq<string>, outcome: Outcome)
    ensures var s := HasRead(Apply(Start(writes), Begin), out, |out|, err, |err|, m);
            Enabled(s, Finish(outcome)) &&
            var t := Apply(s, Finish(outcome));
            t.phase.Over? && t.task.log == [STARTING] + m + [LastLine(outcome)]
  {
    assert [] + [STARTING] == [STARTING];
  }

  /** Whatever the child writes and however it ends, every merge of its two outputs is the log of some run. */
  lemma EveryMergeHappens(writes: seq<nat>, out: Output, err: Output, m: seq<string>, outcome: Outcome)
    returns (steps: seq<Step>, t: State)
    requires IsMerge(m, Lines(out), Lines(err))
    ensures IsRun(Start(writes), steps, t) && Spawn(out, err) in steps && Finish(outcome) in steps
    ensures t.phase.Over? && t.task.log == [STARTING] + m + [LastLine(outcome)]
  {
    var s0, s1 := Start(writes), Apply(Start(writes), Begin);
    StartsReading(writes, out, err);
    FinishesReading(writes, out, err, m, outcome);
    assert out[..|out|] == out && err[..|err|] == err;
    hide *;
    var s2, s3 := HasRead(s1, out, 0, err, 0, []), HasRead(s1, out, |out|, err, |err|, m);
    var reading := MergeIsReached(s1, out, |out|, err, |err|, m);
    t := Apply(s3, Finish(outcome));
    var start := [Begin, Spawn(out, err)];
    assert Spawn(out, err) in start;
    RunConcat(s0, start, s2, reading, s3);
    RunAppend(s0, start + reading, s3, Finish(outcome));
    steps := start + reading + [Finish(outcome)];
  }
}
