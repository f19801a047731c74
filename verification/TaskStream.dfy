/** The API server's task log: three writers under one lock, and event streams that poll it. */
module TaskStreams {
  import opened Arithmetic
  import opened Wrappers

  datatype Task = Task(status: string, log: seq<string>, prompt: Option<string>, diff: Option<string>,
                       summary: Option<string>)

  datatype Event =
    | Log(line: string)
    | Status(status: string)
    | Interactive(prompt: string)
    | Diff(diff: string, summary: Option<string>)
    | Done
    | NotFound

  /** A stream: what it has sent, and how many more writes its peer will accept before it goes away. */
  datatype Reader = Reader(lastLogLine: nat, lastStatus: string, sent: seq<Event>, closed: bool, writesLeft: nat)

  predicate IsTerminal(status: string) {
    status == "complete" || status == "failed"
  }

  // ---- One poll, in closed form ------------------------------------------------------

  function LogEvents(lines: seq<string>): (events: seq<Event>)
    ensures |events| == |lines|
  {
    seq(|lines|, i requires 0 <= i < |lines| => Log(lines[i]))
  }

  function StatusEvents(task: Task, lastStatus: string): seq<Event> {
    if task.status != lastStatus then [Status(task.status)] else []
  }

  function PromptEvents(task: Task): seq<Event> {
    if task.prompt.Some? then [Interactive(task.prompt.value)] else []
  }

  function EndEvents(task: Task): seq<Event> {
    if !IsTerminal(task.status) then []
    else if task.diff.Some? then [Diff(task.diff.value, task.summary), Done]
    else [Done]
  }

  /** What a poll sends after the log lines. */
  function Trailer(task: Task, lastStatus: string): seq<Event> {
    StatusEvents(task, lastStatus) + PromptEvents(task) + EndEvents(task)
  }

  function PollEvents(task: Task, r: Reader): seq<Event>
    requires r.lastLogLine <= |task.log|
  {
    LogEvents(task.log[r.lastLogLine..]) + Trailer(task, r.lastStatus)
  }

  /** The peer holds as much of the events as it still accepted. */
  function Attempted(r: Reader, events: seq<Event>): Reader {
    var n := Min(r.writesLeft, |events|);
    r.(sent := r.sent + events[..n], writesLeft := r.writesLeft - n)
  }

  /** The stream after a poll: all of the poll's events, or as many as the peer accepts before it goes away. */
  function Polled(task: Task, r: Reader): Reader
    requires r.lastLogLine <= |task.log|
  {
    var events := PollEvents(task, r);
    var unsent := |task.log| - r.lastLogLine;
    Attempted(r, events).(lastLogLine := r.lastLogLine + Min(r.writesLeft, unsent),
                          lastStatus := if r.writesLeft > unsent then task.status else r.lastStatus,
                          closed := r.writesLeft < |events| || IsTerminal(task.status))
  }

  // ---- The two halves of a poll -----------------------------------------------------

  lemma SendInTwoParts(sent: seq<Event>, x: seq<Event>, y: seq<Event>, writes: nat)
    ensures var k := Min(writes, |x|);
            var both := sent + (x + y)[..Min(writes, |x| + |y|)];
            both == (sent + x[..k]) + y[..Min(writes - k, |y|)] && (k < |x| ==> both == sent + x[..k])
  {
    if writes <= |x| {
      assert (x + y)[..writes] == x[..writes];
    } else {
      var n := Min(writes - |x|, |y|);
      assert (x + y)[..|x| + n] == x + y[..n] && x[..|x|] == x;
    }
  }

  lemma AttemptConcat(r: Reader, x: seq<Event>, y: seq<Event>)
    ensures Attempted(r, x + y) == Attempted(Attempted(r, x), y)
    ensures r.writesLeft < |x| ==> Attempted(r, x + y) == Attempted(r, x)
  {
    SendInTwoParts(r.sent, x, y, r.writesLeft);
  }

  function TrailerSent(task: Task, r: Reader): Reader {
    var events := Trailer(task, r.lastStatus);
    Attempted(r, events).(lastStatus := if r.writesLeft > 0 then task.status else r.lastStatus,
                          closed := r.writesLeft < |events| || IsTerminal(task.status))
  }

  lemma TrailerInParts(task: Task, r: Reader)
    requires !r.closed
    ensures var a, b, c := StatusEvents(task, r.lastStatus), PromptEvents(task), EndEvents(task);
            var r1 := Attempted(r, a).(lastStatus := if |a| <= r.writesLeft then task.status else r.lastStatus,
                                       closed := |a| > r.writesLeft);
            var r2 := Attempted(r1, b).(closed := |b| > r1.writesLeft);
            TrailerSent(task, r)
            == if r1.closed then r1 else if r2.closed then r2 else Attempted(r2, c).(closed := IsTerminal(task.status))
  {
    var a, b, c := StatusEvents(task, r.lastStatus), PromptEvents(task), EndEvents(task);
    assert a != [] <==> task.status != r.lastStatus;
    hide StatusEvents, PromptEvents, EndEvents;
    AttemptConcat(r, a + b, c);
    AttemptConcat(r, a, b);
  }

  function LogSent(log: seq<string>, r: Reader): Reader
    requires r.lastLogLine <= |log|
  {
    var n := Min(r.writesLeft, |log| - r.lastLogLine);
    r.(lastLogLine := r.lastLogLine + n, sent := r.sent + LogEvents(log[r.lastLogLine..r.lastLogLine + n]),
       closed := r.lastLogLine + n < |log|, writesLeft := r.writesLeft - n)
  }

  lemma LogEventsSlice(log: seq<string>, from: nat, n: nat)
    requires from + n <= |log|
    ensures LogEvents(log[from..])[..n] == LogEvents(log[from..from + n])
  {
  }

  lemma PollInTwoParts(task: Task, r: Reader)
    requires r.lastLogLine <= |task.log|
    ensures var mid := LogSent(task.log, r);
            Polled(task, r) == if mid.closed then mid else TrailerSent(task, mid)
  {
    var x, y := LogEvents(task.log[r.lastLogLine..]), Trailer(task, r.lastStatus);
    var n := Min(r.writesLeft, |x|);
    LogEventsSlice(task.log, r.lastLogLine, n);
    hide Trailer, LogEvents;
    AttemptConcat(r, x, y);
    assert LogSent(task.log, r) == Attempted(r, x).(lastLogLine := r.lastLogLine + n, closed := n < |x|);
  }

  // ---- The stream loop --------------------------------------------------------------

  class SseStream {
    var lastLogLine: nat
    var lastStatus: string
    var sent: seq<Event>
    var closed: bool
    var writesLeft: nat

    function State(): Reader
      reads this
    {
      Reader(lastLogLine, lastStatus, sent, closed, writesLeft)
    }

    constructor (writes: nat)
      ensures State() == Reader(0, "", [], false, writes)
    {
      lastLogLine, lastStatus, sent, closed, writesLeft := 0, "", [], false, writes;
    }

    /** `write_all` and `flush` of one event. */
    method Write(e: Event) returns (ok: bool)
      modifies this`sent, this`writesLeft
      ensures ok == (old(writesLeft) > 0)
      ensures sent == if ok then old(sent) + [e] else old(sent)
      ensures writesLeft == if ok then old(writesLeft) - 1 else 0
    {
      ok := writesLeft > 0;
      if ok {
        sent := sent + [e];
        writesLeft := writesLeft - 1;
      }
    }

    /** The body of the loop, under the read lock. */
    method Poll(found: Option<Task>)
      requires !closed && (found.Some? ==> lastLogLine <= |found.value.log|)
      modifies this
      ensures found.Some? ==> State() == Polled(found.value, old(State()))
      ensures found.None? ==> closed && sent == old(sent) + [NotFound][..Min(old(writesLeft), 1)]
    {
      if found.None? {
        var _ := Write(NotFound);
        closed := true;
        return;
      }
      ghost var r := State();
      PollInTwoParts(found.value, r);
      SendLog(found.value.log);
      if !closed {
        SendTrailer(found.value);
      }
    }

    /** New log lines. */
    method SendLog(log: seq<string>)
      requires !closed && lastLogLine <= |log|
      modifies this
      ensures State() == LogSent(log, old(State()))
    {
      ghost var r := State();
      while lastLogLine < |log|
        invariant r.lastLogLine <= lastLogLine <= |log| && lastStatus == r.lastStatus && !closed
        invariant writesLeft + (lastLogLine - r.lastLogLine) == r.writesLeft
        invariant sent == r.sent + LogEvents(log[r.lastLogLine..lastLogLine])
      {
        assert log[r.lastLogLine..lastLogLine + 1] == log[r.lastLogLine..lastLogLine] + [log[lastLogLine]];
        var ok := Write(Log(log[lastLogLine]));
        if !ok {
          closed := true;
          return;
        }
        lastLogLine := lastLogLine + 1;
      }
    }

    /** A changed status. */
    method SendStatus(task: Task) returns (ok: bool)
      requires !closed
      modifies this
      ensures ok <==> |StatusEvents(task, old(lastStatus))| <= old(writesLeft)
      ensures State() == Attempted(old(State()), StatusEvents(task, old(lastStatus))).
                           (lastStatus := if ok then task.status else old(lastStatus), closed := !ok)
    {
      ok := true;
      if task.status != lastStatus {
        ok := Write(Status(task.status));
        if !ok {
          closed := true;
          return;
        }
        lastStatus := task.status;
      }
    }

    /** A pending prompt, every time. */
    method SendPrompt(task: Task) returns (ok: bool)
      requires !closed
      modifies this
      ensures ok <==> |PromptEvents(task)| <= old(writesLeft)
      ensures State() == Attempted(old(State()), PromptEvents(task)).(closed := !ok)
    {
      ok := true;
      if task.prompt.Some? {
        ok := Write(Interactive(task.prompt.value));
        if !ok {
          closed := true;
        }
      }
    }

    /** The end of the stream; failed writes no longer matter. */
    method SendEnd(task: Task)
      requires !closed
      modifies this
      ensures State() == Attempted(old(State()), EndEvents(task)).(closed := IsTerminal(task.status))
    {
      if IsTerminal(task.status) {
        if task.diff.Some? {
          var _ := Write(Diff(task.diff.value, task.summary));
        }
        var _ := Write(Done);
        closed := true;
      }
    }

    /** What a poll sends after the log lines. */
    method SendTrailer(task: Task)
      requires !closed
      modifies this
      ensures State() == TrailerSent(task, old(State()))
    {
      TrailerInParts(task, State());
      var ok := SendStatus(task);
      if ok {
        ok := SendPrompt(task);
        if ok {
          SendEnd(task);
        }
      }
    }
  }
}
