/** The line diff of the desktop app's diff panel: a greedy search over diagonals and the walk back. */
module DiffPanel {
  import opened Wrappers
  import opened EditScript
  import opened EditGraph
  import opened TextLines

  function AsContext(b: seq<Line>): seq<Edit> {
    seq(|b|, i requires 0 <= i < |b| => Edit(Ctx, b[i]))
  }

  /** Pick the better neighbour, step off it, and slide along equal lines. */
  method ExploreDiagonal(a: seq<Line>, b: seq<Line>, d: int, k: int, v: Frontier) returns (x: int)
    requires -d <= k <= d && (k + d) % 2 == 0 && IsFrontierFor(a, b, d, v)
    ensures IsFurthest(a, b, d, k, x)
  {
    FurthestStep(a, b, d, k, v);
    StartIsReached(a, b, d, k, v);
    if k == -d || (k != d && Get(v, k - 1) < Get(v, k + 1)) {
      x := Get(v, k + 1);
    } else {
      x := Get(v, k - 1) + 1;
    }
    var y := x - k;
    while x < |a| && y < |b| && a[x] == b[y]
      invariant 0 <= x && 0 <= y == x - k
      invariant SnakeEnd(a, b, k, x) == SnakeEnd(a, b, k, SnakeStart(v, d, k))
    {
      x := x + 1;
      y := y + 1;
    }
  }

  /** No round before d could stand on the far corner. */
  ghost predicate CornerBeyond(a: seq<Line>, b: seq<Line>, d: int) {
    forall i | 0 <= i < d :: !Reach(a, b, i, |a|, |b|)
  }

  /** Round d has dealt with the diagonals below k and did not arrive on any. */
  ghost predicate RoundDone(a: seq<Line>, b: seq<Line>, d: int, k: int, v: Frontier) {
    forall j: int | -d <= j < k && (j + d) % 2 == 0 ::
      j in v && IsFurthest(a, b, d, j, v[j]) && !(v[j] >= |a| && v[j] - j >= |b|)
  }

  lemma RoundExtends(a: seq<Line>, b: seq<Line>, d: int, k: int, v: Frontier, x: int)
    requires (k + d) % 2 == 0 && IsFrontierFor(a, b, d, v) && RoundDone(a, b, d, k, v)
    requires IsFurthest(a, b, d, k, x) && (d == 0 ==> k == 0)
    ensures IsFrontierFor(a, b, d, v[k := x])
    ensures !(x >= |a| && x - k >= |b|) ==> RoundDone(a, b, d, k + 2, v[k := x])
  {
  }

  lemma CornerNotYetReached(a: seq<Line>, b: seq<Line>, d: int, v: Frontier)
    requires d >= 0 && RoundDone(a, b, d, d + 2, v) && CornerBeyond(a, b, d)
    ensures CornerBeyond(a, b, d + 1)
    ensures IsFrontierFor(a, b, d + 1, v)
  {
    if Reach(a, b, d, |a|, |b|) {
      ReachOnDiagonals(a, b, d, |a|, |b|);
      var k := |a| - |b|;
      assert k in v && ReachOn(a, b, d, k, |a|);
    }
  }

  /** One pass of the outer loop: every diagonal of the parity of d, or as many as it takes to arrive. */
  method Round(a: seq<Line>, b: seq<Line>, d: int, v: Frontier) returns (vNext: Frontier, arrived: bool)
    requires d >= 0 && IsFrontierFor(a, b, d, v) && CornerBeyond(a, b, d)
    ensures IsFrontierFor(a, b, d, vNext)
    ensures arrived ==> IsFurthest(a, b, d, |a| - |b|, |a|)
    ensures !arrived ==> IsFrontierFor(a, b, d + 1, vNext) && CornerBeyond(a, b, d + 1)
  {
    vNext := v;
    var k := -d;
    while k <= d
      invariant -d <= k <= d + 2 && (k + d) % 2 == 0
      invariant IsFrontierFor(a, b, d, vNext)
      invariant RoundDone(a, b, d, k, vNext)
    {
      var x := ExploreDiagonal(a, b, d, k, v);
      var y := x - k;
      RoundExtends(a, b, d, k, vNext, x);
      vNext := vNext[k := x];
      if x >= |a| && y >= |b| {
        ArrivesExactly(a, b, d, x, y);
        return vNext, true;
      }
      k := k + 2;
    }
    CornerNotYetReached(a, b, d, vNext);
    arrived := false;
  }

  /** Entry d of the trace still holds everything round d read. */
  ghost predicate IsTraceFor(a: seq<Line>, b: seq<Line>, trace: seq<Frontier>) {
    forall i | 0 <= i < |trace| :: IsFrontierFor(a, b, i, trace[i])
  }

  lemma NoScriptIsShorter(a: seq<Line>, b: seq<Line>, d: int, s: seq<Edit>)
    requires Replays(s, a, b) && Cost(s) == d
    requires CornerBeyond(a, b, d)
    ensures IsShortestScript(s, a, b)
  {
    forall t | Replays(t, a, b)
      ensures d <= Cost(t)
    {
      assert a[..|a|] == a && b[..|b|] == b;
      ScriptIsPath(t, a, b, |a|, |b|);
    }
  }

  /**
   The edits pushed so far, read back to front, rewrite what is left of a past x into b past y, each the best one
   after the d edits before them.
   */
  ghost predicate WalkedTo(edits: seq<Edit>, a: seq<Line>, b: seq<Line>, x: int, y: int, cost: int, d: int) {
    0 <= x <= |a| && 0 <= y <= |b| && Replays(Reversed(edits), a[x..], b[y..]) && Cost(Reversed(edits)) == cost &&
    IsGreedy(Reversed(edits), a, b, x, y, d)
  }

  lemma DeletionsAllGoFirst(s: seq<Edit>, a: seq<Line>, b: seq<Line>)
    requires IsGreedy(s, a, b, 0, 0, 0)
    ensures forall i | 0 <= i < |s| - 1 :: !(s[i].kind.Add? && s[i + 1].kind.Del?)
  {
    forall i | 0 <= i < |s| - 1
      ensures !(s[i].kind.Add? && s[i + 1].kind.Del?)
    {
      DeletionsGoFirst(s, a, b, 0, 0, 0, i);
    }
  }

  /** The diagonal round d came from to reach diagonal k. */
  function PreviousDiagonal(v: Frontier, d: int, k: int): int {
    if StepsDown(v, d, k) then k + 1 else k - 1
  }

  /** From a furthest point the recorded round leads back to a furthest point of the round before, by a best edit. */
  lemma StepBack(a: seq<Line>, b: seq<Line>, d: int, k: int, v: Frontier, x: int)
    requires IsFrontierFor(a, b, d, v) && IsFurthest(a, b, d, k, x)
    ensures var start, y := SnakeStart(v, d, k), SnakeStart(v, d, k) - k;
            var prevK := PreviousDiagonal(v, d, k);
            var prevX, prevY := Get(v, prevK), Get(v, prevK) - prevK;
            0 <= start <= x && k <= start && x == SnakeEnd(a, b, k, start) &&
            ((start == prevX && y >= prevY) || (start > prevX && y == prevY)) &&
            if d == 0 then start == 0 && y == 0
            else if start == prevX then y > 0 && IsBestEdit(a, b, start, y - 1, d - 1, Add)
            else start > 0 && IsBestEdit(a, b, start - 1, y, d - 1, Del)
  {
    ReachOnDiagonals(a, b, d, x, x - k);
    FurthestStep(a, b, d, k, v);
    StartIsReached(a, b, d, k, v);
    SlideAlongSnake(a, b, d, k, SnakeStart(v, d, k));
    var z := SnakeEnd(a, b, k, SnakeStart(v, d, k));
    assert ReachOn(a, b, d, k, x) && ReachOn(a, b, d, k, z);
    if d > 0 {
      StepIsBest(a, b, d, k, v);
    }
  }

  lemma Push(edits: seq<Edit>, e: Edit, a: seq<Line>, b: seq<Line>, x: int, y: int, cost: int, d: int)
    requires WalkedTo(edits, a, b, x, y, cost, d)
    requires e.kind != Add ==> x > 0 && e.text == a[x - 1]
    requires e.kind != Del ==> y > 0 && e.text == b[y - 1]
    requires e.kind != Ctx ==>
      IsBestEdit(a, b, if e.kind == Add then x else x - 1, if e.kind == Del then y else y - 1, d - 1, e.kind)
    ensures WalkedTo(edits + [e], a, b, if e.kind == Add then x else x - 1, if e.kind == Del then y else y - 1,
                     if e.kind == Ctx then cost else cost + 1, if e.kind == Ctx then d else d - 1)
  {
    ReversedPush(edits, e);
    PrependEdit(e, Reversed(edits));
    hide IsBestEdit;
    assert ([e] + Reversed(edits))[1..] == Reversed(edits);
  }

  /** The edit of one round. */
  method WalkEdit(edits0: seq<Edit>, a: seq<Line>, b: seq<Line>, x0: int, y0: int, prevX: int, ghost cost: int,
                  ghost d: int) returns (edits: seq<Edit>, x: int, y: int)
    requires WalkedTo(edits0, a, b, x0, y0, cost, d)
    requires if x0 == prevX then y0 > 0 && IsBestEdit(a, b, x0, y0 - 1, d - 1, Add)
             else x0 > 0 && IsBestEdit(a, b, x0 - 1, y0, d - 1, Del)
    ensures WalkedTo(edits, a, b, x, y, cost + 1, d - 1) && IsFurthest(a, b, d - 1, x - y, x)
    ensures if x0 == prevX then x == x0 && y == y0 - 1 else x == x0 - 1 && y == y0
  {
    edits, x, y := edits0, x0, y0;
    if x == prevX {
      Push(edits, Edit(Add, b[y - 1]), a, b, x, y, cost, d);
      edits := edits + [Edit(Add, b[y - 1])];
      y := y - 1;
    } else {
      Push(edits, Edit(Del, a[x - 1]), a, b, x, y, cost, d);
      edits := edits + [Edit(Del, a[x - 1])];
      x := x - 1;
    }
  }

  /** The inner loop: back over equal lines to where the snake left the previous round's point. */
  method WalkSnake(edits0: seq<Edit>, a: seq<Line>, b: seq<Line>, x0: int, y0: int, prevX: int, prevY: int,
                   ghost start: int, ghost cost: int, ghost d: int) returns (edits: seq<Edit>, x: int, y: int)
    requires WalkedTo(edits0, a, b, x0, y0, cost, d)
    requires 0 <= start <= x0 == SnakeEnd(a, b, x0 - y0, start) && x0 - y0 <= start
    requires (start == prevX && start - (x0 - y0) >= prevY) || (start > prevX && start - (x0 - y0) == prevY)
    ensures WalkedTo(edits, a, b, x, y, cost, d) && x == start && x - y == x0 - y0
  {
    edits, x, y := edits0, x0, y0;
    while x > prevX && y > prevY
      invariant start <= x <= x0 && x - y == x0 - y0
      invariant WalkedTo(edits, a, b, x, y, cost, d)
    {
      SnakeCell(a, b, x0 - y0, start, x - 1);
      Push(edits, Edit(Ctx, a[x - 1]), a, b, x, y, cost, d);
      edits := edits + [Edit(Ctx, a[x - 1])];
      x := x - 1;
      y := y - 1;
    }
  }

  /** One pass of that walk: back along the snake of round d, then over the edit that entered it. */
  method WalkRound(edits0: seq<Edit>, a: seq<Line>, b: seq<Line>, v: Frontier, d: int, x0: int, y0: int,
                   ghost cost: int) returns (edits: seq<Edit>, x: int, y: int)
    requires d >= 0 && IsFrontierFor(a, b, d, v) && IsFurthest(a, b, d, x0 - y0, x0)
    requires WalkedTo(edits0, a, b, x0, y0, cost, d)
    ensures WalkedTo(edits, a, b, x, y, if d == 0 then cost else cost + 1, if d == 0 then d else d - 1)
    ensures if d == 0 then x == 0 && y == 0 else IsFurthest(a, b, d - 1, x - y, x)
  {
    hide *;
    var k := x0 - y0;
    StepBack(a, b, d, k, v, x0);
    var prevK := PreviousDiagonal(v, d, k);
    var prevX := Get(v, prevK);
    var prevY := prevX - prevK;
    edits, x, y := WalkSnake(edits0, a, b, x0, y0, prevX, prevY, SnakeStart(v, d, k), cost, d);
    if d != 0 {
      edits, x, y := WalkEdit(edits, a, b, x, y, prevX, cost, d);
    }
  }

  /** The walk back from the far corner along the recorded rounds. */
  method Backtrack(trace: seq<Frontier>, a: seq<Line>, b: seq<Line>) returns (edits: seq<Edit>)
    requires trace != [] && IsTraceFor(a, b, trace)
    requires IsFurthest(a, b, |trace| - 1, |a| - |b|, |a|)
    ensures Replays(edits, a, b) && Cost(edits) == |trace| - 1 && IsGreedy(edits, a, b, 0, 0, 0)
  {
    var x, y := |a|, |b|;
    edits := [];
    var d := |trace| - 1;
    while d >= 0
      invariant 0 <= d < |trace|
      invariant IsFurthest(a, b, d, x - y, x)
      invariant WalkedTo(edits, a, b, x, y, |trace| - 1 - d, d)
    {
      edits, x, y := WalkRound(edits, a, b, trace[d], d, x, y, |trace| - 1 - d);
      if d == 0 {
        break;
      }
      d := d - 1;
    }
    edits := Reversed(edits);
  }

  lemma SearchStarts(a: seq<Line>, b: seq<Line>, v: Frontier)
    requires v == map[1 := 0]
    ensures IsFrontierFor(a, b, 0, v) && IsTraceFor(a, b, []) && CornerBeyond(a, b, 0)
  {
  }

  lemma TraceExtends(a: seq<Line>, b: seq<Line>, trace: seq<Frontier>, v: Frontier)
    requires IsTraceFor(a, b, trace) && IsFrontierFor(a, b, |trace|, v)
    ensures IsTraceFor(a, b, trace + [v])
  {
    hide IsFrontierFor;
  }

  /** The search is over by the time both files have been rewritten line by line. */
  lemma CornerIsReached(a: seq<Line>, b: seq<Line>)
    ensures !CornerBeyond(a, b, |a| + |b| + 1)
  {
    ArrivesInTime(a, b);
  }

  /**
   The search. `fellBack` records whether the code after the outer loop, which shows the new file as
   unchanged context, was taken.
   */
  method DiffLines(beforeText: Option<string>, afterText: Option<string>)
    returns (edits: seq<Edit>, fellBack: bool)
    ensures !fellBack
    ensures IsShortestScript(edits, SplitLines(NormalizeNewlines(beforeText)), SplitLines(NormalizeNewlines(afterText)))
    ensures IsGreedy(edits, SplitLines(NormalizeNewlines(beforeText)), SplitLines(NormalizeNewlines(afterText)),
                     0, 0, 0)
    ensures forall i | 0 <= i < |edits| - 1 :: !(edits[i].kind.Add? && edits[i + 1].kind.Del?)
    ensures JoinLines(Before(edits)) == NormalizeNewlines(beforeText)
    ensures JoinLines(After(edits)) == NormalizeNewlines(afterText)
  {
    JoinInvertsSplit(NormalizeNewlines(beforeText));
    JoinInvertsSplit(NormalizeNewlines(afterText));
    hide *;
    var a := SplitLines(NormalizeNewlines(beforeText));
    var b := SplitLines(NormalizeNewlines(afterText));
    var max := |a| + |b|;
    var v: Frontier := map[1 := 0];
    var trace: seq<Frontier> := [];
    var d := 0;
    SearchStarts(a, b, v);
    while d <= max
      invariant 0 <= d <= max + 1 && |trace| == d
      invariant IsFrontierFor(a, b, d, v) && IsTraceFor(a, b, trace)
      invariant CornerBeyond(a, b, d)
    {
      var vNext, arrived := Round(a, b, d, v);
      TraceExtends(a, b, trace, vNext);
      trace := trace + [vNext];
      if arrived {
        edits := Backtrack(trace, a, b);
        NoScriptIsShorter(a, b, d, edits);
        DeletionsAllGoFirst(edits, a, b);
        return edits, false;
      }
      v := vNext;
      d := d + 1;
    }
    CornerIsReached(a, b);
    edits, fellBack := AsContext(b), true;
  }
}
