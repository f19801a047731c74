/**
 The edit graph of two files, extended past the far edges of both: a step right or down is legal
 everywhere, a diagonal step only between equal lines. The search of `diffLines` explores this graph.
 */
module EditGraph {
  import opened EditScript

  predicate Diagonal(a: seq<Line>, b: seq<Line>, x: int, y: int) {
    0 <= x < |a| && 0 <= y < |b| && a[x] == b[y]
  }

  /** (x, y) can be reached from the origin with exactly d steps right or down. */
  ghost predicate Reach(a: seq<Line>, b: seq<Line>, d: int, x: int, y: int)
    decreases x + y
  {
    x >= 0 && y >= 0 && d >= 0 &&
    ((d == 0 && x == 0 && y == 0) ||
     (Diagonal(a, b, x - 1, y - 1) && Reach(a, b, d, x - 1, y - 1)) ||
     Reach(a, b, d - 1, x - 1, y) ||
     Reach(a, b, d - 1, x, y - 1))
  }

  /** The point of diagonal k in column x is reached with d steps. */
  ghost predicate ReachOn(a: seq<Line>, b: seq<Line>, d: int, k: int, x: int) {
    Reach(a, b, d, x, x - k)
  }

  /** x is the furthest point on diagonal k that d steps reach. */
  ghost predicate IsFurthest(a: seq<Line>, b: seq<Line>, d: int, k: int, x: int) {
    ReachOn(a, b, d, k, x) && forall x' | ReachOn(a, b, d, k, x') :: x' <= x
  }

  /** The last point reached by sliding along diagonal k from x. */
  function SnakeEnd(a: seq<Line>, b: seq<Line>, k: int, x: int): int
    decreases |a| - x
  {
    if Diagonal(a, b, x, x - k) then SnakeEnd(a, b, k, x + 1) else x
  }

  type Frontier = map<int, int>

  /** `v.get(k) ?? 0` */
  function Get(v: Frontier, k: int): int {
    if k in v then v[k] else 0
  }

  predicate StepsDown(v: Frontier, d: int, k: int) {
    k == -d || (k != d && Get(v, k - 1) < Get(v, k + 1))
  }

  /** What round d reads: the furthest points of round d-1, or the seed when d is 0. */
  ghost predicate IsFrontierFor(a: seq<Line>, b: seq<Line>, d: int, v: Frontier) {
    if d == 0 then 1 in v && v[1] == 0
    else forall k | -d < k < d && (k + d) % 2 == 1 :: k in v && IsFurthest(a, b, d - 1, k, v[k])
  }

  // ---- Reachability ------------------------------------------------------------------

  lemma {:induction false} ReachOnDiagonals(a: seq<Line>, b: seq<Line>, d: int, x: int, y: int)
    requires Reach(a, b, d, x, y)
    ensures -d <= x - y <= d && (x - y + d) % 2 == 0
    decreases x + y
  {
    if x == 0 && y == 0 {
    } else if Diagonal(a, b, x - 1, y - 1) && Reach(a, b, d, x - 1, y - 1) {
      ReachOnDiagonals(a, b, d, x - 1, y - 1);
    } else if Reach(a, b, d - 1, x - 1, y) {
      ReachOnDiagonals(a, b, d - 1, x - 1, y);
    } else {
      ReachOnDiagonals(a, b, d - 1, x, y - 1);
    }
  }

  lemma {:induction false} ReachWithoutDiagonals(a: seq<Line>, b: seq<Line>, x: nat, y: nat)
    ensures Reach(a, b, x + y, x, y)
    decreases x + y
  {
    if x == 0 && y == 0 {
    } else if x > 0 {
      ReachWithoutDiagonals(a, b, x - 1, y);
    } else {
      ReachWithoutDiagonals(a, b, x, y - 1);
    }
  }

  /** Steps taken beyond the far edges are wasted: without them the point's projection is reached. */
  lemma {:induction false} ReachClamped(a: seq<Line>, b: seq<Line>, d: int, x: int, y: int)
    requires Reach(a, b, d, x, y)
    ensures var cx := if x < |a| then x else |a|;
            var cy := if y < |b| then y else |b|;
            Reach(a, b, d - (x - cx) - (y - cy), cx, cy)
    decreases x + y
  {
    if (x == 0 && y == 0) || (Diagonal(a, b, x - 1, y - 1) && Reach(a, b, d, x - 1, y - 1)) {
    } else if Reach(a, b, d - 1, x - 1, y) {
      ReachClamped(a, b, d - 1, x - 1, y);
    } else {
      ReachClamped(a, b, d - 1, x, y - 1);
    }
  }

  lemma OneStep(a: seq<Line>, b: seq<Line>, d: int, x: nat, y: nat)
    ensures x > 0 && Reach(a, b, d - 1, x - 1, y) ==> Reach(a, b, d, x, y)
    ensures y > 0 && Reach(a, b, d - 1, x, y - 1) ==> Reach(a, b, d, x, y)
    ensures x > 0 && y > 0 && Diagonal(a, b, x - 1, y - 1) && Reach(a, b, d, x - 1, y - 1) ==> Reach(a, b, d, x, y)
  {
  }

  lemma DropLastEdit(s: seq<Edit>, e: Edit, a: seq<Line>, b: seq<Line>, x: nat, y: nat)
    requires x <= |a| && y <= |b| && Replays(s + [e], a[..x], b[..y])
    ensures e.kind != Add ==> x > 0 && e.text == a[x - 1]
    ensures e.kind != Del ==> y > 0 && e.text == b[y - 1]
    ensures Replays(s, if e.kind == Add then a[..x] else a[..x - 1], if e.kind == Del then b[..y] else b[..y - 1])
    ensures Cost(s + [e]) == Cost(s) + (if e.kind == Ctx then 0 else 1)
  {
    AppendEdit(s, e);
    hide Before, After, Cost;
    if e.kind != Add {
      assert x > 0 && Before(s) == a[..x][..x - 1] == a[..x - 1] && e.text == a[..x][x - 1];
    } else {
      assert Before(s) + [] == Before(s);
    }
    if e.kind != Del {
      assert y > 0 && After(s) == b[..y][..y - 1] == b[..y - 1] && e.text == b[..y][y - 1];
    } else {
      assert After(s) + [] == After(s);
    }
  }

  /** Every script is a path, and its cost is the number of steps of that path. */
  lemma {:induction false} ScriptIsPath(s: seq<Edit>, a: seq<Line>, b: seq<Line>, x: nat, y: nat)
    requires x <= |a| && y <= |b| && Replays(s, a[..x], b[..y])
    ensures Reach(a, b, Cost(s), x, y)
    decreases |s|
  {
    if s == [] {
    } else {
      var s', e := s[..|s| - 1], s[|s| - 1];
      assert s == s' + [e];
      hide Before, After, Cost, Reach;
      DropLastEdit(s', e, a, b, x, y);
      ScriptIsPath(s', a, b, if e.kind == Add then x else x - 1, if e.kind == Del then y else y - 1);
      OneStep(a, b, Cost(s), x, y);
    }
  }

  // ---- The furthest-reaching step ----------------------------------------------------

  lemma {:induction false} SlideAlongSnake(a: seq<Line>, b: seq<Line>, d: int, k: int, x: int)
    requires Reach(a, b, d, x, x - k)
    ensures var z := SnakeEnd(a, b, k, x);
            x <= z && Reach(a, b, d, z, z - k) && !Diagonal(a, b, z, z - k)
    decreases |a| - x
  {
    if !Diagonal(a, b, x, x - k) {
    } else {
      SlideAlongSnake(a, b, d, k, x + 1);
    }
  }

  lemma {:induction false} SnakeCell(a: seq<Line>, b: seq<Line>, k: int, x: int, i: int)
    requires x <= i < SnakeEnd(a, b, k, x)
    ensures Diagonal(a, b, i, i - k)
    decreases i - x
  {
    if x == i {
    } else {
      SnakeCell(a, b, k, x + 1, i);
    }
  }

  /** Where round d starts on diagonal k. */
  function SnakeStart(v: Frontier, d: int, k: int): int {
    if StepsDown(v, d, k) then Get(v, k + 1) else Get(v, k - 1) + 1
  }

  /** Every entry the round reads is present, and the point it starts from is reached. */
  lemma StartIsReached(a: seq<Line>, b: seq<Line>, d: int, k: int, v: Frontier)
    requires -d <= k <= d && (k + d) % 2 == 0 && IsFrontierFor(a, b, d, v)
    ensures (k != -d ==> k - 1 in v) && (k != d || d == 0 ==> k + 1 in v)
    ensures Reach(a, b, d, SnakeStart(v, d, k), SnakeStart(v, d, k) - k)
  {
    if d > 0 {
      var j := if StepsDown(v, d, k) then k + 1 else k - 1;
      assert -d < j < d && (j + d) % 2 == 1;
      assert IsFurthest(a, b, d - 1, j, v[j]);
    }
  }

  lemma {:induction false} NothingIsFurther(a: seq<Line>, b: seq<Line>, d: int, k: int, v: Frontier, z: int, x: int)
    requires -d <= k <= d && (k + d) % 2 == 0 && IsFrontierFor(a, b, d, v)
    requires SnakeStart(v, d, k) <= z && !Diagonal(a, b, z, z - k)
    requires Reach(a, b, d, x, x - k)
    ensures x <= z
    decreases x
  {
    if d == 0 && x == 0 {
    } else if Diagonal(a, b, x - 1, x - 1 - k) && Reach(a, b, d, x - 1, x - 1 - k) {
      NothingIsFurther(a, b, d, k, v, z, x - 1);
    } else if Reach(a, b, d - 1, x - 1, x - k) {
      ReachOnDiagonals(a, b, d - 1, x - 1, x - k);
      assert k - 1 in v && ReachOn(a, b, d - 1, k - 1, x - 1);
      assert k != d ==> k + 1 in v;
    } else {
      ReachOnDiagonals(a, b, d - 1, x, x - k - 1);
      assert k + 1 in v && ReachOn(a, b, d - 1, k + 1, x);
      assert k != -d ==> k - 1 in v;
    }
  }

  /** Stepping from the better neighbour and sliding gives the furthest point of the next round. */
  lemma FurthestStep(a: seq<Line>, b: seq<Line>, d: int, k: int, v: Frontier)
    requires -d <= k <= d && (k + d) % 2 == 0 && IsFrontierFor(a, b, d, v)
    ensures IsFurthest(a, b, d, k, SnakeEnd(a, b, k, SnakeStart(v, d, k)))
  {
    var x0 := SnakeStart(v, d, k);
    StartIsReached(a, b, d, k, v);
    SlideAlongSnake(a, b, d, k, x0);
    var z := SnakeEnd(a, b, k, x0);
    forall x | ReachOn(a, b, d, k, x)
      ensures x <= z
    {
      NothingIsFurther(a, b, d, k, v, z, x);
    }
  }

  // ---- Arrival -----------------------------------------------------------------------

  /** The far corner is reached by the time both files have been rewritten line by line. */
  lemma ArrivesInTime(a: seq<Line>, b: seq<Line>)
    ensures Reach(a, b, |a| + |b|, |a|, |b|)
  {
    ReachWithoutDiagonals(a, b, |a|, |b|);
  }

  /** The first round to pass both far edges stands exactly on the corner. */
  lemma ArrivesExactly(a: seq<Line>, b: seq<Line>, d: int, x: int, y: int)
    requires Reach(a, b, d, x, y) && x >= |a| && y >= |b|
    requires forall i | 0 <= i < d :: !Reach(a, b, i, |a|, |b|)
    ensures x == |a| && y == |b|
  {
    ReachClamped(a, b, d, x, y);
  }

  // ---- Which shortest script ---------------------------------------------------------

  ghost predicate NoneBeyond(a: seq<Line>, b: seq<Line>, d: int, k: int, x: int) {
    forall x' | ReachOn(a, b, d, k, x') :: x' <= x
  }

  /**
   An edit made at (x, y) after d others leaves the furthest point they reach on its diagonal, and enters the next
   diagonal at least as far on as the opposite edit could from its own side; at the same point the addition wins.
   */
  ghost predicate IsBestEdit(a: seq<Line>, b: seq<Line>, x: int, y: int, d: int, kind: Kind) {
    IsFurthest(a, b, d, x - y, x) &&
    (kind == Del ==> NoneBeyond(a, b, d, x - y + 2, x)) &&
    (kind == Add ==> NoneBeyond(a, b, d, x - y - 2, x - 1))
  }

  /** Every edit of s, begun at (x, y) after d edits, is a best one. */
  ghost predicate IsGreedy(s: seq<Edit>, a: seq<Line>, b: seq<Line>, x: int, y: int, d: int)
    decreases |s|
  {
    s == [] ||
    match s[0].kind
    case Ctx => IsGreedy(s[1..], a, b, x + 1, y + 1, d)
    case Del => IsBestEdit(a, b, x, y, d, Del) && IsGreedy(s[1..], a, b, x + 1, y, d + 1)
    case Add => IsBestEdit(a, b, x, y, d, Add) && IsGreedy(s[1..], a, b, x, y + 1, d + 1)
  }

  /** The step the recorded round takes is a best edit. */
  lemma StepIsBest(a: seq<Line>, b: seq<Line>, d: int, k: int, v: Frontier)
    requires 0 < d && -d <= k <= d && (k + d) % 2 == 0 && IsFrontierFor(a, b, d, v)
    ensures if StepsDown(v, d, k) then IsBestEdit(a, b, Get(v, k + 1), Get(v, k + 1) - k - 1, d - 1, Add)
            else IsBestEdit(a, b, Get(v, k - 1), Get(v, k - 1) - k + 1, d - 1, Del)
  {
    var j := if StepsDown(v, d, k) then k + 1 else k - 1;
    var other := if StepsDown(v, d, k) then k - 1 else k + 1;
    assert -d < j < d && (j + d) % 2 == 1 && IsFurthest(a, b, d - 1, j, v[j]);
    hide Reach;
    var before := d - 1;
    forall x' | ReachOn(a, b, before, other, x')
      ensures if StepsDown(v, d, k) then x' < Get(v, j) else x' <= Get(v, j)
    {
      ReachOnDiagonals(a, b, before, x', x' - other);
      assert -d < other < d && (other + d) % 2 == 1 && IsFurthest(a, b, before, other, v[other]);
    }
  }

  lemma StepRight(a: seq<Line>, b: seq<Line>, d: int, x: int, y: int)
    requires Reach(a, b, d, x, y)
    ensures Reach(a, b, d + 1, x + 1, y)
  {
  }

  lemma DeletionWasBetter(a: seq<Line>, b: seq<Line>, x: int, y: int, d: int)
    requires IsBestEdit(a, b, x, y, d, Add)
    ensures !IsBestEdit(a, b, x, y + 1, d + 1, Del)
  {
    assert ReachOn(a, b, d, x - y, x);
    StepRight(a, b, d, x, y);
    assert ReachOn(a, b, d + 1, x - (y + 1) + 2, x + 1);
  }

  /** A greedy script never adds a line and deletes one right after: the deletion would have gone first. */
  lemma {:induction false} DeletionsGoFirst(s: seq<Edit>, a: seq<Line>, b: seq<Line>, x: int, y: int, d: int, i: nat)
    requires IsGreedy(s, a, b, x, y, d) && i + 1 < |s|
    ensures !(s[i].kind == Add && s[i + 1].kind == Del)
    decreases i
  {
    hide Reach;
    if i == 0 {
      assert s[1..][0] == s[1];
      if IsBestEdit(a, b, x, y, d, Add) {
        DeletionWasBetter(a, b, x, y, d);
      }
    } else {
      var kind := s[0].kind;
      assert s[1..][i - 1] == s[i] && s[1..][i] == s[i + 1];
      DeletionsGoFirst(s[1..], a, b, if kind == Add then x else x + 1, if kind == Del then y else y + 1,
                       if kind == Ctx then d else d + 1, i - 1);
    }
  }

  lemma {:induction false} GreedyConcat(s: seq<Edit>, t: seq<Edit>, a: seq<Line>, b: seq<Line>, x: int, y: int, d: int)
    ensures IsGreedy(s + t, a, b, x, y, d) <==>
            IsGreedy(s, a, b, x, y, d) && IsGreedy(t, a, b, x + |Before(s)|, y + |After(s)|, d + Cost(s))
    decreases |s|
  {
    hide IsBestEdit;
    if s == [] {
      assert s + t == t;
    } else {
      var kind := s[0].kind;
      assert (s + t)[1..] == s[1..] + t && (s + t)[0] == s[0];
      GreedyConcat(s[1..], t, a, b, if kind == Add then x else x + 1, if kind == Del then y else y + 1,
                   if kind == Ctx then d else d + 1);
    }
  }

  /** The last edit, and the context behind it. */
  lemma {:induction false} LastEdit(s: seq<Edit>) returns (p: seq<Edit>, e: Edit, c: seq<Edit>)
    requires Cost(s) > 0
    ensures s == p + [e] + c && e.kind != Ctx && Cost(c) == 0
    decreases |s|
  {
    var init, last := s[..|s| - 1], s[|s| - 1];
    assert s == init + [last];
    AppendEdit(init, last);
    if last.kind != Ctx {
      p, e, c := init, last, [];
    } else {
      p, e, c := LastEdit(init);
      AppendEdit(c, last);
      c := c + [last];
    }
  }

  lemma {:induction false} ContextIs(s: seq<Edit>)
    requires Cost(s) == 0
    ensures |s| == |Before(s)| && After(s) == Before(s)
    ensures forall i | 0 <= i < |s| :: s[i] == Edit(Ctx, Before(s)[i])
  {
    if s == [] {
    } else {
      ContextIs(s[1..]);
    }
  }

  lemma {:induction false} ScriptConcat(s: seq<Edit>, t: seq<Edit>)
    ensures Before(s + t) == Before(s) + Before(t) && After(s + t) == After(s) + After(t)
    ensures Cost(s + t) == Cost(s) + Cost(t)
    decreases |t|
  {
    if t == [] {
      assert s + t == s && Before(s) + [] == Before(s) && After(s) + [] == After(s);
    } else {
      var init, last := t[..|t| - 1], t[|t| - 1];
      assert t == init + [last] && s + t == s + init + [last];
      ScriptConcat(s, init);
      AppendEdit(init, last);
      AppendEdit(s + init, last);
      hide Before, After, Cost;
    }
  }

  /** The parts of a greedy script around its last edit, and where that edit is made. */
  lemma GreedyParts(s: seq<Edit>, a: seq<Line>, b: seq<Line>) returns (p: seq<Edit>, e: Edit, c: seq<Edit>)
    requires Cost(s) > 0 && IsGreedy(s, a, b, 0, 0, 0)
    ensures s == p + [e] + c && e.kind != Ctx && Cost(c) == 0 && Cost(s) == Cost(p) + 1
    ensures IsGreedy(p, a, b, 0, 0, 0) && IsBestEdit(a, b, |Before(p)|, |After(p)|, Cost(p), e.kind)
    ensures Before(s) == Before(p) + (if e.kind == Add then [] else [e.text]) + Before(c)
    ensures After(s) == After(p) + (if e.kind == Del then [] else [e.text]) + Before(c)
    ensures |c| == |Before(c)| && forall i | 0 <= i < |c| :: c[i] == Edit(Ctx, Before(c)[i])
  {
    p, e, c := LastEdit(s);
    ContextIs(c);
    AppendEdit(p, e);
    ScriptConcat(p + [e], c);
    GreedyConcat(p + [e], c, a, b, 0, 0, 0);
    GreedyConcat(p, [e], a, b, 0, 0, 0);
    hide IsBestEdit;
    assert [e][0] == e;
  }

  /** Of two best edits that enter the same diagonal after as many others, both are the same edit. */
  lemma BestEditIsUnique(a: seq<Line>, b: seq<Line>, x: int, y: int, x': int, y': int, d: int, kind: Kind, kind': Kind)
    requires kind != Ctx && kind' != Ctx && IsBestEdit(a, b, x, y, d, kind) && IsBestEdit(a, b, x', y', d, kind')
    requires x - y + (if kind == Add then -1 else 1) == x' - y' + (if kind' == Add then -1 else 1)
    ensures kind == kind' && x == x' && y == y'
  {
    hide Reach;
    assert ReachOn(a, b, d, x - y, x) && ReachOn(a, b, d, x' - y', x');
  }

  lemma SamePrefix(x: seq<Line>, x': seq<Line>, y: seq<Line>, y': seq<Line>, z: seq<Line>, z': seq<Line>)
    requires x + y + z == x' + y' + z' && |x| == |x'| && |y| == |y'|
    ensures x == x' && y == y' && z == z'
  {
    var all := x + y + z;
    assert x == all[..|x|] && y == all[|x|..|x| + |y|] && z == all[|x| + |y|..];
    assert x' == (x' + y' + z')[..|x|] && y' == (x' + y' + z')[|x|..|x| + |y|] && z' == (x' + y' + z')[|x| + |y|..];
  }

  /** There is only one greedy script of a given cost between two files. */
  lemma {:induction false} GreedyScriptIsUnique(s: seq<Edit>, t: seq<Edit>, a: seq<Line>, b: seq<Line>)
    requires IsGreedy(s, a, b, 0, 0, 0) && IsGreedy(t, a, b, 0, 0, 0)
    requires Before(s) == Before(t) && After(s) == After(t) && Cost(s) == Cost(t)
    ensures s == t
    decreases |s|
  {
    if Cost(s) == 0 {
      ContextIs(s);
      ContextIs(t);
    } else {
      var p, e, c := GreedyParts(s, a, b);
      var q, f, g := GreedyParts(t, a, b);
      hide IsGreedy, IsBestEdit, Before, After, Cost;
      BestEditIsUnique(a, b, |Before(p)|, |After(p)|, |Before(q)|, |After(q)|, Cost(p), e.kind, f.kind);
      SamePrefix(Before(p), Before(q), if e.kind == Add then [] else [e.text], if f.kind == Add then [] else [f.text],
                 Before(c), Before(g));
      SamePrefix(After(p), After(q), if e.kind == Del then [] else [e.text], if f.kind == Del then [] else [f.text],
                 Before(c), Before(g));
      assert c == g && e == f;
      GreedyScriptIsUnique(p, q, a, b);
    }
  }
}
