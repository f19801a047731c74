/** Splitting a task description into one piece per worker, at sentence boundaries. */
module TaskSplit {
  import opened Arithmetic
  import opened Wrappers

  /** `s.split(". ")` */
  function SplitSentences(s: string): (parts: seq<string>)
    ensures parts != []
  {
    if |s| < 2 then [s]
    else if s[0] == '.' && s[1] == ' ' then [[]] + SplitSentences(s[2..])
    else
      var rest := SplitSentences(s[1..]);
      [[s[0]] + rest[0]] + rest[1..]
  }

  /** `parts.join(". ")` */
  function Join(parts: seq<string>): string {
    if parts == [] then [] else if |parts| == 1 then parts[0] else parts[0] + ". " + Join(parts[1..])
  }

  lemma JoinOne(part: string)
    ensures Join([part]) == part
  {
  }

  lemma JoinMore(part: string, rest: seq<string>)
    requires rest != []
    ensures Join([part] + rest) == part + ". " + Join(rest)
  {
    assert ([part] + rest)[1..] == rest;
  }

  lemma Associate(x: string, y: string, z: string, tail: string)
    ensures (x + y) + z + tail == x + (y + z + tail)
  {
  }

  lemma PrependChar(c: char, first: string, rest: seq<string>)
    ensures Join([[c] + first] + rest) == [c] + Join([first] + rest)
  {
    hide Join;
    if rest == [] {
      assert [first] + rest == [first] && [[c] + first] + rest == [[c] + first];
      JoinOne(first);
      JoinOne([c] + first);
    } else {
      JoinMore(first, rest);
      JoinMore([c] + first, rest);
      Associate([c], first, ". ", Join(rest));
    }
  }

  lemma {:induction false} JoinInvertsSplit(s: string)
    ensures Join(SplitSentences(s)) == s
  {
    if |s| < 2 {
    } else if s[0] == '.' && s[1] == ' ' {
      JoinInvertsSplit(s[2..]);
      hide Join;
      JoinMore([], SplitSentences(s[2..]));
      assert [] + ". " + s[2..] == s;
    } else {
      JoinInvertsSplit(s[1..]);
      hide Join;
      var rest := SplitSentences(s[1..]);
      PrependChar(s[0], rest[0], rest[1..]);
      assert rest == [rest[0]] + rest[1..] && [s[0]] + s[1..] == s;
    }
  }

  /** There is a full stop and a blank at index i. */
  predicate IsSeparatorAt(s: string, i: nat) {
    i + 1 < |s| && s[i] == '.' && s[i + 1] == ' '
  }

  /** No sentence holds a separator: the text is cut at each of them. */
  lemma {:induction false} SentencesAreWhole(s: string)
    ensures forall part, i | part in SplitSentences(s) :: !IsSeparatorAt(part, i)
    ensures s != [] && !IsSeparatorAt(s, 0) ==> SplitSentences(s)[0] != [] && SplitSentences(s)[0][0] == s[0]
  {
    if |s| < 2 {
    } else if s[0] == '.' && s[1] == ' ' {
      SentencesAreWhole(s[2..]);
    } else {
      var rest := SplitSentences(s[1..]);
      SentencesAreWhole(s[1..]);
      var head := [s[0]] + rest[0];
      assert rest[0] in rest && head[1..] == rest[0];
      forall i: nat
        ensures !IsSeparatorAt(head, i)
      {
        if i > 0 {
          assert !IsSeparatorAt(rest[0], i - 1);
        } else {
          assert IsSeparatorAt(s[1..], 0) ==> rest[0] == [];
        }
      }
    }
  }

  lemma {:induction false} JoinConcat(x: seq<string>, y: seq<string>)
    requires x != [] && y != []
    ensures Join(x + y) == Join(x) + ". " + Join(y)
  {
    if |x| == 1 {
      assert (x + y)[1..] == y;
    } else {
      JoinConcat(x[1..], y);
      assert x == [x[0]] + x[1..] && x + y == [x[0]] + (x[1..] + y);
      JoinMore(x[0], x[1..]);
      JoinMore(x[0], x[1..] + y);
      hide Join;
      assert x[0] + ". " + (Join(x[1..]) + ". " + Join(y)) == (x[0] + ". " + Join(x[1..])) + ". " + Join(y);
    }
  }

  /** The sizes of the first pieces: all alike, as even as whole division makes them. */
  function ItemsPerTask(parts: nat, n: nat): nat
    requires n > 0
  {
    if parts / n > 1 then parts / n else 1
  }

  /** k is the most that n workers can all have of the parts, or one if there are too few for that. */
  predicate IsShare(parts: nat, n: nat, k: nat) {
    k >= 1 && parts < n * (k + 1) && (k == 1 || n * k <= parts)
  }

  lemma Multiply(x: nat, y: nat, k: nat)
    requires x <= y
    ensures x * k <= y * k && k * x <= k * y
  {
  }

  lemma DivideBack(x: nat, n: nat)
    requires n > 0
    ensures n * (x / n) <= x < n * (x / n) + n
  {
  }

  lemma ShareIs(parts: nat, n: nat, q: nat)
    requires n * q <= parts < n * q + n
    ensures IsShare(parts, n, if q > 1 then q else 1)
  {
    assert n * (q + 1) == n * q + n;
    if q <= 1 {
      Multiply(q, 1, n);
    }
  }

  lemma ItemsFit(parts: nat, n: nat)
    requires n > 0 && parts > 0
    ensures IsShare(parts, n, ItemsPerTask(parts, n))
  {
    DivideBack(parts, n);
    ShareIs(parts, n, parts / n);
  }

  function Boundary(i: nat, itemsPerTask: nat): nat {
    i * itemsPerTask
  }

  function Concat(groups: seq<seq<string>>): seq<string> {
    if groups == [] then [] else Concat(groups[..|groups| - 1]) + groups[|groups| - 1]
  }

  /** Each piece joins a group of consecutive parts: k of them in every group but the last, and there at least k. */
  ghost predicate IsGrouping(subtasks: seq<string>, groups: seq<seq<string>>, k: nat) {
    |groups| == |subtasks| &&
    forall i | 0 <= i < |groups| :: subtasks[i] == Join(groups[i]) && |groups[i]| >= k &&
      (i < |groups| - 1 ==> |groups[i]| == k)
  }

  ghost predicate AreExact(groups: seq<seq<string>>, k: nat) {
    forall i | 0 <= i < |groups| :: |groups[i]| == k
  }

  lemma AddGroup(subtasks: seq<string>, groups: seq<seq<string>>, k: nat, group: seq<string>)
    requires IsGrouping(subtasks, groups, k) && AreExact(groups, k) && |group| >= k
    ensures IsGrouping(subtasks + [Join(group)], groups + [group], k)
    ensures Concat(groups + [group]) == Concat(groups) + group
    ensures |group| == k ==> AreExact(groups + [group], k)
  {
    hide Join;
    assert (groups + [group])[..|groups|] == groups;
  }

  lemma ConcatLast(groups: seq<seq<string>>)
    requires groups != []
    ensures Concat(groups) == Concat(groups[..|groups| - 1]) + groups[|groups| - 1]
  {
  }

  /** Joining the pieces is joining all the parts. */
  lemma {:induction false} JoinOfPieces(subtasks: seq<string>, groups: seq<seq<string>>)
    requires |groups| == |subtasks| > 0
    requires forall i | 0 <= i < |groups| :: groups[i] != [] && subtasks[i] == Join(groups[i])
    ensures Concat(groups) != [] && Join(subtasks) == Join(Concat(groups))
    decreases |groups|
  {
    var n := |groups| - 1;
    if n == 0 {
      assert groups[..0] == [] && [] + groups[0] == groups[0];
    } else {
      JoinOfPieces(subtasks[..n], groups[..n]);
      hide Join, Concat;
      assert subtasks == subtasks[..n] + [subtasks[n]];
      JoinConcat(subtasks[..n], [subtasks[n]]);
      JoinConcat(Concat(groups[..n]), groups[n]);
      JoinOne(subtasks[n]);
      ConcatLast(groups);
    }
  }

  /** Every round's slice is in range, and a round is skipped only when all parts are taken. */
  lemma Boundaries(parts: nat, n: nat, i: nat)
    requires parts > 0 && i < n && n > 1
    ensures var k := ItemsPerTask(parts, n);
            var start := Boundary(i, k);
            (start < parts <==> i < parts) &&
            k >= 1 && Boundary(i + 1, k) == start + k &&
            (start < parts ==> start + k <= parts) &&
            (start >= parts ==> Boundary(i + 1, k) >= parts)
  {
    var k := ItemsPerTask(parts, n);
    ItemsFit(parts, n);
    assert (i + 1) * k == i * k + k;
    if k > 1 {
      Multiply(i + 1, n, k);
      Multiply(1, k, n);
    }
  }

  /** The loop over the workers. */
  method TakePieces(parts: seq<string>, n: nat) returns (subtasks: seq<string>, ghost groups: seq<seq<string>>)
    requires parts != [] && n > 1
    ensures |subtasks| == Min(n, |parts|) && Concat(groups) == parts
    ensures ItemsPerTask(|parts|, n) > 0 && IsGrouping(subtasks, groups, ItemsPerTask(|parts|, n))
  {
    subtasks, groups := [], [];
    var itemsPerTask := ItemsPerTask(|parts|, n);
    ghost var taken := 0;
    assert itemsPerTask > 0 && Boundary(0, itemsPerTask) == 0 && AreExact(groups, itemsPerTask);
    assert IsGrouping(subtasks, groups, itemsPerTask) && Concat(groups) == parts[..0];
    hide ItemsPerTask, Boundary, Join, Concat, IsGrouping, AreExact;
    for i := 0 to n
      invariant |subtasks| == Min(i, |parts|) && 0 <= taken <= |parts|
      invariant IsGrouping(subtasks, groups, itemsPerTask) && Concat(groups) == parts[..taken]
      invariant i < n ==> taken == Min(Boundary(i, itemsPerTask), |parts|) && AreExact(groups, itemsPerTask)
      invariant i == n ==> taken == |parts|
    {
      Boundaries(|parts|, n, i);
      var start := Boundary(i, itemsPerTask);
      var end := if i == n - 1 then |parts| else Boundary(i + 1, itemsPerTask);
      if start < |parts| {
        AddGroup(subtasks, groups, itemsPerTask, parts[start..end]);
        assert parts[..start] + parts[start..end] == parts[..end];
        var subtask := Join(parts[start..end]);
        subtasks := subtasks + [subtask];
        groups := groups + [parts[start..end]];
        taken := end;
      }
    }
    assert parts[..taken] == parts;
  }

  /** The pieces group the sentences in order, evenly among n workers but for the last, who has the rest. */
  ghost predicate IsEvenSplit(description: string, n: nat, subtasks: seq<string>) {
    exists groups, k ::
      IsGrouping(subtasks, groups, k) && Concat(groups) == SplitSentences(description) &&
      IsShare(|SplitSentences(description)|, if n <= 1 then 1 else n, k)
  }

  lemma OnePiece(description: string, n: nat)
    requires n <= 1
    ensures IsEvenSplit(description, n, [description])
  {
    var parts := SplitSentences(description);
    JoinInvertsSplit(description);
    assert [parts][..0] == [] && Concat([parts]) == parts && IsShare(|parts|, 1, |parts|);
    assert IsGrouping([description], [parts], |parts|);
  }

  /**
   Nothing is lost, reordered or invented; there are as many pieces as the sentences allow, and all but the last are
   alike in size.
   */
  method SplitTaskDescription(description: string, n: nat)
    returns (subtasks: seq<string>, fellBack: bool, ghost groups: seq<seq<string>>)
    ensures Join(subtasks) == description
    ensures |subtasks| == if n <= 1 then 1 else Min(n, |SplitSentences(description)|)
    ensures Concat(groups) == SplitSentences(description)
    ensures IsEvenSplit(description, n, subtasks)
    ensures !fellBack
  {
    JoinInvertsSplit(description);
    if n <= 1 {
      groups := [SplitSentences(description)];
      assert groups[..0] == [];
      OnePiece(description, n);
      return [description], false, groups;
    }
    hide ItemsPerTask, Join, SplitSentences, Concat;
    var parts := SplitSentences(description);
    subtasks, groups := TakePieces(parts, n);
    JoinOfPieces(subtasks, groups);
    ItemsFit(|parts|, n);
    assert IsEvenSplit(description, n, subtasks);
    if subtasks == [] {
      subtasks, fellBack := [description], true;
    } else {
      fellBack := false;
    }
  }

  datatype HubError = TaskBreakdownFailed(message: string)

  lemma PieceCount(n: nat, parts: nat)
    requires n > 0 && parts > 0
    ensures var pieces := if n <= 1 then 1 else Min(n, parts);
            0 < pieces == Min(n, parts) <= n && pieces <= parts && (pieces == n <==> n <= parts)
  {
  }

  /** `subtask_descriptions.get(i).unwrap_or(&task.description)` for each worker. */
  method AssignPieces(subtasks: seq<string>, description: string, numWorkers: nat) returns (assignments: seq<string>)
    ensures |assignments| == numWorkers
    ensures forall j | 0 <= j < numWorkers :: assignments[j] == if j < |subtasks| then subtasks[j] else description
  {
    assignments := [];
    for i := 0 to numWorkers
      invariant |assignments| == i
      invariant forall j | 0 <= j < i :: assignments[j] == if j < |subtasks| then subtasks[j] else description
    {
      assignments := assignments + [if i < |subtasks| then subtasks[i] else description];
    }
  }

  lemma ExtraWorkersRepeat(subtasks: seq<string>, assignments: seq<string>, description: string)
    requires subtasks != [] && Join(subtasks) == description && |assignments| >= |subtasks|
    requires forall j | 0 <= j < |subtasks| :: assignments[j] == subtasks[j]
    ensures Join(assignments) == description <==> |assignments| == |subtasks|
    ensures assignments[..|subtasks|] == subtasks && Join(assignments[..|subtasks|]) == description
  {
    hide Join;
    assert assignments[..|subtasks|] == subtasks;
    var extra := assignments[|subtasks|..];
    if extra == [] {
      assert assignments == subtasks;
    } else {
      assert assignments == subtasks + extra;
      JoinConcat(subtasks, extra);
      assert |Join(assignments)| > |description|;
    }
  }

  /**
   The descriptions handed to the workers. A worker beyond the last piece gets the whole description, so
   the pieces rejoin to the task exactly when there are no more workers than sentences.
   */
  method BreakDownTask(task: Option<string>, numWorkers: nat) returns (r: Result<seq<string>, HubError>)
    ensures task.None? ==> r == Err(TaskBreakdownFailed("No task assigned"))
    ensures task.Some? && numWorkers == 0 ==> r == Err(TaskBreakdownFailed("No workers available"))
    ensures task.Some? && numWorkers > 0 ==> r.Ok? && |r.value| == numWorkers
    ensures r.Ok? ==> task.Some? && (Join(r.value) == task.value <==> numWorkers <= |SplitSentences(task.value)|)
    ensures r.Ok? ==> Join(r.value[..Min(numWorkers, |SplitSentences(task.value)|)]) == task.value
    ensures r.Ok? ==> IsEvenSplit(task.value, numWorkers, r.value[..Min(numWorkers, |SplitSentences(task.value)|)])
    ensures r.Ok? ==> forall i | |SplitSentences(task.value)| <= i < numWorkers :: r.value[i] == task.value
  {
    if task.None? {
      return Err(TaskBreakdownFailed("No task assigned"));
    }
    if numWorkers == 0 {
      return Err(TaskBreakdownFailed("No workers available"));
    }
    var description := task.value;
    hide *;
    var subtasks, _, _ := SplitTaskDescription(description, numWorkers);
    PieceCount(numWorkers, |SplitSentences(description)|);
    var assignments := AssignPieces(subtasks, description, numWorkers);
    ExtraWorkersRepeat(subtasks, assignments, description);
    r := Ok(assignments);
  }

  /** For instance one sentence and two workers: both get all of it. */
  method OneSentenceTwoWorkers() returns (r: seq<string>)
    ensures r == ["Go", "Go"] && Join(r) == "Go. Go" != "Go"
  {
    var tasks := BreakDownTask(Some("Go"), 2);
    assert SplitSentences("Go") == ["Go"] by {
      assert "Go"[1..] == "o" && SplitSentences("o") == ["o"];
      assert ["o"][1..] == [] && ['G'] + "o" == "Go";
    }
    r := tasks.value;
    JoinOne(r[0]);
    assert r[..1] == [r[0]] && r == ["Go", "Go"] && r[1..] == ["Go"];
    JoinOne("Go");
  }
}
