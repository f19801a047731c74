/** Edit scripts: what the diff panel displays, and what such a script means. */
module EditScript {

  type Line = string

  datatype Kind = Ctx | Add | Del

  datatype Edit = Edit(kind: Kind, text: Line)

  /** The lines a script reads on the left: its context and deleted lines. */
  function Before(s: seq<Edit>): seq<Line> {
    if s == [] then [] else (if s[0].kind.Add? then [] else [s[0].text]) + Before(s[1..])
  }

  /** The lines a script produces on the right: its context and added lines. */
  function After(s: seq<Edit>): seq<Line> {
    if s == [] then [] else (if s[0].kind.Del? then [] else [s[0].text]) + After(s[1..])
  }

  /** The lines a script keeps. */
  function Kept(s: seq<Edit>): seq<Line> {
    if s == [] then [] else (if s[0].kind.Ctx? then [s[0].text] else []) + Kept(s[1..])
  }

  /** The number of added and deleted lines. */
  function Cost(s: seq<Edit>): nat {
    if s == [] then 0 else (if s[0].kind.Ctx? then 0 else 1) + Cost(s[1..])
  }

  ghost predicate Replays(s: seq<Edit>, a: seq<Line>, b: seq<Line>) {
    Before(s) == a && After(s) == b
  }

  /** A script that turns a into b, with no cheaper one in existence. */
  ghost predicate IsShortestScript(s: seq<Edit>, a: seq<Line>, b: seq<Line>) {
    Replays(s, a, b) && forall t | Replays(t, a, b) :: Cost(s) <= Cost(t)
  }

  predicate IsSubsequence(c: seq<Line>, s: seq<Line>) {
    c == [] ||
    (s != [] && ((c[0] == s[0] && IsSubsequence(c[1..], s[1..])) || IsSubsequence(c, s[1..])))
  }

  ghost predicate IsLongestCommonSubsequence(c: seq<Line>, a: seq<Line>, b: seq<Line>) {
    IsSubsequence(c, a) && IsSubsequence(c, b) &&
    forall c' | IsSubsequence(c', a) && IsSubsequence(c', b) :: |c'| <= |c|
  }

  /** `Array.reverse`, which the walk applies to the edits it pushed back to front. */
  function Reversed(s: seq<Edit>): seq<Edit> {
    if s == [] then [] else [s[|s| - 1]] + Reversed(s[..|s| - 1])
  }

  lemma ReversedPush(s: seq<Edit>, e: Edit)
    ensures Reversed(s + [e]) == [e] + Reversed(s)
  {
    assert (s + [e])[..|s|] == s;
  }

  lemma {:induction false} AppendEdit(s: seq<Edit>, e: Edit)
    ensures Before(s + [e]) == Before(s) + (if e.kind.Add? then [] else [e.text])
    ensures After(s + [e]) == After(s) + (if e.kind.Del? then [] else [e.text])
    ensures Cost(s + [e]) == Cost(s) + (if e.kind.Ctx? then 0 else 1)
  {
    if s != [] {
      AppendEdit(s[1..], e);
      assert (s + [e])[1..] == s[1..] + [e];
    } else {
      assert s + [e] == [e];
    }
  }

  lemma PrependEdit(e: Edit, s: seq<Edit>)
    ensures Before([e] + s) == (if e.kind.Add? then [] else [e.text]) + Before(s)
    ensures After([e] + s) == (if e.kind.Del? then [] else [e.text]) + After(s)
    ensures Kept([e] + s) == (if e.kind.Ctx? then [e.text] else []) + Kept(s)
    ensures Cost([e] + s) == (if e.kind.Ctx? then 0 else 1) + Cost(s)
  {
    assert ([e] + s)[1..] == s;
  }

  // ---- Shortest scripts and longest common subsequences ------------------------------

  lemma {:induction false} CostCountsKept(s: seq<Edit>)
    ensures |Before(s)| + |After(s)| == Cost(s) + 2 * |Kept(s)|
  {
    if s == [] {
    } else {
      CostCountsKept(s[1..]);
    }
  }

  lemma {:induction false} SubsequenceDropHead(c: seq<Line>, s: seq<Line>)
    requires c != [] && IsSubsequence(c, s)
    ensures IsSubsequence(c[1..], s[1..])
    decreases s
  {
    if c[0] == s[0] && IsSubsequence(c[1..], s[1..]) {
    } else {
      SubsequenceDropHead(c, s[1..]);
    }
  }

  lemma {:induction false} KeptIsCommon(s: seq<Edit>)
    ensures IsSubsequence(Kept(s), Before(s))
    ensures IsSubsequence(Kept(s), After(s))
  {
    if s == [] {
    } else {
      KeptIsCommon(s[1..]);
      assert [s[0].text] + Kept(s[1..]) != [] && ([s[0].text] + Kept(s[1..]))[1..] == Kept(s[1..]);
      assert ([s[0].text] + Before(s[1..]))[1..] == Before(s[1..]);
      assert ([s[0].text] + After(s[1..]))[1..] == After(s[1..]);
      assert [] + Kept(s[1..]) == Kept(s[1..]);
      assert [] + Before(s[1..]) == Before(s[1..]);
      assert [] + After(s[1..]) == After(s[1..]);
    }
  }

  /** Every common subsequence is what some script keeps. */
  lemma {:induction false} ScriptKeeping(c: seq<Line>, a: seq<Line>, b: seq<Line>) returns (s: seq<Edit>)
    requires IsSubsequence(c, a) && IsSubsequence(c, b)
    ensures Replays(s, a, b) && |Kept(s)| == |c|
    decreases |a| + |b|
  {
    if a == [] && b == [] {
      s := [];
    } else if a != [] && (c == [] || a[0] != c[0]) {
      var rest := ScriptKeeping(c, a[1..], b);
      s := [Edit(Del, a[0])] + rest;
      PrependEdit(Edit(Del, a[0]), rest);
    } else if b != [] && (c == [] || b[0] != c[0]) {
      var rest := ScriptKeeping(c, a, b[1..]);
      s := [Edit(Add, b[0])] + rest;
      PrependEdit(Edit(Add, b[0]), rest);
    } else {
      SubsequenceDropHead(c, a);
      SubsequenceDropHead(c, b);
      var rest := ScriptKeeping(c[1..], a[1..], b[1..]);
      s := [Edit(Ctx, c[0])] + rest;
      PrependEdit(Edit(Ctx, c[0]), rest);
    }
  }

  /** A shortest script keeps a longest common subsequence, and its cost is what that leaves over. */
  lemma ShortestScriptKeepsLcs(s: seq<Edit>, a: seq<Line>, b: seq<Line>)
    requires IsShortestScript(s, a, b)
    ensures IsLongestCommonSubsequence(Kept(s), a, b)
    ensures Cost(s) == |a| + |b| - 2 * |Kept(s)|
  {
    KeptIsCommon(s);
    CostCountsKept(s);
    forall c | IsSubsequence(c, a) && IsSubsequence(c, b)
      ensures |c| <= |Kept(s)|
    {
      var t := ScriptKeeping(c, a, b);
      CostCountsKept(t);
    }
  }
}
