/** Newline normalisation and line splitting, as JavaScript's string methods do them. */
module TextLines {
  import opened Strings
  import opened Wrappers

  /** `t.includes('\\n')`: a backslash followed by the letter n. */
  predicate HasEscape(t: string) {
    |t| >= 2 && ((t[0] == '\\' && t[1] == 'n') || HasEscape(t[1..]))
  }

  /** `t.replace(/\\n/g, '\n')` */
  function ReplaceEscapes(t: string): string {
    if |t| < 2 then t
    else if t[0] == '\\' && t[1] == 'n' then "\n" + ReplaceEscapes(t[2..])
    else [t[0]] + ReplaceEscapes(t[1..])
  }

  /** `t.replace(/\r\n/g, '\n')` */
  function ReplaceCrLf(t: string): string {
    if |t| < 2 then t
    else if t[0] == '\r' && t[1] == '\n' then "\n" + ReplaceCrLf(t[2..])
    else [t[0]] + ReplaceCrLf(t[1..])
  }

  /** `t.replace(/\r/g, '\n')` */
  function ReplaceCr(t: string): string {
    if t == [] then [] else [if t[0] == '\r' then '\n' else t[0]] + ReplaceCr(t[1..])
  }

  function NormalizeNewlines(text: Option<string>): string {
    match text
    case None => ""
    case Some(t) =>
      var unescaped := if HasEscape(t) && '\n' !in t then ReplaceEscapes(t) else t;
      ReplaceCr(ReplaceCrLf(unescaped))
  }

  /** `t.split('\n')` */
  function SplitLines(t: string): (lines: seq<string>)
    ensures lines != []
  {
    if t == [] then [[]]
    else
      var rest := SplitLines(t[1..]);
      if t[0] == '\n' then [[]] + rest else [[t[0]] + rest[0]] + rest[1..]
  }

  /** `lines.join('\n')` */
  function JoinLines(lines: seq<string>): string {
    if lines == [] then [] else if |lines| == 1 then lines[0] else lines[0] + "\n" + JoinLines(lines[1..])
  }

  // ---- Splitting ---------------------------------------------------------------------

  lemma JoinMore(line: string, rest: seq<string>)
    requires rest != []
    ensures JoinLines([line] + rest) == line + "\n" + JoinLines(rest)
  {
    assert ([line] + rest)[1..] == rest;
  }

  lemma Associate(x: string, y: string, z: string, tail: string)
    ensures (x + y) + z + tail == x + (y + z + tail)
  {
  }

  lemma PrependChar(c: char, first: string, rest: seq<string>)
    ensures JoinLines([[c] + first] + rest) == [c] + JoinLines([first] + rest)
  {
    if rest == [] {
      assert [first] + rest == [first] && [[c] + first] + rest == [[c] + first];
    } else {
      JoinMore(first, rest);
      JoinMore([c] + first, rest);
      hide JoinLines;
      Associate([c], first, "\n", JoinLines(rest));
    }
  }

  /** Splitting loses nothing, and no line holds a newline. */
  lemma {:induction false} JoinInvertsSplit(t: string)
    ensures JoinLines(SplitLines(t)) == t
    ensures forall line | line in SplitLines(t) :: '\n' !in line
  {
    if t == [] {
    } else {
      var rest := SplitLines(t[1..]);
      JoinInvertsSplit(t[1..]);
      hide JoinLines;
      if t[0] == '\n' {
        JoinMore([], rest);
        assert [] + "\n" + t[1..] == t;
      } else {
        PrependChar(t[0], rest[0], rest[1..]);
        assert rest == [rest[0]] + rest[1..] && [t[0]] + t[1..] == t;
        assert rest[0] in rest && forall line | line in rest[1..] :: line in rest;
      }
    }
  }

  // ---- Normalisation -----------------------------------------------------------------

  lemma {:induction false} ReplaceEscapesWorks(t: string)
    ensures t != [] ==> ReplaceEscapes(t) != [] && (ReplaceEscapes(t)[0] == t[0] || ReplaceEscapes(t)[0] == '\n')
    ensures !HasEscape(ReplaceEscapes(t))
    ensures HasEscape(t) ==> '\n' in ReplaceEscapes(t)
    ensures !HasEscape(t) ==> ReplaceEscapes(t) == t
  {
    if |t| < 2 {
    } else {
      if t[0] == '\\' && t[1] == 'n' {
        ReplaceEscapesWorks(t[2..]);
        assert ("\n" + ReplaceEscapes(t[2..]))[1..] == ReplaceEscapes(t[2..]);
      } else {
        ReplaceEscapesWorks(t[1..]);
        assert ([t[0]] + ReplaceEscapes(t[1..]))[1..] == ReplaceEscapes(t[1..]);
      }
    }
  }

  /** The two line-ending passes leave no carriage return and create neither newline-free text nor escapes. */
  lemma {:induction false} LineEndingsWork(t: string)
    ensures var r := ReplaceCr(ReplaceCrLf(t));
            '\r' !in r && ('\r' !in t ==> r == t) && ('\n' in t ==> '\n' in r) && ('\r' in t ==> '\n' in r) &&
            (t != [] ==> r != [] && r[0] == (if t[0] == '\r' then '\n' else t[0])) && HasEscape(r) == HasEscape(t)
  {
    if |t| >= 2 {
      if t[0] == '\r' && t[1] == '\n' {
        LineEndingsWork(t[2..]);
        var rest := ReplaceCrLf(t[2..]);
        assert ("\n" + rest)[1..] == rest && ReplaceCr("\n" + rest) == "\n" + ReplaceCr(rest);
        assert ("\n" + ReplaceCr(rest))[1..] == ReplaceCr(rest);
        assert t[1..][1..] == t[2..];
        assert HasEscape(t) == HasEscape(t[1..]) == HasEscape(t[2..]);
      } else {
        LineEndingsWork(t[1..]);
        var rest := ReplaceCrLf(t[1..]);
        assert ([t[0]] + rest)[1..] == rest;
        var c := if t[0] == '\r' then '\n' else t[0];
        assert ReplaceCr([t[0]] + rest) == [c] + ReplaceCr(rest);
        assert ([c] + ReplaceCr(rest))[1..] == ReplaceCr(rest);
      }
    } else if |t| == 1 {
      assert t == [t[0]] && t[1..] == [];
      assert ReplaceCr([]) == [];
    }
  }

  /** Expansion turns the first escape into one newline and goes on behind it. */
  lemma {:induction false} EachEscapeIsOneNewline(x: string, y: string)
    requires !HasEscape(x)
    ensures ReplaceEscapes(x + "\\n" + y) == x + "\n" + ReplaceEscapes(y)
  {
    var t := x + "\\n" + y;
    if x == [] {
      assert t == "\\n" + y && t[2..] == y;
      assert [] + "\n" + ReplaceEscapes(y) == "\n" + ReplaceEscapes(y);
    } else {
      assert t[1..] == x[1..] + "\\n" + y;
      assert |x| == 1 ==> t[1] == '\\';
      EachEscapeIsOneNewline(x[1..], y);
      assert [x[0]] + (x[1..] + "\n" + ReplaceEscapes(y)) == x + "\n" + ReplaceEscapes(y);
    }
  }

  predicate IsLineEnding(e: string) {
    e == "\n" || e == "\r\n" || e == "\r"
  }

  lemma FirstCharacter(c: char, t: string)
    requires c != '\r'
    ensures ReplaceCr(ReplaceCrLf([c] + t)) == [c] + ReplaceCr(ReplaceCrLf(t))
  {
    assert ([c] + t)[1..] == t && ([c] + ReplaceCrLf(t))[1..] == ReplaceCrLf(t);
    assert t == [] ==> [c] + t == [c] && [c] + ReplaceCrLf(t) == [c];
  }

  lemma FirstEnding(e: string, y: string)
    requires IsLineEnding(e) && (e == "\r" && y != [] ==> y[0] != '\n')
    ensures ReplaceCr(ReplaceCrLf(e + y)) == "\n" + ReplaceCr(ReplaceCrLf(y))
  {
    var r := ReplaceCrLf(y);
    if e == "\r\n" {
      assert (e + y)[2..] == y && ("\n" + r)[1..] == r;
    } else if e == "\n" {
      FirstCharacter('\n', y);
    } else {
      assert (e + y)[1..] == y && ("\r" + r)[1..] == r;
      assert y == [] ==> e + y == "\r" && "\r" + r == "\r";
    }
  }

  /** Every line ending, of whichever of the three kinds, becomes one newline, and the text between stays. */
  lemma {:induction false} EachEndingIsOneNewline(x: string, e: string, y: string)
    requires '\r' !in x && IsLineEnding(e) && (e == "\r" && y != [] ==> y[0] != '\n')
    ensures ReplaceCr(ReplaceCrLf(x + e + y)) == x + "\n" + ReplaceCr(ReplaceCrLf(y))
  {
    hide ReplaceCr, ReplaceCrLf;
    var t, rest := x + e + y, ReplaceCr(ReplaceCrLf(y));
    if x == [] {
      assert t == e + y && [] + "\n" + rest == "\n" + rest;
      FirstEnding(e, y);
    } else {
      assert t == [x[0]] + (x[1..] + e + y);
      EachEndingIsOneNewline(x[1..], e, y);
      FirstCharacter(x[0], x[1..] + e + y);
      assert [x[0]] + (x[1..] + "\n" + rest) == x + "\n" + rest;
    }
  }

  /** One pass: every line ending becomes a newline, and a carriage return with a line feed is one ending. */
  function Unified(t: string): string {
    if t == [] then []
    else if |t| >= 2 && t[0] == '\r' && t[1] == '\n' then "\n" + Unified(t[2..])
    else [if t[0] == '\r' then '\n' else t[0]] + Unified(t[1..])
  }

  lemma {:induction false} TwoPassesAreOne(t: string)
    ensures ReplaceCr(ReplaceCrLf(t)) == Unified(t)
  {
    if t == [] {
    } else if |t| == 1 {
      assert t[1..] == [] && ReplaceCr([]) == [];
    } else if t[0] == '\r' && t[1] == '\n' {
      TwoPassesAreOne(t[2..]);
      FirstCharacter('\n', t[2..]);
      var rest := ReplaceCrLf(t[2..]);
      assert ("\n" + rest)[1..] == rest;
    } else {
      TwoPassesAreOne(t[1..]);
      var rest := ReplaceCrLf(t[1..]);
      assert ([t[0]] + rest)[1..] == rest;
    }
  }

  lemma {:induction false} EscapeIsSomewhere(t: string)
    ensures HasEscape(t) <==> exists x, y :: IsAround(t, x, "\\n", y)
  {
    if |t| < 2 {
      assert forall x, y :: |x + "\\n" + y| >= 2;
    } else {
      EscapeIsSomewhere(t[1..]);
      if t[0] == '\\' && t[1] == 'n' {
        assert IsAround(t, [], "\\n", t[2..]);
      } else {
        if x, y :| IsAround(t[1..], x, "\\n", y) {
          assert IsAround(t, [t[0]] + x, "\\n", y);
        }
        if x, y :| IsAround(t, x, "\\n", y) {
          assert x != [];
          assert IsAround(t[1..], x[1..], "\\n", y);
        }
      }
    }
  }

  /** Escapes are expanded exactly in texts that hold one and no newline; after that every line ending is unified. */
  lemma NormalizeIs(t: string)
    ensures NormalizeNewlines(None) == ""
    ensures NormalizeNewlines(Some(t))
         == Unified(if (exists x, y :: IsAround(t, x, "\\n", y)) && '\n' !in t then ReplaceEscapes(t) else t)
  {
    EscapeIsSomewhere(t);
    TwoPassesAreOne(t);
    TwoPassesAreOne(ReplaceEscapes(t));
  }

  /** Which texts normalisation leaves alone. */
  predicate IsNormalized(t: string) {
    '\r' !in t && (HasEscape(t) ==> '\n' in t)
  }

  /** Normalising gives a normalised text, and changes exactly the texts that are not. */
  lemma NormalizeNormalizes(t: string)
    ensures IsNormalized(NormalizeNewlines(Some(t)))
    ensures NormalizeNewlines(Some(t)) == t <==> IsNormalized(t)
  {
    LineEndingsWork(t);
    LineEndingsWork(ReplaceEscapes(t));
    ReplaceEscapesWorks(t);
  }
}
