/** Single-quoting for a POSIX shell (sections 2.2.1 and 2.2.2 of its command language), and a reader of such words. */
module ShellQuoting {
  import opened Wrappers

  const QUOTE: char := '\''
  const BACKSLASH: char := '\\'

  /** `s.replace('\'', "'\\''")` */
  function ShellEscape(s: string): string {
    if s == [] then [] else (if s[0] == QUOTE then "'\\''" else [s[0]]) + ShellEscape(s[1..])
  }

  /** Blanks and the characters operators start with end a word when they stand unquoted. */
  predicate EndsWord(c: char) {
    c in "|&;<>() \t\n"
  }

  /** Unquoted, these would start an expansion, a pattern or another kind of quote. */
  predicate IsExpanding(c: char) {
    c in "$`\"*?["
  }

  function Cons(c: char, r: Option<(string, string)>): Option<(string, string)> {
    match r
    case None => None
    case Some((word, rest)) => Some(([c] + word, rest))
  }

  /**
   Read one word of literal text: inside single quotes every character up to the next quote stands for
   itself; outside, a backslash quotes the next character and a backslash-newline vanishes. The result is
   the word's value and what follows it. None is an unterminated quote, a dangling backslash, or a word
   whose value is not its text because something in it would be expanded.
   */
  function ReadWord(input: string, quoted: bool): Option<(string, string)> {
    if input == [] then (if quoted then None else Some(([], [])))
    else if quoted then
      if input[0] == QUOTE then ReadWord(input[1..], false) else Cons(input[0], ReadWord(input[1..], true))
    else if input[0] == QUOTE then ReadWord(input[1..], true)
    else if input[0] == BACKSLASH then
      if |input| < 2 then None
      else if input[1] == '\n' then ReadWord(input[2..], false)
      else Cons(input[1], ReadWord(input[2..], false))
    else if EndsWord(input[0]) then Some(([], input))
    else if IsExpanding(input[0]) then None
    else Cons(input[0], ReadWord(input[1..], false))
  }

  lemma EscapedFirst(s: string, rest: string)
    requires s != []
    ensures ShellEscape(s) + "'" + rest
         == (if s[0] == QUOTE then "'\\''" else [s[0]]) + (ShellEscape(s[1..]) + "'" + rest)
  {
  }

  lemma OrdinaryQuoted(c: char, more: string)
    requires c != QUOTE
    ensures ReadWord([c] + more, true) == Cons(c, ReadWord(more, true))
  {
    assert ([c] + more)[1..] == more;
  }

  /** Close the quote, an escaped quote, open it again: one quote character. */
  lemma EscapedQuote(more: string)
    ensures ReadWord("'\\''" + more, true) == Cons(QUOTE, ReadWord(more, true))
  {
    var input := "'\\''" + more;
    var afterQuote := input[1..];
    assert afterQuote == "\\''" + more && afterQuote[0] == BACKSLASH && afterQuote[1] == QUOTE;
    var afterEscape := afterQuote[2..];
    assert afterEscape == "'" + more && afterEscape[1..] == more;
    assert ReadWord(afterEscape, false) == ReadWord(more, true);
    assert ReadWord(afterQuote, false) == Cons(QUOTE, ReadWord(afterEscape, false));
  }

  lemma {:induction false} EscapedReadsBack(s: string, rest: string)
    requires ReadWord(rest, false).Some?
    ensures ReadWord(ShellEscape(s) + "'" + rest, true)
         == Some((s + ReadWord(rest, false).value.0, ReadWord(rest, false).value.1))
  {
    var tail := ReadWord(rest, false).value;
    if s == [] {
      assert ShellEscape(s) + "'" + rest == "'" + rest && ("'" + rest)[1..] == rest;
      assert [] + tail.0 == tail.0;
    } else {
      var more := ShellEscape(s[1..]) + "'" + rest;
      EscapedReadsBack(s[1..], rest);
      EscapedFirst(s, rest);
      EscapedQuote(more);
      if s[0] != QUOTE {
        OrdinaryQuoted(s[0], more);
      }
      hide ReadWord, ShellEscape;
      assert [s[0]] + (s[1..] + tail.0) == s + tail.0;
    }
  }

  lemma {:induction false} EscapePlain(plain: string, s: string)
    requires QUOTE !in plain
    ensures ShellEscape(plain + s) == plain + ShellEscape(s)
  {
    if plain == [] {
      assert plain + s == s;
    } else {
      EscapePlain(plain[1..], s);
      assert (plain + s)[1..] == plain[1..] + s;
      assert plain + ShellEscape(s) == [plain[0]] + (plain[1..] + ShellEscape(s));
    }
  }

  lemma OneWord(s: string, rest: string)
    requires rest == [] || EndsWord(rest[0])
    ensures ReadWord("'" + ShellEscape(s) + "'" + rest, false) == Some((s, rest))
  {
    var body := ShellEscape(s) + "'" + rest;
    assert "'" + ShellEscape(s) + "'" + rest == "'" + body && ("'" + body)[1..] == body;
    EscapedReadsBack(s, rest);
    assert s + [] == s;
  }

  /**
   Escaped and put between quotes, behind any literal text without a quote, any string is one word: that text and
   the string; and the word ends where the quote does.
   */
  lemma QuotedIsOneWord(plain: string, s: string, rest: string)
    requires QUOTE !in plain && (rest == [] || EndsWord(rest[0]))
    ensures ReadWord("'" + plain + ShellEscape(s) + "'" + rest, false) == Some((plain + s, rest))
  {
    EscapePlain(plain, s);
    OneWord(plain + s, rest);
    hide ReadWord, ShellEscape;
    assert "'" + plain + ShellEscape(s) + "'" + rest == "'" + ShellEscape(plain + s) + "'" + rest;
  }

  /** Distinct arguments never produce the same text. */
  lemma QuotingIsInjective(s: string, t: string)
    requires ShellEscape(s) == ShellEscape(t)
    ensures s == t
  {
    OneWord(s, []);
    OneWord(t, []);
  }

  lemma {:induction false} EscapeGrows(s: string)
    ensures |ShellEscape(s)| >= |s|
  {
    if s == [] {
    } else {
      EscapeGrows(s[1..]);
    }
  }

  /** Escaping changes exactly the strings that hold a quote. */
  lemma {:induction false} EscapeChangesQuotes(s: string)
    ensures ShellEscape(s) == s <==> QUOTE !in s
  {
    if s == [] {
    } else {
      EscapeChangesQuotes(s[1..]);
      EscapeGrows(s[1..]);
    }
  }

  /** A word takes at least its own length of input, and more if a quote is among what is read. */
  lemma {:induction false} WordIsShorter(input: string, quoted: bool)
    requires ReadWord(input, quoted).Some?
    ensures var (word, rest) := ReadWord(input, quoted).value;
            |word| + |rest| <= |input| && (QUOTE in input[..|input| - |rest|] ==> |word| + |rest| < |input|)
    decreases |input|
  {
    var (_, rest) := ReadWord(input, quoted).value;
    if input == [] || (!quoted && EndsWord(input[0])) {
      assert input[..0] == [];
    } else {
      var n := if !quoted && input[0] == BACKSLASH then 2 else 1;
      var stillQuoted := if input[0] == QUOTE then !quoted else quoted;
      var more := input[n..];
      WordIsShorter(more, stillQuoted);
      assert input[..|input| - |rest|] == input[..n] + more[..|more| - |rest|];
    }
  }

  lemma {:induction false} QuotedPrefix(plain: string, rest: string)
    requires QUOTE !in plain
    ensures ReadWord(plain + rest, true)
         == match ReadWord(rest, true) case None => None case Some((word, left)) => Some((plain + word, left))
  {
    if plain == [] {
      assert plain + rest == rest;
      assert ReadWord(rest, true).Some? ==> [] + ReadWord(rest, true).value.0 == ReadWord(rest, true).value.0;
    } else {
      QuotedPrefix(plain[1..], rest);
      assert (plain + rest)[1..] == plain[1..] + rest;
      if ReadWord(rest, true).Some? {
        var word := ReadWord(rest, true).value.0;
        assert [plain[0]] + (plain[1..] + word) == plain + word;
      }
    }
  }

  lemma SplitAtQuote(s: string) returns (before: string, after: string)
    requires QUOTE in s
    ensures s == before + "'" + after && QUOTE !in before
  {
    if s[0] == QUOTE {
      before, after := [], s[1..];
    } else {
      before, after := SplitAtQuote(s[1..]);
      before := [s[0]] + before;
    }
  }

  lemma UnescapedIsLonger(before: string, after: string, rest: string)
    requires QUOTE !in before
    ensures ReadWord("'" + (before + "'" + after) + "'" + rest, false) != Some((before + "'" + after, rest))
  {
    var behind := after + "'" + rest;
    var body := before + ("'" + behind);
    assert "'" + (before + "'" + after) + "'" + rest == "'" + body;
    assert ("'" + body)[1..] == body && ("'" + behind)[1..] == behind;
    assert ReadWord("'" + body, false) == ReadWord(body, true) &&
      ReadWord("'" + behind, true) == ReadWord(behind, false);
    QuotedPrefix(before, "'" + behind);
    hide ReadWord;
    if ReadWord(behind, false).Some? && ReadWord(behind, false).value.1 == rest {
      WordIsShorter(behind, false);
      assert behind[..|behind| - |rest|] == after + "'" && (after + "'")[|after|] == QUOTE;
    }
  }

  /** Without the escaping step a string between quotes is read as itself exactly if it holds no quote. */
  lemma EscapeNeeded(s: string, rest: string)
    requires rest == [] || EndsWord(rest[0])
    ensures ReadWord("'" + s + "'" + rest, false) == Some((s, rest)) <==> QUOTE !in s
  {
    if QUOTE !in s {
      EscapeChangesQuotes(s);
      OneWord(s, rest);
    } else {
      var before, after := SplitAtQuote(s);
      UnescapedIsLonger(before, after, rest);
    }
  }
}
