/** How the API server decides that an HTTP request has arrived in full (sections 6.2 and 6.3 of RFC 9112). */
module Framing {
  import opened Wrappers
  import opened Bytes

  const CRLF2: Bytes := [CR, LF, CR, LF]

  // ---- The end of the headers --------------------------------------------------------

  predicate IsBlankLineAt(s: Bytes, i: nat) {
    i + 4 <= |s| && s[i..i + 4] == CRLF2
  }

  /** Where the first blank line starts, looking from i on. */
  function HeaderEndFrom(s: Bytes, i: nat): Option<nat>
    decreases |s| - i
  {
    if i + 4 > |s| then None else if IsBlankLineAt(s, i) then Some(i) else HeaderEndFrom(s, i + 1)
  }

  function HeaderEnd(s: Bytes): Option<nat> {
    HeaderEndFrom(s, 0)
  }

  method FindHeaderEnd(data: Bytes) returns (r: Option<nat>)
    ensures r == HeaderEnd(data)
    ensures r.Some? ==> IsBlankLineAt(data, r.value) && forall i | 0 <= i < r.value :: !IsBlankLineAt(data, i)
    ensures r.None? ==> forall i: nat :: !IsBlankLineAt(data, i)
  {
    var stop := if |data| >= 3 then |data| - 3 else 0;
    for i := 0 to stop
      invariant HeaderEnd(data) == HeaderEndFrom(data, i)
      invariant forall j | 0 <= j < i :: !IsBlankLineAt(data, j)
    {
      if data[i..i + 4] == CRLF2 {
        return Some(i);
      }
    }
    r := None;
  }

  lemma {:induction false} HeaderEndIs(s: Bytes, i: nat, h: nat)
    requires i <= h && IsBlankLineAt(s, h) && forall j | i <= j < h :: !IsBlankLineAt(s, j)
    ensures HeaderEndFrom(s, i) == Some(h)
    decreases h - i
  {
    if i == h {
    } else {
      HeaderEndIs(s, i + 1, h);
    }
  }

  lemma {:induction false} HeaderEndNowhere(s: Bytes, i: nat)
    requires forall j: nat | i <= j :: !IsBlankLineAt(s, j)
    ensures HeaderEndFrom(s, i) == None
    decreases |s| - i
  {
    if i + 4 > |s| {
    } else {
      HeaderEndNowhere(s, i + 1);
    }
  }

  lemma {:induction false} FirstBlankLineFrom(s: Bytes, i: nat)
    requires HeaderEndFrom(s, i).Some?
    ensures var h := HeaderEndFrom(s, i).value;
            i <= h && IsBlankLineAt(s, h) && forall j | i <= j < h :: !IsBlankLineAt(s, j)
    decreases |s| - i
  {
    if IsBlankLineAt(s, i) {
    } else {
      FirstBlankLineFrom(s, i + 1);
    }
  }

  lemma FirstBlankLine(s: Bytes) returns (h: nat)
    requires HeaderEnd(s).Some?
    ensures HeaderEnd(s) == Some(h) && IsBlankLineAt(s, h) && forall j | 0 <= j < h :: !IsBlankLineAt(s, j)
  {
    h := HeaderEnd(s).value;
    FirstBlankLineFrom(s, 0);
  }

  /** Bytes that arrive later never move a blank line once found, and none is found before its last byte. */
  lemma HeaderEndIsStable(head: Bytes, tail: Bytes, n: nat)
    requires HeaderEnd(head + CRLF2) == Some(|head|) && n <= |head| + 4 + |tail|
    ensures HeaderEnd((head + CRLF2 + tail)[..n]) == if n < |head| + 4 then None else Some(|head|)
  {
    var whole := head + CRLF2;
    var arrived := (whole + tail)[..n];
    var found := FirstBlankLine(whole);
    forall j: nat | j < |head|
      ensures !IsBlankLineAt(arrived, j)
    {
      assert !IsBlankLineAt(whole, j);
      if j + 4 <= |arrived| {
        assert arrived[j..j + 4] == whole[j..j + 4];
      }
    }
    if n < |head| + 4 {
      HeaderEndNowhere(arrived, 0);
    } else {
      assert arrived[|head|..|head| + 4] == CRLF2;
      HeaderEndIs(arrived, 0, |head|);
    }
  }

  // ---- Content-Length ----------------------------------------------------------------
  //
  // The headers are decoded with replacement characters for what is no text. Neither such a character nor the
  // bytes it stands for are a blank, digit, sign, colon or line break, and a byte that starts a character is never
  // swallowed by what precedes it; so reading the bytes themselves comes to the same. Nor does any letter outside
  // ASCII have a letter of the name as its lower case.

  /** "content-length:" */
  const NAME: Bytes := [99, 111, 110, 116, 101, 110, 116, 45, 108, 101, 110, 103, 116, 104, 58]
  const COLON: byte := 58
  const PLUS: byte := 43
  const ZERO: byte := 48
  const USIZE_LIMIT: nat := 0x1_0000_0000_0000_0000

  function Lower(s: Bytes): (r: Bytes)
    ensures |r| == |s|
  {
    seq(|s|, i requires 0 <= i < |s| => if 65 <= s[i] <= 90 then s[i] + 32 else s[i])
  }

  /** Unicode's White_Space property. */
  predicate IsWhiteSpace(c: nat) {
    9 <= c <= 13 || c in {0x20, 0x85, 0xA0, 0x1680, 0x2028, 0x2029, 0x202F, 0x205F, 0x3000} || 0x2000 <= c <= 0x200A
  }

  /** The length of the white-space character s starts with, or 0. */
  function BlankLength(s: Bytes): (n: nat)
    ensures n <= |s|
  {
    if CharLength(s) > 0 && IsWhiteSpace(DecodeFirst(s)) then CharLength(s) else 0
  }

  /** The length of the white-space character s ends with, or 0; none is encoded in more than three bytes. */
  function BlankEnd(s: Bytes): (n: nat)
    ensures n <= |s|
  {
    if |s| >= 1 && BlankLength(s[|s| - 1..]) == 1 then 1
    else if |s| >= 2 && BlankLength(s[|s| - 2..]) == 2 then 2
    else if |s| >= 3 && BlankLength(s[|s| - 3..]) == 3 then 3
    else 0
  }

  function TrimStart(s: Bytes): Bytes {
    if BlankLength(s) > 0 then TrimStart(s[BlankLength(s)..]) else s
  }

  function TrimEnd(s: Bytes): Bytes {
    if BlankEnd(s) > 0 then TrimEnd(s[..|s| - BlankEnd(s)]) else s
  }

  /** The text up to the first colon. */
  function UpToColon(s: Bytes): Bytes {
    if s == [] || s[0] == COLON then [] else [s[0]] + UpToColon(s[1..])
  }

  predicate IsDigits(s: Bytes) {
    forall i | 0 <= i < |s| :: ZERO <= s[i] <= ZERO + 9
  }

  function Number(s: Bytes): nat
    requires IsDigits(s)
  {
    if s == [] then 0 else Number(s[..|s| - 1]) * 10 + (s[|s| - 1] - ZERO) as nat
  }

  /** `parse::<usize>().unwrap_or(0)` on a 64-bit machine. */
  function ParseOrZero(s: Bytes): nat {
    var digits := if s != [] && s[0] == PLUS then s[1..] else s;
    if digits != [] && IsDigits(digits) && Number(digits) < USIZE_LIMIT then Number(digits) else 0
  }

  predicate IsContentLength(line: Bytes) {
    NAME <= Lower(line)
  }

  /** The number after the first colon, up to the second if there is one. */
  function FieldValue(line: Bytes): nat
    requires IsContentLength(line)
  {
    ParseOrZero(TrimEnd(TrimStart(UpToColon(line[|NAME|..]))))
  }

  /** The value of the first Content-Length line, or 0. */
  function ContentLengthOf(lines: seq<Bytes>): nat {
    if lines == [] then 0
    else if IsContentLength(lines[0]) then FieldValue(lines[0])
    else ContentLengthOf(lines[1..])
  }

  function ContentLength(headers: Bytes): nat {
    ContentLengthOf(Lines(headers))
  }

  method ParseContentLength(headers: Bytes) returns (n: nat)
    ensures n == ContentLength(headers)
  {
    var lines := Lines(headers);
    for i := 0 to |lines|
      invariant ContentLengthOf(lines) == ContentLengthOf(lines[i..])
    {
      if NAME <= Lower(lines[i]) {
        return ParseOrZero(TrimEnd(TrimStart(UpToColon(lines[i][|NAME|..]))));
      }
      assert lines[i..][1..] == lines[i + 1..];
    }
    n := 0;
  }

  function Decimal(n: nat): Bytes {
    if n < 10 then [ZERO + n as byte] else Decimal(n / 10) + [ZERO + (n % 10) as byte]
  }

  lemma {:induction false} DecimalParses(n: nat)
    ensures Decimal(n) != [] && IsDigits(Decimal(n)) && Number(Decimal(n)) == n
  {
    if n >= 10 {
      DecimalParses(n / 10);
      var init := Decimal(n / 10);
      assert Decimal(n)[..|init|] == init;
    } else {
      assert Decimal(n)[..0] == [];
    }
  }

  /** The code points with that property, one by one. */
  const WHITE_SPACE: set<nat> :=
    {0x09, 0x0A, 0x0B, 0x0C, 0x0D, 0x20, 0x85, 0xA0, 0x1680,
     0x2000, 0x2001, 0x2002, 0x2003, 0x2004, 0x2005, 0x2006, 0x2007, 0x2008, 0x2009, 0x200A,
     0x2028, 0x2029, 0x202F, 0x205F, 0x3000}

  lemma WhiteSpaceIs(c: nat)
    ensures IsWhiteSpace(c) <==> c in WHITE_SPACE
    ensures c in WHITE_SPACE ==> IsScalar(c)
  {
  }

  type Blank = c: nat | IsScalar(c) && c in WHITE_SPACE witness 32

  /** White space in UTF-8. */
  function Blanks(chars: seq<Blank>): Bytes {
    if chars == [] then [] else Blanks(chars[..|chars| - 1]) + EncodeChar(chars[|chars| - 1])
  }

  lemma BlankIsShort(c: Blank)
    ensures var e := EncodeChar(c);
            1 <= |e| <= 3 && COLON !in e && CharLength(e) == |e| && DecodeFirst(e) == c &&
            forall i | 0 < i < |e| :: IsContinuation(e[i])
  {
    EncodingIsChar(c);
    assert c != 58 && c < 0x1_0000;
  }

  /** The text up to a colon, or up to the end. */
  lemma {:induction false} UpToColonIs(s: Bytes, rest: Bytes)
    requires COLON !in s && (rest == [] || rest[0] == COLON)
    ensures UpToColon(s + rest) == s
  {
    if s == [] {
      assert s + rest == rest;
    } else {
      UpToColonIs(s[1..], rest);
      assert (s + rest)[1..] == s[1..] + rest;
    }
  }

  lemma BlankLengthIs(c: Blank, rest: Bytes)
    ensures BlankLength(EncodeChar(c) + rest) == |EncodeChar(c)| > 0
  {
    WhiteSpaceIs(c);
    BlankIsShort(c);
    hide EncodeChar, CharLength, DecodeFirst;
    CharIsLocal(EncodeChar(c), rest);
  }

  lemma {:induction false} BlanksFirst(chars: seq<Blank>)
    requires chars != []
    ensures Blanks(chars) == EncodeChar(chars[0]) + Blanks(chars[1..])
  {
    hide EncodeChar, IsWhiteSpace;
    var init, last := chars[..|chars| - 1], chars[|chars| - 1];
    if init == [] {
      assert chars[1..] == [];
    } else {
      BlanksFirst(init);
      assert chars[1..][..|chars[1..]| - 1] == init[1..] && chars[1..][|chars[1..]| - 1] == last;
    }
  }

  lemma {:induction false} TrimStartIs(chars: seq<Blank>, s: Bytes)
    requires BlankLength(s) == 0
    ensures TrimStart(Blanks(chars) + s) == s
    decreases |chars|
  {
    hide EncodeChar, BlankLength, IsWhiteSpace;
    if chars == [] {
      assert [] + s == s;
    } else {
      BlanksFirst(chars);
      var e, rest := EncodeChar(chars[0]), Blanks(chars[1..]) + s;
      TrimStartIs(chars[1..], s);
      BlankLengthIs(chars[0], rest);
      assert Blanks(chars) + s == e + rest && (e + rest)[|e|..] == rest;
    }
  }

  lemma ContinuationIsNoBlank(s: Bytes)
    requires s != [] && IsContinuation(s[0])
    ensures BlankLength(s) == 0
  {
  }

  lemma BlankEndIs(s: Bytes, c: Blank)
    ensures BlankEnd(s + EncodeChar(c)) == |EncodeChar(c)| > 0
  {
    var e := EncodeChar(c);
    var all := s + e;
    BlankIsShort(c);
    BlankLengthIs(c, []);
    assert e + [] == e && all[|all| - |e|..] == e;
    hide EncodeChar, DecodeFirst, CharLength, IsWhiteSpace, BlankLength;
    if |e| > 1 {
      assert all[|all| - 1..][0] == e[|e| - 1];
      ContinuationIsNoBlank(all[|all| - 1..]);
    }
    if |e| > 2 {
      assert all[|all| - 2..][0] == e[|e| - 2];
      ContinuationIsNoBlank(all[|all| - 2..]);
    }
  }

  lemma TrimEndStep(s: Bytes, c: Blank)
    ensures TrimEnd(s + EncodeChar(c)) == TrimEnd(s)
  {
    hide EncodeChar, IsWhiteSpace, BlankEnd;
    BlankEndIs(s, c);
    var e := EncodeChar(c);
    assert (s + e)[..|s + e| - |e|] == s;
  }

  lemma {:induction false} TrimEndIs(s: Bytes, chars: seq<Blank>)
    requires BlankEnd(s) == 0
    ensures TrimEnd(s + Blanks(chars)) == s
    decreases |chars|
  {
    hide EncodeChar, BlankEnd, IsWhiteSpace;
    if chars == [] {
      assert s + [] == s;
    } else {
      var init, last := chars[..|chars| - 1], chars[|chars| - 1];
      TrimEndIs(s, init);
      TrimEndStep(s + Blanks(init), last);
      hide TrimEnd;
      assert s + (Blanks(init) + EncodeChar(last)) == s + Blanks(init) + EncodeChar(last);
    }
  }

  lemma {:induction false} NoColonInBlanks(chars: seq<Blank>)
    ensures COLON !in Blanks(chars)
    decreases |chars|
  {
    if chars == [] {
    } else {
      NoColonInBlanks(chars[..|chars| - 1]);
      BlankIsShort(chars[|chars| - 1]);
    }
  }

  /** The name in any capitalisation, and the colon. */
  predicate IsName(s: Bytes) {
    |s| == |NAME| && forall i | 0 <= i < |s| :: s[i] == NAME[i] || (97 <= NAME[i] <= 122 && s[i] == NAME[i] - 32)
  }

  predicate HasName(line: Bytes) {
    |line| >= |NAME| && IsName(line[..|NAME|])
  }

  /** The code's test finds exactly the lines that start with the name. */
  lemma ContentLengthIsNamed(line: Bytes)
    ensures IsContentLength(line) <==> HasName(line)
  {
    if |line| >= |NAME| {
      assert NAME <= Lower(line) <==> forall i | 0 <= i < |NAME| :: Lower(line)[i] == NAME[i];
      forall i | 0 <= i < |NAME|
        ensures Lower(line)[i] == NAME[i] <==> line[i] == NAME[i] || (97 <= NAME[i] <= 122 && line[i] == NAME[i] - 32)
      {
        assert NAME[i] in NAME && !(65 <= NAME[i] <= 90);
      }
    }
  }

  /** Decimal digits of value n, perhaps behind a plus sign. */
  predicate IsNumeral(s: Bytes, n: nat) {
    var digits := if s != [] && s[0] == PLUS then s[1..] else s;
    digits != [] && IsDigits(digits) && Number(digits) == n
  }

  lemma DecimalIsNumeral(n: nat)
    ensures IsNumeral(Decimal(n), n)
  {
    DecimalParses(n);
  }

  /** A line that states a length, perhaps with white space around it or anything behind a further colon. */
  function LengthLine(name: Bytes, pre: seq<Blank>, numeral: Bytes, post: seq<Blank>, rest: Bytes): Bytes {
    name + (Blanks(pre) + numeral + Blanks(post) + rest)
  }

  lemma NameAndRest(name: Bytes, value: Bytes)
    requires IsName(name)
    ensures IsContentLength(name + value) &&
      FieldValue(name + value) == ParseOrZero(TrimEnd(TrimStart(UpToColon(value))))
  {
    assert (name + value)[..|NAME|] == name && (name + value)[|NAME|..] == value;
    ContentLengthIsNamed(name + value);
    hide ParseOrZero, TrimEnd, TrimStart, UpToColon, IsContentLength;
  }

  lemma NotInAny(x: Bytes, y: Bytes, z: Bytes)
    requires COLON !in x && COLON !in y && COLON !in z
    ensures COLON !in x + y + z
  {
  }

  lemma TrimBothSides(pre: seq<Blank>, s: Bytes, post: seq<Blank>)
    requires BlankLength(s + Blanks(post)) == 0 && BlankEnd(s) == 0
    ensures TrimEnd(TrimStart(Blanks(pre) + s + Blanks(post))) == s
  {
    hide *;
    assert Blanks(pre) + s + Blanks(post) == Blanks(pre) + (s + Blanks(post));
    TrimStartIs(pre, s + Blanks(post));
    TrimEndIs(s, post);
  }

  /** Neither a digit nor a sign is a blank. */
  predicate IsVisible(b: byte) {
    PLUS <= b < COLON
  }

  lemma VisibleStart(s: Bytes)
    requires s != [] && IsVisible(s[0])
    ensures BlankLength(s) == 0
  {
  }

  lemma LongCharacterEnds(s: Bytes)
    requires CharLength(s) == |s| > 1
    ensures IsContinuation(s[|s| - 1])
  {
  }

  lemma VisibleIsNoEnd(s: Bytes, n: nat)
    requires 0 < n <= |s| && IsVisible(s[|s| - 1])
    ensures BlankLength(s[|s| - n..]) != n
  {
    var last := s[|s| - n..];
    assert last[n - 1] == s[|s| - 1];
    if n == 1 {
      VisibleStart(last);
    } else if CharLength(last) == n {
      LongCharacterEnds(last);
    }
  }

  lemma VisibleEnd(s: Bytes)
    requires s != [] && IsVisible(s[|s| - 1])
    ensures BlankEnd(s) == 0
  {
    hide BlankLength;
    VisibleIsNoEnd(s, 1);
    if |s| >= 2 {
      VisibleIsNoEnd(s, 2);
    }
    if |s| >= 3 {
      VisibleIsNoEnd(s, 3);
    }
  }

  lemma NumeralIsVisible(numeral: Bytes, n: nat)
    requires IsNumeral(numeral, n)
    ensures numeral != [] && forall i | 0 <= i < |numeral| :: IsVisible(numeral[i])
  {
    hide Number;
    assert numeral[0] == PLUS ==> forall i | 0 < i < |numeral| :: numeral[i] == numeral[1..][i - 1];
  }

  lemma NumeralIsNoBlank(numeral: Bytes, n: nat, rest: Bytes)
    requires IsNumeral(numeral, n)
    ensures BlankLength(numeral + rest) == 0 && BlankEnd(numeral) == 0 && COLON !in numeral
    ensures n < USIZE_LIMIT ==> ParseOrZero(numeral) == n
  {
    NumeralIsVisible(numeral, n);
    assert (numeral + rest)[0] == numeral[0];
    hide BlankLength, BlankEnd;
    VisibleStart(numeral + rest);
    VisibleEnd(numeral);
  }

  lemma TrimmedIs(pre: seq<Blank>, numeral: Bytes, n: nat, post: seq<Blank>)
    requires IsNumeral(numeral, n)
    ensures COLON !in Blanks(pre) + numeral + Blanks(post)
    ensures TrimEnd(TrimStart(Blanks(pre) + numeral + Blanks(post))) == numeral
  {
    NumeralIsNoBlank(numeral, n, Blanks(post));
    NoColonInBlanks(pre);
    NoColonInBlanks(post);
    hide *;
    NotInAny(Blanks(pre), numeral, Blanks(post));
    TrimBothSides(pre, numeral, post);
  }

  /** Such a line, in any capitalisation of the name, yields that length. */
  lemma ContentLengthRoundTrip(name: Bytes, pre: seq<Blank>, numeral: Bytes, n: nat, post: seq<Blank>, rest: Bytes)
    requires IsName(name) && IsNumeral(numeral, n) && (rest == [] || rest[0] == COLON) && n < USIZE_LIMIT
    ensures var line := LengthLine(name, pre, numeral, post, rest); IsContentLength(line) && FieldValue(line) == n
  {
    var text := Blanks(pre) + numeral + Blanks(post);
    NumeralIsNoBlank(numeral, n, []);
    NameAndRest(name, text + rest);
    assert LengthLine(name, pre, numeral, post, rest) == name + (text + rest);
    hide *;
    TrimmedIs(pre, numeral, n, post);
    UpToColonIs(text, rest);
  }

  ghost predicate IsLengthLine(line: Bytes, n: nat) {
    exists name, pre, numeral, post, rest ::
      line == LengthLine(name, pre, numeral, post, rest) && IsName(name) && IsNumeral(numeral, n) &&
      (rest == [] || rest[0] == COLON)
  }

  lemma LengthLineIs(name: Bytes, pre: seq<Blank>, numeral: Bytes, n: nat, post: seq<Blank>, rest: Bytes)
    requires IsName(name) && IsNumeral(numeral, n) && (rest == [] || rest[0] == COLON)
    ensures IsLengthLine(name + (Blanks(pre) + numeral + Blanks(post) + rest), n)
  {
    hide IsName, IsNumeral, Blanks;
    assert name + (Blanks(pre) + numeral + Blanks(post) + rest) == LengthLine(name, pre, numeral, post, rest);
  }

  lemma LengthLineReads(line: Bytes, n: nat)
    requires IsLengthLine(line, n) && n < USIZE_LIMIT
    ensures IsContentLength(line) && FieldValue(line) == n
  {
    hide IsContentLength, LengthLine, IsName, IsNumeral;
    var name, pre, numeral, post, rest :|
      line == LengthLine(name, pre, numeral, post, rest) && IsName(name) && IsNumeral(numeral, n) &&
      (rest == [] || rest[0] == COLON);
    ContentLengthRoundTrip(name, pre, numeral, n, post, rest);
  }

  // ---- What is read as a length ------------------------------------------------------

  lemma {:induction false} UpToColonSplits(s: Bytes) returns (rest: Bytes)
    ensures s == UpToColon(s) + rest && (rest == [] || rest[0] == COLON)
  {
    if s == [] || s[0] == COLON {
      rest := s;
    } else {
      rest := UpToColonSplits(s[1..]);
      assert s == [s[0]] + s[1..];
    }
  }

  /** A white-space character that is cut off is the encoding of a blank. */
  lemma BlankIsEncoding(s: Bytes) returns (c: Blank)
    requires BlankLength(s) > 0
    ensures EncodeChar(c) == s[..BlankLength(s)]
  {
    CharIsEncoding(s);
    WhiteSpaceIs(DecodeFirst(s));
    hide CharLength, DecodeFirst, EncodeChar, IsWhiteSpace;
    c := DecodeFirst(s);
  }

  lemma FirstBlank(s: Bytes) returns (c: Blank, rest: Bytes)
    requires BlankLength(s) > 0
    ensures s == EncodeChar(c) + rest && |rest| < |s| && TrimStart(s) == TrimStart(rest)
  {
    c := BlankIsEncoding(s);
    rest := s[BlankLength(s)..];
    hide EncodeChar, BlankLength;
  }

  lemma LastBlank(s: Bytes) returns (init: Bytes, c: Blank)
    requires BlankEnd(s) > 0
    ensures s == init + EncodeChar(c) && |init| < |s| && TrimEnd(s) == TrimEnd(init)
  {
    var last := s[|s| - BlankEnd(s)..];
    init := s[..|s| - BlankEnd(s)];
    assert BlankLength(last) == BlankEnd(s) == |last|;
    hide EncodeChar, BlankLength, BlankEnd;
    assert last[..|last|] == last && s == init + last;
    c := BlankIsEncoding(last);
  }

  lemma BlanksWithFirst(c: Blank, chars: seq<Blank>)
    ensures Blanks([c] + chars) == EncodeChar(c) + Blanks(chars)
  {
    BlanksFirst([c] + chars);
    hide Blanks, EncodeChar;
    assert ([c] + chars)[1..] == chars;
  }

  lemma BlanksWithLast(chars: seq<Blank>, c: Blank)
    ensures Blanks(chars + [c]) == Blanks(chars) + EncodeChar(c)
  {
    hide EncodeChar;
    assert (chars + [c])[..|chars|] == chars;
  }

  lemma {:induction false} TrimStartCutsBlanks(s: Bytes) returns (pre: seq<Blank>)
    ensures s == Blanks(pre) + TrimStart(s)
    decreases |s|
  {
    hide EncodeChar, BlankLength;
    if BlankLength(s) == 0 {
      pre := [];
    } else {
      var c, rest := FirstBlank(s);
      pre := TrimStartCutsBlanks(rest);
      BlanksWithFirst(c, pre);
      hide Blanks, TrimStart;
      Associate(EncodeChar(c), Blanks(pre), TrimStart(rest));
      pre := [c] + pre;
    }
  }

  lemma {:induction false} TrimEndCutsBlanks(s: Bytes) returns (post: seq<Blank>)
    ensures s == TrimEnd(s) + Blanks(post)
    decreases |s|
  {
    hide EncodeChar, BlankEnd;
    if BlankEnd(s) == 0 {
      post := [];
    } else {
      var init, c := LastBlank(s);
      post := TrimEndCutsBlanks(init);
      BlanksWithLast(post, c);
      hide Blanks, TrimEnd;
      Associate(TrimEnd(init), Blanks(post), EncodeChar(c));
      post := post + [c];
    }
  }

  /** Where a length other than 0 is read, it is written. */
  lemma LengthIsWritten(line: Bytes)
    requires IsContentLength(line) && FieldValue(line) > 0
    ensures FieldValue(line) < USIZE_LIMIT && IsLengthLine(line, FieldValue(line))
  {
    var name, value, n := line[..|NAME|], line[|NAME|..], FieldValue(line);
    var text, inner, numeral := UpToColon(value), TrimStart(UpToColon(value)), TrimEnd(TrimStart(UpToColon(value)));
    ContentLengthIsNamed(line);
    assert IsNumeral(numeral, n) && n < USIZE_LIMIT && line == name + value && IsName(name);
    var rest := UpToColonSplits(value);
    var pre := TrimStartCutsBlanks(text);
    var post := TrimEndCutsBlanks(inner);
    hide *;
    Associate(Blanks(pre), numeral, Blanks(post));
    LengthLineIs(name, pre, numeral, n, post, rest);
  }

  /** A field says a length other than 0 exactly if it is written as one that fits. */
  lemma FieldValueIff(line: Bytes, n: nat)
    requires IsContentLength(line) && n > 0
    ensures FieldValue(line) == n <==> n < USIZE_LIMIT && IsLengthLine(line, n)
  {
    hide FieldValue, IsLengthLine, IsContentLength;
    if FieldValue(line) == n {
      LengthIsWritten(line);
    }
    if n < USIZE_LIMIT && IsLengthLine(line, n) {
      LengthLineReads(line, n);
    }
  }

  // ---- Requests ----------------------------------------------------------------------

  /** A request whose headers end where they seem to and state the length of its body. */
  ghost predicate IsRequest(head: Bytes, body: Bytes) {
    HeaderEnd(head + CRLF2) == Some(|head|) && ContentLength(head) == |body|
  }

  /** A request line and header fields: none is empty or broken. */
  ghost predicate IsBlock(lines: seq<Bytes>) {
    lines != [] && forall line | line in lines :: line != [] && CR !in line && LF !in line
  }

  /** The lines as they are sent. */
  function JoinLines(lines: seq<Bytes>): Bytes
    requires lines != []
  {
    if |lines| == 1 then lines[0] else lines[0] + [CR, LF] + JoinLines(lines[1..])
  }

  /** The first Content-Length line, of however many, states n; or there is none, and n is 0. */
  ghost predicate States(lines: seq<Bytes>, n: nat) {
    (n == 0 && forall line | line in lines :: !HasName(line)) ||
    exists i :: 0 <= i < |lines| && IsLengthLine(lines[i], n) && forall j | 0 <= j < i :: !HasName(lines[j])
  }

  lemma {:induction false} FirstLengthDecides(lines: seq<Bytes>, n: nat)
    requires States(lines, n) && n < USIZE_LIMIT
    ensures ContentLengthOf(lines) == n
  {
    hide IsContentLength, FieldValue, IsLengthLine, HasName;
    if lines == [] {
    } else {
      ContentLengthIsNamed(lines[0]);
      var more := lines[1..];
      if HasName(lines[0]) {
        assert lines[0] in lines;
        LengthLineReads(lines[0], n);
      } else {
        if i :| 0 <= i < |lines| && IsLengthLine(lines[i], n) && forall j | 0 <= j < i :: !HasName(lines[j]) {
          LengthLineReads(lines[i], n);
          assert more[i - 1] == lines[i] && forall j | 0 <= j < i - 1 :: more[j] == lines[j + 1];
        }
        FirstLengthDecides(more, n);
      }
    }
  }

  lemma BlockTail(lines: seq<Bytes>)
    requires IsBlock(lines) && |lines| > 1
    ensures IsBlock(lines[1..]) && JoinLines(lines) == lines[0] + [CR, LF] + JoinLines(lines[1..])
  {
    assert forall line | line in lines[1..] :: line in lines;
  }

  lemma {:induction false} LinesOfBlock(lines: seq<Bytes>)
    requires IsBlock(lines)
    ensures Lines(JoinLines(lines)) == lines
  {
    assert lines[0] in lines && lines == [lines[0]] + lines[1..];
    hide Lines;
    if |lines| == 1 {
      FirstLine(lines[0], []);
    } else {
      BlockTail(lines);
      hide JoinLines;
      LinesOfBlock(lines[1..]);
      FirstCrLfLine(lines[0], JoinLines(lines[1..]));
    }
  }

  lemma BlockStart(lines: seq<Bytes>)
    requires IsBlock(lines)
    ensures JoinLines(lines) != [] && JoinLines(lines)[0] != CR
  {
    assert lines[0] in lines;
  }

  /** A line without a break, before whatever does not start with one, adds no blank line. */
  lemma NoBlankLineBefore(line: Bytes, more: Bytes, j: nat)
    requires CR !in line && more != [] && more[0] != CR
    ensures var all := line + [CR, LF] + more;
            j < |line| + 2 ==> !IsBlankLineAt(all, j)
    ensures j >= |line| + 2 ==> (IsBlankLineAt(line + [CR, LF] + more, j) <==> IsBlankLineAt(more, j - |line| - 2))
  {
    var all, n := line + [CR, LF] + more, |line| + 2;
    assert forall i | 0 <= i < |line| :: all[i] == line[i] != CR;
    assert all[|line| + 1] == LF && all[n] == more[0] && all[n..] == more;
    if j + 4 <= |all| {
      assert all[j..j + 4][0] == all[j] && all[j..j + 4][2] == all[j + 2];
      assert j >= n ==> all[j..j + 4] == more[j - n..j - n + 4];
    }
  }

  /** No line break within the block is followed by another. */
  lemma {:induction false} BlockHasNoBlankLine(lines: seq<Bytes>, j: nat)
    requires IsBlock(lines) && j < |JoinLines(lines)|
    ensures !IsBlankLineAt(JoinLines(lines) + CRLF2, j)
    decreases |lines|
  {
    var line := lines[0];
    assert line in lines;
    if |lines| == 1 {
      assert (line + CRLF2)[j] == line[j];
    } else {
      var more := JoinLines(lines[1..]);
      BlockTail(lines);
      BlockStart(lines[1..]);
      hide JoinLines, IsBlankLineAt;
      assert line + [CR, LF] + more + CRLF2 == line + [CR, LF] + (more + CRLF2);
      NoBlankLineBefore(line, more + CRLF2, j);
      if j >= |line| + 2 {
        BlockHasNoBlankLine(lines[1..], j - |line| - 2);
      }
    }
  }

  lemma BlockIsRequest(lines: seq<Bytes>, body: Bytes)
    requires IsBlock(lines) && States(lines, |body|) && |body| < USIZE_LIMIT
    ensures IsRequest(JoinLines(lines), body)
  {
    var head := JoinLines(lines);
    LinesOfBlock(lines);
    FirstLengthDecides(lines, |body|);
    hide JoinLines, ContentLengthOf, Lines, States, IsBlock;
    forall j | 0 <= j < |head|
      ensures !IsBlankLineAt(head + CRLF2, j)
    {
      BlockHasNoBlankLine(lines, j);
    }
    HeaderEndIs(head + CRLF2, 0, |head|);
  }

  // ---- The read loop -----------------------------------------------------------------

  /** The headers have ended and at least the stated number of bytes has followed. */
  predicate IsComplete(raw: Bytes) {
    var end := HeaderEnd(raw);
    end.Some? && end.value + 4 <= |raw| && |raw| - (end.value + 4) >= ContentLength(raw[..end.value])
  }

  predicate IsCompleteAt(chunks: seq<Bytes>, j: nat) {
    j <= |chunks| && IsComplete(Flatten(chunks[..j]))
  }

  /** The loop's outcome: it stopped after `used` chunks, at the first complete one, or because the input did. */
  ghost predicate IsReadOf(chunks: seq<Bytes>, raw: Bytes, used: nat) {
    used <= |chunks| && raw == Flatten(chunks[..used]) &&
    (forall j | 0 <= j < used :: chunks[j] != []) &&
    (forall j | 0 < j < used :: !IsCompleteAt(chunks, j)) &&
    ((used > 0 && IsCompleteAt(chunks, used)) || used == |chunks| || chunks[used] == [])
  }

  lemma CompleteIs(raw: Bytes)
    ensures var end := HeaderEnd(raw);
            IsComplete(raw) <==>
            end.Some? && end.value + 4 <= |raw| && |raw| - (end.value + 4) >= ContentLength(raw[..end.value])
  {
  }

  lemma FlattenNext(chunks: seq<Bytes>, i: nat)
    requires i < |chunks|
    ensures Flatten(chunks[..i + 1]) == Flatten(chunks[..i]) + chunks[i]
  {
    FlattenLast(chunks[..i], chunks[i]);
    assert chunks[..i + 1] == chunks[..i] + [chunks[i]];
  }

  /** The loop has taken i chunks, and has had no reason to stop. */
  ghost predicate IsReading(chunks: seq<Bytes>, i: nat) {
    i <= |chunks| && (forall j | 0 <= j < i :: chunks[j] != []) && forall j | 0 < j <= i :: !IsCompleteAt(chunks, j)
  }

  lemma ReadingGoesOn(chunks: seq<Bytes>, i: nat)
    requires IsReading(chunks, i) && i < |chunks| && chunks[i] != []
    ensures if IsComplete(Flatten(chunks[..i + 1])) then IsReadOf(chunks, Flatten(chunks[..i + 1]), i + 1)
            else IsReading(chunks, i + 1)
  {
    hide IsComplete;
  }

  lemma ReadingEnds(chunks: seq<Bytes>, i: nat)
    requires IsReading(chunks, i) && (i == |chunks| || chunks[i] == [])
    ensures IsReadOf(chunks, Flatten(chunks[..i]), i)
  {
    hide IsComplete;
  }

  lemma ReadingStarts(chunks: seq<Bytes>)
    ensures IsReading(chunks, 0) && Flatten(chunks[..0]) == []
  {
  }

  /** An empty chunk stands for the end of the stream, a timeout or an error. */
  method ReadRequest(chunks: seq<Bytes>) returns (raw: Bytes, used: nat)
    ensures IsReadOf(chunks, raw, used)
  {
    hide *;
    raw := [];
    used := 0;
    ReadingStarts(chunks);
    for i := 0 to |chunks|
      invariant used == i && raw == Flatten(chunks[..i]) && IsReading(chunks, i)
    {
      if chunks[i] == [] {
        ReadingEnds(chunks, i);
        return;
      }
      FlattenNext(chunks, i);
      ReadingGoesOn(chunks, i);
      raw := raw + chunks[i];
      used := i + 1;
      CompleteIs(raw);
      var headerEnd := FindHeaderEnd(raw);
      if headerEnd.Some? {
        var contentLength := ParseContentLength(raw[..headerEnd.value]);
        var bodyStart := headerEnd.value + 4;
        var bodyReceived := |raw| - bodyStart;
        if bodyReceived >= contentLength {
          return;
        }
      }
    }
    ReadingEnds(chunks, |chunks|);
  }

  /** Everything after the blank line, as the handler takes it. */
  function Body(raw: Bytes): Bytes {
    var end := HeaderEnd(raw);
    if end.Some? && end.value + 4 < |raw| then raw[end.value + 4..] else []
  }

  /** A part of the input is complete exactly when the whole request is in it. */
  lemma CompleteWhenAllArrived(head: Bytes, body: Bytes, extra: Bytes, n: nat)
    requires IsRequest(head, body) && n <= |head| + 4 + |body| + |extra|
    ensures IsComplete((head + CRLF2 + body + extra)[..n]) <==> n >= |head| + 4 + |body|
    ensures n >= |head| + 4 + |body| ==>
            Body((head + CRLF2 + body + extra)[..n]) == body + extra[..n - (|head| + 4 + |body|)]
  {
    var tail := body + extra;
    var raw := (head + CRLF2 + tail)[..n];
    assert head + CRLF2 + body + extra == head + CRLF2 + tail;
    HeaderEndIsStable(head, tail, n);
    if n >= |head| + 4 {
      assert raw[..|head|] == head;
      if n >= |head| + 4 + |body| {
        assert raw[|head| + 4..] == body + extra[..n - (|head| + 4 + |body|)];
      }
    }
  }

  lemma FlattenPrefix(chunks: seq<Bytes>, j: nat)
    requires j <= |chunks|
    ensures Flatten(chunks[..j]) <= Flatten(chunks)
    ensures j < |chunks| && chunks[|chunks| - 1] != [] ==> |Flatten(chunks[..j])| < |Flatten(chunks)|
  {
    var before, behind := chunks[..j], chunks[j..];
    FlattenConcat(before, behind);
    assert chunks == before + behind;
    if behind != [] {
      var n := |behind| - 1;
      FlattenLast(behind[..n], behind[n]);
      assert behind == behind[..n] + [behind[n]];
    }
  }

  /** The loop stops at the first chunk boundary at or past the end of the request. */
  lemma StopsOnceArrived(head: Bytes, body: Bytes, extra: Bytes, chunks: seq<Bytes>, raw: Bytes, used: nat)
    requires IsRequest(head, body) && Flatten(chunks) == head + CRLF2 + body + extra
    requires (forall c | c in chunks :: c != []) && IsReadOf(chunks, raw, used)
    ensures |head| + 4 + |body| <= |raw| <= |Flatten(chunks)| && (used < |chunks| ==> |raw| < |Flatten(chunks)|)
    ensures Body(raw) == body + extra[..|raw| - (|head| + 4 + |body|)]
    ensures forall j | 0 < j < used :: |Flatten(chunks[..j])| < |head| + 4 + |body|
  {
    hide IsComplete, Body, IsRequest, Flatten;
    var input := head + CRLF2 + body + extra;
    assert used < |chunks| ==> chunks[used] in chunks && chunks[|chunks| - 1] in chunks;
    FlattenPrefix(chunks, used);
    assert raw == input[..|raw|];
    CompleteWhenAllArrived(head, body, extra, |raw|);
    assert chunks[..|chunks|] == chunks;
    forall j | 0 < j < used
      ensures |Flatten(chunks[..j])| < |head| + 4 + |body|
    {
      FlattenPrefix(chunks, j);
      var n := |Flatten(chunks[..j])|;
      assert Flatten(chunks[..j]) == input[..n];
      CompleteWhenAllArrived(head, body, extra, n);
      assert !IsCompleteAt(chunks, j);
    }
  }

  /** However a request is cut into chunks, the loop stops when the last has arrived, with exactly its body. */
  lemma RequestIsRead(head: Bytes, body: Bytes, chunks: seq<Bytes>, raw: Bytes, used: nat)
    requires IsRequest(head, body) && Flatten(chunks) == head + CRLF2 + body
    requires (forall c | c in chunks :: c != []) && IsReadOf(chunks, raw, used)
    ensures used == |chunks| && raw == Flatten(chunks) && Body(raw) == body
  {
    hide IsComplete, Body, IsRequest, Flatten;
    assert head + CRLF2 + body + [] == head + CRLF2 + body;
    StopsOnceArrived(head, body, [], chunks, raw, used);
    assert chunks[..|chunks|] == chunks && body + [] == body;
  }

  /**
   However a request is cut whose lines state the length of its body, the loop stops when the last chunk has
   arrived, with exactly that body.
   */
  lemma ChunkingDoesNotMatter(lines: seq<Bytes>, body: Bytes, chunks: seq<Bytes>, raw: Bytes, used: nat)
    requires IsBlock(lines) && States(lines, |body|) && |body| < USIZE_LIMIT
    requires Flatten(chunks) == JoinLines(lines) + CRLF2 + body
    requires (forall c | c in chunks :: c != []) && IsReadOf(chunks, raw, used)
    ensures used == |chunks| && raw == Flatten(chunks) && Body(raw) == body
  {
    BlockIsRequest(lines, body);
    RequestIsRead(JoinLines(lines), body, chunks, raw, used);
  }

  /** With more bytes behind the request, the body comes out right exactly when some chunk ends with the request. */
  lemma BodyIsExactAtChunkBoundary(head: Bytes, body: Bytes, extra: Bytes, chunks: seq<Bytes>, raw: Bytes, used: nat)
    requires IsRequest(head, body) && Flatten(chunks) == head + CRLF2 + body + extra
    requires (forall c | c in chunks :: c != []) && IsReadOf(chunks, raw, used)
    ensures Body(raw) == body <==> exists j :: 0 < j <= |chunks| && |Flatten(chunks[..j])| == |head| + 4 + |body|
    ensures body <= Body(raw)
  {
    hide IsComplete, Body, IsRequest;
    var size := |head| + 4 + |body|;
    StopsOnceArrived(head, body, extra, chunks, raw, used);
    assert |Body(raw)| == |body| + (|raw| - size);
    assert Body(raw) == body ==> |Flatten(chunks[..used])| == size;
    forall j | 0 < j <= |chunks| && |Flatten(chunks[..j])| == size
      ensures Body(raw) == body
    {
      assert used <= j;
      FlattenPrefix(chunks[..j], used);
      assert chunks[..j][..used] == chunks[..used];
      assert extra[..0] == [] && body + [] == body;
    }
  }

  lemma OneLine(line: Bytes)
    ensures JoinLines([line]) == line
  {
  }

  lemma OneByteRequest(head: Bytes, body: Bytes)
    requires |body| == 1 && head == NAME + [ZERO + 1]
    ensures IsRequest(head, body)
  {
    DecimalIsNumeral(1);
    assert head == NAME + (Blanks([]) + Decimal(1) + Blanks([]) + []) && IsName(NAME);
    LengthLineIs(NAME, [], Decimal(1), 1, [], []);
    assert CR !in head && LF !in head && [head][0] == head;
    OneLine(head);
    hide IsLengthLine, HasName, JoinLines, IsRequest;
    assert IsLengthLine(head, 1);
    assert IsBlock([head]) && States([head], 1);
    BlockIsRequest([head], body);
  }

  /** For instance a request of one byte with others behind it: in one chunk, they all end up in the body. */
  lemma ExtraJoinsBody(body: Bytes, extra: Bytes)
    requires |body| == 1 && extra != []
    ensures var head := NAME + [ZERO + 1];
            var all := head + CRLF2 + body + extra;
            IsRequest(head, body) && IsReadOf([all], all, 1) && Body(all) == body + extra != body
  {
    var head := NAME + [ZERO + 1];
    var all := head + CRLF2 + body + extra;
    OneByteRequest(head, body);
    CompleteWhenAllArrived(head, body, extra, |all|);
    assert all[..|all|] == all && extra[..|extra|] == extra;
    hide IsComplete, Body, IsRequest;
    assert [all][..1] == [all] && Flatten([all][..0]) == [] && Flatten([all]) == [] + all == all;
  }
}
