/** Bytes, UTF-8 validity (section 3 of RFC 3629), and splitting text into lines as Rust's `str::lines` does. */
module Bytes {

  newtype byte = b: int | 0 <= b < 256

  type Bytes = seq<byte>

  const LF: byte := 10
  const CR: byte := 13

  lemma Associate(x: Bytes, y: Bytes, z: Bytes)
    ensures (x + y) + z == x + (y + z)
  {
  }

  function Flatten(s: seq<Bytes>): Bytes {
    if s == [] then [] else s[0] + Flatten(s[1..])
  }

  lemma {:induction false} FlattenConcat(x: seq<Bytes>, y: seq<Bytes>)
    ensures Flatten(x + y) == Flatten(x) + Flatten(y)
  {
    if x == [] {
      assert x + y == y;
    } else {
      assert (x + y)[1..] == x[1..] + y;
      assert Flatten(x + y) == x[0] + Flatten(x[1..] + y) && Flatten(x) == x[0] + Flatten(x[1..]);
      hide Flatten;
      FlattenConcat(x[1..], y);
      Associate(x[0], Flatten(x[1..]), Flatten(y));
    }
  }

  lemma FlattenLast(s: seq<Bytes>, last: Bytes)
    ensures Flatten(s + [last]) == Flatten(s) + last
  {
    assert [last][1..] == [] && Flatten([]) == [] && last + [] == last;
    FlattenConcat(s, [last]);
  }

  predicate IsContinuation(b: byte) {
    0x80 <= b <= 0xBF
  }

  /** The number of bytes of the character s starts with, or 0 if it starts with none. */
  function CharLength(s: Bytes): (n: nat)
    ensures n <= |s| && n <= 4
  {
    if s == [] then 0
    else if s[0] < 0x80 then 1
    else if |s| < 2 || !IsContinuation(s[1]) then 0
    else if 0xC2 <= s[0] <= 0xDF then 2
    else if |s| < 3 || !IsContinuation(s[2]) then 0
    else if 0xE0 <= s[0] <= 0xEF && !(s[0] == 0xE0 && s[1] < 0xA0) && !(s[0] == 0xED && s[1] > 0x9F) then 3
    else if |s| < 4 || !IsContinuation(s[3]) then 0
    else if 0xF0 <= s[0] <= 0xF4 && !(s[0] == 0xF0 && s[1] < 0x90) && !(s[0] == 0xF4 && s[1] > 0x8F) then 4
    else 0
  }

  predicate IsUtf8(s: Bytes) {
    s == [] || (0 < CharLength(s) <= |s| && IsUtf8(s[CharLength(s)..]))
  }

  /** A Unicode scalar value: a code point that is no surrogate. */
  predicate IsScalar(c: nat) {
    c < 0xD800 || 0xE000 <= c < 0x11_0000
  }

  /** A continuation byte carries six bits. */
  function Continuation(bits: nat): byte
    requires bits < 64
  {
    (0x80 + bits) as byte
  }

  function EncodeChar(c: nat): Bytes
    requires IsScalar(c)
  {
    var low, mid, high := c / 64, c / 64 / 64, c / 64 / 64 / 64;
    if c < 0x80 then [c as byte]
    else if c < 0x800 then [(0xC0 + low) as byte, Continuation(c % 64)]
    else if c < 0x1_0000 then [(0xE0 + mid) as byte, Continuation(low % 64), Continuation(c % 64)]
    else [(0xF0 + high) as byte, Continuation(mid % 64), Continuation(low % 64), Continuation(c % 64)]
  }

  function Bits(b: byte): nat
    requires b >= 0x80
  {
    b as nat - 0x80
  }

  function DecodeFirst(s: Bytes): nat
    requires CharLength(s) > 0
  {
    var n := CharLength(s);
    if n == 1 then s[0] as nat
    else if n == 2 then (s[0] as nat - 0xC0) * 64 + Bits(s[1])
    else if n == 3 then ((s[0] as nat - 0xE0) * 64 + Bits(s[1])) * 64 + Bits(s[2])
    else (((s[0] as nat - 0xF0) * 64 + Bits(s[1])) * 64 + Bits(s[2])) * 64 + Bits(s[3])
  }

  lemma SplitBits(high: nat, low: nat)
    requires low < 64
    ensures (high * 64 + low) / 64 == high && (high * 64 + low) % 64 == low
  {
  }

  lemma JoinBits(c: nat)
    ensures c == c / 64 * 64 + c % 64
  {
  }

  lemma TwoBytes(s: Bytes)
    requires CharLength(s) == 2
    ensures 0x80 <= DecodeFirst(s) < 0x800 && EncodeChar(DecodeFirst(s)) == [s[0], s[1]]
  {
    SplitBits(s[0] as nat - 0xC0, Bits(s[1]));
  }

  lemma ThreeBytes(s: Bytes)
    requires CharLength(s) == 3
    ensures IsScalar(DecodeFirst(s)) && EncodeChar(DecodeFirst(s)) == [s[0], s[1], s[2]]
  {
    var high := s[0] as nat - 0xE0;
    SplitBits(high, Bits(s[1]));
    SplitBits(high * 64 + Bits(s[1]), Bits(s[2]));
  }

  lemma FourBytes(s: Bytes)
    requires CharLength(s) == 4
    ensures IsScalar(DecodeFirst(s)) && EncodeChar(DecodeFirst(s)) == [s[0], s[1], s[2], s[3]]
  {
    var high := s[0] as nat - 0xF0;
    SplitBits(high, Bits(s[1]));
    SplitBits(high * 64 + Bits(s[1]), Bits(s[2]));
    SplitBits((high * 64 + Bits(s[1])) * 64 + Bits(s[2]), Bits(s[3]));
  }

  /** What is taken as a character is the encoding of one. */
  lemma CharIsEncoding(s: Bytes)
    requires CharLength(s) > 0
    ensures CharLength(s) <= |s| && IsScalar(DecodeFirst(s)) && EncodeChar(DecodeFirst(s)) == s[..CharLength(s)]
  {
    var n := CharLength(s);
    if n == 1 {
      assert s[0] < 0x80 && s[..1] == [s[0]];
    } else {
      hide CharLength, DecodeFirst, EncodeChar;
      if n == 2 {
        TwoBytes(s);
      } else if n == 3 {
        ThreeBytes(s);
      } else {
        FourBytes(s);
      }
    }
  }

  /** Every encoding is taken as a character. */
  lemma EncodingIsChar(c: nat)
    requires IsScalar(c)
    ensures CharLength(EncodeChar(c)) == |EncodeChar(c)| && DecodeFirst(EncodeChar(c)) == c
  {
    JoinBits(c);
    JoinBits(c / 64);
    JoinBits(c / 64 / 64);
  }

  lemma CharNeedsAll(s: Bytes, n: nat)
    requires CharLength(s) == |s| && n < |s|
    ensures CharLength(s[..n]) == 0
  {
  }

  /** Nothing short of all of an encoding is text. */
  lemma PartOfEncoding(c: nat, n: nat)
    requires IsScalar(c) && n <= |EncodeChar(c)|
    ensures IsUtf8(EncodeChar(c)[..n]) <==> n == 0 || n == |EncodeChar(c)|
  {
    var s := EncodeChar(c);
    EncodingIsChar(c);
    hide EncodeChar;
    assert s[..|s|] == s && s[|s|..] == [];
    if n < |s| {
      CharNeedsAll(s, n);
    }
  }

  /** A part of an encoding followed by anything but a continuation byte is no character. */
  lemma PartIsNoChar(c: nat, n: nat, rest: Bytes)
    requires IsScalar(c) && 0 < n < |EncodeChar(c)| && (rest == [] || !IsContinuation(rest[0]))
    ensures CharLength(EncodeChar(c)[..n] + rest) == 0
  {
    EncodingIsChar(c);
    var s := EncodeChar(c);
    hide EncodeChar;
    var part := s[..n] + rest;
    assert part[0] == s[0] && |s| > 1;
    assert forall i | 0 <= i < n :: part[i] == s[i];
    assert rest != [] ==> part[n] == rest[0];
  }

  /** Text does not start in the middle of a character. */
  lemma TextStartsCharacter(s: Bytes)
    requires IsUtf8(s) && s != []
    ensures !IsContinuation(s[0])
  {
  }

  lemma CharBeforeLf(line: Bytes, rest: Bytes)
    requires LF !in line && line != []
    ensures CharLength(line + [LF] + rest) == CharLength(line) <= |line|
  {
    var all := line + [LF] + rest;
    assert all[|line|] == LF && forall i | 0 <= i < |line| :: all[i] == line[i];
  }

  /** A line feed is a character of its own, so a line and what follows it are judged apart. */
  lemma {:induction false} LineDecidesUtf8(line: Bytes, rest: Bytes)
    requires LF !in line
    ensures IsUtf8(line + [LF] + rest) <==> IsUtf8(line) && IsUtf8(rest)
    decreases |line|
  {
    var all := line + [LF] + rest;
    if line == [] {
      assert all == [LF] + rest && all[1..] == rest;
    } else {
      var n := CharLength(line);
      CharBeforeLf(line, rest);
      if n > 0 {
        assert all[n..] == line[n..] + [LF] + rest;
        LineDecidesUtf8(line[n..], rest);
      }
    }
  }

  /** After valid text, only what follows decides. */
  lemma {:induction false} Utf8Concat(x: Bytes, y: Bytes)
    requires IsUtf8(x)
    ensures IsUtf8(x + y) <==> IsUtf8(y)
    decreases |x|
  {
    if x == [] {
      assert x + y == y;
    } else {
      var n := CharLength(x);
      assert CharLength(x + y) == n;
      assert (x + y)[n..] == x[n..] + y;
      Utf8Concat(x[n..], y);
    }
  }

  lemma Slices(s: Bytes, m: nat, n: nat)
    requires m <= n <= |s|
    ensures s[..n][m..] == s[m..][..n - m] && s[..n] == s[..m] + s[m..][..n - m]
  {
  }

  lemma CharStands(s: Bytes, t: Bytes, m: nat)
    requires 0 < m == CharLength(s) <= |s| && m <= |t| && t[..m] == s[..m]
    ensures CharLength(t) == m
  {
    assert forall i | 0 <= i < m :: t[i] == t[..m][i] == s[..m][i] == s[i];
  }

  lemma CutBehindFirst(text: Bytes, cut: Bytes)
    requires 0 < CharLength(text) <= |text| && CharLength(text) <= |cut| &&
      cut[..CharLength(text)] == text[..CharLength(text)]
    ensures IsUtf8(cut) <==> IsUtf8(cut[CharLength(text)..])
  {
    CharStands(text, cut, CharLength(text));
  }

  lemma CutRest(text: Bytes, n: nat)
    requires 0 < CharLength(text) <= n <= |text|
    ensures IsUtf8(text[..n]) <==> IsUtf8(text[CharLength(text)..][..n - CharLength(text)])
  {
    hide CharLength;
    Slices(text, CharLength(text), n);
    CutBehindFirst(text, text[..n]);
  }

  lemma CutWhole(text: Bytes, n: nat, whole: Bytes, part: Bytes)
    requires 0 < CharLength(text) <= n <= |text| && IsUtf8(whole)
    requires text[CharLength(text)..][..n - CharLength(text)] == whole + part
    ensures IsUtf8(text[..CharLength(text)] + whole) && text[..n] == text[..CharLength(text)] + whole + part
  {
    hide CharLength;
    var head := text[..CharLength(text)];
    Slices(text, |head|, n);
    CutBehindFirst(text, head + whole);
    assert (head + whole)[|head|..] == whole;
    assert head + (whole + part) == head + whole + part;
  }

  lemma NothingIsText()
    ensures IsUtf8([])
  {
  }

  lemma FirstCharacter(text: Bytes, n: nat)
    requires IsUtf8(text) && n <= |text| && !IsUtf8(text[..n])
    ensures 0 < n && 0 < CharLength(text) <= |text| && IsUtf8(text[CharLength(text)..])
    ensures var c := DecodeFirst(text);
            IsScalar(c) && |EncodeChar(c)| == CharLength(text) &&
              (n <= CharLength(text) ==> EncodeChar(c)[..n] == text[..n])
  {
    assert text[..0] == [];
    CharIsEncoding(text);
    hide CharLength, EncodeChar, DecodeFirst, IsScalar;
  }

  /** Text cut off where it is no text is whole characters and a part of one. */
  lemma {:induction false} CutInsideCharacter(text: Bytes, n: nat) returns (whole: Bytes, char_: nat, k: nat)
    requires IsUtf8(text) && n <= |text| && !IsUtf8(text[..n])
    ensures IsUtf8(whole) && IsScalar(char_) && 0 < k < |EncodeChar(char_)| &&
      text[..n] == whole + EncodeChar(char_)[..k]
    decreases |text|
  {
    hide *;
    FirstCharacter(text, n);
    var m := CharLength(text);
    if n < m {
      whole, char_, k := [], DecodeFirst(text), n;
      assert IsUtf8(whole) by {
        NothingIsText();
      }
    } else {
      var rest := text[m..];
      CutRest(text, n);
      whole, char_, k := CutInsideCharacter(rest, n - m);
      CutWhole(text, n, whole, EncodeChar(char_)[..k]);
      whole := text[..m] + whole;
    }
  }

  /** What follows a character does not change it. */
  lemma CharIsLocal(char_: Bytes, rest: Bytes)
    requires 0 < CharLength(char_) == |char_|
    ensures CharLength(char_ + rest) == |char_| && DecodeFirst(char_ + rest) == DecodeFirst(char_)
  {
    CharStands(char_, char_ + rest, |char_|);
  }

  /** The length of the first line's text; |s| if there is no line feed. */
  function LineLength(s: Bytes): (n: nat)
    ensures n <= |s| && LF !in s[..n] && (n < |s| ==> s[n] == LF)
  {
    if s == [] || s[0] == LF then 0 else 1 + LineLength(s[1..])
  }

  /** A terminated line loses one carriage return before its line feed. */
  function StripCr(line: Bytes): Bytes {
    if line != [] && line[|line| - 1] == CR then line[..|line| - 1] else line
  }

  function Lines(s: Bytes): seq<Bytes> {
    if s == [] then []
    else
      var n := LineLength(s);
      if n < |s| then [StripCr(s[..n])] + Lines(s[n + 1..]) else [s]
  }

  lemma {:induction false} LineLengthIs(line: Bytes, rest: Bytes)
    requires LF !in line
    ensures LineLength(line + [LF] + rest) == |line|
    ensures LineLength(line) == |line|
  {
    if line == [] {
    } else {
      assert (line + [LF] + rest)[1..] == line[1..] + [LF] + rest;
      LineLengthIs(line[1..], rest);
    }
  }

  lemma FirstLine(line: Bytes, rest: Bytes)
    requires LF !in line
    ensures Lines(line + [LF] + rest) == [StripCr(line)] + Lines(rest)
    ensures line != [] ==> Lines(line) == [line]
  {
    LineLengthIs(line, rest);
    assert (line + [LF] + rest)[..|line|] == line && (line + [LF] + rest)[|line| + 1..] == rest;
  }

  /** A line that ends in carriage return and line feed loses both. */
  lemma FirstCrLfLine(line: Bytes, rest: Bytes)
    requires LF !in line
    ensures Lines(line + [CR, LF] + rest) == [line] + Lines(rest)
  {
    assert line + [CR, LF] + rest == (line + [CR]) + [LF] + rest;
    assert (line + [CR])[..|line|] == line;
    FirstLine(line + [CR], rest);
  }
}
