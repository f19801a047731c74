/** The write-ahead log: one printed entry per line, appended in place, with crashes that tear the last line. */
module WriteAheadLogs {
  import opened Wrappers
  import opened Bytes
  import opened JsonCodec

  /** The bytes of complete lines. */
  function EncodeLines(lines: seq<Bytes>): Bytes {
    if lines == [] then [] else lines[0] + [LF] + EncodeLines(lines[1..])
  }

  function Printed(c: Codec, entries: seq<Json>): seq<Bytes> {
    if entries == [] then [] else [c.print_(entries[0])] + Printed(c, entries[1..])
  }

  /** The file after appending all of entries to nothing. */
  function Encode(c: Codec, entries: seq<Json>): Bytes {
    EncodeLines(Printed(c, entries))
  }

  /** What `read_all` keeps of the lines: the non-empty ones that parse. */
  function Parsed(c: Codec, lines: seq<Bytes>): seq<Json> {
    if lines == [] then []
    else
      var rest := Parsed(c, lines[1..]);
      if lines[0] != [] && c.parse(lines[0]).Some? then [c.parse(lines[0]).value] + rest else rest
  }

  /** `read_all` on the file's bytes; None is its error on text that is not UTF-8. */
  function ReadBack(c: Codec, content: Bytes): Option<seq<Json>> {
    if IsUtf8(content) then Some(Parsed(c, Lines(content))) else None
  }

  /** What the unterminated last line contributes. */
  function TailEntry(c: Codec, tail: Bytes): seq<Json> {
    if tail != [] && c.parse(tail).Some? then [c.parse(tail).value] else []
  }

  function Prepend(entries: seq<Json>, read: Option<seq<Json>>): Option<seq<Json>> {
    if read.Some? then Some(entries + read.value) else None
  }

  /** A line as the log writes it: not empty, and ending in neither kind of line break. */
  predicate IsLine(line: Bytes) {
    LF !in line && line != [] && line[|line| - 1] != CR
  }

  ghost predicate AreLines(lines: seq<Bytes>) {
    forall line | line in lines :: IsLine(line)
  }

  ghost predicate AreText(lines: seq<Bytes>) {
    forall line | line in lines :: IsUtf8(line)
  }

  /** A complete line contributes what it parses as, if it is text at all. */
  lemma ReadLine(c: Codec, line: Bytes, rest: Bytes)
    requires IsLine(line)
    ensures ReadBack(c, line + [LF] + rest)
         == if IsUtf8(line) then Prepend(TailEntry(c, line), ReadBack(c, rest)) else None
  {
    FirstLine(line, rest);
    LineDecidesUtf8(line, rest);
    hide Lines, IsUtf8;
    var lines := [line] + Lines(rest);
    assert lines[1..] == Lines(rest);
    assert [] + Parsed(c, Lines(rest)) == Parsed(c, Lines(rest));
  }

  /** Lines with nothing on them are skipped, whatever the parser says of nothing. */
  lemma EmptyLinesAreSkipped(c: Codec, ending: Bytes, rest: Bytes)
    requires ending == [LF] || ending == [CR, LF]
    ensures ReadBack(c, ending + rest) == ReadBack(c, rest)
  {
    var line := if ending == [LF] then [] else [CR];
    assert ending + rest == line + [LF] + rest;
    FirstLine(line, rest);
    LineDecidesUtf8(line, rest);
    assert IsUtf8(line) by {
      assert line != [] ==> line[1..] == [];
    }
    hide Lines, IsUtf8;
    var lines := [[]] + Lines(rest);
    assert lines[1..] == Lines(rest);
  }

  lemma ReadTail(c: Codec, tail: Bytes)
    requires LF !in tail
    ensures ReadBack(c, tail) == if IsUtf8(tail) then Some(TailEntry(c, tail)) else None
  {
    hide IsUtf8;
    if tail != [] {
      FirstLine(tail, []);
      assert [tail][1..] == [] && Parsed(c, []) == [];
      assert Parsed(c, [tail]) == TailEntry(c, tail);
    }
  }

  lemma ParsedFirst(c: Codec, line: Bytes, rest: seq<Bytes>)
    ensures Parsed(c, [line] + rest) == TailEntry(c, line) + Parsed(c, rest)
  {
    assert ([line] + rest)[1..] == rest;
  }

  /** Complete lines contribute what they parse as, whatever follows them, unless one of them is no text. */
  lemma {:induction false} ReadLines(c: Codec, lines: seq<Bytes>, rest: Bytes)
    requires AreLines(lines)
    ensures ReadBack(c, EncodeLines(lines) + rest)
         == if AreText(lines) then Prepend(Parsed(c, lines), ReadBack(c, rest)) else None
  {
    hide ReadBack, IsUtf8, Lines;
    var read := ReadBack(c, rest);
    if lines == [] {
      assert EncodeLines(lines) + rest == rest;
      assert read.Some? ==> [] + read.value == read.value;
    } else {
      var line, more := lines[0], EncodeLines(lines[1..]);
      assert lines == [line] + lines[1..];
      ReadLines(c, lines[1..], rest);
      assert EncodeLines(lines) + rest == line + [LF] + (more + rest);
      ReadLine(c, line, more + rest);
      ParsedFirst(c, line, lines[1..]);
      assert AreText(lines) <==> IsUtf8(line) && AreText(lines[1..]);
      hide Parsed, TailEntry;
      if read.Some? {
        assert TailEntry(c, line) + (Parsed(c, lines[1..]) + read.value)
            == (TailEntry(c, line) + Parsed(c, lines[1..])) + read.value;
      }
    }
  }

  lemma EntryLine(c: Codec, entry: Json)
    requires RoundTrips(c) && PrintsLines(c)
    ensures var line := c.print_(entry); IsLine(line) && IsUtf8(line) && TailEntry(c, line) == [entry]
  {
  }

  lemma {:induction false} PrintedReads(c: Codec, entries: seq<Json>)
    requires RoundTrips(c) && PrintsLines(c)
    ensures AreLines(Printed(c, entries)) && AreText(Printed(c, entries)) && Parsed(c, Printed(c, entries)) == entries
  {
    if entries == [] {
    } else {
      PrintedReads(c, entries[1..]);
      EntryLine(c, entries[0]);
      ParsedFirst(c, c.print_(entries[0]), Printed(c, entries[1..]));
      hide Parsed, TailEntry, IsLine, IsUtf8;
      assert entries == [entries[0]] + entries[1..];
    }
  }

  /** Complete entries read back as themselves, whatever follows them. */
  lemma ReadEncoded(c: Codec, entries: seq<Json>, rest: Bytes)
    requires RoundTrips(c) && PrintsLines(c)
    ensures ReadBack(c, Encode(c, entries) + rest) == Prepend(entries, ReadBack(c, rest))
  {
    PrintedReads(c, entries);
    ReadLines(c, Printed(c, entries), rest);
  }

  lemma {:induction false} EncodeLinesAppend(lines: seq<Bytes>, line: Bytes)
    ensures EncodeLines(lines + [line]) == EncodeLines(lines) + (line + [LF])
  {
    if lines == [] {
      assert [] + [line] == [line] && [line][1..] == [];
    } else {
      EncodeLinesAppend(lines[1..], line);
      assert (lines + [line])[1..] == lines[1..] + [line];
    }
  }

  lemma {:induction false} EncodeAppend(c: Codec, entries: seq<Json>, entry: Json)
    ensures Printed(c, entries + [entry]) == Printed(c, entries) + [c.print_(entry)]
    ensures Encode(c, entries + [entry]) == Encode(c, entries) + (c.print_(entry) + [LF])
  {
    if entries == [] {
      assert [] + [entry] == [entry] && [entry][1..] == [];
    } else {
      EncodeAppend(c, entries[1..], entry);
      assert (entries + [entry])[1..] == entries[1..] + [entry];
    }
    EncodeLinesAppend(Printed(c, entries), c.print_(entry));
  }

  lemma EncodeNext(c: Codec, before: Bytes, entries: seq<Json>, i: nat)
    requires i < |entries|
    ensures before + Encode(c, entries[..i + 1]) == before + Encode(c, entries[..i]) + (c.print_(entries[i]) + [LF])
  {
    EncodeAppend(c, entries[..i], entries[i]);
    hide Encode;
    assert entries[..i + 1] == entries[..i] + [entries[i]];
  }

  lemma LineEntry(c: Codec, entries: seq<Json>, line: Bytes, rest: seq<Json>)
    ensures entries + (TailEntry(c, line) + rest)
         == (if line != [] && c.parse(line).Some? then entries + [c.parse(line).value] else entries) + rest
  {
  }

  lemma UnfoldParsed(c: Codec, lines: seq<Bytes>, i: nat)
    requires i <= |lines|
    ensures Parsed(c, lines[i..]) == if i == |lines| then [] else TailEntry(c, lines[i]) + Parsed(c, lines[i + 1..])
  {
    if i < |lines| {
      assert lines[i..][1..] == lines[i + 1..];
    }
  }

  // ---- Histories of appends ---------------------------------------------------------

  /** One append; crash says after how many bytes of its line it was cut off. */
  datatype Write = Write(entry: Json, crash: Option<nat>)

  /** A log as complete lines and what follows the last line feed. */
  datatype Layout = Layout(lines: seq<Bytes>, tail: Bytes)

  function BytesOf(l: Layout): Bytes {
    EncodeLines(l.lines) + l.tail
  }

  /** The write got as far as its line feed. */
  predicate IsComplete(c: Codec, w: Write) {
    w.crash.None? || w.crash.value > |c.print_(w.entry)|
  }

  /** A complete write ends the line in progress, whatever stands in it; a torn one lengthens it. */
  function AfterWrite(c: Codec, l: Layout, w: Write): Layout {
    var line := c.print_(w.entry);
    if IsComplete(c, w) then Layout(l.lines + [l.tail + line], []) else Layout(l.lines, l.tail + line[..w.crash.value])
  }

  function AfterWrites(c: Codec, l: Layout, writes: seq<Write>): Layout {
    if writes == [] then l else AfterWrite(c, AfterWrites(c, l, writes[..|writes| - 1]), writes[|writes| - 1])
  }

  lemma WriteExtends(c: Codec, l: Layout, w: Write)
    ensures var line := c.print_(w.entry) + [LF];
            BytesOf(AfterWrite(c, l, w))
            == BytesOf(l) + match w.crash case None => line case Some(n) => line[..if n < |line| then n else |line|]
  {
    var printed := c.print_(w.entry);
    var line := printed + [LF];
    if IsComplete(c, w) {
      EncodeLinesAppend(l.lines, l.tail + printed);
      assert line[..|line|] == line;
      assert EncodeLines(l.lines) + ((l.tail + printed) + [LF]) == BytesOf(l) + line;
    } else {
      assert line[..w.crash.value] == printed[..w.crash.value];
      assert EncodeLines(l.lines) + (l.tail + printed[..w.crash.value]) == BytesOf(l) + printed[..w.crash.value];
    }
  }

  class WriteAheadLog {
    const codec: Codec
    var file: Option<Bytes>

    constructor (codec: Codec)
      ensures this.codec == codec && file == None
    {
      this.codec := codec;
      file := None;
    }

    function Content(): Bytes
      reads this
    {
      if file.Some? then file.value else []
    }

    method Init()
      modifies this
      ensures file == Some(old(Content()))
    {
      if file.None? {
        file := Some([]);
      }
    }

    /** A crash may stop the write after any number of bytes; None is a write that completes and is synced. */
    method Append(entry: Json, crash: Option<nat>) returns (acknowledged: bool)
      modifies this
      ensures acknowledged <==> crash.None?
      ensures var line := codec.print_(entry) + [LF];
              Content()
              == old(Content()) + match crash case None => line case Some(n) => line[..if n < |line| then n else |line|]
    {
      var line := codec.print_(entry);
      line := line + [LF];
      if file.None? {
        file := Some([]);
      }
      var written := match crash case None => |line| case Some(n) => if n < |line| then n else |line|;
      file := Some(file.value + line[..written]);
      assert line[..|line|] == line;
      acknowledged := crash.None?;
    }

    method ReadAll() returns (r: Option<seq<Json>>)
      ensures r == ReadBack(codec, Content())
    {
      if file.None? {
        ReadTail(codec, []);
        return Some([]);
      }
      if !IsUtf8(file.value) {
        return None;
      }
      var lines := Lines(file.value);
      assert ReadBack(codec, file.value) == Some(Parsed(codec, lines));
      hide *;
      var entries: seq<Json> := [];
      assert lines[0..] == lines;
      for i := 0 to |lines|
        invariant entries + Parsed(codec, lines[i..]) == Parsed(codec, lines)
      {
        UnfoldParsed(codec, lines, i);
        LineEntry(codec, entries, lines[i], Parsed(codec, lines[i + 1..]));
        if lines[i] != [] {
          match codec.parse(lines[i]) {
            case Some(entry) => entries := entries + [entry];
            case None =>
          }
        }
      }
      UnfoldParsed(codec, lines, |lines|);
      assert entries + [] == entries;
      r := Some(entries);
    }

    method Clear()
      modifies this
      ensures file == Some([])
    {
      file := Some([]);
    }

    /** Any history of appends, each completed or torn and followed by a restart: the bytes on disk. */
    method AppendAll(writes: seq<Write>, ghost start: Layout)
      requires Content() == BytesOf(start)
      modifies this
      ensures Content() == BytesOf(AfterWrites(codec, start, writes))
    {
      for i := 0 to |writes|
        invariant Content() == BytesOf(AfterWrites(codec, start, writes[..i]))
      {
        assert writes[..i + 1][..i] == writes[..i];
        WriteExtends(codec, AfterWrites(codec, start, writes[..i]), writes[i]);
        var _ := Append(writes[i].entry, writes[i].crash);
      }
      assert writes[..|writes|] == writes;
    }

    /** Appends that complete, then one that crashes, to any log: the bytes added. */
    method AppendAllThenCrash(entries: seq<Json>, last: Json, written: nat)
      modifies this
      ensures var line := codec.print_(last) + [LF];
              Content()
              == old(Content()) + Encode(codec, entries) + line[..if written < |line| then written else |line|]
    {
      for i := 0 to |entries|
        invariant Content() == old(Content()) + Encode(codec, entries[..i])
      {
        hide Encode;
        EncodeNext(codec, old(Content()), entries, i);
        var _ := Append(entries[i], None);
      }
      assert entries[..|entries|] == entries;
      var _ := Append(last, Some(written));
    }
  }

  // ---- Reading back a history -------------------------------------------------------

  ghost predicate IsLayout(l: Layout) {
    AreLines(l.lines) && LF !in l.tail
  }

  lemma WriteKeepsLayout(c: Codec, l: Layout, w: Write)
    requires PrintsLines(c) && IsLayout(l)
    ensures IsLayout(AfterWrite(c, l, w))
  {
    var printed := c.print_(w.entry);
    assert printed != [] && LF !in printed && printed[|printed| - 1] != CR;
    assert (l.tail + printed)[|l.tail + printed| - 1] == printed[|printed| - 1];
  }

  lemma {:induction false} WritesKeepLayout(c: Codec, l: Layout, writes: seq<Write>)
    requires PrintsLines(c) && IsLayout(l)
    ensures IsLayout(AfterWrites(c, l, writes))
  {
    if writes == [] {
    } else {
      WritesKeepLayout(c, l, writes[..|writes| - 1]);
      WriteKeepsLayout(c, AfterWrites(c, l, writes[..|writes| - 1]), writes[|writes| - 1]);
    }
  }

  /**
   What is read after any history: what the complete lines parse as, and what the unfinished one happens to
   parse as; or nothing at all, if any of them is no text.
   */
  lemma ReadAfterWrites(c: Codec, start: Layout, writes: seq<Write>)
    requires PrintsLines(c) && IsLayout(start)
    ensures var end := AfterWrites(c, start, writes);
            ReadBack(c, BytesOf(end))
            == if AreText(end.lines) && IsUtf8(end.tail) then Some(Parsed(c, end.lines) + TailEntry(c, end.tail))
               else None
  {
    WritesKeepLayout(c, start, writes);
    var end := AfterWrites(c, start, writes);
    ReadLines(c, end.lines, end.tail);
    ReadTail(c, end.tail);
  }

  /** The entries whose writes got as far as their line feed. */
  function Completed(c: Codec, writes: seq<Write>): seq<Json> {
    if writes == [] then []
    else
      var last := writes[|writes| - 1];
      Completed(c, writes[..|writes| - 1]) + (if IsComplete(c, last) then [last.entry] else [])
  }

  /** No crash cut a line in two: each wrote nothing or all of it. */
  ghost predicate TearsNothing(c: Codec, writes: seq<Write>) {
    forall w | w in writes :: IsComplete(c, w) || w.crash == Some(0)
  }

  lemma PrintMore(c: Codec, entries: seq<Json>, done: seq<Json>, w: Write)
    requires IsComplete(c, w) || w.crash == Some(0)
    ensures var next := if IsComplete(c, w) then [w.entry] else [];
            AfterWrite(c, Layout(Printed(c, entries + done), []), w) == Layout(Printed(c, entries + (done + next)), [])
  {
    var before, printed := entries + done, c.print_(w.entry);
    hide Printed;
    if IsComplete(c, w) {
      EncodeAppend(c, before, w.entry);
      assert entries + (done + [w.entry]) == before + [w.entry] && [] + printed == printed;
    } else {
      assert entries + (done + []) == before && [] + printed[..0] == [];
    }
  }

  lemma {:induction false} UntornLayout(c: Codec, entries: seq<Json>, writes: seq<Write>)
    requires TearsNothing(c, writes)
    ensures AfterWrites(c, Layout(Printed(c, entries), []), writes)
         == Layout(Printed(c, entries + Completed(c, writes)), [])
  {
    if writes == [] {
      assert entries + [] == entries;
    } else {
      var init, w := writes[..|writes| - 1], writes[|writes| - 1];
      assert w in writes && TearsNothing(c, init);
      UntornLayout(c, entries, init);
      hide AfterWrite, IsComplete, Printed;
      PrintMore(c, entries, Completed(c, init), w);
    }
  }

  /** A history that tears no line reads back as exactly the entries it completed, in order. */
  lemma UntornHistoryReadsBack(c: Codec, entries: seq<Json>, writes: seq<Write>)
    requires RoundTrips(c) && PrintsLines(c) && TearsNothing(c, writes)
    ensures var end := AfterWrites(c, Layout(Printed(c, entries), []), writes);
            end == Layout(Printed(c, entries + Completed(c, writes)), []) &&
            ReadBack(c, BytesOf(end)) == Some(entries + Completed(c, writes))
  {
    var end := entries + Completed(c, writes);
    UntornLayout(c, entries, writes);
    ReadTail(c, []);
    hide ReadBack, TearsNothing;
    ReadEncoded(c, end, []);
    assert end + [] == end;
  }

  // ---- Reading after a crash ---------------------------------------------------------

  /** Where n bytes of a line end: nothing written, torn, or all of the entry. */
  lemma Torn(c: Codec, entry: Json, n: nat)
    requires PrintsLines(c) && n <= |c.print_(entry)|
    ensures LF !in (c.print_(entry) + [LF])[..n] && (c.print_(entry) + [LF])[..n] == c.print_(entry)[..n]
  {
  }

  /**
   After a crash n bytes into an append, reading gives every acknowledged entry, and the one in flight or
   not, exactly when the torn bytes are whole characters and parse as nothing or as that entry.
   */
  lemma CrashKeepsAcknowledged(c: Codec, entries: seq<Json>, last: Json, n: nat)
    requires RoundTrips(c) && PrintsLines(c) && n <= |c.print_(last)| + 1
    ensures var line := c.print_(last) + [LF];
            var read := ReadBack(c, Encode(c, entries) + line[..n]);
            (read == Some(entries) || read == Some(entries + [last]))
            <==> n == |line| || n == 0 || (IsUtf8(line[..n]) && c.parse(line[..n]) in {None, Some(last)})
    ensures n >= |c.print_(last)| ==>
            ReadBack(c, Encode(c, entries) + (c.print_(last) + [LF])[..n]) == Some(entries + [last])
  {
    hide ReadBack, Encode;
    var line := c.print_(last) + [LF];
    ReadTail(c, []);
    if n == |line| {
      assert line[..n] == line;
      EncodeAppend(c, entries, last);
      ReadEncoded(c, entries + [last], []);
      assert Encode(c, entries + [last]) + [] == Encode(c, entries) + line;
      assert entries + [last] + [] == entries + [last];
    } else {
      Torn(c, last, n);
      ReadEncoded(c, entries, line[..n]);
      ReadTail(c, line[..n]);
      assert entries + [] == entries;
      if n == |c.print_(last)| {
        assert c.print_(last)[..n] == c.print_(last);
      }
      if n > 0 && c.parse(line[..n]).Some? {
        assert (entries + [c.parse(line[..n]).value])[|entries|] == c.parse(line[..n]).value;
      }
    }
  }

  /**
   The line in progress was torn inside a character: after whole characters, part of one, then at most the start of
   text.
   */
  ghost predicate IsTornInside(s: Bytes, whole: Bytes, part: Bytes) {
    |whole + part| <= |s| && s[..|whole + part|] == whole + part &&
    (|s| > |whole + part| ==> !IsContinuation(s[|whole + part|]))
  }

  lemma TornInsideIsNoText(s: Bytes, whole: Bytes, char_: nat, k: nat)
    requires IsUtf8(whole) && IsScalar(char_) && 0 < k < |EncodeChar(char_)|
    requires IsTornInside(s, whole, EncodeChar(char_)[..k])
    ensures !IsUtf8(s)
  {
    var part := EncodeChar(char_)[..k];
    var rest := s[|whole + part|..];
    PartIsNoChar(char_, k, rest);
    assert !IsUtf8(part + rest);
    Utf8Concat(whole, part + rest);
    hide IsUtf8, EncodeChar, IsScalar;
    Associate(whole, part, rest);
    assert s == s[..|whole + part|] + rest;
  }

  /** A line that is no text is among the complete ones, or the one in progress was torn so. */
  ghost predicate IsHidden(l: Layout, whole: Bytes, part: Bytes) {
    !AreText(l.lines) || IsTornInside(l.tail, whole, part)
  }

  lemma TearStays(c: Codec, tail: Bytes, entry: Json, whole: Bytes, part: Bytes)
    requires PrintsLines(c) && IsTornInside(tail, whole, part)
    ensures IsTornInside(tail + c.print_(entry), whole, part)
    ensures forall n | 0 <= n <= |c.print_(entry)| :: IsTornInside(tail + c.print_(entry)[..n], whole, part)
  {
    var printed := c.print_(entry);
    assert IsUtf8(printed) && printed != [];
    TextStartsCharacter(printed);
    assert printed[..|printed|] == printed;
    forall n | 0 <= n <= |printed|
      ensures IsTornInside(tail + printed[..n], whole, part)
    {
      assert (tail + printed[..n])[..|whole + part|] == tail[..|whole + part|];
    }
  }

  lemma StaysHidden(c: Codec, l: Layout, w: Write, whole: Bytes, char_: nat, k: nat)
    requires PrintsLines(c) && IsUtf8(whole) && IsScalar(char_) && 0 < k < |EncodeChar(char_)|
    requires IsHidden(l, whole, EncodeChar(char_)[..k])
    ensures IsHidden(AfterWrite(c, l, w), whole, EncodeChar(char_)[..k])
  {
    var part := EncodeChar(char_)[..k];
    var line := l.tail + c.print_(w.entry);
    var after := AfterWrite(c, l, w);
    assert after.lines == if IsComplete(c, w) then l.lines + [line] else l.lines;
    if !AreText(l.lines) {
      var bad :| bad in l.lines && !IsUtf8(bad);
      assert bad in after.lines;
    } else {
      TearStays(c, l.tail, w.entry, whole, part);
      if IsComplete(c, w) {
        TornInsideIsNoText(line, whole, char_, k);
        assert line in after.lines;
      }
    }
  }

  lemma HiddenIsUnreadable(c: Codec, l: Layout, writes: seq<Write>, whole: Bytes, char_: nat, k: nat)
    requires PrintsLines(c) && IsLayout(l) && IsUtf8(whole) && IsScalar(char_) && 0 < k < |EncodeChar(char_)|
    requires IsHidden(AfterWrites(c, l, writes), whole, EncodeChar(char_)[..k])
    ensures ReadBack(c, BytesOf(AfterWrites(c, l, writes))) == None
  {
    hide ReadBack, BytesOf, AfterWrites;
    ReadAfterWrites(c, l, writes);
    var end := AfterWrites(c, l, writes);
    if AreText(end.lines) {
      TornInsideIsNoText(end.tail, whole, char_, k);
    }
  }

  /**
   A tear inside a character is for good: whatever is appended afterwards, completed or torn, every entry of
   the log stays unreadable until it is cleared.
   */
  lemma {:induction false} TornCharacterHidesLog(c: Codec, l: Layout, whole: Bytes, char_: nat, k: nat,
                                                 writes: seq<Write>)
    requires PrintsLines(c) && IsLayout(l)
    requires IsUtf8(whole) && IsScalar(char_) && 0 < k < |EncodeChar(char_)| && l.tail == whole + EncodeChar(char_)[..k]
    ensures IsHidden(AfterWrites(c, l, writes), whole, EncodeChar(char_)[..k])
    ensures ReadBack(c, BytesOf(AfterWrites(c, l, writes))) == None
  {
    var part := EncodeChar(char_)[..k];
    if writes == [] {
      assert l.tail[..|whole + part|] == whole + part;
    } else {
      var init, w := writes[..|writes| - 1], writes[|writes| - 1];
      TornCharacterHidesLog(c, l, whole, char_, k, init);
      StaysHidden(c, AfterWrites(c, l, init), w, whole, char_, k);
    }
    HiddenIsUnreadable(c, l, writes, whole, char_, k);
  }

  lemma TornTail(c: Codec, l: Layout, last: Json, n: nat) returns (whole: Bytes, char_: nat, k: nat)
    requires IsUtf8(l.tail) && IsUtf8(c.print_(last)) && n <= |c.print_(last)| && !IsUtf8(c.print_(last)[..n])
    ensures IsUtf8(whole) && IsScalar(char_) && 0 < k < |EncodeChar(char_)|
    ensures AfterWrite(c, l, Write(last, Some(n))).tail == whole + EncodeChar(char_)[..k]
  {
    hide IsUtf8, EncodeChar, IsScalar;
    assert AfterWrite(c, l, Write(last, Some(n))).tail == l.tail + c.print_(last)[..n];
    hide AfterWrite;
    var behind;
    behind, char_, k := CutInsideCharacter(c.print_(last), n);
    Utf8Concat(l.tail, behind);
    whole := l.tail + behind;
    assert l.tail + (behind + EncodeChar(char_)[..k]) == whole + EncodeChar(char_)[..k];
  }

  /**
   The entries of a log become unreadable for good with any append cut off where what it printed is no text,
   which is inside a character.
   */
  lemma TornEntryHidesLog(c: Codec, l: Layout, last: Json, n: nat, writes: seq<Write>)
    requires PrintsLines(c) && IsLayout(l) && IsUtf8(l.tail)
    requires n <= |c.print_(last)| && !IsUtf8(c.print_(last)[..n])
    ensures ReadBack(c, BytesOf(AfterWrites(c, AfterWrite(c, l, Write(last, Some(n))), writes))) == None
  {
    hide AfterWrite, AfterWrites, BytesOf, ReadBack;
    var torn := AfterWrite(c, l, Write(last, Some(n)));
    WriteKeepsLayout(c, l, Write(last, Some(n)));
    var whole, char_, k := TornTail(c, l, last, n);
    TornCharacterHidesLog(c, torn, whole, char_, k, writes);
  }

  /** Every write cut short was cut between characters. */
  ghost predicate CutsNoCharacter(c: Codec, writes: seq<Write>) {
    forall w | w in writes :: IsComplete(c, w) || IsUtf8(c.print_(w.entry)[..w.crash.value])
  }

  ghost predicate IsText(l: Layout) {
    AreText(l.lines) && IsUtf8(l.tail)
  }

  /** Where a character was cut, for good. */
  ghost predicate IsLost(l: Layout) {
    exists whole, char_, k: nat ::
      IsUtf8(whole) && IsScalar(char_) && 0 < k < |EncodeChar(char_)| && IsHidden(l, whole, EncodeChar(char_)[..k])
  }

  lemma LostIsNoText(l: Layout)
    requires IsLost(l)
    ensures !IsText(l)
  {
    hide IsUtf8, IsScalar, EncodeChar, IsTornInside;
    var whole, char_, k: nat :|
      IsUtf8(whole) && IsScalar(char_) && 0 < k < |EncodeChar(char_)| && IsHidden(l, whole, EncodeChar(char_)[..k]);
    if AreText(l.lines) {
      TornInsideIsNoText(l.tail, whole, char_, k);
    }
  }

  lemma LostStaysLost(c: Codec, l: Layout, w: Write)
    requires PrintsLines(c) && IsLost(l)
    ensures IsLost(AfterWrite(c, l, w))
  {
    hide IsUtf8, IsScalar, EncodeChar, IsHidden, AfterWrite;
    var whole, char_, k: nat :|
      IsUtf8(whole) && IsScalar(char_) && 0 < k < |EncodeChar(char_)| && IsHidden(l, whole, EncodeChar(char_)[..k]);
    StaysHidden(c, l, w, whole, char_, k);
  }

  /** One write to a log that is text. */
  lemma WriteToText(c: Codec, l: Layout, w: Write)
    requires PrintsLines(c) && IsText(l)
    ensures if CutsNoCharacter(c, [w]) then IsText(AfterWrite(c, l, w)) else IsLost(AfterWrite(c, l, w))
  {
    hide IsUtf8, IsScalar, EncodeChar;
    var printed := c.print_(w.entry);
    assert IsUtf8(printed);
    assert w in [w];
    if IsComplete(c, w) {
      Utf8Concat(l.tail, printed);
      assert IsUtf8([]) by {
        NothingIsText();
      }
    } else if IsUtf8(printed[..w.crash.value]) {
      Utf8Concat(l.tail, printed[..w.crash.value]);
    } else {
      var whole, char_, k := TornTail(c, l, w.entry, w.crash.value);
      var tail := AfterWrite(c, l, w).tail;
      assert w == Write(w.entry, Some(w.crash.value));
      assert tail[..|whole + EncodeChar(char_)[..k]|] == tail;
      assert IsHidden(AfterWrite(c, l, w), whole, EncodeChar(char_)[..k]);
    }
  }

  lemma {:induction false} TextOrLost(c: Codec, l: Layout, writes: seq<Write>)
    requires PrintsLines(c) && IsText(l)
    ensures if CutsNoCharacter(c, writes) then IsText(AfterWrites(c, l, writes)) else IsLost(AfterWrites(c, l, writes))
  {
    if writes == [] {
    } else {
      var init, w := writes[..|writes| - 1], writes[|writes| - 1];
      var before := AfterWrites(c, l, init);
      TextOrLost(c, l, init);
      hide IsText, IsLost, AfterWrite, IsUtf8, IsComplete;
      assert CutsNoCharacter(c, writes) <==> CutsNoCharacter(c, init) && CutsNoCharacter(c, [w]) by {
        assert writes == init + [w];
      }
      if CutsNoCharacter(c, init) {
        WriteToText(c, before, w);
      } else {
        LostStaysLost(c, before, w);
      }
    }
  }

  /** A log that is text stays readable exactly as long as every crash falls between characters. */
  lemma ReadableIff(c: Codec, l: Layout, writes: seq<Write>)
    requires PrintsLines(c) && IsLayout(l) && IsText(l)
    ensures ReadBack(c, BytesOf(AfterWrites(c, l, writes))).Some? <==> CutsNoCharacter(c, writes)
  {
    var end := AfterWrites(c, l, writes);
    ReadAfterWrites(c, l, writes);
    TextOrLost(c, l, writes);
    if !CutsNoCharacter(c, writes) {
      LostIsNoText(end);
    }
  }

  lemma AfterOneAndTwo(c: Codec, l: Layout, first: Write, second: Write)
    ensures AfterWrites(c, l, [first]) == AfterWrite(c, l, first)
    ensures AfterWrites(c, l, [first, second]) == AfterWrite(c, AfterWrite(c, l, first), second)
  {
    hide AfterWrite;
    assert [first][..0] == [] && [first, second][..1] == [first];
    assert AfterWrites(c, l, [first][..0]) == l;
  }

  lemma TornAccent(c: Codec, last: Json)
    requires c.print_(last) == [34, 0xC3, 0xA9, 34]
    ensures c.print_(last)[..2] == [34, 0xC3] == [34] + EncodeChar(0xE9)[..1] && |EncodeChar(0xE9)| == 2 && IsUtf8([34])
  {
    assert EncodeChar(0xE9) == [0xC3, 0xA9];
    assert EncodeChar(0xE9)[..1] == [0xC3];
    assert [34][1..] == [] && IsUtf8([]);
  }

  /** For instance a string with an accented letter, cut off between that letter's two bytes. */
  lemma TearInsideAccent(c: Codec, entries: seq<Json>, last: Json, next: Json)
    requires RoundTrips(c) && PrintsLines(c) && c.print_(last) == [34, 0xC3, 0xA9, 34]
    ensures var torn := Write(last, Some(2));
            var start := Layout(Printed(c, entries), []);
            ReadBack(c, BytesOf(start)) == Some(entries) &&
            ReadBack(c, BytesOf(AfterWrites(c, start, [torn]))) == None &&
            ReadBack(c, BytesOf(AfterWrites(c, start, [torn, Write(next, None)]))) == None
  {
    var start, torn, then_ := Layout(Printed(c, entries), []), Write(last, Some(2)), Write(next, None);
    PrintedReads(c, entries);
    UntornHistoryReadsBack(c, entries, []);
    assert entries + [] == entries;
    var l := AfterWrite(c, start, torn);
    TornAccent(c, last);
    assert l.tail == [] + [34, 0xC3] == [34, 0xC3];
    assert IsLayout(l);
    hide ReadBack, AfterWrite, IsLayout;
    AfterOneAndTwo(c, start, torn, then_);
    AfterOneAndTwo(c, l, then_, then_);
    assert AfterWrites(c, l, []) == l;
    TornCharacterHidesLog(c, l, [34], 0xE9, 1, []);
    TornCharacterHidesLog(c, l, [34], 0xE9, 1, [then_]);
  }

  /**
   An append behind an unfinished line joins it, whatever that line is. The new entry is read back behind the
   complete ones exactly if the joined line is text that still parses as it; and nothing is read if it is no text.
   */
  lemma AppendAfterTear(c: Codec, entries: seq<Json>, tail: Bytes, next: Json)
    requires RoundTrips(c) && PrintsLines(c) && LF !in tail
    ensures var joined := tail + c.print_(next);
            var read := ReadBack(c, Encode(c, entries) + tail + (c.print_(next) + [LF]));
            (read == (if IsUtf8(joined) then Some(entries + TailEntry(c, joined)) else None)) &&
            (read == Some(entries + [next]) <==> IsUtf8(joined) && (tail == [] || c.parse(joined) == Some(next)))
  {
    hide ReadBack, Encode;
    var joined := tail + c.print_(next);
    assert c.print_(next) != [] && joined[|joined| - 1] == c.print_(next)[|c.print_(next)| - 1];
    assert Encode(c, entries) + tail + (c.print_(next) + [LF]) == Encode(c, entries) + (joined + [LF] + []);
    ReadEncoded(c, entries, joined + [LF] + []);
    ReadLine(c, joined, []);
    ReadTail(c, []);
    if tail == [] {
      assert joined == c.print_(next);
    }
    var read := TailEntry(c, joined) + [];
    assert read == TailEntry(c, joined);
    assert read != [] ==> (entries + read)[|entries|] == read[0];
  }

  /**
   An entry cut off just before its line feed is read back, but the next append takes it away again: both
   entries are lost unless the two together parse.
   */
  lemma UnfinishedEntryVanishes(c: Codec, entries: seq<Json>, last: Json, next: Json)
    requires RoundTrips(c) && PrintsLines(c)
    ensures ReadBack(c, Encode(c, entries) + c.print_(last)) == Some(entries + [last])
    ensures var joined := c.print_(last) + c.print_(next);
            ReadBack(c, Encode(c, entries) + c.print_(last) + (c.print_(next) + [LF]))
            == Some(entries + match c.parse(joined) case None => [] case Some(other) => [other])
  {
    EntryLine(c, last);
    EntryLine(c, next);
    Utf8Concat(c.print_(last), c.print_(next));
    AppendAfterTear(c, entries, c.print_(last), next);
    hide ReadBack, Encode;
    ReadEncoded(c, entries, c.print_(last));
    ReadTail(c, c.print_(last));
  }

  /** For instance 1 cut off before its line feed and then 2: the log reads as 12. */
  lemma DigitsRunTogether(c: Codec, entries: seq<Json>)
    requires RoundTrips(c) && PrintsLines(c)
    requires c.print_(Number(1)) == [49] && c.print_(Number(2)) == [50] && c.print_(Number(12)) == [49, 50]
    ensures ReadBack(c, Encode(c, entries) + [49] + ([50] + [LF])) == Some(entries + [Number(12)])
  {
    assert [49] + [50] == c.print_(Number(12));
    UnfinishedEntryVanishes(c, entries, Number(1), Number(2));
  }
}
