/** The structured logger's rotation: numbered backups that shift up by one when the file is full. */
module LogRotation {
  import opened Wrappers
  import opened Bytes

  const MAX_LOG_SIZE: nat := 10 * 1024 * 1024
  const MAX_LOG_BACKUPS: nat := 5

  /** Slot i holds backup number i + 1, if that file exists; number 1 is the newest. */
  type Backups = b: seq<Option<Bytes>> | |b| == MAX_LOG_BACKUPS witness [None, None, None, None, None]

  const NO_BACKUPS: Backups := [None, None, None, None, None]

  datatype Files = Files(backups: Backups, current: Bytes)

  /**
   Each backup moves up by one and the closing file becomes number 1; an oldest file with nothing to replace it
   stays.
   */
  function Shifted(b: Backups, closing: Bytes): Backups {
    [Some(closing), b[0], b[1], b[2], if b[3].Some? then b[3] else b[4]]
  }

  function Written(f: Files, line: Bytes): Files {
    var whole := f.current + line;
    if |whole| >= MAX_LOG_SIZE then Files(Shifted(f.backups, whole), []) else Files(f.backups, whole)
  }

  class StructuredLogger {
    var backups: Backups
    var current: Bytes
    var bytesWritten: nat

    ghost predicate Valid()
      reads this
    {
      bytesWritten == |current|
    }

    function State(): Files
      reads this
    {
      Files(backups, current)
    }

    /** `open` in append mode: whatever is on disk stays. */
    constructor (files: Files)
      ensures Valid() && State() == files
    {
      backups, current, bytesWritten := files.backups, files.current, |files.current|;
    }

    method WriteEntry(line: Bytes)
      requires Valid()
      modifies this
      ensures Valid() && State() == Written(old(State()), line)
      ensures |current| < MAX_LOG_SIZE
    {
      current := current + line;
      bytesWritten := bytesWritten + |line|;
      if bytesWritten >= MAX_LOG_SIZE {
        Rotate();
      }
    }

    /** A missing source makes a rename fail, and the failure is ignored. */
    method Rotate()
      requires Valid()
      modifies this
      ensures Valid() && State() == Files(Shifted(old(backups), old(current)), [])
    {
      var i := MAX_LOG_BACKUPS - 1;
      while i >= 1
        invariant 0 <= i <= MAX_LOG_BACKUPS - 1 && current == old(current)
        invariant i == MAX_LOG_BACKUPS - 1 ==> backups == old(backups)
        invariant i < MAX_LOG_BACKUPS - 1 ==>
          backups[i] == None && backups[4] == Shifted(old(backups), old(current))[4]
        invariant forall j | 0 <= j < i :: backups[j] == old(backups)[j]
        invariant forall j | i < j < MAX_LOG_BACKUPS - 1 :: backups[j] == Shifted(old(backups), old(current))[j]
      {
        Rename(i, i + 1);
        i := i - 1;
      }
      backups := backups[0 := Some(current)];
      assert backups == Shifted(old(backups), old(current));
      current := [];
      bytesWritten := 0;
    }

    /** Rename backup number `from`, if there is one. */
    method Rename(from: nat, to: nat)
      requires 1 <= from < to <= MAX_LOG_BACKUPS
      modifies this`backups
      ensures backups == if old(backups)[from - 1].Some?
                         then old(backups)[to - 1 := old(backups)[from - 1]][from - 1 := None] else old(backups)
    {
      if backups[from - 1].Some? {
        backups := backups[to - 1 := backups[from - 1]][from - 1 := None];
      }
    }
  }

  // ---- Whole runs --------------------------------------------------------------------

  /** The backups from number i down to 1, oldest first. */
  function SegmentsFrom(b: Backups, i: nat): seq<Bytes>
    requires i <= MAX_LOG_BACKUPS
  {
    if i == 0 then [] else (if b[i - 1].Some? then [b[i - 1].value] else []) + SegmentsFrom(b, i - 1)
  }

  function Segments(b: Backups): seq<Bytes> {
    SegmentsFrom(b, MAX_LOG_BACKUPS)
  }

  function WrittenAll(f: Files, lines: seq<Bytes>): Files
    decreases |lines|
  {
    if lines == [] then f else WrittenAll(Written(f, lines[0]), lines[1..])
  }

  /** The files that fill up while the lines are written. */
  function Closed(current: Bytes, lines: seq<Bytes>): seq<Bytes>
    decreases |lines|
  {
    if lines == [] then []
    else
      var whole := current + lines[0];
      if |whole| >= MAX_LOG_SIZE then [whole] + Closed([], lines[1..]) else Closed(whole, lines[1..])
  }

  predicate IsSuffix<T(==)>(x: seq<T>, y: seq<T>) {
    |x| <= |y| && y[|y| - |x|..] == x
  }

  /** The backups are numbered 1 to n without a gap. */
  ghost predicate IsContiguous(b: Backups, n: nat) {
    n <= MAX_LOG_BACKUPS && forall i | 0 <= i < MAX_LOG_BACKUPS :: b[i].Some? <==> i < n
  }

  lemma {:induction false} ShiftedFrom(b: Backups, closing: Bytes, i: nat)
    requires i < MAX_LOG_BACKUPS - 1
    ensures SegmentsFrom(Shifted(b, closing), i + 1) == SegmentsFrom(b, i) + [closing]
  {
    if i == 0 {
    } else {
      ShiftedFrom(b, closing, i - 1);
      assert Shifted(b, closing)[i] == b[i - 1];
    }
  }

  lemma ShiftedSegments(b: Backups, closing: Bytes)
    ensures Segments(Shifted(b, closing))
         == (if b[3].Some? && b[4].Some? then Segments(b)[1..] else Segments(b)) + [closing]
    ensures b[4].Some? ==> Segments(b) != []
  {
    ShiftedFrom(b, closing, 3);
    var newer := SegmentsFrom(b, 3);
    var third := if b[3].Some? then [b[3].value] else [];
    var fourth := if b[4].Some? then [b[4].value] else [];
    assert Segments(b) == fourth + (third + newer) && SegmentsFrom(b, 4) == third + newer;
    assert Segments(Shifted(b, closing)) == (if b[3].Some? then third else fourth) + (newer + [closing]);
    hide SegmentsFrom;
    assert third + (newer + [closing]) == (third + newer) + [closing];
    assert b[3].None? ==> third + newer == newer;
    assert b[4].Some? ==> Segments(b)[1..] == third + newer;
    assert b[4].None? ==> fourth + (third + newer) == third + newer && [] + (newer + [closing]) == newer + [closing];
  }

  lemma SuffixOfItself(x: seq<Bytes>, none: seq<Bytes>)
    requires none == []
    ensures IsSuffix(x, x + none)
  {
    assert x + none == x;
  }

  lemma SuffixUnder(x: seq<Bytes>, y: seq<Bytes>, z: seq<Bytes>, tail: seq<Bytes>)
    requires IsSuffix(x, y + tail) && IsSuffix(y, z)
    ensures IsSuffix(x, z + tail)
  {
    assert z + tail == z[..|z| - |y|] + (y + tail);
  }

  lemma KeepsAcrossRotation(b: Backups, closing: Bytes, closed: seq<Bytes>, kept: seq<Bytes>)
    requires IsSuffix(kept, Segments(Shifted(b, closing)) + closed)
    ensures IsSuffix(kept, Segments(b) + ([closing] + closed))
  {
    ShiftedSegments(b, closing);
    var after := Segments(Shifted(b, closing));
    var all := Segments(b) + [closing];
    hide Segments;
    if b[3].Some? && b[4].Some? {
      assert after == all[1..];
    }
    assert IsSuffix(after, all);
    SuffixUnder(kept, after, all, closed);
    assert Segments(b) + ([closing] + closed) == all + closed;
  }

  /** From any backups at all: what is kept is a run of the newest files, whole. */
  lemma {:induction false} KeepsNewestFiles(f: Files, lines: seq<Bytes>)
    ensures IsSuffix(Segments(WrittenAll(f, lines).backups), Segments(f.backups) + Closed(f.current, lines))
    decreases |lines|
  {
    hide Segments, IsSuffix, Shifted;
    if lines == [] {
      SuffixOfItself(Segments(f.backups), Closed(f.current, lines));
    } else {
      var g := Written(f, lines[0]);
      var whole := f.current + lines[0];
      KeepsNewestFiles(g, lines[1..]);
      var kept, closed := Segments(WrittenAll(g, lines[1..]).backups), Closed(g.current, lines[1..]);
      if |whole| >= MAX_LOG_SIZE {
        KeepsAcrossRotation(f.backups, whole, closed, kept);
      }
    }
  }

  lemma FlattenStep(x: Bytes, s: seq<Bytes>)
    ensures Flatten([x] + s) == x + Flatten(s)
  {
    assert ([x] + s)[1..] == s;
  }

  /** Closing a file loses no byte: the closed files and the current one hold all that was written since. */
  lemma {:induction false} ClosingLosesNothing(f: Files, lines: seq<Bytes>)
    ensures Flatten(Closed(f.current, lines)) + WrittenAll(f, lines).current == f.current + Flatten(lines)
    ensures lines != [] ==> |WrittenAll(f, lines).current| < MAX_LOG_SIZE
    decreases |lines|
  {
    hide Shifted;
    if lines == [] {
    } else {
      var g := Written(f, lines[0]);
      ClosingLosesNothing(g, lines[1..]);
      var whole, rest, closed := f.current + lines[0], Flatten(lines[1..]), Closed(g.current, lines[1..]);
      Associate(f.current, lines[0], rest);
      if |whole| >= MAX_LOG_SIZE {
        FlattenStep(whole, closed);
        assert [] + rest == rest;
        Associate(whole, Flatten(closed), WrittenAll(g, lines[1..]).current);
      }
    }
  }

  /** Starting from n backups without a gap, r rotations leave min(n + r, 5), still without a gap. */
  lemma {:induction false} StaysContiguous(f: Files, lines: seq<Bytes>, n: nat)
    requires IsContiguous(f.backups, n)
    ensures var total := n + |Closed(f.current, lines)|;
            IsContiguous(WrittenAll(f, lines).backups, if total < MAX_LOG_BACKUPS then total else MAX_LOG_BACKUPS)
    decreases |lines|
  {
    if lines == [] {
    } else {
      var g := Written(f, lines[0]);
      if |f.current + lines[0]| >= MAX_LOG_SIZE {
        StaysContiguous(g, lines[1..], if n < MAX_LOG_BACKUPS then n + 1 else n);
      } else {
        StaysContiguous(g, lines[1..], n);
      }
    }
  }

  lemma {:induction false} ContiguousCount(b: Backups, n: nat, i: nat)
    requires IsContiguous(b, n) && i <= MAX_LOG_BACKUPS
    ensures |SegmentsFrom(b, i)| == if i < n then i else n
  {
    if i == 0 {
    } else {
      ContiguousCount(b, n, i - 1);
    }
  }

  lemma SuffixOfSum(x: Bytes, y: Bytes, all: Bytes)
    requires all == x + y
    ensures IsSuffix(y, all)
  {
    assert all[|x|..] == y;
  }

  lemma FlattenSplit(closed: seq<Bytes>, cut: nat, current: Bytes)
    requires cut <= |closed|
    ensures Flatten(closed) + current == Flatten(closed[..cut]) + (Flatten(closed[cut..]) + current)
  {
    hide Flatten;
    var dropped, kept := closed[..cut], closed[cut..];
    FlattenConcat(dropped, kept);
    assert dropped + kept == closed;
    Associate(Flatten(dropped), Flatten(kept), current);
  }

  lemma SuffixOfWritten(closed: seq<Bytes>, cut: nat, current: Bytes)
    requires cut <= |closed|
    ensures IsSuffix(Flatten(closed[cut..]) + current, Flatten(closed) + current)
  {
    hide Flatten, IsSuffix;
    FlattenSplit(closed, cut, current);
    SuffixOfSum(Flatten(closed[..cut]), Flatten(closed[cut..]) + current, Flatten(closed) + current);
  }

  /** From any log at all: what is kept, oldest first, is a suffix of what there was and everything written since. */
  lemma KeepsNewestBytes(f: Files, lines: seq<Bytes>)
    ensures var end := WrittenAll(f, lines);
            IsSuffix(Flatten(Segments(end.backups)) + end.current,
                Flatten(Segments(f.backups)) + (f.current + Flatten(lines)))
  {
    hide Closed, WrittenAll, Flatten, Segments;
    var end, closed := WrittenAll(f, lines), Closed(f.current, lines);
    var before, kept := Segments(f.backups), Segments(end.backups);
    KeepsNewestFiles(f, lines);
    ClosingLosesNothing(f, lines);
    var cut := |before + closed| - |kept|;
    SuffixOfWritten(before + closed, cut, end.current);
    FlattenConcat(before, closed);
    Associate(Flatten(before), Flatten(closed), end.current);
  }

  lemma NoSegments()
    ensures Segments(NO_BACKUPS) == [] && IsContiguous(NO_BACKUPS, 0)
  {
    ContiguousCount(NO_BACKUPS, 0, MAX_LOG_BACKUPS);
  }

  /** From an empty log, moreover, the last min(r, 5) of the r files closed so far are kept. */
  lemma FreshLogKeepsLastFive(lines: seq<Bytes>)
    ensures var end := WrittenAll(Files(NO_BACKUPS, []), lines);
            var closed := Closed([], lines);
            var kept := if |closed| < MAX_LOG_BACKUPS then |closed| else MAX_LOG_BACKUPS;
            Segments(end.backups) == closed[|closed| - kept..] &&
            IsSuffix(Flatten(Segments(end.backups)) + end.current, Flatten(lines))
  {
    NoSegments();
    assert Flatten([]) == [];
    hide Closed, WrittenAll, Flatten, SegmentsFrom, IsContiguous;
    var f := Files(NO_BACKUPS, []);
    var closed := Closed([], lines);
    var kept := if |closed| < MAX_LOG_BACKUPS then |closed| else MAX_LOG_BACKUPS;
    KeepsNewestFiles(f, lines);
    KeepsNewestBytes(f, lines);
    StaysContiguous(f, lines, 0);
    ContiguousCount(WrittenAll(f, lines).backups, kept, MAX_LOG_BACKUPS);
    assert [] + closed == closed;
    assert [] + ([] + Flatten(lines)) == Flatten(lines);
  }
}
