/** The diff panel's file tree, built from the changes. */
module ChangeTrees {
  import opened Wrappers

  datatype Change = Change(path: string, action: string)

  /** A directory's children are a JavaScript Map: in insertion order, keyed by their full paths. */
  datatype Node =
    | File(name: string, path: string, change: Change)
    | Dir(name: string, path: string, children: seq<Node>)

  // ---- Building ----------------------------------------------------------------------

  function PartsFrom(path: string, current: string): seq<string>
    decreases |path|
  {
    if path == [] then (if current == [] then [] else [current])
    else if path[0] == '/' then (if current == [] then [] else [current]) + PartsFrom(path[1..], [])
    else PartsFrom(path[1..], current + [path[0]])
  }

  /** `path.split('/').filter(Boolean)` */
  function Parts(path: string): seq<string> {
    PartsFrom(path, [])
  }

  function Key(prefix: string, part: string): string {
    if prefix == [] then part else prefix + "/" + part
  }

  /** `Map.get` */
  function Lookup(children: seq<Node>, key: string): Option<Node> {
    if children == [] then None
    else if children[0].path == key then Some(children[0])
    else Lookup(children[1..], key)
  }

  /** `Map.set`: an existing key keeps its place. */
  function Put(children: seq<Node>, node: Node): seq<Node> {
    if children == [] then [node]
    else if children[0].path == node.path then [node] + children[1..]
    else [children[0]] + Put(children[1..], node)
  }

  /** The children to descend into: an existing directory's, or those of a new one. */
  function Below(found: Option<Node>): seq<Node> {
    if found.Some? && found.value.Dir? then found.value.children else []
  }

  /** One change's walk down the tree; None is the error of descending into a file. */
  function Insert(children: seq<Node>, prefix: string, parts: seq<string>, c: Change): Option<seq<Node>>
    requires parts != []
    decreases |parts|
  {
    var key := Key(prefix, parts[0]);
    if |parts| == 1 then Some(Put(children, File(parts[0], key, c)))
    else
      var found := Lookup(children, key);
      if found.Some? && found.value.File? then None
      else
        var below := Below(found);
        match Insert(below, key, parts[1..], c)
        case None => None
        case Some(inserted) => Some(Put(children, Dir(parts[0], key, inserted)))
  }

  function Built(changes: seq<Change>): Option<seq<Node>> {
    if changes == [] then Some([])
    else
      var c := changes[|changes| - 1];
      match Built(changes[..|changes| - 1])
      case None => None
      case Some(children) => if Parts(c.path) == [] then Some(children) else Insert(children, [], Parts(c.path), c)
  }

  method BuildChangeTree(changes: seq<Change>) returns (root: Option<seq<Node>>)
    ensures root == Built(changes)
  {
    root := Some([]);
    for i := 0 to |changes|
      invariant root == Built(changes[..i])
    {
      assert changes[..i + 1][..i] == changes[..i];
      var parts := Parts(changes[i].path);
      if root.Some? && parts != [] {
        root := Insert(root.value, [], parts, changes[i]);
      }
    }
    assert changes[..|changes|] == changes;
  }

  // ---- Paths and names ---------------------------------------------------------------

  /** `parts.join('/')` */
  function JoinPath(parts: seq<string>): string {
    if parts == [] then [] else if |parts| == 1 then parts[0] else parts[0] + "/" + JoinPath(parts[1..])
  }

  predicate IsPart(part: string) {
    part != [] && '/' !in part
  }

  lemma {:induction false} PartsFromPart(current: string, part: string, rest: string)
    requires '/' !in part && (rest == [] || rest[0] == '/')
    ensures PartsFrom(part + rest, current)
         == (if current + part == [] then [] else [current + part])
            + (if rest == [] then [] else PartsFrom(rest[1..], []))
    decreases |part|
  {
    if part == [] {
      assert part + rest == rest && current + part == current;
    } else {
      assert (part + rest)[1..] == part[1..] + rest;
      assert (current + [part[0]]) + part[1..] == current + part;
      PartsFromPart(current + [part[0]], part[1..], rest);
    }
  }

  /** Nothing splits into nothing; a proper part splits off what a slash separates from it. */
  lemma FirstPart(part: string, path: string)
    ensures Parts([]) == []
    ensures IsPart(part) ==> Parts(part) == [part] && Parts(part + "/" + path) == [part] + Parts(path)
  {
    if IsPart(part) {
      var rest := "/" + path;
      PartsFromPart([], part, []);
      PartsFromPart([], part, rest);
      hide PartsFrom;
      assert [] + part == part && part + [] == part && part + "/" + path == part + rest && rest[1..] == path;
    }
  }

  /** A path made of proper parts splits into exactly those parts. */
  lemma {:induction false} PartsInvertJoin(parts: seq<string>)
    requires forall part | part in parts :: IsPart(part)
    ensures Parts(JoinPath(parts)) == parts
  {
    hide PartsFrom, IsPart;
    if parts == [] {
      FirstPart([], []);
    } else {
      var part, more := parts[0], parts[1..];
      assert part in parts && parts == [part] + more;
      FirstPart(part, JoinPath(more));
      if more != [] {
        PartsInvertJoin(more);
      }
    }
  }

  lemma {:induction false} SlashSeparatesFrom(x: string, y: string, current: string)
    ensures PartsFrom(x + "/" + y, current) == PartsFrom(x, current) + PartsFrom(y, [])
    decreases |x|
  {
    var path := x + "/" + y;
    if x == [] {
      assert path == "/" + y && path[1..] == y;
    } else {
      assert path[0] == x[0] && path[1..] == x[1..] + "/" + y;
      SlashSeparatesFrom(x[1..], y, if x[0] == '/' then [] else current + [x[0]]);
    }
  }

  /** A slash separates, and parts with nothing in them are left out: with FirstPart this determines every split. */
  lemma SlashSeparates(x: string, y: string)
    ensures Parts(x + "/" + y) == Parts(x) + Parts(y)
  {
    SlashSeparatesFrom(x, y, []);
  }

  lemma {:induction false} PartsFromAreProper(path: string, current: string)
    requires '/' !in current
    ensures forall part | part in PartsFrom(path, current) :: IsPart(part)
    decreases |path|
  {
    if path == [] {
    } else {
      PartsFromAreProper(path[1..], if path[0] == '/' then [] else current + [path[0]]);
    }
  }

  /** Every node's path is its directory's path followed by its name. */
  predicate IsWellNamed(children: seq<Node>, prefix: string) {
    forall node | node in children ::
      node.path == Key(prefix, node.name) && (node.Dir? ==> IsWellNamed(node.children, node.path))
  }

  lemma {:induction false} PutMembers(children: seq<Node>, node: Node)
    ensures forall n | n in Put(children, node) :: n == node || n in children
    ensures node in Put(children, node)
  {
    if children == [] || children[0].path == node.path {
    } else {
      PutMembers(children[1..], node);
    }
  }

  lemma {:induction false} LookupFindsMember(children: seq<Node>, key: string)
    ensures Lookup(children, key).Some? ==>
      Lookup(children, key).value in children && Lookup(children, key).value.path == key
  {
    if children == [] {
    } else {
      LookupFindsMember(children[1..], key);
    }
  }

  lemma {:induction false} InsertKeepsNames(children: seq<Node>, prefix: string, parts: seq<string>, c: Change)
    requires parts != [] && IsWellNamed(children, prefix) && Insert(children, prefix, parts, c).Some?
    ensures IsWellNamed(Insert(children, prefix, parts, c).value, prefix)
    decreases |parts|
  {
    var key := Key(prefix, parts[0]);
    var found := Lookup(children, key);
    if |parts| == 1 {
      PutMembers(children, File(parts[0], key, c));
    } else {
      LookupFindsMember(children, key);
      InsertKeepsNames(Below(found), key, parts[1..], c);
      PutMembers(children, Dir(parts[0], key, Insert(Below(found), key, parts[1..], c).value));
    }
  }

  /** Whatever the changes, a tree that is built has every node where its path says. */
  lemma {:induction false} BuiltIsWellNamed(changes: seq<Change>)
    requires Built(changes).Some?
    ensures IsWellNamed(Built(changes).value, [])
  {
    if changes == [] {
    } else {
      var init, last := changes[..|changes| - 1], changes[|changes| - 1];
      BuiltIsWellNamed(init);
      if Parts(last.path) != [] {
        InsertKeepsNames(Built(init).value, [], Parts(last.path), last);
      }
    }
  }

  // ---- What the tree holds -----------------------------------------------------------

  /** How many files of the tree carry this change. */
  function Occurrences(children: seq<Node>, c: Change): nat {
    if children == [] then 0 else OccurrencesIn(children[0], c) + Occurrences(children[1..], c)
  }

  function OccurrencesIn(node: Node, c: Change): nat {
    match node
    case File(_, _, c') => if c' == c then 1 else 0
    case Dir(_, _, children) => Occurrences(children, c)
  }

  /** Neither path runs through the other. */
  predicate AreApart(x: seq<string>, y: seq<string>) {
    !(x <= y) && !(y <= x)
  }

  /** Inserting at these parts replaces nothing and descends into no file. */
  predicate HasRoom(children: seq<Node>, prefix: string, parts: seq<string>)
    decreases |parts|
  {
    parts != [] &&
    match Lookup(children, Key(prefix, parts[0]))
    case None => true
    case Some(node) => node.Dir? && HasRoom(node.children, Key(prefix, parts[0]), parts[1..])
  }

  lemma KeyIsInjective(prefix: string, x: string, y: string)
    requires Key(prefix, x) == Key(prefix, y)
    ensures x == y
  {
    if prefix != [] {
      assert Key(prefix, x)[|prefix| + 1..] == x && Key(prefix, y)[|prefix| + 1..] == y;
    }
  }

  lemma {:induction false} LookupAfterPut(children: seq<Node>, node: Node, key: string)
    ensures Lookup(Put(children, node), key) == if key == node.path then Some(node) else Lookup(children, key)
  {
    if children == [] || children[0].path == node.path {
    } else {
      LookupAfterPut(children[1..], node, key);
    }
  }

  lemma {:induction false} OccurrencesAfterPut(children: seq<Node>, node: Node, c: Change)
    ensures Occurrences(Put(children, node), c)
         == Occurrences(children, c) + OccurrencesIn(node, c)
            - (match Lookup(children, node.path) case None => 0 case Some(old_) => OccurrencesIn(old_, c))
  {
    if children == [] || children[0].path == node.path {
    } else {
      OccurrencesAfterPut(children[1..], node, c);
    }
  }

  /** With room, insertion succeeds and adds exactly the one file. */
  lemma {:induction false} InsertAddsOne(children: seq<Node>, prefix: string, parts: seq<string>, c: Change, x: Change)
    requires HasRoom(children, prefix, parts)
    ensures Insert(children, prefix, parts, c).Some?
    ensures Occurrences(Insert(children, prefix, parts, c).value, x)
         == Occurrences(children, x) + (if c == x then 1 else 0)
    decreases |parts|
  {
    var key := Key(prefix, parts[0]);
    var found := Lookup(children, key);
    if |parts| == 1 {
      OccurrencesAfterPut(children, File(parts[0], key, c), x);
    } else {
      var below := Below(found);
      InsertAddsOne(below, key, parts[1..], c, x);
      OccurrencesAfterPut(children, Dir(parts[0], key, Insert(below, key, parts[1..], c).value), x);
    }
  }

  /** Insertion leaves the room of every path apart from the one inserted. */
  lemma {:induction false} InsertKeepsRoom(children: seq<Node>, prefix: string, parts: seq<string>, c: Change,
                                           other: seq<string>)
    requires HasRoom(children, prefix, parts) && HasRoom(children, prefix, other) && AreApart(parts, other)
    ensures Insert(children, prefix, parts, c).Some?
    ensures HasRoom(Insert(children, prefix, parts, c).value, prefix, other)
    decreases |parts|
  {
    InsertAddsOne(children, prefix, parts, c, c);
    var key := Key(prefix, parts[0]);
    var found := Lookup(children, key);
    if other[0] != parts[0] {
      if Key(prefix, other[0]) == key {
        KeyIsInjective(prefix, other[0], parts[0]);
      }
    } else {
      assert |parts| > 1 && |other| > 1;
      assert AreApart(parts[1..], other[1..]) by {
        assert parts == [parts[0]] + parts[1..] && other == [other[0]] + other[1..];
      }
      var below := Below(found);
      InsertKeepsRoom(below, key, parts[1..], c, other[1..]);
    }
    var node := if |parts| == 1 then File(parts[0], key, c)
                else Dir(parts[0], key, Insert(Below(found), key, parts[1..], c).value);
    LookupAfterPut(children, node, Key(prefix, other[0]));
  }

  /** Paths with at least one part, none running through another. */
  ghost predicate AreSeparate(changes: seq<Change>) {
    (forall i | 0 <= i < |changes| :: Parts(changes[i].path) != []) &&
    forall i, j | 0 <= i < j < |changes| :: AreApart(Parts(changes[i].path), Parts(changes[j].path))
  }

  lemma {:induction false} BuiltHasRoom(changes: seq<Change>, n: nat, other: seq<string>)
    requires AreSeparate(changes) && n <= |changes| && other != []
    requires forall i | 0 <= i < n :: AreApart(Parts(changes[i].path), other)
    ensures Built(changes[..n]).Some? && HasRoom(Built(changes[..n]).value, [], other)
    decreases n
  {
    if n == 0 {
    } else {
      var c := changes[n - 1];
      assert changes[..n][..n - 1] == changes[..n - 1];
      BuiltHasRoom(changes, n - 1, other);
      BuiltHasRoom(changes, n - 1, Parts(c.path));
      InsertKeepsRoom(Built(changes[..n - 1]).value, [], Parts(c.path), c, other);
    }
  }

  /** Separate paths build without error, and the tree's files are the changes, each as often as listed. */
  lemma {:induction false} TreeHoldsEveryChange(changes: seq<Change>, c: Change)
    requires AreSeparate(changes)
    ensures Built(changes).Some? && Occurrences(Built(changes).value, c) == multiset(changes)[c]
  {
    if changes == [] {
    } else {
      var n := |changes| - 1;
      var init, last := changes[..n], changes[n];
      TreeHoldsEveryChange(init, c);
      BuiltHasRoom(changes, n, Parts(last.path));
      InsertAddsOne(Built(init).value, [], Parts(last.path), last, c);
      hide Insert, HasRoom, Parts, Occurrences;
      assert changes == init + [last];
    }
  }

  // ---- When a change is lost ---------------------------------------------------------

  /** The number of files in the tree. */
  function Size(children: seq<Node>): nat {
    if children == [] then 0 else SizeOf(children[0]) + Size(children[1..])
  }

  function SizeOf(node: Node): nat {
    match node
    case File(_, _, _) => 1
    case Dir(_, _, children) => Size(children)
  }

  /** Directories exist only for the files below them. */
  predicate HasNoEmptyDir(children: seq<Node>) {
    forall node | node in children :: node.Dir? ==> Size(node.children) > 0 && HasNoEmptyDir(node.children)
  }

  /** There is a file at exactly these parts. */
  predicate Holds(children: seq<Node>, prefix: string, parts: seq<string>)
    decreases |parts|
  {
    parts != [] &&
    match Lookup(children, Key(prefix, parts[0]))
    case None => false
    case Some(node) =>
      if |parts| == 1 then node.File? else node.Dir? && Holds(node.children, Key(prefix, parts[0]), parts[1..])
  }

  lemma {:induction false} SizeAfterPut(children: seq<Node>, node: Node)
    ensures Size(Put(children, node))
         == Size(children) + SizeOf(node)
            - (match Lookup(children, node.path) case None => 0 case Some(old_) => SizeOf(old_))
    ensures Size(Put(children, node)) >= SizeOf(node)
    ensures forall n | n in Put(children, node) :: n == node || n in children
  {
    if children == [] || children[0].path == node.path {
    } else {
      SizeAfterPut(children[1..], node);
    }
  }

  /** An insertion that succeeds adds at most one file, and exactly one only where there is room. */
  lemma {:induction false} InsertSize(children: seq<Node>, prefix: string, parts: seq<string>, c: Change)
    requires parts != [] && HasNoEmptyDir(children) && Insert(children, prefix, parts, c).Some?
    ensures var r := Insert(children, prefix, parts, c).value;
            HasNoEmptyDir(r) && 0 < Size(r) <= Size(children) + 1 &&
            (Size(r) == Size(children) + 1 <==> HasRoom(children, prefix, parts)) && Holds(r, prefix, parts)
    decreases |parts|
  {
    var key := Key(prefix, parts[0]);
    var found := Lookup(children, key);
    LookupFindsMember(children, key);
    var node: Node;
    if |parts| == 1 {
      node := File(parts[0], key, c);
    } else {
      var below := Below(found);
      InsertSize(below, key, parts[1..], c);
      node := Dir(parts[0], key, Insert(below, key, parts[1..], c).value);
    }
    SizeAfterPut(children, node);
    LookupAfterPut(children, node, key);
  }

  lemma PrefixTail(x: seq<string>, y: seq<string>)
    requires x != [] && y != []
    ensures x <= y ==> x[1..] <= y[1..]
  {
  }

  lemma {:induction false} HeldLeavesNoRoom(children: seq<Node>, prefix: string, held: seq<string>, parts: seq<string>)
    requires Holds(children, prefix, held) && HasRoom(children, prefix, parts)
    ensures AreApart(held, parts)
    decreases |held|
  {
    if held[0] != parts[0] {
    } else {
      var node := Lookup(children, Key(prefix, parts[0])).value;
      HeldLeavesNoRoom(node.children, Key(prefix, parts[0]), held[1..], parts[1..]);
      PrefixTail(held, parts);
      PrefixTail(parts, held);
    }
  }

  /** With room for the inserted path, a file held elsewhere stays. */
  lemma {:induction false} InsertKeepsHeld(children: seq<Node>, prefix: string, parts: seq<string>, c: Change,
                                           held: seq<string>)
    requires HasRoom(children, prefix, parts) && Holds(children, prefix, held)
    ensures Insert(children, prefix, parts, c).Some? && Holds(Insert(children, prefix, parts, c).value, prefix, held)
    decreases |parts|
  {
    InsertAddsOne(children, prefix, parts, c, c);
    HeldLeavesNoRoom(children, prefix, held, parts);
    var key := Key(prefix, parts[0]);
    var found := Lookup(children, key);
    var below := Below(found);
    if held[0] != parts[0] {
      if Key(prefix, held[0]) == key {
        KeyIsInjective(prefix, held[0], parts[0]);
      }
    } else {
      assert |parts| > 1 && |held| > 1;
      InsertKeepsHeld(below, key, parts[1..], c, held[1..]);
    }
    var node := if |parts| == 1 then File(parts[0], key, c)
                else Dir(parts[0], key, Insert(below, key, parts[1..], c).value);
    LookupAfterPut(children, node, Key(prefix, held[0]));
  }

  /** The changes are separate and the tree holds a file for each. */
  ghost predicate IsIntact(children: seq<Node>, changes: seq<Change>) {
    AreSeparate(changes) && forall i | 0 <= i < |changes| :: Holds(children, [], Parts(changes[i].path))
  }

  lemma RoomHasParts(children: seq<Node>, parts: seq<string>)
    requires HasRoom(children, [], parts)
    ensures parts != []
  {
  }

  lemma IntactStep(children: seq<Node>, changes: seq<Change>, c: Change)
    requires IsIntact(children, changes) && HasRoom(children, [], Parts(c.path))
    requires Insert(children, [], Parts(c.path), c).Some? &&
      Holds(Insert(children, [], Parts(c.path), c).value, [], Parts(c.path))
    ensures IsIntact(Insert(children, [], Parts(c.path), c).value, changes + [c])
  {
    hide Parts, Holds, HasRoom, Insert;
    forall i | 0 <= i < |changes|
      ensures AreApart(Parts(changes[i].path), Parts(c.path))
      ensures Holds(Insert(children, [], Parts(c.path), c).value, [], Parts(changes[i].path))
    {
      HeldLeavesNoRoom(children, [], Parts(changes[i].path), Parts(c.path));
      InsertKeepsHeld(children, [], Parts(c.path), c, Parts(changes[i].path));
    }
    RoomHasParts(children, Parts(c.path));
  }

  lemma {:induction false} BuiltSize(changes: seq<Change>)
    requires Built(changes).Some?
    ensures HasNoEmptyDir(Built(changes).value) && Size(Built(changes).value) <= |changes|
    ensures Size(Built(changes).value) == |changes| ==> IsIntact(Built(changes).value, changes)
  {
    if changes == [] {
    } else {
      hide Parts, Holds, HasRoom, Insert, Size, HasNoEmptyDir, AreSeparate;
      var n := |changes| - 1;
      var init, last := changes[..n], changes[n];
      BuiltSize(init);
      if Parts(last.path) != [] {
        InsertSize(Built(init).value, [], Parts(last.path), last);
        assert changes == init + [last];
        if Size(Built(changes).value) == |changes| {
          IntactStep(Built(init).value, init, last);
        }
      }
    }
  }

  lemma {:induction false} SeparateSize(changes: seq<Change>)
    requires AreSeparate(changes)
    ensures Built(changes).Some? && Size(Built(changes).value) == |changes|
  {
    if changes == [] {
    } else {
      var n := |changes| - 1;
      var init, last := changes[..n], changes[n];
      SeparateSize(init);
      BuiltSize(init);
      BuiltHasRoom(changes, n, Parts(last.path));
      InsertAddsOne(Built(init).value, [], Parts(last.path), last, last);
      InsertSize(Built(init).value, [], Parts(last.path), last);
    }
  }

  /** Building keeps every change exactly when the paths are separate; otherwise it fails or drops a file. */
  lemma KeepsEveryChangeIff(changes: seq<Change>)
    ensures Built(changes).Some? && Size(Built(changes).value) == |changes| <==> AreSeparate(changes)
  {
    if AreSeparate(changes) {
      SeparateSize(changes);
    }
    if Built(changes).Some? {
      BuiltSize(changes);
    }
  }

  // ---- The tree as a map -------------------------------------------------------------

  /** The change of the file at these parts. */
  function FileAt(children: seq<Node>, prefix: string, parts: seq<string>): Option<Change>
    decreases |parts|
  {
    if parts == [] then None
    else
      match Lookup(children, Key(prefix, parts[0]))
      case None => None
      case Some(File(_, _, c)) => if |parts| == 1 then Some(c) else None
      case Some(Dir(_, _, below)) => FileAt(below, Key(prefix, parts[0]), parts[1..])
  }

  lemma ApartTails(x: seq<string>, y: seq<string>)
    requires x != [] && y != []
    ensures x[0] == y[0] ==>
      (x <= y <==> x[1..] <= y[1..]) && (y <= x <==> y[1..] <= x[1..]) && (x == y <==> x[1..] == y[1..])
    ensures x[0] != y[0] ==> AreApart(x, y)
  {
    assert x == [x[0]] + x[1..] && y == [y[0]] + y[1..];
  }

  /** Inserting a change puts it at its parts, removes what these run through or what runs through them, and no more. */
  lemma {:induction false} InsertFileAt(children: seq<Node>, prefix: string, parts: seq<string>, c: Change,
                                        other: seq<string>)
    requires parts != [] && other != [] && Insert(children, prefix, parts, c).Some?
    ensures FileAt(Insert(children, prefix, parts, c).value, prefix, other)
         == if other == parts then Some(c) else if AreApart(parts, other) then FileAt(children, prefix, other) else None
    decreases |parts|
  {
    var key := Key(prefix, parts[0]);
    var below := Below(Lookup(children, key));
    var node := if |parts| == 1 then File(parts[0], key, c)
                else Dir(parts[0], key, Insert(below, key, parts[1..], c).value);
    LookupAfterPut(children, node, Key(prefix, other[0]));
    ApartTails(parts, other);
    if other[0] != parts[0] {
      if Key(prefix, other[0]) == key {
        KeyIsInjective(prefix, other[0], parts[0]);
      }
    } else if |parts| > 1 && |other| > 1 {
      InsertFileAt(below, key, parts[1..], c, other[1..]);
    }
  }

  /** Inserting fails exactly if the parts run through a file. */
  lemma {:induction false} InsertFailsIff(children: seq<Node>, prefix: string, parts: seq<string>, c: Change)
    requires parts != []
    ensures Insert(children, prefix, parts, c).None? <==>
            exists n :: 0 < n < |parts| && FileAt(children, prefix, parts[..n]).Some?
    decreases |parts|
  {
    var key := Key(prefix, parts[0]);
    var found := Lookup(children, key);
    if |parts| == 1 {
    } else if found.Some? && found.value.File? {
      assert parts[..1][0] == parts[0] && FileAt(children, prefix, parts[..1]).Some?;
    } else {
      var below := Below(found);
      InsertFailsIff(below, key, parts[1..], c);
      forall n | 0 < n < |parts|
        ensures FileAt(children, prefix, parts[..n]) == FileAt(below, key, parts[1..][..n - 1])
      {
        assert parts[..n][1..] == parts[1..][..n - 1] && parts[..n][0] == parts[0];
      }
      if n :| 0 < n < |parts[1..]| && FileAt(below, key, parts[1..][..n]).Some? {
        assert FileAt(children, prefix, parts[..n + 1]).Some?;
      }
      if n :| 0 < n < |parts| && FileAt(children, prefix, parts[..n]).Some? {
        assert FileAt(below, key, parts[1..][..n - 1]).Some?;
      }
    }
  }

  /** Change i names these parts, and no later change names them, runs through them, or is run through by them. */
  ghost predicate Survives(changes: seq<Change>, i: int, parts: seq<string>) {
    0 <= i < |changes| && Parts(changes[i].path) == parts &&
    forall j | i < j < |changes| && Parts(changes[j].path) != [] :: AreApart(Parts(changes[j].path), parts)
  }

  lemma SurvivesMore(init: seq<Change>, last: Change, parts: seq<string>)
    requires parts != []
    ensures Survives(init + [last], |init|, parts) <==> Parts(last.path) == parts
    ensures forall i | 0 <= i < |init| ::
      Survives(init + [last], i, parts) <==>
      Survives(init, i, parts) && (Parts(last.path) != [] ==> AreApart(Parts(last.path), parts))
  {
    hide Parts;
    assert forall i | 0 <= i < |init| :: (init + [last])[i] == init[i];
  }

  ghost predicate IsSurvivor(changes: seq<Change>, i: int, parts: seq<string>, c: Change) {
    Survives(changes, i, parts) && changes[i] == c
  }

  lemma InRange(changes: seq<Change>, i: int, parts: seq<string>)
    requires Survives(changes, i, parts)
    ensures 0 <= i < |changes| && Parts(changes[i].path) == parts
  {
  }

  lemma SurvivorsMore(init: seq<Change>, last: Change, parts: seq<string>, c: Change)
    requires parts != []
    ensures (exists i :: IsSurvivor(init + [last], i, parts, c)) <==>
            (Parts(last.path) == parts && last == c) ||
            ((Parts(last.path) != [] ==> AreApart(Parts(last.path), parts)) &&
             exists i :: IsSurvivor(init, i, parts, c))
  {
    SurvivesMore(init, last, parts);
    hide Survives, Parts;
    var changes := init + [last];
    if i :| IsSurvivor(init, i, parts, c) && (Parts(last.path) != [] ==> AreApart(Parts(last.path), parts)) {
      InRange(init, i, parts);
      assert IsSurvivor(changes, i, parts, c);
    }
    if i :| IsSurvivor(changes, i, parts, c) {
      InRange(changes, i, parts);
      assert i < |init| ==> IsSurvivor(init, i, parts, c);
    }
    if Parts(last.path) == parts && last == c {
      assert IsSurvivor(changes, |init|, parts, c);
    }
  }

  /** What is in the tree: at every path the last change made there, unless a later one has displaced it. */
  lemma {:induction false} BuiltHoldsSurvivors(changes: seq<Change>, parts: seq<string>, c: Change)
    requires Built(changes).Some? && parts != []
    ensures FileAt(Built(changes).value, [], parts) == Some(c) <==> exists i :: IsSurvivor(changes, i, parts, c)
  {
    if changes == [] {
    } else {
      var init, last := changes[..|changes| - 1], changes[|changes| - 1];
      BuiltHoldsSurvivors(init, parts, c);
      hide FileAt, Parts, Insert, IsSurvivor;
      if Parts(last.path) != [] {
        InsertFileAt(Built(init).value, [], Parts(last.path), last, parts);
      }
      assert changes == init + [last];
      SurvivorsMore(init, last, parts, c);
    }
  }

  /** Change i has left a file on the way to these parts. */
  ghost predicate IsOnTheWay(changes: seq<Change>, i: int, parts: seq<string>) {
    0 <= i < |changes| && Parts(changes[i].path) != [] && Parts(changes[i].path) < parts &&
    Survives(changes, i, Parts(changes[i].path))
  }

  lemma FileOnTheWay(changes: seq<Change>, parts: seq<string>)
    requires Built(changes).Some?
    ensures (exists n :: 0 < n < |parts| && FileAt(Built(changes).value, [], parts[..n]).Some?) <==>
            exists i :: IsOnTheWay(changes, i, parts)
  {
    hide Parts, FileAt, Built, Survives;
    if n :| 0 < n < |parts| && FileAt(Built(changes).value, [], parts[..n]).Some? {
      var c := FileAt(Built(changes).value, [], parts[..n]).value;
      BuiltHoldsSurvivors(changes, parts[..n], c);
      var i :| IsSurvivor(changes, i, parts[..n], c);
      InRange(changes, i, parts[..n]);
      assert IsOnTheWay(changes, i, parts);
    }
    if i :| IsOnTheWay(changes, i, parts) {
      var n := |Parts(changes[i].path)|;
      assert parts[..n] == Parts(changes[i].path);
      BuiltHoldsSurvivors(changes, parts[..n], changes[i]);
      assert IsSurvivor(changes, i, parts[..n], changes[i]);
    }
  }

  /** When change j is inserted, change i has left a file on its way. */
  ghost predicate IsBlocked(changes: seq<Change>, i: int, j: int) {
    0 <= i < j < |changes| && IsOnTheWay(changes[..j], i, Parts(changes[j].path))
  }

  lemma BlockedMore(init: seq<Change>, last: Change)
    ensures (exists i, j :: IsBlocked(init + [last], i, j)) <==>
            (exists i, j :: IsBlocked(init, i, j)) || exists i :: IsOnTheWay(init, i, Parts(last.path))
  {
    hide Parts;
    var changes := init + [last];
    assert changes[..|init|] == init && forall j | 0 <= j < |init| :: changes[..j] == init[..j];
    if i, j :| IsBlocked(changes, i, j) {
      assert j < |init| ==> IsBlocked(init, i, j);
    }
    if i, j :| IsBlocked(init, i, j) {
      assert IsBlocked(changes, i, j);
    }
    if i :| IsOnTheWay(init, i, Parts(last.path)) {
      assert IsBlocked(changes, i, |init|);
    }
  }

  /** Building fails exactly if some change finds a file on its way. */
  lemma {:induction false} BuiltFailsIff(changes: seq<Change>)
    ensures Built(changes).None? <==> exists i, j :: IsBlocked(changes, i, j)
  {
    if changes == [] {
    } else {
      var init, last := changes[..|changes| - 1], changes[|changes| - 1];
      BuiltFailsIff(init);
      hide FileAt, Parts, Insert, IsOnTheWay, IsBlocked;
      assert changes == init + [last];
      BlockedMore(init, last);
      if Built(init).Some? {
        FileOnTheWay(init, Parts(last.path));
        if Parts(last.path) != [] {
          InsertFailsIff(Built(init).value, [], Parts(last.path), last);
        }
      }
    }
  }

  // ---- Names and places --------------------------------------------------------------

  /** Below the directory `above`, each file stands where its change says, and no two nodes have the same path. */
  ghost predicate IsPlaced(children: seq<Node>, above: seq<string>) {
    (forall i, j | 0 <= i < j < |children| :: children[i].path != children[j].path) &&
    forall node | node in children ::
      node.path == JoinPath(above + [node.name]) &&
      (node.File? ==> Parts(node.change.path) == above + [node.name]) &&
      (node.Dir? ==> IsPlaced(node.children, above + [node.name]))
  }

  lemma {:induction false} JoinAppend(above: seq<string>, part: string)
    requires forall p | p in above :: p != []
    ensures JoinPath(above + [part]) == Key(JoinPath(above), part)
    ensures above != [] ==> JoinPath(above) != []
  {
    if above == [] {
      assert [] + [part] == [part];
    } else {
      var more := above[1..];
      assert above[0] in above && above == [above[0]] + more && (above + [part])[1..] == more + [part];
      assert forall p | p in more :: p in above;
      JoinAppend(more, part);
      assert above[0] + "/" + (JoinPath(more) + "/" + part) == (above[0] + "/" + JoinPath(more)) + "/" + part;
    }
  }

  lemma {:induction false} PutKeepsDistinct(children: seq<Node>, node: Node)
    requires forall i, j | 0 <= i < j < |children| :: children[i].path != children[j].path
    ensures forall i, j | 0 <= i < j < |Put(children, node)| ::
      Put(children, node)[i].path != Put(children, node)[j].path
  {
    if children == [] || children[0].path == node.path {
    } else {
      PutKeepsDistinct(children[1..], node);
      PutMembers(children[1..], node);
      forall other | other in Put(children[1..], node)
        ensures other.path != children[0].path
      {
        if other != node {
          var i :| 0 <= i < |children[1..]| && children[1..][i] == other;
          assert children[i + 1] == other;
        }
      }
    }
  }

  lemma SameName(above: seq<string>, x: string, y: string)
    requires JoinPath(above + [x]) == JoinPath(above + [y]) && forall p | p in above :: p != []
    ensures x == y
  {
    JoinAppend(above, x);
    JoinAppend(above, y);
    KeyIsInjective(JoinPath(above), x, y);
  }

  lemma {:induction false} InsertKeepsPlaces(children: seq<Node>, above: seq<string>, parts: seq<string>, c: Change)
    requires parts != [] && Parts(c.path) == above + parts && forall p | p in above + parts :: p != []
    requires IsPlaced(children, above) && Insert(children, JoinPath(above), parts, c).Some?
    ensures IsPlaced(Insert(children, JoinPath(above), parts, c).value, above)
    decreases |parts|
  {
    hide Parts, JoinPath;
    var prefix := JoinPath(above);
    var key := Key(prefix, parts[0]);
    var found := Lookup(children, key);
    assert parts[0] in above + parts && forall p | p in above :: p in above + parts;
    JoinAppend(above, parts[0]);
    assert above + parts == above + [parts[0]] + parts[1..];
    LookupFindsMember(children, key);
    var node: Node;
    if |parts| == 1 {
      assert parts == [parts[0]];
      node := File(parts[0], key, c);
    } else {
      var below := Below(found);
      if below != [] {
        SameName(above, found.value.name, parts[0]);
      }
      assert IsPlaced(below, above + [parts[0]]);
      InsertKeepsPlaces(below, above + [parts[0]], parts[1..], c);
      node := Dir(parts[0], key, Insert(below, key, parts[1..], c).value);
    }
    PutKeepsDistinct(children, node);
    PutMembers(children, node);
  }

  /** Whatever the changes, in a tree that is built every file stands at its change's path, under its name. */
  lemma {:induction false} BuiltIsPlaced(changes: seq<Change>)
    requires Built(changes).Some?
    ensures IsPlaced(Built(changes).value, [])
  {
    if changes == [] {
    } else {
      var init, last := changes[..|changes| - 1], changes[|changes| - 1];
      BuiltIsPlaced(init);
      if Parts(last.path) != [] {
        PartsFromAreProper(last.path, []);
        assert [] + Parts(last.path) == Parts(last.path) && JoinPath([]) == [];
        InsertKeepsPlaces(Built(init).value, [], Parts(last.path), last);
      }
    }
  }

  // ---- A collision -------------------------------------------------------------------

  lemma BuiltOfTwo(x: Change, y: Change)
    requires Parts(x.path) != [] && Parts(y.path) != []
    ensures Built([x, y])
         == match Insert([], [], Parts(x.path), x)
            case None => None
            case Some(kids) => Insert(kids, [], Parts(y.path), y)
  {
    hide Insert, Parts;
    assert [x, y][..1] == [x] && [x][..0] == [];
    assert Built([]) == Some([]) && Built([x]) == Insert([], [], Parts(x.path), x);
  }

  lemma InsertFile(children: seq<Node>, c: Change)
    ensures Insert(children, [], ["a"], c) == Some(Put(children, File("a", "a", c)))
  {
    assert |["a"]| == 1;
  }

  lemma InsertBelow(c: Change)
    ensures Insert([], [], ["a", "b"], c) == Some([Dir("a", "a", [File("b", "a/b", c)])])
    ensures forall file: Node | file.File? && file.path == "a" :: Insert([file], [], ["a", "b"], c) == None
  {
    assert ["a", "b"][1..] == ["b"] && Key("a", "b") == "a/b";
    assert Insert([], "a", ["b"], c) == Some(Put([], File("b", "a/b", c)));
  }

  /** For instance a and a/b: in this order the tree is not built at all, in the other it drops a/b. */
  lemma FileAndDirectoryCollide(x: Change, y: Change)
    requires x.path == "a" && y.path == "a/b"
    ensures Built([x, y]) == None && Built([y, x]) == Some([File("a", "a", x)])
  {
    var file, dir := File("a", "a", x), Dir("a", "a", [File("b", "a/b", y)]);
    assert Parts("a") == ["a"] && Parts("a/b") == ["a", "b"] by {
      hide Parts;
      PartsInvertJoin(["a"]);
      PartsInvertJoin(["a", "b"]);
      assert ["a", "b"][1..] == ["b"] && JoinPath(["b"]) == "b" && JoinPath(["a", "b"]) == "a/b";
    }
    InsertFile([], x);
    InsertFile([dir], x);
    InsertBelow(y);
    assert [dir][1..] == [] && Put([dir], file) == [file] && Put([], file) == [file];
    hide Insert, Parts, Put;
    BuiltOfTwo(x, y);
    BuiltOfTwo(y, x);
  }
}
