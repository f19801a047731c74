/** Projecting the diff panel's file tree onto the rows that are visible. */
module ChangeRows {
  import opened ChangeTrees
  import opened Strings

  datatype Row =
    | FileRow(depth: nat, path: string, name: string, action: string)
    | DirRow(depth: nat, path: string, name: string, open: bool, count: nat)

  /** Lower-casing and the locale's order of names are the platform's. */
  datatype Filter = Filter(query: string, actions: set<string>, lower: string -> string,
                           nameLeq: (string, string) -> bool)

  predicate Includes(s: string, part: string) {
    part <= s || (s != [] && Includes(s[1..], part))
  }

  predicate Passes(file: Node, filter: Filter)
    requires file.File?
  {
    file.change.action in filter.actions && (filter.query == [] || Includes(filter.lower(file.path), filter.query))
  }

  // ---- Sorting -----------------------------------------------------------------------

  predicate NodeLeq(x: Node, y: Node, filter: Filter) {
    if x.File? != y.File? then x.Dir? else filter.nameLeq(x.name, y.name)
  }

  function InsertSorted(x: Node, s: seq<Node>, filter: Filter): seq<Node> {
    if s == [] || NodeLeq(x, s[0], filter) then [x] + s else [s[0]] + InsertSorted(x, s[1..], filter)
  }

  /** `kids.sort`: directories first, then by name. */
  function Sorted(kids: seq<Node>, filter: Filter): seq<Node> {
    if kids == [] then [] else InsertSorted(kids[0], Sorted(kids[1..], filter), filter)
  }

  function Weight(node: Node): nat {
    match node
    case File(_, _, _) => 1
    case Dir(_, _, children) => 1 + WeightAll(children)
  }

  function WeightAll(kids: seq<Node>): nat {
    if kids == [] then 0 else Weight(kids[0]) + WeightAll(kids[1..])
  }

  lemma {:induction false} InsertSortedKeeps(x: Node, s: seq<Node>, filter: Filter, c: Change)
    ensures WeightAll(InsertSorted(x, s, filter)) == Weight(x) + WeightAll(s)
    ensures Occurrences(InsertSorted(x, s, filter), c) == OccurrencesIn(x, c) + Occurrences(s, c)
    ensures forall n :: n in InsertSorted(x, s, filter) <==> n == x || n in s
  {
    if s == [] || NodeLeq(x, s[0], filter) {
      assert ([x] + s)[1..] == s;
    } else {
      InsertSortedKeeps(x, s[1..], filter, c);
      assert ([s[0]] + InsertSorted(x, s[1..], filter))[1..] == InsertSorted(x, s[1..], filter);
    }
  }

  lemma {:induction false} SortedKeeps(kids: seq<Node>, filter: Filter, c: Change)
    ensures WeightAll(Sorted(kids, filter)) == WeightAll(kids)
    ensures Occurrences(Sorted(kids, filter), c) == Occurrences(kids, c)
    ensures forall n :: n in Sorted(kids, filter) <==> n in kids
  {
    if kids == [] {
    } else {
      SortedKeeps(kids[1..], filter, c);
      InsertSortedKeeps(kids[0], Sorted(kids[1..], filter), filter, c);
    }
  }

  ghost predicate IsNameOrder(filter: Filter) {
    (forall x, y :: filter.nameLeq(x, y) || filter.nameLeq(y, x)) &&
    forall x, y, z :: filter.nameLeq(x, y) && filter.nameLeq(y, z) ==> filter.nameLeq(x, z)
  }

  ghost predicate IsOrdered(s: seq<Node>, filter: Filter) {
    forall i, j | 0 <= i < j < |s| :: NodeLeq(s[i], s[j], filter)
  }

  lemma {:induction false} InsertKeepsOrder(x: Node, s: seq<Node>, filter: Filter)
    requires IsNameOrder(filter) && IsOrdered(s, filter)
    ensures IsOrdered(InsertSorted(x, s, filter), filter)
  {
    if s == [] || NodeLeq(x, s[0], filter) {
      forall y | y in s
        ensures NodeLeq(x, y, filter)
      {
        var i :| 0 <= i < |s| && s[i] == y;
        assert i > 0 ==> NodeLeq(s[0], s[i], filter);
      }
    } else {
      InsertKeepsOrder(x, s[1..], filter);
      InsertSortedKeeps(x, s[1..], filter, Change([], []));
      forall y | y in InsertSorted(x, s[1..], filter)
        ensures NodeLeq(s[0], y, filter)
      {
        if y in s[1..] {
          var i :| 0 <= i < |s[1..]| && s[1..][i] == y;
          assert NodeLeq(s[0], s[i + 1], filter);
        }
      }
    }
  }

  lemma {:induction false} SortedIsOrdered(kids: seq<Node>, filter: Filter)
    requires IsNameOrder(filter)
    ensures IsOrdered(Sorted(kids, filter), filter)
  {
    if kids == [] {
    } else {
      SortedIsOrdered(kids[1..], filter);
      InsertKeepsOrder(kids[0], Sorted(kids[1..], filter), filter);
    }
  }

  /** Directories come first, and each kind is in name order. */
  lemma SortedDirsFirst(kids: seq<Node>, filter: Filter)
    requires IsNameOrder(filter)
    ensures var s := Sorted(kids, filter);
            forall i, j | 0 <= i < j < |s| ::
              (s[i].File? ==> s[j].File?) && (s[i].File? == s[j].File? ==> filter.nameLeq(s[i].name, s[j].name))
  {
    SortedIsOrdered(kids, filter);
    var s := Sorted(kids, filter);
    forall i, j | 0 <= i < j < |s|
      ensures (s[i].File? ==> s[j].File?) && (s[i].File? == s[j].File? ==> filter.nameLeq(s[i].name, s[j].name))
    {
      assert NodeLeq(s[i], s[j], filter);
    }
  }

  lemma SortedWeight(kids: seq<Node>, filter: Filter)
    ensures WeightAll(Sorted(kids, filter)) == WeightAll(kids)
  {
    SortedKeeps(kids, filter, Change([], []));
  }

  // ---- Rows --------------------------------------------------------------------------

  function CountFiles(rows: seq<Row>): nat {
    if rows == [] then 0 else (if rows[0].FileRow? then 1 else 0) + CountFiles(rows[1..])
  }

  function Rows(kids: seq<Node>, depth: nat, filter: Filter, expanded: set<string>): seq<Row>
    decreases WeightAll(kids), 1, 0
  {
    SortedWeight(kids, filter);
    RowsInOrder(Sorted(kids, filter), depth, filter, expanded)
  }

  function RowsInOrder(kids: seq<Node>, depth: nat, filter: Filter, expanded: set<string>): seq<Row>
    decreases WeightAll(kids), 0, |kids|
  {
    if kids == [] then []
    else RowsOf(kids[0], depth, filter, expanded) + RowsInOrder(kids[1..], depth, filter, expanded)
  }

  function RowsOf(node: Node, depth: nat, filter: Filter, expanded: set<string>): seq<Row>
    decreases Weight(node), 0, 0
  {
    match node
    case File(name, _, c) => if Passes(node, filter) then [FileRow(depth, c.path, name, c.action)] else []
    case Dir(name, path, children) =>
      var below := Rows(children, depth + 1, filter, expanded);
      if below == [] then []
      else [DirRow(depth, path, name, path in expanded, CountFiles(below))] + (if path in expanded then below else [])
  }

  lemma Associate(x: seq<Row>, y: seq<Row>, z: seq<Row>)
    ensures (x + y) + z == x + (y + z)
  {
  }

  lemma UnfoldRows(kids: seq<Node>, i: nat, depth: nat, filter: Filter, expanded: set<string>)
    requires i < |kids|
    ensures RowsInOrder(kids[i..], depth, filter, expanded)
         == RowsOf(kids[i], depth, filter, expanded) + RowsInOrder(kids[i + 1..], depth, filter, expanded)
  {
    assert kids[i..][1..] == kids[i + 1..];
  }

  lemma {:induction false} WeightAt(kids: seq<Node>, i: nat)
    requires i < |kids|
    ensures Weight(kids[i]) <= WeightAll(kids)
  {
    if i == 0 {
    } else {
      WeightAt(kids[1..], i - 1);
    }
  }

  /** The recursion of the panel, pushing onto the caller's rows. */
  method TreeToRows(children: seq<Node>, depth: nat, rows0: seq<Row>, filter: Filter, expanded: set<string>)
    returns (rows: seq<Row>)
    ensures rows == rows0 + Rows(children, depth, filter, expanded)
    decreases WeightAll(children), 1
  {
    rows := rows0;
    var kids := Sorted(children, filter);
    SortedWeight(children, filter);
    assert kids[0..] == kids;
    for i := 0 to |kids|
      invariant rows + RowsInOrder(kids[i..], depth, filter, expanded)
           == rows0 + RowsInOrder(kids, depth, filter, expanded)
    {
      hide RowsOf, RowsInOrder, Rows, Sorted;
      UnfoldRows(kids, i, depth, filter, expanded);
      WeightAt(kids, i);
      var before := rows;
      rows := PushChild(kids[i], depth, rows, filter, expanded);
      Associate(before, RowsOf(kids[i], depth, filter, expanded), RowsInOrder(kids[i + 1..], depth, filter, expanded));
    }
    assert kids[|kids|..] == [];
  }

  /** One turn of its loop. */
  method PushChild(child: Node, depth: nat, rows0: seq<Row>, filter: Filter, expanded: set<string>)
    returns (rows: seq<Row>)
    ensures rows == rows0 + RowsOf(child, depth, filter, expanded)
    decreases Weight(child), 0
  {
    rows := rows0;
    if child.File? {
      if child.change.action in filter.actions &&
        (filter.query == [] || Includes(filter.lower(child.path), filter.query)) {
        rows := rows + [FileRow(depth, child.change.path, child.name, child.change.action)];
      }
    } else {
      var isOpen := child.path in expanded;
      var tmp := TreeToRows(child.children, depth + 1, [], filter, expanded);
      hide Rows;
      assert tmp == Rows(child.children, depth + 1, filter, expanded);
      if tmp != [] {
        var row := DirRow(depth, child.path, child.name, isOpen, CountFiles(tmp));
        rows := rows + [row];
        Associate(rows0, [row], tmp);
        if isOpen {
          rows := rows + tmp;
        }
      }
    }
  }

  // ---- Collapsing is projection ------------------------------------------------------

  /** A row with the display-only fields blanked, and the directories it sits under. */
  datatype Entry = Entry(row: Row, under: seq<string>)

  function Blank(row: Row): Row {
    match row
    case FileRow(_, _, _, _) => row
    case DirRow(depth, path, name, _, _) => DirRow(depth, path, name, false, 0)
  }

  function BlankAll(rows: seq<Row>): seq<Row> {
    if rows == [] then [] else [Blank(rows[0])] + BlankAll(rows[1..])
  }

  /** Every row there is to show, whatever is collapsed. */
  function Outline(kids: seq<Node>, depth: nat, filter: Filter, under: seq<string>): seq<Entry>
    decreases WeightAll(kids), 1, 0
  {
    SortedWeight(kids, filter);
    OutlineInOrder(Sorted(kids, filter), depth, filter, under)
  }

  function OutlineInOrder(kids: seq<Node>, depth: nat, filter: Filter, under: seq<string>): seq<Entry>
    decreases WeightAll(kids), 0, |kids|
  {
    if kids == [] then []
    else OutlineOf(kids[0], depth, filter, under) + OutlineInOrder(kids[1..], depth, filter, under)
  }

  function OutlineOf(node: Node, depth: nat, filter: Filter, under: seq<string>): seq<Entry>
    decreases Weight(node), 0, 0
  {
    match node
    case File(name, _, c) => if Passes(node, filter) then [Entry(FileRow(depth, c.path, name, c.action), under)] else []
    case Dir(name, path, children) =>
      var below := Outline(children, depth + 1, filter, under + [path]);
      if below == [] then [] else [Entry(DirRow(depth, path, name, false, 0), under)] + below
  }

  predicate IsVisible(e: Entry, expanded: set<string>) {
    forall p | p in e.under :: p in expanded
  }

  /** The rows whose ancestors are all open. */
  function Visible(entries: seq<Entry>, expanded: set<string>): seq<Row> {
    if entries == [] then []
    else (if IsVisible(entries[0], expanded) then [entries[0].row] else []) + Visible(entries[1..], expanded)
  }

  lemma {:induction false} VisibleConcat(x: seq<Entry>, y: seq<Entry>, expanded: set<string>)
    ensures Visible(x + y, expanded) == Visible(x, expanded) + Visible(y, expanded)
  {
    hide IsVisible;
    if x == [] {
      assert x + y == y;
    } else {
      assert (x + y)[1..] == x[1..] + y;
      var first := if IsVisible(x[0], expanded) then [x[0].row] else [];
      assert Visible(x + y, expanded) == first + Visible(x[1..] + y, expanded);
      assert Visible(x, expanded) == first + Visible(x[1..], expanded);
      hide Visible;
      VisibleConcat(x[1..], y, expanded);
      Associate(first, Visible(x[1..], expanded), Visible(y, expanded));
    }
  }

  lemma {:induction false} BlankConcat(x: seq<Row>, y: seq<Row>)
    ensures BlankAll(x + y) == BlankAll(x) + BlankAll(y)
  {
    hide Blank;
    if x == [] {
      assert x + y == y;
    } else {
      assert (x + y)[1..] == x[1..] + y;
      assert BlankAll(x + y) == [Blank(x[0])] + BlankAll(x[1..] + y) && BlankAll(x) == [Blank(x[0])] + BlankAll(x[1..]);
      hide BlankAll;
      BlankConcat(x[1..], y);
      Associate([Blank(x[0])], BlankAll(x[1..]), BlankAll(y));
    }
  }

  predicate AllOpen(under: seq<string>, expanded: set<string>) {
    forall p | p in under :: p in expanded
  }

  lemma OneBlank(row: Row)
    ensures BlankAll([row]) == [Blank(row)]
  {
    assert [row][1..] == [] && BlankAll([]) == [];
  }

  lemma OneEntry(e: Entry, expanded: set<string>)
    ensures Visible([e], expanded) == if AllOpen(e.under, expanded) then [e.row] else []
  {
    assert [e][1..] == [];
  }

  lemma DirIsVisible(head: Entry, row: Row, below: seq<Entry>, rows: seq<Row>, open: bool, expanded: set<string>)
    requires Blank(row) == head.row
    requires Visible(below, expanded) == if AllOpen(head.under, expanded) && open then BlankAll(rows) else []
    ensures Visible([head] + below, expanded)
         == if AllOpen(head.under, expanded) then BlankAll([row] + if open then rows else []) else []
  {
    assert BlankAll([]) == [];
    OneBlank(row);
    OneEntry(head, expanded);
    hide Visible, BlankAll, AllOpen;
    VisibleConcat([head], below, expanded);
    BlankConcat([row], if open then rows else []);
  }

  lemma {:induction false} RowsAreVisible(kids: seq<Node>, depth: nat, filter: Filter, under: seq<string>,
                                          expanded: set<string>)
    ensures Visible(Outline(kids, depth, filter, under), expanded)
         == if AllOpen(under, expanded) then BlankAll(Rows(kids, depth, filter, expanded)) else []
    ensures Rows(kids, depth, filter, expanded) == [] <==> Outline(kids, depth, filter, under) == []
    decreases WeightAll(kids), 1, 0
  {
    SortedWeight(kids, filter);
    RowsInOrderAreVisible(Sorted(kids, filter), depth, filter, under, expanded);
  }

  lemma {:induction false} RowsInOrderAreVisible(kids: seq<Node>, depth: nat, filter: Filter, under: seq<string>,
                                                 expanded: set<string>)
    ensures Visible(OutlineInOrder(kids, depth, filter, under), expanded)
         == if AllOpen(under, expanded) then BlankAll(RowsInOrder(kids, depth, filter, expanded)) else []
    ensures RowsInOrder(kids, depth, filter, expanded) == [] <==> OutlineInOrder(kids, depth, filter, under) == []
    decreases WeightAll(kids), 0, |kids|
  {
    if kids == [] {
    } else {
      RowsOfAreVisible(kids[0], depth, filter, under, expanded);
      RowsInOrderAreVisible(kids[1..], depth, filter, under, expanded);
      VisibleConcat(OutlineOf(kids[0], depth, filter, under), OutlineInOrder(kids[1..], depth, filter, under),
          expanded);
      BlankConcat(RowsOf(kids[0], depth, filter, expanded), RowsInOrder(kids[1..], depth, filter, expanded));
    }
  }

  lemma {:induction false} RowsOfAreVisible(node: Node, depth: nat, filter: Filter, under: seq<string>,
                                            expanded: set<string>)
    ensures Visible(OutlineOf(node, depth, filter, under), expanded)
         == if AllOpen(under, expanded) then BlankAll(RowsOf(node, depth, filter, expanded)) else []
    ensures RowsOf(node, depth, filter, expanded) == [] <==> OutlineOf(node, depth, filter, under) == []
    decreases Weight(node), 0, 0
  {
    match node {
      case File(name, _, c) =>
        if Passes(node, filter) {
          OneEntry(Entry(FileRow(depth, c.path, name, c.action), under), expanded);
        }
      case Dir(name, path, children) =>
        RowsAreVisible(children, depth + 1, filter, under + [path], expanded);
        var below := Outline(children, depth + 1, filter, under + [path]);
        var rows := Rows(children, depth + 1, filter, expanded);
        var head := Entry(DirRow(depth, path, name, false, 0), under);
        var row := DirRow(depth, path, name, path in expanded, CountFiles(rows));
        assert AllOpen(under + [path], expanded) <==> AllOpen(under, expanded) && path in expanded by {
          assert forall p :: p in under + [path] <==> p in under || p == path;
        }
        hide Visible, BlankAll, Outline, Rows, AllOpen, WeightAll, CountFiles;
        DirIsVisible(head, row, below, rows, path in expanded, expanded);
    }
  }

  lemma {:induction false} BlankKeepsCount(rows: seq<Row>)
    ensures CountFiles(BlankAll(rows)) == CountFiles(rows)
  {
    if rows == [] {
    } else {
      BlankKeepsCount(rows[1..]);
      assert ([Blank(rows[0])] + BlankAll(rows[1..]))[1..] == BlankAll(rows[1..]);
    }
  }

  /** A directory's count is the number of passing files below it that no collapsed directory in between hides. */
  lemma CountSkipsCollapsed(children: seq<Node>, depth: nat, filter: Filter, expanded: set<string>)
    ensures CountFiles(Rows(children, depth, filter, expanded))
         == CountFiles(Visible(Outline(children, depth, filter, []), expanded))
  {
    RowsAreVisible(children, depth, filter, [], expanded);
    BlankKeepsCount(Rows(children, depth, filter, expanded));
  }

  ghost predicate HasRightFlags(rows: seq<Row>, expanded: set<string>) {
    forall r | r in rows :: r.DirRow? ==> (r.open <==> r.path in expanded)
  }

  /** Directory rows are marked open exactly when they are expanded. */
  lemma {:induction false} FlagsAreRight(kids: seq<Node>, depth: nat, filter: Filter, expanded: set<string>)
    ensures HasRightFlags(RowsInOrder(kids, depth, filter, expanded), expanded)
    decreases WeightAll(kids)
  {
    if kids == [] {
    } else {
      assert Weight(kids[0]) > 0;
      FlagsAreRight(kids[1..], depth, filter, expanded);
      assert HasRightFlags(RowsOf(kids[0], depth, filter, expanded), expanded) by {
        match kids[0] {
          case File(_, _, _) =>
          case Dir(_, _, children) =>
            SortedWeight(children, filter);
            FlagsAreRight(Sorted(children, filter), depth + 1, filter, expanded);
        }
      }
    }
  }

  // ---- Which rows exist --------------------------------------------------------------

  /** Some file at or below the node passes the filters. */
  predicate HasPassing(node: Node, filter: Filter) {
    match node
    case File(_, _, _) => Passes(node, filter)
    case Dir(_, _, children) => exists child | child in children :: HasPassing(child, filter)
  }

  /** A node has rows, whatever is expanded, exactly when some file at or below it passes. */
  lemma {:induction false} RowsExistIffSomePasses(node: Node, depth: nat, filter: Filter, expanded: set<string>)
    ensures RowsOf(node, depth, filter, expanded) != [] <==> HasPassing(node, filter)
    decreases Weight(node), 0, 0
  {
    if node.File? {
    } else {
      var kids := Sorted(node.children, filter);
      SortedKeeps(node.children, filter, Change([], []));
      SomeRowIffSomePasses(kids, depth + 1, filter, expanded);
    }
  }

  lemma {:induction false} SomeRowIffSomePasses(kids: seq<Node>, depth: nat, filter: Filter, expanded: set<string>)
    ensures RowsInOrder(kids, depth, filter, expanded) != []
         <==> exists child | child in kids :: HasPassing(child, filter)
    decreases WeightAll(kids), 0, |kids|
  {
    if kids == [] {
    } else {
      RowsExistIffSomePasses(kids[0], depth, filter, expanded);
      SomeRowIffSomePasses(kids[1..], depth, filter, expanded);
      assert forall child :: child in kids <==> child == kids[0] || child in kids[1..];
    }
  }

  // ---- How many files are counted ----------------------------------------------------

  /** How many files at or below the nodes pass, whatever is expanded. */
  function Passing(kids: seq<Node>, filter: Filter): nat {
    if kids == [] then 0 else PassingOf(kids[0], filter) + Passing(kids[1..], filter)
  }

  function PassingOf(node: Node, filter: Filter): nat {
    match node
    case File(_, _, _) => if Passes(node, filter) then 1 else 0
    case Dir(_, _, children) => Passing(children, filter)
  }

  /** Every directory at or below the nodes with a passing file is expanded. */
  predicate HidesNothing(kids: seq<Node>, filter: Filter, expanded: set<string>) {
    forall child | child in kids && child.Dir? && HasPassing(child, filter) ::
      child.path in expanded && HidesNothing(child.children, filter, expanded)
  }

  lemma {:induction false} InsertSortedKeepsPassing(x: Node, s: seq<Node>, filter: Filter)
    ensures Passing(InsertSorted(x, s, filter), filter) == PassingOf(x, filter) + Passing(s, filter)
  {
    if s == [] || NodeLeq(x, s[0], filter) {
      assert ([x] + s)[1..] == s;
    } else {
      InsertSortedKeepsPassing(x, s[1..], filter);
      assert ([s[0]] + InsertSorted(x, s[1..], filter))[1..] == InsertSorted(x, s[1..], filter);
    }
  }

  lemma {:induction false} SortedKeepsPassing(kids: seq<Node>, filter: Filter)
    ensures Passing(Sorted(kids, filter), filter) == Passing(kids, filter)
  {
    if kids == [] {
    } else {
      SortedKeepsPassing(kids[1..], filter);
      InsertSortedKeepsPassing(kids[0], Sorted(kids[1..], filter), filter);
    }
  }

  lemma {:induction false} SomePassesIffPositive(kids: seq<Node>, filter: Filter)
    ensures Passing(kids, filter) > 0 <==> exists child | child in kids :: HasPassing(child, filter)
    decreases WeightAll(kids)
  {
    if kids == [] {
    } else {
      assert Weight(kids[0]) > 0;
      if kids[0].Dir? {
        SomePassesIffPositive(kids[0].children, filter);
      }
      assert HasPassing(kids[0], filter) <==> PassingOf(kids[0], filter) > 0;
      SomePassesIffPositive(kids[1..], filter);
      hide HasPassing;
      assert forall child :: child in kids <==> child == kids[0] || child in kids[1..];
    }
  }

  lemma {:induction false} CountFilesConcat(x: seq<Row>, y: seq<Row>)
    ensures CountFiles(x + y) == CountFiles(x) + CountFiles(y)
  {
    if x == [] {
      assert x + y == y;
    } else {
      CountFilesConcat(x[1..], y);
      assert (x + y)[1..] == x[1..] + y;
    }
  }

  /**
   The count in a directory's row, taken over the rows of its children, is the number of passing files below it
   exactly if every directory in between that has one is expanded; otherwise it is smaller.
   */
  lemma {:induction false} CountIsWholeIff(children: seq<Node>, depth: nat, filter: Filter, expanded: set<string>)
    ensures CountFiles(Rows(children, depth, filter, expanded)) <= Passing(children, filter)
    ensures CountFiles(Rows(children, depth, filter, expanded)) == Passing(children, filter)
         <==> HidesNothing(children, filter, expanded)
    decreases WeightAll(children), 1, 0
  {
    SortedWeight(children, filter);
    SortedKeeps(children, filter, Change([], []));
    SortedKeepsPassing(children, filter);
    CountInOrder(Sorted(children, filter), depth, filter, expanded);
  }

  lemma {:induction false} CountInOrder(kids: seq<Node>, depth: nat, filter: Filter, expanded: set<string>)
    ensures CountFiles(RowsInOrder(kids, depth, filter, expanded)) <= Passing(kids, filter)
    ensures CountFiles(RowsInOrder(kids, depth, filter, expanded)) == Passing(kids, filter)
         <==> HidesNothing(kids, filter, expanded)
    decreases WeightAll(kids), 0, |kids|
  {
    if kids == [] {
    } else {
      CountOf(kids[0], depth, filter, expanded);
      CountInOrder(kids[1..], depth, filter, expanded);
      CountFilesConcat(RowsOf(kids[0], depth, filter, expanded), RowsInOrder(kids[1..], depth, filter, expanded));
      hide RowsOf, HasPassing;
      assert HidesNothing(kids, filter, expanded)
          <==> HidesNothing([kids[0]], filter, expanded) && HidesNothing(kids[1..], filter, expanded) by {
        assert forall child :: child in kids <==> child in [kids[0]] || child in kids[1..];
      }
    }
  }

  lemma {:induction false} CountOf(node: Node, depth: nat, filter: Filter, expanded: set<string>)
    ensures CountFiles(RowsOf(node, depth, filter, expanded)) <= PassingOf(node, filter)
    ensures CountFiles(RowsOf(node, depth, filter, expanded)) == PassingOf(node, filter)
         <==> HidesNothing([node], filter, expanded)
    decreases Weight(node), 0, 0
  {
    match node {
      case File(name, _, c) =>
        assert [FileRow(depth, c.path, name, c.action)][1..] == [];
      case Dir(name, path, children) =>
        CountIsWholeIff(children, depth + 1, filter, expanded);
        SomePassesIffPositive(children, filter);
        RowsExistIffSomePasses(node, depth, filter, expanded);
        var below := Rows(children, depth + 1, filter, expanded);
        CountFilesConcat([DirRow(depth, path, name, path in expanded, CountFiles(below))],
            if path in expanded then below else []);
    }
  }

  lemma OnlyChild(node: Node, depth: nat, filter: Filter, expanded: set<string>)
    ensures Rows([node], depth, filter, expanded) == RowsOf(node, depth, filter, expanded)
    ensures Passing([node], filter) == PassingOf(node, filter)
  {
    assert [node][1..] == [] && Sorted([], filter) == [] && Sorted([node], filter) == [node];
    assert RowsInOrder([], depth, filter, expanded) == [];
  }

  /** For instance a/b/f with a open and a/b closed: a's row counts no file. */
  lemma CollapsedFileIsNotCounted(filter: Filter, f: Change)
    requires f.action in filter.actions && filter.query == []
    ensures var inner := Dir("b", "a/b", [File("f", "a/b/f", f)]);
            Rows([Dir("a", "a", [inner])], 0, filter, {"a"})
            == [DirRow(0, "a", "a", true, 0), DirRow(1, "a/b", "b", false, 1)] &&
            Passing([inner], filter) == 1
  {
    var file := File("f", "a/b/f", f);
    var inner, outer := Dir("b", "a/b", [file]), Dir("a", "a", [Dir("b", "a/b", [file])]);
    assert |"a/b"| != |"a"|;
    OnlyChild(file, 2, filter, {"a"});
    assert RowsOf(file, 2, filter, {"a"}) == [FileRow(2, f.path, "f", f.action)];
    OnlyChild(inner, 1, filter, {"a"});
    var row := DirRow(1, "a/b", "b", false, 1);
    var below := [FileRow(2, f.path, "f", f.action)];
    assert below[1..] == [] && [row][1..] == [];
    assert CountFiles(below) == 1 && Rows([file], 2, filter, {"a"}) == below;
    assert RowsOf(inner, 1, filter, {"a"}) == [row];
    OnlyChild(outer, 0, filter, {"a"});
    assert RowsOf(outer, 0, filter, {"a"}) == [DirRow(0, "a", "a", true, 0), row];
    assert Passing([file], filter) == 1;
  }

  function EntryRows(entries: seq<Entry>): seq<Row> {
    if entries == [] then [] else [entries[0].row] + EntryRows(entries[1..])
  }

  lemma {:induction false} EntryRowsConcat(x: seq<Entry>, y: seq<Entry>)
    ensures EntryRows(x + y) == EntryRows(x) + EntryRows(y)
  {
    if x == [] {
      assert x + y == y;
    } else {
      assert (x + y)[1..] == x[1..] + y;
      assert EntryRows(x + y) == [x[0].row] + EntryRows(x[1..] + y) && EntryRows(x) == [x[0].row] + EntryRows(x[1..]);
      hide EntryRows;
      EntryRowsConcat(x[1..], y);
      Associate([x[0].row], EntryRows(x[1..]), EntryRows(y));
    }
  }

  lemma {:induction false} OutlineCount(kids: seq<Node>, depth: nat, filter: Filter, under: seq<string>)
    ensures CountFiles(EntryRows(Outline(kids, depth, filter, under))) == Passing(kids, filter)
    decreases WeightAll(kids), 1, 0
  {
    SortedWeight(kids, filter);
    SortedKeepsPassing(kids, filter);
    OutlineCountInOrder(Sorted(kids, filter), depth, filter, under);
  }

  lemma {:induction false} OutlineCountInOrder(kids: seq<Node>, depth: nat, filter: Filter, under: seq<string>)
    ensures CountFiles(EntryRows(OutlineInOrder(kids, depth, filter, under))) == Passing(kids, filter)
    decreases WeightAll(kids), 0, |kids|
  {
    if kids == [] {
    } else {
      OutlineCountOf(kids[0], depth, filter, under);
      OutlineCountInOrder(kids[1..], depth, filter, under);
      hide OutlineOf;
      var x, y := OutlineOf(kids[0], depth, filter, under), OutlineInOrder(kids[1..], depth, filter, under);
      EntryRowsConcat(x, y);
      CountFilesConcat(EntryRows(x), EntryRows(y));
    }
  }

  lemma {:induction false} OutlineCountOf(node: Node, depth: nat, filter: Filter, under: seq<string>)
    ensures CountFiles(EntryRows(OutlineOf(node, depth, filter, under))) == PassingOf(node, filter)
    decreases Weight(node), 0, 0
  {
    match node {
      case File(name, _, c) =>
        assert [Entry(FileRow(depth, c.path, name, c.action), under)][1..] == [];
      case Dir(name, path, children) =>
        OutlineCount(children, depth + 1, filter, under + [path]);
        var head := Entry(DirRow(depth, path, name, false, 0), under);
        var below := Outline(children, depth + 1, filter, under + [path]);
        EntryRowsConcat([head], below);
        CountFilesConcat(EntryRows([head]), EntryRows(below));
    }
  }

  lemma {:induction false} OutlineIsVisible(kids: seq<Node>, depth: nat, filter: Filter, under: seq<string>,
                                            expanded: set<string>)
    requires AllOpen(under, expanded) && HidesNothing(kids, filter, expanded)
    ensures forall e | e in Outline(kids, depth, filter, under) :: IsVisible(e, expanded)
    decreases WeightAll(kids), 1
  {
    SortedWeight(kids, filter);
    SortedKeeps(kids, filter, Change([], []));
    InOrderIsVisible(Sorted(kids, filter), depth, filter, under, expanded);
  }

  lemma {:induction false} InOrderIsVisible(kids: seq<Node>, depth: nat, filter: Filter, under: seq<string>,
                                            expanded: set<string>)
    requires AllOpen(under, expanded) && HidesNothing(kids, filter, expanded)
    ensures forall e | e in OutlineInOrder(kids, depth, filter, under) :: IsVisible(e, expanded)
    decreases WeightAll(kids), 0
  {
    if kids == [] {
    } else {
      assert Weight(kids[0]) > 0;
      InOrderIsVisible(kids[1..], depth, filter, under, expanded);
      if kids[0].Dir? && OutlineOf(kids[0], depth, filter, under) != [] {
        RowsOfAreVisible(kids[0], depth, filter, under, expanded);
        RowsExistIffSomePasses(kids[0], depth, filter, expanded);
        assert kids[0] in kids;
        OutlineIsVisible(kids[0].children, depth + 1, filter, under + [kids[0].path], expanded);
      }
    }
  }

  lemma {:induction false} AllVisible(entries: seq<Entry>, expanded: set<string>)
    requires forall e | e in entries :: IsVisible(e, expanded)
    ensures Visible(entries, expanded) == EntryRows(entries)
  {
    if entries == [] {
    } else {
      AllVisible(entries[1..], expanded);
    }
  }

  /** The outline is what the panel shows once every directory with a passing file is expanded, and only then. */
  lemma OutlineIsFullRowsIff(kids: seq<Node>, depth: nat, filter: Filter, expanded: set<string>)
    ensures BlankAll(Rows(kids, depth, filter, expanded)) == EntryRows(Outline(kids, depth, filter, []))
            <==> HidesNothing(kids, filter, expanded)
  {
    RowsAreVisible(kids, depth, filter, [], expanded);
    BlankKeepsCount(Rows(kids, depth, filter, expanded));
    CountIsWholeIff(kids, depth, filter, expanded);
    OutlineCount(kids, depth, filter, []);
    if HidesNothing(kids, filter, expanded) {
      OutlineIsVisible(kids, depth, filter, [], expanded);
      AllVisible(Outline(kids, depth, filter, []), expanded);
    }
  }

  /**
   The rows shown are those of the panel with nothing hidden whose ancestors are open, in order: the outline
   is the full panel's rows, each with its ancestors.
   */
  lemma CollapsingIsProjection(kids: seq<Node>, filter: Filter, all: set<string>, expanded: set<string>)
    ensures var outline := Outline(kids, 0, filter, []);
            BlankAll(Rows(kids, 0, filter, expanded)) == Visible(outline, expanded) &&
            (HidesNothing(kids, filter, all) ==> EntryRows(outline) == BlankAll(Rows(kids, 0, filter, all)))
  {
    OutlineIsFullRowsIff(kids, 0, filter, all);
    RowsAreVisible(kids, 0, filter, [], expanded);
  }

  // ---- Everything open and nothing filtered ------------------------------------------

  predicate IsOpenThroughout(node: Node, expanded: set<string>) {
    node.Dir? ==> node.path in expanded && forall child | child in node.children :: IsOpenThroughout(child, expanded)
  }

  predicate PassesThroughout(node: Node, filter: Filter) {
    match node
    case File(_, _, _) => Passes(node, filter)
    case Dir(_, _, children) => forall child | child in children :: PassesThroughout(child, filter)
  }

  /** How many file rows show this change. */
  function RowsFor(rows: seq<Row>, c: Change): nat {
    if rows == [] then 0
    else
      var here := rows[0].FileRow? && rows[0].path == c.path && rows[0].action == c.action;
      (if here then 1 else 0) + RowsFor(rows[1..], c)
  }

  lemma {:induction false} RowsForConcat(x: seq<Row>, y: seq<Row>, c: Change)
    ensures RowsFor(x + y, c) == RowsFor(x, c) + RowsFor(y, c)
  {
    if x == [] {
      assert x + y == y;
    } else {
      RowsForConcat(x[1..], y, c);
      assert (x + y)[1..] == x[1..] + y;
    }
  }

  lemma {:induction false} RowsShowNode(node: Node, depth: nat, filter: Filter, expanded: set<string>, c: Change)
    requires IsOpenThroughout(node, expanded) && PassesThroughout(node, filter)
    ensures RowsFor(RowsOf(node, depth, filter, expanded), c) == OccurrencesIn(node, c)
    decreases Weight(node), 0, 0
  {
    match node {
      case File(name, _, change) =>
        assert [FileRow(depth, change.path, name, change.action)][1..] == [];
      case Dir(name, path, children) =>
        SortedKeeps(children, filter, c);
        var below := Rows(children, depth + 1, filter, expanded);
        RowsShowAll(Sorted(children, filter), depth + 1, filter, expanded, c);
        if below != [] {
          RowsForConcat([DirRow(depth, path, name, true, CountFiles(below))], below, c);
        }
    }
  }

  lemma {:induction false} RowsShowAll(kids: seq<Node>, depth: nat, filter: Filter, expanded: set<string>, c: Change)
    requires forall child | child in kids :: IsOpenThroughout(child, expanded) && PassesThroughout(child, filter)
    ensures RowsFor(RowsInOrder(kids, depth, filter, expanded), c) == Occurrences(kids, c)
    decreases WeightAll(kids), 0, |kids|
  {
    if kids == [] {
    } else {
      RowsShowNode(kids[0], depth, filter, expanded, c);
      RowsShowAll(kids[1..], depth, filter, expanded, c);
      RowsForConcat(RowsOf(kids[0], depth, filter, expanded), RowsInOrder(kids[1..], depth, filter, expanded), c);
    }
  }

  lemma {:induction false} OccurrencesAt(kids: seq<Node>, i: nat, c: Change)
    requires i < |kids|
    ensures OccurrencesIn(kids[i], c) <= Occurrences(kids, c)
  {
    if i == 0 {
    } else {
      OccurrencesAt(kids[1..], i - 1, c);
    }
  }

  lemma {:induction false} NoQueryPasses(kids: seq<Node>, filter: Filter, i: nat)
    requires filter.query == [] && i < |kids| &&
      forall c: Change | Occurrences(kids, c) > 0 :: c.action in filter.actions
    ensures PassesThroughout(kids[i], filter)
    decreases kids[i]
  {
    match kids[i] {
      case File(_, _, c) =>
        OccurrencesAt(kids, i, c);
        assert Occurrences(kids, c) > 0;
      case Dir(_, _, children) =>
        forall c: Change | Occurrences(children, c) > 0
          ensures c.action in filter.actions
        {
          OccurrencesAt(kids, i, c);
        }
        forall child | child in children
          ensures PassesThroughout(child, filter)
        {
          var j :| 0 <= j < |children| && children[j] == child;
          NoQueryPasses(children, filter, j);
        }
    }
  }

  /** With everything open and nothing filtered out, separate changes each get their row, exactly once. */
  lemma EveryChangeIsShown(changes: seq<Change>, filter: Filter, expanded: set<string>, c: Change)
    requires AreSeparate(changes) && Built(changes).Some?
    requires filter.query == [] && forall c | c in changes :: c.action in filter.actions
    requires forall node | node in Built(changes).value :: IsOpenThroughout(node, expanded)
    ensures RowsFor(Rows(Built(changes).value, 0, filter, expanded), c) == multiset(changes)[c]
  {
    var kids := Built(changes).value;
    TreeHoldsEveryChange(changes, c);
    forall x: Change | Occurrences(kids, x) > 0
      ensures x.action in filter.actions
    {
      TreeHoldsEveryChange(changes, x);
      assert x in multiset(changes);
    }
    forall node | node in kids
      ensures PassesThroughout(node, filter)
    {
      var i :| 0 <= i < |kids| && kids[i] == node;
      NoQueryPasses(kids, filter, i);
    }
    SortedKeeps(kids, filter, c);
    RowsShowAll(Sorted(kids, filter), 0, filter, expanded, c);
  }

  // ---- Which rows there are ----------------------------------------------------------

  lemma {:induction false} IncludesIff(s: string, part: string)
    ensures Includes(s, part) <==> exists x, y :: IsAround(s, x, part, y)
  {
    if part <= s {
      assert IsAround(s, [], part, s[|part|..]);
    } else if s == [] {
      assert forall x, y :: IsAround(s, x, part, y) ==> part == [];
    } else {
      IncludesIff(s[1..], part);
      if x, y :| IsAround(s[1..], x, part, y) {
        assert IsAround(s, [s[0]] + x, part, y);
      }
      if x, y :| IsAround(s, x, part, y) {
        assert x == [] ==> s == part + y;
        assert IsAround(s[1..], x[1..], part, y);
      }
    }
  }

  /** The action is selected, and the search text, if any, occurs in the lower-cased path. */
  ghost predicate IsWanted(file: Node, filter: Filter)
    requires file.File?
  {
    file.change.action in filter.actions &&
    (filter.query == [] || exists x, y :: IsAround(filter.lower(file.path), x, filter.query, y))
  }

  /** A file has its row, whatever is expanded, exactly if it is wanted. */
  lemma FileRowIff(file: Node, depth: nat, filter: Filter, expanded: set<string>)
    requires file.File?
    ensures RowsOf(file, depth, filter, expanded) != [] <==> IsWanted(file, filter)
  {
    IncludesIff(filter.lower(file.path), filter.query);
  }

  /** The node is found below the directories dirs, each in the one before. */
  ghost predicate IsBelow(kids: seq<Node>, dirs: seq<Node>, node: Node)
    decreases |dirs|
  {
    if dirs == [] then node in kids else dirs[0] in kids && dirs[0].Dir? && IsBelow(dirs[0].children, dirs[1..], node)
  }

  ghost predicate AreOpen(dirs: seq<Node>, expanded: set<string>) {
    forall d | d in dirs :: d.path in expanded
  }

  ghost predicate HasWanted(kids: seq<Node>, filter: Filter) {
    exists dirs, file :: IsBelow(kids, dirs, file) && file.File? && IsWanted(file, filter)
  }

  /** The row of a node: a file's if it is wanted, a directory's if some file below is. */
  ghost predicate IsRowOf(row: Row, node: Node, depth: nat, filter: Filter, expanded: set<string>) {
    match node
    case File(name, _, c) => IsWanted(node, filter) && row == FileRow(depth, c.path, name, c.action)
    case Dir(name, path, children) =>
      row.DirRow? && row == DirRow(depth, path, name, path in expanded, row.count) && HasWanted(children, filter)
  }

  lemma BelowFirstOrRest(kids: seq<Node>, dirs: seq<Node>, node: Node)
    requires kids != []
    ensures IsBelow(kids, dirs, node) <==> IsBelow([kids[0]], dirs, node) || IsBelow(kids[1..], dirs, node)
  {
    assert kids == [kids[0]] + kids[1..];
  }

  lemma WantedFirstOrRest(kids: seq<Node>, filter: Filter)
    requires kids != []
    ensures HasWanted(kids, filter) <==> HasWanted([kids[0]], filter) || HasWanted(kids[1..], filter)
  {
    hide IsWanted, IsBelow;
    if dirs, file :| IsBelow(kids, dirs, file) && file.File? && IsWanted(file, filter) {
      BelowFirstOrRest(kids, dirs, file);
    }
    if dirs, file :| IsBelow([kids[0]], dirs, file) && file.File? && IsWanted(file, filter) {
      BelowFirstOrRest(kids, dirs, file);
    }
    if dirs, file :| IsBelow(kids[1..], dirs, file) && file.File? && IsWanted(file, filter) {
      BelowFirstOrRest(kids, dirs, file);
    }
  }

  lemma WantedIn(node: Node, filter: Filter)
    ensures HasWanted([node], filter)
         <==> if node.File? then IsWanted(node, filter) else HasWanted(node.children, filter)
  {
    hide IsWanted;
    if node.File? {
      assert IsBelow([node], [], node);
    } else {
      if dirs, file :| IsBelow(node.children, dirs, file) && file.File? && IsWanted(file, filter) {
        assert ([node] + dirs)[0] == node && ([node] + dirs)[1..] == dirs;
        assert IsBelow([node], [node] + dirs, file);
      }
      if dirs, file :| IsBelow([node], dirs, file) && file.File? && IsWanted(file, filter) {
        assert dirs != [] && dirs[0] == node;
        assert IsBelow(node.children, dirs[1..], file);
      }
    }
  }

  lemma {:induction false} PassingIsWanted(kids: seq<Node>, filter: Filter)
    ensures Passing(kids, filter) > 0 <==> HasWanted(kids, filter)
    decreases WeightAll(kids)
  {
    if kids == [] {
      assert forall dirs, file :: !IsBelow(kids, dirs, file);
    } else {
      assert Weight(kids[0]) > 0;
      PassingIsWanted(kids[1..], filter);
      WantedFirstOrRest(kids, filter);
      WantedIn(kids[0], filter);
      hide IsWanted, HasWanted;
      match kids[0] {
        case File(_, _, _) =>
          FileRowIff(kids[0], 0, filter, {});
        case Dir(_, _, children) =>
          PassingIsWanted(children, filter);
      }
    }
  }

  ghost predicate IsShown(kids: seq<Node>, depth: nat, filter: Filter, expanded: set<string>, row: Row, dirs: seq<Node>,
                          node: Node) {
    IsBelow(kids, dirs, node) && AreOpen(dirs, expanded) && IsRowOf(row, node, depth + |dirs|, filter, expanded)
  }

  lemma OwnRow(node: Node, depth: nat, filter: Filter, expanded: set<string>) returns (row: Row)
    requires if node.File? then IsWanted(node, filter) else HasWanted(node.children, filter)
    ensures row in RowsOf(node, depth, filter, expanded) && IsRowOf(row, node, depth, filter, expanded)
  {
    if node.File? {
      FileRowIff(node, depth, filter, expanded);
    } else {
      PassingIsWanted(node.children, filter);
      SomePassesIffPositive(node.children, filter);
      RowsExistIffSomePasses(node, depth, filter, expanded);
    }
    hide IsWanted;
    row := RowsOf(node, depth, filter, expanded)[0];
  }

  lemma {:induction false} InRowsInOrder(kids: seq<Node>, node: Node, depth: nat, filter: Filter, expanded: set<string>)
    requires node in kids
    ensures forall row | row in RowsOf(node, depth, filter, expanded) ::
      row in RowsInOrder(kids, depth, filter, expanded)
  {
    if kids[0] == node {
    } else {
      assert node in kids[1..];
      InRowsInOrder(kids[1..], node, depth, filter, expanded);
    }
  }

  /** The row of each node below open directories is among the rows, as deep as it has directories above it. */
  lemma {:induction false} ShownHasRow(kids: seq<Node>, depth: nat, filter: Filter, expanded: set<string>,
                                       dirs: seq<Node>, node: Node)
    returns (row: Row)
    requires IsBelow(kids, dirs, node) && AreOpen(dirs, expanded)
    requires if node.File? then IsWanted(node, filter) else HasWanted(node.children, filter)
    ensures row in Rows(kids, depth, filter, expanded) && IsRowOf(row, node, depth + |dirs|, filter, expanded)
    decreases |dirs|
  {
    SortedKeeps(kids, filter, Change([], []));
    var first := if dirs == [] then node else dirs[0];
    InRowsInOrder(Sorted(kids, filter), first, depth, filter, expanded);
    if dirs == [] {
      row := OwnRow(node, depth, filter, expanded);
    } else {
      assert dirs[0] in dirs && forall d | d in dirs[1..] :: d in dirs;
      row := ShownHasRow(dirs[0].children, depth + 1, filter, expanded, dirs[1..], node);
    }
  }

  lemma {:induction false} OfSome(kids: seq<Node>, depth: nat, filter: Filter, expanded: set<string>, row: Row)
    returns (node: Node)
    requires row in RowsInOrder(kids, depth, filter, expanded)
    ensures node in kids && row in RowsOf(node, depth, filter, expanded) && Weight(node) <= WeightAll(kids)
  {
    if row in RowsOf(kids[0], depth, filter, expanded) {
      node := kids[0];
    } else {
      node := OfSome(kids[1..], depth, filter, expanded, row);
    }
  }

  /** Every row is that of a node below open directories. */
  lemma {:induction false} RowIsOfShown(kids: seq<Node>, depth: nat, filter: Filter, expanded: set<string>, row: Row)
    returns (dirs: seq<Node>, node: Node)
    requires row in Rows(kids, depth, filter, expanded)
    ensures IsShown(kids, depth, filter, expanded, row, dirs, node)
    decreases WeightAll(kids), 1
  {
    SortedKeeps(kids, filter, Change([], []));
    var first := OfSome(Sorted(kids, filter), depth, filter, expanded, row);
    SortedWeight(kids, filter);
    hide IsWanted, HasWanted;
    match first {
      case File(name, _, c) =>
        FileRowIff(first, depth, filter, expanded);
        dirs, node := [], first;
      case Dir(name, path, children) =>
        var below := Rows(children, depth + 1, filter, expanded);
        if row in below && path in expanded {
          dirs, node := RowIsOfShown(children, depth + 1, filter, expanded, row);
          assert ([first] + dirs)[1..] == dirs;
          dirs := [first] + dirs;
        } else {
          RowsExistIffSomePasses(first, depth, filter, expanded);
          SomePassesIffPositive(children, filter);
          PassingIsWanted(children, filter);
          dirs, node := [], first;
        }
    }
  }
}
