/** The crash-recovery journal: every change rewrites the file through a temporary one and a rename. */
module RecoveryJournals {
  import opened Wrappers
  import opened Bytes
  import opened JsonCodec

  /**
   Where a crash cuts a write short: before the temporary file exists, with some of it written, or after the rename.
   */
  datatype Crash = NoCrash | BeforeCreate | WhileWriting(written: nat) | BeforeRename | AfterRename

  predicate Commits(crash: Crash) {
    crash.NoCrash? || crash.AfterRename?
  }

  datatype Change = Init | MarkCheckpoint(id: string) | AddPending(op: Json) | ClearPending

  datatype Call = Call(change: Change, crash: Crash)

  const EMPTY_JOURNAL: Json :=
    Obj(map["last_checkpoint" := Null, "pending_operations" := Arr([]), "version" := Number(1)])

  /** What a reader finds on disk. */
  datatype Contents = Missing | Garbled | Document(json: Json)

  /** `as_object_mut` and `insert`: a document that is no object stays as it is. */
  function Insert(doc: Json, key: string, value: Json): Json {
    if doc.Obj? then Obj(doc.fields[key := value]) else doc
  }

  /** A journal as `init` makes it and the changes keep it. */
  predicate HasPendingList(doc: Json) {
    doc.Obj? && "pending_operations" in doc.fields && doc.fields["pending_operations"].Arr?
  }

  function PushPending(doc: Json, op: Json): Json {
    if HasPendingList(doc)
    then Insert(doc, "pending_operations", Arr(doc.fields["pending_operations"].items + [op]))
    else doc
  }

  /** The contents after a change. `init` only fills in a missing file; the others need a readable one. */
  function Changed(was: Contents, change: Change): Contents {
    match change
    case Init => if was.Missing? then Document(EMPTY_JOURNAL) else was
    case MarkCheckpoint(id) => if was.Document? then Document(Insert(was.json, "last_checkpoint", Str(id))) else was
    case AddPending(op) => if was.Document? then Document(PushPending(was.json, op)) else was
    case ClearPending => if was.Document? then Document(Insert(was.json, "pending_operations", Arr([]))) else was
  }

  /** `get_pending_operations` on a parsed document. */
  function PendingOf(doc: Json): seq<Json> {
    if HasPendingList(doc) then doc.fields["pending_operations"].items else []
  }

  /** The changes whose write reached its rename. */
  function Committed(calls: seq<Call>): seq<Change> {
    if calls == [] then []
    else
      var last := calls[|calls| - 1];
      Committed(calls[..|calls| - 1]) + (if Commits(last.crash) then [last.change] else [])
  }

  function AfterAll(start: Contents, changes: seq<Change>): Contents {
    if changes == [] then start else Changed(AfterAll(start, changes[..|changes| - 1]), changes[|changes| - 1])
  }

  lemma CommittedAppend(start: Contents, calls: seq<Call>, call: Call)
    ensures AfterAll(start, Committed(calls + [call]))
         == var before := AfterAll(start, Committed(calls));
            if Commits(call.crash) then Changed(before, call.change) else before
  {
    assert (calls + [call])[..|calls|] == calls;
    var done := Committed(calls);
    assert (done + [call.change])[..|done|] == done && done + [] == done;
  }

  class RecoveryJournal {
    const codec: Codec
    var file: Option<Bytes>
    var tmp: Option<Bytes>

    constructor (codec: Codec)
      ensures this.codec == codec && file == None && tmp == None
    {
      this.codec := codec;
      file, tmp := None, None;
    }

    function Read(): Contents
      reads this
    {
      match file
      case None => Missing
      case Some(content) => match codec.parse(content) case None => Garbled case Some(json) => Document(json)
    }

    /** Write the temporary file, sync it, rename it; the journal itself changes in the rename alone. */
    method AtomicWrite(content: Bytes, crash: Crash)
      modifies this
      ensures file == if Commits(crash) then Some(content) else old(file)
    {
      if crash.BeforeCreate? {
        return;
      }
      tmp := Some([]);
      if crash.WhileWriting? {
        tmp := Some(content[..if crash.written < |content| then crash.written else |content|]);
        return;
      }
      tmp := Some(content);
      if crash.BeforeRename? {
        return;
      }
      file, tmp := tmp, None;
    }

    /** One call, possibly cut short: on disk is the journal before the change or the one after it. */
    method Perform(change: Change, crash: Crash) returns (acknowledged: bool)
      requires RoundTrips(codec)
      modifies this
      ensures Read() == if Commits(crash) then Changed(old(Read()), change) else old(Read())
      ensures acknowledged <==> crash.NoCrash? && (change.Init? || old(Read()).Document?)
    {
      if change.Init? {
        if file.None? {
          AtomicWrite(codec.print_(EMPTY_JOURNAL), crash);
        }
        return crash.NoCrash?;
      }
      if file.None? || codec.parse(file.value).None? {
        return false;
      }
      var journal := codec.parse(file.value).value;
      match change {
        case MarkCheckpoint(id) =>
          if journal.Obj? {
            journal := Obj(journal.fields["last_checkpoint" := Str(id)]);
          }
        case AddPending(op) =>
          if journal.Obj? && "pending_operations" in journal.fields {
            var ops := journal.fields["pending_operations"];
            if ops.Arr? {
              journal := Obj(journal.fields["pending_operations" := Arr(ops.items + [op])]);
            }
          }
        case ClearPending =>
          if journal.Obj? {
            journal := Obj(journal.fields["pending_operations" := Arr([])]);
          }
      }
      AtomicWrite(codec.print_(journal), crash);
      acknowledged := crash.NoCrash?;
    }

    /** Any number of calls, each crashed or not: the disk is as if the uncommitted ones had never been made. */
    method Run(calls: seq<Call>)
      requires RoundTrips(codec)
      modifies this
      ensures Read() == AfterAll(old(Read()), Committed(calls))
    {
      for i := 0 to |calls|
        invariant Read() == AfterAll(old(Read()), Committed(calls[..i]))
      {
        assert calls[..i + 1] == calls[..i] + [calls[i]];
        CommittedAppend(old(Read()), calls[..i], calls[i]);
        var _ := Perform(calls[i].change, calls[i].crash);
      }
      assert calls[..|calls|] == calls;
    }

    method GetPendingOperations() returns (r: Option<seq<Json>>)
      ensures r == if Read().Document? then Some(PendingOf(Read().json)) else None
    {
      if file.None? || codec.parse(file.value).None? {
        return None;
      }
      var journal := codec.parse(file.value).value;
      var ops := if journal.Obj? && "pending_operations" in journal.fields then journal.fields["pending_operations"]
                 else Null;
      r := Some(if ops.Arr? then ops.items else []);
    }
  }

  // ---- Whole histories ---------------------------------------------------------------

  /** The operations added since the last clear. */
  function AddedSinceClear(changes: seq<Change>): seq<Json> {
    if changes == [] then []
    else match changes[|changes| - 1]
      case ClearPending => []
      case AddPending(op) => AddedSinceClear(changes[..|changes| - 1]) + [op]
      case _ => AddedSinceClear(changes[..|changes| - 1])
  }

  /** The checkpoint marked last. */
  function LastMark(changes: seq<Change>): Json {
    if changes == [] then Null
    else match changes[|changes| - 1]
      case MarkCheckpoint(id) => Str(id)
      case _ => LastMark(changes[..|changes| - 1])
  }

  /**
   The document as it should be after the changes: the last mark, and the operations added since the last clear, in
   order.
   */
  function Expected(changes: seq<Change>): Json {
    Obj(map["last_checkpoint" := LastMark(changes), "pending_operations" := Arr(AddedSinceClear(changes)),
        "version" := Number(1)])
  }

  /** Once initialised, the journal is that document, and nothing else is in it. */
  lemma {:induction false} PendingIsAddedSinceClear(changes: seq<Change>)
    requires changes != [] && changes[0] == Init
    ensures AfterAll(Missing, changes) == Document(Expected(changes))
    ensures PendingOf(Expected(changes)) == AddedSinceClear(changes)
  {
    var init, last := changes[..|changes| - 1], changes[|changes| - 1];
    if init == [] {
      assert AfterAll(Missing, init) == Missing && AddedSinceClear(init) == [] && LastMark(init) == Null;
      assert last == Init && AfterAll(Missing, changes) == Document(EMPTY_JOURNAL);
    } else {
      PendingIsAddedSinceClear(init);
      var before, after := Expected(init).fields, Expected(changes).fields;
      match last {
        case Init => assert before == after;
        case MarkCheckpoint(id) => assert before["last_checkpoint" := Str(id)] == after;
        case AddPending(op) => assert before["pending_operations" := Arr(AddedSinceClear(init) + [op])] == after;
        case ClearPending => assert before["pending_operations" := Arr([])] == after;
      }
    }
  }

  /** What the changes make of any document: an object is marked, and has its list replaced by a clear or lengthened. */
  function Overwritten(start: Json, changes: seq<Change>): Json {
    if !start.Obj? then start
    else
      var marked := if LastMark(changes) == Null then start.fields
                    else start.fields["last_checkpoint" := LastMark(changes)];
      var added := AddedSinceClear(changes);
      if ClearPending in changes then Obj(marked["pending_operations" := Arr(added)])
      else if HasPendingList(start) then Obj(marked["pending_operations" := Arr(PendingOf(start) + added)])
      else Obj(marked)
  }

  lemma Remark(start: Json, changes: seq<Change>, id: string)
    requires start.Obj?
    ensures Insert(Overwritten(start, changes), "last_checkpoint", Str(id))
         == Overwritten(start, changes + [MarkCheckpoint(id)])
  {
    assert (changes + [MarkCheckpoint(id)])[..|changes|] == changes;
    var before, after := Overwritten(start, changes).fields, Overwritten(start, changes + [MarkCheckpoint(id)]).fields;
    assert before["last_checkpoint" := Str(id)] == after;
  }

  lemma LengthenList(start: Json, changes: seq<Change>, op: Json)
    requires start.Obj?
    ensures PushPending(Overwritten(start, changes), op) == Overwritten(start, changes + [AddPending(op)])
  {
    assert (changes + [AddPending(op)])[..|changes|] == changes;
    var before, after := Overwritten(start, changes).fields, Overwritten(start, changes + [AddPending(op)]).fields;
    if ClearPending in changes {
      assert before["pending_operations" := Arr(AddedSinceClear(changes) + [op])] == after;
    } else if HasPendingList(start) {
      assert PendingOf(start) + (AddedSinceClear(changes) + [op]) == PendingOf(start) + AddedSinceClear(changes) + [op];
      assert before["pending_operations" := Arr(PendingOf(start) + AddedSinceClear(changes) + [op])] == after;
    }
  }

  lemma OverwriteStep(start: Json, changes: seq<Change>, last: Change)
    ensures Changed(Document(Overwritten(start, changes)), last) == Document(Overwritten(start, changes + [last]))
  {
    assert (changes + [last])[..|changes|] == changes;
    if start.Obj? {
      match last {
        case Init =>
        case MarkCheckpoint(id) => Remark(start, changes, id);
        case AddPending(op) => LengthenList(start, changes, op);
        case ClearPending =>
          var before, after := Overwritten(start, changes).fields, Overwritten(start, changes + [last]).fields;
          assert before["pending_operations" := Arr([])] == after;
      }
    }
  }

  /** From any document, whoever wrote it: nothing but the last mark and the list is touched. */
  lemma {:induction false} AnyDocumentAfter(start: Json, changes: seq<Change>)
    ensures AfterAll(Document(start), changes) == Document(Overwritten(start, changes))
  {
    if changes == [] {
      if HasPendingList(start) {
        assert PendingOf(start) + [] == PendingOf(start);
        assert start.fields["pending_operations" := Arr(PendingOf(start))] == start.fields;
      }
    } else {
      var init, last := changes[..|changes| - 1], changes[|changes| - 1];
      AnyDocumentAfter(start, init);
      assert changes == init + [last];
      OverwriteStep(start, init, last);
      hide Overwritten, Changed;
    }
  }

  /**
   An operation added at any time shows in the list iff the journal began as an object with a list, or was cleared
   since.
   */
  lemma AddTakesEffect(start: Json, changes: seq<Change>, op: Json)
    ensures var before := AfterAll(Document(start), changes);
            var after := AfterAll(Document(start), changes + [AddPending(op)]);
            before.Document? && after.Document? &&
            (PendingOf(after.json) == PendingOf(before.json) + [op]
             <==> start.Obj? && (HasPendingList(start) || ClearPending in changes))
  {
    AnyDocumentAfter(start, changes);
    AnyDocumentAfter(start, changes + [AddPending(op)]);
    assert (changes + [AddPending(op)])[..|changes|] == changes;
    if start.Obj? {
      assert PendingOf(start) + (AddedSinceClear(changes) + [op])
          == (PendingOf(start) + AddedSinceClear(changes)) + [op];
    }
  }
}
