/**
  The per-member manifest edit: make sure the manifest has a `[lints]` table
  and that `lints.workspace` is `true`, deciding from what is there already.
  The pure functions are the specification; `ManifestEditor` performs the
  same edit step by step on a document it owns, as the tool does.
 */
module Lints {
  import opened Wrappers
  import opened Toml

  const LintsKey := "lints"
  const WorkspaceKey := "workspace"

  /** A line the tool prints for a member. */
  datatype Line =
    | MemberHeader(member: string)
    | AddingLintsTable
    | OptsOut
    | AlreadyOptedIn
    | BogusWorkspaceKey
    | AddingWorkspaceKey
    | WritingBack

  /**
    The printed text of a line: a member header is the member followed by a
    colon, and no other line ends in a colon.
   */
  function Text(line: Line): (r: string)
    ensures |r| > 0 && (r[|r| - 1] == ':' <==> line.MemberHeader?)
    ensures line.MemberHeader? ==> r[..|r| - 1] == line.member
  {
    match line
    case MemberHeader(member) => member + ":"
    case AddingLintsTable => "- adding empty lints table"
    case OptsOut => "- currently opts out of workspace lints; changing that"
    case AlreadyOptedIn => "- already opted into workspace lints"
    case BogusWorkspaceKey => "- HAS BOGUS WORKSPACE KEY"
    case AddingWorkspaceKey => "- adding new lints.workspace key"
    case WritingBack => "- writing changes back"
  }

  /** Different lines print differently, so the printed report determines the lines. */
  lemma LemmaTextInjective(a: Line, b: Line)
    requires Text(a) == Text(b)
    ensures a == b
  {
    if a.MemberHeader? && b.MemberHeader? {
      assert a.member == Text(a)[..|Text(a)| - 1];
    } else if a.MemberHeader? || b.MemberHeader? {
      assert false;
    }
  }

  /** Why the edit of one manifest gives up (the tool panics). */
  datatype EditError =
    | LintsNotTable   // `lints` is a value (an inline table included) or an array of tables
    | BogusWorkspace  // `lints.workspace` is there but is not a boolean

  /** The document after an edit, the lines printed, and whether it gave up. */
  datatype Edit = Edit(doc: Table, lines: seq<Line>, failed: Option<EditError>)

  /** The `lints` table holding only `workspace = true`. */
  const OptedInLints := Table([WorkspaceKey], map[WorkspaceKey := Value(Bool(true))])

  /** The boolean an item holds, if it is a plain boolean value. */
  function AsBool(item: Item): (r: Option<bool>)
    ensures r.Some? <==> item.Value? && item.v.Bool?
    ensures r.Some? ==> item == Value(Bool(r.value))
  {
    match item
    case Value(Bool(b)) => Some(b)
    case _ => None
  }

  /** The document already opts into the workspace lints. */
  predicate OptedIn(doc: Table) {
    && Get(doc, LintsKey).Some?
    && Get(doc, LintsKey).value.StandardTable?
    && Get(Get(doc, LintsKey).value.t, WorkspaceKey) == Some(Value(Bool(true)))
  }

  /** `lints` is there but is not a table: a value (an inline table included) or an array of tables. */
  predicate LintsIsNotTable(doc: Table) {
    Get(doc, LintsKey).Some? && !Get(doc, LintsKey).value.StandardTable?
  }

  /** `lints` is a standard table whose `workspace` entry is there but is not a boolean. */
  predicate WorkspaceIsBogus(doc: Table) {
    && Get(doc, LintsKey).Some?
    && Get(doc, LintsKey).value.StandardTable?
    && Get(Get(doc, LintsKey).value.t, WorkspaceKey).Some?
    && AsBool(Get(Get(doc, LintsKey).value.t, WorkspaceKey).value).None?
  }

  /** The first step: a vacant `lints` entry gets an empty standard table. */
  function WithLintsEntry(doc: Table): (e: Edit)
    ensures e.failed == None && Get(e.doc, LintsKey).Some?
    ensures Get(doc, LintsKey).Some? ==> e.doc == doc && e.lines == []
    ensures Get(doc, LintsKey).None? ==>
              && Get(e.doc, LintsKey) == Some(StandardTable(EmptyTable))
              && e.doc.keys == doc.keys + [LintsKey]
              && e.lines == [AddingLintsTable]
    ensures forall k :: k != LintsKey ==> Get(e.doc, k) == Get(doc, k)
  {
    if Get(doc, LintsKey).Some? then Edit(doc, [], None)
    else Edit(Insert(doc, LintsKey, StandardTable(EmptyTable)), [AddingLintsTable], None)
  }

  /**
    The second step: the four-way decision on `lints.workspace`. It gives up
    when `lints` is not a standard table or `workspace` is not a boolean, and
    then leaves the document alone; otherwise it leaves `workspace = true`
    and keeps the top-level key order (`LemmaSetWorkspaceSucceeds` gives the
    frame).
   */
  function SetWorkspace(doc: Table): (e: Edit)
    ensures e.failed == Some(LintsNotTable) <==> Get(doc, LintsKey).None? || !Get(doc, LintsKey).value.StandardTable?
    ensures e.failed == Some(BogusWorkspace) <==> WorkspaceIsBogus(doc)
    ensures e.failed.Some? ==> e.doc == doc
    ensures e.failed == None ==> OptedIn(e.doc) && e.doc.keys == doc.keys
  {
    var entry := Get(doc, LintsKey);
    if entry.None? || !entry.value.StandardTable? then Edit(doc, [], Some(LintsNotTable))
    else
      var lints := entry.value.t;
      var opted := Insert(doc, LintsKey, StandardTable(Insert(lints, WorkspaceKey, Value(Bool(true)))));
      var value := Get(lints, WorkspaceKey);
      if value.None? then Edit(opted, [AddingWorkspaceKey], None)
      else
        match AsBool(value.value)
        case Some(false) => Edit(opted, [OptsOut], None)
        case Some(true) => Edit(doc, [AlreadyOptedIn], None)
        case None => Edit(doc, [BogusWorkspaceKey], Some(BogusWorkspace))
  }

  /**
    The whole edit of one manifest. It gives up exactly on the two malformed
    shapes, leaving the document alone; otherwise the result opts in and the
    old keys keep their order (`LemmaEditSucceeds` gives the frame).
   */
  function EditManifest(doc: Table): (e: Edit)
    ensures e.failed.Some? <==> LintsIsNotTable(doc) || WorkspaceIsBogus(doc)
    ensures e.failed.Some? ==> e.doc == doc
    ensures e.failed == None ==> OptedIn(e.doc) && doc.keys <= e.doc.keys
  {
    var first := WithLintsEntry(doc);
    var second := SetWorkspace(first.doc);
    Edit(second.doc, first.lines + second.lines, second.failed)
  }

  /** The edit gives up exactly on the two malformed shapes, and says which. */
  lemma LemmaEditFails(doc: Table)
    ensures EditManifest(doc).failed == Some(LintsNotTable) <==> LintsIsNotTable(doc)
    ensures EditManifest(doc).failed == Some(BogusWorkspace) <==> WorkspaceIsBogus(doc)
  {
  }

  /** A `lints` that is not a standard table aborts the edit before anything is printed. */
  lemma LemmaLintsNotTable(doc: Table)
    requires LintsIsNotTable(doc)
    ensures EditManifest(doc) == Edit(doc, [], Some(LintsNotTable))
  {
  }

  /** A non-boolean `lints.workspace` is reported and aborts the edit. */
  lemma LemmaBogusWorkspace(doc: Table)
    requires WorkspaceIsBogus(doc)
    ensures EditManifest(doc) == Edit(doc, [BogusWorkspaceKey], Some(BogusWorkspace))
  {
  }

  /**
    A manifest without `lints` gets a `[lints]` table holding only
    `workspace = true`, appended after every other key; both additions are
    reported.
   */
  lemma LemmaNoLints(doc: Table)
    requires Get(doc, LintsKey).None?
    ensures EditManifest(doc) ==
              Edit(Table(doc.keys + [LintsKey], doc.items[LintsKey := StandardTable(OptedInLints)]),
                   [AddingLintsTable, AddingWorkspaceKey], None)
  {
    var first := Insert(doc, LintsKey, StandardTable(EmptyTable));
    assert Insert(EmptyTable, WorkspaceKey, Value(Bool(true))) == OptedInLints;
    assert first.items[LintsKey := StandardTable(OptedInLints)] == doc.items[LintsKey := StandardTable(OptedInLints)];
  }

  /** A `lints` table without `workspace` gains `workspace = true` after its other keys. */
  lemma LemmaNoWorkspaceKey(doc: Table, lints: Table)
    requires Get(doc, LintsKey) == Some(StandardTable(lints)) && Get(lints, WorkspaceKey).None?
    ensures EditManifest(doc).failed == None && EditManifest(doc).lines == [AddingWorkspaceKey]
    ensures EditManifest(doc).doc.keys == doc.keys
    ensures Get(EditManifest(doc).doc, LintsKey) ==
              Some(StandardTable(Table(lints.keys + [WorkspaceKey], lints.items[WorkspaceKey := Value(Bool(true))])))
  {
  }

  /** `workspace = false` is flipped to `true` in place and the flip is reported. */
  lemma LemmaOptsOut(doc: Table, lints: Table)
    requires Get(doc, LintsKey) == Some(StandardTable(lints)) && Get(lints, WorkspaceKey) == Some(Value(Bool(false)))
    ensures EditManifest(doc).failed == None && EditManifest(doc).lines == [OptsOut]
    ensures EditManifest(doc).doc.keys == doc.keys
    ensures Get(EditManifest(doc).doc, LintsKey) ==
              Some(StandardTable(Table(lints.keys, lints.items[WorkspaceKey := Value(Bool(true))])))
  {
  }

  /** A manifest that already opts in is left exactly as it was. */
  lemma LemmaAlreadyOptedIn(doc: Table)
    requires OptedIn(doc)
    ensures EditManifest(doc) == Edit(doc, [AlreadyOptedIn], None)
  {
  }

  /**
    A successful decision on `lints.workspace` leaves `lints` a standard
    table with `workspace = true`, touches no other key at either level, and
    keeps the order of the keys at both levels.
   */
  lemma LemmaSetWorkspaceSucceeds(doc: Table)
    requires SetWorkspace(doc).failed == None
    ensures Get(doc, LintsKey).Some? && Get(doc, LintsKey).value.StandardTable?
    ensures OptedIn(SetWorkspace(doc).doc)
    ensures forall k :: k != LintsKey ==> Get(SetWorkspace(doc).doc, k) == Get(doc, k)
    ensures var before, after := Get(doc, LintsKey).value.t, Get(SetWorkspace(doc).doc, LintsKey).value.t;
            && (forall k :: k != WorkspaceKey ==> Get(after, k) == Get(before, k))
            && before.keys <= after.keys
    ensures SetWorkspace(doc).doc.keys == doc.keys
  {
    var lints := Get(doc, LintsKey).value.t;
    if Get(lints, WorkspaceKey) == Some(Value(Bool(true))) {
      assert SetWorkspace(doc).doc == doc;
    } else {
      var w := Insert(lints, WorkspaceKey, Value(Bool(true)));
      assert SetWorkspace(doc).doc == Insert(doc, LintsKey, StandardTable(w));
    }
  }

  /**
    After a successful edit `lints` is a standard table holding
    `workspace = true`; no other top-level key and no other key of `lints` is
    added, removed or changed, and the keys that were there keep their order.
   */
  lemma LemmaEditSucceeds(doc: Table)
    requires EditManifest(doc).failed == None
    ensures OptedIn(EditManifest(doc).doc)
    ensures forall k :: k != LintsKey ==> Get(EditManifest(doc).doc, k) == Get(doc, k)
    ensures Get(doc, LintsKey).None? ==> Get(EditManifest(doc).doc, LintsKey) == Some(StandardTable(OptedInLints))
    ensures forall lints, k :: Get(doc, LintsKey) == Some(StandardTable(lints)) && k != WorkspaceKey ==>
              Get(Get(EditManifest(doc).doc, LintsKey).value.t, k) == Get(lints, k)
    ensures doc.keys <= EditManifest(doc).doc.keys
  {
    LemmaSetWorkspaceSucceeds(WithLintsEntry(doc).doc);
    if Get(doc, LintsKey).None? {
      LemmaNoLints(doc);
    }
  }

  /** The edit leaves the document untouched exactly when it already opts in. */
  lemma LemmaUnchangedIffOptedIn(doc: Table)
    ensures (EditManifest(doc).failed == None && EditManifest(doc).doc == doc) <==> OptedIn(doc)
  {
    if OptedIn(doc) {
      LemmaAlreadyOptedIn(doc);
    } else if EditManifest(doc).failed == None {
      LemmaEditSucceeds(doc);
    }
  }

  /** Editing an edited manifest takes the "already opted in" branch and changes nothing. */
  lemma LemmaEditIdempotent(doc: Table)
    requires EditManifest(doc).failed == None
    ensures EditManifest(EditManifest(doc).doc) == Edit(EditManifest(doc).doc, [AlreadyOptedIn], None)
  {
    LemmaEditSucceeds(doc);
    LemmaAlreadyOptedIn(EditManifest(doc).doc);
  }

  /** The edit keeps a parsed document valid, and the `lints` table it edits too. */
  lemma LemmaEditValid(doc: Table)
    requires Valid(doc)
    requires forall lints :: Get(doc, LintsKey) == Some(StandardTable(lints)) ==> Valid(lints)
    ensures Valid(EditManifest(doc).doc)
    ensures Get(EditManifest(doc).doc, LintsKey).Some? && Get(EditManifest(doc).doc, LintsKey).value.StandardTable? ==>
              Valid(Get(EditManifest(doc).doc, LintsKey).value.t)
  {
    LemmaInsertValid(doc, LintsKey, StandardTable(EmptyTable));
    var first := WithLintsEntry(doc).doc;
    var entry := Get(first, LintsKey);
    if entry.Some? && entry.value.StandardTable? {
      var lints := entry.value.t;
      assert Valid(lints) by {
        if Get(doc, LintsKey).None? {
          assert lints == EmptyTable;
        }
      }
      var w := Insert(lints, WorkspaceKey, Value(Bool(true)));
      LemmaInsertValid(lints, WorkspaceKey, Value(Bool(true)));
      LemmaInsertValid(first, LintsKey, StandardTable(w));
    }
  }

  /** The edit prints only its own messages: never a header, never the write-back line. */
  lemma LemmaEditLines(doc: Table)
    ensures forall l :: l in EditManifest(doc).lines ==> !l.MemberHeader? && l != WritingBack
  {
  }

  /**
    The document of one member, owned for the duration of its edit, and the
    lines printed while editing it.
   */
  class ManifestEditor {
    var doc: Table
    var log: seq<Line>

    constructor (doc: Table)
      ensures this.doc == doc && log == []
    {
      this.doc := doc;
      log := [];
    }

    /** Inserts an empty standard table under a vacant `lints` entry. */
    method EnsureLintsEntry()
      modifies this
      ensures doc == WithLintsEntry(old(doc)).doc
      ensures log == old(log) + WithLintsEntry(old(doc)).lines
    {
      if Get(doc, LintsKey).None? {
        log := log + [AddingLintsTable];
        doc := Insert(doc, LintsKey, StandardTable(EmptyTable));
      }
    }

    /**
      Requires `lints` to be a standard table, then sets its `workspace`
      entry to `true` unless it already is, or holds something else.
     */
    method OptIntoWorkspaceLints() returns (failed: Option<EditError>)
      modifies this
      ensures doc == SetWorkspace(old(doc)).doc
      ensures log == old(log) + SetWorkspace(old(doc)).lines
      ensures failed == SetWorkspace(old(doc)).failed
    {
      var entry := Get(doc, LintsKey);
      if entry.None? || !entry.value.StandardTable? {
        return Some(LintsNotTable);
      }
      var lints := entry.value.t;
      var value := Get(lints, WorkspaceKey);
      if value.Some? {
        match AsBool(value.value)
        case Some(false) =>
          log := log + [OptsOut];
          lints := Insert(lints, WorkspaceKey, Value(Bool(true)));
          doc := Insert(doc, LintsKey, StandardTable(lints));
        case Some(true) =>
          log := log + [AlreadyOptedIn];
        case None =>
          log := log + [BogusWorkspaceKey];
          return Some(BogusWorkspace);
      } else {
        log := log + [AddingWorkspaceKey];
        lints := Insert(lints, WorkspaceKey, Value(Bool(true)));
        doc := Insert(doc, LintsKey, StandardTable(lints));
      }
      failed := None;
    }
  }

}
