/**
  The walk over the members of a Cargo workspace: index the packages that the
  metadata query reported, then for each workspace member read its manifest,
  edit it and write it back only when the rendered text differs. Parsing and
  rendering belong to the TOML library and are taken as parameters; the file
  system is a map from manifest path to text.
 */
module Workspace {
  import opened Wrappers
  import opened Toml
  import opened Lints

  type Path = string

  /** A package as the metadata query reports it: only its id and manifest path are used. */
  datatype Package = Package(id: string, manifestPath: Path)

  /** Why the run stops (the tool panics on the first of these). */
  datatype Abort =
    | MissingPackage(id: string)             // a member id that no package carries
    | Unreadable(path: Path)                 // the manifest file cannot be read
    | Unparsable(path: Path)                 // the manifest is not a TOML document
    | BadManifest(member: string, error: EditError)

  /** The files after some members were processed, what was printed, and how it ended. */
  datatype Trace = Trace(files: map<Path, string>, log: seq<Line>, abort: Option<Abort>)

  /** The index from package id to manifest path: every id is present, the last package wins. */
  function IndexOf(packages: seq<Package>): (index: map<string, Path>)
    ensures forall id :: id in index <==> exists i :: 0 <= i < |packages| && packages[i].id == id
  {
    if packages == [] then map[]
    else
      var last := packages[|packages| - 1];
      IndexOf(packages[..|packages| - 1])[last.id := last.manifestPath]
  }

  /** When two packages share an id, the later one in the list is the one indexed. */
  lemma {:induction false} LemmaLaterWins(packages: seq<Package>, i: nat)
    requires i < |packages|
    requires forall j :: i < j < |packages| ==> packages[j].id != packages[i].id
    ensures IndexOf(packages)[packages[i].id] == packages[i].manifestPath
  {
    if i < |packages| - 1 {
      LemmaLaterWins(packages[..|packages| - 1], i);
    }
  }

  /** Fills the index with one insertion per package, in order. */
  method IndexPackages(packages: seq<Package>) returns (index: map<string, Path>)
    ensures index == IndexOf(packages)
  {
    index := map[];
    for k := 0 to |packages|
      invariant index == IndexOf(packages[..k])
    {
      assert packages[..k + 1][..k] == packages[..k];
      index := index[packages[k].id := packages[k].manifestPath];
    }
    assert packages[..|packages|] == packages;
  }

  /**
    One member: look its package up, read and parse its manifest, edit it,
    and write the rendering back when it differs from the text read.
   */
  function Step(files: map<Path, string>, index: map<string, Path>, member: string,
                parse: string -> Option<Table>, render: (string, Table) -> string): (r: Trace)
    ensures r.files.Keys == files.Keys
    ensures r.abort.Some? ==> r.files == files
    ensures forall p :: p in files && (member !in index || p != index[member]) ==> r.files[p] == files[p]
  {
    if member !in index then Trace(files, [], Some(MissingPackage(member)))
    else
      var path := index[member];
      if path !in files then Trace(files, [], Some(Unreadable(path)))
      else
        var text := files[path];
        match parse(text)
        case None => Trace(files, [], Some(Unparsable(path)))
        case Some(doc) =>
          var e := EditManifest(doc);
          var printed := [MemberHeader(member)] + e.lines;
          if e.failed.Some? then Trace(files, printed, Some(BadManifest(member, e.failed.value)))
          else
            var edited := render(text, e.doc);
            if edited != text then Trace(files[path := edited], printed + [WritingBack], None)
            else Trace(files, printed, None)
  }

  /** The members in order, stopping at the first abort. */
  function RunMembers(files: map<Path, string>, index: map<string, Path>, members: seq<string>,
                      parse: string -> Option<Table>, render: (string, Table) -> string): (r: Trace)
    ensures r.files.Keys == files.Keys
    ensures forall p :: p in files && (forall m :: m in members && m in index ==> index[m] != p) ==> r.files[p] == files[p]
    decreases |members|
  {
    if members == [] then Trace(files, [], None)
    else
      var first := Step(files, index, members[0], parse, render);
      if first.abort.Some? then first
      else
        var rest := RunMembers(first.files, index, members[1..], parse, render);
        Trace(rest.files, first.log + rest.log, rest.abort)
  }

  /** A member id that no package carries stops the run before anything is printed or written. */
  lemma LemmaMissingMember(files: map<Path, string>, packages: seq<Package>, member: string,
                           parse: string -> Option<Table>, render: (string, Table) -> string)
    requires forall i :: 0 <= i < |packages| ==> packages[i].id != member
    ensures Step(files, IndexOf(packages), member, parse, render) == Trace(files, [], Some(MissingPackage(member)))
  {
  }

  /**
    After a member is edited successfully its manifest holds the rendering of
    the edited document; the file was written, and the write reported, exactly
    when that rendering differs from the text that was read.
   */
  lemma LemmaWrittenIffChanged(files: map<Path, string>, index: map<string, Path>, member: string,
                               parse: string -> Option<Table>, render: (string, Table) -> string, doc: Table)
    requires member in index && index[member] in files
    requires parse(files[index[member]]) == Some(doc)
    requires EditManifest(doc).failed == None
    ensures var r := Step(files, index, member, parse, render);
            var edited := render(files[index[member]], EditManifest(doc).doc);
            && r.abort == None
            && r.files[index[member]] == edited
            && (r.files != files <==> edited != files[index[member]])
            && (WritingBack in r.log <==> edited != files[index[member]])
  {
    var path, text := index[member], files[index[member]];
    var e := EditManifest(doc);
    var edited := render(text, e.doc);
    var printed := [MemberHeader(member)] + e.lines;
    assert WritingBack !in printed by {
      LemmaEditLines(doc);
    }
    if edited != text {
      assert Step(files, index, member, parse, render) == Trace(files[path := edited], printed + [WritingBack], None);
      assert files[path := edited][path] != files[path];
    } else {
      assert Step(files, index, member, parse, render) == Trace(files, printed, None);
    }
  }

  /**
    A manifest that already opts in, and that renders back to the text it was
    parsed from, is left alone on disk and reported as already opted in.
   */
  lemma LemmaOptedInUntouched(files: map<Path, string>, index: map<string, Path>, member: string,
                              parse: string -> Option<Table>, render: (string, Table) -> string, doc: Table)
    requires member in index && index[member] in files
    requires parse(files[index[member]]) == Some(doc) && render(files[index[member]], doc) == files[index[member]]
    requires OptedIn(doc)
    ensures Step(files, index, member, parse, render) == Trace(files, [MemberHeader(member), AlreadyOptedIn], None)
  {
    LemmaAlreadyOptedIn(doc);
  }

  /**
    With a rendering that tells documents apart and round-trips the parse,
    the file is written exactly when the manifest did not already opt in.
   */
  lemma LemmaWrittenIffNotOptedIn(files: map<Path, string>, index: map<string, Path>, member: string,
                                  parse: string -> Option<Table>, render: (string, Table) -> string, doc: Table)
    requires member in index && index[member] in files
    requires parse(files[index[member]]) == Some(doc) && render(files[index[member]], doc) == files[index[member]]
    requires forall d1, d2 :: render(files[index[member]], d1) == render(files[index[member]], d2) ==> d1 == d2
    requires EditManifest(doc).failed == None
    ensures Step(files, index, member, parse, render).files != files <==> !OptedIn(doc)
  {
    LemmaUnchangedIffOptedIn(doc);
    LemmaWrittenIffChanged(files, index, member, parse, render, doc);
  }

  /**
    What the tool needs of re-parsing its output: a document that opts in,
    rendered over any original text, parses again to a document that opts in.
   */
  ghost predicate RenderKeepsOptIn(parse: string -> Option<Table>, render: (string, Table) -> string) {
    forall text, d :: OptedIn(d) ==> parse(render(text, d)).Some? && OptedIn(parse(render(text, d)).value)
  }

  /**
    Round-trip fidelity: rendering the unedited parse of a text over that
    text gives the text back, formatting and comments included.
   */
  ghost predicate ParseRenders(parse: string -> Option<Table>, render: (string, Table) -> string) {
    forall text :: parse(text).Some? ==> render(text, parse(text).value) == text
  }

  /** Every member's manifest is readable and parses to a document that opts in. */
  ghost predicate AllOptedIn(files: map<Path, string>, index: map<string, Path>, members: seq<string>,
                             parse: string -> Option<Table>) {
    forall m :: m in members ==>
      && m in index && index[m] in files
      && parse(files[index[m]]).Some? && OptedIn(parse(files[index[m]]).value)
  }

  /** What a run prints when every member already opts in: each member's header, then the "already" line. */
  function AlreadyReport(members: seq<string>): (lines: seq<Line>)
    ensures |lines| == 2 * |members|
    ensures forall i :: 0 <= i < |members| ==> lines[2 * i] == MemberHeader(members[i]) && lines[2 * i + 1] == AlreadyOptedIn
  {
    if members == [] then [] else [MemberHeader(members[0]), AlreadyOptedIn] + AlreadyReport(members[1..])
  }

  /**
    A run that completes leaves every member's manifest opting in, when a
    rendering of a document that opts in parses to one that opts in.
   */
  lemma {:induction false} LemmaRunOptsAllIn(files: map<Path, string>, index: map<string, Path>, members: seq<string>,
                                             parse: string -> Option<Table>, render: (string, Table) -> string)
    requires RenderKeepsOptIn(parse, render)
    requires RunMembers(files, index, members, parse, render).abort == None
    ensures AllOptedIn(RunMembers(files, index, members, parse, render).files, index, members, parse)
    decreases |members|
  {
    if members != [] {
      var m := members[0];
      var step := Step(files, index, m, parse, render);
      var doc := parse(files[index[m]]).value;
      LemmaWrittenIffChanged(files, index, m, parse, render, doc);
      LemmaEditSucceeds(doc);
      LemmaRunOptsAllIn(step.files, index, members[1..], parse, render);
      var final := RunMembers(files, index, members, parse, render).files;
      assert final == RunMembers(step.files, index, members[1..], parse, render).files;
      forall x | x in members
        ensures x in index && index[x] in final
        ensures parse(final[index[x]]).Some? && OptedIn(parse(final[index[x]]).value)
      {
        if x !in members[1..] {
          assert x == m;
          if m2 :| m2 in members[1..] && m2 in index && index[m2] == index[m] {
            assert index[x] == index[m2];
          } else {
            assert final[index[m]] == step.files[index[m]];
            assert OptedIn(EditManifest(doc).doc);
          }
        }
      }
    }
  }

  /**
    A run over manifests that all opt in already, and that render back to
    their own text, writes nothing and reports every member as opted in.
   */
  lemma {:induction false} LemmaRerunUnchanged(files: map<Path, string>, index: map<string, Path>, members: seq<string>,
                                               parse: string -> Option<Table>, render: (string, Table) -> string)
    requires ParseRenders(parse, render)
    requires AllOptedIn(files, index, members, parse)
    ensures RunMembers(files, index, members, parse, render) == Trace(files, AlreadyReport(members), None)
    decreases |members|
  {
    if members != [] {
      var m := members[0];
      var doc := parse(files[index[m]]).value;
      LemmaOptedInUntouched(files, index, m, parse, render, doc);
      assert AllOptedIn(files, index, members[1..], parse) by {
        forall x | x in members[1..] ensures x in members { }
      }
      LemmaRerunUnchanged(files, index, members[1..], parse, render);
    }
  }

  /**
    Running the tool a second time over what a completed run wrote changes
    no file and reports every member as already opted in.
   */
  lemma LemmaRunIdempotent(files: map<Path, string>, index: map<string, Path>, members: seq<string>,
                           parse: string -> Option<Table>, render: (string, Table) -> string)
    requires RenderKeepsOptIn(parse, render) && ParseRenders(parse, render)
    requires RunMembers(files, index, members, parse, render).abort == None
    ensures var first := RunMembers(files, index, members, parse, render);
            RunMembers(first.files, index, members, parse, render) == Trace(first.files, AlreadyReport(members), None)
  {
    LemmaRunOptsAllIn(files, index, members, parse, render);
    LemmaRerunUnchanged(RunMembers(files, index, members, parse, render).files, index, members, parse, render);
  }

  /** Concatenation regroups freely (stated once so the methods' logs need not unfold it). */
  lemma LemmaConcatAssoc<T>(a: seq<T>, b: seq<T>, c: seq<T>)
    ensures (a + b) + c == a + (b + c)
  {
  }

  /** One more member of a run: the loop invariant of `Session.Run` carried over one step. */
  lemma LemmaRunMembersStep(files: map<Path, string>, index: map<string, Path>, members: seq<string>, i: nat,
                            parse: string -> Option<Table>, render: (string, Table) -> string,
                            printed: seq<Line>, total: Trace)
    requires i < |members|
    requires var rest := RunMembers(files, index, members[i..], parse, render);
             total == Trace(rest.files, printed + rest.log, rest.abort)
    ensures var step := Step(files, index, members[i], parse, render);
            var rest := RunMembers(step.files, index, members[i + 1..], parse, render);
            if step.abort.Some? then total == Trace(step.files, printed + step.log, step.abort)
            else total == Trace(rest.files, (printed + step.log) + rest.log, rest.abort)
  {
    assert members[i..][0] == members[i] && members[i..][1..] == members[i + 1..];
    var step := Step(files, index, members[i], parse, render);
    if step.abort.None? {
      var rest := RunMembers(step.files, index, members[i + 1..], parse, render);
      LemmaConcatAssoc(printed, step.log, rest.log);
    }
  }

  /**
    The files and the printed lines of a whole run.
   */
  class Session {
    var files: map<Path, string>
    var log: seq<Line>

    constructor (files: map<Path, string>)
      ensures this.files == files && log == []
    {
      this.files := files;
      log := [];
    }

    /** Reads, edits and conditionally writes back the manifest of one member. */
    method ProcessMember(index: map<string, Path>, member: string,
                         parse: string -> Option<Table>, render: (string, Table) -> string)
      returns (abort: Option<Abort>)
      modifies this
      ensures var r := Step(old(files), index, member, parse, render);
              files == r.files && log == old(log) + r.log && abort == r.abort
    {
      if member !in index {
        return Some(MissingPackage(member));
      }
      var path := index[member];
      if path !in files {
        return Some(Unreadable(path));
      }
      var text := files[path];
      var parsed := parse(text);
      if parsed.None? {
        return Some(Unparsable(path));
      }
      log := log + [MemberHeader(member)];
      var editor := new ManifestEditor(parsed.value);
      editor.EnsureLintsEntry();
      var failed := editor.OptIntoWorkspaceLints();
      log := log + editor.log;
      LemmaConcatAssoc(old(log), [MemberHeader(member)], editor.log);
      assert editor.doc == EditManifest(parsed.value).doc;
      assert editor.log == EditManifest(parsed.value).lines;
      assert failed == EditManifest(parsed.value).failed;
      if failed.Some? {
        return Some(BadManifest(member, failed.value));
      }
      var edited := render(text, editor.doc);
      if edited != text {
        log := log + [WritingBack];
        LemmaConcatAssoc(old(log), [MemberHeader(member)] + editor.log, [WritingBack]);
        files := files[path := edited];
      }
      abort := None;
    }

    /** Indexes the packages, then processes the members in order until one aborts. */
    method Run(packages: seq<Package>, members: seq<string>,
               parse: string -> Option<Table>, render: (string, Table) -> string)
      returns (abort: Option<Abort>)
      modifies this
      ensures var r := RunMembers(old(files), IndexOf(packages), members, parse, render);
              files == r.files && log == old(log) + r.log && abort == r.abort
    {
      var index := IndexPackages(packages);
      ghost var total := RunMembers(files, index, members, parse, render);
      ghost var printed: seq<Line> := [];
      assert members[0..] == members;
      var i := 0;
      while i < |members|
        invariant 0 <= i <= |members|
        invariant log == old(log) + printed
        invariant var rest := RunMembers(files, index, members[i..], parse, render);
                  total == Trace(rest.files, printed + rest.log, rest.abort)
      {
        LemmaRunMembersStep(files, index, members, i, parse, render, printed, total);
        ghost var step := Step(files, index, members[i], parse, render);
        abort := ProcessMember(index, members[i], parse, render);
        LemmaConcatAssoc(old(log), printed, step.log);
        printed := printed + step.log;
        if abort.Some? {
          return;
        }
        i := i + 1;
      }
      abort := None;
    }
  }

}
