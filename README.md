# opt-into-workspace-lints, modelled in Dafny

The tool walks the members of a Cargo workspace and edits each member's
`Cargo.toml` so that it opts into the workspace-level lint configuration
(`[lints]` with `workspace = true`), touching nothing else. For each member it
looks the member's package up by id, reads and parses the manifest, makes
sure there is a `lints` entry (inserting an empty table when it is
vacant), insists that the entry is a table and not a value, decides on
`lints.workspace` (absent: add `true`; `false`: flip to `true`; `true`: leave
it; anything else: report it and panic), and writes the file back only when
the re-rendered text differs from the text it read.

Files:

- `wrappers.dfy` — `Option`.
- `toml.dfy` — module `Toml`: a TOML v1.0.0 document as an ordered map
  (`Table`: key order plus a `map` from key to item). Items are values,
  tables (`StandardTable`) or arrays of tables. `StandardTable` is every
  table that is not inline: one opened by a `[lints]` header, one implied by
  a `[lints.rust]` header alone, or one built from dotted keys such as
  `lints.workspace = false`. `parse` maps all three to it. An inline table
  `{ ... }` is a value, as the TOML library's `Item` keeps it. `Insert` keeps
  an existing key where it stands and appends a new key at the end.
- `lints.dfy` — module `Lints`: the per-member edit. `WithLintsEntry`,
  `SetWorkspace` and `EditManifest` are its specification and return the new
  document, the printed lines and whether it gave up. The lemmas state each
  branch, the abort conditions, the post-state, the frame and idempotence.
  The class `ManifestEditor` owns one member's document and its printed lines,
  and changes them in place step by step.
- `workspace.dfy` — module `Workspace`: the package index (a loop, the later
  package wins), the member step and the run over all members (`Step`,
  `RunMembers`), the write-if-changed properties, whole-run idempotence, and
  the class `Session`. `Session` holds the file system (a map from manifest
  path to text) and the printed report, and its `Run` method is the member
  loop.

Parsing and rendering belong to the TOML library. They are uninterpreted
parameters `parse: string -> Option<Table>` and
`render: (string, Table) -> string`. A `Table` holds no formatting, so
`render` takes the text that was read as well as the edited table. The
formatting the library keeps from that text (comments, whitespace, key
spelling) reaches the output this way. Nothing about the library is assumed
globally. Two properties appear only as a `requires` of the lemmas that need
them:

- `ParseRenders` is round-trip fidelity: rendering the unedited parse of a
  text over that text gives the text back.
- `RenderKeepsOptIn` says that rendering a document that opts in gives text
  that parses to a document that opts in. It does not ask for key order or
  the whole document to survive.

A panic (`unwrap` on a missing package, an unreadable or unparsable file, or
`lints` that is not a table; the bogus-key `panic!`) is an `Abort` value. The
run stops at the first one and keeps the files already written, as the
program does.

An inline table `lints = { workspace = false }` is not flipped.
`as_table_mut` (src/main.rs:79) accepts every table that is not inline, so a
`[lints]` header, an implied `lints` table and dotted `lints.` keys are all
edited. It rejects only values, inline tables included, and arrays of
tables, so an inline `lints` aborts. `LemmaLintsNotTable` states this.

## Model

| member | source | states |
|---|---|---|
| `Toml.Get` | src/main.rs:72-80 | a lookup finds an item exactly when the key holds one, and, in a well-formed table, exactly when the key is among the table's keys |
| `Toml.Insert` | src/main.rs:96 | the key afterwards holds the new item and every other key holds what it held; an existing key keeps the key order, a new key is appended last |
| `Toml.LemmaInsertValid` | src/main.rs:76 | inserting into a table whose keys are unique and match its entries keeps it so |
| `Lints.AsBool` | src/main.rs:81 | `as_bool` gives a boolean exactly when the item is a plain boolean value, and that boolean is the one it holds |
| `Lints.WithLintsEntry` | src/main.rs:72-78 | afterwards `lints` is present; a present entry is left as it was with nothing printed; a vacant one becomes an empty standard table appended after the other keys and "adding empty lints table" is printed; no other key changes |
| `Lints.SetWorkspace` | src/main.rs:79-97 | the decision aborts with `LintsNotTable` exactly when `lints` is missing or not a standard table, and with `BogusWorkspace` exactly when `workspace` is there and not a boolean; an abort leaves the document alone; otherwise the document opts in and keeps its top-level key order |
| `Lints.EditManifest` | src/main.rs:72-97 | the whole edit aborts exactly when `lints` is present and not a standard table or `lints.workspace` is present and not a boolean; an abort leaves the document alone; otherwise the result opts in and the old keys are a prefix of the new ones |
| `Lints.LemmaEditFails` | src/main.rs:79-92 | the edit aborts with `LintsNotTable` exactly when `lints` is present and not a standard table, and with `BogusWorkspace` exactly when `lints.workspace` is present and not a boolean |
| `Lints.LemmaLintsNotTable` | src/main.rs:79 | a `lints` that is a value (an inline table included) or an array of tables aborts before any line is printed |
| `Lints.LemmaBogusWorkspace` | src/main.rs:89-92 | a non-boolean `lints.workspace` prints "HAS BOGUS WORKSPACE KEY" and aborts |
| `Lints.LemmaNoLints` | src/main.rs:72-97 | a manifest without `lints` gains, at the end, a `lints` table holding only `workspace = true`, and both "adding" lines are printed in order |
| `Lints.LemmaNoWorkspaceKey` | src/main.rs:94-97 | a `lints` table without `workspace` gains `workspace = true` after its other keys, the top-level key order is unchanged, and "adding new lints.workspace key" is printed |
| `Lints.LemmaOptsOut` | src/main.rs:82-85 | `workspace = false` becomes `true` in the same position, the key orders are unchanged, and the opt-out line is printed |
| `Lints.LemmaAlreadyOptedIn` | src/main.rs:86-88 | a manifest with `lints.workspace = true` is left exactly as it was and "already opted into workspace lints" is printed |
| `Lints.LemmaSetWorkspaceSucceeds` | src/main.rs:79-97 | a non-aborting decision found `lints` a standard table, leaves `workspace = true`, changes no other key at the top level or in `lints`, keeps the top-level key order, and keeps the old `lints` keys as a prefix of the new ones |
| `Lints.LemmaEditSucceeds` | src/main.rs:72-97 | after a non-aborting edit `lints` is a standard table with `workspace = true`; no other top-level key and no other key of `lints` is added, removed or changed; the old keys are a prefix of the new ones |
| `Lints.LemmaUnchangedIffOptedIn` | src/main.rs:72-97 | the edit succeeds without changing the document if and only if the document already opts in |
| `Lints.LemmaEditIdempotent` | src/main.rs:72-97 | editing the result of a successful edit takes the "already opted in" branch and returns the same document |
| `Lints.LemmaEditValid` | src/main.rs:72-97 | the edit keeps a well-formed document, and its `lints` table, well-formed |
| `Lints.LemmaEditLines` | src/main.rs:75-95 | the edit prints only its own messages, never a member header and never the write-back line |
| `Lints.Text` | src/main.rs:70-101 | a member header prints as the member followed by a colon, and no other line ends in a colon |
| `Lints.LemmaTextInjective` | src/main.rs:70-101 | two lines with the same printed text are the same line, so the report determines what happened |
| `Lints.ManifestEditor.constructor` | src/main.rs:68 | the editor starts from the parsed document with nothing printed |
| `Lints.ManifestEditor.EnsureLintsEntry` | src/main.rs:72-78 | the document and the printed lines become those of `WithLintsEntry` applied to the old document |
| `Lints.ManifestEditor.OptIntoWorkspaceLints` | src/main.rs:79-97 | the document, the printed lines and the abort become those of `SetWorkspace` applied to the old document |
| `Workspace.IndexOf` | src/main.rs:59-62 | the index holds exactly the ids of the packages |
| `Workspace.LemmaLaterWins` | src/main.rs:59-62 | when several packages share an id, the index maps it to the manifest of the last of them |
| `Workspace.IndexPackages` | src/main.rs:59-62 | the loop that inserts the packages one by one builds the index `IndexOf` describes |
| `Workspace.Step` | src/main.rs:65-103 | processing one member leaves the set of files alone, writes nothing when it aborts, and changes no file other than that member's manifest |
| `Workspace.RunMembers` | src/main.rs:65-104 | the run leaves the set of files alone and changes no file that is not the manifest of some member |
| `Workspace.LemmaMissingMember` | src/main.rs:66 | a member id that no package carries aborts the run before anything is printed or written |
| `Workspace.LemmaWrittenIffChanged` | src/main.rs:99-103 | after a successful edit the manifest holds the edited document rendered over the text read; the file changed, and "writing changes back" was printed, exactly when that rendering differs from the text read |
| `Workspace.LemmaOptedInUntouched` | src/main.rs:86-103 | a manifest that already opts in, and whose parse renders back to its own text, is not written, and the member's report is its header and "already opted into workspace lints" |
| `Workspace.LemmaWrittenIffNotOptedIn` | src/main.rs:80-103 | when the manifest round-trips and rendering over its text tells documents apart, the manifest is written exactly when it did not already opt in |
| `Workspace.LemmaRunOptsAllIn` | src/main.rs:65-103 | if rendering a document that opts in gives text that parses to a document that opts in, then after a run that completes every member's manifest parses to a document that opts in |
| `Workspace.AlreadyReport` | src/main.rs:70-87 | the report of members that already opt in is each member's header followed by "already opted into workspace lints", in member order |
| `Workspace.LemmaRerunUnchanged` | src/main.rs:65-103 | a run over manifests that all opt in already writes nothing and reports every member as already opted in |
| `Workspace.LemmaRunIdempotent` | src/main.rs:65-103 | given round-trip fidelity and that re-parsing keeps the opt-in, a second run over what a completed run wrote changes no file and reports every member as already opted in |
| `Workspace.Session.constructor` | src/main.rs:65-67 | a session starts from the given files with nothing printed |
| `Workspace.Session.ProcessMember` | src/main.rs:65-103 | the files, the printed report and the abort become those of `Step` for the member |
| `Workspace.Session.Run` | src/main.rs:59-104 | indexing the packages, then looping over the members, gives the files, report and abort of `RunMembers` over the index |

## Left out

- Command-line parsing of the workspace root (src/main.rs:15-19, 36) is library plumbing.
- Path canonicalisation, changing into the root and its "changing into directory" line, and removing `RUSTUP_TOOLCHAIN` (src/main.rs:38-48) are environment side effects.
- Running `cargo metadata` and deserialising its JSON (src/main.rs:50-58) are an external process and a foreign parser. The `packages` and `workspace_members` lists are parameters.
- Reading and writing files (src/main.rs:67, 102) are a map from path to text. A missing path is a read failure. Writes always succeed.
- How the TOML library parses, keeps formatting and renders (src/main.rs:68, 99) is left to the `parse` and `render` parameters. A `Table` holds no formatting; `render` gets it from the text that was read. Where the library puts an inserted key, and the decor that `*value = true.into()` resets, are up to `render` and are not constrained.
- The library's placeholder item (`Item::None`) is not modelled. A table never holds it.
- Key spelling is assumed resolved by the parser: quoted keys become plain strings, and a dotted key or a `[lints.x]` header becomes a nested `StandardTable`. Keys are compared as strings.
- `println!` formatting is modelled as a `Line` value per printed line, with `Text` giving its characters. Output interleaving is not modelled.
- Well-formedness (unique keys) is tracked for the top-level table and the `lints` table only, not for nested tables the edit never touches.
