# Source roots of the analysis crate, in Dafny

This project models `crates/ra_analysis/src/roots.rs`. A source root is a set of files that the analysis knows about. The file defines two kinds.

- The **writable source root** is the user's workspace. The editor changes it in batches of `(FileId, Option<String>)` edits: `Some(text)` writes a file and `None` removes it. Its state lives in a query database, modelled here as two plain inputs:
  - `texts`: a map from file id to text.
  - `fileSet`: the set of files together with a file resolver.
- The **read-only source root** is a library. It is built once from a list of files. For each file it keeps a `FileData` whose line index and syntax tree are computed lazily, on first access.

The model has three modules:

- `Collaborators` (`collaborators.dfy`): file ids, texts, and the `Result` and `Cancelable` outcomes. It also holds stand-ins for the parser, the line index, the symbol index, the module descriptors and the file resolver. Each stand-in only records its inputs. No proof depends on what they compute.
- `Changes` (`changes.dfy`): the meaning of one batch of edits, as pure functions, and lemmas about those functions.
  - Which ids the batch writes and which it removes.
  - The text store after the batch: the last write wins.
  - The file set after the batch: removals are applied first, then additions.
- `Roots` (`roots.dfy`): the classes `WritableSourceRoot`, `FileData` and `ReadonlySourceRoot`. Their methods are proved against the functions of `Changes`. Each class has an object invariant, `Valid()`:
  - Writable root: every file in the file set has a stored text.
  - `FileData`: a filled cache cell holds exactly what its initializer computes from the file's text.
  - Read-only root: every file data is valid, and different ids hold different file data, so filling one file's cache never touches another's.

Edge case: an id that one batch both removes and writes ends up in the file set. Its text is never cleared by a removal.

## Model

| member | source | states |
|---|---|---|
| `Changes.ChangedIds` | crates/ra_analysis/src/roots.rs:46-50 | the `changed` set holds exactly the ids that have a `Some` entry somewhere in the batch |
| `Changes.RemovedIds` | crates/ra_analysis/src/roots.rs:43-45 | the `removed` set holds exactly the ids that have a `None` entry somewhere in the batch |
| `Changes.NewFiles` | crates/ra_analysis/src/roots.rs:54-59 | after the batch, an id is a file exactly when the batch writes it (even if it also removes it), or when it was a file before and the batch never removes it; so an id that is only removed is absent, and an id the batch does not mention keeps its membership |
| `Changes.ApplyTextsLastWins` | crates/ra_analysis/src/roots.rs:41-52 | the stored text of an id after the batch is the text of its last `Some` entry; an id with no `Some` entry keeps its old text, or its absence, even when the batch removes it |
| `Changes.ApplyTextsKeys` | crates/ra_analysis/src/roots.rs:41-52 | the ids with a stored text after the batch are the old ones plus every id the batch writes; no id loses its text |
| `Roots.WritableSourceRoot.constructor` | crates/ra_analysis/src/roots.rs:28-31 | the default root has no texts and an empty file set; the resolver that the derived default would build is taken as a parameter |
| `Roots.WritableSourceRoot.ApplyChanges` | crates/ra_analysis/src/roots.rs:34-64 | the new texts are the old texts with the batch's writes applied in order; the new file set is `(old files - removed) + changed`; the resolver is the supplied one when given and is otherwise unchanged; every file in the set still has a text |
| `Roots.WritableSourceRoot.Contains` | crates/ra_analysis/src/roots.rs:71-73 | an id belongs to the root exactly when it is in the current file set, and such an id always has a stored text |
| `Roots.WritableSourceRoot.Symbols` | crates/ra_analysis/src/roots.rs:80-86 | the earlier entries of `acc` are untouched; one symbol index is appended per visited file, each visited file is in the file set and is visited once, and the appended index is that file's query result; the call succeeds exactly when every file was visited, and then it has appended exactly as many entries as the file set has files; a canceled call stops at a file whose query was canceled, leaving only a prefix appended |
| `Roots.FileData.constructor` | crates/ra_analysis/src/roots.rs:97-103 | new file data keeps the text, and both cache cells start empty |
| `Roots.FileData.Lines` | crates/ra_analysis/src/roots.rs:104-107 | returns the line index of the text and leaves it in the cell; once the cell is filled, later calls leave it unchanged and return the same value |
| `Roots.FileData.Syntax` | crates/ra_analysis/src/roots.rs:108-120 | returns the parse of the text and leaves it in the cell; once the cell is filled, later calls leave it unchanged and return the same value |
| `Roots.FileListIsWriteOnlyBatch` | crates/ra_analysis/src/roots.rs:148-151 | read as a batch of edits, the file list that the read-only root collects into its map writes every listed id and removes none, so the collect is the writable root's text update applied to an empty store |
| `Roots.ModulesShareParse` | crates/ra_analysis/src/roots.rs:135-147 | the module tree and the symbol index are fed from one `modules` vector: both see every listed file in list order, and entry `i` of the module tree describes the same syntax tree (by value) that entry `i` of the symbol index receives, the parse of the `i`-th listed text |
| `Roots.FileTextsLastWins` | crates/ra_analysis/src/roots.rs:148-151 | collecting the file list into a map gives a text to exactly the listed ids, and that text comes from the last entry listing the id |
| `Roots.ReadonlySourceRoot.constructor` | crates/ra_analysis/src/roots.rs:131-158 | the file map has exactly the listed ids; each holds fresh file data with the id's last listed text and empty cells; different ids hold different file data; the module tree and the symbol index are built from all the listed files through the `modules` vector (`Modules`, projected by `ModuleDescriptors` and `ParsedFiles`) |
| `Roots.ReadonlySourceRoot.Data` | crates/ra_analysis/src/roots.rs:160-165 | a known id yields its file data; an unknown id is the `UnknownFile` error |
| `Roots.ReadonlySourceRoot.Contains` | crates/ra_analysis/src/roots.rs:172-174 | an id belongs to the root exactly when it is a key of the file map, which is exactly when `Data` accepts it |
| `Roots.ReadonlySourceRoot.ModuleTree` | crates/ra_analysis/src/roots.rs:169-171 | never canceled; returns the module tree built at construction |
| `Roots.ReadonlySourceRoot.Lines` | crates/ra_analysis/src/roots.rs:175-177 | a known id yields the line index of its text, cached in its file data; an already filled cell is left as it was, the file's syntax cell is untouched, and so are the cells of every other file; an unknown id is an error; every file data stays valid |
| `Roots.ReadonlySourceRoot.Syntax` | crates/ra_analysis/src/roots.rs:178-180 | a known id yields the parse of its text, cached in its file data; an already filled cell is left as it was, the file's lines cell is untouched, and so are the cells of every other file; an unknown id is an error; every file data stays valid |
| `Roots.ReadonlySourceRoot.Symbols` | crates/ra_analysis/src/roots.rs:181-184 | appends exactly one entry, the root's single symbol index, and never cancels |

## Left out

- The query database behind the writable root is not modelled: memoization, revisions and dependency tracking are gone. Its two inputs, the file texts and the file set, are plain fields.
- The writable root's `module_tree`, `lines` and `syntax` (crates/ra_analysis/src/roots.rs:68-70 and 74-79) are not modelled. They only forward to database queries whose code is not part of this model.
- Roots.WritableSourceRoot.Symbols: the outcome of the per-file symbol query is a function parameter, because the query and its cancellation flag live in the database. The hash set's iteration order is a nondeterministic choice, recorded in the ghost `visited` sequence.
- The parser, the line index, the module descriptors, the module tree, the symbol index and the file resolver are stand-in datatypes that only record their inputs. Their real computations are external to this file.
- The parallel `par_iter` in the read-only constructor is modelled as a sequential map in list order, because it computes the same result.
- The panic handling around parsing (`catch_unwind`, logging, `resume_unwind`) is left out. `Parse` always returns a tree here.
- The `panic!` for an unknown id in `data` becomes an `Err(UnknownFile(id))` result. `lines` and `syntax` propagate that result instead of aborting.
- Roots.FileData.Lines: the source returns the same `Arc` on every call. The model promises an equal value and an untouched cell, not pointer identity. `OnceCell` is modelled as an `Option` field, without its thread safety.
- Roots.FileData.Syntax: same as `Lines`, with value equality in place of reference identity.
- The `SourceRoot` trait is not a Dafny trait. Both classes declare members with the trait's names instead.
- Roots.WritableSourceRoot.constructor: the source derives `Default`, whose database builds its own default resolver; that resolver's construction is external, so the model takes it as a parameter.
- `FileId` is a `u32` in the source and a `nat` here. File ids are only compared, never computed, so no width matters.
