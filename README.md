# One-way folder mirror: one synchronisation pass

The program keeps a replica folder in step with a source folder. It polls
forever. On each poll it makes one pass over the two folders:

- It walks the source folder's listing. For each regular file it does one of three things:
  - no replica entry has that name: it copies the file and logs `created`;
  - the replica entry's modification time differs from the source's: it copies the file over it and logs `copied`;
  - the two modification times are equal: it leaves the entry alone and logs `unchanged`.
- It then walks the replica folder's listing, taken after the first loop. It removes every entry whose name does not exist in the source at all, and logs `deleted`.
- A flag records whether anything was created, copied or deleted.

Only this pass has real logic, and it is what this project models and proves things about.

The model has these parts:

- `folders.dfy` (module `Folders`): a folder is a finite map from entry name to `File(mtime, content)` or `Directory(mtime)`. Modification times are integers compared only for equality. File contents are opaque bytes.
- `log_format.dfy` (module `LogFormat`): the two log-line formats and their parsers. The round-trip lemmas show two things:
  - no two events of one pass are written as the same line (each write is one string; see "## Left out" on line breaks in names);
  - a delete line never reads as a create/update line.
- `sync_spec.dfy` (module `SyncSpec`): the pass as functions over values.
  - Step functions follow the two loop bodies, and phase functions fold them over a listing.
  - Closed-form reference definitions state what a whole phase produces.
- `copy_phase.dfy` and `delete_phase.dfy`: lemmas proving that each loop equals its closed form, and that each event gets exactly one log line.
- `file_system.dfy` (module `Mirror`): the imperative pass.
  - Class `FileSystem` holds the source folder, the replica folder and the log file's lines.
  - Its methods `Copy`, `Remove` and `Append` are the three file-system operations the pass uses.
  - `SyncPass` runs the two loops in place and is proved to leave exactly the state that `SyncSpec.Pass` describes.
- `pass_properties.dfy` (module `PassProperties`): what a whole pass guarantees, stated against the folders as they were before it.
- `scenarios.dfy` (module `PassScenarios`): three concrete passes.

The model takes three external values as inputs:

- **The wall clock.** The formatted timestamp comes in as `Config.timestamp`. The modification time that a copy receives comes in as `now`.
- **The listing order of each folder.** It is passed as a sequence, with a precondition that the sequence enumerates the folder.
- **The replica listing.** The program reads it only after the create/update loop, so its precondition names the replica's names plus the source's files (`KeysAfterCopy`).

Where the program differs from the intended design, the model follows the program:

- **Copies do not keep the source's modification time.** The copy function used copies content and mode only. The replica gets the time of the write (`now`), so the next pass usually copies the same file again (`PassRestampsCopies`, `NewFileGetsCopyTime`). Convergence of modification times and idempotence across passes therefore do not hold, and are not claimed.
- **Unchanged files are logged on every pass** (`PassLeavesUnchanged`, `UnchangedFileIsLogged`).
- **The delete line has no `to:` part.**
- **The delete test is whether the name exists in the source at all.** A source directory therefore protects a replica entry of the same name (`PassSkipsDirectories`, `PassKeepsSourceNames`).
- **There is no per-action error handling.** Removing a replica-only directory raises and ends the program. The model reports this as `Failed` / `Crashed(name)` and keeps everything done before it (`PassCompletesIff`, `ReplicaOnlyDirectoryStopsThePass`).

## Model

| member | source | states |
|---|---|---|
| `LogFormat.SourceLineRoundTrip` | test_task.py:68 | Knowing the pass's timestamp and folders, a create/update line parses back to exactly the name and operation it was written for. A line that parses to (name, op) is exactly the line written for them. |
| `LogFormat.DeletedLineRoundTrip` | test_task.py:85 | A delete line parses back to its file name, and only that line parses to that name. |
| `LogFormat.SourceLineInjective` | test_task.py:68 | Two create/update lines of one pass are equal iff they have the same name and the same operation. |
| `LogFormat.DeletedLineInjective` | test_task.py:85 | Two delete lines of one pass are equal iff they have the same name. |
| `LogFormat.DeletedLineIsNotSourceLine` | test_task.py:68-85 | Whatever the file names, a delete line is never the same text as a create/update line of the same pass. |
| `SyncSpec.Orphans` | test_task.py:74-79 | The names the delete loop acts on are exactly the listed names that do not exist in the source. |
| `SyncSpec.FirstStuck` | test_task.py:74-81 | The delete loop stops at the first listed name that is absent from the source and is not a regular replica file; every name before it either exists in the source, so the loop keeps it, or is a regular replica file, which the loop removes. |
| `CopyPhaseFacts.CopyPhaseReplica` | test_task.py:42-64 | The create/update loop leaves the replica equal to the closed form `Mirrored`. Each listed source file is copied when it is absent from the replica or its mtime differs, with every decision taken against the replica as it was before the loop. Every other entry is kept. |
| `CopyPhaseFacts.CopyPhaseLog` | test_task.py:42-71 | The create/update loop appends exactly `SourceLines`: one line per listed regular file, in listing order, with that file's decision. Non-files get no line. |
| `CopyPhaseFacts.CopyPhaseChanged` | test_task.py:39-64 | After the create/update loop the flag is set iff it was already set or some listed file was created or copied. The unchanged branch never sets it. |
| `CopyPhaseFacts.SourceLinesCount` | test_task.py:47-68 | In the create/update lines, the line for (n, op) occurs exactly once when n is a listed regular file decided op, and never otherwise. |
| `CopyPhaseFacts.SourceLinesHoldNoDeletedLine` | test_task.py:68-85 | No create/update line is a delete line. |
| `DeletePhaseFacts.DeletePhaseMatchesReference` | test_task.py:74-89 | The delete loop's result, in closed form. If no listed name is stuck, the pass completes with every name absent from the source removed, logged once each in listing order, and the flag raised iff one was removed. Otherwise it fails at the first stuck name, with exactly the names before it handled. |
| `DeletePhaseFacts.DeletedLinesCount` | test_task.py:84-85 | For distinct names, each name's delete line occurs exactly once, and no other delete line is written. |
| `DeletePhaseFacts.DeletedLinesHoldNoSourceLine` | test_task.py:68-85 | No delete line is a create/update line. |
| `DeletePhaseFacts.FailureIsFinal` | test_task.py:81 | Once a removal has raised, the remaining names change nothing. |
| `Mirror.FileSystem.Copy` | test_task.py:51 | A copy writes the source file's bytes under the same name in the replica, with modification time `now`. Nothing else changes. |
| `Mirror.FileSystem.Remove` | test_task.py:81 | A removal succeeds exactly on a regular replica file and then removes only that name. On a directory or a missing name it raises and changes nothing. |
| `Mirror.FileSystem.Append` | test_task.py:67-68 | Appending adds one line at the end of the log file and changes no folder. |
| `Mirror.FileSystem.SyncPass` | test_task.py:39-89 | The two in-place loops leave the source unchanged. They leave the replica and the log exactly as `SyncSpec.Pass` says. The pass returns the change flag when it completes, or the name whose removal raised. |
| `PassProperties.PassClosedForm` | test_task.py:39-89 | A whole pass is the create/update loop's closed form followed by the delete loop's closed form. It completes iff the delete loop reaches the end of its listing. |
| `PassProperties.PassLogOrder` | test_task.py:42-89 | All create/copied/unchanged lines of a pass come before all of its deleted lines. Each group is in its own listing order, and a failed pass logs only a prefix of the deletions. |
| `PassProperties.PassSourceLineCount` | test_task.py:47-71 | After a pass, completed or not, each (name, op) create/update line occurs once more than before iff that is the name's decision, and as often as before otherwise. |
| `PassProperties.PassDeletedLineCount` | test_task.py:74-89 | After a pass, a name's delete line occurs once more than before iff the name is absent from the source and is listed before the name whose removal raised (any listed name when the pass completes). Otherwise its count is unchanged; in particular the name whose removal raised gets no delete line. |
| `PassProperties.PassCreates` | test_task.py:47-71 | A source file with no replica entry ends up in the replica with the source's bytes and the copy's time. It gets exactly one `created` line and no other create/update line. |
| `PassProperties.PassCopies` | test_task.py:57-71 | A source file whose replica mtime differs is overwritten with the source's bytes. It gets exactly one `copied` line and no other create/update line. |
| `PassProperties.PassLeavesUnchanged` | test_task.py:57-71 | A source file whose replica mtime is equal keeps its replica entry untouched, even if the bytes differ. It still gets exactly one `unchanged` line. |
| `PassProperties.PassSkipsDirectories` | test_task.py:47-79 | A source directory gets no create/update line. A replica entry of the same name is kept as it was, and the pass creates none. |
| `PassProperties.PassKeepsSourceNames` | test_task.py:49-79 | The create/update loop removes nothing: the replica keeps its names and gains the source's files. No replica entry whose name exists in the source is removed or logged as deleted, whether or not the pass completes. |
| `PassProperties.PassCompletesIff` | test_task.py:79-81 | A pass completes iff every replica entry absent from the source is a regular file. When it does not complete, it was such a directory that raised. |
| `PassProperties.PassRemovesOrphans` | test_task.py:74-89 | After a completed pass, the replica holds exactly its old names that exist in the source plus the source's files. Each removed name is logged exactly once as deleted. |
| `PassProperties.PassChangeFlag` | test_task.py:39-89 | After a completed pass, the flag is true iff some file was created or copied or some entry was removed. |
| `PassProperties.PassRestampsCopies` | test_task.py:51-60 | A created or copied file carries the copy's time as its mtime. Unless that equals the source's mtime, the next pass decides `copied` for it again. |
| `PassScenarios.NewFileGetsCopyTime` | test_task.py:49-53 | Concrete pass: a new file is created with the copy's time as its mtime, not the source's, and is logged once as created. |
| `PassScenarios.UnchangedFileIsLogged` | test_task.py:63-68 | Concrete pass: with equal mtimes and different bytes, nothing is copied and the flag stays false. An `unchanged` line is still written. |
| `PassScenarios.ReplicaOnlyDirectoryStopsThePass` | test_task.py:79-81 | Concrete pass: a replica directory absent from the source makes the pass fail there. |

## Left out

- Argument parsing (test_task.py:105-115): command-line plumbing. The folders and timestamp come in as values.
- The endless polling loop, `sleep`, and clearing the console (test_task.py:31, 99-103). Only one pass is modelled.
- Reading the clock and formatting it (test_task.py:33-36). The formatted timestamp and the copy time `now` are inputs.
- Console output (test_task.py:28, 71, 88, 92-97) and `display_log_updates` (test_task.py:18-20). The console echo of each log line is not modelled; the log file is.
- Creating the replica folder before the first pass (test_task.py:24-25): a one-off setup step.
- Byte-level copying, the copied file mode, and float modification times. Contents are opaque, and times are integers compared only for equality.
- Errors raised by copying or by writing the log file (permissions, full disk, a file vanishing between listing and copying). Only the removal failure the program can meet from folder contents alone is modelled.
- Symbolic links and other special entries. An entry is either a regular file or a directory.
- Concurrent changes to either folder during a pass.
- Mirror.FileSystem.SyncPass: every copy in one pass gets the same modification time `now`. The real file system stamps each write separately. No property depends on two copies having different times.
- Mirror.FileSystem.SyncPass: a source file whose replica name is a directory is excluded by precondition (`NoFileOverDirectory`). There, copying would write inside that directory, and path joining is not modelled.
- Case-insensitive name matching. Names compare exactly, as on a case-sensitive file system. On a case-insensitive one, the existence tests at test_task.py:49 and :79 would match "A.txt" against "a.txt"; there the program overwrites or keeps that entry, where the model creates "A.txt" and removes "a.txt".
- Mirror.FileSystem.SyncPass: the log file is taken to lie outside both folders, since the log is a field separate from the two folders. A log file inside the replica folder would be listed at test_task.py:74, removed at :81 and written again at :84; that interaction is not modelled.
- File names that contain a line break. The log is modelled as the sequence of strings written, one per event, and the round-trip and injectivity lemmas are about those writes. They are not about the lines of the log file: a name holding a line break would split its write into several file lines, one of which can equal a line written for another event.
