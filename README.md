# Folder synchronization engine, modelled in Dafny

This project models the engine of the folder synchronization program in
`Veeam_Folders_Synchronization/Program.cs`. The program keeps a copy folder
in step with a watched folder, in three parts:

- **Ingestion.** The four file-watcher handlers turn each event into an
  `ItemsToChange` record, and `SaveChangesForInterval` appends it to the
  pending queue. A created name without a dot is not queued. It is made a
  directory of the copy at once.
- **Replay.** `IntervalCopy` runs on every timer tick. When the queue is
  empty or a pass is marked as running, it does nothing. Otherwise it replays
  the queue in arrival order. If the loop reaches its end, it clears the
  flag and the queue.
- **Initial build.** `CopyAllFiles` empties the copy folder.
  `DirectoryCreation` then recreates the watched folder's directories, and
  every file is copied.

Layout:

- `paths.dfy` (module `Paths`): paths as sequences of segments. Two tests
  are made on the text of a name: `Contains(".")` for the directory shortcut
  and `Path.HasExtension` for renames. Both are defined on the text and
  related to the segments.
- `tree.dfy` (module `FileTree`): a directory tree as a set of directories
  and a map from file paths to contents. It also gives the tree operations
  the engine uses: recursive delete, `Directory.CreateDirectory` and
  `FileSystem.RenameDirectory`.
- `locations.dfy` (module `Locations`): the two roots and how stored names
  resolve. `Path.Combine` returns a rooted second argument unchanged. It
  also models `File.Delete` and `File.Copy`, which fail on files held open
  by other programs (`locked`).
- `changes.dfy` (module `Changes`): the record types, `Apply`, `Replay` and
  the lemmas about them.
  - `Apply` is one iteration of `IntervalCopy`'s loop. Its result is the
    copy folder afterwards, or `Throw` when an exception escapes the loop.
  - `Replay` is the pass.
- `program.dfy` (module `Program`): the class `Synchronizer` holds the
  queue, the running flag and the copy folder. Its methods are the handlers,
  the queue append, the interval pass and the initial build. Each is proved
  against the functions of the other modules.

Four behaviours of the code that are easy to miss; the model follows the
code:

- **A failed creation is not skipped.** The `Created` case has no
  `try`/`catch`. A creation whose file is gone again or held open ends the
  pass. The flag then stays set and the queue stays whole, so in the model
  every later tick does nothing (`Synchronizer.IntervalCopy`,
  `Changes.CreatedThenGoneStopsPass`). The same holds for the unprotected
  `File.Delete` of a file rename. Two more uncaught failures end the pass:
  renaming a file without an extension (`Makefile` to `Makefile2`) calls
  `FileSystem.RenameDirectory` on a file, which throws
  (`Changes.RenamedDirectoryEffect`), and deleting a copy file that another
  program holds open throws (`Changes.DeletedEffect`).
- **A failed change loses the file.** A change whose watched file is held
  open deletes the copy's file inside the `try` before the copy fails. The
  file is then missing from the copy (`Changes.ChangedEffect`).
- **Names without a dot become directories.** A created name without a dot
  becomes a directory of the copy even when it names a file
  (`Synchronizer.FileWatcherOnCreated`).
- **File renames check the watched folder.** A rename stores the rooted
  `e.FullPath`, so the existence test of a file rename looks at the watched
  folder, not at the copy (`Locations.RootedProbeIsNotCopyTarget`,
  `Changes.RenamedFileEffect`).

## Model

| member | source | states |
|---|---|---|
| Paths.HasExtensionOfJoin | Veeam_Folders_Synchronization/Program.cs:229 | `Path.HasExtension` on a joined path holds exactly when its last segment holds a dot that is not its final character |
| Paths.ContainsDotOfJoin | Veeam_Folders_Synchronization/Program.cs:148 | `Contains(".")` on a joined path holds exactly when some segment, not only the last, holds a dot |
| Paths.HasExtensionContainsDot | Veeam_Folders_Synchronization/Program.cs:148 | every name with an extension passes the directory shortcut's dot test |
| Paths.DotWithoutExtension | Veeam_Folders_Synchronization/Program.cs:245 | the two name tests differ: `report.` and `v1.2\bin` hold a dot but have no extension |
| FileTree.AncestorsExist | Veeam_Folders_Synchronization/Program.cs:202 | in a well-formed tree every ancestor of an entry is a directory |
| FileTree.RemoveSubtree | Veeam_Folders_Synchronization/Program.cs:255 | a recursive delete removes the path and everything under it and keeps every other entry with its content |
| FileTree.RemoveSubtreeWellFormed | Veeam_Folders_Synchronization/Program.cs:183 | a recursive delete leaves a well-formed tree |
| FileTree.CreateDirectory | Veeam_Folders_Synchronization/Program.cs:205 | `Directory.CreateDirectory` fails exactly when the path or an ancestor is a file; otherwise the path exists, files are unchanged, and only the path and its ancestors are added |
| FileTree.CreateDirectoryWellFormed | Veeam_Folders_Synchronization/Program.cs:150 | creating a directory leaves a well-formed tree |
| FileTree.RenameDirectoryMovesContents | Veeam_Folders_Synchronization/Program.cs:247 | after `FileSystem.RenameDirectory` every directory and file under the old name is under the new name with the same content, and nothing is left under the old name |
| FileTree.RenameDirectoryKeepsOthers | Veeam_Folders_Synchronization/Program.cs:247 | a directory rename leaves entries outside the old and the new name untouched |
| FileTree.RenameDirectoryWellFormed | Veeam_Folders_Synchronization/Program.cs:247 | a directory rename leaves a well-formed tree |
| Locations.RelativeCopyTargetIsProbe | Veeam_Folders_Synchronization/Program.cs:270-279 | for the relative name of a changed record, `Replace` sends the copy to the very place in the copy folder that the existence test looked at |
| Locations.RootedProbeIsNotCopyTarget | Veeam_Folders_Synchronization/Program.cs:229-238 | for a rooted name (rename records) `Path.Combine` with the copy root still gives the watched folder, so the existence probe and the copy target lie in different folders |
| Locations.DeleteFile | Veeam_Folders_Synchronization/Program.cs:260 | `File.Delete` throws exactly for the root, a directory, a missing parent directory or a file held open; a missing file is no error; otherwise only that file is gone |
| Locations.CopyFile | Veeam_Folders_Synchronization/Program.cs:265-267 | `File.Copy` with overwrite fails exactly in the cases `CopyFails` lists; otherwise the target holds the source's content and nothing else changes |
| Locations.DeleteFileWellFormed | Veeam_Folders_Synchronization/Program.cs:179 | a file deletion leaves a well-formed tree |
| Locations.CopyFileWellFormed | Veeam_Folders_Synchronization/Program.cs:190 | a file copy leaves a well-formed tree |
| Changes.ApplyWellFormed | Veeam_Folders_Synchronization/Program.cs:225-289 | replaying any one record keeps the copy folder a well-formed tree |
| Changes.ReplayWellFormed | Veeam_Folders_Synchronization/Program.cs:223-290 | a whole pass keeps the copy folder a well-formed tree |
| Changes.ReplayInOrder | Veeam_Folders_Synchronization/Program.cs:223 | records are replayed strictly in queue order: a pass over `a + b` is a pass over `a` followed, if it finished, by a pass over `b` |
| Changes.ReplayStopsAtThrow | Veeam_Folders_Synchronization/Program.cs:223-292 | a record whose exception escapes ends the pass unfinished, with the copy as the earlier records left it; no later record is applied |
| Changes.DeletedEffect | Veeam_Folders_Synchronization/Program.cs:251-261 | a deletion removes the copy's directory and all under it, else the copy's file alone, else changes nothing; only a file held open makes it throw |
| Changes.DeletedIdempotent | Veeam_Folders_Synchronization/Program.cs:251-261 | replaying a deletion twice has the effect of replaying it once |
| Changes.ChangedNeverThrows | Veeam_Folders_Synchronization/Program.cs:273-284 | every failure of a change is caught, so it never ends the pass |
| Changes.ChangedEffect | Veeam_Folders_Synchronization/Program.cs:270-285 | a change leaves the copy untouched when it has no such file or that file is held open; otherwise the copy's file gets the watched file's content, or is gone when the watched file cannot be copied; nothing else changes |
| Changes.CreatedEffect | Veeam_Folders_Synchronization/Program.cs:263-268 | a creation throws exactly when the copy fails, always when the watched file is gone; otherwise the copy's file holds the watched file's content, the directories are unchanged and every other file keeps its content |
| Changes.CreatedThenGoneStopsPass | Veeam_Folders_Synchronization/Program.cs:263-292 | a file created and removed again before the pass stops the pass at its creation record: the copy is as the earlier records left it and the pass is unfinished, so the flag is not reset and the queue not cleared |
| Changes.RenamedFileEffect | Veeam_Folders_Synchronization/Program.cs:229-244 | a file rename whose new name is no file of the watched folder changes nothing, whatever the copy holds; otherwise the old name is deleted from the copy (an uncaught failure) and the new file copied (a caught failure), after which every other file is as the delete left it |
| Changes.RenamedDirectoryEffect | Veeam_Folders_Synchronization/Program.cs:245-248 | a rename without an extension gives exactly `RenameDirectory` of the copy's directory at the old name to the new name's last segment: everything under it moves along, entries outside both names are untouched, and it throws exactly when that rename fails |
| Changes.RenamedWithoutOldName | Veeam_Folders_Synchronization/Program.cs:229-248 | a rename without an old name is skipped when the new name has an extension and throws when it has none |
| Changes.ChangedThenDeleted | Veeam_Folders_Synchronization/Program.cs:251-285 | a change then a deletion of the same name, in one pass, leaves the copy without that file and lets the pass finish, unless the copy's file is held open |
| Changes.DeletedThenCreated | Veeam_Folders_Synchronization/Program.cs:251-268 | a deletion then a creation of the same name leaves the copy with the watched folder's current content and lets the pass finish, when the copy can be made |
| Program.EmptyWithoutTopLevel | Veeam_Folders_Synchronization/Program.cs:177-184 | a well-formed tree with no entry at its top level is empty |
| Program.Synchronizer.constructor | Veeam_Folders_Synchronization/Program.cs:27-28 | the program starts with an empty queue and no pass running |
| Program.Synchronizer.SaveChangesForInterval | Veeam_Folders_Synchronization/Program.cs:295-303 | appends exactly one record with the given kind and names at the end of the queue; earlier records stay as they are |
| Program.Synchronizer.FileWatcherOnRenamed | Veeam_Folders_Synchronization/Program.cs:96-106 | queues one rename record with the rooted new name and the relative old name |
| Program.Synchronizer.FileWatcherOnDeleted | Veeam_Folders_Synchronization/Program.cs:108-128 | queues one deletion record with the relative name, the same way for a file and for a directory |
| Program.Synchronizer.FileWatcherOnChanged | Veeam_Folders_Synchronization/Program.cs:129-141 | queues one change record when the event reports a change, and nothing otherwise |
| Program.Synchronizer.FileWatcherOnCreated | Veeam_Folders_Synchronization/Program.cs:142-158 | a name without a dot queues nothing and creates that directory in the copy, failing only when a file is in the way; any other name queues one creation record and leaves the copy alone |
| Program.Synchronizer.IntervalCopy | Veeam_Folders_Synchronization/Program.cs:217-293 | with an empty queue or a pass running, nothing changes; otherwise the copy becomes the result of replaying the queue in order, and the flag and queue are cleared exactly when the pass finished |
| Program.Synchronizer.CopyAllFiles | Veeam_Folders_Synchronization/Program.cs:175-193 | the initial build completes exactly when both roots exist and no top-level file of the copy and no file of the watched folder is held open; when it completes, the copy equals the watched folder |
| Program.Synchronizer.DeleteTopLevelFiles | Veeam_Folders_Synchronization/Program.cs:177-180 | deletes every file at the copy's top level, failing exactly when one of them is held open; on success directories and deeper files are kept with their content and no file is added |
| Program.Synchronizer.DeleteTopLevelDirectories | Veeam_Folders_Synchronization/Program.cs:181-184 | deleting the top-level directories with their contents leaves the copy empty |
| Program.Synchronizer.CopyFiles | Veeam_Folders_Synchronization/Program.cs:188-191 | copying every file succeeds exactly when no file of the watched folder is held open, and then the copy equals the watched folder |
| Program.Synchronizer.DirectoryCreation | Veeam_Folders_Synchronization/Program.cs:196-212 | answers `true` exactly when the directory is missing from the watched folder, creating nothing; otherwise adds every directory below it to the copy and nothing else |

## Left out

- Argument parsing and validation in `Main` (`Program.cs` lines 32-66) are left out. They are command-line and start-up checks.
- Logging, console output and `Timestamp` are left out. They depend on the clock and do not affect the copy.
- The `FileSystemWatcher` and `Timer` wiring is left out. Handlers and ticks are modelled as separate method calls, one at a time.
- The unsynchronized race between the watcher threads and the timer thread is left out. The running flag is modelled only as a re-entry guard.
- Process termination is not modelled. An exception that escapes `IntervalCopy` or a handler would end the .NET process. The model keeps the state left behind and reports the exception (`Throw`, `thrown`, `completed == false`).
- The watched folder and the set of files held open are parameters. They are the folder's state at the moment of the call.
- The `switch` default (`ArgumentOutOfRangeException`) is left out. The record kind is a datatype, so that branch cannot be reached.
- Only file contents are modelled. Timestamps, attributes and other metadata are not.
- Directory deletion never fails in the model. Files held open under a deleted directory are left out.
- Program.Synchronizer.DirectoryCreation: assumes the copy holds no files when it runs, which is the only way `CopyAllFiles` calls it. It does not model a file in the way of a directory.
- Locations.Replace: models `string.Replace` as a substitution of the watched root's prefix. A second occurrence of the root's text inside a name is not replaced.
- Locations.Combine: a rooted name is taken to lie under the watched folder, as every `e.FullPath` does.
- Renaming a directory that holds a file open in another program is treated like any other rename.
- `FileSystem.RenameDirectory` does not fail on such files in the model.
- Paths are sequences of segments without separators. Drive letters, `..`, case-insensitive matching and invalid characters are not modelled.
