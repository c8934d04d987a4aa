# FolderSynchronization, modelled in Dafny

FolderSynchronization is a one-way folder mirror. One pass, `SyncFolders`,
walks a source folder and makes a replica folder look like it, one directory
at a time. Each directory gets three loops:

1. Every source file is copied over when the replica has no file of that
   name, or has one whose MD5 hash differs. A differing replica file is
   deleted first.
2. Every replica file whose name is not a source file is deleted. A replica
   file named like a source directory counts as such a file.
3. For every source directory, the replica directory is created if it is
   missing, and the pass recurses into it.

Replica directories that the source lacks are never removed. Every deletion,
copy and directory creation is written to a log. A busy flag keeps a second
pass from starting while one runs. Any exception ends the pass where it
stands and is caught in `SyncFolders`.

The model has five modules:

- `FileTree` (`tree.dfy`) treats both folders as values. A node is a file of
  bytes or a directory mapping names to nodes. A path is a sequence of names.
  `Get` reads the node at a path and `Put` replaces it.
- `Reconcile` (`reconcile.dfy`) describes one pass without depending on the
  order of the directory listings:
  - `Mirror` is the replica directory a pass leaves behind.
  - `Actions` is the set of events it logs.
  - `Clash` is the condition under which it aborts: a source file meets a
    replica directory of the same name. `File.Exists` is false for that
    directory, and `File.Copy` then throws.
  - Per-loop versions (`AfterCopies`, `AfterOrphans`, `AfterDirs`, and their
    action sets) describe each loop after it has handled some of the names.
- `Trace` (`trace.dfy`) is about the log piece a pass appends:
  - no event is logged twice;
  - the events form exactly the set `Actions`;
  - every overwrite is logged as a `Deleted` directly followed by the
    matching `Copied`.
- `Synchronizer` (`sync.dfy`) is the program itself: class
  `FolderSynchronizer`.
  - Its fields are the two trees, the log and the busy flag; the replica and
    the log are updated in place.
  - The file-system calls are methods on the replica field.
  - `CopyNewOrChangedFiles` is a recursive method with the three loops.
  - Directory listings come from `Listing`. It returns each name once, in an
    order the model leaves open, so every result holds whatever the order.
- `Properties` (`properties.dfy`) proves, path by path, what a completed pass
  promises: convergence, orphan handling, exactly when each kind of event is
  logged, no-op on match, and idempotence.

The MD5 digest is a field `hash: Bytes -> Digest`. Nothing assumes that it
is injective. One lemma adds injectivity as an explicit hypothesis to
conclude byte-for-byte copies.

The busy flag and the exception handling are modelled as shown in the code.
The code does not recover from a failed entry and go on with the next one.
A failed copy ends the whole pass: the exception rises through every
recursion level up to `SyncFolders`. The model follows the code here.

## Model

| member | source | states |
|---|---|---|
| Synchronizer.FolderSynchronizer.constructor | FolderSynchronization/Program.cs:6-13 | The synchronizer starts with the given trees and hash, an empty log and the busy flag clear. |
| Synchronizer.FolderSynchronizer.DeleteFile | FolderSynchronization/Program.cs:106 | `File.Delete` removes exactly the named replica file and nothing else. |
| Synchronizer.FolderSynchronizer.CopyFile | FolderSynchronization/Program.cs:110 | `File.Copy` succeeds exactly when the target name is free. It then puts the source file there; otherwise nothing changes. |
| Synchronizer.FolderSynchronizer.CreateDirectory | FolderSynchronization/Program.cs:131 | `Directory.CreateDirectory` adds an empty replica directory under the given name. |
| Synchronizer.FolderSynchronizer.LogEvent | FolderSynchronization/Program.cs:64-72 | Logging appends exactly one event to the log. |
| Synchronizer.Listing | FolderSynchronization/Program.cs:98 | A directory listing holds every name of the directory exactly once, in some order. It models every `Directory.GetFiles` and `Directory.GetDirectories` call, at lines 98, 115 and 126. |
| FileTree.ListingsPartition | FolderSynchronization/Program.cs:115-126 | The file listing and the directory listing of one directory are disjoint and together name every entry of the directory. |
| Synchronizer.FolderSynchronizer.CopyIfNewOrChanged | FolderSynchronization/Program.cs:100-112 | It fails exactly when the replica holds a directory of that name. A replica file with an equal hash is left alone. Otherwise the replica entry becomes the source file, and the log grows by `FileBlock`. |
| Trace.FileBlock | FolderSynchronization/Program.cs:101-111 | One source file logs nothing exactly when its replica file has an equal hash, and never logs the same event twice. A logged deletion is followed at once by the copy. |
| Synchronizer.FolderSynchronizer.CopyNewFiles | FolderSynchronization/Program.cs:98-113 | The first loop succeeds exactly when no source file meets a replica directory. On success the entries are `AfterCopies` of all source files and the log piece is exactly the copy loop's events. On failure the clash remains in the replica. |
| Synchronizer.FolderSynchronizer.DeleteIfOrphan | FolderSynchronization/Program.cs:117-123 | A replica file is deleted and logged exactly when the source has no file of that name. |
| Synchronizer.FolderSynchronizer.DeleteOrphanFiles | FolderSynchronization/Program.cs:115-124 | The second loop removes exactly the replica files that have no source file of that name. It logs exactly one `Deleted` for each of them. |
| Synchronizer.FolderSynchronizer.MirrorSubdirectory | FolderSynchronization/Program.cs:128-135 | A missing replica directory is created, and its `Created` event is the first of the log piece, before the events of the pass below. Then the pair is mirrored. Only that entry changes; it ends as `Mirror` of the pair unless the pass below aborts. |
| Synchronizer.FolderSynchronizer.MirrorSubdirectories | FolderSynchronization/Program.cs:126-136 | The third loop succeeds exactly when no source directory clashes below itself. On success the entries are `AfterDirs` and the log piece is exactly `DirActions`. |
| Synchronizer.FolderSynchronizer.CopyNewOrChangedFiles | FolderSynchronization/Program.cs:96-137 | The pass succeeds exactly when there is no clash. It then leaves `Mirror`, changes nothing outside the directory, and logs each event of `Actions` once, overwrites delete-then-copy. On abort a clash remains. |
| Synchronizer.FolderSynchronizer.SyncFolders | FolderSynchronization/Program.cs:74-94 | A call while a pass runs changes nothing. The source is never modified and the busy flag is restored. Without a clash the replica becomes `Mirror` and the new log is exactly `Actions`; with one, the clash persists. |
| Reconcile.Clash | FolderSynchronization/Program.cs:101-110 | Defines when a pass aborts. Somewhere the walk visits, a source file meets a replica directory of the same name: `File.Exists` is false for it (line 101), so `File.Copy` onto the directory throws (line 110). |
| Reconcile.Mirror | FolderSynchronization/Program.cs:96-137 | Defines the replica directory a pass leaves, whatever the listing order. A source file stays as the replica file if hashes are equal, and is the source file otherwise. A source directory is mirrored recursively. A replica directory the source lacks is kept, and any other replica file is gone. |
| Reconcile.Actions | FolderSynchronization/Program.cs:96-137 | Defines the set of events a pass sends to `LogEvent` (lines 107, 111, 122, 132): the copy loop's deletes and copies, the orphan loop's deletes, and the creations, plus the events of the passes below. |
| FileTree.IsFile | FolderSynchronization/Program.cs:101 | Defines `File.Exists` (also at lines 104 and 118): the path names a file, and a directory of that name does not count. |
| FileTree.IsDir | FolderSynchronization/Program.cs:129 | Defines `Directory.Exists`: the path names a directory, and a file of that name does not count. |
| Reconcile.Unchanged | FolderSynchronization/Program.cs:101 | Defines when the copy loop skips a source file: the replica has a file of that name whose hash equals the source file's. This is the negation of `isFileNewOrChanged`; timestamps play no part. |
| Reconcile.StepsMakeMirror | FolderSynchronization/Program.cs:96-137 | The three loops of one level, composed, leave exactly `Mirror`. |
| Reconcile.StepsMakeActions | FolderSynchronization/Program.cs:96-137 | The three loops of one level, composed, log exactly `Actions`. |
| Reconcile.DirEntryAfterFileLoops | FolderSynchronization/Program.cs:98-124 | A source directory's replica entry is the same after the two file loops as before them. |
| Reconcile.OrphansClearDirNames | FolderSynchronization/Program.cs:115-124 | After the orphan loop, no replica file is named like a source directory, so the third loop can create it. |
| Reconcile.OrphansAfterCopies | FolderSynchronization/Program.cs:98-124 | The orphan loop finds the same orphans after the copy loop as before it. |
| Reconcile.ClashSplit | FolderSynchronization/Program.cs:110 | A clash is a source file facing a replica directory at this level, or a clash below some source directory. |
| Trace.CopyBlocksTrace | FolderSynchronization/Program.cs:98-113 | The copy loop's log never repeats an event, and each overwrite is logged delete-then-copy. |
| Trace.OrphanBlocksTrace | FolderSynchronization/Program.cs:115-124 | The orphan loop's log never repeats an event. |
| Trace.SubdirTrace | FolderSynchronization/Program.cs:129-135 | A creation followed by the recursive pass's log stays duplicate-free and lies below that directory. |
| Trace.AppendTrace | FolderSynchronization/Program.cs:96-137 | Two log pieces that share a path only through a directory creation join into one that is still duplicate-free and delete-then-copy. |
| Properties.FilesConverge | FolderSynchronization/Program.cs:96-137 | After a pass, each source file's path holds the replica's own file if its hash was equal, and otherwise a copy of the source file. |
| Properties.FilesHashEqual | FolderSynchronization/Program.cs:101 | After a pass, every source file is a replica file with the same hash. |
| Properties.FilesIdentical | FolderSynchronization/Program.cs:141-150 | With a hash that tells contents apart, every replica file is a byte-for-byte copy of its source file. |
| Properties.DirsConverge | FolderSynchronization/Program.cs:126-136 | After a pass, every source directory is a replica directory. |
| Properties.OrphansConverge | FolderSynchronization/Program.cs:115-136 | Inside a source directory, an entry the source lacks stays if it was a replica directory, untouched, and is gone otherwise. |
| Properties.NoOrphanFiles | FolderSynchronization/Program.cs:115-124 | After a pass, every file inside a directory the walk visited is a source file: orphan files are gone. |
| Properties.ActionsWithin | FolderSynchronization/Program.cs:96-137 | Every event lies strictly below the directory the pass started at. |
| Properties.CopiedIff | FolderSynchronization/Program.cs:101-111 | `Copied(q)` is logged exactly when `q` is a source file whose replica file was not kept for an equal hash. |
| Properties.DeletedIff | FolderSynchronization/Program.cs:104-123 | `Deleted(q)` is logged exactly when `q` is a replica file in a source directory that was not kept for an equal hash. |
| Properties.CreatedIff | FolderSynchronization/Program.cs:129-133 | `Created(q)` is logged exactly when `q` is a source directory the replica does not have as a directory. |
| Properties.QuietIffUnchanged | FolderSynchronization/Program.cs:96-137 | No-op on match: a pass logs nothing exactly when it leaves the replica unchanged. |
| Properties.MirrorIdempotent | FolderSynchronization/Program.cs:96-137 | Mirroring an already mirrored replica changes nothing. |
| Properties.MirrorHasNoClash | FolderSynchronization/Program.cs:110 | A mirrored replica has no directory where the source has a file. |
| Properties.SecondPassQuiet | FolderSynchronization/Program.cs:74-94 | A second pass after a completed one does not abort, logs nothing and changes nothing. |
| Properties.ClashIsNotQuiet | FolderSynchronization/Program.cs:110 | A replica that clashes with the source is not a mirror of it, and a pass over it has events to log. |
| Properties.IdenticalIsFixed | FolderSynchronization/Program.cs:96-137 | A replica already identical to the source, node for node, is left exactly as it is. |
| Properties.IdenticalIsQuiet | FolderSynchronization/Program.cs:101-133 | No-op on exact match: a pass over a replica identical to the source does not abort and logs no deletion, copy or creation. |
| Properties.MirrorOfEmpty | FolderSynchronization/Program.cs:96-137 | A pass into an empty replica leaves a replica identical to the source. |
| Properties.ExamplePass | FolderSynchronization/Program.cs:96-137 | Worked example: the source `a.txt`, `sub/b.txt` over an empty replica logs exactly the copies of both files and the creation of `sub`. |
| Properties.ExampleSecondPass | FolderSynchronization/Program.cs:74-94 | Worked example, continued: a second pass over the result logs nothing. |
| Properties.ExampleAfterDelete | FolderSynchronization/Program.cs:115-124 | Worked example, continued: once `a.txt` is deleted from the source, the next pass logs exactly the deletion of the replica's `a.txt`. |

## Left out

- `Main`, argument parsing and the console messages (lines 15-52, 81, 86, 90) are not modelled: they are I/O around the pass.
- The `FileSystemWatcher` handlers `OnChanged` and `OnRenamed` (lines 32-39, 54-62) are not modelled. They only write watcher notifications to the log, and the model's log holds mirroring events only.
- The timer and concurrency are not modelled. `SyncFolders` is modelled as one sequential call, so the unsynchronised read and write of `isSyncing` between threads, and changes to the source during a pass, are outside it.
- `GetMD5Hash` (lines 141-150): MD5 itself and the hex formatting are an uninterpreted field `hash`. Reading a file's bytes is taken to succeed.
- `LogEvent` (lines 64-72): the log file, the console copy, the timestamps and the text format are left out. An event is recorded as its kind and its path relative to the folder roots.
- Path strings (`Path.Combine`, `Path.GetFileName`) are left out. Names are path components, and both folders are separate trees, so a replica folder nested inside the source folder is not modelled.
- Exceptions other than the copy onto an existing directory are not modelled: permissions, locked files, disk full, names that differ only in case, and a file changing while it is hashed.
- The listing order of `Directory.GetFiles` and `Directory.GetDirectories` is left open. `Listing` returns every name once in some order. So the log is characterised as a set with no repeats and with overwrites paired, not as one particular sequence.
- Synchronizer.FolderSynchronizer.CopyNewOrChangedFiles: on abort, it states only that the clash is still present and that nothing outside the directory changed. The partial replica and the partial log of an aborted pass are not characterised.
- Synchronizer.FolderSynchronizer.SyncFolders: when a pass aborts, it states only that the clash persists and that the old log is a prefix of the new one, not which events were logged before the abort.
- Synchronizer.FolderSynchronizer.MirrorSubdirectories: requires that no replica file is named like a source directory. In the source this holds because the orphan loop (lines 115-124) runs first, and `CopyNewOrChangedFiles` proves it before the call.
