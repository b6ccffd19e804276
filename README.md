# cp — a Dafny model of the Go copy package

This project models the copy functions of the Go package `cp` and proves
properties about them:

- copying one file from the host filesystem, optionally resuming at a byte
  offset (`CopyFileBuffer`, `CopyFile`);
- copying one file out of a read-only file system (`CopyFSFileBuffer`,
  `CopyFSFile`);
- the directory scan that counts sub-directories, matching files and their
  total size (`DirInfo`, `FSDirInfo`);
- recursive tree copies filtered by file extension, with progress against the
  scanned total (`CopyDirBufferWithProgress` and its three wrappers, and the
  `CopyFS…` equivalents).

The host filesystem is a class `Fs.HostFs`. Its field `nodes` maps each path
to a directory, a regular file with its bytes, or an irregular node (a
symlink, device or pipe). The copy methods change it in place. A read-only
file system is a plain map of the same kind.

I/O failures are not produced by the model. They are inputs:

- a single-file copy takes an optional `Fault` that names the step that
  fails;
- a tree copy takes a map from walk position to `Fault`;
- a failed transfer carries the number of bytes it had written.

A directory walk is also an input: the sequence of entries `WalkDir` would
visit, with walk errors and failed `Info()` calls as entries. The scan and the
copy walk the tree separately, so they are separate inputs.

Each imperative operation is a method whose `ensures` equals a specification
function: a left fold over the walk for the tree operations, and a decision
chain for the file copies. The properties are lemmas about those functions.

Modules:

- `Wrappers`: `Option`.
- `Fs`: nodes, faults, errors, walk entries, path helpers, and `HostFs`.
- `Extensions`: lower-casing, `filepath.Ext`, and the extension filter.
- `Options`: `CopyFileOption` and the reporter set-up.
- `CopyFile`: copyfile.go.
- `CopyFsFile`: copyfsfile.go.
- `CopyDir`: copydir.go, plus the copy walk shared with copyfsdir.go.
- `CopyFsDir`: copyfsdir.go.

Opening a destination for writing fails in these cases
(`Fs.OpenForWriteError`):

- the path is empty (ENOENT);
- the path ends in '/' (EISDIR);
- the path's parent is missing (ENOENT) or is not a directory (ENOTDIR);
- the path is a directory (EISDIR).

Paths are otherwise raw string keys (see "## Left out"). The success
lemmas of the single-file copies therefore assume two things:

- the destination is a plain path (`Fs.PlainPath`: not empty, no trailing '/');
- its parent is a directory, or is absent and is created first (`Fs.ParentUsable`).

Where the documentation and the code disagree, the model follows the code:

- A resume offset past the end of the source is not rejected. Both seeks
  succeed, nothing is copied, and the call returns `(0, nil)`. See
  `CopyFile.ResumeAppendsTail`.
- `OnCopyFileInterval`'s comment promises `DefaultOnCopyFileInterval` when no
  interval option is given. The code passes the zero value of
  `fileCopier.interval` to the progress reporter. See
  `Options.NoIntervalOption`.
- The two single-file copies create their reporter differently.
  - copyfile.go passes the resume offset as "previously copied".
  - copyfsfile.go calls `progress.New` without that argument.
  - The model gives the read-only file system copy a previous count of 0.

## Model

| member | source | states |
|---|---|---|
| Fs.WithDir | copydir.go:104-105 | creating a directory that may already exist: the path is present afterwards, only that key is added, an absent path becomes a directory, and every existing entry of any kind keeps its value |
| Fs.ParentDir | copyfile.go:75 | the directory part of the destination: "." for a bare name, "/" for a path directly under the root, the text before the last '/' otherwise |
| Fs.OpenForWriteCases | copydir.go:135 | OpenForWriteError, opening a path for writing with create, succeeds exactly when the path is not empty and does not end in '/', its parent is a directory (a root is its own parent and is not checked), and the path is not a directory; every failure is NotExist, NotDir or IsDir of the path |
| Fs.ReplacePrefix | copydir.go:134 | a path under `src` becomes `dst` followed by the rest of the path; any other path is unchanged |
| Fs.ReplacePrefixInjective | copydir.go:133-135 | two different paths under the same source root get different destinations, so no copied file overwrites another |
| Fs.HostFs.CreateDirIfNotExists | copyfile.go:76-78 | on success the filesystem becomes WithDir of the old one; on failure it is unchanged and the MakeDir error is returned |
| Fs.HostFs.Create | copyfile.go:106-108 | a missing or non-directory parent, or a directory at the path, gives the OpenForWriteError error; otherwise, unless opening fails, the path becomes an empty file (create or truncate); nothing else changes |
| Fs.HostFs.OpenAppend | copyfile.go:89-91 | same errors as Create; returns the bytes already there, or none; creates an empty file only when the path is absent |
| Fs.HostFs.Flush | copyfile.go:148-152 | after the writes, the destination holds exactly the given bytes and no other path changes |
| Extensions.ToLower | copydir.go:30 | same length; every character is lower-cased |
| Extensions.Ext | copydir.go:54 | a suffix of the name that starts at the last '.' of the final path element and contains no further '.' or '/'; empty exactly when that element has no '.' |
| Extensions.LowerAll | copydir.go:29-31 | the filter kept in order, each element lower-cased |
| Extensions.Matched | copydir.go:110-120 | the early-exit loop returns true exactly when the filter is empty or some element equals the lower-cased extension |
| Extensions.ExtOfLower | copydir.go:54 | taking the extension commutes with lower-casing |
| Extensions.FilterIgnoresCase | copydir.go:52-60 | with a lower-cased filter, neither the case of the filter elements nor the case of the file name changes the outcome |
| Extensions.FilterIsASet | copydir.go:111-120 | only the set of filter elements matters, not their order or repetitions |
| Extensions.EmptyElementMatchesExtensionless | copydir.go:113 | with the element "" in the filter, every file name without a '.' passes |
| Options.OnCopyFile | copyfile.go:37-41 | applying the option replaces the callback and keeps the interval |
| Options.OnCopyFileInterval | copyfile.go:45-49 | applying the option replaces the interval and keeps the callback |
| Options.ApplyOptions | copyfile.go:112-116 | the options loop computes the in-order application of every option to `fileCopier{}` |
| Options.LastCallbackWins | copyfile.go:113-116 | the callback in effect is the one set by the last callback option |
| Options.NoCallbackOption | copyfile.go:113-121 | without a callback option there is no callback, so no reporter is started |
| Options.LastIntervalWins | copyfile.go:113-116 | the interval in effect is the one set by the last interval option |
| Options.NoIntervalOption | copyfile.go:44-49 | without an interval option the interval is 0, not DefaultOnCopyFileInterval |
| Options.StartReporter | copyfile.go:121-132 | a reporter is started exactly when there is a callback, with the given total, previous count, callback and interval |
| Options.ModeFor | copyfile.go:148-152 | a non-empty buffer selects CopyBuffer with that buffer's size; a nil or empty buffer selects Copy |
| CopyFile.CopyFileBuffer | copyfile.go:59-153 | the bytes written, the error, the reporter, the copy routine and the new host filesystem are those of CopyFileBufferSpec, which follows the code's order of checks |
| CopyFile.CopyFile | copyfile.go:162-164 | the same as CopyFileBuffer with no buffer |
| CopyFile.RejectsBeforeTouching | copyfile.go:60-69 | a missing source, a failed lstat or a non-regular source returns (0, err) with the filesystem unchanged and nothing started; a non-regular source returns ErrNotRegularFile |
| CopyFile.RejectsNonPlainDestination | copyfile.go:101-110 | an empty destination, or one ending in '/', cannot be opened: after the parent is created, (0, ENOENT) or (0, EISDIR) with nothing started |
| CopyFile.RejectsParentNotDir | copyfile.go:101-110 | a destination whose parent exists but is not a directory cannot be created: (0, err) with the filesystem unchanged and nothing started; the error is ENOTDIR for a plain path, ENOENT for the empty path, EISDIR for a trailing '/' |
| CopyFile.ChangesOnlyDestination | copyfile.go:74-110 | only the destination and its parent directory can change; an existing parent keeps its value; the destination never appears, and the copy stage never starts, without its parent |
| CopyFile.FreshCopyEqualsSource | copyfile.go:101-110 | without a resume offset, and with a plain destination path whose parent is a directory or can be created, the copy succeeds, and it leaves the destination equal to the source and reports the whole size as written |
| CopyFile.ResumeAppendsTail | copyfile.go:88-100 | with an offset, onto another file at a plain path with a usable parent, the destination keeps its bytes and gets the source from that offset on, and the count is the size of that tail; an offset past the end appends nothing and succeeds |
| CopyFile.ResumeCompletesCopy | copyfile.go:88-100 | resuming onto a destination at a plain path with a usable parent, holding the first `copied` bytes of the source, completes it (onto the source itself only when nothing is left), and `copied` plus the count equals the source size |
| CopyFile.InterruptedThenResumed | copyfile.go:56-59 | onto another file at a plain path with a usable parent, a copy that fails during the transfer, resumed with the count it returned, leaves an exact copy; the two counts add up to the size |
| CopyFile.SelfCopyTruncates | copyfile.go:80-110 | copying a file at a plain path with a usable parent onto itself without an offset empties it, because the destination is truncated before the source is read |
| CopyFile.CopyStageWiring | copyfile.go:118-152 | once the copy stage is reached, a reporter runs exactly when a callback is set, with the lstat size and the offset (0 when there is none); the buffer chooses the routine; failing stages return (0, err) before it |
| CopyFsFile.CopyFSFileBuffer | copyfsfile.go:29-103 | the bytes written, the error, the reporter, the routine and the new host filesystem are those of CopyFSFileBufferSpec |
| CopyFsFile.CopyFSFile | copyfsfile.go:112-114 | the same as CopyFSFileBuffer with no buffer |
| CopyFsFile.RejectsBeforeTouching | copyfsfile.go:30-46 | a source that cannot be opened or stat'ed, or is not regular, returns (0, err) before anything is created; a non-regular source returns ErrNotFSRegularFile |
| CopyFsFile.CopyEqualsSource | copyfsfile.go:57-102 | whatever the destination held, if it is a plain path, not a directory, and its parent is a directory or can be created, the copy succeeds and leaves exactly the source's bytes and reports all of them |
| CopyFsFile.FailedTransferLeavesPrefix | copyfsfile.go:98-102 | with a plain destination path and a usable parent, a failed transfer leaves a prefix of the source at the destination, as long as the count returned |
| CopyFsFile.RejectsParentNotDir | copyfsfile.go:51-62 | a destination whose parent exists but is not a directory cannot be created: (0, err) with the host filesystem unchanged and nothing started; the error is ENOTDIR for a plain path, ENOENT for the empty path, EISDIR for a trailing '/' |
| CopyFsFile.ChangesOnlyDestination | copyfsfile.go:51-62 | only the destination and its parent directory can change, and the parent only by being created |
| CopyFsFile.CopyStageWiring | copyfsfile.go:64-102 | a reporter runs exactly when a callback is set, with the stat size and nothing previously copied; the buffer chooses the routine |
| CopyDir.DirInfo | copydir.go:26-69 | returns the lower-cased filter, and the counts and error of the left fold of the walk callback over the walk |
| CopyDir.ScanStops | copydir.go:33-38 | after the first error the rest of the walk does not change the result |
| CopyDir.ScanClean | copydir.go:40-65 | a walk with no errors scans to its totals: the number of directory entries, the number of files passing the filter, and the sum of their sizes |
| CopyDir.ScanCounts | copydir.go:26-69 | the scan succeeds exactly when no entry is a walk error or a failed Info(); otherwise it returns the first such error with the totals of the entries before it |
| CopyDir.EmptyFilterMatchesAllFiles | copydir.go:61-64 | with an empty filter, every file is counted |
| CopyDir.MatchedAreFiles | copydir.go:41-60 | only files passing the filter are counted, each at most once, and directories never |
| CopyDir.CopyMatchedFile | copydir.go:127-161 | the new filesystem, `copied`, the transfer log and the error are those of CopyMatched. Its order: open the source; create or truncate the destination, which fails when the destination's parent is missing or not a directory; transfer; and add the count only on success |
| CopyDir.WalkAndCopy | copydir.go:94-163 | the loop over the walk computes the left fold CopyWalk of the walk callback and stops at the first error |
| CopyDir.CopyDirBufferWithProgress | copydir.go:79-164 | the result is TreeCopy from the host filesystem; a failed scan returns (0, err) with nothing created |
| CopyDir.CopyDir | copydir.go:172-174 | TreeCopy with no buffer and no callback |
| CopyDir.CopyDirBuffer | copydir.go:177-179 | TreeCopy with no callback |
| CopyDir.CopyDirWithProgress | copydir.go:182-189 | TreeCopy with no buffer |
| CopyDir.CopyStops | copydir.go:157-159 | after the first error the rest of the walk does not change the result |
| CopyDir.EntryStep | copydir.go:101-161 | one callback step only adds keys; only a matched file appends a transfer, exactly one, with the tree total and the `copied` value before it; `copied` grows by the count exactly when that transfer succeeds |
| CopyDir.EntryFrame | copydir.go:101-139 | one step changes the filesystem only at the destination of its entry |
| CopyDir.CopyAccounting | copydir.go:141-160 | `copied` is the sum of the successful transfers; each transfer is given the scanned total and the sum before it; a failed transfer is the last one, and the walk returns that file's own error unchanged (a failed transfer of it, or it being a directory) |
| CopyDir.CopiesMatchedFiles | copydir.go:108-125 | the files transferred are, in walk order, the files passing the filter: all of them on success, a prefix of them after an error |
| CopyDir.CreatesVisitedDirs | copydir.go:101-106 | no path disappears, and a successful walk has created every visited directory at its destination, the root and empty ones included. With distinct walked paths under `src`, that destination is a directory whenever it was free, or already a directory, before the walk |
| CopyDir.VisitedDirsPresent | copydir.go:101-106 | no path disappears, and after a successful walk every visited directory's destination is present |
| CopyDir.VisitedDirsAreDirs | copydir.go:102-105 | with distinct walked paths under `src`, a successful walk leaves a directory at each visited directory's destination that was free, or already a directory, before the walk; later entries never overwrite it |
| CopyDir.ChangesOnlyTargets | copydir.go:104-135 | a path that is no entry's destination is left as it was |
| CopyDir.MatchedStep | copydir.go:127-160 | a successful copy of a matched file writes the original bytes at its destination and adds their count |
| CopyDir.CopiedIsScannedSize | copydir.go:91-160 | when no destination is a walked path and the reported sizes are the files' own, a successful walk copies exactly the sum of the sizes of the matched files |
| CopyDir.CopiesContents | copydir.go:133-156 | when no destination is a walked path (always so for a read-only file system source) and the walked paths are distinct and under `src`, a successful walk leaves at each matched file's destination an exact copy of it |
| CopyDir.CopyAgreesWithScan | copydir.go:86-163 | when the copy walks the tree the scan walked and succeeds: every visited directory exists (as a directory when the walked paths are distinct and under `src` and its destination was free or a directory), FileCount transfers are made (of the counted files, in order), and under the conditions of CopiedIsScannedSize `copied` equals TotalSize |
| CopyDir.ScanFailureAborts | copydir.go:86-89 | a failed scan returns (0, err) with the filesystem unchanged and no transfer |
| CopyFsDir.FSDirInfo | copyfsdir.go:15-58 | the same scan as DirInfo over a walk of the read-only file system |
| CopyFsDir.CopyFSDirBufferWithProgress | copyfsdir.go:69-155 | the result is TreeCopy reading from the read-only file system; a failed scan returns (0, err) with nothing created |
| CopyFsDir.CopyFSDir | copyfsdir.go:164-166 | TreeCopy from the read-only file system with no buffer and no callback |
| CopyFsDir.CopyFSDirBuffer | copyfsdir.go:169-171 | the same, with no callback |
| CopyFsDir.CopyFSDirWithProgress | copyfsdir.go:174-182 | the same, with no buffer |
| CopyFsDir.FsCopyMirrorsTree | copyfsdir.go:77-154 | copying out of a read-only file system never reads what it writes. A successful copy of the scanned walk, with sizes that agree, copies TotalSize bytes in FileCount transfers, and, when the paths are distinct and under `src`, leaves a directory at each free destination of a visited directory and each file's bytes at its destination |

## Left out

- The byte transfer (`iocopy.Copy`, `iocopy.CopyBuffer`, `iocopy.CopyBufferWithProgress`) is one atomic step: all bytes, or a fault with a partial count. Chunking, buffer reuse and the `buf` contents are not modelled. The buffer only selects the routine; in tree copies it is not recorded.
- Context cancellation is not modelled; a cancelled transfer is a `Transfer` fault.
- The progress reporter (`progress.New`, `Start`, the goroutine, the exit channel, `io.MultiWriter`) is recorded only as the parameters it is started with. Callbacks are opaque identities and are never invoked.
- Directory walks are inputs. The order of `filepath.WalkDir` and `fs.WalkDir`, and whether a walk matches the tree, are not derived from the filesystem. Lemmas that need agreement take it as a hypothesis (`SizesAgree`, `DistinctUnder`).
- `pathelper.ReplacePrefix` and `pathelper.CreateDirIfNotExists` are not part of this model. They are replaced by `Fs.ReplacePrefix`, a plain prefix test, and `Fs.WithDir`, which leaves any existing entry alone.
- Fs.OpenForWriteCases: paths are raw string keys. Apart from the empty path and a trailing '/', nothing is cleaned: repeated slashes and "." or ".." elements name other keys than the operating system would resolve, and a path is not checked against a non-directory ancestor above its parent.
- The filesystem map has no hierarchy beyond one check: opening a file for writing fails when its immediate parent is missing or not a directory. Fs.WithDir creates only the named directory, not missing ancestors, and leaves a non-directory entry at that path in place. Whether `pathelper.CreateDirIfNotExists` creates ancestors or fails on an existing file is not part of this model.
- Fs.ParentDir: it does not clean its input as `filepath.Dir` does (repeated or trailing slashes, "." and ".." elements).
- Extensions.ToLower: ASCII letters only, standing in for Unicode `strings.ToLower`.
- File modes, permissions (0755, 0644), ownership, times and `Close` errors are not modelled.
- Sizes and offsets are unbounded integers; the int64 range and its overflow are not modelled.
- CopyFile.CopyFileBuffer: when resuming onto the source itself (`src == dst` with an offset), the source is read as it was before the open. Appending to a file while reading it is not modelled.
- An irregular node at a destination is overwritten as a regular file, without following symlinks.
- Timing and the reporting interval's units are not modelled; an interval is an integer.
- cp.go is not part of this model. Its `CopyFile` is an event loop over a channel from a copy goroutine, and it redeclares the `CopyFile` of copyfile.go. The model follows copyfile.go.
