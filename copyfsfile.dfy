/**
 * CopyFSFileBuffer and CopyFSFile of copyfsfile.go: copy one regular file
 * of a read-only file system `fsys` to the host filesystem. There is no
 * resume: the destination is always created or truncated.
 */
module CopyFsFile {
  import opened Wrappers
  import opened Fs
  import opened Options
  import opened CopyFile

  /** What CopyFSFileBuffer does, step by step, to the host filesystem. */
  function CopyFSFileBufferSpec(nodes: map<Path, Node>, fsys: map<Path, Node>, src: Path, dst: Path,
                                buf: seq<byte>, options: seq<CopyFileOption>,
                                fault: Option<Fault>): FileCopy
  {
    if src !in fsys then Stopped(nodes, NotExist(src))
    else if FailsAt(fault, OpenSrc) then Stopped(nodes, Failure(OpenSrc, src))
    else if FailsAt(fault, Stat) then Stopped(nodes, Failure(Stat, src))
    else if !fsys[src].File? then Stopped(nodes, ErrNotFSRegularFile)
    else
      var data := fsys[src].data;
      var dir := ParentDir(dst);
      if FailsAt(fault, MakeDir) then Stopped(nodes, Failure(MakeDir, dir))
      else
        var n1 := WithDir(nodes, dir);
        if OpenForWriteError(n1, dst).Some? then Stopped(n1, OpenForWriteError(n1, dst).value)
        else if FailsAt(fault, OpenDst) then Stopped(n1, Failure(OpenDst, dst))
        else CopyStage(n1[dst := File([])], dst, [], data, ApplyAll(options), |data|, 0, buf, fault, src)
  }

  /** CopyFSFileBuffer(ctx, fsys, src, dst, buf, options...). */
  method CopyFSFileBuffer(host: HostFs, fsys: map<Path, Node>, src: Path, dst: Path, buf: seq<byte>,
                          options: seq<CopyFileOption>, fault: Option<Fault>)
    returns (written: nat, err: Option<Err>, reporter: Option<Reporter>, mode: Option<CopyMode>)
    modifies host
    ensures FileCopy(host.nodes, written, err, reporter, mode)
            == CopyFSFileBufferSpec(old(host.nodes), fsys, src, dst, buf, options, fault)
  {
    written, reporter, mode := 0, None, None;
    // Open, then Stat.
    if src !in fsys {
      return 0, Some(NotExist(src)), None, None;
    }
    if FailsAt(fault, OpenSrc) {
      return 0, Some(Failure(OpenSrc, src)), None, None;
    }
    if FailsAt(fault, Stat) {
      return 0, Some(Failure(Stat, src)), None, None;
    }
    if !fsys[src].File? {
      return 0, Some(ErrNotFSRegularFile), None, None;
    }
    var data := fsys[src].data;

    err := host.CreateDirIfNotExists(ParentDir(dst), FailsAt(fault, MakeDir));
    if err.Some? {
      return;
    }
    err := host.Create(dst, FailsAt(fault, OpenDst));
    if err.Some? {
      return;
    }

    var fc := ApplyOptions(options);
    reporter := StartReporter(fc, |data|, 0);

    mode := Some(ModeFor(buf));
    written := Moved(data, fault);
    host.Flush(dst, data[..written]);
    assert [] + data[..written] == data[..written];
    err := if FailsAt(fault, Transfer) then Some(Failure(Transfer, src)) else None;
  }

  /** CopyFSFile: CopyFSFileBuffer without a buffer. */
  method CopyFSFile(host: HostFs, fsys: map<Path, Node>, src: Path, dst: Path,
                    options: seq<CopyFileOption>, fault: Option<Fault>)
    returns (written: nat, err: Option<Err>)
    modifies host
    ensures var r := CopyFSFileBufferSpec(old(host.nodes), fsys, src, dst, [], options, fault);
            host.nodes == r.nodes && written == r.written && err == r.err
  {
    var reporter, mode;
    written, err, reporter, mode := CopyFSFileBuffer(host, fsys, src, dst, [], options, fault);
  }

  // Properties of CopyFSFileBufferSpec.

  /** A source that cannot be opened or stat'ed, or is not a regular file,
      returns `(0, err)` before the destination directory or file exists. */
  lemma RejectsBeforeTouching(nodes: map<Path, Node>, fsys: map<Path, Node>, src: Path, dst: Path,
                              buf: seq<byte>, options: seq<CopyFileOption>, fault: Option<Fault>)
    requires src !in fsys || FailsAt(fault, OpenSrc) || FailsAt(fault, Stat) || !fsys[src].File?
    ensures var r := CopyFSFileBufferSpec(nodes, fsys, src, dst, buf, options, fault);
            r.nodes == nodes && r.written == 0 && r.err.Some? && r.mode.None?
    ensures src in fsys && !FailsAt(fault, OpenSrc) && !FailsAt(fault, Stat) && !fsys[src].File? ==>
            CopyFSFileBufferSpec(nodes, fsys, src, dst, buf, options, fault).err == Some(ErrNotFSRegularFile)
  {
  }

  /** Whatever the destination held, a successful copy leaves exactly the
      source's bytes there and reports all of them as written. */
  lemma CopyEqualsSource(nodes: map<Path, Node>, fsys: map<Path, Node>, src: Path, dst: Path,
                         buf: seq<byte>, options: seq<CopyFileOption>)
    requires src in fsys && fsys[src].File?
    requires dst !in nodes || !nodes[dst].Dir?
    requires PlainPath(dst) && ParentUsable(nodes, dst)
    requires dst == ParentDir(dst) ==> dst in nodes
    ensures var r := CopyFSFileBufferSpec(nodes, fsys, src, dst, buf, options, None);
            r.err.None? && dst in r.nodes && r.nodes[dst] == fsys[src] &&
            r.written == |fsys[src].data|
  {
    var data := fsys[src].data;
    assert data[..|data|] == data;
  }

  /** A failed transfer leaves a prefix of the source at the destination,
      as long as the count returned. */
  lemma FailedTransferLeavesPrefix(nodes: map<Path, Node>, fsys: map<Path, Node>, src: Path, dst: Path,
                                   buf: seq<byte>, options: seq<CopyFileOption>, k: nat)
    requires src in fsys && fsys[src].File?
    requires dst !in nodes || !nodes[dst].Dir?
    requires PlainPath(dst) && ParentUsable(nodes, dst)
    requires dst == ParentDir(dst) ==> dst in nodes
    ensures var r := CopyFSFileBufferSpec(nodes, fsys, src, dst, buf, options, Some(Fault(Transfer, k)));
            r.err == Some(Failure(Transfer, src)) && r.written <= k && r.written <= |fsys[src].data| &&
            r.nodes[dst] == File(fsys[src].data[..r.written])
  {
  }

  /** A destination whose parent is not a directory cannot be created: the
      call returns `(0, err)` with the host filesystem unchanged; the error
      is ENOTDIR unless the path is empty or ends in '/'. */
  lemma RejectsParentNotDir(nodes: map<Path, Node>, fsys: map<Path, Node>, src: Path, dst: Path,
                            buf: seq<byte>, options: seq<CopyFileOption>)
    requires src in fsys && fsys[src].File?
    requires ParentDir(dst) != dst && ParentDir(dst) in nodes && !nodes[ParentDir(dst)].Dir?
    ensures var r := CopyFSFileBufferSpec(nodes, fsys, src, dst, buf, options, None);
            r.err == Some(if dst == [] then NotExist(dst) else if !PlainPath(dst) then IsDir(dst) else NotDir(dst)) &&
            r.written == 0 && r.nodes == nodes && r.mode.None?
  {
  }

  /** Only the destination and its parent directory can change, and the
      parent only by being created. */
  lemma ChangesOnlyDestination(nodes: map<Path, Node>, fsys: map<Path, Node>, src: Path, dst: Path,
                               buf: seq<byte>, options: seq<CopyFileOption>, fault: Option<Fault>)
    ensures var r := CopyFSFileBufferSpec(nodes, fsys, src, dst, buf, options, fault);
            (forall p :: p != dst && p != ParentDir(dst) ==>
               (p in r.nodes <==> p in nodes) && (p in nodes ==> r.nodes[p] == nodes[p])) &&
            (ParentDir(dst) != dst && ParentDir(dst) in nodes ==>
               r.nodes[ParentDir(dst)] == nodes[ParentDir(dst)]) &&
            ((dst in r.nodes && dst !in nodes) || r.mode.Some? ==> ParentDir(dst) in r.nodes)
  {
  }

  /** Once the copy stage is reached, a reporter runs exactly when the
      options leave a callback, with the source size as total and nothing
      previously copied; a non-empty buffer selects the buffered copy. */
  lemma CopyStageWiring(nodes: map<Path, Node>, fsys: map<Path, Node>, src: Path, dst: Path,
                        buf: seq<byte>, options: seq<CopyFileOption>, fault: Option<Fault>)
    ensures var r := CopyFSFileBufferSpec(nodes, fsys, src, dst, buf, options, fault);
            var fc := ApplyAll(options);
            (r.mode.None? ==> r.reporter.None? && r.written == 0 && r.err.Some?) &&
            (r.mode.Some? ==>
               src in fsys && fsys[src].File? &&
               r.mode.value == (if |buf| != 0 then Buffered(|buf|) else Default) &&
               (r.reporter.Some? <==> fc.fn.Some?) &&
               (r.reporter.Some? ==>
                  r.reporter.value == Reporter(|fsys[src].data|, 0, fc.fn.value, fc.interval)))
  {
  }
}
