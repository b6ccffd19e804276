/**
 * CopyFileBuffer and CopyFile of copyfile.go: copy one regular file of the
 * host filesystem, optionally resuming a previous copy of which `copied`
 * bytes already reached the destination.
 */
module CopyFile {
  import opened Wrappers
  import opened Fs
  import opened Options

  /** Everything a single-file copy leaves behind: the filesystem, the bytes
      written by this call, the error, and the reporter and copy routine it
      started (`None` when it returned before reaching the copy). */
  datatype FileCopy = FileCopy(
    nodes: map<Path, Node>,
    written: nat,
    err: Option<Err>,
    reporter: Option<Reporter>,
    mode: Option<CopyMode>)

  /** An early return `(0, e)`. */
  function Stopped(nodes: map<Path, Node>, e: Err): FileCopy {
    FileCopy(nodes, 0, Some(e), None, None)
  }

  /** The copy stage: `chunk` is what the source reader delivers and `base`
      what the destination already holds; the transfer appends the bytes it
      moves. Shared with CopyFSFileBuffer. */
  function CopyStage(nodes: map<Path, Node>, dst: Path, base: seq<byte>, chunk: seq<byte>,
                     fc: FileCopier, total: nat, prev: nat, buf: seq<byte>,
                     fault: Option<Fault>, src: Path): FileCopy
  {
    var n := Moved(chunk, fault);
    FileCopy(nodes[dst := File(base + chunk[..n])], n,
             if FailsAt(fault, Transfer) then Some(Failure(Transfer, src)) else None,
             StartReporter(fc, total, prev), Some(ModeFor(buf)))
  }

  /** What CopyFileBuffer does, step by step, to the filesystem `nodes`. */
  function CopyFileBufferSpec(nodes: map<Path, Node>, src: Path, dst: Path, copied: int,
                              buf: seq<byte>, options: seq<CopyFileOption>,
                              fault: Option<Fault>): FileCopy
  {
    if src !in nodes then Stopped(nodes, NotExist(src))
    else if FailsAt(fault, Lstat) then Stopped(nodes, Failure(Lstat, src))
    else if !nodes[src].File? then Stopped(nodes, ErrNotRegularFile)
    else
      var size := |nodes[src].data|;
      var dir := ParentDir(dst);
      if FailsAt(fault, MakeDir) then Stopped(nodes, Failure(MakeDir, dir))
      else
        var n1 := WithDir(nodes, dir);
        if FailsAt(fault, OpenSrc) then Stopped(n1, Failure(OpenSrc, src))
        else if copied > 0 then
          if OpenForWriteError(n1, dst).Some? then Stopped(n1, OpenForWriteError(n1, dst).value)
          else if FailsAt(fault, OpenDst) then Stopped(n1, Failure(OpenDst, dst))
          else
            var base := if dst in n1 then n1[dst].data else [];
            var n2 := if dst in n1 then n1 else n1[dst := File([])];
            if FailsAt(fault, SeekSrc) then Stopped(n2, Failure(SeekSrc, src))
            else if FailsAt(fault, SeekDst) then Stopped(n2, Failure(SeekDst, dst))
            else
              var data := n2[src].data;
              var start := if copied < |data| then copied else |data|;
              CopyStage(n2, dst, base, data[start..], ApplyAll(options), size, copied, buf, fault, src)
        else
          if OpenForWriteError(n1, dst).Some? then Stopped(n1, OpenForWriteError(n1, dst).value)
          else if FailsAt(fault, OpenDst) then Stopped(n1, Failure(OpenDst, dst))
          else
            var n2 := n1[dst := File([])];
            CopyStage(n2, dst, [], n2[src].data, ApplyAll(options), size, 0, buf, fault, src)
  }

  /** CopyFileBuffer(ctx, src, dst, copied, buf, options...). The byte
      transfer is abstract: it moves the source's bytes from the current
      offset, or fails as `fault` says. */
  method CopyFileBuffer(host: HostFs, src: Path, dst: Path, copied: int, buf: seq<byte>,
                        options: seq<CopyFileOption>, fault: Option<Fault>)
    returns (written: nat, err: Option<Err>, reporter: Option<Reporter>, mode: Option<CopyMode>)
    modifies host
    ensures FileCopy(host.nodes, written, err, reporter, mode)
            == CopyFileBufferSpec(old(host.nodes), src, dst, copied, buf, options, fault)
  {
    written, reporter, mode := 0, None, None;
    // Lstat.
    if src !in host.nodes {
      return 0, Some(NotExist(src)), None, None;
    }
    if FailsAt(fault, Lstat) {
      return 0, Some(Failure(Lstat, src)), None, None;
    }
    if !host.nodes[src].File? {
      return 0, Some(ErrNotRegularFile), None, None;
    }
    var size := |host.nodes[src].data|;

    err := host.CreateDirIfNotExists(ParentDir(dst), FailsAt(fault, MakeDir));
    if err.Some? {
      return;
    }
    if FailsAt(fault, OpenSrc) {
      return 0, Some(Failure(OpenSrc, src)), None, None;
    }

    var base: seq<byte>;
    var offset := copied;
    if offset > 0 {
      base, err := host.OpenAppend(dst, FailsAt(fault, OpenDst));
      if err.Some? {
        return;
      }
      if FailsAt(fault, SeekSrc) {
        return 0, Some(Failure(SeekSrc, src)), None, None;
      }
      if FailsAt(fault, SeekDst) {
        return 0, Some(Failure(SeekDst, dst)), None, None;
      }
    } else {
      if offset < 0 {
        offset := 0;
      }
      err := host.Create(dst, FailsAt(fault, OpenDst));
      if err.Some? {
        return;
      }
      base := [];
    }

    var fc := ApplyOptions(options);
    reporter := StartReporter(fc, size, offset);

    // The source reader, positioned at `offset` (a Seek past the end reads nothing).
    var data := host.nodes[src].data;
    var chunk := if offset < |data| then data[offset..] else [];
    mode := Some(ModeFor(buf));
    written := Moved(chunk, fault);
    host.Flush(dst, base + chunk[..written]);
    err := if FailsAt(fault, Transfer) then Some(Failure(Transfer, src)) else None;
  }

  /** CopyFile: CopyFileBuffer without a buffer. */
  method CopyFile(host: HostFs, src: Path, dst: Path, copied: int,
                  options: seq<CopyFileOption>, fault: Option<Fault>)
    returns (written: nat, err: Option<Err>)
    modifies host
    ensures var r := CopyFileBufferSpec(old(host.nodes), src, dst, copied, [], options, fault);
            host.nodes == r.nodes && written == r.written && err == r.err
  {
    var reporter, mode;
    written, err, reporter, mode := CopyFileBuffer(host, src, dst, copied, [], options, fault);
  }

  // Properties of CopyFileBufferSpec.

  /** A missing source, a failing lstat or a non-regular source returns
      `(0, err)` before anything is created. */
  lemma RejectsBeforeTouching(nodes: map<Path, Node>, src: Path, dst: Path, copied: int,
                              buf: seq<byte>, options: seq<CopyFileOption>, fault: Option<Fault>)
    requires src !in nodes || FailsAt(fault, Lstat) || !nodes[src].File?
    ensures var r := CopyFileBufferSpec(nodes, src, dst, copied, buf, options, fault);
            r.nodes == nodes && r.written == 0 && r.err.Some? && r.reporter.None? && r.mode.None?
    ensures src in nodes && !FailsAt(fault, Lstat) && !nodes[src].File? ==>
            CopyFileBufferSpec(nodes, src, dst, copied, buf, options, fault).err == Some(ErrNotRegularFile)
  {
  }

  /** An empty destination, or one ending in '/', cannot be opened as a
      file: after the parent directory is created, the call returns
      `(0, err)` with ENOENT or EISDIR and starts no copy. */
  lemma RejectsNonPlainDestination(nodes: map<Path, Node>, src: Path, dst: Path, copied: int,
                                   buf: seq<byte>, options: seq<CopyFileOption>)
    requires src in nodes && nodes[src].File?
    requires !PlainPath(dst)
    ensures var r := CopyFileBufferSpec(nodes, src, dst, copied, buf, options, None);
            r.err == Some(if dst == [] then NotExist(dst) else IsDir(dst)) &&
            r.written == 0 && r.nodes == WithDir(nodes, ParentDir(dst)) && r.mode.None?
  {
  }

  /** A destination whose parent is not a directory cannot be created: the
      call returns `(0, err)` with the filesystem unchanged; the error is
      ENOTDIR unless the path is empty or ends in '/'. */
  lemma RejectsParentNotDir(nodes: map<Path, Node>, src: Path, dst: Path, copied: int,
                            buf: seq<byte>, options: seq<CopyFileOption>)
    requires src in nodes && nodes[src].File?
    requires ParentDir(dst) != dst && ParentDir(dst) in nodes && !nodes[ParentDir(dst)].Dir?
    ensures var r := CopyFileBufferSpec(nodes, src, dst, copied, buf, options, None);
            r.err == Some(if dst == [] then NotExist(dst) else if !PlainPath(dst) then IsDir(dst) else NotDir(dst)) &&
            r.written == 0 && r.nodes == nodes && r.mode.None?
  {
  }

  /** Only the destination and its parent directory can change, the parent
      only by being created, and the destination is never created without
      its parent. */
  lemma ChangesOnlyDestination(nodes: map<Path, Node>, src: Path, dst: Path, copied: int,
                               buf: seq<byte>, options: seq<CopyFileOption>, fault: Option<Fault>)
    ensures var r := CopyFileBufferSpec(nodes, src, dst, copied, buf, options, fault);
            (forall p :: p != dst && p != ParentDir(dst) ==>
               (p in r.nodes <==> p in nodes) && (p in nodes ==> r.nodes[p] == nodes[p])) &&
            (ParentDir(dst) != dst && ParentDir(dst) in nodes ==>
               ParentDir(dst) in r.nodes && r.nodes[ParentDir(dst)] == nodes[ParentDir(dst)]) &&
            ((dst in r.nodes && dst !in nodes) || r.mode.Some? ==> ParentDir(dst) in r.nodes)
  {
    var r := CopyFileBufferSpec(nodes, src, dst, copied, buf, options, fault);
    if src in nodes && !FailsAt(fault, Lstat) && nodes[src].File? && !FailsAt(fault, MakeDir) {
      // Past the parent's creation, the destination is the only entry written.
      var n1 := WithDir(nodes, ParentDir(dst));
      assert r.nodes == n1 || (dst in r.nodes && r.nodes == n1[dst := r.nodes[dst]]);
    }
  }

  /** Without a resume offset the destination ends up equal to the source,
      and all of it is reported as written by this call. */
  lemma FreshCopyEqualsSource(nodes: map<Path, Node>, src: Path, dst: Path, copied: int,
                              buf: seq<byte>, options: seq<CopyFileOption>)
    requires src in nodes && nodes[src].File? && src != dst
    requires copied <= 0
    requires dst !in nodes || !nodes[dst].Dir?
    requires PlainPath(dst) && ParentUsable(nodes, dst)
    requires dst == ParentDir(dst) ==> dst in nodes
    ensures var r := CopyFileBufferSpec(nodes, src, dst, copied, buf, options, None);
            r.err.None? && dst in r.nodes && r.nodes[dst] == nodes[src] &&
            r.written == |nodes[src].data|
  {
    var data := nodes[src].data;
    assert data[..|data|] == data;
  }

  /** With a resume offset the destination keeps its bytes and receives the
      source from that offset on; an offset past the end appends nothing. */
  lemma ResumeAppendsTail(nodes: map<Path, Node>, src: Path, dst: Path, copied: int,
                          buf: seq<byte>, options: seq<CopyFileOption>)
    requires src in nodes && nodes[src].File? && src != dst
    requires copied > 0
    requires dst !in nodes || !nodes[dst].Dir?
    requires PlainPath(dst) && ParentUsable(nodes, dst)
    requires dst == ParentDir(dst) ==> dst in nodes
    ensures var data := nodes[src].data;
            var start := if copied < |data| then copied else |data|;
            var old_dst := if dst in nodes then nodes[dst].data else [];
            var r := CopyFileBufferSpec(nodes, src, dst, copied, buf, options, None);
            r.err.None? && dst in r.nodes && r.nodes[dst] == File(old_dst + data[start..]) &&
            r.written == |data| - start
  {
    var data := nodes[src].data;
    var start := if copied < |data| then copied else |data|;
    assert data[start..][..|data| - start] == data[start..];
    if ParentDir(dst) != dst && dst in nodes {
      assert WithDir(nodes, ParentDir(dst))[dst] == nodes[dst];
    }
  }

  /** Resuming onto a destination that holds the first `copied` bytes of the
      source completes it: the destination equals the source, and `copied`
      plus the bytes written by this call is the source size. */
  lemma ResumeCompletesCopy(nodes: map<Path, Node>, src: Path, dst: Path, copied: int,
                            buf: seq<byte>, options: seq<CopyFileOption>)
    requires src in nodes && nodes[src].File?
    requires 0 < copied <= |nodes[src].data|
    requires dst in nodes && nodes[dst] == File(nodes[src].data[..copied])
    requires PlainPath(dst) && ParentUsable(nodes, dst)
    ensures var r := CopyFileBufferSpec(nodes, src, dst, copied, buf, options, None);
            r.err.None? && r.nodes[dst] == nodes[src] && copied + r.written == |nodes[src].data|
  {
    var data := nodes[src].data;
    if src == dst {
      // Only a file already complete can hold its own prefix: nothing is left to append.
      assert |data[..copied]| == |data| && data + data[copied..] == data;
    } else {
      ResumeAppendsTail(nodes, src, dst, copied, buf, options);
      assert data[..copied] + data[copied..] == data;
    }
  }

  /** A copy that fails during the transfer, resumed with the byte count it
      returned, leaves the destination equal to the source; the two calls
      together report every byte once. */
  lemma {:induction false} InterruptedThenResumed(nodes: map<Path, Node>, src: Path, dst: Path,
                                                  buf: seq<byte>, options: seq<CopyFileOption>, k: nat)
    requires src in nodes && nodes[src].File? && src != dst
    requires dst !in nodes || !nodes[dst].Dir?
    requires PlainPath(dst) && ParentUsable(nodes, dst)
    requires dst == ParentDir(dst) ==> dst in nodes
    ensures var first := CopyFileBufferSpec(nodes, src, dst, 0, buf, options, Some(Fault(Transfer, k)));
            var second := CopyFileBufferSpec(first.nodes, src, dst, first.written, buf, options, None);
            first.err.Some? && second.err.None? &&
            second.nodes[dst] == nodes[src] &&
            first.written + second.written == |nodes[src].data|
  {
    var data := nodes[src].data;
    var first := CopyFileBufferSpec(nodes, src, dst, 0, buf, options, Some(Fault(Transfer, k)));
    var n := first.written;
    assert n == Moved(data, Some(Fault(Transfer, k)));
    assert first.nodes[src] == nodes[src];
    assert first.nodes[dst] == File(data[..n]);
    if n > 0 {
      ResumeCompletesCopy(first.nodes, src, dst, n, buf, options);
    } else {
      FreshCopyEqualsSource(first.nodes, src, dst, 0, buf, options);
    }
  }

  /** Copying a file onto itself without a resume offset empties it: the
      destination is truncated before the source is read. */
  lemma SelfCopyTruncates(nodes: map<Path, Node>, src: Path, copied: int,
                          buf: seq<byte>, options: seq<CopyFileOption>)
    requires src in nodes && nodes[src].File? && copied <= 0
    requires PlainPath(src) && ParentUsable(nodes, src)
    ensures var r := CopyFileBufferSpec(nodes, src, src, copied, buf, options, None);
            r.err.None? && r.nodes[src] == File([]) && r.written == 0
  {
  }

  /** Once the copy stage is reached, a reporter runs exactly when the
      options leave a callback, seeded with the source size and the resume
      offset (0 when none); a non-empty buffer selects the buffered copy. */
  lemma CopyStageWiring(nodes: map<Path, Node>, src: Path, dst: Path, copied: int,
                        buf: seq<byte>, options: seq<CopyFileOption>, fault: Option<Fault>)
    ensures var r := CopyFileBufferSpec(nodes, src, dst, copied, buf, options, fault);
            var fc := ApplyAll(options);
            (r.mode.None? ==> r.reporter.None? && r.written == 0 && r.err.Some?) &&
            (r.mode.Some? ==>
               src in nodes && nodes[src].File? &&
               r.mode.value == (if |buf| != 0 then Buffered(|buf|) else Default) &&
               (r.reporter.Some? <==> fc.fn.Some?) &&
               (r.reporter.Some? ==>
                  r.reporter.value ==
                  Reporter(|nodes[src].data|, if copied > 0 then copied else 0, fc.fn.value, fc.interval)))
  {
  }
}
