/** The directory operations of copyfsdir.go: the same scan and the same
    copy walk as copydir.go, reading from a read-only file system `fsys`
    instead of the host filesystem and writing to the host. */
module CopyFsDir {
  import opened Wrappers
  import opened Fs
  import opened Extensions
  import opened Options
  import opened CopyDir

  /** FSDirInfo(fsys, dir, exts): the scan of a walk of `fsys`. Its walk
      callback is the one of DirInfo, so the scan is shared. */
  method FSDirInfo(exts: seq<string>, walk: seq<Entry>) returns (di: DirInfoData, err: Option<Err>)
    ensures di.Exts == LowerAll(exts)
    ensures Scanned(di, err) == Scan(LowerAll(exts), walk)
  {
    di, err := DirInfo(exts, walk);
  }

  /** CopyFSDirBufferWithProgress: scan `fsys`, return `(0, err)` if the scan
      fails, otherwise walk `fsys` again copying each visited directory and
      matched file into the host filesystem under `dst`. */
  method CopyFSDirBufferWithProgress(host: HostFs, fsys: map<Path, Node>, src: Path, dst: Path,
                                     exts: seq<string>, buf: seq<byte>, fn: Option<Callback>,
                                     scanWalk: seq<Entry>, copyWalk: seq<Entry>, faults: map<nat, Fault>)
    returns (n: nat, err: Option<Err>, transfers: seq<Call>)
    modifies host
    ensures Walked(host.nodes, n, transfers, err)
            == TreeCopy(Fsys(fsys), old(host.nodes), src, dst, exts, fn, scanWalk, copyWalk, faults)
    ensures Scan(LowerAll(exts), scanWalk).err.Some? ==>
            host.nodes == old(host.nodes) && n == 0 && transfers == [] && err == Scan(LowerAll(exts), scanWalk).err
  {
    var di, scanErr := FSDirInfo(exts, scanWalk);
    if scanErr.Some? {
      return 0, scanErr, [];
    }
    n, transfers, err := WalkAndCopy(host, Job(Fsys(fsys), src, dst, di.Exts, fn, di.TotalSize, faults), copyWalk);
  }

  /** CopyFSDir: no buffer, no callback. */
  method CopyFSDir(host: HostFs, fsys: map<Path, Node>, src: Path, dst: Path, exts: seq<string>,
                   scanWalk: seq<Entry>, copyWalk: seq<Entry>, faults: map<nat, Fault>)
    returns (n: nat, err: Option<Err>)
    modifies host
    ensures var r := TreeCopy(Fsys(fsys), old(host.nodes), src, dst, exts, None, scanWalk, copyWalk, faults);
            host.nodes == r.nodes && n == r.copied && err == r.err
  {
    var transfers;
    n, err, transfers := CopyFSDirBufferWithProgress(host, fsys, src, dst, exts, [], None, scanWalk, copyWalk, faults);
  }

  /** CopyFSDirBuffer: no callback. */
  method CopyFSDirBuffer(host: HostFs, fsys: map<Path, Node>, src: Path, dst: Path, exts: seq<string>,
                         buf: seq<byte>, scanWalk: seq<Entry>, copyWalk: seq<Entry>, faults: map<nat, Fault>)
    returns (n: nat, err: Option<Err>)
    modifies host
    ensures var r := TreeCopy(Fsys(fsys), old(host.nodes), src, dst, exts, None, scanWalk, copyWalk, faults);
            host.nodes == r.nodes && n == r.copied && err == r.err
  {
    var transfers;
    n, err, transfers := CopyFSDirBufferWithProgress(host, fsys, src, dst, exts, buf, None, scanWalk, copyWalk, faults);
  }

  /** CopyFSDirWithProgress: no buffer. */
  method CopyFSDirWithProgress(host: HostFs, fsys: map<Path, Node>, src: Path, dst: Path, exts: seq<string>,
                               fn: Option<Callback>, scanWalk: seq<Entry>, copyWalk: seq<Entry>,
                               faults: map<nat, Fault>)
    returns (n: nat, err: Option<Err>, transfers: seq<Call>)
    modifies host
    ensures Walked(host.nodes, n, transfers, err)
            == TreeCopy(Fsys(fsys), old(host.nodes), src, dst, exts, fn, scanWalk, copyWalk, faults)
  {
    n, err, transfers := CopyFSDirBufferWithProgress(host, fsys, src, dst, exts, [], fn, scanWalk, copyWalk, faults);
  }

  /** Copying out of a read-only file system never reads what it writes, so
      when it walks the tree the scan walked, reports the files' own sizes
      and succeeds, it has copied exactly the scanned TotalSize in FileCount
      transfers, and when the walked paths are distinct and under `src`,
      every visited directory whose destination was free is a directory and
      every matched file's destination holds that file's bytes. */
  lemma FsCopyMirrorsTree(fsys: map<Path, Node>, nodes: map<Path, Node>, src: Path, dst: Path,
                          exts: seq<string>, fn: Option<Callback>, walk: seq<Entry>, faults: map<nat, Fault>)
    requires Scan(LowerAll(exts), walk).err.None?
    requires SizesAgree(JobFor(Fsys(fsys), src, dst, exts, fn, walk, faults), nodes, walk)
    ensures var di := Scan(LowerAll(exts), walk).di;
            var job := JobFor(Fsys(fsys), src, dst, exts, fn, walk, faults);
            var r := TreeCopy(Fsys(fsys), nodes, src, dst, exts, fn, walk, walk, faults);
            r.err.None? ==>
              r.copied == di.TotalSize && |r.transfers| == di.FileCount &&
              (DistinctUnder(job, walk) ==>
                 (forall k :: 0 <= k < |walk| && IsDirEntry(walk[k]) &&
                              Target(job, walk[k].path) !in nodes ==>
                    Target(job, walk[k].path) in r.nodes && r.nodes[Target(job, walk[k].path)] == Dir) &&
                 forall k :: 0 <= k < |walk| && IsFile(walk[k]) && MatchesFilter(di.Exts, walk[k].name) ==>
                   walk[k].path in fsys && !fsys[walk[k].path].Dir? &&
                   Target(job, walk[k].path) in r.nodes &&
                   r.nodes[Target(job, walk[k].path)] == File(fsys[walk[k].path].data))
  {
    var job := JobFor(Fsys(fsys), src, dst, exts, fn, walk, faults);
    CopyAgreesWithScan(Fsys(fsys), nodes, src, dst, exts, fn, walk, faults);
    ScanCounts(LowerAll(exts), walk);
    assert walk[..|walk|] == walk;
    if DistinctUnder(job, walk) {
      CopiesContents(job, nodes, walk);
    }
  }
}
