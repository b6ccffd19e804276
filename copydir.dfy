/**
 * DirInfo, CopyDirBufferWithProgress and its wrappers of copydir.go: scan a
 * tree (count its directories and the files that pass an extension filter,
 * sum their sizes), then walk it again, re-creating every directory under
 * the destination and copying every file that passes the filter.
 *
 * A walk is given as the sequence of callback calls filepath.WalkDir makes
 * (depth first, lexical order, the root first). The scan and the copy
 * each get their own walk: the source walks the tree twice.
 */
module CopyDir {
  import opened Wrappers
  import opened Fs
  import opened Extensions
  import opened Options

  // ---------------------------------------------------------------------
  // The scan.

  /** DirInfoData: the lower-cased filter and the counts of a scan. */
  datatype DirInfoData = DirInfoData(Exts: seq<string>, FileCount: nat, SubDirCount: nat, TotalSize: nat)

  datatype Scanned = Scanned(di: DirInfoData, err: Option<Err>)

  predicate IsFile(e: Entry) { e.Visit? && !e.isDir }

  predicate IsDirEntry(e: Entry) { e.Visit? && e.isDir }

  /** A walk error, or a file whose Info() fails, stops the scan. */
  predicate ScanFails(e: Entry) { e.WalkError? || (IsFile(e) && e.info.None?) }

  function ScanError(e: Entry): Err
    requires ScanFails(e)
  {
    if e.WalkError? then WalkFailure(e.path) else InfoFailure(e.path)
  }

  /** The walk callback of DirInfo on one entry. */
  function ScanEntry(di: DirInfoData, e: Entry): Scanned {
    if ScanFails(e) then Scanned(di, Some(ScanError(e)))
    else if e.isDir then Scanned(di.(SubDirCount := di.SubDirCount + 1), None)
    else if MatchesFilter(di.Exts, e.name)
    then Scanned(di.(FileCount := di.FileCount + 1, TotalSize := di.TotalSize + e.info.value), None)
    else Scanned(di, None)
  }

  /** The scan of `walk` with the (already lower-cased) filter `exts`; the
      first error stops it. */
  function Scan(exts: seq<string>, walk: seq<Entry>): Scanned {
    if walk == [] then Scanned(DirInfoData(exts, 0, 0, 0), None)
    else
      var r := Scan(exts, walk[..|walk| - 1]);
      if r.err.Some? then r else ScanEntry(r.di, walk[|walk| - 1])
  }

  // Reference definitions the scan is measured against.

  /** The entries of `walk` that are files passing the filter, in order. */
  function MatchedFiles(exts: seq<string>, walk: seq<Entry>): seq<Entry> {
    if walk == [] then []
    else
      var e := walk[|walk| - 1];
      MatchedFiles(exts, walk[..|walk| - 1]) + (if IsFile(e) && MatchesFilter(exts, e.name) then [e] else [])
  }

  /** The entries of `walk` that are files. */
  function Files(walk: seq<Entry>): seq<Entry> {
    if walk == [] then []
    else Files(walk[..|walk| - 1]) + (if IsFile(walk[|walk| - 1]) then [walk[|walk| - 1]] else [])
  }

  function CountDirs(walk: seq<Entry>): nat {
    if walk == [] then 0
    else CountDirs(walk[..|walk| - 1]) + (if IsDirEntry(walk[|walk| - 1]) then 1 else 0)
  }

  /** The sizes the entries' Info() reported, summed. */
  function SizeSum(entries: seq<Entry>): nat {
    if entries == [] then 0
    else
      var e := entries[|entries| - 1];
      SizeSum(entries[..|entries| - 1]) + (if e.Visit? && e.info.Some? then e.info.value else 0)
  }

  /** The position of the first entry that stops a scan, |walk| if none. */
  function FirstScanFailure(walk: seq<Entry>): (k: nat)
    ensures k <= |walk|
    ensures k < |walk| ==> ScanFails(walk[k])
    ensures forall j :: 0 <= j < k ==> !ScanFails(walk[j])
  {
    if walk == [] then 0
    else
      var k := FirstScanFailure(walk[..|walk| - 1]);
      if k < |walk| - 1 then k
      else if ScanFails(walk[|walk| - 1]) then |walk| - 1
      else |walk|
  }

  /** DirInfo(dir, exts). Lower-cases the filter, then folds the walk. */
  method DirInfo(exts: seq<string>, walk: seq<Entry>) returns (di: DirInfoData, err: Option<Err>)
    ensures di.Exts == LowerAll(exts)
    ensures Scanned(di, err) == Scan(LowerAll(exts), walk)
  {
    var lowered: seq<string> := [];
    for i := 0 to |exts|
      invariant lowered == LowerAll(exts[..i])
    {
      assert exts[..i + 1][..i] == exts[..i];
      lowered := lowered + [ToLower(exts[i])];
    }
    assert exts[..|exts|] == exts;
    di, err := DirInfoData(lowered, 0, 0, 0), None;

    var i := 0;
    while i < |walk| && err.None?
      invariant 0 <= i <= |walk|
      invariant di.Exts == lowered
      invariant Scanned(di, err) == Scan(lowered, walk[..i])
    {
      assert walk[..i + 1][..i] == walk[..i];
      var e := walk[i];
      if e.WalkError? {
        err := Some(WalkFailure(e.path));
      } else if e.isDir {
        di := di.(SubDirCount := di.SubDirCount + 1);
      } else if e.info.None? {
        err := Some(InfoFailure(e.path));
      } else {
        var matched := Matched(di.Exts, e.name);
        if matched {
          di := di.(FileCount := di.FileCount + 1, TotalSize := di.TotalSize + e.info.value);
        }
      }
      i := i + 1;
    }
    if i < |walk| {
      ScanStops(lowered, walk, i);
    } else {
      assert walk[..i] == walk;
    }
  }

  /** Once a prefix of the walk has failed, the rest of the walk is ignored. */
  lemma {:induction false} ScanStops(exts: seq<string>, walk: seq<Entry>, i: nat)
    requires i <= |walk| && Scan(exts, walk[..i]).err.Some?
    ensures Scan(exts, walk) == Scan(exts, walk[..i])
  {
    if i < |walk| {
      var init := walk[..|walk| - 1];
      assert init[..i] == walk[..i];
      ScanStops(exts, init, i);
    } else {
      assert walk[..i] == walk;
    }
  }

  /** The counts of a scan of `walk`, had nothing failed. */
  function Totals(exts: seq<string>, walk: seq<Entry>): DirInfoData {
    DirInfoData(exts, |MatchedFiles(exts, walk)|, CountDirs(walk), SizeSum(MatchedFiles(exts, walk)))
  }

  /** A walk without errors is scanned to its totals. */
  lemma {:induction false} ScanClean(exts: seq<string>, walk: seq<Entry>)
    requires forall j :: 0 <= j < |walk| ==> !ScanFails(walk[j])
    ensures Scan(exts, walk) == Scanned(Totals(exts, walk), None)
  {
    if walk != [] {
      var init, e := walk[..|walk| - 1], walk[|walk| - 1];
      ScanClean(exts, init);
      var m := MatchedFiles(exts, init);
      if IsFile(e) && MatchesFilter(exts, e.name) {
        assert MatchedFiles(exts, walk) == m + [e];
        assert (m + [e])[..|m|] == m;
      } else {
        assert MatchedFiles(exts, walk) == m;
      }
    }
  }

  /** What a scan computes: up to the first walk or Info() error, every
      directory entry (the root included) adds one to SubDirCount, and every
      file passing the filter adds one to FileCount and its size to
      TotalSize; the error, if any, is returned with these partial counts. */
  lemma ScanCounts(exts: seq<string>, walk: seq<Entry>)
    ensures var r := Scan(exts, walk);
            var k := FirstScanFailure(walk);
            r.di == Totals(exts, walk[..k]) &&
            (r.err.None? <==> k == |walk|) &&
            (k < |walk| ==> r.err == Some(ScanError(walk[k])))
  {
    var k := FirstScanFailure(walk);
    ScanClean(exts, walk[..k]);
    if k == |walk| {
      assert walk[..k] == walk;
    } else {
      assert walk[..k + 1][..k] == walk[..k];
      ScanStops(exts, walk, k + 1);
    }
  }

  /** An empty filter passes every file. */
  lemma {:induction false} EmptyFilterMatchesAllFiles(walk: seq<Entry>)
    ensures MatchedFiles([], walk) == Files(walk)
  {
    if walk != [] {
      EmptyFilterMatchesAllFiles(walk[..|walk| - 1]);
    }
  }

  /** Every file is counted at most once: the files passing the filter are
      no more numerous than, and drawn from, the files. */
  lemma {:induction false} MatchedAreFiles(exts: seq<string>, walk: seq<Entry>)
    ensures |MatchedFiles(exts, walk)| <= |Files(walk)|
    ensures forall e :: e in MatchedFiles(exts, walk) ==> e in Files(walk) && IsFile(e) && MatchesFilter(exts, e.name)
  {
    if walk != [] {
      MatchedAreFiles(exts, walk[..|walk| - 1]);
    }
  }

  // ---------------------------------------------------------------------
  // The tree copy.

  /** Where the files come from: the host filesystem itself, or a read-only
      file system (copyfsdir.go). */
  datatype Source = Host | Fsys(files: map<Path, Node>)

  /** One call of the byte transfer for a file: its source and destination,
      the tree total and the bytes copied before it, the callback, the bytes
      it wrote and whether it succeeded. */
  datatype Call = Call(from: Path, to: Path, total: nat, prev: nat, fn: Option<Callback>,
                       written: nat, ok: bool)

  /** What one tree copy works with, fixed for the whole walk. `exts` is the
      lower-cased filter, `total` the scan's TotalSize, `faults` the planned
      failures by walk position. */
  datatype Job = Job(source: Source, src: Path, dst: Path, exts: seq<string>, fn: Option<Callback>,
                     total: nat, faults: map<nat, Fault>)

  /** The state of the copy walk: the host filesystem, the `copied`
      accumulator, the transfers made so far and the error that stopped it. */
  datatype Walked = Walked(nodes: map<Path, Node>, copied: nat, transfers: seq<Call>, err: Option<Err>)

  function Target(job: Job, p: Path): Path {
    ReplacePrefix(p, job.src, job.dst)
  }

  /** The copy of one file that passed the filter: open the source, create
      or truncate the destination, transfer. Only a successful transfer adds
      to `copied`. */
  function CopyMatched(job: Job, st: Walked, p: Path, fault: Option<Fault>): Walked {
    var target := Target(job, p);
    var origin := View(job, st.nodes);
    var openErr := OpenForWriteError(st.nodes, target);
    if p !in origin then st.(err := Some(NotExist(p)))
    else if FailsAt(fault, OpenSrc) then st.(err := Some(Failure(OpenSrc, p)))
    else if openErr.Some? then st.(err := openErr)
    else if FailsAt(fault, OpenDst) then st.(err := Some(Failure(OpenDst, target)))
    else
      var created := st.nodes[target := File([])];
      // A host source is read after the destination was truncated.
      var reading := View(job, created)[p];
      if reading.Dir? then
        Walked(created, st.copied,
               st.transfers + [Call(p, target, job.total, st.copied, job.fn, 0, false)],
               Some(IsDir(p)))
      else
        var n := Moved(reading.data, fault);
        var ok := !FailsAt(fault, Transfer);
        Walked(created[target := File(reading.data[..n])],
               if ok then st.copied + n else st.copied,
               st.transfers + [Call(p, target, job.total, st.copied, job.fn, n, ok)],
               if ok then None else Some(Failure(Transfer, p)))
  }

  /** The walk callback of the tree copy on the entry at position `i`. */
  function CopyEntry(job: Job, st: Walked, i: nat, e: Entry): Walked {
    var fault := FaultOf(job.faults, i);
    match e
    case WalkError(p) => st.(err := Some(WalkFailure(p)))
    case Visit(p, name, isDir, _) =>
      if isDir then
        if FailsAt(fault, MakeDir) then st.(err := Some(Failure(MakeDir, Target(job, p))))
        else st.(nodes := WithDir(st.nodes, Target(job, p)))
      else if !MatchesFilter(job.exts, name) then st
      else CopyMatched(job, st, p, fault)
  }

  /** The copy walk over `walk` from the filesystem `nodes`; the first
      error stops it. */
  function CopyWalk(job: Job, nodes: map<Path, Node>, walk: seq<Entry>): Walked {
    if walk == [] then Walked(nodes, 0, [], None)
    else
      var st := CopyWalk(job, nodes, walk[..|walk| - 1]);
      if st.err.Some? then st else CopyEntry(job, st, |walk| - 1, walk[|walk| - 1])
  }

  /** What CopyDirBufferWithProgress and CopyFSDirBufferWithProgress do:
      scan, return `(0, err)` if the scan fails, otherwise copy. */
  function TreeCopy(source: Source, nodes: map<Path, Node>, src: Path, dst: Path, exts: seq<string>,
                    fn: Option<Callback>, scanWalk: seq<Entry>, copyWalk: seq<Entry>,
                    faults: map<nat, Fault>): Walked
  {
    var scan := Scan(LowerAll(exts), scanWalk);
    if scan.err.Some? then Walked(nodes, 0, [], scan.err)
    else CopyWalk(JobFor(source, src, dst, exts, fn, scanWalk, faults), nodes, copyWalk)
  }

  /** The job of a tree copy whose scan of `scanWalk` succeeded. */
  function JobFor(source: Source, src: Path, dst: Path, exts: seq<string>, fn: Option<Callback>,
                  scanWalk: seq<Entry>, faults: map<nat, Fault>): Job
  {
    Job(source, src, dst, LowerAll(exts), fn, Scan(LowerAll(exts), scanWalk).di.TotalSize, faults)
  }

  /** The part of the walk callback that copies one matched file. */
  method CopyMatchedFile(host: HostFs, job: Job, p: Path, fault: Option<Fault>,
                         copied: nat, transfers: seq<Call>)
    returns (copied': nat, transfers': seq<Call>, err: Option<Err>)
    modifies host
    ensures Walked(host.nodes, copied', transfers', err)
            == CopyMatched(job, Walked(old(host.nodes), copied, transfers, None), p, fault)
  {
    copied', transfers' := copied, transfers;
    var target := Target(job, p);
    // Open the source.
    var present := p in View(job, host.nodes);
    if !present {
      return copied, transfers, Some(NotExist(p));
    }
    if FailsAt(fault, OpenSrc) {
      return copied, transfers, Some(Failure(OpenSrc, p));
    }
    // Create the destination.
    err := host.Create(target, FailsAt(fault, OpenDst));
    if err.Some? {
      return;
    }
    var reading := View(job, host.nodes)[p];
    if reading.Dir? {
      transfers' := transfers + [Call(p, target, job.total, copied, job.fn, 0, false)];
      return copied, transfers', Some(IsDir(p));
    }
    var n := Moved(reading.data, fault);
    host.Flush(target, reading.data[..n]);
    var ok := !FailsAt(fault, Transfer);
    transfers' := transfers + [Call(p, target, job.total, copied, job.fn, n, ok)];
    if ok {
      copied' := copied + n;
      err := None;
    } else {
      err := Some(Failure(Transfer, p));
    }
  }

  /** The second walk of CopyDirBufferWithProgress (copydir.go) and
      CopyFSDirBufferWithProgress (copyfsdir.go). */
  method WalkAndCopy(host: HostFs, job: Job, walk: seq<Entry>)
    returns (copied: nat, transfers: seq<Call>, err: Option<Err>)
    modifies host
    ensures Walked(host.nodes, copied, transfers, err) == CopyWalk(job, old(host.nodes), walk)
  {
    copied, transfers, err := 0, [], None;
    var i := 0;
    while i < |walk| && err.None?
      invariant 0 <= i <= |walk|
      invariant Walked(host.nodes, copied, transfers, err) == CopyWalk(job, old(host.nodes), walk[..i])
    {
      assert walk[..i + 1][..i] == walk[..i];
      var fault := FaultOf(job.faults, i);
      match walk[i] {
        case WalkError(p) =>
          err := Some(WalkFailure(p));
        case Visit(p, name, isDir, _) =>
          if isDir {
            // Create the directory even if the source directory is empty.
            err := host.CreateDirIfNotExists(Target(job, p), FailsAt(fault, MakeDir));
          } else {
            var matched := Matched(job.exts, name);
            if matched {
              copied, transfers, err := CopyMatchedFile(host, job, p, fault, copied, transfers);
            }
          }
      }
      i := i + 1;
    }
    if i < |walk| {
      CopyStops(job, old(host.nodes), walk, i);
    } else {
      assert walk[..i] == walk;
    }
  }

  /** CopyDirBufferWithProgress(ctx, src, dst, exts, buf, fn). Returns the
      bytes copied, the error, and the transfers it made. */
  method CopyDirBufferWithProgress(host: HostFs, src: Path, dst: Path, exts: seq<string>,
                                   buf: seq<byte>, fn: Option<Callback>,
                                   scanWalk: seq<Entry>, copyWalk: seq<Entry>, faults: map<nat, Fault>)
    returns (n: nat, err: Option<Err>, transfers: seq<Call>)
    modifies host
    ensures Walked(host.nodes, n, transfers, err)
            == TreeCopy(Host, old(host.nodes), src, dst, exts, fn, scanWalk, copyWalk, faults)
    ensures Scan(LowerAll(exts), scanWalk).err.Some? ==>
            host.nodes == old(host.nodes) && n == 0 && transfers == [] && err == Scan(LowerAll(exts), scanWalk).err
  {
    var di, scanErr := DirInfo(exts, scanWalk);
    if scanErr.Some? {
      return 0, scanErr, [];
    }
    n, transfers, err := WalkAndCopy(host, Job(Host, src, dst, di.Exts, fn, di.TotalSize, faults), copyWalk);
  }

  /** CopyDir: no buffer, no callback. */
  method CopyDir(host: HostFs, src: Path, dst: Path, exts: seq<string>,
                 scanWalk: seq<Entry>, copyWalk: seq<Entry>, faults: map<nat, Fault>)
    returns (n: nat, err: Option<Err>)
    modifies host
    ensures var r := TreeCopy(Host, old(host.nodes), src, dst, exts, None, scanWalk, copyWalk, faults);
            host.nodes == r.nodes && n == r.copied && err == r.err
  {
    var transfers;
    n, err, transfers := CopyDirBufferWithProgress(host, src, dst, exts, [], None, scanWalk, copyWalk, faults);
  }

  /** CopyDirBuffer: no callback. */
  method CopyDirBuffer(host: HostFs, src: Path, dst: Path, exts: seq<string>, buf: seq<byte>,
                       scanWalk: seq<Entry>, copyWalk: seq<Entry>, faults: map<nat, Fault>)
    returns (n: nat, err: Option<Err>)
    modifies host
    ensures var r := TreeCopy(Host, old(host.nodes), src, dst, exts, None, scanWalk, copyWalk, faults);
            host.nodes == r.nodes && n == r.copied && err == r.err
  {
    var transfers;
    n, err, transfers := CopyDirBufferWithProgress(host, src, dst, exts, buf, None, scanWalk, copyWalk, faults);
  }

  /** CopyDirWithProgress: no buffer. */
  method CopyDirWithProgress(host: HostFs, src: Path, dst: Path, exts: seq<string>, fn: Option<Callback>,
                             scanWalk: seq<Entry>, copyWalk: seq<Entry>, faults: map<nat, Fault>)
    returns (n: nat, err: Option<Err>, transfers: seq<Call>)
    modifies host
    ensures Walked(host.nodes, n, transfers, err)
            == TreeCopy(Host, old(host.nodes), src, dst, exts, fn, scanWalk, copyWalk, faults)
  {
    n, err, transfers := CopyDirBufferWithProgress(host, src, dst, exts, [], fn, scanWalk, copyWalk, faults);
  }

  /** Once a prefix of the walk has failed, the rest of the walk is ignored. */
  lemma {:induction false} CopyStops(job: Job, nodes: map<Path, Node>, walk: seq<Entry>, i: nat)
    requires i <= |walk| && CopyWalk(job, nodes, walk[..i]).err.Some?
    ensures CopyWalk(job, nodes, walk) == CopyWalk(job, nodes, walk[..i])
  {
    if i < |walk| {
      var init := walk[..|walk| - 1];
      assert init[..i] == walk[..i];
      CopyStops(job, nodes, init, i);
    } else {
      assert walk[..i] == walk;
    }
  }

  // Properties of the copy walk.

  /** The sum of the bytes written by the successful transfers. */
  function OkSum(calls: seq<Call>): nat {
    if calls == [] then 0
    else
      var c := calls[|calls| - 1];
      OkSum(calls[..|calls| - 1]) + (if c.ok then c.written else 0)
  }

  function Froms(calls: seq<Call>): (r: seq<Path>)
    ensures |r| == |calls| && forall k :: 0 <= k < |calls| ==> r[k] == calls[k].from
  {
    seq(|calls|, k requires 0 <= k < |calls| => calls[k].from)
  }

  function Paths(entries: seq<Entry>): (r: seq<Path>)
    ensures |r| == |entries| && forall k :: 0 <= k < |entries| ==> r[k] == entries[k].path
  {
    seq(|entries|, k requires 0 <= k < |entries| => entries[k].path)
  }

  /** One step of the copy walk: only a matched file makes a transfer, and
      then exactly one, given the tree total and the `copied` value before
      it; only its success adds its bytes; a matched file either transfers
      successfully or stops the walk. Keys are never removed. */
  lemma EntryStep(job: Job, st: Walked, i: nat, e: Entry)
    requires st.err.None?
    ensures var st' := CopyEntry(job, st, i, e);
            var matched := IsFile(e) && MatchesFilter(job.exts, e.name);
            st.nodes.Keys <= st'.nodes.Keys &&
            (!matched ==> st'.transfers == st.transfers && st'.copied == st.copied) &&
            (matched && st'.err.None? ==> |st'.transfers| == |st.transfers| + 1) &&
            (st'.transfers == st.transfers ==> st'.copied == st.copied) &&
            (st'.transfers != st.transfers ==>
               matched &&
               |st'.transfers| == |st.transfers| + 1 &&
               st'.transfers[..|st.transfers|] == st.transfers &&
               var c := st'.transfers[|st.transfers|];
               c.from == e.path && c.to == Target(job, e.path) &&
               c.prev == st.copied && c.total == job.total && c.fn == job.fn &&
               st'.copied == st.copied + (if c.ok then c.written else 0) &&
               (c.ok <==> st'.err.None?) &&
               (!c.ok ==> st'.err == Some(Failure(Transfer, e.path)) || st'.err == Some(IsDir(e.path))))
  {
    var st' := CopyEntry(job, st, i, e);
    if IsFile(e) && MatchesFilter(job.exts, e.name) {
      assert st' == CopyMatched(job, st, e.path, FaultOf(job.faults, i));
      if st'.transfers != st.transfers {
        assert st'.transfers[..|st.transfers|] == st.transfers;
      }
    }
  }

  /** One step changes the filesystem only at the entry's destination. */
  lemma EntryFrame(job: Job, st: Walked, i: nat, e: Entry, p: Path)
    requires st.err.None?
    requires e.Visit? ==> Target(job, e.path) != p
    ensures var st' := CopyEntry(job, st, i, e);
            (p in st'.nodes <==> p in st.nodes) && (p in st.nodes ==> st'.nodes[p] == st.nodes[p])
  {
    if e.Visit? && !e.isDir && MatchesFilter(job.exts, e.name) {
      assert CopyEntry(job, st, i, e) == CopyMatched(job, st, e.path, FaultOf(job.faults, i));
    }
  }

  /** The accounting of a copy state: `copied` is the sum of the bytes of
      the successful transfers; every transfer was given the scan's total,
      the callback and the sum before it; a failed transfer is the last one,
      and its error, a failed transfer of that file or that file being a
      directory, is the state's error. */
  predicate Accounted(job: Job, st: Walked) {
    st.copied == OkSum(st.transfers) &&
    (forall k :: 0 <= k < |st.transfers| ==>
       st.transfers[k].prev == OkSum(st.transfers[..k]) &&
       st.transfers[k].total == job.total && st.transfers[k].fn == job.fn) &&
    (forall k :: 0 <= k < |st.transfers| && !st.transfers[k].ok ==>
       k == |st.transfers| - 1 &&
       (st.err == Some(Failure(Transfer, st.transfers[k].from)) || st.err == Some(IsDir(st.transfers[k].from))))
  }

  /** One step of the walk keeps the accounting. */
  lemma AccountingStep(job: Job, st: Walked, i: nat, e: Entry)
    requires st.err.None? && Accounted(job, st)
    ensures Accounted(job, CopyEntry(job, st, i, e))
  {
    EntryStep(job, st, i, e);
    AccountingExtends(job, st, CopyEntry(job, st, i, e), e.path);
  }

  /** A state that logs no new transfer, or one more transfer as a step
      does, keeps the accounting. */
  lemma AccountingExtends(job: Job, st: Walked, st': Walked, p: Path)
    requires st.err.None? && Accounted(job, st)
    requires st'.transfers == st.transfers ==> st'.copied == st.copied
    requires st'.transfers != st.transfers ==>
               |st'.transfers| == |st.transfers| + 1 &&
               st'.transfers[..|st.transfers|] == st.transfers &&
               var c := st'.transfers[|st.transfers|];
               c.from == p &&
               c.prev == st.copied && c.total == job.total && c.fn == job.fn &&
               st'.copied == st.copied + (if c.ok then c.written else 0) &&
               (!c.ok ==> st'.err == Some(Failure(Transfer, p)) || st'.err == Some(IsDir(p)))
    ensures Accounted(job, st')
  {
    var ts, ts' := st.transfers, st'.transfers;
    if ts' != ts {
      AppendedCall(ts, ts');
      forall k | 0 <= k < |ts'|
        ensures ts'[k].prev == OkSum(ts'[..k]) && ts'[k].total == job.total && ts'[k].fn == job.fn
      {
        if k < |ts| {
          assert ts'[k] == ts[k] && ts'[..k] == ts[..k];
        }
      }
      forall k | 0 <= k < |ts'| && !ts'[k].ok
        ensures k == |ts'| - 1 &&
                (st'.err == Some(Failure(Transfer, ts'[k].from)) || st'.err == Some(IsDir(ts'[k].from)))
      {
        if k < |ts| {
          assert false;
        }
      }
    }
  }

  /** The accounting holds for every copy walk: `copied` is the sum of the
      successful transfers, each transfer is given the scan total and the
      `copied` value before it, and a failed transfer ends the walk with its
      own error, its partial count not added. */
  lemma {:induction false} CopyAccounting(job: Job, nodes: map<Path, Node>, walk: seq<Entry>)
    ensures var st := CopyWalk(job, nodes, walk);
            st.copied == OkSum(st.transfers) &&
            (forall k :: 0 <= k < |st.transfers| ==>
               st.transfers[k].prev == OkSum(st.transfers[..k]) &&
               st.transfers[k].total == job.total && st.transfers[k].fn == job.fn) &&
            (forall k :: 0 <= k < |st.transfers| && !st.transfers[k].ok ==>
               k == |st.transfers| - 1 &&
               (st.err == Some(Failure(Transfer, st.transfers[k].from)) ||
                st.err == Some(IsDir(st.transfers[k].from))))
  {
    AccountedWalk(job, nodes, walk);
  }

  lemma {:induction false} AccountedWalk(job: Job, nodes: map<Path, Node>, walk: seq<Entry>)
    ensures Accounted(job, CopyWalk(job, nodes, walk))
  {
    if walk != [] {
      var init := walk[..|walk| - 1];
      AccountedWalk(job, nodes, init);
      var prior := CopyWalk(job, nodes, init);
      if prior.err.None? {
        AccountingStep(job, prior, |walk| - 1, walk[|walk| - 1]);
      }
    }
  }

  /** Extending a call log by one call keeps the earlier calls and sums. */
  lemma AppendedCall(ts: seq<Call>, ts': seq<Call>)
    requires |ts'| == |ts| + 1 && ts'[..|ts|] == ts
    ensures OkSum(ts') == OkSum(ts) + (if ts'[|ts|].ok then ts'[|ts|].written else 0)
    ensures forall k :: 0 <= k < |ts| ==> ts'[k] == ts[k] && ts'[..k] == ts[..k]
    ensures ts'[..|ts|] == ts
  {
    forall k | 0 <= k < |ts|
      ensures ts'[k] == ts[k] && ts'[..k] == ts[..k]
    {
      assert ts'[..|ts|][k] == ts'[k];
      assert ts'[..|ts|][..k] == ts'[..k];
    }
  }

  /** The files transferred are, in walk order, the files that pass the
      filter: all of them when the walk succeeds, a prefix of them when it
      stops early. Unmatched files and directories transfer nothing. */
  lemma {:induction false} CopiesMatchedFiles(job: Job, nodes: map<Path, Node>, walk: seq<Entry>)
    ensures var st := CopyWalk(job, nodes, walk);
            Froms(st.transfers) <= Paths(MatchedFiles(job.exts, walk)) &&
            (st.err.None? ==> Froms(st.transfers) == Paths(MatchedFiles(job.exts, walk)))
  {
    if walk != [] {
      var init, e := walk[..|walk| - 1], walk[|walk| - 1];
      CopiesMatchedFiles(job, nodes, init);
      var prior := CopyWalk(job, nodes, init);
      var m := MatchedFiles(job.exts, init);
      var matched := IsFile(e) && MatchesFilter(job.exts, e.name);
      var m' := m + (if matched then [e] else []);
      assert MatchedFiles(job.exts, walk) == m';
      PathsAppend(m, if matched then [e] else []);
      if prior.err.Some? {
        assert CopyWalk(job, nodes, walk) == prior;
      } else {
        var st := CopyEntry(job, prior, |walk| - 1, e);
        assert st == CopyWalk(job, nodes, walk);
        EntryStep(job, prior, |walk| - 1, e);
        if st.transfers != prior.transfers {
          FromsAppend(prior.transfers, st.transfers);
        }
      }
    }
  }

  lemma PathsAppend(m: seq<Entry>, tail: seq<Entry>)
    ensures Paths(m + tail) == Paths(m) + Paths(tail)
  {
    assert forall k :: 0 <= k < |m| ==> (m + tail)[k] == m[k];
  }

  lemma FromsAppend(ts: seq<Call>, ts': seq<Call>)
    requires |ts'| == |ts| + 1 && ts'[..|ts|] == ts
    ensures Froms(ts') == Froms(ts) + [ts'[|ts|].from]
  {
    assert forall k :: 0 <= k < |ts| ==> ts'[..|ts|][k] == ts'[k];
  }

  /** The filesystem only gains entries, and a walk that succeeds has
      created (or found) every visited directory, empty ones and the root
      included, at its destination path; with distinct walked paths under
      `src`, that destination is a directory unless something other than a
      directory stood there before the walk. */
  lemma CreatesVisitedDirs(job: Job, nodes: map<Path, Node>, walk: seq<Entry>)
    ensures var st := CopyWalk(job, nodes, walk);
            nodes.Keys <= st.nodes.Keys &&
            (st.err.None? ==>
               forall k :: 0 <= k < |walk| && IsDirEntry(walk[k]) ==> Target(job, walk[k].path) in st.nodes) &&
            (st.err.None? && DistinctUnder(job, walk) ==>
               forall k :: 0 <= k < |walk| && IsDirEntry(walk[k]) &&
                           (Target(job, walk[k].path) !in nodes || nodes[Target(job, walk[k].path)] == Dir) ==>
                 st.nodes[Target(job, walk[k].path)] == Dir)
  {
    VisitedDirsPresent(job, nodes, walk);
    if DistinctUnder(job, walk) {
      VisitedDirsAreDirs(job, nodes, walk);
    }
  }

  /** No key is removed, and every visited directory's destination is present
      after a successful walk. */
  lemma {:induction false} VisitedDirsPresent(job: Job, nodes: map<Path, Node>, walk: seq<Entry>)
    ensures var st := CopyWalk(job, nodes, walk);
            nodes.Keys <= st.nodes.Keys &&
            (st.err.None? ==>
               forall k :: 0 <= k < |walk| && IsDirEntry(walk[k]) ==> Target(job, walk[k].path) in st.nodes)
  {
    if walk != [] {
      var init, e := walk[..|walk| - 1], walk[|walk| - 1];
      VisitedDirsPresent(job, nodes, init);
      var prior := CopyWalk(job, nodes, init);
      if prior.err.None? {
        var st := CopyEntry(job, prior, |walk| - 1, e);
        assert st == CopyWalk(job, nodes, walk);
        EntryStep(job, prior, |walk| - 1, e);
        if st.err.None? {
          if IsDirEntry(e) {
            assert st.nodes == WithDir(prior.nodes, Target(job, e.path));
          }
          forall k | 0 <= k < |walk| && IsDirEntry(walk[k])
            ensures Target(job, walk[k].path) in st.nodes
          {
            if k < |init| {
              assert init[k] == walk[k];
            }
          }
        }
      }
    }
  }

  /** When the walked paths are distinct and under `src`, a successful walk
      leaves a directory at the destination of every visited directory
      whose destination was free, or already a directory, before the walk. */
  lemma {:induction false} VisitedDirsAreDirs(job: Job, nodes: map<Path, Node>, walk: seq<Entry>)
    requires DistinctUnder(job, walk)
    ensures var st := CopyWalk(job, nodes, walk);
            st.err.None? ==>
              forall k :: 0 <= k < |walk| && IsDirEntry(walk[k]) &&
                          (Target(job, walk[k].path) !in nodes || nodes[Target(job, walk[k].path)] == Dir) ==>
                Target(job, walk[k].path) in st.nodes && st.nodes[Target(job, walk[k].path)] == Dir
  {
    if walk != [] {
      var init, e := walk[..|walk| - 1], walk[|walk| - 1];
      assert forall k :: 0 <= k < |init| ==> init[k] == walk[k];
      VisitedDirsAreDirs(job, nodes, init);
      var prior, st := CopyWalk(job, nodes, init), CopyWalk(job, nodes, walk);
      assert prior.err.None? ==> st == CopyEntry(job, prior, |walk| - 1, e);
      if st.err.None? {
        assert prior.err.None?;
        assert e.Visit?;
        forall k | 0 <= k < |walk| && IsDirEntry(walk[k]) &&
                   (Target(job, walk[k].path) !in nodes || nodes[Target(job, walk[k].path)] == Dir)
          ensures Target(job, walk[k].path) in st.nodes && st.nodes[Target(job, walk[k].path)] == Dir
        {
          var t := Target(job, walk[k].path);
          if k < |init| {
            ReplacePrefixInjective(walk[k].path, e.path, job.src, job.dst);
            EntryFrame(job, prior, |walk| - 1, e, t);
          } else {
            forall j | 0 <= j < |init| && init[j].Visit?
              ensures Target(job, init[j].path) != t
            {
              ReplacePrefixInjective(init[j].path, e.path, job.src, job.dst);
            }
            ChangesOnlyTargets(job, nodes, init, t);
            assert st.nodes == WithDir(prior.nodes, t);
          }
        }
      }
    }
  }

  /** No visited entry maps to `p`. */
  predicate Untargeted(job: Job, walk: seq<Entry>, p: Path) {
    forall k :: 0 <= k < |walk| && walk[k].Visit? ==> Target(job, walk[k].path) != p
  }

  /** A path that is no entry's destination is left as it was. */
  lemma {:induction false} ChangesOnlyTargets(job: Job, nodes: map<Path, Node>, walk: seq<Entry>, p: Path)
    requires Untargeted(job, walk, p)
    ensures var st := CopyWalk(job, nodes, walk);
            (p in st.nodes <==> p in nodes) && (p in nodes ==> st.nodes[p] == nodes[p])
  {
    if walk != [] {
      var init, e := walk[..|walk| - 1], walk[|walk| - 1];
      assert forall k :: 0 <= k < |init| ==> init[k] == walk[k];
      ChangesOnlyTargets(job, nodes, init, p);
      var prior := CopyWalk(job, nodes, init);
      if prior.err.None? {
        EntryFrame(job, prior, |walk| - 1, e, p);
      }
    }
  }

  /** The files a copy reads: the host filesystem as it was before the copy,
      or the read-only file system. */
  function View(job: Job, nodes: map<Path, Node>): map<Path, Node> {
    if job.source.Host? then nodes else job.source.files
  }

  /** A host copy never writes where it reads: no destination is a path of
      the walk. A copy from a read-only file system always qualifies. */
  predicate ReadsOriginal(job: Job, walk: seq<Entry>) {
    job.source.Fsys? ||
    forall k, j :: 0 <= k < |walk| && 0 <= j < |walk| && walk[k].Visit? && walk[j].Visit? ==>
      Target(job, walk[k].path) != walk[j].path
  }

  /** The sizes the walk reports are those of the files read. */
  predicate SizesAgree(job: Job, nodes: map<Path, Node>, walk: seq<Entry>) {
    forall k :: 0 <= k < |walk| && IsFile(walk[k]) && walk[k].path in View(job, nodes) &&
                !View(job, nodes)[walk[k].path].Dir? ==>
      walk[k].info == Some(|View(job, nodes)[walk[k].path].data|)
  }

  /** A successful copy of a matched file, the last of the walk, writes the
      bytes of the original file at its destination and adds their count. */
  lemma MatchedStep(job: Job, nodes: map<Path, Node>, walk: seq<Entry>)
    requires walk != [] && ReadsOriginal(job, walk)
    requires IsFile(walk[|walk| - 1]) && MatchesFilter(job.exts, walk[|walk| - 1].name)
    requires CopyWalk(job, nodes, walk).err.None?
    ensures var init, e := walk[..|walk| - 1], walk[|walk| - 1];
            var prior, st := CopyWalk(job, nodes, init), CopyWalk(job, nodes, walk);
            var v := View(job, nodes);
            prior.err.None? && e.path in v && !v[e.path].Dir? &&
            st.nodes == prior.nodes[Target(job, e.path) := File(v[e.path].data)] &&
            st.copied == prior.copied + |v[e.path].data|
  {
    var init, e := walk[..|walk| - 1], walk[|walk| - 1];
    var prior := CopyWalk(job, nodes, init);
    assert CopyWalk(job, nodes, walk) == CopyMatched(job, prior, e.path, FaultOf(job.faults, |walk| - 1));
    assert prior.err.None?;
    if job.source.Host? {
      assert forall k :: 0 <= k < |init| ==> init[k] == walk[k];
      assert Untargeted(job, init, e.path);
      ChangesOnlyTargets(job, nodes, init, e.path);
      assert Target(job, e.path) != e.path;
    }
    var data := View(job, nodes)[e.path].data;
    assert data[..|data|] == data;
  }

  /** When sizes agree and the copy reads the original files, a successful
      walk copies exactly the bytes the scan of the same walk summed. */
  lemma {:induction false} CopiedIsScannedSize(job: Job, nodes: map<Path, Node>, walk: seq<Entry>)
    requires ReadsOriginal(job, walk) && SizesAgree(job, nodes, walk)
    ensures var st := CopyWalk(job, nodes, walk);
            st.err.None? ==> st.copied == SizeSum(MatchedFiles(job.exts, walk))
  {
    if walk != [] {
      var init, e := walk[..|walk| - 1], walk[|walk| - 1];
      assert forall k :: 0 <= k < |init| ==> init[k] == walk[k];
      CopiedIsScannedSize(job, nodes, init);
      var prior, st := CopyWalk(job, nodes, init), CopyWalk(job, nodes, walk);
      assert prior.err.None? ==> st == CopyEntry(job, prior, |walk| - 1, e);
      var m := MatchedFiles(job.exts, init);
      if st.err.None? {
        if IsFile(e) && MatchesFilter(job.exts, e.name) {
          MatchedStep(job, nodes, walk);
          assert MatchedFiles(job.exts, walk) == m + [e];
          assert (m + [e])[..|m|] == m;
        } else {
          EntryStep(job, prior, |walk| - 1, e);
          assert MatchedFiles(job.exts, walk) == m;
        }
      }
    }
  }

  /** The visited paths are distinct and all lie under the source root. */
  predicate DistinctUnder(job: Job, walk: seq<Entry>) {
    (forall k :: 0 <= k < |walk| && walk[k].Visit? ==> job.src <= walk[k].path) &&
    (forall k, j :: 0 <= k < j < |walk| && walk[k].Visit? && walk[j].Visit? ==> walk[k].path != walk[j].path)
  }

  /** A successful walk leaves at the destination of every matched file an
      exact copy of the original file. */
  lemma {:induction false} CopiesContents(job: Job, nodes: map<Path, Node>, walk: seq<Entry>)
    requires ReadsOriginal(job, walk) && DistinctUnder(job, walk)
    ensures var st := CopyWalk(job, nodes, walk);
            var v := View(job, nodes);
            st.err.None? ==>
              forall k :: 0 <= k < |walk| && IsFile(walk[k]) && MatchesFilter(job.exts, walk[k].name) ==>
                walk[k].path in v && !v[walk[k].path].Dir? &&
                Target(job, walk[k].path) in st.nodes &&
                st.nodes[Target(job, walk[k].path)] == File(v[walk[k].path].data)
  {
    if walk != [] {
      var init, e := walk[..|walk| - 1], walk[|walk| - 1];
      assert forall k :: 0 <= k < |init| ==> init[k] == walk[k];
      CopiesContents(job, nodes, init);
      var prior, st := CopyWalk(job, nodes, init), CopyWalk(job, nodes, walk);
      var v := View(job, nodes);
      if st.err.None? {
        var matched := IsFile(e) && MatchesFilter(job.exts, e.name);
        if matched {
          MatchedStep(job, nodes, walk);
        }
        forall k | 0 <= k < |walk| && IsFile(walk[k]) && MatchesFilter(job.exts, walk[k].name)
          ensures walk[k].path in v && !v[walk[k].path].Dir? &&
                  Target(job, walk[k].path) in st.nodes &&
                  st.nodes[Target(job, walk[k].path)] == File(v[walk[k].path].data)
        {
          if k < |init| {
            var t := Target(job, walk[k].path);
            if e.Visit? {
              ReplacePrefixInjective(walk[k].path, e.path, job.src, job.dst);
            }
            EntryFrame(job, prior, |walk| - 1, e, t);
          }
        }
      }
    }
  }

  // Properties of the whole tree copy.

  /** When the copy walks the tree the scan walked and succeeds, it has
      re-created every visited directory (as a directory, when the walked
      paths are distinct and under `src`), transferred exactly the files the
      scan counted (FileCount of them, in walk order), and, when the sizes
      agree and it reads the original files, copied exactly TotalSize bytes:
      the tree-level progress ends at 100%. */
  lemma CopyAgreesWithScan(source: Source, nodes: map<Path, Node>, src: Path, dst: Path,
                           exts: seq<string>, fn: Option<Callback>, walk: seq<Entry>,
                           faults: map<nat, Fault>)
    requires Scan(LowerAll(exts), walk).err.None?
    ensures var di := Scan(LowerAll(exts), walk).di;
            var job := JobFor(source, src, dst, exts, fn, walk, faults);
            var r := TreeCopy(source, nodes, src, dst, exts, fn, walk, walk, faults);
            r.err.None? ==>
              (forall k :: 0 <= k < |walk| && IsDirEntry(walk[k]) ==> Target(job, walk[k].path) in r.nodes) &&
              (DistinctUnder(job, walk) ==>
                 forall k :: 0 <= k < |walk| && IsDirEntry(walk[k]) &&
                             (Target(job, walk[k].path) !in nodes || nodes[Target(job, walk[k].path)] == Dir) ==>
                   r.nodes[Target(job, walk[k].path)] == Dir) &&
              |r.transfers| == di.FileCount &&
              Froms(r.transfers) == Paths(MatchedFiles(di.Exts, walk)) &&
              (ReadsOriginal(job, walk) && SizesAgree(job, nodes, walk) ==> r.copied == di.TotalSize)
  {
    var job := JobFor(source, src, dst, exts, fn, walk, faults);
    ScanCounts(LowerAll(exts), walk);
    assert walk[..|walk|] == walk;
    CreatesVisitedDirs(job, nodes, walk);
    CopiesMatchedFiles(job, nodes, walk);
    if ReadsOriginal(job, walk) && SizesAgree(job, nodes, walk) {
      CopiedIsScannedSize(job, nodes, walk);
    }
  }

  /** A failed scan returns `(0, err)` before any directory or file is
      created. */
  lemma ScanFailureAborts(source: Source, nodes: map<Path, Node>, src: Path, dst: Path,
                          exts: seq<string>, fn: Option<Callback>, scanWalk: seq<Entry>,
                          copyWalk: seq<Entry>, faults: map<nat, Fault>)
    requires Scan(LowerAll(exts), scanWalk).err.Some?
    ensures var r := TreeCopy(source, nodes, src, dst, exts, fn, scanWalk, copyWalk, faults);
            r.nodes == nodes && r.copied == 0 && r.transfers == [] &&
            r.err == Scan(LowerAll(exts), scanWalk).err
  {
  }
}
