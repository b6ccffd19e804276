/**
 * The abstract filesystem the copy engine works on, the entries a directory
 * walk delivers, the errors it can report, and the generic path and
 * directory helpers it relies on.
 */
module Fs {
  import opened Wrappers

  newtype byte = b: int | 0 <= b < 256

  type Path = string

  /** What a path names. `Irregular` is a symbolic link, device, pipe or
      socket: its bytes can be read, but it is not a regular file. */
  datatype Node = Dir | File(data: seq<byte>) | Irregular(data: seq<byte>)

  /** The operating-system calls that can fail while copying. */
  datatype Step = Lstat | Stat | MakeDir | OpenSrc | OpenDst | SeekSrc | SeekDst | Transfer

  /** An injected failure: the call `at` fails; for `Transfer`, after
      `written` bytes (at most the bytes available) reached the destination. */
  datatype Fault = Fault(at: Step, written: nat)

  predicate FailsAt(fault: Option<Fault>, step: Step) {
    fault.Some? && fault.value.at == step
  }

  /** The fault planned for the entry at position `i` of a walk. */
  function FaultOf(faults: map<nat, Fault>, i: nat): Option<Fault> {
    if i in faults then Some(faults[i]) else None
  }

  /** Bytes a transfer of `chunk` writes under `fault`. */
  function Moved(chunk: seq<byte>, fault: Option<Fault>): (n: nat)
    ensures n <= |chunk|
    ensures !FailsAt(fault, Transfer) ==> n == |chunk|
  {
    if FailsAt(fault, Transfer) && fault.value.written < |chunk| then fault.value.written else |chunk|
  }

  datatype Err =
    | ErrNotRegularFile                  // copyfile.go's sentinel error
    | ErrNotFSRegularFile                // copyfsfile.go's sentinel error
    | NotExist(path: Path)               // no such file or directory
    | IsDir(path: Path)                  // a directory opened for writing
    | NotDir(path: Path)                 // a path element that is not a directory
    | Failure(step: Step, path: Path)    // an injected failure of an OS call
    | WalkFailure(path: Path)            // the walk reported an error for this entry
    | InfoFailure(path: Path)            // the entry's Info() failed

  /** One call of the walk callback: a visited entry, or an error the walk
      passes in. `info` is the size `Info()` reports, `None` when it fails. */
  datatype Entry =
    | Visit(path: Path, name: string, isDir: bool, info: Option<nat>)
    | WalkError(path: Path)

  /** The effect of creating `dir` if it does not exist: an existing entry
      of any kind is left alone. */
  function WithDir(nodes: map<Path, Node>, dir: Path): (r: map<Path, Node>)
    ensures dir in r && r.Keys == nodes.Keys + {dir}
    ensures forall p :: p in nodes ==> r[p] == nodes[p]
    ensures dir !in nodes ==> r[dir] == Dir
  {
    if dir in nodes then nodes else nodes[dir := Dir]
  }

  /** Index of the last '/' in `p`, or -1. */
  function LastSlash(p: Path): (i: int)
    ensures -1 <= i < |p|
    ensures i >= 0 ==> p[i] == '/'
    ensures forall k :: i < k < |p| ==> p[k] != '/'
  {
    if p == [] then -1
    else if p[|p| - 1] == '/' then |p| - 1
    else LastSlash(p[..|p| - 1])
  }

  /** The directory part of `p`: everything before its last '/', "/" for a
      path directly under the root, "." for a bare name. */
  function ParentDir(p: Path): (d: Path)
    ensures LastSlash(p) < 0 ==> d == "."
    ensures LastSlash(p) == 0 ==> d == "/"
    ensures LastSlash(p) > 0 ==> d == p[..LastSlash(p)]
  {
    var i := LastSlash(p);
    if i < 0 then "." else if i == 0 then "/" else p[..i]
  }

  /** A path that names a file: not empty and not ending in '/'. */
  predicate PlainPath(p: Path) {
    p != [] && p[|p| - 1] != '/'
  }

  /** The parent directory of `p` exists as a directory, or can be created:
      it is absent, or `p` is a root ("." or "/") that is its own parent. */
  predicate ParentUsable(nodes: map<Path, Node>, p: Path) {
    ParentDir(p) == p || ParentDir(p) !in nodes || nodes[ParentDir(p)].Dir?
  }

  /** Why opening `p` for writing with create fails, injected faults aside:
      the empty path names nothing (ENOENT), a path ending in '/' can only
      name a directory (EISDIR), its parent directory is missing (ENOENT)
      or is not a directory (ENOTDIR), or `p` is a directory (EISDIR). A
      root is its own parent and is not checked. */
  function OpenForWriteError(nodes: map<Path, Node>, p: Path): Option<Err> {
    var dir := ParentDir(p);
    if p == [] then Some(NotExist(p))
    else if p[|p| - 1] == '/' then Some(IsDir(p))
    else if dir != p && dir !in nodes then Some(NotExist(p))
    else if dir != p && !nodes[dir].Dir? then Some(NotDir(p))
    else if p in nodes && nodes[p].Dir? then Some(IsDir(p))
    else None
  }

  /** Opening for writing succeeds exactly when `p` is a plain path, its
      parent is a directory (or `p` is a root) and `p` is not a directory;
      a failure is one of the three errors about `p`. */
  lemma OpenForWriteCases(nodes: map<Path, Node>, p: Path)
    ensures var r := OpenForWriteError(nodes, p);
            (r.None? <==>
               PlainPath(p) &&
               (ParentDir(p) == p || (ParentDir(p) in nodes && nodes[ParentDir(p)].Dir?)) &&
               !(p in nodes && nodes[p].Dir?)) &&
            (r.Some? ==> r.value in {NotExist(p), NotDir(p), IsDir(p)})
  {
  }

  /** `p` with its leading `prefix` replaced by `repl`; `p` unchanged when
      it does not start with `prefix`. */
  function ReplacePrefix(p: Path, prefix: Path, repl: Path): (r: Path)
    ensures prefix <= p ==> r == repl + p[|prefix|..]
    ensures !(prefix <= p) ==> r == p
  {
    if prefix <= p then repl + p[|prefix|..] else p
  }

  /** Two paths under the same prefix are mapped to different destinations. */
  lemma ReplacePrefixInjective(p: Path, q: Path, prefix: Path, repl: Path)
    requires prefix <= p && prefix <= q && p != q
    ensures ReplacePrefix(p, prefix, repl) != ReplacePrefix(q, prefix, repl)
  {
    var a, b := p[|prefix|..], q[|prefix|..];
    assert p == prefix + a && q == prefix + b;
    assert a != b;
    assert (repl + a)[|repl|..] == a && (repl + b)[|repl|..] == b;
  }

  /** The host filesystem, which the copy operations change in place. */
  class HostFs {
    var nodes: map<Path, Node>

    constructor (init: map<Path, Node>)
      ensures nodes == init
    {
      nodes := init;
    }

    /** Creates `dir` unless something already exists there. */
    method CreateDirIfNotExists(dir: Path, fail: bool) returns (err: Option<Err>)
      modifies this
      ensures err == if fail then Some(Failure(MakeDir, dir)) else None
      ensures nodes == if fail then old(nodes) else WithDir(old(nodes), dir)
    {
      if fail {
        return Some(Failure(MakeDir, dir));
      }
      if dir !in nodes {
        nodes := nodes[dir := Dir];
      }
      err := None;
    }

    /** Opens `p` for writing with create and truncate. */
    method Create(p: Path, fail: bool) returns (err: Option<Err>)
      modifies this
      ensures err == if OpenForWriteError(old(nodes), p).Some? then OpenForWriteError(old(nodes), p)
                     else if fail then Some(Failure(OpenDst, p))
                     else None
      ensures nodes == if err.None? then old(nodes)[p := File([])] else old(nodes)
    {
      err := OpenForWriteError(nodes, p);
      if err.Some? {
        return;
      }
      if fail {
        return Some(Failure(OpenDst, p));
      }
      nodes := nodes[p := File([])];
      err := None;
    }

    /** Opens `p` for appending with create; `base` is what it already holds. */
    method OpenAppend(p: Path, fail: bool) returns (base: seq<byte>, err: Option<Err>)
      modifies this
      ensures err == if OpenForWriteError(old(nodes), p).Some? then OpenForWriteError(old(nodes), p)
                     else if fail then Some(Failure(OpenDst, p))
                     else None
      ensures err.None? ==> base == if p in old(nodes) then old(nodes)[p].data else []
      ensures nodes == if err.None? && p !in old(nodes) then old(nodes)[p := File([])] else old(nodes)
    {
      base := [];
      err := OpenForWriteError(nodes, p);
      if err.Some? {
        return;
      }
      if fail {
        return base, Some(Failure(OpenDst, p));
      }
      if p in nodes {
        base := nodes[p].data;
      } else {
        nodes := nodes[p := File([])];
      }
      err := None;
    }

    /** Leaves `p` holding exactly `content` once the writes to it are done. */
    method Flush(p: Path, content: seq<byte>)
      modifies this
      ensures nodes == old(nodes)[p := File(content)]
    {
      nodes := nodes[p := File(content)];
    }
  }
}
