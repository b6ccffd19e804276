/**
 * The per-copy options of copyfile.go (fileCopier, CopyFileOption,
 * OnCopyFile, OnCopyFileInterval) and the wiring of the copy stage that
 * depends on them: whether a progress reporter is started, and which copy
 * routine runs.
 */
module Options {
  import opened Wrappers
  import opened Fs

  /** A progress callback, known only by identity; Go's nil is `None`. */
  datatype Callback = Callback(id: nat)

  /** The closures the option builders return: each sets one field. */
  datatype CopyFileOption = SetFn(fn: Option<Callback>) | SetInterval(interval: int)

  /** The fields of fileCopier. The interval is a Duration in nanoseconds. */
  datatype FileCopier = FileCopier(fn: Option<Callback>, interval: int)

  /** DefaultOnCopyFileInterval, 500 ms in nanoseconds. The option
      documentation promises it when no interval option is given, but no
      code applies it: see NoIntervalOption. */
  const DefaultOnCopyFileInterval := 500_000_000

  /** `fileCopier{}`: no callback and a zero interval. */
  const NoOptions := FileCopier(None, 0)

  /** Running the closure `o` on `fc`. */
  function Apply(o: CopyFileOption, fc: FileCopier): FileCopier {
    match o
    case SetFn(fn) => fc.(fn := fn)
    case SetInterval(d) => fc.(interval := d)
  }

  /** The option that sets the callback (a nil `fn` clears it). */
  function OnCopyFile(fn: Option<Callback>): (o: CopyFileOption)
    ensures forall fc :: Apply(o, fc) == FileCopier(fn, fc.interval)
  {
    SetFn(fn)
  }

  /** The option that sets the reporting interval. */
  function OnCopyFileInterval(d: int): (o: CopyFileOption)
    ensures forall fc :: Apply(o, fc) == FileCopier(fc.fn, d)
  {
    SetInterval(d)
  }

  /** The configuration after running `options` in order on `fileCopier{}`. */
  function ApplyAll(options: seq<CopyFileOption>): FileCopier {
    if options == [] then NoOptions
    else Apply(options[|options| - 1], ApplyAll(options[..|options| - 1]))
  }

  /** The options loop of CopyFileBuffer and CopyFSFileBuffer. */
  method ApplyOptions(options: seq<CopyFileOption>) returns (fc: FileCopier)
    ensures fc == ApplyAll(options)
  {
    fc := NoOptions;
    for i := 0 to |options|
      invariant fc == ApplyAll(options[..i])
    {
      assert options[..i + 1][..i] == options[..i];
      fc := Apply(options[i], fc);
    }
    assert options[..|options|] == options;
  }

  /** The callback is the one set by the last `SetFn` option. */
  lemma {:induction false} LastCallbackWins(options: seq<CopyFileOption>, k: nat)
    requires k < |options| && options[k].SetFn?
    requires forall j :: k < j < |options| ==> !options[j].SetFn?
    ensures ApplyAll(options).fn == options[k].fn
  {
    if k < |options| - 1 {
      LastCallbackWins(options[..|options| - 1], k);
    }
  }

  /** Without a `SetFn` option there is no callback. */
  lemma {:induction false} NoCallbackOption(options: seq<CopyFileOption>)
    requires forall j :: 0 <= j < |options| ==> !options[j].SetFn?
    ensures ApplyAll(options).fn.None?
  {
    if options != [] {
      NoCallbackOption(options[..|options| - 1]);
    }
  }

  /** The interval is the one set by the last `SetInterval` option. */
  lemma {:induction false} LastIntervalWins(options: seq<CopyFileOption>, k: nat)
    requires k < |options| && options[k].SetInterval?
    requires forall j :: k < j < |options| ==> !options[j].SetInterval?
    ensures ApplyAll(options).interval == options[k].interval
  {
    if k < |options| - 1 {
      LastIntervalWins(options[..|options| - 1], k);
    }
  }

  /** Without a `SetInterval` option the interval stays zero, not
      DefaultOnCopyFileInterval. */
  lemma {:induction false} NoIntervalOption(options: seq<CopyFileOption>)
    requires forall j :: 0 <= j < |options| ==> !options[j].SetInterval?
    ensures ApplyAll(options).interval == 0
  {
    if options != [] {
      NoIntervalOption(options[..|options| - 1]);
    }
  }

  /** A progress reporter as it is started: total and previously copied
      bytes, the callback and the interval it was given. */
  datatype Reporter = Reporter(total: nat, prev: nat, fn: Callback, interval: int)

  /** The routine that moves the bytes: `CopyBuffer` with the caller's
      buffer, or `Copy` with its own. */
  datatype CopyMode = Buffered(size: nat) | Default

  /** The reporter started for `fc`, if it has a callback. */
  function StartReporter(fc: FileCopier, total: nat, prev: nat): (r: Option<Reporter>)
    ensures r.Some? <==> fc.fn.Some?
    ensures r.Some? ==> r.value == Reporter(total, prev, fc.fn.value, fc.interval)
  {
    if fc.fn.Some? then Some(Reporter(total, prev, fc.fn.value, fc.interval)) else None
  }

  /** A nil or empty buffer selects the default copy. */
  function ModeFor(buf: seq<byte>): (m: CopyMode)
    ensures m.Buffered? <==> |buf| != 0
    ensures m.Buffered? ==> m.size == |buf|
  {
    if |buf| != 0 then Buffered(|buf|) else Default
  }
}
