/** The extract side of the package: Untar reads (header, error) results from
    a tar reader one at a time and materialises directories and regular files
    under a destination. The file system is a map from path to node; the
    reader is the sequence of what its Next calls return, and once that
    sequence is used up Next keeps returning (nil, io.EOF), as Go's
    tar.Reader does at the end of an archive. */
module Extractor {
  import opened Common
  import opened Paths

  datatype Node = Dir | File(data: seq<byte>)

  type FileSystem = map<string, Node>

  /** Every file and directory sits in a directory that exists (the working
      directory and the root always do). */
  ghost predicate WellFormed(fs: FileSystem)
  {
    forall p | p in fs :: Parent(p).Some? ==> Parent(p).value in fs && fs[Parent(p).value].Dir?
  }

  /** Nothing is deleted, files stay files' keys and directories stay
      directories. */
  ghost predicate Grows(fs: FileSystem, fs': FileSystem)
  {
    forall p | p in fs :: p in fs' && (fs[p].Dir? ==> fs'[p].Dir?) && (fs[p].File? ==> fs'[p].File?)
  }

  datatype FsResult = FsOk(fs: FileSystem) | FsFails(err: Error)

  /** os.MkdirAll: a path that is already a directory is fine, one that is a
      file is not; otherwise its parent is made first, then the path itself.
      An ancestor that is a file makes the call fail before anything is created. */
  function MkdirAll(fs: FileSystem, p: string): (r: FsResult)
    ensures r.FsOk? ==> p in r.fs && r.fs[p] == Dir
    ensures p in fs && fs[p].Dir? ==> r == FsOk(fs)
    ensures r.FsFails? <==> ResolveDir(fs, Some(p)) == Some(ErrNotDir) || (p == [] && p !in fs)
    ensures r.FsFails? ==> r.err == if p == [] && p !in fs then ErrNotExist else ErrNotDir
    decreases |p|
  {
    if p in fs then (if fs[p].Dir? then FsOk(fs) else FsFails(ErrNotDir))
    else if p == [] then FsFails(ErrNotExist)
    else match Parent(p)
      case None => FsOk(fs[p := Dir])
      case Some(d) =>
        match MkdirAll(fs, d)
        case FsFails(e) => FsFails(e)
        case FsOk(fs1) => FsOk(fs1[p := Dir])
  }

  /** A successful MkdirAll leaves `p` a directory, keeps every existing entry
      as it was, adds nothing but directories, and keeps the tree well formed. */
  lemma {:induction false} MkdirAllMakesDirectory(fs: FileSystem, p: string)
    requires MkdirAll(fs, p).FsOk?
    ensures p in MkdirAll(fs, p).fs && MkdirAll(fs, p).fs[p] == Dir
    ensures forall q | q in fs :: q in MkdirAll(fs, p).fs && MkdirAll(fs, p).fs[q] == fs[q]
    ensures forall q | q in MkdirAll(fs, p).fs && q !in fs :: MkdirAll(fs, p).fs[q] == Dir
    ensures WellFormed(fs) ==> WellFormed(MkdirAll(fs, p).fs)
    decreases |p|
  {
    if p !in fs {
      match Parent(p)
      case None =>
      case Some(d) =>
        MkdirAllMakesDirectory(fs, d);
    }
  }

  /** Where the directory `d` stands: `None` when it exists as a directory;
      otherwise the error a system call naming a path inside it reports. */
  function ResolveDir(fs: FileSystem, d: Option<string>): (r: Option<Error>)
    ensures r.None? <==> d.None? || (d.value in fs && fs[d.value].Dir?)
    decreases if d.Some? then |d.value| else 0
  {
    match d
    case None => None
    case Some(q) =>
      if q in fs then (if fs[q].Dir? then None else Some(ErrNotDir))
      else if q == [] then Some(ErrNotExist)
      else if ResolveDir(fs, Parent(q)) == Some(ErrNotDir) then Some(ErrNotDir)
      else Some(ErrNotExist)
  }

  datatype OpenResult = Opened(current: seq<byte>) | OpenFails(err: Error)

  /** os.OpenFile(p, O_CREATE|O_WRONLY): an existing file is opened as it is,
      without truncation; a missing one is created empty in an existing
      directory; a directory cannot be opened for writing. */
  function OpenForWrite(fs: FileSystem, p: string): (r: OpenResult)
    ensures p in fs && fs[p].File? ==> r == Opened(fs[p].data)
    ensures p in fs && fs[p].Dir? ==> r == OpenFails(ErrIsDir)
    ensures p !in fs && p != [] ==> (r.Opened? <==> ResolveDir(fs, Parent(p)).None?)
    ensures p !in fs && r.Opened? ==> r.current == []
    ensures p !in fs && p != [] && ResolveDir(fs, Parent(p)).Some? ==> r == OpenFails(ResolveDir(fs, Parent(p)).value)
    ensures p == [] && p !in fs ==> r == OpenFails(ErrNotExist)
  {
    if p in fs then
      match fs[p]
      case Dir => OpenFails(ErrIsDir)
      case File(data) => Opened(data)
    else if p == [] then OpenFails(ErrNotExist)
    else match ResolveDir(fs, Parent(p))
      case None => Opened([])
      case Some(e) => OpenFails(e)
  }

  /** The bytes of the file at `p`, or none when there is no file there. */
  function Content(fs: FileSystem, p: string): seq<byte>
  {
    if p in fs && fs[p].File? then fs[p].data else []
  }

  /** Writing `data` from offset 0 into a file that was not truncated: the new
      bytes, then whatever of the old content lies beyond them. */
  function Overwrite(current: seq<byte>, data: seq<byte>): (r: seq<byte>)
    ensures |r| == if |current| > |data| then |current| else |data|
    ensures r[..|data|] == data
    ensures |current| > |data| ==> r[|data|..] == current[|data|..]
  {
    if |data| >= |current| then data else data + current[|data|..]
  }

  /** What one call of tr.Next() returns: a header or nil, an error or nil,
      and for a regular file the bytes io.Copy reads of its content and the
      error that copy ends with. */
  datatype NextResult = NextResult(header: Option<Header>, err: Option<Error>, body: seq<byte>, bodyErr: Option<Error>)

  /** What Next returns once the archive is used up. */
  const EndOfStream: NextResult := NextResult(None, Some(EOF), [], None)

  function NextAt(rs: seq<NextResult>, i: nat): NextResult
  {
    if i < |rs| then rs[i] else EndOfStream
  }

  /** How one turn of the loop ends: with the next turn, or with a return. */
  datatype StepResult = Continue(fs: FileSystem) | Return(fs: FileSystem, err: Option<Error>)

  /** The per-entry dispatch of tgz.go:206-227. */
  function Extract(dst: string, fs: FileSystem, h: Header, body: seq<byte>, bodyErr: Option<Error>): (r: StepResult)
    ensures r.Return? ==> r.err.Some?
    ensures h.typeflag != TypeDir && h.typeflag != TypeReg ==> r == Continue(fs)
    ensures h.typeflag == TypeDir && Join(dst, h.name) in fs ==> r == Continue(fs)
    ensures h.typeflag == TypeDir && r.Return? ==> r.fs == fs
    ensures h.typeflag == TypeReg && r.Continue? ==>
      var t := Join(dst, h.name);
      bodyErr.None? && r.fs == fs[t := File(Overwrite(Content(fs, t), body))]
    ensures h.typeflag == TypeReg && r.Return? && r.fs != fs ==>
      var t := Join(dst, h.name);
      r.err == bodyErr && r.fs == fs[t := File(Overwrite(Content(fs, t), body))]
    ensures h.typeflag == TypeDir && Join(dst, h.name) !in fs ==>
      var m := MkdirAll(fs, Join(dst, h.name));
      (m.FsOk? ==> r == Continue(m.fs)) && (m.FsFails? ==> r == Return(fs, Some(m.err)))
    ensures h.typeflag == TypeReg && OpenForWrite(fs, Join(dst, h.name)).OpenFails? ==>
      r == Return(fs, Some(OpenForWrite(fs, Join(dst, h.name)).err))
    ensures h.typeflag == TypeReg && OpenForWrite(fs, Join(dst, h.name)).Opened? ==>
      var t := Join(dst, h.name);
      r.fs == fs[t := File(Overwrite(OpenForWrite(fs, t).current, body))] &&
      (r.Continue? <==> bodyErr.None?) && (r.Return? ==> r.err == bodyErr)
  {
    var target := Join(dst, h.name);
    if h.typeflag == TypeDir then
      if target in fs then Continue(fs)
      else match MkdirAll(fs, target)
        case FsOk(fs1) => Continue(fs1)
        case FsFails(e) => Return(fs, Some(e))
    else if h.typeflag == TypeReg then
      match OpenForWrite(fs, target)
      case OpenFails(e) => Return(fs, Some(e))
      case Opened(current) =>
        var fs1 := fs[target := File(Overwrite(current, body))];
        if bodyErr.Some? then Return(fs1, bodyErr) else Continue(fs1)
    else Continue(fs)
  }

  /** A regular entry whose target is an existing file is written over it
      from offset 0: the new bytes, then the old tail beyond them. */
  lemma ExtractOverwritesExistingFile(dst: string, fs: FileSystem, h: Header, body: seq<byte>)
    requires h.typeflag == TypeReg && Join(dst, h.name) in fs && fs[Join(dst, h.name)].File?
    ensures var t := Join(dst, h.name);
      Extract(dst, fs, h, body, None) == Continue(fs[t := File(Overwrite(fs[t].data, body))])
  {
  }

  /** A directory entry whose target is absent under an existing directory
      makes the directory. */
  lemma ExtractMakesDirectory(dst: string, fs: FileSystem, h: Header, body: seq<byte>, bodyErr: Option<Error>)
    requires h.typeflag == TypeDir && Join(dst, h.name) !in fs && Join(dst, h.name) != []
    requires ResolveDir(fs, Parent(Join(dst, h.name))).None?
    ensures var r := Extract(dst, fs, h, body, bodyErr);
      r.Continue? && Join(dst, h.name) in r.fs && r.fs[Join(dst, h.name)] == Dir
  {
  }

  /** One turn of the loop of tgz.go:192-204 as written: a nil header is tested
      first, then io.EOF, then any other error. */
  function Step(dst: string, fs: FileSystem, res: NextResult): (r: StepResult)
    ensures res.header.None? ==> r == Continue(fs)
    ensures res.header.Some? && res.err == Some(EOF) ==> r == Return(fs, None)
    ensures res.header.Some? && res.err.Some? && res.err != Some(EOF) ==> r == Return(fs, res.err)
    ensures res.header.Some? && res.err.None? ==> r == Extract(dst, fs, res.header.value, res.body, res.bodyErr)
  {
    if res.header.None? then Continue(fs)
    else if res.err == Some(EOF) then Return(fs, None)
    else if res.err.Some? then Return(fs, res.err)
    else Extract(dst, fs, res.header.value, res.body, res.bodyErr)
  }

  lemma ExtractKeepsTree(dst: string, fs: FileSystem, h: Header, body: seq<byte>, bodyErr: Option<Error>)
    requires WellFormed(fs)
    ensures WellFormed(Extract(dst, fs, h, body, bodyErr).fs)
    ensures Grows(fs, Extract(dst, fs, h, body, bodyErr).fs)
  {
    var target := Join(dst, h.name);
    if h.typeflag == TypeDir && target !in fs && MkdirAll(fs, target).FsOk? {
      MkdirAllMakesDirectory(fs, target);
    }
  }

  datatype Outcome = Returned(err: Option<Error>) | StillRunning

  datatype UntarResult = UntarResult(fs: FileSystem, outcome: Outcome)

  /** At most `fuel` turns of the as-written loop, starting at the `i`th call
      of Next. */
  function RunFrom(dst: string, rs: seq<NextResult>, i: nat, fs: FileSystem, fuel: nat): UntarResult
    decreases fuel
  {
    if fuel == 0 then UntarResult(fs, StillRunning)
    else match Step(dst, fs, NextAt(rs, i))
      case Continue(fs1) => RunFrom(dst, rs, i + 1, fs1, fuel - 1)
      case Return(fs1, e) => UntarResult(fs1, Returned(e))
  }

  /** Untar(dst, r) as written. `gzipErr` is what gzip.NewReader returns;
      `rs` are the results of tr.Next(); the loop has no bound of its own, so
      the model runs at most `fuel` turns and reports StillRunning after that. */
  method Untar(dst: string, gzipErr: Option<Error>, rs: seq<NextResult>, fs0: FileSystem, fuel: nat)
    returns (fs: FileSystem, outcome: Outcome)
    ensures gzipErr.Some? ==> fs == fs0 && outcome == Returned(gzipErr)
    ensures gzipErr.None? ==> UntarResult(fs, outcome) == RunFrom(dst, rs, 0, fs0, fuel)
  {
    fs := fs0;
    if gzipErr.Some? {
      return fs, Returned(gzipErr);
    }
    var i := 0;
    while i < fuel
      invariant i <= fuel
      invariant RunFrom(dst, rs, 0, fs0, fuel) == RunFrom(dst, rs, i, fs, fuel - i)
    {
      match Step(dst, fs, NextAt(rs, i)) {
        case Continue(fs1) =>
          fs := fs1;
        case Return(fs1, e) =>
          return fs1, Returned(e);
      }
      i := i + 1;
    }
    outcome := StillRunning;
  }

  /** Untar never deletes anything and keeps the tree well formed, whether it
      returns or is still running. */
  lemma StepKeepsTree(dst: string, fs: FileSystem, res: NextResult)
    requires WellFormed(fs)
    ensures WellFormed(Step(dst, fs, res).fs) && Grows(fs, Step(dst, fs, res).fs)
    ensures WellFormed(FixedStep(dst, fs, res).fs) && Grows(fs, FixedStep(dst, fs, res).fs)
  {
    if res.header.Some? && res.err.None? {
      ExtractKeepsTree(dst, fs, res.header.value, res.body, res.bodyErr);
    }
  }

  lemma GrowsTransitive(a: FileSystem, b: FileSystem, c: FileSystem)
    requires Grows(a, b) && Grows(b, c)
    ensures Grows(a, c)
  {
  }

  /** Untar never deletes anything and keeps the tree well formed, whether it
      returns or is still running. */
  lemma {:induction false} UntarKeepsTree(dst: string, rs: seq<NextResult>, i: nat, fs: FileSystem, fuel: nat)
    requires WellFormed(fs)
    ensures WellFormed(RunFrom(dst, rs, i, fs, fuel).fs)
    ensures Grows(fs, RunFrom(dst, rs, i, fs, fuel).fs)
    decreases fuel
  {
    if fuel > 0 {
      var step := Step(dst, fs, NextAt(rs, i));
      StepKeepsTree(dst, fs, NextAt(rs, i));
      if step.Continue? {
        UntarKeepsTree(dst, rs, i + 1, step.fs, fuel - 1);
        GrowsTransitive(fs, step.fs, RunFrom(dst, rs, i + 1, step.fs, fuel - 1).fs);
      }
    }
  }

  /** Under the default GODEBUG setting (tarinsecurepath=1), tar.Reader.Next
      returns a header or an error, never both and never neither; its end of
      archive is (nil, io.EOF). */
  predicate FromTarReader(rs: seq<NextResult>)
  {
    forall k | 0 <= k < |rs| :: rs[k].header.None? <==> rs[k].err.Some?
  }

  /** As written, Untar never returns nil on what a tar reader produces: every
      error of Next, io.EOF included, comes with a nil header, which the first
      case of the switch skips. */
  lemma {:induction false} UntarNeverSucceeds(dst: string, rs: seq<NextResult>, i: nat, fs: FileSystem, fuel: nat)
    requires FromTarReader(rs)
    ensures RunFrom(dst, rs, i, fs, fuel).outcome != Returned(None)
    decreases fuel
  {
    if fuel > 0 {
      var res := NextAt(rs, i);
      if i < |rs| {
        assert res.header.None? <==> res.err.Some?;
      }
      match Step(dst, fs, res)
      case Continue(fs1) =>
        UntarNeverSucceeds(dst, rs, i + 1, fs1, fuel - 1);
      case Return(_, _) =>
    }
  }

  /** Once the archive is used up, the as-written loop only spins: however many
      more turns it gets, it changes nothing and does not return. */
  lemma {:induction false} UntarSpinsAtEnd(dst: string, rs: seq<NextResult>, i: nat, fs: FileSystem, fuel: nat)
    requires i >= |rs|
    ensures RunFrom(dst, rs, i, fs, fuel) == UntarResult(fs, StillRunning)
    decreases fuel
  {
    if fuel > 0 {
      UntarSpinsAtEnd(dst, rs, i + 1, fs, fuel - 1);
    }
  }

  /** One turn of the loop with the switch in the evidently intended order:
      io.EOF first, then any other error, then a nil header. */
  function FixedStep(dst: string, fs: FileSystem, res: NextResult): (r: StepResult)
    ensures res.err == Some(EOF) ==> r == Return(fs, None)
    ensures res.err.Some? && res.err != Some(EOF) ==> r == Return(fs, res.err)
    ensures res.err.None? && res.header.None? ==> r == Continue(fs)
    ensures res.err.None? && res.header.Some? ==> r == Extract(dst, fs, res.header.value, res.body, res.bodyErr)
  {
    if res.err == Some(EOF) then Return(fs, None)
    else if res.err.Some? then Return(fs, res.err)
    else if res.header.None? then Continue(fs)
    else Extract(dst, fs, res.header.value, res.body, res.bodyErr)
  }

  /** The corrected loop from the `i`th call of Next: past the end of `rs`
      Next returns io.EOF, so the loop returns nil there. */
  function RunFixed(dst: string, rs: seq<NextResult>, i: nat, fs: FileSystem): UntarResult
    decreases |rs| - i
  {
    if i >= |rs| then UntarResult(fs, Returned(None))
    else match FixedStep(dst, fs, rs[i])
      case Continue(fs1) => RunFixed(dst, rs, i + 1, fs1)
      case Return(fs1, e) => UntarResult(fs1, Returned(e))
  }

  /** Untar with the corrected switch; it always returns. */
  method UntarFixed(dst: string, gzipErr: Option<Error>, rs: seq<NextResult>, fs0: FileSystem)
    returns (fs: FileSystem, err: Option<Error>)
    ensures gzipErr.Some? ==> fs == fs0 && err == gzipErr
    ensures gzipErr.None? ==> UntarResult(fs, Returned(err)) == RunFixed(dst, rs, 0, fs0)
  {
    fs := fs0;
    if gzipErr.Some? {
      return fs, gzipErr;
    }
    var i := 0;
    while i < |rs|
      invariant i <= |rs|
      invariant RunFixed(dst, rs, 0, fs0) == RunFixed(dst, rs, i, fs)
    {
      match FixedStep(dst, fs, rs[i]) {
        case Continue(fs1) =>
          fs := fs1;
        case Return(fs1, e) =>
          return fs1, e;
      }
      i := i + 1;
    }
    err := None;
  }

  /** No Next call fails before the end of the archive. */
  predicate NoReadErrors(rs: seq<NextResult>)
  {
    forall k | 0 <= k < |rs| :: rs[k].err.None?
  }

  /** On an archive whose reads do not fail, the corrected loop does exactly
      what the as-written loop does to the file system; the only difference
      is at the end, where the fix returns nil and the original keeps
      calling Next. */
  lemma {:induction false} FixedAgreesBeforeEnd(dst: string, rs: seq<NextResult>, i: nat, fs: FileSystem)
    requires NoReadErrors(rs) && i <= |rs|
    ensures RunFrom(dst, rs, i, fs, |rs| - i) ==
      (var f := RunFixed(dst, rs, i, fs);
       if f.outcome == Returned(None) then UntarResult(f.fs, StillRunning) else f)
    decreases |rs| - i
  {
    if i < |rs| {
      assert rs[i].err.None?;
      FixedAgreesBeforeEnd(dst, rs, i + 1, match Step(dst, fs, rs[i]) case Continue(fs1) => fs1 case Return(fs1, _) => fs1);
    }
  }

  /** The corrected loop keeps the tree well formed and deletes nothing. */
  lemma {:induction false} UntarFixedKeepsTree(dst: string, rs: seq<NextResult>, i: nat, fs: FileSystem)
    requires WellFormed(fs)
    ensures WellFormed(RunFixed(dst, rs, i, fs).fs)
    ensures Grows(fs, RunFixed(dst, rs, i, fs).fs)
    decreases |rs| - i
  {
    if i < |rs| {
      var step := FixedStep(dst, fs, rs[i]);
      StepKeepsTree(dst, fs, rs[i]);
      if step.Continue? {
        UntarFixedKeepsTree(dst, rs, i + 1, step.fs);
        GrowsTransitive(fs, step.fs, RunFixed(dst, rs, i + 1, step.fs).fs);
      }
    }
  }
}
