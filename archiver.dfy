/** The archive side of the package: Bytes (one entry from an in-memory
    buffer) and Tar (one entry from a regular file, or one entry per regular
    file of a directory walk). File-system calls are replaced by what they
    return: the os.Stat result of the source, the bytes of the single file,
    and for the walk the records filepath.Walk hands to its callback,
    in walk order. */
module Archiver {
  import opened Common
  import opened Pipeline
  import opened HeaderPolicy

  /** What Bytes returns (the count and the error), the events of the writer
      chain, the sinks afterwards, and what is left in the caller's buffer:
      io.Copy drains a bytes.Buffer through its WriteTo, which consumes the
      bytes it manages to write. */
  datatype BytesResult = BytesResult(count: nat, err: Option<Error>, trace: seq<Event>, sinks: seq<seq<byte>>,
                                     remaining: seq<byte>)

  /** Bytes(b, opt, w...): `now` and `stamp` stand for the clock reading and
      its "20060102T150405" rendering, `copy` for how io.Copy through the chain
      ends, `codec` for the gzip and tar encoders. */
  function Bytes(b: seq<byte>, opt: Option<Header>, now: Time, stamp: string,
                 copy: CopyOutcome, sinks: seq<seq<byte>>, codec: seq<Event> -> seq<byte>): (r: BytesResult)
    ensures r.err == None <==> copy == Completes
    ensures copy.FailsAfter? ==> r.err == Some(copy.err)
    ensures r.err == None ==> r.count == |b|
    ensures r.count <= |b|
    ensures b == b[..r.count] + r.remaining
    ensures r.err == None ==> r.remaining == []
    ensures Entries(r.trace) == [Entry(BytesHeader(BytesOpt(opt, now, stamp), |b|), b[..r.count])]
    ensures ClosedInOrder(r.trace)
    ensures r.sinks == Deliver(sinks, codec, r.trace)
  {
    var h := BytesHeader(BytesOpt(opt, now, stamp), |b|);
    var c := Copy(b, copy);
    assert b[..|c.data|] == c.data;
    var trace := Run(Written([Entry(h, c.data)]));
    EntriesOfRun([Entry(h, c.data)]);
    DeliverAppendsSameBytes(sinks, codec, trace);
    BytesResult(|c.data|, c.err, trace, Deliver(sinks, codec, trace), b[|c.data|..])
  }

  /** A second call on the same buffer, after a first call that completed,
      archives an empty entry: the first call drained the buffer. */
  lemma BytesDrainsBuffer(b: seq<byte>, opt: Option<Header>, now: Time, stamp: string,
                          sinks: seq<seq<byte>>, codec: seq<Event> -> seq<byte>, copy2: CopyOutcome)
    ensures var r1 := Bytes(b, opt, now, stamp, Completes, sinks, codec);
      var r2 := Bytes(r1.remaining, opt, now, stamp, copy2, r1.sinks, codec);
      r2.count == 0 && Entries(r2.trace) == [Entry(BytesHeader(BytesOpt(opt, now, stamp), 0), [])]
  {
  }

  /** What tar.FileInfoHeader returns for a walked file. */
  datatype InfoHeader = InfoHeaderOk(header: Header) | InfoHeaderFails(err: Error)

  /** One call of the walk callback: the path and FileInfo filepath.Walk
      passes, the error it passes, what FileInfoHeader returns, the error
      WriteHeader returns, the file's bytes and how copying them ends. */
  datatype WalkRecord = WalkRecord(
    path: string,
    info: FileInfo,
    walkErr: Option<Error>,
    infoHeader: InfoHeader,
    writeErr: Option<Error>,
    data: seq<byte>,
    copy: CopyOutcome)

  /** What one call of the callback does: skip the record, stop the walk with
      an error before anything is written, or emit an entry (and stop the walk
      when its copy failed, the bytes already copied staying in the stream). */
  datatype Visit = Skip | Stop(reason: Error) | Emit(entry: Entry, err: Option<Error>)

  /** The walk callback of tgz.go:134-177. */
  function VisitRecord(src: string, opt: Header, rec: WalkRecord): (r: Visit)
    ensures rec.walkErr.Some? ==> r == Stop(rec.walkErr.value)
    ensures rec.walkErr.None? && !IsRegular(rec.info.mode) ==> r == Skip
    ensures r.Emit? ==> rec.walkErr.None? && IsRegular(rec.info.mode) && rec.infoHeader.InfoHeaderOk?
    ensures r.Emit? ==> r.entry.header == WalkHeader(rec.infoHeader.header, opt, rec.path, src)
    ensures r.Emit? ==> rec.writeErr.None? && r.entry.content <= rec.data
    ensures r.Emit? ==> (r.err.None? <==> rec.copy == Completes) && (r.err.None? ==> r.entry.content == rec.data)
  {
    if rec.walkErr.Some? then Stop(rec.walkErr.value)
    else if !IsRegular(rec.info.mode) then Skip
    else match rec.infoHeader
      case InfoHeaderFails(e) => Stop(e)
      case InfoHeaderOk(base) =>
        var h := WalkHeader(base, opt, rec.path, src);
        if rec.writeErr.Some? then Stop(rec.writeErr.value)
        else
          var c := Copy(rec.data, rec.copy);
          Emit(Entry(h, c.data), c.err)
  }

  datatype WalkResult = WalkResult(entries: seq<Entry>, err: Option<Error>)

  /** The entries a walk over `recs` leaves in the stream and the error Walk
      returns: the callback's first error ends the walk. */
  function WalkSpec(src: string, opt: Header, recs: seq<WalkRecord>): WalkResult
  {
    if recs == [] then WalkResult([], None)
    else match VisitRecord(src, opt, recs[0])
      case Skip => WalkSpec(src, opt, recs[1..])
      case Stop(e) => WalkResult([], Some(e))
      case Emit(entry, None) =>
        var rest := WalkSpec(src, opt, recs[1..]);
        WalkResult([entry] + rest.entries, rest.err)
      case Emit(entry, Some(e)) => WalkResult([entry], Some(e))
  }

  function Prepend(entries: seq<Entry>, r: WalkResult): WalkResult
  {
    WalkResult(entries + r.entries, r.err)
  }

  /** filepath.Walk driving the callback over the records in walk order. */
  method Walk(src: string, opt: Header, recs: seq<WalkRecord>) returns (entries: seq<Entry>, err: Option<Error>)
    ensures WalkResult(entries, err) == WalkSpec(src, opt, recs)
  {
    entries, err := [], None;
    var i := 0;
    while i < |recs|
      invariant i <= |recs|
      invariant WalkSpec(src, opt, recs) == Prepend(entries, WalkSpec(src, opt, recs[i..]))
    {
      assert recs[i..][1..] == recs[i + 1..];
      match VisitRecord(src, opt, recs[i]) {
        case Skip =>
        case Stop(e) =>
          err := Some(e);
          return;
        case Emit(entry, x) =>
          entries := entries + [entry];
          if x.Some? {
            err := x;
            return;
          }
      }
      i := i + 1;
    }
  }

  // An independent description of the walk's outcome.

  /** The record makes the callback return an error. */
  predicate Fails(rec: WalkRecord)
  {
    rec.walkErr.Some? ||
    (IsRegular(rec.info.mode) &&
      (rec.infoHeader.InfoHeaderFails? || rec.writeErr.Some? || rec.copy.FailsAfter?))
  }

  /** That error: the walk's own, then FileInfoHeader's, then WriteHeader's,
      then the copy's. */
  function FailureOf(rec: WalkRecord): Error
    requires Fails(rec)
  {
    if rec.walkErr.Some? then rec.walkErr.value
    else if rec.infoHeader.InfoHeaderFails? then rec.infoHeader.err
    else if rec.writeErr.Some? then rec.writeErr.value
    else rec.copy.err
  }

  /** What a failing record still leaves in the stream: a header and the bytes
      copied before the copy failed, when the copy was what failed. */
  function PartialEntry(src: string, opt: Header, rec: WalkRecord): seq<Entry>
  {
    if rec.walkErr.None? && IsRegular(rec.info.mode) && rec.infoHeader.InfoHeaderOk?
       && rec.writeErr.None? && rec.copy.FailsAfter?
    then [Entry(WalkHeader(rec.infoHeader.header, opt, rec.path, src), Copy(rec.data, rec.copy).data)]
    else []
  }

  /** The entries of a walk that does not fail: one per regular record, in walk
      order, carrying the whole file's bytes. */
  function RegularEntries(src: string, opt: Header, recs: seq<WalkRecord>): (r: seq<Entry>)
    requires forall k | 0 <= k < |recs| :: !Fails(recs[k])
    ensures |r| <= |recs|
  {
    if recs == [] then []
    else
      var rec := recs[0];
      assert !Fails(rec);
      (if IsRegular(rec.info.mode)
       then [Entry(WalkHeader(rec.infoHeader.header, opt, rec.path, src), rec.data)]
       else [])
      + RegularEntries(src, opt, recs[1..])
  }

  /** A walk in which no callback fails emits exactly the regular files, in walk
      order, and returns nil. */
  lemma {:induction false} WalkCompletes(src: string, opt: Header, recs: seq<WalkRecord>)
    requires forall k | 0 <= k < |recs| :: !Fails(recs[k])
    ensures WalkSpec(src, opt, recs) == WalkResult(RegularEntries(src, opt, recs), None)
  {
    if recs != [] {
      assert !Fails(recs[0]);
      WalkCompletes(src, opt, recs[1..]);
    }
  }

  /** The first failing callback aborts the walk with its error; the regular
      files before it, and the part of its own file already copied, stay in
      the stream. */
  lemma {:induction false} WalkAborts(src: string, opt: Header, recs: seq<WalkRecord>, k: nat)
    requires k < |recs| && Fails(recs[k])
    requires forall j | 0 <= j < k :: !Fails(recs[j])
    ensures WalkSpec(src, opt, recs) ==
      WalkResult(RegularEntries(src, opt, recs[..k]) + PartialEntry(src, opt, recs[k]), Some(FailureOf(recs[k])))
  {
    if k == 0 {
      assert RegularEntries(src, opt, recs[..0]) == [];
    } else {
      assert !Fails(recs[0]);
      assert recs[1..][..k - 1] == recs[1..k];
      WalkAborts(src, opt, recs[1..], k - 1);
      assert recs[..k][1..] == recs[1..k];
    }
  }

  /** Directories and every other non-regular record are skipped without
      changing the outcome. */
  lemma {:induction false} WalkSkipsNonRegular(src: string, opt: Header, rec: WalkRecord, recs: seq<WalkRecord>)
    requires rec.walkErr.None? && !IsRegular(rec.info.mode)
    ensures WalkSpec(src, opt, [rec] + recs) == WalkSpec(src, opt, recs)
  {
  }

  /** What os.Stat returns for the source. */
  datatype StatResult = Found(info: FileInfo) | StatFails(err: Error)

  /** Tar(src, opt, w...): `stat` is os.Stat(src); `fileData` and `fileCopy`
      are the bytes of a single-file source and how copying them ends; `recs`
      are the walk's records when the source is a directory. */
  method Tar(src: string, opt: Option<Header>, stat: StatResult, fileData: seq<byte>, fileCopy: CopyOutcome,
             recs: seq<WalkRecord>, sinks: seq<seq<byte>>, codec: seq<Event> -> seq<byte>)
    returns (err: Option<Error>, trace: seq<Event>, out: seq<seq<byte>>)
    ensures stat.StatFails? ==> err == Some(stat.err) && trace == [] && out == sinks
    ensures stat.Found? ==> ClosedInOrder(trace) && out == Deliver(sinks, codec, trace) && SameBytesAppended(sinks, out)
    ensures stat.Found? && !IsDir(stat.info.mode) && !IsRegular(stat.info.mode) ==>
      err == None && Entries(trace) == []
    ensures stat.Found? && IsRegular(stat.info.mode) ==>
      Entries(trace) == [Entry(SingleFileHeader(src, stat.info, TarOpt(opt)), Copy(fileData, fileCopy).data)] &&
      err == Copy(fileData, fileCopy).err
    ensures stat.Found? && IsDir(stat.info.mode) ==>
      WalkResult(Entries(trace), err) == WalkSpec(src, TarOpt(opt), recs)
  {
    var o := TarOpt(opt);
    if stat.StatFails? {
      return Some(stat.err), [], sinks;
    }
    var info := stat.info;
    var entries: seq<Entry>;
    if !IsDir(info.mode) {
      if !IsRegular(info.mode) {
        entries, err := [], None;
      } else {
        var c := Copy(fileData, fileCopy);
        entries, err := [Entry(SingleFileHeader(src, info, o), c.data)], c.err;
      }
    } else {
      DirIsNotRegular(info.mode);
      entries, err := Walk(src, o, recs);
    }
    trace := Run(Written(entries));
    EntriesOfRun(entries);
    out := Deliver(sinks, codec, trace);
    DeliverAppendsSameBytes(sinks, codec, trace);
  }
}
