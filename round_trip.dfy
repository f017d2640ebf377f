/** Archive then extract. The tar and gzip codecs stay abstract: reading back
    an archive yields the entries that were written, one per Next call with
    no error, with a zero type flag read as a regular file (or as a
    directory when the name ends in a separator) and the times the writer
    keeps, as Go's tar reader does. */
module RoundTrip {
  import opened Common
  import opened Paths
  import opened Pipeline
  import opened HeaderPolicy
  import opened Archiver
  import opened Extractor

  /** The type flag a tar reader reports for a written header. */
  function ReadType(h: Header): (r: byte)
    ensures r != TypeRegA
    ensures h.typeflag != TypeRegA ==> r == h.typeflag
    ensures h.typeflag == TypeRegA ==> (r == TypeDir <==> h.name != [] && h.name[|h.name| - 1] == Sep)
    ensures h.typeflag == TypeRegA ==> (r == TypeReg || r == TypeDir)
  {
    if h.typeflag == TypeRegA then
      (if h.name != [] && h.name[|h.name| - 1] == Sep then TypeDir else TypeReg)
    else h.typeflag
  }

  /** The Unix epoch, counted from Go's zero time. */
  const UnixEpoch: Time := 62_135_596_800 * Second

  /** The header a tar reader reports for a written one. Every header here
      leaves Format unset, so the writer rounds the modification time to the
      second, drops the access and change times, and writes a zero
      modification time as the Unix epoch. */
  function ReadHeader(h: Header): (r: Header)
    ensures r.name == h.name && r.size == h.size && r.mode == h.mode
    ensures r.uname == h.uname && r.gname == h.gname
    ensures r.typeflag == ReadType(h)
    ensures r.accessTime == 0 && r.changeTime == 0
    ensures r.modTime % Second == 0
    ensures IsZero(h.modTime) ==> r.modTime == UnixEpoch
    ensures !IsZero(h.modTime) ==> h.modTime - Second / 2 < r.modTime <= h.modTime + Second / 2
  {
    var m := if IsZero(h.modTime) then UnixEpoch else RoundToSecond(h.modTime);
    h.(typeflag := ReadType(h), modTime := m, accessTime := 0, changeTime := 0)
  }

  /** The Next results of reading back an archive of `entries`. */
  function ReadBack(entries: seq<Entry>): (rs: seq<NextResult>)
    ensures |rs| == |entries|
    ensures FromTarReader(rs) && NoReadErrors(rs)
    ensures forall k | 0 <= k < |rs| ::
      rs[k] == NextResult(Some(ReadHeader(entries[k].header)), None, entries[k].content, None)
  {
    if entries == [] then []
    else
      var e := entries[0];
      [NextResult(Some(ReadHeader(e.header)), None, e.content, None)] + ReadBack(entries[1..])
  }

  /** The name the buffer's entry gets and the directory it is extracted into
      make a plain child path that does not exist yet. */
  predicate FreshTarget(dst: string, name: string, fs: FileSystem)
  {
    name != [] && Sep !in name &&
    dst != [] && dst[|dst| - 1] != Sep && dst in fs && fs[dst] == Dir &&
    dst + [Sep] + name !in fs
  }

  /** Extracting what Bytes wrote, with the corrected loop, creates exactly one
      regular file, named by the header, holding the buffer, and returns nil. */
  lemma BytesThenUntarFixed(b: seq<byte>, opt: Option<Header>, now: Time, stamp: string,
                            sinks: seq<seq<byte>>, codec: seq<Event> -> seq<byte>, dst: string, fs: FileSystem)
    requires FreshTarget(dst, BytesOpt(opt, now, stamp).name, fs)
    ensures var r := Bytes(b, opt, now, stamp, Completes, sinks, codec);
      RunFixed(dst, ReadBack(Entries(r.trace)), 0, fs) ==
        UntarResult(fs[dst + [Sep] + BytesOpt(opt, now, stamp).name := File(b)], Returned(None))
  {
    var name := BytesOpt(opt, now, stamp).name;
    var r := Bytes(b, opt, now, stamp, Completes, sinks, codec);
    var rs := ReadBack(Entries(r.trace));
    assert b[..|b|] == b;
    ParentOfJoin(dst, name);
    assert name[|name| - 1] != Sep by { assert name[|name| - 1] in name; }
    var t := dst + [Sep] + name;
    assert OpenForWrite(fs, t) == OpenResult.Opened([]);
    assert FixedStep(dst, fs, rs[0]) == Continue(fs[t := File(b)]);
  }

  /** Into an empty destination directory: afterwards it holds that one file
      and nothing else. */
  lemma BytesIntoEmptyDirectory(b: seq<byte>, opt: Option<Header>, now: Time, stamp: string,
                                sinks: seq<seq<byte>>, codec: seq<Event> -> seq<byte>, dst: string)
    requires BytesOpt(opt, now, stamp).name != [] && Sep !in BytesOpt(opt, now, stamp).name
    requires dst != [] && dst[|dst| - 1] != Sep
    ensures var r := Bytes(b, opt, now, stamp, Completes, sinks, codec);
      var t := dst + [Sep] + BytesOpt(opt, now, stamp).name;
      RunFixed(dst, ReadBack(Entries(r.trace)), 0, map[dst := Dir]) ==
        UntarResult(map[dst := Dir, t := File(b)], Returned(None))
  {
    var name := BytesOpt(opt, now, stamp).name;
    assert |dst + [Sep] + name| > |dst|;
    BytesThenUntarFixed(b, opt, now, stamp, sinks, codec, dst, map[dst := Dir]);
  }

  /** As written, Untar writes that file on its first turn and then never
      returns, however many turns it is given. */
  lemma BytesThenUntarSpins(b: seq<byte>, opt: Option<Header>, now: Time, stamp: string,
                            sinks: seq<seq<byte>>, codec: seq<Event> -> seq<byte>, dst: string, fs: FileSystem, fuel: nat)
    requires FreshTarget(dst, BytesOpt(opt, now, stamp).name, fs)
    requires fuel >= 1
    ensures var r := Bytes(b, opt, now, stamp, Completes, sinks, codec);
      RunFrom(dst, ReadBack(Entries(r.trace)), 0, fs, fuel) ==
        UntarResult(fs[dst + [Sep] + BytesOpt(opt, now, stamp).name := File(b)], StillRunning)
  {
    var r := Bytes(b, opt, now, stamp, Completes, sinks, codec);
    var rs := ReadBack(Entries(r.trace));
    BytesThenUntarFixed(b, opt, now, stamp, sinks, codec, dst, fs);
    FixedAgreesBeforeEnd(dst, rs, 0, fs);
    var fs1 := fs[dst + [Sep] + BytesOpt(opt, now, stamp).name := File(b)];
    UntarSpinsAtEnd(dst, rs, 1, fs1, fuel - 1);
  }

  /** Extracting entries one by one: each regular file written in full at its
      target under `dst`. */
  function Place(fs: FileSystem, dst: string, es: seq<Entry>): FileSystem
    decreases |es|
  {
    if es == [] then fs
    else Place(fs[dst + [Sep] + es[0].header.name := File(es[0].content)], dst, es[1..])
  }

  predicate PlainName(name: string)
  {
    name != [] && Sep !in name
  }

  /** Distinct names in a directory give distinct targets. */
  lemma ChildrenDiffer(dst: string, a: string, b: string)
    requires a != b
    ensures dst + [Sep] + a != dst + [Sep] + b
  {
    assert (dst + [Sep] + a)[|dst| + 1..] == a;
    assert (dst + [Sep] + b)[|dst| + 1..] == b;
  }

  predicate DistinctNames(es: seq<Entry>)
  {
    forall j, k | 0 <= j < k < |es| :: es[j].header.name != es[k].header.name
  }

  /** Entries a fresh extraction can take: regular files with distinct plain
      names whose targets do not exist yet, into an existing directory. */
  predicate Extractable(dst: string, es: seq<Entry>, fs: FileSystem)
  {
    dst != [] && dst[|dst| - 1] != Sep && dst in fs && fs[dst] == Dir &&
    (forall k | 0 <= k < |es| ::
       es[k].header.typeflag == TypeReg && PlainName(es[k].header.name) &&
       dst + [Sep] + es[k].header.name !in fs) &&
    DistinctNames(es)
  }

  /** One regular entry with a plain name whose target does not exist is
      created, in full, in the existing destination. */
  lemma ExtractOneFile(dst: string, fs: FileSystem, e: Entry)
    requires dst != [] && dst[|dst| - 1] != Sep && dst in fs && fs[dst] == Dir
    requires e.header.typeflag == TypeReg && PlainName(e.header.name) && dst + [Sep] + e.header.name !in fs
    ensures FixedStep(dst, fs, NextResult(Some(e.header.(typeflag := ReadType(e.header))), None, e.content, None))
      == Continue(fs[dst + [Sep] + e.header.name := File(e.content)])
  {
    ParentOfJoin(dst, e.header.name);
  }

  /** Extracting the first entry leaves the rest extractable. */
  lemma ExtractableRest(dst: string, es: seq<Entry>, fs: FileSystem)
    requires es != [] && Extractable(dst, es, fs)
    ensures Extractable(dst, es[1..], fs[dst + [Sep] + es[0].header.name := File(es[0].content)])
  {
    var t := dst + [Sep] + es[0].header.name;
    var rest := es[1..];
    forall k | 0 <= k < |rest| ensures dst + [Sep] + rest[k].header.name != t {
      assert rest[k] == es[k + 1];
      ChildrenDiffer(dst, rest[k].header.name, es[0].header.name);
    }
    forall j, k | 0 <= j < k < |rest| ensures rest[j].header.name != rest[k].header.name {
      assert rest[j] == es[j + 1] && rest[k] == es[k + 1];
    }
    assert |t| > |dst|;
  }

  /** The corrected loop extracts such entries, in order, and returns nil. */
  lemma {:induction false} UntarFixedPlacesFiles(dst: string, es: seq<Entry>, i: nat, fs: FileSystem)
    requires i <= |es| && Extractable(dst, es[i..], fs)
    ensures RunFixed(dst, ReadBack(es), i, fs) == UntarResult(Place(fs, dst, es[i..]), Returned(None))
    decreases |es| - i
  {
    if i < |es| {
      var e := es[i];
      assert e == es[i..][0];
      ExtractOneFile(dst, fs, e);
      ExtractableRest(dst, es[i..], fs);
      assert es[i..][1..] == es[i + 1..];
      UntarFixedPlacesFiles(dst, es, i + 1, fs[dst + [Sep] + e.header.name := File(e.content)]);
    }
  }

  /** What extraction leaves behind: each entry's bytes at its own target and,
      everywhere else, what was there before. */
  lemma {:induction false} PlaceContents(fs: FileSystem, dst: string, es: seq<Entry>)
    requires DistinctNames(es)
    ensures forall k | 0 <= k < |es| ::
      dst + [Sep] + es[k].header.name in Place(fs, dst, es) &&
      Place(fs, dst, es)[dst + [Sep] + es[k].header.name] == File(es[k].content)
    ensures forall p | p in fs && (forall k | 0 <= k < |es| :: p != dst + [Sep] + es[k].header.name) ::
      p in Place(fs, dst, es) && Place(fs, dst, es)[p] == fs[p]
    decreases |es|
  {
    if es != [] {
      var t := dst + [Sep] + es[0].header.name;
      var fs1 := fs[t := File(es[0].content)];
      assert forall k | 0 <= k < |es[1..]| :: es[1..][k] == es[k + 1];
      PlaceContents(fs1, dst, es[1..]);
      forall k | 1 <= k < |es| ensures dst + [Sep] + es[k].header.name != t {
        ChildrenDiffer(dst, es[k].header.name, es[0].header.name);
      }
    }
  }

  /** Extraction adds nothing but the entries' targets. */
  lemma {:induction false} PlaceAddsOnlyTargets(fs: FileSystem, dst: string, es: seq<Entry>)
    ensures forall p | p in Place(fs, dst, es) && p !in fs ::
      exists k | 0 <= k < |es| :: p == dst + [Sep] + es[k].header.name
    decreases |es|
  {
    if es != [] {
      var t := dst + [Sep] + es[0].header.name;
      var fs1 := fs[t := File(es[0].content)];
      PlaceAddsOnlyTargets(fs1, dst, es[1..]);
      forall p | p in Place(fs, dst, es) && p !in fs
        ensures exists k | 0 <= k < |es| :: p == dst + [Sep] + es[k].header.name
      {
        if p == t {
          assert p == dst + [Sep] + es[0].header.name;
        } else {
          assert Place(fs, dst, es) == Place(fs1, dst, es[1..]) && p !in fs1;
          var k :| 0 <= k < |es[1..]| && p == dst + [Sep] + es[1..][k].header.name;
          assert p == dst + [Sep] + es[k + 1].header.name;
        }
      }
    }
  }

  /** The regular records of a walk, in walk order. */
  function Regulars(recs: seq<WalkRecord>): (r: seq<WalkRecord>)
    ensures forall x | x in r :: x in recs && IsRegular(x.info.mode)
  {
    if recs == [] then []
    else (if IsRegular(recs[0].info.mode) then [recs[0]] else []) + Regulars(recs[1..])
  }

  /** The filter keeps every regular record. */
  lemma {:induction false} RegularsMembers(recs: seq<WalkRecord>)
    ensures forall x | x in recs && IsRegular(x.info.mode) :: x in Regulars(recs)
  {
    if recs != [] {
      RegularsMembers(recs[1..]);
      assert forall x | x in recs :: x == recs[0] || x in recs[1..];
    }
  }

  predicate DistinctPaths(recs: seq<WalkRecord>)
  {
    forall j, k | 0 <= j < k < |recs| :: recs[j].path != recs[k].path
  }

  lemma {:induction false} RegularsDistinct(recs: seq<WalkRecord>)
    requires DistinctPaths(recs)
    ensures DistinctPaths(Regulars(recs))
  {
    if recs != [] {
      var rest := recs[1..];
      assert DistinctPaths(rest) by {
        forall j, k | 0 <= j < k < |rest| ensures rest[j].path != rest[k].path {
          assert rest[j] == recs[j + 1] && rest[k] == recs[k + 1];
        }
      }
      RegularsDistinct(rest);
      if IsRegular(recs[0].info.mode) {
        var r := Regulars(recs);
        var tail := Regulars(rest);
        assert r == [recs[0]] + tail;
        forall j, k | 0 <= j < k < |r| ensures r[j].path != r[k].path {
          if j == 0 {
            assert r[k] == tail[k - 1] && r[k] in rest;
            var m :| 0 <= m < |rest| && rest[m] == r[k];
            assert recs[m + 1] == r[k];
          } else {
            assert r[j] == tail[j - 1] && r[k] == tail[k - 1];
          }
        }
      }
    }
  }

  /** The entries of a walk that does not fail are those of its regular
      records, one for one. */
  lemma {:induction false} RegularEntriesOfRegulars(src: string, opt: Header, recs: seq<WalkRecord>)
    requires forall k | 0 <= k < |recs| :: !Fails(recs[k])
    ensures |RegularEntries(src, opt, recs)| == |Regulars(recs)|
    ensures forall k | 0 <= k < |Regulars(recs)| ::
      RegularEntries(src, opt, recs)[k] ==
        Entry(WalkHeader(Regulars(recs)[k].infoHeader.header, opt, Regulars(recs)[k].path, src), Regulars(recs)[k].data)
  {
    if recs != [] {
      var rest := recs[1..];
      assert forall k | 0 <= k < |rest| :: rest[k] == recs[k + 1];
      RegularEntriesOfRegulars(src, opt, rest);
      assert !Fails(recs[0]);
      var es, rr := RegularEntries(src, opt, recs), Regulars(recs);
      var es', rr' := RegularEntries(src, opt, rest), Regulars(rest);
      if IsRegular(recs[0].info.mode) {
        assert es == [Entry(WalkHeader(recs[0].infoHeader.header, opt, recs[0].path, src), recs[0].data)] + es';
        assert rr == [recs[0]] + rr';
        forall k | 1 <= k < |rr| ensures es[k] == Entry(WalkHeader(rr[k].infoHeader.header, opt, rr[k].path, src), rr[k].data) {
          assert es[k] == es'[k - 1] && rr[k] == rr'[k - 1];
        }
      } else {
        assert es == es' && rr == rr';
      }
    }
  }

  /** A walked file that sits directly under the walk root and whose relative
      name holds no further occurrence of the root. */
  predicate FlatChild(src: string, rec: WalkRecord)
  {
    |rec.path| > |src| + 1 && rec.path[..|src| + 1] == src + [Sep] &&
    PlainName(rec.path[|src| + 1..]) && !Contains([Sep] + rec.path[|src| + 1..], src)
  }

  /** Where a flat child is extracted to. */
  function FlatTarget(src: string, dst: string, rec: WalkRecord): string
    requires FlatChild(src, rec)
  {
    dst + [Sep] + rec.path[|src| + 1..]
  }

  /** The conditions under which a flat directory walk extracts cleanly: no
      callback fails, the walk visits each path once, each regular file is a
      flat child with the regular type flag, a header size equal to its
      length, and a target that does not exist yet, and the destination is an
      existing directory. */
  predicate FlatTree(src: string, recs: seq<WalkRecord>, dst: string, fs: FileSystem)
  {
    src != [] &&
    dst != [] && dst[|dst| - 1] != Sep && dst in fs && fs[dst] == Dir &&
    (forall k | 0 <= k < |recs| :: !Fails(recs[k])) &&
    DistinctPaths(recs) &&
    (forall rec | rec in recs && IsRegular(rec.info.mode) ::
       FlatChild(src, rec) && rec.infoHeader.header.typeflag == TypeReg &&
       rec.infoHeader.header.size == |rec.data| &&
       FlatTarget(src, dst, rec) !in fs)
  }

  /** The name a flat child is archived under is its name relative to the root. */
  lemma FlatEntryName(src: string, base: Header, opt: Header, rec: WalkRecord)
    requires src != [] && FlatChild(src, rec)
    ensures WalkHeader(base, opt, rec.path, src).name == rec.path[|src| + 1..]
  {
    var rel := rec.path[|src| + 1..];
    assert rec.path == src + [Sep] + rel;
    EntryNameOfWalkedPath(src, rel);
  }

  lemma FlatEntries(src: string, opt: Header, recs: seq<WalkRecord>, dst: string, fs: FileSystem)
    requires FlatTree(src, recs, dst, fs)
    ensures Extractable(dst, RegularEntries(src, opt, recs), fs)
  {
    var es := RegularEntries(src, opt, recs);
    var rr := Regulars(recs);
    RegularEntriesOfRegulars(src, opt, recs);
    RegularsDistinct(recs);
    forall k | 0 <= k < |es|
      ensures es[k].header.name == rr[k].path[|src| + 1..]
    {
      assert rr[k] in rr;
      FlatEntryName(src, rr[k].infoHeader.header, opt, rr[k]);
    }
    forall j, k | 0 <= j < k < |es| ensures es[j].header.name != es[k].header.name {
      assert rr[j] in rr && rr[k] in rr;
      assert rr[j].path == src + [Sep] + rr[j].path[|src| + 1..];
      assert rr[k].path == src + [Sep] + rr[k].path[|src| + 1..];
    }
    forall k | 0 <= k < |es|
      ensures es[k].header.typeflag == TypeReg && PlainName(es[k].header.name) &&
        dst + [Sep] + es[k].header.name !in fs
    {
      assert rr[k] in rr;
    }
  }

  /** Each regular file of a flat walk lands at its own target. */
  lemma PlaceFlat(src: string, opt: Header, recs: seq<WalkRecord>, dst: string, fs: FileSystem)
    requires FlatTree(src, recs, dst, fs)
    ensures forall rec | rec in recs && IsRegular(rec.info.mode) ::
      FlatTarget(src, dst, rec) in Place(fs, dst, RegularEntries(src, opt, recs)) &&
      Place(fs, dst, RegularEntries(src, opt, recs))[FlatTarget(src, dst, rec)] == File(rec.data)
  {
    var es := RegularEntries(src, opt, recs);
    var rr := Regulars(recs);
    FlatEntries(src, opt, recs, dst, fs);
    RegularEntriesOfRegulars(src, opt, recs);
    RegularsMembers(recs);
    PlaceContents(fs, dst, es);
    forall rec | rec in recs && IsRegular(rec.info.mode)
      ensures FlatTarget(src, dst, rec) in Place(fs, dst, es) &&
        Place(fs, dst, es)[FlatTarget(src, dst, rec)] == File(rec.data)
    {
      var k :| 0 <= k < |rr| && rr[k] == rec;
      FlatEntryName(src, rec.infoHeader.header, opt, rec);
      assert FlatTarget(src, dst, rec) == dst + [Sep] + es[k].header.name;
    }
  }

  /** Extracting a flat walk adds nothing but the regular files' targets. */
  lemma PlaceFlatOnlyTargets(src: string, opt: Header, recs: seq<WalkRecord>, dst: string, fs: FileSystem)
    requires FlatTree(src, recs, dst, fs)
    ensures forall p | p in Place(fs, dst, RegularEntries(src, opt, recs)) && p !in fs ::
      exists rec | rec in recs && IsRegular(rec.info.mode) :: p == FlatTarget(src, dst, rec)
  {
    var es := RegularEntries(src, opt, recs);
    var rr := Regulars(recs);
    RegularEntriesOfRegulars(src, opt, recs);
    PlaceAddsOnlyTargets(fs, dst, es);
    forall p | p in Place(fs, dst, es) && p !in fs
      ensures exists rec | rec in recs && IsRegular(rec.info.mode) :: p == FlatTarget(src, dst, rec)
    {
      var k :| 0 <= k < |es| && p == dst + [Sep] + es[k].header.name;
      var rec := rr[k];
      assert rec in rr;
      FlatEntryName(src, rec.infoHeader.header, opt, rec);
      assert p == FlatTarget(src, dst, rec);
    }
  }

  /** Walking a flat directory tree and extracting the stream with the
      corrected loop puts every regular file at `dst/rel`, holding its bytes,
      leaves everything else as it was, and returns nil. */
  lemma FlatTreeThenUntarFixed(src: string, opt: Header, recs: seq<WalkRecord>, dst: string, fs: FileSystem)
    requires FlatTree(src, recs, dst, fs)
    ensures var r := RunFixed(dst, ReadBack(WalkSpec(src, opt, recs).entries), 0, fs);
      r.outcome == Returned(None) &&
      (forall rec | rec in recs && IsRegular(rec.info.mode) ::
         FlatTarget(src, dst, rec) in r.fs && r.fs[FlatTarget(src, dst, rec)] == File(rec.data)) &&
      (forall p | p in fs :: p in r.fs && r.fs[p] == fs[p]) &&
      (forall p | p in r.fs && p !in fs ::
         exists rec | rec in recs && IsRegular(rec.info.mode) :: p == FlatTarget(src, dst, rec))
  {
    WalkCompletes(src, opt, recs);
    var es := RegularEntries(src, opt, recs);
    FlatEntries(src, opt, recs, dst, fs);
    assert es[0..] == es;
    UntarFixedPlacesFiles(dst, es, 0, fs);
    PlaceContents(fs, dst, es);
    PlaceFlat(src, opt, recs, dst, fs);
    PlaceFlatOnlyTargets(src, opt, recs, dst, fs);
  }

  /** The walk of a root `d` holding a directory `s` that holds a file `f`
      emits the one file, named `s/f`. */
  lemma NestedWalk(data: seq<byte>, base: Header, opt: Header)
    ensures
      var dir := FileInfo("s", 0, ModeDir, 0);
      var file := FileInfo("f", |data|, 0, 0);
      var recs := [
        WalkRecord("d", dir, None, InfoHeaderOk(base), None, [], Completes),
        WalkRecord("d/s", dir, None, InfoHeaderOk(base), None, [], Completes),
        WalkRecord("d/s/f", file, None, InfoHeaderOk(base), None, data, Completes)];
      WalkSpec("d", opt, recs) == WalkResult([Entry(WalkHeader(base, opt, "d/s/f", "d"), data)], None) &&
      WalkHeader(base, opt, "d/s/f", "d").name == "s/f"
  {
    assert !Contains("/s/f", "d") by {
      forall j: nat | j < 4 ensures !OccursAt("/s/f", "d", j) {
        assert "/s/f"[j] != 'd';
      }
    }
    RemoveAllAbsent("/s/f", "d");
    assert RemoveAll("d/s/f", "d") == "/s/f";
    var dir := FileInfo("s", 0, ModeDir, 0);
    var file := FileInfo("f", |data|, 0, 0);
    var r0 := WalkRecord("d", dir, None, InfoHeaderOk(base), None, [], Completes);
    var r1 := WalkRecord("d/s", dir, None, InfoHeaderOk(base), None, [], Completes);
    var r2 := WalkRecord("d/s/f", file, None, InfoHeaderOk(base), None, data, Completes);
    var recs := [r0, r1, r2];
    assert !IsRegular(ModeDir) && IsRegular(0);
    var e := Entry(WalkHeader(base, opt, "d/s/f", "d"), data);
    assert VisitRecord("d", opt, r2) == Emit(e, None);
    assert [r2][1..] == [];
    assert WalkSpec("d", opt, [r2]) == WalkResult([e], None);
    assert [r1, r2][1..] == [r2];
    assert WalkSpec("d", opt, [r1, r2]) == WalkResult([e], None);
    assert recs[1..] == [r1, r2];
  }

  /** Where Untar puts the file `s/f` under `x`, and the directories above it. */
  lemma NestedTargetPaths()
    ensures Join("x", "s/f") == "x/s/f"
    ensures Parent("x/s/f") == Some("x/s")
    ensures Parent("x/s") == Some("x")
  {
    ParentOfJoin("x/s", "f");
    ParentOfJoin("x", "s");
    assert "x/s" + [Sep] + "f" == "x/s/f";
    assert "x" + [Sep] + "s" == "x/s";
    assert "x" + [Sep] + "s/f" == "x/s/f";
  }

  /** ... and a regular entry named `s/f` cannot be extracted into a fresh
      destination `x`: nothing made the directory `x/s`, and Untar opens
      `x/s/f` without making it. */
  lemma NestedFileNotExtracted(h: Header, data: seq<byte>)
    requires h.name == "s/f" && h.typeflag == TypeReg
    ensures RunFixed("x", ReadBack([Entry(h, data)]), 0, map["x" := Dir]) ==
      UntarResult(map["x" := Dir], Returned(Some(ErrNotExist)))
  {
    var fs := map["x" := Dir];
    NestedTargetPaths();
    assert ResolveDir(fs, Some("x/s")) == Some(ErrNotExist);
    assert OpenForWrite(fs, "x/s/f") == OpenFails(ErrNotExist);
    assert FixedStep("x", fs, ReadBack([Entry(h, data)])[0]) == Return(fs, Some(ErrNotExist));
  }
}
