/** Header policy: the defaults applied when no override header is passed,
    and the headers Bytes and Tar write for each entry. */
module HeaderPolicy {
  import opened Common
  import Paths

  const DefaultOwner: string := "user"
  const DefaultMode: int := 0x1A4   // 0644

  /** The override Bytes uses when `opt` is nil: the name is the clock's
      reading formatted as "20060102T150405" (`stamp`, computed by the caller
      of the model), the modification time the clock's reading rounded to the
      second. */
  function BytesOpt(opt: Option<Header>, now: Time, stamp: string): (r: Header)
    ensures opt.Some? ==> r == opt.value
    ensures opt.None? ==> r.name == stamp && r.uname == DefaultOwner && r.gname == DefaultOwner
    ensures opt.None? ==> r.mode == DefaultMode && r.modTime == RoundToSecond(now) && r.modTime % Second == 0
  {
    match opt
    case Some(h) => h
    case None => HeaderLiteral(stamp, 0, DefaultMode, DefaultOwner, DefaultOwner, RoundToSecond(now))
  }

  /** The override Tar uses when `opt` is nil: owner, group and mode only; the
      modification time is the zero instant, which the walk treats as unset. */
  function TarOpt(opt: Option<Header>): (r: Header)
    ensures opt.Some? ==> r == opt.value
    ensures opt.None? ==> r.uname == DefaultOwner && r.gname == DefaultOwner && r.mode == DefaultMode
    ensures opt.None? ==> IsZero(r.modTime)
  {
    match opt
    case Some(h) => h
    case None => HeaderLiteral("", 0, DefaultMode, DefaultOwner, DefaultOwner, 0)
  }

  /** The header Bytes writes for its single entry. */
  function BytesHeader(opt: Header, size: nat): (r: Header)
    ensures r.name == opt.name && r.uname == opt.uname && r.gname == opt.gname
    ensures r.mode == opt.mode && r.modTime == opt.modTime
    ensures r.size == size
    ensures IsZero(r.accessTime) && IsZero(r.changeTime) && r.typeflag == TypeRegA
  {
    HeaderLiteral(opt.name, size, opt.mode, opt.uname, opt.gname, opt.modTime)
  }

  /** The header Tar writes when its source is one regular file. The
      override's modification time is not applied on this path. */
  function SingleFileHeader(src: string, info: FileInfo, opt: Header): (r: Header)
    ensures r.name == Paths.Base(src) && r.size == info.size
    ensures r.uname == opt.uname && r.gname == opt.gname && r.mode == opt.mode
    ensures IsZero(r.modTime) && IsZero(r.accessTime) && IsZero(r.changeTime)
    ensures r.typeflag == TypeRegA
  {
    HeaderLiteral(Paths.Base(src), info.size, opt.mode, opt.uname, opt.gname, 0)
  }

  /** The header the walk writes for a regular file: the header
      tar.FileInfoHeader built (`base`), with owner, group and mode taken from
      the override, all three times replaced by the override's modification
      time when that is set, and the name derived from the walked path. Size
      and type stay as FileInfoHeader gave them. */
  function WalkHeader(base: Header, opt: Header, file: string, src: string): (r: Header)
    ensures r.gname == opt.gname && r.uname == opt.uname && r.mode == opt.mode
    ensures !IsZero(opt.modTime) ==> r.modTime == opt.modTime && r.accessTime == opt.modTime && r.changeTime == opt.modTime
    ensures IsZero(opt.modTime) ==> r.modTime == base.modTime && r.accessTime == base.accessTime && r.changeTime == base.changeTime
    ensures r.name == Paths.EntryName(file, src)
    ensures r.size == base.size && r.typeflag == base.typeflag
  {
    var h := base.(gname := opt.gname, uname := opt.uname, mode := opt.mode);
    var h := if !IsZero(opt.modTime)
      then h.(accessTime := opt.modTime, changeTime := opt.modTime, modTime := opt.modTime)
      else h;
    h.(name := Paths.EntryName(file, src))
  }

  /** The same override is treated differently on the two paths of Tar that
      take a file: only the walk applies its modification time. */
  lemma ModTimeAppliedOnlyByWalk(src: string, info: FileInfo, base: Header, opt: Header, file: string)
    requires !IsZero(opt.modTime)
    ensures WalkHeader(base, opt, file, src).modTime == opt.modTime
    ensures SingleFileHeader(src, info, opt).modTime != opt.modTime
  {
  }
}
