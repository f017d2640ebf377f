/** Values shared by the archiver and the extractor of the tgz package: errors,
    bytes, instants, file mode bits, the subset of a tar header the package
    reads or writes, and the outcome of one io.Copy. */
module Common {

  datatype Option<T> = None | Some(value: T)

  /** The errors the model distinguishes. `EOF` stands for io.EOF; the three
      named file-system errors are those the abstract file system raises; every
      other error is an opaque code, passed on unchanged. */
  datatype Error = EOF | ErrNotExist | ErrNotDir | ErrIsDir | ErrOther(code: nat)

  type byte = b: int | 0 <= b < 256

  /** An instant, counted in nanoseconds since Go's zero time (January 1,
      year 1, UTC), so that `IsZero(t)` holds exactly of the zero value. */
  type Time = nat

  const Second: nat := 1_000_000_000

  predicate IsZero(t: Time) { t == 0 }

  /** time.Time.Round(time.Second): the nearest whole second, halfway values
      rounded up. */
  function RoundToSecond(t: Time): (r: Time)
    ensures r % Second == 0
    ensures t - Second / 2 < r <= t + Second / 2
  {
    var rem := t % Second;
    if rem + rem < Second then t - rem else t + (Second - rem)
  }

  // os.FileMode bits (the type bits live in the top of a 32-bit word).
  type FileMode = bv32

  const ModeDir: FileMode        := 0x8000_0000
  const ModeSymlink: FileMode    := 0x0800_0000
  const ModeDevice: FileMode     := 0x0400_0000
  const ModeNamedPipe: FileMode  := 0x0200_0000
  const ModeSocket: FileMode     := 0x0100_0000
  const ModeSetuid: FileMode     := 0x0080_0000
  const ModeSetgid: FileMode     := 0x0040_0000
  const ModeCharDevice: FileMode := 0x0020_0000
  const ModeSticky: FileMode     := 0x0010_0000
  const ModeIrregular: FileMode  := 0x0008_0000

  /** os.ModeType: the bits that make a file something other than regular. */
  const ModeType: FileMode :=
    ModeDir | ModeSymlink | ModeNamedPipe | ModeSocket | ModeDevice | ModeCharDevice | ModeIrregular

  /** FileMode.IsRegular: no type bit is set (permission, setuid, setgid and
      sticky bits do not matter). */
  predicate IsRegular(m: FileMode) { m & ModeType == 0 }

  /** FileMode.IsDir. */
  predicate IsDir(m: FileMode) { m & ModeDir != 0 }

  lemma DirIsNotRegular(m: FileMode)
    requires IsDir(m)
    ensures !IsRegular(m)
  {
  }

  /** What os.FileInfo tells the archiver about a file. */
  datatype FileInfo = FileInfo(name: string, size: int, mode: FileMode, modTime: Time)

  // tar.Header.Typeflag values the package distinguishes.
  const TypeRegA: byte := 0    // '\x00', the zero value of a header literal
  const TypeReg: byte := 48    // '0'
  const TypeDir: byte := 53    // '5'

  /** The fields of tar.Header that the package sets or reads. */
  datatype Header = Header(
    name: string,
    size: int,
    mode: int,
    uname: string,
    gname: string,
    modTime: Time,
    accessTime: Time,
    changeTime: Time,
    typeflag: byte)

  /** A header literal with only the named fields set; the others keep Go's
      zero values. */
  function HeaderLiteral(name: string, size: int, mode: int, uname: string, gname: string, modTime: Time): Header
  {
    Header(name, size, mode, uname, gname, modTime, 0, 0, TypeRegA)
  }

  /** One archive entry as it appears in the stream: its header and the
      content bytes copied after it. */
  datatype Entry = Entry(header: Header, content: seq<byte>)

  /** How one io.Copy through the writer chain ends: it copies everything, or
      the chain fails after accepting `written` bytes. */
  datatype CopyOutcome = Completes | FailsAfter(written: nat, err: Error)

  /** What io.Copy returns: the bytes that went through and the first error. */
  datatype Copied = Copied(data: seq<byte>, err: Option<Error>)

  function Copy(source: seq<byte>, outcome: CopyOutcome): (r: Copied)
    ensures r.data <= source
    ensures r.err == None <==> outcome == Completes
    ensures r.err == None ==> r.data == source
    ensures outcome.FailsAfter? ==> r.err == Some(outcome.err)
    ensures outcome.FailsAfter? && outcome.written <= |source| ==> |r.data| == outcome.written
  {
    match outcome
    case Completes => Copied(source, None)
    case FailsAfter(n, e) => Copied(source[..if n < |source| then n else |source|], Some(e))
  }
}
