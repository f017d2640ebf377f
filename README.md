# tgz: a verified model of the archiver and extractor

The Go package `tgz` has three functions, all in `tgz.go`:

- `Bytes` packs an in-memory buffer into a gzip-compressed tar stream as one entry.
- `Tar` packs a source path. A regular file becomes one entry; a directory tree becomes one entry per regular file, in walk order.
- `Untar` unpacks such a stream under a destination directory.

The stream goes through a fan-out writer, so the caller can hand several sinks, such as a file and a hash, and each gets the same bytes.

This project models the logic the package itself decides. The codecs, the file system and the clock become inputs.

- **Header policy** (`HeaderPolicy`). These are the defaults used when no override header is passed. It also holds the header each path writes: the buffer entry, the single file, and the walked files.
- **Entry selection and name derivation** (`Archiver`, `Paths`). Only regular files become entries; directories and other modes are skipped. The first error ends the walk, and the entries already written stay in the stream. A walked file's name is its path with every occurrence of the root removed, then one leading `/` trimmed.
- **Writer chain** (`Pipeline`). The chain is an event trace: gzip opened, tar opened, entries written, then the deferred closes in last-in, first-out order. So tar is closed before gzip. The fan-out appends the same bytes to every sink. Those bytes are a function (`codec`) of the trace, since the tar and gzip encoders are not modelled.
- **Extraction** (`Extractor`). The file system is a map from path to `Dir` or `File(bytes)`. `Untar` is a loop over the results of `tr.Next()`, keeping the original switch order: nil header first, then `io.EOF`, then any other error. Directories are made with `MkdirAll` only when absent. Regular files are opened without truncation, so new bytes overwrite from offset 0 and any longer old tail stays. Every other type flag is ignored. The loop has no bound of its own, so the model takes a `fuel` bound.
- **Round trip** (`RoundTrip`). Reading back an archive yields the entries written, with the times the tar writer keeps. Extracting `Bytes`'s output with the corrected loop creates exactly the one file. Extracting the walk of a flat directory puts every regular file back at its relative path with its bytes.

Four behaviours of the code worth knowing:

- Extraction does not truncate existing files (`tgz.go:219`).
- `IsRegular` looks only at the type bits. Files with setuid, setgid, sticky or executable permission bits are archived, even though the comment at `tgz.go:83` says executables are ignored.
- A tree with a subdirectory does not round-trip. The walk writes no entry for a directory (`tgz.go:142-144`), and extraction opens each file without making its parent directory (`tgz.go:219`). So a file one level down fails with "does not exist". Only flat trees whose file names do not repeat the root are written back whole, and as written Untar then never returns.
- The access and change times set from the override (`tgz.go:157-158`) never reach the archive. Every header leaves its tar format unset, so Go's tar writer drops those two times and rounds the modification time to the second.

## Model

| member | source | states |
|---|---|---|
| `Common.RoundToSecond` | tgz.go:52 | The default modification time is a whole second and lies within half a second of the clock reading. |
| `Common.Copy` | tgz.go:76 | io.Copy returns a prefix of its source. It returns nil exactly when the copy completes, and then everything was copied. A failed copy returns the chain's error, after the bytes the chain accepted. |
| `Common.DirIsNotRegular` | tgz.go:109-114 | A directory's mode is never a regular mode, so the single-file branch and the walk branch of Tar never overlap. |
| `Paths.RemoveAll` | tgz.go:164 | strings.Replace with an empty replacement never lengthens the path. It leaves the path alone when the pattern is empty or longer than the path. |
| `Paths.RemoveAllAbsent` | tgz.go:164 | A path holding no occurrence of the root is returned unchanged. |
| `Paths.RemoveAllScan` | tgz.go:164 | When no occurrence starts inside `pre`, removing from `pre + root + post` keeps `pre`, drops that root, and goes on removing in `post`. |
| `Paths.RemoveAllAt` | tgz.go:164 | By index: if the leftmost occurrence starts at `i`, the result is `s[..i]` followed by the removal applied to what follows that occurrence. |
| `Paths.TrimPrefix` | tgz.go:164 | strings.TrimPrefix drops the prefix when it is there, and otherwise leaves the string alone. |
| `Paths.EntryName` | tgz.go:164 | The walked entry's name is never longer than the walked path. With an empty root, only one leading separator is trimmed. |
| `Paths.EntryNameFixed` | tgz.go:164 | The corrected name of `src/rel` is `rel`. A path not under the root keeps everything except one leading separator. |
| `Paths.EntryNameOfWalkedPath` | tgz.go:164 | For a walked path `src/rel` in which `/rel` holds no further occurrence of `src`, the entry name is exactly `rel`. |
| `Paths.EntryNameRemovesInnerOccurrences` | tgz.go:164 | As written, walking root `a` names the file `a/data` `dt`. |
| `Paths.EntryNameCanBeEmpty` | tgz.go:164 | As written, walking root `/x` gives the file `/x/x` an empty name. |
| `Paths.EntryNameFixedOfWalkedPath` | tgz.go:164 | Stripping the root as a prefix gives `rel` for every walked path `src/rel`. |
| `Paths.Base` | tgz.go:118 | filepath.Base is never empty and holds no separator unless it is the root. |
| `Paths.BaseOfChild` | tgz.go:118 | The single-file entry of `dir/name` is named `name`. |
| `Paths.Join` | tgz.go:206 | An extraction target never ends in a separator. |
| `Paths.ParentOfJoin` | tgz.go:206 | The target for a plain name is `dst/name`, and it lives in `dst`. |
| `HeaderPolicy.BytesOpt` | tgz.go:46-54 | A given `opt` is used as is. A nil one gives owner and group "user", mode 0644, the formatted clock reading as name, and the clock rounded to the second as modification time. |
| `HeaderPolicy.TarOpt` | tgz.go:90-92 | A given `opt` is used as is. A nil one gives owner and group "user", mode 0644 and a zero (unset) modification time. |
| `HeaderPolicy.BytesHeader` | tgz.go:66-73 | The buffer entry copies name, owner, group, mode and modification time from the override, and its size is the buffer's length. |
| `HeaderPolicy.SingleFileHeader` | tgz.go:117-123 | The single-file entry is named by the source's base name and sized by its stat result. Owner, group and mode come from the override; the override's modification time is not applied. |
| `HeaderPolicy.WalkHeader` | tgz.go:147-164 | A walked entry takes owner, group and mode from the override. Only a non-zero override time replaces modification, access and change time, all three together; otherwise FileInfoHeader's times stay. The name is derived from the walked path. |
| `HeaderPolicy.ModTimeAppliedOnlyByWalk` | tgz.go:117-123 | Given the same non-zero override time, the walk header carries it and the single-file header does not. |
| `Pipeline.Unwind` | tgz.go:59-63 | Deferred calls run in reverse order of deferral. |
| `Pipeline.Run` | tgz.go:59-63 | A run is: gzip opened, tar opened, the body unchanged, then tar closed and gzip closed. |
| `Pipeline.RunClosesTarBeforeGzip` | tgz.go:102-106 | Gzip is opened, then tar; only entries are written in between; tar is closed, then gzip. |
| `Pipeline.EntriesOfRun` | tgz.go:59-63 | The stream of a run holds exactly the entries written, in order, and its closes are in order. |
| `Pipeline.FanOut` | tgz.go:57 | io.MultiWriter appends the same bytes to every sink. |
| `Pipeline.Deliver` | tgz.go:100 | Each sink ends up holding its old contents followed by the encoded trace. |
| `Pipeline.DeliverAppendsSameBytes` | tgz.go:41-43 | Every sink receives an identical byte sequence appended to what it held. |
| `Pipeline.EmptySinksAgree` | tgz.go:85-86 | Sinks that start empty, such as a file and a digest, end byte-for-byte equal. |
| `Archiver.Bytes` | tgz.go:43-78 | Bytes returns nil exactly when the copy completes, and otherwise the chain's error. On success the count is the buffer's length. The stream holds one entry with the policy header and the copied bytes. The caller's buffer keeps exactly the bytes not copied, and is empty after success. Tar closes before gzip. Each sink ends up with its old contents followed by the encoded trace. |
| `Archiver.BytesDrainsBuffer` | tgz.go:76 | Calling Bytes again on a buffer a completed call has drained archives an empty entry. |
| `Archiver.VisitRecord` | tgz.go:134-177 | A walk error stops the walk. A non-regular record is skipped. An entry comes only from a regular record with the walk header, and holds a prefix of the file, which is the whole file when the copy completes. |
| `Archiver.Walk` | tgz.go:134-177 | The loop over the walk records produces exactly the entries and the error of the walk's specification. |
| `Archiver.WalkCompletes` | tgz.go:141-144 | If no callback fails, the walk emits one entry per regular record, in walk order, with the whole file, and returns nil. |
| `Archiver.WalkAborts` | tgz.go:136-139 | The first failing callback ends the walk with its error. Earlier regular entries, and the part of the failing file already copied, stay in the stream. |
| `Archiver.WalkSkipsNonRegular` | tgz.go:141-144 | A directory or other non-regular record changes nothing in the walk's outcome. |
| `Archiver.Tar` | tgz.go:87-131 | A stat error is returned before any writer exists, with no trace and the sinks unchanged. A non-regular, non-directory source writes no entry and returns nil. A regular file writes one entry with the single-file header. A directory's stream and error are the walk's. Closes are in order, and sinks get identical bytes. |
| `Extractor.MkdirAllMakesDirectory` | tgz.go:211-215 | A successful MkdirAll leaves the target a directory, changes no existing entry, adds only directories, and keeps the tree well formed. |
| `Extractor.MkdirAll` | tgz.go:211-215 | os.MkdirAll succeeds on an existing directory without change, and otherwise leaves the path a directory. It fails exactly when a file sits at the path or at its nearest existing ancestor ("not a directory"), or the path is empty. |
| `Extractor.ResolveDir` | tgz.go:219 | A directory counts as usable exactly when it is the working directory or root, or exists as a directory. |
| `Extractor.OpenForWrite` | tgz.go:219-222 | O_CREATE without O_TRUNC opens an existing file with its current bytes and refuses a directory. A missing file is opened, empty, exactly when its parent is usable; otherwise the parent's error is returned. |
| `Extractor.Overwrite` | tgz.go:223 | The written bytes come first, and any longer old tail remains. |
| `Extractor.Extract` | tgz.go:206-227 | A directory entry whose target exists changes nothing. An absent one runs MkdirAll: it continues with MkdirAll's tree or returns MkdirAll's error, with nothing changed. A regular entry whose open fails returns that error with nothing changed. One whose open succeeds is written over the current bytes without truncation, and it continues exactly when the copy has no error, which is otherwise returned. Any other type flag changes nothing. |
| `Extractor.ExtractOverwritesExistingFile` | tgz.go:219-224 | An existing file is opened and written from offset 0. The new bytes come first, then the old tail beyond them. |
| `Extractor.ExtractMakesDirectory` | tgz.go:211-215 | An absent directory target under a usable parent is created, and the loop goes on. |
| `Extractor.Step` | tgz.go:194-204 | A nil header continues even with io.EOF. With a header, io.EOF returns nil, any other error is returned unchanged, and no error dispatches the entry. |
| `Extractor.ExtractKeepsTree` | tgz.go:206-227 | One entry never deletes anything and keeps every path inside an existing directory. |
| `Extractor.StepKeepsTree` | tgz.go:192-227 | One turn of either loop keeps the tree well formed and deletes nothing. |
| `Extractor.Untar` | tgz.go:182-229 | A gzip header error is returned with nothing changed. Otherwise the loop does exactly what its specification does within the fuel bound. |
| `Extractor.UntarKeepsTree` | tgz.go:192-228 | However far it runs, Untar deletes nothing and keeps the tree well formed. |
| `Extractor.UntarNeverSucceeds` | tgz.go:194-197 | On any result sequence a tar reader can produce, the as-written Untar never returns nil. |
| `Extractor.UntarSpinsAtEnd` | tgz.go:196-197 | Past the end of the archive, the as-written loop changes nothing and never returns. |
| `Extractor.FixedStep` | tgz.go:195-204 | With io.EOF tested first, the end of the archive returns nil, other errors are returned, a nil header continues, and a header with no error dispatches the entry. |
| `Extractor.UntarFixed` | tgz.go:182-229 | The corrected loop always returns, with the outcome of its specification. |
| `Extractor.FixedAgreesBeforeEnd` | tgz.go:192-204 | On an archive without read errors, the corrected and as-written loops change the file system identically. They differ only at the end. |
| `Extractor.UntarFixedKeepsTree` | tgz.go:206-227 | The corrected loop deletes nothing and keeps the tree well formed. |
| `RoundTrip.ReadHeader` | tgz.go:157-159 | The header read back keeps name, size, mode, owner and group and has the reader's type flag. Its access and change times are zero. Its modification time is a whole second: the epoch for a zero time, otherwise within half a second of the written one. |
| `RoundTrip.ReadBack` | tgz.go:194 | Reading back an archive gives one error-free result per written entry, with the header as read back and the entry's contents. |
| `RoundTrip.ReadType` | tgz.go:194 | The reader never reports a zero type flag. A zero flag reads as a directory exactly when the name ends in a separator, and as a regular file otherwise; every other flag is kept. |
| `RoundTrip.BytesThenUntarFixed` | tgz.go:43-78 | Extracting Bytes's archive with the corrected loop adds exactly one file, `dst/name`, holding the buffer, and returns nil. |
| `RoundTrip.BytesIntoEmptyDirectory` | tgz.go:206-226 | Into an empty destination, the result is the destination plus that one file and nothing else. |
| `RoundTrip.BytesThenUntarSpins` | tgz.go:192-204 | The as-written Untar writes that same file on its first turn and then never returns. |
| `RoundTrip.ExtractOneFile` | tgz.go:217-226 | A regular entry with a plain name whose target is absent is created inside the existing destination, holding exactly the entry's bytes, and the loop goes on. |
| `RoundTrip.UntarFixedPlacesFiles` | tgz.go:206-227 | Extracting regular entries with distinct plain names into an existing directory, with the corrected loop, writes each one at `dst/name`, in order, and returns nil. |
| `RoundTrip.PlaceContents` | tgz.go:217-226 | After that extraction each entry's target holds the entry's bytes, and every path that existed before and is no target keeps what it held. |
| `RoundTrip.PlaceAddsOnlyTargets` | tgz.go:206-227 | Extraction adds no path except the entries' targets. |
| `RoundTrip.FlatEntryName` | tgz.go:164 | A file directly under the walk root, whose relative name does not repeat the root, is archived under that relative name. |
| `RoundTrip.FlatTreeThenUntarFixed` | tgz.go:134-177 | Walk a flat directory in which no callback fails and every regular file's size matches its header, then extract with the corrected loop. Every regular file lands at `dst/rel` with its bytes, no existing path changes, and nothing else is added, so non-regular files are absent. The loop returns nil. |
| `RoundTrip.PlaceFlatOnlyTargets` | tgz.go:141-144 | Extracting a flat walk adds only the regular files' targets. |
| `RoundTrip.NestedWalk` | tgz.go:141-144 | Root `d` holds directory `s`, which holds file `f`. The walk emits only the file, named `s/f`, and no entry for the directory. |
| `RoundTrip.NestedFileNotExtracted` | tgz.go:217-222 | Extracting a regular entry `s/f` into a destination `x` with no `x/s` fails with "does not exist" and changes nothing, because no parent directory is made for a file. |

## Left out

- The gzip and tar codecs, with DEFLATE and the tar block layout. The archive is an abstract sequence of entries, and sinks receive `codec(trace)` for an arbitrary function `codec`. Reading back is assumed to return the entries written, with the tar reader's mapping of a zero type flag. That holds only when each entry's bytes match its header size: Go's tar writer rejects longer content, and a shorter last file leaves the archive without its trailer, an error the deferred Close drops.
- RoundTrip.ReadBack: the time encodings of the PAX and GNU formats are not modelled. The model relies on the writer's handling of headers whose format is unset: the modification time rounded to the second, a zero one read back as the epoch, and access and change times dropped.
- How tar.FileInfoHeader fills a header. Its result is an input of each walk record.
- The real file system, os.Stat, os.Open, filepath.Walk's traversal, and permission bits of created files and directories. Stat results, file contents and the walk's records are inputs, and the destination is a map.
- Byte strings and early instants. Paths are sequences of characters, so names that are not valid UTF-8 cannot be written down, and an instant is a count of nanoseconds since Go's zero time, so instants before it cannot be represented.
- Path cleaning. Join strips trailing separators only, so the root `/` itself becomes empty; `.`, `..` and repeated separators are not resolved. The separator is `/`.
- The clock and time formatting. The clock reading (`now`) and its "20060102T150405" rendering (`stamp`) are parameters.
- Write failures of individual sinks inside io.MultiWriter. Sinks always accept the bytes. A failing writer chain appears only as the copy outcome of an entry.
- Errors the source drops: WriteHeader in Bytes and in the single-file branch, os.Open in both copy paths, and the deferred Close calls. The file left open when a copy fails during extraction is not modelled either.
- Archiver.Bytes: the caller's `*bytes.Buffer` is a value. The bytes io.Copy leaves in it are returned as `remaining` instead of being updated in place, so aliasing of the buffer is not modelled.
- Extractor.Untar: the loop has no bound in the source. The model stops after `fuel` calls of Next and reports StillRunning; nothing about termination is claimed.
- Extractor.MkdirAll: its only failure is a file in the way. Permission and other system errors are not modelled.
- tgz_test.go: it only writes archives and logs their digests, so it states no property beyond "no error".

## Findings

| source | as written | input that shows it | evidently intended | confidence | as-written member | corrected member |
|---|---|---|---|---|---|---|
| tgz.go:194-200 | The switch tests `header == nil` before `err == io.EOF`. Go's tar.Reader returns a nil header with every error, io.EOF at the end of the archive included, so the EOF and error cases are never reached. | The archive Bytes writes for any buffer: after its one entry, Next returns (nil, io.EOF) on every call, and the loop never returns. | Test io.EOF first, then other errors, then a nil header. Untar then returns nil at the end of the archive and surfaces read errors. | not executed | `Extractor.UntarNeverSucceeds` | `Extractor.UntarFixed` |
| tgz.go:164 | strings.Replace(file, src, "", -1) removes every occurrence of the root, not only the leading one. | Root `a`, walked file `a/data`: the entry is named `dt`. Root `/x`, walked file `/x/x`: the name is empty. | Strip the root as a prefix, then one separator, so every entry is named by its path relative to the root. | not executed | `Paths.EntryNameRemovesInnerOccurrences` | `Paths.EntryNameFixedOfWalkedPath` |

The round-trip lemmas use the corrected extraction loop. `Archiver.Tar` keeps the name derivation as written, so that it still models the shipped code. `Paths.EntryNameOfWalkedPath` states when the two derivations agree.
