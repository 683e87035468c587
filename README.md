# Archive extraction and file routing, modelled in Dafny

This project models the file layer of a 3DS homebrew updater (`source/file.c`):

- **openFile** routes a user path to a storage volume. A `ctrnand:/`, `twlp:/`, `twln:/` or
  `sdmc:/` prefix selects the CTR NAND, TWL photo, TWL NAND or SD card volume. The device
  name is dropped and the `/` is kept. Any other path is opened on the SD card unchanged. A
  write open asks for create-and-write (no truncation); a read open is read-only.
- **extractFileFromZip** checks both names. It opens the destination, opens the archive with
  minizip, locates the member, reads its header, allocates a 0x1000-byte buffer and opens the
  member. It then copies the member out with a do-while loop of reads and writes. Every
  failure after the archive opens shares one exit, which closes the archive and then the
  destination.
- **extractFileFrom7z** loads the archive image and parses it with the LZMA SDK. It scans the
  file table for the first entry that is not a directory, whose name is under 256 UTF-16
  code units (a count the LZMA SDK takes to include the terminating zero unit), and whose narrowed name `strcmp` finds equal to the requested one. It extracts
  that entry and writes it with one `writeFile` call.
- **extractFileFromArchive** probes the file with `unzOpen64`. A ZIP goes to the ZIP
  extractor, which opens the archive again itself, and anything else goes to the 7z extractor. The archive is removed afterwards on every
  path.
- **copyFile** copies a file opened through the filesystem service into one opened with
  `fopen`, 0x1000 bytes at a time, until a read returns nothing.

## How the model is built

The libraries (minizip, the LZMA SDK, the filesystem service) are not modelled. Their answers
are inputs:

- `ZipExtract.ZipArchive` and `ZipExtract.Inflater` hold minizip's answers and the transfer buffer's `malloc` outcome, including its contents;
- `SevenZipExtract.SevenZipArchive` and `SevenZipExtract.Entry` hold the LZMA SDK's answers;
- `Effects.FsService` gives the result of each `openFile` and of the k-th `writeFile`.
- the dispatcher's trial `unzOpen64` is a separate boolean, `probeOpens`, from the ZIP extractor's own open (`ZipArchive.opens`), since the source makes two calls.

Each extractor is a method returning its result code, the calls it made (an `Event` log) and
the destination's contents afterwards. The contents are a byte map (`Disk`). Only a write the
service accepts (code 0) changes them. Each method is proved equal to a specification function
(`ZipSpec`, `MemberSpec`, `Pump`, `SevenZipSpec`, `EntrySpec`, `ArchiveSpec`). The source's
promises are lemmas about those functions.

The ZIP copy loop keeps the source's in-place 0x1000-byte buffer as an `array`. Each read
overwrites its front; each write takes the first `toRead` bytes of it.

The model follows the code as written, including these behaviours:

- The 7z write takes `fileSize` bytes from the start of the extracted block, not from the
  entry's offset in it. The `offset` declared at `source/file.c:176` shadows the one the
  library set at :152.
- When the destination fails to open on the 7z path, WRITEFILE is returned at once. The jump
  to `finish:` is skipped and the archive stays open.
- 7z names are narrowed with `% 0xff`, the remainder modulo 255, not the low byte. 0xFF
  becomes NUL and ends the name for `strcmp`, and code units that agree modulo 255 alias.
- The ZIP loop writes `toRead` bytes whatever the read returned. A short read from a clean
  stream therefore writes the stream's bytes followed by what the buffer held before.
- The ZIP result after the loop is the answer to the last `writeFile` only. A failed earlier
  write does not show.
- A ZIP member of size 0 fails with READ_IN_ARCHIVE: the first read asks for nothing and
  gets 0.
- Names are checked for NULL only. The dispatcher probes and removes the archive even when a
  name is missing.
- copyFile does not close the source handle when the destination fails to open.

Behaviours a reader might not expect from the names and comments:

- The comment at `source/file.c:143` describes the narrowing as cutting off the other bytes
  of each code unit, but `% 0xff` at :146 keeps the remainder modulo 255, not the low byte.
- The name checks at :83-91 and :204-212 test for NULL only. An empty name passes them.
- ALLOC (:252) comes only from the ZIP path's transfer buffer. The 7z path does not check its
  `malloc` at :105.
- The ZIP path opens the destination, creating it, at :220, before it looks for the member
  at :235. A missing member therefore still leaves the destination file in place, although
  nothing is written to it.

## Model

| member | source | states |
|---|---|---|
| Routing.Flags | source/file.c:14 | A write open asks for create-and-write, exactly when `write` holds; otherwise read-only |
| Routing.RouteShape | source/file.c:17-33 | The routed path is a suffix of the user path. It is a proper suffix exactly when a device prefix matched, and then it starts with '/'. An unprefixed path goes to the SD card, and the flags follow the access mode |
| Routing.RouteOfDevicePath | source/file.c:17-33 | Routing a device name followed by a '/'-path selects that device's volume and strips exactly the device name |
| Routing.RouteRoundTrip | source/file.c:17-33 | For every prefixed path, the selected volume's device name followed by the routed path gives back the original path |
| Effects.Write | source/file.c:268 | A `writeFile` call is logged with the service's answer to the k-th write, and the destination afterwards is the old one with that write applied |
| ZipExtract.ReadCount | source/file.c:266 | `unzReadCurrentFile` never returns more than asked; a positive count stays within the stream; a stream holding enough delivers all that is asked; a non-positive answer to a non-empty request means the stream ended or is corrupt |
| ZipExtract.ReadCurrentFile | source/file.c:266 | The read returns `ReadCount` and the delivered bytes overwrite the front of the buffer; the rest of the buffer keeps its old contents |
| ZipExtract.NewBuffer | source/file.c:249-250 | A fresh 0x1000-byte buffer holding whatever the allocator handed over |
| ZipExtract.PumpNextUnfold | source/file.c:264-276 | A pass that reads a positive count with bytes still left is that pass's write of the buffer's first `toRead` bytes at the offset, followed by the run from the advanced position; the buffer stays 0x1000 bytes long |
| ZipExtract.PumpNext | source/file.c:264-276 | A pass that reads a positive count with bytes still left writes `toRead` bytes and continues the run from the advanced cursor |
| ZipExtract.PumpLast | source/file.c:264-276 | The pass that consumes the last bytes ends the run with that write's answer as the result |
| ZipExtract.PumpFail | source/file.c:267-274 | A non-positive read ends the run with READ_IN_ARCHIVE and no further write |
| ZipExtract.Pass | source/file.c:264-276 | One loop pass. The read asks for the smaller of 0x1000 and the bytes left, and its bytes land at the front of the buffer while the rest keeps its contents. A non-positive count stops the loop with READ_IN_ARCHIVE and the cursor unchanged. A positive count writes the buffer's first `toRead` bytes at the offset and advances the offset by `toRead` and the stream position by the count. The loop stops exactly when nothing is left, returning that write's answer. The new destination is the old one with the write applied, and the rest of the run continues from the new cursor |
| ZipExtract.Advance | source/file.c:267-275 | The part of a pass after the read. A non-positive count stops with READ_IN_ARCHIVE and the cursor unchanged. Otherwise it appends the write of `chunk` at the offset with the service's answer, takes `toRead` off the bytes left and adds it to the offset, and advances the stream position by the count. It stops exactly when `toRead` was all that was left, returning that write's answer |
| ZipExtract.CopyOut | source/file.c:262-276 | The loop's result and writes are exactly those of `Pump` over the header's size, from a fresh buffer holding the allocator's contents. The destination is the old one with those writes applied. The invariant keeps the offset plus the bytes left equal to the size |
| ZipExtract.WritesAt | source/file.c:264-276 | In a run of loop writes, the i-th write carries the service's answer to the i-th call and is at most one buffer long. Every write but the last is a full 0x1000 bytes |
| ZipExtract.PumpWrites | source/file.c:264-276 | Every call the loop makes is a write; the i-th has the i-th `writeFile` answer; every chunk but the last is a full 0x1000 bytes |
| ZipExtract.PumpContiguous | source/file.c:268-269 | Each write starts where the previous one ended, from the starting offset on |
| ZipExtract.PumpCount | source/file.c:264-276 | A run that does not fail made ceil(size/0x1000) writes, and its result is the answer to the last one |
| ZipExtract.PumpLength | source/file.c:264-276 | A run that does not fail wrote exactly `size` bytes in all |
| ZipExtract.PumpSucceeds | source/file.c:264-276 | The exact condition for the loop not to fail: size > 0 and the stream reaches into the last chunk, or, if it ends in a data error, holds every byte |
| ZipExtract.PumpDelivers | source/file.c:264-276 | When the stream holds the `size` bytes asked for, the writes carry exactly those bytes in order |
| ZipExtract.PumpLands | source/file.c:262-276 | With a complete stream and every write accepted, the loop returns 0 and the destination holds the member's bytes from offset 0 |
| ZipExtract.PumpShort | source/file.c:265-269 | A clean stream shorter than its single chunk writes all `size` bytes of the buffer, the stream's bytes followed by what the fresh buffer held after them, and reports that write's answer |
| ZipExtract.ReadMember | source/file.c:235-276 | The steps between opening and closing the archive return and log exactly what `MemberSpec` gives, and the destination receives exactly those writes |
| ZipExtract.MemberWrites | source/file.c:235-276 | Every call between `unzOpen64` and `unzClose` is a write |
| ZipExtract.MemberCodes | source/file.c:235-260 | FIND exactly when the member is not found; INFO, ALLOC and OPEN_IN_ARCHIVE each exactly when its own check is the first to fail; any other `unzLocateFile` failure is returned as it is; these steps never give CONFIG, ARCHIVE_OPEN or WRITEFILE |
| ZipExtract.ExtractFromZip | source/file.c:202-286 | extractFileFromZip returns and logs exactly what `ZipSpec` gives, and the destination afterwards is the old one with the logged writes applied |
| ZipExtract.ZipResultCodes | source/file.c:202-276 | CONFIG exactly when a name is missing; WRITEFILE exactly when the destination fails to open; ARCHIVE_OPEN exactly when minizip cannot open the archive; past that the result is the member steps'; READ_IN_ARCHIVE exactly when the loop is reached and fails |
| ZipExtract.ZipWrites | source/file.c:202-286 | A run that reaches the loop changes the destination exactly as the loop's writes do; any other run writes nothing and leaves it unchanged |
| ZipExtract.ZipResult | source/file.c:262-276 | A run that reaches the loop returns the answer to write number ceil(size/0x1000) when the stream reaches far enough, otherwise READ_IN_ARCHIVE |
| ZipExtract.ZipDeliversMember | source/file.c:202-286 | When every check passes, the stream holds the announced bytes and every write is accepted, the result is 0 and the destination holds the member from offset 0 |
| ZipExtract.ZipShortMemberPads | source/file.c:262-276 | A member whose clean stream ends before its announced size (one chunk at most) is written at full size: the stream's bytes padded with whatever the fresh buffer held at those positions |
| ZipExtract.ZipMiddle | source/file.c:235-276 | Between opening the archive and closing it, no handle is closed |
| ZipExtract.ZipClosesDestination | source/file.c:220-285 | Once open, the destination is closed exactly once, as the last call. When it does not open, that open is the only call |
| ZipExtract.ZipClosesArchive | source/file.c:226-281 | The archive is closed exactly once when it was opened, never otherwise |
| SevenZipExtract.Narrow | source/file.c:146 | A narrowed unit is below 255, and units below 255 are unchanged |
| SevenZipExtract.NarrowedConcat | source/file.c:145-147 | Narrowing works code unit by code unit |
| SevenZipExtract.NarrowedWrapped | source/file.c:145-147 | A 0xFF unit inside a name narrows to NUL |
| SevenZipExtract.NarrowName | source/file.c:144-147 | The narrowing loop yields the zero-filled 256-character buffer whose first `len` characters are the narrowed units |
| SevenZipExtract.CStr | source/file.c:155 | What `strcmp` compares is a NUL-free prefix of the buffer, ended by its first NUL or by the buffer's end |
| SevenZipExtract.CStrPadding | source/file.c:140-155 | Characters after a NUL play no part in the comparison |
| SevenZipExtract.MatchesNarrowed | source/file.c:131-155 | An entry matches exactly when it is not a directory, its name is under 256 units, and its narrowed name equals the requested one up to the first NUL; the buffer's zero padding plays no part |
| SevenZipExtract.WrappedUnitEndsName | source/file.c:145-155 | A 0xFF unit ends the name: an entry matches exactly when its units before the 0xFF match |
| SevenZipExtract.MatchLength | source/file.c:140-155 | A matching request, up to its first NUL, is never longer than the entry's name in code units |
| SevenZipExtract.Utf8RequestMissesOneUnitName | source/file.c:140-155 | A request given as the UTF-8 bytes C3 A9 (U+00E9) never matches a name stored as one UTF-16 unit |
| SevenZipExtract.AliasedNames | source/file.c:145-155 | Names whose units agree modulo 255 match exactly the same requested names |
| SevenZipExtract.FirstMatch | source/file.c:129-155 | The index found matches and no earlier entry does; when none is found, no entry matches |
| SevenZipExtract.ExtractEntry | source/file.c:156-189 | The matching entry's branch returns and logs exactly what `EntrySpec` gives, and the destination receives exactly its writes |
| SevenZipExtract.EntryLeavesArchive | source/file.c:156-189 | The matching entry's branch never closes the archive itself |
| SevenZipExtract.ExtractFrom7z | source/file.c:81-200 | extractFileFrom7z returns and logs exactly what `SevenZipSpec` gives, and the destination afterwards is the old one with the logged writes applied |
| SevenZipExtract.SevenZipResultCodes | source/file.c:83-182 | CONFIG exactly when a name is missing; ARCHIVE_OPEN exactly when the file cannot be opened or parsed; READ_IN_ARCHIVE exactly when the first match fails to extract; WRITEFILE exactly when it extracts and the destination fails to open |
| SevenZipExtract.SevenZipFindIff | source/file.c:129-193 | FIND exactly when the archive is scanned and no entry matches |
| SevenZipExtract.SevenZipWritesFirstMatch | source/file.c:155-189 | Only the first match in table order is extracted. When its write is accepted, the result is 0 and the destination holds the first `size` bytes of the block from offset 0 |
| SevenZipExtract.SevenZipIgnoresBlockOffset | source/file.c:152-184 | When the entry does not start at the front of its block, and the front's bytes differ from the entry's, the destination does not receive the entry |
| SevenZipExtract.SevenZipClosesArchive | source/file.c:178-199 | Once opened, the archive is closed exactly once, as the last call, except when the destination fails to open: then it is never closed |
| SevenZipExtract.SevenZipFailureKeepsDestination | source/file.c:81-200 | Any result other than a write's own answer leaves the destination unchanged |
| Dispatch.ExtractFromArchive | source/file.c:288-306 | extractFileFromArchive returns and logs exactly what `ArchiveSpec` gives, and the destination afterwards is the old one with the logged writes applied |
| Dispatch.ZipNeverRemoves | source/file.c:202-286 | The ZIP extractor never removes the archive |
| Dispatch.SevenZipNeverRemoves | source/file.c:81-200 | The 7z extractor never removes the archive |
| Dispatch.ArchiveAlwaysRemoved | source/file.c:304 | On every path, even with a name missing, the archive is removed exactly once, as the last call |
| Dispatch.DispatchPassesThrough | source/file.c:292-305 | The result and the destination are those of the extractor the probe selects |
| Dispatch.ZipRouteArchiveOpen | source/file.c:226-301 | For a file the probe at :292 takes for a ZIP, the result is ARCHIVE_OPEN exactly when both names are given, the destination opens, and the ZIP extractor's own `unzOpen64` at :226 then fails |
| Copy.ReadFile | source/file.c:67 | A read returns at most a buffer's worth, 0 exactly at the end of the source, and a full buffer unless it reaches the end. The bytes land at the front of the buffer, and the rest of the buffer keeps its contents |
| Copy.CopyFile | source/file.c:40-79 | -1 when a path is missing, -2 when the source fails to open, -3 when the destination fails to open (the source handle left open); otherwise 0 with the source's exact contents written and its length counted; each path's calls are given |

## Left out

- Library internals: minizip's decompression, the LZMA SDK's parsing and extraction, and the
  filesystem service. Their answers are inputs to the model.
- `printf` diagnostics, `CrcGenerateTable`, `SzArEx_Init` and the allocator callbacks: no
  observable effect on results or files.
- `free` calls: memory release is not modelled.
- Requested names and paths are Dafny strings standing for the C strings' bytes, one
  character per byte, each below 256 and none NUL. The model does no UTF-8 decoding: a
  non-ASCII request is its encoded bytes (see `SevenZipExtract.Utf8RequestMissesOneUnitName`).
- The named result codes (`Config`, `ArchiveOpen`, `Find`, `Info`, `Alloc`, `OpenInArchive`,
  `ReadInArchive`, `WriteFile`) are distinct from every `Raw(v)`. In C they share one
  integer type with the codes passed through (an `unzLocateFile` error, a `writeFile`
  `Result`), and their values are defined in `source/file.h`, which is not part of this model.
  The lemmas that name a code "exactly when" hold in C only if no passed-through code equals
  a named code's value.
- The 7z path's `malloc(archiveSize)` and `fread` are not checked by the source. The model
  takes the image to be loaded whole, and an unreadable file shows only as a failed parse.
- Destination file creation: a write open is logged, but the model does not record that a
  file now exists, only the bytes written into it.
- Offsets, sizes and counts are unbounded integers. The source's `u32` size, `u64` offset and
  `size_t` length cannot overflow for members the model considers (sizes below 2^32).
- The 7z write's `(u32)fileSize` cast is not modelled; the block size is taken to fit.
- `bytesWritten` from `writeFile` is ignored by the source, and the model does not produce it.
- Copy.CopyFile: the source does not check its `malloc(0x1000)` (:62), and the model's buffer
  is always allocated. `readFile` errors are ignored by the source and not modelled (every read is
  taken to succeed). `fwrite`'s result is ignored and every `fwrite` is taken to write all
  its bytes. The destination's bytes are given as the sequence passed to `fwrite`, not as a
  file.
- Routing.Route: the function has no contract of its own. Its properties are the lemmas
  `Routing.RouteShape`, `Routing.RouteOfDevicePath` and `Routing.RouteRoundTrip`.
- The opening of a `FS_Path` and the call to `FSUSER_OpenFileDirectly` are the service's
  `open` answer for the routed target; the archive handle `ARCHIVE_SDMC` and friends are
  the `Volume` values.
