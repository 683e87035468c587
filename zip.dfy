/** extractFileFromZip (source/file.c:202-286): the error ladder in front of
    the member, then the do-while loop that moves the inflated member to the
    destination file in chunks of at most 0x1000 bytes. */
module ZipExtract {
  import opened Effects
  import Routing

  newtype u32 = x: int | 0 <= x < 0x1_0000_0000

  /** minizip's UNZ_OK and UNZ_END_OF_LIST_OF_FILE. */
  const UnzOk: int := 0
  const UnzEndOfListOfFile: int := -100
  /** zlib's Z_DATA_ERROR: what a read of a corrupt stream returns. */
  const DataError: int := -3
  /** The transfer buffer's size: every chunk but the last is this long. */
  const ChunkSize: nat := 0x1000

  /** The located member as the decompressor delivers it: the bytes inflating
      it yields, and whether the stream then ends cleanly (true) or with a
      data error (false). */
  datatype Inflater = Inflater(data: seq<bv8>, clean: bool)

  /** The contents of a 0x1000-byte transfer buffer. */
  type Chunk = s: seq<bv8> | |s| == 0x1000 witness seq(0x1000, _ => 0)

  /** minizip's answers for the archive and the requested name, and the
      allocator's answer for the transfer buffer. */
  datatype ZipArchive = ZipArchive(
    opens: bool,          // unzOpen64 returns a handle
    locate: int,          // unzLocateFile's result
    info: Option<u32>,    // unzGetCurrentFileInfo: the uncompressed size, None when it fails
    alloc: Option<Chunk>, // malloc(0x1000): None when it fails, else whatever the new buffer holds
    openMember: int,      // unzOpenCurrentFile's result
    member: Inflater)     // what unzReadCurrentFile delivers

  /** The result of unzReadCurrentFile asking for `want` bytes when `pos`
      bytes were delivered before: the count read (never more than asked),
      0 at the end of the stream, or an error code. */
  function ReadCount(m: Inflater, pos: nat, want: nat): (n: int)
    ensures n <= want
    ensures n > 0 ==> pos + n <= |m.data|
    ensures pos + want <= |m.data| ==> n == want
    ensures n <= 0 && want > 0 ==> pos >= |m.data| || !m.clean
  {
    if pos + want <= |m.data| then want
    else if !m.clean then DataError
    else if pos < |m.data| then |m.data| - pos
    else 0
  }

  function Min(a: nat, b: nat): nat {
    if a <= b then a else b
  }

  /** The loop at source/file.c:264-276 from a state with `size` bytes left,
      the destination cursor at `offset`, `pos` bytes delivered so far, the
      transfer buffer holding `buf`, and `k` writes made. Each pass clamps the
      request to what is left, reads into the front of the buffer, and on a
      positive count writes the first `toRead` bytes of the buffer (whatever
      the read filled) and advances by `toRead`. */
  function Pump(m: Inflater, fs: FsService, size: nat, offset: nat, pos: nat, buf: seq<bv8>, k: nat): Transfer
    requires |buf| == ChunkSize
    decreases size
  {
    var toRead := Min(ChunkSize, size);
    var n := ReadCount(m, pos, toRead);
    if n <= 0 then Transfer(ReadInArchive, [])
    else
      var filled := m.data[pos..pos + n] + buf[n..];
      var w := FsWrite(offset, filled[..toRead], fs.write(k));
      if size == toRead then Transfer(Raw(w.code), [w])
      else
        var rest := Pump(m, fs, size - toRead, offset + toRead, pos + n, filled, k + 1);
        Transfer(rest.ret, [w] + rest.log)
  }

  /** A run's result and calls once the writes in `done` have been made and
      the loop goes on as `p`. */
  function Resume(done: seq<Event>, p: Transfer): Transfer {
    Transfer(p.ret, done + p.log)
  }

  /** The loop's variables between passes: the bytes still to come, the
      destination cursor, the bytes delivered so far, and the writes made. */
  datatype Cursor = Cursor(left: nat, offset: nat, pos: nat, writes: seq<Event>)

  /** One pass of the loop from cursor `c` with the buffer holding `buf`:
      the request `toRead`, the count `n` readCurrentFile returns, and the
      buffer `filled` after the read. */
  predicate PassFrom(m: Inflater, c: Cursor, buf: seq<bv8>, toRead: nat, n: int, filled: seq<bv8>) {
    |buf| == ChunkSize && toRead == Min(ChunkSize, c.left) && n == ReadCount(m, c.pos, toRead) &&
    filled == if n > 0 then m.data[c.pos..c.pos + n] + buf[n..] else buf
  }

  /** The run from cursor `c`, after the writes already made. */
  function RunFrom(m: Inflater, fs: FsService, c: Cursor, buf: seq<bv8>): Transfer
    requires |buf| == ChunkSize
  {
    Resume(c.writes, Pump(m, fs, c.left, c.offset, c.pos, buf, |c.writes|))
  }

  /** A pass from cursor `c` that reads a positive count with bytes still
      left: the run is that pass's write of the first `toRead` bytes of the
      buffer, followed by the run from the advanced position. */
  lemma PumpNextUnfold(m: Inflater, fs: FsService, c: Cursor, buf: seq<bv8>, toRead: nat, n: int, filled: seq<bv8>)
    requires PassFrom(m, c, buf, toRead, n, filled) && n > 0 && c.left != toRead
    ensures |filled| == ChunkSize && toRead <= |filled|
    ensures var rest := Pump(m, fs, c.left - toRead, c.offset + toRead, c.pos + n, filled, |c.writes| + 1);
            Pump(m, fs, c.left, c.offset, c.pos, buf, |c.writes|)
            == Transfer(rest.ret, [FsWrite(c.offset, filled[..toRead], fs.write(|c.writes|))] + rest.log)
  {
  }

  /** A pass that writes `w` and leaves bytes to come: the run goes on from
      the advanced cursor `c'`. */
  lemma PumpNext(m: Inflater, fs: FsService, c: Cursor, buf: seq<bv8>, toRead: nat, n: int, filled: seq<bv8>, w: Event, c': Cursor)
    requires PassFrom(m, c, buf, toRead, n, filled) && n > 0 && c.left != toRead
    requires w == FsWrite(c.offset, filled[..toRead], fs.write(|c.writes|))
    requires c' == Cursor(c.left - toRead, c.offset + toRead, c.pos + n, c.writes + [w])
    ensures |filled| == ChunkSize
    ensures RunFrom(m, fs, c, buf) == RunFrom(m, fs, c', filled)
  {
    PumpNextUnfold(m, fs, c, buf, toRead, n, filled);
    assert |c'.writes| == |c.writes| + 1;
    var rest := Pump(m, fs, c'.left, c'.offset, c'.pos, filled, |c'.writes|);
    assert c.writes + ([w] + rest.log) == c'.writes + rest.log;
  }

  /** The pass that writes the last `w`: the run ends with its result. */
  lemma PumpLast(m: Inflater, fs: FsService, c: Cursor, buf: seq<bv8>, toRead: nat, n: int, filled: seq<bv8>, w: Event)
    requires PassFrom(m, c, buf, toRead, n, filled) && n > 0 && c.left == toRead
    requires w == FsWrite(c.offset, filled[..toRead], fs.write(|c.writes|))
    ensures RunFrom(m, fs, c, buf) == Transfer(Raw(w.code), c.writes + [w])
  {
  }

  /** A pass whose read is not positive ends the loop with nothing written. */
  lemma PumpFail(m: Inflater, fs: FsService, c: Cursor, buf: seq<bv8>, toRead: nat, n: int, filled: seq<bv8>)
    requires PassFrom(m, c, buf, toRead, n, filled) && n <= 0
    ensures RunFrom(m, fs, c, buf) == Transfer(ReadInArchive, c.writes)
  {
    assert c.writes + [] == c.writes;
  }

  /** True when `log` is a run of writes, the i-th carrying the service's
      answer to the (k+i)-th writeFile call, each a full buffer but the last,
      which is no longer than one. */
  predicate Writes(log: seq<Event>, fs: FsService, k: nat)
    decreases |log|
  {
    log == [] ||
    (log[0].FsWrite? && log[0].code == fs.write(k) && |log[0].bytes| <= ChunkSize &&
     (|log| > 1 ==> |log[0].bytes| == ChunkSize) && Writes(log[1..], fs, k + 1))
  }

  lemma {:induction false} WritesAt(log: seq<Event>, fs: FsService, k: nat)
    requires Writes(log, fs, k)
    ensures forall i :: 0 <= i < |log| ==> log[i].FsWrite? && log[i].code == fs.write(k + i) && |log[i].bytes| <= ChunkSize
    ensures forall i :: 0 <= i < |log| - 1 ==> |log[i].bytes| == ChunkSize
    ensures forall e :: e in log ==> e.FsWrite?
    decreases |log|
  {
    if log != [] {
      WritesAt(log[1..], fs, k + 1);
      assert log == [log[0]] + log[1..];
      forall i | 1 <= i < |log|
        ensures log[i].FsWrite? && log[i].code == fs.write(k + i) && |log[i].bytes| <= ChunkSize
        ensures i < |log| - 1 ==> |log[i].bytes| == ChunkSize
      {
        assert log[i] == log[1..][i - 1];
        assert k + 1 + (i - 1) == k + i;
      }
    }
  }

  /** Every call the loop makes is a write; the i-th of them carries the
      service's answer to the (k+i)-th writeFile call; every chunk but the
      last is a full buffer. */
  lemma {:induction false} PumpWrites(m: Inflater, fs: FsService, size: nat, offset: nat, pos: nat, buf: seq<bv8>, k: nat)
    requires |buf| == ChunkSize
    ensures Writes(Pump(m, fs, size, offset, pos, buf, k).log, fs, k)
    decreases size
  {
    var p := Pump(m, fs, size, offset, pos, buf, k);
    var toRead := Min(ChunkSize, size);
    var n := ReadCount(m, pos, toRead);
    if n > 0 && size != toRead {
      var filled := m.data[pos..pos + n] + buf[n..];
      assert toRead == ChunkSize;
      PumpWrites(m, fs, size - toRead, offset + toRead, pos + n, filled, k + 1);
      assert p.log[1..] == Pump(m, fs, size - toRead, offset + toRead, pos + n, filled, k + 1).log;
    }
  }

  /** The writes tile the destination from `offset` on. */
  lemma {:induction false} PumpContiguous(m: Inflater, fs: FsService, size: nat, offset: nat, pos: nat, buf: seq<bv8>, k: nat)
    requires |buf| == ChunkSize
    ensures Contiguous(Pump(m, fs, size, offset, pos, buf, k).log, offset)
    decreases size
  {
    var p := Pump(m, fs, size, offset, pos, buf, k);
    var toRead := Min(ChunkSize, size);
    var n := ReadCount(m, pos, toRead);
    if n > 0 && size != toRead {
      var filled := m.data[pos..pos + n] + buf[n..];
      PumpContiguous(m, fs, size - toRead, offset + toRead, pos + n, filled, k + 1);
      assert p.log[1..] == Pump(m, fs, size - toRead, offset + toRead, pos + n, filled, k + 1).log;
    }
  }

  /** A run that gets to its end made ceil(size / 0x1000) writes and
      reports the answer to the last of them. */
  lemma {:induction false} PumpCount(m: Inflater, fs: FsService, size: nat, offset: nat, pos: nat, buf: seq<bv8>, k: nat)
    requires |buf| == ChunkSize
    ensures var p := Pump(m, fs, size, offset, pos, buf, k);
            p.ret != ReadInArchive ==>
              |p.log| == (size + ChunkSize - 1) / ChunkSize && p.ret == Raw(fs.write(k + |p.log| - 1))
    decreases size
  {
    var toRead := Min(ChunkSize, size);
    var n := ReadCount(m, pos, toRead);
    if n > 0 && size != toRead {
      var filled := m.data[pos..pos + n] + buf[n..];
      PumpCount(m, fs, size - toRead, offset + toRead, pos + n, filled, k + 1);
      assert (size + ChunkSize - 1) / ChunkSize == 1 + (size - toRead + ChunkSize - 1) / ChunkSize;
    }
  }

  /** A run that gets to its end wrote `size` bytes in all. */
  lemma {:induction false} PumpLength(m: Inflater, fs: FsService, size: nat, offset: nat, pos: nat, buf: seq<bv8>, k: nat)
    requires |buf| == ChunkSize
    ensures var p := Pump(m, fs, size, offset, pos, buf, k);
            p.ret != ReadInArchive ==> |Flatten(p.log)| == size
    decreases size
  {
    var p := Pump(m, fs, size, offset, pos, buf, k);
    var toRead := Min(ChunkSize, size);
    var n := ReadCount(m, pos, toRead);
    if n > 0 {
      var filled := m.data[pos..pos + n] + buf[n..];
      var w := FsWrite(offset, filled[..toRead], fs.write(k));
      if size == toRead {
        assert Flatten(p.log) == w.bytes + Flatten([]);
      } else {
        var rest := Pump(m, fs, size - toRead, offset + toRead, pos + n, filled, k + 1);
        PumpLength(m, fs, size - toRead, offset + toRead, pos + n, filled, k + 1);
        assert p.log == [w] + rest.log;
        assert Flatten(p.log) == w.bytes + Flatten(rest.log) by {
          assert p.log[1..] == rest.log;
        }
      }
    }
  }

  /** Exactly when the loop succeeds. It fails on a member of size 0 (the
      first read asks for nothing and gets 0). A stream that ends cleanly
      succeeds as soon as it reaches into the last chunk, however short that
      read; one that ends in a data error must deliver every byte. */
  lemma {:induction false} PumpSucceeds(m: Inflater, fs: FsService, size: nat, offset: nat, pos: nat, buf: seq<bv8>, k: nat)
    requires |buf| == ChunkSize
    ensures Pump(m, fs, size, offset, pos, buf, k).ret != ReadInArchive
            <==> size > 0 && if m.clean then |m.data| > pos + ChunkSize * ((size - 1) / ChunkSize)
                             else |m.data| >= pos + size
    decreases size
  {
    var toRead := Min(ChunkSize, size);
    var n := ReadCount(m, pos, toRead);
    if size > ChunkSize && n > 0 {
      var filled := m.data[pos..pos + n] + buf[n..];
      PumpSucceeds(m, fs, size - toRead, offset + toRead, pos + n, filled, k + 1);
      assert (size - 1) / ChunkSize == 1 + (size - ChunkSize - 1) / ChunkSize;
      if n < ChunkSize {
        assert ReadCount(m, pos + n, Min(ChunkSize, size - toRead)) == 0;
      }
    }
  }

  /** When the stream holds the `size` bytes the loop asks for, the writes
      carry exactly those bytes, in order. */
  lemma {:induction false} PumpDelivers(m: Inflater, fs: FsService, size: nat, offset: nat, pos: nat, buf: seq<bv8>, k: nat)
    requires |buf| == ChunkSize && pos + size <= |m.data|
    ensures size > 0 ==> Flatten(Pump(m, fs, size, offset, pos, buf, k).log) == m.data[pos..pos + size]
    decreases size
  {
    var p := Pump(m, fs, size, offset, pos, buf, k);
    var toRead := Min(ChunkSize, size);
    if size > 0 {
      var filled := m.data[pos..pos + toRead] + buf[toRead..];
      var w := FsWrite(offset, filled[..toRead], fs.write(k));
      assert w.bytes == m.data[pos..pos + toRead];
      if size == toRead {
        assert Flatten(p.log) == w.bytes + Flatten([]);
      } else {
        var rest := Pump(m, fs, size - toRead, offset + toRead, pos + toRead, filled, k + 1);
        PumpDelivers(m, fs, size - toRead, offset + toRead, pos + toRead, filled, k + 1);
        assert p.log == [w] + rest.log;
        assert Flatten(p.log) == w.bytes + Flatten(rest.log) by {
          assert p.log[1..] == rest.log;
        }
        assert m.data[pos..pos + size] == m.data[pos..pos + toRead] + m.data[pos + toRead..pos + size];
      }
    }
  }

  /** What happens between unzOpen64 and unzClose (source/file.c:235-276):
      locate the member, read its header, allocate the buffer, open the
      member, then the copy loop over the header's uncompressed size. */
  function MemberSpec(a: ZipArchive, fs: FsService): Transfer {
    if a.locate == UnzEndOfListOfFile then Transfer(Find, [])
    else if a.locate != UnzOk then Transfer(Raw(a.locate), [])
    else if a.info.None? then Transfer(Info, [])
    else if a.alloc.None? then Transfer(Alloc, [])
    else if a.openMember != UnzOk then Transfer(OpenInArchive, [])
    else Pump(a.member, fs, a.info.value as nat, 0, 0, a.alloc.value, 0)
  }

  /** What extractFileFromZip returns and the calls it makes. */
  function ZipSpec(filename: Option<string>, filepath: Option<string>, a: ZipArchive, fs: FsService): Transfer {
    if filename.None? || filepath.None? then Transfer(Config, [])
    else
      var target := Routing.Route(filepath.value, true);
      var opening := [FsOpen(target, fs.open(target))];
      if fs.open(target) != 0 then Transfer(WriteFile, opening)
      else if !a.opens then Transfer(ArchiveOpen, opening + [ZipOpen(false), FsClose])
      else
        var r := MemberSpec(a, fs);
        Transfer(r.ret, opening + [ZipOpen(true)] + r.log + [ZipClose, FsClose])
  }

  /** unzReadCurrentFile: the delivered bytes land at the front of `buf`; the
      rest of the buffer keeps what it held. */
  method ReadCurrentFile(m: Inflater, pos: nat, buf: array<bv8>, want: nat) returns (n: int)
    requires want <= buf.Length
    modifies buf
    ensures n == ReadCount(m, pos, want)
    ensures buf[..] == if n > 0 then m.data[pos..pos + n] + old(buf[..])[n..] else old(buf[..])
  {
    n := ReadCount(m, pos, want);
    if n > 0 {
      forall j | 0 <= j < n {
        buf[j] := m.data[pos + j];
      }
      assert buf[..] == m.data[pos..pos + n] + old(buf[..])[n..];
    }
  }

  /** One pass of the do-while loop at source/file.c:264-276 from cursor `c`
      with the buffer holding `contents`: clamp the request to what is left,
      read into the buffer, on a positive count write the first `toRead`
      bytes of the buffer and advance. `spec` is the whole run as seen
      before the pass. When the pass ends the loop (`done`), `spec` is its
      result; otherwise it is what the loop does from the new cursor. */
  method Pass(m: Inflater, fs: FsService, c: Cursor, buf: array<bv8>, out: Disk,
              ghost dest: Disk, ghost spec: Transfer, ghost contents: seq<bv8>)
    returns (done: bool, ret: Code, n: int, c': Cursor, out': Disk, ghost contents': seq<bv8>)
    requires buf.Length == ChunkSize && buf[..] == contents
    requires out == Apply(dest, c.writes)
    requires spec == RunFrom(m, fs, c, contents)
    modifies buf
    ensures buf[..] == contents'
    ensures PassFrom(m, c, contents, Min(ChunkSize, c.left), n, contents')
    ensures n <= 0 ==> done && ret == ReadInArchive && c' == c
    ensures n > 0 ==>
              c' == Cursor(c.left - Min(ChunkSize, c.left), c.offset + Min(ChunkSize, c.left), c.pos + n,
                           c.writes + [FsWrite(c.offset, contents'[..Min(ChunkSize, c.left)], fs.write(|c.writes|))]) &&
              (done <==> c.left <= ChunkSize) &&
              (done ==> ret == Raw(fs.write(|c.writes|)))
    ensures out' == Apply(dest, c'.writes)
    ensures done ==> spec == Transfer(ret, c'.writes)
    ensures !done ==> c'.left < c.left && c'.offset + c'.left == c.offset + c.left
    ensures !done ==> spec == RunFrom(m, fs, c', contents')
  {
    var toRead := Min(ChunkSize, c.left);
    n := ReadCurrentFile(m, c.pos, buf, toRead);
    contents' := buf[..];
    assert PassFrom(m, c, contents, toRead, n, contents');
    done, ret, c', out' := Advance(m, fs, c, toRead, n, buf[..toRead], out, dest, spec, contents, contents');
  }

  /** The rest of the pass once readCurrentFile has returned `n` and the
      buffer holds `filled`, whose first `toRead` bytes are `chunk`: stop on a
      failed read, otherwise write the chunk, then stop after the last chunk
      or move the cursor on. */
  method Advance(m: Inflater, fs: FsService, c: Cursor, toRead: nat, n: int, chunk: seq<bv8>, out: Disk,
                 ghost dest: Disk, ghost spec: Transfer, ghost contents: seq<bv8>, ghost filled: seq<bv8>)
    returns (done: bool, ret: Code, c': Cursor, out': Disk)
    requires PassFrom(m, c, contents, toRead, n, filled)
    requires toRead <= |filled| && chunk == filled[..toRead]
    requires out == Apply(dest, c.writes)
    requires spec == RunFrom(m, fs, c, contents)
    ensures n <= 0 ==> done && ret == ReadInArchive && c' == c
    ensures n > 0 ==>
              c' == Cursor(c.left - toRead, c.offset + toRead, c.pos + n,
                           c.writes + [FsWrite(c.offset, chunk, fs.write(|c.writes|))]) &&
              (done <==> c.left == toRead) &&
              (done ==> ret == Raw(fs.write(|c.writes|)))
    ensures out' == Apply(dest, c'.writes)
    ensures done ==> spec == Transfer(ret, c'.writes)
    ensures !done ==> c'.left < c.left && c'.offset + c'.left == c.offset + c.left
    ensures !done ==> |filled| == ChunkSize && spec == RunFrom(m, fs, c', filled)
  {
    if n <= 0 {
      PumpFail(m, fs, c, contents, toRead, n, filled);
      return true, ReadInArchive, c, out;
    }
    var w;
    w, out' := Write(fs, |c.writes|, c.offset, chunk, out, dest, c.writes);
    ret := Raw(w.code);
    c' := Cursor(c.left - toRead, c.offset + toRead, c.pos + n, c.writes + [w]);
    done := c.left == toRead;
    if done {
      PumpLast(m, fs, c, contents, toRead, n, filled, w);
    } else {
      PumpNext(m, fs, c, contents, toRead, n, filled, w, c');
    }
  }

  /** malloc(0x1000) at source/file.c:250. C leaves the contents
      indeterminate: they are the input `init`. */
  method NewBuffer(init: Chunk) returns (buf: array<bv8>)
    ensures fresh(buf) && buf[..] == init
  {
    buf := new bv8[ChunkSize](i => if 0 <= i < |init| then init[i] else 0);
    assert buf[..] == init;
  }

  /** The do-while loop at source/file.c:264-276, from a fresh transfer
      buffer holding `init`, over a member whose header gives `size` bytes;
      `dest` is the destination file's contents before the loop. */
  method CopyOut(m: Inflater, fs: FsService, size: u32, init: Chunk, dest: Disk) returns (ret: Code, writes: seq<Event>, out: Disk)
    ensures Transfer(ret, writes) == Pump(m, fs, size as nat, 0, 0, init, 0)
    ensures out == Apply(dest, writes)
  {
    var buf := NewBuffer(init);
    var c := Cursor(size as nat, 0, 0, []);
    out := dest;
    ghost var contents: seq<bv8> := init;
    ghost var spec := Pump(m, fs, c.left, 0, 0, contents, 0);
    assert spec == Resume([], spec);
    while true
      invariant buf.Length == ChunkSize && buf[..] == contents
      invariant out == Apply(dest, c.writes)
      invariant spec == RunFrom(m, fs, c, contents)
      invariant c.offset + c.left == size as nat
      decreases c.left
    {
      var done, n;
      done, ret, n, c, out, contents := Pass(m, fs, c, buf, out, dest, spec, contents);
      if done {
        break;
      }
    }
    writes := c.writes;
  }

  /** Every check in front of the copy loop passes: both names are given,
      the destination opens, minizip opens the archive, finds the member and
      reads its header, the buffer is allocated and the member opens. */
  predicate ReachesCopy(filename: Option<string>, filepath: Option<string>, a: ZipArchive, fs: FsService) {
    filename.Some? && filepath.Some? && fs.open(Routing.Route(filepath.value, true)) == 0 &&
    a.opens && a.locate == UnzOk && a.info.Some? && a.alloc.Some? && a.openMember == UnzOk
  }

  /** Every call made between unzOpen64 and unzClose is a write. */
  lemma MemberWrites(a: ZipArchive, fs: FsService)
    ensures forall e :: e in MemberSpec(a, fs).log ==> e.FsWrite?
  {
    if a.locate == UnzOk && a.info.Some? && a.alloc.Some? && a.openMember == UnzOk {
      PumpWrites(a.member, fs, a.info.value as nat, 0, 0, a.alloc.value, 0);
      WritesAt(MemberSpec(a, fs).log, fs, 0);
    }
  }

  /** The writes of a run are those of the copy loop, framed by calls that
      write nothing; a run that stops in front of the loop writes nothing. */
  lemma ZipWrites(filename: Option<string>, filepath: Option<string>, a: ZipArchive, fs: FsService, dest: Disk)
    ensures var r := ZipSpec(filename, filepath, a, fs);
            if ReachesCopy(filename, filepath, a, fs)
            then Apply(dest, r.log) == Apply(dest, Pump(a.member, fs, a.info.value as nat, 0, 0, a.alloc.value, 0).log)
            else NoWrites(r.log) && Apply(dest, r.log) == dest
  {
    var r := ZipSpec(filename, filepath, a, fs);
    if ReachesCopy(filename, filepath, a, fs) {
      var target := Routing.Route(filepath.value, true);
      var head, tail := [FsOpen(target, 0), ZipOpen(true)], [ZipClose, FsClose];
      var mid := Pump(a.member, fs, a.info.value as nat, 0, 0, a.alloc.value, 0).log;
      assert r.log == head + mid + tail;
      assert NoWrites(head) && NoWrites(tail);
      ApplyAround(dest, head, mid, tail);
    } else {
      var t := if filepath.Some? then Routing.Route(filepath.value, true) else Routing.Target(Routing.Sdmc, [], Routing.CreateWrite);
      assert r.log == [] || r.log == [FsOpen(t, fs.open(t))] || r.log == [FsOpen(t, 0), ZipOpen(false), FsClose]
             || r.log == [FsOpen(t, 0), ZipOpen(true), ZipClose, FsClose];
      ApplyNoWrites(dest, r.log);
    }
  }

  /** What a run that reaches the loop returns: success when the stream
      reaches far enough (see PumpSucceeds), and then the answer to the last
      of the ceil(size / 0x1000) writes; READ_IN_ARCHIVE otherwise. */
  lemma ZipResult(filename: Option<string>, filepath: Option<string>, a: ZipArchive, fs: FsService)
    requires ReachesCopy(filename, filepath, a, fs)
    ensures var size := a.info.value as nat;
            var data := a.member.data;
            ZipSpec(filename, filepath, a, fs).ret
            == if size > 0 && (if a.member.clean then |data| > ChunkSize * ((size - 1) / ChunkSize) else |data| >= size)
               then Raw(fs.write((size + ChunkSize - 1) / ChunkSize - 1))
               else ReadInArchive
  {
    var size := a.info.value as nat;
    PumpSucceeds(a.member, fs, size, 0, 0, a.alloc.value, 0);
    PumpCount(a.member, fs, size, 0, 0, a.alloc.value, 0);
  }

  /** Each result code that names a failure between unzOpen64 and unzClose
      comes from exactly one check (source/file.c:235-260); any other
      unzLocateFile failure is passed on as it is. */
  lemma MemberCodes(a: ZipArchive, fs: FsService)
    ensures var r := MemberSpec(a, fs).ret;
            (r == Find <==> a.locate == UnzEndOfListOfFile) &&
            (a.locate != UnzEndOfListOfFile && a.locate != UnzOk ==> r == Raw(a.locate)) &&
            (r == Info <==> a.locate == UnzOk && a.info.None?) &&
            (r == Alloc <==> a.locate == UnzOk && a.info.Some? && a.alloc.None?) &&
            (r == OpenInArchive <==> a.locate == UnzOk && a.info.Some? && a.alloc.Some? && a.openMember != UnzOk)
    ensures var r := MemberSpec(a, fs).ret;
            r == Config || r == ArchiveOpen || r == WriteFile ==> false
  {
    if a.locate == UnzOk && a.info.Some? && a.alloc.Some? && a.openMember == UnzOk {
      var size := a.info.value as nat;
      PumpCount(a.member, fs, size, 0, 0, a.alloc.value, 0);
    }
  }

  /** Each named code extractFileFromZip returns comes from exactly one
      check: CONFIG from a missing name, WRITEFILE from the destination's
      open, ARCHIVE_OPEN from unzOpen64, FIND, INFO, ALLOC and
      OPEN_IN_ARCHIVE from the member checks, READ_IN_ARCHIVE only from the
      copy loop. */
  lemma ZipResultCodes(filename: Option<string>, filepath: Option<string>, a: ZipArchive, fs: FsService)
    ensures var r := ZipSpec(filename, filepath, a, fs).ret;
            r == Config <==> filename.None? || filepath.None?
    ensures var r := ZipSpec(filename, filepath, a, fs).ret;
            r == WriteFile <==> filename.Some? && filepath.Some? && fs.open(Routing.Route(filepath.value, true)) != 0
    ensures var r := ZipSpec(filename, filepath, a, fs).ret;
            r == ArchiveOpen <==> filename.Some? && filepath.Some? && fs.open(Routing.Route(filepath.value, true)) == 0 && !a.opens
    ensures var r := ZipSpec(filename, filepath, a, fs).ret;
            filename.Some? && filepath.Some? && fs.open(Routing.Route(filepath.value, true)) == 0 && a.opens ==>
              r == MemberSpec(a, fs).ret
    ensures ZipSpec(filename, filepath, a, fs).ret == ReadInArchive <==>
            ReachesCopy(filename, filepath, a, fs) &&
            Pump(a.member, fs, a.info.value as nat, 0, 0, a.alloc.value, 0).ret == ReadInArchive
  {
    MemberCodes(a, fs);
  }

  /** A run over a stream holding all `size` bytes, with every write
      accepted, succeeds and leaves those bytes in the destination from
      offset 0 on. */
  lemma PumpLands(m: Inflater, fs: FsService, size: nat, init: Chunk, dest: Disk)
    requires 0 < size <= |m.data|
    requires forall j :: fs.write(j) == 0
    ensures var p := Pump(m, fs, size, 0, 0, init, 0);
            p.ret == Raw(0) && Apply(dest, p.log) == Overlay(dest, 0, m.data[..size])
  {
    var p := Pump(m, fs, size, 0, 0, init, 0);
    assert p.ret != ReadInArchive by {
      assert ChunkSize * ((size - 1) / ChunkSize) <= size - 1;
      PumpSucceeds(m, fs, size, 0, 0, init, 0);
    }
    assert p.ret == Raw(0) by {
      PumpCount(m, fs, size, 0, 0, init, 0);
    }
    assert Accepted(p.log) by {
      PumpWrites(m, fs, size, 0, 0, init, 0);
      WritesAt(p.log, fs, 0);
    }
    assert Flatten(p.log) == m.data[..size] by {
      PumpDelivers(m, fs, size, 0, 0, init, 0);
    }
    PumpContiguous(m, fs, size, 0, 0, init, 0);
    ApplyContiguous(dest, p.log, 0);
  }

  /** The main promise: when the member's stream holds the `size` bytes its
      header announces and the service accepts every write, the run succeeds
      and the destination holds the member from offset 0 on. */
  lemma ZipDeliversMember(filename: Option<string>, filepath: Option<string>, a: ZipArchive, fs: FsService, dest: Disk)
    requires ReachesCopy(filename, filepath, a, fs)
    requires 0 < a.info.value as nat <= |a.member.data|
    requires forall j :: fs.write(j) == 0
    ensures ZipSpec(filename, filepath, a, fs).ret == Raw(0)
    ensures Apply(dest, ZipSpec(filename, filepath, a, fs).log) == Overlay(dest, 0, a.member.data[..a.info.value])
  {
    ZipWrites(filename, filepath, a, fs, dest);
    PumpLands(a.member, fs, a.info.value as nat, a.alloc.value, dest);
  }

  /** A clean stream shorter than the one chunk asked for: the read returns
      the short count, yet all `size` bytes of the buffer are written, the
      stream's bytes followed by what the fresh buffer held after them. */
  lemma PumpShort(m: Inflater, fs: FsService, size: nat, init: Chunk)
    requires m.clean && 0 < |m.data| < size <= ChunkSize
    ensures Pump(m, fs, size, 0, 0, init, 0)
            == Transfer(Raw(fs.write(0)), [FsWrite(0, m.data + init[|m.data|..size], fs.write(0))])
  {
    var n := |m.data|;
    assert Min(ChunkSize, size) == size;
    assert ReadCount(m, 0, size) == n;
    var filled := m.data[0..n] + init[n..];
    assert filled[..size] == m.data + init[n..size];
  }

  /** A short member: the header announces `size` bytes, at most one chunk,
      but the stream ends cleanly after fewer. The read's short count is not
      used: all `size` bytes of the buffer are written, the stream's bytes
      followed by what the fresh buffer held, and the run reports the write's
      result. */
  lemma ZipShortMemberPads(filename: Option<string>, filepath: Option<string>, a: ZipArchive, fs: FsService)
    requires ReachesCopy(filename, filepath, a, fs)
    requires a.member.clean && 0 < |a.member.data| < a.info.value as nat <= ChunkSize
    ensures var size := a.info.value as nat;
            var w := FsWrite(0, a.member.data + a.alloc.value[|a.member.data|..size], fs.write(0));
            ZipSpec(filename, filepath, a, fs)
            == Transfer(Raw(fs.write(0)), [FsOpen(Routing.Route(filepath.value, true), 0), ZipOpen(true), w, ZipClose, FsClose])
  {
    var size := a.info.value as nat;
    var w := FsWrite(0, a.member.data + a.alloc.value[|a.member.data|..size], fs.write(0));
    PumpShort(a.member, fs, size, a.alloc.value);
    var head := [FsOpen(Routing.Route(filepath.value, true), 0), ZipOpen(true)];
    assert ZipSpec(filename, filepath, a, fs) == Transfer(Raw(fs.write(0)), head + [w] + [ZipClose, FsClose]);
  }

  /** The calls between opening the archive and closing it: none closes a
      handle. */
  lemma ZipMiddle(filename: Option<string>, filepath: Option<string>, a: ZipArchive, fs: FsService) returns (mid: seq<Event>)
    requires filename.Some? && filepath.Some? && fs.open(Routing.Route(filepath.value, true)) == 0 && a.opens
    ensures ZipSpec(filename, filepath, a, fs).log
            == [FsOpen(Routing.Route(filepath.value, true), 0), ZipOpen(true)] + mid + [ZipClose, FsClose]
    ensures FsClose !in mid && ZipClose !in mid
  {
    mid := MemberSpec(a, fs).log;
    MemberWrites(a, fs);
  }

  /** The destination handle is released: once it is open it is closed
      exactly once, as the last call; when it does not open, nothing else is
      attempted and the archive is not touched. */
  lemma ZipClosesDestination(filename: Option<string>, filepath: Option<string>, a: ZipArchive, fs: FsService)
    requires filename.Some? && filepath.Some?
    ensures var t := Routing.Route(filepath.value, true);
            var log := ZipSpec(filename, filepath, a, fs).log;
            (fs.open(t) != 0 ==> log == [FsOpen(t, fs.open(t))]) &&
            (fs.open(t) == 0 ==> log[|log| - 1] == FsClose && multiset(log)[FsClose] == 1)
  {
    var t := Routing.Route(filepath.value, true);
    var log := ZipSpec(filename, filepath, a, fs).log;
    if fs.open(t) == 0 && !a.opens {
      assert log == [FsOpen(t, 0), ZipOpen(false), FsClose];
    } else if fs.open(t) == 0 {
      var mid := ZipMiddle(filename, filepath, a, fs);
      var head, tail := [FsOpen(t, 0), ZipOpen(true)], [ZipClose, FsClose];
      assert log == head + mid + tail;
      assert multiset(log) == multiset(head) + multiset(mid) + multiset(tail);
    }
  }

  /** The archive handle is released exactly when it was opened. */
  lemma ZipClosesArchive(filename: Option<string>, filepath: Option<string>, a: ZipArchive, fs: FsService)
    requires filename.Some? && filepath.Some?
    ensures var log := ZipSpec(filename, filepath, a, fs).log;
            multiset(log)[ZipClose] == (if fs.open(Routing.Route(filepath.value, true)) == 0 && a.opens then 1 else 0)
  {
    var t := Routing.Route(filepath.value, true);
    var log := ZipSpec(filename, filepath, a, fs).log;
    if fs.open(t) == 0 && a.opens {
      var mid := ZipMiddle(filename, filepath, a, fs);
      var head, tail := [FsOpen(t, 0), ZipOpen(true)], [ZipClose, FsClose];
      assert log == head + mid + tail;
      assert multiset(log) == multiset(head) + multiset(mid) + multiset(tail);
    }
  }

  /** The calls between unzOpen64 and unzClose, from the destination
      holding `dest`. The checks share one exit in the source, so a failure
      here still closes the archive and the destination. */
  method ReadMember(a: ZipArchive, fs: FsService, dest: Disk) returns (ret: Code, log: seq<Event>, out: Disk)
    ensures Transfer(ret, log) == MemberSpec(a, fs)
    ensures out == Apply(dest, log)
  {
    log, out := [], dest;
    if a.locate == UnzEndOfListOfFile {
      return Find, log, out;
    }
    if a.locate != UnzOk {
      return Raw(a.locate), log, out;
    }
    if a.info.None? {
      return Info, log, out;
    }
    if a.alloc.None? {
      return Alloc, log, out;
    }
    if a.openMember != UnzOk {
      return OpenInArchive, log, out;
    }
    ret, log, out := CopyOut(a.member, fs, a.info.value, a.alloc.value, dest);
  }

  /** extractFileFromZip. `dest` is the destination file's contents before the
      call; `out` is what it holds afterwards. */
  method ExtractFromZip(filename: Option<string>, filepath: Option<string>, a: ZipArchive, fs: FsService, dest: Disk)
    returns (ret: Code, log: seq<Event>, out: Disk)
    ensures Transfer(ret, log) == ZipSpec(filename, filepath, a, fs)
    ensures out == Apply(dest, log)
  {
    if filename.None? || filepath.None? {
      return Config, [], dest;
    }
    var target := Routing.Route(filepath.value, true);
    var code := fs.open(target);
    if code != 0 {
      log := [FsOpen(target, code)];
      ApplyNoWrites(dest, log);
      return WriteFile, log, dest;
    }
    if !a.opens {
      log := [FsOpen(target, code), ZipOpen(false), FsClose];
      ApplyNoWrites(dest, log);
      return ArchiveOpen, log, dest;
    }
    var head, member, tail := [FsOpen(target, code), ZipOpen(true)], [], [ZipClose, FsClose];
    ret, member, out := ReadMember(a, fs, dest);
    ApplyAround(dest, head, member, tail);
    log := head + member + tail;
  }
}
