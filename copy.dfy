/** copyFile (source/file.c:40-79): copy a file opened through the filesystem
    service into a file opened with fopen, 0x1000 bytes at a time, until a
    read returns nothing. */
module Copy {
  import opened Effects
  import Routing

  /** The size of the transfer buffer and of every read request. */
  const CopyChunk: nat := 0x1000

  /** readFile at `offset` asking for a whole buffer: the service returns the
      bytes the source still holds there, at most a buffer's worth, at the
      front of `buf`, and leaves the rest of `buf` as it was. */
  method ReadFile(source: seq<bv8>, offset: nat, buf: array<bv8>) returns (bytesRead: nat)
    requires buf.Length == CopyChunk && offset <= |source|
    modifies buf
    ensures bytesRead <= CopyChunk && offset + bytesRead <= |source|
    ensures bytesRead == 0 <==> offset == |source|
    ensures bytesRead == CopyChunk || offset + bytesRead == |source|
    ensures buf[..bytesRead] == source[offset..offset + bytesRead]
    ensures buf[bytesRead..] == old(buf[bytesRead..])
  {
    bytesRead := if |source| - offset < CopyChunk then |source| - offset else CopyChunk;
    forall j | 0 <= j < bytesRead {
      buf[j] := source[offset + j];
    }
  }

  /** copyFile. `source` is the source file's contents; `destOpens` is
      whether fopen(destpath, "wb") succeeds. `written` is what fwrite
      receives, in order, and `total` the byte count the function reports.
      The source handle is not closed when the destination fails to open. */
  method CopyFile(srcpath: Option<string>, destpath: Option<string>, fs: FsService, source: seq<bv8>, destOpens: bool)
    returns (ret: int, log: seq<Event>, written: seq<bv8>, total: nat)
    ensures srcpath.None? || destpath.None? ==> ret == -1 && log == []
    ensures srcpath.Some? && destpath.Some? ==>
      var t := Routing.Route(srcpath.value, false);
      if fs.open(t) != 0 then ret == -2 && log == [FsOpen(t, fs.open(t))]
      else if !destOpens then ret == -3 && log == [FsOpen(t, 0), StdOpen(destpath.value, false)]
      else ret == 0 && log == [FsOpen(t, 0), StdOpen(destpath.value, true), FsClose, StdClose(destpath.value)]
    ensures ret == 0 ==> written == source && total == |source|
    ensures ret != 0 ==> written == [] && total == 0
  {
    written, total := [], 0;
    if srcpath.None? || destpath.None? {
      return -1, [], written, total;
    }
    var t := Routing.Route(srcpath.value, false);
    var code := fs.open(t);
    log := [FsOpen(t, code)];
    if code != 0 {
      return -2, log, written, total;
    }
    if !destOpens {
      return -3, log + [StdOpen(destpath.value, false)], written, total;
    }
    log := log + [StdOpen(destpath.value, true)];
    var buf := new bv8[CopyChunk];
    var offset: nat := 0;
    while true
      invariant offset <= |source| && written == source[..offset]
      decreases |source| - offset
    {
      var bytesRead := ReadFile(source, offset, buf);
      written := written + buf[..bytesRead];
      offset := offset + bytesRead;
      if bytesRead == 0 {
        break;
      }
    }
    total := offset;
    log := log + [FsClose, StdClose(destpath.value)];
    ret := 0;
  }
}
