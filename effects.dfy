/** What the extraction routines return and what they do to the world around
    them: result codes, the ordered log of calls into the filesystem service
    and the archive libraries, and the destination file's bytes. */
module Effects {
  import Routing

  datatype Option<T> = None | Some(value: T)

  /** Result codes: the named EXTRACTION_ERROR_* codes, and codes passed
      through unchanged from a library or from writeFile (Raw(0) is success). */
  datatype Code =
    | Config
    | ArchiveOpen
    | Find
    | Info
    | Alloc
    | OpenInArchive
    | ReadInArchive
    | WriteFile
    | Raw(value: int)

  /** One observable call, in the order it is made. */
  datatype Event =
    | FsOpen(target: Routing.Target, code: int)         // openFile: FSUSER_OpenFileDirectly and its result
    | FsWrite(offset: nat, bytes: seq<bv8>, code: int)  // writeFile on the open handle and its result
    | FsClose                                           // closeFile
    | ZipOpen(ok: bool)                                 // unzOpen64, succeeding or returning NULL
    | ZipClose                                          // unzClose
    | StdOpen(path: string, ok: bool)                   // fopen
    | StdClose(path: string)                            // fclose (with the free of the archive image beside it)
    | Remove(path: string)                              // remove

  /** The filesystem service's answers: the result of opening each target,
      and the result of the k-th writeFile call (counting from 0). */
  datatype FsService = FsService(open: Routing.Target -> int, write: nat -> int)

  /** The contents of a destination file, byte by offset. */
  type Disk = map<nat, bv8>

  /** The outcome of one extraction: its result code and the calls it made. */
  datatype Transfer = Transfer(ret: Code, log: seq<Event>)

  /** `d` after writing `bytes` at offset `at`. */
  function Overlay(d: Disk, at: nat, bytes: seq<bv8>): Disk
    decreases |bytes|
  {
    if bytes == [] then d else Overlay(d[at := bytes[0]], at + 1, bytes[1..])
  }

  /** After the write, the offsets it covers hold its bytes and every other
      offset is as before. */
  lemma {:induction false} OverlayAt(d: Disk, at: nat, bytes: seq<bv8>)
    ensures forall i :: i in Overlay(d, at, bytes) <==> i in d || at <= i < at + |bytes|
    ensures forall i :: at <= i < at + |bytes| ==> Overlay(d, at, bytes)[i] == bytes[i - at]
    ensures forall i :: i in d && !(at <= i < at + |bytes|) ==> Overlay(d, at, bytes)[i] == d[i]
    decreases |bytes|
  {
    if bytes != [] {
      OverlayAt(d[at := bytes[0]], at + 1, bytes[1..]);
    }
  }

  /** Two writes that abut are one write of the concatenation. */
  lemma OverlayConcat(d: Disk, at: nat, a: seq<bv8>, b: seq<bv8>)
    ensures Overlay(Overlay(d, at, a), at + |a|, b) == Overlay(d, at, a + b)
  {
    var lhs := Overlay(Overlay(d, at, a), at + |a|, b);
    var rhs := Overlay(d, at, a + b);
    OverlayAt(d, at, a);
    OverlayAt(Overlay(d, at, a), at + |a|, b);
    OverlayAt(d, at, a + b);
    assert forall i :: i in lhs <==> i in rhs;
    forall i | i in lhs.Keys
      ensures lhs[i] == rhs[i]
    {
      if at + |a| <= i < at + |a| + |b| {
        assert lhs[i] == b[i - at - |a|] == (a + b)[i - at];
      } else if at <= i < at + |a| {
        assert lhs[i] == a[i - at] == (a + b)[i - at];
      }
    }
  }

  /** Writes of different bytes of the same length leave different contents. */
  lemma OverlayDiffers(d: Disk, at: nat, x: seq<bv8>, y: seq<bv8>)
    requires |x| == |y| && x != y
    ensures Overlay(d, at, x) != Overlay(d, at, y)
  {
    var j :| 0 <= j < |x| && x[j] != y[j];
    OverlayAt(d, at, x);
    OverlayAt(d, at, y);
    assert Overlay(d, at, x)[at + j] != Overlay(d, at, y)[at + j];
  }

  /** The destination after the writes in `log` that the service accepted
      (result 0); every other event leaves it as it is. */
  function Apply(d: Disk, log: seq<Event>): Disk
    decreases |log|
  {
    if log == [] then d
    else
      var e := log[|log| - 1];
      var before := Apply(d, log[..|log| - 1]);
      if e.FsWrite? && e.code == 0 then Overlay(before, e.offset, e.bytes) else before
  }

  lemma {:induction false} ApplyConcat(d: Disk, a: seq<Event>, b: seq<Event>)
    ensures Apply(d, a + b) == Apply(Apply(d, a), b)
    decreases |b|
  {
    if b == [] {
      assert a + b == a;
    } else {
      var b' := b[..|b| - 1];
      assert (a + b)[..|a + b| - 1] == a + b';
      ApplyConcat(d, a, b');
    }
  }

  /** Appending one event: an accepted write overlays its bytes. */
  lemma ApplyAppend(d: Disk, log: seq<Event>, e: Event)
    ensures Apply(d, log + [e]) == if e.FsWrite? && e.code == 0 then Overlay(Apply(d, log), e.offset, e.bytes) else Apply(d, log)
  {
    assert (log + [e])[..|log|] == log;
  }

  /** An event that is not an accepted write leaves the destination alone. */
  lemma ApplySkip(d: Disk, log: seq<Event>, e: Event)
    requires !(e.FsWrite? && e.code == 0)
    ensures Apply(d, log + [e]) == Apply(d, log)
  {
    assert (log + [e])[..|log|] == log;
  }

  /** True when no event of `log` is a write. */
  predicate NoWrites(log: seq<Event>) {
    forall i :: 0 <= i < |log| ==> !log[i].FsWrite?
  }

  lemma {:induction false} ApplyNoWrites(d: Disk, log: seq<Event>)
    requires NoWrites(log)
    ensures Apply(d, log) == d
    decreases |log|
  {
    if log != [] {
      ApplyNoWrites(d, log[..|log| - 1]);
    }
  }

  /** Calls that write nothing around a run of calls do not change what the
      run leaves in the destination. */
  lemma ApplyAround(d: Disk, head: seq<Event>, mid: seq<Event>, tail: seq<Event>)
    requires NoWrites(head) && NoWrites(tail)
    ensures Apply(d, head + mid + tail) == Apply(d, mid)
  {
    ApplyConcat(d, head + mid, tail);
    ApplyConcat(d, head, mid);
    ApplyNoWrites(d, head);
    ApplyNoWrites(Apply(d, head + mid), tail);
  }

  /** True when `log` is a run of writes, each starting where the previous
      one ended, the first at offset `at`. */
  predicate Contiguous(log: seq<Event>, at: nat)
    decreases |log|
  {
    log == [] || (log[0].FsWrite? && log[0].offset == at && Contiguous(log[1..], at + |log[0].bytes|))
  }

  /** The bytes of the writes in `log`, in order. */
  function Flatten(log: seq<Event>): seq<bv8>
    decreases |log|
  {
    if log == [] then [] else (if log[0].FsWrite? then log[0].bytes else []) + Flatten(log[1..])
  }

  /** True when the service accepts every write of `log`. */
  predicate Accepted(log: seq<Event>) {
    forall i :: 0 <= i < |log| && log[i].FsWrite? ==> log[i].code == 0
  }

  /** Contiguous accepted writes leave the destination holding their bytes
      from `at` on, however the bytes were cut into writes. */
  lemma {:induction false} ApplyContiguous(d: Disk, log: seq<Event>, at: nat)
    requires Contiguous(log, at) && Accepted(log)
    ensures Apply(d, log) == Overlay(d, at, Flatten(log))
    decreases |log|
  {
    if log != [] {
      var w := log[0];
      assert log == [w] + log[1..];
      assert Apply(d, [w]) == Overlay(Apply(d, []), w.offset, w.bytes);
      ApplyConcat(d, [w], log[1..]);
      ApplyContiguous(Overlay(d, at, w.bytes), log[1..], at + |w.bytes|);
      OverlayConcat(d, at, w.bytes, Flatten(log[1..]));
    }
  }

  /** writeFile on the open destination handle as the k-th write of a run:
      its result comes from the service, and an accepted write lands in the
      destination, which held `out` after the calls in `log`. */
  method Write(fs: FsService, k: nat, offset: nat, bytes: seq<bv8>, out: Disk, ghost dest: Disk, ghost log: seq<Event>)
    returns (w: Event, out': Disk)
    requires out == Apply(dest, log)
    ensures w == FsWrite(offset, bytes, fs.write(k))
    ensures out' == Apply(dest, log + [w])
  {
    w := FsWrite(offset, bytes, fs.write(k));
    out' := out;
    if w.code == 0 {
      out' := Overlay(out, offset, bytes);
    }
    ApplyAppend(dest, log, w);
  }
}
