/** extractFileFrom7z (source/file.c:81-200): open the archive image, scan the
    LZMA SDK's file table for the first entry whose narrowed name equals the
    requested one, extract it and write it to the destination in one call. */
module SevenZipExtract {
  import opened Effects
  import Routing

  newtype u16 = x: int | 0 <= x < 0x1_0000

  /** Names of this many code units or more are skipped. */
  const MaxName: nat := 256

  /** What SzArEx_Extract hands back for an entry: the decoded folder in
      `buf`, and where the entry's own `size` bytes start in it. */
  datatype Block = Block(buf: seq<bv8>, offset: nat, size: nat)

  /** The library guarantees that the entry lies inside the buffer. */
  type Extracted = b: Block | b.offset + b.size <= |b.buf| witness Block([], 0, 0)

  /** One file-table entry: SzArEx_IsDir, the code units
      SzArEx_GetFileNameUtf16 copies out (their count is what it returns),
      and SzArEx_Extract's outcome, None when it fails. The LZMA SDK counts
      the name's terminating zero unit too, so `name` may end with 0; that
      unit narrows to NUL and ends the comparison like the buffer's own
      padding, so nothing below depends on whether it is there. */
  datatype Entry = Entry(isDir: bool, name: seq<u16>, extract: Option<Extracted>)

  /** The archive as the extractor meets it: whether fopen succeeds, and the
      file table SzArEx_Open parses from the image, None when it fails. */
  datatype SevenZipArchive = SevenZipArchive(readable: bool, table: Option<seq<Entry>>)

  /** `name[j] % 0xff`: the remainder modulo 255, not the low byte. Code
      units below 255 are kept; 0xFF becomes 0, 0x100 becomes 1. */
  function Narrow(u: u16): (c: char)
    ensures c as int < 255
    ensures u as int < 255 ==> c as int == u as int
  {
    ((u as int) % 255) as char
  }

  /** Every code unit of `name` narrowed, in order. */
  function Narrowed(name: seq<u16>): seq<char> {
    seq(|name|, j requires 0 <= j < |name| => Narrow(name[j]))
  }

  /** The zero-initialised 256-character buffer `name8` after the narrowing
      loop has filled its first |name| characters. */
  function NameBuffer(name: seq<u16>): seq<char>
    requires |name| < MaxName
  {
    Narrowed(name) + seq(MaxName - |name|, _ => '\0')
  }

  /** What strcmp sees of a character array: the characters before the first
      NUL (all of them when there is none). */
  function CStr(s: seq<char>): (r: seq<char>)
    ensures r <= s && '\0' !in r
    ensures |r| < |s| ==> s[|r|] == '\0'
    decreases |s|
  {
    if s == [] || s[0] == '\0' then [] else [s[0]] + CStr(s[1..])
  }

  /** Anything after a NUL is invisible to strcmp. */
  lemma {:induction false} CStrPadding(s: seq<char>, pad: seq<char>)
    requires pad == [] || pad[0] == '\0'
    ensures CStr(s + pad) == CStr(s)
    decreases |s|
  {
    if s == [] {
      assert s + pad == pad;
    } else if s[0] != '\0' {
      assert (s + pad)[1..] == s[1..] + pad;
      CStrPadding(s[1..], pad);
    }
  }

  /** The comparison at source/file.c:155 for one entry, after the skips at
      :131-138: not a directory, a name of fewer than 256 code units, and a
      narrowed name that strcmp finds equal to the requested one. The
      requested name stands for the C string's bytes, one character per byte
      (each below 256): a UTF-8 request is its encoded bytes, not the decoded
      characters. */
  predicate Matches(e: Entry, filename: string) {
    !e.isDir && |e.name| < MaxName && CStr(NameBuffer(e.name)) == CStr(filename)
  }

  /** The zero padding of `name8` plays no part: the comparison is between
      the narrowed name and the requested name, each up to its first NUL. */
  lemma MatchesNarrowed(e: Entry, filename: string)
    ensures Matches(e, filename)
            <==> !e.isDir && |e.name| < MaxName && CStr(Narrowed(e.name)) == CStr(filename)
  {
    if |e.name| < MaxName {
      CStrPadding(Narrowed(e.name), seq(MaxName - |e.name|, _ => '\0'));
    }
  }

  /** Narrowing works unit by unit. */
  lemma NarrowedConcat(a: seq<u16>, b: seq<u16>)
    ensures Narrowed(a + b) == Narrowed(a) + Narrowed(b)
  {
    forall j | 0 <= j < |a + b|
      ensures Narrowed(a + b)[j] == (Narrowed(a) + Narrowed(b))[j]
    {
      if j >= |a| {
        assert (a + b)[j] == b[j - |a|];
      }
    }
  }

  /** 0xFF narrows to NUL in the middle of a name. */
  lemma NarrowedWrapped(pre: seq<u16>, post: seq<u16>)
    ensures Narrowed(pre + [0xFF] + post) == Narrowed(pre) + (['\0'] + Narrowed(post))
  {
    NarrowedConcat(pre, [0xFF]);
    NarrowedConcat(pre + [0xFF], post);
    assert Narrowed([0xFF]) == ['\0'];
  }

  /** A code unit 0xFF narrows to NUL, so it ends the comparison: whatever
      follows it in the stored name is ignored. */
  lemma WrappedUnitEndsName(pre: seq<u16>, post: seq<u16>, filename: string)
    requires |pre| + 1 + |post| < MaxName
    ensures Matches(Entry(false, pre + [0xFF] + post, None), filename) <==> CStr(Narrowed(pre)) == CStr(filename)
  {
    MatchesNarrowed(Entry(false, pre + [0xFF] + post, None), filename);
    NarrowedWrapped(pre, post);
    CStrPadding(Narrowed(pre), ['\0'] + Narrowed(post));
  }

  /** A match never compares more characters than the entry's name has code
      units: each unit narrows to one character. */
  lemma MatchLength(e: Entry, filename: string)
    requires Matches(e, filename)
    ensures |CStr(filename)| <= |e.name|
  {
    MatchesNarrowed(e, filename);
    assert |CStr(Narrowed(e.name))| <= |Narrowed(e.name)|;
  }

  /** So a request spelt in UTF-8 misses the same name stored as one UTF-16
      unit: U+00E9 arrives as the two bytes C3 A9, and no one-unit name
      narrows to two characters. */
  lemma Utf8RequestMissesOneUnitName(u: u16)
    ensures !Matches(Entry(false, [u], None), ['\U{C3}', '\U{A9}'])
  {
    var request := ['\U{C3}', '\U{A9}'];
    assert CStr(request) == request by {
      assert CStr(request[1..]) == [request[1]] + CStr(request[2..]);
    }
    if Matches(Entry(false, [u], None), request) {
      MatchLength(Entry(false, [u], None), request);
    }
  }

  /** Names whose code units agree modulo 255 are indistinguishable: they
      match exactly the same requested names. */
  lemma AliasedNames(a: seq<u16>, b: seq<u16>, filename: string)
    requires |a| == |b|
    requires forall j :: 0 <= j < |a| ==> a[j] as int % 255 == b[j] as int % 255
    ensures Matches(Entry(false, a, None), filename) <==> Matches(Entry(false, b, None), filename)
  {
    assert Narrowed(a) == Narrowed(b);
  }

  /** The first entry from `from` on that matches, in table order. */
  function FirstMatch(table: seq<Entry>, filename: string, from: nat): (r: Option<nat>)
    requires from <= |table|
    ensures r.Some? ==> from <= r.value < |table| && Matches(table[r.value], filename)
    ensures r.Some? ==> forall j :: from <= j < r.value ==> !Matches(table[j], filename)
    ensures r.None? ==> forall j :: from <= j < |table| ==> !Matches(table[j], filename)
    decreases |table| - from
  {
    if from == |table| then None
    else if Matches(table[from], filename) then Some(from)
    else FirstMatch(table, filename, from + 1)
  }

  /** The calls made for the matching entry (source/file.c:156-189) and the
      result they give: READ_IN_ARCHIVE when extraction fails, WRITEFILE
      when the destination does not open, otherwise the answer to the one
      write. The write takes `size` bytes from the start of the block, not
      from the entry's offset in it: the declaration at :176 shadows the
      block offset set at :152. */
  function EntrySpec(e: Entry, filepath: string, fs: FsService): Transfer {
    if e.extract.None? then Transfer(ReadInArchive, [])
    else
      var b := e.extract.value;
      var t := Routing.Route(filepath, true);
      if fs.open(t) != 0 then Transfer(WriteFile, [FsOpen(t, fs.open(t))])
      else
        var w := FsWrite(0, b.buf[..b.size], fs.write(0));
        Transfer(Raw(w.code), [FsOpen(t, 0), w, FsClose])
  }

  /** What extractFileFrom7z returns and the calls it makes. WRITEFILE is
      returned at once, without closing the archive. */
  function SevenZipSpec(archivePath: string, filename: Option<string>, filepath: Option<string>,
                        a: SevenZipArchive, fs: FsService): Transfer
  {
    if filename.None? || filepath.None? then Transfer(Config, [])
    else if !a.readable then Transfer(ArchiveOpen, [StdOpen(archivePath, false)])
    else
      var opening := [StdOpen(archivePath, true)];
      var closing := [StdClose(archivePath)];
      if a.table.None? then Transfer(ArchiveOpen, opening + closing)
      else
        match FirstMatch(a.table.value, filename.value, 0)
        case None => Transfer(Find, opening + closing)
        case Some(i) =>
          var r := EntrySpec(a.table.value[i], filepath.value, fs);
          if r.ret == WriteFile then Transfer(WriteFile, opening + r.log)
          else Transfer(r.ret, opening + r.log + closing)
  }

  /** The archive is opened and parsed, and both names are given. */
  predicate Scans(filename: Option<string>, filepath: Option<string>, a: SevenZipArchive) {
    filename.Some? && filepath.Some? && a.readable && a.table.Some?
  }

  /** FIND is returned exactly when the scan runs over the whole table without
      a match: directories, names of 256 code units or more, and names that
      differ from the requested one are passed over. */
  lemma SevenZipFindIff(archivePath: string, filename: Option<string>, filepath: Option<string>, a: SevenZipArchive, fs: FsService)
    ensures SevenZipSpec(archivePath, filename, filepath, a, fs).ret == Find
            <==> Scans(filename, filepath, a) &&
                 forall i :: 0 <= i < |a.table.value| ==> !Matches(a.table.value[i], filename.value)
  {
    if Scans(filename, filepath, a) {
      var r := FirstMatch(a.table.value, filename.value, 0);
      if r.Some? {
        assert Matches(a.table.value[r.value], filename.value);
        assert EntrySpec(a.table.value[r.value], filepath.value, fs).ret != Find;
      }
    }
  }

  /** Each named code extractFileFrom7z returns comes from exactly one
      check: CONFIG from a missing name, ARCHIVE_OPEN from fopen or
      SzArEx_Open, READ_IN_ARCHIVE from SzArEx_Extract on the first match,
      WRITEFILE from opening the destination for it. */
  lemma SevenZipResultCodes(archivePath: string, filename: Option<string>, filepath: Option<string>,
                            a: SevenZipArchive, fs: FsService)
    ensures var r := SevenZipSpec(archivePath, filename, filepath, a, fs).ret;
            r == Config <==> filename.None? || filepath.None?
    ensures var r := SevenZipSpec(archivePath, filename, filepath, a, fs).ret;
            r == ArchiveOpen <==> filename.Some? && filepath.Some? && (!a.readable || a.table.None?)
    ensures var r := SevenZipSpec(archivePath, filename, filepath, a, fs).ret;
            r == ReadInArchive <==>
              Scans(filename, filepath, a) && FirstMatch(a.table.value, filename.value, 0).Some? &&
              a.table.value[FirstMatch(a.table.value, filename.value, 0).value].extract.None?
    ensures var r := SevenZipSpec(archivePath, filename, filepath, a, fs).ret;
            r == WriteFile <==>
              Scans(filename, filepath, a) && FirstMatch(a.table.value, filename.value, 0).Some? &&
              a.table.value[FirstMatch(a.table.value, filename.value, 0).value].extract.Some? &&
              fs.open(Routing.Route(filepath.value, true)) != 0
  {
  }

  /** Only the first matching entry in table order is extracted, and when its
      extraction yields the block `b` and the service accepts the write, the
      destination receives the first `size` bytes of the block, from offset
      0, and the result is success. */
  lemma SevenZipWritesFirstMatch(archivePath: string, filename: Option<string>, filepath: Option<string>,
                                 a: SevenZipArchive, fs: FsService, dest: Disk, i: nat, b: Extracted)
    requires Scans(filename, filepath, a) && i < |a.table.value|
    requires Matches(a.table.value[i], filename.value)
    requires forall j :: 0 <= j < i ==> !Matches(a.table.value[j], filename.value)
    requires a.table.value[i].extract == Some(b)
    requires fs.open(Routing.Route(filepath.value, true)) == 0 && fs.write(0) == 0
    ensures SevenZipSpec(archivePath, filename, filepath, a, fs).ret == Raw(0)
    ensures Apply(dest, SevenZipSpec(archivePath, filename, filepath, a, fs).log) == Overlay(dest, 0, b.buf[..b.size])
  {
    var table := a.table.value;
    assert FirstMatch(table, filename.value, 0) == Some(i);
    var t := Routing.Route(filepath.value, true);
    var w := FsWrite(0, b.buf[..b.size], 0);
    var log := [StdOpen(archivePath, true)] + [FsOpen(t, 0), w, FsClose] + [StdClose(archivePath)];
    assert SevenZipSpec(archivePath, filename, filepath, a, fs).log == log;
    ApplyAround(dest, [StdOpen(archivePath, true), FsOpen(t, 0)], [w], [FsClose, StdClose(archivePath)]);
    assert log == [StdOpen(archivePath, true), FsOpen(t, 0)] + [w] + [FsClose, StdClose(archivePath)];
    assert Apply(dest, [w]) == Overlay(Apply(dest, []), 0, w.bytes);
  }

  /** The shadowed offset in effect: when the entry does not start at the
      front of its block and the front differs from the entry's bytes, the
      destination does not receive the entry. */
  lemma SevenZipIgnoresBlockOffset(archivePath: string, filename: Option<string>, filepath: Option<string>,
                                   a: SevenZipArchive, fs: FsService, dest: Disk, i: nat, b: Extracted)
    requires Scans(filename, filepath, a) && i < |a.table.value|
    requires Matches(a.table.value[i], filename.value)
    requires forall j :: 0 <= j < i ==> !Matches(a.table.value[j], filename.value)
    requires a.table.value[i].extract == Some(b)
    requires fs.open(Routing.Route(filepath.value, true)) == 0 && fs.write(0) == 0
    requires b.buf[..b.size] != b.buf[b.offset..b.offset + b.size]
    ensures Apply(dest, SevenZipSpec(archivePath, filename, filepath, a, fs).log) != Overlay(dest, 0, b.buf[b.offset..b.offset + b.size])
  {
    SevenZipWritesFirstMatch(archivePath, filename, filepath, a, fs, dest, i, b);
    OverlayDiffers(dest, 0, b.buf[..b.size], b.buf[b.offset..b.offset + b.size]);
  }

  /** The matching entry's branch never closes the archive. */
  lemma EntryLeavesArchive(e: Entry, filepath: string, fs: FsService, archivePath: string)
    ensures StdClose(archivePath) !in EntrySpec(e, filepath, fs).log
  {
  }

  /** Cleanup is not uniform: once the archive is open, it is closed exactly
      once, as the last call, unless the destination fails to open; then
      WRITEFILE is returned with the archive still open. */
  lemma SevenZipClosesArchive(archivePath: string, filename: Option<string>, filepath: Option<string>,
                              a: SevenZipArchive, fs: FsService)
    requires filename.Some? && filepath.Some? && a.readable
    ensures var r := SevenZipSpec(archivePath, filename, filepath, a, fs);
            (r.ret == WriteFile ==> StdClose(archivePath) !in r.log) &&
            (r.ret != WriteFile ==> r.log[|r.log| - 1] == StdClose(archivePath) && multiset(r.log)[StdClose(archivePath)] == 1)
  {
    var r := SevenZipSpec(archivePath, filename, filepath, a, fs);
    var opening, closing := [StdOpen(archivePath, true)], [StdClose(archivePath)];
    var mid: seq<Event> := [];
    if a.table.Some? {
      var m := FirstMatch(a.table.value, filename.value, 0);
      if m.Some? {
        var e := EntrySpec(a.table.value[m.value], filepath.value, fs);
        EntryLeavesArchive(a.table.value[m.value], filepath.value, fs, archivePath);
        if e.ret == WriteFile {
          assert r.log == opening + e.log;
          return;
        }
        mid := e.log;
      }
    }
    assert r.log == opening + mid + closing;
    assert multiset(r.log) == multiset(opening) + multiset(mid) + multiset(closing);
  }

  /** A run that ends in anything but a write's own result leaves the
      destination as it was. */
  lemma SevenZipFailureKeepsDestination(archivePath: string, filename: Option<string>, filepath: Option<string>,
                                        a: SevenZipArchive, fs: FsService, dest: Disk)
    ensures var r := SevenZipSpec(archivePath, filename, filepath, a, fs);
            !r.ret.Raw? ==> NoWrites(r.log) && Apply(dest, r.log) == dest
  {
    var r := SevenZipSpec(archivePath, filename, filepath, a, fs);
    if !r.ret.Raw? {
      ApplyNoWrites(dest, r.log);
    }
  }

  /** The narrowing loop at source/file.c:144-147: a zero-filled 256-character
      buffer whose first |name| characters receive the narrowed code units. */
  method NarrowName(name: seq<u16>) returns (name8: seq<char>)
    requires |name| < MaxName
    ensures name8 == NameBuffer(name)
  {
    var buf := new char[MaxName](_ => '\0');
    for j := 0 to |name|
      invariant forall k :: 0 <= k < j ==> buf[k] == Narrow(name[k])
      invariant forall k :: j <= k < MaxName ==> buf[k] == '\0'
    {
      buf[j] := Narrow(name[j]);
    }
    name8 := buf[..];
    assert name8 == NameBuffer(name);
  }

  /** The matching entry's branch at source/file.c:156-189, up to the jump
      to `finish:` or the early return. */
  method ExtractEntry(e: Entry, filepath: string, fs: FsService, dest: Disk)
    returns (ret: Code, calls: seq<Event>, out: Disk)
    ensures Transfer(ret, calls) == EntrySpec(e, filepath, fs)
    ensures out == Apply(dest, calls)
  {
    if e.extract.None? {
      return ReadInArchive, [], dest;
    }
    var b := e.extract.value;
    var t := Routing.Route(filepath, true);
    var code := fs.open(t);
    ApplySkip(dest, [], FsOpen(t, code));
    calls, out := [FsOpen(t, code)], dest;
    if code != 0 {
      return WriteFile, calls, out;
    }
    var offset := 0;
    var w;
    w, out := Write(fs, 0, offset, b.buf[offset..offset + b.size], out, dest, calls);
    ApplySkip(dest, calls + [w], FsClose);
    assert calls + [w] + [FsClose] == [FsOpen(t, 0), w, FsClose];
    calls := calls + [w, FsClose];
    ret := Raw(w.code);
  }

  /** extractFileFrom7z. `dest` is the destination file's contents before the
      call; `out` is what it holds afterwards. */
  method ExtractFrom7z(archivePath: string, filename: Option<string>, filepath: Option<string>,
                       a: SevenZipArchive, fs: FsService, dest: Disk)
    returns (ret: Code, log: seq<Event>, out: Disk)
    ensures Transfer(ret, log) == SevenZipSpec(archivePath, filename, filepath, a, fs)
    ensures out == Apply(dest, log)
  {
    if filename.None? || filepath.None? {
      return Config, [], dest;
    }
    if !a.readable {
      ApplySkip(dest, [], StdOpen(archivePath, false));
      return ArchiveOpen, [StdOpen(archivePath, false)], dest;
    }
    log, out := [StdOpen(archivePath, true)], dest;
    ApplySkip(dest, [], log[0]);
    label finish: {
      if a.table.None? {
        ret := ArchiveOpen;
        break finish;
      }
      var table := a.table.value;
      for i := 0 to |table|
        invariant forall j :: 0 <= j < i ==> !Matches(table[j], filename.value)
        invariant log == [StdOpen(archivePath, true)] && out == dest
      {
        if table[i].isDir {
          continue;
        }
        var len := |table[i].name|;
        if len >= MaxName {
          continue;
        }
        var name8 := NarrowName(table[i].name);
        if CStr(name8) == CStr(filename.value) {
          assert FirstMatch(table, filename.value, 0) == Some(i);
          var calls;
          ret, calls, out := ExtractEntry(table[i], filepath.value, fs, dest);
          ApplyConcat(dest, log, calls);
          ApplyNoWrites(dest, log);
          log := log + calls;
          if ret == WriteFile {
            return;
          }
          break finish;
        }
      }
      assert FirstMatch(table, filename.value, 0) == None;
      ret := Find;
    }
    ApplySkip(dest, log, StdClose(archivePath));
    log := log + [StdClose(archivePath)];
  }
}
