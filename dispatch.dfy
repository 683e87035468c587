/** extractFileFromArchive (source/file.c:288-306): try the archive as a ZIP;
    when minizip cannot open it, treat it as 7z. Either way the archive is
    removed afterwards and the extractor's result is passed on. */
module Dispatch {
  import opened Effects
  import Routing
  import ZipExtract
  import SevenZipExtract

  /** The result and the calls of extractFileFromArchive. `probeOpens` is
      the answer of the trial unzOpen64; the ZIP extractor opens the archive
      again, and that second answer is `zip.opens`. */
  function ArchiveSpec(archivePath: string, probeOpens: bool, filename: Option<string>, filepath: Option<string>,
                       zip: ZipExtract.ZipArchive, sz: SevenZipExtract.SevenZipArchive, fs: FsService): Transfer
  {
    if !probeOpens then
      var r := SevenZipExtract.SevenZipSpec(archivePath, filename, filepath, sz, fs);
      Transfer(r.ret, [ZipOpen(false)] + r.log + [Remove(archivePath)])
    else
      var r := ZipExtract.ZipSpec(filename, filepath, zip, fs);
      Transfer(r.ret, [ZipOpen(true), ZipClose] + r.log + [Remove(archivePath)])
  }

  /** extractFileFromArchive. `dest` is the destination file's contents before
      the call; `out` is what it holds afterwards. */
  method ExtractFromArchive(archivePath: string, probeOpens: bool, filename: Option<string>, filepath: Option<string>,
                            zip: ZipExtract.ZipArchive, sz: SevenZipExtract.SevenZipArchive, fs: FsService, dest: Disk)
    returns (ret: Code, log: seq<Event>, out: Disk)
    ensures Transfer(ret, log) == ArchiveSpec(archivePath, probeOpens, filename, filepath, zip, sz, fs)
    ensures out == Apply(dest, log)
  {
    var calls;
    if !probeOpens {
      log := [ZipOpen(false)];
      ret, calls, out := SevenZipExtract.ExtractFrom7z(archivePath, filename, filepath, sz, fs, dest);
    } else {
      log := [ZipOpen(true), ZipClose];
      ret, calls, out := ZipExtract.ExtractFromZip(filename, filepath, zip, fs, dest);
    }
    ApplyAround(dest, log, calls, [Remove(archivePath)]);
    log := log + calls + [Remove(archivePath)];
  }

  /** The ZIP extractor removes nothing. */
  lemma ZipNeverRemoves(archivePath: string, filename: Option<string>, filepath: Option<string>,
                        zip: ZipExtract.ZipArchive, fs: FsService)
    ensures Remove(archivePath) !in ZipExtract.ZipSpec(filename, filepath, zip, fs).log
  {
    ZipExtract.MemberWrites(zip, fs);
  }

  /** The 7z extractor removes nothing. */
  lemma SevenZipNeverRemoves(archivePath: string, filename: Option<string>, filepath: Option<string>,
                             sz: SevenZipExtract.SevenZipArchive, fs: FsService)
    ensures Remove(archivePath) !in SevenZipExtract.SevenZipSpec(archivePath, filename, filepath, sz, fs).log
  {
    if filename.Some? && filepath.Some? && sz.table.Some? {
      var m := SevenZipExtract.FirstMatch(sz.table.value, filename.value, 0);
      if m.Some? {
        var e := SevenZipExtract.EntrySpec(sz.table.value[m.value], filepath.value, fs);
        assert Remove(archivePath) !in e.log;
      }
    }
  }

  /** The archive is removed on every path, even when a name is missing, and
      exactly once, as the last call. */
  lemma ArchiveAlwaysRemoved(archivePath: string, probeOpens: bool, filename: Option<string>, filepath: Option<string>,
                             zip: ZipExtract.ZipArchive, sz: SevenZipExtract.SevenZipArchive, fs: FsService)
    ensures var log := ArchiveSpec(archivePath, probeOpens, filename, filepath, zip, sz, fs).log;
            log[|log| - 1] == Remove(archivePath) && multiset(log)[Remove(archivePath)] == 1
  {
    if probeOpens {
      ZipNeverRemoves(archivePath, filename, filepath, zip, fs);
    } else {
      SevenZipNeverRemoves(archivePath, filename, filepath, sz, fs);
    }
  }

  /** The extractor chosen by the trial open decides everything: its result is
      returned unchanged and the destination ends as the extractor leaves it. */
  lemma DispatchPassesThrough(archivePath: string, probeOpens: bool, filename: Option<string>, filepath: Option<string>,
                              zip: ZipExtract.ZipArchive, sz: SevenZipExtract.SevenZipArchive, fs: FsService, dest: Disk)
    ensures var r := ArchiveSpec(archivePath, probeOpens, filename, filepath, zip, sz, fs);
            var e := if probeOpens then ZipExtract.ZipSpec(filename, filepath, zip, fs)
                     else SevenZipExtract.SevenZipSpec(archivePath, filename, filepath, sz, fs);
            r.ret == e.ret && Apply(dest, r.log) == Apply(dest, e.log)
  {
    var e := if probeOpens then ZipExtract.ZipSpec(filename, filepath, zip, fs)
             else SevenZipExtract.SevenZipSpec(archivePath, filename, filepath, sz, fs);
    var head := if probeOpens then [ZipOpen(true), ZipClose] else [ZipOpen(false)];
    ApplyAround(dest, head, e.log, [Remove(archivePath)]);
  }

  /** A file the trial open accepts as a ZIP fails with ARCHIVE_OPEN exactly
      when both names are given, the destination opens, and the ZIP
      extractor's own unzOpen64 then fails. */
  lemma ZipRouteArchiveOpen(archivePath: string, probeOpens: bool, filename: Option<string>, filepath: Option<string>,
                            zip: ZipExtract.ZipArchive, sz: SevenZipExtract.SevenZipArchive, fs: FsService)
    requires probeOpens
    ensures ArchiveSpec(archivePath, probeOpens, filename, filepath, zip, sz, fs).ret == ArchiveOpen <==>
            filename.Some? && filepath.Some? && fs.open(Routing.Route(filepath.value, true)) == 0 && !zip.opens
  {
    ZipExtract.ZipResultCodes(filename, filepath, zip, fs);
  }
}
