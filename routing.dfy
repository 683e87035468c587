/** How openFile turns a user path into a storage volume, a volume-relative
    path and open flags (source/file.c, openFile). */
module Routing {

  /** The four storage volumes a path can select. */
  datatype Volume = Sdmc | NandCtr | TwlPhoto | NandTwl

  datatype OpenFlags = ReadOnly | CreateWrite

  /** What the filesystem service is asked to open. */
  datatype Target = Target(volume: Volume, path: string, flags: OpenFlags)

  /** The device name a user writes in front of a volume-relative path. */
  function DeviceName(v: Volume): string {
    match v
    case NandCtr => "ctrnand:"
    case TwlPhoto => "twlp:"
    case NandTwl => "twln:"
    case Sdmc => "sdmc:"
  }

  /** True when `path` starts with some device name followed by '/'. */
  predicate HasDevice(path: string) {
    "ctrnand:/" <= path || "twlp:/" <= path || "twln:/" <= path || "sdmc:/" <= path
  }

  /** Create-and-write for a write open, read-only otherwise. */
  function Flags(write: bool): (f: OpenFlags)
    ensures f == CreateWrite <==> write
  {
    if write then CreateWrite else ReadOnly
  }

  /** The prefix tests are made in a fixed order; a matched prefix selects
      its volume and drops the device name, keeping the '/'. Any other path
      is opened on the SD card as it is. */
  function Route(path: string, write: bool): Target {
    var flags := Flags(write);
    if "ctrnand:/" <= path then Target(NandCtr, path[8..], flags)
    else if "twlp:/" <= path then Target(TwlPhoto, path[5..], flags)
    else if "twln:/" <= path then Target(NandTwl, path[5..], flags)
    else if "sdmc:/" <= path then Target(Sdmc, path[5..], flags)
    else Target(Sdmc, path, flags)
  }

  /** The flags follow the access mode; the routed path is a suffix of the
      user path, a proper one exactly when a device prefix matched, and then
      it keeps the '/'; a path without a device prefix goes to the SD card. */
  lemma RouteShape(path: string, write: bool)
    ensures var t := Route(path, write);
            t.flags == Flags(write) &&
            |t.path| <= |path| && t.path == path[|path| - |t.path|..] &&
            (HasDevice(path) <==> t.path != path) &&
            (HasDevice(path) ==> |t.path| > 0 && t.path[0] == '/') &&
            (!HasDevice(path) ==> t.volume == Sdmc)
  {
  }

  /** Routing a device path undoes the concatenation: the device name selects
      its volume and exactly that name is stripped. */
  lemma RouteOfDevicePath(v: Volume, rest: string, write: bool)
    requires |rest| > 0 && rest[0] == '/'
    ensures Route(DeviceName(v) + rest, write) == Target(v, rest, Flags(write))
  {
    var path := DeviceName(v) + rest;
    assert path[..|DeviceName(v)|] == DeviceName(v);
    assert path[|DeviceName(v)|] == '/';
    match v
    case NandCtr =>
      assert "ctrnand:/" <= path;
      assert path[8..] == rest;
    case TwlPhoto =>
      assert !("ctrnand:/" <= path) by { assert path[0] != 'c'; }
      assert "twlp:/" <= path;
      assert path[5..] == rest;
    case NandTwl =>
      assert !("ctrnand:/" <= path) by { assert path[0] != 'c'; }
      assert !("twlp:/" <= path) by { assert path[3] != 'p'; }
      assert "twln:/" <= path;
      assert path[5..] == rest;
    case Sdmc =>
      assert !("ctrnand:/" <= path) by { assert path[0] != 'c'; }
      assert !("twlp:/" <= path) by { assert path[0] != 't'; }
      assert !("twln:/" <= path) by { assert path[0] != 't'; }
      assert "sdmc:/" <= path;
      assert path[5..] == rest;
  }

  /** Conversely, whenever a prefix matched, the path is the selected
      volume's device name followed by the routed path. */
  lemma RouteRoundTrip(path: string, write: bool)
    requires HasDevice(path)
    ensures DeviceName(Route(path, write).volume) + Route(path, write).path == path
  {
    var t := Route(path, write);
    var n := if "ctrnand:/" <= path then 8 else 5;
    assert t.path == path[n..];
    if "ctrnand:/" <= path {
      assert path[..n] == "ctrnand:";
    } else if "twlp:/" <= path {
      assert path[..n] == "twlp:";
    } else if "twln:/" <= path {
      assert path[..n] == "twln:";
    } else {
      assert path[..n] == "sdmc:";
    }
    assert path == path[..n] + path[n..];
  }
}
