/** The OVA embedded-filesystem extractor: it accepts `.ova` files, checks that the
    content is a ustar archive, and emits one placeholder package for every regular
    entry of the archive whose name is that of a disk image. */
module Ova {
  import opened GoIo
  import opened GoStrings
  import GoFilepath
  import Tar
  import Selection

  /** The one file extension the extractor accepts. */
  const OvaExtension: string := ".ova"

  /** Entry-name suffixes of the disk images the extractor reports. */
  const DiskImageExtensions: set<string> := {".vdi", ".vmdk", ".vhd", ".vhdx", ".qcow", ".qcow2", ".qcow3"}

  /** The ustar magic field, ASCII "ustar", and where a header holds it. */
  const TarMagic: seq<byte> := [0x75, 0x73, 0x74, 0x61, 0x72]
  const MagicOffset: nat := 257

  /** How many leading bytes of the content the sniffer is given. */
  const SniffLimit: nat := 512

  /** The fields of a placeholder package. */
  const DiskImagePackageName: string := "disk-image"
  const PurlTypeGeneric: string := "generic"

  datatype Package = Package(name: string, purlType: string, locations: seq<string>)
  datatype Inventory = Inventory(packages: seq<Package>)

  /** The file handed to the extractor: its path and the outcome of reading it. */
  datatype ScanInput = ScanInput(path: string, reader: ReadResult)

  /** `FileRequired`: the lower-cased extension of the path is ".ova". */
  predicate FileRequired(path: string)
  {
    ToLower(GoFilepath.Ext(path)) == OvaExtension
  }

  /** `isTar`: the buffer reaches past the magic field and holds "ustar" there. */
  predicate IsTar(buf: seq<byte>)
  {
    |buf| >= MagicOffset + |TarMagic| && buf[MagicOffset..MagicOffset + |TarMagic|] == TarMagic
  }

  /** The lower-cased (already cleaned) entry name ends in a disk-image extension. */
  predicate IsDiskImageName(name: string)
  {
    exists ext :: ext in DiskImageExtensions && HasSuffix(ToLower(name), ext)
  }

  /** A header the extractor reports: a regular file whose cleaned name is a disk image. */
  predicate IsDiskImage(hdr: Tar.Header)
  {
    hdr.typeflag == Tar.TypeReg && IsDiskImageName(GoFilepath.Clean(hdr.name))
  }

  /** The placeholder package for a disk-image header of the archive at `path`. */
  function PackageFor(path: string, hdr: Tar.Header): Package
  {
    Package(DiskImagePackageName, PurlTypeGeneric, [GoFilepath.Join(path, GoFilepath.Clean(hdr.name))])
  }

  /** The builder of the placeholder packages of the archive at `path`. */
  function PackageMaker(path: string): Tar.Header -> Package
  {
    hdr => PackageFor(path, hdr)
  }

  /** The packages for the disk-image headers among `hs`, in header order. */
  function Collect(path: string, hs: seq<Tar.Header>): seq<Package>
  {
    Selection.Select(IsDiskImage, PackageMaker(path), hs)
  }

  /** The sniffer sees the first `SniffLimit` bytes only; the magic field lies inside them. */
  lemma SniffWindowSuffices(content: seq<byte>)
    requires |content| > SniffLimit
    ensures IsTar(content[..SniffLimit]) == IsTar(content)
  {
    assert content[..SniffLimit][MagicOffset..MagicOffset + |TarMagic|] == content[MagicOffset..MagicOffset + |TarMagic|];
  }

  /** What `Extract` returns, stated on values: nothing for a file that is not an `.ova`
      or not a ustar archive, the error of a failed read or a failed walk (and no
      packages), and otherwise one package per disk-image header. `tarStream` gives what
      the tar reader yields on a byte stream. */
  function Scan(input: ScanInput, tarStream: seq<byte> -> Tar.Stream): (Inventory, Option<Error>)
  {
    if !FileRequired(input.path) then (Inventory([]), None)
    else match input.reader
      case ReadFailed(e) => (Inventory([]), Some(e))
      case Content(content) =>
        if !IsTar(content) then (Inventory([]), None)
        else
          var stream := tarStream(content);
          match stream.end
          case Malformed(e) => (Inventory([]), Some(e))
          case EOF => (Inventory(Collect(input.path, stream.headers)), None)
  }

  /** `Extractor.Extract`. */
  method Extract(input: ScanInput, tarStream: seq<byte> -> Tar.Stream) returns (inv: Inventory, err: Option<Error>)
    ensures (inv, err) == Scan(input, tarStream)
  {
    var packages: seq<Package> := [];

    if !FileRequired(input.path) {
      return Inventory([]), None;
    }

    if input.reader.ReadFailed? {
      return Inventory([]), Some(input.reader.err);
    }
    var content := input.reader.bytes;

    var buf := content;
    if |buf| > SniffLimit {
      SniffWindowSuffices(content);
      buf := buf[..SniffLimit];
    }
    if !IsTar(buf) {
      return Inventory([]), None;
    }

    var tr := new Tar.Reader(tarStream(content));
    ghost var origin: seq<nat> := [];
    while true
      invariant tr.Valid()
      invariant tr.headers == tarStream(content).headers && tr.end == tarStream(content).end
      invariant Selection.Explains(IsDiskImage, PackageMaker(input.path), tr.headers[..tr.pos], packages, origin)
      decreases |tr.headers| - tr.pos
    {
      ghost var at := tr.pos;
      var step := tr.Next();
      match step {
        case EndOfArchive =>
          break;
        case Failed(e) =>
          return Inventory([]), Some(e);
        case Got(hdr) =>
          assert tr.headers[..tr.pos] == tr.headers[..at] + [hdr];
          Selection.ExplainsStep(IsDiskImage, PackageMaker(input.path), tr.headers[..at], hdr, packages, origin);
          if hdr.typeflag != Tar.TypeReg {
            continue;
          }
          var name := GoFilepath.Clean(hdr.name);
          if !IsDiskImageName(name) {
            continue;
          }
          packages := packages + [Package(DiskImagePackageName, PurlTypeGeneric, [GoFilepath.Join(input.path, name)])];
          origin := origin + [at];
      }
    }

    assert tr.headers[..tr.pos] == tr.headers;
    Selection.ExplainsUnique(IsDiskImage, PackageMaker(input.path), tr.headers, packages, origin);
    return Inventory(packages), None;
  }
}
