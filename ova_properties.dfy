/** Properties of the OVA extractor model: what its predicates mean, what a scan
    returns in each of its outcomes, and the cases its tests exercise. */
module OvaProperties {
  import opened GoIo
  import opened GoStrings
  import GoFilepath
  import Tar
  import Selection
  import opened Ova

  /** A file extension: a '.' followed by characters that are neither '.' nor '/'. */
  predicate IsExtension(e: string)
  {
    |e| >= 1 && e[0] == '.' && forall i :: 1 <= i < |e| ==> e[i] != '.' && e[i] != GoFilepath.Separator
  }

  /** `filepath.Ext` starts at a '.' after which no '.' or '/' follows. */
  lemma ExtAtLastDot(path: string, t: nat)
    requires t < |path| && path[t] == '.'
    requires forall k :: t < k < |path| ==> path[k] != '.' && path[k] != GoFilepath.Separator
    ensures GoFilepath.Ext(path) == path[t..]
  {
    var r := GoFilepath.Ext(path);
    var s := |path| - |r|;
    var tail := path[t + 1..];
    forall q | 0 <= q < |tail| ensures tail[q] != GoFilepath.Separator {
      assert tail[q] == path[t + 1 + q];
    }
    assert GoFilepath.Separator !in tail;
    assert r != [];
    assert path[s] == '.';
    assert s == t;
  }

  /** If the lower-cased path ends in an extension, `filepath.Ext` is that suffix. */
  lemma ExtOfExtensionSuffix(path: string, e: string)
    requires IsExtension(e) && HasSuffix(ToLower(path), e)
    ensures GoFilepath.Ext(path) == path[|path| - |e|..]
  {
    var t := |path| - |e|;
    assert ToLower(path)[t] == e[0];
    LowerCharKeepsPunctuation(path[t]);
    forall k | t < k < |path| ensures path[k] != '.' && path[k] != GoFilepath.Separator {
      assert ToLower(path)[k] == e[k - t];
      LowerCharKeepsPunctuation(path[k]);
    }
    ExtAtLastDot(path, t);
  }

  /** The lower-cased extension of a path is a suffix of the lower-cased path. */
  lemma LowerExtIsSuffix(path: string)
    ensures HasSuffix(ToLower(path), ToLower(GoFilepath.Ext(path)))
  {
    var r := GoFilepath.Ext(path);
    ToLowerSlice(path, |path| - |r|, |path|);
  }

  /** For an extension `e`, comparing the lower-cased `filepath.Ext` with `e` is the same
      as asking whether the lower-cased path ends in `e`. */
  lemma ExtensionSuffix(path: string, e: string)
    requires IsExtension(e)
    ensures HasSuffix(ToLower(path), e) <==> ToLower(GoFilepath.Ext(path)) == e
  {
    if HasSuffix(ToLower(path), e) {
      ExtOfExtensionSuffix(path, e);
      ToLowerSlice(path, |path| - |e|, |path|);
    }
    LowerExtIsSuffix(path);
  }

  /** `FileRequired` holds exactly when the lower-cased path ends in ".ova". */
  lemma FileRequiredIffSuffix(path: string)
    ensures FileRequired(path) <==> HasSuffix(ToLower(path), OvaExtension)
  {
    ExtensionSuffix(path, OvaExtension);
  }

  /** A path whose last character is not, case-insensitively, 'a' is not accepted. */
  lemma RejectedUnlessEndsInA(path: string)
    requires path != [] && LowerChar(path[|path| - 1]) != 'a'
    ensures !FileRequired(path)
  {
    FileRequiredIffSuffix(path);
  }

  /** The path of the extraction tests is accepted. */
  lemma AcceptsTestOva()
    ensures FileRequired("test.ova")
  {
    var accepted := "test.ova";
    forall k | 4 < k < |accepted| ensures accepted[k] != '.' && accepted[k] != GoFilepath.Separator {
      assert accepted[5..] == "ova";
      assert accepted[k] in "ova";
    }
    ExtAtLastDot(accepted, 4);
    assert accepted[4..] == OvaExtension;
    ToLowerOfLowerCase(OvaExtension);
  }

  /** The paths of the eligibility test table: only "test.ova" is accepted. */
  lemma FileRequiredCases()
    ensures FileRequired("test.ova")
    ensures !FileRequired("test.ovf") && !FileRequired("test.txt") && !FileRequired("test.vmdk")
    ensures !FileRequired("test.vdi") && !FileRequired("test.vhdx") && !FileRequired("test.vhd")
    ensures !FileRequired("test.qcow") && !FileRequired("test.qcow2") && !FileRequired("test.qcow3")
  {
    AcceptsTestOva();
    RejectedUnlessEndsInA("test.ovf");
    RejectedUnlessEndsInA("test.txt");
    RejectedUnlessEndsInA("test.vmdk");
    RejectedUnlessEndsInA("test.vdi");
    RejectedUnlessEndsInA("test.vhdx");
    RejectedUnlessEndsInA("test.vhd");
    RejectedUnlessEndsInA("test.qcow");
    RejectedUnlessEndsInA("test.qcow2");
    RejectedUnlessEndsInA("test.qcow3");
  }

  /** Every listed disk-image suffix is an extension in the sense of `filepath.Ext`. */
  lemma DiskImageExtensionsAreExtensions()
    ensures forall ext :: ext in DiskImageExtensions ==> IsExtension(ext)
  {
  }

  /** The suffix test on an entry name is a set lookup of its lower-cased extension. */
  lemma IsDiskImageNameIffExt(name: string)
    ensures IsDiskImageName(name) <==> ToLower(GoFilepath.Ext(name)) in DiskImageExtensions
  {
    DiskImageExtensionsAreExtensions();
    if IsDiskImageName(name) {
      var ext :| ext in DiskImageExtensions && HasSuffix(ToLower(name), ext);
      ExtensionSuffix(name, ext);
    }
    var ext := ToLower(GoFilepath.Ext(name));
    if ext in DiskImageExtensions {
      ExtensionSuffix(name, ext);
    }
  }

  /** The magic constant is the ASCII text "ustar". */
  lemma TarMagicIsUstar()
    ensures |TarMagic| == |"ustar"|
    ensures forall i :: 0 <= i < |TarMagic| ==> TarMagic[i] as int == "ustar"[i] as int
  {
  }

  /** The sniffer rejects every buffer too short to hold the magic field. */
  lemma IsTarNeedsMagicField(buf: seq<byte>)
    requires |buf| < 262
    ensures !IsTar(buf)
  {
  }

  /** The verdict of the sniffer depends on bytes 257 to 261 only. */
  lemma IsTarDependsOnMagicField(a: seq<byte>, b: seq<byte>)
    requires |a| >= 262 && |b| >= 262
    requires forall i :: 257 <= i < 262 ==> a[i] == b[i]
    ensures IsTar(a) == IsTar(b)
  {
    assert a[257..262] == b[257..262];
  }

  /** Any prefix that still holds the magic field gets the verdict of the whole buffer. */
  lemma IsTarOfPrefix(buf: seq<byte>, n: nat)
    requires 262 <= n <= |buf|
    ensures IsTar(buf[..n]) == IsTar(buf)
  {
    IsTarDependsOnMagicField(buf[..n], buf);
  }

  /** A file whose lower-cased path does not end in ".ova" gives an empty inventory and no
      error, whatever its content or how reading it would go. */
  lemma NotOvaGivesNothing(path: string, r1: ReadResult, r2: ReadResult,
                           t1: seq<byte> -> Tar.Stream, t2: seq<byte> -> Tar.Stream)
    requires !HasSuffix(ToLower(path), OvaExtension)
    ensures Scan(ScanInput(path, r1), t1) == (Inventory([]), None)
    ensures Scan(ScanInput(path, r1), t1) == Scan(ScanInput(path, r2), t2)
  {
    FileRequiredIffSuffix(path);
  }

  /** A failed read of an `.ova` file gives an empty inventory and that error. */
  lemma ReadFailureGivesError(path: string, e: Error, t: seq<byte> -> Tar.Stream)
    requires FileRequired(path)
    ensures Scan(ScanInput(path, ReadFailed(e)), t) == (Inventory([]), Some(e))
  {
  }

  /** An `.ova` file whose first 512 bytes fail the sniffer gives an empty inventory and
      no error, and the archive is never walked. */
  lemma NotUstarGivesNothing(path: string, content: seq<byte>, t: seq<byte> -> Tar.Stream)
    requires FileRequired(path)
    requires !IsTar(if |content| > SniffLimit then content[..SniffLimit] else content)
    ensures Scan(ScanInput(path, Content(content)), t) == (Inventory([]), None)
  {
    if |content| > SniffLimit {
      IsTarOfPrefix(content, SniffLimit);
    }
  }

  /** A walk that fails gives an empty inventory and the walker's error, however many
      disk images came before the failure. */
  lemma WalkFailureDiscardsPackages(path: string, content: seq<byte>, t: seq<byte> -> Tar.Stream,
                                    hs: seq<Tar.Header>, e: Error)
    requires FileRequired(path) && IsTar(content)
    requires t(content) == Tar.Stream(hs, Tar.Malformed(e))
    ensures Scan(ScanInput(path, Content(content)), t) == (Inventory([]), Some(e))
  {
  }

  /** A walk that reaches the end of the archive gives no error and exactly one package per
      regular header whose cleaned, lower-cased name ends in a disk-image suffix, in
      header order; each package is a "disk-image" of the generic package type located
      at the archive path joined with the cleaned entry name. */
  lemma CompleteWalkGivesDiskImages(path: string, content: seq<byte>, t: seq<byte> -> Tar.Stream)
    requires FileRequired(path) && IsTar(content) && t(content).end == Tar.EOF
    ensures Scan(ScanInput(path, Content(content)), t).1 == None
    ensures
      var pkgs := Scan(ScanInput(path, Content(content)), t).0.packages;
      var hs := t(content).headers;
      var origin := Selection.KeptIndices(IsDiskImage, hs);
      && |pkgs| == |origin|
      && (forall k :: 0 <= k < |origin| ==>
            && origin[k] < |hs|
            && hs[origin[k]].typeflag == Tar.TypeReg
            && IsDiskImageName(GoFilepath.Clean(hs[origin[k]].name))
            && pkgs[k].name == "disk-image"
            && pkgs[k].purlType == "generic"
            && pkgs[k].locations == [GoFilepath.Join(path, GoFilepath.Clean(hs[origin[k]].name))])
      && (forall k, l :: 0 <= k < l < |origin| ==> origin[k] < origin[l])
      && (forall j :: 0 <= j < |hs| && hs[j].typeflag == Tar.TypeReg && IsDiskImageName(GoFilepath.Clean(hs[j].name)) ==> j in origin)
  {
    var hs := t(content).headers;
    Selection.SelectExplained(IsDiskImage, PackageMaker(path), hs);
  }

  /** Packages are not deduplicated: an archive that lists its headers twice gets every
      package twice. */
  lemma NoDeduplication(path: string, hs: seq<Tar.Header>)
    ensures Collect(path, hs + hs) == Collect(path, hs) + Collect(path, hs)
  {
    Selection.SelectAppend(IsDiskImage, PackageMaker(path), hs, hs);
  }

  /** An archive at a plain path holding one regular file with a plain disk-image name
      gives exactly one package, located at the path, a '/', and the name. */
  lemma SingleDiskImageArchive(path: string, name: string, content: seq<byte>, t: seq<byte> -> Tar.Stream)
    requires FileRequired(path) && GoFilepath.IsPlainName(path)
    requires GoFilepath.IsPlainName(name) && IsDiskImageName(name)
    requires IsTar(content)
    requires t(content) == Tar.Stream([Tar.Header(name, Tar.TypeReg)], Tar.EOF)
    ensures Scan(ScanInput(path, Content(content)), t)
         == (Inventory([Package("disk-image", "generic", [path + "/" + name])]), None)
  {
    GoFilepath.CleanPlainName(name);
    GoFilepath.JoinPlainNames(path, name);
    var hdr := Tar.Header(name, Tar.TypeReg);
    assert IsDiskImage(hdr);
    assert [hdr][..0] == [];
    assert Selection.Select(IsDiskImage, PackageMaker(path), []) == [];
    assert PackageMaker(path)(hdr) == PackageFor(path, hdr);
    assert Collect(path, [hdr]) == [PackageFor(path, hdr)];
  }

  /** No disk-image suffix holds an upper-case letter or a separator. */
  lemma DiskImageExtensionsAreLowerCase(ext: string)
    requires ext in DiskImageExtensions
    ensures forall c :: c in ext ==> !('A' <= c <= 'Z') && c != GoFilepath.Separator
  {
  }

  /** The entry names of the extraction test, "test-disk" followed by each disk-image
      suffix, are plain disk-image names. */
  lemma TestDiskNames(ext: string)
    requires ext in DiskImageExtensions
    ensures GoFilepath.IsPlainName("test-disk" + ext) && IsDiskImageName("test-disk" + ext)
  {
    var stem := "test-disk";
    var name := stem + ext;
    DiskImageExtensionsAreLowerCase(ext);
    assert forall c :: c in stem ==> !('A' <= c <= 'Z') && c != GoFilepath.Separator;
    assert forall c :: c in name ==> c in stem || c in ext;
    ToLowerOfLowerCase(name);
    assert |name| > 2;
    assert name[|name| - |ext|..] == ext;
  }

  /** The extraction test: "test.ova" holding the one regular file "test-disk" + ext, for
      each disk-image suffix ext, gives one package located at "test.ova/test-disk" + ext. */
  lemma ExtractionTestCases(ext: string, content: seq<byte>, t: seq<byte> -> Tar.Stream)
    requires ext in DiskImageExtensions
    requires IsTar(content)
    requires t(content) == Tar.Stream([Tar.Header("test-disk" + ext, Tar.TypeReg)], Tar.EOF)
    ensures Scan(ScanInput("test.ova", Content(content)), t)
         == (Inventory([Package("disk-image", "generic", ["test.ova/test-disk" + ext])]), None)
  {
    AcceptsTestOva();
    TestDiskNames(ext);
    assert GoFilepath.IsPlainName("test.ova");
    SingleDiskImageArchive("test.ova", "test-disk" + ext, content, t);
    assert "test.ova" + "/" + ("test-disk" + ext) == "test.ova/test-disk" + ext;
  }

  /** The invalid-file tests: "test.txt" and "test.ovf" give nothing whatever their content,
      and an "test.ova" too short to be an archive gives nothing and no error. */
  lemma InvalidFileCases(r: ReadResult, content: seq<byte>, t: seq<byte> -> Tar.Stream)
    requires |content| < 262
    ensures Scan(ScanInput("test.txt", r), t) == (Inventory([]), None)
    ensures Scan(ScanInput("test.ovf", r), t) == (Inventory([]), None)
    ensures Scan(ScanInput("test.ova", Content(content)), t) == (Inventory([]), None)
  {
    FileRequiredCases();
  }

  /** Cleaning does not confine an entry to the archive: an entry "../../name" of the
      archive at the plain path `dir` is located at "../name", outside `dir`. */
  lemma TraversalIsKept(dir: string, name: string)
    requires GoFilepath.IsPlainName(dir) && GoFilepath.IsPlainName(name)
    ensures GoFilepath.Join(dir, GoFilepath.Clean("../../" + name)) == "../" + name
  {
    var up, sep := "..", [GoFilepath.Separator];
    var entry := up + sep + (up + sep + name);
    assert entry == "../../" + name;
    GoFilepath.SplitPlain(name);
    GoFilepath.SplitElement(up, name);
    GoFilepath.SplitElement(up, up + sep + name);
    assert GoFilepath.Split(entry) == [up, up, name];
    assert GoFilepath.Resolve([name], false, [up, up]) == [up, up, name];
    assert [up, name][1..] == [name] && [up] + [up] == [up, up];
    assert GoFilepath.Resolve([up, name], false, [up]) == [up, up, name];
    assert [up, up, name][1..] == [up, name] && [] + [up] == [up];
    assert GoFilepath.JoinElems([up, name]) == up + sep + name;
    assert GoFilepath.JoinElems([up, up, name]) == entry;
    GoFilepath.CleanRelative(entry, [up, up, name]);

    var joined := dir + sep + entry;
    assert dir[0] in dir;
    GoFilepath.SplitElement(dir, entry);
    assert GoFilepath.Split(joined) == [dir, up, up, name];
    assert [up] + [name] == [up, name];
    assert GoFilepath.Resolve([name], false, [up]) == [up, name];
    assert GoFilepath.Resolve([up, name], false, []) == [up, name];
    assert [dir][..0] == [];
    assert GoFilepath.Resolve([up, up, name], false, [dir]) == [up, name];
    assert [dir, up, up, name][1..] == [up, up, name] && [] + [dir] == [dir];
    assert GoFilepath.Resolve([dir, up, up, name], false, []) == [up, name];
    GoFilepath.CleanRelative(joined, [up, name]);
  }

  /** The example of the traversal: "../../escape.vmdk" in "test.ova" is at "../escape.vmdk". */
  lemma TraversalExample()
    ensures GoFilepath.Join("test.ova", GoFilepath.Clean("../../escape.vmdk")) == "../escape.vmdk"
  {
    assert GoFilepath.IsPlainName("test.ova") && GoFilepath.IsPlainName("escape.vmdk");
    TraversalIsKept("test.ova", "escape.vmdk");
    assert "../../" + "escape.vmdk" == "../../escape.vmdk";
    assert "../" + "escape.vmdk" == "../escape.vmdk";
  }
}
