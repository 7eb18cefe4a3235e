/** The install-script emitters of releasetools.py: conditional image
    installation (`AddImage`, `OTA_InstallEnd`), the fixed firmware
    directives (`OTA_UpdateFirmware`) and the two install-end entry points. */
module InstallScript {
  import opened Optional
  import opened OrderedMaps

  type Bytes = seq<bv8>

  /** One entry of the install script: `script.Print(message)` or
      `script.AppendExtra(text)`. */
  datatype Directive = Print(message: string) | Extra(text: string)

  /** What the package build has produced so far: files staged into the
      output archive (name and bytes, in staging order) and the install
      script. */
  datatype Output = Output(staged: seq<(string, Bytes)>, script: seq<Directive>)

  /** An input package archive: its entry names and their bytes. */
  datatype Archive = Archive(entries: map<string, Bytes>)

  /** The directive text `package_extract_file("<src>", "<dest>");`. */
  function PackageExtractFile(src: string, dest: string): string {
    "package_extract_file(\"" + src + "\", \"" + dest + "\");"
  }

  /** The device node of a partition slot. */
  function BlockDevice(slot: string): string {
    "/dev/block/bootdevice/by-name" + "/" + slot
  }

  /** `path.split('/')[-1]`: the text after the last '/', or all of `path`
      when it has none. */
  function LastSegment(path: string): (r: string)
    ensures |r| <= |path|
    ensures '/' !in r
  {
    if |path| == 0 || path[|path| - 1] == '/' then ""
    else LastSegment(path[..|path| - 1]) + [path[|path| - 1]]
  }

  /** The last segment is the longest suffix of `path` without a '/': it
      has no '/', it ends `path`, and it is all of `path` or preceded by a
      '/'. */
  lemma {:induction false} LastSegmentIsLongestSlashFreeSuffix(path: string)
    ensures var r := LastSegment(path);
            && '/' !in r
            && |r| <= |path| && path[|path| - |r|..] == r
            && (|r| < |path| ==> path[|path| - |r| - 1] == '/')
  {
    if |path| > 0 && path[|path| - 1] != '/' {
      var n := |path| - 1;
      var init := path[..n];
      var q := LastSegment(init);
      LastSegmentIsLongestSlashFreeSuffix(init);
      var r := q + [path[n]];
      assert LastSegment(path) == r;
      assert '/' !in r by {
        assert forall c :: c in r ==> c in q || c == path[n];
      }
      assert path[n - |q|..] == init[n - |q|..] + [path[n]];
      if |q| < n {
        assert path[n - |q| - 1] == init[n - |q| - 1];
      }
    }
  }

  /** The last segment of `dir + "/" + name` is `name` when `name` has no '/'. */
  lemma {:induction false} LastSegmentAfterSlash(dir: string, name: string)
    requires '/' !in name
    ensures LastSegment(dir + "/" + name) == name
  {
    if |name| > 0 {
      var n := |name| - 1;
      assert (dir + "/" + name)[..|dir + "/" + name| - 1] == dir + "/" + name[..n];
      LastSegmentAfterSlash(dir, name[..n]);
      assert name == name[..n] + [name[n]];
    }
  }

  /** The message `AddImage` prints before installing an image to `dest`. */
  function PatchingMessage(dest: string): string {
    "Patching " + LastSegment(dest) + " image unconditionally..."
  }

  /** `AddImage(info, dir, input_zip, basename, dest)`: when the archive has
      `dir/basename`, stage its bytes under `basename`, print a message
      naming the destination, and extract the staged file to `dest`;
      otherwise change nothing. */
  function AddImage(out: Output, dir: string, zip: Archive, basename: string, dest: string): (r: Output)
    ensures dir + "/" + basename !in zip.entries ==> r == out
    ensures dir + "/" + basename in zip.entries ==>
              && r.staged == out.staged + [(basename, zip.entries[dir + "/" + basename])]
              && r.script == out.script + [Print(PatchingMessage(dest)), Extra(PackageExtractFile(basename, dest))]
  {
    var path := dir + "/" + basename;
    if path !in zip.entries then out
    else
      Output(out.staged + [(basename, zip.entries[path])],
             out.script + [Print(PatchingMessage(dest)), Extra(PackageExtractFile(basename, dest))])
  }

  // ---------------------------------------------------------------------
  // Firmware

  /** The firmware images of the package and the slots each is written to,
      in flashing order. */
  const FirmwareImages: seq<(string, string)> := [
    ("abl.elf", "abl_a"),
    ("abl.elf", "abl_b"),
    ("cmnlib64.img", "cmnlib64_a"),
    ("aop.img", "aop_a"),
    ("devcfg.img", "devcfg_a"),
    ("qupfw.img", "qupfw_a"),
    ("tz.img", "tz_a"),
    ("storsec.img", "storsec_a"),
    ("keymaster.img", "keymaster_a"),
    ("bluetooth.img", "bluetooth"),
    ("xbl.img", "xbl_a"),
    ("modem.img", "modem"),
    ("xbl_config.img", "xbl_config_a"),
    ("dsp.img", "dsp"),
    ("logo.img", "logo"),
    ("cmnlib.img", "cmnlib_a"),
    ("hyp.img", "hyp_a")
  ]

  /** The directive that writes one firmware image to one slot. */
  function FlashFirmware(image: string, slot: string): Directive {
    Extra(PackageExtractFile("install/firmware-update/" + image, BlockDevice(slot)))
  }

  /** The directives `OTA_UpdateFirmware` appends: a banner, then one write
      per firmware table row. */
  function FirmwareDirectives(): (ds: seq<Directive>)
    ensures |ds| == 1 + |FirmwareImages|
    ensures ds[0] == Extra("ui_print(\"Flashing firmware images\");")
    ensures forall i :: 0 <= i < |FirmwareImages| ==>
              ds[i + 1] == FlashFirmware(FirmwareImages[i].0, FirmwareImages[i].1)
  {
    [Extra("ui_print(\"Flashing firmware images\");")]
      + seq(|FirmwareImages|, i requires 0 <= i < |FirmwareImages| =>
              FlashFirmware(FirmwareImages[i].0, FirmwareImages[i].1))
  }

  /** A sanity fact about the firmware table itself, not about an
      operation: no slot is written twice, while one image (the bootloader)
      is written to both of its A/B slots. */
  lemma FirmwareSlots()
    ensures Distinct(seq(|FirmwareImages|, i requires 0 <= i < |FirmwareImages| => FirmwareImages[i].1))
    ensures FirmwareImages[0].0 == FirmwareImages[1].0 && FirmwareImages[0].1 != FirmwareImages[1].1
  {
  }

  /** `OTA_UpdateFirmware(info)`. */
  function OtaUpdateFirmware(out: Output): (r: Output)
    ensures r.staged == out.staged
    ensures r.script == out.script + FirmwareDirectives()
  {
    out.(script := out.script + FirmwareDirectives())
  }

  // ---------------------------------------------------------------------
  // Install end

  /** The images `OTA_InstallEnd` installs when the archive has them, with
      their destinations, in installation order. */
  const ConditionalImages: seq<(string, string)> := [
    ("dtbo.img", BlockDevice("dtbo")),
    ("vbmeta.img", BlockDevice("vbmeta"))
  ]

  /** The archive entry `OTA_InstallEnd` looks for to install `basename`. */
  function ImageEntry(basename: string): string {
    "IMAGES" + "/" + basename
  }

  /** The extraction directive of a conditional image. */
  function InstallImage(basename: string, dest: string): Directive {
    Extra(PackageExtractFile(basename, dest))
  }

  /** What `AddImage` appends to the script for an image it installs: the
      print naming the destination, then the extraction. */
  function ImageDirectives(basename: string, dest: string): seq<Directive> {
    [Print(PatchingMessage(dest)), InstallImage(basename, dest)]
  }

  /** The rows of `images` whose image the archive has, in table order. */
  function PresentImages(zip: Archive, images: seq<(string, string)>): (present: seq<(string, string)>)
    ensures forall k :: 0 <= k < |present| ==> ImageEntry(present[k].0) in zip.entries
    ensures forall row :: row in present <==> row in images && ImageEntry(row.0) in zip.entries
  {
    if |images| == 0 then []
    else
      var rest := PresentImages(zip, images[1..]);
      assert images == [images[0]] + images[1..];
      if ImageEntry(images[0].0) in zip.entries then [images[0]] + rest else rest
  }

  /** The script entries for installing each of `present` in turn. */
  function EmittedScript(present: seq<(string, string)>): seq<Directive> {
    if |present| == 0 then []
    else ImageDirectives(present[0].0, present[0].1) + EmittedScript(present[1..])
  }

  /** The files staged for installing each of `present` in turn: each under
      its own name, with the archive's bytes. */
  function EmittedFiles(zip: Archive, present: seq<(string, string)>): seq<(string, Bytes)>
    requires forall k :: 0 <= k < |present| ==> ImageEntry(present[k].0) in zip.entries
  {
    if |present| == 0 then []
    else [(present[0].0, zip.entries[ImageEntry(present[0].0)])] + EmittedFiles(zip, present[1..])
  }

  /** `AddImage(info, "IMAGES", input_zip, basename, dest)` for each row of
      `images` in turn: the output grows by exactly the files and the
      directives of the rows whose image the archive has, in table order. */
  function InstallImages(out: Output, zip: Archive, images: seq<(string, string)>): (r: Output)
    decreases |images|
    ensures r.staged == out.staged + EmittedFiles(zip, PresentImages(zip, images))
    ensures r.script == out.script + EmittedScript(PresentImages(zip, images))
  {
    if |images| == 0 then out
    else
      var o := AddImage(out, "IMAGES", zip, images[0].0, images[0].1);
      InstallImagesStep(out, o, zip, images);
      InstallImages(o, zip, images[1..])
  }

  /** One row of `InstallImages`: `AddImage` appends the first row's part of
      the emitted files and directives. */
  lemma InstallImagesStep(out: Output, o: Output, zip: Archive, images: seq<(string, string)>)
    requires |images| > 0
    requires o == AddImage(out, "IMAGES", zip, images[0].0, images[0].1)
    ensures o.staged + EmittedFiles(zip, PresentImages(zip, images[1..]))
            == out.staged + EmittedFiles(zip, PresentImages(zip, images))
    ensures o.script + EmittedScript(PresentImages(zip, images[1..]))
            == out.script + EmittedScript(PresentImages(zip, images))
  {
    var row := images[0];
    var rest := PresentImages(zip, images[1..]);
    if ImageEntry(row.0) in zip.entries {
      var present := [row] + rest;
      assert PresentImages(zip, images) == present;
      assert present[1..] == rest;
      assert EmittedFiles(zip, present) == [(row.0, zip.entries[ImageEntry(row.0)])] + EmittedFiles(zip, rest);
      assert EmittedScript(present) == ImageDirectives(row.0, row.1) + EmittedScript(rest);
      assert out.staged + [(row.0, zip.entries[ImageEntry(row.0)])] + EmittedFiles(zip, rest)
             == out.staged + ([(row.0, zip.entries[ImageEntry(row.0)])] + EmittedFiles(zip, rest));
      assert out.script + ImageDirectives(row.0, row.1) + EmittedScript(rest)
             == out.script + (ImageDirectives(row.0, row.1) + EmittedScript(rest));
    }
  }

  /** `OTA_InstallEnd(info, input_zip)`, with `AddImage` called as its
      signature intends: dtbo first, then vbmeta, each staged and installed
      only when the archive has it. */
  function OtaInstallEnd(out: Output, zip: Archive): (r: Output)
    ensures r.staged == out.staged
              + (if ImageEntry("dtbo.img") in zip.entries
                 then [("dtbo.img", zip.entries[ImageEntry("dtbo.img")])] else [])
              + (if ImageEntry("vbmeta.img") in zip.entries
                 then [("vbmeta.img", zip.entries[ImageEntry("vbmeta.img")])] else [])
    ensures r.script == out.script
              + (if ImageEntry("dtbo.img") in zip.entries
                 then ImageDirectives("dtbo.img", BlockDevice("dtbo")) else [])
              + (if ImageEntry("vbmeta.img") in zip.entries
                 then ImageDirectives("vbmeta.img", BlockDevice("vbmeta")) else [])
  {
    ConditionalPresent(zip);
    InstallImages(out, zip, ConditionalImages)
  }

  /** The emitted files and directives of the two conditional images. */
  lemma ConditionalPresent(zip: Archive)
    ensures var present := PresentImages(zip, ConditionalImages);
            && EmittedFiles(zip, present)
               == (if ImageEntry("dtbo.img") in zip.entries
                   then [("dtbo.img", zip.entries[ImageEntry("dtbo.img")])] else [])
                  + (if ImageEntry("vbmeta.img") in zip.entries
                     then [("vbmeta.img", zip.entries[ImageEntry("vbmeta.img")])] else [])
            && EmittedScript(present)
               == (if ImageEntry("dtbo.img") in zip.entries
                   then ImageDirectives("dtbo.img", BlockDevice("dtbo")) else [])
                  + (if ImageEntry("vbmeta.img") in zip.entries
                     then ImageDirectives("vbmeta.img", BlockDevice("vbmeta")) else [])
  {
    var dtbo, vbmeta := ConditionalImages[0], ConditionalImages[1];
    var tail := ConditionalImages[1..];
    assert tail == [vbmeta] && tail[1..] == [];
    var p1 := PresentImages(zip, tail);
    assert PresentImages(zip, tail[1..]) == [];
    assert p1 == if ImageEntry(vbmeta.0) in zip.entries then [vbmeta] else [];
    assert EmittedScript(p1) == if ImageEntry(vbmeta.0) in zip.entries then ImageDirectives(vbmeta.0, vbmeta.1) else [];
    assert EmittedFiles(zip, p1) == if ImageEntry(vbmeta.0) in zip.entries
                                    then [(vbmeta.0, zip.entries[ImageEntry(vbmeta.0)])] else [];
    if ImageEntry(dtbo.0) in zip.entries {
      assert PresentImages(zip, ConditionalImages) == [dtbo] + p1;
      assert ([dtbo] + p1)[1..] == p1;
      assert EmittedFiles(zip, [dtbo] + p1)
             == [(dtbo.0, zip.entries[ImageEntry(dtbo.0)])] + EmittedFiles(zip, p1);
    }
  }

  /** `FullOTA_InstallEnd(info)`: firmware, then the conditional images of
      the input archive. */
  function FullOtaInstallEnd(out: Output, inputZip: Archive): (r: Output)
    ensures r.staged == out.staged + OtaInstallEnd(Output([], []), inputZip).staged
    ensures r.script == out.script + FirmwareDirectives() + OtaInstallEnd(Output([], []), inputZip).script
  {
    OtaInstallEnd(OtaUpdateFirmware(out), inputZip)
  }

  /** `IncrementalOTA_InstallEnd(info)`: firmware, then the conditional
      images of the target archive. It differs from `FullOtaInstallEnd` only
      in which archive of `info` its caller passes. */
  function IncrementalOtaInstallEnd(out: Output, targetZip: Archive): (r: Output)
    ensures r.staged == out.staged + OtaInstallEnd(Output([], []), targetZip).staged
    ensures r.script == out.script + FirmwareDirectives() + OtaInstallEnd(Output([], []), targetZip).script
  {
    OtaInstallEnd(OtaUpdateFirmware(out), targetZip)
  }

  /** The extraction directives of a table of images, in table order. */
  function Installs(images: seq<(string, string)>): (ds: seq<Directive>)
    ensures |ds| == |images|
    ensures forall k :: 0 <= k < |images| ==> ds[k] == InstallImage(images[k].0, images[k].1)
  {
    seq(|images|, k requires 0 <= k < |images| => InstallImage(images[k].0, images[k].1))
  }

  /** The emitted directives are two per image: every extraction among
      them is one of the images', and every image's extraction is among
      them. The emitted files are one per image. */
  lemma {:induction false} EmittedContents(zip: Archive, present: seq<(string, string)>)
    requires forall k :: 0 <= k < |present| ==> ImageEntry(present[k].0) in zip.entries
    decreases |present|
    ensures |EmittedScript(present)| == 2 * |present|
    ensures |EmittedFiles(zip, present)| == |present|
    ensures forall d :: d in EmittedScript(present) && d.Extra? ==>
              exists row :: row in present && d == InstallImage(row.0, row.1)
    ensures forall row :: row in present ==> InstallImage(row.0, row.1) in EmittedScript(present)
  {
    if |present| > 0 {
      var row, rest := present[0], present[1..];
      EmittedContents(zip, rest);
      var es := EmittedScript(present);
      assert es == ImageDirectives(row.0, row.1) + EmittedScript(rest);
      forall d | d in es && d.Extra?
        ensures exists row' :: row' in present && d == InstallImage(row'.0, row'.1)
      {
        if d in EmittedScript(rest) {
          var row' :| row' in rest && d == InstallImage(row'.0, row'.1);
          assert row' in present;
        } else {
          assert d == InstallImage(row.0, row.1);
        }
      }
      forall row' | row' in present
        ensures InstallImage(row'.0, row'.1) in es
      {
        if row' != row {
          assert row' in rest;
        }
      }
    }
  }

  /** Installing a table of images only appends: a print and an extraction
      per image the archive has, one staged file per such image, every
      extraction appended is one of the table's, and each row's extraction
      is appended exactly when the archive has that row's image. */
  lemma InstallImagesConditional(out: Output, zip: Archive, images: seq<(string, string)>)
    requires Distinct(Installs(images))
    ensures var r := InstallImages(out, zip, images);
            && |out.script| <= |r.script| && r.script[..|out.script|] == out.script
            && |out.staged| <= |r.staged| && r.staged[..|out.staged|] == out.staged
            && |r.script| == |out.script| + 2 * |PresentImages(zip, images)|
            && |r.staged| == |out.staged| + |PresentImages(zip, images)|
            && (forall d :: d in r.script[|out.script|..] && d.Extra? ==> d in Installs(images))
            && (forall k :: 0 <= k < |images| ==>
                  (Installs(images)[k] in r.script[|out.script|..] <==> ImageEntry(images[k].0) in zip.entries))
  {
    var r := InstallImages(out, zip, images);
    var present := PresentImages(zip, images);
    var es := EmittedScript(present);
    EmittedContents(zip, present);
    assert r.script[|out.script|..] == es;
    assert r.staged[..|out.staged|] == out.staged;
    forall d | d in es && d.Extra?
      ensures d in Installs(images)
    {
      var row :| row in present && d == InstallImage(row.0, row.1);
      var j :| 0 <= j < |images| && images[j] == row;
      assert Installs(images)[j] == d;
    }
    forall k | 0 <= k < |images|
      ensures Installs(images)[k] in es <==> ImageEntry(images[k].0) in zip.entries
    {
      if Installs(images)[k] in es {
        var row :| row in present && Installs(images)[k] == InstallImage(row.0, row.1);
        var j :| 0 <= j < |images| && images[j] == row;
        assert Installs(images)[j] == Installs(images)[k];
        assert j == k;
      }
      if ImageEntry(images[k].0) in zip.entries {
        assert images[k] in present;
      }
    }
  }

  /** The two conditional images have different extraction directives. */
  lemma DistinctConditionalInstalls()
    ensures Distinct(Installs(ConditionalImages))
  {
    var ds := Installs(ConditionalImages);
    assert PackageExtractFile("dtbo.img", BlockDevice("dtbo"))[22] == 'd';
    assert PackageExtractFile("vbmeta.img", BlockDevice("vbmeta"))[22] == 'v';
    assert ds[0] != ds[1];
  }

  /** `OTA_InstallEnd` only appends, and installs each of dtbo and vbmeta
      exactly when the archive has it, independently of the other. */
  lemma InstallEndConditional(out: Output, zip: Archive)
    ensures var r := OtaInstallEnd(out, zip);
            && |out.script| <= |r.script| && r.script[..|out.script|] == out.script
            && |out.staged| <= |r.staged| && r.staged[..|out.staged|] == out.staged
            && |r.script| == |out.script| + 2 * |PresentImages(zip, ConditionalImages)|
            && (forall k :: 0 <= k < |ConditionalImages| ==>
                  (Installs(ConditionalImages)[k] in r.script[|out.script|..] <==>
                     ImageEntry(ConditionalImages[k].0) in zip.entries))
  {
    DistinctConditionalInstalls();
    InstallImagesConditional(out, zip, ConditionalImages);
  }

  /** An archive with a dtbo image but no vbmeta image gets the dtbo
      installed and nothing for vbmeta. */
  lemma DtboWithoutVbmeta(out: Output, data: Bytes)
    ensures OtaInstallEnd(out, Archive(map[ImageEntry("dtbo.img") := data])) ==
              Output(out.staged + [("dtbo.img", data)],
                     out.script + [Print("Patching " + "dtbo" + " image unconditionally..."),
                                   InstallImage("dtbo.img", BlockDevice("dtbo"))])
  {
    LastSegmentAfterSlash("/dev/block/bootdevice/by-name", "dtbo");
    var zip := Archive(map[ImageEntry("dtbo.img") := data]);
    assert ImageEntry("vbmeta.img") !in zip.entries by {
      assert ImageEntry("vbmeta.img")[7] == 'v';
    }
    var o := AddImage(out, "IMAGES", zip, "dtbo.img", BlockDevice("dtbo"));
    assert InstallImages(o, zip, ConditionalImages[1..]) == o;
  }

  // ---------------------------------------------------------------------
  // OTA_InstallEnd as written

  /** A Python value passed where `AddImage` expects a `str` or a zip file. */
  datatype PyValue = Str(s: string) | ZipFile(archive: Archive)

  /** The exceptions a mistyped `AddImage` call raises. */
  datatype PyError = TypeError | AttributeError

  /** `AddImage` over dynamically typed arguments: `dir + "/"` raises a
      TypeError unless `dir` is a string, and `input_zip.namelist()` raises
      an AttributeError unless `input_zip` is a zip file; a well-typed call
      is `AddImage`. */
  function AddImageAsWritten(out: Output, dir: PyValue, inputZip: PyValue, basename: string, dest: string)
    : (r: Result<Output, PyError>)
    ensures r.Success? <==> dir.Str? && inputZip.ZipFile?
    ensures r.Success? ==> r.value == AddImage(out, dir.s, inputZip.archive, basename, dest)
    ensures dir.ZipFile? ==> r == Failure(TypeError)
  {
    match dir
    case ZipFile(_) => Failure(TypeError)
    case Str(d) =>
      match inputZip
      case Str(_) => Failure(AttributeError)
      case ZipFile(z) => Success(AddImage(out, d, z, basename, dest))
  }

  /** `OTA_InstallEnd` as written: the archive goes in the `dir` position
      and "IMAGES" in the `input_zip` position, so the first `AddImage`
      raises a TypeError at `dir + "/"` on every call, before anything is
      staged or appended. */
  function OtaInstallEndAsWritten(out: Output, zip: Archive): (r: Result<Output, PyError>)
    ensures r == Failure(TypeError)
  {
    match AddImageAsWritten(out, ZipFile(zip), Str("IMAGES"), "dtbo.img", BlockDevice("dtbo"))
    case Failure(e) => Failure(e)
    case Success(o) => AddImageAsWritten(o, ZipFile(zip), Str("IMAGES"), "vbmeta.img", BlockDevice("vbmeta"))
  }

  /** The defect on an archive that holds a dtbo image: as written the
      call raises a TypeError, while the intended call stages the image
      under `dtbo.img` with the archive's bytes. */
  lemma OtaInstallEndAsWrittenFails(out: Output, zip: Archive)
    requires ImageEntry("dtbo.img") in zip.entries
    ensures OtaInstallEndAsWritten(out, zip) == Failure(TypeError)
    ensures var r := OtaInstallEnd(out, zip);
            && |out.staged| < |r.staged|
            && r.staged[|out.staged|] == ("dtbo.img", zip.entries[ImageEntry("dtbo.img")])
  {
    var r := OtaInstallEnd(out, zip);
    var dtbo := [("dtbo.img", zip.entries[ImageEntry("dtbo.img")])];
    var vbmeta := if ImageEntry("vbmeta.img") in zip.entries
                  then [("vbmeta.img", zip.entries[ImageEntry("vbmeta.img")])] else [];
    assert r.staged == out.staged + dtbo + vbmeta;
    assert r.staged[|out.staged|] == dtbo[0];
  }
}
