# Partition reconciliation for OTA packages (releasetools.py)

This project models the device-specific part of an Android OTA package
builder. It covers four pieces:

- **Image sets.** `GetUserImages` scans a fixed catalog of dynamic
  partitions (`odm`, `product`, `system_ext`). It builds an
  insertion-ordered dictionary from partition name to image, holding the
  partitions whose `IMAGES/<name>.img` file exists.
- **The difference scheduler.** A full package gets one block-difference
  operation per image, each without a source. An incremental package first
  gives every partition that only the source build has an `EmptyImage()`
  placeholder, added with `setdefault`. It then schedules one operation
  per entry of the extended target dictionary, diffed against the source
  build's image when there is one.
- **The install-script emitters.** `AddImage` stages and extracts an image
  only when the archive has it. `OTA_UpdateFirmware` appends a fixed list
  of firmware writes. `OTA_InstallEnd` installs dtbo and vbmeta when
  present. The two install-end entry points run the firmware writes first.
- **One source defect.** `OTA_InstallEnd` calls `AddImage` with two
  arguments swapped. It is modelled both as written and as intended (see
  Findings).

Modules, one per component:

- `optional.dfy`, module `Optional`: `Option` (Python's `None`) and `Result`
  (a value or a raised exception).
- `ordered_map.dfy`, module `OrderedMaps`: Python's insertion-ordered
  `dict`. A `Dict<K, V>` is a sequence of entries with distinct keys.
  - `Get` is `d.get(k)`.
  - `Put` is `d[k] = v`.
  - `SetDefault` is `d.setdefault(k, v)`.
  - `InOrderOf` says that one listing follows the order of another.
- `partitions.dfy`, module `Partitions`: the catalog, the `Image` type
  (`Real(img)` or the `Empty` placeholder), `os.path.join`, and the image
  scan.
- `scheduler.dfy`, module `Scheduler`: the full and incremental schedules,
  plus a reference definition of the incremental schedule stated per
  partition, proved equal to the `setdefault`-based computation.
- `install_script.dfy`, module `InstallScript`: script directives, staged
  files, `AddImage`, the firmware table, the install-end entry points, and
  the as-written `OTA_InstallEnd`.

Foreign parts are inputs to the model:

- A build is a `BuildTree`: its extraction directory, the set of paths
  that exist under it, and the `GetUserImage` loader of the `common`
  module, given as a function.
- Images are an opaque type parameter.
- An input archive is a map from entry name to bytes.
- The package output is the list of staged files plus the install script.

A present image adds two script entries, a `Print` and then a
`package_extract_file` extraction (releasetools.py:95-96).

## Model

| member | source | states |
|---|---|---|
| OrderedMaps.Get | releasetools.py:53 | `source_images.get(p)` finds a value exactly when `p` is a key, and the value it finds is stored under `p` |
| OrderedMaps.GetEntry | releasetools.py:53 | in a dictionary, looking up an entry's key yields that entry's value |
| OrderedMaps.Put | releasetools.py:34-37 | `d[k] = v` keeps an existing key at its position and appends a new one at the end; afterwards `k` maps to `v` and every other key's lookup is unchanged |
| OrderedMaps.SetDefault | releasetools.py:50 | `setdefault` never overwrites: the old entries stay in place; a missing key is appended with the default; the key then maps to its old value, or to the default if it had none; other keys are unaffected |
| Partitions.UserImagePartitionsDistinct | releasetools.py:22-31 | the catalog names no partition twice |
| Partitions.Join | releasetools.py:36-37 | `os.path.join`: an absolute component replaces the path; otherwise the result starts with the path and ends with the component |
| Partitions.ImagePathShape | releasetools.py:36-37 | the path `os.path.exists` is asked about (`HasImage` tests it) is `<p>.img` for an absolute `p`, and otherwise starts with the extraction directory and ends with `IMAGES/<p>.img` |
| Partitions.CollectImages | releasetools.py:34-37 | the comprehension over a duplicate-free list keeps exactly the listed names whose image exists, in list order, each mapped to its loaded image |
| Partitions.GetUserImages | releasetools.py:33-37 | a build's image set has exactly the catalog partitions whose `IMAGES/<p>.img` exists, in catalog order, each mapped to `GetUserImage(p)` |
| Scheduler.FullDifferences | releasetools.py:41-42 | one operation per entry, in dictionary order, each writing that entry's image with no source |
| Scheduler.FullOtaBlockDifferences | releasetools.py:39-42 | a full package schedules exactly the catalog partitions the build has, each once, in catalog order, each with no source and the build's image as target |
| Scheduler.FullOtaSchedule | releasetools.py:39-42 | a full package has as many operations as the build has images, strictly in catalog order |
| Scheduler.WithoutContents | releasetools.py:49-50 | the source-only partitions are exactly the source keys absent from the target, listed once each, in source order |
| Scheduler.AddPlaceholders | releasetools.py:48-50 | the placeholder loop leaves every target entry as it was and where it was; it appends the source-only partitions in source order, each with the `Empty` placeholder |
| Scheduler.OperationsOf | releasetools.py:53-54 | one operation per working entry, in entry order, with that entry's image as target; the source is present exactly when the source build has the partition, and is then the image stored for it |
| Scheduler.IncrementalDifferences | releasetools.py:44-54 | the operations list the target partitions and then the source-only ones; target partitions keep their target image, source-only ones get the placeholder, and each source is the source build's image of that partition, if any |
| Scheduler.IncrementalMatchesReference | releasetools.py:44-54 | the `setdefault` computation equals the per-partition reference schedule: target partitions, then source-only partitions, each going to its target image or the placeholder, from its source image or nothing |
| Scheduler.IncrementalCoversUnion | releasetools.py:49-54 | a partition is scheduled exactly when the source or the target build has it; none is dropped |
| Scheduler.IncrementalNoDuplicates | releasetools.py:49-54 | no partition is scheduled twice |
| Scheduler.IncrementalOrder | releasetools.py:49-54 | the schedule starts with the target's keys in target order, followed by exactly the source-only keys in source order |
| Scheduler.RemovedPartitionGetsPlaceholder | releasetools.py:48-53 | a partition only the source build has is scheduled from its source image to the `Empty` placeholder |
| Scheduler.CommonPartitionPairsImages | releasetools.py:50-53 | a partition both builds have is scheduled from its source image to its unchanged target image |
| Scheduler.AddedPartitionHasNoSource | releasetools.py:52-53 | a partition only the target build has is scheduled to its target image with no source |
| Scheduler.IncrementalOtaBlockDifferences | releasetools.py:44-54 | an incremental package between two builds schedules exactly the catalog partitions either build has, each once; each goes to the target build's image or the placeholder, from the source build's image or nothing; those the target has come first, each group in catalog order |
| Scheduler.IncrementalOtaCoverage | releasetools.py:44-54 | the coverage part of the incremental package: exactly the catalog partitions that either build has, each once |
| Scheduler.IncrementalOtaImages | releasetools.py:44-54 | the image part of the incremental package: each operation goes to the target build's image, or to the placeholder when the target lacks the partition, from the source build's image, or from none when the source lacks it |
| Scheduler.IncrementalOtaOrder | releasetools.py:44-54 | the order part of the incremental package: partitions the target build has come before those it lacks, and within each group they follow catalog order |
| Scheduler.DroppedKeptAndNewPartitions | releasetools.py:44-54 | example: source {odm, product} and target {product, system_ext} give product (diff), then system_ext (fresh), then odm (removal) |
| Scheduler.NewPartitionFromEmptySource | releasetools.py:52-53 | example: an empty source and a target with odm give a single fresh write of odm |
| InstallScript.LastSegment | releasetools.py:95 | `dest.split('/')[-1]` contains no '/' and is no longer than `dest` |
| InstallScript.LastSegmentIsLongestSlashFreeSuffix | releasetools.py:95 | `dest.split('/')[-1]` is the longest suffix of `dest` without a '/' |
| InstallScript.LastSegmentAfterSlash | releasetools.py:95 | the last segment of `dir + "/" + name` is `name` when `name` has no '/' |
| InstallScript.AddImage | releasetools.py:88-96 | when `dir/basename` is not in the archive, nothing changes; otherwise one file named `basename` is staged with the archive's bytes, then a print naming the destination's last segment and a `package_extract_file(basename, dest)` are appended, in that order |
| InstallScript.FirmwareDirectives | releasetools.py:69-86 | the firmware directives are the banner followed by one write per firmware table row, in table order |
| InstallScript.FirmwareSlots | releasetools.py:70-86 | a sanity fact about the firmware table, not about an operation: no slot is written twice, while the bootloader image is written to both its A and B slots |
| InstallScript.OtaUpdateFirmware | releasetools.py:68-86 | the firmware update stages nothing and appends exactly the firmware directives, unchanged and in order |
| InstallScript.PresentImages | releasetools.py:90-91 | the rows `AddImage` acts on are exactly the table rows whose `IMAGES/<basename>` entry the archive has |
| InstallScript.InstallImages | releasetools.py:88-96 | the `AddImage` calls of a table, in turn, append exactly this: for each row whose image the archive has, in table order, its print and extraction, and one staged file under its basename holding the archive's bytes |
| InstallScript.EmittedContents | releasetools.py:94-96 | what is emitted for the present rows is two directives and one staged file per row; its extractions are exactly those of the present rows |
| InstallScript.InstallImagesConditional | releasetools.py:105-108 | installing a table of images only appends, adding two directives and one staged file per image present; every extraction appended belongs to the table, and each row's extraction appears exactly when the archive has that image |
| InstallScript.DistinctConditionalInstalls | releasetools.py:106-107 | the dtbo and vbmeta extraction directives differ |
| InstallScript.OtaInstallEnd | releasetools.py:105-108 | `OTA_InstallEnd` appends the dtbo print and extraction when the archive has `IMAGES/dtbo.img`, then the vbmeta ones when it has `IMAGES/vbmeta.img`, and stages those images under their basenames with the archive's bytes, in the same order; nothing else changes |
| InstallScript.InstallEndConditional | releasetools.py:105-108 | `OTA_InstallEnd` only appends; it installs dtbo and vbmeta each exactly when the archive has it, independently of the other |
| InstallScript.FullOtaInstallEnd | releasetools.py:56-60 | with the corrected `OTA_InstallEnd`: the firmware directives come first, unchanged, followed by exactly what `OTA_InstallEnd` appends and stages for the input archive; as written, the firmware directives are appended and then a TypeError is raised |
| InstallScript.IncrementalOtaInstallEnd | releasetools.py:62-66 | with the corrected `OTA_InstallEnd`: the firmware directives come first, unchanged, followed by exactly what `OTA_InstallEnd` appends and stages for the target archive; as written, the firmware directives are appended and then a TypeError is raised |
| InstallScript.DtboWithoutVbmeta | releasetools.py:105-108 | example: an archive with dtbo but no vbmeta stages `dtbo.img` and appends its print and extraction, and nothing for vbmeta |
| InstallScript.AddImageAsWritten | releasetools.py:88-96 | with dynamically typed arguments, `AddImage` succeeds exactly when `dir` is a string and `input_zip` a zip file; then it behaves as the typed `AddImage`; a zip file passed as `dir` raises a TypeError |
| InstallScript.OtaInstallEndAsWritten | releasetools.py:105-108 | as written, every call raises a TypeError at `dir + "/"` (line 89), for any output and any archive, before anything is staged or appended |
| InstallScript.OtaInstallEndAsWrittenFails | releasetools.py:105-108 | for any archive holding `IMAGES/dtbo.img`, the as-written call raises a TypeError while the intended call stages `dtbo.img` with the archive's bytes |

## Left out

- `FullOTA_InstallBegin` (releasetools.py:98-103) is not modelled. It calls the five-parameter `AddImage` with four arguments, so it raises a TypeError before appending anything. Which archive it means to read from cannot be recovered from the code.
- The file system and the archives are data, not I/O. `os.path.exists` is a set of existing paths. `namelist`/`read` are a map from entry name to bytes. `common.ZipWriteStr` appends to the list of staged files.
- `GetUserImage`, `EmptyImage` and `BlockDifference` belong to the `common` module, which is not part of this model. The loader is a function parameter, images are an opaque type, `EmptyImage()` is the `Empty` constructor, and a block difference is a record of partition, target and optional source.
- Errors raised while loading an image are not modelled. The loader is total.
- How `script.Print` renders a message into the edify script is not modelled. A `Print` directive carries the message itself.
- The `info` object is not modelled. Its fields become explicit parameters: the build trees, the archives, and the output.
- Calling the scheduler twice on the same image sets gives the same list, which holds of any Dafny function, so no lemma states it.

## Findings

| source | as written | input that shows it | evidently intended | confidence | as-written member | corrected member |
|---|---|---|---|---|---|---|
| releasetools.py:106-107 | `AddImage(info, input_zip, "IMAGES", ...)` passes the archive as `dir` and "IMAGES" as `input_zip`, so `dir + "/" + basename` raises a TypeError | any archive, e.g. one holding `IMAGES/dtbo.img` | `AddImage(info, "IMAGES", input_zip, ...)`, installing dtbo and vbmeta when present | high; not executed | InstallScript.OtaInstallEndAsWrittenFails | InstallScript.OtaInstallEnd |

`InstallScript.OtaInstallEndAsWritten` models the calls as written, over
dynamically typed arguments. `InstallScript.OtaInstallEnd` is the
corrected version, used by both install-end entry points.
`InstallScript.InstallEndConditional` states its conditional behaviour.
