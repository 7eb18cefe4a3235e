/** The partition catalog and the per-build image sets (`USERIMAGE_PARTITIONS`
    and `GetUserImages` in releasetools.py). */
module Partitions {
  import opened OrderedMaps

  /** A dynamic partition name such as "odm". */
  type Partition = string

  /** The joined catalog of user-image partitions of source and target
      builds. Names are only ever added, so that an incremental update can
      still recognise a partition the target build has dropped. */
  const UserImagePartitions: seq<Partition> := ["odm", "product", "system_ext"]

  lemma UserImagePartitionsDistinct()
    ensures Distinct(UserImagePartitions)
  {
  }

  /** A partition image of one build, or the `EmptyImage()` placeholder that
      asks for the partition's content to be removed. */
  datatype Image<I> = Real(img: I) | Empty

  /** `os.path.join(a, b)` for POSIX paths: an absolute `b` replaces `a`,
      otherwise a separator is inserted unless `a` is empty or already ends
      with one. */
  function Join(a: string, b: string): (r: string)
    ensures |b| > 0 && b[0] == '/' ==> r == b
    ensures |b| > 0 && b[0] != '/' ==> |a| + |b| <= |r| && r[..|a|] == a && r[|r| - |b|..] == b
  {
    if |b| > 0 && b[0] == '/' then b
    else if |a| == 0 || a[|a| - 1] == '/' then a + b
    else a + "/" + b
  }

  /** Where a build's extraction directory keeps the image of `p`:
      `<tmp>/IMAGES/<p>.img`. */
  function ImagePath(tmp: string, p: Partition): string {
    Join(Join(tmp, "IMAGES"), p + ".img")
  }

  /** An image path is `<p>.img` itself when `p` is absolute; otherwise it
      starts with the extraction directory and ends with `IMAGES/<p>.img`. */
  lemma ImagePathShape(tmp: string, p: Partition)
    ensures |p| > 0 && p[0] == '/' ==> ImagePath(tmp, p) == p + ".img"
    ensures |p| == 0 || p[0] != '/' ==>
              var r := ImagePath(tmp, p);
              && |tmp| + |p| + 11 <= |r|
              && r[..|tmp|] == tmp
              && r[|r| - |p| - 11..] == "IMAGES/" + p + ".img"
  {
    var dir := Join(tmp, "IMAGES");
    var file := p + ".img";
    assert file[0] == '/' <==> |p| > 0 && p[0] == '/';
    if file[0] != '/' {
      assert dir[|dir| - 1] == 'S';
      var r := dir + "/" + file;
      assert ImagePath(tmp, p) == r;
      assert r[..|tmp|] == dir[..|tmp|];
      assert r[|r| - |p| - 11..] == dir[|dir| - 6..] + "/" + file;
    }
  }

  /** One build as the image scan sees it: its extraction directory, the
      set of paths that exist on disk, and the image loader of the `common`
      module (`GetUserImage`) for that build. */
  datatype BuildTree<I> = BuildTree(tmp: string, files: set<string>, image: Partition -> I)

  /** `os.path.exists(os.path.join(tmp, "IMAGES", p + ".img"))`. */
  predicate HasImage<I>(b: BuildTree<I>, p: Partition) {
    ImagePath(b.tmp, p) in b.files
  }

  /** The dictionary comprehension `{p: image(p) for p in ks if exists(p)}`,
      evaluated left to right as a sequence of `d[p] = image(p)` stores. */
  function CollectImages<I>(ks: seq<Partition>, b: BuildTree<I>): (m: Dict<Partition, I>)
    requires Distinct(ks)
    ensures forall p :: p in Keys(m) <==> p in ks && HasImage(b, p)
    ensures forall i :: 0 <= i < |m| ==> m[i].1 == b.image(m[i].0)
    ensures InOrderOf(Keys(m), ks)
  {
    if |ks| == 0 then []
    else
      var n := |ks| - 1;
      var m := CollectImages(ks[..n], b);
      CollectImagesStep(ks, b, m);
      if HasImage(b, ks[n]) then Put(m, ks[n], b.image(ks[n])) else m
  }

  /** The last store of `CollectImages`: given the image set of all but the
      last name of `ks`, storing the last name's image when it exists gives
      the image set of `ks`. */
  lemma CollectImagesStep<I>(ks: seq<Partition>, b: BuildTree<I>, m: Dict<Partition, I>)
    requires Distinct(ks) && |ks| > 0
    requires forall p :: p in Keys(m) <==> p in ks[..|ks| - 1] && HasImage(b, p)
    requires forall i :: 0 <= i < |m| ==> m[i].1 == b.image(m[i].0)
    requires InOrderOf(Keys(m), ks[..|ks| - 1])
    ensures var p := ks[|ks| - 1];
            var r := if HasImage(b, p) then Put(m, p, b.image(p)) else m;
            && (forall q :: q in Keys(r) <==> q in ks && HasImage(b, q))
            && (forall i :: 0 <= i < |r| ==> r[i].1 == b.image(r[i].0))
            && InOrderOf(Keys(r), ks)
  {
    var n := |ks| - 1;
    var p := ks[n];
    assert ks == ks[..n] + [p];
    assert p !in ks[..n];
    InOrderOfExtend(Keys(m), ks);
    if HasImage(b, p) {
      var r := Put(m, p, b.image(p));
      assert r == m + [(p, b.image(p))];
      assert Keys(r) == Keys(m) + [p];
      forall q
        ensures q in Keys(r) <==> q in ks && HasImage(b, q)
      {
        assert q in ks <==> q in ks[..n] || q == p;
      }
    } else {
      forall q
        ensures q in Keys(m) <==> q in ks && HasImage(b, q)
      {
        assert q in ks <==> q in ks[..n] || q == p;
      }
    }
  }

  /** `GetUserImages(tmp, zip)`: the image set of one build. */
  function GetUserImages<I>(b: BuildTree<I>): (m: Dict<Partition, I>)
    ensures forall p :: p in Keys(m) <==> p in UserImagePartitions && HasImage(b, p)
    ensures forall i :: 0 <= i < |m| ==> m[i].1 == b.image(m[i].0)
    ensures InOrderOf(Keys(m), UserImagePartitions)
  {
    UserImagePartitionsDistinct();
    CollectImages(UserImagePartitions, b)
  }
}
