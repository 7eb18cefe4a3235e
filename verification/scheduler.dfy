/** The difference scheduler: which block-difference operations an OTA
    package gets (`FullOTA_GetBlockDifferences` and
    `IncrementalOTA_GetBlockDifferences` in releasetools.py). */
module Scheduler {
  import opened Optional
  import opened OrderedMaps
  import opened Partitions

  /** `BlockDifference(partition, target, source)`: bring `partition` to the
      `target` image, diffing against `source` when there is one and writing
      the image outright when there is none. */
  datatype BlockDifference<I> = BlockDifference(partition: Partition, target: Image<I>, source: Option<I>)

  /** The partitions of a list of operations, in list order. */
  function PartitionsOf<I>(ops: seq<BlockDifference<I>>): (ps: seq<Partition>)
    ensures |ps| == |ops|
    ensures forall i :: 0 <= i < |ops| ==> ps[i] == ops[i].partition
  {
    seq(|ops|, i requires 0 <= i < |ops| => ops[i].partition)
  }

  // ---------------------------------------------------------------------
  // Full mode

  /** One fresh write per entry of the image set, in the set's order. */
  function FullDifferences<I>(images: Dict<Partition, I>): (ops: seq<BlockDifference<I>>)
    ensures PartitionsOf(ops) == Keys(images)
    ensures forall i :: 0 <= i < |ops| ==> ops[i].target == Real(images[i].1) && ops[i].source == None
  {
    var ops := seq(|images|, i requires 0 <= i < |images| =>
                     BlockDifference(images[i].0, Real(images[i].1), None));
    assert PartitionsOf(ops) == Keys(images);
    ops
  }

  /** `FullOTA_GetBlockDifferences(info)`: the operations of a full package
      for the build `b`. */
  function FullOtaBlockDifferences<I>(b: BuildTree<I>): (ops: seq<BlockDifference<I>>)
    ensures forall p :: p in PartitionsOf(ops) <==> p in UserImagePartitions && HasImage(b, p)
    ensures Distinct(PartitionsOf(ops))
    ensures InOrderOf(PartitionsOf(ops), UserImagePartitions)
    ensures forall op :: op in ops ==> op.source == None && op.target == Real(b.image(op.partition))
  {
    FullDifferences(GetUserImages(b))
  }

  // ---------------------------------------------------------------------
  // Incremental mode

  /** The target image set as the working target map, whose values may
      later include the `Empty` placeholder. */
  function Lift<I>(m: Dict<Partition, I>): (r: Dict<Partition, Image<I>>)
    ensures Keys(r) == Keys(m)
    ensures forall i :: 0 <= i < |m| ==> r[i].1 == Real(m[i].1)
  {
    var r := seq(|m|, i requires 0 <= i < |m| => (m[i].0, Real(m[i].1)));
    assert Keys(r) == Keys(m);
    r
  }

  /** The elements of `s` that are not in `excluded`, in the order of `s`. */
  function Without(s: seq<Partition>, excluded: seq<Partition>): seq<Partition> {
    if |s| == 0 then []
    else
      var rest := Without(s[1..], excluded);
      if s[0] in excluded then rest else [s[0]] + rest
  }

  /** `Without` keeps exactly the elements of `s` outside `excluded`. */
  lemma {:induction false} WithoutMembers(s: seq<Partition>, excluded: seq<Partition>)
    ensures forall x :: x in Without(s, excluded) <==> x in s && x !in excluded
  {
    if |s| > 0 {
      WithoutMembers(s[1..], excluded);
      assert s == [s[0]] + s[1..];
    }
  }

  /** `Without` keeps a duplicate-free `s` duplicate-free and in order. */
  lemma {:induction false} WithoutOrdered(s: seq<Partition>, excluded: seq<Partition>)
    requires Distinct(s)
    ensures Distinct(Without(s, excluded)) && InOrderOf(Without(s, excluded), s)
  {
    if |s| > 0 {
      var tail := s[1..];
      var rest := Without(tail, excluded);
      WithoutOrdered(tail, excluded);
      WithoutMembers(tail, excluded);
      InOrderOfCons(rest, s);
      if s[0] !in excluded {
        assert s[0] !in tail by {
          assert s == [s[0]] + tail;
        }
        assert Distinct([s[0]] + rest) by {
          assert s[0] !in rest;
        }
      }
    }
  }

  /** Both facts about `Without`. */
  lemma WithoutContents(s: seq<Partition>, excluded: seq<Partition>)
    ensures forall x :: x in Without(s, excluded) <==> x in s && x !in excluded
    ensures Distinct(s) ==> Distinct(Without(s, excluded)) && InOrderOf(Without(s, excluded), s)
  {
    WithoutMembers(s, excluded);
    if Distinct(s) {
      WithoutOrdered(s, excluded);
    }
  }

  /** `Without` depends on `excluded` only through the elements of `s`. */
  lemma {:induction false} WithoutSameExclusions(s: seq<Partition>, e1: seq<Partition>, e2: seq<Partition>)
    requires forall x :: x in s ==> (x in e1 <==> x in e2)
    ensures Without(s, e1) == Without(s, e2)
  {
    if |s| > 0 {
      WithoutSameExclusions(s[1..], e1, e2);
    }
  }

  /** Key-level view of one placeholder iteration: appending the first
      source key when missing, then the rest of the source-only keys, is
      appending all source-only keys. */
  lemma WithoutStep(keys: seq<Partition>, sourceKeys: seq<Partition>, next: seq<Partition>)
    requires |sourceKeys| > 0 && Distinct(sourceKeys)
    requires next == keys + if sourceKeys[0] in keys then [] else [sourceKeys[0]]
    ensures next + Without(sourceKeys[1..], next) == keys + Without(sourceKeys, keys)
  {
    var rest := sourceKeys[1..];
    WithoutSameExclusions(rest, next, keys);
    if sourceKeys[0] !in keys {
      assert Without(sourceKeys, keys) == [sourceKeys[0]] + Without(rest, keys);
      assert (keys + [sourceKeys[0]]) + Without(rest, keys) == keys + ([sourceKeys[0]] + Without(rest, keys));
    }
  }

  /** The loop `for partition in source_images:
      target_images.setdefault(partition, EmptyImage())`. */
  function AddPlaceholders<I>(working: Dict<Partition, Image<I>>, sourceKeys: seq<Partition>)
    : (r: Dict<Partition, Image<I>>)
    requires Distinct(sourceKeys)
    ensures |working| <= |r|
    ensures forall i :: 0 <= i < |working| ==> r[i] == working[i]
    ensures Keys(r) == Keys(working) + Without(sourceKeys, Keys(working))
    ensures forall i :: |working| <= i < |r| ==> r[i].1 == Empty
    decreases |sourceKeys|
  {
    if |sourceKeys| == 0 then working
    else
      var p := sourceKeys[0];
      var next := SetDefault(working, p, Empty);
      var r := AddPlaceholders(next, sourceKeys[1..]);
      AddPlaceholdersStep(working, sourceKeys, next, r);
      r
  }

  /** One iteration of the placeholder loop: what holds of the rest of the
      loop started from `next` holds of the whole loop started from
      `working`. */
  lemma AddPlaceholdersStep<I>(working: seq<(Partition, Image<I>)>, sourceKeys: seq<Partition>,
                               next: seq<(Partition, Image<I>)>, r: seq<(Partition, Image<I>)>)
    requires |sourceKeys| > 0 && Distinct(sourceKeys)
    requires next == if sourceKeys[0] in Keys(working) then working else working + [(sourceKeys[0], Empty)]
    requires |next| <= |r|
    requires forall i :: 0 <= i < |next| ==> r[i] == next[i]
    requires Keys(r) == Keys(next) + Without(sourceKeys[1..], Keys(next))
    requires forall i :: |next| <= i < |r| ==> r[i].1 == Empty
    ensures |working| <= |r|
    ensures forall i :: 0 <= i < |working| ==> r[i] == working[i]
    ensures Keys(r) == Keys(working) + Without(sourceKeys, Keys(working))
    ensures forall i :: |working| <= i < |r| ==> r[i].1 == Empty
  {
    var p := sourceKeys[0];
    assert Keys(next) == Keys(working) + if p in Keys(working) then [] else [p];
    WithoutStep(Keys(working), sourceKeys, Keys(next));
    forall i | |working| <= i < |next|
      ensures r[i].1 == Empty
    {
      assert r[i] == next[i] == (p, Empty);
    }
  }

  /** `IncrementalOTA_GetBlockDifferences` given the two image sets: the
      working target map is the target set extended with placeholders for
      source-only partitions; each of its entries yields one operation whose
      source is the source set's image of that partition, if any. */
  function IncrementalDifferences<I>(source: Dict<Partition, I>, target: Dict<Partition, I>)
    : (ops: seq<BlockDifference<I>>)
    ensures PartitionsOf(ops) == Keys(target) + Without(Keys(source), Keys(target))
    ensures forall i :: 0 <= i < |target| ==> ops[i].target == Real(target[i].1)
    ensures forall i :: |target| <= i < |ops| ==> ops[i].target == Empty
    ensures forall i :: 0 <= i < |ops| ==> ops[i].source == Get(source, ops[i].partition)
  {
    var working := AddPlaceholders(Lift(target), Keys(source));
    var ops := OperationsOf(working, source);
    OperationsOfWorking(source, target, working, ops);
    ops
  }

  /** The comprehension `[BlockDifference(p, t, source.get(p)) for p, t in
      working.items()]`. */
  function OperationsOf<I>(working: seq<(Partition, Image<I>)>, source: Dict<Partition, I>)
    : (ops: seq<BlockDifference<I>>)
    ensures PartitionsOf(ops) == Keys(working)
    ensures forall i :: 0 <= i < |ops| ==> ops[i].target == working[i].1
    ensures forall i :: 0 <= i < |ops| ==>
              && (ops[i].source.Some? <==> ops[i].partition in Keys(source))
              && (ops[i].source.Some? ==> (ops[i].partition, ops[i].source.value) in source)
  {
    seq(|working|, i requires 0 <= i < |working| =>
          BlockDifference(working[i].0, working[i].1, Get(source, working[i].0)))
  }

  /** The operations of a working map that extends the lifted target map
      with placeholders. */
  lemma OperationsOfWorking<I>(source: Dict<Partition, I>, target: Dict<Partition, I>,
                               working: seq<(Partition, Image<I>)>, ops: seq<BlockDifference<I>>)
    requires |target| <= |working|
    requires forall i :: 0 <= i < |target| ==> working[i] == Lift(target)[i]
    requires Keys(working) == Keys(target) + Without(Keys(source), Keys(target))
    requires forall i :: |target| <= i < |working| ==> working[i].1 == Empty
    requires ops == OperationsOf(working, source)
    ensures PartitionsOf(ops) == Keys(target) + Without(Keys(source), Keys(target))
    ensures forall i :: 0 <= i < |target| ==> ops[i].target == Real(target[i].1)
    ensures forall i :: |target| <= i < |ops| ==> ops[i].target == Empty
    ensures forall i :: 0 <= i < |ops| ==> ops[i].source == Get(source, ops[i].partition)
  {
    assert PartitionsOf(ops) == Keys(working);
  }

  // ---------------------------------------------------------------------
  // Reference definition of the incremental schedule

  /** The order of the incremental schedule: target partitions in target
      order, then the source-only partitions in source order. */
  function ScheduledOrder<I>(source: Dict<Partition, I>, target: Dict<Partition, I>): seq<Partition> {
    Keys(target) + Without(Keys(source), Keys(target))
  }

  /** The operation a partition should get: the target build's image, or the
      placeholder when the target lacks the partition, diffed against the
      source build's image when the source has one. */
  function ExpectedDifference<I>(source: Dict<Partition, I>, target: Dict<Partition, I>, p: Partition)
    : BlockDifference<I>
  {
    var t := match Get(target, p)
             case Some(img) => Real(img)
             case None => Empty;
    BlockDifference(p, t, Get(source, p))
  }

  /** The incremental schedule, stated per partition rather than as a
      dictionary mutation. */
  function ReferenceSchedule<I>(source: Dict<Partition, I>, target: Dict<Partition, I>)
    : seq<BlockDifference<I>>
  {
    var order := ScheduledOrder(source, target);
    seq(|order|, i requires 0 <= i < |order| => ExpectedDifference(source, target, order[i]))
  }

  /** The setdefault-based computation equals the reference schedule. */
  lemma IncrementalMatchesReference<I>(source: Dict<Partition, I>, target: Dict<Partition, I>)
    ensures IncrementalDifferences(source, target) == ReferenceSchedule(source, target)
  {
    var ops := IncrementalDifferences(source, target);
    var ref := ReferenceSchedule(source, target);
    assert |ops| == |ref|;
    forall i | 0 <= i < |ops|
      ensures ops[i] == ref[i]
    {
      var p := ops[i].partition;
      if i < |target| {
        assert p == target[i].0;
        GetEntry(target, i);
      } else {
        assert p in Without(Keys(source), Keys(target));
        assert Get(target, p) == None;
      }
    }
  }

  // ---------------------------------------------------------------------
  // Properties of the incremental schedule

  /** No partition of either build is dropped, and no other partition is
      scheduled. */
  lemma IncrementalCoversUnion<I>(source: Dict<Partition, I>, target: Dict<Partition, I>)
    ensures forall p ::
              p in PartitionsOf(IncrementalDifferences(source, target)) <==> p in Keys(source) || p in Keys(target)
  {
    WithoutContents(Keys(source), Keys(target));
  }

  /** Each partition is scheduled at most once. */
  lemma IncrementalNoDuplicates<I>(source: Dict<Partition, I>, target: Dict<Partition, I>)
    ensures Distinct(PartitionsOf(IncrementalDifferences(source, target)))
  {
    var ps := PartitionsOf(IncrementalDifferences(source, target));
    var rest := Without(Keys(source), Keys(target));
    WithoutContents(Keys(source), Keys(target));
    forall i, j | 0 <= i < j < |ps|
      ensures ps[i] != ps[j]
    {
      if j >= |target| && i < |target| {
        assert ps[i] in Keys(target);
        assert ps[j] == rest[j - |target|] && ps[j] in rest;
      }
    }
  }

  /** The schedule lists the target's partitions first, in the target's
      order, and then exactly the source-only partitions, in the source's
      order. */
  lemma IncrementalOrder<I>(source: Dict<Partition, I>, target: Dict<Partition, I>)
    ensures var ps := PartitionsOf(IncrementalDifferences(source, target));
            && |target| <= |ps|
            && ps[..|target|] == Keys(target)
            && (forall p :: p in ps[|target|..] <==> p in Keys(source) && p !in Keys(target))
            && InOrderOf(ps[|target|..], Keys(source))
  {
    var ps := PartitionsOf(IncrementalDifferences(source, target));
    WithoutContents(Keys(source), Keys(target));
    assert ps[|target|..] == Without(Keys(source), Keys(target));
  }

  /** Locates the operation the reference schedule gives a partition that
      one of the builds has. */
  lemma ScheduledOperation<I>(source: Dict<Partition, I>, target: Dict<Partition, I>, p: Partition)
    requires p in Keys(source) || p in Keys(target)
    ensures ExpectedDifference(source, target, p) in IncrementalDifferences(source, target)
  {
    IncrementalMatchesReference(source, target);
    WithoutContents(Keys(source), Keys(target));
    var order := ScheduledOrder(source, target);
    var i := IndexOf(order, p);
    assert ReferenceSchedule(source, target)[i] == ExpectedDifference(source, target, p);
  }

  /** A partition the target build drops is scheduled for removal: its
      target is the placeholder and its source the source build's image. */
  lemma RemovedPartitionGetsPlaceholder<I>(source: Dict<Partition, I>, target: Dict<Partition, I>,
                                           p: Partition, img: I)
    requires (p, img) in source && p !in Keys(target)
    ensures BlockDifference(p, Empty, Some(img)) in IncrementalDifferences(source, target)
  {
    GetMember(source, p, img);
    ScheduledOperation(source, target, p);
  }

  /** A partition both builds have is diffed from the source image to the
      target image; the placeholder never replaces a target image. */
  lemma CommonPartitionPairsImages<I>(source: Dict<Partition, I>, target: Dict<Partition, I>,
                                      p: Partition, src: I, tgt: I)
    requires (p, src) in source && (p, tgt) in target
    ensures BlockDifference(p, Real(tgt), Some(src)) in IncrementalDifferences(source, target)
  {
    GetMember(source, p, src);
    GetMember(target, p, tgt);
    ScheduledOperation(source, target, p);
  }

  /** A partition new in the target build is written without a source. */
  lemma AddedPartitionHasNoSource<I>(source: Dict<Partition, I>, target: Dict<Partition, I>,
                                     p: Partition, tgt: I)
    requires (p, tgt) in target && p !in Keys(source)
    ensures BlockDifference(p, Real(tgt), None) in IncrementalDifferences(source, target)
  {
    GetMember(target, p, tgt);
    ScheduledOperation(source, target, p);
  }

  // ---------------------------------------------------------------------
  // The schedules in terms of the two builds

  /** `p` comes before `q` in an incremental schedule towards `tgt`:
      partitions the target build has come first, and within each group
      partitions follow catalog order. */
  predicate ScheduledBefore<I>(tgt: BuildTree<I>, p: Partition, q: Partition) {
    && p in UserImagePartitions
    && q in UserImagePartitions
    && if HasImage(tgt, p) == HasImage(tgt, q)
       then IndexOf(UserImagePartitions, p) < IndexOf(UserImagePartitions, q)
       else HasImage(tgt, p)
  }

  /** The operations cover exactly the catalog partitions that either
      build has, each once. */
  ghost predicate CoversBuilds<I>(src: BuildTree<I>, tgt: BuildTree<I>, ops: seq<BlockDifference<I>>) {
    && (forall p :: p in PartitionsOf(ops) <==> p in UserImagePartitions && (HasImage(src, p) || HasImage(tgt, p)))
    && Distinct(PartitionsOf(ops))
  }

  /** Each operation takes its partition to the target build's image, or to
      the placeholder when the target lacks it, starting from the source
      build's image, or from nothing when the source lacks it. */
  ghost predicate ImagesFromBuilds<I>(src: BuildTree<I>, tgt: BuildTree<I>, ops: seq<BlockDifference<I>>) {
    forall i :: 0 <= i < |ops| ==>
      && ops[i].target == (if HasImage(tgt, ops[i].partition) then Real(tgt.image(ops[i].partition)) else Empty)
      && ops[i].source == (if HasImage(src, ops[i].partition) then Some(src.image(ops[i].partition)) else None)
  }

  /** The operations are listed in `ScheduledBefore` order. */
  ghost predicate InScheduledOrder<I>(tgt: BuildTree<I>, ops: seq<BlockDifference<I>>) {
    forall i, j :: 0 <= i < j < |ops| ==> ScheduledBefore(tgt, ops[i].partition, ops[j].partition)
  }

  /** `IncrementalOTA_GetBlockDifferences(info)`: the operations of an
      incremental package from build `src` to build `tgt`. */
  function IncrementalOtaBlockDifferences<I>(src: BuildTree<I>, tgt: BuildTree<I>)
    : (ops: seq<BlockDifference<I>>)
    ensures CoversBuilds(src, tgt, ops)
    ensures ImagesFromBuilds(src, tgt, ops)
    ensures InScheduledOrder(tgt, ops)
  {
    IncrementalOtaCoverage(src, tgt);
    IncrementalOtaImages(src, tgt);
    IncrementalOtaOrder(src, tgt);
    IncrementalDifferences(GetUserImages(src), GetUserImages(tgt))
  }

  /** The coverage half of `IncrementalOtaBlockDifferences`' contract. */
  lemma IncrementalOtaCoverage<I>(src: BuildTree<I>, tgt: BuildTree<I>)
    ensures CoversBuilds(src, tgt, IncrementalDifferences(GetUserImages(src), GetUserImages(tgt)))
  {
    IncrementalCoversUnion(GetUserImages(src), GetUserImages(tgt));
    IncrementalNoDuplicates(GetUserImages(src), GetUserImages(tgt));
  }

  /** The images half of `IncrementalOtaBlockDifferences`' contract. */
  lemma IncrementalOtaImages<I>(src: BuildTree<I>, tgt: BuildTree<I>)
    ensures ImagesFromBuilds(src, tgt, IncrementalDifferences(GetUserImages(src), GetUserImages(tgt)))
  {
    var S, T := GetUserImages(src), GetUserImages(tgt);
    var ops := IncrementalDifferences(S, T);
    IncrementalMatchesReference(S, T);
    IncrementalCoversUnion(S, T);
    forall i | 0 <= i < |ops|
      ensures ops[i].target == (if HasImage(tgt, ops[i].partition) then Real(tgt.image(ops[i].partition)) else Empty)
      ensures ops[i].source == (if HasImage(src, ops[i].partition) then Some(src.image(ops[i].partition)) else None)
    {
      var p := ops[i].partition;
      assert p in PartitionsOf(ops);
      assert ops[i] == ExpectedDifference(S, T, p);
      BuildLookup(src, p);
      BuildLookup(tgt, p);
    }
  }

  /** A lookup in a build's image set finds the build's image exactly for
      the catalog partitions the build has. */
  lemma BuildLookup<I>(b: BuildTree<I>, p: Partition)
    ensures Get(GetUserImages(b), p) ==
              if p in UserImagePartitions && HasImage(b, p) then Some(b.image(p)) else None
  {
    var m := GetUserImages(b);
    match Get(m, p)
    case Some(v) =>
      var k :| 0 <= k < |m| && m[k] == (p, v);
    case None =>
  }

  /** The order half of `IncrementalOtaBlockDifferences`' contract. */
  lemma IncrementalOtaOrder<I>(src: BuildTree<I>, tgt: BuildTree<I>)
    ensures InScheduledOrder(tgt, IncrementalDifferences(GetUserImages(src), GetUserImages(tgt)))
  {
    var S, T := GetUserImages(src), GetUserImages(tgt);
    var ops := IncrementalDifferences(S, T);
    var ps := PartitionsOf(ops);
    var rest := Without(Keys(S), Keys(T));
    WithoutContents(Keys(S), Keys(T));
    InOrderOfTransitive(rest, Keys(S), UserImagePartitions);
    assert ps == Keys(T) + rest;
    forall i, j | 0 <= i < j < |ops|
      ensures ScheduledBefore(tgt, ops[i].partition, ops[j].partition)
    {
      if j < |T| {
        SameGroupBefore(tgt, Keys(T), i, j);
      } else if i >= |T| {
        SameGroupBefore(tgt, rest, i - |T|, j - |T|);
      } else {
        assert ps[i] in Keys(T) && ps[j] in rest;
      }
    }
  }

  /** Two partitions of one catalog-ordered group that the target build
      either has or lacks entirely are scheduled in catalog order. */
  lemma SameGroupBefore<I>(tgt: BuildTree<I>, group: seq<Partition>, i: nat, j: nat)
    requires InOrderOf(group, UserImagePartitions)
    requires i < j < |group|
    requires HasImage(tgt, group[i]) == HasImage(tgt, group[j])
    ensures ScheduledBefore(tgt, group[i], group[j])
  {
  }

  /** The full package writes exactly the catalog partitions the build has,
      each once, in catalog order, with no source image. */
  lemma FullOtaSchedule<I>(b: BuildTree<I>)
    ensures var ops := FullOtaBlockDifferences(b);
            && |ops| == |GetUserImages(b)|
            && (forall i, j :: 0 <= i < j < |ops| ==>
                  IndexOf(UserImagePartitions, ops[i].partition) < IndexOf(UserImagePartitions, ops[j].partition))
  {
  }

  /** A catalog-wide example: odm is dropped, product is kept, system_ext
      is new. The kept and the new partition come first, in target order,
      and the dropped one last, as a removal. */
  lemma DroppedKeptAndNewPartitions<I>(a: I, b: I, c: I, d: I)
    ensures IncrementalDifferences([("odm", a), ("product", b)], [("product", c), ("system_ext", d)])
            == [BlockDifference("product", Real(c), Some(b)),
                BlockDifference("system_ext", Real(d), None),
                BlockDifference("odm", Empty, Some(a))]
  {
    var S: Dict<Partition, I> := [("odm", a), ("product", b)];
    var T: Dict<Partition, I> := [("product", c), ("system_ext", d)];
    DroppedKeptAndNewReference(a, b, c, d);
    IncrementalMatchesReference(S, T);
  }

  /** The reference schedule of `DroppedKeptAndNewPartitions`. */
  lemma DroppedKeptAndNewReference<I>(a: I, b: I, c: I, d: I)
    ensures ReferenceSchedule([("odm", a), ("product", b)], [("product", c), ("system_ext", d)])
            == [BlockDifference("product", Real(c), Some(b)),
                BlockDifference("system_ext", Real(d), None),
                BlockDifference("odm", Empty, Some(a))]
  {
    var S: Dict<Partition, I> := [("odm", a), ("product", b)];
    var T: Dict<Partition, I> := [("product", c), ("system_ext", d)];
    assert "odm" != "product" && "odm" != "system_ext" && "product" != "system_ext";
    assert Keys(S) == ["odm", "product"] && Keys(T) == ["product", "system_ext"];
    assert Without(["product"], Keys(T)) == [];
    assert Without(Keys(S), Keys(T)) == ["odm"];
    GetEntry(S, 0);
    GetEntry(S, 1);
    GetEntry(T, 0);
    GetEntry(T, 1);
    assert Get(S, "system_ext") == None && Get(T, "odm") == None;
    assert ScheduledOrder(S, T) == ["product", "system_ext", "odm"];
  }

  /** A first build with the partition: a fresh write, with no source. */
  lemma NewPartitionFromEmptySource<I>(x: I)
    ensures IncrementalDifferences([], [("odm", x)]) == [BlockDifference("odm", Real(x), None)]
  {
    var T: Dict<Partition, I> := [("odm", x)];
    assert Keys(T) == ["odm"];
    IncrementalMatchesReference([], T);
  }
}
