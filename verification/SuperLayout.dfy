/**
 The image of the super partition as a list of extents: built from the metadata of the
 logical partitions, sorted, its gaps filled, and finally written to the device. Reading
 a logical partition back through the metadata must give its image file.
 */
module SuperLayout {
  import opened Bytes

  datatype Source =
    | Zero
    | Blob(bytes: seq<byte>)
    | File(image: string, at: nat)
    | DontCare

  datatype Extent = Extent(offset: nat, size: nat, source: Source)

  /** Part of a logical partition: where it lies in super, if it is of the linear type. */
  datatype Target = Target(offset: nat, size: nat, linear: bool)

  datatype Partition = Partition(name: string, extents: seq<Target>)

  /**
   Exported metadata: extents for geometry and metadata copies, the partitions, the size of
   the serialized metadata and the space for one copy.
   */
  datatype Export = Export(fixed: seq<Extent>, parts: seq<Partition>, metadataSize: nat, metadataMax: nat)

  const SPARSE_ALIGNMENT := 4096

  // ----- Sorting by offset

  predicate Sorted(es: seq<Extent>) {
    forall i, j :: 0 <= i < j < |es| ==> es[i].offset <= es[j].offset
  }

  /** Inserts before the first extent that starts later. */
  method Insert(es: seq<Extent>, e: Extent) returns (r: seq<Extent>)
    requires Sorted(es)
    ensures Sorted(r) && multiset(r) == multiset(es) + multiset{e}
  {
    var k := 0;
    while k < |es| && es[k].offset <= e.offset
      invariant 0 <= k <= |es|
      invariant forall i :: 0 <= i < k ==> es[i].offset <= e.offset
    {
      k := k + 1;
    }
    r := es[..k] + [e] + es[k..];
    InsertedSorted(es, e, k);
    InsertedMultiset(es, e, k);
  }

  lemma InsertedSorted(es: seq<Extent>, e: Extent, k: nat)
    requires Sorted(es) && k <= |es| && (forall i :: 0 <= i < k ==> es[i].offset <= e.offset)
    requires k < |es| ==> e.offset < es[k].offset
    ensures Sorted(es[..k] + [e] + es[k..])
  {
    var r := es[..k] + [e] + es[k..];
    assert forall i :: 0 <= i < k ==> r[i] == es[i];
    assert forall i :: k < i < |r| ==> r[i] == es[i - 1];
    assert forall i :: k <= i < |es| ==> e.offset < es[i].offset;
  }

  method SortByOffset(es: seq<Extent>) returns (r: seq<Extent>)
    ensures Sorted(r) && multiset(r) == multiset(es)
  {
    r := [];
    for i := 0 to |es|
      invariant Sorted(r) && multiset(r) == multiset(es[..i])
    {
      assert es[..i + 1] == es[..i] + [es[i]];
      r := Insert(r, es[i]);
    }
    assert es[..|es|] == es;
  }

  // ----- Filling gaps

  /** The extents follow each other without gap or overlap from `from` on. */
  predicate Tiles(es: seq<Extent>, from: nat) {
    && (es != [] ==> es[0].offset == from)
    && (forall i :: 0 < i < |es| ==> es[i].offset == es[i - 1].offset + es[i - 1].size)
  }

  predicate NoOverlap(es: seq<Extent>) {
    forall i, j :: 0 <= i < j < |es| ==> es[i].offset + es[i].size <= es[j].offset
  }

  function End(es: seq<Extent>): (n: nat) {
    if es == [] then 0 else es[|es| - 1].offset + es[|es| - 1].size
  }

  /** The extents that are not gap fillers. */
  function Kept(es: seq<Extent>): (r: seq<Extent>) {
    if es == [] then []
    else
      var last := es[|es| - 1];
      Kept(es[..|es| - 1]) + if last.source == DontCare then [] else [last]
  }

  lemma KeptSnoc(es: seq<Extent>, e: Extent)
    ensures Kept(es + [e]) == Kept(es) + if e.source == DontCare then [] else [e]
  {
    assert (es + [e])[..|es|] == es;
  }

  predicate NoGapFillers(es: seq<Extent>) {
    forall i :: 0 <= i < |es| ==> es[i].source != DontCare
  }

  lemma TilesSnoc(es: seq<Extent>, e: Extent)
    requires Tiles(es, 0) && e.offset == End(es)
    ensures Tiles(es + [e], 0) && End(es + [e]) == e.offset + e.size
  {
    var r := es + [e];
    forall i | 0 < i < |r|
      ensures r[i].offset == r[i - 1].offset + r[i - 1].size
    {
      if i < |es| {
        assert es[i].offset == es[i - 1].offset + es[i - 1].size;
      }
    }
  }

  /** `out`, which ends at `current`, with a filler if one is needed and then `e`. */
  function Extended(out: seq<Extent>, current: nat, e: Extent): (r: seq<Extent>)
    requires current <= e.offset
  {
    if current == e.offset then out + [e]
    else out + [Extent(current, e.offset - current, DontCare)] + [e]
  }

  lemma FillStep(out: seq<Extent>, e: Extent)
    requires Tiles(out, 0) && End(out) <= e.offset && e.source != DontCare
    ensures var r := Extended(out, End(out), e);
            Tiles(r, 0) && End(r) == e.offset + e.size && Kept(r) == Kept(out) + [e]
  {
    hide Tiles, Kept;
    if End(out) != e.offset {
      var gap := Extent(End(out), e.offset - End(out), DontCare);
      KeptSnoc(out, gap);
      TilesSnoc(out, gap);
      KeptSnoc(out + [gap], e);
      TilesSnoc(out + [gap], e);
    } else {
      KeptSnoc(out, e);
      TilesSnoc(out, e);
    }
  }

  lemma OverlapFound(es: seq<Extent>, i: nat)
    requires i < |es| && End(es[..i]) > es[i].offset
    ensures !NoOverlap(es)
  {
    assert es[..i][i - 1] == es[i - 1];
  }

  lemma NothingFilled(es: seq<Extent>)
    ensures NoOverlap(es[..0]) && Tiles([], 0) && Kept([]) == es[..0]
  {
  }

  lemma IsNoFiller(es: seq<Extent>, i: nat)
    requires NoGapFillers(es) && i < |es|
    ensures es[i].source != DontCare
  {
  }

  /** Fills the gaps between sorted extents; fails exactly on overlap. */
  method FillGaps(es: seq<Extent>) returns (r: Option<seq<Extent>>)
    requires Sorted(es) && NoGapFillers(es)
    ensures r.Some? <==> NoOverlap(es)
    ensures r.Some? ==> Tiles(r.value, 0) && Kept(r.value) == es && End(r.value) == End(es)
  {
    hide NoOverlap, Tiles, Kept, Sorted, NoGapFillers, Extended;
    var out: seq<Extent> := [];
    var current := 0;
    var i := 0;
    NothingFilled(es);
    while i < |es|
      invariant 0 <= i <= |es|
      invariant NoOverlap(es[..i])
      invariant Tiles(out, 0) && current == End(out) == End(es[..i])
      invariant Kept(out) == es[..i]
    {
      var extent := es[i];
      if current > extent.offset {
        OverlapFound(es, i);
        return None;
      }
      IsNoFiller(es, i);
      FillStep(out, extent);
      out := Extended(out, current, extent);
      current := extent.offset + extent.size;
      NoOverlapSnoc(es, i);
      assert es[..i + 1] == es[..i] + [extent];
      i := i + 1;
    }
    assert es[..i] == es;
    r := Some(out);
  }

  lemma SameFillers(a: seq<Extent>, b: seq<Extent>)
    requires multiset(a) == multiset(b) && NoGapFillers(a)
    ensures NoGapFillers(b)
  {
    forall i | 0 <= i < |b|
      ensures b[i].source != DontCare
    {
      assert b[i] in multiset(b);
      assert b[i] in multiset(a);
    }
  }

  /**
   Sorts the extents and fills the space between them with "don't care". It fails exactly
   on overlap; otherwise the result tiles the super partition from its start and holds the
   given extents, in order, besides the fillers.
   */
  method AddGapExtents(es: seq<Extent>) returns (r: Option<seq<Extent>>, order: seq<Extent>)
    requires NoGapFillers(es)
    ensures Sorted(order) && multiset(order) == multiset(es)
    ensures r.Some? <==> NoOverlap(order)
    ensures r.Some? ==> Tiles(r.value, 0) && Kept(r.value) == order && End(r.value) == End(order)
  {
    var sorted := SortByOffset(es);
    order := sorted;
    SameFillers(es, sorted);
    r := FillGaps(sorted);
  }

  /** In offset order it is enough that each extent starts after the end of the one before. */
  lemma NoOverlapSnoc(es: seq<Extent>, n: nat)
    requires n < |es| && Sorted(es) && NoOverlap(es[..n]) && End(es[..n]) <= es[n].offset
    ensures NoOverlap(es[..n + 1])
  {
    var a, b := es[..n], es[..n + 1];
    forall i, j | 0 <= i < j < |b|
      ensures b[i].offset + b[i].size <= b[j].offset
    {
      if j < n {
        assert a[i].offset + a[i].size <= a[j].offset;
      } else if i < n - 1 {
        assert a[i].offset + a[i].size <= a[n - 1].offset;
      }
    }
  }

  // ----- Extents of the logical partitions

  /** The extents that put an image, from byte `at` on, where the partition's parts lie. */
  function ImageExtents(ls: seq<Target>, image: string, at: nat): (r: seq<Extent>)
    ensures |r| == |ls|
  {
    if ls == [] then []
    else [Extent(ls[0].offset, ls[0].size, File(image, at))] + ImageExtents(ls[1..], image, at + ls[0].size)
  }

  function PartitionExtents(p: Partition, images: map<string, string>): (r: seq<Extent>) {
    if p.name in images then ImageExtents(p.extents, images[p.name], 0) else []
  }

  function AllExtents(parts: seq<Partition>, images: map<string, string>): (r: seq<Extent>) {
    if parts == [] then []
    else AllExtents(parts[..|parts| - 1], images) + PartitionExtents(parts[|parts| - 1], images)
  }

  /** Every partition that occupies space has an image. */
  predicate NoOrphans(parts: seq<Partition>, images: map<string, string>) {
    forall i :: 0 <= i < |parts| ==> parts[i].name in images || parts[i].extents == []
  }

  lemma {:induction false} ImageExtentsAreFiles(ls: seq<Target>, image: string, at: nat)
    ensures NoGapFillers(ImageExtents(ls, image, at))
  {
    if ls != [] {
      ImageExtentsAreFiles(ls[1..], image, at + ls[0].size);
    }
  }

  // ----- Overlap does not depend on the order

  predicate Positive(es: seq<Extent>) {
    forall i :: 0 <= i < |es| ==> es[i].size > 0
  }

  /** No two extents share a byte. */
  predicate Apart(es: seq<Extent>) {
    forall i, j :: 0 <= i < |es| && 0 <= j < |es| && i != j ==>
                     es[i].offset + es[i].size <= es[j].offset || es[j].offset + es[j].size <= es[i].offset
  }

  lemma SortedApart(es: seq<Extent>)
    requires Sorted(es) && Positive(es)
    ensures Apart(es) <==> NoOverlap(es)
  {
    if Apart(es) {
      forall i, j | 0 <= i < j < |es|
        ensures es[i].offset + es[i].size <= es[j].offset
      {
        assert es[i].offset <= es[j].offset && es[j].size > 0;
      }
    }
  }

  lemma {:induction false} TwoPlaces(es: seq<Extent>, e: Extent) returns (i: nat, j: nat)
    requires multiset(es)[e] >= 2
    ensures i < j < |es| && es[i] == es[j] == e
  {
    var n := |es| - 1;
    assert es == es[..n] + [es[n]];
    if es[n] == e {
      j := n;
      assert e in multiset(es[..n]);
      i :| 0 <= i < n && es[..n][i] == e;
    } else {
      i, j := TwoPlaces(es[..n], e);
    }
  }

  lemma TwicePresent(es: seq<Extent>, i: nat, j: nat)
    requires i < j < |es| && es[i] == es[j]
    ensures multiset(es)[es[i]] >= 2
  {
    var e := es[i];
    assert es == es[..j] + es[j..] && es[..j][i] == e && es[j..][0] == e;
    assert e in multiset(es[..j]) && e in multiset(es[j..]);
  }

  lemma ApartPermuted(a: seq<Extent>, b: seq<Extent>)
    requires multiset(a) == multiset(b) && Positive(a) && Apart(a)
    ensures Apart(b) && Positive(b)
  {
    forall i | 0 <= i < |b|
      ensures b[i].size > 0
    {
      assert b[i] in multiset(b) && b[i] in multiset(a);
    }
    forall i, j | 0 <= i < |b| && 0 <= j < |b| && i != j
      ensures b[i].offset + b[i].size <= b[j].offset || b[j].offset + b[j].size <= b[i].offset
    {
      if b[i] == b[j] {
        TwicePresent(b, if i < j then i else j, if i < j then j else i);
        var k, l := TwoPlaces(a, b[i]);
      } else {
        assert b[i] in multiset(b) && b[j] in multiset(b);
        assert b[i] in multiset(a) && b[j] in multiset(a);
      }
    }
  }

  lemma OrderIrrelevant(es: seq<Extent>, order: seq<Extent>)
    requires multiset(order) == multiset(es) && Sorted(order) && Positive(es)
    ensures NoOverlap(order) <==> Apart(es)
  {
    PositivePermuted(es, order);
    SortedApart(order);
    if Apart(es) {
      ApartPermuted(es, order);
    }
    if Apart(order) {
      ApartPermuted(order, es);
    }
  }

  lemma PositivePermuted(a: seq<Extent>, b: seq<Extent>)
    requires multiset(a) == multiset(b) && Positive(a)
    ensures Positive(b)
  {
    forall i | 0 <= i < |b|
      ensures b[i].size > 0
    {
      assert b[i] in multiset(b) && b[i] in multiset(a);
    }
  }

  // ----- The layout

  /** Geometry, metadata and partitions as the builder exports them: no empty extents, no fillers. */
  predicate Exported(x: Export) {
    && NoGapFillers(x.fixed) && Positive(x.fixed)
    && forall i, k :: 0 <= i < |x.parts| && 0 <= k < |x.parts[i].extents| ==> x.parts[i].extents[k].size > 0
  }

  predicate AllLinear(ts: seq<Target>) {
    forall k :: 0 <= k < |ts| ==> ts[k].linear
  }

  predicate LinearParts(parts: seq<Partition>, images: map<string, string>) {
    forall i :: 0 <= i < |parts| && parts[i].name in images ==> AllLinear(parts[i].extents)
  }

  /**
   The metadata were exported and fit, padded for sparse files, partitions with an image have
   linear extents only, every partition with space has an image, and no two extents share a byte.
   */
  predicate LayoutPossible(md: Option<Export>, images: map<string, string>) {
    && md.Some? && AlignUp(md.value.metadataSize, 4096) <= md.value.metadataMax
    && LinearParts(md.value.parts, images)
    && NoOrphans(md.value.parts, images) && Apart(md.value.fixed + AllExtents(md.value.parts, images))
  }

  /** The layout holds the extents for these images, in order and besides fillers. */
  ghost predicate IsLayout(layout: seq<Extent>, x: Export, images: map<string, string>) {
    && Tiles(layout, 0) && Sorted(Kept(layout))
    && multiset(Kept(layout)) == multiset(x.fixed + AllExtents(x.parts, images))
  }

  /**
   The layout of the super image: geometry and metadata copies, then every partition's
   image, sorted and with gaps filled. There is none when the metadata cannot be exported,
   is too large, or has extents that are not linear; when a partition has space but no
   image; or when extents overlap.
   */
  method GetImageLayout(md: Option<Export>, images: map<string, string>) returns (r: Option<seq<Extent>>)
    requires md.Some? ==> Exported(md.value)
    ensures r.Some? <==> LayoutPossible(md, images)
    ensures r.Some? ==> IsLayout(r.value, md.value, images)
  {
    hide NoOverlap, Tiles, Kept, Sorted, NoOrphans, NoGapFillers, AllExtents, Apart, Positive, Exported, AlignUp,
         LinearParts, AllLinear, ImageExtents;
    if md == None || AlignUp(md.value.metadataSize, SPARSE_ALIGNMENT) > md.value.metadataMax {
      return None;
    }
    var parts := md.value.parts;
    ghost var fixed := md.value.fixed;
    var extents := md.value.fixed;
    var i := 0;
    FixedOk(md.value);
    NoParts(fixed, parts, images);
    NoneLinear(parts, images);
    while i < |parts|
      invariant 0 <= i <= |parts|
      invariant extents == fixed + AllExtents(parts[..i], images)
      invariant NoGapFillers(extents) && Positive(extents) && NoOrphans(parts[..i], images)
      invariant LinearParts(parts[..i], images)
    {
      var partition := parts[i];
      LinearStep(parts, images, i);
      PartStep(fixed, parts, images, i);
      PartPositive(md.value, images, i);
      if partition.name !in images {
        if partition.extents != [] {
          return None;
        }
      } else {
        if !AllLinear(partition.extents) {
          return None;
        }
        extents := extents + ImageExtents(partition.extents, images[partition.name], 0);
      }
      i := i + 1;
    }
    assert parts[..i] == parts;
    ghost var order;
    r, order := AddGapExtents(extents);
    OrderIrrelevant(extents, order);
  }

  lemma NoneLinear(parts: seq<Partition>, images: map<string, string>)
    ensures LinearParts(parts[..0], images)
  {
  }

  lemma LinearStep(parts: seq<Partition>, images: map<string, string>, i: nat)
    requires i < |parts| && LinearParts(parts[..i], images)
    ensures LinearParts(parts[..i + 1], images) <==> (parts[i].name in images ==> AllLinear(parts[i].extents))
    ensures !LinearParts(parts[..i + 1], images) ==> !LinearParts(parts, images)
  {
    hide AllLinear;
    var more := parts[..i + 1];
    assert forall k :: 0 <= k < i ==> more[k] == parts[..i][k];
    assert more[i] == parts[i];
  }

  lemma FixedOk(x: Export)
    requires Exported(x)
    ensures NoGapFillers(x.fixed) && Positive(x.fixed)
  {
  }

  lemma {:induction false} ImagePositive(ls: seq<Target>, image: string, at: nat)
    requires forall k :: 0 <= k < |ls| ==> ls[k].size > 0
    ensures Positive(ImageExtents(ls, image, at))
  {
    if ls != [] {
      ImagePositive(ls[1..], image, at + ls[0].size);
    }
  }

  lemma PartPositive(x: Export, images: map<string, string>, i: nat)
    requires Exported(x) && i < |x.parts| && Positive(x.fixed + AllExtents(x.parts[..i], images))
    ensures Positive(x.fixed + AllExtents(x.parts[..i + 1], images))
  {
    hide ImageExtents;
    assert x.parts[..i + 1][..i] == x.parts[..i];
    AppendAssoc(x.fixed, AllExtents(x.parts[..i], images), PartitionExtents(x.parts[i], images));
    var p := x.parts[i];
    if p.name in images {
      ImagePositive(p.extents, images[p.name], 0);
    }
  }

  lemma NoParts(fixed: seq<Extent>, parts: seq<Partition>, images: map<string, string>)
    ensures fixed + AllExtents(parts[..0], images) == fixed && NoOrphans(parts[..0], images)
  {
  }

  /** What one more partition adds. */
  lemma PartStep(fixed: seq<Extent>, parts: seq<Partition>, images: map<string, string>, i: nat)
    requires i < |parts| && NoOrphans(parts[..i], images)
    requires NoGapFillers(fixed + AllExtents(parts[..i], images))
    ensures fixed + AllExtents(parts[..i + 1], images)
            == fixed + AllExtents(parts[..i], images) + PartitionExtents(parts[i], images)
    ensures NoGapFillers(fixed + AllExtents(parts[..i + 1], images))
    ensures PartitionExtents(parts[i], images) == [] ==>
              fixed + AllExtents(parts[..i + 1], images) == fixed + AllExtents(parts[..i], images)
    ensures parts[i].name in images || parts[i].extents == [] ==> NoOrphans(parts[..i + 1], images)
    ensures !(parts[i].name in images || parts[i].extents == []) ==> !NoOrphans(parts, images)
  {
    hide ImageExtents;
    assert parts[..i + 1][..i] == parts[..i];
    AppendAssoc(fixed, AllExtents(parts[..i], images), PartitionExtents(parts[i], images));
    if parts[i].name in images {
      ImageExtentsAreFiles(parts[i].extents, images[parts[i].name], 0);
    }
  }

  // ----- Writing and reading back

  predicate Writable(e: Extent, files: map<string, seq<byte>>, n: nat) {
    && e.offset + e.size <= n
    && match e.source
       case Blob(b) => |b| == e.size
       case File(image, at) => image in files && at + e.size <= |files[image]|
       case _ => true
  }

  predicate AllWritable(es: seq<Extent>, files: map<string, seq<byte>>, n: nat) {
    forall i :: 0 <= i < |es| ==> Writable(es[i], files, n)
  }

  predicate AllIn(es: seq<Extent>, layout: seq<Extent>) {
    forall i :: 0 <= i < |es| ==> es[i] in layout
  }

  /** `super` after flashing one extent. */
  function Flash(super: seq<byte>, e: Extent, files: map<string, seq<byte>>): (r: seq<byte>)
    requires Writable(e, files, |super|)
    ensures |r| == |super|
  {
    match e.source
    case Zero => Overlay(super, e.offset, Zeros(e.size))
    case Blob(b) => Overlay(super, e.offset, b)
    case File(image, at) => Overlay(super, e.offset, files[image][at..at + e.size])
    case DontCare => super
  }

  function FlashAll(super: seq<byte>, es: seq<Extent>, files: map<string, seq<byte>>): (r: seq<byte>)
    requires AllWritable(es, files, |super|)
    ensures |r| == |super|
  {
    if es == [] then super
    else Flash(FlashAll(super, es[..|es| - 1], files), es[|es| - 1], files)
  }

  /** A logical partition's contents, read through the metadata. */
  function ReadPartition(super: seq<byte>, ls: seq<Target>): (r: seq<byte>)
    requires forall i :: 0 <= i < |ls| ==> ls[i].offset + ls[i].size <= |super|
  {
    if ls == [] then [] else super[ls[0].offset..ls[0].offset + ls[0].size] + ReadPartition(super, ls[1..])
  }

  lemma {:induction false} TilesApart(es: seq<Extent>, i: nat, j: nat)
    requires Tiles(es, 0) && i < j < |es|
    ensures es[i].offset + es[i].size <= es[j].offset
    decreases j - i
  {
    assert es[j].offset == es[j - 1].offset + es[j - 1].size;
    if i < j - 1 {
      TilesApart(es, i, j - 1);
    }
  }

  /** Flashing an extent leaves what lies before it. */
  lemma FlashLeaves(super: seq<byte>, e: Extent, files: map<string, seq<byte>>, a: nat, b: nat)
    requires Writable(e, files, |super|) && a <= b <= e.offset
    ensures Flash(super, e, files)[a..b] == super[a..b]
  {
    match e.source
    case Zero => OverlayBefore(super, e.offset, Zeros(e.size), a, b);
    case Blob(bytes) => OverlayBefore(super, e.offset, bytes, a, b);
    case File(image, at) => OverlayBefore(super, e.offset, files[image][at..at + e.size], a, b);
    case DontCare =>
  }

  lemma {:induction false} FlashedExtent(super: seq<byte>, es: seq<Extent>, files: map<string, seq<byte>>, i: nat)
    requires AllWritable(es, files, |super|)
    requires Tiles(es, 0) && i < |es| && es[i].source.File?
    ensures var e := es[i];
            FlashAll(super, es, files)[e.offset..e.offset + e.size]
            == files[e.source.image][e.source.at..e.source.at + e.size]
  {
    hide Overlay;
    var front, last := es[..|es| - 1], es[|es| - 1];
    var before := FlashAll(super, front, files);
    assert FlashAll(super, es, files) == Flash(before, last, files);
    hide FlashAll;
    var e := es[i];
    if i < |front| {
      assert Tiles(front, 0);
      FlashedExtent(super, front, files, i);
      TilesApart(es, i, |es| - 1);
      FlashLeaves(before, last, files, e.offset, e.offset + e.size);
    } else {
      OverlayAt(before, e.offset, files[e.source.image][e.source.at..e.source.at + e.size]);
    }
  }

  lemma {:induction false} KeptMember(es: seq<Extent>, e: Extent)
    requires e in Kept(es)
    ensures e in es
  {
    var front := es[..|es| - 1];
    if e in Kept(front) {
      KeptMember(front, e);
    }
  }

  function TotalSize(ls: seq<Target>): (n: nat) {
    if ls == [] then 0 else ls[0].size + TotalSize(ls[1..])
  }

  /** Reading through the parts of a partition gives the image bytes in order. */
  lemma {:induction false} ReadsImage(super: seq<byte>, layout: seq<Extent>, files: map<string, seq<byte>>,
                                      ls: seq<Target>, image: string, at: nat)
    requires AllWritable(layout, files, |super|)
    requires Tiles(layout, 0)
    requires AllIn(ImageExtents(ls, image, at), layout)
    requires image in files && at + TotalSize(ls) <= |files[image]|
    ensures forall k :: 0 <= k < |ls| ==> ls[k].offset + ls[k].size <= |super|
    ensures ReadPartition(FlashAll(super, layout, files), ls) == files[image][at..at + TotalSize(ls)]
  {
    hide FlashAll, Tiles, ImageExtents, AllWritable, AllIn;
    if ls != [] {
      var rest, next := ls[1..], at + ls[0].size;
      FirstPart(super, layout, files, ls, image, at);
      LaterParts(layout, ls, image, at);
      ReadsImage(super, layout, files, rest, image, next);
      assert forall k :: 0 < k < |ls| ==> ls[k] == rest[k - 1];
      SliceSlice(files[image], at, at + TotalSize(ls), 0, ls[0].size);
      SliceJoin(files[image][at..at + TotalSize(ls)], ls[0].size, TotalSize(ls));
      SliceSlice(files[image], at, at + TotalSize(ls), ls[0].size, TotalSize(ls));
      assert files[image][at..at + TotalSize(ls)][..TotalSize(ls)] == files[image][at..at + TotalSize(ls)];
    }
  }

  /** The extent of the first part is among those of the layout. */
  lemma FirstPart(super: seq<byte>, layout: seq<Extent>, files: map<string, seq<byte>>,
                  ls: seq<Target>, image: string, at: nat)
    requires AllWritable(layout, files, |super|)
    requires Tiles(layout, 0) && ls != [] && image in files && at + ls[0].size <= |files[image]|
    requires AllIn(ImageExtents(ls, image, at), layout)
    ensures var l := ls[0];
            && l.offset + l.size <= |super|
            && FlashAll(super, layout, files)[l.offset..l.offset + l.size] == files[image][at..at + l.size]
  {
    hide FlashAll, Tiles;
    var e := ImageExtents(ls, image, at)[0];
    assert e == Extent(ls[0].offset, ls[0].size, File(image, at)) && e in layout;
    hide ImageExtents, AllIn;
    var i :| 0 <= i < |layout| && layout[i] == e;
    assert Writable(layout[i], files, |super|);
    hide AllWritable;
    FlashedExtent(super, layout, files, i);
  }

  lemma LaterParts(layout: seq<Extent>, ls: seq<Target>, image: string, at: nat)
    requires ls != [] && AllIn(ImageExtents(ls, image, at), layout)
    ensures AllIn(ImageExtents(ls[1..], image, at + ls[0].size), layout)
  {
    var es, rest := ImageExtents(ls, image, at), ImageExtents(ls[1..], image, at + ls[0].size);
    assert forall k :: 0 <= k < |rest| ==> rest[k] == es[k + 1];
  }

  lemma {:induction false} OwnExtentsIncluded(parts: seq<Partition>, images: map<string, string>, i: nat, e: Extent)
    requires i < |parts| && e in PartitionExtents(parts[i], images)
    ensures e in AllExtents(parts, images)
  {
    if i < |parts| - 1 {
      OwnExtentsIncluded(parts[..|parts| - 1], images, i, e);
    }
  }

  /**
   After the layout has been flashed, every partition that was given an image holds that
   image, whatever super held before.
   */
  lemma PartitionHoldsImage(super: seq<byte>, x: Export, images: map<string, string>, files: map<string, seq<byte>>,
                            layout: seq<Extent>, i: nat)
    requires IsLayout(layout, x, images) && AllWritable(layout, files, |super|)
    requires i < |x.parts| && x.parts[i].name in images && images[x.parts[i].name] in files
    requires TotalSize(x.parts[i].extents) <= |files[images[x.parts[i].name]]|
    ensures forall k :: 0 <= k < |x.parts[i].extents| ==>
              x.parts[i].extents[k].offset + x.parts[i].extents[k].size <= |super|
    ensures ReadPartition(FlashAll(super, layout, files), x.parts[i].extents)
            == files[images[x.parts[i].name]][..TotalSize(x.parts[i].extents)]
  {
    hide AllWritable, Tiles, ReadPartition, FlashAll, Kept, Sorted;
    var ls, image := x.parts[i].extents, images[x.parts[i].name];
    var es := ImageExtents(ls, image, 0);
    forall k | 0 <= k < |ls|
      ensures es[k] in layout
    {
      OwnExtentsIncluded(x.parts, images, i, es[k]);
      assert es[k] in multiset(x.fixed + AllExtents(x.parts, images));
      assert es[k] in multiset(Kept(layout));
      KeptMember(layout, es[k]);
    }
    ReadsImage(super, layout, files, ls, image, 0);
  }

  // ----- Block sizes

  /** The least multiple of the block size that is not below `n`. */
  function AlignUp(n: nat, block: nat): (r: nat)
    requires block > 0
    ensures n <= r < n + block
  {
    var x := n + block - 1;
    assert x == x / block * block + x % block;
    x / block * block
  }

  lemma AlignedStays(k: nat, block: nat)
    requires block > 0
    ensures AlignUp(k * block, block) == k * block
  {
    var x := k * block + block - 1;
    var q, r := x / block, x % block;
    assert x == q * block + r;
    QuotientUnique(block, q, k, block - 1 - r);
  }

  /** What a mapping of a file shows: its last page is filled up with zeros. */
  function Mapped(file: seq<byte>, block: nat): (r: seq<byte>)
    requires block > 0
    ensures |r| == AlignUp(|file|, block)
  {
    file + Zeros(AlignUp(|file|, block) - |file|)
  }
}
