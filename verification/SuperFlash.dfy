/**
 From the layout of the super image to the contents of the logical partitions: flashing the
 layout gives each partition what the flash of the prepared super image is said to give it.
 */
module SuperFlash {
  import opened Bytes
  import opened FlashPlan
  import S = FlashSemantics
  import L = SuperLayout

  /** What mappings of the image files show. */
  function MappedFiles(plan: Plan): (r: map<string, seq<byte>>)
    requires plan.block > 0
  {
    map image | image in plan.files :: L.Mapped(plan.files[image], plan.block)
  }

  /**
   The builder has resized exactly the partitions with a size, each to its size rounded up
   to a block; the others have no extents.
   */
  predicate Resized(x: L.Export, sizes: map<string, nat>, block: nat)
    requires block > 0
  {
    && (forall i :: 0 <= i < |x.parts| ==>
          if x.parts[i].name in sizes then L.TotalSize(x.parts[i].extents) == L.AlignUp(sizes[x.parts[i].name], block)
          else x.parts[i].extents == [])
    && (forall p :: p in sizes ==> exists i :: 0 <= i < |x.parts| && x.parts[i].name == p)
  }

  /** The layout lies within super, and blobs have the length of their extents. */
  predicate FitsSuper(layout: seq<L.Extent>, n: nat) {
    forall i :: 0 <= i < |layout| ==>
                  && layout[i].offset + layout[i].size <= n
                  && (layout[i].source.Blob? ==> |layout[i].source.bytes| == layout[i].size)
  }

  predicate InFile(e: L.Extent, image: string, total: nat) {
    e.source.File? && e.source.image == image && e.source.at + e.size <= total
  }

  lemma {:induction false} ImageExtentsInFile(ls: seq<L.Target>, image: string, at: nat, k: nat)
    requires k < |ls|
    ensures InFile(L.ImageExtents(ls, image, at)[k], image, at + L.TotalSize(ls))
  {
    if k > 0 {
      ImageExtentsInFile(ls[1..], image, at + ls[0].size, k - 1);
    }
  }

  lemma {:induction false} FromPartition(parts: seq<L.Partition>, images: map<string, string>,
                                         e: L.Extent) returns (i: nat)
    requires e in L.AllExtents(parts, images)
    ensures i < |parts| && parts[i].name in images && e in L.PartitionExtents(parts[i], images)
  {
    var n := |parts| - 1;
    if e in L.PartitionExtents(parts[n], images) {
      i := n;
    } else {
      i := FromPartition(parts[..n], images, e);
    }
  }

  /** No extent reads beyond what the mapping of its file shows. */
  lemma FileExtentReadable(plan: Plan, x: L.Export, h: Helper, e: L.Extent)
    requires plan.block > 0 && S.Readable(plan, h.imageMap, h.sizes) && Resized(x, h.sizes, plan.block)
    requires forall p :: p in h.imageMap ==> p in h.sizes && h.imageMap[p] in plan.files
    requires e in L.AllExtents(x.parts, h.imageMap)
    ensures e.source.File? && e.source.image in plan.files
    ensures e.source.at + e.size <= |MappedFiles(plan)[e.source.image]|
  {
    hide L.AllExtents, L.AlignUp, L.TotalSize;
    var i := FromPartition(x.parts, h.imageMap, e);
    var p := x.parts[i].name;
    var es := L.ImageExtents(x.parts[i].extents, h.imageMap[p], 0);
    var k :| 0 <= k < |es| && es[k] == e;
    ImageExtentsInFile(x.parts[i].extents, h.imageMap[p], 0, k);
  }

  lemma LayoutWritable(plan: Plan, x: L.Export, h: Helper, layout: seq<L.Extent>, n: nat)
    requires plan.block > 0 && S.Readable(plan, h.imageMap, h.sizes) && Resized(x, h.sizes, plan.block)
    requires forall p :: p in h.imageMap ==> p in h.sizes && h.imageMap[p] in plan.files
    requires L.IsLayout(layout, x, h.imageMap) && FitsSuper(layout, n)
    requires forall i :: 0 <= i < |x.fixed| ==> !x.fixed[i].source.File?
    ensures L.AllWritable(layout, MappedFiles(plan), n)
  {
    forall i | 0 <= i < |layout|
      ensures L.Writable(layout[i], MappedFiles(plan), n)
    {
      var e := layout[i];
      if e.source.File? {
        KeptFile(layout, i);
        assert e in multiset(L.Kept(layout));
        assert e in multiset(x.fixed + L.AllExtents(x.parts, h.imageMap));
        hide L.IsLayout, L.Kept, L.AllExtents;
        assert e in x.fixed || e in L.AllExtents(x.parts, h.imageMap);
        FileExtentReadable(plan, x, h, e);
      }
    }
  }

  lemma {:induction false} KeptFile(layout: seq<L.Extent>, i: nat)
    requires i < |layout| && layout[i].source.File?
    ensures layout[i] in L.Kept(layout)
  {
    if i < |layout| - 1 {
      KeptFile(layout[..|layout| - 1], i);
    }
  }

  lemma MappedIsFit(file: seq<byte>, block: nat, n: nat)
    requires block > 0 && n <= L.AlignUp(|file|, block)
    ensures L.Mapped(file, block)[..n] == S.Fit(file, n)
  {
    hide L.AlignUp;
  }

  /**
   Whatever super held before: after the layout for the collected images has been flashed,
   reading a partition through the new metadata gives what `WithSuper` says of it.
   */
  lemma SuperHoldsImages(plan: Plan, tasks: seq<Task>, h: Helper, x: L.Export, layout: seq<L.Extent>,
                         super: seq<byte>, parts: map<string, seq<byte>>, p: string) returns (i: nat)
    requires plan.block > 0 && S.Documented(plan, tasks) && AddAll(plan, tasks) == Some(h)
    requires plan.exported(h.sizes) == Some(x) && Resized(x, h.sizes, plan.block)
    requires L.IsLayout(layout, x, h.imageMap) && FitsSuper(layout, |super|)
    requires forall k :: 0 <= k < |x.fixed| ==> !x.fixed[k].source.File?
    requires S.Readable(plan, h.imageMap, h.sizes) && p in h.imageMap
    ensures i < |x.parts| && x.parts[i].name == p
    ensures L.AllWritable(layout, MappedFiles(plan), |super|)
    ensures forall k :: 0 <= k < |x.parts[i].extents| ==>
              x.parts[i].extents[k].offset + x.parts[i].extents[k].size <= |super|
    ensures var after := S.WithSuper(plan, parts, h.imageMap, h.sizes);
            p in after && L.ReadPartition(L.FlashAll(super, layout, MappedFiles(plan)), x.parts[i].extents) == after[p]
  {
    hide L.IsLayout, L.AllWritable, L.FlashAll, L.ReadPartition, L.TotalSize, L.AlignUp, S.Fit, S.Documented, AddAll,
         FitsSuper, L.Mapped;
    forall q: string
      ensures q in h.imageMap ==> q in h.sizes && h.imageMap[q] in plan.files
    {
      S.HelperKnows(plan, tasks, h, q);
    }
    LayoutWritable(plan, x, h, layout, |super|);
    i :| 0 <= i < |x.parts| && x.parts[i].name == p;
    var file := plan.files[h.imageMap[p]];
    MappedLength(file, plan.block);
    L.PartitionHoldsImage(super, x, h.imageMap, MappedFiles(plan), layout, i);
    MappedIsFit(file, plan.block, L.TotalSize(x.parts[i].extents));
  }

  lemma MappedLength(file: seq<byte>, block: nat)
    requires block > 0
    ensures |L.Mapped(file, block)| == L.AlignUp(|file|, block)
  {
  }
}
