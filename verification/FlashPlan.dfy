/**
 The flash-plan optimisation: a task list that reboots to userspace fastboot, updates the
 super partition and flashes the dynamic partitions one by one becomes a list without
 them, followed by a single flash of a prepared super image.
 */
module FlashPlan {
  import opened Bytes
  import L = SuperLayout

  datatype Task =
    | Flash(slot: string, pname: string, image: string)
    | Reboot(target: string)
    | UpdateSuper
    | Wipe(pname: string)
    | FlashSuper(images: map<string, string>, sizes: map<string, nat>)

  /** A partition entry of super_empty.img. */
  datatype LogicalPartition = LogicalPartition(name: string, slotSuffixed: bool, readonly: bool)

  /** What super_empty.img says; `plain` when it has no extents and one block device. */
  datatype Metadata = Metadata(partitions: seq<LogicalPartition>, plain: bool)

  datatype Plan = Plan(
    shouldOptimize: bool,
    supportsAB: bool,
    slotOverride: string,
    currentSlot: string,
    metadata: Option<Metadata>,
    superSizeKnown: bool,
    canResize: (map<string, nat>, string, nat) -> bool,
    exported: map<string, nat> -> Option<L.Export>,
    block: nat,
    files: map<string, seq<byte>>,
    sparse: map<string, seq<byte>>,
    slotted: set<string>,
    wipeable: set<string>,
    wantsWipe: bool,
    forceFlash: bool
  )

  /** What flashing an image puts on a partition: of a sparse file what it stands for. */
  function Flashed(plan: Plan, image: string): (contents: seq<byte>)
    requires image in plan.files
  {
    if image in plan.sparse then plan.sparse[image] else plan.files[image]
  }

  // ----- Names

  /** A logical partition must be flashed from userspace; suffixed entries stand for both slots. */
  predicate InUserspace(md: Metadata, partition: string) {
    exists i :: 0 <= i < |md.partitions| &&
      var m := md.partitions[i];
      if m.slotSuffixed then partition == m.name + "_a" || partition == m.name + "_b" else partition == m.name
  }

  predicate Dynamic(plan: Plan, partition: string) {
    plan.metadata.Some? && InUserspace(plan.metadata.value, partition)
  }

  /** The partition name with its slot, as the planner computes it. */
  function PartitionAndSlot(plan: Plan, t: Task): (r: string)
    requires t.Flash?
  {
    var slot := if t.slot == "" then plan.currentSlot else t.slot;
    if slot == "" then t.pname else t.pname + "_" + slot
  }

  /** The partition a flash task writes, as the device's has-slot answer decides. */
  function RunTarget(plan: Plan, t: Task): (r: string)
    requires t.Flash?
  {
    if t.pname in plan.slotted then t.pname + "_" + (if t.slot == "" then plan.currentSlot else t.slot) else t.pname
  }

  predicate DynamicFlash(plan: Plan, t: Task) {
    t.Flash? && Dynamic(plan, PartitionAndSlot(plan, t))
  }

  /** Suffixed entries of the metadata stand for a partition in both slots, others for themselves. */
  lemma NamesInUserspace(md: Metadata, i: nat, partition: string)
    requires i < |md.partitions|
    ensures md.partitions[i].slotSuffixed ==>
              InUserspace(md, md.partitions[i].name + "_a") && InUserspace(md, md.partitions[i].name + "_b")
    ensures !md.partitions[i].slotSuffixed ==> InUserspace(md, md.partitions[i].name)
    ensures InUserspace(md, partition) && (forall m :: m in md.partitions ==> !m.slotSuffixed) ==>
              exists m :: m in md.partitions && m.name == partition
  {
    if InUserspace(md, partition) && forall m :: m in md.partitions ==> !m.slotSuffixed {
      var k :| 0 <= k < |md.partitions| &&
               var m := md.partitions[k];
               if m.slotSuffixed then partition == m.name + "_a" || partition == m.name + "_b" else partition == m.name;
      assert md.partitions[k] in md.partitions;
    }
  }

  /** A flash task names its slot, or means the current one; a device without slots has plain names. */
  lemma NamesWithSlots(plan: Plan, pname: string, image: string)
    ensures PartitionAndSlot(plan, Flash("b", pname, image)) == pname + "_b"
    ensures plan.currentSlot == "a" ==> PartitionAndSlot(plan, Flash("", pname, image)) == pname + "_a"
    ensures plan.currentSlot == "" ==> PartitionAndSlot(plan, Flash("", pname, image)) == pname
    ensures pname !in plan.slotted ==> RunTarget(plan, Flash("b", pname, image)) == pname
    ensures pname in plan.slotted && plan.currentSlot != "" ==>
              && RunTarget(plan, Flash("", pname, image)) == PartitionAndSlot(plan, Flash("", pname, image))
              && RunTarget(plan, Flash("b", pname, image)) == pname + "_b"
  {
    assert pname + "_" + "a" == pname + "_a" && pname + "_" + "b" == pname + "_b";
  }

  // ----- The super flash helper

  datatype Helper = Helper(
    imageFds: set<string>,
    willFlash: set<string>,
    imageMap: map<string, string>,
    sizes: map<string, nat>
  )

  const EMPTY_HELPER := Helper({}, {}, map[], map[])

  /**
   Adds a partition's image to the super image; `None` when the source refuses. The image
   recorded for a partition is the first one given, its size the last.
   */
  function AddPartition(plan: Plan, h: Helper, partition: string, image: string): (r: Option<Helper>) {
    if !Dynamic(plan, partition) then Some(h)
    else if image !in plan.files || (image !in h.imageFds && image in plan.sparse) then None
    else if !plan.canResize(h.sizes, partition, |plan.files[image]|) then None
    else
      Some(Helper(
        h.imageFds + {image},
        h.willFlash + {partition},
        if partition in h.imageMap then h.imageMap else h.imageMap[partition := image],
        h.sizes[partition := |plan.files[image]|]))
  }

  function AddAll(plan: Plan, tasks: seq<Task>): (r: Option<Helper>) {
    if tasks == [] then Some(EMPTY_HELPER)
    else
      match AddAll(plan, tasks[..|tasks| - 1])
      case None => None
      case Some(h) =>
        var t := tasks[|tasks| - 1];
        if t.Flash? then AddPartition(plan, h, PartitionAndSlot(plan, t), t.image) else Some(h)
  }

  /** The sizes asked for by the flashes of dynamic partitions, the last one for each. */
  function Asked(plan: Plan, tasks: seq<Task>): (sizes: map<string, nat>) {
    if tasks == [] then map[]
    else
      var sizes, t := Asked(plan, tasks[..|tasks| - 1]), tasks[|tasks| - 1];
      if DynamicFlash(plan, t) && t.image in plan.files then
        sizes[PartitionAndSlot(plan, t) := |plan.files[t.image]|]
      else sizes
  }

  /** A flash task the helper can take: the image is there, is no sparse file, and the partition can be resized. */
  predicate Takeable(plan: Plan, before: seq<Task>, t: Task)
    requires t.Flash?
  {
    && t.image in plan.files && t.image !in plan.sparse
    && plan.canResize(Asked(plan, before), PartitionAndSlot(plan, t), |plan.files[t.image]|)
  }

  predicate AllTakeable(plan: Plan, tasks: seq<Task>) {
    forall i :: 0 <= i < |tasks| && DynamicFlash(plan, tasks[i]) ==> Takeable(plan, tasks[..i], tasks[i])
  }

  lemma TakeableFront(plan: Plan, tasks: seq<Task>)
    requires tasks != []
    ensures var n := |tasks| - 1;
            AllTakeable(plan, tasks) <==>
            AllTakeable(plan, tasks[..n]) && (DynamicFlash(plan, tasks[n]) ==> Takeable(plan, tasks[..n], tasks[n]))
  {
    hide DynamicFlash, Takeable;
    var front := tasks[..|tasks| - 1];
    assert forall i :: 0 <= i < |front| ==> front[i] == tasks[i] && front[..i] == tasks[..i];
  }

  /** The helper takes a list exactly when it can take every flash of a dynamic partition. */
  lemma {:induction false} TakenExactly(plan: Plan, tasks: seq<Task>)
    ensures AddAll(plan, tasks).Some? <==> AllTakeable(plan, tasks)
    ensures AddAll(plan, tasks).Some? ==>
              && AddAll(plan, tasks).value.sizes == Asked(plan, tasks)
              && forall image :: image in AddAll(plan, tasks).value.imageFds ==> image !in plan.sparse
  {
    hide Dynamic, AllTakeable;
    if tasks == [] {
      NothingToTake(plan);
    } else {
      TakenExactly(plan, tasks[..|tasks| - 1]);
      TakeableFront(plan, tasks);
    }
  }

  lemma NothingToTake(plan: Plan)
    ensures AllTakeable(plan, [])
  {
  }

  /** Tasks that the super flash makes superfluous. */
  predicate Absorbed(plan: Plan, h: Helper, t: Task) {
    match t
    case Flash(_, _, _) => PartitionAndSlot(plan, t) in h.willFlash
    case UpdateSuper => true
    case Reboot(target) => target == "fastboot"
    case _ => false
  }

  function Remaining(plan: Plan, h: Helper, tasks: seq<Task>): (r: seq<Task>) {
    if tasks == [] then []
    else
      var t := tasks[|tasks| - 1];
      Remaining(plan, h, tasks[..|tasks| - 1]) + if Absorbed(plan, h, t) then [] else [t]
  }

  class SuperFlashHelper {
    var imageFds: set<string>
    var willFlash: set<string>
    var imageMap: map<string, string>
    var sizes: map<string, nat>

    ghost function State(): (h: Helper)
      reads this
    {
      Helper(imageFds, willFlash, imageMap, sizes)
    }

    constructor ()
      ensures State() == EMPTY_HELPER
    {
      imageFds, willFlash, imageMap, sizes := {}, {}, map[], map[];
    }

    predicate WillFlash(partition: string)
      reads this
    {
      partition in willFlash
    }

    /** Adds a partition; on refusal nothing but the cache of opened images may have changed. */
    method Add(plan: Plan, partition: string, image: string) returns (ok: bool)
      modifies this
      ensures ok <==> AddPartition(plan, old(State()), partition, image).Some?
      ensures ok ==> State() == AddPartition(plan, old(State()), partition, image).value
      ensures !ok ==> State() == old(State()).(imageFds := imageFds)
    {
      if !Dynamic(plan, partition) {
        return true;
      }
      if image !in imageFds {
        if image !in plan.files || image in plan.sparse {
          return false;
        }
        imageFds := imageFds + {image};
      }
      if image !in plan.files || !plan.canResize(sizes, partition, |plan.files[image]|) {
        return false;
      }
      sizes := sizes[partition := |plan.files[image]|];
      if partition !in imageMap {
        imageMap := imageMap[partition := image];
      }
      willFlash := willFlash + {partition};
      ok := true;
    }
  }

  // ----- The optimiser

  /** The block `reboot fastboot`, `update-super`, flash of a dynamic partition starts at `i`. */
  predicate BlockAt(plan: Plan, tasks: seq<Task>, i: nat) {
    && i + 2 < |tasks|
    && tasks[i] == Reboot("fastboot") && tasks[i + 1] == UpdateSuper && DynamicFlash(plan, tasks[i + 2])
  }

  /**
   What the optimiser takes for granted of a task list: a reboot to userspace fastboot is
   not the only task, a flash follows reboot and update-super, and no flash task names all
   slots.
   */
  predicate ListShape(tasks: seq<Task>) {
    && (|tasks| >= 2 || Reboot("fastboot") !in tasks)
    && (forall i :: 0 <= i < |tasks| - 2 && tasks[i] == Reboot("fastboot") && tasks[i + 1] == UpdateSuper ==>
          tasks[i + 2].Flash?)
    && (forall i :: 0 <= i < |tasks| && tasks[i].Flash? ==> tasks[i].slot != "all")
  }

  method CanOptimize(plan: Plan, tasks: seq<Task>) returns (r: bool)
    requires ListShape(tasks)
    ensures r <==> exists i: nat :: BlockAt(plan, tasks, i)
  {
    for i := 0 to |tasks|
      invariant forall k: nat :: k < i ==> !BlockAt(plan, tasks, k)
    {
      if tasks[i] != Reboot("fastboot") {
        continue;
      }
      if i >= |tasks| - 2 || !tasks[i + 1].UpdateSuper? {
        continue;
      }
      if !DynamicFlash(plan, tasks[i + 2]) {
        continue;
      }
      assert BlockAt(plan, tasks, i);
      return true;
    }
    return false;
  }

  /** Retrofit or writable layouts cannot be prepared on the host. */
  predicate Opens(md: Metadata) {
    && md.plain
    && forall i :: 0 <= i < |md.partitions| ==> !md.partitions[i].slotSuffixed && md.partitions[i].readonly
  }

  class TaskList {
    var items: seq<Task>

    constructor (items: seq<Task>)
      ensures this.items == items
    {
      this.items := items;
    }
  }

  /** Whether a plan can be optimised. */
  ghost predicate Optimisable(plan: Plan, tasks: seq<Task>) {
    && plan.shouldOptimize && plan.supportsAB && plan.slotOverride != "all"
    && (exists i: nat :: BlockAt(plan, tasks, i))
    && plan.metadata.Some? && plan.superSizeKnown && Opens(plan.metadata.value)
    && AddAll(plan, tasks).Some?
    && var h := AddAll(plan, tasks).value;
       L.LayoutPossible(plan.exported(h.sizes), h.imageMap)
  }

  /** Whatever sizes are asked for, what the builder exports has no empty extents. */
  ghost predicate BuilderOk(plan: Plan) {
    forall sizes :: plan.exported(sizes).Some? ==> L.Exported(plan.exported(sizes).value)
  }

  /** Offers every flash task to the helper; stops at the first refusal. */
  method AddPartitions(plan: Plan, tasks: seq<Task>, helper: SuperFlashHelper) returns (ok: bool)
    requires helper.State() == EMPTY_HELPER
    modifies helper
    ensures ok <==> AddAll(plan, tasks).Some?
    ensures ok ==> AddAll(plan, tasks) == Some(helper.State())
  {
    hide AddPartition;
    var i := 0;
    while i < |tasks|
      invariant 0 <= i <= |tasks| && AddAll(plan, tasks[..i]) == Some(helper.State())
    {
      assert tasks[..i + 1][..i] == tasks[..i];
      if tasks[i].Flash? {
        var added := helper.Add(plan, PartitionAndSlot(plan, tasks[i]), tasks[i].image);
        if !added {
          AddAllFails(plan, tasks, i + 1);
          return false;
        }
      }
      i := i + 1;
    }
    assert tasks[..i] == tasks;
    ok := true;
  }

  /** Removes the tasks that the super flash makes superfluous, keeping the order of the rest. */
  method RemoveAbsorbed(plan: Plan, tasks: seq<Task>, helper: SuperFlashHelper) returns (kept: seq<Task>)
    ensures kept == Remaining(plan, helper.State(), tasks)
  {
    ghost var h := helper.State();
    kept := [];
    var i := 0;
    while i < |tasks|
      invariant 0 <= i <= |tasks| && kept == Remaining(plan, h, tasks[..i])
    {
      assert tasks[..i + 1][..i] == tasks[..i];
      var task := tasks[i];
      var absorbed :=
        match task
        case Flash(_, _, _) => helper.WillFlash(PartitionAndSlot(plan, task))
        case UpdateSuper => true
        case Reboot(target) => target == "fastboot"
        case _ => false;
      if !absorbed {
        kept := kept + [task];
      }
      i := i + 1;
    }
    assert tasks[..i] == tasks;
  }

  /**
   Rewrites the task list in place and returns the super flash to append, or leaves the
   list alone. What remains is in its old order.
   */
  method Initialize(plan: Plan, list: TaskList) returns (r: Option<Task>)
    requires ListShape(list.items) && BuilderOk(plan)
    modifies list
    ensures r.Some? <==> Optimisable(plan, old(list.items))
    ensures r.Some? ==>
              && plan.shouldOptimize && plan.supportsAB && plan.slotOverride != "all" && plan.superSizeKnown
              && plan.metadata.Some? && plan.metadata.value.plain
              && (forall m :: m in plan.metadata.value.partitions ==> !m.slotSuffixed && m.readonly)
              && AllTakeable(plan, old(list.items))
              && exists i :: 0 <= i < |old(list.items)| - 2 && old(list.items)[i] == Reboot("fastboot")
                             && old(list.items)[i + 1] == UpdateSuper && DynamicFlash(plan, old(list.items)[i + 2])
    ensures r == None ==> list.items == old(list.items)
    ensures r.Some? ==>
              var h := AddAll(plan, old(list.items)).value;
              && list.items == Remaining(plan, h, old(list.items))
              && r.value == FlashSuper(h.imageMap, h.sizes)
  {
    if !plan.shouldOptimize || !plan.supportsAB || plan.slotOverride == "all" {
      return None;
    }
    var can := CanOptimize(plan, list.items);
    if !can || plan.metadata == None || !plan.superSizeKnown || !Opens(plan.metadata.value) {
      return None;
    }
    TakenExactly(plan, list.items);
    hide AllTakeable;
    var helper := new SuperFlashHelper();
    var added := AddPartitions(plan, list.items, helper);
    if !added {
      return None;
    }
    var layout := L.GetImageLayout(plan.exported(helper.sizes), helper.imageMap);
    if layout == None {
      return None;
    }
    var kept := RemoveAbsorbed(plan, list.items, helper);
    list.items := kept;
    r := Some(FlashSuper(helper.imageMap, helper.sizes));
  }

  lemma {:induction false} AddAllFails(plan: Plan, tasks: seq<Task>, n: nat)
    requires n <= |tasks| && AddAll(plan, tasks[..n]) == None
    ensures AddAll(plan, tasks) == None
    decreases |tasks| - n
  {
    if n == |tasks| {
      assert tasks[..n] == tasks;
    } else {
      assert tasks[..n + 1][..n] == tasks[..n];
      AddAllFails(plan, tasks, n + 1);
    }
  }
}
