/**
 What a task list does to a device, and that the optimised list does the same: every
 partition that the original list flashes ends up with the same contents.
 */
module FlashSemantics {
  import opened Bytes
  import opened FlashPlan
  import L = SuperLayout

  datatype Mode = Bootloader | Userspace | Gone

  datatype Device = Device(mode: Mode, parts: map<string, seq<byte>>)

  /** `data` cut or zero-filled to `n` bytes. */
  function Fit(data: seq<byte>, n: nat): (r: seq<byte>)
    ensures |r| == n
  {
    if |data| >= n then data[..n] else data + Zeros(n - |data|)
  }

  /** Deletes the contents of every logical partition. */
  function WithoutLogical(plan: Plan, parts: map<string, seq<byte>>): (r: map<string, seq<byte>>) {
    map p | p in parts :: if Dynamic(plan, p) then [] else parts[p]
  }

  /**
   Every image can be read over the whole length of its partition. Images are mapped, and
   a mapping must not be read beyond the last page of the file.
   */
  predicate Readable(plan: Plan, images: map<string, string>, sizes: map<string, nat>) {
    plan.block > 0 &&
    forall p :: p in images && images[p] in plan.files && p in sizes ==>
                  L.AlignUp(sizes[p], plan.block) <= L.AlignUp(|plan.files[images[p]]|, plan.block)
  }

  /**
   A prepared super image replaces all logical partitions by those it holds. A partition is
   as long as its size rounded up to a block.
   */
  function WithSuper(plan: Plan, parts: map<string, seq<byte>>, images: map<string, string>,
                     sizes: map<string, nat>): (r: map<string, seq<byte>>)
    requires plan.block > 0
  {
    map p | p in parts.Keys + images.Keys ::
      if p in images && images[p] in plan.files && p in sizes then
        Fit(plan.files[images[p]], L.AlignUp(sizes[p], plan.block))
      else if p in parts && !Dynamic(plan, p) then parts[p]
      else []
  }

  /** One task; `None` when fastboot gives up. */
  function Run(plan: Plan, d: Device, t: Task): (r: Option<Device>) {
    if d.mode == Gone then None
    else
      match t
      case Flash(_, _, image) =>
        var p := RunTarget(plan, t);
        if Dynamic(plan, p) && d.mode != Userspace && !plan.forceFlash then None
        else if image !in plan.files then None
        else Some(d.(parts := d.parts[p := Flashed(plan, image)]))
      case Reboot(target) =>
        if target == "fastboot" then Some(d.(mode := Userspace))
        else if target == "bootloader" then Some(d.(mode := Bootloader))
        else if target == "recovery" || target == "" then Some(d.(mode := Gone))
        else None
      case UpdateSuper =>
        if plan.metadata == None then Some(d)
        else Some(Device(Userspace, if plan.wantsWipe then WithoutLogical(plan, d.parts) else d.parts))
      case Wipe(pname) =>
        if pname in plan.wipeable then Some(d.(parts := d.parts[pname := []])) else Some(d)
      case FlashSuper(images, sizes) =>
        if Readable(plan, images, sizes) then Some(d.(parts := WithSuper(plan, d.parts, images, sizes))) else None
  }

  function RunAll(plan: Plan, d: Device, tasks: seq<Task>): (r: Option<Device>) {
    if tasks == [] then Some(d)
    else
      match RunAll(plan, d, tasks[..|tasks| - 1])
      case None => None
      case Some(mid) => Run(plan, mid, tasks[|tasks| - 1])
  }

  // ----- Which image a partition gets

  predicate FlashesTo(plan: Plan, t: Task, p: string) {
    t.Flash? && RunTarget(plan, t) == p
  }

  function FirstImage(plan: Plan, tasks: seq<Task>, p: string): (r: Option<string>) {
    if tasks == [] then None
    else
      var earlier := FirstImage(plan, tasks[..|tasks| - 1], p);
      var t := tasks[|tasks| - 1];
      if earlier.Some? then earlier else if FlashesTo(plan, t, p) then Some(t.image) else None
  }

  function LastImage(plan: Plan, tasks: seq<Task>, p: string): (r: Option<string>) {
    if tasks == [] then None
    else
      var t := tasks[|tasks| - 1];
      if FlashesTo(plan, t, p) then Some(t.image) else LastImage(plan, tasks[..|tasks| - 1], p)
  }

  // ----- Lists of the documented shape

  /** Would undo an earlier flash of a dynamic partition. */
  predicate Disturbs(plan: Plan, t: Task) {
    || (t.UpdateSuper? && plan.wantsWipe)
    || (t.Wipe? && Dynamic(plan, t.pname))
  }

  /**
   Planner and device agree on the names of dynamic partitions; the list stays in fastboot;
   nothing that wipes dynamic partitions comes after a dynamic partition has been flashed.
   */
  predicate Documented(plan: Plan, tasks: seq<Task>) {
    && (forall i :: 0 <= i < |tasks| && tasks[i].Flash? &&
          (Dynamic(plan, PartitionAndSlot(plan, tasks[i])) || Dynamic(plan, RunTarget(plan, tasks[i])))
          ==> PartitionAndSlot(plan, tasks[i]) == RunTarget(plan, tasks[i]))
    && (forall i :: 0 <= i < |tasks| && tasks[i].Reboot? ==> tasks[i].target in {"fastboot", "bootloader"})
    && (forall i :: 0 <= i < |tasks| ==> !tasks[i].FlashSuper?)
    && (forall i, j :: 0 <= i < j < |tasks| && DynamicFlash(plan, tasks[i]) ==> !Disturbs(plan, tasks[j]))
  }

  lemma DocumentedFront(plan: Plan, tasks: seq<Task>)
    requires Documented(plan, tasks) && tasks != []
    ensures Documented(plan, tasks[..|tasks| - 1])
  {
  }

  lemma {:induction false} LastImageFrom(plan: Plan, tasks: seq<Task>, p: string) returns (i: nat)
    requires LastImage(plan, tasks, p).Some?
    ensures i < |tasks| && FlashesTo(plan, tasks[i], p)
  {
    if FlashesTo(plan, tasks[|tasks| - 1], p) {
      i := |tasks| - 1;
    } else {
      i := LastImageFrom(plan, tasks[..|tasks| - 1], p);
    }
  }

  /** In the original list a dynamic partition ends up with the image flashed to it last. */
  lemma {:induction false} LastFlashStays(plan: Plan, d: Device, tasks: seq<Task>, p: string)
    requires Documented(plan, tasks) && RunAll(plan, d, tasks).Some?
    requires Dynamic(plan, p) && LastImage(plan, tasks, p).Some?
    ensures var parts := RunAll(plan, d, tasks).value.parts;
            var image := LastImage(plan, tasks, p).value;
            image in plan.files && p in parts && parts[p] == Flashed(plan, image)
  {
    hide Dynamic;
    var t := tasks[|tasks| - 1];
    if !FlashesTo(plan, t, p) {
      var front := tasks[..|tasks| - 1];
      DocumentedFront(plan, tasks);
      LastFlashStays(plan, d, front, p);
      var i := LastImageFrom(plan, front, p);
      assert front[i] == tasks[i] && DynamicFlash(plan, tasks[i]);
      assert !Disturbs(plan, t);
    }
  }

  // ----- What the helper has collected

  /** The helper takes exactly the dynamic partitions, each with its first image and last size. */
  predicate Knows(plan: Plan, tasks: seq<Task>, h: Helper, p: string) {
    && (p in h.willFlash <==> Dynamic(plan, p) && LastImage(plan, tasks, p).Some?)
    && (p in h.imageMap <==> p in h.willFlash)
    && (p in h.sizes <==> p in h.willFlash)
    && (p in h.willFlash ==>
          && FirstImage(plan, tasks, p) == Some(h.imageMap[p]) && h.imageMap[p] in plan.files
          && LastImage(plan, tasks, p).value in plan.files
          && h.imageMap[p] !in plan.sparse && LastImage(plan, tasks, p).value !in plan.sparse
          && h.sizes[p] == |plan.files[LastImage(plan, tasks, p).value]|)
  }

  lemma {:induction false} FirstIffLast(plan: Plan, tasks: seq<Task>, p: string)
    ensures FirstImage(plan, tasks, p).Some? <==> LastImage(plan, tasks, p).Some?
  {
    if tasks != [] {
      FirstIffLast(plan, tasks[..|tasks| - 1], p);
    }
  }

  lemma {:induction false} HelperKnows(plan: Plan, tasks: seq<Task>, h: Helper, p: string)
    requires Documented(plan, tasks) && AddAll(plan, tasks) == Some(h)
    ensures Knows(plan, tasks, h, p)
  {
    hide Dynamic;
    if tasks != [] {
      var front, t := tasks[..|tasks| - 1], tasks[|tasks| - 1];
      DocumentedFront(plan, tasks);
      HelperKnows(plan, front, AddAll(plan, front).value, p);
      TakenExactly(plan, front);
      FirstIffLast(plan, front, p);
    }
  }

  // ----- The static partitions

  /** `e` has done without the dynamic partitions and never left the bootloader. */
  ghost predicate SameStatic(plan: Plan, d: Device, e: Device) {
    && e.mode == Bootloader
    && forall p: string :: !Dynamic(plan, p) ==>
         (p in d.parts <==> p in e.parts) && (p in d.parts ==> d.parts[p] == e.parts[p])
  }

  lemma SameStaticStep(plan: Plan, d: Device, e: Device, t: Task, h: Helper)
    requires SameStatic(plan, d, e) && Run(plan, d, t).Some? && !t.FlashSuper?
    requires t.Flash? ==>
               && (PartitionAndSlot(plan, t) in h.willFlash <==> Dynamic(plan, PartitionAndSlot(plan, t)))
               && (Dynamic(plan, PartitionAndSlot(plan, t)) || Dynamic(plan, RunTarget(plan, t))
                   ==> PartitionAndSlot(plan, t) == RunTarget(plan, t))
    requires t.Reboot? ==> t.target in {"fastboot", "bootloader"}
    ensures Absorbed(plan, h, t) ==> SameStatic(plan, Run(plan, d, t).value, e)
    ensures !Absorbed(plan, h, t) ==>
              Run(plan, e, t).Some? && SameStatic(plan, Run(plan, d, t).value, Run(plan, e, t).value)
  {
    hide Dynamic;
  }

  lemma {:induction false} RemainingRuns(plan: Plan, d: Device, tasks: seq<Task>, h: Helper)
    requires d.mode == Bootloader && Documented(plan, tasks) && RunAll(plan, d, tasks).Some?
    requires forall i :: 0 <= i < |tasks| && tasks[i].Flash? ==>
               (PartitionAndSlot(plan, tasks[i]) in h.willFlash <==> Dynamic(plan, PartitionAndSlot(plan, tasks[i])))
    ensures RunAll(plan, d, Remaining(plan, h, tasks)).Some?
    ensures SameStatic(plan, RunAll(plan, d, tasks).value, RunAll(plan, d, Remaining(plan, h, tasks)).value)
  {
    hide Dynamic;
    if tasks != [] {
      var front, t := tasks[..|tasks| - 1], tasks[|tasks| - 1];
      DocumentedFront(plan, tasks);
      RemainingRuns(plan, d, front, h);
      var rest := Remaining(plan, h, front);
      SameStaticStep(plan, RunAll(plan, d, front).value, RunAll(plan, d, rest).value, t, h);
      assert (rest + [t])[..|rest|] == rest;
      assert rest + [] == rest;
    }
  }

  // ----- Preservation

  /** The list the device runs after optimisation. */
  function Optimised(plan: Plan, tasks: seq<Task>, h: Helper): (r: seq<Task>) {
    Remaining(plan, h, tasks) + [FlashSuper(h.imageMap, h.sizes)]
  }

  lemma {:induction false} FlashedIsPresent(plan: Plan, d: Device, tasks: seq<Task>, p: string)
    requires RunAll(plan, d, tasks).Some? && LastImage(plan, tasks, p).Some?
    ensures p in RunAll(plan, d, tasks).value.parts
  {
    if !FlashesTo(plan, tasks[|tasks| - 1], p) {
      FlashedIsPresent(plan, d, tasks[..|tasks| - 1], p);
    }
  }

  lemma HelperKnowsFlashes(plan: Plan, tasks: seq<Task>, h: Helper)
    requires Documented(plan, tasks) && AddAll(plan, tasks) == Some(h)
    ensures forall i :: 0 <= i < |tasks| && tasks[i].Flash? ==>
              (PartitionAndSlot(plan, tasks[i]) in h.willFlash <==> Dynamic(plan, PartitionAndSlot(plan, tasks[i])))
  {
    hide Dynamic;
    forall i | 0 <= i < |tasks| && tasks[i].Flash?
      ensures PartitionAndSlot(plan, tasks[i]) in h.willFlash <==> Dynamic(plan, PartitionAndSlot(plan, tasks[i]))
    {
      var p := PartitionAndSlot(plan, tasks[i]);
      HelperKnows(plan, tasks, h, p);
      if Dynamic(plan, p) {
        FlashIsLast(plan, tasks, i, p);
      }
    }
  }

  lemma {:induction false} FlashIsLast(plan: Plan, tasks: seq<Task>, i: nat, p: string)
    requires i < |tasks| && FlashesTo(plan, tasks[i], p)
    ensures LastImage(plan, tasks, p).Some?
  {
    if i < |tasks| - 1 {
      FlashIsLast(plan, tasks[..|tasks| - 1], i, p);
    }
  }

  /** Contents that begin with `data`. */
  predicate StartsWith(contents: seq<byte>, data: seq<byte>) {
    data <= contents
  }

  /** The first image flashed to a partition can be read over the length of the last one. */
  predicate LongEnough(plan: Plan, tasks: seq<Task>, p: string)
    requires plan.block > 0
  {
    var first, last := FirstImage(plan, tasks, p), LastImage(plan, tasks, p);
    Dynamic(plan, p) && first.Some? && last.Some? && first.value in plan.files && last.value in plan.files ==>
      L.AlignUp(|plan.files[last.value]|, plan.block) <= L.AlignUp(|plan.files[first.value]|, plan.block)
  }

  lemma ReadableExactly(plan: Plan, tasks: seq<Task>, h: Helper)
    requires plan.block > 0 && Documented(plan, tasks) && AddAll(plan, tasks) == Some(h)
    ensures Readable(plan, h.imageMap, h.sizes) <==> forall p: string :: LongEnough(plan, tasks, p)
  {
    hide Dynamic, L.AlignUp, AddAll, Documented, FirstImage, LastImage;
    forall p: string
      ensures LongEnough(plan, tasks, p) <==>
                (p in h.imageMap && h.imageMap[p] in plan.files && p in h.sizes ==>
                   L.AlignUp(h.sizes[p], plan.block) <= L.AlignUp(|plan.files[h.imageMap[p]]|, plan.block))
    {
      HelperKnows(plan, tasks, h, p);
      FirstIffLast(plan, tasks, p);
    }
  }

  lemma FitPrefix(data: seq<byte>, n: nat, m: nat)
    requires n <= m
    ensures Fit(data, m)[..n] == Fit(data, n)
  {
  }

  /**
   The optimised list runs through exactly when every first image is long enough. Then a
   flashed partition `p` holds the image it holds after the original list, except exactly
   when `p` is dynamic and the first image flashed to it, cut or zero-filled to the size of
   the last, is not the last. What is not dynamic is the same byte for byte.
   */
  lemma SuperFlashPreserves(plan: Plan, d: Device, tasks: seq<Task>, h: Helper, p: string)
    requires plan.block > 0 && d.mode == Bootloader && Documented(plan, tasks)
    requires RunAll(plan, d, tasks).Some? && AddAll(plan, tasks) == Some(h)
    requires LastImage(plan, tasks, p).Some?
    ensures RunAll(plan, d, Optimised(plan, tasks, h)).Some? <==> forall q: string :: LongEnough(plan, tasks, q)
    ensures FirstImage(plan, tasks, p).Some?
    ensures RunAll(plan, d, Optimised(plan, tasks, h)).Some? ==>
            var before := RunAll(plan, d, tasks).value.parts;
            var after := RunAll(plan, d, Optimised(plan, tasks, h)).value.parts;
            && p in before && p in after && (!Dynamic(plan, p) ==> after[p] == before[p])
            && (Dynamic(plan, p) ==> |after[p]| == L.AlignUp(|before[p]|, plan.block))
            && (StartsWith(after[p], before[p]) <==>
                  (Dynamic(plan, p) ==>
                     && FirstImage(plan, tasks, p).value in plan.files
                     && LastImage(plan, tasks, p).value in plan.files
                     && Fit(plan.files[FirstImage(plan, tasks, p).value], |plan.files[LastImage(plan, tasks, p).value]|)
                        == plan.files[LastImage(plan, tasks, p).value]))
  {
    hide Dynamic, Fit, L.AlignUp, LongEnough;
    HelperKnowsFlashes(plan, tasks, h);
    HelperKnows(plan, tasks, h, p);
    FirstIffLast(plan, tasks, p);
    RemainingRuns(plan, d, tasks, h);
    FlashedIsPresent(plan, d, tasks, p);
    ReadableExactly(plan, tasks, h);
    var rest := Remaining(plan, h, tasks);
    assert Optimised(plan, tasks, h)[..|rest|] == rest;
    if Dynamic(plan, p) {
      LastFlashStays(plan, d, tasks, p);
      var first, last := plan.files[h.imageMap[p]], plan.files[LastImage(plan, tasks, p).value];
      Rounded(|last|, plan.block);
      FitPrefix(first, |last|, L.AlignUp(|last|, plan.block));
      FitLength(first, L.AlignUp(|last|, plan.block));
      PrefixIs(Fit(first, L.AlignUp(|last|, plan.block)), last);
    }
  }

  lemma FitLength(data: seq<byte>, n: nat)
    ensures |Fit(data, n)| == n
  {
  }

  /** For an image of whole blocks, beginning with it means being it. */
  lemma WholeBlocksEqual(contents: seq<byte>, data: seq<byte>, block: nat, k: nat)
    requires block > 0 && |data| == k * block && |contents| == L.AlignUp(|data|, block)
    ensures StartsWith(contents, data) <==> contents == data
  {
    L.AlignedStays(k, block);
  }

  lemma Rounded(n: nat, block: nat)
    requires block > 0
    ensures n <= L.AlignUp(n, block)
  {
  }

  lemma PrefixIs(contents: seq<byte>, data: seq<byte>)
    requires |data| <= |contents|
    ensures StartsWith(contents, data) <==> contents[..|data|] == data
  {
  }

  /** A dynamic partition that is not flashed is emptied, whatever it held. */
  lemma UnflashedEmptied(plan: Plan, d: Device, tasks: seq<Task>, h: Helper, p: string)
    requires plan.block > 0 && Documented(plan, tasks) && AddAll(plan, tasks) == Some(h)
    requires Dynamic(plan, p) && LastImage(plan, tasks, p).None?
    requires RunAll(plan, d, Optimised(plan, tasks, h)).Some?
    ensures var after := RunAll(plan, d, Optimised(plan, tasks, h)).value.parts;
            p in after ==> after[p] == []
  {
    hide Dynamic, L.AlignUp, Fit;
    HelperKnows(plan, tasks, h, p);
    var rest := Remaining(plan, h, tasks);
    assert Optimised(plan, tasks, h)[..|rest|] == rest;
  }

  predicate FlashedOnce(plan: Plan, tasks: seq<Task>) {
    forall i, j :: 0 <= i < j < |tasks| && tasks[i].Flash? && tasks[j].Flash? ==>
      RunTarget(plan, tasks[i]) != RunTarget(plan, tasks[j])
  }

  lemma {:induction false} OnceFirstIsLast(plan: Plan, tasks: seq<Task>, p: string)
    requires FlashedOnce(plan, tasks)
    ensures FirstImage(plan, tasks, p) == LastImage(plan, tasks, p)
  {
    if tasks != [] {
      var front := tasks[..|tasks| - 1];
      OnceFirstIsLast(plan, front, p);
      if LastImage(plan, front, p).Some? {
        var i := LastImageFrom(plan, front, p);
        assert front[i] == tasks[i];
      }
    }
  }

  /**
   If no partition is flashed twice, the optimised list runs through and every flashed
   partition holds its image.
   */
  lemma FlashedOncePreserves(plan: Plan, d: Device, tasks: seq<Task>, h: Helper, p: string)
    requires plan.block > 0 && d.mode == Bootloader && Documented(plan, tasks) && FlashedOnce(plan, tasks)
    requires RunAll(plan, d, tasks).Some? && AddAll(plan, tasks) == Some(h)
    requires LastImage(plan, tasks, p).Some?
    ensures RunAll(plan, d, Optimised(plan, tasks, h)).Some?
    ensures var before := RunAll(plan, d, tasks).value.parts;
            var after := RunAll(plan, d, Optimised(plan, tasks, h)).value.parts;
            p in before && p in after && StartsWith(after[p], before[p])
  {
    hide Dynamic, L.AlignUp;
    forall q: string
      ensures LongEnough(plan, tasks, q)
    {
      OnceFirstIsLast(plan, tasks, q);
    }
    hide LongEnough;
    SuperFlashPreserves(plan, d, tasks, h, p);
    OnceFirstIsLast(plan, tasks, p);
    if Dynamic(plan, p) {
      LastFlashStays(plan, d, tasks, p);
    }
  }

  /** What remains is a subsequence of the list: exactly the tasks that are not absorbed. */
  lemma {:induction false} RemainingInOrder(plan: Plan, h: Helper, tasks: seq<Task>) returns (at: seq<nat>)
    ensures |at| == |Remaining(plan, h, tasks)|
    ensures forall k :: 0 <= k < |at| ==> at[k] < |tasks| && Remaining(plan, h, tasks)[k] == tasks[at[k]]
    ensures forall k, l :: 0 <= k < l < |at| ==> at[k] < at[l]
    ensures forall i :: 0 <= i < |tasks| ==> (i in at <==> !Absorbed(plan, h, tasks[i]))
  {
    if tasks == [] {
      at := [];
    } else {
      var n := |tasks| - 1;
      at := RemainingInOrder(plan, h, tasks[..n]);
      if !Absorbed(plan, h, tasks[n]) {
        at := at + [n];
      }
    }
  }

  /** No task that needs userspace fastboot is left. */
  lemma {:induction false} NothingNeedsUserspace(plan: Plan, tasks: seq<Task>, h: Helper)
    requires Documented(plan, tasks) && AddAll(plan, tasks) == Some(h)
    ensures forall k :: 0 <= k < |Remaining(plan, h, tasks)| ==>
              var t := Remaining(plan, h, tasks)[k];
              && !t.UpdateSuper? && t != Reboot("fastboot")
              && (t.Flash? ==> !Dynamic(plan, RunTarget(plan, t)))
  {
    hide Dynamic, Remaining;
    HelperKnowsFlashes(plan, tasks, h);
    var at := RemainingInOrder(plan, h, tasks);
    forall k | 0 <= k < |at|
      ensures var t := Remaining(plan, h, tasks)[k];
              && !t.UpdateSuper? && t != Reboot("fastboot")
              && (t.Flash? ==> !Dynamic(plan, RunTarget(plan, t)))
    {
      assert at[k] in at;
      assert !Absorbed(plan, h, tasks[at[k]]);
    }
  }

  // ----- Flashing a partition twice

  function TwicePlan(x: seq<byte>, y: seq<byte>): (plan: Plan) {
    Plan(
      true, true, "", "a", Some(Metadata([LogicalPartition("system_a", false, true)], true)), true,
      (sizes, partition, size) => true,
      sizes => Some(L.Export([], [L.Partition("system_a", [L.Target(0, 4096, true)])], 0, 4096)), 4096,
      map["x.img" := x, "y.img" := y], map[], {"system"}, {}, false, false)
  }

  const TWICE_TASKS := [Reboot("fastboot"), UpdateSuper, Flash("a", "system", "x.img"), Flash("a", "system", "y.img")]

  lemma TwiceNames(x: seq<byte>, y: seq<byte>)
    ensures forall i :: 2 <= i < 4 ==>
              PartitionAndSlot(TwicePlan(x, y), TWICE_TASKS[i])
              == RunTarget(TwicePlan(x, y), TWICE_TASKS[i]) == "system_a"
    ensures Dynamic(TwicePlan(x, y), "system_a")
    ensures Documented(TwicePlan(x, y), TWICE_TASKS)
  {
    assert "system" + "_" + "a" == "system_a";
    assert TwicePlan(x, y).metadata.value.partitions[0].name == "system_a";
  }

  lemma TwiceSteps()
    ensures var ts := TWICE_TASKS;
            && ts[..4] == ts && ts[..4][..3] == ts[..3] && ts[..3][..2] == ts[..2]
            && ts[..2][..1] == ts[..1] && ts[..1][..0] == [] && ts[..0] == []
  {
  }

  lemma TwiceImages(x: seq<byte>, y: seq<byte>)
    ensures LastImage(TwicePlan(x, y), TWICE_TASKS, "system_a") == Some("y.img")
    ensures FirstImage(TwicePlan(x, y), TWICE_TASKS, "system_a") == Some("x.img")
  {
    TwiceNames(x, y);
    TwiceSteps();
    hide Dynamic, Documented;
    var p, ts := TwicePlan(x, y), TWICE_TASKS;
    assert FirstImage(p, ts[..0], "system_a") == None;
    assert FirstImage(p, ts[..1], "system_a") == None;
    assert FirstImage(p, ts[..2], "system_a") == None;
    assert FirstImage(p, ts[..3], "system_a") == Some("x.img");
  }

  lemma TwiceAdded(x: seq<byte>, y: seq<byte>)
    ensures AddAll(TwicePlan(x, y), TWICE_TASKS).Some?
  {
    TwiceNames(x, y);
    TwiceSteps();
    hide Dynamic, Documented;
    var p, ts := TwicePlan(x, y), TWICE_TASKS;
    assert AddAll(p, ts[..0]) == Some(EMPTY_HELPER);
    assert AddAll(p, ts[..1]) == Some(EMPTY_HELPER);
    assert AddAll(p, ts[..2]) == Some(EMPTY_HELPER);
    assert AddAll(p, ts[..3]).Some?;
  }

  lemma TwiceRuns(x: seq<byte>, y: seq<byte>, d: Device)
    requires d.mode == Bootloader
    ensures RunAll(TwicePlan(x, y), d, TWICE_TASKS).Some?
  {
    TwiceNames(x, y);
    TwiceSteps();
    hide Dynamic, Documented;
    var p, ts := TwicePlan(x, y), TWICE_TASKS;
    assert RunAll(p, d, ts[..0]) == Some(d);
    assert RunAll(p, d, ts[..1]) == Some(d.(mode := Userspace));
    assert RunAll(p, d, ts[..2]) == Some(d.(mode := Userspace));
    assert RunAll(p, d, ts[..3]).Some? && RunAll(p, d, ts[..3]).value.mode == Userspace;
  }

  lemma TwiceFiles(x: seq<byte>, y: seq<byte>)
    ensures var files := TwicePlan(x, y).files;
            "x.img" in files && "y.img" in files && files["x.img"] == x && files["y.img"] == y
  {
    assert "x.img"[0] != "y.img"[0];
  }

  lemma TwiceOptimisable(x: seq<byte>, y: seq<byte>)
    ensures Optimisable(TwicePlan(x, y), TWICE_TASKS)
  {
    TwiceNames(x, y);
    TwiceAdded(x, y);
    TwiceImages(x, y);
    hide Dynamic, Documented, AddAll, LastImage, FirstImage;
    var p, ts := TwicePlan(x, y), TWICE_TASKS;
    assert BlockAt(p, ts, 0);
    var h := AddAll(p, ts).value;
    HelperKnows(p, ts, h, "system_a");
    var md := p.exported(h.sizes).value;
    assert md.parts[..0] == [];
    assert L.AllExtents(md.parts, h.imageMap) == L.ImageExtents(md.parts[0].extents, h.imageMap["system_a"], 0);
  }

  /** The condition is needed: of two images for one partition the original keeps the last. */
  lemma TwiceFlashedDiffers(d: Device)
    requires d.mode == Bootloader
    ensures var plan := TwicePlan([1], [2]);
            && Documented(plan, TWICE_TASKS) && Optimisable(plan, TWICE_TASKS) && RunAll(plan, d, TWICE_TASKS).Some?
            && var h := AddAll(plan, TWICE_TASKS).value;
            var before := RunAll(plan, d, TWICE_TASKS).value.parts;
            var after := RunAll(plan, d, Optimised(plan, TWICE_TASKS, h));
            && after.Some? && "system_a" in before && "system_a" in after.value.parts
            && !StartsWith(after.value.parts["system_a"], before["system_a"])
  {
    TwiceAll([1], [2], d);
    TwiceLongEnough([1], [2]);
    hide Dynamic, Documented, AddAll, RunAll, LastImage, FirstImage, Optimisable;
    var p, ts := TwicePlan([1], [2]), TWICE_TASKS;
    SuperFlashPreserves(p, d, ts, AddAll(p, ts).value, "system_a");
    assert Fit([1], 1)[0] == 1 && p.files["y.img"][0] == 2;
  }

  lemma TwiceAll(x: seq<byte>, y: seq<byte>, d: Device)
    requires d.mode == Bootloader
    ensures var plan := TwicePlan(x, y);
            && Documented(plan, TWICE_TASKS) && Optimisable(plan, TWICE_TASKS) && RunAll(plan, d, TWICE_TASKS).Some?
            && AddAll(plan, TWICE_TASKS).Some?
            && LastImage(plan, TWICE_TASKS, "system_a") == Some("y.img")
            && FirstImage(plan, TWICE_TASKS, "system_a") == Some("x.img")
            && "x.img" in plan.files && "y.img" in plan.files
            && plan.files["x.img"] == x && plan.files["y.img"] == y
  {
    TwiceNames(x, y);
    TwiceImages(x, y);
    TwiceAdded(x, y);
    TwiceRuns(x, y, d);
    TwiceFiles(x, y);
    TwiceOptimisable(x, y);
  }

  lemma TwiceLongEnough(x: seq<byte>, y: seq<byte>)
    requires |x| == |y|
    ensures forall q: string :: LongEnough(TwicePlan(x, y), TWICE_TASKS, q)
  {
    forall q: string
      ensures LongEnough(TwicePlan(x, y), TWICE_TASKS, q)
    {
      OneOfTwo(x, y, q);
    }
  }

  lemma OneOfTwo(x: seq<byte>, y: seq<byte>, q: string)
    ensures forall i :: i in TwicePlan(x, y).files ==> TwicePlan(x, y).files[i] in {x, y}
  {
  }

  /** A first image that ends before the last block of the last one makes fastboot give up. */
  lemma ShorterFirstGivesUp(d: Device)
    requires d.mode == Bootloader
    ensures var plan := TwicePlan([1], Zeros(4097));
            && Optimisable(plan, TWICE_TASKS) && RunAll(plan, d, TWICE_TASKS).Some?
            && RunAll(plan, d, Optimised(plan, TWICE_TASKS, AddAll(plan, TWICE_TASKS).value)) == None
  {
    TwiceAll([1], Zeros(4097), d);
    hide Dynamic, Documented, AddAll, RunAll, LastImage, FirstImage, Optimisable;
    var p, ts := TwicePlan([1], Zeros(4097)), TWICE_TASKS;
    TwiceNames([1], Zeros(4097));
    assert !LongEnough(p, ts, "system_a");
    SuperFlashPreserves(p, d, ts, AddAll(p, ts).value, "system_a");
  }
}
