/**
 Mounting one of several fstab entries for the same mount point. System calls are an oracle
 whose answers come from a script; what was done is logged.
 */
module MountAlternatives {
  import opened Bytes

  const EINVAL := 22

  datatype Entry = Entry(
    mountPoint: string,
    fsType: string,
    device: string,
    partition: nat,
    logicalName: string,
    firstStage: bool,
    formattable: bool,
    voldManaged: bool,
    recoveryOnly: bool,
    lateMount: bool,
    logical: bool,
    wait: bool,
    avb: bool,
    avbKeys: bool,
    noFail: bool,
    fileEncryption: bool,
    keyDir: bool)
  {
    predicate MetadataEncrypted() {
      keyDir && fileEncryption
    }
  }

  /** An entry that did not mount: skipped for its magic, or tried twice with these errors. */
  datatype Failure = Magic | Twice(first: nat, second: nat)

  /**
   What was done: an entry had a bad magic, was tried, formatted, handed to the encryption service
   or checked for being wiped; or it could not be unmounted, or verified boot not be opened for it.
   */
  datatype Event = BadMagic(idx: nat) | Tried(idx: nat, errno: nat) | Format(idx: nat, ok: bool)
                 | Vdc(idx: nat, format: bool, ok: bool) | Checked(idx: nat, wiped: bool)
                 | Stuck(idx: nat) | NoHandle(idx: nat)

  /** The next answer; a script that has run out answers 0. */
  function Next(script: seq<nat>): (n: nat) {
    if script == [] then 0 else script[0]
  }

  function Later(script: seq<nat>): (r: seq<nat>) {
    if script == [] then [] else script[1..]
  }

  class System {
    var script: seq<nat>
    var devices: seq<string>
    /** The partitions whose contents are wiped. */
    var wiped: set<nat>
    ghost var log: seq<Event>

    constructor (script: seq<nat>, devices: seq<string>, wiped: set<nat>)
      ensures this.wiped == wiped && log == []
    {
      this.script, this.devices, this.wiped, log := script, devices, wiped, [];
    }

    method Answer() returns (n: nat)
      modifies this`script
      ensures n == Next(old(script)) && script == Later(old(script))
    {
      n := 0;
      if script != [] {
        n, script := script[0], script[1..];
      }
    }

    /** Any check or preparation that succeeds or fails. */
    method Ask() returns (yes: bool)
      modifies this`script
      ensures yes == (Next(old(script)) != 0) && script == Later(old(script))
    {
      var n := Answer();
      return n != 0;
    }

    /** The block device an entry gets when a mapped device is set up for it. */
    method DeviceFor(device0: string) returns (device: string)
      modifies this`devices
    {
      device := device0;
      if devices != [] {
        device, devices := devices[0], devices[1..];
      }
    }

    method PartitionWiped(idx: nat, partition: nat) returns (yes: bool)
      modifies this`log
      ensures yes == (partition in wiped) && log == old(log) + [Checked(idx, yes)]
    {
      yes := partition in wiped;
      log := log + [Checked(idx, yes)];
    }

    method PrepareFs(idx: nat) returns (good: bool)
      modifies this`script, this`log
      ensures log == old(log) + if good then [] else [BadMagic(idx)]
      ensures good == (Next(old(script)) != 0) && script == Later(old(script))
    {
      good := Ask();
      if !good {
        log := log + [BadMagic(idx)];
      }
    }

    method Mount(idx: nat) returns (errno: nat)
      modifies this`script, this`log
      ensures log == old(log) + [Tried(idx, errno)]
      ensures errno == Next(old(script)) && script == Later(old(script))
    {
      errno := Answer();
      log := log + [Tried(idx, errno)];
    }

    /** A format that succeeds leaves a file system on the partition. */
    method DoFormat(idx: nat, partition: nat) returns (ok: bool)
      modifies this
      ensures log == old(log) + [Format(idx, ok)]
      ensures wiped == if ok then old(wiped) - {partition} else old(wiped)
      ensures ok == (Next(old(script)) != 0) && script == Later(old(script))
    {
      ok := Ask();
      log := log + [Format(idx, ok)];
      if ok {
        wiped := wiped - {partition};
      }
    }

    method CallVdc(idx: nat, format: bool) returns (ok: bool)
      modifies this`script, this`log
      ensures log == old(log) + [Vdc(idx, format, ok)]
      ensures ok == (Next(old(script)) != 0) && script == Later(old(script))
    {
      ok := Ask();
      log := log + [Vdc(idx, format, ok)];
    }
  }

  class Fstab {
    var entries: seq<Entry>

    constructor (entries: seq<Entry>)
      ensures this.entries == entries
    {
      this.entries := entries;
    }
  }

  // ----- What is tried

  /** The first index after `start` with another mount point. */
  function GroupEnd(es: seq<Entry>, start: nat, j: nat): (g: nat)
    requires start < |es| && start <= j <= |es|
    ensures j <= g <= |es| && (g < |es| ==> es[g].mountPoint != es[start].mountPoint)
    ensures forall k :: j <= k < g ==> es[k].mountPoint == es[start].mountPoint
    decreases |es| - j
  {
    if j < |es| && es[j].mountPoint == es[start].mountPoint then GroupEnd(es, start, j + 1) else j
  }

  /** Alternates on the same logical partition use the device that was set up for the first. */
  function Sharing(first: Entry, e: Entry): (r: Entry) {
    if e.logical && first.logical && e.logicalName == first.logicalName then e.(device := first.device) else e
  }

  function FailureLog(idx: nat, f: Failure): (log: seq<Event>) {
    match f
    case Magic => [BadMagic(idx)]
    case Twice(first, second) => [Tried(idx, first), Tried(idx, second)]
  }

  /** The log of consecutive entries that could not be mounted. */
  function Failures(start: nat, fs: seq<Failure>): (log: seq<Event>) {
    if fs == [] then []
    else
      var n := |fs| - 1;
      Failures(start, fs[..n]) + FailureLog(start + n, fs[n])
  }

  predicate RealFailures(fs: seq<Failure>) {
    forall k :: 0 <= k < |fs| ==> fs[k].Magic? || (fs[k].first != 0 && fs[k].second != 0)
  }

  lemma FailuresSnoc(start: nat, fs: seq<Failure>, f: Failure)
    ensures Failures(start, fs + [f]) == Failures(start, fs) + FailureLog(start + |fs|, f)
  {
    assert (fs + [f])[..|fs|] == fs;
  }

  /** Failed attempts contain no successful mount, and only entries of the group. */
  lemma {:induction false} FailuresMountNothing(start: nat, fs: seq<Failure>)
    requires RealFailures(fs)
    ensures forall k :: 0 <= k < |Failures(start, fs)| ==>
                          var e := Failures(start, fs)[k];
                          (e.BadMagic? || (e.Tried? && e.errno != 0)) && start <= e.idx < start + |fs|
  {
    if fs != [] {
      FailuresMountNothing(start, fs[..|fs| - 1]);
    }
  }

  /** The log of a successful mount: at the first try, or after an error and a file system check. */
  function Success(idx: nat, before: nat): (log: seq<Event>) {
    if before == 0 then [Tried(idx, 0)] else [Tried(idx, before), Tried(idx, 0)]
  }

  /** What was tried: entries in order, each at most twice, until one mounted. */
  predicate Attempts(log: seq<Event>, start: nat, stop: nat, fs: seq<Failure>, before: nat, ok: bool, attempted: nat) {
    RealFailures(fs) &&
    if ok then
      start <= attempted < stop && |fs| == attempted - start && log == Failures(start, fs) + Success(attempted, before)
    else attempted == start <= stop && |fs| == stop - start && log == Failures(start, fs)
  }

  /** Entries up to the last one tried share the device of the first; the others are as before. */
  predicate DevicesShared(es: seq<Entry>, after: seq<Entry>, start: nat, tried: nat) {
    && |after| == |es| && start < |es|
    && forall j :: 0 <= j < |es| ==> after[j] == if start < j < tried then Sharing(es[start], es[j]) else es[j]
  }

  /** The error that is reported: bad magic if any entry had one, else the first error of the first entry. */
  function ErrnoOf(fs: seq<Failure>): (errno: nat) {
    if Magic in fs then EINVAL else if fs == [] then 0 else assert fs[0] in fs; fs[0].first
  }

  lemma ErrnoSnoc(fs: seq<Failure>, f: Failure)
    requires RealFailures(fs + [f])
    ensures ErrnoOf(fs + [f]) == if f.Magic? then EINVAL else if ErrnoOf(fs) == 0 then f.first else ErrnoOf(fs)
  {
    var gs := fs + [f];
    assert gs[|fs|] == f;
    if Magic in fs {
      var k :| 0 <= k < |fs| && fs[k] == Magic;
      assert gs[k] == Magic;
    }
    if fs != [] {
      assert gs[0] == fs[0];
    }
  }

  /** The error of the first mount call of a group that failed, if there was a mount call. */
  function FirstMount(fs: seq<Failure>): (errno: Option<nat>) {
    if fs == [] then None else if fs[0].Twice? then Some(fs[0].first) else FirstMount(fs[1..])
  }

  /** The reported error is that of the first mount call exactly when no bad magic hides it. */
  lemma {:induction false} ErrnoExact(fs: seq<Failure>)
    requires FirstMount(fs).Some?
    ensures ErrnoOf(fs) == FirstMount(fs).value <==> Magic !in fs || FirstMount(fs).value == EINVAL
  {
    if Magic !in fs {
      assert fs[0] in fs;
    }
  }

  // ----- What a script leads to

  /** How one entry fares. */
  datatype Try = Mounted(before: nat) | Failed(f: Failure)

  function TryOne(script: seq<nat>): (r: (Try, seq<nat>)) {
    if Next(script) == 0 then (Failed(Magic), Later(script))
    else
      var s := Later(script);
      if Next(s) == 0 then (Mounted(0), Later(s))
      else
        var t := Later(s);
        if Next(t) == 0 then (Mounted(Next(s)), Later(t)) else (Failed(Twice(Next(s), Next(t))), Later(t))
  }

  datatype Tries = Tries(fs: seq<Failure>, ok: bool, at: nat, before: nat, rest: seq<nat>)

  /** How the entries from `i` to `stop` fare, until one mounts. */
  function TryGroup(i: nat, stop: nat, script: seq<nat>): (r: Tries)
    ensures r.ok ==> i <= r.at < stop && |r.fs| == r.at - i
    ensures !r.ok && i <= stop ==> |r.fs| == stop - i
    decreases stop - i
  {
    if i >= stop then Tries([], false, i, 0, script)
    else
      match TryOne(script)
      case (Mounted(before), s) => Tries([], true, i, before, s)
      case (Failed(f), s) =>
        var r := TryGroup(i + 1, stop, s);
        r.(fs := [f] + r.fs)
  }

  /** At most two tries; the error of the first one is kept if there was none before. */
  method TryEntry(sys: System, idx: nat, errno0: nat)
    returns (mounted: bool, errno: nat, ghost before: nat, ghost f: Failure)
    modifies sys`script, sys`log
    ensures sys.log == old(sys.log) + if mounted then Success(idx, before) else FailureLog(idx, f)
    ensures !mounted ==> f.Twice? && f.first != 0 && f.second != 0 && errno == if errno0 == 0 then f.first else errno0
    ensures forall s :: Next(s) != 0 && Later(s) == old(sys.script) ==>
              TryOne(s) == (if mounted then Mounted(before) else Failed(f), sys.script)
  {
    var e := sys.Mount(idx);
    if e == 0 {
      return true, 0, 0, Magic;
    }
    before, errno := e, errno0;
    if errno == 0 {
      errno := e;
    }
    e := sys.Mount(idx);
    mounted, f := e == 0, Twice(before, e);
    if mounted {
      errno := 0;
    }
  }

  /** What the loop has done before entry `i`. */
  ghost predicate Progress(es: seq<Entry>, entries: seq<Entry>, log: seq<Event>, start: nat, i: nat, mounted: bool,
                           attempted: nat, errno: nat, fs: seq<Failure>, before: nat)
  {
    && start < |es| && start <= i <= GroupEnd(es, start, start)
    && Attempts(log, start, i, fs, before, mounted, attempted)
    && DevicesShared(es, entries, start, if mounted then attempted + 1 else i)
    && (!mounted ==> errno == ErrnoOf(fs))
  }

  lemma ShareNext(es: seq<Entry>, entries: seq<Entry>, start: nat, i: nat)
    requires DevicesShared(es, entries, start, i) && start <= i < |es|
    ensures DevicesShared(es, if i == start then entries else entries[i := Sharing(entries[start], entries[i])],
                          start, i + 1)
  {
  }

  lemma OneMoreFailed(es: seq<Entry>, entries: seq<Entry>, after: seq<Entry>, log: seq<Event>, start: nat, i: nat,
                      errno: nat, fs: seq<Failure>, f: Failure)
    requires Progress(es, entries, log, start, i, false, start, errno, fs, 0) && i < GroupEnd(es, start, start)
    requires DevicesShared(es, after, start, i + 1) && RealFailures([f])
    ensures Progress(es, after, log + FailureLog(i, f), start, i + 1, false, start,
                     if f.Magic? then EINVAL else if errno == 0 then f.first else errno, fs + [f], 0)
  {
    hide DevicesShared;
    FailuresSnoc(start, fs, f);
    assert f == [f][0];
    assert RealFailures(fs + [f]);
    ErrnoSnoc(fs, f);
    hide Failures, ErrnoOf;
  }

  method TryNext(fstab: Fstab, sys: System, start: nat, i: nat, errno0: nat, ghost es: seq<Entry>,
                 ghost log0: seq<Event>,
                 ghost fs0: seq<Failure>)
    returns (mounted: bool, errno: nat, ghost fs: seq<Failure>, ghost before: nat)
    requires start < |es| && start <= i < GroupEnd(es, start, start) && |es| == |fstab.entries|
    requires log0 <= sys.log
    requires Progress(es, fstab.entries, sys.log[|log0|..], start, i, false, start, errno0, fs0, 0)
    modifies fstab, sys`script, sys`log
    ensures log0 <= sys.log
    ensures Progress(es, fstab.entries, sys.log[|log0|..], start, i + 1, mounted, if mounted then i else start, errno,
                     fs, before)
    ensures if mounted then fs == fs0 && TryOne(old(sys.script)) == (Mounted(before), sys.script)
            else && |fs| == |fs0| + 1 && fs == fs0 + [fs[|fs0|]]
                 && TryOne(old(sys.script)) == (Failed(fs[|fs0|]), sys.script)
  {
    hide DevicesShared, Failures, ErrnoOf, GroupEnd;
    fs, before, errno, mounted := fs0, 0, errno0, false;
    ghost var done, entries0 := sys.log[|log0|..], fstab.entries;
    ShareNext(es, fstab.entries, start, i);
    if i != start {
      fstab.entries := fstab.entries[i := Sharing(fstab.entries[start], fstab.entries[i])];
    }
    var good := sys.PrepareFs(i);
    if !good {
      OneMoreFailed(es, entries0, fstab.entries, done, start, i, errno0, fs0, Magic);
      fs, errno := fs0 + [Magic], EINVAL;
      assert sys.log[|log0|..] == done + FailureLog(i, Magic);
      return;
    }
    ghost var f;
    mounted, errno, before, f := TryEntry(sys, i, errno0);
    if mounted {
      assert sys.log[|log0|..] == done + Success(i, before);
    } else {
      OneMoreFailed(es, entries0, fstab.entries, done, start, i, errno0, fs0, f);
      assert sys.log[|log0|..] == done + FailureLog(i, f);
      fs, before := fs0 + [f], 0;
    }
  }

  /**
   Tries the entries for the mount point of entry `start` until one mounts. `endIdx` is the
   last entry of the group, or the table size when the group ends the table.
   */
  method MountWithAlternatives(fstab: Fstab, sys: System, start: nat)
    returns (ok: bool, endIdx: nat, attempted: nat, errno: nat, ghost fs: seq<Failure>, ghost before: nat)
    requires start < |fstab.entries|
    modifies fstab, sys`script, sys`log
    ensures var g := GroupEnd(old(fstab.entries), start, start);
            && endIdx == (if g < |fstab.entries| then g - 1 else g)
            && old(sys.log) <= sys.log
            && Attempts(sys.log[|old(sys.log)|..], start, g, fs, before, ok, attempted)
            && DevicesShared(old(fstab.entries), fstab.entries, start, if ok then attempted + 1 else g)
            && (!ok ==> errno == ErrnoOf(fs))
            && (!ok && FirstMount(fs).Some? ==>
                  (errno == FirstMount(fs).value <==> Magic !in fs || FirstMount(fs).value == EINVAL))
            && var r := TryGroup(start, g, old(sys.script));
            && fs == r.fs && ok == r.ok && sys.script == r.rest && (ok ==> attempted == r.at && before == r.before)
  {
    hide ErrnoOf, FirstMount, Failures, TryGroup, TryOne;
    ghost var es, log0, script0 := fstab.entries, sys.log, sys.script;
    ghost var g := GroupEnd(es, start, start);
    ok, errno, attempted, fs, before := false, 0, start, [], 0;
    NothingTried(start);
    StartTrying(start, g, script0);
    var i := start;
    assert sys.log[|log0|..] == [];
    while i < |fstab.entries| && fstab.entries[start].mountPoint == fstab.entries[i].mountPoint
      invariant |fstab.entries| == |es| && start <= i <= |es| && log0 <= sys.log
      invariant Progress(es, fstab.entries, sys.log[|log0|..], start, i, ok, attempted, errno, fs, before)
      invariant !ok ==> before == 0
      invariant TryGroup(start, g, script0) == SoFar(fs, ok, i, g, attempted, before, sys.script)
    {
      InGroup(es, fstab.entries, start, i, if ok then attempted + 1 else i);
      if !ok {
        ghost var script, fs0 := sys.script, fs;
        ok, errno, fs, before := TryNext(fstab, sys, start, i, errno, es, log0, fs);
        OneMoreTried(fs0, fs, ok, i, g, before, script, sys.script);
        if ok {
          attempted := i;
        } else {
          before := 0;
        }
      }
      i := i + 1;
    }
    if i < |es| {
      InGroup(es, fstab.entries, start, i, if ok then attempted + 1 else i);
    }
    NoneLeft(fs, g, sys.script);
    if FirstMount(fs).Some? {
      ErrnoExact(fs);
    }
    endIdx := if i < |fstab.entries| then i - 1 else i;
  }

  /** The result for the whole group from what has been tried before entry `i`. */
  function SoFar(fs: seq<Failure>, ok: bool, i: nat, stop: nat, at: nat, before: nat, script: seq<nat>): (r: Tries) {
    if ok then Tries(fs, true, at, before, script)
    else
      var r := TryGroup(i, stop, script);
      r.(fs := fs + r.fs)
  }

  lemma StartTrying(start: nat, stop: nat, script: seq<nat>)
    ensures SoFar([], false, start, stop, start, 0, script) == TryGroup(start, stop, script)
  {
    assert [] + TryGroup(start, stop, script).fs == TryGroup(start, stop, script).fs;
  }

  lemma OneMoreTried(fs0: seq<Failure>, fs: seq<Failure>, ok: bool, i: nat, stop: nat, before: nat, script: seq<nat>,
                     rest: seq<nat>)
    requires i < stop
    requires if ok then fs == fs0 && TryOne(script) == (Mounted(before), rest)
             else |fs| == |fs0| + 1 && fs == fs0 + [fs[|fs0|]] && TryOne(script) == (Failed(fs[|fs0|]), rest)
    ensures SoFar(fs0, false, i, stop, i, 0, script) == SoFar(fs, ok, i + 1, stop, i, before, rest)
  {
    hide TryOne;
    if ok {
      assert fs0 + [] == fs0;
    } else {
      AppendAssoc(fs0, [fs[|fs0|]], TryGroup(i + 1, stop, rest).fs);
    }
  }

  lemma NoneLeft(fs: seq<Failure>, stop: nat, script: seq<nat>)
    ensures TryGroup(stop, stop, script).fs == [] && !TryGroup(stop, stop, script).ok
    ensures TryGroup(stop, stop, script).rest == script && fs + [] == fs
  {
  }

  lemma NothingTried(start: nat)
    ensures Failures(start, []) == [] && ErrnoOf([]) == 0
  {
  }

  lemma InGroup(es: seq<Entry>, after: seq<Entry>, start: nat, i: nat, tried: nat)
    requires start < |es| && start <= i < |es| && i <= GroupEnd(es, start, start)
    requires DevicesShared(es, after, start, tried)
    ensures after[start].mountPoint == after[i].mountPoint <==> i < GroupEnd(es, start, start)
  {
    assert after[start].mountPoint == es[start].mountPoint && after[i].mountPoint == es[i].mountPoint;
  }
}
