/**
 Mounting all entries of the fstab. When a wiped partition cannot be mounted it is formatted
 and its entries are replayed.
 */
module MountAll {
  import opened Bytes
  import opened MountAlternatives
  import opened MountRun
  import opened MountLaws
  import opened MountStatus
  import opened MountReaction

  predicate SameButDevice(es: seq<Entry>, entries: seq<Entry>) {
    |es| == |entries| && forall j :: 0 <= j < |es| ==> entries[j] == es[j].(device := entries[j].device)
  }

  /** The variables of the loop that the helpers pass on; `next` is the index after which it goes on. */
  datatype Outcome = Outcome(next: int, encryptable: int, errors: nat, userdata: bool, wipedFlag: bool)

  ghost function RunWith(o: Outcome, avbOpen: bool, fatal: bool, log: seq<Event>, wiped: set<nat>, script: seq<nat>)
    : (r: Run)
  {
    Run(o.next + 1, log, wiped, o.wipedFlag, avbOpen, script, fatal, o.encryptable, o.errors, o.userdata)
  }

  // ----- The loop body

  method SetDevice(fstab: Fstab, sys: System, i: nat)
    requires i < |fstab.entries|
    modifies fstab, sys`devices
    ensures SameButDevice(old(fstab.entries), fstab.entries) && |fstab.entries| == |old(fstab.entries)|
    ensures sys.script == old(sys.script)
  {
    var device := sys.DeviceFor(fstab.entries[i].device);
    fstab.entries := fstab.entries[i := fstab.entries[i].(device := device)];
  }

  lemma SameAsIs(es: seq<Entry>)
    ensures SameButDevice(es, es)
  {
  }

  lemma SameTransitive(a: seq<Entry>, b: seq<Entry>, c: seq<Entry>)
    requires SameButDevice(a, b) && SameButDevice(b, c)
    ensures SameButDevice(a, c)
  {
  }

  /** The checks and set-up steps before an entry is mounted. */
  method Prepare(fstab: Fstab, sys: System, i: nat, mode: Mode, avbOpen0: bool) returns (verdict: Verdict,
                 avbOpen: bool)
    requires i < |fstab.entries|
    modifies fstab, sys`script, sys`devices
    ensures SameButDevice(old(fstab.entries), fstab.entries) && |fstab.entries| == |old(fstab.entries)|
    ensures (verdict, avbOpen, sys.script) == PrepareBy(old(fstab.entries)[i], mode, avbOpen0, old(sys.script))
  {
    var e := fstab.entries[i];
    avbOpen, verdict := avbOpen0, Skip;
    SameAsIs(fstab.entries);
    hide SameButDevice;
    if e.firstStage {
      if !e.formattable {
        return;
      }
      var mounted := sys.Ask();
      if mounted {
        return;
      }
    }
    if e.voldManaged || e.recoveryOnly || (mode == Late && !e.lateMount) || (mode == Early && e.lateMount) {
      return;
    }
    if e.fsType == "swap" || e.fsType == "emmc" || e.fsType == "mtd" {
      return;
    }
    if e.mountPoint == "/" || e.mountPoint == "/system" {
      return;
    }
    if mode == OnlyUserdata && e.mountPoint != "/data" {
      return;
    }
    verdict, avbOpen := SetUp(fstab, sys, i, avbOpen0);
  }

  method Ready(sys: System, ext: bool, logical: bool, wait: bool) returns (ready: bool)
    modifies sys`script
    ensures (ready, sys.script) == ReadyBy(ext, logical, wait, old(sys.script))
  {
    if ext {
      var translated := sys.Ask();
      if !translated {
        return false;
      }
    }
    if logical {
      var updated := sys.Ask();
      if !updated {
        return false;
      }
    }
    var checkpointed := sys.Ask();
    if !checkpointed {
      return false;
    }
    if wait {
      var found := sys.Ask();
      if !found {
        return false;
      }
    }
    return true;
  }

  method Verify(sys: System, avb: bool, avbKeys: bool, avbOpen0: bool) returns (verdict: Verdict, avbOpen: bool)
    modifies sys`script
    ensures (verdict, avbOpen, sys.script) == VerifyBy(avb, avbKeys, avbOpen0, old(sys.script))
  {
    avbOpen, verdict := avbOpen0, Skip;
    if avb && !avbOpen {
      avbOpen := sys.Ask();
      if !avbOpen {
        return Abort, false;
      }
    }
    if avb || avbKeys {
      var verified := sys.Ask();
      if !verified {
        return;
      }
    }
    verdict := Go;
  }

  /** Labels, logical partitions, checkpoints, waiting, and verified boot. */
  method SetUp(fstab: Fstab, sys: System, i: nat, avbOpen0: bool) returns (verdict: Verdict, avbOpen: bool)
    requires i < |fstab.entries|
    modifies fstab, sys`script, sys`devices
    ensures SameButDevice(old(fstab.entries), fstab.entries) && |fstab.entries| == |old(fstab.entries)|
    ensures (verdict, avbOpen, sys.script) == SetUpBy(old(fstab.entries)[i], avbOpen0, old(sys.script))
  {
    SameAsIs(fstab.entries);
    hide SameButDevice, ReadyBy, VerifyBy;
    var e := fstab.entries[i];
    avbOpen, verdict := avbOpen0, Skip;
    var ready := Ready(sys, IsExt(e.fsType), e.logical, e.wait);
    if !ready {
      return;
    }
    verdict, avbOpen := Verify(sys, e.avb, e.avbKeys, avbOpen0);
    if verdict == Go {
      SetDevice(fstab, sys, i);
    }
  }

  /** What a mounted entry needs: nothing, or to be unmounted and encrypted. */
  method HandleMounted(sys: System, at: nat, e: Entry, before: Outcome, ghost avbOpen: bool)
    returns (fatal: bool, r: Outcome)
    modifies sys`script, sys`log
    ensures RunWith(r, avbOpen, fatal, sys.log, sys.wiped, sys.script)
            == MountedBy(e, at, RunWith(before, avbOpen, false, old(sys.log), sys.wiped, old(sys.script)))
  {
    fatal, r := false, before;
    if e.MetadataEncrypted() {
      var unmounted := sys.Ask();
      if !unmounted {
        sys.log := sys.log + [Stuck(at)];
        return true, r;
      }
      r := r.(encryptable := NEEDS_METADATA_ENCRYPTION);
      var ok := sys.CallVdc(at, before.wipedFlag);
      if !ok {
        return true, r;
      }
    } else if e.fileEncryption {
      r := r.(encryptable := FILE_ENCRYPTED);
    }
    if e.mountPoint == "/data" {
      r := r.(userdata := true);
    }
  }

  /** Formats a wiped partition and replays, or asks the encryption service, or counts an error. */
  method HandleFailure(sys: System, top: nat, e: Entry, errno: nat, before: Outcome, ghost avbOpen: bool)
    returns (r: Outcome)
    modifies sys
    ensures RunWith(r, avbOpen, false, sys.log, sys.wiped, sys.script)
            == FailedBy(e, top, errno, RunWith(before, avbOpen, false, old(sys.log), old(sys.wiped), old(sys.script)))
  {
    hide WipedBy;
    var wipedFlag := sys.PartitionWiped(top, e.partition);
    r := before.(wipedFlag := wipedFlag);
    if errno != EBUSY && errno != EACCES && e.formattable && wipedFlag {
      r := HandleWiped(sys, top, e, r, avbOpen);
      return;
    }
    if errno != EBUSY && errno != EACCES && e.MetadataEncrypted() {
      var ok := sys.CallVdc(top, false);
      if !ok {
        r := r.(errors := r.errors + 1);
      } else if e.mountPoint == "/data" {
        r := r.(userdata := true);
      }
      r := r.(encryptable := IS_METADATA_ENCRYPTED);
    } else if !e.noFail {
      r := r.(errors := r.errors + 1);
    }
  }

  method HandleWiped(sys: System, top: nat, e: Entry, before: Outcome, ghost avbOpen: bool) returns (r: Outcome)
    modifies sys
    ensures RunWith(r, avbOpen, false, sys.log, sys.wiped, sys.script)
            == WipedBy(e, top, RunWith(before, avbOpen, false, old(sys.log), old(sys.wiped), old(sys.script)))
  {
    r := before;
    if e.MetadataEncrypted() && e.mountPoint == "/data" {
      r := r.(encryptable := IS_METADATA_ENCRYPTED);
      var done := sys.CallVdc(top, true);
      if done {
        r := r.(userdata := true);
        return;
      }
    }
    var ok := sys.DoFormat(top, e.partition);
    if ok {
      r := r.(next := top - 1);
    } else {
      r := r.(encryptable := NEEDS_RECOVERY);
    }
  }

  /** The mount of a group. */
  method MountGroup(fstab: Fstab, sys: System, i: nat, ghost es: seq<Entry>)
    returns (ok: bool, last: nat, attempted: nat, errno: nat)
    requires i < |fstab.entries| && SameButDevice(es, fstab.entries) && |es| == |fstab.entries|
    modifies fstab, sys`script, sys`log
    ensures SameButDevice(es, fstab.entries) && |es| == |fstab.entries|
    ensures var t := TryGroup(i, GroupEnd(es, i, i), old(sys.script));
            && last + 1 == AfterGroup(es, i) && ok == t.ok && sys.script == t.rest
            && attempted < |es| && attempted == (if ok then t.at else i)
            && sys.log == old(sys.log) + TriesLog(i, t) && (!ok ==> errno == ErrnoOf(t.fs))
  {
    hide GroupEnd, Attempts, SameButDevice, DevicesShared, ErrnoOf, TryGroup, Failures;
    ghost var fs, tries;
    ghost var entries, log := fstab.entries, sys.log;
    ok, last, attempted, errno, fs, tries := MountWithAlternatives(fstab, sys, i);
    ghost var more := sys.log[|log|..];
    SameGroup(es, entries, i, i);
    GroupFacts(es, i);
    SharedIsSame(entries, fstab.entries, i, if ok then attempted + 1 else GroupEnd(entries, i, i));
    SameTransitive(es, entries, fstab.entries);
    AttemptsAre(more, i, GroupEnd(es, i, i), fs, tries, ok, attempted);
    assert log + more == sys.log;
  }

  lemma AttemptsAre(log: seq<Event>, start: nat, stop: nat, fs: seq<Failure>, before: nat, ok: bool, attempted: nat)
    requires Attempts(log, start, stop, fs, before, ok, attempted) && start < stop
    ensures log == Failures(start, fs) + if ok then Success(attempted, before) else []
    ensures start <= attempted < stop && (!ok ==> attempted == start)
  {
  }

  /** The mount of a group and what follows from it. */
  method MountReady(fstab: Fstab, sys: System, i: nat, before: Outcome, ghost es: seq<Entry>, ghost avbOpen: bool)
    returns (fatal: bool, r: Outcome)
    requires i < |fstab.entries| && SameButDevice(es, fstab.entries) && |es| == |fstab.entries| && before.next == i - 1
    modifies fstab, sys
    ensures SameButDevice(es, fstab.entries) && |es| == |fstab.entries|
    ensures RunWith(r, avbOpen, fatal, sys.log, sys.wiped, sys.script)
            == GroupBy(es, RunWith(before, avbOpen, false, old(sys.log), old(sys.wiped), old(sys.script)))
  {
    hide SameButDevice, TryGroup, MountedBy, FailedBy, AfterGroup, GroupEnd, TriesLog, ErrnoOf;
    var ok, last, attempted, errno := MountGroup(fstab, sys, i, es);
    r := before.(next := last);
    var e := fstab.entries[attempted];
    if ok {
      SameHandled(es, fstab.entries, attempted, RunWith(r, avbOpen, false, sys.log, sys.wiped, sys.script), errno);
      fatal, r := HandleMounted(sys, attempted, e, r, avbOpen);
    } else {
      SameHandled(es, fstab.entries, i, RunWith(r, avbOpen, false, sys.log, sys.wiped, sys.script), errno);
      r := HandleFailure(sys, i, e, errno, r, avbOpen);
      fatal := false;
    }
  }

  lemma SameHandled(es: seq<Entry>, entries: seq<Entry>, at: nat, r: Run, errno: nat)
    requires SameButDevice(es, entries) && at < |es|
    ensures MountedBy(entries[at], at, r) == MountedBy(es[at], at, r)
    ensures FailedBy(entries[at], at, errno, r) == FailedBy(es[at], at, errno, r)
  {
  }

  /** One turn of the loop: entry `i`, and with it the rest of its group. */
  method MountNext(fstab: Fstab, sys: System, i: nat, mode: Mode, avbOpen0: bool, before: Outcome, ghost es: seq<Entry>)
    returns (fatal: bool, r: Outcome, avbOpen: bool)
    requires i < |fstab.entries| && SameButDevice(es, fstab.entries) && |es| == |fstab.entries| && before.next == i - 1
    modifies fstab, sys
    ensures SameButDevice(es, fstab.entries) && |es| == |fstab.entries|
    ensures RunWith(r, avbOpen, fatal, sys.log, sys.wiped, sys.script)
            == TurnBy(es, mode, RunWith(before, avbOpen0, false, old(sys.log), old(sys.wiped), old(sys.script)))
  {
    hide SameButDevice, PrepareBy, GroupBy, TurnBy;
    r, fatal := before.(next := i), false;
    var verdict;
    ghost var entries := fstab.entries;
    SamePrepared(es, entries, i, mode, avbOpen0, sys.script);
    TurnIs(es, mode, RunWith(before, avbOpen0, false, sys.log, sys.wiped, sys.script));
    verdict, avbOpen := Prepare(fstab, sys, i, mode, avbOpen0);
    SameTransitive(es, entries, fstab.entries);
    if verdict != Go {
      fatal := verdict == Abort;
      if fatal {
        sys.log := sys.log + [NoHandle(i)];
      }
      return;
    }
    fatal, r := MountReady(fstab, sys, i, before, es, avbOpen);
  }

  lemma SamePrepared(es: seq<Entry>, entries: seq<Entry>, i: nat, mode: Mode, avbOpen: bool, script: seq<nat>)
    requires SameButDevice(es, entries) && i < |es|
    ensures PrepareBy(entries[i], mode, avbOpen, script) == PrepareBy(es[i], mode, avbOpen, script)
  {
    DeviceUnused(es[i], entries[i].device, mode, avbOpen, script);
  }

  lemma DeviceUnused(e: Entry, device: string, mode: Mode, avbOpen: bool, script: seq<nat>)
    ensures PrepareBy(e.(device := device), mode, avbOpen, script) == PrepareBy(e, mode, avbOpen, script)
  {
    hide ReadyBy, VerifyBy, IsExt, Eligible;
    assert Eligible(e.(device := device), mode) == Eligible(e, mode) by { DeviceIneligible(e, device, mode); }
  }

  lemma DeviceIneligible(e: Entry, device: string, mode: Mode)
    ensures Eligible(e.(device := device), mode) == Eligible(e, mode)
  {
  }

  /**
   Mounts the entries of an fstab. The loop ends for every fstab and every behaviour of the
   system, because a replay needs a partition that was wiped and no longer is.
   */
  method MountAll(fstab: Fstab, sys: System, mode: Mode) returns (code: int, userdata: bool)
    requires sys.log == []
    modifies fstab, sys
    ensures SameButDevice(old(fstab.entries), fstab.entries)
    ensures var r := RunOf(old(fstab.entries), old(sys.wiped), mode, old(sys.script));
            && sys.log == r.log && sys.wiped == r.wiped && userdata == r.userdata
            && code == if old(fstab.entries) == [] || r.fatal || r.errors > 0 then FAIL else r.encryptable
    ensures FormatsAllowed(old(fstab.entries), old(sys.wiped), mode, sys.log)
    ensures sys.wiped == WipedAfter(old(fstab.entries), old(sys.wiped), sys.log) && VdcFormatsLater(sys.log)
    ensures MetOnce(old(fstab.entries), mode) ==> AtMostOnce(old(fstab.entries), sys.log)
    ensures AllReact(old(fstab.entries), sys.log)
    ensures code == Reported(old(fstab.entries), sys.log) && (code == FAIL || StatusCode(code))
    ensures userdata ==> DataSeen(old(fstab.entries), sys.log)
    ensures code != FAIL ==> (userdata <==> DataSeen(old(fstab.entries), sys.log))
  {
    hide SameButDevice, TurnBy, RunBy, FormatsAllowed, VdcFormatsLater, WipedAfter, MetOnce, AtMostOnce, DataSeen,
         Reported, AllReact;
    ghost var es, wiped, script := fstab.entries, sys.wiped, sys.script;
    EveryRun(es, wiped, mode, script);
    StatusFromLog(es, wiped, mode, script);
    EveryReaction(es, wiped, mode, script);
    SameAsIs(es);
    var s := Outcome(-1, NOT_ENCRYPTABLE, 0, false, false);
    var i, avbOpen := 0, false;
    if |fstab.entries| == 0 {
      RunEnd(es, mode, Start(wiped, script));
      return FAIL, false;
    }
    while i < |fstab.entries|
      invariant 0 <= i == s.next + 1 && SameButDevice(es, fstab.entries) && |fstab.entries| == |es|
      invariant RunOf(es, wiped, mode, script)
                == RunBy(es, mode, RunWith(s, avbOpen, false, sys.log, sys.wiped, sys.script))
      decreases sys.wiped, |fstab.entries| - i
    {
      var fatal;
      ghost var r := RunWith(s, avbOpen, false, sys.log, sys.wiped, sys.script);
      RunStep(es, mode, r);
      TurnAdvances(es, mode, r);
      fatal, s, avbOpen := MountNext(fstab, sys, i, mode, avbOpen, s, es);
      if fatal {
        RunEnd(es, mode, RunWith(s, avbOpen, true, sys.log, sys.wiped, sys.script));
        return FAIL, s.userdata;
      }
      i := s.next + 1;
    }
    RunEnd(es, mode, RunWith(s, avbOpen, false, sys.log, sys.wiped, sys.script));
    return if s.errors > 0 then FAIL else s.encryptable, s.userdata;
  }

  lemma SharedIsSame(es: seq<Entry>, after: seq<Entry>, start: nat, tried: nat)
    requires DevicesShared(es, after, start, tried)
    ensures SameButDevice(es, after) && |es| == |after|
  {
    forall j | 0 <= j < |es|
      ensures after[j] == es[j].(device := after[j].device)
    {
      SharingIsSame(es[start], es[j]);
    }
  }

  lemma SharingIsSame(first: Entry, e: Entry)
    ensures Sharing(first, e) == e.(device := Sharing(first, e).device)
    ensures e == e.(device := e.device)
  {
  }

  lemma {:induction false} SameGroup(es: seq<Entry>, entries: seq<Entry>, start: nat, j: nat)
    requires SameButDevice(es, entries) && start < |es| && start <= j <= |es|
    ensures GroupEnd(es, start, j) == GroupEnd(entries, start, j)
    decreases |es| - j
  {
    assert entries[start].mountPoint == es[start].mountPoint;
    if j < |es| {
      assert entries[j].mountPoint == es[j].mountPoint;
      if es[j].mountPoint == es[start].mountPoint {
        SameGroup(es, entries, start, j + 1);
      }
    }
  }
}
