/** What holds of every run over an fstab, whatever the system answers. */
module MountLaws {
  import opened Bytes
  import opened MountAlternatives
  import opened MountRun

  // ----- What a run may do

  predicate MountedAt(es: seq<Entry>, e: Event, m: string) {
    e.Tried? && e.errno == 0 && e.idx < |es| && es[e.idx].mountPoint == m
  }

  function MountCount(es: seq<Entry>, log: seq<Event>, m: string): (n: nat) {
    if log == [] then 0
    else MountCount(es, log[..|log| - 1], m) + if MountedAt(es, log[|log| - 1], m) then 1 else 0
  }

  /** The wiped partitions after the formats of a log. */
  function WipedAfter(es: seq<Entry>, wiped: set<nat>, log: seq<Event>): (r: set<nat>) {
    if log == [] then wiped
    else
      var n := |log| - 1;
      var w := WipedAfter(es, wiped, log[..n]);
      if log[n].Format? && log[n].ok && log[n].idx < |es| then w - {es[log[n].idx].partition} else w
  }

  predicate FormatAllowed(es: seq<Entry>, wiped: set<nat>, mode: Mode, log: seq<Event>, idx: nat) {
    idx < |es| && es[idx].formattable && Eligible(es[idx], mode) && es[idx].partition in WipedAfter(es, wiped, log)
  }

  /** Only formattable entries whose partition is wiped at that moment are formatted. */
  predicate FormatsAllowed(es: seq<Entry>, wiped: set<nat>, mode: Mode, log: seq<Event>) {
    log == [] ||
    var n := |log| - 1;
    && FormatsAllowed(es, wiped, mode, log[..n])
    && (log[n].Format? ==> FormatAllowed(es, wiped, mode, log[..n], log[n].idx))
  }

  /** The answer of the last check for a wiped partition. */
  predicate FoundWiped(log: seq<Event>) {
    log != [] &&
    var n := |log| - 1;
    if log[n].Checked? then log[n].wiped else FoundWiped(log[..n])
  }

  /** The encryption service is called for an entry that has just been mounted. */
  predicate MountedVdc(log: seq<Event>, k: nat) {
    0 < k < |log| && log[k].Vdc? && log[k - 1] == Tried(log[k].idx, 0)
  }

  /**
   The encryption service is told to format only when the last check found a wiped
   partition, and for a mounted entry exactly then.
   */
  predicate VdcFormatsLater(log: seq<Event>) {
    forall k :: 0 <= k < |log| && log[k].Vdc? ==>
                  && (log[k].format ==> FoundWiped(log[..k]))
                  && (MountedVdc(log, k) ==> (log[k].format <==> FoundWiped(log[..k])))
  }

  /** No entry that takes part and is still to come is for a mount point that was mounted. */
  predicate NoneFrom(es: seq<Entry>, mode: Mode, log: seq<Event>, i: int) {
    forall k, j :: 0 <= k < |log| && 0 <= j < |es| && i <= j && Eligible(es[j], mode) ==>
                     !MountedAt(es, log[k], es[j].mountPoint)
  }

  ghost predicate AtMostOnce(es: seq<Entry>, log: seq<Event>) {
    forall m :: MountCount(es, log, m) <= 1
  }

  /** Entries for the same mount point follow each other. */
  predicate Grouped(es: seq<Entry>) {
    forall i, j, k :: 0 <= i <= j <= k < |es| && es[i].mountPoint == es[k].mountPoint ==>
                        es[j].mountPoint == es[i].mountPoint
  }

  /** Among the entries that take part, no mount point comes again after its group. */
  predicate MetOnce(es: seq<Entry>, mode: Mode) {
    forall s, t :: 0 <= s < |es| && GroupEnd(es, s, s) <= t < |es| && Eligible(es[s], mode) && Eligible(es[t], mode) ==>
                     es[t].mountPoint != es[s].mountPoint
  }

  ghost predicate Sound(es: seq<Entry>, wiped: set<nat>, mode: Mode, log: seq<Event>, now: set<nat>, i: int) {
    && now == WipedAfter(es, wiped, log)
    && FormatsAllowed(es, wiped, mode, log)
    && VdcFormatsLater(log)
    && (MetOnce(es, mode) ==> NoneFrom(es, mode, log, i) && AtMostOnce(es, log))
  }

  /** `/data` was mounted, by the mount call or by the encryption service. */
  predicate DataEvent(es: seq<Entry>, e: Event) {
    && e.idx < |es| && es[e.idx].mountPoint == "/data"
    && ((e.Tried? && e.errno == 0) || (e.Vdc? && e.ok))
  }

  predicate DataSeen(es: seq<Entry>, log: seq<Event>) {
    exists k :: 0 <= k < |log| && DataEvent(es, log[k])
  }

  // ----- Laws

  lemma DataSeenSnoc(es: seq<Entry>, log: seq<Event>, e: Event)
    ensures DataSeen(es, log + [e]) <==> DataSeen(es, log) || DataEvent(es, e)
  {
    hide DataEvent;
    DataSeenAppend(es, log, [e]);
    assert [e][0] == e;
  }

  /** A group that is tried mounts `/data` if it mounts and is the group of `/data`. */
  lemma DataSeenAttempts(es: seq<Entry>, log: seq<Event>, more: seq<Event>, start: nat, fs: seq<Failure>, before: nat,
                         ok: bool, attempted: nat)
    requires start < |es| && Attempts(more, start, GroupEnd(es, start, start), fs, before, ok, attempted)
    ensures DataSeen(es, log + more) <==> DataSeen(es, log) || (ok && es[start].mountPoint == "/data")
  {
    hide Attempts, GroupEnd, MountCount, DataSeen;
    AttemptsCount(es, more, start, GroupEnd(es, start, start), fs, before, ok, attempted, "/data");
    CountZero(es, more, "/data");
    OnlyTried(es, more);
    DataSeenAppend(es, log, more);
  }

  lemma OnlyTried(es: seq<Entry>, log: seq<Event>)
    requires forall k :: 0 <= k < |log| ==> log[k].BadMagic? || log[k].Tried?
    ensures DataSeen(es, log) <==> exists k :: 0 <= k < |log| && MountedAt(es, log[k], "/data")
  {
    assert forall k :: 0 <= k < |log| ==> (DataEvent(es, log[k]) <==> MountedAt(es, log[k], "/data"));
  }

  lemma DataSeenAppend(es: seq<Entry>, a: seq<Event>, b: seq<Event>)
    ensures DataSeen(es, a + b) <==> DataSeen(es, a) || DataSeen(es, b)
  {
    hide DataEvent;
    var c := a + b;
    assert forall k :: 0 <= k < |a| ==> c[k] == a[k];
    assert forall k :: 0 <= k < |b| ==> c[|a| + k] == b[k];
    assert forall k :: |a| <= k < |c| ==> c[k] == b[k - |a|];
  }

  lemma CountZero(es: seq<Entry>, log: seq<Event>, m: string)
    ensures MountCount(es, log, m) > 0 <==> exists k :: 0 <= k < |log| && MountedAt(es, log[k], m)
  {
    hide MountedAt;
    if k :| 0 <= k < |log| && MountedAt(es, log[k], m) {
      CountSome(es, log, k, m);
    } else {
      CountNone(es, log, m);
    }
  }

  lemma {:induction false} LogGrows(es: seq<Entry>, wiped: set<nat>, mode: Mode, a: seq<Event>, b: seq<Event>,
                                    m: string)
    ensures MountCount(es, a + b, m) == MountCount(es, a, m) + MountCount(es, b, m)
    ensures (forall k :: 0 <= k < |b| ==> !b[k].Format?) ==>
              && WipedAfter(es, wiped, a + b) == WipedAfter(es, wiped, a)
              && (FormatsAllowed(es, wiped, mode, a) ==> FormatsAllowed(es, wiped, mode, a + b))
  {
    if b == [] {
      assert a + b == a;
    } else {
      var n := |b| - 1;
      assert (a + b)[..|a + b| - 1] == a + b[..n];
      LogGrows(es, wiped, mode, a, b[..n], m);
    }
  }

  lemma VdcGrows(a: seq<Event>, b: seq<Event>)
    requires VdcFormatsLater(a)
    requires forall k :: 0 <= k < |b| && b[k].Vdc? ==>
                           && k == 0 && (b[k].format ==> FoundWiped(a))
                           && (a != [] && a[|a| - 1] == Tried(b[k].idx, 0) ==> (b[k].format <==> FoundWiped(a)))
    ensures VdcFormatsLater(a + b)
  {
    hide FoundWiped;
    var c := a + b;
    forall k | 0 <= k < |c| && c[k].Vdc?
      ensures c[k].format ==> FoundWiped(c[..k])
      ensures MountedVdc(c, k) ==> (c[k].format <==> FoundWiped(c[..k]))
    {
      if k < |a| {
        assert c[..k] == a[..k];
      } else {
        assert c[k] == b[k - |a|];
        assert c[..k] == a;
      }
    }
  }

  lemma FoundSnoc(log: seq<Event>, e: Event)
    ensures FoundWiped(log + [e]) == if e.Checked? then e.wiped else FoundWiped(log)
  {
    assert (log + [e])[..|log|] == log;
  }

  lemma {:induction false} FoundAppend(a: seq<Event>, b: seq<Event>)
    requires forall k :: 0 <= k < |b| ==> !b[k].Checked?
    ensures FoundWiped(a + b) == FoundWiped(a)
  {
    if b == [] {
      assert a + b == a;
    } else {
      var n := |b| - 1;
      FoundAppend(a, b[..n]);
      FoundSnoc(a + b[..n], b[n]);
      assert a + b == a + b[..n] + [b[n]];
    }
  }

  lemma {:induction false} CountNone(es: seq<Entry>, log: seq<Event>, m: string)
    requires forall k :: 0 <= k < |log| ==> !MountedAt(es, log[k], m)
    ensures MountCount(es, log, m) == 0
  {
    if log != [] {
      CountNone(es, log[..|log| - 1], m);
    }
  }

  /** A group that is tried mounts its mount point once if it mounts at all, and no other. */
  lemma AttemptsCount(es: seq<Entry>, log: seq<Event>, start: nat, stop: nat, fs: seq<Failure>, before: nat, ok: bool,
                      attempted: nat, m: string)
    requires start < |es| && stop == GroupEnd(es, start, start) && Attempts(log, start, stop, fs, before, ok, attempted)
    ensures MountCount(es, log, m) == if ok && m == es[start].mountPoint then 1 else 0
    ensures forall k :: 0 <= k < |log| ==> (log[k].BadMagic? || log[k].Tried?)
    ensures forall k :: 0 <= k < |log| && MountedAt(es, log[k], m) ==> m == es[start].mountPoint
  {
    assert ok ==> es[attempted].mountPoint == es[start].mountPoint;
    hide Failures, GroupEnd, Success, MountCount;
    var f := Failures(start, fs);
    FailuresMountNothing(start, fs);
    CountNone(es, f, m);
    if ok {
      var s := Success(attempted, before);
      LogGrows(es, {}, Default, f, s, m);
      SuccessCount(es, attempted, before, m);
      assert forall k :: 0 <= k < |log| ==> log[k] == if k < |f| then f[k] else s[k - |f|];
    }
  }

  lemma SuccessCount(es: seq<Entry>, attempted: nat, before: nat, m: string)
    requires attempted < |es|
    ensures var s := Success(attempted, before);
            && MountCount(es, s, m) == (if m == es[attempted].mountPoint then 1 else 0)
            && forall k :: 0 <= k < |s| ==> s[k].Tried? && s[k].idx == attempted
  {
    var s := Success(attempted, before);
    var last := Tried(attempted, 0);
    assert s[|s| - 1] == last;
    if before == 0 {
      assert s[..0] == [];
    } else {
      assert s[..1] == [Tried(attempted, before)] && s[..1][..0] == [];
      assert !MountedAt(es, s[..1][0], m);
      assert MountCount(es, s[..1], m) == 0;
    }
  }

  /** After a group nothing of its mount point follows. */
  lemma GroupPassed(es: seq<Entry>, mode: Mode, start: nat, j: nat)
    requires MetOnce(es, mode) && start < |es| && GroupEnd(es, start, start) <= j < |es|
    requires Eligible(es[start], mode) && Eligible(es[j], mode)
    ensures es[j].mountPoint != es[start].mountPoint
  {
  }

  lemma SoundAttempts(es: seq<Entry>, wiped: set<nat>, mode: Mode, log: seq<Event>, now: set<nat>, more: seq<Event>,
                      start: nat, fs: seq<Failure>, before: nat, ok: bool, attempted: nat)
    requires Sound(es, wiped, mode, log, now, start) && start < |es| && Eligible(es[start], mode)
    requires Attempts(more, start, GroupEnd(es, start, start), fs, before, ok, attempted)
    ensures Sound(es, wiped, mode, log + more, now, GroupEnd(es, start, start))
    ensures !ok ==> Sound(es, wiped, mode, log + more, now, start)
  {
    var g := GroupEnd(es, start, start);
    AttemptsCount(es, more, start, g, fs, before, ok, attempted, "");
    LogGrows(es, wiped, mode, log, more, "");
    VdcGrows(log, more);
    hide Attempts, FormatsAllowed, WipedAfter, VdcFormatsLater, GroupEnd, MountCount, Eligible, MetOnce;
    if MetOnce(es, mode) {
      OnceMore(es, mode, log, more, start, fs, before, ok, attempted);
      NoneFromGroup(es, mode, log, more, start, fs, before, ok, attempted);
    }
  }

  lemma OnceMore(es: seq<Entry>, mode: Mode, log: seq<Event>, more: seq<Event>, start: nat, fs: seq<Failure>,
                 before: nat, ok: bool,
                 attempted: nat)
    requires start < |es| && Attempts(more, start, GroupEnd(es, start, start), fs, before, ok, attempted)
    requires NoneFrom(es, mode, log, start) && AtMostOnce(es, log) && Eligible(es[start], mode)
    ensures AtMostOnce(es, log + more)
  {
    hide Attempts, GroupEnd, MountCount, MountedAt, Eligible;
    forall m
      ensures MountCount(es, log + more, m) <= 1
    {
      AttemptsCount(es, more, start, GroupEnd(es, start, start), fs, before, ok, attempted, m);
      LogGrows(es, {}, Default, log, more, m);
      if m == es[start].mountPoint {
        CountNone(es, log, m);
      }
    }
  }

  lemma NoneFromGroup(es: seq<Entry>, mode: Mode, log: seq<Event>, more: seq<Event>, start: nat, fs: seq<Failure>,
                      before: nat,
                      ok: bool, attempted: nat)
    requires start < |es| && Attempts(more, start, GroupEnd(es, start, start), fs, before, ok, attempted)
    requires MetOnce(es, mode) && NoneFrom(es, mode, log, start) && Eligible(es[start], mode)
    ensures NoneFrom(es, mode, log + more, GroupEnd(es, start, start))
    ensures !ok ==> NoneFrom(es, mode, log + more, start)
  {
    hide Attempts, MountCount, MountedAt, MetOnce, Eligible;
    var g := GroupEnd(es, start, start);
    var c := log + more;
    forall k, j | 0 <= k < |c| && 0 <= j < |es| && (if ok then g else start) <= j && Eligible(es[j], mode)
      ensures !MountedAt(es, c[k], es[j].mountPoint)
    {
      if k < |log| {
        assert c[k] == log[k];
      } else {
        assert c[k] == more[k - |log|];
        AttemptsCount(es, more, start, g, fs, before, ok, attempted, es[j].mountPoint);
        if ok {
          GroupPassed(es, mode, start, j);
        } else if MountedAt(es, more[k - |log|], es[j].mountPoint) {
          CountSome(es, more, k - |log|, es[j].mountPoint);
        }
      }
    }
  }

  lemma {:induction false} CountSome(es: seq<Entry>, log: seq<Event>, k: nat, m: string)
    requires k < |log| && MountedAt(es, log[k], m)
    ensures MountCount(es, log, m) >= 1
  {
    if k < |log| - 1 {
      CountSome(es, log[..|log| - 1], k, m);
    }
  }

  /** Any other event leaves the mounts as they are. */
  lemma SoundEvent(es: seq<Entry>, wiped: set<nat>, mode: Mode, log: seq<Event>, now: set<nat>, i: int, e: Event)
    requires Sound(es, wiped, mode, log, now, i) && !e.Tried?
    requires e.Format? ==> FormatAllowed(es, wiped, mode, log, e.idx)
    requires e.Vdc? && e.format ==> FoundWiped(log)
    requires e.Vdc? && log != [] && log[|log| - 1] == Tried(e.idx, 0) ==> (e.format <==> FoundWiped(log))
    ensures Sound(es, wiped, mode, log + [e], if e.Format? && e.ok then now - {es[e.idx].partition} else now, i)
  {
    hide VdcFormatsLater, FoundWiped, Eligible, MetOnce;
    VdcGrows(log, [e]);
    assert (log + [e])[..|log|] == log;
    if MetOnce(es, mode) {
      forall m
        ensures MountCount(es, log + [e], m) <= 1
      {
        assert !MountedAt(es, e, m);
      }
    }
  }

  lemma SoundLater(es: seq<Entry>, wiped: set<nat>, mode: Mode, log: seq<Event>, now: set<nat>, i: int, j: int)
    requires Sound(es, wiped, mode, log, now, i) && i <= j
    ensures Sound(es, wiped, mode, log, now, j)
  {
    hide WipedAfter, FormatsAllowed, VdcFormatsLater, MountCount, MountedAt, MetOnce, Eligible;
  }

  // ----- Every turn keeps the laws

  /** What is known of a run so far. */
  ghost predicate Lawful(es: seq<Entry>, wiped: set<nat>, mode: Mode, r: Run) {
    && Sound(es, wiped, mode, r.log, r.wiped, r.i) && r.flag == FoundWiped(r.log)
    && (r.userdata ==> DataSeen(es, r.log))
    && (!r.fatal ==> r.userdata == DataSeen(es, r.log) && StatusCode(r.encryptable))
  }

  lemma {:induction false} TriesAreReal(i: nat, stop: nat, script: seq<nat>)
    ensures RealFailures(TryGroup(i, stop, script).fs)
    decreases stop - i
  {
    if i < stop && TryOne(script).0.Failed? {
      TriesAreReal(i + 1, stop, TryOne(script).1);
    }
  }

  lemma TriesAreAttempts(i: nat, stop: nat, script: seq<nat>)
    requires i < stop
    ensures var t := TryGroup(i, stop, script);
            Attempts(TriesLog(i, t), i, stop, t.fs, t.before, t.ok, if t.ok then t.at else i)
  {
    hide TryOne, Failures, Success;
    TriesAreReal(i, stop, script);
    var t := TryGroup(i, stop, script);
    assert Failures(i, t.fs) + [] == Failures(i, t.fs);
  }

  /** After a group that did not mount, the run is where it was but for the log. */
  lemma TriedLawful(es: seq<Entry>, wiped: set<nat>, mode: Mode, r: Run)
    requires 0 <= r.i < |es| && !r.fatal && Lawful(es, wiped, mode, r) && Eligible(es[r.i], mode)
    ensures var t := TryGroup(r.i, GroupEnd(es, r.i, r.i), r.script);
            var log := r.log + TriesLog(r.i, t);
            && Sound(es, wiped, mode, log, r.wiped, if t.ok then GroupEnd(es, r.i, r.i) else r.i)
            && FoundWiped(log) == FoundWiped(r.log)
            && (DataSeen(es, log) <==> DataSeen(es, r.log) || (t.ok && es[r.i].mountPoint == "/data"))
            && (t.ok ==>
                  && t.at < |es| && es[t.at].mountPoint == es[r.i].mountPoint
                  && log != [] && log[|log| - 1] == Tried(t.at, 0))
            && (!t.ok ==> log != [] && !(log[|log| - 1].Tried? && log[|log| - 1].errno == 0))
  {
    hide Sound, GroupEnd, Attempts, FoundWiped, DataSeen, TryGroup, TriesLog, Eligible;
    var i := r.i;
    var g := GroupEnd(es, i, i);
    GroupFacts(es, i);
    TriesAreAttempts(i, g, r.script);
    var t := TryGroup(i, g, r.script);
    var more := TriesLog(i, t);
    var at := if t.ok then t.at else i;
    SoundAttempts(es, wiped, mode, r.log, r.wiped, more, i, t.fs, t.before, t.ok, at);
    DataSeenAttempts(es, r.log, more, i, t.fs, t.before, t.ok, at);
    NoChecks(es, more, i, t.fs, t.before, t.ok, at);
    FoundAppend(r.log, more);
    LastTried(more, i, g, t.fs, t.before, t.ok, at);
    TriedInside(i, g, r.script);
    if t.ok {
      InGroupOf(es, i, t.at);
    }
  }

  lemma TriedInside(i: nat, stop: nat, script: seq<nat>)
    ensures var t := TryGroup(i, stop, script); t.ok ==> i <= t.at < stop
  {
  }

  lemma LastTried(log: seq<Event>, start: nat, stop: nat, fs: seq<Failure>, before: nat, ok: bool, attempted: nat)
    requires Attempts(log, start, stop, fs, before, ok, attempted) && start < stop
    ensures log != [] && if ok then log[|log| - 1] == Tried(attempted, 0)
                         else !(log[|log| - 1].Tried? && log[|log| - 1].errno == 0)
  {
    FailuresMountNothing(start, fs);
  }

  lemma MountedLawful(es: seq<Entry>, wiped: set<nat>, mode: Mode, r: Run, at: nat)
    requires Sound(es, wiped, mode, r.log, r.wiped, r.i) && r.flag == FoundWiped(r.log) && StatusCode(r.encryptable)
    requires at < |es| && !r.fatal && (r.userdata ==> DataSeen(es, r.log))
    requires DataSeen(es, r.log) <==> r.userdata || es[at].mountPoint == "/data"
    ensures Lawful(es, wiped, mode, MountedBy(es[at], at, r))
  {
    hide Sound, FoundWiped, DataSeen;
    var e := es[at];
    if e.MetadataEncrypted() && Next(r.script) != 0 {
      var v := Vdc(at, r.flag, Next(Later(r.script)) != 0);
      SoundEvent(es, wiped, mode, r.log, r.wiped, r.i, v);
      FoundSnoc(r.log, v);
      DataSeenSnoc(es, r.log, v);
    } else if e.MetadataEncrypted() {
      StopLawful(es, wiped, mode, r.log, r.wiped, r.i, Stuck(at));
    }
  }

  /** An event that ends the run changes nothing of what is known. */
  lemma StopLawful(es: seq<Entry>, wiped: set<nat>, mode: Mode, log: seq<Event>, now: set<nat>, i: int, e: Event)
    requires Sound(es, wiped, mode, log, now, i) && (e.Stuck? || e.NoHandle?)
    ensures Sound(es, wiped, mode, log + [e], now, i) && FoundWiped(log + [e]) == FoundWiped(log)
    ensures DataSeen(es, log + [e]) <==> DataSeen(es, log)
  {
    SoundEvent(es, wiped, mode, log, now, i, e);
    FoundSnoc(log, e);
    DataSeenSnoc(es, log, e);
  }

  lemma FormatLawful(es: seq<Entry>, wiped: set<nat>, mode: Mode, r: Run, top: nat)
    requires Sound(es, wiped, mode, r.log, r.wiped, top) && r.flag == FoundWiped(r.log) && StatusCode(r.encryptable)
    requires top < |es| && top < r.i && !r.fatal && r.userdata == DataSeen(es, r.log)
    requires es[top].formattable && es[top].partition in r.wiped && Eligible(es[top], mode)
    ensures Lawful(es, wiped, mode, FormatBy(es[top], top, r))
  {
    SoundWiped(es, wiped, mode, r.log, r.wiped, top);
    hide Sound, FoundWiped, DataSeen, Eligible, WipedAfter;
    var ok := Next(r.script) != 0;
    var f := Format(top, ok);
    SoundEvent(es, wiped, mode, r.log, r.wiped, top, f);
    FoundSnoc(r.log, f);
    DataSeenSnoc(es, r.log, f);
    if !ok {
      SoundLater(es, wiped, mode, r.log + [f], r.wiped, top, r.i);
    }
  }

  lemma WipedLawful(es: seq<Entry>, wiped: set<nat>, mode: Mode, r: Run, top: nat)
    requires Sound(es, wiped, mode, r.log, r.wiped, top) && r.flag && FoundWiped(r.log) && StatusCode(r.encryptable)
    requires top < |es| && top < r.i && !r.fatal && r.userdata == DataSeen(es, r.log)
    requires es[top].formattable && es[top].partition in r.wiped && Eligible(es[top], mode)
    ensures Lawful(es, wiped, mode, WipedBy(es[top], top, r))
  {
    hide Sound, FoundWiped, DataSeen, Eligible, FormatBy;
    var e := es[top];
    if e.MetadataEncrypted() && e.mountPoint == "/data" {
      var ok := Next(r.script) != 0;
      var v := Vdc(top, true, ok);
      var q := r.(log := r.log + [v], script := Later(r.script), encryptable := IS_METADATA_ENCRYPTED);
      SoundEvent(es, wiped, mode, r.log, r.wiped, top, v);
      FoundSnoc(r.log, v);
      DataSeenSnoc(es, r.log, v);
      if ok {
        SoundLater(es, wiped, mode, q.log, r.wiped, top, r.i);
      } else {
        FormatLawful(es, wiped, mode, q, top);
      }
    } else {
      FormatLawful(es, wiped, mode, r, top);
    }
  }

  lemma FailedLawful(es: seq<Entry>, wiped: set<nat>, mode: Mode, r: Run, top: nat, errno: nat)
    requires Sound(es, wiped, mode, r.log, r.wiped, top) && StatusCode(r.encryptable)
    requires top < |es| && top < r.i && !r.fatal && r.userdata == DataSeen(es, r.log) && Eligible(es[top], mode)
    ensures Lawful(es, wiped, mode, FailedBy(es[top], top, errno, r))
  {
    hide Sound, FoundWiped, DataSeen, Eligible, WipedBy;
    var e := es[top];
    var c := Checked(top, e.partition in r.wiped);
    SoundEvent(es, wiped, mode, r.log, r.wiped, top, c);
    FoundSnoc(r.log, c);
    DataSeenSnoc(es, r.log, c);
    var q := r.(log := r.log + [c], flag := c.wiped);
    if errno != EBUSY && errno != EACCES && e.formattable && c.wiped {
      WipedLawful(es, wiped, mode, q, top);
    } else if errno != EBUSY && errno != EACCES && e.MetadataEncrypted() {
      var v := Vdc(top, false, Next(r.script) != 0);
      SoundEvent(es, wiped, mode, q.log, r.wiped, top, v);
      FoundSnoc(q.log, v);
      DataSeenSnoc(es, q.log, v);
      SoundLater(es, wiped, mode, q.log + [v], r.wiped, top, r.i);
    } else {
      SoundLater(es, wiped, mode, q.log, r.wiped, top, r.i);
    }
  }

  lemma GroupLawful(es: seq<Entry>, wiped: set<nat>, mode: Mode, r: Run)
    requires 0 <= r.i < |es| && !r.fatal && Lawful(es, wiped, mode, r) && Eligible(es[r.i], mode)
    ensures Lawful(es, wiped, mode, GroupBy(es, r))
  {
    TriedLawful(es, wiped, mode, r);
    hide Sound, FoundWiped, DataSeen, Eligible, TryGroup, TriesLog, MountedBy, FailedBy, ErrnoOf;
    var t := TryGroup(r.i, GroupEnd(es, r.i, r.i), r.script);
    var q := r.(i := AfterGroup(es, r.i), log := r.log + TriesLog(r.i, t), script := t.rest);
    if t.ok {
      SoundLater(es, wiped, mode, q.log, q.wiped, GroupEnd(es, r.i, r.i), q.i);
      MountedLawful(es, wiped, mode, q, t.at);
    } else {
      FailedLawful(es, wiped, mode, q, r.i, ErrnoOf(t.fs));
    }
  }

  lemma PreparedEligible(e: Entry, mode: Mode, avbOpen: bool, script: seq<nat>)
    ensures PrepareBy(e, mode, avbOpen, script).0 != Skip ==> Eligible(e, mode)
  {
    hide SetUpBy;
  }

  lemma TurnLawful(es: seq<Entry>, wiped: set<nat>, mode: Mode, r: Run)
    requires 0 <= r.i < |es| && !r.fatal && Lawful(es, wiped, mode, r)
    ensures Lawful(es, wiped, mode, TurnBy(es, mode, r))
  {
    hide Sound, FoundWiped, DataSeen, Eligible, PrepareBy, GroupBy;
    var p := PrepareBy(es[r.i], mode, r.avbOpen, r.script);
    PreparedEligible(es[r.i], mode, r.avbOpen, r.script);
    if p.0 == Go {
      GroupLawful(es, wiped, mode, r.(avbOpen := p.1, script := p.2));
    } else {
      SoundLater(es, wiped, mode, r.log, r.wiped, r.i, r.i + 1);
      StopLawful(es, wiped, mode, r.log, r.wiped, r.i + 1, NoHandle(r.i));
    }
  }

  lemma {:induction false} RunLawful(es: seq<Entry>, wiped: set<nat>, mode: Mode, r: Run)
    requires 0 <= r.i && Lawful(es, wiped, mode, r)
    ensures Lawful(es, wiped, mode, RunBy(es, mode, r))
    decreases r.wiped, |es| - r.i
  {
    hide Lawful, TurnBy;
    if !r.fatal && r.i < |es| {
      TurnLawful(es, wiped, mode, r);
      TurnAdvances(es, mode, r);
      RunLawful(es, wiped, mode, TurnBy(es, mode, r));
    }
  }

  lemma TurnAdvances(es: seq<Entry>, mode: Mode, r: Run)
    requires 0 <= r.i < |es|
    ensures var t := TurnBy(es, mode, r); (t.i > r.i && t.wiped == r.wiped) || (t.i == r.i && t.wiped < r.wiped)
  {
  }

  /**
   Every run: only formattable entries that take part in the mount mode, on partitions that
   are wiped at that moment, are formatted; a mounted entry is encrypted with formatting
   exactly when the last check found a wiped partition; the flag for `/data` is right.
   */
  lemma EveryRun(es: seq<Entry>, wiped: set<nat>, mode: Mode, script: seq<nat>)
    ensures var r := RunOf(es, wiped, mode, script);
            && FormatsAllowed(es, wiped, mode, r.log) && r.wiped == WipedAfter(es, wiped, r.log)
            && VdcFormatsLater(r.log) && (MetOnce(es, mode) ==> AtMostOnce(es, r.log))
            && (r.userdata ==> DataSeen(es, r.log))
            && (!r.fatal ==> (r.userdata <==> DataSeen(es, r.log)) && StatusCode(r.encryptable))
  {
    var start := Start(wiped, script);
    assert Lawful(es, wiped, mode, start);
    hide RunBy, FormatsAllowed, VdcFormatsLater, WipedAfter, AtMostOnce, MetOnce, DataSeen, FoundWiped, NoneFrom;
    RunLawful(es, wiped, mode, start);
  }

  lemma SoundWiped(es: seq<Entry>, wiped: set<nat>, mode: Mode, log: seq<Event>, now: set<nat>, i: int)
    requires Sound(es, wiped, mode, log, now, i)
    ensures now == WipedAfter(es, wiped, log)
  {
  }

  lemma NoChecks(es: seq<Entry>, log: seq<Event>, start: nat, fs: seq<Failure>, before: nat, ok: bool, attempted: nat)
    requires start < |es| && Attempts(log, start, GroupEnd(es, start, start), fs, before, ok, attempted)
    ensures forall k :: 0 <= k < |log| ==> !log[k].Checked?
  {
    hide Attempts, GroupEnd;
    AttemptsCount(es, log, start, GroupEnd(es, start, start), fs, before, ok, attempted, "");
  }

  lemma InGroupOf(es: seq<Entry>, start: nat, j: nat)
    requires start < |es| && start <= j < GroupEnd(es, start, start)
    ensures es[j].mountPoint == es[start].mountPoint
  {
  }

  lemma GroupFacts(es: seq<Entry>, start: nat)
    requires start < |es|
    ensures start < GroupEnd(es, start, start) <= |es|
  {
  }

  // ----- Formats over a whole run

  lemma {:induction false} WipedShrinks(es: seq<Entry>, wiped: set<nat>, mode: Mode, log: seq<Event>, k: nat)
    requires FormatsAllowed(es, wiped, mode, log)
    ensures WipedAfter(es, wiped, log) <= wiped
    ensures k < |log| && log[k].Format? ==> FormatAllowed(es, wiped, mode, log[..k], log[k].idx)
    ensures k < |log| && log[k].Format? && log[k].ok ==> es[log[k].idx].partition !in WipedAfter(es, wiped, log)
  {
    if log != [] {
      var n := |log| - 1;
      WipedShrinks(es, wiped, mode, log[..n], k);
      if k < n {
        assert log[..n][k] == log[k] && log[..n][..k] == log[..k];
      }
    }
  }

  /** A run formats only partitions that were wiped when it began, and none of them twice. */
  lemma FormattedOnce(es: seq<Entry>, wiped: set<nat>, mode: Mode, log: seq<Event>, k: nat, l: nat)
    requires FormatsAllowed(es, wiped, mode, log) && k < l < |log|
    requires log[k].Format? && log[k].ok && log[l].Format?
    ensures log[k].idx < |es| && log[l].idx < |es|
    ensures es[log[k].idx].partition in wiped && es[log[l].idx].partition in wiped
    ensures es[log[k].idx].partition != es[log[l].idx].partition
  {
    WipedShrinks(es, wiped, mode, log, k);
    WipedShrinks(es, wiped, mode, log, l);
    AllowedPrefix(es, wiped, mode, log, l);
    AllowedPrefix(es, wiped, mode, log, k);
    WipedShrinks(es, wiped, mode, log[..l], k);
    WipedShrinks(es, wiped, mode, log[..k], 0);
    assert log[..l][k] == log[k];
  }

  lemma {:induction false} AllowedPrefix(es: seq<Entry>, wiped: set<nat>, mode: Mode, log: seq<Event>, k: nat)
    requires FormatsAllowed(es, wiped, mode, log) && k <= |log|
    ensures FormatsAllowed(es, wiped, mode, log[..k])
  {
    if k < |log| {
      AllowedPrefix(es, wiped, mode, log[..|log| - 1], k);
      assert log[..|log| - 1][..k] == log[..k];
    } else {
      assert log[..k] == log;
    }
  }
}
