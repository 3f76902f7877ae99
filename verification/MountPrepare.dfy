/** Which entries are mounted at all: the conditions on an entry, and the steps that must work first. */
module MountPrepare {
  import opened Bytes
  import opened MountAlternatives
  import opened MountRun
  import opened MountLaws

  // ----- The steps before a mount

  function One(b: bool): (n: nat) {
    if b then 1 else 0
  }

  /** The first `n` answers are yes. */
  predicate AllYes(script: seq<nat>, n: nat) {
    n == 0 || (Next(script) != 0 && AllYes(Later(script), n - 1))
  }

  function After(script: seq<nat>, n: nat): (rest: seq<nat>) {
    if n == 0 then script else After(Later(script), n - 1)
  }

  lemma {:induction false} YesThenMore(script: seq<nat>, n: nat, m: nat)
    ensures AllYes(script, n + m) <==> AllYes(script, n) && AllYes(After(script, n), m)
    ensures After(script, n + m) == After(After(script, n), m)
  {
    if n > 0 {
      YesThenMore(Later(script), n - 1, m);
      assert n + m - 1 == n - 1 + m;
    }
  }

  /** Steps before verified boot: labels, logical partitions, the checkpoint, and waiting. */
  function FirstSteps(e: Entry): (n: nat) {
    One(e.fsType in {"ext2", "ext3", "ext4"}) + One(e.logical) + 1 + One(e.wait)
  }

  lemma ReadyExactly(ext: bool, logical: bool, wait: bool, script: seq<nat>)
    ensures var n := One(ext) + One(logical) + 1 + One(wait);
            var r := ReadyBy(ext, logical, wait, script);
            && (r.0 <==> AllYes(script, n)) && (r.0 ==> r.1 == After(script, n))
  {
    StepExactly(ext, script);
    var s0 := AskIf(ext, script).1;
    StepExactly(logical, s0);
    var s1 := AskIf(logical, s0).1;
    StepExactly(true, s1);
    var s2 := AskIf(true, s1).1;
    StepExactly(wait, s2);
    hide AllYes, After, AskIf;
    YesThenMore(script, One(ext), One(logical));
    YesThenMore(script, One(ext) + One(logical), 1);
    YesThenMore(script, One(ext) + One(logical) + 1, One(wait));
  }

  lemma StepExactly(asked: bool, script: seq<nat>)
    ensures AskIf(asked, script).0 <==> AllYes(script, One(asked))
    ensures AskIf(asked, script).1 == After(script, One(asked))
  {
    assert AllYes(Later(script), 0) && After(Later(script), 0) == Later(script);
  }

  /** Verified boot is opened once, and then every entry that asks for it is set up. */
  lemma VerifiedExactly(avb: bool, avbKeys: bool, avbOpen: bool, script: seq<nat>)
    ensures var v := VerifyBy(avb, avbKeys, avbOpen, script);
            var opens, verifies := One(avb && !avbOpen), One(avb || avbKeys);
            && (v.0 == Go <==> AllYes(script, opens + verifies)) && (v.0 == Abort <==> !AllYes(script, opens))
            && (v.0 == Go ==> v.1 == (avbOpen || avb) && v.2 == After(script, opens + verifies))
  {
    StepExactly(avb && !avbOpen, script);
    var s := AskIf(avb && !avbOpen, script).1;
    StepExactly(avb || avbKeys, s);
    YesThenMore(script, One(avb && !avbOpen), One(avb || avbKeys));
    hide AllYes, After;
  }

  lemma SetUpExactly(e: Entry, avbOpen: bool, script: seq<nat>)
    ensures var p := SetUpBy(e, avbOpen, script);
            var n, opens, verifies := FirstSteps(e), One(e.avb && !avbOpen), One(e.avb || e.avbKeys);
            && (p.0 == Go <==> AllYes(script, n + opens + verifies))
            && (p.0 == Abort <==> AllYes(script, n) && !AllYes(script, n + opens))
            && (p.0 == Go ==> p.1 == (avbOpen || e.avb) && p.2 == After(script, n + opens + verifies))
  {
    assert IsExt(e.fsType) == (e.fsType in {"ext2", "ext3", "ext4"});
    hide AllYes, After, ReadyBy, VerifyBy, IsExt;
    ReadyExactly(IsExt(e.fsType), e.logical, e.wait, script);
    var n, opens, verifies := FirstSteps(e), One(e.avb && !avbOpen), One(e.avb || e.avbKeys);
    VerifiedExactly(e.avb, e.avbKeys, avbOpen, After(script, n));
    YesThenMore(script, n, opens);
    YesThenMore(script, n, opens + verifies);
    assert n + opens + verifies == n + (opens + verifies);
  }

  /**
   An entry goes on to be mounted exactly when it takes part in the mode, is not mounted since the
   first stage, and every step its flags ask for works, verified boot last; and the whole run is
   broken off exactly when verified boot has to be opened for it and cannot be.
   */
  lemma PreparedExactly(e: Entry, mode: Mode, avbOpen: bool, script: seq<nat>)
    ensures var p := PrepareBy(e, mode, avbOpen, script);
            var s := if e.firstStage then Later(script) else script;
            var takesPart := ForMode(e, mode) && (e.firstStage ==> Next(script) == 0);
            var n, opens, verifies := FirstSteps(e), One(e.avb && !avbOpen), One(e.avb || e.avbKeys);
            && (p.0 == Go <==> takesPart && AllYes(s, n + opens + verifies))
            && (p.0 == Abort <==> takesPart && AllYes(s, n) && !AllYes(s, n + opens))
            && (p.0 == Go ==> p.1 == (avbOpen || e.avb) && p.2 == After(s, n + opens + verifies))
  {
    EligibleIs(e, mode);
    SetUpExactly(e, avbOpen, if e.firstStage then Later(script) else script);
    assert ForMode(e, mode) ==> (e.firstStage ==> e.formattable);
    hide AllYes, After, Eligible, ForMode, SetUpBy, FirstSteps;
  }

  // ----- What a run touches

  /** Entries a mount mode is about. */
  predicate ForMode(e: Entry, mode: Mode) {
    && !e.voldManaged && !e.recoveryOnly && !(e.firstStage && !e.formattable)
    && e.fsType !in {"swap", "emmc", "mtd"} && e.mountPoint !in {"/", "/system"}
    && match mode
       case Default => true
       case Early => !e.lateMount
       case Late => e.lateMount
       case OnlyUserdata => e.mountPoint == "/data"
  }

  lemma EligibleIs(e: Entry, mode: Mode)
    ensures Eligible(e, mode) <==> ForMode(e, mode)
  {
  }

  /** The event is about an entry for the mount point of an entry the mode is about, in its group. */
  ghost predicate Touches(es: seq<Entry>, mode: Mode, e: Event) {
    exists t: nat :: t < |es| && ForMode(es[t], mode) && t <= e.idx < GroupEnd(es, t, t)
  }

  ghost predicate OnlyTouches(es: seq<Entry>, mode: Mode, log: seq<Event>) {
    forall k :: 0 <= k < |log| ==> Touches(es, mode, log[k])
  }

  lemma TouchesSnoc(es: seq<Entry>, mode: Mode, log: seq<Event>, e: Event, t: nat)
    requires OnlyTouches(es, mode, log) && t < |es| && ForMode(es[t], mode) && t <= e.idx < GroupEnd(es, t, t)
    ensures OnlyTouches(es, mode, log + [e])
  {
    hide ForMode;
  }

  lemma TouchesTries(es: seq<Entry>, mode: Mode, log: seq<Event>, i: nat, script: seq<nat>)
    requires OnlyTouches(es, mode, log) && i < |es| && ForMode(es[i], mode)
    ensures var t := TryGroup(i, GroupEnd(es, i, i), script);
            && OnlyTouches(es, mode, log + TriesLog(i, t)) && (t.ok ==> i <= t.at < GroupEnd(es, i, i))
  {
    hide ForMode;
    GroupFacts(es, i);
    var g := GroupEnd(es, i, i);
    TriesAreReal(i, g, script);
    TriedInside(i, g, script);
    var t := TryGroup(i, g, script);
    FailuresMountNothing(i, t.fs);
    FailureCount(i, g, script);
    hide Failures, TryGroup;
    var more := TriesLog(i, t);
    forall k | 0 <= k < |more|
      ensures i <= more[k].idx < g
    {
    }
  }

  lemma FailureCount(i: nat, stop: nat, script: seq<nat>)
    requires i <= stop
    ensures i + |TryGroup(i, stop, script).fs| <= stop
  {
  }

  lemma FailedTouches(es: seq<Entry>, mode: Mode, top: nat, errno: nat, r: Run)
    requires OnlyTouches(es, mode, r.log) && top < |es| && ForMode(es[top], mode)
    ensures OnlyTouches(es, mode, FailedBy(es[top], top, errno, r).log)
  {
    GroupFacts(es, top);
    hide ForMode, OnlyTouches;
    var e, c := es[top], Checked(top, es[top].partition in r.wiped);
    TouchesSnoc(es, mode, r.log, c, top);
    var log, ok := r.log + [c], Next(r.script) != 0;
    TouchesSnoc(es, mode, log, Vdc(top, false, ok), top);
    TouchesSnoc(es, mode, log, Vdc(top, true, ok), top);
    TouchesSnoc(es, mode, log, Format(top, ok), top);
    TouchesSnoc(es, mode, log + [Vdc(top, true, ok)], Format(top, Next(Later(r.script)) != 0), top);
  }

  lemma MountedTouches(es: seq<Entry>, mode: Mode, i: nat, at: nat, r: Run)
    requires OnlyTouches(es, mode, r.log) && i < |es| && ForMode(es[i], mode) && i <= at < GroupEnd(es, i, i)
    ensures at < |es| && OnlyTouches(es, mode, MountedBy(es[at], at, r).log)
  {
    GroupFacts(es, i);
    hide ForMode, OnlyTouches, GroupEnd;
    TouchesSnoc(es, mode, r.log, Stuck(at), i);
    TouchesSnoc(es, mode, r.log, Vdc(at, r.flag, Next(Later(r.script)) != 0), i);
  }

  lemma GroupTouches(es: seq<Entry>, mode: Mode, r: Run)
    requires 0 <= r.i < |es| && OnlyTouches(es, mode, r.log) && ForMode(es[r.i], mode)
    ensures OnlyTouches(es, mode, GroupBy(es, r).log)
  {
    var i, g := r.i, GroupEnd(es, r.i, r.i);
    GroupFacts(es, i);
    TouchesTries(es, mode, r.log, i, r.script);
    hide ForMode, OnlyTouches, TryGroup, TriesLog, FailedBy, MountedBy, ErrnoOf, GroupEnd, AfterGroup;
    var t := TryGroup(i, g, r.script);
    var q := r.(i := AfterGroup(es, i), log := r.log + TriesLog(i, t), script := t.rest);
    if t.ok {
      MountedTouches(es, mode, i, t.at, q);
    } else {
      FailedTouches(es, mode, i, ErrnoOf(t.fs), q);
    }
  }

  lemma TurnTouches(es: seq<Entry>, mode: Mode, r: Run)
    requires 0 <= r.i < |es| && OnlyTouches(es, mode, r.log)
    ensures OnlyTouches(es, mode, TurnBy(es, mode, r).log)
  {
    GroupFacts(es, r.i);
    TurnIs(es, mode, r);
    PreparedExactly(es[r.i], mode, r.avbOpen, r.script);
    hide ForMode, OnlyTouches, PrepareBy, GroupBy, GroupEnd, TurnBy, AllYes;
    var p := PrepareBy(es[r.i], mode, r.avbOpen, r.script);
    if p.0 == Go {
      GroupTouches(es, mode, r.(avbOpen := p.1, script := p.2));
    } else if p.0 == Abort {
      TouchesSnoc(es, mode, r.log, NoHandle(r.i), r.i);
    }
  }

  lemma {:induction false} RunTouches(es: seq<Entry>, mode: Mode, r: Run)
    requires 0 <= r.i && OnlyTouches(es, mode, r.log)
    ensures OnlyTouches(es, mode, RunBy(es, mode, r).log)
    decreases r.wiped, |es| - r.i
  {
    hide OnlyTouches, TurnBy;
    if !r.fatal && r.i < |es| {
      TurnTouches(es, mode, r);
      TurnAdvances(es, mode, r);
      RunTouches(es, mode, TurnBy(es, mode, r));
    }
  }

  /** In every run nothing is done to entries outside the groups the mode is about. */
  lemma TouchedOnly(es: seq<Entry>, wiped: set<nat>, mode: Mode, script: seq<nat>, k: nat)
    requires k < |RunOf(es, wiped, mode, script).log|
    ensures var idx := RunOf(es, wiped, mode, script).log[k].idx;
            && idx < |es| && es[idx].mountPoint !in {"/", "/system"}
            && (mode == OnlyUserdata ==> es[idx].mountPoint == "/data")
            && exists t: nat :: t <= idx && es[t].mountPoint == es[idx].mountPoint && ForMode(es[t], mode)
  {
    hide RunBy;
    RunTouches(es, mode, Start(wiped, script));
    var e := RunOf(es, wiped, mode, script).log[k];
    assert Touches(es, mode, e);
    var t: nat :| t < |es| && ForMode(es[t], mode) && t <= e.idx < GroupEnd(es, t, t);
    assert es[e.idx].mountPoint == es[t].mountPoint;
  }
}
