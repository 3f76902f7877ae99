/**
 The error that a group of entries reports, and the guard that rests on it: a busy or
 inaccessible partition is not to be formatted. Both promises hold only of some tables.
 */
module MountErrno {
  import opened Bytes
  import opened MountAlternatives
  import opened MountRun
  import opened MountLaws
  import opened MountExact

  // ----- The reported error

  /** If the group failed after a mount call, the error of the first one is reported. */
  predicate FirstReported(t: Tries) {
    !t.ok && FirstMount(t.fs).Some? ==> ErrnoOf(t.fs) == FirstMount(t.fs).value
  }

  /** Answers for a mount that fails twice with this error, and a bad magic for the other entries. */
  function BusyAnswers(errno: nat, others: nat): (s: seq<nat>) {
    [1, errno, errno] + No(others)
  }

  lemma BusyFirst(errno: nat, others: nat, rest: seq<nat>)
    requires errno > 0
    ensures TryOne(BusyAnswers(errno, others) + rest) == (Failed(Twice(errno, errno)), No(others) + rest)
  {
    hide No;
    var s := BusyAnswers(errno, others) + rest;
    assert s == [1] + ([errno] + ([errno] + (No(others) + rest)));
    Asked(1, [errno] + ([errno] + (No(others) + rest)));
    Asked(errno, [errno] + (No(others) + rest));
    Asked(errno, No(others) + rest);
  }

  lemma BusyTried(i: nat, stop: nat, errno: nat, rest: seq<nat>)
    requires i < stop && errno > 0
    ensures TryGroup(i, stop, BusyAnswers(errno, stop - i - 1) + rest)
            == Tries([Twice(errno, errno)] + Magics(stop - i - 1), false, stop, 0, rest)
  {
    hide No, Magics, TryOne, BusyAnswers;
    BusyFirst(errno, stop - i - 1, rest);
    TriedTo(i + 1, stop, stop, rest);
  }

  /** A bad magic hides the error of the mount call before it. */
  lemma BusyHidden(errno: nat, others: nat)
    requires others > 0
    ensures var fs := [Twice(errno, errno)] + Magics(others);
            FirstMount(fs) == Some(errno) && ErrnoOf(fs) == EINVAL
  {
    var fs := [Twice(errno, errno)] + Magics(others);
    assert fs[1] == Magics(others)[0] == Magic;
  }

  /** In all runs the error of the first mount call is reported, exactly when the entry has no alternates. */
  lemma FirstReportedExactly(es: seq<Entry>, start: nat)
    requires start < |es|
    ensures (forall script :: FirstReported(TryGroup(start, GroupEnd(es, start, start), script)))
            <==> GroupEnd(es, start, start) == start + 1
  {
    GroupFacts(es, start);
    var g := GroupEnd(es, start, start);
    hide GroupEnd, TryGroup, ErrnoOf, FirstMount, No, Magics, BusyAnswers;
    if g == start + 1 {
      forall script
        ensures FirstReported(TryGroup(start, g, script))
      {
        AloneReported(start, script);
      }
    } else {
      var script := BusyAnswers(EBUSY, g - start - 1) + [];
      BusyTried(start, g, EBUSY, []);
      BusyHidden(EBUSY, g - start - 1);
      assert !FirstReported(TryGroup(start, g, script));
    }
  }

  lemma TriedCount(i: nat, stop: nat, script: seq<nat>)
    requires i <= stop
    ensures var t := TryGroup(i, stop, script); !t.ok ==> |t.fs| == stop - i
  {
  }

  lemma AloneReported(start: nat, script: seq<nat>)
    ensures FirstReported(TryGroup(start, start + 1, script))
  {
    hide TryGroup;
    var t := TryGroup(start, start + 1, script);
    TriedCount(start, start + 1, script);
    if !t.ok && FirstMount(t.fs).Some? {
      AloneErrno(t.fs);
    }
  }

  lemma AloneErrno(fs: seq<Failure>)
    requires |fs| == 1 && FirstMount(fs).Some?
    ensures ErrnoOf(fs) == FirstMount(fs).value
  {
  }

  /** An entry that is busy and an alternate with a bad magic. */
  lemma BusyReportedInvalid()
    ensures TryGroup(0, 2, [1, EBUSY, EBUSY, 0]) == Tries([Twice(EBUSY, EBUSY), Magic], false, 2, 0, [])
    ensures ErrnoOf([Twice(EBUSY, EBUSY), Magic]) == EINVAL
  {
    BusyTried(0, 2, EBUSY, []);
    BusyHidden(EBUSY, 1);
    assert BusyAnswers(EBUSY, 1) + [] == [1, EBUSY, EBUSY, 0];
    assert [Twice(EBUSY, EBUSY)] + Magics(1) == [Twice(EBUSY, EBUSY), Magic];
  }

  // ----- The guard against formatting

  predicate Busy(errno: nat) {
    errno == EBUSY || errno == EACCES
  }

  /** An attempt to mount entry `top` or one behind it. */
  predicate Attempt(e: Event, top: nat) {
    (e.Tried? || e.BadMagic?) && e.idx >= top
  }

  /** The error of the first mount call in the row of attempts from entry `top` on that ends the log. */
  function FirstError(log: seq<Event>, top: nat): (errno: nat) {
    if log == [] || !Attempt(log[|log| - 1], top) then 0
    else
      var e := log[|log| - 1];
      var before := FirstError(log[..|log| - 1], top);
      if before == 0 && e.Tried? then e.errno else before
  }

  predicate Formatting(e: Event) {
    e.Format? || (e.Vdc? && e.format)
  }

  /**
   After the attempts of a group the check at `k` is followed by a format, by the loop itself or
   by the encryption service, although the first mount call found the partition busy or
   inaccessible.
   */
  predicate BusyFormat(log: seq<Event>, k: nat) {
    && k + 1 < |log| && log[k].Checked? && Formatting(log[k + 1])
    && Busy(FirstError(log[..k], log[k].idx))
  }

  predicate GuardKept(log: seq<Event>) {
    forall k :: 0 <= k < |log| ==> !BusyFormat(log, k)
  }

  /** Entry `t` can be formatted and has alternates. */
  predicate Exposed(es: seq<Entry>, wiped: set<nat>, mode: Mode, t: nat) {
    && t < |es| && Eligible(es[t], mode) && es[t].formattable && es[t].partition in wiped
    && GroupEnd(es, t, t) > t + 1
  }

  lemma GuardSnoc(log: seq<Event>, e: Event)
    requires GuardKept(log)
    requires log != [] && log[|log| - 1].Checked? && Formatting(e) ==>
               !Busy(FirstError(log[..|log| - 1], log[|log| - 1].idx))
    ensures GuardKept(log + [e])
  {
    hide FirstError, Busy, Formatting;
    var c := log + [e];
    forall k | 0 <= k < |c|
      ensures !BusyFormat(c, k)
    {
      if k + 1 < |c| {
        assert c[k] == log[k] && c[..k] == log[..k];
        if k + 1 < |log| {
          assert c[k + 1] == log[k + 1] && !BusyFormat(log, k);
        }
      }
    }
  }

  lemma {:induction false} GuardAppend(a: seq<Event>, b: seq<Event>)
    requires GuardKept(a) && forall k :: 0 <= k < |b| ==> !Formatting(b[k])
    ensures GuardKept(a + b)
  {
    hide GuardKept, FirstError, Busy, Formatting;
    if b == [] {
      assert a + b == a;
    } else {
      var n := |b| - 1;
      GuardAppend(a, b[..n]);
      GuardSnoc(a + b[..n], b[n]);
      assert a + b == a + b[..n] + [b[n]];
    }
  }

  lemma FirstErrorSnoc(log: seq<Event>, e: Event, top: nat)
    ensures FirstError(log + [e], top)
            == if !Attempt(e, top) then 0
               else if FirstError(log, top) == 0 && e.Tried? then e.errno else FirstError(log, top)
  {
    assert (log + [e])[..|log|] == log;
  }

  lemma {:induction false} FirstMountSnoc(fs: seq<Failure>, f: Failure)
    ensures FirstMount(fs + [f])
            == if FirstMount(fs).Some? then FirstMount(fs) else if f.Twice? then Some(f.first) else None
  {
    var gs := fs + [f];
    if fs == [] {
      assert gs == [f] && [f][1..] == [];
    } else {
      assert gs[0] == fs[0] && gs[1..] == fs[1..] + [f];
      FirstMountSnoc(fs[1..], f);
    }
  }

  /** The log tells the error of the first mount call of a group that failed. */
  lemma {:induction false} FirstErrorIs(log: seq<Event>, top: nat, fs: seq<Failure>)
    requires RealFailures(fs) && FirstError(log, top) == 0
    ensures FirstError(log + Failures(top, fs), top)
            == if FirstMount(fs).Some? then FirstMount(fs).value else 0
    ensures FirstMount(fs).Some? ==> FirstMount(fs).value != 0
  {
    if fs == [] {
      assert log + [] == log;
    } else {
      var n := |fs| - 1;
      FirstErrorIs(log, top, fs[..n]);
      FirstMountSnoc(fs[..n], fs[n]);
      assert fs == fs[..n] + [fs[n]];
      FailureErrors(log + Failures(top, fs[..n]), top, top + n, fs[n]);
      hide FirstMount, FirstError;
      AppendAssoc(log, Failures(top, fs[..n]), FailureLog(top + n, fs[n]));
    }
  }

  lemma FailureErrors(log: seq<Event>, top: nat, idx: nat, f: Failure)
    requires top <= idx && (f.Twice? ==> f.first != 0)
    ensures FirstError(log + FailureLog(idx, f), top)
            == if FirstError(log, top) == 0 && f.Twice? then f.first else FirstError(log, top)
  {
    hide FirstError;
    match f
    case Magic => FirstErrorSnoc(log, BadMagic(idx), top);
    case Twice(first, second) =>
      FirstErrorSnoc(log, Tried(idx, first), top);
      FirstErrorSnoc(log + [Tried(idx, first)], Tried(idx, second), top);
      assert log + FailureLog(idx, f) == log + [Tried(idx, first)] + [Tried(idx, second)];
  }

  // ----- Tables on which the guard holds

  /** A run in which no busy partition was formatted; its log does not end in attempts still to come. */
  predicate Guarded(wiped: set<nat>, r: Run) {
    && GuardKept(r.log) && r.wiped <= wiped
    && (r.log != [] && !r.fatal ==> r.i >= 0 && !Attempt(r.log[|r.log| - 1], r.i))
  }

  lemma MountedGuarded(wiped: set<nat>, e: Entry, at: nat, r: Run)
    requires GuardKept(r.log) && r.wiped <= wiped && at < r.i && r.log != [] && r.log[|r.log| - 1] == Tried(at, 0)
    ensures Guarded(wiped, MountedBy(e, at, r))
  {
    hide GuardKept;
    if e.MetadataEncrypted() && Next(r.script) != 0 {
      GuardSnoc(r.log, Vdc(at, r.flag, Next(Later(r.script)) != 0));
    } else {
      GuardSnoc(r.log, Stuck(at));
    }
  }

  lemma FormatGuarded(wiped: set<nat>, e: Entry, top: nat, r: Run)
    requires GuardKept(r.log) && r.wiped <= wiped && top < r.i && r.log != []
    requires r.log[|r.log| - 1].Checked? ==> !Busy(FirstError(r.log[..|r.log| - 1], r.log[|r.log| - 1].idx))
    ensures Guarded(wiped, FormatBy(e, top, r))
  {
    hide GuardKept, FirstError, Busy;
    GuardSnoc(r.log, Format(top, Next(r.script) != 0));
  }

  lemma WipedGuarded(wiped: set<nat>, e: Entry, top: nat, r: Run)
    requires GuardKept(r.log) && r.wiped <= wiped && top < r.i && r.log != [] && r.log[|r.log| - 1].Checked?
    requires !Busy(FirstError(r.log[..|r.log| - 1], r.log[|r.log| - 1].idx))
    ensures Guarded(wiped, WipedBy(e, top, r))
  {
    hide GuardKept, FirstError, Busy, FormatBy;
    if e.MetadataEncrypted() && e.mountPoint == "/data" {
      var ok := Next(r.script) != 0;
      var v := Vdc(top, true, ok);
      GuardSnoc(r.log, v);
      if !ok {
        FormatGuarded(wiped, e, top,
                      r.(log := r.log + [v], script := Later(r.script), encryptable := IS_METADATA_ENCRYPTED));
      }
    } else {
      FormatGuarded(wiped, e, top, r);
    }
  }

  lemma FailedGuarded(wiped: set<nat>, e: Entry, top: nat, errno: nat, r: Run)
    requires GuardKept(r.log) && r.wiped <= wiped && top < r.i
    requires !Busy(errno) && e.formattable && e.partition in r.wiped ==> !Busy(FirstError(r.log, top))
    ensures Guarded(wiped, FailedBy(e, top, errno, r))
  {
    hide GuardKept, FirstError, WipedBy;
    var c := Checked(top, e.partition in r.wiped);
    GuardSnoc(r.log, c);
    var log := r.log + [c];
    assert log[|log| - 1] == c && log[..|log| - 1] == r.log;
    if errno != EBUSY && errno != EACCES && e.formattable && c.wiped {
      WipedGuarded(wiped, e, top, r.(log := log, flag := c.wiped));
    } else if errno != EBUSY && errno != EACCES && e.MetadataEncrypted() {
      GuardSnoc(log, Vdc(top, false, Next(r.script) != 0));
    }
  }

  lemma TriesGuarded(log: seq<Event>, i: nat, stop: nat, script: seq<nat>)
    requires GuardKept(log) && i < stop
    ensures var t := TryGroup(i, stop, script);
            && GuardKept(log + TriesLog(i, t)) && RealFailures(t.fs)
            && (t.ok ==>
                  && i <= t.at < stop && TriesLog(i, t) != []
                  && TriesLog(i, t)[|TriesLog(i, t)| - 1] == Tried(t.at, 0))
  {
    TriesAreReal(i, stop, script);
    TriedInside(i, stop, script);
    var t := TryGroup(i, stop, script);
    FailuresMountNothing(i, t.fs);
    hide TryGroup, Failures, GuardKept;
    GuardAppend(log, TriesLog(i, t));
  }

  lemma GroupGuarded(es: seq<Entry>, wiped: set<nat>, mode: Mode, r: Run)
    requires 0 <= r.i < |es| && Eligible(es[r.i], mode) && Guarded(wiped, r) && !r.fatal
    requires !Exposed(es, wiped, mode, r.i)
    ensures Guarded(wiped, GroupBy(es, r))
  {
    GroupFacts(es, r.i);
    var i, g := r.i, GroupEnd(es, r.i, r.i);
    NoneBefore(r.log, i);
    hide GuardKept, Eligible, TryGroup, TriesLog, ErrnoOf, FailedBy, MountedBy, FirstError, FirstMount, Busy, GroupBy,
         AfterTries,
         GroupEnd, AfterGroup;
    var t := TryGroup(i, g, r.script);
    TriesGuarded(r.log, i, g, r.script);
    GroupIs(es, r, t);
    Beyond(es, i);
    var q := AfterTries(es, r, t);
    if t.ok {
      assert q.log[|q.log| - 1] == Tried(t.at, 0);
      MountedGuarded(wiped, es[t.at], t.at, q);
    } else {
      FailedTries(r.log, i, t);
      FirstErrorIs(r.log, i, t.fs);
      if es[i].formattable && es[i].partition in r.wiped {
        TriedCount(i, g, r.script);
        if FirstMount(t.fs).Some? {
          AloneErrno(t.fs);
        }
        NotBusy();
      }
      FailedGuarded(wiped, es[i], i, ErrnoOf(t.fs), q);
    }
  }

  lemma NotBusy()
    ensures !Busy(0)
  {
  }

  lemma NoneBefore(log: seq<Event>, top: nat)
    requires log != [] ==> !Attempt(log[|log| - 1], top)
    ensures FirstError(log, top) == 0
  {
  }

  lemma FailedTries(log: seq<Event>, i: nat, t: Tries)
    requires !t.ok
    ensures log + TriesLog(i, t) == log + Failures(i, t.fs)
  {
    assert Failures(i, t.fs) + [] == Failures(i, t.fs);
  }

  lemma Beyond(es: seq<Entry>, start: nat)
    requires start < |es|
    ensures start < GroupEnd(es, start, start) <= AfterGroup(es, start)
  {
  }

  lemma TurnGuarded(es: seq<Entry>, wiped: set<nat>, mode: Mode, r: Run)
    requires 0 <= r.i < |es| && Guarded(wiped, r) && !r.fatal && forall t :: !Exposed(es, wiped, mode, t)
    ensures Guarded(wiped, TurnBy(es, mode, r))
  {
    hide GuardKept, Eligible, PrepareBy, GroupBy, Exposed;
    var p := PrepareBy(es[r.i], mode, r.avbOpen, r.script);
    PreparedEligible(es[r.i], mode, r.avbOpen, r.script);
    if p.0 == Go {
      GroupGuarded(es, wiped, mode, r.(avbOpen := p.1, script := p.2));
    } else {
      GuardSnoc(r.log, NoHandle(r.i));
    }
  }

  lemma {:induction false} RunGuarded(es: seq<Entry>, wiped: set<nat>, mode: Mode, r: Run)
    requires 0 <= r.i && Guarded(wiped, r) && forall t :: !Exposed(es, wiped, mode, t)
    ensures Guarded(wiped, RunBy(es, mode, r))
    decreases r.wiped, |es| - r.i
  {
    hide Guarded, TurnBy, Exposed;
    if !r.fatal && r.i < |es| {
      TurnGuarded(es, wiped, mode, r);
      TurnAdvances(es, mode, r);
      RunGuarded(es, wiped, mode, TurnBy(es, mode, r));
    }
  }

  // ----- Tables on which it does not

  lemma WipedFormats(e: Entry, top: nat, r: Run)
    ensures var log := WipedBy(e, top, r).log;
            |log| > |r.log| && log[..|r.log|] == r.log && Formatting(log[|r.log|])
  {
  }

  /** What the turn logs at the end: the check, and a format by whom it may. */
  lemma InvalidFormats(e: Entry, top: nat, r: Run)
    requires e.formattable && e.partition in r.wiped
    ensures var log := FailedBy(e, top, EINVAL, r).log;
            && |log| >= |r.log| + 2 && log[..|r.log|] == r.log && log[|r.log|] == Checked(top, true)
            && Formatting(log[|r.log| + 1])
  {
    hide WipedBy, Formatting;
    var log := r.log + [Checked(top, true)];
    var q := r.(log := log, flag := true);
    WipedFormats(e, top, q);
    var after := WipedBy(e, top, q).log;
    assert after[..|r.log|] == after[..|log|][..|r.log|] == r.log && after[|r.log|] == after[..|log|][|r.log|];
  }

  lemma EndsBusy(log: seq<Event>, k: nat)
    requires k + 1 < |log| && log[k].Checked? && Formatting(log[k + 1]) && Busy(FirstError(log[..k], log[k].idx))
    ensures !GuardKept(log)
  {
    assert BusyFormat(log, k);
  }

  lemma BusyErrors(log: seq<Event>, i: nat, others: nat)
    requires FirstError(log, i) == 0
    ensures Busy(FirstError(log + Failures(i, [Twice(EBUSY, EBUSY)] + Magics(others)), i))
  {
    hide FirstError, Failures;
    BusyFirstMount(others);
    FirstErrorIs(log, i, [Twice(EBUSY, EBUSY)] + Magics(others));
  }

  lemma BusyFirstMount(others: nat)
    ensures var fs := [Twice(EBUSY, EBUSY)] + Magics(others);
            RealFailures(fs) && FirstMount(fs) == Some(EBUSY)
  {
  }

  lemma BusyGroup(es: seq<Entry>, r: Run)
    requires 0 <= r.i < |es| && es[r.i].formattable && es[r.i].partition in r.wiped && GroupEnd(es, r.i, r.i) > r.i + 1
    requires r.script == BusyAnswers(EBUSY, GroupEnd(es, r.i, r.i) - r.i - 1) && FirstError(r.log, r.i) == 0
    ensures !GuardKept(GroupBy(es, r).log)
  {
    hide GroupEnd, TryGroup, TriesLog, ErrnoOf, FailedBy, MountedBy, FirstError, FirstMount, GroupBy, AfterTries;
    hide BusyAnswers, No, Magics, Busy, Formatting, GuardKept, Failures;
    var i, g := r.i, GroupEnd(es, r.i, r.i);
    var t := Tries([Twice(EBUSY, EBUSY)] + Magics(g - i - 1), false, g, 0, []);
    assert r.script + [] == r.script;
    BusyTried(i, g, EBUSY, []);
    BusyHidden(EBUSY, g - i - 1);
    GroupIs(es, r, t);
    FailedTries(r.log, i, t);
    BusyErrors(r.log, i, g - i - 1);
    var q := AfterTries(es, r, t);
    InvalidFormats(es[i], i, q);
    EndsBusy(GroupBy(es, r).log, |q.log|);
  }

  lemma {:induction false} GuardPrefix(a: seq<Event>, b: seq<Event>)
    requires a <= b && GuardKept(b)
    ensures GuardKept(a)
  {
    hide FirstError, Busy, Formatting;
    forall k | 0 <= k < |a|
      ensures !BusyFormat(a, k)
    {
      assert a[..k] == b[..k] && !BusyFormat(b, k);
    }
  }

  /** Answers with which a partition that was busy is formatted. */
  lemma BusyRun(es: seq<Entry>, wiped: set<nat>, mode: Mode, t: nat) returns (script: seq<nat>)
    requires Exposed(es, wiped, mode, t)
    ensures !GuardKept(RunOf(es, wiped, mode, script).log)
  {
    hide Eligible, PassingAll, RunBy, TurnBy, GroupBy, PrepareBy, Going, BusyAnswers, GuardKept, GroupEnd;
    var busy := BusyAnswers(EBUSY, GroupEnd(es, t, t) - t - 1);
    var s1 := Going(es[t], false) + busy;
    script := PassingAll(es, mode, 0, t) + s1;
    var r := Start(wiped, script);
    PassedAll(es, mode, r, t, s1);
    var r1 := r.(i := t, script := s1);
    Gone(es[t], mode, false, busy);
    TurnIs(es, mode, r1);
    BusyGroup(es, r1.(avbOpen := es[t].avb, script := busy));
    RunStep(es, mode, r1);
    TurnAdvances(es, mode, r1);
    RunGrows(es, mode, TurnBy(es, mode, r1));
    if GuardKept(RunOf(es, wiped, mode, script).log) {
      GuardPrefix(TurnBy(es, mode, r1).log, RunOf(es, wiped, mode, script).log);
    }
  }

  /**
   In all runs a group whose first mount call found its partition busy or inaccessible is not
   formatted, exactly when every entry that takes part and could be formatted has no alternates
   behind it.
   */
  lemma GuardExact(es: seq<Entry>, wiped: set<nat>, mode: Mode)
    ensures (forall script :: GuardKept(RunOf(es, wiped, mode, script).log))
            <==> forall t :: !Exposed(es, wiped, mode, t)
  {
    hide Exposed, RunBy;
    if t :| Exposed(es, wiped, mode, t) {
      var script := BusyRun(es, wiped, mode, t);
    } else {
      forall script
        ensures GuardKept(RunOf(es, wiped, mode, script).log)
      {
        RunGuarded(es, wiped, mode, Start(wiped, script));
      }
    }
  }

  /** Two entries for `/data` on a wiped partition. */
  const DATA_TWICE: seq<Entry> :=
    [Plain("/data", 0).(formattable := true), Plain("/data", 0).(fsType := "erofs", formattable := true)]

  /** `/data` is busy, its alternate has a bad magic, and `/data` is formatted. */
  lemma BusyDataFormatted() returns (script: seq<nat>)
    ensures !GuardKept(RunOf(DATA_TWICE, {0}, Default, script).log)
  {
    hide RunBy;
    var es := DATA_TWICE;
    assert GroupEnd(es, 0, 0) == 2;
    assert es[0].mountPoint == "/data" && es[0].fsType == "f2fs";
    assert Exposed(es, {0}, Default, 0);
    script := BusyRun(es, {0}, Default, 0);
  }
}
