/**
 Two promises about mounting all entries that hold only of some tables, and exactly of which:
 that a mounted entry is formatted by the encryption service only if its partition was wiped,
 and that no mount point is mounted twice.
 */
module MountExact {
  import opened Bytes
  import opened MountAlternatives
  import opened MountRun
  import opened MountLaws

  // ----- Formatting a partition that was not wiped

  /** A mounted entry is encrypted with formatting although its partition was not wiped. */
  predicate ForeignFormat(es: seq<Entry>, wiped: set<nat>, log: seq<Event>, k: nat) {
    MountedVdc(log, k) && log[k].format && log[k].idx < |es| && es[log[k].idx].partition !in wiped
  }

  predicate FormatsOwn(es: seq<Entry>, wiped: set<nat>, log: seq<Event>) {
    forall k :: 0 <= k < |log| ==> !ForeignFormat(es, wiped, log, k)
  }

  /** Entry `i` has been found wiped by the time the loop is at index `at`. */
  predicate Flagging(es: seq<Entry>, wiped: set<nat>, mode: Mode, i: nat, at: int) {
    && i < |es| && Eligible(es[i], mode) && es[i].partition in wiped
    && (if es[i].formattable then i else GroupEnd(es, i, i)) <= at
  }

  /** Entry `i` is found wiped, and entry `j`, tried when the loop is at `t`, mounts and is to be encrypted. */
  predicate Mixed(es: seq<Entry>, wiped: set<nat>, mode: Mode, i: nat, t: nat, j: nat) {
    && t < |es| && Flagging(es, wiped, mode, i, t) && Eligible(es[t], mode)
    && t <= j < GroupEnd(es, t, t) && es[j].MetadataEncrypted() && es[j].partition !in wiped
  }

  lemma OwnAppend(es: seq<Entry>, wiped: set<nat>, a: seq<Event>, b: seq<Event>)
    requires FormatsOwn(es, wiped, a) && forall k :: 0 <= k < |b| ==> !b[k].Vdc?
    ensures FormatsOwn(es, wiped, a + b)
  {
    var c := a + b;
    forall k | 0 <= k < |c|
      ensures !ForeignFormat(es, wiped, c, k)
    {
      if k < |a| {
        assert c[k] == a[k] && (k > 0 ==> c[k - 1] == a[k - 1]);
        assert !ForeignFormat(es, wiped, a, k);
      } else {
        assert c[k] == b[k - |a|];
      }
    }
  }

  lemma OwnSnoc(es: seq<Entry>, wiped: set<nat>, log: seq<Event>, e: Event)
    requires FormatsOwn(es, wiped, log)
    requires e.Vdc? && e.format && log != [] && log[|log| - 1] == Tried(e.idx, 0) && e.idx < |es| ==>
               es[e.idx].partition in wiped
    ensures FormatsOwn(es, wiped, log + [e])
  {
    var c := log + [e];
    forall k | 0 <= k < |c|
      ensures !ForeignFormat(es, wiped, c, k)
    {
      if k < |log| {
        assert c[k] == log[k] && (k > 0 ==> c[k - 1] == log[k - 1]);
        assert !ForeignFormat(es, wiped, log, k);
      }
    }
  }

  /** A run in which nothing was formatted that was not wiped, and what raised the flag. */
  ghost predicate Owned(es: seq<Entry>, wiped: set<nat>, mode: Mode, r: Run) {
    && FormatsOwn(es, wiped, r.log) && r.wiped <= wiped
    && (r.flag ==> exists i :: Flagging(es, wiped, mode, i, r.i))
  }

  lemma TriesOwned(es: seq<Entry>, wiped: set<nat>, log: seq<Event>, i: nat, stop: nat, script: seq<nat>)
    requires FormatsOwn(es, wiped, log) && i < stop
    ensures var t := TryGroup(i, stop, script);
            FormatsOwn(es, wiped, log + TriesLog(i, t)) && (t.ok ==> i <= t.at < stop)
  {
    TriesAreReal(i, stop, script);
    var t := TryGroup(i, stop, script);
    FailuresMountNothing(i, t.fs);
    hide TryGroup, Failures;
    OwnAppend(es, wiped, log, TriesLog(i, t));
  }

  lemma FlaggingLater(es: seq<Entry>, wiped: set<nat>, mode: Mode, r: Run, at: int)
    requires Owned(es, wiped, mode, r) && r.i <= at
    ensures r.flag ==> exists i :: Flagging(es, wiped, mode, i, at)
  {
    if r.flag {
      var i :| Flagging(es, wiped, mode, i, r.i);
      assert Flagging(es, wiped, mode, i, at);
    }
  }

  lemma FailedOwned(es: seq<Entry>, wiped: set<nat>, mode: Mode, r: Run, top: nat, errno: nat)
    requires FormatsOwn(es, wiped, r.log) && r.wiped <= wiped && top < |es| && Eligible(es[top], mode)
    requires GroupEnd(es, top, top) <= r.i
    ensures Owned(es, wiped, mode, FailedBy(es[top], top, errno, r))
  {
    hide FormatsOwn, Eligible;
    var e := es[top];
    var c := Checked(top, e.partition in r.wiped);
    OwnSnoc(es, wiped, r.log, c);
    var t := FailedBy(e, top, errno, r);
    if t.flag {
      assert Flagging(es, wiped, mode, top, t.i);
    }
    var log := r.log + [c];
    var v := Vdc(top, c.wiped && e.formattable, Next(r.script) != 0);
    OwnSnoc(es, wiped, log, v);
    OwnSnoc(es, wiped, log, Format(top, true));
    OwnSnoc(es, wiped, log, Format(top, false));
    OwnSnoc(es, wiped, log + [v], Format(top, true));
    OwnSnoc(es, wiped, log + [v], Format(top, false));
  }

  lemma GroupOwned(es: seq<Entry>, wiped: set<nat>, mode: Mode, r: Run)
    requires 0 <= r.i < |es| && Eligible(es[r.i], mode) && Owned(es, wiped, mode, r)
    requires forall i, t, j :: !Mixed(es, wiped, mode, i, t, j)
    ensures Owned(es, wiped, mode, GroupBy(es, r))
  {
    hide FormatsOwn, Eligible, TryGroup, TriesLog, ErrnoOf, FailedBy, MountedBy, Mixed, Flagging;
    var g := GroupEnd(es, r.i, r.i);
    GroupFacts(es, r.i);
    TriesOwned(es, wiped, r.log, r.i, g, r.script);
    var t := TryGroup(r.i, g, r.script);
    var q := r.(i := AfterGroup(es, r.i), log := r.log + TriesLog(r.i, t), script := t.rest);
    if t.ok {
      FlaggingLater(es, wiped, mode, r, q.i);
      MountedOwned(es, wiped, mode, q, r.i, t.at, if r.flag then WhoFlags(es, wiped, mode, r) else 0);
    } else {
      FailedOwned(es, wiped, mode, q, r.i, ErrnoOf(t.fs));
    }
  }

  ghost function WhoFlags(es: seq<Entry>, wiped: set<nat>, mode: Mode, r: Run): (i: nat)
    requires Owned(es, wiped, mode, r) && r.flag
    ensures Flagging(es, wiped, mode, i, r.i)
  {
    var i: nat :| Flagging(es, wiped, mode, i, r.i);
    i
  }

  lemma MountedOwned(es: seq<Entry>, wiped: set<nat>, mode: Mode, r: Run, top: nat, at: nat, i: nat)
    requires Owned(es, wiped, mode, r) && top < |es| && top <= at < GroupEnd(es, top, top)
    requires Eligible(es[top], mode) && (r.flag ==> Flagging(es, wiped, mode, i, top))
    requires !Mixed(es, wiped, mode, i, top, at)
    ensures Owned(es, wiped, mode, MountedBy(es[at], at, r))
  {
    hide FormatsOwn, Eligible, Flagging;
    OwnSnoc(es, wiped, r.log, Vdc(at, r.flag && es[at].MetadataEncrypted(), Next(Later(r.script)) != 0));
    OwnSnoc(es, wiped, r.log, Stuck(at));
  }

  lemma TurnOwned(es: seq<Entry>, wiped: set<nat>, mode: Mode, r: Run)
    requires 0 <= r.i < |es| && Owned(es, wiped, mode, r)
    requires forall i, t, j :: !Mixed(es, wiped, mode, i, t, j)
    ensures Owned(es, wiped, mode, TurnBy(es, mode, r))
  {
    hide FormatsOwn, Eligible, PrepareBy, GroupBy, Mixed;
    var p := PrepareBy(es[r.i], mode, r.avbOpen, r.script);
    PreparedEligible(es[r.i], mode, r.avbOpen, r.script);
    FlaggingLater(es, wiped, mode, r, r.i + 1);
    if p.0 == Go {
      GroupOwned(es, wiped, mode, r.(avbOpen := p.1, script := p.2));
    } else {
      OwnSnoc(es, wiped, r.log, NoHandle(r.i));
    }
  }

  lemma {:induction false} RunOwned(es: seq<Entry>, wiped: set<nat>, mode: Mode, r: Run)
    requires 0 <= r.i && Owned(es, wiped, mode, r)
    requires forall i, t, j :: !Mixed(es, wiped, mode, i, t, j)
    ensures Owned(es, wiped, mode, RunBy(es, mode, r))
    decreases r.wiped, |es| - r.i
  {
    hide Owned, TurnBy, Mixed;
    if !r.fatal && r.i < |es| {
      TurnOwned(es, wiped, mode, r);
      TurnAdvances(es, mode, r);
      RunOwned(es, wiped, mode, TurnBy(es, mode, r));
    }
  }

  // ----- Answers that lead to a given run

  function Yes(n: nat): (s: seq<nat>) {
    seq(n, _ => 1)
  }

  function No(n: nat): (s: seq<nat>) {
    seq(n, _ => 0)
  }

  lemma Asked(n: nat, s: seq<nat>)
    ensures Next([n] + s) == n && Later([n] + s) == s
  {
  }

  lemma AskedYes(asked: bool, n: nat, rest: seq<nat>)
    requires asked ==> n > 0
    ensures AskIf(asked, Yes(n) + rest) == (true, Yes(if asked then n - 1 else n) + rest)
  {
    if asked {
      assert Yes(n) + rest == [1] + (Yes(n - 1) + rest);
      Asked(1, Yes(n - 1) + rest);
    }
  }

  /** Answers with which an entry is passed over. */
  function Passing(e: Entry, mode: Mode): (s: seq<nat>) {
    if e.firstStage then if e.formattable then [1] else []
    else if Eligible(e, mode) then [0]
    else []
  }

  lemma Passed(e: Entry, mode: Mode, avbOpen: bool, rest: seq<nat>)
    ensures PrepareBy(e, mode, avbOpen, Passing(e, mode) + rest) == (Skip, avbOpen, rest)
  {
    hide Eligible, IsExt;
    Asked(0, rest);
    Asked(1, rest);
    assert [] + rest == rest;
  }

  function Count(b: bool): (n: nat) {
    if b then 1 else 0
  }

  /** Answers with which an entry that takes part is going to be mounted. */
  function Going(e: Entry, avbOpen: bool): (s: seq<nat>) {
    No(Count(e.firstStage))
    + Yes(Count(IsExt(e.fsType)) + Count(e.logical) + 1 + Count(e.wait) + Count(e.avb && !avbOpen)
          + Count(e.avb || e.avbKeys))
  }

  lemma Gone(e: Entry, mode: Mode, avbOpen: bool, rest: seq<nat>)
    requires Eligible(e, mode)
    ensures PrepareBy(e, mode, avbOpen, Going(e, avbOpen) + rest) == (Go, avbOpen || e.avb, rest)
  {
    hide Eligible, SetUpBy, Yes, No, Count, IsExt, PrepareBy;
    var n := Count(IsExt(e.fsType)) + Count(e.logical) + 1 + Count(e.wait) + Count(e.avb && !avbOpen)
             + Count(e.avb || e.avbKeys);
    GoneSetUp(e, avbOpen, rest);
    Asked(0, Yes(n) + rest);
    FirstAnswers(e.firstStage, Yes(n), rest);
    PreparedIs(e, mode, avbOpen, Going(e, avbOpen) + rest);
  }

  lemma PreparedIs(e: Entry, mode: Mode, avbOpen: bool, script: seq<nat>)
    requires Eligible(e, mode) && (e.firstStage ==> Next(script) == 0)
    ensures PrepareBy(e, mode, avbOpen, script) == SetUpBy(e, avbOpen, if e.firstStage then Later(script) else script)
  {
    hide SetUpBy;
  }

  lemma GoneSetUp(e: Entry, avbOpen: bool, rest: seq<nat>)
    ensures SetUpBy(e, avbOpen, Yes(Count(IsExt(e.fsType)) + Count(e.logical) + 1 + Count(e.wait)
                                    + Count(e.avb && !avbOpen) + Count(e.avb || e.avbKeys)) + rest)
            == (Go, avbOpen || e.avb, rest)
  {
    hide IsExt, ReadyBy, VerifyBy, Yes, Count;
    GoneReady(IsExt(e.fsType), e.logical, e.wait, Count(e.avb && !avbOpen) + Count(e.avb || e.avbKeys), rest);
    GoneVerified(e.avb, e.avbKeys, avbOpen, rest);
  }

  lemma FirstAnswers(asked: bool, s: seq<nat>, rest: seq<nat>)
    ensures No(Count(asked)) + s + rest == if asked then [0] + (s + rest) else s + rest
  {
  }

  lemma GoneReady(ext: bool, logical: bool, wait: bool, v: nat, rest: seq<nat>)
    ensures ReadyBy(ext, logical, wait, Yes(Count(ext) + Count(logical) + 1 + Count(wait) + v) + rest)
            == (true, Yes(v) + rest)
  {
    hide AskIf, Yes;
    AskedYes(ext, Count(ext) + Count(logical) + 1 + Count(wait) + v, rest);
    AskedYes(logical, Count(logical) + 1 + Count(wait) + v, rest);
    AskedYes(true, 1 + Count(wait) + v, rest);
    AskedYes(wait, Count(wait) + v, rest);
  }

  lemma GoneVerified(avb: bool, avbKeys: bool, avbOpen: bool, rest: seq<nat>)
    ensures VerifyBy(avb, avbKeys, avbOpen, Yes(Count(avb && !avbOpen) + Count(avb || avbKeys)) + rest)
            == (Go, avbOpen || avb, rest)
  {
    assert Yes(0) + rest == rest;
    hide AskIf, Yes;
    AskedYes(avb && !avbOpen, Count(avb && !avbOpen) + Count(avb || avbKeys), rest);
    AskedYes(avb || avbKeys, Count(avb || avbKeys), rest);
  }

  function PassingAll(es: seq<Entry>, mode: Mode, a: nat, b: nat): (s: seq<nat>)
    requires b <= |es|
    decreases b - a
  {
    if a >= b then [] else Passing(es[a], mode) + PassingAll(es, mode, a + 1, b)
  }

  lemma {:induction false} PassedAll(es: seq<Entry>, mode: Mode, r: Run, b: nat, rest: seq<nat>)
    requires 0 <= r.i <= b <= |es| && !r.fatal && r.script == PassingAll(es, mode, r.i, b) + rest
    ensures RunBy(es, mode, r) == RunBy(es, mode, r.(i := b, script := rest))
    decreases b - r.i
  {
    hide Passing, PrepareBy, TurnBy, RunBy;
    if r.i < b {
      var more := PassingAll(es, mode, r.i + 1, b) + rest;
      AppendAssoc(Passing(es[r.i], mode), PassingAll(es, mode, r.i + 1, b), rest);
      Passed(es[r.i], mode, r.avbOpen, more);
      TurnIs(es, mode, r);
      RunStep(es, mode, r);
      PassedAll(es, mode, r.(i := r.i + 1, script := more), b, rest);
    } else {
      assert [] + rest == rest;
    }
  }

  function Magics(n: nat): (fs: seq<Failure>) {
    seq(n, _ => Magic)
  }

  lemma TriedLast(i: nat, stop: nat, rest: seq<nat>)
    requires i <= stop
    ensures i == stop ==> TryGroup(i, stop, No(0) + rest) == Tries(Magics(0), false, stop, 0, rest)
    ensures i < stop ==> TryGroup(i, stop, No(0) + ([1, 0] + rest)) == Tries(Magics(0), true, i, 0, rest)
  {
    assert No(0) + rest == rest && No(0) + ([1, 0] + rest) == [1] + ([0] + rest);
    Asked(1, [0] + rest);
    Asked(0, rest);
    assert Magics(0) == [];
  }

  lemma TriedOne(i: nat, stop: nat, n: nat, rest: seq<nat>)
    requires i < stop && n > 0
    ensures var r := TryGroup(i + 1, stop, No(n - 1) + rest);
            TryGroup(i, stop, No(n) + rest) == r.(fs := [Magic] + r.fs)
  {
    NoMore(n, rest);
    hide TryOne, No;
  }

  /** Every entry has a bad magic, until one mounts at the first try. */
  lemma {:induction false} TriedTo(i: nat, stop: nat, j: nat, rest: seq<nat>)
    requires i <= j <= stop
    ensures j == stop ==> TryGroup(i, stop, No(j - i) + rest) == Tries(Magics(j - i), false, stop, 0, rest)
    ensures j < stop ==> TryGroup(i, stop, No(j - i) + ([1, 0] + rest)) == Tries(Magics(j - i), true, j, 0, rest)
    decreases j - i
  {
    hide TryGroup, No;
    if i == j {
      TriedLast(i, stop, rest);
    } else {
      TriedTo(i + 1, stop, j, rest);
      TriedOne(i, stop, j - i, rest);
      TriedOne(i, stop, j - i, [1, 0] + rest);
      assert [Magic] + Magics(j - i - 1) == Magics(j - i);
    }
  }

  lemma NoMore(n: nat, rest: seq<nat>)
    requires n > 0
    ensures TryOne(No(n) + rest) == (Failed(Magic), No(n - 1) + rest)
  {
    assert No(n) + rest == [0] + (No(n - 1) + rest);
    Asked(0, No(n - 1) + rest);
  }

  lemma {:induction false} RunGrows(es: seq<Entry>, mode: Mode, r: Run)
    requires 0 <= r.i
    ensures r.log <= RunBy(es, mode, r).log
    decreases r.wiped, |es| - r.i
  {
    hide TurnBy;
    if !r.fatal && r.i < |es| {
      TurnGrows(es, mode, r);
      TurnAdvances(es, mode, r);
      RunGrows(es, mode, TurnBy(es, mode, r));
    }
  }

  lemma TurnGrows(es: seq<Entry>, mode: Mode, r: Run)
    requires 0 <= r.i < |es|
    ensures r.log <= TurnBy(es, mode, r).log
  {
    hide PrepareBy, TryGroup, TriesLog, GroupEnd, MountedBy, FailedBy, AfterGroup, ErrnoOf;
    var p := PrepareBy(es[r.i], mode, r.avbOpen, r.script);
    if p.0 == Go {
      var t := TryGroup(r.i, GroupEnd(es, r.i, r.i), p.2);
      var q := r.(i := AfterGroup(es, r.i), log := r.log + TriesLog(r.i, t), script := t.rest, avbOpen := p.1);
      TriedInside(r.i, GroupEnd(es, r.i, r.i), p.2);
      GroupFacts(es, r.i);
      if t.ok {
        MountedGrows(es[t.at], t.at, q);
      } else {
        FailedGrows(es[r.i], r.i, ErrnoOf(t.fs), q);
      }
    }
  }

  lemma MountedGrows(e: Entry, at: nat, r: Run)
    ensures r.log <= MountedBy(e, at, r).log
  {
  }

  lemma FailedGrows(e: Entry, top: nat, errno: nat, r: Run)
    ensures r.log <= FailedBy(e, top, errno, r).log
  {
  }

  // ----- A turn in which a group mounts

  function Encrypting(e: Entry): (s: seq<nat>) {
    if e.MetadataEncrypted() then [1, 1] else []
  }

  /** Answers with which the loop, at `t`, mounts entry `j`. */
  function Mounting(es: seq<Entry>, t: nat, j: nat, avbOpen: bool): (s: seq<nat>)
    requires t <= j < |es|
  {
    Going(es[t], avbOpen) + (No(j - t) + ([1, 0] + Encrypting(es[j])))
  }

  /** What such a turn leaves. */
  function MountsLog(es: seq<Entry>, t: nat, j: nat, flag: bool): (log: seq<Event>)
    requires t <= j < |es|
  {
    Failures(t, Magics(j - t)) + [Tried(j, 0)] + if es[j].MetadataEncrypted() then [Vdc(j, flag, true)] else []
  }

  lemma Mounts(es: seq<Entry>, mode: Mode, r: Run, j: nat, rest: seq<nat>)
    requires 0 <= r.i < |es| && Eligible(es[r.i], mode) && r.i <= j < GroupEnd(es, r.i, r.i)
    requires r.script == Mounting(es, r.i, j, r.avbOpen) + rest && !r.fatal
    ensures var t := TurnBy(es, mode, r);
            && !t.fatal && t.i == AfterGroup(es, r.i) && t.script == rest && t.flag == r.flag
            && t.log == r.log + MountsLog(es, r.i, j, r.flag) && t.avbOpen == (r.avbOpen || es[r.i].avb)
  {
    hide Eligible, Going, PrepareBy, GroupEnd, GroupBy, No, Encrypting, MountsLog, TurnBy;
    var i := r.i;
    var after := No(j - i) + ([1, 0] + (Encrypting(es[j]) + rest));
    MountingAnswers(es, i, j, r.avbOpen, rest);
    Gone(es[i], mode, r.avbOpen, after);
    TurnIs(es, mode, r);
    GroupMounts(es, r.(avbOpen := r.avbOpen || es[i].avb, script := after), j, rest);
  }

  lemma MountingAnswers(es: seq<Entry>, t: nat, j: nat, avbOpen: bool, rest: seq<nat>)
    requires t <= j < |es|
    ensures Mounting(es, t, j, avbOpen) + rest
            == Going(es[t], avbOpen) + (No(j - t) + ([1, 0] + (Encrypting(es[j]) + rest)))
  {
    hide Going, No, Encrypting;
  }

  lemma GroupIs(es: seq<Entry>, r: Run, t: Tries)
    requires 0 <= r.i < |es| && t == TryGroup(r.i, GroupEnd(es, r.i, r.i), r.script) && (t.ok ==> t.at < |es|)
    ensures var q := AfterTries(es, r, t);
            && q.i == AfterGroup(es, r.i) && q.log == r.log + TriesLog(r.i, t) && q.script == t.rest
            && q.wiped == r.wiped && q.flag == r.flag && q.fatal == r.fatal && q.avbOpen == r.avbOpen
            && GroupBy(es, r) == if t.ok then MountedBy(es[t.at], t.at, q) else FailedBy(es[r.i], r.i, ErrnoOf(t.fs), q)
  {
    hide TryGroup, TriesLog, MountedBy, FailedBy, ErrnoOf, GroupEnd;
  }

  /** The run once the entries of a group have been tried. */
  function AfterTries(es: seq<Entry>, r: Run, t: Tries): (q: Run)
    requires 0 <= r.i < |es|
  {
    r.(i := AfterGroup(es, r.i), log := r.log + TriesLog(r.i, t), script := t.rest)
  }

  lemma GroupMounts(es: seq<Entry>, r: Run, j: nat, rest: seq<nat>)
    requires 0 <= r.i < |es| && r.i <= j < GroupEnd(es, r.i, r.i) && !r.fatal
    requires r.script == No(j - r.i) + ([1, 0] + (Encrypting(es[j]) + rest))
    ensures var t := GroupBy(es, r);
            && !t.fatal && t.i == AfterGroup(es, r.i) && t.script == rest && t.flag == r.flag
            && t.log == r.log + MountsLog(es, r.i, j, r.flag) && t.avbOpen == r.avbOpen
  {
    hide Failures, Magics, GroupEnd, TryGroup, No, AfterGroup, GroupBy, AfterTries, MountedBy, Encrypting, TriesLog,
         MountsLog;
    var i := r.i;
    TriedTo(i, GroupEnd(es, i, i), j, Encrypting(es[j]) + rest);
    var t := Tries(Magics(j - i), true, j, 0, Encrypting(es[j]) + rest);
    GroupIs(es, r, t);
    MountedIs(es[j], j, AfterTries(es, r, t), rest);
    LogsAgree(es, r.log, i, j, r.flag, t);
  }

  lemma MountedIs(e: Entry, at: nat, r: Run, rest: seq<nat>)
    requires r.script == Encrypting(e) + rest && !r.fatal
    ensures var t := MountedBy(e, at, r);
            && !t.fatal && t.i == r.i && t.script == rest && t.flag == r.flag && t.avbOpen == r.avbOpen
            && t.log == if e.MetadataEncrypted() then r.log + [Vdc(at, r.flag, true)] else r.log
  {
    if e.MetadataEncrypted() {
      assert r.script == [1] + ([1] + rest);
      Asked(1, [1] + rest);
      Asked(1, rest);
    } else {
      assert r.script == rest;
    }
  }

  lemma LogsAgree(es: seq<Entry>, log: seq<Event>, i: nat, j: nat, flag: bool, t: Tries)
    requires i <= j < |es| && t.fs == Magics(j - i) && t.ok && t.at == j && t.before == 0
    ensures log + MountsLog(es, i, j, flag)
            == if es[j].MetadataEncrypted() then log + TriesLog(i, t) + [Vdc(j, flag, true)] else log + TriesLog(i, t)
  {
    hide Failures, Magics;
  }

  // ----- A turn in which a wiped group fails

  /** Answers for a group that failed on a wiped partition: format it and replay, or nothing succeeds. */
  function Failing(e: Entry, replay: bool): (s: seq<nat>) {
    if e.formattable then
      No(Count(e.MetadataEncrypted() && e.mountPoint == "/data")) + [if replay then 1 else 0]
    else
      No(Count(e.MetadataEncrypted()))
  }

  function FailingAt(es: seq<Entry>, t: nat, avbOpen: bool, replay: bool): (s: seq<nat>)
    requires t < |es|
  {
    Going(es[t], avbOpen) + (No(GroupEnd(es, t, t) - t) + Failing(es[t], replay))
  }

  lemma MagicErrno(n: nat)
    requires n > 0
    ensures ErrnoOf(Magics(n)) == EINVAL
  {
    assert Magics(n)[0] == Magic;
  }

  lemma WipedFails(e: Entry, top: nat, replay: bool, r: Run, rest: seq<nat>)
    requires e.partition in r.wiped && (replay ==> e.formattable) && r.script == Failing(e, replay) + rest && !r.fatal
    ensures var t := FailedBy(e, top, EINVAL, r);
            && t.flag && !t.fatal && t.script == rest && t.i == (if replay then top else r.i) && t.avbOpen == r.avbOpen
  {
    hide FailedBy;
    FailedIs(e, top, r);
    if e.formattable {
      var last := [if replay then 1 else 0] + rest;
      Asked(if replay then 1 else 0, rest);
      Asked(0, last);
      assert e.MetadataEncrypted() && e.mountPoint == "/data" ==> r.script == [0] + last;
      assert !(e.MetadataEncrypted() && e.mountPoint == "/data") ==> r.script == last;
    } else {
      Asked(0, rest);
      assert e.MetadataEncrypted() ==> r.script == [0] + rest;
      assert !e.MetadataEncrypted() ==> r.script == rest;
    }
  }

  lemma FailedIs(e: Entry, top: nat, r: Run)
    requires e.partition in r.wiped
    ensures var t := FailedBy(e, top, EINVAL, r);
            && t.flag && t.fatal == r.fatal && t.avbOpen == r.avbOpen
            && (e.formattable ==>
                  if e.MetadataEncrypted() && e.mountPoint == "/data" then
                    Next(r.script) == 0 ==>
                      && t.script == Later(Later(r.script))
                      && t.i == if Next(Later(r.script)) != 0 then top else r.i
                  else t.script == Later(r.script) && t.i == if Next(r.script) != 0 then top else r.i)
            && (!e.formattable ==>
                  t.i == r.i && t.script == if e.MetadataEncrypted() then Later(r.script) else r.script)
  {
  }

  lemma Fails(es: seq<Entry>, mode: Mode, r: Run, replay: bool, rest: seq<nat>)
    requires 0 <= r.i < |es| && Eligible(es[r.i], mode) && es[r.i].partition in r.wiped && !r.fatal
    requires replay ==> es[r.i].formattable
    requires r.script == FailingAt(es, r.i, r.avbOpen, replay) + rest
    ensures var t := TurnBy(es, mode, r);
            && t.flag && !t.fatal && t.script == rest && t.i == (if replay then r.i else AfterGroup(es, r.i))
            && t.avbOpen == (r.avbOpen || es[r.i].avb)
  {
    hide Eligible, Going, PrepareBy, GroupEnd, GroupBy, No, Failing, TurnBy;
    var i := r.i;
    var after := No(GroupEnd(es, i, i) - i) + (Failing(es[i], replay) + rest);
    assert r.script == Going(es[i], r.avbOpen) + after;
    Gone(es[i], mode, r.avbOpen, after);
    TurnIs(es, mode, r);
    GroupFails(es, r.(avbOpen := r.avbOpen || es[i].avb, script := after), replay, rest);
  }

  lemma GroupFails(es: seq<Entry>, r: Run, replay: bool, rest: seq<nat>)
    requires 0 <= r.i < |es| && es[r.i].partition in r.wiped && !r.fatal && (replay ==> es[r.i].formattable)
    requires r.script == No(GroupEnd(es, r.i, r.i) - r.i) + (Failing(es[r.i], replay) + rest)
    ensures var t := GroupBy(es, r);
            && t.flag && !t.fatal && t.script == rest && t.i == (if replay then r.i else AfterGroup(es, r.i))
            && t.avbOpen == r.avbOpen
  {
    GroupFacts(es, r.i);
    hide Failures, Magics, GroupEnd, TryGroup, No, FailedBy, Failing, TriesLog, AfterGroup, MountedBy, ErrnoOf,
         GroupBy, AfterTries;
    var i := r.i;
    var g := GroupEnd(es, i, i);
    var after := Failing(es[i], replay) + rest;
    TriedTo(i, g, g, after);
    MagicErrno(g - i);
    var t := Tries(Magics(g - i), false, g, 0, after);
    GroupIs(es, r, t);
    WipedFails(es[i], i, replay, AfterTries(es, r, t), rest);
  }

  // ----- Exactly when

  /** Answers with which the flag raised for entry `i` reaches entry `j`. */
  lemma MixedRun(es: seq<Entry>, wiped: set<nat>, mode: Mode, i: nat, t: nat, j: nat) returns (script: seq<nat>)
    requires Mixed(es, wiped, mode, i, t, j)
    ensures !FormatsOwn(es, wiped, RunOf(es, wiped, mode, script).log)
  {
    hide Eligible, PassingAll, FailingAt, Mounting, RunBy, TurnBy;
    var replay := t < GroupEnd(es, i, i);
    var next := if replay then i else GroupEnd(es, i, i);
    var open := es[i].avb;
    var s3 := Mounting(es, t, j, open);
    var s2 := PassingAll(es, mode, next, t) + s3;
    var s1 := FailingAt(es, i, false, replay) + s2;
    script := PassingAll(es, mode, 0, i) + s1;
    var r := Start(wiped, script);
    PassedAll(es, mode, r, i, s1);
    var r1 := r.(i := i, script := s1);
    Fails(es, mode, r1, replay, s2);
    RunStep(es, mode, r1);
    var r2 := TurnBy(es, mode, r1);
    PassedAll(es, mode, r2, t, s3);
    var r3 := r2.(i := t, script := s3);
    assert s3 + [] == s3;
    Mounts(es, mode, r3, j, []);
    RunStep(es, mode, r3);
    var r4 := TurnBy(es, mode, r3);
    RunGrows(es, mode, r4);
    EndsForeign(es, wiped, r3.log, t, j, RunOf(es, wiped, mode, script).log);
  }

  lemma EndsForeign(es: seq<Entry>, wiped: set<nat>, before: seq<Event>, t: nat, j: nat, log: seq<Event>)
    requires t <= j < |es| && es[j].MetadataEncrypted() && es[j].partition !in wiped
    requires before + MountsLog(es, t, j, true) <= log
    ensures !FormatsOwn(es, wiped, log)
  {
    hide Failures, Magics;
    var c := before + MountsLog(es, t, j, true);
    var k := |c| - 1;
    assert c[k] == Vdc(j, true, true) && c[k - 1] == Tried(j, 0);
    assert log[k] == c[k] && log[k - 1] == c[k - 1];
    assert ForeignFormat(es, wiped, log, k);
  }

  /**
   In every run a mounted entry is encrypted with formatting only if its partition was wiped,
   exactly when in the table no entry that would be found wiped comes before one that is to be
   encrypted and whose own partition is not wiped.
   */
  lemma OwnFormatsExact(es: seq<Entry>, wiped: set<nat>, mode: Mode)
    ensures (forall script :: FormatsOwn(es, wiped, RunOf(es, wiped, mode, script).log))
            <==> forall i, t, j :: !Mixed(es, wiped, mode, i, t, j)
  {
    hide Mixed, RunBy;
    if i, t, j :| Mixed(es, wiped, mode, i, t, j) {
      var script := MixedRun(es, wiped, mode, i, t, j);
    } else {
      forall script
        ensures FormatsOwn(es, wiped, RunOf(es, wiped, mode, script).log)
      {
        RunOwned(es, wiped, mode, Start(wiped, script));
      }
    }
  }

  // ----- Mounting a mount point twice

  lemma MountsCount(es: seq<Entry>, log: seq<Event>, t: nat, j: nat, flag: bool, m: string)
    requires t <= j < |es| && es[j].mountPoint == m
    ensures MountCount(es, log + MountsLog(es, t, j, flag), m) == MountCount(es, log, m) + 1
  {
    hide MountCount;
    var f := Failures(t, Magics(j - t));
    var v := if es[j].MetadataEncrypted() then [Vdc(j, flag, true)] else [];
    FailuresMountNothing(t, Magics(j - t));
    CountNone(es, f, m);
    CountNone(es, v, m);
    CountOne(es, j, m);
    LogGrows(es, {}, Default, f, [Tried(j, 0)], m);
    LogGrows(es, {}, Default, f + [Tried(j, 0)], v, m);
    LogGrows(es, {}, Default, log, MountsLog(es, t, j, flag), m);
  }

  lemma CountOne(es: seq<Entry>, j: nat, m: string)
    requires j < |es| && es[j].mountPoint == m
    ensures MountCount(es, [Tried(j, 0)], m) == 1
  {
    assert [Tried(j, 0)][..0] == [];
  }

  lemma {:induction false} CountGrows(es: seq<Entry>, a: seq<Event>, b: seq<Event>, m: string)
    requires a <= b
    ensures MountCount(es, a, m) <= MountCount(es, b, m)
  {
    LogGrows(es, {}, Default, a, b[|a|..], m);
    assert a + b[|a|..] == b;
  }

  /** The run goes on to entry `t` and mounts it. */
  lemma GoesOnToMount(es: seq<Entry>, mode: Mode, r: Run, t: nat, rest: seq<nat>) returns (u: Run)
    requires 0 <= r.i <= t < |es| && Eligible(es[t], mode) && !r.fatal
    requires r.script == PassingAll(es, mode, r.i, t) + (Mounting(es, t, t, r.avbOpen) + rest)
    ensures 0 <= u.i == AfterGroup(es, t) && RunBy(es, mode, r) == RunBy(es, mode, u) && !u.fatal && u.script == rest
    ensures u.avbOpen == (r.avbOpen || es[t].avb)
    ensures MountCount(es, u.log, es[t].mountPoint) == MountCount(es, r.log, es[t].mountPoint) + 1
  {
    GroupFacts(es, t);
    hide Eligible, PassingAll, Mounting, RunBy, TurnBy, MountCount, MountsLog, AfterGroup, GroupEnd;
    var script := Mounting(es, t, t, r.avbOpen) + rest;
    PassedAll(es, mode, r, t, script);
    var q := r.(i := t, script := script);
    Mounts(es, mode, q, t, rest);
    RunStep(es, mode, q);
    MountsCount(es, q.log, t, t, q.flag, es[t].mountPoint);
    u := TurnBy(es, mode, q);
  }

  /** Answers with which the mount point of entry `s` is mounted again at entry `t`. */
  lemma TwiceRun(es: seq<Entry>, wiped: set<nat>, mode: Mode, s: nat, t: nat) returns (script: seq<nat>)
    requires s < |es| && GroupEnd(es, s, s) <= t < |es| && Eligible(es[s], mode) && Eligible(es[t], mode)
    requires es[t].mountPoint == es[s].mountPoint
    ensures MountCount(es, RunOf(es, wiped, mode, script).log, es[s].mountPoint) >= 2
  {
    var next := AfterGroup(es, s);
    assert next <= t;
    hide Eligible, PassingAll, Mounting, RunBy, MountCount, AfterGroup, GroupEnd;
    var s2 := PassingAll(es, mode, next, t) + (Mounting(es, t, t, es[s].avb) + []);
    script := PassingAll(es, mode, 0, s) + (Mounting(es, s, s, false) + s2);
    var first := GoesOnToMount(es, mode, Start(wiped, script), s, s2);
    var second := GoesOnToMount(es, mode, first, t, []);
    RunGrows(es, mode, second);
    CountGrows(es, second.log, RunOf(es, wiped, mode, script).log, es[s].mountPoint);
  }

  /**
   In every run each mount point is mounted at most once, exactly when among the entries that
   take part no mount point comes again after its group.
   */
  lemma MountedOnceExact(es: seq<Entry>, wiped: set<nat>, mode: Mode)
    ensures (forall script :: AtMostOnce(es, RunOf(es, wiped, mode, script).log)) <==> MetOnce(es, mode)
  {
    hide RunBy, MountCount, Eligible;
    if MetOnce(es, mode) {
      forall script
        ensures AtMostOnce(es, RunOf(es, wiped, mode, script).log)
      {
        EveryRun(es, wiped, mode, script);
      }
    } else {
      var s, t :| 0 <= s < |es| && GroupEnd(es, s, s) <= t < |es| && Eligible(es[s], mode) && Eligible(es[t], mode)
                  && es[t].mountPoint == es[s].mountPoint;
      var script := TwiceRun(es, wiped, mode, s, t);
    }
  }

  /** Entries for the same mount point that follow each other are enough. */
  lemma GroupedMetOnce(es: seq<Entry>, mode: Mode)
    requires Grouped(es)
    ensures MetOnce(es, mode)
  {
    hide Eligible;
    forall s, t | 0 <= s < |es| && GroupEnd(es, s, s) <= t < |es| && Eligible(es[s], mode) && Eligible(es[t], mode)
      ensures es[t].mountPoint != es[s].mountPoint
    {
      var g := GroupEnd(es, s, s);
      assert es[g].mountPoint != es[s].mountPoint;
    }
  }

  // ----- A table

  function Plain(mountPoint: string, partition: nat): (e: Entry) {
    Entry(mountPoint, "f2fs", "", partition, "", false, false, false, false, false, false, false, false, false, false,
          false, false)
  }

  /** A wiped cache partition that is not to be formatted, and a metadata encrypted `/data` with contents. */
  const CACHE_AND_DATA: seq<Entry> :=
    [Plain("/cache", 0), Plain("/data", 1).(fileEncryption := true, keyDir := true)]

  /** The encryption service is told to format `/data` because the cache was found wiped. */
  lemma DataFormattedForCache() returns (script: seq<nat>)
    ensures !FormatsOwn(CACHE_AND_DATA, {0}, RunOf(CACHE_AND_DATA, {0}, Default, script).log)
  {
    hide RunBy;
    var es := CACHE_AND_DATA;
    assert GroupEnd(es, 1, 1) == 2 && GroupEnd(es, 0, 0) == 1;
    assert es[1].mountPoint == "/data" && es[0].mountPoint == "/cache";
    assert Mixed(es, {0}, Default, 0, 1, 1);
    script := MixedRun(es, {0}, Default, 0, 1, 1);
  }
}
