/** What is done about a group that could not be mounted, read off the log and the table. */
module MountReaction {
  import opened Bytes
  import opened MountAlternatives
  import opened MountRun
  import opened MountLaws
  import opened MountExact
  import opened MountErrno

  /** The error of the row of attempts from entry `top` on that ends the log: bad magic before all, else the first. */
  function GroupError(log: seq<Event>, top: nat): (errno: nat) {
    if log == [] || !Attempt(log[|log| - 1], top) then 0
    else
      var before := GroupError(log[..|log| - 1], top);
      match log[|log| - 1]
      case BadMagic(_) => EINVAL
      case Tried(_, errno) => if before == 0 then errno else before
      case _ => before
  }

  /** The event follows directly. */
  predicate Then(log: seq<Event>, k: nat, e: Event) {
    k < |log| && log[k] == e
  }

  /**
   The reaction to the failure checked at `k`, unless its error says that the partition is busy
   (16) or may not be accessed (13): a wiped, formattable `/data` that is to be encrypted goes to
   the encryption service to be formatted, and to the formatter if that fails; any other wiped,
   formattable partition goes to the formatter; an encrypted one goes to the encryption service to
   be mounted; for the others nothing is done.
   */
  predicate Reacts(es: seq<Entry>, log: seq<Event>, k: nat)
    requires k < |log| && log[k].Checked? && log[k].idx < |es|
  {
    var i, e := log[k].idx, es[log[k].idx];
    var errno := GroupError(log[..k], i);
    var encrypted := e.keyDir && e.fileEncryption;
    if errno == 16 || errno == 13 || !((e.formattable && log[k].wiped) || encrypted) then
      k + 1 < |log| ==> !log[k + 1].Format? && !log[k + 1].Vdc?
    else if !(e.formattable && log[k].wiped) then
      Then(log, k + 1, Vdc(i, false, true)) || Then(log, k + 1, Vdc(i, false, false))
    else if encrypted && e.mountPoint == "/data" then
      || Then(log, k + 1, Vdc(i, true, true))
      || (Then(log, k + 1, Vdc(i, true, false)) &&
          (Then(log, k + 2, Format(i, true)) || Then(log, k + 2, Format(i, false))))
    else
      Then(log, k + 1, Format(i, true)) || Then(log, k + 1, Format(i, false))
  }

  predicate AllReact(es: seq<Entry>, log: seq<Event>) {
    forall k :: 0 <= k < |log| && log[k].Checked? ==> log[k].idx < |es| && Reacts(es, log, k)
  }

  // ----- The error of a group

  lemma GroupErrorSnoc(log: seq<Event>, e: Event, top: nat)
    ensures GroupError(log + [e], top)
            == if !Attempt(e, top) then 0
               else if e.BadMagic? then EINVAL
               else if GroupError(log, top) == 0 then e.errno else GroupError(log, top)
  {
    assert (log + [e])[..|log|] == log;
  }

  lemma {:induction false} GroupErrorIs(log: seq<Event>, top: nat, fs: seq<Failure>)
    requires RealFailures(fs) && GroupError(log, top) == 0
    ensures GroupError(log + Failures(top, fs), top) == ErrnoOf(fs)
  {
    if fs == [] {
      assert log + [] == log;
    } else {
      var n := |fs| - 1;
      GroupErrorIs(log, top, fs[..n]);
      assert fs == fs[..n] + [fs[n]];
      ErrnoSnoc(fs[..n], fs[n]);
      FailureError(log + Failures(top, fs[..n]), top, top + n, fs[n]);
      hide GroupError, ErrnoOf;
      AppendAssoc(log, Failures(top, fs[..n]), FailureLog(top + n, fs[n]));
    }
  }

  lemma FailureError(log: seq<Event>, top: nat, idx: nat, f: Failure)
    requires top <= idx && (f.Twice? ==> f.first != 0)
    ensures GroupError(log + FailureLog(idx, f), top)
            == if f.Magic? then EINVAL else if GroupError(log, top) == 0 then f.first else GroupError(log, top)
  {
    hide GroupError;
    match f
    case Magic => GroupErrorSnoc(log, BadMagic(idx), top);
    case Twice(first, second) =>
      GroupErrorSnoc(log, Tried(idx, first), top);
      GroupErrorSnoc(log + [Tried(idx, first)], Tried(idx, second), top);
      assert log + FailureLog(idx, f) == log + [Tried(idx, first)] + [Tried(idx, second)];
  }

  // ----- Longer logs

  /** Reactions stay what they were when events are added that are none. */
  lemma ReactAppend(es: seq<Entry>, a: seq<Event>, b: seq<Event>)
    requires AllReact(es, a) && forall k :: 0 <= k < |b| ==> !b[k].Checked?
    requires b != [] && (b[0].Format? || b[0].Vdc?) ==> a == [] || !a[|a| - 1].Checked?
    ensures AllReact(es, a + b)
  {
    hide GroupError;
    var c := a + b;
    assert forall j :: |a| <= j < |c| ==> c[j] == b[j - |a|];
    forall k | 0 <= k < |c| && c[k].Checked?
      ensures c[k].idx < |es| && Reacts(es, c, k)
    {
      assert c[k] == a[k] && c[..k] == a[..k] && Reacts(es, a, k);
      assert forall j :: 0 <= j < |a| ==> c[j] == a[j];
      if k + 1 == |a| && b != [] {
        assert c[k + 1] == b[0];
      }
    }
  }

  /** A check with its reaction. */
  lemma ReactTo(es: seq<Entry>, log: seq<Event>, c: Event, rest: seq<Event>)
    requires AllReact(es, log) && c.Checked? && c.idx < |es| && forall k :: 0 <= k < |rest| ==> !rest[k].Checked?
    requires var whole := log + [c] + rest; whole[|log|] == c && Reacts(es, whole, |log|)
    ensures AllReact(es, log + [c] + rest)
  {
    hide GroupError;
    var whole := log + [c] + rest;
    assert forall j :: |log| < j < |whole| ==> whole[j] == rest[j - |log| - 1];
    forall k | 0 <= k < |whole| && whole[k].Checked?
      ensures whole[k].idx < |es| && Reacts(es, whole, k)
    {
      if k < |log| {
        assert whole[k] == log[k] && whole[..k] == log[..k] && Reacts(es, log, k);
        assert forall j :: 0 <= j < |log| ==> whole[j] == log[j];
      }
    }
  }

  // ----- Every turn keeps it

  /** The log does not end in attempts that are still going on. */
  predicate Settled(es: seq<Entry>, r: Run) {
    && AllReact(es, r.log)
    && (r.log != [] && !r.fatal ==> r.i >= 0 && !Attempt(r.log[|r.log| - 1], r.i))
  }

  lemma MountedSettled(es: seq<Entry>, at: nat, r: Run)
    requires at < |es| && AllReact(es, r.log) && at < r.i && r.log != [] && r.log[|r.log| - 1] == Tried(at, 0)
    ensures Settled(es, MountedBy(es[at], at, r))
  {
    hide AllReact;
    var e := if Next(r.script) == 0 then Stuck(at) else Vdc(at, r.flag, Next(Later(r.script)) != 0);
    ReactAppend(es, r.log, [e]);
  }

  lemma FormatLog(e: Entry, top: nat, r: Run)
    requires top < r.i
    ensures var t := FormatBy(e, top, r);
            && t.log == r.log + [Format(top, Next(r.script) != 0)] && t.i >= 0
            && !Attempt(t.log[|t.log| - 1], t.i)
  {
  }

  /** The encryption service formats `/data`, or else the formatter does. */
  lemma DataSettled(es: seq<Entry>, top: nat, log: seq<Event>, r: Run)
    requires top < |es| && top < r.i && AllReact(es, log) && r.log == log + [Checked(top, true)]
    requires es[top].formattable && GroupError(log, top) != 16 && GroupError(log, top) != 13
    requires es[top].MetadataEncrypted() && es[top].mountPoint == "/data"
    ensures Settled(es, WipedBy(es[top], top, r))
  {
    hide AllReact, GroupError, FormatBy;
    var e, c, ok := es[top], Checked(top, true), Next(r.script) != 0;
    var v := Vdc(top, true, ok);
    var q := r.(log := r.log + [v], script := Later(r.script), encryptable := IS_METADATA_ENCRYPTED);
    if ok {
      Whole(log, c, [v]);
      ReactTo(es, log, c, [v]);
    } else {
      var f := Format(top, Next(q.script) != 0);
      FormatLog(e, top, q);
      Whole(log, c, [v, f]);
      assert log + [c] + [v, f] == q.log + [f];
      ReactTo(es, log, c, [v, f]);
    }
  }

  lemma WipedSettled(es: seq<Entry>, top: nat, log: seq<Event>, r: Run)
    requires top < |es| && top < r.i && AllReact(es, log) && r.log == log + [Checked(top, true)]
    requires es[top].formattable && GroupError(log, top) != 16 && GroupError(log, top) != 13
    ensures Settled(es, WipedBy(es[top], top, r))
  {
    hide AllReact, GroupError, FormatBy;
    var e := es[top];
    if e.MetadataEncrypted() && e.mountPoint == "/data" {
      DataSettled(es, top, log, r);
    } else {
      var f := Format(top, Next(r.script) != 0);
      FormatLog(e, top, r);
      Whole(log, Checked(top, true), [f]);
      ReactTo(es, log, Checked(top, true), [f]);
    }
  }

  lemma Whole(log: seq<Event>, c: Event, rest: seq<Event>)
    ensures var whole := log + [c] + rest;
            && whole[|log|] == c && whole[..|log|] == log
            && forall j :: 0 <= j < |rest| ==> whole[|log| + 1 + j] == rest[j]
  {
  }

  lemma FailedSettled(es: seq<Entry>, top: nat, errno: nat, r: Run)
    requires top < |es| && top < r.i && AllReact(es, r.log) && GroupError(r.log, top) == errno
    ensures Settled(es, FailedBy(es[top], top, errno, r))
  {
    hide AllReact, GroupError, WipedBy;
    var e, c := es[top], Checked(top, es[top].partition in r.wiped);
    var q := r.(log := r.log + [c], flag := c.wiped);
    if errno != EBUSY && errno != EACCES && e.formattable && c.wiped {
      WipedSettled(es, top, r.log, q);
    } else if errno != EBUSY && errno != EACCES && e.MetadataEncrypted() {
      var v := Vdc(top, false, Next(r.script) != 0);
      Whole(r.log, c, [v]);
      ReactTo(es, r.log, c, [v]);
    } else {
      Whole(r.log, c, []);
      assert r.log + [c] + [] == r.log + [c];
      ReactTo(es, r.log, c, []);
    }
  }

  lemma NoError(log: seq<Event>, top: nat)
    requires log != [] ==> !Attempt(log[|log| - 1], top)
    ensures GroupError(log, top) == 0
  {
  }

  lemma TriesSettled(es: seq<Entry>, log: seq<Event>, i: nat, stop: nat, script: seq<nat>)
    requires AllReact(es, log) && i < stop
    ensures var t := TryGroup(i, stop, script);
            && AllReact(es, log + TriesLog(i, t)) && RealFailures(t.fs)
            && (t.ok ==>
                  && i <= t.at < stop && TriesLog(i, t) != []
                  && TriesLog(i, t)[|TriesLog(i, t)| - 1] == Tried(t.at, 0))
  {
    TriesAreReal(i, stop, script);
    TriedInside(i, stop, script);
    var t := TryGroup(i, stop, script);
    FailuresMountNothing(i, t.fs);
    hide TryGroup, Failures, AllReact;
    ReactAppend(es, log, TriesLog(i, t));
  }

  lemma GroupSettled(es: seq<Entry>, r: Run)
    requires 0 <= r.i < |es| && Settled(es, r) && !r.fatal
    ensures Settled(es, GroupBy(es, r))
  {
    GroupFacts(es, r.i);
    var i, g := r.i, GroupEnd(es, r.i, r.i);
    NoError(r.log, i);
    hide AllReact, TryGroup, TriesLog, ErrnoOf, FailedBy, MountedBy, GroupError, GroupBy, AfterTries, GroupEnd,
         AfterGroup;
    var t := TryGroup(i, g, r.script);
    TriesSettled(es, r.log, i, g, r.script);
    GroupIs(es, r, t);
    Beyond(es, i);
    var q := AfterTries(es, r, t);
    if t.ok {
      assert q.log[|q.log| - 1] == Tried(t.at, 0);
      MountedSettled(es, t.at, q);
    } else {
      FailedTries(r.log, i, t);
      GroupErrorIs(r.log, i, t.fs);
      FailedSettled(es, i, ErrnoOf(t.fs), q);
    }
  }

  lemma TurnSettled(es: seq<Entry>, mode: Mode, r: Run)
    requires 0 <= r.i < |es| && Settled(es, r) && !r.fatal
    ensures Settled(es, TurnBy(es, mode, r))
  {
    hide AllReact, PrepareBy, GroupBy, TurnBy;
    var p := PrepareBy(es[r.i], mode, r.avbOpen, r.script);
    TurnIs(es, mode, r);
    if p.0 == Go {
      GroupSettled(es, r.(avbOpen := p.1, script := p.2));
    } else if p.0 == Abort {
      ReactAppend(es, r.log, [NoHandle(r.i)]);
    }
  }

  lemma {:induction false} RunSettled(es: seq<Entry>, mode: Mode, r: Run)
    requires 0 <= r.i && Settled(es, r)
    ensures Settled(es, RunBy(es, mode, r))
    decreases r.wiped, |es| - r.i
  {
    hide Settled, TurnBy;
    if !r.fatal && r.i < |es| {
      TurnSettled(es, mode, r);
      TurnAdvances(es, mode, r);
      RunSettled(es, mode, TurnBy(es, mode, r));
    }
  }

  /** In every run the reaction to every failure is the one its error, its entry and the check call for. */
  lemma EveryReaction(es: seq<Entry>, wiped: set<nat>, mode: Mode, script: seq<nat>)
    ensures AllReact(es, RunOf(es, wiped, mode, script).log)
  {
    hide RunBy;
    RunSettled(es, mode, Start(wiped, script));
  }
}
