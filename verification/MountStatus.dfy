/** The status of mounting all entries, read off the log and the table. */
module MountStatus {
  import opened Bytes
  import opened MountAlternatives
  import opened MountRun
  import opened MountLaws

  // ----- What the log says

  /** What becomes of a group that failed: the event after its check. */
  predicate Handled(log: seq<Event>, k: nat) {
    k + 1 < |log| && (log[k + 1].Format? || log[k + 1].Vdc?)
  }

  /**
   The group checked at `k` counts as an error: the encryption service was asked to mount it and
   failed, or nothing was done about it and its entry is not marked as allowed to fail.
   */
  predicate CountsAsError(es: seq<Entry>, log: seq<Event>, k: nat) {
    && k < |log| && log[k].Checked? && log[k].idx < |es|
    && if Handled(log, k) then log[k + 1].Vdc? && !log[k + 1].format && !log[k + 1].ok
       else !es[log[k].idx].noFail
  }

  predicate SomeError(es: seq<Entry>, log: seq<Event>) {
    exists k :: 0 <= k < |log| && CountsAsError(es, log, k)
  }

  /**
   The run was broken off: verified boot could not be opened, or a mounted entry that is to be
   encrypted could not be unmounted or encrypted.
   */
  predicate BrokenOff(log: seq<Event>) {
    && log != []
    && var n := |log| - 1;
       log[n].Stuck? || log[n].NoHandle? || (MountedVdc(log, n) && !log[n].ok)
  }

  /**
   The status that an event gives, if any: file encrypted (5), needs metadata encryption (6), is
   metadata encrypted (7), needs recovery (4).
   */
  function StatusBy(es: seq<Entry>, log: seq<Event>, e: Event): (code: Option<int>) {
    match e
    case Tried(idx, errno) =>
      if errno == 0 && idx < |es| && es[idx].fileEncryption && !es[idx].keyDir then Some(5) else None
    case Vdc(idx, _, _) =>
      if log != [] && log[|log| - 1] == Tried(idx, 0) then Some(6)
      else Some(7)
    case Format(_, ok) => if ok then None else Some(4)
    case _ => None
  }

  /** The status given last. */
  function LastStatus(es: seq<Entry>, log: seq<Event>): (code: int) {
    if log == [] then 0
    else
      var n := |log| - 1;
      match StatusBy(es, log[..n], log[n])
      case Some(code) => code
      case None => LastStatus(es, log[..n])
  }

  /** What mounting all entries reports, by its log: the numbers are those of the mount results. */
  function Reported(es: seq<Entry>, log: seq<Event>): (code: int) {
    if es == [] || BrokenOff(log) || SomeError(es, log) then -1 else LastStatus(es, log)
  }

  // ----- Longer logs

  lemma StatusSnoc(es: seq<Entry>, log: seq<Event>, e: Event)
    ensures LastStatus(es, log + [e])
            == match StatusBy(es, log, e) case Some(code) => code case None => LastStatus(es, log)
  {
    assert (log + [e])[..|log|] == log;
  }

  lemma {:induction false} StatusAppend(es: seq<Entry>, a: seq<Event>, b: seq<Event>)
    requires forall k :: 0 <= k < |b| ==> b[k].BadMagic? || (b[k].Tried? && b[k].errno != 0)
    ensures LastStatus(es, a + b) == LastStatus(es, a)
  {
    if b == [] {
      assert a + b == a;
    } else {
      var n := |b| - 1;
      StatusAppend(es, a, b[..n]);
      StatusSnoc(es, a + b[..n], b[n]);
      assert a + b == a + b[..n] + [b[n]];
    }
  }

  /** Events that do not belong to a check leave earlier checks as they are. */
  lemma ErrorsApart(es: seq<Entry>, a: seq<Event>, b: seq<Event>)
    requires b != [] && (b[0].Format? || b[0].Vdc?) ==> a == [] || !a[|a| - 1].Checked?
    ensures SomeError(es, a + b) <==> SomeError(es, a) || SomeError(es, b)
  {
    var c := a + b;
    forall k | 0 <= k < |a|
      ensures CountsAsError(es, c, k) <==> CountsAsError(es, a, k)
    {
      assert c[k] == a[k];
      if k + 1 < |a| {
        assert c[k + 1] == a[k + 1];
      } else if b != [] {
        assert c[k + 1] == b[0];
      }
    }
    forall k | 0 <= k < |b|
      ensures CountsAsError(es, c, |a| + k) <==> CountsAsError(es, b, k)
    {
      assert c[|a| + k] == b[k];
      if k + 1 < |b| {
        assert c[|a| + k + 1] == b[k + 1];
      }
    }
    hide CountsAsError;
    if SomeError(es, c) {
      var k :| 0 <= k < |c| && CountsAsError(es, c, k);
      if k >= |a| {
        assert CountsAsError(es, b, k - |a|);
      }
    }
    if SomeError(es, b) {
      var k :| 0 <= k < |b| && CountsAsError(es, b, k);
      assert CountsAsError(es, c, |a| + k);
    }
  }

  lemma NoChecksNoErrors(es: seq<Entry>, log: seq<Event>)
    requires forall k :: 0 <= k < |log| ==> !log[k].Checked?
    ensures !SomeError(es, log)
  {
  }

  lemma OneCheck(es: seq<Entry>, idx: nat, wiped: bool, rest: seq<Event>)
    requires forall k :: 0 <= k < |rest| ==> !rest[k].Checked?
    ensures SomeError(es, [Checked(idx, wiped)] + rest) <==>
            && idx < |es|
            && if rest != [] && (rest[0].Format? || rest[0].Vdc?) then rest[0].Vdc? && !rest[0].format && !rest[0].ok
               else !es[idx].noFail
  {
    var log := [Checked(idx, wiped)] + rest;
    assert log[0] == Checked(idx, wiped);
    assert forall k :: 0 < k < |log| ==> log[k] == rest[k - 1];
    assert CountsAsError(es, log, 0) ==> SomeError(es, log);
  }

  // ----- Every turn keeps it

  /** The state of a run agrees with its log. */
  predicate Agrees(es: seq<Entry>, r: Run) {
    && (r.errors > 0 <==> SomeError(es, r.log)) && r.encryptable == LastStatus(es, r.log)
    && (r.fatal <==> BrokenOff(r.log))
  }

  lemma TriesAgree(es: seq<Entry>, log: seq<Event>, i: nat, stop: nat, script: seq<nat>)
    requires i < stop
    ensures var t := TryGroup(i, stop, script);
            var after := log + TriesLog(i, t);
            && (SomeError(es, after) <==> SomeError(es, log)) && after != []
            && (!t.ok ==>
                  LastStatus(es, after) == LastStatus(es, log) && !BrokenOff(after) && !after[|after| - 1].Checked?)
            && (t.ok ==>
                  && i <= t.at < stop && after[|after| - 1] == Tried(t.at, 0) && !BrokenOff(after)
                  && LastStatus(es, after)
                     == if t.at < |es| && es[t.at].fileEncryption && !es[t.at].keyDir then FILE_ENCRYPTED
                        else LastStatus(es, log))
  {
    TriesAreReal(i, stop, script);
    TriedInside(i, stop, script);
    TriesAreAttempts(i, stop, script);
    var t := TryGroup(i, stop, script);
    var fs := Failures(i, t.fs);
    FailuresMountNothing(i, t.fs);
    hide TryGroup, Failures, SomeError, LastStatus, Attempts;
    StatusAppend(es, log, fs);
    NoChecksNoErrors(es, TriesLog(i, t));
    TriesStart(i, stop, t);
    ErrorsApart(es, log, TriesLog(i, t));
    if t.ok {
      SuccessAgrees(es, log + fs, t.at, t.before);
      AppendAssoc(log, fs, Success(t.at, t.before));
    } else {
      assert fs + [] == fs;
    }
  }

  lemma TriesStart(i: nat, stop: nat, t: Tries)
    requires i < stop && Attempts(TriesLog(i, t), i, stop, t.fs, t.before, t.ok, if t.ok then t.at else i)
    ensures var log := TriesLog(i, t);
            && log != [] && (forall k :: 0 <= k < |log| ==> log[k].BadMagic? || log[k].Tried?)
            && if t.ok then log[|log| - 1] == Tried(t.at, 0)
               else log[|log| - 1].BadMagic? || (log[|log| - 1].Tried? && log[|log| - 1].errno != 0)
  {
    FailuresMountNothing(i, t.fs);
    hide Failures;
  }

  lemma SuccessAgrees(es: seq<Entry>, log: seq<Event>, at: nat, before: nat)
    ensures LastStatus(es, log + Success(at, before))
            == if at < |es| && es[at].fileEncryption && !es[at].keyDir then FILE_ENCRYPTED else LastStatus(es, log)
  {
    if before == 0 {
      StatusSnoc(es, log, Tried(at, 0));
    } else {
      StatusSnoc(es, log, Tried(at, before));
      StatusSnoc(es, log + [Tried(at, before)], Tried(at, 0));
      assert log + Success(at, before) == log + [Tried(at, before)] + [Tried(at, 0)];
    }
  }

  lemma MountedAgrees(es: seq<Entry>, at: nat, r: Run, status: int)
    requires at < |es| && !r.fatal && r.log != [] && r.log[|r.log| - 1] == Tried(at, 0) && !BrokenOff(r.log)
    requires r.errors > 0 <==> SomeError(es, r.log)
    requires r.encryptable == status
    requires LastStatus(es, r.log) == if es[at].fileEncryption && !es[at].keyDir then FILE_ENCRYPTED else status
    ensures Agrees(es, MountedBy(es[at], at, r))
  {
    hide SomeError, LastStatus;
    if es[at].MetadataEncrypted() {
      var e := if Next(r.script) == 0 then Stuck(at) else Vdc(at, r.flag, Next(Later(r.script)) != 0);
      StatusSnoc(es, r.log, e);
      NoChecksNoErrors(es, [e]);
      ErrorsApart(es, r.log, [e]);
      LastOf(r.log, e);
    }
  }

  lemma LastOf(log: seq<Event>, e: Event)
    ensures var c := log + [e];
            && c[|c| - 1] == e && (log != [] ==> c[|c| - 2] == log[|log| - 1])
            && (BrokenOff(c) <==>
                  || e.Stuck? || e.NoHandle?
                  || (e.Vdc? && !e.ok && log != [] && log[|log| - 1] == Tried(e.idx, 0)))
  {
  }

  /** What a failed group adds to the log after its attempts. */
  lemma FailedAgrees(es: seq<Entry>, top: nat, errno: nat, r: Run)
    requires top < |es| && !r.fatal && r.log != [] && !r.log[|r.log| - 1].Checked?
    requires Agrees(es, r)
    ensures Agrees(es, FailedBy(es[top], top, errno, r))
  {
    hide SomeError, LastStatus, BrokenOff;
    var e, c := es[top], Checked(top, es[top].partition in r.wiped);
    var q := r.(log := r.log + [c], flag := c.wiped);
    StatusSnoc(es, r.log, c);
    if errno != EBUSY && errno != EACCES && e.formattable && c.wiped {
      WipedAgrees(es, top, r, q);
    } else if errno != EBUSY && errno != EACCES && e.MetadataEncrypted() {
      var v := Vdc(top, false, Next(r.script) != 0);
      CheckedThen(es, r.log, c, [v]);
      StatusSnoc(es, q.log, v);
      LastOf(q.log, v);
    } else {
      CheckedThen(es, r.log, c, []);
      LastOf(r.log, c);
      assert r.log + [c] + [] == r.log + [c];
    }
  }

  /** A check and what follows it decide whether there is an error more. */
  lemma CheckedThen(es: seq<Entry>, log: seq<Event>, c: Event, rest: seq<Event>)
    requires c.Checked? && c.idx < |es| && forall k :: 0 <= k < |rest| ==> !rest[k].Checked?
    ensures SomeError(es, log + [c] + rest) <==>
            || SomeError(es, log)
            || (if rest != [] && (rest[0].Format? || rest[0].Vdc?) then rest[0].Vdc? && !rest[0].format && !rest[0].ok
                else !es[c.idx].noFail)
  {
    hide SomeError;
    OneCheck(es, c.idx, c.wiped, rest);
    ErrorsApart(es, log, [c] + rest);
    AppendAssoc(log, [c], rest);
  }

  lemma WipedAgrees(es: seq<Entry>, top: nat, r: Run, q: Run)
    requires top < |es| && !r.fatal && Agrees(es, r) && r.log != []
    requires q.log == r.log + [Checked(top, true)] && q == r.(log := q.log, flag := true)
    requires LastStatus(es, q.log) == LastStatus(es, r.log)
    ensures Agrees(es, WipedBy(es[top], top, q))
  {
    hide SomeError, LastStatus, BrokenOff, FormatBy;
    var e, c := es[top], Checked(top, true);
    assert q.log[|q.log| - 1] == c;
    if e.MetadataEncrypted() && e.mountPoint == "/data" {
      var ok := Next(q.script) != 0;
      var v := Vdc(top, true, ok);
      CheckedThen(es, r.log, c, [v]);
      StatusSnoc(es, q.log, v);
      LastOf(q.log, v);
      if !ok {
        var f := Format(top, Next(Later(q.script)) != 0);
        var p := q.(log := q.log + [v], script := Later(q.script), encryptable := IS_METADATA_ENCRYPTED);
        CheckedThen(es, r.log, c, [v, f]);
        assert r.log + [c] + [v, f] == p.log + [f];
        FormatAgrees(es, top, p);
      }
    } else {
      CheckedThen(es, r.log, c, [Format(top, Next(q.script) != 0)]);
      FormatAgrees(es, top, q);
    }
  }

  lemma FormatAgrees(es: seq<Entry>, top: nat, r: Run)
    requires top < |es| && !r.fatal && r.encryptable == LastStatus(es, r.log)
    requires r.errors > 0 <==> SomeError(es, r.log + [Format(top, Next(r.script) != 0)])
    ensures Agrees(es, FormatBy(es[top], top, r))
  {
    hide SomeError, LastStatus;
    var f := Format(top, Next(r.script) != 0);
    StatusSnoc(es, r.log, f);
    LastOf(r.log, f);
  }

  lemma GroupAgrees(es: seq<Entry>, r: Run)
    requires 0 <= r.i < |es| && !r.fatal && Agrees(es, r)
    ensures Agrees(es, GroupBy(es, r))
  {
    GroupFacts(es, r.i);
    hide SomeError, LastStatus, BrokenOff, TryGroup, TriesLog, ErrnoOf, FailedBy, MountedBy, GroupEnd;
    var g := GroupEnd(es, r.i, r.i);
    TriesAgree(es, r.log, r.i, g, r.script);
    var t := TryGroup(r.i, g, r.script);
    var q := r.(i := AfterGroup(es, r.i), log := r.log + TriesLog(r.i, t), script := t.rest);
    if t.ok {
      MountedAgrees(es, t.at, q, r.encryptable);
    } else {
      FailedAgrees(es, r.i, ErrnoOf(t.fs), q);
    }
  }

  lemma TurnAgrees(es: seq<Entry>, mode: Mode, r: Run)
    requires 0 <= r.i < |es| && !r.fatal && Agrees(es, r)
    ensures Agrees(es, TurnBy(es, mode, r))
  {
    hide SomeError, LastStatus, BrokenOff, PrepareBy, GroupBy, TurnBy;
    var p := PrepareBy(es[r.i], mode, r.avbOpen, r.script);
    TurnIs(es, mode, r);
    if p.0 == Go {
      GroupAgrees(es, r.(avbOpen := p.1, script := p.2));
    } else if p.0 == Abort {
      var e := NoHandle(r.i);
      StatusSnoc(es, r.log, e);
      NoChecksNoErrors(es, [e]);
      ErrorsApart(es, r.log, [e]);
      LastOf(r.log, e);
    }
  }

  lemma {:induction false} RunAgrees(es: seq<Entry>, mode: Mode, r: Run)
    requires 0 <= r.i && Agrees(es, r)
    ensures Agrees(es, RunBy(es, mode, r))
    decreases r.wiped, |es| - r.i
  {
    hide Agrees, TurnBy;
    if !r.fatal && r.i < |es| {
      TurnAgrees(es, mode, r);
      TurnAdvances(es, mode, r);
      RunAgrees(es, mode, TurnBy(es, mode, r));
    }
  }

  /** In every run the status is what the log and the table say. */
  lemma StatusFromLog(es: seq<Entry>, wiped: set<nat>, mode: Mode, script: seq<nat>)
    ensures var r := RunOf(es, wiped, mode, script);
            Reported(es, r.log) == if es == [] || r.fatal || r.errors > 0 then FAIL else r.encryptable
  {
    NoChecksNoErrors(es, []);
    hide RunBy, SomeError, LastStatus;
    StartAgrees(es, wiped, script);
    RunAgrees(es, mode, Start(wiped, script));
  }

  lemma StartAgrees(es: seq<Entry>, wiped: set<nat>, script: seq<nat>)
    ensures Agrees(es, Start(wiped, script))
  {
  }
}
