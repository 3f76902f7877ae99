/**
 From the host's log to the device: in every run of the whole system whose host side
 is the log of a finished transport call, the device has processed exactly the requests
 of that call, once each and in order, and the host holds the device's own responses.
 */
module UdpDelivery {
  import opened Bytes
  import opened UdpPacket
  import opened UdpLog
  import opened UdpProtocol
  import opened UdpWindow

  /** What crosses the host's socket in a run. */
  function HostLog(steps: seq<Step>): (log: seq<Io>) {
    if steps == [] then []
    else
      HostLog(steps[..|steps| - 1]) +
      match steps[|steps| - 1]
      case Send(p) => [Sent(Encode(p))]
      case Receive(m) => [Got(Encode(m.packet))]
      case TimeOut => [Quiet]
      case _ => []
  }

  /** The steps of calls that do not fail. */
  predicate InCall(steps: seq<Step>) {
    GiveUp !in steps
  }

  /** No call is under way: every call so far has got its responses or has failed. */
  predicate Idle(s: State) {
    s.synced && (s.pending == None || s.gaveUp)
  }

  /** The observer's view fits the state of the host. */
  predicate Agrees(s: State, v: View) {
    && s.synced && v.sequence == s.sequence && v.done == s.accepted
    && v.pending == if s.pending.None? || s.gaveUp then None else Some(Encode(s.pending.value))
  }

  lemma StepAgrees(s: State, step: Step, rules: Rules, v: View)
    requires Inv(s) && Enabled(s, step, rules) && Agrees(s, v) && !step.GiveUp?
    ensures Agrees(Apply(s, step),
                   match step
                   case Send(p) => Observe(v, Sent(Encode(p)))
                   case Receive(m) => Observe(v, Got(Encode(m.packet)))
                   case _ => v)
  {
    match step
    case Receive(m) =>
      assert HostBound(s, m);
      DecodeEncode(m.packet);
      DecodeEncode(s.pending.value);
      MatchesIsAnswers(Encode(s.pending.value), Encode(m.packet));
    case _ =>
  }

  lemma {:induction false} RunAgrees(s: State, steps: seq<Step>, rules: Rules, t: State, v: View)
    requires Inv(s) && rules.window <= U16 && Execute(s, steps, rules) == Some(t) && InCall(steps) && Agrees(s, v)
    ensures Agrees(t, Fold(v, HostLog(steps))) && Inv(t)
  {
    if steps != [] {
      var front := steps[..|steps| - 1];
      var step := steps[|steps| - 1];
      var mid := Execute(s, front, rules).value;
      RunAgrees(s, front, rules, mid, v);
      StepAgrees(mid, step, rules, Fold(v, HostLog(front)));
      StepKeepsInv(mid, step, rules);
      if step.Send? {
        FoldSnoc(v, HostLog(front), Sent(Encode(step.p)), 0);
      } else if step.Receive? {
        FoldSnoc(v, HostLog(front), Got(Encode(step.m.packet)), 0);
      } else if step.TimeOut? {
        FoldSnoc(v, HostLog(front), Quiet, 0);
      } else {
        assert HostLog(steps) == HostLog(front);
      }
    }
  }

  /** Earlier exchanges do not influence how a log is read. */
  lemma {:induction false} FoldShift(v: View, log: seq<Io>, earlier: seq<Exchange>)
    ensures var w := Fold(v, log);
            Fold(v.(done := earlier + v.done), log) == w.(done := earlier + w.done)
  {
    if log != [] {
      FoldShift(v, log[..|log| - 1], earlier);
      var w := Fold(v, log[..|log| - 1]);
      var io := log[|log| - 1];
      if io.Got? && Answered(w, io.wire) {
        AppendAssoc(earlier, w.done, [Exchange(Decode(w.pending.value), Decode(io.wire))]);
      }
    }
  }

  lemma StepGrows(s: State, step: Step, rules: Rules)
    requires Enabled(s, step, rules) && !step.GiveUp?
    ensures var t := Apply(s, step);
            && s.served <= t.served && s.accepted <= t.accepted
            && (t.gaveUp ==> s.gaveUp && |t.accepted| == |s.accepted|)
  {
  }

  lemma FreshNumbers(s: State)
    requires Inv(s)
    ensures Single(s, |s.accepted| + 1)
  {
    assert forall m :: m in s.toDevice ==> DeviceBound(s, m);
  }

  /** After the first packet of a call, the call sends one packet under each number. */
  lemma {:induction false} CallKeepsSingle(s: State, steps: seq<Step>, rules: Rules, t: State)
    requires Inv(s) && rules.window <= U16 && Execute(s, steps, rules) == Some(t) && InCall(steps)
    ensures Inv(t) && Single(t, |s.accepted| + 1) && |s.accepted| <= |t.accepted|
    ensures t.gaveUp ==> |t.accepted| == |s.accepted|
    ensures s.served <= t.served
  {
    hide Inv, Single, Enabled, Apply;
    if steps == [] {
      FreshNumbers(s);
    } else {
      var front := steps[..|steps| - 1];
      var mid := Execute(s, front, rules).value;
      CallKeepsSingle(s, front, rules, mid);
      StepKeepsInv(mid, steps[|steps| - 1], rules);
      StepKeepsSingle(mid, steps[|steps| - 1], rules, |s.accepted| + 1);
      StepGrows(mid, steps[|steps| - 1], rules);
    }
  }

  lemma Settled(s: State)
    requires Inv(s) && s.pending == None
    ensures |s.served| == |s.accepted|
  {
    assert |s.served| > |s.accepted| ==> DeviceBound(s, Message(|s.accepted|, s.served[|s.accepted|].req));
  }

  /** The run has the steps of one finished call, whose exchanges are `es`. */
  predicate CallRun(s: State, steps: seq<Step>, rules: Rules, t: State, es: seq<Exchange>) {
    && Execute(s, steps, rules) == Some(t) && InCall(steps)
    && Fold(AtRest(s.sequence, []), HostLog(steps)) == AtRest(t.sequence, es)
    && es != []
  }

  /** What the host takes for the exchanges of the call are its exchanges in the run. */
  lemma CallAccepted(s: State, steps: seq<Step>, rules: Rules, t: State, es: seq<Exchange>)
    requires Inv(s) && Idle(s) && rules.window <= U16 && CallRun(s, steps, rules, t, es)
    ensures Inv(t) && t.accepted == s.accepted + es && t.pending == None && |t.served| == |t.accepted|
    ensures s.served <= t.served && Single(t, |s.accepted| + 1)
  {
    hide Fold, Execute, HostLog, Inv, Single;
    var log := HostLog(steps);
    var v := AtRest(s.sequence, []);
    RunAgrees(s, steps, rules, t, v.(done := s.accepted + v.done));
    FoldShift(v, log, s.accepted);
    CallKeepsSingle(s, steps, rules, t);
    Settled(t);
  }

  /**
   The call follows one that may have failed, and nothing is assumed of what it sends. The
   device processed one packet under each of its numbers and the host holds the responses;
   from the second number on these are the call's own packets. Under the first number it is
   the packet the device had already processed for the failed call, if it had.
   */
  lemma CallAnswered(s: State, steps: seq<Step>, rules: Rules, t: State, es: seq<Exchange>)
    requires Inv(s) && Idle(s) && rules.window <= U16 && CallRun(s, steps, rules, t, es)
    ensures |t.served| == |s.accepted| + |es| && s.served <= t.served && t.pending == None
    ensures t.served[|s.accepted|].resp == es[0].resp
    ensures t.served[|s.accepted| + 1..] == es[1..]
    ensures |s.served| > |s.accepted| ==> t.served[|s.accepted|] == s.served[|s.accepted|]
    ensures Message(|s.accepted|, t.served[|s.accepted|].req) in t.toDevice
  {
    hide Execute, Fold, HostLog, Inv, Single;
    CallAccepted(s, steps, rules, t, es);
    SingleServed(t, |s.accepted| + 1);
    ServedAsAccepted(t, |s.accepted|);
    assert t.accepted[|s.accepted|..] == es;
  }

  lemma ServedAsAccepted(t: State, n: nat)
    requires Inv(t) && n < |t.accepted| == |t.served|
    requires forall i :: n + 1 <= i < |t.accepted| ==> t.served[i] == t.accepted[i]
    ensures t.served[n].resp == t.accepted[n..][0].resp
    ensures t.served[n + 1..] == t.accepted[n..][1..]
    ensures Message(n, t.served[n].req) in t.toDevice
  {
    hide DeviceBound, HostBound, ServedAt;
  }

  /**
   Once the device has processed the packet of the failed call, the next call that ends
   without an error reached the device exactly when its first packet is that packet.
   */
  lemma DeliveredExactly(s: State, steps: seq<Step>, rules: Rules, t: State, es: seq<Exchange>)
    requires Inv(s) && Idle(s) && rules.window <= U16 && CallRun(s, steps, rules, t, es)
    requires Single(s, |s.accepted|) && |s.served| > |s.accepted|
    ensures |t.served| == |s.accepted| + |es|
    ensures t.served[|s.accepted|..] == es <==> Some(es[0].req) == s.pending
  {
    hide Execute, Fold, HostLog;
    CallAnswered(s, steps, rules, t, es);
    SingleServed(s, |s.accepted|);
    hide Inv, Single;
    var now := t.served[|s.accepted|..];
    assert now[1..] == es[1..];
    assert now == [now[0]] + now[1..] && es == [es[0]] + es[1..];
  }

  /**
   Of careful callers: the device processed the requests of the call, no others, and
   answered them with the responses the call returned.
   */
  lemma CallDelivered(s: State, steps: seq<Step>, rules: Rules, t: State, es: seq<Exchange>)
    requires Inv(s) && Single(s, 0) && Idle(s) && rules.window <= U16 && rules.careful
    requires CallRun(s, steps, rules, t, es)
    ensures t.served == s.accepted + es && t.pending == None
    ensures Requests(t.served) == Requests(s.accepted) + Requests(es)
  {
    hide Fold, HostLog, Inv, Single, Execute;
    CallAccepted(s, steps, rules, t, es);
    RunKeepsInv(s, steps, rules);
    SingleServed(t, 0);
    assert t.served == t.accepted;
  }

  lemma ChunkSizes(id: byte, data: seq<byte>, max: nat, sequence: int, es: seq<Exchange>)
    requires Chunked(id, data, max, sequence, es)
    ensures forall k :: 0 <= k < |es| ==> |es[k].req.data| <= max
  {
    forall k | 0 <= k < |es|
      ensures |es[k].req.data| <= max
    {
      assert RequestOk(id, data, max, sequence, es, k);
    }
  }

  /** The device got the message of a successful write, whole and in order. */
  lemma WriteDelivered(s: State, steps: seq<Step>, rules: Rules, t: State, es: seq<Exchange>,
                       data: seq<byte>, max: nat)
    requires Inv(s) && Single(s, 0) && Idle(s) && rules.window <= U16 && rules.careful
    requires CallRun(s, steps, rules, t, es)
    requires Chunked(ID_FASTBOOT, data, max, s.sequence, es) && RequestData(es) == data
    ensures |s.accepted| <= |t.served| && s.accepted == t.served[..|s.accepted|]
    ensures RequestData(t.served[|s.accepted|..]) == data
    ensures forall k :: |s.accepted| <= k < |t.served| ==> |t.served[k].req.data| <= max
  {
    CallDelivered(s, steps, rules, t, es);
    assert t.served[|s.accepted|..] == es;
    ChunkSizes(ID_FASTBOOT, data, max, s.sequence, es);
  }

  /** A successful read returns what the device answered to the packets of that read. */
  lemma ReadDelivered(s: State, steps: seq<Step>, rules: Rules, t: State, es: seq<Exchange>,
                      got: seq<byte>)
    requires Inv(s) && Single(s, 0) && Idle(s) && rules.window <= U16 && rules.careful
    requires CallRun(s, steps, rules, t, es) && got == ResponseData(es)
    ensures |s.accepted| <= |t.served| && s.accepted == t.served[..|s.accepted|]
    ensures got == ResponseData(t.served[|s.accepted|..])
  {
    CallDelivered(s, steps, rules, t, es);
    assert t.served[|s.accepted|..] == es;
  }

  /** A message of one packet: what `Write` sends, and its log when the answer comes at once. */
  lemma OnePacketWrite(q: Packet, r: Packet, sequence: int, max: nat)
    requires q.Valid() && r.Valid() && r.id == q.id && Answers(q, r) && r.data == [] && r.flags == FLAG_NONE
    requires q == Packet(ID_FASTBOOT, FLAG_NONE, sequence % U16, q.data) && |q.data| <= max
    ensures var es := [Exchange(q, r)];
            && Fold(AtRest(sequence, []), [Sent(Encode(q)), Got(Encode(r))]) == AtRest(sequence + 1, es)
            && Chunked(ID_FASTBOOT, q.data, max, sequence, es) && RequestData(es) == q.data
            && Finished(es) && NoError(es) && ResponseData(es) == []
  {
    var v := AtRest(sequence, []);
    FoldSnoc(v, [], Sent(Encode(q)), 0);
    FoldSnoc(v, [Sent(Encode(q))], Got(Encode(r)), 0);
    DecodeEncode(q);
    DecodeEncode(r);
    MatchesIsAnswers(Encode(q), Encode(r));
    assert [Sent(Encode(q))] + [Got(Encode(r))] == [Sent(Encode(q)), Got(Encode(r))];
    assert q.data[..|q.data|] == q.data;
  }

  /**
   A write that reports success and that the device never saw. The call before it failed
   after its packet had been processed; the delayed response answers this one.
   */
  lemma SuccessfulWriteLost(s: State, rules: Rules, max: nat) returns (t: State, steps: seq<Step>, u: State,
                            es: seq<Exchange>)
    requires Initial(s) && rules.window > 0 && !rules.careful && max > 0
    ensures Reachable(s, t, rules) && Idle(t) && CallRun(t, steps, rules, u, es)
    ensures Chunked(ID_FASTBOOT, [2], max, t.sequence, es) && RequestData(es) == [2]
    ensures Finished(es) && NoError(es) && ResponseData(es) == []
    ensures u.served == t.served && RequestData(u.served) == [1]
  {
    hide Reachable, Chunked, RequestData, ResponseData, Finished, NoError, CallRun, Abandoned, Answers, Inv;
    var p := Packet(ID_FASTBOOT, FLAG_NONE, s.base, [1]);
    var q := Packet(ID_FASTBOOT, FLAG_NONE, s.base, [2]);
    var r := Packet(ID_FASTBOOT, FLAG_NONE, s.base, []);
    AnsweredAlike(p, q, r);
    t := FirstCallFails(s, p, r);
    ReachableMonotone(s, t, STRICT, rules);
    AbandonedIs(t, p, r);
    steps, u, es := OtherCall(t, p, q, r, rules);
    OnePacketWrite(q, r, t.sequence, max);
    OneRequest(p, r);
  }

  lemma AnsweredAlike(p: Packet, q: Packet, r: Packet)
    requires p.id == q.id == r.id && p.seqNum == q.seqNum == r.seqNum
    ensures Answers(p, r) && Answers(q, r)
  {
  }

  lemma AbandonedIs(t: State, p: Packet, r: Packet)
    requires Abandoned(t, p, r) && t.accepted == []
    ensures Idle(t) && t.served == [Exchange(p, r)] && t.sequence % U16 == p.seqNum
  {
    assert ServedAt(t.served[0], t.base);
  }

  lemma OneRequest(p: Packet, r: Packet)
    ensures RequestData([Exchange(p, r)]) == p.data
  {
    assert [Exchange(p, r)][..0] == [];
  }

  /** The call after an abandoned one, answered by the response to the other packet. */
  lemma OtherCall(t: State, p: Packet, q: Packet, r: Packet, rules: Rules)
    returns (steps: seq<Step>, u: State, es: seq<Exchange>)
    requires Abandoned(t, p, r) && t.accepted == [] && q.Valid() && q.id == p.id == r.id && q.seqNum == p.seqNum
    requires rules.window > 0 && !rules.careful && q.id == ID_FASTBOOT && q.flags == FLAG_NONE
    requires r.Valid() && Answers(q, r) && r.data == [] && r.flags == FLAG_NONE && t.sequence % U16 == q.seqNum
    ensures es == [Exchange(q, r)] && CallRun(t, steps, rules, u, es) && u.served == t.served
  {
    hide Abandoned, Chunked, Fold, Inv, Execute, HostLog;
    OtherPacketAnswered(t, p, q, r, rules);
    steps := [Send(q), Receive(Message(0, r))];
    u := Apply(Apply(t, Send(q)), Receive(Message(0, r)));
    es := [Exchange(q, r)];
    OnePacketWrite(q, r, t.sequence, |q.data|);
    TwoSteps(t, Send(q), Receive(Message(0, r)), rules);
    SentAndGot(q, Message(0, r));
    assert [Sent(Encode(q))] + [Got(Encode(r))] == [Sent(Encode(q)), Got(Encode(r))];
  }

  lemma SentAndGot(q: Packet, m: Message)
    ensures HostLog([Send(q)]) == [Sent(Encode(q))] && HostLog([Receive(m)]) == [Got(Encode(m.packet))]
  {
    assert [Send(q)][..0] == [] && [Receive(m)][..0] == [];
  }

  lemma TwoSteps(s: State, a: Step, b: Step, rules: Rules)
    requires Enabled(s, a, rules) && Enabled(Apply(s, a), b, rules)
    ensures Execute(s, [a, b], rules) == Some(Apply(Apply(s, a), b))
    ensures HostLog([a, b]) == HostLog([a]) + HostLog([b])
  {
    assert [a, b][..1] == [a] && [a][..0] == [];
    assert Execute(s, [a], rules) == Some(Apply(s, a));
  }

  // ----- Continuation flags

  /** Every packet but the last announces a continuation. */
  predicate FlaggedButLast(es: seq<Exchange>) {
    && (forall k :: 0 <= k < |es| - 1 ==> es[k].req.Continues())
    && (es != [] ==> !es[|es| - 1].req.Continues())
  }

  predicate PlainAnswers(es: seq<Exchange>) {
    forall k :: 0 <= k < |es| ==> !es[k].resp.Continues()
  }

  lemma SentBefore(es: seq<Exchange>, k: nat)
    requires k < |es|
    ensures RequestData(es[..k + 1]) == RequestData(es[..k]) + es[k].req.data
  {
    assert es[..k + 1][..k] == es[..k];
  }

  lemma PlainAnswerFlag(id: byte, data: seq<byte>, max: nat, sequence: int, es: seq<Exchange>, k: nat)
    requires max > 0 && k < |es| && RequestOk(id, data, max, sequence, es, k)
    requires k > 0 ==> !es[k - 1].resp.Continues()
    requires !es[k].resp.Continues()
    requires if k + 1 < |es| then RequestOk(id, data, max, sequence, es, k + 1)
             else |RequestData(es[..k + 1])| == |data|
    ensures es[k].req.Continues() <==> k + 1 < |es|
  {
    SentBefore(es, k);
  }

  lemma PlainAnswersFlagged(id: byte, data: seq<byte>, max: nat, sequence: int, es: seq<Exchange>)
    requires max > 0 && Chunked(id, data, max, sequence, es) && RequestData(es) == data
    requires PlainAnswers(es)
    ensures FlaggedButLast(es)
  {
    assert es[..|es|] == es;
    forall k | 0 <= k < |es|
      ensures es[k].req.Continues() <==> k + 1 < |es|
    {
      assert RequestOk(id, data, max, sequence, es, k);
      assert k + 1 < |es| ==> RequestOk(id, data, max, sequence, es, k + 1);
      PlainAnswerFlag(id, data, max, sequence, es, k);
    }
  }

  lemma FlaggedPlainAnswers(id: byte, data: seq<byte>, max: nat, sequence: int, es: seq<Exchange>)
    requires max > 0 && Chunked(id, data, max, sequence, es) && RequestData(es) == data
    requires Finished(es) && FlaggedButLast(es)
    ensures PlainAnswers(es)
  {
    forall k | 0 <= k < |es|
      ensures !es[k].resp.Continues()
    {
      if es[k].resp.Continues() {
        assert RequestOk(id, data, max, sequence, es, k);
        assert RequestOk(id, data, max, sequence, es, k + 1);
        assert k + 1 == |es| - 1 && es[k].req.Continues();
        SentBefore(es, k);
      }
    }
  }

  /**
   The packets of a finished message are flagged as the protocol document shows exactly
   when the target never answers with a continuation; a continued answer makes the host
   interpose an unflagged prompt.
   */
  lemma FlagsExact(id: byte, data: seq<byte>, max: nat, sequence: int, es: seq<Exchange>)
    requires max > 0 && Chunked(id, data, max, sequence, es) && RequestData(es) == data && Finished(es)
    ensures FlaggedButLast(es) <==> PlainAnswers(es)
  {
    if PlainAnswers(es) {
      PlainAnswersFlagged(id, data, max, sequence, es);
    } else if FlaggedButLast(es) {
      FlaggedPlainAnswers(id, data, max, sequence, es);
    }
  }
}
