/**
 The two conditions of the lock-step theorem are exact: with 16-bit sequence numbers the
 parties stay in lock step if and only if no message outlives 2^16 exchanges and no caller
 follows a failed call with another packet.
 */
module UdpWindow {
  import opened Bytes
  import opened UdpPacket
  import opened UdpProtocol

  /** The strictest rules under which anything is delivered. */
  const STRICT := Rules(1, true)

  /** Every run under these rules keeps the parties in lock step. */
  ghost predicate Safe(s: State, rules: Rules) {
    forall steps: seq<Step> ::
      match Execute(s, steps, rules) case None => true case Some(t) => InLockStep(t)
  }

  /** What the first rules allow, the second allow too. */
  predicate Within(strict: Rules, loose: Rules) {
    strict.window <= loose.window && (loose.careful ==> strict.careful)
  }

  lemma {:induction false} ExecuteMonotone(s: State, steps: seq<Step>, strict: Rules, loose: Rules)
    requires Within(strict, loose) && Execute(s, steps, strict).Some?
    ensures Execute(s, steps, loose) == Execute(s, steps, strict)
  {
    if steps != [] {
      ExecuteMonotone(s, steps[..|steps| - 1], strict, loose);
    }
  }

  /** `t` can be reached from `s`. */
  ghost predicate Reachable(s: State, t: State, rules: Rules) {
    exists steps :: Execute(s, steps, rules) == Some(t)
  }

  lemma ReachableStep(s: State, mid: State, step: Step, rules: Rules)
    requires Reachable(s, mid, rules) && Enabled(mid, step, rules)
    ensures Reachable(s, Apply(mid, step), rules)
  {
    var steps :| Execute(s, steps, rules) == Some(mid);
    assert (steps + [step])[..|steps + [step]| - 1] == steps;
    assert Execute(s, steps + [step], rules) == Some(Apply(mid, step));
  }

  lemma ReachableMonotone(s: State, t: State, strict: Rules, loose: Rules)
    requires Within(strict, loose) && Reachable(s, t, strict)
    ensures Reachable(s, t, loose)
  {
    var steps :| Execute(s, steps, strict) == Some(t);
    ExecuteMonotone(s, steps, strict, loose);
  }

  function NextPacket(s: State): (p: Packet) {
    Packet(ID_FASTBOOT, FLAG_NONE, s.sequence % U16, [])
  }

  /** No packet is outstanding and `n` exchanges are behind. */
  predicate IdleAfter(t: State, base: int, n: nat) {
    Inv(t) && t.synced && t.pending == None && |t.accepted| == n && t.base == base
  }

  lemma Handshake(s: State) returns (t: State)
    requires Initial(s)
    ensures Reachable(s, t, STRICT) && IdleAfter(t, s.base, 0)
  {
    assert Execute(s, [], STRICT) == Some(s);
    var q := Message(-1, QUERY_PACKET);
    var s1 := Apply(s, Query);
    StepKeepsInv(s, Query, STRICT);
    ReachableStep(s, s, Query, STRICT);
    var s2 := Apply(s1, DeviceReceive(q, QUERY_PACKET));
    StepKeepsInv(s1, DeviceReceive(q, QUERY_PACKET), STRICT);
    ReachableStep(s, s1, DeviceReceive(q, QUERY_PACKET), STRICT);
    var r := Message(-1, Packet(ID_QUERY, FLAG_NONE, 0, BigEndian16(s.expected)));
    StepKeepsInv(s2, QueryReply(r), STRICT);
    ReachableStep(s, s2, QueryReply(r), STRICT);
    t := Apply(s2, QueryReply(r));
  }

  /** The next packet is sent and processed. */
  predicate Processed(mid: State, t: State, n: nat, p: Packet, r: Packet) {
    && Inv(t) && Waiting(t) && t.pending == Some(p) && t.base == mid.base
    && t.accepted == mid.accepted && |mid.accepted| == n && t.served == mid.served + [Exchange(p, r)]
    && |t.served| == n + 1 && t.toDevice == mid.toDevice + {Message(n, p)} && Message(n, r) in t.toHost
  }

  lemma ServeNext(s: State, mid: State, n: nat, p: Packet, r: Packet) returns (t: State)
    requires Reachable(s, mid, STRICT) && IdleAfter(mid, s.base, n)
    requires p.Valid() && p.id != ID_QUERY && p.seqNum == mid.sequence % U16 && r.Valid() && Answers(p, r)
    ensures Reachable(s, t, STRICT) && Processed(mid, t, n, p, r)
  {
    hide Reachable;
    var m := Message(n, p);
    var s1 := Apply(mid, Send(p));
    assert s1.expected == p.seqNum && |s1.served| == n by { Unprocessed(mid, n); }
    StepKeepsInv(mid, Send(p), STRICT);
    ReachableStep(s, mid, Send(p), STRICT);
    hide Inv, IdleAfter;
    t := Apply(s1, DeviceReceive(m, r));
    StepKeepsInv(s1, DeviceReceive(m, r), STRICT);
    ReachableStep(s, s1, DeviceReceive(m, r), STRICT);
  }

  lemma Unprocessed(s: State, n: nat)
    requires IdleAfter(s, s.base, n)
    ensures |s.served| == n && s.expected == s.sequence % U16
  {
    assert |s.served| > n ==> DeviceBound(s, Message(n, s.served[n].req));
  }

  /** One undisturbed exchange; the request stays in the network. */
  lemma OneRound(s: State, mid: State, n: nat) returns (t: State)
    requires Reachable(s, mid, STRICT) && IdleAfter(mid, s.base, n)
    ensures Reachable(s, t, STRICT) && IdleAfter(t, s.base, n + 1)
    ensures t.toDevice == mid.toDevice + {Message(n, NextPacket(mid))}
  {
    hide Reachable, Inv;
    var p := NextPacket(mid);
    var mid1 := ServeNext(s, mid, n, p, p);
    t := Apply(mid1, Receive(Message(n, p)));
    StepKeepsInv(mid1, Receive(Message(n, p)), STRICT);
    ReachableStep(s, mid1, Receive(Message(n, p)), STRICT);
  }

  lemma {:induction false} ManyRounds(s: State, mid: State, n: nat, more: nat, first: Message)
    returns (t: State)
    requires Reachable(s, mid, STRICT) && IdleAfter(mid, s.base, n) && first in mid.toDevice
    ensures Reachable(s, t, STRICT) && IdleAfter(t, s.base, n + more) && first in t.toDevice
    decreases more
  {
    if more == 0 {
      t := mid;
    } else {
      var mid1 := OneRound(s, mid, n);
      t := ManyRounds(s, mid1, n + 1, more - 1, first);
    }
  }

  /** After 2^16 exchanges the first packet looks like the next expected one. */
  lemma StaleDelivery(s: State, first: Message, rules: Rules)
    requires IdleAfter(s, s.base, U16) && first in s.toDevice && first.index == 0 && rules.window > U16
    ensures Enabled(s, DeviceReceive(first, first.packet), rules)
    ensures var t := Apply(s, DeviceReceive(first, first.packet));
            t.pending == None && |t.served| == U16 + 1 && |t.accepted| == U16
  {
    assert DeviceBound(s, first);
    assert (s.base + U16) % U16 == s.base % U16;
  }

  /** The very first packet, delivered again after 2^16 exchanges, is processed again. */
  lemma StalePacketIsServedTwice(s: State, rules: Rules) returns (t: State)
    requires Initial(s) && rules.window > U16
    ensures Reachable(s, t, rules)
    ensures t.pending == None && |t.served| == U16 + 1 && |t.accepted| == U16
    ensures t.served[U16].req == t.served[0].req
  {
    var t0 := Handshake(s);
    var t1 := OneRound(s, t0, 0);
    var first := Message(0, NextPacket(t0));
    var t2 := ManyRounds(s, t1, 1, U16 - 1, first);
    StaleDelivery(t2, first, rules);
    ReachableMonotone(s, t2, STRICT, rules);
    ReachableStep(s, t2, DeviceReceive(first, first.packet), rules);
    t := Apply(t2, DeviceReceive(first, first.packet));
    SingleReachable(s, t2, STRICT);
    assert Message(0, t2.served[0].req) in t2.toDevice;
  }

  lemma SingleReachable(s: State, t: State, rules: Rules)
    requires Initial(s) && Reachable(s, t, rules) && rules.window <= U16 && rules.careful
    ensures Single(t, 0)
  {
    var steps :| Execute(s, steps, rules) == Some(t);
    RunKeepsInv(s, steps, rules);
  }

  /** The host has given `p` up, which the device has answered with `r`. */
  predicate Abandoned(t: State, p: Packet, r: Packet) {
    && Inv(t) && t.synced && t.gaveUp && t.pending == Some(p) && |t.served| == |t.accepted| + 1
    && t.served[|t.accepted|] == Exchange(p, r) && Message(|t.accepted|, r) in t.toHost
  }

  lemma FirstCallFails(s: State, p: Packet, r: Packet) returns (t: State)
    requires Initial(s) && p.Valid() && p.id != ID_QUERY && p.seqNum == s.base && r.Valid() && Answers(p, r)
    ensures Reachable(s, t, STRICT) && Abandoned(t, p, r) && t.accepted == []
  {
    hide Reachable;
    var s0 := Handshake(s);
    assert s0.sequence % U16 == s.base;
    hide Inv;
    var mid := ServeNext(s, s0, 0, p, r);
    t := Apply(mid, GiveUp);
    StepKeepsInv(mid, GiveUp, STRICT);
    ReachableStep(s, mid, GiveUp, STRICT);
  }

  /** A packet sent under the number of an abandoned one is answered with the response to that one. */
  lemma OtherPacketAnswered(t: State, p: Packet, q: Packet, r: Packet, rules: Rules)
    requires Abandoned(t, p, r) && q.Valid() && q.id == p.id && q.seqNum == p.seqNum
    requires rules.window > 0 && !rules.careful
    ensures Enabled(t, Send(q), rules)
    ensures Enabled(Apply(t, Send(q)), Receive(Message(|t.accepted|, r)), rules)
    ensures var u := Apply(Apply(t, Send(q)), Receive(Message(|t.accepted|, r)));
            && u.accepted == t.accepted + [Exchange(q, r)] && u.served == t.served
            && u.pending == None && u.sequence == t.sequence + 1
  {
    assert ServedAt(t.served[|t.accepted|], t.base + |t.accepted|);
  }

  lemma CarelessRun(s: State, rules: Rules) returns (t: State)
    requires Initial(s) && rules.window > 0 && !rules.careful
    ensures Reachable(s, t, rules) && |t.accepted| == |t.served| == 1 && t.accepted[0].req != t.served[0].req
  {
    var p := Packet(ID_FASTBOOT, FLAG_NONE, s.base, [1]);
    var q := Packet(ID_FASTBOOT, FLAG_NONE, s.base, [2]);
    var t0 := FirstCallFails(s, p, p);
    ReachableMonotone(s, t0, STRICT, rules);
    OtherPacketAnswered(t0, p, q, p, rules);
    ReachableStep(s, t0, Send(q), rules);
    ReachableStep(s, Apply(t0, Send(q)), Receive(Message(0, p)), rules);
    t := Apply(Apply(t0, Send(q)), Receive(Message(0, p)));
  }

  /** A network that drops everything but queries. */
  lemma {:induction false} NothingServed(s: State, steps: seq<Step>, rules: Rules)
    requires Initial(s) && rules.window == 0
    ensures match Execute(s, steps, rules) case None => true case Some(t) => Inv(t) && t.served == []
  {
    if steps != [] {
      NothingServed(s, steps[..|steps| - 1], rules);
      var mid := Execute(s, steps[..|steps| - 1], rules);
      var step := steps[|steps| - 1];
      if mid.Some? && Enabled(mid.value, step, rules) {
        StepKeepsInv(mid.value, step, rules);
        assert step.DeviceReceive? ==> DeviceBound(mid.value, step.m);
      }
    }
  }

  /**
   Lock step in every run, exactly: no message that comes from 2^16 exchanges ago or earlier
   is delivered, and after a failed call the host stops or sends the same packet again.
   */
  lemma WindowExact(s: State, rules: Rules)
    requires Initial(s)
    ensures Safe(s, rules) <==> rules.window == 0 || (rules.window <= U16 && rules.careful)
  {
    if rules.window == 0 || (rules.window <= U16 && rules.careful) {
      forall steps: seq<Step>
        ensures match Execute(s, steps, rules) case None => true case Some(t) => InLockStep(t)
      {
        SafeRun(s, steps, rules);
      }
    } else {
      var t := UnsafeRun(s, rules);
      var steps :| Execute(s, steps, rules) == Some(t);
      assert !InLockStep(t);
    }
  }

  lemma SafeRun(s: State, steps: seq<Step>, rules: Rules)
    requires Initial(s) && (rules.window == 0 || (rules.window <= U16 && rules.careful))
    ensures match Execute(s, steps, rules) case None => true case Some(t) => InLockStep(t)
  {
    if rules.careful {
      ExactlyOnceInOrder(s, steps, rules);
    } else {
      NothingServed(s, steps, rules);
    }
  }

  lemma UnsafeRun(s: State, rules: Rules) returns (t: State)
    requires Initial(s) && rules.window > 0 && (rules.window > U16 || !rules.careful)
    ensures Reachable(s, t, rules) && !InLockStep(t)
  {
    if rules.careful {
      t := StalePacketIsServedTwice(s, rules);
      assert |Requests(t.served)| > |Issued(t)|;
    } else {
      t := CarelessRun(s, rules);
      assert t.accepted[0] != t.served[0];
    }
  }
}
