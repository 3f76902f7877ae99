/**
 The fastboot UDP protocol as one transition system: the host's stop-and-wait
 sender, the device behaviour given in the protocol document, and a network that
 may lose, duplicate, delay and reorder packets in both directions.

 The network is a growing set of messages. Delivering a message does not remove
 it (duplication, delay, reordering) and a message need never be delivered (loss).
 A message carries the ordinal of its exchange as history; neither party reads it.
 It is used only to say how stale a delivered message may be: `window` bounds the
 number of exchanges that may have happened since the message was first sent.

 A call of the host can fail with its packet unanswered: the attempts are used up, the
 socket fails, or a datagram shorter than a header arrives. The counter stays as it is, so
 the next call sends its own packet under the same number. `careful` restricts the host to
 callers that stop there or send the same packet again.
 */
module UdpProtocol {
  import opened Bytes
  import opened UdpPacket

  /** `index` is the ordinal of the exchange in the session, -1 for handshake queries. */
  datatype Message = Message(index: int, packet: Packet)

  datatype State = State(
    // Host
    synced: bool,                // the Query handshake is over
    sequence: int,               // unbounded counter; the wire shows its low 16 bits
    pending: Option<Packet>,     // the packet without a response
    gaveUp: bool,                // the call that sent `pending` has failed
    accepted: seq<Exchange>,     // history: packets with the responses accepted for them
    // Device
    expected: int,               // S, the next expected sequence number
    saved: Option<Packet>,       // R, the response kept for re-transmission
    served: seq<Exchange>,       // history: packets processed with the responses computed
    // Network
    toDevice: set<Message>,
    toHost: set<Message>,
    base: int                    // history: S when the host connects
  )

  datatype Step =
    | Query
    | QueryReply(m: Message)
    | Send(p: Packet)
    | Receive(m: Message)
    | TimeOut
    | GiveUp
    | DeviceReceive(m: Message, resp: Packet)

  /** What is assumed of the network, and of the host's callers. */
  datatype Rules = Rules(window: nat, careful: bool)

  const QUERY_PACKET := Packet(ID_QUERY, FLAG_NONE, 0, [])

  function Succ16(s: int): (r: int) {
    (s + 1) % U16
  }

  function Pred16(s: int): (r: int) {
    (s + U16 - 1) % U16
  }

  predicate Fresh(m: Message, now: int, window: nat) {
    m.index < 0 || now - m.index < window
  }

  /** Connecting: nothing in flight, the device expects an arbitrary number. */
  predicate Initial(s: State) {
    && !s.synced && s.sequence == 0 && s.pending == None && !s.gaveUp && s.accepted == []
    && 0 <= s.base < U16 && s.expected == s.base && s.served == []
    && s.toDevice == {} && s.toHost == {}
  }

  predicate Enabled(s: State, step: Step, rules: Rules) {
    match step
    case Query => !s.synced
    case QueryReply(m) =>
      && !s.synced && m in s.toHost && Answers(QUERY_PACKET, m.packet) && |m.packet.data| >= 2
    case Send(p) =>
      && s.synced && p.Valid() && p.id != ID_QUERY && p.seqNum == s.sequence % U16
      && (s.pending.Some? && (!s.gaveUp || rules.careful) ==> p == s.pending.value)
    case Receive(m) =>
      Waiting(s) && m in s.toHost && Fresh(m, |s.accepted|, rules.window)
    case TimeOut => Waiting(s)
    case GiveUp => Waiting(s)
    case DeviceReceive(m, resp) =>
      && m in s.toDevice && Fresh(m, |s.served|, rules.window)
      && resp.Valid() && Answers(m.packet, resp)
  }

  /** A call is under way and its packet has no response yet. */
  predicate Waiting(s: State) {
    s.synced && s.pending.Some? && !s.gaveUp
  }

  /** The documented device: answer queries, process S, repeat R for S - 1, ignore the rest. */
  function DeviceStep(s: State, p: Packet, resp: Packet): (t: State) {
    if p.id == ID_QUERY then
      s.(toHost := s.toHost + {Message(-1, Packet(ID_QUERY, FLAG_NONE, p.seqNum, BigEndian16(s.expected)))})
    else if p.seqNum == s.expected then
      s.(served := s.served + [Exchange(p, resp)],
         saved := Some(resp),
         toHost := s.toHost + {Message(|s.served|, resp)},
         expected := Succ16(s.expected))
    else if p.seqNum == Pred16(s.expected) && s.saved.Some? then
      s.(toHost := s.toHost + {Message(|s.served| - 1, s.saved.value)})
    else
      s
  }

  function Apply(s: State, step: Step): (t: State) {
    match step
    case Query => s.(toDevice := s.toDevice + {Message(-1, QUERY_PACKET)})
    case QueryReply(m) =>
      if |m.packet.data| >= 2 then
        s.(synced := true, sequence := FromBigEndian16(m.packet.data[..2]))
      else s
    case Send(p) =>
      s.(pending := Some(p), gaveUp := false, toDevice := s.toDevice + {Message(|s.accepted|, p)})
    case Receive(m) =>
      if s.pending.Some? && Answers(s.pending.value, m.packet) then
        s.(sequence := s.sequence + 1,
           accepted := s.accepted + [Exchange(s.pending.value, m.packet)],
           pending := None)
      else s
    case TimeOut => s
    case GiveUp => s.(gaveUp := true)
    case DeviceReceive(m, resp) => DeviceStep(s, m.packet, resp)
  }

  /** The state after a run of steps, if every step of it is possible. */
  function Execute(s: State, steps: seq<Step>, rules: Rules): (t: Option<State>) {
    if steps == [] then Some(s)
    else
      match Execute(s, steps[..|steps| - 1], rules)
      case None => None
      case Some(mid) =>
        var step := steps[|steps| - 1];
        if Enabled(mid, step, rules) then Some(Apply(mid, step)) else None
  }

  function Requests(es: seq<Exchange>): (ps: seq<Packet>)
    ensures |ps| == |es|
    ensures forall i :: 0 <= i < |es| ==> ps[i] == es[i].req
  {
    seq(|es|, i requires 0 <= i < |es| => es[i].req)
  }

  /** Every packet the host has issued so far, in the order it issued them. */
  function Issued(s: State): (ps: seq<Packet>) {
    Requests(s.accepted) + (if s.pending.Some? then [s.pending.value] else [])
  }

  /**
   What the protocol is for: the device has processed exactly the packets the host
   issued, once each and in order, save perhaps the one still pending; each response
   the host accepted is the one the device computed for that packet; and the device's
   number is the host's or one ahead of it.
   */
  predicate InLockStep(s: State) {
    && s.accepted <= s.served
    && Requests(s.served) <= Issued(s)
    && |Issued(s)| <= |s.served| + 1
    && (s.synced ==> s.expected == s.sequence % U16 || s.expected == (s.sequence + 1) % U16)
  }

  /**
   What holds whatever the callers do: under every number the device has processed one of
   the packets the host sent, and the host has accepted the response to that one, save
   perhaps for the last number.
   */
  predicate InStep(s: State) {
    && |s.accepted| <= |s.served| <= |s.accepted| + 1
    && (forall i :: 0 <= i < |s.accepted| ==> s.accepted[i].resp == s.served[i].resp)
    && (forall i :: 0 <= i < |s.served| ==> Message(i, s.served[i].req) in s.toDevice)
    && (s.synced ==> s.expected == s.sequence % U16 || s.expected == (s.sequence + 1) % U16)
  }

  // ----- Inductive invariant

  predicate ServedAt(e: Exchange, number: int) {
    && e.req.seqNum == number % U16 && e.req.id != ID_QUERY && Answers(e.req, e.resp)
    && e.req.Valid() && e.resp.Valid()
  }

  predicate DeviceBound(s: State, m: Message) {
    if m.index == -1 then m.packet == QUERY_PACKET
    else
      && s.synced && 0 <= m.index <= |s.accepted| && (m.index == |s.accepted| ==> s.pending.Some?)
      && m.packet.Valid() && m.packet.id != ID_QUERY && m.packet.seqNum == (s.base + m.index) % U16
  }

  predicate HostBound(s: State, m: Message) {
    && m.packet.Valid()
    && if m.index == -1 then
      m.packet.id == ID_QUERY && (!s.synced ==> m.packet.data == BigEndian16(s.base))
    else
      0 <= m.index < |s.served| && m.packet == s.served[m.index].resp
  }

  predicate PartiesAgree(s: State) {
    && 0 <= s.base < U16
    && s.expected == (s.base + |s.served|) % U16
    && (!s.synced ==> s.accepted == [] && s.served == [] && s.pending == None)
    && (s.synced ==> s.sequence == s.base + |s.accepted|)
    && |s.accepted| <= |s.served| <= |s.accepted| + 1
    && (s.gaveUp ==> s.pending.Some?)
    && (s.pending.Some? ==>
          && s.pending.value.Valid() && s.pending.value.id != ID_QUERY
          && s.pending.value.seqNum == s.sequence % U16)
    && (s.served != [] ==> s.saved == Some(s.served[|s.served| - 1].resp))
    && (forall i :: 0 <= i < |s.served| ==> ServedAt(s.served[i], s.base + i))
    && (forall i :: 0 <= i < |s.accepted| ==> s.accepted[i].resp == s.served[i].resp)
  }

  /** Every packet in the history is still somewhere in the network. */
  predicate WasSent(s: State) {
    && (forall i :: 0 <= i < |s.served| ==> Message(i, s.served[i].req) in s.toDevice)
    && (forall i :: 0 <= i < |s.accepted| ==> Message(i, s.accepted[i].req) in s.toDevice)
    && (s.pending.Some? ==> Message(|s.accepted|, s.pending.value) in s.toDevice)
  }

  predicate Inv(s: State) {
    && PartiesAgree(s) && WasSent(s)
    && (forall m :: m in s.toDevice ==> DeviceBound(s, m))
    && (forall m :: m in s.toHost ==> HostBound(s, m))
  }

  /** From number `n` on the host has sent one packet under each number. */
  predicate Single(s: State, n: nat) {
    forall m, k :: m in s.toDevice && k in s.toDevice && m.index == k.index && m.index >= n ==> m == k
  }

  /** Two numbers less than a full window apart that look alike on the wire are equal. */
  lemma SameOnWire(a: int, b: int)
    requires a % U16 == b % U16 && -U16 < a - b < U16
    ensures a == b
  {
  }

  lemma Pred16Of(a: int)
    ensures Pred16(a % U16) == (a - 1) % U16
  {
  }

  lemma Succ16Of(a: int)
    ensures Succ16(a % U16) == (a + 1) % U16
  {
  }

  lemma ProcessAgrees(s: State, p: Packet, resp: Packet)
    requires PartiesAgree(s) && WasSent(s) && s.synced && |s.served| == |s.accepted|
    requires p.Valid() && p.id != ID_QUERY && p.seqNum == s.expected && Message(|s.served|, p) in s.toDevice
    requires resp.Valid() && Answers(p, resp)
    ensures PartiesAgree(DeviceStep(s, p, resp)) && WasSent(DeviceStep(s, p, resp))
    ensures DeviceStep(s, p, resp).served == s.served + [Exchange(p, resp)]
  {
    var t := DeviceStep(s, p, resp);
    Succ16Of(s.base + |s.served|);
    assert t.served[..|s.served|] == s.served;
  }

  /** Within the window, only a packet under the pending number can look like the next expected one. */
  lemma ProcessKeepsInv(s: State, m: Message, resp: Packet, rules: Rules)
    requires Inv(s) && rules.window <= U16 && Enabled(s, DeviceReceive(m, resp), rules)
    requires m.packet.id != ID_QUERY && m.packet.seqNum == s.expected
    ensures Inv(Apply(s, DeviceReceive(m, resp)))
    ensures m.index == |s.served| == |s.accepted|
  {
    hide ServedAt;
    assert DeviceBound(s, m);
    SameOnWire(s.base + m.index, s.base + |s.served|);
    assert m.index == |s.served| == |s.accepted|;
    var t := DeviceStep(s, m.packet, resp);
    ProcessAgrees(s, m.packet, resp);
    hide PartiesAgree, WasSent;
    forall h | h in t.toHost
      ensures HostBound(t, h)
    {
      assert h in s.toHost ==> HostBound(s, h);
    }
    forall d | d in t.toDevice
      ensures DeviceBound(t, d)
    {
      assert DeviceBound(s, d);
    }
  }

  /** Within the window, only a packet under the number last processed can look like the one before. */
  lemma RepeatKeepsInv(s: State, m: Message, resp: Packet, rules: Rules)
    requires Inv(s) && rules.window <= U16 && Enabled(s, DeviceReceive(m, resp), rules)
    requires m.packet.id != ID_QUERY && m.packet.seqNum == Pred16(s.expected) && s.saved.Some?
    ensures m.index == |s.served| - 1
    ensures Inv(s.(toHost := s.toHost + {Message(|s.served| - 1, s.saved.value)}))
  {
    hide ServedAt;
    assert DeviceBound(s, m);
    Pred16Of(s.base + |s.served|);
    SameOnWire(s.base + m.index, s.base + |s.served| - 1);
    RepeatedKeepsInv(s);
  }

  lemma RepeatedKeepsInv(s: State)
    requires Inv(s) && s.served != []
    ensures s.saved == Some(s.served[|s.served| - 1].resp)
    ensures Inv(s.(toHost := s.toHost + {Message(|s.served| - 1, s.saved.value)}))
  {
    assert ServedAt(s.served[|s.served| - 1], s.base + |s.served| - 1);
    hide PartiesAgree, WasSent, ServedAt;
    var t := s.(toHost := s.toHost + {Message(|s.served| - 1, s.saved.value)});
    forall d | d in t.toDevice
      ensures DeviceBound(t, d)
    {
      assert DeviceBound(s, d);
    }
  }

  lemma ReplyKeepsInv(s: State, p: Packet, resp: Packet)
    requires Inv(s) && p == QUERY_PACKET
    ensures Inv(DeviceStep(s, p, resp))
  {
    hide ServedAt, BigEndian16;
    var t := DeviceStep(s, p, resp);
    forall d | d in t.toDevice
      ensures DeviceBound(t, d)
    {
      assert DeviceBound(s, d);
    }
  }

  lemma DeviceStepKeepsInv(s: State, m: Message, resp: Packet, rules: Rules)
    requires Inv(s) && rules.window <= U16 && Enabled(s, DeviceReceive(m, resp), rules)
    ensures Inv(Apply(s, DeviceReceive(m, resp)))
  {
    assert DeviceBound(s, m);
    var p := m.packet;
    if p.id == ID_QUERY {
      ReplyKeepsInv(s, p, resp);
    } else if p.seqNum == s.expected {
      ProcessKeepsInv(s, m, resp, rules);
    } else if p.seqNum == Pred16(s.expected) && s.saved.Some? {
      RepeatKeepsInv(s, m, resp, rules);
    }
  }

  lemma ReceiveKeepsInv(s: State, m: Message, rules: Rules)
    requires Inv(s) && rules.window <= U16 && Enabled(s, Receive(m), rules)
    ensures Inv(Apply(s, Receive(m)))
    ensures Answers(s.pending.value, m.packet) ==>
              |s.served| == |s.accepted| + 1 && m.packet == s.served[|s.accepted|].resp
  {
    assert HostBound(s, m);
    if Answers(s.pending.value, m.packet) {
      assert ServedAt(s.served[m.index], s.base + m.index);
      SameOnWire(s.base + m.index, s.base + |s.accepted|);
      assert m.index == |s.accepted|;
      AcceptKeepsInv(s, m.packet);
    }
  }

  lemma AcceptKeepsInv(s: State, resp: Packet)
    requires Inv(s) && Waiting(s) && |s.served| == |s.accepted| + 1 && resp == s.served[|s.accepted|].resp
    ensures Inv(s.(sequence := s.sequence + 1, accepted := s.accepted + [Exchange(s.pending.value, resp)],
                   pending := None))
  {
    hide ServedAt;
    var t := s.(sequence := s.sequence + 1, accepted := s.accepted + [Exchange(s.pending.value, resp)],
                pending := None);
    assert t.accepted[..|s.accepted|] == s.accepted;
    assert forall d :: d in s.toDevice ==> DeviceBound(s, d);
  }

  lemma QueryReplyKeepsInv(s: State, m: Message, rules: Rules)
    requires Inv(s) && Enabled(s, QueryReply(m), rules)
    ensures Inv(Apply(s, QueryReply(m)))
  {
    assert HostBound(s, m);
    BigEndian16RoundTrip(s.base, [0, 0]);
    assert m.packet.data[..2] == m.packet.data;
  }

  lemma SendKeepsInv(s: State, p: Packet, rules: Rules)
    requires Inv(s) && Enabled(s, Send(p), rules)
    ensures Inv(Apply(s, Send(p)))
  {
    hide ServedAt;
    var t := Apply(s, Send(p));
    assert PartiesAgree(t) && WasSent(t);
    hide PartiesAgree, WasSent;
    forall m | m in s.toDevice
      ensures DeviceBound(t, m)
    {
      assert DeviceBound(s, m);
    }
    assert forall m :: m in s.toHost ==> HostBound(s, m);
  }

  lemma QueryKeepsInv(s: State)
    requires Inv(s)
    ensures Inv(Apply(s, Query))
  {
    hide ServedAt;
    assert forall m :: m in s.toDevice ==> DeviceBound(s, m);
    assert forall m :: m in s.toHost ==> HostBound(s, m);
  }

  lemma GiveUpKeepsInv(s: State, rules: Rules)
    requires Inv(s) && Enabled(s, GiveUp, rules)
    ensures Inv(Apply(s, GiveUp))
  {
    hide ServedAt;
    assert forall m :: m in s.toDevice ==> DeviceBound(s, m);
    assert forall m :: m in s.toHost ==> HostBound(s, m);
  }

  lemma StepKeepsInv(s: State, step: Step, rules: Rules)
    requires Inv(s) && rules.window <= U16 && Enabled(s, step, rules)
    ensures Inv(Apply(s, step))
  {
    hide Inv, Enabled, DeviceStep, Answers;
    match step
    case Query => QueryKeepsInv(s);
    case QueryReply(m) => QueryReplyKeepsInv(s, m, rules);
    case Send(p) => SendKeepsInv(s, p, rules);
    case Receive(m) => ReceiveKeepsInv(s, m, rules);
    case TimeOut =>
    case GiveUp => GiveUpKeepsInv(s, rules);
    case DeviceReceive(m, resp) => DeviceStepKeepsInv(s, m, resp, rules);
  }

  /** Another packet under a number that was used is sent only by a careless host. */
  predicate Careless(s: State, step: Step) {
    step.Send? && s.gaveUp && s.pending != Some(step.p)
  }

  lemma StepKeepsSingle(s: State, step: Step, rules: Rules, n: nat)
    requires Inv(s) && Single(s, n) && Enabled(s, step, rules)
    requires Careless(s, step) ==> |s.accepted| < n
    ensures Single(Apply(s, step), n)
  {
    hide PartiesAgree;
    if step.Send? {
      var sent := Message(|s.accepted|, step.p);
      forall m | m in s.toDevice && m.index == sent.index && m.index >= n
        ensures m == sent
      {
        assert DeviceBound(s, m);
      }
    }
  }

  lemma {:induction false} RunKeepsInv(s: State, steps: seq<Step>, rules: Rules)
    requires Inv(s) && rules.window <= U16
    ensures match Execute(s, steps, rules)
            case None => true
            case Some(t) => Inv(t) && (rules.careful && Single(s, 0) ==> Single(t, 0))
  {
    if steps != [] {
      RunKeepsInv(s, steps[..|steps| - 1], rules);
      var mid := Execute(s, steps[..|steps| - 1], rules);
      var step := steps[|steps| - 1];
      if mid.Some? && Enabled(mid.value, step, rules) {
        StepKeepsInv(mid.value, step, rules);
        if rules.careful && Single(s, 0) {
          StepKeepsSingle(mid.value, step, rules, 0);
        }
      }
    }
  }

  /** Where one packet was sent under a number, the device processed the packet the host got its response for. */
  lemma SingleServed(s: State, n: nat)
    requires Inv(s) && Single(s, n)
    ensures forall i :: n <= i < |s.accepted| ==> s.served[i] == s.accepted[i]
    ensures |s.served| > |s.accepted| >= n ==> s.pending == Some(s.served[|s.accepted|].req)
  {
    forall i | n <= i < |s.accepted|
      ensures s.served[i] == s.accepted[i]
    {
      assert Message(i, s.served[i].req) in s.toDevice && Message(i, s.accepted[i].req) in s.toDevice;
    }
    if |s.served| > |s.accepted| >= n {
      var m := Message(|s.accepted|, s.served[|s.accepted|].req);
      assert m in s.toDevice && DeviceBound(s, m);
    }
  }

  lemma InvIsLockStep(s: State)
    requires Inv(s) && Single(s, 0)
    ensures InLockStep(s)
  {
    SingleServed(s, 0);
    assert s.served[..|s.accepted|] == s.accepted;
    assert Requests(s.served)[..|s.accepted|] == Requests(s.accepted);
  }

  /** In every run, whatever the network and the callers do, the parties agree number by number. */
  lemma OnePacketPerNumber(s: State, steps: seq<Step>, rules: Rules)
    requires Initial(s) && rules.window <= U16
    ensures match Execute(s, steps, rules) case None => true case Some(t) => InStep(t)
  {
    RunKeepsInv(s, steps, rules);
  }

  /** In every run of careful callers, under every network behaviour, the parties stay in lock step. */
  lemma ExactlyOnceInOrder(s: State, steps: seq<Step>, rules: Rules)
    requires Initial(s) && rules.window <= U16 && rules.careful
    ensures match Execute(s, steps, rules) case None => true case Some(t) => InLockStep(t)
  {
    RunKeepsInv(s, steps, rules);
    var t := Execute(s, steps, rules);
    if t.Some? {
      InvIsLockStep(t.value);
    }
  }
}
