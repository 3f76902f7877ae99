/** That an exchange can always be completed, and the packets of the protocol's documentation. */
module UdpProgress {
  import opened Bytes
  import opened UdpPacket
  import opened UdpProtocol
  import T = UdpTransport

  /** What the device has for the packet under the pending number: the saved response, or a new one. */
  function Answer(s: State, resp: Packet): (r: Packet) {
    if |s.served| > |s.accepted| then s.served[|s.served| - 1].resp else resp
  }

  /** The retransmitted packet arrives, and then its response does. */
  function Completion(s: State, resp: Packet): (steps: seq<Step>)
    requires s.pending.Some?
  {
    [DeviceReceive(Message(|s.accepted|, s.pending.value), resp), Receive(Message(|s.accepted|, Answer(s, resp)))]
  }

  predicate Completed(s: State, t: State, resp: Packet) {
    && s.pending.Some? && t.pending == None && t.sequence == s.sequence + 1
    && t.accepted == s.accepted + [Exchange(s.pending.value, Answer(s, resp))]
    && |t.served| == |t.accepted| && t.served[|s.accepted|].resp == Answer(s, resp)
  }

  lemma Delivered(s: State, resp: Packet, rules: Rules)
    requires Inv(s) && Waiting(s) && 2 <= rules.window <= U16
    requires resp.Valid() && Answers(s.pending.value, resp)
    ensures var m, r := Message(|s.accepted|, s.pending.value), Answer(s, resp);
            var mid := Apply(s, DeviceReceive(m, resp));
            && Enabled(s, DeviceReceive(m, resp), rules) && mid == mid.(accepted := s.accepted, pending := s.pending)
            && mid.synced && !mid.gaveUp && mid.sequence == s.sequence
            && Message(|s.accepted|, r) in mid.toHost && (Single(s, 0) ==> Answers(s.pending.value, r))
            && |mid.served| == |s.accepted| + 1 && mid.served[|s.accepted|].resp == r
  {
    var a := |s.accepted|;
    if |s.served| > a {
      assert ServedAt(s.served[a], s.base + a);
      if Single(s, 0) {
        SingleServed(s, 0);
      }
      Pred16Of(s.base + |s.served|);
      Succ16Of(s.base + a);
    }
    if s.sequence % U16 == s.expected && |s.served| > a {
      SameOnWire(s.base + a, s.base + a + 1);
    }
  }

  lemma CompletesFrom(s: State, resp: Packet, rules: Rules)
    requires Inv(s) && Waiting(s) && 2 <= rules.window <= U16 && resp.Valid() && Answers(s.pending.value, resp)
    ensures Execute(s, Completion(s, resp), rules).Some?
    ensures Completed(s, Execute(s, Completion(s, resp), rules).value, resp) <==>
            Answers(s.pending.value, Answer(s, resp))
    ensures Single(s, 0) ==> Answers(s.pending.value, Answer(s, resp))
  {
    hide Inv, DeviceStep, Single, Answers;
    Delivered(s, resp, rules);
    var both := Completion(s, resp);
    var mid := Apply(s, both[0]);
    OneStep(s, both[0], rules);
    assert both[..1] == [both[0]];
    assert Enabled(mid, both[1], rules);
    TwoSteps(s, both, mid, rules);
  }

  /**
   Whatever has been lost so far, a waiting host gets on: in every reachable state one more
   delivery of its packet and one of the response complete the exchange, and the response it
   accepts is the one the device computed. This is so for careful callers; after a failed call
   whose packet the device processed another packet is answered exactly when the saved
   response matches it too.
   */
  lemma AlwaysCompletes(s0: State, steps: seq<Step>, s: State, resp: Packet, rules: Rules)
    requires Initial(s0) && 2 <= rules.window <= U16 && Execute(s0, steps, rules) == Some(s) && Waiting(s)
    requires resp.Valid() && Answers(s.pending.value, resp)
    ensures Execute(s, Completion(s, resp), rules).Some?
    ensures Completed(s, Execute(s, Completion(s, resp), rules).value, resp) <==>
            Answers(s.pending.value, Answer(s, resp))
    ensures rules.careful ==> Answers(s.pending.value, Answer(s, resp))
  {
    InitialInv(s0);
    hide Initial, Inv, Single, Answers, Completed;
    RunKeepsInv(s0, steps, rules);
    CompletesFrom(s, resp, rules);
  }

  lemma InitialInv(s: State)
    requires Initial(s)
    ensures Inv(s) && Single(s, 0)
  {
  }

  lemma OneStep(s: State, step: Step, rules: Rules)
    requires Enabled(s, step, rules)
    ensures Execute(s, [step], rules) == Some(Apply(s, step))
  {
    hide Enabled, Apply;
    assert [step][..0] == [];
  }

  lemma TwoSteps(s: State, both: seq<Step>, mid: State, rules: Rules)
    requires |both| == 2 && Execute(s, both[..1], rules) == Some(mid) && Enabled(mid, both[1], rules)
    ensures Execute(s, both, rules) == Some(Apply(mid, both[1]))
  {
    hide Enabled, Apply;
  }

  /** The packets of the documentation's examples; this host offers version 1 and 8192 bytes. */
  lemma DocumentedPackets(data: seq<byte>)
    ensures Encode(QUERY_PACKET) == [0x01, 0x00, 0x00, 0x00]
    ensures FromBigEndian16([0x55, 0xAA]) == 0x55AA
    ensures Header(ID_INIT, 0x55AA, FLAG_NONE) + BigEndian16(PROTOCOL_VERSION) + BigEndian16(2048)
            == [0x02, 0x00, 0x55, 0xAA, 0x00, 0x01, 0x08, 0x00]
    ensures T.INIT_DATA == [0x00, 0x01, 0x20, 0x00]
    ensures Header(ID_FASTBOOT, 0x1_0000 + 1, FLAG_CONTINUATION) + data == [0x03, 0x01, 0x00, 0x01] + data
    ensures Header(ID_FASTBOOT, 0xFFFF, FLAG_NONE) + data == [0x03, 0x00, 0xFF, 0xFF] + data
    ensures Decode([0x00, 0x00, 0x00, 0x00] + data).id == ID_ERROR
    ensures Decode([0x03, 0x01, 0x00, 0x01] + data).Continues() && !Decode([0x03, 0x00, 0x00, 0x03] + data).Continues()
  {
  }
}
