/**
 What an observer beside the host's socket sees: a log of datagrams sent, datagrams
 received and time-outs. `Fold` reads the exchanges off a log; `Follows` says that a
 log obeys the sender's side of the protocol.
 */
module UdpLog {
  import opened Bytes
  import opened UdpPacket

  /** A datagram went out, came in, was refused by the socket; a wait timed out or failed. */
  datatype Io = Sent(wire: seq<byte>) | Got(wire: seq<byte>) | Refused(wire: seq<byte>) | Quiet | Broken

  /**
   `pending` is the unanswered datagram, `tries` how often it has been sent, and `waiting`
   says that no wait has timed out since it was sent last.
   */
  datatype View = View(sequence: int, pending: Option<seq<byte>>, tries: nat, waiting: bool, done: seq<Exchange>)

  /** Where a sender stands when it has nothing outstanding. */
  function AtRest(sequence: int, done: seq<Exchange>): (v: View) {
    View(sequence, None, 0, false, done)
  }

  predicate Answered(v: View, wire: seq<byte>) {
    && v.pending.Some? && |v.pending.value| >= HEADER_SIZE && |wire| >= HEADER_SIZE
    && Matches(v.pending.value, wire)
  }

  function Observe(v: View, io: Io): (w: View) {
    match io
    case Sent(wire) => v.(pending := Some(wire), tries := v.tries + 1, waiting := true)
    case Got(wire) =>
      if Answered(v, wire) then
        AtRest(v.sequence + 1, v.done + [Exchange(Decode(v.pending.value), Decode(wire))])
      else v
    case Quiet => v.(waiting := false)
    case _ => v
  }

  /**
   A new datagram carries the low 16 bits of the counter; until it is answered only the
   very same datagram is sent, each time after a wait that timed out, at most `attempts` times
   in all; nothing is received except while waiting for an answer.
   */
  predicate Allowed(v: View, io: Io, attempts: nat) {
    match io
    case Sent(wire) => MaySend(v, wire, attempts)
    case Refused(wire) => MaySend(v, wire, attempts)
    case _ => v.pending.Some? && v.waiting
  }

  predicate MaySend(v: View, wire: seq<byte>, attempts: nat) {
    && |wire| >= HEADER_SIZE && v.tries < attempts && !v.waiting
    && (match v.pending
        case None => Decode(wire).seqNum == v.sequence % U16
        case Some(same) => wire == same)
  }

  /**
   What ends a call early: the socket refuses a datagram or a wait fails, a datagram shorter
   than a header arrives, or the last of the attempts for one datagram times out.
   */
  predicate Halts(v: View, io: Io, attempts: nat) {
    match io
    case Refused(_) => true
    case Broken => true
    case Got(wire) => |wire| < HEADER_SIZE
    case Quiet => v.pending.Some? && v.tries == attempts
    case Sent(_) => false
  }

  /** A call that fails was halted by the last thing that happened, or its last response is an error packet. */
  predicate Excused(v: View, log: seq<Io>, attempts: nat, es: seq<Exchange>) {
    || (log != [] && Halts(v, log[|log| - 1], attempts))
    || (es != [] && Finished(es) && es[|es| - 1].resp.id == ID_ERROR)
  }

  function Fold(v: View, log: seq<Io>): (w: View) {
    if log == [] then v else Observe(Fold(v, log[..|log| - 1]), log[|log| - 1])
  }

  predicate Follows(v: View, log: seq<Io>, attempts: nat) {
    log != [] ==>
      && Follows(v, log[..|log| - 1], attempts)
      && Allowed(Fold(v, log[..|log| - 1]), log[|log| - 1], attempts)
  }

  lemma FoldSnoc(v: View, log: seq<Io>, io: Io, attempts: nat)
    ensures Fold(v, log + [io]) == Observe(Fold(v, log), io)
    ensures Follows(v, log + [io], attempts)
            <==> Follows(v, log, attempts) && Allowed(Fold(v, log), io, attempts)
  {
    assert (log + [io])[..|log + [io]| - 1] == log;
  }

  lemma {:induction false} FoldAppend(v: View, a: seq<Io>, b: seq<Io>, attempts: nat)
    ensures Fold(v, a + b) == Fold(Fold(v, a), b)
    ensures Follows(v, a + b, attempts)
            <==> Follows(v, a, attempts) && Follows(Fold(v, a), b, attempts)
  {
    if b == [] {
      assert a + b == a;
    } else {
      FoldAppend(v, a, b[..|b| - 1], attempts);
      assert (a + b)[..|a + b| - 1] == a + b[..|b| - 1];
    }
  }

  // ----- Shapes of exchange lists

  /**
   The exchanges for one packet: the packet itself, then an empty prompt for each
   response that announces a continuation, until a response that does not.
   */
  predicate Chain(first: Packet, sequence: int, es: seq<Exchange>) {
    && (es != [] ==> es[0].req == first)
    && (forall i :: 0 < i < |es| ==>
          es[i].req == Packet(es[i - 1].resp.id, FLAG_NONE, (sequence + i) % U16, []))
    && (forall i :: 0 <= i < |es| - 1 ==> es[i].resp.Continues())
    && (forall i :: 0 <= i < |es| ==> Answers(es[i].req, es[i].resp))
  }

  /** The chunk of `data` that follows the first `sent` bytes, as a packet. */
  function NextChunk(id: byte, data: seq<byte>, max: nat, number: int, sent: nat): (p: Packet)
    requires sent <= |data|
  {
    Packet(id, if |data| - sent > max then FLAG_CONTINUATION else FLAG_NONE, number % U16,
           data[sent..sent + Min(max, |data| - sent)])
  }

  /** Request `k` of a message is a prompt after a continued response, else the next chunk. */
  predicate RequestOk(id: byte, data: seq<byte>, max: nat, sequence: int, es: seq<Exchange>, k: nat)
    requires k < |es|
  {
    var sent := |RequestData(es[..k])|;
    if k > 0 && es[k - 1].resp.Continues() then
      es[k].req == Packet(es[k - 1].resp.id, FLAG_NONE, (sequence + k) % U16, [])
    else
      && sent <= |data| && (k > 0 ==> sent < |data|)
      && es[k].req == NextChunk(id, data, max, sequence + k, sent)
  }

  predicate Chunked(id: byte, data: seq<byte>, max: nat, sequence: int, es: seq<Exchange>) {
    && (forall k :: 0 <= k < |es| ==> RequestOk(id, data, max, sequence, es, k))
    && (forall k :: 0 <= k < |es| ==> Answers(es[k].req, es[k].resp))
  }

  predicate Finished(es: seq<Exchange>) {
    es != [] ==> !es[|es| - 1].resp.Continues()
  }

  /** The text of the error packets among the responses. */
  function ErrorText(es: seq<Exchange>): (r: seq<byte>) {
    if es == [] then []
    else
      var last := es[|es| - 1].resp;
      ErrorText(es[..|es| - 1]) + if last.id == ID_ERROR then last.data else []
  }

  predicate NoError(es: seq<Exchange>) {
    forall i :: 0 <= i < |es| ==> es[i].resp.id != ID_ERROR
  }

  /** Prompts carry no data, so a chain carries exactly its first packet's data. */
  lemma {:induction false} ChainRequestData(first: Packet, sequence: int, es: seq<Exchange>)
    requires es != [] && Chain(first, sequence, es)
    ensures RequestData(es) == first.data
  {
    var front := es[..|es| - 1];
    if front == [] {
      assert RequestData(es) == RequestData(front) + first.data;
    } else {
      ChainRequestData(first, sequence, front);
      assert es[|es| - 1].req.data == [];
    }
  }

  lemma RequestOkInAppend(id: byte, data: seq<byte>, max: nat, sequence: int, es: seq<Exchange>,
                          chain: seq<Exchange>, sent: nat, k: nat)
    requires k < |es| + |chain| && chain != []
    requires k < |es| ==> RequestOk(id, data, max, sequence, es, k)
    requires Finished(es) && sent <= |data| && |RequestData(es)| == sent
    requires es != [] ==> sent < |data|
    requires Chain(NextChunk(id, data, max, sequence + |es|, sent), sequence + |es|, chain)
    ensures RequestOk(id, data, max, sequence, es + chain, k)
  {
    var all := es + chain;
    if k < |es| {
      assert all[..k] == es[..k];
    } else if k == |es| {
      assert all[..k] == es && all[k] == chain[0];
    } else {
      assert all[k] == chain[k - |es|] && all[k - 1] == chain[k - |es| - 1];
    }
  }

  lemma AnswersAppend(es: seq<Exchange>, chain: seq<Exchange>)
    requires forall k :: 0 <= k < |es| ==> Answers(es[k].req, es[k].resp)
    requires forall k :: 0 <= k < |chain| ==> Answers(chain[k].req, chain[k].resp)
    ensures forall k :: 0 <= k < |es + chain| ==> Answers((es + chain)[k].req, (es + chain)[k].resp)
  {
  }

  /** Appending the chain of the next chunk keeps a list of exchanges well chunked. */
  lemma ChunkedAppend(id: byte, data: seq<byte>, max: nat, sequence: int, es: seq<Exchange>,
                      chain: seq<Exchange>, sent: nat)
    requires Chunked(id, data, max, sequence, es) && Finished(es)
    requires sent <= |data| && |RequestData(es)| == sent
    requires es != [] ==> sent < |data|
    requires chain != []
    requires Chain(NextChunk(id, data, max, sequence + |es|, sent), sequence + |es|, chain)
    ensures Chunked(id, data, max, sequence, es + chain)
  {
    var all := es + chain;
    assert forall k :: 0 <= k < |all| ==> Answers(all[k].req, all[k].resp) by {
      AnswersAppend(es, chain);
    }
    forall k | 0 <= k < |all|
      ensures RequestOk(id, data, max, sequence, all, k)
    {
      RequestOkInAppend(id, data, max, sequence, es, chain, sent, k);
    }
  }

  lemma ChunkDataAppend(data: seq<byte>, first: Packet, sequence: int, es: seq<Exchange>,
                        chain: seq<Exchange>, sent: nat, n: nat)
    requires sent + n <= |data| && RequestData(es) == data[..sent] && chain != []
    requires Chain(first, sequence, chain) && first.data == data[sent..sent + n]
    ensures RequestData(es + chain) == data[..sent + n]
  {
    ChainRequestData(first, sequence, chain);
    RequestDataAppend(es, chain);
    SliceJoin(data, sent, sent + n);
  }

  /** An empty message is a single chain: one empty packet and the prompts it leads to. */
  lemma EmptyMessageIsChain(id: byte, max: nat, sequence: int, es: seq<Exchange>)
    requires Chunked(id, [], max, sequence, es) && es != []
    ensures Chain(Packet(id, FLAG_NONE, sequence % U16, []), sequence, es)
  {
    assert RequestOk(id, [], max, sequence, es, 0);
    forall k | 0 <= k < |es| - 1
      ensures es[k].resp.Continues()
    {
      assert RequestOk(id, [], max, sequence, es, k + 1);
    }
    forall k | 0 < k < |es|
      ensures es[k].req == Packet(es[k - 1].resp.id, FLAG_NONE, (sequence + k) % U16, [])
    {
      assert RequestOk(id, [], max, sequence, es, k);
    }
  }
}
