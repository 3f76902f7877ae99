/**
 The host side of the fastboot UDP transport: handshake, chunking of a message into
 packets, re-transmission, and collection of continued responses.

 The socket is an oracle: it replays a finite script of send results and arrivals and
 keeps a log of what crossed it. Every method ties its effect to that log.
 */
module UdpTransport {
  import opened Bytes
  import opened UdpPacket
  import opened UdpLog

  datatype Arrival = Timeout | Failure | Datagram(bytes: seq<byte>)

  datatype UdpError =
    | SocketClosed
    | SocketFailed
    | IncompleteHeader
    | NoResponse
    | TargetError(text: seq<byte>)
    | InvalidQueryResponse
    | InvalidInitResponse
    | InvalidVersion(version: int)
    | InvalidPacketSize(size: int)
    | ReceiveOverflow
    | DataOutOfTurn

  datatype Outcome<+T> = Ok(value: T) | Err(error: UdpError)

  class Socket {
    var sendScript: seq<bool>
    var inbox: seq<Arrival>
    var timedOut: bool
    var log: seq<Io>

    constructor (sendScript: seq<bool>, inbox: seq<Arrival>)
      ensures this.sendScript == sendScript && this.inbox == inbox && !timedOut && log == []
    {
      this.sendScript, this.inbox, timedOut, log := sendScript, inbox, false, [];
    }

    /** Sends one datagram; a script that has run out refuses. */
    method Send(wire: seq<byte>) returns (ok: bool)
      modifies this
      ensures inbox == old(inbox) && timedOut == old(timedOut)
      ensures log == old(log) + [if ok then Sent(wire) else Refused(wire)]
      ensures ok == (old(sendScript) != [] && old(sendScript)[0])
      ensures sendScript == if old(sendScript) == [] then [] else old(sendScript)[1..]
    {
      ok := false;
      if sendScript != [] {
        ok, sendScript := sendScript[0], sendScript[1..];
      }
      log := log + [if ok then Sent(wire) else Refused(wire)];
    }

    /** Receives one datagram, cut to `size` bytes; a script that has run out fails. */
    method Receive(size: nat) returns (a: Arrival)
      modifies this
      ensures sendScript == old(sendScript)
      ensures old(inbox) == [] ==> a == Failure && inbox == []
      ensures old(inbox) != [] ==> inbox == old(inbox)[1..]
      ensures old(inbox) != [] ==>
                a == match old(inbox)[0]
                     case Datagram(b) => Datagram(b[..Min(size, |b|)])
                     case other => other
      ensures timedOut == a.Timeout?
      ensures log == match a
                     case Timeout => old(log) + [Quiet]
                     case Failure => old(log) + [Broken]
                     case Datagram(b) => old(log) + [Got(b)]
    {
      if inbox == [] {
        timedOut, log := false, log + [Broken];
        return Failure;
      }
      a := inbox[0];
      inbox := inbox[1..];
      timedOut := a.Timeout?;
      match a
      case Timeout => log := log + [Quiet];
      case Failure => log := log + [Broken];
      case Datagram(b) =>
        a := Datagram(b[..Min(size, |b|)]);
        log := log + [Got(b[..Min(size, |b|)])];
    }
  }

  /** As much of `data` as fits in `room` bytes. */
  function Fitting(data: seq<byte>, room: nat): (r: seq<byte>)
    ensures |r| <= room && r <= data
  {
    data[..Min(room, |data|)]
  }

  /** Stores data at the front of the caller's buffer. */
  method Store(buf: array<byte>, data: seq<byte>, length: nat)
    requires |data| <= length <= buf.Length
    modifies buf
    ensures buf[..|data|] == data
    ensures buf[|data|..] == old(buf[|data|..]) && buf[length..] == old(buf[length..])
  {
    forall i | 0 <= i < |data| {
      buf[i] := data[i];
    }
    assert forall i :: |data| <= i < buf.Length ==> buf[i] == old(buf[i]);
  }

  /** State of the exchange loop between two transmissions of `header + payload`. */
  ghost predicate Looping(v0: View, v: View, first: seq<byte>, chain: seq<Exchange>, wire: seq<byte>,
                          attempts: nat, left: int)
  {
    && |first| >= HEADER_SIZE && |wire| >= HEADER_SIZE && 0 <= left <= attempts
    && v.sequence == v0.sequence + |chain|
    && v.done == v0.done + chain
    && v.tries == attempts - left && !v.waiting
    && v.pending == (if v.tries == 0 then None else Some(wire))
    && Decode(wire).seqNum == v.sequence % U16
    && Chain(Decode(first), v0.sequence, chain)
    && (chain == [] ==> wire == first)
    && (chain != [] ==>
          && chain[|chain| - 1].resp.Continues()
          && wire == Header(chain[|chain| - 1].resp.id, v.sequence, FLAG_NONE))
    && (NoError(chain) || chain[|chain| - 1].resp.id == ID_ERROR)
  }

  lemma DecodeHeader(id: byte, sequence: int, flags: byte, data: seq<byte>)
    ensures Decode(Header(id, sequence, flags) + data) == Packet(id, flags, sequence % U16, data)
  {
    var w := Header(id, sequence, flags) + data;
    assert w[2..4] == BigEndian16(sequence);
    BigEndian16RoundTrip(sequence, [0, 0]);
    assert w[4..] == data;
  }

  /**
   Accepting a response extends the chain. Once a response is an error, the prompt that
   follows carries the error id, so every later response of the chain is an error too.
   */
  lemma Accepted(v0: View, v: View, first: seq<byte>, chain: seq<Exchange>, wire: seq<byte>,
                 attempts: nat, left: int, response: seq<byte>)
    requires Looping(v0, v, first, chain, wire, attempts, left)
    requires |response| >= HEADER_SIZE && Matches(wire, response)
    ensures var more := chain + [Exchange(Decode(wire), Decode(response))];
            && Observe(Observe(v, Sent(wire)), Got(response)) == AtRest(v.sequence + 1, v0.done + more)
            && Chain(Decode(first), v0.sequence, more)
            && (NoError(more) || Decode(response).id == ID_ERROR)
            && (Decode(response).Continues() ==>
                  Looping(v0, AtRest(v.sequence + 1, v0.done + more), first, more,
                          Header(response[0], v.sequence + 1, FLAG_NONE), attempts, attempts))
  {
    MatchesIsAnswers(wire, response);
    if chain != [] {
      var last := chain[|chain| - 1];
      assert wire == Header(last.resp.id, v.sequence, FLAG_NONE) + [];
      DecodeHeader(last.resp.id, v.sequence, FLAG_NONE, []);
    }
    var next := Header(response[0], v.sequence + 1, FLAG_NONE);
    assert next + [] == next;
    DecodeHeader(response[0], v.sequence + 1, FLAG_NONE, []);
  }

  /** A response's bytes as error text and as data: one of the two is empty. */
  function Payload(resp: Packet): (r: (seq<byte>, seq<byte>)) {
    if resp.id == ID_ERROR then (resp.data, []) else ([], resp.data)
  }

  /** The helper's working variables. */
  datatype Progress = Progress(header: seq<byte>, payload: seq<byte>, error: seq<byte>, total: nat,
                               stored: seq<byte>, attemptsLeft: int)
  {
    function Wire(): (w: seq<byte>) {
      header + payload
    }
  }

  /** What has been kept of a chain's responses: error text, or a byte count and stored bytes. */
  ghost predicate Collected(chain: seq<Exchange>, error: seq<byte>, total: nat, stored: seq<byte>, room: nat) {
    && error == ErrorText(chain)
    && |stored| <= room
    && (NoError(chain) ==>
          total == |ResponseData(chain)| && stored == Fitting(ResponseData(chain), room))
  }

  lemma CollectMore(chain: seq<Exchange>, e: Exchange, error: seq<byte>, total: nat,
                    stored: seq<byte>, room: nat)
    requires Collected(chain, error, total, stored, room)
    requires NoError(chain + [e]) || e.resp.id == ID_ERROR
    ensures var (text, data) := Payload(e.resp);
            Collected(chain + [e], error + text, total + |data|,
                      stored + Fitting(data, room - |stored|), room)
  {
    var more := chain + [e];
    assert more[..|more| - 1] == chain;
    if e.resp.id == ID_ERROR {
      assert more[|more| - 1].resp.id == ID_ERROR;
    } else {
      forall i | 0 <= i < |chain|
        ensures chain[i].resp.id != ID_ERROR
      {
        assert more[i] == chain[i];
      }
    }
  }

  /**
   What sending one packet amounts to, where `v` is the observer's view afterwards and
   `chain` the exchanges made. Success means the whole chain was answered without an
   error packet and `stored` holds as much of its data as fits; a target error carries
   the text of the error packets; `NoResponse` means every attempt was used up.
   */
  ghost predicate PacketDone(first: Packet, v0: View, v: View, chain: seq<Exchange>, room: nat,
                             attempts: nat, r: Outcome<nat>, stored: seq<byte>)
  {
    && v.sequence == v0.sequence + |chain| && v.done == v0.done + chain
    && Chain(first, v0.sequence, chain)
    && |stored| <= room
    && (r.Ok? ==>
          && v == AtRest(v.sequence, v.done)
          && chain != [] && Finished(chain) && NoError(chain)
          && r.value == |ResponseData(chain)|
          && stored == Fitting(ResponseData(chain), room))
    && (r.Err? ==> chain == [] || !Finished(chain) || !NoError(chain))
    && (r.Err? && r.error.TargetError? ==>
          && chain != [] && Finished(chain) && chain[|chain| - 1].resp.id == ID_ERROR
          && r.error.text == ErrorText(chain))
    && (r == Err(NoResponse) ==> v.pending.Some? && v.tries == attempts)
  }

  /**
   Takes in an accepted response: its bytes are kept as error text or data; a continued
   response leads to an empty prompt under the response's id, any other ends the packet.
   */
  function TakeIn(p: Progress, wire: seq<byte>, sequence: int, room: nat, attempts: nat)
    : (r: (Option<Outcome<nat>>, Progress))
    requires |wire| >= HEADER_SIZE && |p.stored| <= room
  {
    var (text, data) := Payload(Decode(wire));
    var q := p.(error := p.error + text, total := p.total + |data|,
                stored := p.stored + Fitting(data, room - |p.stored|));
    if wire[1] % 2 == 1 then
      (None, q.(header := Header(wire[0], sequence, FLAG_NONE), payload := [], attemptsLeft := attempts))
    else if wire[0] == ID_ERROR then
      (Some(Err(TargetError(q.error))), q)
    else
      (Some(Ok(q.total)), q)
  }

  lemma TakenIn(p: Progress, wire: seq<byte>, room: nat, attempts: nat,
                first: seq<byte>, v0: View, v: View, chain: seq<Exchange>)
    requires Looping(v0, v, first, chain, p.Wire(), attempts, p.attemptsLeft)
    requires Collected(chain, p.error, p.total, p.stored, room)
    requires |wire| >= HEADER_SIZE && Matches(p.Wire(), wire)
    ensures var more := chain + [Exchange(Decode(p.Wire()), Decode(wire))];
            var w := Observe(Observe(v, Sent(p.Wire())), Got(wire));
            var (r, q) := TakeIn(p, wire, v.sequence + 1, room, attempts);
            && w.sequence == v.sequence + 1
            && (r == None ==>
                  && |q.header| == HEADER_SIZE
                  && Looping(v0, w, first, more, q.Wire(), attempts, q.attemptsLeft)
                  && Collected(more, q.error, q.total, q.stored, room))
            && (r.Some? ==> PacketDone(Decode(first), v0, w, more, room, attempts, r.value, q.stored))
            && (r.Some? && r.value.Err? ==> r.value.error.TargetError?)
  {
    Accepted(v0, v, first, chain, p.Wire(), attempts, p.attemptsLeft, wire);
    var exchange := Exchange(Decode(p.Wire()), Decode(wire));
    CollectMore(chain, exchange, p.error, p.total, p.stored, room);
    var (r, q) := TakeIn(p, wire, v.sequence + 1, room, attempts);
    if r == None {
      assert q.Wire() == q.header;
    }
  }

  /** The exchanges carry the message and end it without an error packet. */
  ghost predicate Complete(data: seq<byte>, es: seq<Exchange>) {
    es != [] && Finished(es) && NoError(es) && RequestData(es) == data
  }

  lemma FailedPacketFailsMessage(data: seq<byte>, es: seq<Exchange>, sent: nat, chain: seq<Exchange>)
    requires sent <= |data| && RequestData(es) == data[..sent] && (es != [] ==> sent < |data|)
    requires chain == [] || !Finished(chain) || !NoError(chain)
    ensures !Complete(data, es + chain)
  {
    if chain == [] {
      assert es + chain == es;
    } else if Finished(chain) {
      var i :| 0 <= i < |chain| && chain[i].resp.id == ID_ERROR;
      assert (es + chain)[|es| + i] == chain[i];
    } else {
      assert (es + chain)[|es + chain| - 1] == chain[|chain| - 1];
    }
  }

  /**
   What sending one message amounts to. In every case the exchanges made are the chunks
   of the message in order with the prompts for continued responses between them. On
   success the requests carry exactly the message and no response was an error.
   */
  ghost predicate MessageDone(id: byte, data: seq<byte>, max: nat, v0: View, v: View, es: seq<Exchange>,
                              room: nat, attempts: nat, r: Outcome<nat>, stored: seq<byte>)
  {
    && v.sequence == v0.sequence + |es| && v.done == v0.done + es
    && Chunked(id, data, max, v0.sequence, es)
    && RequestData(es) <= data
    && |stored| <= room
    && (r.Ok? ==>
          && v == AtRest(v.sequence, v.done)
          && es != [] && Finished(es) && NoError(es)
          && RequestData(es) == data
          && r.value == |ResponseData(es)|
          && stored == Fitting(ResponseData(es), room))
    && (r.Err? ==> !Complete(data, es))
    && (r.Err? && r.error.TargetError? ==> es != [] && es[|es| - 1].resp.id == ID_ERROR)
    && (r == Err(NoResponse) ==> v.pending.Some? && v.tries == attempts)
  }

  lemma FittingAppend(a: seq<byte>, b: seq<byte>, room: nat)
    ensures Fitting(a + b, room) == Fitting(a, room) + Fitting(b, room - |Fitting(a, room)|)
  {
  }

  /** Progress of a message between two packets: `sent` bytes are across. */
  ghost predicate PartlySent(id: byte, data: seq<byte>, max: nat, v0: View, v: View, es: seq<Exchange>,
                             room: nat, sent: nat, total: nat, stored: seq<byte>)
  {
    && v == AtRest(v0.sequence + |es|, v0.done + es)
    && Chunked(id, data, max, v0.sequence, es) && Finished(es) && NoError(es)
    && sent <= |data| && RequestData(es) == data[..sent]
    && total == |ResponseData(es)| && stored == Fitting(ResponseData(es), room)
  }

  lemma ResponsesAppend(es: seq<Exchange>, chain: seq<Exchange>, room: nat)
    requires NoError(es) && NoError(chain) && chain != [] && Finished(chain)
    ensures NoError(es + chain) && Finished(es + chain)
    ensures |ResponseData(es + chain)| == |ResponseData(es)| + |ResponseData(chain)|
    ensures Fitting(ResponseData(es + chain), room)
            == Fitting(ResponseData(es), room)
               + Fitting(ResponseData(chain), room - |Fitting(ResponseData(es), room)|)
  {
    ResponseDataAppend(es, chain);
    FittingAppend(ResponseData(es), ResponseData(chain), room);
  }

  lemma AllSent(id: byte, data: seq<byte>, max: nat, v0: View, v: View, es: seq<Exchange>,
                room: nat, attempts: nat, total: nat, stored: seq<byte>)
    requires PartlySent(id, data, max, v0, v, es, room, |data|, total, stored) && es != []
    ensures MessageDone(id, data, max, v0, v, es, room, attempts, Ok(total), stored)
  {
    assert data[..|data|] == data;
  }

  /** The exchanges of a packet extend those of the message. */
  lemma PacketIntoExchanges(id: byte, data: seq<byte>, max: nat, sequence: int, es: seq<Exchange>,
                            sent: nat, chain: seq<Exchange>)
    requires Chunked(id, data, max, sequence, es) && Finished(es)
    requires sent <= |data| && RequestData(es) == data[..sent]
    requires es != [] ==> sent < |data|
    requires Chain(NextChunk(id, data, max, sequence + |es|, sent), sequence + |es|, chain)
    ensures Chunked(id, data, max, sequence, es + chain)
    ensures chain != [] ==> RequestData(es + chain) == data[..sent + Min(max, |data| - sent)]
    ensures RequestData(es + chain) <= data
  {
    if chain == [] {
      assert es + chain == es;
    } else {
      ChunkedAppend(id, data, max, sequence, es, chain, sent);
      ChunkDataAppend(data, NextChunk(id, data, max, sequence + |es|, sent), sequence + |es|, es, chain,
                      sent, Min(max, |data| - sent));
    }
  }

  /** Folding a packet into the message: the message goes on, or has failed. */
  lemma PacketIntoMessage(id: byte, data: seq<byte>, max: nat, v0: View, v: View, es: seq<Exchange>,
                          room: nat, sent: nat, total: nat, stored: seq<byte>,
                          w: View, chain: seq<Exchange>, attempts: nat, r: Outcome<nat>, more: seq<byte>)
    requires PartlySent(id, data, max, v0, v, es, room, sent, total, stored)
    requires es != [] ==> sent < |data|
    requires PacketDone(NextChunk(id, data, max, v.sequence, sent), v, w, chain,
                        room - |stored|, attempts, r, more)
    ensures r.Ok? ==> chain != []
    ensures r.Ok? ==>
              PartlySent(id, data, max, v0, w, es + chain, room, sent + Min(max, |data| - sent),
                         total + r.value, stored + more)
    ensures r.Err? ==> MessageDone(id, data, max, v0, w, es + chain, room, attempts, r, stored + more)
  {
    hide Chain, Chunked, NextChunk, RequestData, ResponseData, Fitting, ErrorText;
    AppendAssoc(v0.done, es, chain);
    PacketIntoExchanges(id, data, max, v0.sequence, es, sent, chain);
    if r.Ok? {
      ResponsesAppend(es, chain, room);
    } else {
      FailedPacketFailsMessage(data, es, sent, chain);
    }
  }

  /** Version 1 and the host's packet size, both big-endian. */
  const INIT_DATA: seq<byte> := BigEndian16(PROTOCOL_VERSION) + BigEndian16(HOST_MAX_PACKET_SIZE)

  /** A whole query chain with no error packet and at least the two bytes of S. */
  ghost predicate QueryDone(query: seq<Exchange>) {
    && query != [] && NoError(query) && Finished(query)
    && Chain(Packet(ID_QUERY, FLAG_NONE, 0, []), 0, query)
    && |ResponseData(query)| >= 2
  }

  /** The answer to the Init has the version and a size that will do. */
  ghost predicate InitAccepted(init: seq<Exchange>) {
    && |ResponseData(init)| >= 4
    && FromBigEndian16(ResponseData(init)[..2]) >= 1
    && FromBigEndian16(ResponseData(init)[2..4]) >= 512
  }

  /** A whole init chain from number `s`, and the data length per packet it settles. */
  ghost predicate InitDone(s: int, init: seq<Exchange>, maxDataLength: nat) {
    && init != [] && NoError(init) && Finished(init)
    && Chunked(ID_INIT, INIT_DATA, MIN_PACKET_SIZE - HEADER_SIZE, s, init) && RequestData(init) == INIT_DATA
    && InitAccepted(init)
    && maxDataLength == Min(8192, FromBigEndian16(ResponseData(init)[2..4])) - 4
  }

  /** The error that is reported is what happened last. */
  ghost predicate Explained(error: UdpError, v: View, log: seq<Io>, attempts: nat, es: seq<Exchange>) {
    match error
    case SocketFailed => log != [] && (log[|log| - 1].Refused? || log[|log| - 1].Broken?)
    case IncompleteHeader => log != [] && log[|log| - 1].Got? && |log[|log| - 1].wire| < HEADER_SIZE
    case NoResponse => log != [] && log[|log| - 1].Quiet? && v.pending.Some? && v.tries == attempts
    case TargetError(_) => es != [] && Finished(es) && es[|es| - 1].resp.id == ID_ERROR
    case _ => false
  }

  lemma ExplainedIsExcused(error: UdpError, v: View, log: seq<Io>, attempts: nat, es: seq<Exchange>)
    requires Explained(error, v, log, attempts, es)
    ensures Excused(v, log, attempts, es)
  {
  }

  lemma ExplainedLater(error: UdpError, v: View, before: seq<Io>, log: seq<Io>, attempts: nat, es: seq<Exchange>,
                       chain: seq<Exchange>)
    requires Explained(error, v, log, attempts, chain)
    ensures Explained(error, v, before + log, attempts, es + chain)
  {
  }

  /** The log ends with what the error says of the socket. */
  predicate Interrupted(error: UdpError, log: seq<Io>) {
    && log != []
    && match error
       case SocketFailed => log[|log| - 1].Refused? || log[|log| - 1].Broken?
       case IncompleteHeader => log[|log| - 1].Got? && |log[|log| - 1].wire| < HEADER_SIZE
       case _ => false
  }

  lemma NothingHeard(v: View, attempts: nat)
    ensures Follows(v, [], attempts) && Fold(v, []) == v
  {
  }

  class UdpTransport {
    const socket: Socket
    var open: bool
    var sequence: int
    var maxDataLength: nat
    var rxSize: nat

    constructor (socket: Socket)
      ensures this.socket == socket && open && sequence == -1
      ensures maxDataLength == MIN_PACKET_SIZE - HEADER_SIZE && rxSize == 0
    {
      this.socket, open, sequence := socket, true, -1;
      maxDataLength, rxSize := MIN_PACKET_SIZE - HEADER_SIZE, 0;
    }

    /** Receives until a datagram answers the one outstanding, or the wait times out. */
    method AwaitResponse(header: seq<byte>, attempts: nat, ghost v: View)
      returns (r: Outcome<Option<seq<byte>>>, ghost news: seq<Io>)
      requires |header| == HEADER_SIZE
      requires v.pending.Some? && |v.pending.value| >= HEADER_SIZE && header <= v.pending.value && v.waiting
      modifies socket
      ensures socket.log == old(socket.log) + news && Follows(v, news, attempts)
      ensures r.Ok? ==> |socket.inbox| < |old(socket.inbox)|
      ensures r.Ok? && r.value.Some? ==>
                && |r.value.value| >= HEADER_SIZE && Matches(v.pending.value, r.value.value)
                && Fold(v, news) == Observe(v, Got(r.value.value))
      ensures r == Ok(None) ==> Fold(v, news) == v.(waiting := false) && news != [] && news[|news| - 1] == Quiet
      ensures r.Err? ==> Fold(v, news) == v && Interrupted(r.error, news)
    {
      news := [];
      NothingHeard(v, attempts);
      hide Follows, Fold, Decode;
      while true
        invariant socket.log == old(socket.log) + news
        invariant Follows(v, news, attempts) && Fold(v, news) == v
        invariant |socket.inbox| <= |old(socket.inbox)|
        decreases |socket.inbox|
      {
        var a := socket.Receive(rxSize);
        match a
        case Timeout =>
          FoldSnoc(v, news, Quiet, attempts);
          news := news + [Quiet];
          return Ok(None), news;
        case Failure =>
          FoldSnoc(v, news, Broken, attempts);
          news := news + [Broken];
          return Err(SocketFailed), news;
        case Datagram(b) =>
          FoldSnoc(v, news, Got(b), attempts);
          news := news + [Got(b)];
          if |b| < HEADER_SIZE {
            return Err(IncompleteHeader), news;
          }
          if Matches(header, b) {
            return Ok(Some(b)), news;
          }
      }
    }

    /** One transmission of `header + payload` and the wait for its response. */
    method Attempt(header: seq<byte>, payload: seq<byte>, attempts: nat, ghost v: View)
      returns (r: Outcome<Option<seq<byte>>>, ghost news: seq<Io>)
      requires |header| == HEADER_SIZE && Allowed(v, Sent(header + payload), attempts)
      modifies socket
      ensures socket.log == old(socket.log) + news && Follows(v, news, attempts)
      ensures r.Ok? ==> |socket.inbox| < |old(socket.inbox)|
      ensures r == Ok(None) ==>
                && Fold(v, news) == Observe(Observe(v, Sent(header + payload)), Quiet)
                && news != [] && news[|news| - 1] == Quiet
      ensures r.Ok? && r.value.Some? ==>
                && |r.value.value| >= HEADER_SIZE && Matches(header + payload, r.value.value)
                && Fold(v, news) == Observe(Observe(v, Sent(header + payload)), Got(r.value.value))
      ensures r.Err? ==>
                && Interrupted(r.error, news)
                && Fold(v, news).sequence == v.sequence && Fold(v, news).done == v.done
    {
      news := [];
      var ok := socket.Send(header + payload);
      if !ok {
        FoldSnoc(v, [], Refused(header + payload), attempts);
        return Err(SocketFailed), [] + [Refused(header + payload)];
      }
      FoldSnoc(v, [], Sent(header + payload), attempts);
      ghost var sent := [] + [Sent(header + payload)];
      ghost var heard;
      r, heard := AwaitResponse(header, attempts, Fold(v, sent));
      FoldAppend(v, sent, heard, attempts);
      news := sent + heard;
    }

    /** One round of the helper's loop: a result, or the variables for the next round. */
    method Turn(p: Progress, room: nat, attempts: nat,
                ghost first: seq<byte>, ghost v0: View, ghost v: View, ghost chain: seq<Exchange>)
      returns (r: Option<Outcome<nat>>, q: Progress, ghost heard: seq<Io>, ghost chain': seq<Exchange>)
      requires |p.header| == HEADER_SIZE && p.attemptsLeft > 0 && sequence == v.sequence
      requires Looping(v0, v, first, chain, p.Wire(), attempts, p.attemptsLeft)
      requires Collected(chain, p.error, p.total, p.stored, room)
      modifies this`sequence, socket
      ensures socket.log == old(socket.log) + heard && Follows(v, heard, attempts)
      ensures sequence == Fold(v, heard).sequence
      ensures r == None ==>
                && |socket.inbox| < |old(socket.inbox)| && |q.header| == HEADER_SIZE
                && Looping(v0, Fold(v, heard), first, chain', q.Wire(), attempts, q.attemptsLeft)
                && Collected(chain', q.error, q.total, q.stored, room)
      ensures r == None ==> q.attemptsLeft == attempts || (heard != [] && heard[|heard| - 1] == Quiet)
      ensures r.Some? ==>
                PacketDone(Decode(first), v0, Fold(v, heard), chain', room, attempts, r.value, q.stored)
      ensures r.Some? && r.value.Err? ==> Explained(r.value.error, Fold(v, heard), heard, attempts, chain')
    {
      hide Follows, Fold, TakeIn, Chain, ErrorText, ResponseData, NoError, Matches, Decode, Fitting;
      q, chain' := p, chain;
      var response;
      response, heard := Attempt(p.header, p.payload, attempts, v);
      if response.Err? {
        r := Some(Err(response.error));
        return;
      }
      if response.value == None {
        q := p.(attemptsLeft := p.attemptsLeft - 1);
        r := None;
        return;
      }
      sequence := sequence + 1;
      var wire := response.value.value;
      TakenIn(p, wire, room, attempts, first, v0, v, chain);
      chain' := chain + [Exchange(Decode(p.Wire()), Decode(wire))];
      var (result, next) := TakeIn(p, wire, sequence, room, attempts);
      r, q := result, next;
    }

    /**
     Sends one packet and collects its response, prompting for more while responses
     announce a continuation. `stored` is what reaches the caller's buffer of `room`
     bytes; response bytes beyond it are counted, not stored.
     */
    method SendSinglePacketHelper(header: seq<byte>, payload: seq<byte>, room: nat,
                                  attempts: nat, ghost v0: View)
      returns (r: Outcome<nat>, stored: seq<byte>, ghost news: seq<Io>, ghost chain: seq<Exchange>)
      requires |header| == HEADER_SIZE
      requires Decode(header + payload).seqNum == sequence % U16
      requires v0 == AtRest(sequence, v0.done) && attempts > 0
      modifies this`sequence, socket
      ensures socket.log == old(socket.log) + news && Follows(v0, news, attempts)
      ensures sequence == Fold(v0, news).sequence
      ensures PacketDone(Decode(header + payload), v0, Fold(v0, news), chain, room, attempts, r, stored)
      ensures r.Err? ==> Explained(r.error, Fold(v0, news), news, attempts, chain)
    {
      var p := Progress(header, payload, [], 0, [], attempts);
      ghost var first := header + payload;
      news, chain := [], [];
      while p.attemptsLeft > 0
        invariant |p.header| == HEADER_SIZE && sequence == Fold(v0, news).sequence
        invariant socket.log == old(socket.log) + news && Follows(v0, news, attempts)
        invariant Looping(v0, Fold(v0, news), first, chain, p.Wire(), attempts, p.attemptsLeft)
        invariant Collected(chain, p.error, p.total, p.stored, room)
        invariant p.attemptsLeft == attempts || (news != [] && news[|news| - 1] == Quiet)
        decreases |socket.inbox|
      {
        ghost var heard;
        var result;
        result, p, heard, chain := Turn(p, room, attempts, first, v0, Fold(v0, news), chain);
        FoldAppend(v0, news, heard, attempts);
        AppendAssoc(old(socket.log), news, heard);
        if result.Some? && result.value.Err? {
          ExplainedLater(result.value.error, Fold(v0, news + heard), news, heard, attempts, [], chain);
          assert [] + chain == chain;
        }
        news := news + heard;
        if result.Some? {
          return result.value, p.stored, news, chain;
        }
      }
      return Err(NoResponse), p.stored, news, chain;
    }

    /** Sends the chunk of the message that follows its first `sent` bytes. */
    method SendChunk(id: byte, data: seq<byte>, sent: nat, total: nat, stored: seq<byte>, room: nat,
                     attempts: nat, ghost v0: View, ghost v: View, ghost es: seq<Exchange>)
      returns (r: Outcome<nat>, stored': seq<byte>, ghost heard: seq<Io>, ghost es': seq<Exchange>)
      requires attempts > 0 && sequence == v.sequence
      requires PartlySent(id, data, maxDataLength, v0, v, es, room, sent, total, stored)
      requires es != [] ==> sent < |data|
      modifies this`sequence, socket
      ensures socket.log == old(socket.log) + heard && Follows(v, heard, attempts)
      ensures sequence == Fold(v, heard).sequence
      ensures r.Ok? ==> es' != []
      ensures r.Ok? ==>
                PartlySent(id, data, maxDataLength, v0, Fold(v, heard), es', room,
                           sent + Min(maxDataLength, |data| - sent), total + r.value, stored')
      ensures r.Err? ==>
                MessageDone(id, data, maxDataLength, v0, Fold(v, heard), es', room, attempts, r, stored')
      ensures r.Err? ==> Explained(r.error, Fold(v, heard), heard, attempts, es')
    {
      hide Follows, Fold, Chain, Chunked, RequestData, ResponseData, NoError, ErrorText, PacketDone, MessageDone,
           Decode;
      var n := Min(maxDataLength, |data| - sent);
      var flags := if |data| - sent > maxDataLength then FLAG_CONTINUATION else FLAG_NONE;
      DecodeHeader(id, sequence, flags, data[sent..sent + n]);
      var more;
      ghost var chain;
      r, more, heard, chain :=
        SendSinglePacketHelper(Header(id, sequence, flags), data[sent..sent + n], room - |stored|, attempts, v);
      PacketIntoMessage(id, data, maxDataLength, v0, v, es, room, sent, total, stored,
                        Fold(v, heard), chain, attempts, r, more);
      if r.Err? {
        ExplainedLater(r.error, Fold(v, heard), [], heard, attempts, es, chain);
        assert [] + heard == heard;
      }
      stored', es' := stored + more, es + chain;
    }

    /** Cuts a message into packets and sends them; an empty message is one empty packet. */
    method SendData(id: byte, data: seq<byte>, room: nat, attempts: nat, ghost v0: View)
      returns (r: Outcome<nat>, stored: seq<byte>, ghost news: seq<Io>, ghost es: seq<Exchange>)
      requires maxDataLength > 0 && attempts > 0
      requires v0 == AtRest(sequence, v0.done)
      modifies this`sequence, socket
      ensures socket.log == old(socket.log) + news && Follows(v0, news, attempts)
      ensures sequence == Fold(v0, news).sequence
      ensures MessageDone(id, data, maxDataLength, v0, Fold(v0, news), es, room, attempts, r, stored)
      ensures !open ==> r == Err(SocketClosed) && news == []
      ensures open && r.Err? ==> Explained(r.error, Fold(v0, news), news, attempts, es)
    {
      stored, news, es := [], [], [];
      if !open {
        return Err(SocketClosed), stored, news, es;
      }
      var sent: nat, total: nat := 0, 0;
      ghost var v := v0;
      while true
        invariant sequence == v.sequence && v == Fold(v0, news)
        invariant socket.log == old(socket.log) + news && Follows(v0, news, attempts)
        invariant PartlySent(id, data, maxDataLength, v0, v, es, room, sent, total, stored)
        invariant es != [] ==> sent < |data|
        decreases |data| - sent
      {
        ghost var heard;
        r, stored, heard, es := SendChunk(id, data, sent, total, stored, room, attempts, v0, v, es);
        FoldAppend(v0, news, heard, attempts);
        AppendAssoc(old(socket.log), news, heard);
        if r.Err? {
          ExplainedLater(r.error, Fold(v, heard), news, heard, attempts, [], es);
          assert [] + es == es;
        }
        news, v := news + heard, Fold(v, heard);
        if r.Err? {
          return;
        }
        sent, total := sent + Min(maxDataLength, |data| - sent), total + r.value;
        if sent == |data| {
          r := Ok(total);
          AllSent(id, data, maxDataLength, v0, v, es, room, attempts, total, stored);
          return;
        }
      }
    }

    /**
     The Query: on success the counter is the number the device gave. It fails only if the call
     was halted or answered by an error packet, or the answer is too short.
     */
    method QueryTarget() returns (r: Outcome<()>, ghost query: seq<Exchange>, ghost news: seq<Io>)
      requires maxDataLength == MIN_PACKET_SIZE - HEADER_SIZE
      modifies this`sequence, socket
      ensures socket.log == old(socket.log) + news && Follows(AtRest(0, []), news, 4)
      ensures Fold(AtRest(0, []), news).done == query
      ensures r.Ok? ==> QueryDone(query) && sequence == FromBigEndian16(ResponseData(query)[..2])
      ensures r.Err? && open ==>
                || Excused(Fold(AtRest(0, []), news), news, 4, query)
                || (Complete([], query) && |ResponseData(query)| < 2)
    {
      sequence := 0;
      var reply, rx;
      reply, rx, news, query := SendData(ID_QUERY, [], 4, MAX_CONNECT_ATTEMPTS, AtRest(0, []));
      assert [] + query == query;
      if reply.Err? {
        if open {
          ExplainedIsExcused(reply.error, Fold(AtRest(0, []), news), news, MAX_CONNECT_ATTEMPTS, query);
        }
        return Err(reply.error), query, news;
      }
      if reply.value < 2 {
        return Err(InvalidQueryResponse), query, news;
      }
      EmptyMessageIsChain(ID_QUERY, maxDataLength, 0, query);
      sequence := FromBigEndian16(rx[..2]);
      assert rx[..2] == ResponseData(query)[..2];
      r := Ok(());
    }

    /**
     The Init: on success the packet size is the smaller of both sides' limits. It fails only if
     the call was halted or answered by an error packet, or the answer is too short, of an older
     version or names too small a size.
     */
    method NegotiateSize() returns (r: Outcome<()>, ghost init: seq<Exchange>, ghost news: seq<Io>)
      requires maxDataLength == MIN_PACKET_SIZE - HEADER_SIZE && rxSize == MIN_PACKET_SIZE
      modifies this`sequence, this`maxDataLength, this`rxSize, socket
      ensures 512 <= rxSize <= 8192 && rxSize == maxDataLength + 4
      ensures socket.log == old(socket.log) + news
      ensures Fold(AtRest(old(sequence), []), news).done == init
      ensures r.Err? && open ==>
                || Excused(Fold(AtRest(old(sequence), []), news), news, 120, init)
                || (Complete(INIT_DATA, init) && !InitAccepted(init))
      ensures r.Ok? ==>
                && InitDone(old(sequence), init, maxDataLength) && sequence == old(sequence) + |init|
                && Follows(AtRest(old(sequence), []), news, 120)
                && Fold(AtRest(old(sequence), []), news) == AtRest(sequence, init)
    {
      var reply, rx;
      ghost var v0 := AtRest(sequence, []);
      reply, rx, news, init := SendData(ID_INIT, INIT_DATA, 4, MAX_TRANSMISSION_ATTEMPTS, v0);
      assert [] + init == init;
      if reply.Err? {
        if open {
          ExplainedIsExcused(reply.error, Fold(v0, news), news, MAX_TRANSMISSION_ATTEMPTS, init);
        }
        return Err(reply.error), init, news;
      }
      if reply.value < 4 {
        return Err(InvalidInitResponse), init, news;
      }
      assert rx[..2] == ResponseData(init)[..2] && rx[2..4] == ResponseData(init)[2..4];
      var version := FromBigEndian16(rx[..2]);
      if version < PROTOCOL_VERSION {
        return Err(InvalidVersion(version)), init, news;
      }
      var packetSize := FromBigEndian16(rx[2..4]);
      if packetSize < MIN_PACKET_SIZE {
        return Err(InvalidPacketSize(packetSize)), init, news;
      }
      packetSize := Min(HOST_MAX_PACKET_SIZE, packetSize);
      maxDataLength := packetSize - HEADER_SIZE;
      rxSize := packetSize;
      r := Ok(());
    }

    /**
     Query, then Init. On success the counter runs on from the number the device gave, and
     the packet size is the smaller of both sides' limits, at least 512 and at most 8192.
     */
    method InitializeProtocol()
      returns (r: Outcome<()>, ghost query: seq<Exchange>, ghost init: seq<Exchange>, ghost asked: seq<Io>,
               ghost news: seq<Io>)
      requires maxDataLength == MIN_PACKET_SIZE - HEADER_SIZE
      modifies this`sequence, this`maxDataLength, this`rxSize, socket
      ensures 512 <= rxSize <= 8192 && rxSize == maxDataLength + 4
      ensures socket.log == old(socket.log) + asked + news
      ensures Follows(AtRest(0, []), asked, 4) && Fold(AtRest(0, []), asked).done == query
      ensures r.Err? && open ==>
                || Excused(Fold(AtRest(0, []), asked), asked, 4, query)
                || (Complete([], query) && |ResponseData(query)| < 2)
                || (&& QueryDone(query)
                    && var s := FromBigEndian16(ResponseData(query)[..2]);
                    && Fold(AtRest(s, []), news).done == init
                    && (|| Excused(Fold(AtRest(s, []), news), news, 120, init)
                        || (Complete(INIT_DATA, init) && !InitAccepted(init))))
      ensures r.Ok? ==>
                && QueryDone(query)
                && var s := FromBigEndian16(ResponseData(query)[..2]);
                && InitDone(s, init, maxDataLength) && sequence == s + |init|
                && Follows(AtRest(s, []), news, 120)
                && Fold(AtRest(s, []), news) == AtRest(sequence, init)
    {
      rxSize := MIN_PACKET_SIZE;
      init, news := [], [];
      r, query, asked := QueryTarget();
      if r.Ok? {
        r, init, news := NegotiateSize();
      }
    }

    /**
     Reads one response from the target. A count is returned exactly when the chain ended
     without an error packet and fits; then the buffer starts with the whole chain's data. An
     open transport gives up only when the call is halted, the last response is an error packet
     or the data do not fit.
     */
    method Read(buf: array<byte>, length: nat)
      returns (n: int, ghost news: seq<Io>, ghost es: seq<Exchange>)
      requires maxDataLength > 0 && length <= buf.Length
      modifies this`sequence, socket, buf
      ensures socket.log == old(socket.log) + news
      ensures Follows(AtRest(old(sequence), []), news, 120)
      ensures n == -1 || 0 <= n <= length
      ensures Chain(Packet(ID_FASTBOOT, FLAG_NONE, old(sequence) % U16, []), old(sequence), es)
      ensures Fold(AtRest(old(sequence), []), news).done == es
      ensures buf[length..] == old(buf[length..])
      ensures n >= 0 ==>
                && Fold(AtRest(old(sequence), []), news) == AtRest(sequence, es)
                && es != [] && Finished(es) && NoError(es)
                && buf[..n] == ResponseData(es)
                && buf[n..] == old(buf[n..])
      ensures n >= 0 <==> Complete([], es) && |ResponseData(es)| <= length
      ensures n == -1 && open ==>
                || Excused(Fold(AtRest(old(sequence), []), news), news, 120, es)
                || (Complete([], es) && |ResponseData(es)| > length)
    {
      assert Chain(Packet(ID_FASTBOOT, FLAG_NONE, sequence % U16, []), sequence, []);
      hide Chain, Chunked, Follows, Fold, RequestData, ResponseData, ErrorText;
      ghost var v0 := AtRest(sequence, []);
      var r, stored;
      r, stored, news, es := SendData(ID_FASTBOOT, [], length, MAX_TRANSMISSION_ATTEMPTS, v0);
      if es != [] {
        EmptyMessageIsChain(ID_FASTBOOT, maxDataLength, v0.sequence, es);
      }
      Store(buf, stored, length);
      if r.Err? && open {
        ExplainedIsExcused(r.error, Fold(v0, news), news, MAX_TRANSMISSION_ATTEMPTS, es);
      }
      if r.Err? || r.value > length {
        return -1, news, es;
      }
      n := r.value;
    }

    /**
     Writes a message. The full length is returned exactly when every chunk was answered
     without an error and no answer carried data; then the requests carry the message. An open
     transport gives up only when the call is halted, the last response is an error packet or
     an answer carried data.
     */
    method Write(data: seq<byte>)
      returns (n: int, ghost news: seq<Io>, ghost es: seq<Exchange>)
      requires maxDataLength > 0
      modifies this`sequence, socket
      ensures socket.log == old(socket.log) + news
      ensures Follows(AtRest(old(sequence), []), news, 120)
      ensures n == -1 || n == |data|
      ensures Chunked(ID_FASTBOOT, data, maxDataLength, old(sequence), es)
      ensures Fold(AtRest(old(sequence), []), news).done == es
      ensures n >= 0 ==>
                && Fold(AtRest(old(sequence), []), news) == AtRest(sequence, es)
                && es != [] && Finished(es) && NoError(es)
                && RequestData(es) == data
                && ResponseData(es) == []
      ensures n >= 0 <==> Complete(data, es) && ResponseData(es) == []
      ensures n == -1 && open ==>
                || Excused(Fold(AtRest(old(sequence), []), news), news, 120, es)
                || (Complete(data, es) && ResponseData(es) != [])
    {
      var r, stored;
      ghost var v0 := AtRest(sequence, []);
      r, stored, news, es := SendData(ID_FASTBOOT, data, 0, MAX_TRANSMISSION_ATTEMPTS, v0);
      if r.Err? && open {
        ExplainedIsExcused(r.error, Fold(v0, news), news, MAX_TRANSMISSION_ATTEMPTS, es);
      }
      if r.Err? || r.value > 0 {
        return -1, news, es;
      }
      n := |data|;
    }

    method Close()
      modifies this`open
      ensures !open
    {
      open := false;
    }
  }
}
