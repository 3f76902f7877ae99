/**
 The TCP transport: messages over a socket that may take or deliver any part of what it is
 asked to.
 */
module TcpTransport {
  import opened Bytes
  import opened TcpFraming

  // ----- The eight-byte length

  lemma PowerSplit(v: nat, k: nat)
    requires k < 8
    ensures v / Power256(k) / 256 == v / Power256(k + 1) && Power256(k + 1) == Power256(k) * 256
  {
    assert Power256(4) == 0x1_0000_0000;
    EightBytes();
    if k == 0 {
    } else if k == 1 {
    } else if k == 2 {
    } else if k == 3 {
    } else if k == 4 {
    } else if k == 5 {
    } else if k == 6 {
    } else {
    }
  }

  method EncodeMessageLength(length: nat) returns (buffer: seq<byte>)
    requires length < U64
    ensures buffer == BigEndian(length, 8)
  {
    hide Power256;
    buffer := [];
    EightBytes();
    var i := 0;
    while i < 8
      invariant 0 <= i <= 8
      invariant buffer == BigEndian(length / Power256(8 - i), i)
    {
      PowerSplit(length, 7 - i);
      buffer := buffer + [length / Power256(7 - i) % 256];
      i := i + 1;
    }
    PowerZero(length);
  }

  method ExtractMessageLength(buffer: seq<byte>) returns (length: nat)
    requires |buffer| == 8
    ensures length == FromBigEndian(buffer) && length < U64
  {
    length := 0;
    var i := 0;
    assert buffer[..0] == [] && FromBigEndian([]) == 0;
    hide FromBigEndian, Power256;
    while i < 8
      invariant 0 <= i <= 8
      invariant length == FromBigEndian(buffer[..i]) * Power256(8 - i)
    {
      OneByteMore(buffer, i);
      length := length + buffer[i] as int * Power256(7 - i);
      i := i + 1;
    }
    assert buffer[..8] == buffer;
    PowerZero(length);
    BigEndianWrites(buffer);
    EightBytes();
  }

  lemma PowerZero(v: nat)
    ensures Power256(0) == 1 && v / Power256(0) == v
  {
  }

  lemma OneByteMore(buffer: seq<byte>, i: nat)
    requires |buffer| == 8 && i < 8
    ensures FromBigEndian(buffer[..i + 1]) * Power256(7 - i)
            == FromBigEndian(buffer[..i]) * Power256(8 - i) + buffer[i] as int * Power256(7 - i)
  {
    assert buffer[..i + 1][..i] == buffer[..i];
    PowerSplit(0, 7 - i);
    hide Power256;
    ShiftIn(FromBigEndian(buffer[..i]), buffer[i] as int, Power256(7 - i), Power256(8 - i));
  }

  lemma ShiftIn(a: nat, b: nat, p: nat, q: nat)
    requires q == p * 256
    ensures a * q + b * p == (a * 256 + b) * p
  {
    assert a * (p * 256) == (a * 256) * p;
  }

  // ----- Skipping what was sent

  /** The buffers after `n` bytes of them were sent. */
  function Skip(buffers: seq<seq<byte>>, n: nat): (r: seq<seq<byte>>) {
    if n == 0 || buffers == [] then buffers
    else if |buffers[0]| > n then [buffers[0][n..]] + buffers[1..]
    else Skip(buffers[1..], n - |buffers[0]|)
  }

  lemma {:induction false} SkipRest(buffers: seq<seq<byte>>, n: nat)
    requires n <= |Flatten(buffers)|
    ensures Flatten(Skip(buffers, n)) == Flatten(buffers)[n..]
  {
    if n > 0 && buffers != [] {
      var b, rest := buffers[0], buffers[1..];
      if |b| > n {
        var r := [b[n..]] + rest;
        assert r[1..] == rest;
      } else {
        SkipRest(rest, n - |b|);
      }
    }
  }

  predicate EndsEmpty(buffers: seq<seq<byte>>) {
    buffers != [] && buffers[|buffers| - 1] == []
  }

  /** A trailing empty buffer is never skipped, and no other buffer becomes one. */
  lemma {:induction false} SkipKeepsEnd(buffers: seq<seq<byte>>, n: nat)
    requires n <= |Flatten(buffers)|
    ensures EndsEmpty(Skip(buffers, n)) <==> EndsEmpty(buffers)
  {
    if n > 0 && |buffers[0]| <= n {
      SkipKeepsEnd(buffers[1..], n - |buffers[0]|);
      if buffers[1..] == [] {
        assert Flatten(buffers) == buffers[0];
      }
    }
  }

  lemma {:induction false} SomethingLeft(buffers: seq<seq<byte>>)
    requires buffers != [] && !EndsEmpty(buffers)
    ensures Flatten(buffers) != []
  {
    if |buffers| > 1 {
      SomethingLeft(buffers[1..]);
    }
  }

  /**
   Once all bytes are sent no buffer is left exactly when the last one is not empty. With a
   trailing empty buffer the send loop does not end before the connection fails.
   */
  lemma {:induction false} AllSkipped(buffers: seq<seq<byte>>)
    requires buffers != []
    ensures Skip(buffers, |Flatten(buffers)|) == [] <==> buffers[|buffers| - 1] != []
  {
    var b, rest := buffers[0], buffers[1..];
    if rest == [] {
      assert Flatten(buffers) == b + [] && Skip([], 0) == [];
    } else {
      AllSkipped(rest);
    }
  }

  // ----- The socket

  class TcpSocket {
    /** What the peer sends from now on. */
    var incoming: seq<byte>
    /** How much each receive delivers and each send takes; 0 is an error. */
    var receives: seq<nat>
    var sends: seq<nat>
    /** What the peer has been sent. */
    var outgoing: seq<byte>

    constructor (incoming: seq<byte>, receives: seq<nat>, sends: seq<nat>)
      ensures this.incoming == incoming && outgoing == [] && this.receives == receives && this.sends == sends
    {
      this.incoming, this.receives, this.sends, outgoing := incoming, receives, sends, [];
    }

    /** A connection on which receives do not fail while there is something to receive. */
    ghost predicate Live()
      reads this
    {
      forall i :: 0 <= i < |receives| ==> receives[i] > 0
    }

    /** A connection on which sends of some bytes do not fail. */
    ghost predicate Taking()
      reads this
    {
      forall i :: 0 <= i < |sends| ==> sends[i] > 0
    }

    method Receive(length: nat) returns (n: int, data: seq<byte>)
      requires length > 0
      modifies this`incoming, this`receives
      ensures n <= 0 ==> data == [] && incoming == old(incoming)
      ensures n > 0 ==> n == |data| <= length && old(incoming) == data + incoming
      ensures old(Live()) ==> Live() && (n > 0 <==> old(incoming) != [])
    {
      if incoming == [] {
        return 0, [];
      }
      var k := length;
      if receives != [] {
        k, receives := receives[0], receives[1..];
        if k == 0 {
          return -1, [];
        }
      }
      k := if k > length then length else k;
      k := if k > |incoming| then |incoming| else k;
      n, data := k, incoming[..k];
      incoming := incoming[k..];
    }

    /**
     A send of some bytes takes at least one of them, or fails. A send of none takes none; the
     script bounds how often this can go on before the connection fails.
     */
    method SendBuffers(buffers: seq<seq<byte>>) returns (sent: int)
      modifies this`outgoing, this`sends
      ensures -1 <= sent <= |Flatten(buffers)|
      ensures |sends| <= |old(sends)|
      ensures sent == 0 ==> Flatten(buffers) == [] && |sends| < |old(sends)|
      ensures outgoing == old(outgoing) + if sent == -1 then [] else Flatten(buffers)[..sent]
      ensures old(Taking()) ==> Taking() && (Flatten(buffers) != [] ==> sent > 0)
    {
      var total := |Flatten(buffers)|;
      var k := total;
      if sends != [] {
        k, sends := sends[0], sends[1..];
        if k == 0 {
          return -1;
        }
      } else if total == 0 {
        return -1;
      }
      sent := if k > total then total else k;
      outgoing := outgoing + Flatten(buffers)[..sent];
    }

    /**
     Sends all buffers. With an empty buffer at the end the send is never reported as done,
     even when all bytes were taken.
     */
    method Send(buffers0: seq<seq<byte>>) returns (ok: bool)
      modifies this`outgoing, this`sends
      ensures ok ==> outgoing == old(outgoing) + Flatten(buffers0)
      ensures ok ==> !EndsEmpty(buffers0)
      ensures old(Taking()) ==> Taking() && (ok <==> !EndsEmpty(buffers0))
      ensures old(outgoing) <= outgoing <= old(outgoing) + Flatten(buffers0)
    {
      var buffers := buffers0;
      ghost var gone: seq<byte> := [];
      hide Flatten, Skip;
      while buffers != []
        invariant (EndsEmpty(buffers) <==> EndsEmpty(buffers0)) && (old(Taking()) ==> Taking())
        invariant outgoing == old(outgoing) + gone && gone + Flatten(buffers) == Flatten(buffers0)
        decreases |Flatten(buffers)|, |sends|
      {
        if !EndsEmpty(buffers) {
          SomethingLeft(buffers);
        }
        var sent := SendBuffers(buffers);
        if sent == -1 {
          return false;
        }
        SkipRest(buffers, sent);
        SkipKeepsEnd(buffers, sent);
        SendMore(old(outgoing), gone, Flatten(buffers), sent);
        gone := gone + Flatten(buffers)[..sent];
        buffers := SkipSent(buffers, sent);
      }
      NoBuffers();
      return true;
    }

    /** Waits until the length or the end of the stream is reached. */
    method ReceiveAll(length: nat) returns (n: int, data: seq<byte>)
      modifies this`incoming, this`receives
      ensures n == -1 ==> data == [] && incoming == old(incoming) && length > 0
      ensures n != -1 ==> n == |data| <= length && old(incoming) == data + incoming && (length > 0 ==> n > 0)
      ensures old(Live()) ==>
                && Live()
                && if length <= |old(incoming)| then n == length
                   else n == if old(incoming) == [] then -1 else |old(incoming)|
    {
      data := [];
      while |data| < length
        invariant |data| <= length && old(incoming) == data + incoming
        invariant old(Live()) ==> Live()
        decreases length - |data|
      {
        ghost var before := incoming;
        var k, more := Receive(length - |data|);
        if k <= 0 {
          if |data| == 0 {
            return -1, data;
          }
          break;
        }
        AppendAssoc(data, more, incoming);
        data := data + more;
      }
      n := |data|;
    }
  }

  lemma NoBuffers()
    ensures Flatten([]) == []
  {
  }

  lemma SendMore(out: seq<byte>, gone: seq<byte>, all: seq<byte>, sent: nat)
    requires sent <= |all|
    ensures out + gone + all[..sent] == out + (gone + all[..sent])
    ensures gone + all[..sent] + all[sent..] == gone + all
  {
    assert all == all[..sent] + all[sent..];
  }

  /** The loop that drops complete buffers and shortens the first incomplete one. */
  method SkipSent(buffers: seq<seq<byte>>, sent0: nat) returns (r: seq<seq<byte>>)
    requires sent0 <= |Flatten(buffers)|
    ensures r == Skip(buffers, sent0)
  {
    var sent: nat := sent0;
    var iter := 0;
    assert buffers[0..] == buffers;
    while sent > 0
      invariant 0 <= iter <= |buffers| && sent <= |Flatten(buffers[iter..])|
      invariant Skip(buffers[iter..], sent) == Skip(buffers, sent0)
      decreases |buffers| - iter
    {
      var here := buffers[iter..];
      assert here[0] == buffers[iter] && here[1..] == buffers[iter + 1..];
      if |buffers[iter]| > sent {
        return [buffers[iter][sent..]] + buffers[iter + 1..];
      }
      sent := sent - |buffers[iter]|;
      iter := iter + 1;
    }
    return buffers[iter..];
  }

  // ----- The transport

  class TcpTransport {
    var socket: TcpSocket?
    var messageBytesLeft: nat

    constructor (socket: TcpSocket)
      ensures this.socket == socket && messageBytesLeft == 0
    {
      this.socket, messageBytesLeft := socket, 0;
    }

    method Close()
      modifies this`socket
      ensures socket == null
    {
      socket := null;
    }

    /** Sends one message. An empty message never succeeds, though its frame may be sent. */
    method Write(data: seq<byte>) returns (n: int)
      requires |data| < U64
      modifies this`socket, if socket != null then {socket} else {}
      ensures old(socket) == null ==> n == -1 && socket == null
      ensures old(socket) != null && old(socket.Taking()) ==> old(socket).Taking() && (n != -1 <==> data != [])
      ensures n != -1 ==> n == |data| > 0 && old(socket) != null && socket == old(socket)
                          && socket.outgoing == old(socket.outgoing) + Frame(data)
                          && socket.incoming == old(socket.incoming)
      ensures n == -1 && old(socket) != null ==>
                socket == null && old(socket).outgoing <= old(socket.outgoing) + Frame(data)
    {
      if socket == null {
        return -1;
      }
      var header := EncodeMessageLength(|data|);
      TwoBuffers(header, data);
      var ok := socket.Send([header, data]);
      if !ok {
        Close();
        return -1;
      }
      return |data|;
    }

    /**
     Reads from the current message, or from the next one. On a live connection a reader at
     position `p` of a stream of whole messages gets the next bytes of the message, as many
     as it asked for or the message has left, and is then where the stream says; it fails
     exactly at the end of the stream.
     */
    method Read(length: nat, ghost p: Position) returns (n: int, data: seq<byte>)
      modifies this, if socket != null then {socket} else {}
      ensures old(socket) == null ==> n == -1
      ensures n != -1 ==> n == |data| <= length && socket == old(socket)
      ensures n == -1 ==> data == [] && socket == null
      ensures old(socket) != null && old(socket.Live()) && Sizes(p.later)
              && old(socket.incoming) == Stream(p) && old(messageBytesLeft) == |p.current| ==>
                && old(socket).Live()
                && (n == -1 <==> AtEnd(p))
                && (n == -1 ==> messageBytesLeft == |p.current|)
                && (n != -1 ==>
                      && data == ReadData(p, length)
                      && old(socket).incoming == Stream(ReadRest(p, length))
                      && messageBytesLeft == |ReadRest(p, length).current|)
    {
      hide Stream, ReadData, ReadRest, AtEnd, FromBigEndian, Sizes, Entered;
      if socket == null {
        return -1, [];
      }
      ghost var good := && socket.Live() && Sizes(p.later) && socket.incoming == Stream(p)
                        && messageBytesLeft == |p.current|;
      StreamStart(p);
      if messageBytesLeft == 0 {
        ghost var before := socket.incoming;
        var got, buffer := socket.ReceiveAll(8);
        if got != 8 {
          Close();
          return -1, [];
        }
        if good {
          NextMessage(p, before, buffer, socket.incoming);
        }
        messageBytesLeft := ExtractMessageLength(buffer);
      }
      if good {
        InMessage(p, length);
      }
      ghost var before := socket.incoming;
      var take := if length > messageBytesLeft then messageBytesLeft else length;
      n, data := socket.ReceiveAll(take);
      if n == -1 {
        Close();
      } else {
        messageBytesLeft := messageBytesLeft - n;
        if good {
          Split(before, data, socket.incoming);
        }
      }
    }
  }

  // ----- Both ends

  lemma {:induction false} FramesSnoc(ms: seq<seq<byte>>, m: seq<byte>)
    ensures Frames(ms + [m]) == Frames(ms) + Frame(m)
  {
    hide Frame;
    if ms == [] {
      assert [m][1..] == [] && ms + [m] == [m];
      assert Frames([m]) == Frame(m) + Frames([]) == Frame(m);
    } else {
      FramesSnoc(ms[1..], m);
      assert (ms + [m])[1..] == ms[1..] + [m];
      AppendAssoc(Frame(ms[0]), Frames(ms[1..]), Frame(m));
    }
  }

  /** Writing messages one after the other puts their frames on the connection, over any partial sends. */
  method WriteMessages(t: TcpTransport, ms: seq<seq<byte>>) returns (ok: bool)
    requires t.socket != null && Sizes(ms)
    modifies t`socket, t.socket
    ensures ok ==> forall i :: 0 <= i < |ms| ==> ms[i] != []
    ensures old(t.socket.Taking()) && (forall i :: 0 <= i < |ms| ==> ms[i] != []) ==> ok
    ensures ok ==> t.socket == old(t.socket) && t.socket.outgoing == old(t.socket.outgoing) + Frames(ms)
  {
    hide Frame, Frames;
    var i := 0;
    ghost var socket := t.socket;
    FramesStart(socket.outgoing, ms);
    while i < |ms|
      invariant 0 <= i <= |ms| && t.socket == socket && (forall k :: 0 <= k < i ==> ms[k] != [])
      invariant old(t.socket.Taking()) ==> socket.Taking()
      invariant socket.outgoing == old(t.socket.outgoing) + Frames(ms[..i])
    {
      var n := t.Write(ms[i]);
      if n == -1 {
        return false;
      }
      FramesSnoc(ms[..i], ms[i]);
      AppendAssoc(old(t.socket.outgoing), Frames(ms[..i]), Frame(ms[i]));
      assert ms[..i + 1] == ms[..i] + [ms[i]];
      i := i + 1;
    }
    assert ms[..i] == ms;
    ok := true;
  }

  lemma FramesStart(out: seq<byte>, ms: seq<seq<byte>>)
    ensures out + Frames(ms[..0]) == out
  {
  }

  /** Where reads with these lengths end in a stream of messages. */
  function ReachedBy(ms: seq<seq<byte>>, lengths: seq<nat>): (p: Position) {
    Reads(Position([], ms), lengths).1
  }

  /**
   Reading with the given lengths from a connection that carries the frames of `ms`, over any
   partial receives: the results are the messages' bytes in order, and the reader knows how
   much of the current message is left. Reading ends early only at the end of the stream.
   */
  method ReadMessages(t: TcpTransport, lengths: seq<nat>, ghost ms: seq<seq<byte>>) returns (results: seq<seq<byte>>)
    requires t.socket != null && t.socket.Live() && t.messageBytesLeft == 0
    requires t.socket.incoming == Frames(ms) && Sizes(ms)
    modifies t, t.socket
    ensures |results| <= |lengths| && results == Reads(Position([], ms), lengths[..|results|]).0
    ensures InOrder(ms, lengths[..|results|], results, ReachedBy(ms, lengths[..|results|]))
    ensures t.messageBytesLeft == |ReachedBy(ms, lengths[..|results|]).current|
    ensures |results| == |lengths| ==>
              t.socket == old(t.socket) && t.socket.incoming == Stream(ReachedBy(ms, lengths))
    ensures |results| < |lengths| ==>
              AtEnd(ReachedBy(ms, lengths[..|results|])) && Flatten(results) == Flatten(ms)
  {
    hide Stream, Frames, InOrder, ReadData, ReadRest, AtEnd;
    results := [];
    ghost var p := Position([], ms);
    ghost var socket := t.socket;
    NothingRead(ms, lengths);
    var i := 0;
    while i < |lengths|
      invariant 0 <= i == |results| <= |lengths| && t.socket == socket && socket.Live()
      invariant (results, p) == Reads(Position([], ms), lengths[..i])
      invariant socket.incoming == Stream(p) && t.messageBytesLeft == |p.current| && Sizes(p.later)
    {
      var n, data := t.Read(lengths[i], p);
      if n == -1 {
        FramingRoundTrip(ms, lengths[..i]);
        EndReached(ms, lengths[..i], results, p);
        return;
      }
      OneMoreRead(ms, lengths, i);
      LaterSizes(p, lengths[i]);
      results, p := results + [data], ReadRest(p, lengths[i]);
      i := i + 1;
    }
    assert lengths[..i] == lengths;
    FramingRoundTrip(ms, lengths);
  }

  lemma NothingRead(ms: seq<seq<byte>>, lengths: seq<nat>)
    ensures Reads(Position([], ms), lengths[..0]) == ([], Position([], ms))
    ensures Stream(Position([], ms)) == Frames(ms)
  {
  }

  lemma OneMoreRead(ms: seq<seq<byte>>, lengths: seq<nat>, i: nat)
    requires i < |lengths|
    ensures var (results, p) := Reads(Position([], ms), lengths[..i]);
            Reads(Position([], ms), lengths[..i + 1]) == (results + [ReadData(p, lengths[i])], ReadRest(p, lengths[i]))
  {
    assert lengths[..i + 1][..i] == lengths[..i];
  }

  lemma LaterSizes(p: Position, length: nat)
    requires Sizes(p.later)
    ensures Sizes(ReadRest(p, length).later)
  {
  }

  lemma EndReached(ms: seq<seq<byte>>, lengths: seq<nat>, results: seq<seq<byte>>, p: Position)
    requires InOrder(ms, lengths, results, p) && AtEnd(p)
    ensures Flatten(results) == Flatten(ms) && p.current == []
  {
    assert Unread(p) == [] + [] == [];
    assert Flatten(results) + [] == Flatten(results);
  }

  /**
   The round trip over the connection: whatever the sends take and the receives deliver, what
   one end writes in messages the other end reads in order, each read within one message.
   */
  method RoundTrip(ms: seq<seq<byte>>, lengths: seq<nat>, sends: seq<nat>, receives: seq<nat>)
    returns (sent: bool, results: seq<seq<byte>>)
    requires Sizes(ms) && forall i :: 0 <= i < |receives| ==> receives[i] > 0
    ensures (forall i :: 0 <= i < |sends| ==> sends[i] > 0) ==> (sent <==> forall i :: 0 <= i < |ms| ==> ms[i] != [])
    ensures sent ==>
              && |results| <= |lengths|
              && InOrder(ms, lengths[..|results|], results, ReachedBy(ms, lengths[..|results|]))
              && (|results| < |lengths| ==> Flatten(results) == Flatten(ms))
              && (|lengths| == |ms| && (forall i :: 0 <= i < |ms| ==> |ms[i]| <= lengths[i]) ==> results == ms)
  {
    hide InOrder, Frames, Stream, AtEnd;
    results := [];
    var near := new TcpSocket([], [], sends);
    var writer := new TcpTransport(near);
    sent := WriteMessages(writer, ms);
    if sent {
      var far := new TcpSocket(near.outgoing, receives, []);
      var reader := new TcpTransport(far);
      assert [] + Frames(ms) == Frames(ms);
      results := ReadMessages(reader, lengths, ms);
      if |lengths| == |ms| && forall i :: 0 <= i < |ms| ==> |ms[i]| <= lengths[i] {
        AllMessages(ms, lengths, results);
      }
    }
  }

  /** No read ends early before all non-empty messages are read. */
  lemma AllMessages(ms: seq<seq<byte>>, lengths: seq<nat>, results: seq<seq<byte>>)
    requires |lengths| == |ms| && forall i :: 0 <= i < |ms| ==> ms[i] != [] && |ms[i]| <= lengths[i]
    requires |results| <= |lengths| && results == Reads(Position([], ms), lengths[..|results|]).0
    requires |results| < |lengths| ==> AtEnd(ReachedBy(ms, lengths[..|results|]))
    ensures results == ms
  {
    hide Reads;
    var n := |results|;
    WholeMessages(ms, lengths[..n]);
    assert n == |ms| ==> ms[..n] == ms;
  }

  lemma TwoBuffers(header: seq<byte>, data: seq<byte>)
    ensures Flatten([header, data]) == header + data
  {
    assert [header, data][1..] == [data] && [data][1..] == [];
    assert Flatten([data]) == data + [];
  }

  lemma Split(s: seq<byte>, a: seq<byte>, b: seq<byte>)
    requires s == a + b
    ensures a == s[..|a|] && b == s[|a|..]
  {
  }

  lemma StreamStart(p: Position)
    ensures p.current == [] ==> (AtEnd(p) <==> Stream(p) == []) && (!AtEnd(p) ==> |Stream(p)| >= 8)
    ensures p.current != [] ==> !AtEnd(p) && Entered(p) == p
  {
    if p.current == [] && p.later != [] {
      assert Stream(p) == Frame(p.later[0]) + Frames(p.later[1..]);
    }
  }

  lemma NextMessage(p: Position, before: seq<byte>, header: seq<byte>, after: seq<byte>)
    requires p.current == [] && !AtEnd(p) && Sizes(p.later) && before == Stream(p) && before == header + after
    requires |header| == 8
    ensures FromBigEndian(header) == |Entered(p).current| && after == Stream(Entered(p))
  {
    HeaderReads(p.later[0], Frames(p.later[1..]));
    Split(before, header, after);
    assert before == Frame(p.later[0]) + Frames(p.later[1..]);
  }

  lemma InMessage(p: Position, length: nat)
    ensures var q := Entered(p);
            var k := Min(length, |q.current|);
            && k <= |Stream(q)|
            && ReadData(p, length) == Stream(q)[..k]
            && Stream(ReadRest(p, length)) == Stream(q)[k..]
            && |ReadRest(p, length).current| == |q.current| - k
  {
    hide Frames, Entered;
  }
}
