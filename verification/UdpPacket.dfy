/**
 Packet format of the fastboot UDP protocol: a 4-byte header (id, flags, 16-bit
 big-endian sequence number) followed by data, and the rule by which the host
 pairs a response with the packet it has outstanding.
 */
module UdpPacket {
  import opened Bytes

  const HEADER_SIZE := 4
  const MIN_PACKET_SIZE := 512
  const HOST_MAX_PACKET_SIZE := 8192
  const PROTOCOL_VERSION := 1
  const MAX_CONNECT_ATTEMPTS := 4
  const MAX_TRANSMISSION_ATTEMPTS := 120

  const ID_ERROR: byte := 0
  const ID_QUERY: byte := 1
  const ID_INIT: byte := 2
  const ID_FASTBOOT: byte := 3

  const FLAG_NONE: byte := 0
  const FLAG_CONTINUATION: byte := 1

  datatype Packet = Packet(id: byte, flags: byte, seqNum: int, data: seq<byte>) {
    predicate Valid() {
      0 <= seqNum < U16
    }

    /** The continuation bit is the lowest bit of the flags byte. */
    predicate Continues() {
      flags % 2 == 1
    }
  }

  /** A packet the host sent together with the response it accepted for it. */
  datatype Exchange = Exchange(req: Packet, resp: Packet)

  /** The header bytes the host builds; only the low 16 bits of the counter reach the wire. */
  function Header(id: byte, sequence: int, flags: byte): (h: seq<byte>)
    ensures |h| == HEADER_SIZE
  {
    [id, flags] + BigEndian16(sequence)
  }

  function Encode(p: Packet): (w: seq<byte>) {
    Header(p.id, p.seqNum, p.flags) + p.data
  }

  function Decode(w: seq<byte>): (p: Packet)
    requires |w| >= HEADER_SIZE
    ensures p.Valid()
  {
    Packet(w[0], w[1], FromBigEndian16(w[2..4]), w[4..])
  }

  lemma DecodeEncode(p: Packet)
    requires p.Valid()
    ensures Decode(Encode(p)) == p
  {
    var w := Encode(p);
    assert w[2..4] == BigEndian16(p.seqNum);
    BigEndian16RoundTrip(p.seqNum, [0, 0]);
    assert w[4..] == p.data;
  }

  lemma EncodeDecode(w: seq<byte>)
    requires |w| >= HEADER_SIZE
    ensures Encode(Decode(w)) == w
  {
    BigEndian16RoundTrip(0, w[2..4]);
    assert w == [w[0], w[1]] + w[2..4] + w[4..];
  }

  /** Byte-level test: same sequence bytes, and the same id or an error response. */
  predicate Matches(header: seq<byte>, response: seq<byte>)
    requires |header| >= HEADER_SIZE && |response| >= HEADER_SIZE
  {
    && header[2] == response[2]
    && header[3] == response[3]
    && (header[0] == response[0] || response[0] == ID_ERROR)
  }

  /** The same rule on decoded packets. */
  predicate Answers(req: Packet, resp: Packet) {
    req.seqNum == resp.seqNum && (resp.id == req.id || resp.id == ID_ERROR)
  }

  lemma MatchesIsAnswers(header: seq<byte>, response: seq<byte>)
    requires |header| >= HEADER_SIZE && |response| >= HEADER_SIZE
    ensures Matches(header, response) <==> Answers(Decode(header), Decode(response))
  {
    BigEndian16RoundTrip(0, header[2..4]);
    BigEndian16RoundTrip(0, response[2..4]);
    assert header[2..4] == [header[2], header[3]];
    assert response[2..4] == [response[2], response[3]];
  }

  /** Data carried by the requests, respectively the responses, of a run of exchanges. */
  function RequestData(es: seq<Exchange>): (r: seq<byte>) {
    if es == [] then [] else RequestData(es[..|es| - 1]) + es[|es| - 1].req.data
  }

  function ResponseData(es: seq<Exchange>): (r: seq<byte>) {
    if es == [] then [] else ResponseData(es[..|es| - 1]) + es[|es| - 1].resp.data
  }

  lemma {:induction false} ResponseDataAppend(a: seq<Exchange>, b: seq<Exchange>)
    ensures ResponseData(a + b) == ResponseData(a) + ResponseData(b)
  {
    if b == [] {
      assert a + b == a;
    } else {
      var n := |b| - 1;
      ResponseDataAppend(a, b[..n]);
      assert (a + b)[..|a + b| - 1] == a + b[..n] && (a + b)[|a| + n] == b[n];
      AppendAssoc(ResponseData(a), ResponseData(b[..n]), b[n].resp.data);
    }
  }

  lemma {:induction false} RequestDataAppend(a: seq<Exchange>, b: seq<Exchange>)
    ensures RequestData(a + b) == RequestData(a) + RequestData(b)
  {
    if b == [] {
      assert a + b == a;
    } else {
      var n := |b| - 1;
      RequestDataAppend(a, b[..n]);
      assert (a + b)[..|a + b| - 1] == a + b[..n] && (a + b)[|a| + n] == b[n];
      AppendAssoc(RequestData(a), RequestData(b[..n]), b[n].req.data);
    }
  }
}
