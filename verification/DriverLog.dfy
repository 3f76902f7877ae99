/**
 What passes between the fastboot driver and its transport, and how the device's responses
 are grouped: INFO and TEXT packets, ended by a packet that decides the outcome.
 */
module DriverLog {
  import opened Bytes
  import opened HexText

  const COMMAND_SIZE := 4096
  const RESPONSE_SIZE := 256
  const MAX_DOWNLOAD_SIZE := 0xFFFF_FFFF

  const INFO: seq<byte> := [0x49, 0x4E, 0x46, 0x4F]
  const TEXT: seq<byte> := [0x54, 0x45, 0x58, 0x54]
  const OKAY: seq<byte> := [0x4F, 0x4B, 0x41, 0x59]
  const FAIL: seq<byte> := [0x46, 0x41, 0x49, 0x4C]
  const DATA: seq<byte> := [0x44, 0x41, 0x54, 0x41]

  datatype RetCode = Success | BadArg | IoError | BadDevResp | DeviceFail | Timeout

  /** One call of the transport: a write with the count it returned, or a read. */
  datatype Io = Wrote(data: seq<byte>, count: int) | Got(length: nat, packet: Option<seq<byte>>)

  datatype Status = Info(text: seq<byte>) | Text(text: seq<byte>) | Okay(text: seq<byte>)
                  | Fail(text: seq<byte>) | Data(text: seq<byte>) | Unknown

  // ----- Responses

  /** A packet as a C string: it ends at the first NUL. */
  function Terminated(packet: seq<byte>): (s: seq<byte>)
    ensures s <= packet && 0 !in s && (s == packet || packet[|s|] == 0)
  {
    if packet == [] || packet[0] == 0 then [] else [packet[0]] + Terminated(packet[1..])
  }

  function StatusOf(packet: seq<byte>): (s: Status) {
    var text := Terminated(packet);
    if INFO <= text then Info(text[4..])
    else if OKAY <= text then Okay(text[4..])
    else if FAIL <= text then Fail(text[4..])
    else if TEXT <= text then Text(text[4..])
    else if DATA <= text then Data(text[4..])
    else Unknown
  }

  /** The size in a DATA response, cut to 32 bits and read as a signed number. */
  function SizeOf(text: seq<byte>): (size: int)
    ensures -0x8000_0000 <= size < 0x8000_0000
  {
    var n := ParseLong(text) % U32;
    if n < 0x8000_0000 then n else n - U32
  }

  predicate Chatter(e: Io) {
    e.Got? && e.packet.Some? && (StatusOf(e.packet.value).Info? || StatusOf(e.packet.value).Text?)
  }

  /** The outcome a packet decides. */
  function Verdict(e: Io): (ret: RetCode)
    requires e.Got? && !Chatter(e)
  {
    if e.packet.None? then IoError
    else match StatusOf(e.packet.value)
      case Okay(_) => Success
      case Data(_) => Success
      case Fail(_) => DeviceFail
      case Unknown => BadDevResp
  }

  /** A group of response packets with its outcome; a timeout is a group without an end. */
  predicate Answered(group: seq<Io>, ret: RetCode) {
    && (forall k :: 0 <= k < |group| ==> group[k].Got? && group[k].length == RESPONSE_SIZE)
    && (forall k :: 0 <= k < |group| - 1 ==> Chatter(group[k]))
    && if ret == Timeout then group == [] || Chatter(group[|group| - 1])
       else group != [] && !Chatter(group[|group| - 1]) && Verdict(group[|group| - 1]) == ret
  }

  /** The INFO payloads, in the order they arrived. */
  function Infos(log: seq<Io>): (r: seq<seq<byte>>) {
    if log == [] then []
    else
      var n := |log| - 1;
      Infos(log[..n]) +
      if log[n].Got? && log[n].packet.Some? && StatusOf(log[n].packet.value).Info?
      then [StatusOf(log[n].packet.value).text] else []
  }

  /** The text the deciding packet of a group carries. */
  function Reply(group: seq<Io>): (text: seq<byte>) {
    if group == [] then []
    else
      var e := group[|group| - 1];
      if e.Wrote? || e.packet.None? || Chatter(e) || StatusOf(e.packet.value).Unknown? then []
      else StatusOf(e.packet.value).text
  }

  function DataSize(group: seq<Io>): (size: int) {
    if group != [] && group[|group| - 1].Got? && group[|group| - 1].packet.Some?
       && StatusOf(group[|group| - 1].packet.value).Data?
    then SizeOf(StatusOf(group[|group| - 1].packet.value).text) else 0
  }

  // ----- Writes

  /** The buffers handed to the transport, in order. */
  function Writes(log: seq<Io>): (r: seq<seq<byte>>) {
    if log == [] then []
    else
      var n := |log| - 1;
      Writes(log[..n]) + if log[n].Wrote? then [log[n].data] else []
  }

  lemma {:induction false} LogAppend(a: seq<Io>, b: seq<Io>)
    ensures Infos(a + b) == Infos(a) + Infos(b)
    ensures Writes(a + b) == Writes(a) + Writes(b)
  {
    if b == [] {
      assert a + b == a;
    } else {
      var n := |b| - 1;
      assert (a + b)[..|a + b| - 1] == a + b[..n];
      LogAppend(a, b[..n]);
    }
  }

  lemma LogOne(e: Io)
    ensures Writes([e]) == if e.Wrote? then [e.data] else []
    ensures e.Wrote? ==> Infos([e]) == []
  {
    assert [e][..0] == [];
  }

  lemma {:induction false} GroupWritesNothing(group: seq<Io>)
    requires forall k :: 0 <= k < |group| ==> group[k].Got?
    ensures Writes(group) == []
  {
    if group != [] {
      GroupWritesNothing(group[..|group| - 1]);
    }
  }

  /** The outcome of a group is unique: no group can be read as two outcomes. */
  lemma OneOutcome(group: seq<Io>, a: RetCode, b: RetCode)
    requires Answered(group, a) && Answered(group, b)
    ensures a == b
  {
  }

  /** A group ends at its first packet that is no INFO or TEXT packet. */
  lemma NoEarlierEnd(group: seq<Io>, ret: RetCode, k: nat, other: RetCode)
    requires Answered(group, ret) && k < |group| && Answered(group[..k], other)
    ensures other == Timeout
  {
  }

  // ----- The transport

  class Transport {
    var counts: seq<int>
    var packets: seq<Option<seq<byte>>>
    ghost var log: seq<Io>

    constructor (counts: seq<int>, packets: seq<Option<seq<byte>>>)
      ensures log == []
    {
      this.counts, this.packets, log := counts, packets, [];
    }

    method Write(data: seq<byte>) returns (count: int)
      modifies this
      ensures packets == old(packets)
      ensures log == old(log) + [Wrote(data, count)]
    {
      count := -1;
      if counts != [] {
        count, counts := counts[0], counts[1..];
      }
      log := log + [Wrote(data, count)];
    }

    method Read(length: nat) returns (packet: Option<seq<byte>>)
      modifies this
      ensures packet.Some? ==> |packets| < |old(packets)| && |packet.value| <= length
      ensures log == old(log) + [Got(length, packet)]
    {
      packet := None;
      if packets != [] {
        packet, packets := packets[0], packets[1..];
        if packet.Some? && |packet.value| > length {
          packet := Some(packet.value[..length]);
        }
      }
      log := log + [Got(length, packet)];
    }
  }

  /** A steady clock, in seconds; it replays a script. */
  class Clock {
    var times: seq<nat>
    ghost var readings: seq<nat>

    constructor (times: seq<nat>)
      ensures readings == []
    {
      this.times, readings := times, [];
    }

    method Now() returns (t: nat)
      modifies this
      ensures readings == old(readings) + [t]
    {
      t := 0;
      if times != [] {
        t, times := times[0], times[1..];
      }
      readings := readings + [t];
    }
  }

  const RESPONSE_TIMEOUT := 30

  /**
   The clock was read in pairs, at the start of each wait and at the check before the next
   read: once at first and again after every INFO and TEXT. Every wait but the last was
   short enough, and the last was too long exactly in a timeout.
   */
  predicate Timed(readings: seq<nat>, group: seq<Io>, ret: RetCode) {
    var waits := if ret == Timeout then |group| + 1 else |group|;
    && |readings| == 2 * waits
    && forall j :: 0 <= j < waits ==>
                     (readings[2 * j + 1] < readings[2 * j] + 30 <==> !(ret == Timeout && j == waits - 1))
  }

  lemma TimedSnoc(readings: seq<nat>, group: seq<Io>, start: nat, now: nat, e: Io, ret: RetCode)
    requires |readings| == 2 * |group|
    requires forall j :: 0 <= j < |group| ==> readings[2 * j + 1] - readings[2 * j] < RESPONSE_TIMEOUT
    ensures now - start >= RESPONSE_TIMEOUT ==> Timed(readings + [start, now], group, Timeout)
    ensures now - start < RESPONSE_TIMEOUT && ret != Timeout ==> Timed(readings + [start, now], group + [e], ret)
    ensures now - start < RESPONSE_TIMEOUT ==>
              var r, g := readings + [start, now], group + [e];
              |r| == 2 * |g| && forall j :: 0 <= j < |g| ==> r[2 * j + 1] - r[2 * j] < RESPONSE_TIMEOUT
  {
  }
}
