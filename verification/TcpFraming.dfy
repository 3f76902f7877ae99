/** The framing of fastboot over TCP: every message is preceded by its length in eight bytes. */
module TcpFraming {
  import opened Bytes
  import opened AsciiText

  const U64: int := 0x1_0000_0000_0000_0000

  // ----- Big-endian numbers

  function BigEndian(v: nat, k: nat): (r: seq<byte>)
    ensures |r| == k
    decreases k
  {
    if k == 0 then [] else BigEndian(v / 256, k - 1) + [v % 256]
  }

  function FromBigEndian(b: seq<byte>): (v: nat) {
    if b == [] then 0 else FromBigEndian(b[..|b| - 1]) * 256 + b[|b| - 1] as int
  }

  function Power256(k: nat): (p: nat)
    ensures p > 0
  {
    if k == 0 then 1 else 256 * Power256(k - 1)
  }

  lemma {:induction false} BigEndianReads(v: nat, k: nat)
    requires v < Power256(k)
    ensures FromBigEndian(BigEndian(v, k)) == v
    decreases k
  {
    if k > 0 {
      BigEndianReads(v / 256, k - 1);
      var r := BigEndian(v / 256, k - 1);
      assert (r + [v % 256])[..k - 1] == r;
    }
  }

  lemma {:induction false} BigEndianWrites(b: seq<byte>)
    ensures FromBigEndian(b) < Power256(|b|)
    ensures BigEndian(FromBigEndian(b), |b|) == b
  {
    if b != [] {
      var n := |b| - 1;
      BigEndianWrites(b[..n]);
      var v := FromBigEndian(b[..n]);
      assert FromBigEndian(b) / 256 == v && FromBigEndian(b) % 256 == b[n] as int;
      assert b == b[..n] + [b[n]];
    }
  }

  lemma EightBytes()
    ensures Power256(8) == U64
  {
    assert Power256(4) == 0x1_0000_0000;
    assert Power256(8) == 256 * Power256(7) == 0x1_0000 * Power256(6) == 0x100_0000 * Power256(5) == U64;
  }

  // ----- Frames

  function Frame(m: seq<byte>): (r: seq<byte>)
    ensures |r| == 8 + |m|
  {
    BigEndian(|m|, 8) + m
  }

  /** The byte stream of a list of messages. */
  function Frames(ms: seq<seq<byte>>): (r: seq<byte>) {
    if ms == [] then [] else Frame(ms[0]) + Frames(ms[1..])
  }

  predicate Sizes(ms: seq<seq<byte>>) {
    forall i :: 0 <= i < |ms| ==> |ms[i]| < U64
  }

  lemma HeaderReads(m: seq<byte>, rest: seq<byte>)
    requires |m| < U64
    ensures var s := Frame(m) + rest;
            FromBigEndian(s[..8]) == |m| && s[8..] == m + rest
  {
    hide BigEndian, FromBigEndian, Power256;
    EightBytes();
    BigEndianReads(|m|, 8);
    assert (Frame(m) + rest)[..8] == BigEndian(|m|, 8);
  }

  lemma {:induction false} ZeroBytes(k: nat)
    ensures BigEndian(0, k) == Zeros(k)
  {
    if k > 0 {
      ZeroBytes(k - 1);
    }
  }

  /** The length of a short message is in the last of the eight bytes. */
  lemma ShortFrame(m: seq<byte>)
    requires |m| < 256
    ensures Frame(m) == [0, 0, 0, 0, 0, 0, 0, |m|] + m
  {
    ZeroBytes(7);
    assert BigEndian(|m|, 8) == BigEndian(0, 7) + [|m|];
  }

  /** The messages of the protocol's documentation. */
  lemma DocumentedFrames()
    ensures Frame(Ascii("getvar:version")) == [0x00, 0x00, 0x00, 0x00, 0x00, 0x00, 0x00, 0x0E] + Ascii("getvar:version")
    ensures Frame(Ascii("OKAY0.4")) == [0x00, 0x00, 0x00, 0x00, 0x00, 0x00, 0x00, 0x07] + Ascii("OKAY0.4")
  {
    hide Frame, Ascii;
    ShortFrame(Ascii("getvar:version"));
    ShortFrame(Ascii("OKAY0.4"));
  }

  // ----- Reading

  /** Where a reader is: the unread part of the current message, and the messages after it. */
  datatype Position = Position(current: seq<byte>, later: seq<seq<byte>>)

  function Stream(p: Position): (r: seq<byte>) {
    p.current + Frames(p.later)
  }

  function Unread(p: Position): (r: seq<byte>) {
    p.current + Flatten(p.later)
  }

  /** A reader that is between messages goes on to the next one. */
  function Entered(p: Position): (q: Position) {
    if p.current == [] && p.later != [] then Position(p.later[0], p.later[1..]) else p
  }

  predicate AtEnd(p: Position) {
    p.current == [] && p.later == []
  }

  function ReadData(p: Position, length: nat): (data: seq<byte>) {
    var q := Entered(p);
    q.current[..Min(length, |q.current|)]
  }

  function ReadRest(p: Position, length: nat): (q: Position) {
    var q := Entered(p);
    Position(q.current[Min(length, |q.current|)..], q.later)
  }

  /** The results of reads with the given lengths, and where they end. */
  function Reads(p: Position, lengths: seq<nat>): (r: (seq<seq<byte>>, Position)) {
    if lengths == [] then ([], p)
    else
      var n := |lengths| - 1;
      var (results, q) := Reads(p, lengths[..n]);
      (results + [ReadData(q, lengths[n])], ReadRest(q, lengths[n]))
  }

  lemma ReadKeepsOrder(p: Position, length: nat)
    ensures ReadData(p, length) + Unread(ReadRest(p, length)) == Unread(p)
    ensures |ReadData(p, length)| <= length
  {
    var q := Entered(p);
    if p.current == [] && p.later != [] {
      assert Unread(q) == p.later[0] + Flatten(p.later[1..]);
      assert Unread(p) == Flatten(p.later);
    }
    var k := Min(length, |q.current|);
    assert q.current == q.current[..k] + q.current[k..];
    AppendAssoc(q.current[..k], q.current[k..], Flatten(q.later));
  }

  // ----- Message boundaries

  predicate Suffix<T(==)>(s: seq<T>, t: seq<T>) {
    |s| <= |t| && s == t[|t| - |s|..]
  }

  predicate Piece(data: seq<byte>, m: seq<byte>, k: nat) {
    k + |data| <= |m| && data == m[k..k + |data|]
  }

  ghost predicate InOneMessage(data: seq<byte>, ms: seq<seq<byte>>) {
    data == [] || exists i, k: nat :: 0 <= i < |ms| && Piece(data, ms[i], k)
  }

  /** A position inside a list: the later messages end it, and the current one is part of the message before. */
  predicate Within(p: Position, ms: seq<seq<byte>>) {
    && Suffix(p.later, ms)
    && (p.current == [] || (|p.later| < |ms| && Suffix(p.current, ms[|ms| - |p.later| - 1])))
  }

  lemma SuffixRest<T>(s: seq<T>, t: seq<T>, n: nat)
    requires Suffix(s, t) && n <= |s|
    ensures Suffix(s[n..], t)
  {
  }

  lemma SuffixPiece(s: seq<byte>, t: seq<byte>, n: nat)
    requires Suffix(s, t) && n <= |s|
    ensures Piece(s[..n], t, |t| - |s|)
  {
  }

  lemma EnteredWithin(p: Position, ms: seq<seq<byte>>)
    requires Within(p, ms)
    ensures Within(Entered(p), ms)
  {
    if p.current == [] && p.later != [] {
      SuffixRest(p.later, ms, 1);
      var m := p.later[0];
      assert m == ms[|ms| - |p.later|] && m == m[0..];
    }
  }

  lemma ReadStaysInMessage(p: Position, ms: seq<seq<byte>>, length: nat)
    requires Within(p, ms)
    ensures Within(ReadRest(p, length), ms) && InOneMessage(ReadData(p, length), ms)
  {
    EnteredWithin(p, ms);
    var q := Entered(p);
    hide Entered, Suffix, Piece;
    if q.current != [] {
      var i := |ms| - |q.later| - 1;
      SuffixIndex(q.later, ms);
      SuffixRest(q.current, ms[i], Min(length, |q.current|));
      SuffixPiece(q.current, ms[i], Min(length, |q.current|));
      SuffixIndex(q.current, ms[i]);
    }
  }

  lemma SuffixIndex<T>(s: seq<T>, t: seq<T>)
    requires Suffix(s, t)
    ensures |s| <= |t|
  {
  }

  /** Results and what is left: the messages in order, no result across a message boundary. */
  ghost predicate InOrder(ms: seq<seq<byte>>, lengths: seq<nat>, results: seq<seq<byte>>, p: Position) {
    && Flatten(results) + Unread(p) == Flatten(ms) && Within(p, ms)
    && |results| == |lengths|
    && forall j :: 0 <= j < |results| ==> |results[j]| <= lengths[j] && InOneMessage(results[j], ms)
  }

  lemma InOrderStep(ms: seq<seq<byte>>, lengths: seq<nat>, results: seq<seq<byte>>, p: Position, length: nat)
    requires InOrder(ms, lengths, results, p)
    ensures InOrder(ms, lengths + [length], results + [ReadData(p, length)], ReadRest(p, length))
  {
    hide Flatten, Unread, ReadData, ReadRest, Within, InOneMessage;
    ReadKeepsOrder(p, length);
    ReadStaysInMessage(p, ms, length);
    FlattenSnoc(results, ReadData(p, length));
    AppendAssoc(Flatten(results), ReadData(p, length), Unread(ReadRest(p, length)));
  }

  /** Reading back what was framed, with any lengths. */
  lemma {:induction false} FramingRoundTrip(ms: seq<seq<byte>>, lengths: seq<nat>)
    ensures InOrder(ms, lengths, Reads(Position([], ms), lengths).0, Reads(Position([], ms), lengths).1)
  {
    if lengths == [] {
      assert ms == ms[0..];
      assert Unread(Position([], ms)) == Flatten(ms);
    } else {
      var n := |lengths| - 1;
      hide InOrder;
      FramingRoundTrip(ms, lengths[..n]);
      var (results, p) := Reads(Position([], ms), lengths[..n]);
      InOrderStep(ms, lengths[..n], results, p, lengths[n]);
      assert lengths[..n] + [lengths[n]] == lengths;
    }
  }

  /** A reader that asks for at least as much as each message has gets the messages as they were sent. */
  lemma {:induction false} WholeMessages(ms: seq<seq<byte>>, lengths: seq<nat>)
    requires |lengths| <= |ms| && forall i :: 0 <= i < |lengths| ==> |ms[i]| <= lengths[i]
    ensures Reads(Position([], ms), lengths) == (ms[..|lengths|], Position([], ms[|lengths|..]))
  {
    if lengths == [] {
      assert ms[0..] == ms;
    } else {
      var n := |lengths| - 1;
      WholeMessages(ms, lengths[..n]);
      assert ms[..n] + [ms[n]] == ms[..n + 1] && ms[n..][1..] == ms[n + 1..];
      assert ms[n][..|ms[n]|] == ms[n] && ms[n][|ms[n]|..] == [];
    }
  }
}
