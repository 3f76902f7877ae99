/** What a successful download has put on the wire. */
module DriverTheorems {
  import opened Bytes
  import opened AsciiText
  import opened HexText
  import opened DriverLog
  import opened DriverWords
  import opened FastbootDriver

  /** The commands as the protocol documents them. */
  lemma CommandsSpelled(partition: string, offset: nat, size: nat)
    ensures DownloadCommand(size) == Ascii("download:") + Padded(size % U32, 8)
    ensures var range := (if offset > LONG_MAX then []
                          else Ascii(":0x") + Padded(offset, 8) +
                               if size > LONG_MAX then [] else Ascii(":0x") + Padded(size, 8));
            FetchCommand(Ascii(partition), offset, size) == Ascii("fetch:") + Ascii(partition) + range
  {
    assert DOWNLOAD == Ascii("download:");
    assert FETCH == Ascii("fetch:") && HEX_FIELD == Ascii(":0x");
  }

  lemma JoinedText(a: string, b: string)
    ensures Ascii(a + b) == Ascii(a) + Ascii(b)
  {
  }

  lemma DigitsOf1234()
    ensures Padded(0x1234, 8) == Ascii("00001234")
  {
    assert Hex(0x1) == [49] && Hex(0x12) == [49, 50] && Hex(0x123) == [49, 50, 51];
    assert Hex(0x1234) == [49, 50, 51, 52];
    assert Ascii("00001234") == [48, 48, 48, 48, 49, 50, 51, 52];
  }

  /** The download in the example session of the protocol's documentation: 0x1234 bytes are announced and accepted. */
  lemma DocumentedDownload()
    ensures DownloadCommand(0x1234) == Ascii("download:00001234")
    ensures StatusOf(Ascii("DATA00001234")) == Data(Ascii("00001234")) && SizeOf(Ascii("00001234")) == 0x1234
    ensures StatusOf(Ascii("OKAY")) == Okay([])
  {
    hide Ascii, StatusOf, Padded, ParseLong, DownloadCommand, Hex;
    DigitsOf1234();
    CommandsSpelled("", 0, 0x1234);
    JoinedText("download:", "00001234");
    JoinedText("DATA", "00001234");
    assert "download:00001234" == "download:" + "00001234" && "DATA00001234" == "DATA" + "00001234";
    PaddedReads(0x1234, 8);
    WordsArrive(Ascii("00001234"));
    WordsArrive([]);
    assert Ascii("OKAY") + [] == Ascii("OKAY");
    PrintedParses(0x1234, 8);
  }

  lemma CommandWrites(cmd: seq<byte>, checked: bool, seg: seq<Io>)
    requires Commanded(cmd, checked, seg, Success)
    ensures seg != [] && seg[0] == Wrote(cmd, |cmd|) && Answered(seg[1..], Success)
    ensures Writes(seg) == [cmd] && Infos(seg) == Infos(seg[1..])
  {
    hide Writes, Infos, StatusOf, Verdict;
    var group := seg[1..];
    assert seg == [seg[0]] + group;
    LogAppend([seg[0]], group);
    LogOne(seg[0]);
    GroupWritesNothing(group);
  }

  lemma AnswerWritesNothing(group: seq<Io>, ret: RetCode)
    requires Answered(group, ret)
    ensures Writes(group) == []
  {
    GroupWritesNothing(group);
  }

  lemma FourParts(a: seq<Io>, b: seq<Io>, c: seq<Io>, d: seq<Io>)
    ensures Writes(a + b + c + d) == Writes(a) + Writes(b) + Writes(c) + Writes(d)
    ensures Infos(a + b + c + d) == Infos(a) + Infos(b) + Infos(c) + Infos(d)
  {
    LogAppend(a, b);
    LogAppend(a + b, c);
    LogAppend(a + b + c, d);
  }

  /**
   A buffer download that succeeds has written `download:` with the size in eight
   hexadecimal digits and then the buffer, nothing else, and each write was taken in full.
   It has read two groups of responses, each ended by OKAY or DATA, and the INFO payloads of
   the whole call are those of the first group followed by those of the second.
   */
  lemma DownloadExact(data: seq<byte>, asked: seq<Io>, sent: seq<Io>, answer: seq<Io>)
    requires Downloaded(data, true, asked, sent, answer, Success)
    ensures 0 < |data| <= 0xFFFF_FFFF
    ensures Writes(asked + sent + answer) == [DownloadCommand(|data|), data]
    ensures |DownloadCommand(|data|)| == 17 && ParseLong(DownloadCommand(|data|)[9..]) == |data|
    ensures DownloadCommand(|data|) == Ascii("download:") + Padded(|data|, 8)
    ensures asked[0] == Wrote(DownloadCommand(|data|), 17) && sent == [Wrote(data, |data|)]
    ensures Decided(asked[1..], Success) && Decided(answer, Success)
    ensures Infos(asked + sent + answer) == Infos(asked[1..]) + Infos(answer)
  {
    hide Downloaded, Commanded, DownloadCommand, Answered, Decided, Writes, Infos, ParseLong, Padded, Ascii;
    DownloadParts(data, asked, sent, answer);
    var cmd := DownloadCommand(|data|);
    SizeAnnounced(|data|);
    CommandsSpelled("", 0, |data|);
    CommandWrites(cmd, true, asked);
    DecidedExactly(asked[1..], Success);
    DecidedExactly(answer, Success);
    AnswerWritesNothing(answer, Success);
    LogOne(sent[0]);
    LogAppend(asked, sent);
    LogAppend(asked + sent, answer);
  }

  lemma DownloadParts(data: seq<byte>, asked: seq<Io>, sent: seq<Io>, answer: seq<Io>)
    requires Downloaded(data, true, asked, sent, answer, Success)
    ensures 0 < |data| <= MAX_DOWNLOAD_SIZE && sent == [Wrote(data, |data|)]
    ensures Commanded(DownloadCommand(|data|), true, asked, Success) && Answered(answer, Success)
  {
    hide DownloadCommand, Answered, Commanded;
  }

  lemma SizeAnnounced(size: nat)
    requires size < U32
    ensures |DownloadCommand(size)| == 17 && ParseLong(DownloadCommand(size)[9..]) == size
  {
    DownloadCommandFits(size);
    PrintedParses(size, 8);
    assert DownloadCommand(size)[9..] == Padded(size, 8);
  }

  /**
   A download the device refuses was answered by FAIL: before the buffer, which then was not
   sent, or after all of it was.
   */
  lemma DownloadRefused(data: seq<byte>, checked: bool, asked: seq<Io>, sent: seq<Io>, answer: seq<Io>)
    requires Downloaded(data, checked, asked, sent, answer, DeviceFail)
    ensures asked != [] && asked[0] == Wrote(DownloadCommand(|data|), |DownloadCommand(|data|)|)
    ensures || (Decided(asked[1..], DeviceFail) && sent == answer == [])
            || (Decided(asked[1..], Success) && sent == [Wrote(data, |data|)] && Decided(answer, DeviceFail))
  {
    hide DownloadCommand, Answered, Decided;
    if asked != [] {
      DecidedExactly(asked[1..], DeviceFail);
      DecidedExactly(asked[1..], Success);
    }
    DecidedExactly(answer, DeviceFail);
  }

  /** The checks can be switched off: then a buffer of 4 GiB announces the wrong size. */
  lemma UncheckedSize(size: nat)
    ensures ParseLong(DownloadCommand(size)[9..]) == size <==> size < U32
  {
    PrintedParses(size % U32, 8);
    assert DownloadCommand(size)[9..] == Padded(size % U32, 8);
  }

  /**
   A sparse download that succeeds has written the command and then exactly the bytes of the
   file, in order. The device gets as many bytes as it was told exactly when the library's
   size is the length of what it delivered.
   */
  lemma SparseExact(pieces: seq<seq<byte>>, size: int, asked: seq<Io>, chunks: seq<Io>, rest: seq<Io>, answer: seq<Io>)
    requires SparseDownloaded(pieces, size, true, asked, chunks, rest, answer)
    ensures var writes := Writes(asked + chunks + rest + answer);
            && writes != [] && writes[0] == DownloadCommand(size) && ParseLong(writes[0][9..]) == size
            && Flatten(writes[1..]) == Flatten(pieces)
            && asked != [] && Decided(asked[1..], Success) && Decided(answer, Success)
            && forall k :: 1 <= k < |writes| ==> writes[k] != [] && (k < |writes| - 1 ==> |writes[k]| % 1024 == 0)
  {
    hide DownloadCommand, Answered, Decided, Writes, Infos, ParseLong, Flatten, Commanded, WholeChunks;
    SizeAnnounced(size);
    var cmd := DownloadCommand(size);
    var body := Writes(chunks + rest);
    CommandWrites(cmd, true, asked);
    DecidedExactly(asked[1..], Success);
    DecidedExactly(answer, Success);
    AnswerWritesNothing(answer, Success);
    FourParts(asked, chunks, rest, answer);
    LogAppend(chunks, rest);
    BodyWrites(chunks, rest);
    var writes := Writes(asked + chunks + rest + answer);
    assert writes == [cmd] + body && writes[1..] == body;
    forall k | 1 <= k < |writes|
      ensures writes[k] != [] && (k < |writes| - 1 ==> |writes[k]| % 1024 == 0)
    {
      assert writes[k] == body[k - 1];
    }
  }

  lemma BodyWrites(chunks: seq<Io>, rest: seq<Io>)
    requires WholeChunks(chunks)
    requires rest == [] || (|rest| == 1 && rest[0].Wrote? && rest[0].data != [])
    ensures var body := Writes(chunks + rest);
            forall k :: 0 <= k < |body| ==> body[k] != [] && (k < |body| - 1 ==> |body[k]| % CHUNK_SIZE == 0)
  {
    WholeChunkWrites(chunks);
    LogAppend(chunks, rest);
    if rest != [] {
      assert rest == [rest[0]];
      LogOne(rest[0]);
    }
    hide Writes, WholeChunks;
  }

  lemma {:induction false} WholeChunkWrites(chunks: seq<Io>)
    requires WholeChunks(chunks)
    ensures forall k :: 0 <= k < |Writes(chunks)| ==> Writes(chunks)[k] != [] && |Writes(chunks)[k]| % CHUNK_SIZE == 0
  {
    if chunks != [] {
      WholeChunkWrites(chunks[..|chunks| - 1]);
    }
  }

  /** The number in a DATA response is understood exactly when it is below 2^31. */
  lemma DataSizeUnderstood(n: nat)
    requires n < U32
    ensures SizeOf(Padded(n, 8)) == n <==> n < 0x8000_0000
    ensures n >= 0x8000_0000 ==> SizeOf(Padded(n, 8)) < 0
  {
    hide Padded, ParseLong;
    PrintedParses(n, 8);
  }

  /** The device can read the range back from a fetch command, whatever the partition is called. */
  lemma FetchCommandReads(partition: seq<byte>, offset: nat, size: nat)
    requires offset <= LONG_MAX && size <= LONG_MAX
    ensures var range := FetchCommand(partition, offset, size)[|FETCH| + |partition|..];
            && |range| > |Padded(offset, 8)| + 4
            && ParseLong(range[1..]) == offset && ParseLong(range[|Padded(offset, 8)| + 4..]) == size
  {
    hide ParseLong, Padded;
    var o, z := Padded(offset, 8), Padded(size, 8);
    var range := FetchCommand(partition, offset, size)[|FETCH| + |partition|..];
    assert range == HEX_FIELD + o + (HEX_FIELD + z);
    assert range[1..] == [48, 120] + o + (HEX_FIELD + z);
    assert range[|o| + 4..] == [48, 120] + z + [];
    PrefixedParses(offset, 8, HEX_FIELD + z);
    PrefixedParses(size, 8, []);
  }
}
