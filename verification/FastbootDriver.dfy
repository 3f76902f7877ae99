/**
 The fastboot driver: commands and their responses, downloads of buffers and of sparse
 files, and reading data back. Each method returns the part of the transport's log that
 belongs to the call.
 */
module FastbootDriver {
  import opened Bytes
  import opened HexText
  import opened DriverLog
  import opened DriverWords

  const CHUNK_SIZE := 1024
  const READ_SIZE := 0x10_0000

  const DOWNLOAD: seq<byte> := [0x64, 0x6F, 0x77, 0x6E, 0x6C, 0x6F, 0x61, 0x64, 0x3A]  // "download:"
  const FETCH: seq<byte> := [0x66, 0x65, 0x74, 0x63, 0x68, 0x3A]                      // "fetch:"
  const HEX_FIELD: seq<byte> := [0x3A, 0x30, 0x78]                                    // ":0x"

  function DownloadCommand(size: nat): (cmd: seq<byte>) {
    DOWNLOAD + Padded(size % U32, 8)
  }

  /** Numbers that do not fit a signed 64-bit integer are left out. */
  function FetchCommand(partition: seq<byte>, offset: nat, size: nat): (cmd: seq<byte>) {
    FETCH + partition +
    if offset > LONG_MAX then []
    else HEX_FIELD + Padded(offset, 8) + if size > LONG_MAX then [] else HEX_FIELD + Padded(size, 8)
  }

  // ----- What the calls promise

  /** A command and its response. */
  predicate Commanded(cmd: seq<byte>, checked: bool, seg: seq<Io>, ret: RetCode) {
    if |cmd| > 4096 && checked then seg == [] && ret == BadArg
    else
      && seg != [] && seg[0].Wrote? && seg[0].data == cmd
      && if seg[0].count != |cmd| then |seg| == 1 && ret == IoError else Answered(seg[1..], ret)
  }

  /** A buffer sent in one write; the driver refuses an empty one. */
  predicate BufferSent(data: seq<byte>, seg: seq<Io>, ret: RetCode) {
    if data == [] then seg == [] && ret == BadArg
    else
      && |seg| == 1 && seg[0].Wrote? && seg[0].data == data
      && ret == if seg[0].count == |data| then Success else IoError
  }

  /** The three parts of a download: the command, the buffer, the response. */
  predicate Downloaded(data: seq<byte>, checked: bool, asked: seq<Io>, sent: seq<Io>, answer: seq<Io>, ret: RetCode) {
    if (data == [] || |data| > MAX_DOWNLOAD_SIZE) && checked then asked == sent == answer == [] && ret == BadArg
    else
      (ret != Success && sent == answer == [] && Commanded(DownloadCommand(|data|), checked, asked, ret))
      || (Commanded(DownloadCommand(|data|), checked, asked, Success) &&
          ((ret != Success && answer == [] && BufferSent(data, sent, ret))
           || (BufferSent(data, sent, Success) && Answered(answer, ret))))
  }

  /** Every write is a full, non-empty run of whole chunks. */
  predicate WholeChunks(seg: seq<Io>) {
    forall k :: 0 <= k < |seg| ==>
                  seg[k].Wrote? && seg[k].count == |seg[k].data| && seg[k].data != [] && |seg[k].data| % CHUNK_SIZE == 0
  }

  /** A run of writes of which at most the last one fails. */
  predicate ChunksUpTo(seg: seq<Io>, ok: bool) {
    if ok then WholeChunks(seg)
    else
      && seg != [] && WholeChunks(seg[..|seg| - 1])
      && var e := seg[|seg| - 1]; e.Wrote? && e.count != |e.data| && e.data != [] && |e.data| % CHUNK_SIZE == 0
  }

  lemma ChunksJoin(a: seq<Io>, b: seq<Io>, ok: bool)
    requires WholeChunks(a) && ChunksUpTo(b, ok)
    ensures ChunksUpTo(a + b, ok)
  {
    if !ok {
      assert (a + b)[..|a + b| - 1] == a + b[..|b| - 1];
    }
  }

  lemma DownloadCommandFits(size: nat)
    requires size <= MAX_DOWNLOAD_SIZE
    ensures |DownloadCommand(size)| == 17 && size % U32 == size
  {
    EightDigits(size);
  }

  lemma NothingWritten()
    ensures Flatten(Writes([])) == [] && Flatten([]) == []
  {
  }

  lemma OneWritten(seg: seq<Io>)
    requires |seg| == 1 && seg[0].Wrote?
    ensures Flatten(Writes(seg)) == seg[0].data
  {
    assert seg == [seg[0]];
    LogOne(seg[0]);
    assert Flatten([seg[0].data]) == seg[0].data + Flatten([]);
  }

  lemma WrittenJoin(a: seq<Io>, b: seq<Io>)
    ensures Flatten(Writes(a + b)) == Flatten(Writes(a)) + Flatten(Writes(b))
  {
    LogAppend(a, b);
    FlattenAppend(Writes(a), Writes(b));
  }

  lemma PieceTaken(pieces: seq<seq<byte>>, i: nat, seg: seq<Io>, kept: seq<byte>, more: seq<Io>, tpbuf: seq<byte>)
    requires i < |pieces| && Flatten(Writes(seg)) + kept == Flatten(pieces[..i])
    requires Flatten(Writes(more)) + tpbuf == kept + pieces[i]
    ensures Flatten(Writes(seg + more)) + tpbuf == Flatten(pieces[..i + 1])
  {
    WrittenJoin(seg, more);
    assert pieces[..i + 1] == pieces[..i] + [pieces[i]];
    FlattenSnoc(pieces[..i], pieces[i]);
    var a := Flatten(Writes(seg));
    AppendAssoc(a, Flatten(Writes(more)), tpbuf);
    AppendAssoc(a, kept, pieces[i]);
  }

  /** A successful sparse download: whole chunks, at most one shorter write, then the response. */
  predicate SparseDownloaded(pieces: seq<seq<byte>>, size: int, checked: bool, asked: seq<Io>, chunks: seq<Io>,
                             rest: seq<Io>, answer: seq<Io>)
  {
    && 0 < size <= MAX_DOWNLOAD_SIZE && Commanded(DownloadCommand(size), checked, asked, Success)
    && WholeChunks(chunks)
    && (rest == [] || (|rest| == 1 && rest[0].Wrote? && rest[0].count == |rest[0].data|
                       && 0 < |rest[0].data| < CHUNK_SIZE))
    && Flatten(Writes(chunks + rest)) == Flatten(pieces)
    && Answered(answer, Success)
  }

  /** Why a sparse download failed: the command, a short write, a broken file, or the response to all of it. */
  predicate SparseFailed(pieces: seq<seq<byte>>, size: nat, intact: bool, checked: bool, asked: seq<Io>,
                         chunks: seq<Io>, rest: seq<Io>, answer: seq<Io>, ret: RetCode)
  {
    || (chunks == rest == answer == [] && Commanded(DownloadCommand(size), checked, asked, ret))
    || (Commanded(DownloadCommand(size), checked, asked, Success) &&
        (|| (rest == answer == [] && ret == IoError && (!intact || ChunksUpTo(chunks, false)))
         || (answer == [] && ret == IoError && |rest| == 1 && rest[0].Wrote? && rest[0].count != |rest[0].data|)
         || (Flatten(Writes(chunks + rest)) == Flatten(pieces) && Answered(answer, ret))))
  }

  lemma Flushed(pieces: seq<seq<byte>>, chunks: seq<Io>, tpbuf: seq<byte>, rest: seq<Io>)
    requires Flatten(Writes(chunks)) + tpbuf == Flatten(pieces)
    requires if tpbuf == [] then rest == [] else BufferSent(tpbuf, rest, Success)
    ensures Flatten(Writes(chunks + rest)) == Flatten(pieces)
  {
    if tpbuf == [] {
      assert chunks + rest == chunks;
    } else {
      OneWritten(rest);
      WrittenJoin(chunks, rest);
    }
  }

  class FastBootDriver {
    const transport: Transport
    const clock: Clock
    var disableChecks: bool

    constructor (transport: Transport, clock: Clock)
      ensures this.transport == transport && this.clock == clock && !disableChecks
    {
      this.transport, this.clock, disableChecks := transport, clock, false;
    }

    /** Reads responses up to the one that decides; collects the INFO payloads on the way. */
    method HandleResponse(info0: seq<seq<byte>>)
      returns (ret: RetCode, response: seq<byte>, info: seq<seq<byte>>, dsize: int, ghost group: seq<Io>)
      modifies transport, clock
      ensures transport.log == old(transport.log) + group
      ensures Answered(group, ret) && Decided(group, ret)
      ensures response == Reply(group) && info == info0 + Infos(group)
      ensures dsize == DataSize(group)
      ensures old(clock.readings) <= clock.readings
      ensures Timed(clock.readings[|old(clock.readings)|..], group, ret)
    {
      response, info, dsize, group := [], info0, 0, [];
      hide StatusOf, Answered, Decided, Infos, SizeOf, Reply, DataSize, Timed;
      GroupEmpty(info0);
      ghost var before, waits: seq<nat> := clock.readings, [];
      var start: nat := clock.Now();
      while true
        invariant transport.log == old(transport.log) + group
        invariant clock.readings == before + waits + [start] && |waits| == 2 * |group|
        invariant forall j :: 0 <= j < |group| ==> waits[2 * j + 1] - waits[2 * j] < RESPONSE_TIMEOUT
        invariant Answered(group, Timeout) && info == info0 + Infos(group)
        invariant response == [] == Reply(group) && dsize == 0 == DataSize(group)
        decreases |transport.packets|
      {
        var now: nat := clock.Now();
        assert clock.readings[|before|..] == waits + [start, now];
        if now - start >= RESPONSE_TIMEOUT {
          TimedSnoc(waits, group, start, now, Got(RESPONSE_SIZE, None), Timeout);
          DecidedExactly(group, Timeout);
          return Timeout, response, info, dsize, group;
        }
        var packet := transport.Read(RESPONSE_SIZE);
        ghost var e := Got(RESPONSE_SIZE, packet);
        TimedSnoc(waits, group, start, now, e, IoError);
        TimedSnoc(waits, group, start, now, e, Success);
        TimedSnoc(waits, group, start, now, e, DeviceFail);
        TimedSnoc(waits, group, start, now, e, BadDevResp);
        waits := waits + [start, now];
        AppendAssoc(old(transport.log), group, [e]);
        GroupSnoc(group, e, info0);
        group := group + [e];
        DecidedExactly(group, if Chatter(e) then Timeout else Verdict(e));
        if packet.None? {
          return IoError, response, info, dsize, group;
        }
        match StatusOf(packet.value) {
          case Info(text) => info := info + [text];
          case Okay(text) => return Success, text, info, dsize, group;
          case Fail(text) => return DeviceFail, text, info, dsize, group;
          case Text(_) =>
          case Data(text) => return Success, text, info, SizeOf(text), group;
          case Unknown => return BadDevResp, response, info, dsize, group;
        }
        // INFO and TEXT may be one of many during a long operation, so the wait starts again.
        start := clock.Now();
      }
    }

    method RawCommand(cmd: seq<byte>, response0: seq<byte>, info0: seq<seq<byte>>)
      returns (ret: RetCode, response: seq<byte>, info: seq<seq<byte>>, dsize: int, ghost seg: seq<Io>)
      modifies transport, clock
      ensures transport.log == old(transport.log) + seg
      ensures Commanded(cmd, !disableChecks, seg, ret) && info == info0 + Infos(seg)
      ensures response == if seg == [] || seg[0] != Wrote(cmd, |cmd|) then response0 else Reply(seg[1..])
      ensures dsize == DataSize(seg)
    {
      response, info, dsize, seg := response0, info0, 0, [];
      hide Answered, Decided, Reply, Infos, DataSize;
      GroupEmpty(info0);
      if |cmd| > COMMAND_SIZE && !disableChecks {
        return BadArg, response, info, dsize, seg;
      }
      var count := transport.Write(cmd);
      seg := [Wrote(cmd, count)];
      LogOne(seg[0]);
      DataSizeAfter(seg[0], []);
      if count != |cmd| {
        return IoError, response, info, dsize, seg;
      }
      ghost var group;
      ret, response, info, dsize, group := HandleResponse(info);
      AppendAssoc(old(transport.log), seg, group);
      LogAppend(seg, group);
      DataSizeAfter(seg[0], group);
      seg := seg + group;
    }

    method SendBuffer(data: seq<byte>) returns (ret: RetCode, ghost seg: seq<Io>)
      modifies transport
      ensures transport.log == old(transport.log) + seg && BufferSent(data, seg, ret)
    {
      if data == [] {
        return BadArg, [];
      }
      var count := transport.Write(data);
      return if count == |data| then Success else IoError, [Wrote(data, count)];
    }

    method Download(data: seq<byte>, response0: seq<byte>, info0: seq<seq<byte>>)
      returns (ret: RetCode, response: seq<byte>, info: seq<seq<byte>>,
               ghost asked: seq<Io>, ghost sent: seq<Io>, ghost answer: seq<Io>)
      modifies transport, clock
      ensures transport.log == old(transport.log) + asked + sent + answer
      ensures Downloaded(data, !disableChecks, asked, sent, answer, ret)
      ensures info == info0 + Infos(asked) + Infos(answer)
      ensures ret == Success ==> response == Reply(answer)
    {
      response, info, asked, sent, answer := response0, info0, [], [], [];
      hide Answered, Decided, Infos, Reply, Padded, DataSize;
      GroupEmpty(info0);
      if (data == [] || |data| > MAX_DOWNLOAD_SIZE) && !disableChecks {
        ret := BadArg;
        return;
      }
      var dsize;
      ret, response, info, dsize, asked := RawCommand(DownloadCommand(|data|), response, info);
      GroupEmpty(info);
      if ret != Success {
        return;
      }
      ret, sent := SendBuffer(data);
      if ret != Success {
        return;
      }
      ret, response, info, dsize, answer := HandleResponse(info);
    }

    /**
     Takes the next piece of a sparse file. Whole chunks are sent at once and the rest is kept
     for the next call.
     */
    method SparseWriteCallback(tpbuf0: seq<byte>, data: seq<byte>)
      returns (ok: bool, tpbuf: seq<byte>, ghost seg: seq<Io>)
      requires |tpbuf0| < CHUNK_SIZE
      modifies transport
      ensures transport.log == old(transport.log) + seg && ChunksUpTo(seg, ok)
      ensures ok ==> Flatten(Writes(seg)) + tpbuf == tpbuf0 + data && |tpbuf| < CHUNK_SIZE
      ensures Flatten(Writes(seg)) <= tpbuf0 + data
    {
      hide Flatten, Writes;
      NothingWritten();
      var toWrite := if CHUNK_SIZE - |tpbuf0| < |data| then CHUNK_SIZE - |tpbuf0| else |data|;
      tpbuf, seg := tpbuf0 + data[..toWrite], [];
      if |tpbuf| < CHUNK_SIZE {
        assert data[..toWrite] == data;
        return true, tpbuf, seg;
      }
      var ret;
      ret, seg := SendBuffer(tpbuf);
      OneWritten(seg);
      assert tpbuf + data[toWrite..] == tpbuf0 + data;
      if ret != Success {
        return false, tpbuf, seg;
      }
      ok, tpbuf, seg := SendWholeChunks(tpbuf, data[toWrite..], seg);
    }

    /** The second half of the callback, after the first full chunk `first` has gone out. */
    method SendWholeChunks(ghost first: seq<byte>, data: seq<byte>, ghost seg0: seq<Io>)
      returns (ok: bool, tpbuf: seq<byte>, ghost seg: seq<Io>)
      requires WholeChunks(seg0) && Flatten(Writes(seg0)) == first
      modifies transport
      ensures seg0 <= seg && transport.log == old(transport.log) + seg[|seg0|..] && ChunksUpTo(seg, ok)
      ensures ok ==> Flatten(Writes(seg)) + tpbuf == first + data && |tpbuf| < CHUNK_SIZE
      ensures Flatten(Writes(seg)) <= first + data
    {
      hide Flatten, Writes;
      tpbuf, seg := [], seg0;
      var nbytes := CHUNK_SIZE * (|data| / CHUNK_SIZE);
      if nbytes != 0 {
        var ret;
        ghost var more;
        ret, more := SendBuffer(data[..nbytes]);
        OneWritten(more);
        ChunksJoin(seg0, more, ret == Success);
        WrittenJoin(seg0, more);
        seg := seg0 + more;
        if ret != Success {
          assert first + data == first + data[..nbytes] + data[nbytes..];
          return false, tpbuf, seg;
        }
      }
      if |data| > nbytes {
        tpbuf := data[nbytes..];
      }
      assert first + data == first + data[..nbytes] + data[nbytes..];
      return true, tpbuf, seg;
    }

    /** Feeds the pieces of a sparse file to the callback, up to the first failure. */
    method SparsePieces(pieces: seq<seq<byte>>) returns (ok: bool, tpbuf: seq<byte>, ghost seg: seq<Io>)
      modifies transport
      ensures transport.log == old(transport.log) + seg && ChunksUpTo(seg, ok)
      ensures ok ==> Flatten(Writes(seg)) + tpbuf == Flatten(pieces) && |tpbuf| < CHUNK_SIZE
    {
      NothingWritten();
      ok, tpbuf, seg := true, [], [];
      hide Flatten, Writes;
      assert pieces[..0] == [];
      var i := 0;
      while i < |pieces|
        invariant 0 <= i <= |pieces| && |tpbuf| < CHUNK_SIZE
        invariant transport.log == old(transport.log) + seg && WholeChunks(seg)
        invariant Flatten(Writes(seg)) + tpbuf == Flatten(pieces[..i])
      {
        ghost var more;
        ghost var kept := tpbuf;
        ok, tpbuf, more := SparseWriteCallback(tpbuf, pieces[i]);
        ChunksJoin(seg, more, ok);
        AppendAssoc(old(transport.log), seg, more);
        if !ok {
          return false, tpbuf, seg + more;
        }
        PieceTaken(pieces, i, seg, kept, more, tpbuf);
        seg := seg + more;
        i := i + 1;
      }
      assert pieces[..i] == pieces;
    }

    /**
     Downloads a sparse file of `size` bytes that arrives in pieces; `intact` tells whether
     the sparse library read the file without an error.
     */
    method DownloadSparse(pieces: seq<seq<byte>>, size: int, intact: bool, response0: seq<byte>, info0: seq<seq<byte>>)
      returns (ret: RetCode, response: seq<byte>, info: seq<seq<byte>>,
               ghost asked: seq<Io>, ghost chunks: seq<Io>, ghost rest: seq<Io>, ghost answer: seq<Io>)
      modifies transport, clock
      ensures transport.log == old(transport.log) + asked + chunks + rest + answer
      ensures size <= 0 || size > MAX_DOWNLOAD_SIZE <==> ret == BadArg && asked == []
      ensures ret == Success ==> SparseDownloaded(pieces, size, !disableChecks, asked, chunks, rest, answer)
      ensures 0 < size <= MAX_DOWNLOAD_SIZE && ret != Success ==>
                SparseFailed(pieces, size, intact, !disableChecks, asked, chunks, rest, answer, ret)
      ensures ret == Success ==> info == info0 + Infos(asked) + Infos(answer) && response == Reply(answer)
    {
      response, info, asked, chunks, rest, answer := response0, info0, [], [], [], [];
      hide Answered, Decided, Infos, Reply, Padded, DataSize, Flatten, Writes;
      if size <= 0 || size > MAX_DOWNLOAD_SIZE {
        ret := BadArg;
        return;
      }
      var dsize;
      DownloadCommandFits(size);
      ret, response, info, dsize, asked := RawCommand(DownloadCommand(size), response, info);
      if ret != Success {
        return;
      }
      var ok, tpbuf;
      ok, tpbuf, chunks := SparsePieces(pieces);
      if !ok || !intact {
        ret := IoError;
        return;
      }
      if tpbuf != [] {
        ret, rest := SendBuffer(tpbuf);
        if ret != Success {
          return;
        }
      }
      Flushed(pieces, chunks, tpbuf, rest);
      ret, response, info, dsize, answer := HandleResponse(info);
    }
  }

  lemma GroupEmpty(info0: seq<seq<byte>>)
    ensures Answered([], Timeout) && info0 + Infos([]) == info0 && Reply([]) == [] && DataSize([]) == 0
  {
  }

  lemma DataSizeAfter(e: Io, group: seq<Io>)
    requires e.Wrote?
    ensures DataSize([e] + group) == DataSize(group) && DataSize([e]) == 0 && ([e] + group)[1..] == group
  {
    hide StatusOf, SizeOf;
  }

  lemma GroupSnoc(group: seq<Io>, e: Io, info0: seq<seq<byte>>)
    requires Answered(group, Timeout) && e.Got? && e.length == RESPONSE_SIZE
    ensures Chatter(e) ==> Answered(group + [e], Timeout)
    ensures !Chatter(e) ==> Answered(group + [e], Verdict(e))
    ensures Infos(group + [e]) == Infos(group) + Infos([e])
    ensures info0 + Infos(group + [e]) == (info0 + Infos(group)) + Infos([e])
    ensures Infos([e])
            == if e.packet.Some? && StatusOf(e.packet.value).Info? then [StatusOf(e.packet.value).text] else []
    ensures Reply(group + [e]) == if e.packet.None? || Chatter(e) || StatusOf(e.packet.value).Unknown? then []
                                  else StatusOf(e.packet.value).text
    ensures DataSize(group + [e]) == if e.packet.Some? && StatusOf(e.packet.value).Data?
                                     then SizeOf(StatusOf(e.packet.value).text) else 0
  {
    LogAppend(group, [e]);
    AppendAssoc(info0, Infos(group), Infos([e]));
    assert [e][..0] == [];
  }
}
