/** Reading data back from the device, and fetching a whole partition in pieces. */
module DriverFetch {
  import opened Bytes
  import opened HexText
  import opened DriverLog
  import opened DriverWords
  import opened FastbootDriver
  import opened DriverTheorems

  /** The output file; a write may fail at any point. */
  class File {
    var contents: seq<byte>
    var failures: seq<bool>
    ghost var refused: nat

    constructor (failures: seq<bool>)
      ensures contents == [] && refused == 0
    {
      this.contents, this.failures, refused := [], failures, 0;
    }

    method WriteFully(data: seq<byte>) returns (ok: bool)
      modifies this
      ensures contents == if ok then old(contents) + data else old(contents)
      ensures refused == if ok then old(refused) else old(refused) + 1
    {
      ok := true;
      if failures != [] {
        ok, failures := !failures[0], failures[1..];
      }
      if ok {
        contents := contents + data;
      } else {
        refused := refused + 1;
      }
    }
  }

  // ----- One answer with data

  /** The bytes a run of reads delivered. */
  function Collected(got: seq<Io>): (r: seq<byte>) {
    if got == [] then []
    else
      var n := |got| - 1;
      Collected(got[..n]) + if got[n].Got? && got[n].packet.Some? then got[n].packet.value else []
  }

  /** Reads of at most 1 MiB each that follow each other through `total` bytes. */
  predicate FullReads(got: seq<Io>, total: int) {
    forall k :: 0 <= k < |got| ==>
                  && k * READ_SIZE < total
                  && got[k].Got? && got[k].length == Min(READ_SIZE, total - k * READ_SIZE)
                  && got[k].packet.Some? && |got[k].packet.value| == got[k].length
  }

  lemma CollectedSnoc(got: seq<Io>, e: Io, total: nat)
    requires FullReads(got, total) && |got| * READ_SIZE < total
    requires e.Got? && e.length == Min(READ_SIZE, total - |got| * READ_SIZE)
    requires e.packet.Some? && |e.packet.value| == e.length
    ensures FullReads(got + [e], total)
    ensures Collected(got + [e]) == Collected(got) + e.packet.value
  {
    assert (got + [e])[..|got|] == got;
    hide Collected, Min;
  }

  /** The last of these reads failed or gave less than was asked for; those before it were full. */
  predicate CutShort(got: seq<Io>, total: int) {
    && got != [] && FullReads(got[..|got| - 1], total)
    && var e := got[|got| - 1]; e.Got? && (e.packet.None? || |e.packet.value| != e.length)
  }

  lemma NextRead(n: nat, total: nat, offset: nat)
    requires offset == Min(n * READ_SIZE, total) < total
    ensures n * READ_SIZE == offset && Min((n + 1) * READ_SIZE, total) == offset + Min(READ_SIZE, total - offset)
    ensures var bufSize := if total < READ_SIZE then total else READ_SIZE;
            Min(READ_SIZE, total - offset) == if total - offset < bufSize then total - offset else bufSize
  {
  }

  lemma CutShortSnoc(got: seq<Io>, e: Io, total: int)
    requires FullReads(got, total) && e.Got? && (e.packet.None? || |e.packet.value| != e.length)
    ensures CutShort(got + [e], total)
  {
    hide FullReads;
    assert (got + [e])[..|got|] == got;
  }

  /** A command answered by DATA, by that many bytes, and by a final response. */
  predicate ReadBack(cmd: seq<byte>, checked: bool, asked: seq<Io>, got: seq<Io>, answer: seq<Io>) {
    && Commanded(cmd, checked, asked, Success)
    && DataSize(asked) > 0
    && FullReads(got, DataSize(asked)) && |Collected(got)| == DataSize(asked)
    && Answered(answer, Success)
  }

  /** Reads `total` bytes into the file. */
  method ReadData(driver: FastBootDriver, file: File, total: nat) returns (ret: RetCode, ghost got: seq<Io>)
    modifies driver.transport, file
    ensures driver.transport.log == old(driver.transport.log) + got
    ensures ret == Success ==>
              && FullReads(got, total) && |Collected(got)| == total
              && file.contents == old(file.contents) + Collected(got) && file.refused == old(file.refused)
    ensures ret != Success ==> ret == IoError && (CutShort(got, total) || file.refused == old(file.refused) + 1)
    ensures old(file.contents) <= file.contents
  {
    got := [];
    var bufSize := if total < READ_SIZE then total else READ_SIZE;
    var offset := 0;
    assert Collected(got) == [] && file.contents + [] == file.contents && offset == Min(|got| * READ_SIZE, total);
    hide Collected, FullReads, CutShort, Min;
    while offset < total
      invariant 0 <= offset <= total && offset == Min(|got| * READ_SIZE, total)
      invariant driver.transport.log == old(driver.transport.log) + got
      invariant FullReads(got, total) && |Collected(got)| == offset
      invariant file.contents == old(file.contents) + Collected(got) && file.refused == old(file.refused)
    {
      NextRead(|got|, total, offset);
      var remaining := total - offset;
      var chunkSize := if remaining < bufSize then remaining else bufSize;
      var packet := driver.transport.Read(chunkSize);
      ghost var e := Got(chunkSize, packet);
      AppendAssoc(old(driver.transport.log), got, [e]);
      if packet.None? || |packet.value| != chunkSize {
        CutShortSnoc(got, e, total);
        return IoError, got + [e];
      }
      CollectedSnoc(got, e, total);
      AppendAssoc(old(file.contents), Collected(got), packet.value);
      got := got + [e];
      var ok := file.WriteFully(packet.value);
      if !ok {
        return IoError, got;
      }
      offset := offset + chunkSize;
    }
    ret := Success;
  }

  /** Why data could not be read back: the command, no data announced, a short read, the file, or the response. */
  predicate ReadFailed(cmd: seq<byte>, checked: bool, asked: seq<Io>, got: seq<Io>, answer: seq<Io>, refused: bool,
                       ret: RetCode)
  {
    || (got == answer == [] && Commanded(cmd, checked, asked, ret))
    || (Commanded(cmd, checked, asked, Success) &&
        (|| (got == answer == [] && ret == BadDevResp && DataSize(asked) <= 0)
         || (answer == [] && ret == IoError && DataSize(asked) > 0 && (refused || CutShort(got, DataSize(asked))))
         || (FullReads(got, DataSize(asked)) && |Collected(got)| == DataSize(asked) > 0 && Answered(answer, ret))))
  }

  lemma DataBehind(e: Io, group: seq<Io>)
    requires e.Wrote? && Answered(group, Success) && DataSize([e] + group) > 0
    ensures group != [] && Decided(group, Success) && Says(([e] + group)[|group|], "DATA")
  {
    assert !Answered([], Success);
    hide Answered, Decided, Says, DataSize, SizeOf, Terminated, Reply;
    DecidedExactly(group, Success);
    DataSizeAfter(e, group);
    ReplyExactly(group, Success);
  }

  /** What was read back came behind DATA, and the device then ended with OKAY or DATA. */
  lemma ReadBackDecided(cmd: seq<byte>, checked: bool, asked: seq<Io>, got: seq<Io>, answer: seq<Io>)
    requires ReadBack(cmd, checked, asked, got, answer)
    ensures asked != [] && asked[0] == Wrote(cmd, |cmd|)
    ensures Decided(asked[1..], Success) && Says(asked[|asked| - 1], "DATA") && Decided(answer, Success)
  {
    hide Answered, Decided, Says, FullReads, Collected, DataSize, Infos, Writes, Commanded;
    CommandWrites(cmd, checked, asked);
    DecidedExactly(answer, Success);
    assert asked == [asked[0]] + asked[1..];
    DataBehind(asked[0], asked[1..]);
  }

  method RunAndReadBuffer(driver: FastBootDriver, cmd: seq<byte>, file: File)
    returns (ret: RetCode, ghost asked: seq<Io>, ghost got: seq<Io>, ghost answer: seq<Io>)
    modifies driver.transport, driver.clock, file
    ensures driver.transport.log == old(driver.transport.log) + asked + got + answer
    ensures ret == Success <==> ReadBack(cmd, !driver.disableChecks, asked, got, answer)
    ensures ret == Success ==> file.contents == old(file.contents) + Collected(got)
    ensures ret != Success ==>
              ReadFailed(cmd, !driver.disableChecks, asked, got, answer, file.refused > old(file.refused), ret)
    ensures old(file.contents) <= file.contents
  {
    asked, got, answer := [], [], [];
    assert !Answered([], Success);
    hide Answered, Decided, CutShort, Commanded, DataSize, Collected, FullReads, Infos, Reply;
    var response, info, dsize;
    ret, response, info, dsize, asked := driver.RawCommand(cmd, [], []);
    if ret != Success {
      return;
    }
    if dsize <= 0 {
      ret := BadDevResp;
      return;
    }
    ret, got := ReadData(driver, file, dsize);
    if ret != Success {
      return;
    }
    ret, response, info, dsize, answer := driver.HandleResponse(info);
    if ret != Success && Answered(answer, Success) {
      OneOutcome(answer, ret, Success);
    }
  }

  // ----- A partition

  /** One fetch: the range that was asked for and what passed on the wire. */
  datatype Fetched = Fetched(offset: nat, size: nat, asked: seq<Io>, got: seq<Io>, answer: seq<Io>)

  function End(xs: seq<Fetched>): (e: nat) {
    if xs == [] then 0 else xs[|xs| - 1].offset + xs[|xs| - 1].size
  }

  /** Ranges of at most `fetchSize` that follow each other from 0 without gap or overlap. */
  predicate Consecutive(xs: seq<Fetched>, fetchSize: nat, total: nat) {
    forall k :: 0 <= k < |xs| ==>
                  && xs[k].offset == End(xs[..k]) < total
                  && xs[k].size == Min(fetchSize, total - xs[k].offset)
  }

  predicate AllReadBack(xs: seq<Fetched>, partition: seq<byte>, checked: bool) {
    forall k :: 0 <= k < |xs| ==> FetchedBack(xs[k], partition, checked)
  }

  function WireLog(xs: seq<Fetched>): (log: seq<Io>) {
    if xs == [] then []
    else
      var x := xs[|xs| - 1];
      WireLog(xs[..|xs| - 1]) + (x.asked + x.got + x.answer)
  }

  function Contents(xs: seq<Fetched>): (r: seq<byte>) {
    if xs == [] then [] else Contents(xs[..|xs| - 1]) + Collected(xs[|xs| - 1].got)
  }

  predicate FetchedBack(x: Fetched, partition: seq<byte>, checked: bool) {
    ReadBack(FetchCommand(partition, x.offset, x.size), checked, x.asked, x.got, x.answer)
  }

  lemma FetchedSnoc(xs: seq<Fetched>, x: Fetched, partition: seq<byte>, checked: bool, fetchSize: nat, total: nat)
    requires Consecutive(xs, fetchSize, total) && AllReadBack(xs, partition, checked)
    requires x.offset == End(xs) < total && x.size == Min(fetchSize, total - x.offset)
    ensures Consecutive(xs + [x], fetchSize, total)
    ensures AllReadBack(xs + [x], partition, checked) <==> FetchedBack(x, partition, checked)
    ensures End(xs + [x]) == x.offset + x.size
    ensures WireLog(xs + [x]) == WireLog(xs) + (x.asked + x.got + x.answer)
    ensures Contents(xs + [x]) == Contents(xs) + Collected(x.got)
  {
    hide ReadBack;
    var ys := xs + [x];
    assert ys[..|xs|] == xs && ys[|xs|] == x;
    forall k | 0 <= k < |xs|
      ensures ys[..k] == xs[..k]
    {
    }
  }

  /**
   Fetches a partition. A fetch size or partition size of zero, and a fetch that fails, end
   the program; here they give `false`. It succeeds exactly when both sizes are positive and
   every fetch that was made was answered in full; the fetches follow each other, and the
   last one made is the one that failed, or reaches the end.
   */
  method FetchPartition(driver: FastBootDriver, partition: seq<byte>, fetchSize: nat, partitionSize: nat, file: File)
    returns (ok: bool, ghost xs: seq<Fetched>)
    modifies driver.transport, driver.clock, file
    ensures ok <==> fetchSize > 0 && partitionSize > 0 && AllReadBack(xs, partition, !driver.disableChecks)
    ensures Consecutive(xs, fetchSize, partitionSize)
    ensures driver.transport.log == old(driver.transport.log) + WireLog(xs)
    ensures fetchSize > 0 && partitionSize > 0 ==> xs != []
    ensures ok ==> End(xs) == partitionSize && file.contents == old(file.contents) + Contents(xs)
  {
    xs := [];
    NothingFetched(driver.transport.log, file.contents, partition, !driver.disableChecks, fetchSize, partitionSize);
    if fetchSize == 0 || partitionSize == 0 {
      return false, xs;
    }
    var offset := 0;
    hide Contents, WireLog, End, ReadBack, Consecutive, AllReadBack, Collected, FetchCommand;
    while offset < partitionSize
      invariant 0 <= offset <= partitionSize && offset == End(xs) && (offset > 0 ==> xs != [])
      invariant Consecutive(xs, fetchSize, partitionSize) && AllReadBack(xs, partition, !driver.disableChecks)
      invariant driver.transport.log == old(driver.transport.log) + WireLog(xs)
      invariant file.contents == old(file.contents) + Contents(xs)
    {
      var chunkSize := if partitionSize - offset < fetchSize then partitionSize - offset else fetchSize;
      var ret;
      ghost var asked, got, answer;
      ret, asked, got, answer := RunAndReadBuffer(driver, FetchCommand(partition, offset, chunkSize), file);
      ghost var x := Fetched(offset, chunkSize, asked, got, answer);
      FetchedSnoc(xs, x, partition, !driver.disableChecks, fetchSize, partitionSize);
      Reassoc(old(driver.transport.log), WireLog(xs), asked, got, answer);
      AppendAssoc(old(file.contents), Contents(xs), Collected(got));
      xs := xs + [x];
      if ret != Success {
        return false, xs;
      }
      offset := offset + chunkSize;
    }
    ok := true;
  }

  lemma NothingFetched(log: seq<Io>, contents: seq<byte>, partition: seq<byte>, checked: bool, fetchSize: nat,
                       total: nat)
    ensures Consecutive([], fetchSize, total) && AllReadBack([], partition, checked) && End([]) == 0
    ensures log + WireLog([]) == log && contents + Contents([]) == contents
  {
  }

  lemma Reassoc(l: seq<Io>, w: seq<Io>, a: seq<Io>, b: seq<Io>, c: seq<Io>)
    ensures l + w + a + b + c == l + (w + (a + b + c))
  {
  }

  // ----- The file

  /** The device answers every fetch with the requested range of the partition. */
  predicate Honest(xs: seq<Fetched>, image: seq<byte>) {
    forall k :: 0 <= k < |xs| ==>
                  && xs[k].offset + xs[k].size <= |image|
                  && Collected(xs[k].got) == image[xs[k].offset..xs[k].offset + xs[k].size]
  }

  lemma {:induction false} ContentsAreImage(xs: seq<Fetched>, fetchSize: nat, image: seq<byte>)
    requires Consecutive(xs, fetchSize, |image|) && Honest(xs, image)
    ensures End(xs) <= |image| && Contents(xs) == image[..End(xs)]
  {
    hide Consecutive, Collected;
    if xs != [] {
      var n := |xs| - 1;
      ConsecutivePrefix(xs, fetchSize, |image|);
      assert Honest(xs[..n], image);
      ContentsAreImage(xs[..n], fetchSize, image);
      SliceJoin(image, xs[n].offset, xs[n].offset + xs[n].size);
    }
  }

  predicate InRange(x: Fetched, p: nat) {
    x.offset <= p < x.offset + x.size
  }

  predicate AskedNever(xs: seq<Fetched>, p: nat) {
    forall k :: 0 <= k < |xs| ==> !InRange(xs[k], p)
  }

  predicate AskedOnce(xs: seq<Fetched>, p: nat) {
    exists k :: 0 <= k < |xs| && InRange(xs[k], p) && forall j :: 0 <= j < |xs| && j != k ==> !InRange(xs[j], p)
  }

  lemma AskedMore(xs: seq<Fetched>, p: nat)
    requires xs != []
    ensures var n := |xs| - 1;
            && (AskedNever(xs[..n], p) ==> if InRange(xs[n], p) then AskedOnce(xs, p) else AskedNever(xs, p))
            && (AskedOnce(xs[..n], p) && !InRange(xs[n], p) ==> AskedOnce(xs, p))
  {
    hide InRange;
    var n := |xs| - 1;
    var ys := xs[..n];
    assert forall k :: 0 <= k < n ==> ys[k] == xs[k];
    if AskedOnce(ys, p) && !InRange(xs[n], p) {
      var k :| 0 <= k < n && InRange(ys[k], p) && forall j :: 0 <= j < n && j != k ==> !InRange(ys[j], p);
      assert InRange(xs[k], p);
    }
  }

  lemma ConsecutivePrefix(xs: seq<Fetched>, fetchSize: nat, total: nat)
    requires Consecutive(xs, fetchSize, total) && xs != []
    ensures Consecutive(xs[..|xs| - 1], fetchSize, total) && xs[|xs| - 1].offset == End(xs[..|xs| - 1])
  {
    hide End;
    var n := |xs| - 1;
    forall k | 0 <= k < n
      ensures xs[..n][..k] == xs[..k]
    {
    }
  }

  lemma {:induction false} EveryByteOnce(xs: seq<Fetched>, fetchSize: nat, total: nat, p: nat)
    requires Consecutive(xs, fetchSize, total)
    ensures if p < End(xs) then AskedOnce(xs, p) else AskedNever(xs, p)
  {
    hide Consecutive;
    if xs != [] {
      ConsecutivePrefix(xs, fetchSize, total);
      EveryByteOnce(xs[..|xs| - 1], fetchSize, total, p);
      AskedMore(xs, p);
      hide AskedOnce, AskedNever;
    }
  }

  /**
   With a device that answers every fetch with the requested range, a fetch that ends well
   has written the partition, and asked for every byte of it exactly once.
   */
  lemma FetchedWhole(xs: seq<Fetched>, fetchSize: nat, image: seq<byte>)
    requires Consecutive(xs, fetchSize, |image|) && End(xs) == |image| && Honest(xs, image)
    ensures Contents(xs) == image
    ensures forall p :: 0 <= p < |image| ==> AskedOnce(xs, p)
  {
    ContentsAreImage(xs, fetchSize, image);
    hide Consecutive, AskedOnce;
    forall p | 0 <= p < |image|
      ensures AskedOnce(xs, p)
    {
      EveryByteOnce(xs, fetchSize, |image|, p);
    }
  }

  /**
   The driver reads the announced size as a signed number: the data of a device that
   announces `size`, delivers that much and ends with OKAY is read back exactly when the
   size is positive and below 2 GiB.
   */
  lemma ReadBackExactly(cmd: seq<byte>, checked: bool, asked: seq<Io>, got: seq<Io>, answer: seq<Io>, size: nat)
    requires size < U32 && asked != [] && Commanded(cmd, checked, asked, Success)
    requires asked[|asked| - 1] == Got(RESPONSE_SIZE, Some(DATA + Padded(size, 8)))
    requires 0 < size < 0x8000_0000 ==> FullReads(got, size) && |Collected(got)| == size && Answered(answer, Success)
    ensures ReadBack(cmd, checked, asked, got, answer) <==> 0 < size < 0x8000_0000
  {
    DataPacket(size);
    DataSizeUnderstood(size);
    hide Padded, ParseLong, SizeOf, StatusOf, Commanded, Answered, FullReads, Collected;
  }

  /** The device announces the size that was asked for, and what the driver then reads is all there. */
  predicate Obliging(x: Fetched, partition: seq<byte>, checked: bool) {
    && x.size < U32 && x.asked != [] && Commanded(FetchCommand(partition, x.offset, x.size), checked, x.asked, Success)
    && x.asked[|x.asked| - 1] == Got(RESPONSE_SIZE, Some(DATA + Padded(x.size, 8)))
    && (0 < x.size < 0x8000_0000 ==>
          FullReads(x.got, x.size) && |Collected(x.got)| == x.size && Answered(x.answer, Success))
  }

  /**
   With such a device fetching a partition succeeds exactly when the smaller of the fetch
   size and the partition size is below 2 GiB.
   */
  lemma FetchSucceedsExactly(xs: seq<Fetched>, partition: seq<byte>, checked: bool, fetchSize: nat, total: nat)
    requires Consecutive(xs, fetchSize, total) && xs != [] && fetchSize > 0 && total > 0
    requires forall k :: 0 <= k < |xs| ==> Obliging(xs[k], partition, checked)
    ensures AllReadBack(xs, partition, checked) <==> Min(fetchSize, total) < 0x8000_0000
  {
    hide ReadBack, Commanded, FullReads, Collected, Answered, FetchCommand, Padded;
    forall k | 0 <= k < |xs|
      ensures FetchedBack(xs[k], partition, checked) <==> xs[k].size < 0x8000_0000
      ensures 0 < xs[k].size <= Min(fetchSize, total)
    {
      var x := xs[k];
      assert Obliging(x, partition, checked);
      ReadBackExactly(FetchCommand(partition, x.offset, x.size), checked, x.asked, x.got, x.answer, x.size);
    }
    assert xs[..0] == [] && xs[0].size == Min(fetchSize, total);
  }

  lemma {:induction false} DigitsTerminated(s: seq<byte>)
    requires 0 !in s
    ensures Terminated(s) == s
  {
    assert Terminated(s) <= s;
  }

  lemma DataPacket(size: nat)
    ensures StatusOf(DATA + Padded(size, 8)) == Data(Padded(size, 8))
  {
    hide Terminated, Padded, Value;
    PaddedReads(size, 8);
    var packet := DATA + Padded(size, 8);
    DigitsTerminated(packet);
    assert packet[..4] == DATA && packet[4..] == Padded(size, 8);
    assert packet[0] == 0x44;
  }
}
