/**
 The USB bulk writer of the Linux host: it keeps up to two transfers in flight and halves
 its transfer size when the kernel runs out of memory. The kernel is an oracle, and every
 request made to it is logged with its answer.
 */
module UsbWriter {
  import opened Bytes

  const MAX_BULK_WRITE_SIZE := 256 * 1024
  const MIN_BULK_WRITE_SIZE := 16 * 1024

  datatype SubmitAnswer = Accepted | NoMemory | Refused

  /** A completed transfer of a slot, with its status and length as they should be or not. */
  datatype ReapAnswer = Done(slot: nat, good: bool) | ReapFailed

  datatype Event = Submit(slot: nat, data: seq<byte>, granted: SubmitAnswer) | Reap(done: ReapAnswer)

  // ----- What a log means

  /** The bytes the kernel took, in order. */
  function Sent(log: seq<Event>): (r: seq<byte>) {
    if log == [] then []
    else
      var n := |log| - 1;
      Sent(log[..n]) + if log[n].Submit? && log[n].granted.Accepted? then log[n].data else []
  }

  predicate InFlight(log: seq<Event>, slot: nat) {
    log != [] &&
    var n := |log| - 1;
    match log[n]
    case Submit(s, _, granted) => (s == slot && granted.Accepted?) || InFlight(log[..n], slot)
    case Reap(done) => InFlight(log[..n], slot) && !(done.Done? && done.slot == slot && done.good)
  }

  /** The transfer size after a log: halved for every lack of memory, down to the minimum. */
  function LimitAfter(start: nat, log: seq<Event>): (limit: nat) {
    if log == [] then start
    else
      var n := |log| - 1;
      var limit := LimitAfter(start, log[..n]);
      if log[n].Submit? && log[n].granted.NoMemory? && limit > MIN_BULK_WRITE_SIZE then limit / 2 else limit
  }

  /** Whether the last answer of a log makes the writer give up. */
  predicate Fatal(start: nat, log: seq<Event>) {
    log != [] &&
    var n := |log| - 1;
    match log[n]
    case Submit(_, _, granted) =>
      granted.Refused? || (granted.NoMemory? && LimitAfter(start, log[..n]) <= MIN_BULK_WRITE_SIZE)
    case Reap(done) => done.ReapFailed? || !InFlight(log[..n], done.slot) || !done.good
  }

  /**
   Whether a request is in order after a log: a free slot and the next piece of the data; or
   waiting, right after a submission only with both slots in flight or no data left.
   */
  predicate Legal(whole: seq<byte>, start: nat, log: seq<Event>, e: Event) {
    match e
    case Submit(slot, data, _) =>
      && slot < 2 && !InFlight(log, slot)
      && |Sent(log)| <= |whole|
      && data == whole[|Sent(log)|..][..Min(LimitAfter(start, log), |whole| - |Sent(log)|)]
    case Reap(_) =>
      && (InFlight(log, 0) || InFlight(log, 1))
      && ((InFlight(log, 0) && InFlight(log, 1)) || |Sent(log)| >= |whole| || (log != [] && log[|log| - 1].Reap?))
  }

  predicate Proper(whole: seq<byte>, start: nat, log: seq<Event>) {
    log == [] ||
    var n := |log| - 1;
    Proper(whole, start, log[..n]) && !Fatal(start, log[..n]) && Legal(whole, start, log[..n], log[n])
  }

  predicate LimitOk(limit: nat) {
    limit in [256 * 1024, 128 * 1024, 64 * 1024, 32 * 1024, 16 * 1024]
  }

  // ----- Laws of the log

  lemma Snoc(start: nat, log: seq<Event>, e: Event, slot: nat)
    ensures (log + [e])[..|log|] == log
    ensures Sent(log + [e]) == Sent(log) + if e.Submit? && e.granted.Accepted? then e.data else []
    ensures LimitAfter(start, log + [e])
            == var limit := LimitAfter(start, log);
               if e.Submit? && e.granted.NoMemory? && limit > MIN_BULK_WRITE_SIZE then limit / 2 else limit
    ensures InFlight(log + [e], slot)
            == match e
               case Submit(s, _, granted) => (s == slot && granted.Accepted?) || InFlight(log, slot)
               case Reap(done) => InFlight(log, slot) && !(done.Done? && done.slot == slot && done.good)
  {
    assert (log + [e])[..|log|] == log;
  }

  lemma {:induction false} LimitStaysLarge(start: nat, log: seq<Event>)
    requires LimitOk(start)
    ensures LimitOk(LimitAfter(start, log)) && MIN_BULK_WRITE_SIZE <= LimitAfter(start, log) <= start
  {
    if log != [] {
      LimitStaysLarge(start, log[..|log| - 1]);
    }
  }

  /** A slot that is in flight holds the data of an accepted transfer that has not been reaped since. */
  lemma {:induction false} InFlightIff(log: seq<Event>, slot: nat)
    ensures InFlight(log, slot) <==>
            exists k :: 0 <= k < |log| && log[k].Submit? && log[k].slot == slot && log[k].granted.Accepted?
                        && forall l :: k < l < |log| ==> log[l] != Reap(Done(slot, true))
  {
    if log != [] {
      var n := |log| - 1;
      InFlightIff(log[..n], slot);
      if InFlight(log, slot) && InFlight(log[..n], slot) {
        var k :| 0 <= k < n && log[..n][k].Submit? && log[..n][k].slot == slot && log[..n][k].granted.Accepted?
                 && forall l :: k < l < n ==> log[..n][l] != Reap(Done(slot, true));
        assert log[k] == log[..n][k];
        assert forall l :: k < l < |log| ==> log[l] != Reap(Done(slot, true));
      }
      if k :| 0 <= k < |log| && log[k].Submit? && log[k].slot == slot && log[k].granted.Accepted?
              && forall l :: k < l < |log| ==> log[l] != Reap(Done(slot, true))
      {
        if k < n {
          assert log[..n][k] == log[k];
          assert forall l :: k < l < n ==> log[..n][l] != Reap(Done(slot, true));
        }
      }
    }
  }

  lemma {:induction false} SentPrefix(whole: seq<byte>, start: nat, log: seq<Event>)
    requires Proper(whole, start, log)
    ensures |Sent(log)| <= |whole| && Sent(log) == whole[..|Sent(log)|]
  {
    hide InFlight, LimitAfter, Fatal;
    if log != [] {
      var n := |log| - 1;
      SentPrefix(whole, start, log[..n]);
      if log[n].Submit? {
        SentGrows(whole, Sent(log[..n]), LimitAfter(start, log[..n]));
      }
    }
  }

  lemma {:induction false} EventLegal(whole: seq<byte>, start: nat, log: seq<Event>, k: nat)
    requires Proper(whole, start, log) && k < |log|
    ensures Legal(whole, start, log[..k], log[k]) && !Fatal(start, log[..k])
  {
    hide Legal, Fatal;
    var n := |log| - 1;
    if k < n {
      EventLegal(whole, start, log[..n], k);
      assert log[..n][..k] == log[..k] && log[..n][k] == log[k];
    }
  }

  /**
   In every proper log the accepted transfers are the data, once and in order, as far as
   they go, and no slot is ever submitted again before its transfer was reaped.
   */
  lemma SubmittedOnceInOrder(whole: seq<byte>, start: nat, log: seq<Event>)
    requires Proper(whole, start, log)
    ensures |Sent(log)| <= |whole| && Sent(log) == whole[..|Sent(log)|]
    ensures forall k :: 0 <= k < |log| && log[k].Submit? ==> log[k].slot < 2 && !InFlight(log[..k], log[k].slot)
    ensures forall k :: 0 <= k < |log| ==> !Fatal(start, log[..k])
  {
    hide Proper, InFlight, Fatal, Sent;
    SentPrefix(whole, start, log);
    forall k | 0 <= k < |log|
      ensures log[k].Submit? ==> log[k].slot < 2 && !InFlight(log[..k], log[k].slot)
      ensures !Fatal(start, log[..k])
    {
      EventLegal(whole, start, log, k);
    }
  }

  /** How often the kernel had no memory. */
  function Lacks(log: seq<Event>): (n: nat) {
    if log == [] then 0
    else Lacks(log[..|log| - 1]) + if log[|log| - 1].Submit? && log[|log| - 1].granted.NoMemory? then 1 else 0
  }

  function Halved(size: nat, k: nat): (r: nat) {
    if k == 0 then size else Halved(size, k - 1) / 2
  }

  /** The transfer size is halved for every lack of memory, but never below 16 KiB. */
  lemma {:induction false} LimitExactly(start: nat, log: seq<Event>)
    requires LimitOk(start)
    ensures var size := Halved(start, Lacks(log));
            LimitAfter(start, log) == if size < 16 * 1024 then 16 * 1024 else size
  {
    if log != [] {
      LimitExactly(start, log[..|log| - 1]);
      LimitStaysLarge(start, log[..|log| - 1]);
    }
  }

  /**
   The writer gives up exactly when the kernel refuses a transfer, has no memory for one of
   16 KiB, cannot reap, or hands back a bad transfer or one that is not in flight.
   */
  lemma GivesUpExactly(start: nat, log: seq<Event>)
    requires LimitOk(start) && log != []
    ensures var n := |log| - 1;
            Fatal(start, log) <==>
            match log[n]
            case Submit(_, _, Accepted) => false
            case Submit(_, _, Refused) => true
            case Submit(_, _, NoMemory) => Halved(start, Lacks(log[..n])) <= 16 * 1024
            case Reap(ReapFailed) => true
            case Reap(Done(slot, good)) => !good || !InFlight(log[..n], slot)
  {
    hide LimitAfter, InFlight, Lacks, Halved;
    LimitExactly(start, log[..|log| - 1]);
  }

  /** Two transfers are kept in flight: right after a submission the writer waits only when it has to. */
  lemma WaitsOnlyWhenFull(whole: seq<byte>, start: nat, log: seq<Event>, k: nat)
    requires Proper(whole, start, log) && 0 < k < |log| && log[k].Reap? && log[k - 1].Submit?
    ensures (InFlight(log[..k], 0) && InFlight(log[..k], 1)) || Sent(log[..k]) == whole
  {
    hide InFlight, Sent, Fatal;
    EventLegal(whole, start, log, k);
    PrefixProper(whole, start, log, k);
    SentPrefix(whole, start, log[..k]);
    assert log[..k][k - 1] == log[k - 1];
  }

  lemma {:induction false} PrefixProper(whole: seq<byte>, start: nat, log: seq<Event>, k: nat)
    requires Proper(whole, start, log) && k <= |log|
    ensures Proper(whole, start, log[..k])
  {
    hide Legal, Fatal;
    if k < |log| {
      PrefixProper(whole, start, log[..|log| - 1], k);
      assert log[..|log| - 1][..k] == log[..k];
    } else {
      assert log[..k] == log;
    }
  }

  lemma SentGrows(whole: seq<byte>, sent: seq<byte>, limit: nat)
    requires |sent| <= |whole| && sent == whole[..|sent|]
    ensures var data := whole[|sent|..][..Min(limit, |whole| - |sent|)];
            sent + data == whole[..|sent| + |data|]
  {
    var m := Min(limit, |whole| - |sent|);
    assert whole[|sent|..][..m] == whole[|sent|..|sent| + m];
    SliceJoin(whole, |sent|, |sent| + m);
  }

  // ----- The state of a write and its log

  /** The count is a 32-bit unsigned integer. */
  function Wrap(n: nat): (r: nat) {
    n % U32
  }

  predicate Agrees(whole: seq<byte>, start: nat, log: seq<Event>, limit: nat, rest: seq<byte>, count: nat,
                   pending: seq<bool>)
  {
    && LimitOk(start) && limit == LimitAfter(start, log)
    && Proper(whole, start, log)
    && |Sent(log)| <= |whole| && rest == whole[|Sent(log)|..]
    && count == Wrap(|Sent(log)|)
    && |pending| == 2 && pending[0] == InFlight(log, 0) && pending[1] == InFlight(log, 1)
  }

  lemma AgreedLimit(whole: seq<byte>, start: nat, log: seq<Event>, limit: nat, rest: seq<byte>, count: nat,
                    pending: seq<bool>)
    requires Agrees(whole, start, log, limit, rest, count, pending)
    ensures LimitOk(limit) && 0 < limit && |pending| == 2
    ensures limit > MIN_BULK_WRITE_SIZE ==> limit / 2 < limit
  {
    LimitStaysLarge(start, log);
  }

  lemma NothingLogged(data: seq<byte>, limit: nat)
    requires LimitOk(limit)
    ensures Agrees(data, limit, [], limit, data, 0, [false, false])
  {
  }

  lemma AgreedOutcome(whole: seq<byte>, start: nat, log: seq<Event>, limit: nat, rest: seq<byte>, count: nat,
                      pending: seq<bool>)
    requires Agrees(whole, start, log, limit, rest, count, pending)
    ensures LimitOk(limit) && limit == LimitAfter(start, log) && Proper(whole, start, log)
    ensures rest == [] ==> Sent(log) == whole && count == Wrap(|whole|)
    ensures pending == [false, false] ==> !InFlight(log, 0) && !InFlight(log, 1)
  {
    hide Proper, Sent, InFlight, LimitOk, LimitAfter, Wrap;
    LimitStaysLarge(start, log);
    SentPrefix(whole, start, log);
  }

  lemma SubmitProper(whole: seq<byte>, start: nat, log: seq<Event>, limit: nat, rest: seq<byte>, count: nat,
                     pending: seq<bool>, i: nat, granted: SubmitAnswer)
    requires Agrees(whole, start, log, limit, rest, count, pending) && !Fatal(start, log) && i < 2 && !pending[i]
    ensures Proper(whole, start, log + [Submit(i, rest[..Min(limit, |rest|)], granted)])
    ensures Fatal(start, log + [Submit(i, rest[..Min(limit, |rest|)], granted)])
            <==> granted.Refused? || (granted.NoMemory? && limit <= MIN_BULK_WRITE_SIZE)
  {
    hide LimitAfter, InFlight, Sent, LimitOk;
    var e := Submit(i, rest[..Min(limit, |rest|)], granted);
    assert (log + [e])[..|log|] == log;
    assert Legal(whole, start, log, e);
    hide Legal;
  }

  /** How each answer to a submission changes the state. */
  lemma SubmitLogged(whole: seq<byte>, start: nat, log: seq<Event>, limit: nat, rest: seq<byte>, count: nat,
                     pending: seq<bool>, i: nat, granted: SubmitAnswer)
    requires Agrees(whole, start, log, limit, rest, count, pending) && !Fatal(start, log)
    requires i < 2 && |pending| == 2 && !pending[i]
    ensures var xfer := Min(limit, |rest|);
            var after := log + [Submit(i, rest[..xfer], granted)];
            && (Fatal(start, after) <==> granted.Refused? || (granted.NoMemory? && limit <= MIN_BULK_WRITE_SIZE))
            && (Fatal(start, after) ==> Agrees(whole, start, after, limit, rest, count, pending))
            && (granted.NoMemory? && limit > MIN_BULK_WRITE_SIZE ==>
                  Agrees(whole, start, after, limit / 2, rest, count, pending))
            && (granted.Accepted? ==>
                  Agrees(whole, start, after, limit, rest[xfer..], Wrap(count + xfer), pending[i := true]))
  {
    hide LimitAfter, InFlight, Sent, Proper, Fatal, LimitOk, Wrap;
    var xfer := Min(limit, |rest|);
    var e := Submit(i, rest[..xfer], granted);
    SubmitProper(whole, start, log, limit, rest, count, pending, i, granted);
    Snoc(start, log, e, 0);
    Snoc(start, log, e, 1);
    CountUp(|Sent(log)|, xfer);
    RestOf(whole, |Sent(log)|, xfer);
  }

  lemma RestOf(s: seq<byte>, a: nat, n: nat)
    requires a + n <= |s|
    ensures s[a..][n..] == s[a + n..]
  {
  }

  /** Both transfers are in flight, or there is no more to send, or the writer is waiting already. */
  predicate MayWait(pending: seq<bool>, rest: seq<byte>, log: seq<Event>) {
    pending == [true, true] || rest == [] || (log != [] && log[|log| - 1].Reap?)
  }

  lemma WaitingOn(pending: seq<bool>, rest: seq<byte>, log: seq<Event>)
    requires log != [] && log[|log| - 1].Reap?
    ensures MayWait(pending, rest, log)
  {
  }

  lemma ReapLogged(whole: seq<byte>, start: nat, log: seq<Event>, limit: nat, rest: seq<byte>, count: nat,
                   pending: seq<bool>, i: nat, done: ReapAnswer)
    requires Agrees(whole, start, log, limit, rest, count, pending) && !Fatal(start, log)
    requires i < 2 && |pending| == 2 && pending[i]
    requires MayWait(pending, rest, log)
    ensures var after := log + [Reap(done)];
            && (Fatal(start, after) <==>
                  done.ReapFailed? || done.slot >= 2 || !pending[done.slot] || !done.good)
            && (Fatal(start, after) ==> Agrees(whole, start, after, limit, rest, count, pending))
            && (!Fatal(start, after) ==> Agrees(whole, start, after, limit, rest, count, pending[done.slot := false]))
  {
    hide LimitAfter, InFlight, Sent, LimitOk, Wrap;
    var e := Reap(done);
    Snoc(start, log, e, 0);
    Snoc(start, log, e, 1);
    assert Legal(whole, start, log, e);
    if done.Done? {
      NothingElseInFlight(whole, start, log, done.slot);
    }
    assert Fatal(start, log + [e]) <==> done.ReapFailed? || done.slot >= 2 || !pending[done.slot] || !done.good;
  }

  // ----- The kernel

  class Kernel {
    var submits: seq<SubmitAnswer>
    var reaps: seq<ReapAnswer>
    /** The requests made so far, with their answers. */
    ghost var log: seq<Event>

    constructor (submits: seq<SubmitAnswer>, reaps: seq<ReapAnswer>)
      ensures log == []
    {
      this.submits, this.reaps, log := submits, reaps, [];
    }

    method SubmitUrb(slot: nat, data: seq<byte>) returns (granted: SubmitAnswer)
      modifies this
      ensures log == old(log) + [Submit(slot, data, granted)]
    {
      granted := Refused;
      if submits != [] {
        granted, submits := submits[0], submits[1..];
      }
      log := log + [Submit(slot, data, granted)];
    }

    method ReapUrb() returns (done: ReapAnswer)
      modifies this
      ensures log == old(log) + [Reap(done)]
    {
      done := ReapFailed;
      if reaps != [] {
        done, reaps := reaps[0], reaps[1..];
      }
      log := log + [Reap(done)];
    }
  }

  // ----- The writer

  class LinuxUsbTransport {
    const kernel: Kernel
    /** Whether the output endpoint and the descriptor exist. */
    const usable: bool
    var maxBulkWriteSize: nat

    // One write.
    var rest: seq<byte>
    var count: nat
    var pending: seq<bool>
    ghost var whole: seq<byte>
    ghost var start: nat
    ghost var prior: seq<Event>
    ghost var log: seq<Event>

    constructor (kernel: Kernel, usable: bool)
      ensures this.kernel == kernel && this.usable == usable && maxBulkWriteSize == 256 * 1024
    {
      this.kernel, this.usable := kernel, usable;
      maxBulkWriteSize := MAX_BULK_WRITE_SIZE;
      rest, count, pending := [], 0, [false, false];
      whole, start, prior, log := [], MAX_BULK_WRITE_SIZE, [], [];
    }

    /** The fields agree with what the kernel was asked since the write began. */
    ghost predicate Valid()
      reads this, kernel
    {
      kernel.log == prior + log && Agrees(whole, start, log, maxBulkWriteSize, rest, count, pending)
    }

    method SubmitUrb(i: nat) returns (ok: bool)
      requires Valid() && !Fatal(start, log) && i < 2 && !pending[i]
      modifies this, kernel
      ensures Valid() && whole == old(whole) && start == old(start) && prior == old(prior)
      ensures ok <==> !Fatal(start, log)
      ensures ok ==> pending == old(pending)[i := true]
      ensures ok ==> |rest| < |old(rest)| || |old(rest)| == 0 == |rest|
    {
      hide Agrees, Fatal, Sent, Proper, InFlight, LimitAfter, LimitOk;
      while true
        invariant Valid() && !Fatal(start, log)
        invariant whole == old(whole) && start == old(start) && prior == old(prior) && pending == old(pending)
        invariant rest == old(rest)
        decreases maxBulkWriteSize
      {
        AgreedLimit(whole, start, log, maxBulkWriteSize, rest, count, pending);
        var xfer := if |rest| > maxBulkWriteSize then maxBulkWriteSize else |rest|;
        var granted := kernel.SubmitUrb(i, rest[..xfer]);
        SubmitLogged(whole, start, log, maxBulkWriteSize, rest, count, pending, i, granted);
        AppendAssoc(prior, log, [Submit(i, rest[..xfer], granted)]);
        log := log + [Submit(i, rest[..xfer], granted)];
        if !granted.Accepted? {
          if granted.NoMemory? && maxBulkWriteSize > MIN_BULK_WRITE_SIZE {
            maxBulkWriteSize := maxBulkWriteSize / 2;
            continue;
          }
          return false;
        }
        pending := pending[i := true];
        count := Wrap(count + xfer);
        rest := rest[xfer..];
        return true;
      }
    }

    method ReapUrb(i: nat) returns (ok: bool)
      requires Valid() && !Fatal(start, log) && i < 2
      requires pending[i] ==> MayWait(pending, rest, log)
      modifies this, kernel
      ensures Valid() && whole == old(whole) && start == old(start) && prior == old(prior) && rest == old(rest)
      ensures ok <==> !Fatal(start, log)
      ensures ok ==> !pending[i] && forall j :: 0 <= j < 2 && pending[j] ==> old(pending)[j]
    {
      hide Agrees, Fatal, Sent, Proper, InFlight, LimitAfter, LimitOk, MayWait;
      AgreedLimit(whole, start, log, maxBulkWriteSize, rest, count, pending);
      while pending[i]
        invariant Valid() && !Fatal(start, log)
        invariant whole == old(whole) && start == old(start) && prior == old(prior) && rest == old(rest)
        invariant |pending| == 2 && forall j :: 0 <= j < 2 && pending[j] ==> old(pending)[j]
        invariant pending[i] ==> MayWait(pending, rest, log)
        decreases pending[0], pending[1]
      {
        var done := kernel.ReapUrb();
        ReapLogged(whole, start, log, maxBulkWriteSize, rest, count, pending, i, done);
        AppendAssoc(prior, log, [Reap(done)]);
        log := log + [Reap(done)];
        if done.ReapFailed? {
          return false;
        }
        if done.slot >= 2 || !pending[done.slot] {
          return false;
        }
        if !done.good {
          return false;
        }
        pending := pending[done.slot := false];
        WaitingOn(pending, rest, log);
      }
      return true;
    }

    /**
     Writes the data. The log of the call is proper, so the transfers are pieces of the data
     in order and no slot is reused while in flight; the call fails exactly when the kernel
     gave a fatal answer; and a call that succeeds has sent everything, has nothing in
     flight, and returns the length in 32 bits.
     */
    method Write(data: seq<byte>) returns (r: int)
      requires LimitOk(maxBulkWriteSize)
      modifies this, kernel
      ensures LimitOk(maxBulkWriteSize) && (usable ==> maxBulkWriteSize == LimitAfter(start, log))
      ensures !usable ==> r == -1 && unchanged(this) && kernel.log == old(kernel.log)
      ensures usable ==> kernel.log == old(kernel.log) + log
      ensures usable ==> whole == data && start == old(maxBulkWriteSize) && Proper(data, start, log)
      ensures usable ==> (r == -1 <==> Fatal(start, log))
      ensures usable && r != -1 ==> r == Wrap(|data|) && Sent(log) == data && !InFlight(log, 0) && !InFlight(log, 1)
    {
      hide Agrees, Proper, Sent, Fatal, InFlight, LimitOk, LimitAfter, Wrap;
      if !usable {
        return -1;
      }
      NothingLogged(data, maxBulkWriteSize);
      rest, count, pending := data, 0, [false, false];
      whole, start, prior, log := data, maxBulkWriteSize, kernel.log, [];
      r := Transfer();
      AgreedOutcome(whole, start, log, maxBulkWriteSize, rest, count, pending);
    }

    method Transfer() returns (r: int)
      requires Valid() && log == [] && pending == [false, false]
      modifies this, kernel
      ensures Valid() && whole == old(whole) && start == old(start) && prior == old(prior)
      ensures r == -1 <==> Fatal(start, log)
      ensures r != -1 ==> r == count && rest == [] && pending == [false, false]
    {
      var ok := SubmitUrb(0);
      if !ok {
        return -1;
      }
      while |rest| > 0
        invariant Valid() && !Fatal(start, log) && !pending[1]
        invariant whole == old(whole) && start == old(start) && prior == old(prior)
        decreases |rest|
      {
        ok := SubmitUrb(1);
        if !ok {
          return -1;
        }
        ok := ReapUrb(0);
        if !ok {
          return -1;
        }
        if |rest| == 0 {
          ok := ReapUrb(1);
          return if ok then count else -1;
        }
        ok := SubmitUrb(0);
        if !ok {
          return -1;
        }
        ok := ReapUrb(1);
        if !ok {
          return -1;
        }
      }
      ok := ReapUrb(0);
      return if ok then count else -1;
    }
  }

  lemma CountUp(n: nat, m: nat)
    ensures Wrap(Wrap(n) + m) == Wrap(n + m)
  {
  }

  /** Only the two slots are ever in flight. */
  lemma {:induction false} NothingElseInFlight(whole: seq<byte>, start: nat, log: seq<Event>, slot: nat)
    requires Proper(whole, start, log)
    ensures slot >= 2 ==> !InFlight(log, slot)
  {
    if log != [] {
      NothingElseInFlight(whole, start, log[..|log| - 1], slot);
    }
  }
}
