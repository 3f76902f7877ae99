/**
 The two-cursor buffer behind vendor boot repacking: bytes are taken from an old buffer
 at one cursor and written to a zeroed new buffer of the same length at another.
 */
module DataUpdater {
  import opened Bytes

  datatype Op =
    | Copy(n: nat)
    | Replace(oldCount: nat, data: seq<byte>)
    | Skip(oldSkip: nat, newSkip: nat)
    | Seek(offset: nat)

  datatype Buffers = Buffers(newData: seq<byte>, oldPos: int, newPos: int)

  predicate InBounds(src: seq<byte>, b: Buffers) {
    && |b.newData| == |src|
    && 0 <= b.oldPos <= |src|
    && 0 <= b.newPos <= |src|
  }

  function Start(src: seq<byte>): (b: Buffers) {
    Buffers(Zeros(|src|), 0, 0)
  }

  /** One operation; a failing one may already have moved the old cursor. */
  function Do(src: seq<byte>, b: Buffers, op: Op): (r: (Buffers, bool))
    requires InBounds(src, b)
  {
    match op
    case Copy(n) =>
      if n == 0 then (b, true)
      else if b.oldPos + n > |src| || b.newPos + n > |src| then (b, false)
      else
        (Buffers(Overlay(b.newData, b.newPos, src[b.oldPos..b.oldPos + n]), b.oldPos + n, b.newPos + n), true)
    case Replace(oldCount, data) =>
      if b.oldPos + oldCount > |src| then (b, false)
      else
        var c := b.(oldPos := b.oldPos + oldCount);
        if data == [] then (c, true)
        else if b.newPos + |data| > |src| then (c, false)
        else (c.(newData := Overlay(b.newData, b.newPos, data), newPos := b.newPos + |data|), true)
    case Skip(oldSkip, newSkip) =>
      if b.oldPos + oldSkip > |src| then (b, false)
      else
        var c := b.(oldPos := b.oldPos + oldSkip);
        if b.newPos + newSkip > |src| then (c, false)
        else (c.(newPos := b.newPos + newSkip), true)
    case Seek(offset) =>
      if offset > |src| then (b, false) else (b.(oldPos := offset, newPos := offset), true)
  }

  function RunOps(src: seq<byte>, ops: seq<Op>): (b: Buffers)
    ensures InBounds(src, b)
  {
    if ops == [] then Start(src) else Do(src, RunOps(src, ops[..|ops| - 1]), ops[|ops| - 1]).0
  }

  /**
   Across every sequence of operations, failing ones included, both cursors stay within
   the image, the buffer keeps its length, and what lies beyond every position ever
   written is still zero.
   */
  lemma {:induction false} CursorsStayInside(src: seq<byte>, ops: seq<Op>, limit: nat)
    requires limit <= |src|
    requires forall k :: 0 <= k < |ops| ==> RunOps(src, ops[..k + 1]).newPos <= limit || ops[k].Seek?
    ensures InBounds(src, RunOps(src, ops))
    ensures RunOps(src, ops).newData[limit..] == Zeros(|src| - limit)
  {
    if ops != [] {
      var front := ops[..|ops| - 1];
      forall k | 0 <= k < |front|
        ensures RunOps(src, front[..k + 1]).newPos <= limit || front[k].Seek?
      {
        assert front[..k + 1] == ops[..k + 1] && front[k] == ops[k];
      }
      hide Do;
      CursorsStayInside(src, front, limit);
      assert ops[..|ops| - 1 + 1] == ops;
      KeepsRest(src, RunOps(src, front), ops[|ops| - 1], limit);
    }
  }

  lemma KeepsRest(src: seq<byte>, b: Buffers, op: Op, limit: nat)
    requires InBounds(src, b) && limit <= |src| && (Do(src, b, op).0.newPos <= limit || op.Seek?)
    ensures InBounds(src, Do(src, b, op).0) && Do(src, b, op).0.newData[limit..] == b.newData[limit..]
  {
    var c := Do(src, b, op).0;
    if c.newData != b.newData {
      assert c.newPos <= limit;
      assert c.newData[limit..] == b.newData[limit..];
    }
  }

  class DataUpdater {
    const oldData: seq<byte>
    var newData: seq<byte>
    var oldPos: int
    var newPos: int

    ghost function State(): (b: Buffers)
      reads this
    {
      Buffers(newData, oldPos, newPos)
    }

    ghost predicate Valid()
      reads this
    {
      InBounds(oldData, State())
    }

    /** Nothing has been written beyond the new cursor. */
    ghost predicate Clean()
      reads this
    {
      Valid() && newData[newPos..] == Zeros(|newData| - newPos)
    }

    ghost function Written(): (w: seq<byte>)
      requires Valid()
      reads this
    {
      newData[..newPos]
    }

    constructor (src: seq<byte>)
      ensures oldData == src && State() == Start(src)
      ensures Clean() && Written() == []
    {
      oldData, newData, oldPos, newPos := src, Zeros(|src|), 0, 0;
    }

    method Copy(n: nat) returns (ok: bool)
      requires Valid()
      modifies this
      ensures Valid() && (State(), ok) == Do(oldData, old(State()), Op.Copy(n))
      ensures ok <==> n == 0 || (old(oldPos) + n <= |oldData| && old(newPos) + n <= |oldData|)
      ensures ok ==> oldPos == old(oldPos) + n && newPos == old(newPos) + n
      ensures ok && old(Clean()) ==>
                Clean() && Written() == old(Written()) + oldData[old(oldPos)..old(oldPos) + n]
    {
      if n == 0 {
        return true;
      }
      if oldPos + n > |oldData| || newPos + n > |newData| {
        return false;
      }
      newData := Overlay(newData, newPos, oldData[oldPos..oldPos + n]);
      oldPos, newPos := oldPos + n, newPos + n;
      ok := true;
    }

    method Replace(oldCount: nat, data: seq<byte>) returns (ok: bool)
      requires Valid()
      modifies this
      ensures Valid() && (State(), ok) == Do(oldData, old(State()), Op.Replace(oldCount, data))
      ensures ok <==> old(oldPos) + oldCount <= |oldData| && old(newPos) + |data| <= |oldData|
      ensures ok ==> oldPos == old(oldPos) + oldCount && newPos == old(newPos) + |data|
      ensures ok && old(Clean()) ==> Clean() && Written() == old(Written()) + data
    {
      if oldPos + oldCount > |oldData| {
        return false;
      }
      oldPos := oldPos + oldCount;
      if data == [] {
        return true;
      }
      if newPos + |data| > |newData| {
        return false;
      }
      newData := Overlay(newData, newPos, data);
      newPos := newPos + |data|;
      ok := true;
    }

    method Skip(oldSkip: nat, newSkip: nat) returns (ok: bool)
      requires Valid()
      modifies this
      ensures Valid() && (State(), ok) == Do(oldData, old(State()), Op.Skip(oldSkip, newSkip))
      ensures ok <==> old(oldPos) + oldSkip <= |oldData| && old(newPos) + newSkip <= |oldData|
      ensures ok ==> oldPos == old(oldPos) + oldSkip && newPos == old(newPos) + newSkip
      ensures ok && old(Clean()) ==> Clean() && Written() == old(Written()) + Zeros(newSkip)
    {
      if oldPos + oldSkip > |oldData| {
        return false;
      }
      oldPos := oldPos + oldSkip;
      if newPos + newSkip > |newData| {
        return false;
      }
      ghost var tail := newData[newPos..];
      ghost var before := newData[..newPos];
      newPos := newPos + newSkip;
      assert newData[..newPos] == before + tail[..newSkip];
      assert newData[newPos..] == tail[newSkip..];
      ok := true;
    }

    method Seek(offset: nat) returns (ok: bool)
      requires Valid()
      modifies this
      ensures Valid() && (State(), ok) == Do(oldData, old(State()), Op.Seek(offset))
      ensures ok <==> offset <= |oldData|
      ensures newData == old(newData)
      ensures if ok then oldPos == newPos == offset else oldPos == old(oldPos) && newPos == old(newPos)
    {
      if offset > |oldData| {
        return false;
      }
      oldPos, newPos := offset, offset;
      ok := true;
    }

    /** Compares both cursors with expected offsets. */
    method CheckOffset(oldOffset: int, newOffset: int) returns (ok: bool)
      ensures ok <==> oldPos == oldOffset && newPos == newOffset
    {
      ok := oldPos == oldOffset && newPos == newOffset;
    }

    /** Overwrites bytes already written, as patching a header or a table entry does. */
    method Patch(at: nat, bytes: seq<byte>)
      requires Valid() && at + |bytes| <= newPos
      modifies this`newData
      ensures Valid()
      ensures Written() == Overlay(old(Written()), at, bytes)
      ensures old(Clean()) ==> Clean()
    {
      ghost var was := newData;
      newData := Overlay(newData, at, bytes);
      assert newData[newPos..] == was[newPos..];
      assert newData[..newPos] == Overlay(was[..newPos], at, bytes);
    }
  }
}
