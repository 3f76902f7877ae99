/**
 Repair against a reason and against its form with spaces for underlines. The second pass
 can undo what the first one did; which reasons this can happen to is a matter of how
 the two forms overlap.
 */
module UnderlineRepair {
  import opened Bytes
  import opened BitErrors
  import opened BitCorrection

  const UNDERLINE: byte := 95
  const SPACE: byte := 32

  function Spaced(needle: seq<byte>): (r: seq<byte>)
    ensures |r| == |needle|
  {
    seq(|needle|, i requires 0 <= i < |needle| => if needle[i] == UNDERLINE then SPACE else needle[i])
  }

  /** One or two passes: the needle, and the needle with spaces for its underlines. */
  predicate Repaired(s: seq<byte>, needle: seq<byte>, ws: seq<nat>, mid: seq<byte>, vs: seq<nat>, r: seq<byte>) {
    && IsCorrection(s, needle, ws, mid)
    && if Spaced(needle) == needle then r == mid else IsCorrection(mid, Spaced(needle), vs, r)
  }

  // ----- Overlaps of the two forms

  /** `b`, shifted by `d` against `a`, is a fuzzy match of the end of `a` but not an exact one. */
  predicate NearShift(a: seq<byte>, b: seq<byte>, d: nat) {
    && 0 < d < |a| == |b|
    && Close(b[..|a| - d], 0, a[d..]) && b[..|a| - d] != a[d..]
  }

  /** Some shift brings one form near the other. */
  predicate Undoable(needle: seq<byte>) {
    exists d ::
      0 < d < |needle| && (NearShift(needle, Spaced(needle), d) || NearShift(Spaced(needle), needle, d))
  }

  lemma CloseTail(s: seq<byte>, pos: nat, needle: seq<byte>, d: nat)
    requires Close(s, pos, needle) && d <= |needle|
    ensures Close(s[pos + d..pos + |needle|], 0, needle[d..])
  {
    var t, n := s[pos + d..pos + |needle|], needle[d..];
    forall k | 0 <= k < |n|
      ensures Diff(t[0 + k], n[k]) <= 2 && Errors(t, 0, n, k) <= Allowed(|n| - k)
    {
      assert t[0 + k] == s[pos + (d + k)] && n[k] == needle[d + k];
      ErrorsAreFlips(t, 0, n, k);
      ErrorsAreFlips(s, pos, needle, d + k);
      assert t[0 + k..0 + |n|] == s[pos + (d + k)..pos + |needle|] && n[k..] == needle[d + k..];
    }
  }

  lemma UnderlineFar()
    ensures Diff(UNDERLINE, SPACE) == 7
  {
    assert Diff(5, 2) == 3;
    assert Diff(0x17, 8) == 2 + Diff(5, 2);
  }

  /** A needle with an underline is no fuzzy match of its form with spaces. */
  lemma FormsFar(s: seq<byte>, pos: nat, needle: seq<byte>)
    requires UNDERLINE in needle && pos + |needle| <= |s| && s[pos..pos + |needle|] == needle
    ensures !Close(s, pos, Spaced(needle))
  {
    var u :| 0 <= u < |needle| && needle[u] == UNDERLINE;
    UnderlineFar();
    assert s[pos + u] == s[pos..pos + |needle|][u] && Spaced(needle)[u] == SPACE;
    hide Diff;
    assert Diff(s[pos + u], Spaced(needle)[u]) == 7;
  }

  lemma SpacedSame(needle: seq<byte>)
    ensures Spaced(needle) == needle <==> UNDERLINE !in needle
  {
    if UNDERLINE in needle {
      var u :| 0 <= u < |needle| && needle[u] == UNDERLINE;
      assert Spaced(needle)[u] != needle[u];
    }
  }

  /** A position that a pass changed lies in one of its windows. */
  lemma ChangedInside(s: seq<byte>, needle: seq<byte>, ws: seq<nat>, r: seq<byte>, i: nat) returns (w: nat)
    requires IsCorrection(s, needle, ws, r) && i < |s| && |r| == |s| && r[i] != s[i]
    ensures w <= i < w + |needle| <= |s| && Close(s, w, needle) && r[w..w + |needle|] == needle
  {
    hide Close, Complete;
    if !Inside(needle, ws, i) {
      ApplyOutside(s, needle, ws, i);
    }
    var k :| 0 <= k < |ws| && ws[k] <= i < ws[k] + |needle|;
    w := ws[k];
    ApplyInside(s, needle, ws, k);
  }

  lemma SomeChange(s: seq<byte>, r: seq<byte>) returns (i: nat)
    requires |s| == |r| && s != r
    ensures i < |s| && s[i] != r[i]
  {
    if i :| 0 <= i < |s| && s[i] != r[i] {
      return i;
    }
  }

  /** If the second pass undoes the first, a shift brings the two forms near each other. */
  lemma UndoneIsUndoable(s: seq<byte>, needle: seq<byte>, ws: seq<nat>, mid: seq<byte>, vs: seq<nat>)
    requires UNDERLINE in needle && |mid| == |s| && mid != s
    requires IsCorrection(s, needle, ws, mid) && IsCorrection(mid, Spaced(needle), vs, s)
    ensures Undoable(needle)
  {
    hide IsCorrection, Close, Spaced;
    var i := SomeChange(s, mid);
    var w := ChangedInside(s, needle, ws, mid, i);
    var v := ChangedInside(mid, Spaced(needle), vs, s, i);
    if v == w {
      FormsFar(mid, w, needle);
    } else if v > w {
      OverlapNear(s, mid, needle, Spaced(needle), w, v, i);
    } else {
      OverlapNear(mid, s, Spaced(needle), needle, v, w, i);
    }
  }

  /** `s` is near `a` at `w` and holds `b` exactly at `v`, further right, where `t` holds `a`. */
  lemma OverlapNear(s: seq<byte>, t: seq<byte>, a: seq<byte>, b: seq<byte>, w: nat, v: nat, i: nat)
    requires |a| == |b| && |s| == |t| && w < v <= i < w + |a| && v + |a| <= |s|
    requires Close(s, w, a) && s[v..v + |a|] == b && t[w..w + |a|] == a && s[i] != t[i]
    ensures NearShift(a, b, v - w)
  {
    hide Close;
    var d := v - w;
    CloseTail(s, w, a, d);
    assert s[w + d..w + |a|] == s[v..v + |a|][..|a| - d];
    assert s[i] == s[v..v + |a|][i - v] == b[..|a| - d][i - v];
    assert t[i] == t[w..w + |a|][i - w] == a[d..][i - v];
  }

  /**
   Corrects against the needle and against its form with spaces. The result tells whether
   either pass changed its input. Unless a shift brings the two forms near each other, that
   is whether the string changed.
   */
  method CorrectForBitErrorOrUnderline(s: seq<byte>, needle: seq<byte>)
    returns (corrected: bool, r: seq<byte>, ghost ws: seq<nat>, ghost mid: seq<byte>, ghost vs: seq<nat>)
    requires needle != []
    ensures Repaired(s, needle, ws, mid, vs, r) && |r| == |s|
    ensures corrected <==> mid != s || r != mid
    ensures r != s ==> corrected
    ensures UNDERLINE !in needle || !Undoable(needle) ==> (corrected <==> r != s)
  {
    hide IsCorrection, Undoable;
    corrected, r, ws := CorrectForBitError(s, needle);
    KeepsLength(s, needle, ws, r);
    mid, vs := r, [];
    var spaced := Spaced(needle);
    if spaced != needle {
      SpacedSame(needle);
      var again;
      again, r, vs := CorrectForBitError(r, spaced);
      KeepsLength(mid, spaced, vs, r);
      corrected := corrected || again;
      if r == s && mid != s {
        UndoneIsUndoable(s, needle, ws, mid, vs);
      }
    }
  }

  lemma KeepsLength(s: seq<byte>, needle: seq<byte>, ws: seq<nat>, r: seq<byte>)
    requires IsCorrection(s, needle, ws, r)
    ensures |r| == |s|
  {
  }

  // ----- The other way round

  lemma AllowedMonotone(a: nat, b: nat)
    requires a <= b
    ensures Allowed(a) <= Allowed(b)
  {
    AllowedIs(a);
    AllowedIs(b);
  }

  lemma {:induction false} FlipsSymmetric(a: seq<byte>, b: seq<byte>)
    requires |a| == |b|
    ensures Flips(a, b) == Flips(b, a)
  {
    if a != [] {
      FlipsSymmetric(a[..|a| - 1], b[..|b| - 1]);
      BytesDiffer(a[|a| - 1], b[|b| - 1]);
    }
  }

  /** The errors behind an exact beginning. */
  lemma ErrorsBehindExact(front: seq<byte>, x: seq<byte>, y: seq<byte>, rest: seq<byte>, k: nat)
    requires |x| == |y| && k < |front + y|
    ensures var j := if k < |front| then 0 else k - |front|;
            Errors(front + x + rest, 0, front + y, k) == Errors(x, 0, y, j)
  {
    hide Diff, Errors, Flips;
    var s, n := front + x + rest, front + y;
    var j := if k < |front| then 0 else k - |front|;
    var lead := front[if k < |front| then k else |front|..];
    ErrorsAreFlips(s, 0, n, k);
    ErrorsAreFlips(x, 0, y, j);
    assert s[0 + k..0 + |n|] == lead + x[0 + j..0 + |y|] && n[k..] == lead + y[j..];
    FlipsAppend(lead, x[0 + j..0 + |y|], lead, y[j..]);
    NoFlips(lead);
  }

  /** An exact beginning before a fuzzy match makes a longer fuzzy match. */
  lemma CloseBehindExact(front: seq<byte>, x: seq<byte>, y: seq<byte>, rest: seq<byte>)
    requires |x| == |y| && y != [] && Close(x, 0, y)
    ensures Close(front + x + rest, 0, front + y)
  {
    hide Diff, Errors, Allowed;
    var s, n := front + x + rest, front + y;
    var d := |front|;
    forall k | 0 <= k < |n|
      ensures Diff(s[0 + k], n[k]) <= 2 && Errors(s, 0, n, k) <= Allowed(|n| - k)
    {
      ErrorsBehindExact(front, x, y, rest, k);
      var j := if k < d then 0 else k - d;
      assert Errors(x, 0, y, j) <= Allowed(|y| - j);
      AllowedMonotone(|y| - j, |n| - k);
      if k < d {
        DiffZero(s[k], n[k]);
      } else {
        assert s[0 + k] == x[0 + j] && n[k] == y[j];
      }
    }
  }

  /** The errors before an exact end, with the roles of the two strings exchanged. */
  lemma ErrorsBeforeExact(front: seq<byte>, x: seq<byte>, y: seq<byte>, end: seq<byte>, k: nat)
    requires |x| == |y| && k < |x + end|
    ensures Errors(front + y + end, |front|, x + end, k) == if k < |x| then Errors(x, 0, y, k) else 0
  {
    hide Diff, Errors, Flips;
    var s, n := front + y + end, x + end;
    var d := |front|;
    ErrorsAreFlips(s, d, n, k);
    if k < |x| {
      ErrorsAreFlips(x, 0, y, k);
      FlipsSymmetric(x[0 + k..0 + |y|], y[k..]);
      assert s[d + k..d + |n|] == y[k..] + end && n[k..] == x[0 + k..0 + |y|] + end;
      FlipsAppend(y[k..], end, x[0 + k..0 + |y|], end);
      NoFlips(end);
    } else {
      assert s[d + k..d + |n|] == end[k - |x|..] == n[k..];
      NoFlips(n[k..]);
    }
  }

  /** An exact end behind a fuzzy match makes a longer fuzzy match, the other form at its place. */
  lemma CloseBeforeExact(front: seq<byte>, x: seq<byte>, y: seq<byte>, end: seq<byte>)
    requires |x| == |y| && Close(x, 0, y)
    ensures Close(front + y + end, |front|, x + end)
  {
    hide Diff, Errors, Allowed;
    var s, n := front + y + end, x + end;
    var d := |front|;
    forall k | 0 <= k < |n|
      ensures Diff(s[d + k], n[k]) <= 2 && Errors(s, d, n, k) <= Allowed(|n| - k)
    {
      ErrorsBeforeExact(front, x, y, end, k);
      if k < |x| {
        assert s[d + k] == y[k] && n[k] == x[0 + k];
        BytesDiffer(x[k], y[k]);
        AllowedMonotone(|y| - k, |n| - k);
      } else {
        assert s[d + k] == end[k - |x|] == n[k];
        DiffZero(s[d + k], n[k]);
      }
    }
  }

  /** The string in which the two forms overlap. */
  function Overlapping(needle: seq<byte>, d: nat): (s: seq<byte>)
    requires d <= |needle|
  {
    needle[..d] + Spaced(needle)
  }

  /**
   The second pass undoes the first one if the needle, with the end of its other form behind
   it, has no fuzzy match of that form before the shift.
   */
  lemma ShiftUndoes(needle: seq<byte>, d: nat)
    requires UNDERLINE in needle && NearShift(needle, Spaced(needle), d)
    requires var mid := needle + Spaced(needle)[|needle| - d..];
             forall p :: 0 < p < d ==> !Close(mid, p, Spaced(needle))
    ensures var mid := needle + Spaced(needle)[|needle| - d..];
            var s := Overlapping(needle, d);
            mid != s && Repaired(s, needle, [0], mid, [d], s)
  {
    var n := |needle|;
    var sp := Spaced(needle);
    var s, mid := Overlapping(needle, d), needle + sp[n - d..];
    SpacedSame(needle);
    assert s[d..n] == sp[..n - d] && mid[d..n] == needle[d..];
    FirstPass(needle, sp, d);
    SecondPass(needle, sp, d);
  }

  lemma FirstPass(needle: seq<byte>, sp: seq<byte>, d: nat)
    requires NearShift(needle, sp, d)
    ensures IsCorrection(needle[..d] + sp, needle, [0], needle + sp[|needle| - d..])
  {
    var n := |needle|;
    var s := needle[..d] + sp;
    FirstWindow(needle, sp, d);
    hide Close, Overlay, NearShift;
    OneWindow(s, needle, 0);
    TooLong(s, needle);
    forall p | 0 <= p < |s| && Close(s, p, needle)
      ensures Inside(needle, [0], p)
    {
      assert [0][0] <= p < [0][0] + n;
    }
  }

  lemma FirstWindow(needle: seq<byte>, sp: seq<byte>, d: nat)
    requires NearShift(needle, sp, d)
    ensures var s := needle[..d] + sp;
            && Close(s, 0, needle) && |needle| <= |s| == d + |needle|
            && Overlay(s, 0, needle) == needle + sp[|needle| - d..]
  {
    hide Close;
    var n := |needle|;
    CloseBehindExact(needle[..d], sp[..n - d], needle[d..], sp[n - d..]);
    assert needle[..d] + sp[..n - d] + sp[n - d..] == needle[..d] + sp && needle[..d] + needle[d..] == needle;
  }

  lemma SecondPass(needle: seq<byte>, sp: seq<byte>, d: nat)
    requires UNDERLINE in needle && sp == Spaced(needle) && NearShift(needle, sp, d)
    requires var mid := needle + sp[|needle| - d..];
             forall p :: 0 < p < d ==> !Close(mid, p, sp)
    ensures IsCorrection(needle + sp[|needle| - d..], sp, [d], needle[..d] + sp)
  {
    var n := |needle|;
    var mid := needle + sp[n - d..];
    SecondWindow(needle, sp, d);
    hide Close, Overlay, Spaced, NearShift;
    OneWindow(mid, sp, d);
    TooLong(mid, sp);
    forall p | 0 <= p < |mid| && Close(mid, p, sp)
      ensures Inside(sp, [d], p)
    {
      assert [d][0] <= p < [d][0] + n;
    }
  }

  lemma SecondWindow(needle: seq<byte>, sp: seq<byte>, d: nat)
    requires UNDERLINE in needle && sp == Spaced(needle) && NearShift(needle, sp, d)
    ensures var mid := needle + sp[|needle| - d..];
            && Close(mid, d, sp) && !Close(mid, 0, sp) && d + |sp| <= |mid|
            && Overlay(mid, d, sp) == needle[..d] + sp
  {
    hide Close;
    var n := |needle|;
    var mid := needle + sp[n - d..];
    CloseBeforeExact(needle[..d], sp[..n - d], needle[d..], sp[n - d..]);
    assert needle[..d] + needle[d..] + sp[n - d..] == mid && sp[..n - d] + sp[n - d..] == sp;
    assert mid[0..0 + n] == needle;
    FormsFar(mid, 0, needle);
  }

  lemma OneWindow(s: seq<byte>, needle: seq<byte>, w: nat)
    requires Close(s, w, needle) && w + |needle| <= |s|
    ensures Windows(s, needle, [w]) && EndBy(needle, [w], |s|) && Apply(s, needle, [w]) == Overlay(s, w, needle)
  {
    hide Close;
    assert [w][..0] == [];
  }

  // ----- Entries of the tables

  const KERNEL_PANIC: seq<byte> := [107, 101, 114, 110, 101, 108, 95, 112, 97, 110, 105, 99]  // "kernel_panic"
  const HW_RESET: seq<byte> := [104, 119, 95, 114, 101, 115, 101, 116]                        // "hw_reset"

  /** One byte that differs in more than two bits is enough. */
  lemma FarAt(s: seq<byte>, pos: nat, needle: seq<byte>, k: nat)
    requires k < |needle| && pos + |needle| <= |s|
    requires DiffBits(s[pos + k], needle[k]) > 2
    ensures !Close(s, pos, needle)
  {
    hide Diff, Errors, Allowed;
    DiffIsBits(s[pos + k], needle[k]);
  }

  /**
   The one known reason with an underline can be undone: in "kernel_panikernel panic" the
   first pass makes the first k a c, and the second pass makes it a k again.
   */
  lemma KernelPanicUndone()
    ensures UNDERLINE in KERNEL_PANIC && Undoable(KERNEL_PANIC)
    ensures exists mid :: mid != Overlapping(KERNEL_PANIC, 11)
                          && Repaired(Overlapping(KERNEL_PANIC, 11), KERNEL_PANIC, [0], mid, [11],
                                      Overlapping(KERNEL_PANIC, 11))
  {
    assert KERNEL_PANIC[6] == UNDERLINE;
    var spaced: seq<byte> := [107, 101, 114, 110, 101, 108, 32, 112, 97, 110, 105, 99];
    assert Spaced(KERNEL_PANIC) == spaced;
    OneBitApart();
    assert spaced[..1] == [107] && KERNEL_PANIC[11..] == [99];
    hide Close;
    assert NearShift(KERNEL_PANIC, spaced, 11);
    NoNearerShift(spaced);
    ShiftUndoes(KERNEL_PANIC, 11);
  }

  lemma OneBitApart()
    ensures Close([107], 0, [99])
  {
    hide Diff, DiffBits;
    DiffIsBits(107, 99);
    OneBit();
    assert Errors([107], 0, [99], 1) == 0;
  }

  lemma OneBit()
    ensures DiffBits(107, 99) == 1
  {
  }

  lemma NoNearerShift(spaced: seq<byte>)
    requires spaced == [107, 101, 114, 110, 101, 108, 32, 112, 97, 110, 105, 99]
    ensures forall p :: 0 < p < 11 ==> !Close(KERNEL_PANIC + spaced[1..], p, spaced)
  {
    hide Close;
    var mid := KERNEL_PANIC + spaced[1..];
    forall p | 0 < p < 11
      ensures !Close(mid, p, spaced)
    {
      var k := [0, 0, 2, 0, 0, 0, 0, 1, 3, 2][p - 1];
      FarAt(mid, p, spaced, k);
    }
  }

  /** An entry of the reason map on the other side: whatever the text, nothing is undone. */
  lemma HwResetSafe()
    ensures UNDERLINE in HW_RESET && !Undoable(HW_RESET)
  {
    assert HW_RESET[2] == UNDERLINE;
    var spaced: seq<byte> := [104, 119, 32, 114, 101, 115, 101, 116];
    assert Spaced(HW_RESET) == spaced;
    hide Close;
    forall d | 0 < d < 8
      ensures !NearShift(HW_RESET, spaced, d) && !NearShift(spaced, HW_RESET, d)
    {
      FarShift(HW_RESET, spaced, d);
      FarShift(spaced, HW_RESET, d);
    }
  }

  lemma FarShift(a: seq<byte>, b: seq<byte>, d: nat)
    requires |a| == 8 && a == [104, 119, a[2], 114, 101, 115, 101, 116]
    requires |b| == 8 && b == [104, 119, b[2], 114, 101, 115, 101, 116]
    requires a[2] in {UNDERLINE, SPACE} && b[2] in {UNDERLINE, SPACE} && a[2] != b[2] && 0 < d < 8
    ensures !Close(b[..8 - d], 0, a[d..])
  {
    hide Close;
    var k := [5, 5, 3, 2, 2, 0, 0][d - 1];
    FarAt(b[..8 - d], 0, a[d..], k);
  }
}
