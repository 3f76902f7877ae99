/** Replacing fuzzy matches of a known string by the string itself. */
module BitCorrection {
  import opened Bytes
  import opened BitErrors

  // ----- Corrected windows

  /** Disjoint fuzzy matches of the original string, in order. */
  predicate Windows(s: seq<byte>, needle: seq<byte>, ws: seq<nat>) {
    && (forall i :: 0 <= i < |ws| ==> Close(s, ws[i], needle))
    && (forall i, j :: 0 <= i < j < |ws| ==> ws[i] + |needle| <= ws[j])
  }

  predicate Inside(needle: seq<byte>, ws: seq<nat>, k: int) {
    exists i :: 0 <= i < |ws| && ws[i] <= k < ws[i] + |needle|
  }

  predicate EndBy(needle: seq<byte>, ws: seq<nat>, stop: int) {
    forall i :: 0 <= i < |ws| ==> ws[i] + |needle| <= stop
  }

  /** Every fuzzy match before `stop` begins in a window. */
  predicate Complete(s: seq<byte>, needle: seq<byte>, ws: seq<nat>, stop: int) {
    forall p :: 0 <= p < stop && Close(s, p, needle) ==> Inside(needle, ws, p)
  }

  /** The string with the needle in every window. */
  function Apply(s: seq<byte>, needle: seq<byte>, ws: seq<nat>): (r: seq<byte>)
    requires EndBy(needle, ws, |s|)
    ensures |r| == |s|
  {
    if ws == [] then s else Overlay(Apply(s, needle, ws[..|ws| - 1]), ws[|ws| - 1], needle)
  }

  lemma WindowsFit(s: seq<byte>, needle: seq<byte>, ws: seq<nat>)
    requires Windows(s, needle, ws)
    ensures EndBy(needle, ws, |s|)
  {
  }

  lemma WindowsPrefix(s: seq<byte>, needle: seq<byte>, ws: seq<nat>)
    requires Windows(s, needle, ws) && ws != []
    ensures Windows(s, needle, ws[..|ws| - 1])
    ensures EndBy(needle, ws[..|ws| - 1], ws[|ws| - 1])
  {
    hide Close;
  }

  lemma {:induction false} ApplyOutside(s: seq<byte>, needle: seq<byte>, ws: seq<nat>, k: nat)
    requires Windows(s, needle, ws) && k < |s| && !Inside(needle, ws, k)
    ensures Apply(s, needle, ws)[k] == s[k]
  {
    hide Close;
    if ws != [] {
      var n := |ws| - 1;
      WindowsPrefix(s, needle, ws);
      assert !Inside(needle, ws[..n], k);
      ApplyOutside(s, needle, ws[..n], k);
      assert !(ws[n] <= k < ws[n] + |needle|);
      WindowsFit(s, needle, ws);
      var r := Apply(s, needle, ws[..n]);
      assert Overlay(r, ws[n], needle)[k] == r[k];
    }
  }

  lemma {:induction false} ApplyInside(s: seq<byte>, needle: seq<byte>, ws: seq<nat>, i: nat)
    requires Windows(s, needle, ws) && i < |ws|
    ensures ws[i] + |needle| <= |s| && Apply(s, needle, ws)[ws[i]..ws[i] + |needle|] == needle
  {
    hide Close;
    var n := |ws| - 1;
    WindowsFit(s, needle, ws);
    WindowsPrefix(s, needle, ws);
    var r := Apply(s, needle, ws[..n]);
    if i < n {
      ApplyInside(s, needle, ws[..n], i);
      assert Overlay(r, ws[n], needle)[ws[i]..ws[i] + |needle|] == r[ws[i]..ws[i] + |needle|];
    }
  }

  /** What lies behind all windows is as it was. */
  lemma ApplyRest(s: seq<byte>, needle: seq<byte>, ws: seq<nat>, pos: nat)
    requires Windows(s, needle, ws) && pos <= |s| && EndBy(needle, ws, pos)
    ensures Apply(s, needle, ws)[pos..] == s[pos..]
  {
    WindowsFit(s, needle, ws);
    hide Close, Windows, Apply;
    var r := Apply(s, needle, ws);
    forall k | pos <= k < |s|
      ensures r[k] == s[k]
    {
      ApplyOutside(s, needle, ws, k);
    }
  }

  // ----- Matches depend on the window only

  lemma {:induction false} SameErrors(s: seq<byte>, r: seq<byte>, pos: nat, needle: seq<byte>, k: nat)
    requires |r| == |s| && pos + |needle| <= |s| && k <= |needle|
    requires forall i :: pos <= i < pos + |needle| ==> r[i] == s[i]
    ensures Errors(r, pos, needle, k) == Errors(s, pos, needle, k)
    decreases |needle| - k
  {
    if k < |needle| {
      SameErrors(s, r, pos, needle, k + 1);
    }
  }

  lemma SameClose(s: seq<byte>, r: seq<byte>, start: nat, pos: nat, needle: seq<byte>)
    requires |r| == |s| && start <= pos && start <= |s| && r[start..] == s[start..]
    ensures Close(r, pos, needle) <==> Close(s, pos, needle)
  {
    if pos + |needle| <= |s| {
      forall i | pos <= i < pos + |needle|
        ensures r[i] == s[i]
      {
        assert r[start..][i - start] == s[start..][i - start];
      }
      forall k | 0 <= k < |needle|
        ensures Errors(r, pos, needle, k) == Errors(s, pos, needle, k)
      {
        SameErrors(s, r, pos, needle, k);
      }
      hide Errors, Diff, Allowed;
    }
  }

  // ----- Bits that change

  function Flips(s: seq<byte>, r: seq<byte>): (n: nat)
    requires |s| == |r|
  {
    if s == [] then 0 else Flips(s[..|s| - 1], r[..|r| - 1]) + Diff(s[|s| - 1], r[|r| - 1])
  }

  lemma {:induction false} FlipsAppend(a: seq<byte>, b: seq<byte>, c: seq<byte>, d: seq<byte>)
    requires |a| == |c| && |b| == |d|
    ensures Flips(a + b, c + d) == Flips(a, c) + Flips(b, d)
  {
    hide Diff;
    if b == [] {
      assert a + b == a && c + d == c;
    } else {
      var n := |b| - 1;
      assert (a + b)[..|a| + n] == a + b[..n] && (c + d)[..|c| + n] == c + d[..n];
      FlipsAppend(a, b[..n], c, d[..n]);
    }
  }

  lemma {:induction false} NoFlips(s: seq<byte>)
    ensures Flips(s, s) == 0
  {
    if s != [] {
      NoFlips(s[..|s| - 1]);
      DiffZero(s[|s| - 1], s[|s| - 1]);
    }
  }

  lemma {:induction false} ErrorsAreFlips(s: seq<byte>, pos: nat, needle: seq<byte>, k: nat)
    requires pos + |needle| <= |s| && k <= |needle|
    ensures Errors(s, pos, needle, k) == Flips(s[pos + k..pos + |needle|], needle[k..])
    decreases |needle| - k
  {
    hide Diff;
    if k < |needle| {
      ErrorsAreFlips(s, pos, needle, k + 1);
      var a, b := [s[pos + k]], s[pos + k + 1..pos + |needle|];
      var c, d := [needle[k]], needle[k + 1..];
      assert s[pos + k..pos + |needle|] == a + b && needle[k..] == c + d;
      FlipsAppend(a, b, c, d);
      assert a[..0] == [] && c[..0] == [];
    }
  }

  lemma FlipsReplace(s: seq<byte>, r: seq<byte>, pos: nat, needle: seq<byte>)
    requires |s| == |r| && pos + |needle| <= |s| && r[pos..] == s[pos..]
    ensures Flips(s, Overlay(r, pos, needle)) == Flips(s, r) + Errors(s, pos, needle, 0)
  {
    hide Flips, Errors;
    var e := pos + |needle|;
    var b, t := s[pos..e], s[e..];
    CutInThree(s, r, pos, needle);
    ErrorsAreFlips(s, pos, needle, 0);
    assert s[pos + 0..e] == b && needle[0..] == needle;
    FlipsAppend(s[..pos] + b, t, r[..pos] + b, t);
    FlipsAppend(s[..pos], b, r[..pos], b);
    FlipsAppend(s[..pos] + b, t, r[..pos] + needle, t);
    FlipsAppend(s[..pos], b, r[..pos], needle);
    NoFlips(t);
    NoFlips(b);
  }

  lemma CutInThree(s: seq<byte>, r: seq<byte>, pos: nat, needle: seq<byte>)
    requires |s| == |r| && pos + |needle| <= |s| && r[pos..] == s[pos..]
    ensures var e := pos + |needle|;
            && s == s[..pos] + s[pos..e] + s[e..] && r == r[..pos] + s[pos..e] + s[e..]
            && Overlay(r, pos, needle) == r[..pos] + needle + s[e..]
  {
    var e := pos + |needle|;
    assert s[pos..] == s[pos..e] + s[e..] && r == r[..pos] + r[pos..];
    assert r[e..] == r[pos..][|needle|..] && s[e..] == s[pos..][|needle|..];
  }

  /** All windows together change at most as many bits as are allowed for each. */
  lemma {:induction false} FlipsBound(s: seq<byte>, needle: seq<byte>, ws: seq<nat>)
    requires Windows(s, needle, ws) && needle != []
    ensures EndBy(needle, ws, |s|)
    ensures Flips(s, Apply(s, needle, ws)) <= |ws| * Allowed(|needle|)
    ensures |ws| * |needle| <= if ws == [] then 0 else ws[|ws| - 1] + |needle|
  {
    WindowsFit(s, needle, ws);
    if ws == [] {
      NoFlips(s);
    } else {
      var n := |ws| - 1;
      WindowsPrefix(s, needle, ws);
      FlipsBound(s, needle, ws[..n]);
      ApplyRest(s, needle, ws[..n], ws[n]);
      assert Close(s, ws[n], needle);
      FlipsReplace(s, Apply(s, needle, ws[..n]), ws[n], needle);
      hide Flips, Errors, Windows, Allowed, Diff;
      Distribute(n, Allowed(|needle|));
      Distribute(n, |needle|);
      assert n > 0 ==> ws[..n][n - 1] == ws[n - 1];
    }
  }

  lemma Distribute(n: nat, a: nat)
    ensures (n + 1) * a == n * a + a
  {
  }

  // ----- The correction

  /** What a pass does: windows found greedily, each replaced by the needle. */
  predicate IsCorrection(s: seq<byte>, needle: seq<byte>, ws: seq<nat>, r: seq<byte>) {
    && Windows(s, needle, ws) && Complete(s, needle, ws, |s|)
    && EndBy(needle, ws, |s|) && r == Apply(s, needle, ws)
  }

  /** The loop state before position `pos`. */
  predicate Partly(s: seq<byte>, needle: seq<byte>, ws: seq<nat>, r: seq<byte>, pos: nat) {
    && Windows(s, needle, ws) && Complete(s, needle, ws, pos)
    && EndBy(needle, ws, |s|) && r == Apply(s, needle, ws)
    && pos <= |s| && r[pos..] == s[pos..]
    && EndBy(needle, ws, pos)
  }

  lemma NoMore(s: seq<byte>, needle: seq<byte>, ws: seq<nat>, r: seq<byte>, pos: nat)
    requires needle != [] && Partly(s, needle, ws, r, pos) && IsFirst(r, needle, pos, None)
    ensures IsCorrection(s, needle, ws, r)
  {
    hide Apply, Windows;
    forall p | 0 <= p < |s| && Close(s, p, needle)
      ensures Inside(needle, ws, p)
    {
      if p >= pos {
        SameClose(s, r, pos, p, needle);
      }
    }
  }

  lemma OneMore(s: seq<byte>, needle: seq<byte>, ws: seq<nat>, r: seq<byte>, pos: nat, found: nat)
    requires needle != [] && Partly(s, needle, ws, r, pos) && IsFirst(r, needle, pos, Some(found))
    ensures found + |needle| <= |s| == |r| && Close(s, found, needle) && found >= pos
    ensures Partly(s, needle, ws + [found], Overlay(r, found, needle), found + |needle|)
    ensures s[found..found + |needle|] == r[found..found + |needle|]
  {
    hide Close, Complete, Inside, Overlay, Apply, IsFirst, Windows, EndBy;
    FoundClose(s, needle, ws, r, pos, found);
    WindowsMore(s, needle, ws, found);
    CompleteMore(s, needle, ws, r, pos, found);
    SameSlice(s, r, pos, found, |needle|);
    ApplyRest(s, needle, ws + [found], found + |needle|);
  }

  lemma FoundClose(s: seq<byte>, needle: seq<byte>, ws: seq<nat>, r: seq<byte>, pos: nat, found: nat)
    requires Partly(s, needle, ws, r, pos) && IsFirst(r, needle, pos, Some(found))
    ensures Close(s, found, needle) && EndBy(needle, ws, found) && pos <= found
  {
    hide Close, Complete, Apply, Windows;
    SameClose(s, r, pos, found, needle);
  }

  lemma WindowsMore(s: seq<byte>, needle: seq<byte>, ws: seq<nat>, found: nat)
    requires Windows(s, needle, ws) && Close(s, found, needle)
    requires EndBy(needle, ws, found) && EndBy(needle, ws, |s|)
    ensures Windows(s, needle, ws + [found]) && found + |needle| <= |s|
    ensures EndBy(needle, ws + [found], found + |needle|) && EndBy(needle, ws + [found], |s|)
    ensures Apply(s, needle, ws + [found]) == Overlay(Apply(s, needle, ws), found, needle)
  {
    WindowsFit(s, needle, ws);
    assert found + |needle| <= |s|;
    hide Close, Overlay;
    assert (ws + [found])[..|ws|] == ws;
  }

  lemma SameSlice(s: seq<byte>, r: seq<byte>, start: nat, at: nat, n: nat)
    requires |r| == |s| && start <= at && at + n <= |s| && r[start..] == s[start..]
    ensures r[at..at + n] == s[at..at + n]
  {
    SliceSlice(s, start, |s|, at - start, at - start + n);
    SliceSlice(r, start, |s|, at - start, at - start + n);
    assert s[start..|s|] == s[start..] && r[start..|s|] == r[start..];
  }

  lemma CompleteMore(s: seq<byte>, needle: seq<byte>, ws: seq<nat>, r: seq<byte>, pos: nat, found: nat)
    requires needle != [] && Partly(s, needle, ws, r, pos) && IsFirst(r, needle, pos, Some(found))
    ensures Complete(s, needle, ws + [found], found + |needle|)
  {
    var vs := ws + [found];
    forall p | 0 <= p < found + |needle| && Close(s, p, needle)
      ensures Inside(needle, vs, p)
    {
      if p < pos {
        assert Inside(needle, ws, p);
        var i :| 0 <= i < |ws| && ws[i] <= p < ws[i] + |needle|;
        assert vs[i] == ws[i];
      } else {
        SameClose(s, r, pos, p, needle);
        assert vs[|ws|] == found;
      }
    }
  }

  lemma Changed(s: seq<byte>, needle: seq<byte>, r: seq<byte>, pos: nat)
    requires |r| == |s| && pos + |needle| <= |s| && s[pos..pos + |needle|] == r[pos..pos + |needle|]
    ensures s[pos..pos + |needle|] == needle ==> Overlay(r, pos, needle) == r
    ensures s[pos..pos + |needle|] != needle ==> Overlay(r, pos, needle) != s
  {
    assert Overlay(r, pos, needle)[pos..pos + |needle|] == needle;
  }

  /**
   Corrects every fuzzy match of the needle. The windows are the greedy ones of the original
   string, and the result tells whether the string changed.
   */
  method CorrectForBitError(s: seq<byte>, needle: seq<byte>) returns (corrected: bool, r: seq<byte>, ghost ws: seq<nat>)
    requires needle != []
    ensures IsCorrection(s, needle, ws, r)
    ensures corrected <==> r != s
  {
    hide IsCorrection, Partly, IsFirst, Overlay, Close;
    corrected, r, ws := false, s, [];
    StartPartly(s, needle);
    if |s| < |needle| {
      return;
    }
    var last := |s| - |needle|;
    var pos := 0;
    while pos <= last
      invariant 0 <= pos && |r| == |s| && Partly(s, needle, ws, r, pos)
      invariant corrected <==> r != s
      decreases last - pos
    {
      var found := Find(r, needle, pos);
      if found.None? {
        NoMore(s, needle, ws, r, pos);
        return;
      }
      OneMore(s, needle, ws, r, pos, found.value);
      Changed(s, needle, r, found.value);
      ws := ws + [found.value];
      if needle != r[found.value..found.value + |needle|] {
        corrected := true;
        r := Overlay(r, found.value, needle);
      }
      pos := found.value + |needle|;
    }
    PastEnd(r, needle, pos);
    NoMore(s, needle, ws, r, pos);
  }

  lemma StartPartly(s: seq<byte>, needle: seq<byte>)
    ensures Partly(s, needle, [], s, 0)
    ensures |s| < |needle| ==> IsCorrection(s, needle, [], s)
  {
    TooLong(s, needle);
  }

  lemma PastEnd(r: seq<byte>, needle: seq<byte>, pos: nat)
    requires pos > |r| - |needle|
    ensures IsFirst(r, needle, pos, None)
  {
  }

  // ----- What a correction is

  lemma {:induction false} SamePrefix(s: seq<byte>, needle: seq<byte>, ws: seq<nat>, vs: seq<nat>, n: nat)
    requires Windows(s, needle, ws) && Complete(s, needle, ws, |s|) && needle != []
    requires Windows(s, needle, vs) && Complete(s, needle, vs, |s|)
    requires n <= |ws|
    ensures n <= |vs| && forall j :: 0 <= j < n ==> ws[j] == vs[j]
  {
    hide Windows, Complete;
    if n > 0 {
      SamePrefix(s, needle, ws, vs, n - 1);
      NotBefore(s, needle, vs, ws, n - 1);
      NotBefore(s, needle, ws, vs, n - 1);
    }
  }

  /** Lists that agree so far: the next window of one cannot come before that of the other. */
  lemma NotBefore(s: seq<byte>, needle: seq<byte>, ws: seq<nat>, vs: seq<nat>, i: nat)
    requires Windows(s, needle, ws) && Complete(s, needle, ws, |s|) && needle != []
    requires Windows(s, needle, vs) && i < |vs| && i <= |ws| && forall j :: 0 <= j < i ==> ws[j] == vs[j]
    ensures i < |ws| && ws[i] <= vs[i]
  {
    hide Close;
    var p := vs[i];
    MatchInWindow(s, needle, ws, p);
    assert forall j :: 0 <= j < i ==> ws[j] + |needle| <= p by {
      assert forall j :: 0 <= j < i ==> ws[j] == vs[j];
    }
    hide Complete;
    assert Inside(needle, ws, p);
  }

  lemma MatchInWindow(s: seq<byte>, needle: seq<byte>, ws: seq<nat>, p: nat)
    requires Complete(s, needle, ws, |s|) && needle != []
    ensures Close(s, p, needle) ==> Inside(needle, ws, p)
  {
  }

  /** There is only one correction of a string. */
  lemma OneCorrection(s: seq<byte>, needle: seq<byte>, ws: seq<nat>, r: seq<byte>, vs: seq<nat>, q: seq<byte>)
    requires needle != [] && IsCorrection(s, needle, ws, r) && IsCorrection(s, needle, vs, q)
    ensures ws == vs && r == q
  {
    hide Windows, Complete, Apply;
    SamePrefix(s, needle, ws, vs, |ws|);
    SamePrefix(s, needle, vs, ws, |vs|);
  }

  /**
   A correction keeps the length, puts the needle into every window, changes nothing else,
   and changes at most two bits in a byte. For needles of more than two bytes it changes at
   most one bit a byte on average, in every window and in the whole string.
   */
  lemma CorrectionBounded(s: seq<byte>, needle: seq<byte>, ws: seq<nat>, r: seq<byte>)
    requires needle != [] && IsCorrection(s, needle, ws, r)
    ensures |r| == |s|
    ensures forall i :: 0 <= i < |ws| ==> r[ws[i]..ws[i] + |needle|] == needle
    ensures forall i :: 0 <= i < |ws| ==> Errors(s, ws[i], needle, 0) <= if |needle| > 2 then |needle| else |needle| + 1
    ensures forall k :: 0 <= k < |s| && !Inside(needle, ws, k) ==> r[k] == s[k]
    ensures forall k :: 0 <= k < |s| ==> Diff(s[k], r[k]) <= 2
    ensures |needle| > 2 ==> Flips(s, r) <= |s|
  {
    hide IsCorrection, Inside, Flips, Errors, Diff, Allowed;
    WholeBounded(s, needle, ws, r);
    forall i | 0 <= i < |ws|
      ensures r[ws[i]..ws[i] + |needle|] == needle
      ensures Errors(s, ws[i], needle, 0) <= if |needle| > 2 then |needle| else |needle| + 1
    {
      WindowBounded(s, needle, ws, r, i);
    }
    forall k | 0 <= k < |s|
      ensures !Inside(needle, ws, k) ==> r[k] == s[k]
      ensures Diff(s[k], r[k]) <= 2
    {
      ByteBounded(s, needle, ws, r, k);
    }
  }

  lemma WholeBounded(s: seq<byte>, needle: seq<byte>, ws: seq<nat>, r: seq<byte>)
    requires needle != [] && IsCorrection(s, needle, ws, r)
    ensures |r| == |s| && (forall i :: 0 <= i < |ws| ==> ws[i] + |needle| <= |s|)
    ensures |needle| > 2 ==> Flips(s, r) <= |s|
  {
    hide Apply, Complete, Flips, Allowed, Windows;
    AllowedIs(|needle|);
    FlipsBound(s, needle, ws);
  }

  lemma WindowBounded(s: seq<byte>, needle: seq<byte>, ws: seq<nat>, r: seq<byte>, i: nat)
    requires needle != [] && IsCorrection(s, needle, ws, r) && i < |ws|
    ensures ws[i] + |needle| <= |s| == |r| && r[ws[i]..ws[i] + |needle|] == needle && Close(s, ws[i], needle)
    ensures Errors(s, ws[i], needle, 0) <= if |needle| > 2 then |needle| else |needle| + 1
  {
    hide Apply, Complete, Errors, Allowed, Diff;
    assert Close(s, ws[i], needle);
    AllowedIs(|needle|);
    ApplyInside(s, needle, ws, i);
  }

  lemma ByteBounded(s: seq<byte>, needle: seq<byte>, ws: seq<nat>, r: seq<byte>, k: nat)
    requires needle != [] && IsCorrection(s, needle, ws, r) && k < |s| == |r|
    ensures !Inside(needle, ws, k) ==> r[k] == s[k]
    ensures Diff(s[k], r[k]) <= 2
  {
    hide Apply, Complete, Errors, Allowed, Diff, Windows;
    if Inside(needle, ws, k) {
      var i :| 0 <= i < |ws| && ws[i] <= k < ws[i] + |needle|;
      WindowBounded(s, needle, ws, r, i);
      var j := k - ws[i];
      assert r[ws[i]..ws[i] + |needle|][j] == needle[j];
      assert s[ws[i] + j] == s[k];
    } else {
      ApplyOutside(s, needle, ws, k);
      DiffZero(s[k], s[k]);
    }
  }
}
