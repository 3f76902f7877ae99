/**
 Which mounts are moved out of the way of an overlay: the mount table is grouped by mount
 point, each group cut down to its last entry, and the submounts that are not below
 another chosen submount are taken in lexical order.
 */
module MountSelect {
  import opened Bytes
  import opened MountPaths

  /** A mounted filesystem; `fs` tells filesystems at the same path apart. */
  datatype Mount = Mount(path: Path, shared: bool, fs: nat)

  /** The entry mounted last at a path: the one that path resolution reaches. */
  function Top(table: seq<Mount>, p: Path): (m: Option<Mount>)
    ensures m.Some? ==> m.value in table && m.value.path == p
  {
    if table == [] then None
    else if table[|table| - 1].path == p then Some(table[|table| - 1])
    else Top(table[..|table| - 1], p)
  }

  lemma {:induction false} TopAppend(a: seq<Mount>, b: seq<Mount>, p: Path)
    ensures Top(a + b, p) == if Top(b, p).Some? then Top(b, p) else Top(a, p)
  {
    if b == [] {
      assert a + b == a;
    } else {
      assert (a + b)[..|a + b| - 1] == a + b[..|b| - 1];
      TopAppend(a, b[..|b| - 1], p);
    }
  }

  lemma {:induction false} TopIff(table: seq<Mount>, p: Path)
    ensures Top(table, p).Some? <==> exists i :: 0 <= i < |table| && table[i].path == p
  {
    if table != [] && table[|table| - 1].path != p {
      var front := table[..|table| - 1];
      TopIff(front, p);
      if i :| 0 <= i < |table| && table[i].path == p {
        assert front[i].path == p;
      }
    }
  }

  predicate Sorted(s: seq<Mount>) {
    forall i, j :: 0 <= i < j < |s| ==> !Before(s[j].path, s[i].path)
  }

  predicate StrictlySorted(s: seq<Mount>) {
    forall i, j :: 0 <= i < j < |s| ==> Before(s[i].path, s[j].path)
  }

  /** Inserts after every entry that does not come later: equal paths keep their order. */
  method InsertStable(s: seq<Mount>, e: Mount) returns (r: seq<Mount>)
    requires Sorted(s)
    ensures Sorted(r) && |r| == |s| + 1 && multiset(r) == multiset(s) + multiset{e}
    ensures forall p :: Top(r, p) == if p == e.path then Some(e) else Top(s, p)
  {
    var k := |s|;
    while k > 0 && Before(e.path, s[k - 1].path)
      invariant 0 <= k <= |s|
      invariant forall i :: k <= i < |s| ==> Before(e.path, s[i].path)
    {
      k := k - 1;
    }
    r := s[..k] + [e] + s[k..];
    InsertedSorted(s, e, k);
    InsertedTops(s, e, k);
    InsertedMultiset(s, e, k);
  }

  lemma InsertedSorted(s: seq<Mount>, e: Mount, k: nat)
    requires Sorted(s) && k <= |s|
    requires forall i :: k <= i < |s| ==> Before(e.path, s[i].path)
    requires k > 0 ==> !Before(e.path, s[k - 1].path)
    ensures Sorted(s[..k] + [e] + s[k..])
  {
    var r := s[..k] + [e] + s[k..];
    forall i, j | 0 <= i < j < |r|
      ensures !Before(r[j].path, r[i].path)
    {
      if j == k {
        NotBeforeTransitive(e.path, s[k - 1].path, s[i].path);
      } else if i == k {
        BeforeAsymmetric(e.path, r[j].path);
      } else {
        var i', j' := if i < k then i else i - 1, if j < k then j else j - 1;
        assert r[i] == s[i'] && r[j] == s[j'];
      }
    }
  }

  lemma BeforeAsymmetric(a: Path, b: Path)
    requires Before(a, b)
    ensures !Before(b, a)
  {
    if Before(b, a) {
      BeforeTransitive(a, b, a);
      BeforeIrreflexive(a);
    }
  }

  lemma NotBeforeTransitive(a: Path, b: Path, c: Path)
    requires !Before(a, b) && (b == c || !Before(b, c))
    ensures !Before(a, c)
  {
    if Before(a, c) {
      BeforeTotal(a, b);
      BeforeTotal(b, c);
      if a == b {
        assert false;
      } else if b == c {
        assert false;
      } else {
        BeforeTransitive(a, c, b);
      }
    }
  }

  lemma InsertedTops(s: seq<Mount>, e: Mount, k: nat)
    requires k <= |s|
    requires forall i :: k <= i < |s| ==> Before(e.path, s[i].path)
    ensures forall p :: Top(s[..k] + [e] + s[k..], p) == if p == e.path then Some(e) else Top(s, p)
  {
    forall p
      ensures Top(s[..k] + [e] + s[k..], p) == if p == e.path then Some(e) else Top(s, p)
    {
      TopAppend(s[..k] + [e], s[k..], p);
      TopAppend(s[..k], [e], p);
      TopAppend(s[..k], s[k..], p);
      assert s == s[..k] + s[k..];
      assert Top([e], p) == if p == e.path then Some(e) else None;
      if p == e.path {
        TopIff(s[k..], p);
        BeforeIrreflexive(p);
      }
    }
  }

  method StableSort(info: seq<Mount>) returns (r: seq<Mount>)
    ensures Sorted(r) && |r| == |info| && multiset(r) == multiset(info)
    ensures forall p :: Top(r, p) == Top(info, p)
  {
    r := [];
    for i := 0 to |info|
      invariant Sorted(r) && |r| == i && multiset(r) == multiset(info[..i])
      invariant forall p :: Top(r, p) == Top(info[..i], p)
    {
      assert info[..i + 1][..i] == info[..i] && info[..i + 1] == info[..i] + [info[i]];
      r := InsertStable(r, info[i]);
    }
    assert info[..|info|] == info;
  }

  /** Keeps the last entry of every group of equal paths. */
  method LastOfEach(s: seq<Mount>) returns (r: seq<Mount>)
    requires Sorted(s)
    ensures StrictlySorted(r) && |r| <= |s|
    ensures forall p :: Top(r, p) == Top(s, p)
  {
    r := [];
    var i := |s|;
    while i > 0
      invariant 0 <= i <= |s|
      invariant StrictlySorted(r) && |r| <= |s| - i
      invariant if i < |s| then r != [] && r[0].path == s[i].path else r == []
      invariant forall p :: Top(r, p) == Top(s[i..], p)
    {
      i := i - 1;
      var e := s[i];
      assert s[i..] == [e] + s[i + 1..];
      PrependTops(e, r, s[i + 1..]);
      if r == [] || r[0].path != e.path {
        PrependSorted(e, r);
        r := [e] + r;
      } else {
        TopIff(r, e.path);
      }
    }
    assert s[0..] == s;
  }

  lemma PrependTops(e: Mount, r: seq<Mount>, s: seq<Mount>)
    requires forall p :: Top(r, p) == Top(s, p)
    ensures forall p :: Top([e] + r, p) == Top([e] + s, p)
    ensures forall p :: Top([e] + s, p) == if Top(r, p).Some? then Top(r, p) else if p == e.path then Some(e) else None
  {
    forall p
      ensures Top([e] + r, p) == Top([e] + s, p)
      ensures Top([e] + s, p) == if Top(r, p).Some? then Top(r, p) else if p == e.path then Some(e) else None
    {
      TopAppend([e], r, p);
      TopAppend([e], s, p);
      assert Top([e], p) == if p == e.path then Some(e) else None;
    }
  }

  lemma PrependSorted(e: Mount, r: seq<Mount>)
    requires StrictlySorted(r)
    requires r != [] ==> r[0].path != e.path && !Before(r[0].path, e.path)
    ensures StrictlySorted([e] + r)
  {
    var x := [e] + r;
    forall i, j | 0 <= i < j < |x|
      ensures Before(x[i].path, x[j].path)
    {
      if i == 0 {
        BeforeTotal(e.path, r[0].path);
        if j > 1 {
          BeforeTransitive(e.path, r[0].path, x[j].path);
        }
      }
    }
  }

  /** The mount table grouped by mount point, only the last entry of each group kept. */
  method Condense(info: seq<Mount>) returns (r: seq<Mount>)
    ensures StrictlySorted(r) && |r| <= |info|
    ensures forall p :: Top(r, p) == Top(info, p)
  {
    var sorted := StableSort(info);
    r := LastOfEach(sorted);
  }

  /** There is only one such list. */
  lemma CondensedEntries(info: seq<Mount>, r: seq<Mount>)
    requires StrictlySorted(r) && forall p :: Top(r, p) == Top(info, p)
    ensures forall i :: 0 <= i < |r| ==> Top(info, r[i].path) == Some(r[i])
    ensures forall i :: 0 <= i < |info| ==> exists k :: 0 <= k < |r| && r[k].path == info[i].path
  {
    forall i | 0 <= i < |r|
      ensures Top(info, r[i].path) == Some(r[i])
    {
      TopIff(r, r[i].path);
      var m := Top(r, r[i].path).value;
      var k :| 0 <= k < |r| && r[k] == m;
      BeforeIrreflexive(r[i].path);
    }
    forall i | 0 <= i < |info|
      ensures exists k :: 0 <= k < |r| && r[k].path == info[i].path
    {
      TopIff(info, info[i].path);
      TopIff(r, info[i].path);
    }
  }

  // ----- Choosing the submounts to move

  predicate Covered(moved: seq<Mount>, p: Path) {
    exists k :: 0 <= k < |moved| && Covers(moved[k].path, p)
  }

  predicate Wanted(moved: seq<Mount>, mountPoint: Path, e: Mount) {
    Under(e.path, mountPoint) && !Covered(moved, e.path)
  }

  /**
   What comes of moving an entry out: it is passed over because its security context cannot
   be had, it fails, or it is done.
   */
  datatype Outcome = Skipped | Failed | Done

  /** The submounts moved out; `outs[i]` says what comes of moving entry `i`. */
  function Chosen(list: seq<Mount>, mountPoint: Path, outs: seq<Outcome>): (moved: seq<Mount>)
    requires |outs| == |list|
  {
    if list == [] then []
    else
      var n := |list| - 1;
      var moved := Chosen(list[..n], mountPoint, outs[..n]);
      if Wanted(moved, mountPoint, list[n]) && outs[n].Done? then moved + [list[n]] else moved
  }

  predicate Antichain(moved: seq<Mount>) {
    forall i, j :: 0 <= i < |moved| && 0 <= j < |moved| && i != j ==> Apart(moved[i].path, moved[j].path)
  }

  lemma {:induction false} ChosenFrom(list: seq<Mount>, mountPoint: Path, outs: seq<Outcome>)
    requires |outs| == |list|
    ensures forall m :: m in Chosen(list, mountPoint, outs) ==> m in list && Under(m.path, mountPoint)
  {
    if list != [] {
      var n := |list| - 1;
      ChosenFrom(list[..n], mountPoint, outs[..n]);
    }
  }

  /** Lexical order rules out that a chosen submount lies below one chosen later. */
  lemma {:induction false} ChosenAntichain(list: seq<Mount>, mountPoint: Path, outs: seq<Outcome>)
    requires |outs| == |list| && StrictlySorted(list)
    ensures Antichain(Chosen(list, mountPoint, outs))
  {
    if list != [] {
      var n := |list| - 1;
      var moved := Chosen(list[..n], mountPoint, outs[..n]);
      ChosenAntichain(list[..n], mountPoint, outs[..n]);
      if Wanted(moved, mountPoint, list[n]) && outs[n].Done? {
        ChosenFrom(list[..n], mountPoint, outs[..n]);
        forall i | 0 <= i < |moved|
          ensures Apart(moved[i].path, list[n].path)
        {
          var m := moved[i];
          assert m in list[..n];
          var k :| 0 <= k < n && list[k] == m;
          assert Before(m.path, list[n].path);
          BeforeIrreflexive(m.path);
          if Under(m.path, list[n].path) {
            UnderIsAfter(m.path, list[n].path);
            BeforeAsymmetric(m.path, list[n].path);
          }
        }
      }
    }
  }

  /** No entry that is to be moved out has this outcome. */
  predicate Never(list: seq<Mount>, mountPoint: Path, outs: seq<Outcome>, out: Outcome)
    requires |outs| == |list|
  {
    forall i :: 0 <= i < |list| && Wanted(Chosen(list[..i], mountPoint, outs[..i]), mountPoint, list[i]) ==>
                  outs[i] != out
  }

  predicate AllCovered(list: seq<Mount>, mountPoint: Path, moved: seq<Mount>) {
    forall i :: 0 <= i < |list| && Under(list[i].path, mountPoint) ==> Covered(moved, list[i].path)
  }

  lemma NeverPrefix(list: seq<Mount>, mountPoint: Path, outs: seq<Outcome>, out: Outcome)
    requires |outs| == |list| > 0 && Never(list, mountPoint, outs, out)
    ensures var n := |list| - 1; Never(list[..n], mountPoint, outs[..n], out)
  {
    hide Wanted, Chosen;
    var n := |list| - 1;
    forall i | 0 <= i < n && Wanted(Chosen(list[..n][..i], mountPoint, outs[..n][..i]), mountPoint, list[..n][i])
      ensures outs[..n][i] != out
    {
      assert list[..n][..i] == list[..i] && outs[..n][..i] == outs[..i];
    }
  }

  /** If every move works, each submount lies at or below a moved submount. */
  lemma {:induction false} ChosenCovers(list: seq<Mount>, mountPoint: Path, outs: seq<Outcome>)
    requires |outs| == |list| && Never(list, mountPoint, outs, Skipped) && Never(list, mountPoint, outs, Failed)
    ensures AllCovered(list, mountPoint, Chosen(list, mountPoint, outs))
  {
    if list != [] {
      var n := |list| - 1;
      var moved := Chosen(list[..n], mountPoint, outs[..n]);
      var more := Chosen(list, mountPoint, outs);
      NeverPrefix(list, mountPoint, outs, Skipped);
      NeverPrefix(list, mountPoint, outs, Failed);
      ChosenCovers(list[..n], mountPoint, outs[..n]);
      assert moved <= more;
      forall i | 0 <= i < |list| && Under(list[i].path, mountPoint)
        ensures Covered(more, list[i].path)
      {
        if i < n {
          assert list[..n][i] == list[i];
          var k :| 0 <= k < |moved| && Covers(moved[k].path, list[i].path);
          assert more[k] == moved[k];
        } else if Wanted(moved, mountPoint, list[n]) {
          assert more[|moved|] == list[n];
        } else {
          var k :| 0 <= k < |moved| && Covers(moved[k].path, list[i].path);
          assert more[k] == moved[k];
        }
      }
    }
  }

  /** Where a moved submount comes from, seen from entry `i`. */
  lemma {:induction false} ChosenLater(list: seq<Mount>, mountPoint: Path, outs: seq<Outcome>, i: nat, m: Mount)
    requires |outs| == |list| && i <= |list| && m in Chosen(list, mountPoint, outs)
    ensures || m in Chosen(list[..i], mountPoint, outs[..i])
            || exists k :: i <= k < |list| && outs[k] == Done && m == list[k]
  {
    var n := |list| - 1;
    if i == |list| {
      assert list[..i] == list && outs[..i] == outs;
    } else if m in Chosen(list[..n], mountPoint, outs[..n]) {
      ChosenLater(list[..n], mountPoint, outs[..n], i, m);
      assert list[..n][..i] == list[..i] && outs[..n][..i] == outs[..i];
      if m !in Chosen(list[..i], mountPoint, outs[..i]) {
        var k :| i <= k < n && outs[..n][k] == Done && m == list[..n][k];
        assert outs[k] == Done && m == list[k];
      }
    }
  }

  /** A submount that is to be moved out and is not lies below no moved submount. */
  lemma LeftUncovered(list: seq<Mount>, mountPoint: Path, outs: seq<Outcome>, i: nat)
    requires |outs| == |list| && StrictlySorted(list) && i < |list| && outs[i] != Done
    requires Wanted(Chosen(list[..i], mountPoint, outs[..i]), mountPoint, list[i])
    ensures !Covered(Chosen(list, mountPoint, outs), list[i].path)
  {
    var moved := Chosen(list, mountPoint, outs);
    forall k | 0 <= k < |moved|
      ensures !Covers(moved[k].path, list[i].path)
    {
      ChosenLater(list, mountPoint, outs, i, moved[k]);
      if moved[k] !in Chosen(list[..i], mountPoint, outs[..i]) {
        var l :| i <= l < |list| && outs[l] == Done && moved[k] == list[l];
        assert Before(list[i].path, list[l].path);
        BeforeIrreflexive(list[i].path);
        if Under(list[i].path, list[l].path) {
          UnderIsAfter(list[i].path, list[l].path);
          BeforeAsymmetric(list[i].path, list[l].path);
        }
      }
    }
  }

  lemma CoversExactly(list: seq<Mount>, mountPoint: Path, outs: seq<Outcome>)
    requires |outs| == |list| && StrictlySorted(list)
    ensures AllCovered(list, mountPoint, Chosen(list, mountPoint, outs))
            <==> Never(list, mountPoint, outs, Skipped) && Never(list, mountPoint, outs, Failed)
  {
    if Never(list, mountPoint, outs, Skipped) && Never(list, mountPoint, outs, Failed) {
      ChosenCovers(list, mountPoint, outs);
    } else {
      var i :| 0 <= i < |list| && Wanted(Chosen(list[..i], mountPoint, outs[..i]), mountPoint, list[i])
        && outs[i] != Done;
      LeftUncovered(list, mountPoint, outs, i);
      assert Under(list[i].path, mountPoint);
    }
  }

  predicate CoveredOnce(moved: seq<Mount>, p: Path) {
    && Covered(moved, p)
    && (forall k, l :: 0 <= k < |moved| && 0 <= l < |moved| && Covers(moved[k].path, p) && Covers(moved[l].path, p)
          ==> k == l)
  }

  lemma CoveredByAntichain(moved: seq<Mount>, p: Path)
    requires Antichain(moved) && Covered(moved, p)
    ensures CoveredOnce(moved, p)
  {
    forall k, l | 0 <= k < |moved| && 0 <= l < |moved| && Covers(moved[k].path, p) && Covers(moved[l].path, p)
      ensures k == l
    {
      CoversComparable(moved[k].path, moved[l].path, p);
    }
  }

  /**
   The moved submounts of a mount table form an antichain of top-most mounts below the mount
   point. Each submount is covered by exactly one of them, exactly when every submount that
   was to be moved out was.
   */
  lemma MovedSubmounts(info: seq<Mount>, list: seq<Mount>, mountPoint: Path, outs: seq<Outcome>)
    requires StrictlySorted(list) && (forall p :: Top(list, p) == Top(info, p)) && |outs| == |list|
    ensures var moved := Chosen(list, mountPoint, outs);
            && Antichain(moved)
            && (forall i :: 0 <= i < |moved| ==>
                  Under(moved[i].path, mountPoint) && Top(info, moved[i].path) == Some(moved[i]))
            && ((forall i :: 0 <= i < |info| && Under(info[i].path, mountPoint) ==> CoveredOnce(moved, info[i].path))
                <==> Never(list, mountPoint, outs, Skipped) && Never(list, mountPoint, outs, Failed))
  {
    var moved := Chosen(list, mountPoint, outs);
    ChosenAntichain(list, mountPoint, outs);
    ChosenFrom(list, mountPoint, outs);
    CondensedEntries(info, list);
    CoversExactly(list, mountPoint, outs);
    ListedCovered(info, list, mountPoint, moved);
    hide Top, Chosen, Antichain, AllCovered, CoveredOnce, Under, Never;
    forall i | 0 <= i < |moved|
      ensures Under(moved[i].path, mountPoint) && Top(info, moved[i].path) == Some(moved[i])
    {
      assert moved[i] in moved;
    }
  }

  /** A submount that is passed over is no failure, and lies below no moved submount. */
  lemma PassedOverStaysBehind() returns (table: seq<Mount>)
    ensures |table| == 1 && Under(table[0].path, "/vendor") && StrictlySorted(table)
    ensures Never(table, "/vendor", [Skipped], Failed) && Chosen(table, "/vendor", [Skipped]) == []
  {
    table := [Mount("/vendor/lib", false, 1)];
    assert "/vendor/lib"[..8] == "/vendor" + "/";
  }

  /** The condensed table has the same paths. */
  lemma ListedCovered(info: seq<Mount>, list: seq<Mount>, mountPoint: Path, moved: seq<Mount>)
    requires StrictlySorted(list) && (forall p :: Top(list, p) == Top(info, p)) && Antichain(moved)
    ensures (forall i :: 0 <= i < |info| && Under(info[i].path, mountPoint) ==> CoveredOnce(moved, info[i].path))
            <==> AllCovered(list, mountPoint, moved)
  {
    CondensedEntries(info, list);
    hide Under, Antichain, Covered, Before;
    if AllCovered(list, mountPoint, moved) {
      forall i | 0 <= i < |info| && Under(info[i].path, mountPoint)
        ensures CoveredOnce(moved, info[i].path)
      {
        var k :| 0 <= k < |list| && list[k].path == info[i].path;
        CoveredByAntichain(moved, list[k].path);
      }
    }
    if forall i :: 0 <= i < |info| && Under(info[i].path, mountPoint) ==> CoveredOnce(moved, info[i].path) {
      forall k | 0 <= k < |list| && Under(list[k].path, mountPoint)
        ensures Covered(moved, list[k].path)
      {
        TopIff(info, list[k].path);
        var i :| 0 <= i < |info| && info[i].path == list[k].path;
        assert CoveredOnce(moved, info[i].path);
      }
    }
  }
}
