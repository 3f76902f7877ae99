/**
 What mounting an overlay leaves as it was: the submounts that were moved, the rest of the
 namespace, and the number of mounts.
 */
module OverlayRestored {
  import opened Bytes
  import opened MountPaths
  import opened MountSelect
  import opened MountTable
  import opened OverlayMount

  // ----- Moved submounts

  lemma {:induction false} BackInPlace(a: Table, t: Table, moved: seq<Mount>, k: nat)
    requires AllOnTop(t, moved) && Antichain(moved) && k < |moved|
    ensures Top(a + Returned(t, moved), moved[k].path) == Some(moved[k])
    ensures Carried(a + Returned(t, moved), moved[k].path) == Carried(t, moved[k].path)
  {
    hide Carried, Top, Subtree, Apart, Returned;
    var n := |moved| - 1;
    var p := moved[k].path;
    var c := Carried(t, moved[n].path);
    CarriedIsSubtree(t, moved[n].path);
    ReturnedLast(t, moved);
    AppendAssoc(a, Returned(t, moved[..n]), c);
    if k == n {
      WholeSubtree(a + Returned(t, moved[..n]), c, p);
    } else {
      assert Apart(moved[n].path, p);
      BackInPlace(a, t, moved[..n], k);
      SubtreeNoneAt(c, moved[n].path, p);
      hide NoneAt;
      Beside(a + Returned(t, moved[..n]), c, p);
    }
  }

  lemma ReturnedLast(t: Table, moved: seq<Mount>)
    requires moved != []
    ensures var n := |moved| - 1;
            Returned(t, moved) == Returned(t, moved[..n]) + Carried(t, moved[n].path)
  {
  }

  lemma NotCoveringRoot(q: Path, mountPoint: Path)
    requires Under(q, mountPoint)
    ensures q != "/system" || mountPoint != "/system"
    ensures mountPoint == "/system" ==> q != "/" && !Covers(q, "/")
  {
  }

  // ----- The rest of the namespace

  lemma {:induction false} TopAfterLeft(t: Table, p: Path, q: Path)
    requires !Covers(p, q)
    ensures Top(Left(t, p), q) == Top(t, q)
  {
    if t != [] {
      var n := |t| - 1;
      if t[n].path != p {
        TopAfterLeft(t[..n], p, q);
        var l := Left(t[..n], p);
        if Under(t[n].path, p) {
          assert Left(t, p) == l;
        } else {
          assert Left(t, p) == l + [t[n]] && (l + [t[n]])[..|l|] == l;
        }
      }
    }
  }

  lemma {:induction false} TopAfterStay(t: Table, moved: seq<Mount>, q: Path)
    requires forall i :: 0 <= i < |moved| ==> !Covers(moved[i].path, q)
    ensures Top(Stay(t, moved), q) == Top(t, q)
  {
    if moved != [] {
      var n := |moved| - 1;
      TopAfterStay(t, moved[..n], q);
      TopAfterLeft(Stay(t, moved[..n]), moved[n].path, q);
    }
  }

  lemma {:induction false} TopShared(t: Table, p: Path, shared: bool)
    ensures Top(WithShared(t, p, shared), p)
            == if Top(t, p).Some? then Some(Top(t, p).value.(shared := shared)) else None
  {
    if t != [] {
      var n := |t| - 1;
      if t[n].path != p {
        TopShared(t[..n], p, shared);
        assert (WithShared(t[..n], p, shared) + [t[n]])[..n] == WithShared(t[..n], p, shared);
      }
    }
  }

  lemma TopOutside(t1: Table, t: Table, mountPoint: Path, over: Table, moved: seq<Mount>, stuck: Table,
                   kept: seq<Mount>, q: Path)
    requires forall i :: 0 <= i < |moved| ==> Under(moved[i].path, mountPoint)
    requires AllOnTop(t, kept) && forall i :: 0 <= i < |kept| ==> Under(kept[i].path, mountPoint)
    requires AllAt(over, mountPoint) && q != mountPoint && !Under(q, mountPoint) && NotAt(stuck, q)
    ensures Top(Stay(t1, moved) + stuck + over + Returned(t, kept), q) == Top(t1, q)
  {
    hide Stay, Returned;
    ReturnedUnder(t, kept, mountPoint);
    SharedBelow(Stay(t1, moved) + stuck + over, Returned(t, kept), q, true);
    SharedBelow(Stay(t1, moved) + stuck, over, q, true);
    SharedBelow(Stay(t1, moved), stuck, q, true);
    NotCoveredFromOutside(moved, mountPoint, q);
    TopAfterStay(t1, moved, q);
  }

  /** Nothing in the table is mounted at `q` itself. */
  predicate NotAt(t: Table, q: Path) {
    forall i :: 0 <= i < |t| ==> t[i].path != q
  }

  lemma NotCoveredFromOutside(moved: seq<Mount>, mountPoint: Path, q: Path)
    requires forall i :: 0 <= i < |moved| ==> Under(moved[i].path, mountPoint)
    requires !Under(q, mountPoint)
    ensures forall i :: 0 <= i < |moved| ==> !Covers(moved[i].path, q)
  {
    hide Under;
    forall i | 0 <= i < |moved|
      ensures !Covers(moved[i].path, q)
    {
      if Under(q, moved[i].path) {
        UnderTransitive(q, moved[i].path, mountPoint);
      }
    }
  }

  /** Restoring the propagation touches the mount point and the root only. */
  lemma PropagationElsewhere(t: Table, mountPoint: Path, fs: nat, moved: seq<Mount>, stuck: Table, kept: seq<Mount>,
                             mounted: bool, q: Path)
    requires q != mountPoint
    ensures var body := Replaced(t, mountPoint, fs, moved, stuck, kept, mounted);
            var x := Overlaid(t, mountPoint, fs, moved, stuck, kept, mounted);
            && (q != "/" || !Privatised(t, mountPoint).1 ==> Top(x, q) == Top(body, q))
            && (q == "/" && Privatised(t, mountPoint).1 && Top(body, q).Some? ==>
                  Top(x, q) == if SharedAt(t, "/") then Some(Top(body, q).value.(shared := true)) else Top(body, q))
            && (!Covers(q, mountPoint) && (Privatised(t, mountPoint).1 ==> !Covers(q, "/")) ==>
                  Carried(x, q) == Carried(body, q))
  {
    hide Top, WithShared, Replaced, Carried, SharedAt, ParentShared;
    var body := Replaced(t, mountPoint, fs, moved, stuck, kept, mounted);
    SharedElsewhere(body, mountPoint, true, q);
    var shared := if ParentShared(t, mountPoint) then WithShared(body, mountPoint, true) else body;
    SharedElsewhere(shared, "/", true, q);
    TopShared(shared, "/", true);
  }

  lemma OutsideUnchanged(t: Table, mountPoint: Path, fs: nat, moved: seq<Mount>, stuck: Table, kept: seq<Mount>,
                         mounted: bool, q: Path)
    requires forall i :: 0 <= i < |moved| ==> Under(moved[i].path, mountPoint)
    requires AllOnTop(t, kept) && forall i :: 0 <= i < |kept| ==> Under(kept[i].path, mountPoint)
    requires q != mountPoint && !Under(q, mountPoint) && NotAt(stuck, q)
    ensures Top(Overlaid(t, mountPoint, fs, moved, stuck, kept, mounted), q) == Top(t, q)
  {
    hide Top, WithShared, Stay, Returned, AllOnTop, Under, Overlaid, ParentShared, NotAt;
    TopOutside(Privatised(t, mountPoint).0, t, mountPoint, Over(mountPoint, fs, mounted), moved, stuck, kept, q);
    PropagationElsewhere(t, mountPoint, fs, moved, stuck, kept, mounted, q);
    SharedElsewhere(t, mountPoint, false, q);
    SharedElsewhere(t, "/", false, q);
    TopShared(t, "/", false);
  }

  // ----- Conservation

  /** The same file system at the same path, whatever the propagation. */
  function One(e: Mount, m: Mount): (n: nat) {
    if e.path == m.path && e.fs == m.fs then 1 else 0
  }

  /** How often the file system of `m` is mounted at the path of `m`. */
  function Count(t: Table, m: Mount): (n: nat) {
    if t == [] then 0 else Count(t[..|t| - 1], m) + One(t[|t| - 1], m)
  }

  lemma CountSnoc(t: Table, e: Mount, m: Mount)
    ensures Count(t + [e], m) == Count(t, m) + One(e, m)
  {
    assert (t + [e])[..|t|] == t;
  }

  lemma {:induction false} CountAppend(a: Table, b: Table, m: Mount)
    ensures Count(a + b, m) == Count(a, m) + Count(b, m)
  {
    if b == [] {
      assert a + b == a;
    } else {
      var n := |b| - 1;
      assert (a + b)[..|a + b| - 1] == a + b[..n];
      CountAppend(a, b[..n], m);
    }
  }

  lemma {:induction false} CountShared(t: Table, p: Path, shared: bool, m: Mount)
    ensures Count(WithShared(t, p, shared), m) == Count(t, m)
  {
    if t != [] {
      var n := |t| - 1;
      if t[n].path == p {
        CountSnoc(t[..n], t[n].(shared := shared), m);
      } else {
        CountShared(t[..n], p, shared, m);
        CountSnoc(WithShared(t[..n], p, shared), t[n], m);
      }
    }
  }

  /** A move takes a part of the table away and leaves the rest. */
  lemma {:induction false} Parted(t: Table, p: Path, m: Mount)
    ensures Count(t, m) == Count(Left(t, p), m) + Count(Carried(t, p), m)
  {
    if t != [] {
      var n := |t| - 1;
      var l, c := Left(t[..n], p), Carried(t[..n], p);
      if t[n].path == p {
        assert [t[n]][..0] == [];
      } else {
        Parted(t[..n], p, m);
        CountSnoc(l, t[n], m);
        CountSnoc(c, t[n], m);
        assert c + [] == c && l + [] == l;
      }
    }
  }

  lemma AntichainRest(moved: seq<Mount>)
    requires Antichain(moved) && moved != []
    ensures var n := |moved| - 1;
            Antichain(moved[..n]) && forall i :: 0 <= i < n ==> Apart(moved[..n][i].path, moved[n].path)
  {
    hide Apart;
  }

  lemma {:induction false} StayAndReturned(t: Table, moved: seq<Mount>, m: Mount)
    requires Antichain(moved)
    ensures Count(t, m) == Count(Stay(t, moved), m) + Count(Returned(t, moved), m)
  {
    if moved != [] {
      var n := |moved| - 1;
      var rest, p := moved[..n], moved[n].path;
      AntichainRest(moved);
      assert Returned(t, moved) == Returned(t, rest) + Carried(t, p) && Stay(t, moved) == Left(Stay(t, rest), p);
      hide Count, Stay, Returned, Apart, Carried, Left, Antichain;
      StayAndReturned(t, rest, m);
      Parted(Stay(t, rest), p, m);
      StayLeaves(t, rest, p);
      CountAppend(Returned(t, rest), Carried(t, p), m);
    }
  }

  /** How the overlay counts. */
  function Extra(mountPoint: Path, fs: nat, mounted: bool, m: Mount): (n: nat) {
    if mounted && m.path == mountPoint && m.fs == fs then 1 else 0
  }

  lemma CountOver(mountPoint: Path, fs: nat, mounted: bool, m: Mount)
    ensures Count(Over(mountPoint, fs, mounted), m) == Extra(mountPoint, fs, mounted, m)
  {
    if mounted {
      CountSnoc([], Mount(mountPoint, false, fs), m);
      assert [] + [Mount(mountPoint, false, fs)] == [Mount(mountPoint, false, fs)];
    }
  }

  /** How often a mount is there afterwards. */
  lemma CountAfter(t: Table, mountPoint: Path, fs: nat, moved: seq<Mount>, stuck: Table, kept: seq<Mount>,
                   mounted: bool, m: Mount)
    requires Antichain(moved) && forall i :: 0 <= i < |moved| ==> Under(moved[i].path, mountPoint)
    ensures Count(Overlaid(t, mountPoint, fs, moved, stuck, kept, mounted), m) + Count(Returned(t, moved), m)
            == Count(t, m) + Extra(mountPoint, fs, mounted, m) + Count(stuck, m) + Count(Returned(t, kept), m)
  {
    hide Count, Stay, Returned, WithShared, Top, Under, ParentShared, SharedAt, Over, Extra;
    var t1, over := Privatised(t, mountPoint).0, Over(mountPoint, fs, mounted);
    CountShared(t, mountPoint, false, m);
    CountShared(t, "/", false, m);
    assert Count(t1, m) == Count(t, m);
    StayAndReturned(t1, moved, m);
    PrivatisedReturned(t, mountPoint, moved);
    CountAppend(Stay(t1, moved) + stuck + over, Returned(t, kept), m);
    CountAppend(Stay(t1, moved) + stuck, over, m);
    CountAppend(Stay(t1, moved), stuck, m);
    CountOver(mountPoint, fs, mounted, m);
    var body := Replaced(t, mountPoint, fs, moved, stuck, kept, mounted);
    CountShared(body, mountPoint, true, m);
    CountShared(body, "/", true, m);
    CountShared(WithShared(body, mountPoint, true), "/", true, m);
  }

  /** If every submount came back none is stuck. */
  lemma {:induction false} AllBack(t: Table, moved: seq<Mount>, dirs: seq<Path>, back: seq<bool>, j: nat)
    requires AllOnTop(t, moved) && |moved| <= |dirs| && j <= |moved| && j <= |back|
    requires forall k :: 0 <= k < j ==> back[k]
    ensures Stuck(t, moved, dirs, back, j) == [] && Kept(moved, back, j) == moved[..j]
  {
    hide AllOnTop, ParkedAt;
    if j > 0 {
      AllBack(t, moved, dirs, back, j - 1);
      assert moved[..j] == moved[..j - 1] + [moved[j - 1]];
    }
  }

  /** A submount that is stuck is missing among those that came back. */
  lemma {:induction false} FewerKept(t: Table, moved: seq<Mount>, back: seq<bool>, j: nat, k: nat)
    requires AllOnTop(t, moved) && j <= |moved| && j <= |back| && k < |moved| && k < |back|
    ensures Count(Returned(t, Kept(moved, back, j)), moved[k]) + (if k < j && !back[k] then 1 else 0)
            <= Count(Returned(t, moved[..j]), moved[k])
  {
    hide Returned, Count, Carried, AllOnTop, Kept, Top;
    if j > 0 {
      var m, here := moved[k], Carried(t, moved[j - 1].path);
      FewerKept(t, moved, back, j - 1, k);
      OneMore(t, moved, back, j);
      if k == j - 1 {
        OnTop(t, moved, k);
        CarriedCounts(t, m);
      }
      CountAppend(Returned(t, moved[..j - 1]), here, m);
      CountAppend(Returned(t, Kept(moved, back, j - 1)), here, m);
    } else {
      NothingBack(t, moved, back);
    }
  }

  lemma NothingBack(t: Table, moved: seq<Mount>, back: seq<bool>)
    ensures Kept(moved, back, 0) == moved[..0]
  {
  }

  lemma OnTop(t: Table, moved: seq<Mount>, k: nat)
    requires AllOnTop(t, moved) && k < |moved|
    ensures Top(t, moved[k].path) == Some(moved[k])
  {
  }

  lemma OneMore(t: Table, moved: seq<Mount>, back: seq<bool>, j: nat)
    requires 0 < j <= |moved| && j <= |back|
    ensures Returned(t, moved[..j]) == Returned(t, moved[..j - 1]) + Carried(t, moved[j - 1].path)
    ensures Returned(t, Kept(moved, back, j))
            == if back[j - 1] then Returned(t, Kept(moved, back, j - 1)) + Carried(t, moved[j - 1].path)
               else Returned(t, Kept(moved, back, j - 1))
  {
    hide Returned, Carried;
    assert moved[..j] == moved[..j - 1] + [moved[j - 1]];
    assert Kept(moved, back, j - 1) + [] == Kept(moved, back, j - 1);
    ReturnedMore(t, moved[..j - 1], moved[j - 1]);
    ReturnedMore(t, Kept(moved, back, j - 1), moved[j - 1]);
  }

  lemma CarriedCounts(t: Table, m: Mount)
    requires Top(t, m.path) == Some(m)
    ensures Count(Carried(t, m.path), m) >= 1
  {
    CarriedIsSubtree(t, m.path);
    hide Carried, Top;
    var c := Carried(t, m.path);
    assert c == [m] + c[1..];
    CountAppend([m], c[1..], m);
    assert [m][..0] == [];
  }

  lemma {:induction false} NoneCounted(t: Table, m: Mount)
    requires NotAt(t, m.path)
    ensures Count(t, m) == 0
  {
    if t != [] {
      NoneCounted(t[..|t| - 1], m);
    }
  }

  /** Subtrees that are stuck lie in their temporary directories. */
  lemma {:induction false} StuckNotAt(t: Table, moved: seq<Mount>, dirs: seq<Path>, back: seq<bool>, j: nat, q: Path)
    requires AllOnTop(t, moved) && |moved| <= |dirs| && j <= |moved| && j <= |back|
    requires forall k :: 0 <= k < j && !back[k] ==> !Covers(dirs[k], q)
    ensures NotAt(Stuck(t, moved, dirs, back, j), q)
  {
    hide AllOnTop, ParkedAt, Covers;
    if j > 0 {
      StuckNotAt(t, moved, dirs, back, j - 1, q);
      if !back[j - 1] {
        SubtreeNotAt(ParkedAt(t, moved, dirs, j - 1), dirs[j - 1], q);
      }
    }
  }

  lemma SubtreeNotAt(c: Table, p: Path, q: Path)
    requires Subtree(c, p) && !Covers(p, q)
    ensures NotAt(c, q)
  {
  }

  /** No mount is lost or duplicated exactly when every moved submount came back. */
  lemma NoneLost(t: Table, mountPoint: Path, fs: nat, moved: seq<Mount>, dirs: seq<Path>, back: seq<bool>,
                 mounted: bool)
    requires FreshDirs(t, mountPoint, dirs) && |moved| <= |dirs| && |moved| <= |back| && AllOnTop(t, moved)
    requires Antichain(moved) && forall i :: 0 <= i < |moved| ==> Under(moved[i].path, mountPoint)
    ensures var x := Overlaid(t, mountPoint, fs, moved, Stuck(t, moved, dirs, back, |moved|),
                              Kept(moved, back, |moved|), mounted);
            (forall m :: Count(x, m) == Count(t, m) + Extra(mountPoint, fs, mounted, m))
            <==> forall k :: 0 <= k < |moved| ==> back[k]
  {
    hide Count, Overlaid, Stuck, Kept, Returned, Extra, Under, AllOnTop, Antichain, FreshDirs;
    var n := |moved|;
    var stuck, kept := Stuck(t, moved, dirs, back, n), Kept(moved, back, n);
    var x := Overlaid(t, mountPoint, fs, moved, stuck, kept, mounted);
    if forall k :: 0 <= k < n ==> back[k] {
      AllBack(t, moved, dirs, back, n);
      assert moved[..n] == moved;
      forall m
        ensures Count(x, m) == Count(t, m) + Extra(mountPoint, fs, mounted, m)
      {
        CountAfter(t, mountPoint, fs, moved, stuck, kept, mounted, m);
        CountNothing(m);
      }
    } else {
      var k :| 0 <= k < n && !back[k];
      OneLost(t, mountPoint, fs, moved, dirs, back, mounted, k);
    }
  }

  lemma CountNothing(m: Mount)
    ensures Count([], m) == 0
  {
  }

  lemma OneLost(t: Table, mountPoint: Path, fs: nat, moved: seq<Mount>, dirs: seq<Path>, back: seq<bool>,
                mounted: bool, k: nat)
    requires FreshDirs(t, mountPoint, dirs) && |moved| <= |dirs| && |moved| <= |back| && AllOnTop(t, moved)
    requires Antichain(moved) && forall i :: 0 <= i < |moved| ==> Under(moved[i].path, mountPoint)
    requires k < |moved| && !back[k]
    ensures var x := Overlaid(t, mountPoint, fs, moved, Stuck(t, moved, dirs, back, |moved|),
                              Kept(moved, back, |moved|), mounted);
            Count(x, moved[k]) < Count(t, moved[k]) + Extra(mountPoint, fs, mounted, moved[k])
  {
    hide Count, Overlaid, Stuck, Kept, Returned, Extra, Under, Antichain, FreshDirs, NotAt, Top, Apart;
    var n, m := |moved|, moved[k];
    var stuck, kept := Stuck(t, moved, dirs, back, n), Kept(moved, back, n);
    CountAfter(t, mountPoint, fs, moved, stuck, kept, mounted, m);
    FewerKept(t, moved, back, n, k);
    assert moved[..n] == moved;
    forall i | 0 <= i < n && !back[i]
      ensures !Covers(dirs[i], m.path)
    {
      SubmountApartFromDir(t, mountPoint, dirs, i, m.path);
      ApartMeans(dirs[i], m.path);
    }
    StuckNotAt(t, moved, dirs, back, n, m.path);
    NoneCounted(stuck, m);
  }

  lemma ApartMeans(a: Path, b: Path)
    requires Apart(a, b)
    ensures !Covers(a, b) && !Covers(b, a)
  {
  }

  // ----- The outcome

  lemma UnderNotCovering(q: Path, mountPoint: Path)
    requires Under(q, mountPoint)
    ensures q != mountPoint && !Covers(q, mountPoint)
  {
    UnderIsAfter(q, mountPoint);
    if Under(mountPoint, q) {
      UnderIsAfter(mountPoint, q);
      BeforeAsymmetric(mountPoint, q);
    }
  }

  lemma MovedRestored(t: Table, mountPoint: Path, fs: nat, moved: seq<Mount>, stuck: Table, kept: seq<Mount>,
                      mounted: bool, k: nat)
    requires AllOnTop(t, kept) && Antichain(kept) && k < |kept| && Under(kept[k].path, mountPoint)
    ensures var x := Overlaid(t, mountPoint, fs, moved, stuck, kept, mounted);
            Top(x, kept[k].path) == Some(kept[k]) && Carried(x, kept[k].path) == Carried(t, kept[k].path)
  {
    hide Top, WithShared, Stay, Returned, AllOnTop, Carried, Covers, Antichain, Under, Overlaid, ParentShared;
    BackInPlace(Stay(Privatised(t, mountPoint).0, moved) + stuck + Over(mountPoint, fs, mounted), t, kept, k);
    NotCoveringRoot(kept[k].path, mountPoint);
    UnderNotCovering(kept[k].path, mountPoint);
    PropagationElsewhere(t, mountPoint, fs, moved, stuck, kept, mounted, kept[k].path);
  }

  // ----- Submounts that could not be moved back

  /** In a row of stuck subtrees each is found whole. */
  lemma {:induction false} StuckInRow(a: Table, t: Table, mountPoint: Path, moved: seq<Mount>, dirs: seq<Path>,
                                      back: seq<bool>,
                                      j: nat, k: nat)
    requires FreshDirs(t, mountPoint, dirs) && AllOnTop(t, moved) && |moved| <= |dirs| && k < j <= |moved|
    requires j <= |back| && !back[k]
    ensures var here := ParkedAt(t, moved, dirs, k);
            var x := a + Stuck(t, moved, dirs, back, j);
            here != [] && Top(x, dirs[k]) == Some(here[0]) && Carried(x, dirs[k]) == here
    decreases j
  {
    hide FreshDirs, AllOnTop, ParkedAt, Stuck, Top, Carried, Apart, NoneAt;
    var before, here := Stuck(t, moved, dirs, back, j - 1), ParkedAt(t, moved, dirs, j - 1);
    FreshNone(t, mountPoint, dirs, k);
    StuckLast(t, moved, dirs, back, j);
    AppendAssoc(a, before, here);
    if k == j - 1 {
      WholeSubtree(a + before, here, dirs[k]);
    } else {
      StuckInRow(a, t, mountPoint, moved, dirs, back, j - 1, k);
      SubtreeNoneAt(here, dirs[j - 1], dirs[k]);
      Beside(a + before, here, dirs[k]);
    }
  }

  lemma StuckLast(t: Table, moved: seq<Mount>, dirs: seq<Path>, back: seq<bool>, j: nat)
    requires AllOnTop(t, moved) && |moved| <= |dirs| && 0 < j <= |moved| && j <= |back|
    ensures Stuck(t, moved, dirs, back, j)
            == if back[j - 1] then Stuck(t, moved, dirs, back, j - 1)
               else Stuck(t, moved, dirs, back, j - 1) + ParkedAt(t, moved, dirs, j - 1)
    ensures Subtree(ParkedAt(t, moved, dirs, j - 1), dirs[j - 1])
  {
    assert Stuck(t, moved, dirs, back, j - 1) + [] == Stuck(t, moved, dirs, back, j - 1);
  }

  lemma DirNotRoot(t: Table, mountPoint: Path, dirs: seq<Path>, k: nat)
    requires FreshDirs(t, mountPoint, dirs) && k < |dirs|
    ensures dirs[k] != mountPoint && !Covers(dirs[k], mountPoint)
    ensures Privatised(t, mountPoint).1 ==> dirs[k] != "/" && !Covers(dirs[k], "/")
  {
    if Privatised(t, mountPoint).1 {
      TopIff(t, "/");
      var i :| 0 <= i < |t| && t[i].path == "/";
      assert !Covers(dirs[k], t[i].path);
    }
  }

  /** Such a submount is whole in its temporary directory, its top private. */
  lemma StuckFound(t: Table, mountPoint: Path, fs: nat, moved: seq<Mount>, dirs: seq<Path>, back: seq<bool>,
                   mounted: bool, k: nat)
    requires FreshDirs(t, mountPoint, dirs) && |moved| <= |dirs| && |moved| <= |back| && AllOnTop(t, moved)
    requires forall i :: 0 <= i < |moved| ==> Under(moved[i].path, mountPoint)
    requires k < |moved| && !back[k]
    ensures var x := Overlaid(t, mountPoint, fs, moved, Stuck(t, moved, dirs, back, |moved|),
                              Kept(moved, back, |moved|), mounted);
            var here := ParkedAt(t, moved, dirs, k);
            here != [] && Top(x, dirs[k]) == Some(here[0]) && Carried(x, dirs[k]) == here
  {
    hide Top, Carried, Stay, Stuck, Kept, Returned, Under, AllOnTop, FreshDirs, ParkedAt, Overlaid, Privatised,
         Covers, NoneAt;
    var n, t1 := |moved|, Privatised(t, mountPoint).0;
    var stuck, kept := Stuck(t, moved, dirs, back, n), Kept(moved, back, n);
    var over := Over(mountPoint, fs, mounted);
    StuckInRow(Stay(t1, moved), t, mountPoint, moved, dirs, back, n, k);
    KeptNoneAt(t, mountPoint, moved, dirs, back, n, k);
    OverNoneAt(t, mountPoint, dirs, over, k);
    Beside(Stay(t1, moved) + stuck, over, dirs[k]);
    Beside(Stay(t1, moved) + stuck + over, Returned(t, kept), dirs[k]);
    DirNotRoot(t, mountPoint, dirs, k);
    PropagationElsewhere(t, mountPoint, fs, moved, stuck, kept, mounted, dirs[k]);
  }

  lemma OverNoneAt(t: Table, mountPoint: Path, dirs: seq<Path>, over: Table, k: nat)
    requires FreshDirs(t, mountPoint, dirs) && k < |dirs| && AllAt(over, mountPoint)
    ensures NoneAt(over, dirs[k])
  {
  }

  // ----- The mount point

  /** The mount point before the propagation is restored. */
  lemma TopReplaced(t: Table, mountPoint: Path, fs: nat, moved: seq<Mount>, stuck: Table, kept: seq<Mount>,
                    mounted: bool)
    requires forall i :: 0 <= i < |moved| ==> Under(moved[i].path, mountPoint)
    requires AllOnTop(t, kept) && forall i :: 0 <= i < |kept| ==> Under(kept[i].path, mountPoint)
    requires NotAt(stuck, mountPoint)
    ensures Top(Replaced(t, mountPoint, fs, moved, stuck, kept, mounted), mountPoint)
            == if mounted then Some(Mount(mountPoint, false, fs)) else Top(Privatised(t, mountPoint).0, mountPoint)
  {
    hide Stay, Returned, Privatised;
    var t1 := Privatised(t, mountPoint).0;
    var a, c := Stay(t1, moved), Returned(t, kept);
    ReturnedUnder(t, kept, mountPoint);
    forall i | 0 <= i < |c|
      ensures c[i].path != mountPoint
    {
      UnderNotCovering(c[i].path, mountPoint);
    }
    SharedBelow(a + stuck + Over(mountPoint, fs, mounted), c, mountPoint, true);
    if mounted {
      assert (a + stuck + [Mount(mountPoint, false, fs)])[..|a + stuck|] == a + stuck;
    } else {
      assert a + stuck + [] == a + stuck;
      SharedBelow(a, stuck, mountPoint, true);
      forall i | 0 <= i < |moved|
        ensures !Covers(moved[i].path, mountPoint)
      {
        UnderNotCovering(moved[i].path, mountPoint);
      }
      TopAfterStay(t1, moved, mountPoint);
    }
  }

  lemma MountPointAfter(t: Table, mountPoint: Path, fs: nat, moved: seq<Mount>, stuck: Table, kept: seq<Mount>,
                        mounted: bool)
    requires forall i :: 0 <= i < |moved| ==> Under(moved[i].path, mountPoint)
    requires AllOnTop(t, kept) && forall i :: 0 <= i < |kept| ==> Under(kept[i].path, mountPoint)
    requires NotAt(stuck, mountPoint)
    ensures Top(Overlaid(t, mountPoint, fs, moved, stuck, kept, mounted), mountPoint)
            == if mounted then Some(Mount(mountPoint, ParentShared(t, mountPoint), fs)) else Top(t, mountPoint)
  {
    hide Top, WithShared, Replaced;
    TopReplaced(t, mountPoint, fs, moved, stuck, kept, mounted);
    var body := Replaced(t, mountPoint, fs, moved, stuck, kept, mounted);
    TopShared(t, mountPoint, false);
    TopShared(body, mountPoint, true);
    SharedElsewhere(t, "/", false, mountPoint);
    SharedElsewhere(if ParentShared(t, mountPoint) then WithShared(body, mountPoint, true) else body, "/", true,
                    mountPoint);
  }

  // ----- The whole outcome

  /** The propagation an overlay takes over: of what it covers, for a bare `/system` of the root, otherwise shared. */
  predicate Inherited(t: Table, mountPoint: Path, shared: bool) {
    match (Top(t, mountPoint), Top(t, "/"))
    case (Some(covered), _) => shared == covered.shared
    case (None, Some(root)) => shared == (mountPoint == "/system" ==> root.shared)
    case (None, None) => shared
  }

  lemma TakesOver(t: Table, mountPoint: Path)
    ensures Inherited(t, mountPoint, ParentShared(t, mountPoint))
  {
    hide Top;
  }

  /** `here` is the subtree of `m` moved to `dir`, its top private: moved back and made shared again it is as it was. */
  predicate WholeAt(here: Table, t: Table, m: Mount, dir: Path)
    ensures WholeAt(here, t, m, dir) ==> here != []
  {
    && Subtree(here, dir) && !here[0].shared && (forall i :: 0 <= i < |here| ==> Covers(dir, here[i].path))
    && HeadShared(Moved(here, dir, m.path), m.shared) == Carried(t, m.path)
  }

  lemma ParkedWhole(t: Table, moved: seq<Mount>, dirs: seq<Path>, k: nat)
    requires AllOnTop(t, moved) && k < |moved| && k < |dirs|
    ensures WholeAt(ParkedAt(t, moved, dirs, k), t, moved[k], dirs[k])
  {
    var p := moved[k].path;
    var c := Carried(t, p);
    CarriedIsSubtree(t, p);
    HeadSharedSubtree(c, p, false);
    MovedSubtree(HeadShared(c, false), p, dirs[k]);
    hide Carried, Top, Covers;
  }

  /** Before the submounts are moved exactly the mount point is made private, for a bare `/system` the root. */
  lemma PrivatisedExactly(t: Table, mountPoint: Path, q: Path)
    ensures var (x, root) := Privatised(t, mountPoint);
            var bare := mountPoint == "/system" && Top(t, mountPoint).None?;
            && (root <==> bare && Top(t, "/").Some?)
            && Top(x, q) == if Top(t, q).Some? && (q == mountPoint || (bare && q == "/"))
                            then Some(Top(t, q).value.(shared := false)) else Top(t, q)
  {
    hide Top, WithShared;
    TopShared(t, mountPoint, false);
    TopShared(t, "/", false);
    SharedElsewhere(t, mountPoint, false, q);
    SharedElsewhere(t, "/", false, q);
  }

  /** What is proved about the mount table `x` that mounting an overlay over `t` leaves. */
  ghost predicate Outcomes(x: Table, t: Table, mountPoint: Path, fs: nat, moved: seq<Mount>, dirs: seq<Path>,
                           back: seq<bool>, mounted: bool)
    requires AllOnTop(t, moved) && |moved| <= |dirs| && |moved| <= |back|
  {
    && Inherited(t, mountPoint, ParentShared(t, mountPoint))
    && Top(x, mountPoint)
       == (if mounted then Some(Mount(mountPoint, ParentShared(t, mountPoint), fs)) else Top(t, mountPoint))
    && (forall k :: 0 <= k < |moved| && back[k] ==>
          Top(x, moved[k].path) == Some(moved[k]) && Carried(x, moved[k].path) == Carried(t, moved[k].path))
    && (forall k :: 0 <= k < |moved| && !back[k] ==>
          var here := Carried(x, dirs[k]);
          WholeAt(here, t, moved[k], dirs[k]) && Top(x, dirs[k]) == Some(here[0]))
    && (forall q :: !Covers(mountPoint, q) && (forall k :: 0 <= k < |moved| && !back[k] ==> !Covers(dirs[k], q)) ==>
          Top(x, q) == Top(t, q))
    && ((forall m :: Count(x, m) == Count(t, m) + Extra(mountPoint, fs, mounted, m))
        <==> forall k :: 0 <= k < |moved| ==> back[k])
  }

  lemma {:induction false} KeptAntichain(moved: seq<Mount>, back: seq<bool>, j: nat)
    requires Antichain(moved) && j <= |moved| && j <= |back|
    ensures Antichain(Kept(moved, back, j))
  {
    if j > 0 {
      KeptAntichain(moved, back, j - 1);
      if back[j - 1] {
        var rest := Kept(moved, back, j - 1);
        forall i | 0 <= i < |rest|
          ensures Apart(rest[i].path, moved[j - 1].path) && Apart(moved[j - 1].path, rest[i].path)
        {
          KeptFrom(moved, back, j - 1, rest[i]);
        }
      }
    }
  }

  lemma KeptBack(t: Table, mountPoint: Path, fs: nat, moved: seq<Mount>, dirs: seq<Path>, back: seq<bool>,
                 mounted: bool, k: nat)
    requires |moved| <= |dirs| && |moved| <= |back| && AllOnTop(t, moved) && Antichain(moved)
    requires forall i :: 0 <= i < |moved| ==> Under(moved[i].path, mountPoint)
    requires k < |moved| && back[k]
    ensures var x := Overlaid(t, mountPoint, fs, moved, Stuck(t, moved, dirs, back, |moved|),
                              Kept(moved, back, |moved|), mounted);
            Top(x, moved[k].path) == Some(moved[k]) && Carried(x, moved[k].path) == Carried(t, moved[k].path)
  {
    hide Top, Carried, Stuck, Kept, Under, AllOnTop, Overlaid, Antichain;
    var kept := Kept(moved, back, |moved|);
    KeptOnTop(t, moved, back, |moved|, mountPoint);
    KeptAntichain(moved, back, |moved|);
    KeptFrom(moved, back, |moved|, moved[k]);
    var i :| 0 <= i < |kept| && kept[i] == moved[k];
    MovedRestored(t, mountPoint, fs, moved, Stuck(t, moved, dirs, back, |moved|), kept, mounted, i);
  }

  lemma MountPointAndRest(t: Table, mountPoint: Path, fs: nat, moved: seq<Mount>, dirs: seq<Path>, back: seq<bool>,
                          mounted: bool)
    requires FreshDirs(t, mountPoint, dirs) && |moved| <= |dirs| && |moved| <= |back| && AllOnTop(t, moved)
    requires forall i :: 0 <= i < |moved| ==> Under(moved[i].path, mountPoint)
    ensures var x := Overlaid(t, mountPoint, fs, moved, Stuck(t, moved, dirs, back, |moved|),
                              Kept(moved, back, |moved|), mounted);
            && Top(x, mountPoint)
               == (if mounted then Some(Mount(mountPoint, ParentShared(t, mountPoint), fs)) else Top(t, mountPoint))
            && (forall q :: && !Covers(mountPoint, q)
                            && (forall k :: 0 <= k < |moved| && !back[k] ==> !Covers(dirs[k], q)) ==>
                  Top(x, q) == Top(t, q))
  {
    hide Top, Stuck, Kept, Under, AllOnTop, Overlaid, FreshDirs, ParentShared, NotAt;
    var stuck, kept := Stuck(t, moved, dirs, back, |moved|), Kept(moved, back, |moved|);
    KeptOnTop(t, moved, back, |moved|, mountPoint);
    forall k | 0 <= k < |moved|
      ensures !Covers(dirs[k], mountPoint)
    {
      DirNotRoot(t, mountPoint, dirs, k);
    }
    StuckNotAt(t, moved, dirs, back, |moved|, mountPoint);
    MountPointAfter(t, mountPoint, fs, moved, stuck, kept, mounted);
    forall q | !Covers(mountPoint, q) && forall k :: 0 <= k < |moved| && !back[k] ==> !Covers(dirs[k], q)
      ensures Top(Overlaid(t, mountPoint, fs, moved, stuck, kept, mounted), q) == Top(t, q)
    {
      StuckNotAt(t, moved, dirs, back, |moved|, q);
      OutsideUnchanged(t, mountPoint, fs, moved, stuck, kept, mounted, q);
    }
  }

  lemma OutcomesHold(t: Table, mountPoint: Path, fs: nat, moved: seq<Mount>, dirs: seq<Path>, back: seq<bool>,
                     mounted: bool)
    requires FreshDirs(t, mountPoint, dirs) && |moved| <= |dirs| && |moved| <= |back| && AllOnTop(t, moved)
    requires Antichain(moved)
    requires forall i :: 0 <= i < |moved| ==> Under(moved[i].path, mountPoint)
    ensures Outcomes(Overlaid(t, mountPoint, fs, moved, Stuck(t, moved, dirs, back, |moved|),
                              Kept(moved, back, |moved|), mounted),
                     t, mountPoint, fs, moved, dirs, back, mounted)
  {
    hide Top, Carried, Antichain, Overlaid, Count, Under, ParentShared, Stuck, Kept, FreshDirs, ParkedAt, AllOnTop,
         Covers, Extra, Inherited, WholeAt;
    TakesOver(t, mountPoint);
    MountPointAndRest(t, mountPoint, fs, moved, dirs, back, mounted);
    NoneLost(t, mountPoint, fs, moved, dirs, back, mounted);
    forall k | 0 <= k < |moved| && back[k]
      ensures var x := Overlaid(t, mountPoint, fs, moved, Stuck(t, moved, dirs, back, |moved|),
                                Kept(moved, back, |moved|), mounted);
              Top(x, moved[k].path) == Some(moved[k]) && Carried(x, moved[k].path) == Carried(t, moved[k].path)
    {
      KeptBack(t, mountPoint, fs, moved, dirs, back, mounted, k);
    }
    forall k | 0 <= k < |moved| && !back[k]
      ensures var x := Overlaid(t, mountPoint, fs, moved, Stuck(t, moved, dirs, back, |moved|),
                                Kept(moved, back, |moved|), mounted);
              var here := Carried(x, dirs[k]);
              here != [] && WholeAt(here, t, moved[k], dirs[k]) && Top(x, dirs[k]) == Some(here[0])
    {
      ParkedWhole(t, moved, dirs, k);
      StuckFound(t, mountPoint, fs, moved, dirs, back, mounted, k);
    }
  }

  /**
   The outcome of mounting an overlay, for the submounts selected from any condensed mount
   table and whatever system calls fail: the overlay is what the mount point reaches, with
   the propagation of what it covers, or if it could not be mounted the mount point reaches
   what it did before; a moved submount that could be moved back is reached again at its old
   path, with its propagation and everything mounted inside it, and one that could not is
   whole in its temporary directory; every other path outside the mount point reaches what it
   did before; and no mount is lost or duplicated exactly when every moved submount came back.
   */
  lemma SubmountsRestored(t: Table, list: seq<Mount>, mountPoint: Path, fs: nat, dirs: seq<Path>, outs: seq<Outcome>,
                          back: seq<bool>, mounted: bool)
    requires StrictlySorted(list) && |outs| == |list| && (list == [] || forall p :: Top(list, p) == Top(t, p))
    requires FreshDirs(t, mountPoint, dirs)
    requires var moved := Chosen(list, mountPoint, outs); |moved| <= |dirs| && |moved| <= |back|
    ensures var moved := Chosen(list, mountPoint, outs);
            && AllOnTop(t, moved)
            && Outcomes(Overlaid(t, mountPoint, fs, moved, Stuck(t, moved, dirs, back, |moved|),
                                 Kept(moved, back, |moved|), mounted),
                        t, mountPoint, fs, moved, dirs, back, mounted)
  {
    var moved := Chosen(list, mountPoint, outs);
    if list == [] {
      assert moved == [];
    } else {
      MovedSubmounts(t, list, mountPoint, outs);
    }
    hide Top, Antichain, Overlaid, Chosen, Under, Stuck, Kept, FreshDirs, Outcomes;
    OutcomesHold(t, mountPoint, fs, moved, dirs, back, mounted);
  }
}
