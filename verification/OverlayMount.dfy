/**
 Mounting an overlay over a mount point that has submounts: the submounts are moved to
 temporary directories, the overlay is mounted, and the submounts are moved back.
 */
module OverlayMount {
  import opened Bytes
  import opened MountPaths
  import opened MountSelect
  import opened MountTable

  const MOVE_MOUNT_TEMP_DIR: Path := "/dev/remount"

  // ----- Tables while submounts are parked

  /** The table without the subtrees of the moved submounts. */
  function Stay(t: Table, moved: seq<Mount>): (r: Table) {
    if moved == [] then t else Left(Stay(t, moved[..|moved| - 1]), moved[|moved| - 1].path)
  }

  /** The subtrees of the moved submounts, as they were. */
  function Returned(t: Table, moved: seq<Mount>): (r: Table) {
    if moved == [] then [] else Returned(t, moved[..|moved| - 1]) + Carried(t, moved[|moved| - 1].path)
  }

  predicate AllOnTop(t: Table, moved: seq<Mount>) {
    forall i :: 0 <= i < |moved| ==> Top(t, moved[i].path) == Some(moved[i])
  }

  /** Subtree `k` in its temporary directory, its top made private. */
  function ParkedAt(t: Table, moved: seq<Mount>, dirs: seq<Path>, k: nat): (r: Table)
    requires AllOnTop(t, moved) && k < |moved| && k < |dirs|
    ensures Subtree(r, dirs[k])
  {
    var p := moved[k].path;
    CarriedIsSubtree(t, p);
    HeadSharedSubtree(Carried(t, p), p, false);
    MovedSubtree(HeadShared(Carried(t, p), false), p, dirs[k]);
    Moved(HeadShared(Carried(t, p), false), p, dirs[k])
  }

  /** Subtrees `i` to `j` in their temporary directories. */
  function Parked(t: Table, moved: seq<Mount>, dirs: seq<Path>, i: nat, j: nat): (r: Table)
    requires AllOnTop(t, moved) && i <= j <= |moved| && j <= |dirs|
    decreases j
  {
    if i == j then [] else Parked(t, moved, dirs, i, j - 1) + ParkedAt(t, moved, dirs, j - 1)
  }

  lemma {:induction false} ParkedFirst(t: Table, moved: seq<Mount>, dirs: seq<Path>, i: nat, j: nat)
    requires AllOnTop(t, moved) && i < j <= |moved| && j <= |dirs|
    ensures Parked(t, moved, dirs, i, j) == ParkedAt(t, moved, dirs, i) + Parked(t, moved, dirs, i + 1, j)
    decreases j
  {
    hide Parked, ParkedAt, AllOnTop;
    ParkedLast(t, moved, dirs, i, j);
    if i == j - 1 {
      ParkedLast(t, moved, dirs, i, i);
      ParkedLast(t, moved, dirs, j, j);
    } else {
      ParkedLast(t, moved, dirs, i + 1, j);
      ParkedFirst(t, moved, dirs, i, j - 1);
      AppendAssoc(ParkedAt(t, moved, dirs, i), Parked(t, moved, dirs, i + 1, j - 1), ParkedAt(t, moved, dirs, j - 1));
    }
  }

  lemma ParkedLast(t: Table, moved: seq<Mount>, dirs: seq<Path>, i: nat, j: nat)
    requires AllOnTop(t, moved) && i <= j <= |moved| && j <= |dirs|
    ensures Parked(t, moved, dirs, i, j)
            == if i == j then [] else Parked(t, moved, dirs, i, j - 1) + ParkedAt(t, moved, dirs, j - 1)
  {
    hide ParkedAt, AllOnTop;
  }

  /** The temporary directories are new, apart from each other and from the mount point. */
  predicate FreshDirs(t: Table, mountPoint: Path, dirs: seq<Path>) {
    && (forall k :: 0 <= k < |dirs| ==> Apart(mountPoint, dirs[k]) && NoneAt(t, dirs[k]))
    && (forall k, l :: 0 <= k < |dirs| && 0 <= l < |dirs| && k != l ==> Apart(dirs[k], dirs[l]))
  }

  lemma SubtreeNoneAt(c: Table, p: Path, q: Path)
    requires Subtree(c, p) && Apart(p, q)
    ensures NoneAt(c, q)
  {
    forall i | 0 <= i < |c|
      ensures !Covers(q, c[i].path)
    {
      NotBoth(p, q, c[i].path);
    }
  }

  lemma {:induction false} ParkedNoneAt(t: Table, moved: seq<Mount>, dirs: seq<Path>, i: nat, j: nat, q: Path)
    requires AllOnTop(t, moved) && i <= j <= |moved| && j <= |dirs|
    requires forall k :: i <= k < j ==> Apart(dirs[k], q)
    ensures NoneAt(Parked(t, moved, dirs, i, j), q)
    decreases j
  {
    hide ParkedAt, AllOnTop, Apart, Covers;
    if i < j {
      ParkedNoneAt(t, moved, dirs, i, j - 1, q);
      SubtreeNoneAt(ParkedAt(t, moved, dirs, j - 1), dirs[j - 1], q);
    }
  }

  /** A submount of the table cannot lie above or below a fresh directory. */
  lemma SubmountApartFromDir(t: Table, mountPoint: Path, dirs: seq<Path>, k: nat, p: Path)
    requires FreshDirs(t, mountPoint, dirs) && k < |dirs| && Under(p, mountPoint) && Top(t, p).Some?
    ensures Apart(dirs[k], p)
  {
    var m := Top(t, p).value;
    var i :| 0 <= i < |t| && t[i] == m;
    assert !Covers(dirs[k], t[i].path);
    if Covers(p, dirs[k]) {
      CoversTransitive(mountPoint, p, dirs[k]);
    }
  }

  lemma {:induction false} StayLeaves(t: Table, moved: seq<Mount>, q: Path)
    requires forall i :: 0 <= i < |moved| ==> Apart(moved[i].path, q)
    ensures Carried(Stay(t, moved), q) == Carried(t, q) && Top(Stay(t, moved), q) == Top(t, q)
  {
    if moved != [] {
      var n := |moved| - 1;
      StayLeaves(t, moved[..n], q);
      CarriedAfterLeft(Stay(t, moved[..n]), moved[n].path, q);
    }
  }

  // ----- Moving one submount out

  /** The table with `moved` parked. */
  function Out(t: Table, moved: seq<Mount>, dirs: seq<Path>): (r: Table)
    requires AllOnTop(t, moved) && |moved| <= |dirs|
  {
    Stay(t, moved) + Parked(t, moved, dirs, 0, |moved|)
  }

  lemma {:induction false} ParkedPrefix(t: Table, moved: seq<Mount>, m: Mount, dirs: seq<Path>, j: nat)
    requires AllOnTop(t, moved + [m]) && j <= |moved| && j <= |dirs|
    ensures AllOnTop(t, moved)
    ensures Parked(t, moved + [m], dirs, 0, j) == Parked(t, moved, dirs, 0, j)
  {
    assert forall i :: 0 <= i < |moved| ==> (moved + [m])[i] == moved[i];
    if j > 0 {
      ParkedPrefix(t, moved, m, dirs, j - 1);
    }
  }

  lemma FoundInPlace(t: Table, mountPoint: Path, moved: seq<Mount>, dirs: seq<Path>, m: Mount)
    requires FreshDirs(t, mountPoint, dirs) && |moved| <= |dirs|
    requires AllOnTop(t, moved) && Top(t, m.path) == Some(m) && Under(m.path, mountPoint)
    requires forall i :: 0 <= i < |moved| ==> Apart(moved[i].path, m.path)
    ensures Top(Out(t, moved, dirs), m.path) == Some(m)
    ensures Carried(Out(t, moved, dirs), m.path) == Carried(t, m.path)
    ensures Left(Out(t, moved, dirs), m.path)
            == Left(Stay(t, moved), m.path) + Parked(t, moved, dirs, 0, |moved|)
  {
    forall k | 0 <= k < |moved|
      ensures Apart(dirs[k], m.path)
    {
      SubmountApartFromDir(t, mountPoint, dirs, k, m.path);
    }
    ParkedNoneAt(t, moved, dirs, 0, |moved|, m.path);
    Beside(Stay(t, moved), Parked(t, moved, dirs, 0, |moved|), m.path);
    StayLeaves(t, moved, m.path);
  }

  lemma OutMore(t: Table, moved: seq<Mount>, dirs: seq<Path>, m: Mount)
    requires AllOnTop(t, moved + [m]) && AllOnTop(t, moved) && |moved| < |dirs|
    ensures Out(t, moved + [m], dirs)
            == Left(Stay(t, moved), m.path) + Parked(t, moved, dirs, 0, |moved|)
               + ParkedAt(t, moved + [m], dirs, |moved|)
  {
    hide Left, ParkedAt;
    assert (moved + [m])[..|moved|] == moved;
    ParkedPrefix(t, moved, m, dirs, |moved|);
    AppendAssoc(Left(Stay(t, moved), m.path), Parked(t, moved, dirs, 0, |moved|),
                ParkedAt(t, moved + [m], dirs, |moved|));
  }

  /** Makes a submount private if it is shared, and moves it to its temporary directory. */
  method MoveOut(ns: MountNamespace, m: Mount, ghost t: Table, ghost mountPoint: Path, ghost moved: seq<Mount>,
                 dir: Path, ghost dirs: seq<Path>)
    requires FreshDirs(t, mountPoint, dirs) && |moved| < |dirs| && dir == dirs[|moved|]
    requires AllOnTop(t, moved + [m]) && AllOnTop(t, moved) && Under(m.path, mountPoint)
    requires forall i :: 0 <= i < |moved| ==> Apart(moved[i].path, m.path)
    requires ns.table == Out(t, moved, dirs)
    modifies ns
    ensures ns.table == Out(t, moved + [m], dirs)
  {
    hide Stay, Parked, Left, Carried, Top, WithShared, Moved, HeadShared, Apart, Under, NoneAt;
    assert (moved + [m])[|moved|] == m;
    FoundInPlace(t, mountPoint, moved, dirs, m);
    OutMore(t, moved, dirs, m);
    CarriedIsSubtree(t, m.path);
    HeadSharedSubtree(Carried(t, m.path), m.path, false);
    if m.shared {
      SharedThenCarried(ns.table, m.path, false);
      var made := ns.SetShared(m.path, false);
    }
    var ok := ns.Move(m.path, dir);
  }

  // ----- Moving one submount back

  /** Those of the first `j` moved submounts that could be moved back. */
  function Kept(moved: seq<Mount>, back: seq<bool>, j: nat): (kept: seq<Mount>)
    requires j <= |moved| && j <= |back|
  {
    if j == 0 then [] else Kept(moved, back, j - 1) + if back[j - 1] then [moved[j - 1]] else []
  }

  /** The subtrees of the others, which stay in their temporary directories. */
  function Stuck(t: Table, moved: seq<Mount>, dirs: seq<Path>, back: seq<bool>, j: nat): (r: Table)
    requires AllOnTop(t, moved) && |moved| <= |dirs| && j <= |moved| && j <= |back|
    decreases j
  {
    if j == 0 then []
    else Stuck(t, moved, dirs, back, j - 1) + if back[j - 1] then [] else ParkedAt(t, moved, dirs, j - 1)
  }

  lemma {:induction false} KeptFrom(moved: seq<Mount>, back: seq<bool>, j: nat, m: Mount)
    requires j <= |moved| && j <= |back|
    ensures m in Kept(moved, back, j) <==> exists k :: 0 <= k < j && back[k] && m == moved[k]
  {
    if j > 0 {
      KeptFrom(moved, back, j - 1, m);
    }
  }

  lemma KeptOnTop(t: Table, moved: seq<Mount>, back: seq<bool>, j: nat, mountPoint: Path)
    requires j <= |moved| && j <= |back| && AllOnTop(t, moved)
    requires forall i :: 0 <= i < |moved| ==> Under(moved[i].path, mountPoint)
    ensures AllOnTop(t, Kept(moved, back, j))
    ensures forall i :: 0 <= i < |Kept(moved, back, j)| ==> Under(Kept(moved, back, j)[i].path, mountPoint)
  {
    hide Under, Top, Kept;
    var kept := Kept(moved, back, j);
    forall i | 0 <= i < |kept|
      ensures Top(t, kept[i].path) == Some(kept[i]) && Under(kept[i].path, mountPoint)
    {
      KeptFrom(moved, back, j, kept[i]);
    }
  }

  /** The table with `over` mounted and the first `j` submounts moved back or stuck. */
  function Back(t: Table, moved: seq<Mount>, dirs: seq<Path>, back: seq<bool>, over: Table, j: nat): (r: Table)
    requires AllOnTop(t, moved) && |moved| <= |dirs| && j <= |moved| <= |back|
  {
    Stay(t, moved) + Stuck(t, moved, dirs, back, j) + Parked(t, moved, dirs, j, |moved|) + over
    + Returned(t, Kept(moved, back, j))
  }

  /** The overlay, if it could be mounted. */
  function Over(mountPoint: Path, fs: nat, mounted: bool): (r: Table)
    ensures AllAt(r, mountPoint)
  {
    if mounted then [Mount(mountPoint, false, fs)] else []
  }

  predicate AllAt(t: Table, p: Path) {
    forall i :: 0 <= i < |t| ==> t[i].path == p
  }

  lemma {:induction false} ReturnedNoneAt(t: Table, moved: seq<Mount>, q: Path)
    requires AllOnTop(t, moved) && forall i :: 0 <= i < |moved| ==> Apart(moved[i].path, q)
    ensures NoneAt(Returned(t, moved), q)
  {
    if moved != [] {
      var n := |moved| - 1;
      ReturnedNoneAt(t, moved[..n], q);
      CarriedIsSubtree(t, moved[n].path);
      SubtreeNoneAt(Carried(t, moved[n].path), moved[n].path, q);
    }
  }

  /** A parked subtree is found whole at its directory. */
  lemma ParkedFound(t: Table, mountPoint: Path, moved: seq<Mount>, dirs: seq<Path>, back: seq<bool>, over: Table,
                    j: nat)
    requires FreshDirs(t, mountPoint, dirs) && |moved| <= |dirs| && j < |moved| <= |back|
    requires AllOnTop(t, moved) && AllAt(over, mountPoint)
    requires forall i :: 0 <= i < |moved| ==> Under(moved[i].path, mountPoint)
    ensures var x := Back(t, moved, dirs, back, over, j);
            && Top(x, dirs[j]).Some?
            && Carried(x, dirs[j]) == ParkedAt(t, moved, dirs, j)
            && Left(x, dirs[j]) == WithoutOne(t, moved, dirs, back, over, j)
  {
    hide Stay, Stuck, Kept, Parked, Left, Carried, Returned, NoneAt, ParkedAt, FreshDirs, Under;
    var d := dirs[j];
    var here := ParkedAt(t, moved, dirs, j);
    var rest := Parked(t, moved, dirs, j + 1, |moved|);
    var front, kept := Stay(t, moved) + Stuck(t, moved, dirs, back, j), Kept(moved, back, j);
    var after := rest + over + Returned(t, kept);
    ClearAfter(t, mountPoint, moved, dirs, back, over, j);
    ParkedFirst(t, moved, dirs, j, |moved|);
    hide AllOnTop;
    WholeSubtree(front, here, d);
    Beside(front + here, after, d);
    BackRearranged(front, here, rest, over, Returned(t, kept));
  }

  /** The table with subtree `j` taken out of its temporary directory. */
  function WithoutOne(t: Table, moved: seq<Mount>, dirs: seq<Path>, back: seq<bool>, over: Table, j: nat): (r: Table)
    requires AllOnTop(t, moved) && |moved| <= |dirs| && j < |moved| <= |back|
  {
    Stay(t, moved) + Stuck(t, moved, dirs, back, j) + Parked(t, moved, dirs, j + 1, |moved|) + over
    + Returned(t, Kept(moved, back, j))
  }

  lemma FreshNone(t: Table, mountPoint: Path, dirs: seq<Path>, j: nat)
    requires FreshDirs(t, mountPoint, dirs) && j < |dirs|
    ensures NoneAt(t, dirs[j]) && Apart(mountPoint, dirs[j])
    ensures forall k :: 0 <= k < |dirs| && k != j ==> Apart(dirs[k], dirs[j])
  {
  }

  /** Behind a parked subtree nothing lies at its directory. */
  lemma ClearAfter(t: Table, mountPoint: Path, moved: seq<Mount>, dirs: seq<Path>, back: seq<bool>, over: Table, j: nat)
    requires FreshDirs(t, mountPoint, dirs) && |moved| <= |dirs| && j < |moved| <= |back|
    requires AllOnTop(t, moved) && AllAt(over, mountPoint)
    requires forall i :: 0 <= i < |moved| ==> Under(moved[i].path, mountPoint)
    ensures NoneAt(Parked(t, moved, dirs, j + 1, |moved|) + over + Returned(t, Kept(moved, back, j)), dirs[j])
  {
    hide Parked, Returned, FreshDirs, Under, Covers, Kept;
    FreshNone(t, mountPoint, dirs, j);
    ParkedNoneAt(t, moved, dirs, j + 1, |moved|, dirs[j]);
    KeptNoneAt(t, mountPoint, moved, dirs, back, j, j);
  }

  lemma KeptNoneAt(t: Table, mountPoint: Path, moved: seq<Mount>, dirs: seq<Path>, back: seq<bool>, j: nat, d: nat)
    requires FreshDirs(t, mountPoint, dirs) && |moved| <= |dirs| && j <= |moved| <= |back| && d < |dirs|
    requires AllOnTop(t, moved) && forall i :: 0 <= i < |moved| ==> Under(moved[i].path, mountPoint)
    ensures NoneAt(Returned(t, Kept(moved, back, j)), dirs[d])
  {
    hide Returned, FreshDirs, Under, Covers, Kept, Apart;
    var kept := Kept(moved, back, j);
    KeptOnTop(t, moved, back, j, mountPoint);
    forall i | 0 <= i < |kept|
      ensures Apart(kept[i].path, dirs[d])
    {
      SubmountApartFromDir(t, mountPoint, dirs, d, kept[i].path);
      ApartSymmetric(dirs[d], kept[i].path);
    }
    ReturnedNoneAt(t, kept, dirs[d]);
  }

  lemma ApartSymmetric(a: Path, b: Path)
    requires Apart(a, b)
    ensures Apart(b, a)
  {
  }

  lemma BackRearranged(a: Table, b: Table, c: Table, d: Table, e: Table)
    ensures a + (b + c) + d + e == (a + b) + (c + d + e)
    ensures a + (c + d + e) == a + c + d + e
  {
  }

  lemma BackMore(t: Table, moved: seq<Mount>, dirs: seq<Path>, back: seq<bool>, over: Table, j: nat)
    requires AllOnTop(t, moved) && |moved| <= |dirs| && j < |moved| <= |back|
    ensures Back(t, moved, dirs, back, over, j + 1)
            == if back[j] then WithoutOne(t, moved, dirs, back, over, j) + Carried(t, moved[j].path)
               else Back(t, moved, dirs, back, over, j)
  {
    var stuck, kept := Stuck(t, moved, dirs, back, j), Kept(moved, back, j);
    ParkedFirst(t, moved, dirs, j, |moved|);
    ReturnedMore(t, kept, moved[j]);
    assert kept + [] == kept && stuck + [] == stuck;
    hide Stay, Parked, Carried, AllOnTop, ParkedAt, Returned;
    var rest := Parked(t, moved, dirs, j + 1, |moved|);
    AppendAssoc(Stay(t, moved) + stuck + rest + over, Returned(t, kept), Carried(t, moved[j].path));
    AppendAssoc(Stay(t, moved), stuck, ParkedAt(t, moved, dirs, j));
    AppendAssoc(Stay(t, moved) + stuck, ParkedAt(t, moved, dirs, j), rest);
  }

  lemma ReturnedMore(t: Table, moved: seq<Mount>, m: Mount)
    ensures Returned(t, moved + [m]) == Returned(t, moved) + Carried(t, m.path)
  {
    assert (moved + [m])[..|moved|] == moved;
  }

  /** Moves a submount back from its temporary directory, if that works, and restores its propagation. */
  method MoveBack(ns: MountNamespace, m: Mount, dir: Path, works: bool, ghost t: Table, ghost mountPoint: Path,
                  ghost moved: seq<Mount>, ghost dirs: seq<Path>, ghost back: seq<bool>, ghost over: Table,
                  ghost j: nat)
    requires FreshDirs(t, mountPoint, dirs) && |moved| <= |dirs| && j < |moved| <= |back|
    requires m == moved[j] && dir == dirs[j] && works == back[j]
    requires AllOnTop(t, moved) && AllAt(over, mountPoint)
    requires forall i :: 0 <= i < |moved| ==> Under(moved[i].path, mountPoint)
    requires ns.table == Back(t, moved, dirs, back, over, j)
    modifies ns
    ensures ns.table == Back(t, moved, dirs, back, over, j + 1)
  {
    hide Stay, Parked, Left, Carried, Top, WithShared, Moved, HeadShared, Apart, Under, NoneAt, FreshDirs, Returned;
    hide Back, WithoutOne;
    BackMore(t, moved, dirs, back, over, j);
    if works {
      ParkedFound(t, mountPoint, moved, dirs, back, over, j);
      ghost var c := Carried(t, m.path);
      CarriedIsSubtree(t, m.path);
      HeadSharedSubtree(c, m.path, false);
      MovedSubtree(HeadShared(c, false), m.path, dir);
      ghost var rest := WithoutOne(t, moved, dirs, back, over, j);
      var ok := ns.Move(dir, m.path);
      assert ns.table == rest + HeadShared(c, false);
      WholeSubtree(rest, HeadShared(c, false), m.path);
      if m.shared {
        SharedBeside(rest, HeadShared(c, false), m.path, true);
        var made := ns.SetShared(m.path, true);
      }
    }
  }

  // ----- Propagation of the mount point itself

  function SharedAt(t: Table, p: Path): (shared: bool) {
    if Top(t, p).Some? then Top(t, p).value.shared else true
  }

  /** After switch root `/system` may not be a mount point; then the root counts. */
  function ParentShared(t: Table, mountPoint: Path): (shared: bool) {
    if Top(t, mountPoint).None? && mountPoint == "/system" then SharedAt(t, "/") else SharedAt(t, mountPoint)
  }

  /** The table with the mount point made private; the flag tells whether the root was instead. */
  function Privatised(t: Table, mountPoint: Path): (r: (Table, bool)) {
    if Top(t, mountPoint).Some? then (WithShared(t, mountPoint, false), false)
    else if mountPoint == "/system" && Top(t, "/").Some? then (WithShared(t, "/", false), true)
    else (t, false)
  }

  lemma {:induction false} SharedElsewhere(t: Table, p: Path, shared: bool, q: Path)
    ensures p != q ==> Top(WithShared(t, p, shared), q) == Top(t, q)
    ensures !Covers(q, p) ==> Carried(WithShared(t, p, shared), q) == Carried(t, q)
    ensures NoneAt(t, q) ==> NoneAt(WithShared(t, p, shared), q)
  {
    if t != [] {
      var n := |t| - 1;
      if t[n].path == p {
        var e := t[n].(shared := shared);
        assert (t[..n] + [e])[..n] == t[..n];
      } else {
        SharedElsewhere(t[..n], p, shared, q);
        var w := WithShared(t[..n], p, shared);
        assert (w + [t[n]])[..n] == w;
      }
    }
  }

  /** Making the mount point private does not touch its submounts. */
  lemma PrivatisedSubmount(t: Table, mountPoint: Path, q: Path)
    requires Under(q, mountPoint)
    ensures Top(Privatised(t, mountPoint).0, q) == Top(t, q)
    ensures Carried(Privatised(t, mountPoint).0, q) == Carried(t, q)
  {
    UnderIsAfter(q, mountPoint);
    if Under(mountPoint, q) {
      UnderIsAfter(mountPoint, q);
      BeforeAsymmetric(mountPoint, q);
    }
    SharedElsewhere(t, mountPoint, false, q);
    if mountPoint == "/system" {
      SharedElsewhere(t, "/", false, q);
    }
  }

  lemma PrivatisedFresh(t: Table, mountPoint: Path, dirs: seq<Path>)
    requires FreshDirs(t, mountPoint, dirs)
    ensures FreshDirs(Privatised(t, mountPoint).0, mountPoint, dirs)
  {
    forall k | 0 <= k < |dirs|
      ensures NoneAt(Privatised(t, mountPoint).0, dirs[k])
    {
      SharedElsewhere(t, mountPoint, false, dirs[k]);
      SharedElsewhere(t, "/", false, dirs[k]);
    }
  }

  lemma {:induction false} PrivatisedReturned(t: Table, mountPoint: Path, moved: seq<Mount>)
    requires forall i :: 0 <= i < |moved| ==> Under(moved[i].path, mountPoint)
    ensures Returned(Privatised(t, mountPoint).0, moved) == Returned(t, moved)
  {
    if moved != [] {
      PrivatisedReturned(t, mountPoint, moved[..|moved| - 1]);
      PrivatisedSubmount(t, mountPoint, moved[|moved| - 1].path);
    }
  }

  lemma {:induction false} SharedBelow(t: Table, c: Table, p: Path, shared: bool)
    requires forall i :: 0 <= i < |c| ==> c[i].path != p
    ensures WithShared(t + c, p, shared) == WithShared(t, p, shared) + c
    ensures Top(t + c, p) == Top(t, p)
  {
    if c == [] {
      assert t + c == t;
    } else {
      var n := |c| - 1;
      assert (t + c)[..|t + c| - 1] == t + c[..n];
      SharedBelow(t, c[..n], p, shared);
      assert c == c[..n] + [c[n]];
    }
  }

  lemma {:induction false} ReturnedUnder(t: Table, moved: seq<Mount>, mountPoint: Path)
    requires AllOnTop(t, moved) && forall i :: 0 <= i < |moved| ==> Under(moved[i].path, mountPoint)
    ensures forall i :: 0 <= i < |Returned(t, moved)| ==> Under(Returned(t, moved)[i].path, mountPoint)
  {
    if moved != [] {
      var n := |moved| - 1;
      ReturnedUnder(t, moved[..n], mountPoint);
      var c := Carried(t, moved[n].path);
      CarriedIsSubtree(t, moved[n].path);
      forall i | 0 <= i < |c|
        ensures Under(c[i].path, mountPoint)
      {
        if i > 0 {
          UnderTransitive(c[i].path, moved[n].path, mountPoint);
        }
      }
    }
  }

  // ----- The whole operation

  /**
   The mount table with the submounts `kept` back and `stuck` left in temporary directories,
   before the propagation is restored.
   */
  function Replaced(t: Table, mountPoint: Path, fs: nat, moved: seq<Mount>, stuck: Table, kept: seq<Mount>,
                    mounted: bool)
    : (r: Table)
  {
    Stay(Privatised(t, mountPoint).0, moved) + stuck + Over(mountPoint, fs, mounted) + Returned(t, kept)
  }

  /** What the mount table is afterwards. */
  function Overlaid(t: Table, mountPoint: Path, fs: nat, moved: seq<Mount>, stuck: Table, kept: seq<Mount>,
                    mounted: bool)
    : (r: Table)
  {
    var body := Replaced(t, mountPoint, fs, moved, stuck, kept, mounted);
    var shared := if ParentShared(t, mountPoint) then WithShared(body, mountPoint, true) else body;
    if Privatised(t, mountPoint).1 && SharedAt(t, "/") then WithShared(shared, "/", true) else shared
  }

  /** Scans the condensed mount table for the propagation flags. */
  method ReadFlags(list: seq<Mount>, mountPoint: Path)
    returns (moveDirShared: bool, parentShared: bool, rootShared: bool)
    requires StrictlySorted(list)
    ensures moveDirShared == SharedAt(list, MOVE_MOUNT_TEMP_DIR)
    ensures parentShared == ParentShared(list, mountPoint)
    ensures rootShared == SharedAt(list, "/")
  {
    moveDirShared, parentShared, rootShared := true, true, true;
    var i := 0;
    assert list[..0] == [];
    hide Top, Before, StrictlySorted, SharedAt, ParentShared;
    while i < |list|
      invariant 0 <= i <= |list|
      invariant moveDirShared == SharedAt(list[..i], MOVE_MOUNT_TEMP_DIR)
      invariant parentShared == ParentShared(list[..i], mountPoint)
      invariant rootShared == SharedAt(list[..i], "/")
    {
      var entry := list[i];
      SharedStep(list, i, MOVE_MOUNT_TEMP_DIR);
      ParentStep(list, i, mountPoint);
      SharedStep(list, i, "/");
      if entry.path == MOVE_MOUNT_TEMP_DIR {
        moveDirShared := entry.shared;
      }
      if entry.path == mountPoint || (mountPoint == "/system" && entry.path == "/") {
        parentShared := entry.shared;
      }
      if entry.path == "/" {
        rootShared := entry.shared;
      }
      i := i + 1;
    }
    assert list[..i] == list;
  }

  lemma SharedStep(list: seq<Mount>, i: nat, p: Path)
    requires i < |list|
    ensures SharedAt(list[..i + 1], p) == if list[i].path == p then list[i].shared else SharedAt(list[..i], p)
  {
    TopSnoc(list, i, p);
  }

  /** The root is the first path in order, so an entry for `/system` overrides it. */
  lemma ParentStep(list: seq<Mount>, i: nat, mountPoint: Path)
    requires StrictlySorted(list) && i < |list|
    ensures ParentShared(list[..i + 1], mountPoint)
            == if list[i].path == mountPoint || (mountPoint == "/system" && list[i].path == "/")
               then list[i].shared else ParentShared(list[..i], mountPoint)
  {
    TopSnoc(list, i, mountPoint);
    SharedStep(list, i, "/");
    SharedStep(list, i, mountPoint);
    if mountPoint == "/system" && list[i].path == "/" {
      RootComesFirst(list, i);
    }
    hide Top, Before, StrictlySorted;
  }

  lemma TopSnoc(list: seq<Mount>, i: nat, p: Path)
    requires i < |list|
    ensures Top(list[..i + 1], p) == if list[i].path == p then Some(list[i]) else Top(list[..i], p)
  {
    assert list[..i + 1][..i] == list[..i];
  }

  lemma SystemNotBeforeRoot()
    ensures !Before("/system", "/")
  {
    assert "/"[1..] == "";
  }

  lemma RootComesFirst(list: seq<Mount>, i: nat)
    requires StrictlySorted(list) && i < |list| && list[i].path == "/"
    ensures Top(list[..i], "/system") == None
  {
    SystemNotBeforeRoot();
    TopIff(list[..i], "/system");
    assert forall k :: 0 <= k < i ==> Before(list[k].path, "/");
  }

  /** The table while the first `i` entries have been looked at and `moved` moved out. */
  ghost predicate PartlyOut(x: Table, t: Table, list: seq<Mount>, mountPoint: Path, dirs: seq<Path>,
                            outs: seq<Outcome>, i: nat, moved: seq<Mount>)
  {
    && i <= |list| <= |dirs| && i <= |outs| && |moved| <= i
    && moved == Chosen(list[..i], mountPoint, outs[..i])
    && (forall k :: 0 <= k < |moved| ==> Under(moved[k].path, mountPoint))
    && AllOnTop(t, moved) && AllOnTop(Privatised(t, mountPoint).0, moved)
    && x == Out(Privatised(t, mountPoint).0, moved, dirs)
  }

  method MoveNextOut(ns: MountNamespace, list: seq<Mount>, mountPoint: Path, dirs: seq<Path>, outs: seq<Outcome>,
                     i: nat, sofar: seq<Mount>, ghost t: Table)
    returns (moved: seq<Mount>, failed: bool)
    requires StrictlySorted(list) && i < |list| <= |outs| && forall p :: Top(list, p) == Top(t, p)
    requires FreshDirs(t, mountPoint, dirs) && PartlyOut(ns.table, t, list, mountPoint, dirs, outs, i, sofar)
    modifies ns
    ensures PartlyOut(ns.table, t, list, mountPoint, dirs, outs, i + 1, moved)
    ensures failed <==> Wanted(Chosen(list[..i], mountPoint, outs[..i]), mountPoint, list[i]) && outs[i] == Failed
  {
    hide Privatised, FreshDirs, Top, Covered, StrictlySorted, Chosen, Out, Under, AllOnTop;
    moved, failed := sofar, false;
    ghost var t1 := Privatised(t, mountPoint).0;
    PrivatisedFresh(t, mountPoint, dirs);
    ChosenStep(list, mountPoint, outs, i);
    if Wanted(sofar, mountPoint, list[i]) {
      if outs[i] == Done {
        SubmountOnTop(t, list, mountPoint, i);
        ApartFromEarlier(list, mountPoint, outs, i);
        OneMoreOnTop(t, sofar, list[i]);
        OneMoreOnTop(t1, sofar, list[i]);
        MoveOut(ns, list[i], t1, mountPoint, sofar, dirs[|sofar|], dirs);
        moved := sofar + [list[i]];
      }
      failed := outs[i] == Failed;
    }
  }

  lemma OneMoreOnTop(t: Table, moved: seq<Mount>, m: Mount)
    requires AllOnTop(t, moved) && Top(t, m.path) == Some(m)
    ensures AllOnTop(t, moved + [m])
  {
  }

  /** Moves the chosen submounts to their temporary directories; reports failures, not entries passed over. */
  method MoveAllOut(ns: MountNamespace, list: seq<Mount>, mountPoint: Path, dirs: seq<Path>, outs: seq<Outcome>,
                    ghost t: Table)
    returns (moved: seq<Mount>, ok: bool)
    requires StrictlySorted(list) && |list| <= |dirs| && |list| <= |outs|
    requires list == [] || forall p :: Top(list, p) == Top(t, p)
    requires FreshDirs(t, mountPoint, dirs) && ns.table == Privatised(t, mountPoint).0
    modifies ns
    ensures moved == Chosen(list, mountPoint, outs[..|list|]) && |moved| <= |list|
    ensures forall i :: 0 <= i < |moved| ==> Under(moved[i].path, mountPoint)
    ensures AllOnTop(t, moved) && AllOnTop(Privatised(t, mountPoint).0, moved)
    ensures ns.table == Out(Privatised(t, mountPoint).0, moved, dirs)
    ensures ok <==> Never(list, mountPoint, outs[..|list|], Failed)
  {
    moved, ok := [], true;
    var i := 0;
    hide Privatised, FreshDirs, Top, Wanted, Under, StrictlySorted;
    assert list[..0] == [] && outs[..0] == [];
    assert Out(Privatised(t, mountPoint).0, [], dirs) == ns.table;
    while i < |list|
      invariant 0 <= i <= |list|
      invariant PartlyOut(ns.table, t, list, mountPoint, dirs, outs, i, moved)
      invariant ok <==> Never(list[..i], mountPoint, outs[..i], Failed)
    {
      NeverStep(list, mountPoint, outs, i, Failed);
      var failed;
      moved, failed := MoveNextOut(ns, list, mountPoint, dirs, outs, i, moved, t);
      ok := ok && !failed;
      i := i + 1;
    }
    assert list[..i] == list;
  }

  lemma NeverStep(list: seq<Mount>, mountPoint: Path, outs: seq<Outcome>, i: nat, out: Outcome)
    requires i < |list| && i < |outs|
    ensures Never(list[..i + 1], mountPoint, outs[..i + 1], out) <==>
            && Never(list[..i], mountPoint, outs[..i], out)
            && (Wanted(Chosen(list[..i], mountPoint, outs[..i]), mountPoint, list[i]) ==> outs[i] != out)
  {
    hide Wanted, Chosen;
    var l, o := list[..i + 1], outs[..i + 1];
    assert l[..i] == list[..i] && o[..i] == outs[..i];
    if Never(l, mountPoint, o, out) {
      NeverPrefix(l, mountPoint, o, out);
    }
    if Never(list[..i], mountPoint, outs[..i], out) {
      forall k | 0 <= k < i && Wanted(Chosen(l[..k], mountPoint, o[..k]), mountPoint, l[k])
        ensures o[k] != out
      {
        assert l[..k] == list[..i][..k] && o[..k] == outs[..i][..k];
        assert list[..i][k] == l[k] && outs[..i][k] == o[k];
      }
    }
  }

  lemma ChosenStep(list: seq<Mount>, mountPoint: Path, outs: seq<Outcome>, i: nat)
    requires i < |list| && i < |outs|
    ensures var moved := Chosen(list[..i], mountPoint, outs[..i]);
            Chosen(list[..i + 1], mountPoint, outs[..i + 1])
            == if Wanted(moved, mountPoint, list[i]) && outs[i] == Done then moved + [list[i]] else moved
  {
    assert list[..i + 1][..i] == list[..i] && outs[..i + 1][..i] == outs[..i];
  }

  lemma SubmountOnTop(t: Table, list: seq<Mount>, mountPoint: Path, i: nat)
    requires StrictlySorted(list) && i < |list| && (forall p :: Top(list, p) == Top(t, p))
    requires Under(list[i].path, mountPoint)
    ensures Top(t, list[i].path) == Some(list[i])
    ensures Top(Privatised(t, mountPoint).0, list[i].path) == Some(list[i])
  {
    CondensedEntries(t, list);
    PrivatisedSubmount(t, mountPoint, list[i].path);
  }

  lemma ApartFromEarlier(list: seq<Mount>, mountPoint: Path, outs: seq<Outcome>, i: nat)
    requires StrictlySorted(list) && i < |list| && i < |outs| && outs[i] == Done
    requires Wanted(Chosen(list[..i], mountPoint, outs[..i]), mountPoint, list[i])
    ensures var moved := Chosen(list[..i], mountPoint, outs[..i]);
            forall k :: 0 <= k < |moved| ==> Apart(moved[k].path, list[i].path)
  {
    ChosenStep(list, mountPoint, outs, i);
    ChosenAntichain(list[..i + 1], mountPoint, outs[..i + 1]);
    var moved := Chosen(list[..i], mountPoint, outs[..i]);
    var more := moved + [list[i]];
    assert forall k :: 0 <= k < |moved| ==> more[k] == moved[k];
    assert more[|moved|] == list[i];
  }

  /** Moves the parked submounts back, on top of the overlay; those for which it fails stay. */
  method MoveAllBack(ns: MountNamespace, moved: seq<Mount>, mountPoint: Path, ghost over: Table, dirs: seq<Path>,
                     back: seq<bool>, ghost t: Table)
    returns (ok: bool)
    requires AllAt(over, mountPoint)
    requires FreshDirs(t, mountPoint, dirs) && |moved| <= |dirs| && |moved| <= |back|
    requires forall i :: 0 <= i < |moved| ==> Under(moved[i].path, mountPoint)
    requires AllOnTop(t, moved) && AllOnTop(Privatised(t, mountPoint).0, moved)
    requires ns.table == Out(Privatised(t, mountPoint).0, moved, dirs) + over
    modifies ns
    ensures ns.table == Stay(Privatised(t, mountPoint).0, moved) + Stuck(t, moved, dirs, back, |moved|) + over
                        + Returned(t, Kept(moved, back, |moved|))
    ensures ok <==> forall k :: 0 <= k < |moved| ==> back[k]
  {
    hide Privatised, FreshDirs, Stay, AllOnTop, Returned, Kept, Stuck, Under, Back, Out;
    ghost var t1 := Privatised(t, mountPoint).0;
    PrivatisedFresh(t, mountPoint, dirs);
    BackStart(t1, moved, dirs, back, over);
    BackEnd(t, mountPoint, moved, dirs, back, over);
    ok := true;
    var j := 0;
    while j < |moved|
      invariant 0 <= j <= |moved|
      invariant ns.table == Back(t1, moved, dirs, back, over, j)
      invariant ok <==> forall k :: 0 <= k < j ==> back[k]
    {
      MoveBack(ns, moved[j], dirs[j], back[j], t1, mountPoint, moved, dirs, back, over, j);
      ok := ok && back[j];
      j := j + 1;
    }
  }

  lemma BackEnd(t: Table, mountPoint: Path, moved: seq<Mount>, dirs: seq<Path>, back: seq<bool>, over: Table)
    requires |moved| <= |dirs| && |moved| <= |back|
    requires forall i :: 0 <= i < |moved| ==> Under(moved[i].path, mountPoint)
    requires AllOnTop(t, moved) && AllOnTop(Privatised(t, mountPoint).0, moved)
    ensures var t1 := Privatised(t, mountPoint).0;
            Back(t1, moved, dirs, back, over, |moved|)
            == Stay(t1, moved) + Stuck(t, moved, dirs, back, |moved|) + over + Returned(t, Kept(moved, back, |moved|))
  {
    hide Privatised, Stay, AllOnTop, Returned, Kept, Stuck, Under, Parked, Back, ParkedAt;
    var t1, n := Privatised(t, mountPoint).0, |moved|;
    NoneParked(t1, moved, dirs, back, over);
    KeptUnder(t, moved, back, n, mountPoint);
    PrivatisedReturned(t, mountPoint, Kept(moved, back, n));
    PrivatisedStuck(t, mountPoint, moved, dirs, back, n);
  }

  lemma KeptUnder(t: Table, moved: seq<Mount>, back: seq<bool>, j: nat, mountPoint: Path)
    requires j <= |moved| && j <= |back| && AllOnTop(t, moved)
    requires forall i :: 0 <= i < |moved| ==> Under(moved[i].path, mountPoint)
    ensures forall i :: 0 <= i < |Kept(moved, back, j)| ==> Under(Kept(moved, back, j)[i].path, mountPoint)
  {
    hide AllOnTop, Kept, Under;
    KeptOnTop(t, moved, back, j, mountPoint);
  }

  lemma NoneParked(t: Table, moved: seq<Mount>, dirs: seq<Path>, back: seq<bool>, over: Table)
    requires AllOnTop(t, moved) && |moved| <= |dirs| && |moved| <= |back|
    ensures Back(t, moved, dirs, back, over, |moved|)
            == Stay(t, moved) + Stuck(t, moved, dirs, back, |moved|) + over + Returned(t, Kept(moved, back, |moved|))
  {
    hide Stay, AllOnTop, Returned, Kept, Stuck, ParkedAt;
    var a := Stay(t, moved) + Stuck(t, moved, dirs, back, |moved|);
    assert a + [] == a;
  }

  lemma BackStart(t: Table, moved: seq<Mount>, dirs: seq<Path>, back: seq<bool>, over: Table)
    requires AllOnTop(t, moved) && |moved| <= |dirs| && |moved| <= |back|
    ensures Back(t, moved, dirs, back, over, 0) == Out(t, moved, dirs) + over
  {
    hide Parked;
    assert Stay(t, moved) + [] == Stay(t, moved);
    assert Out(t, moved, dirs) + over + [] == Out(t, moved, dirs) + over;
  }

  /** Making the mount point private does not touch parked subtrees. */
  lemma {:induction false} PrivatisedStuck(t: Table, mountPoint: Path, moved: seq<Mount>, dirs: seq<Path>,
                                           back: seq<bool>, j: nat)
    requires forall i :: 0 <= i < |moved| ==> Under(moved[i].path, mountPoint)
    requires AllOnTop(t, moved) && AllOnTop(Privatised(t, mountPoint).0, moved)
    requires |moved| <= |dirs| && j <= |moved| && j <= |back|
    ensures Stuck(Privatised(t, mountPoint).0, moved, dirs, back, j) == Stuck(t, moved, dirs, back, j)
  {
    hide Privatised, Top, Carried, Under, AllOnTop, ParkedAt;
    if j > 0 {
      PrivatisedStuck(t, mountPoint, moved, dirs, back, j - 1);
      PrivatisedParked(t, mountPoint, moved, dirs, j - 1);
    }
  }

  lemma PrivatisedParked(t: Table, mountPoint: Path, moved: seq<Mount>, dirs: seq<Path>, k: nat)
    requires k < |moved| && k < |dirs| && Under(moved[k].path, mountPoint)
    requires AllOnTop(t, moved) && AllOnTop(Privatised(t, mountPoint).0, moved)
    ensures ParkedAt(Privatised(t, mountPoint).0, moved, dirs, k) == ParkedAt(t, moved, dirs, k)
  {
    hide Privatised, Top, Carried, Under, AllOnTop, HeadShared, Moved, Subtree;
    PrivatisedSubmount(t, mountPoint, moved[k].path);
  }

  /** Makes the mount point private; where it is `/system` and no mount point, the root. */
  method MakePrivate(ns: MountNamespace, mountPoint: Path) returns (rootMadePrivate: bool)
    modifies ns
    ensures (ns.table, rootMadePrivate) == Privatised(old(ns.table), mountPoint)
  {
    hide Top, WithShared;
    rootMadePrivate := false;
    var ok := ns.SetShared(mountPoint, false);
    if !ok {
      SharedNowhere(old(ns.table), mountPoint, false);
      if mountPoint == "/system" {
        rootMadePrivate := ns.SetShared("/", false);
        if !rootMadePrivate {
          SharedNowhere(old(ns.table), "/", false);
        }
      }
    }
  }

  /** Restores the propagation of the mount point and of the root. */
  method Propagate(ns: MountNamespace, mountPoint: Path, parentShared: bool, restoreRoot: bool)
    modifies ns
    ensures var shared := if parentShared then WithShared(old(ns.table), mountPoint, true) else old(ns.table);
            ns.table == if restoreRoot then WithShared(shared, "/", true) else shared
  {
    hide Top, WithShared;
    if parentShared {
      var ok := ns.SetShared(mountPoint, true);
    }
    if restoreRoot {
      var ok := ns.SetShared("/", true);
    }
  }

  lemma FlagsAgree(list: seq<Mount>, t: Table, mountPoint: Path)
    requires forall p :: Top(list, p) == Top(t, p)
    ensures SharedAt(list, MOVE_MOUNT_TEMP_DIR) == SharedAt(t, MOVE_MOUNT_TEMP_DIR)
    ensures SharedAt(list, "/") == SharedAt(t, "/") && ParentShared(list, mountPoint) == ParentShared(t, mountPoint)
  {
    hide Top;
  }

  /**
   Mounts the overlay. `outs[i]` tells what comes of moving out the submount with index `i`
   in the condensed table, `mounts` whether the overlay itself can be mounted, and `back[k]`
   whether the moved submount `k` can be moved back; propagation can be set where something
   is mounted. The outcome is the table with the overlay, if any, on top of the mount point,
   every subtree that was moved back on top of that, with its paths and propagation as they
   were, and the others in their temporary directories. The status tells whether the overlay
   was mounted and no move failed; a submount that was passed over does not count.
   */
  method MountOne(ns: MountNamespace, mountPoint: Path, fs: nat, dirs: seq<Path>, outs: seq<Outcome>, mounts: bool,
                  back: seq<bool>)
    returns (ok: bool, list: seq<Mount>, moved: seq<Mount>)
    requires FreshDirs(ns.table, mountPoint, dirs)
    requires |ns.table| <= |dirs| && |ns.table| <= |outs| && |ns.table| <= |back|
    modifies ns
    ensures StrictlySorted(list) && |list| <= |outs| && |moved| <= |dirs| && |moved| <= |back|
    ensures if Top(old(ns.table), "/dev/remount").Some? && !Top(old(ns.table), "/dev/remount").value.shared
            then forall p :: Top(list, p) == Top(old(ns.table), p) else list == []
    ensures moved == Chosen(list, mountPoint, outs[..|list|]) && AllOnTop(old(ns.table), moved)
    ensures ns.table == Overlaid(old(ns.table), mountPoint, fs, moved, Stuck(old(ns.table), moved, dirs, back, |moved|),
                                 Kept(moved, back, |moved|), mounts)
    ensures ok <==>
            && mounts && Never(list, mountPoint, outs[..|list|], Failed)
            && forall k :: 0 <= k < |moved| ==> back[k]
  {
    hide Top, Stay, Returned, Privatised, ParentShared, Under, FreshDirs, Chosen, Out, WithShared, Kept, Stuck;
    hide Never, AllOnTop;
    ghost var t := ns.table;
    list := Condense(ns.table);
    var moveDirShared, parentShared, rootShared := ReadFlags(list, mountPoint);
    FlagsAgree(list, t, mountPoint);
    if moveDirShared {
      list := [];
    }
    var rootMadePrivate := MakePrivate(ns, mountPoint);
    var movedOut;
    moved, movedOut := MoveAllOut(ns, list, mountPoint, dirs, outs, t);
    if mounts {
      ns.MountOverlay(mountPoint, fs);
    }
    var movedBack := MoveAllBack(ns, moved, mountPoint, Over(mountPoint, fs, mounts), dirs, back, t);
    Propagate(ns, mountPoint, parentShared, rootShared && rootMadePrivate);
    ok := movedOut && mounts && movedBack;
  }
}
