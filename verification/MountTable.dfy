/**
 The mount table and the system calls on it. Entries are in the order they were attached,
 so the last entry at a path is the one the path reaches, and entries below a path that
 come after it are mounted inside it and move along with it.
 */
module MountTable {
  import opened Bytes
  import opened MountPaths
  import opened MountSelect

  type Table = seq<Mount>

  /** What moves with the mount on top at `p`: that mount, and what is mounted inside it. */
  function Carried(t: Table, p: Path): (c: Table) {
    if t == [] then []
    else
      var n := |t| - 1;
      if t[n].path == p then [t[n]]
      else Carried(t[..n], p) + if Under(t[n].path, p) then [t[n]] else []
  }

  /** What stays behind. */
  function Left(t: Table, p: Path): (l: Table) {
    if t == [] then []
    else
      var n := |t| - 1;
      if t[n].path == p then t[..n]
      else Left(t[..n], p) + if Under(t[n].path, p) then [] else [t[n]]
  }

  function Moved(c: Table, from: Path, to: Path): (r: Table)
    requires forall i :: 0 <= i < |c| ==> Covers(from, c[i].path)
    ensures |r| == |c|
  {
    seq(|c|, i requires 0 <= i < |c| => c[i].(path := Rebase(c[i].path, from, to)))
  }

  /** Sets the propagation of the mount on top at `p`. */
  function WithShared(t: Table, p: Path, shared: bool): (r: Table)
    ensures |r| == |t|
  {
    if t == [] then []
    else
      var n := |t| - 1;
      if t[n].path == p then t[..n] + [t[n].(shared := shared)]
      else WithShared(t[..n], p, shared) + [t[n]]
  }

  // ----- Subtrees

  /** A mount at `p` followed by mounts below it. */
  predicate Subtree(c: Table, p: Path) {
    && c != [] && c[0].path == p
    && (forall i :: 0 < i < |c| ==> Under(c[i].path, p))
  }

  predicate NoneAt(t: Table, p: Path) {
    forall i :: 0 <= i < |t| ==> !Covers(p, t[i].path)
  }

  function HeadShared(c: Table, shared: bool): (r: Table) {
    if c == [] then [] else [c[0].(shared := shared)] + c[1..]
  }

  lemma {:induction false} CarriedIsSubtree(t: Table, p: Path)
    requires Top(t, p).Some?
    ensures Subtree(Carried(t, p), p) && Carried(t, p)[0] == Top(t, p).value
  {
    var n := |t| - 1;
    if t[n].path != p {
      CarriedIsSubtree(t[..n], p);
    }
  }

  lemma {:induction false} CarriedIsCovered(t: Table, p: Path)
    ensures forall i :: 0 <= i < |Carried(t, p)| ==> Covers(p, Carried(t, p)[i].path)
  {
    if t != [] && t[|t| - 1].path != p {
      CarriedIsCovered(t[..|t| - 1], p);
    }
  }

  lemma NotBoth(p: Path, q: Path, x: Path)
    requires Apart(p, q) && Covers(p, x)
    ensures !Covers(q, x)
  {
    if Covers(q, x) {
      CoversComparable(p, q, x);
    }
  }

  /** Subtrees at paths that lie apart do not touch each other. */
  lemma {:induction false} CarriedAfterLeft(t: Table, p: Path, q: Path)
    requires Apart(p, q)
    ensures Carried(Left(t, p), q) == Carried(t, q)
    ensures Top(Left(t, p), q) == Top(t, q)
  {
    if t != [] {
      var n := |t| - 1;
      var e := t[n];
      if e.path == p {
        assert Carried(t, q) == Carried(t[..n], q);
      } else {
        CarriedAfterLeft(t[..n], p, q);
        var l := Left(t[..n], p);
        if Under(e.path, p) {
          assert Left(t, p) == l;
          NotBoth(p, q, e.path);
        } else {
          assert Left(t, p) == l + [e] && (l + [e])[..|l|] == l;
        }
      }
    }
  }

  lemma {:induction false} Beside(t: Table, s: Table, q: Path)
    requires NoneAt(s, q)
    ensures Carried(t + s, q) == Carried(t, q)
    ensures Left(t + s, q) == Left(t, q) + s
    ensures Top(t + s, q) == Top(t, q)
  {
    if s == [] {
      assert t + s == t;
    } else {
      var n := |s| - 1;
      assert (t + s)[..|t + s| - 1] == t + s[..n];
      Beside(t, s[..n], q);
      assert !Covers(q, s[n].path);
    }
  }

  lemma {:induction false} WholeSubtree(t: Table, c: Table, q: Path)
    requires Subtree(c, q)
    ensures Carried(t + c, q) == c && Left(t + c, q) == t && Top(t + c, q) == Some(c[0])
  {
    var n := |c| - 1;
    assert (t + c)[..|t + c| - 1] == t + c[..n];
    if n > 0 {
      UnderIsAfter(c[n].path, q);
      WholeSubtree(t, c[..n], q);
      assert c == c[..n] + [c[n]];
    } else {
      assert t + c[..0] == t;
    }
  }

  // ----- Propagation flags

  lemma {:induction false} SharedThenCarried(t: Table, p: Path, shared: bool)
    requires Top(t, p).Some?
    ensures Carried(WithShared(t, p, shared), p) == HeadShared(Carried(t, p), shared)
    ensures Left(WithShared(t, p, shared), p) == Left(t, p)
    ensures Top(WithShared(t, p, shared), p).Some?
  {
    var n := |t| - 1;
    var e := t[n];
    if e.path == p {
      var r := t[..n] + [e.(shared := shared)];
      assert r[..n] == t[..n];
    } else {
      SharedThenCarried(t[..n], p, shared);
      CarriedIsSubtree(t[..n], p);
      var w := WithShared(t[..n], p, shared);
      assert (w + [e])[..n] == w;
    }
  }

  lemma {:induction false} SharedBeside(t: Table, c: Table, p: Path, shared: bool)
    requires Subtree(c, p)
    ensures WithShared(t + c, p, shared) == t + HeadShared(c, shared)
  {
    var n := |c| - 1;
    assert (t + c)[..|t + c| - 1] == t + c[..n];
    if n > 0 {
      UnderIsAfter(c[n].path, p);
      SharedBeside(t, c[..n], p, shared);
      assert HeadShared(c, shared) == HeadShared(c[..n], shared) + [c[n]];
    } else {
      assert t + c[..0] == t;
    }
  }

  lemma {:induction false} SharedNowhere(t: Table, p: Path, shared: bool)
    requires Top(t, p) == None
    ensures WithShared(t, p, shared) == t
  {
    if t != [] {
      SharedNowhere(t[..|t| - 1], p, shared);
    }
  }

  lemma MovedSubtree(c: Table, from: Path, to: Path)
    requires Subtree(c, from)
    ensures forall i :: 0 <= i < |c| ==> Covers(from, c[i].path)
    ensures Subtree(Moved(c, from, to), to)
    ensures forall i :: 0 <= i < |c| ==> Covers(to, Moved(c, from, to)[i].path)
    ensures Moved(Moved(c, from, to), to, from) == c
  {
    forall i | 0 < i < |c|
      ensures Under(Moved(c, from, to)[i].path, to)
    {
      UnderIsAfter(c[i].path, from);
    }
    forall i | 0 <= i < |c|
      ensures Rebase(Rebase(c[i].path, from, to), to, from) == c[i].path
    {
      RebaseBack(c[i].path, from, to);
    }
  }

  lemma HeadSharedSubtree(c: Table, p: Path, shared: bool)
    requires Subtree(c, p)
    ensures Subtree(HeadShared(c, shared), p)
    ensures c[0].shared == shared ==> HeadShared(c, shared) == c
    ensures HeadShared(HeadShared(c, shared), c[0].shared) == c
  {
    var r := HeadShared(c, shared);
    assert forall i :: 0 < i < |c| ==> r[i] == c[i];
    assert c == [c[0]] + c[1..];
  }

  class MountNamespace {
    var table: Table

    constructor (table: Table)
      ensures this.table == table
    {
      this.table := table;
    }

    method SetShared(p: Path, shared: bool) returns (ok: bool)
      modifies this
      ensures ok <==> Top(old(table), p).Some?
      ensures table == WithShared(old(table), p, shared)
    {
      if Top(table, p) == None {
        SharedNowhere(table, p, shared);
        return false;
      }
      table := WithShared(table, p, shared);
      ok := true;
    }

    method Move(from: Path, to: Path) returns (ok: bool)
      modifies this
      ensures ok <==> Top(old(table), from).Some?
      ensures !ok ==> table == old(table)
      ensures ok ==>
                && (forall i :: 0 <= i < |Carried(old(table), from)| ==>
                      Covers(from, Carried(old(table), from)[i].path))
                && table == Left(old(table), from) + Moved(Carried(old(table), from), from, to)
    {
      if Top(table, from) == None {
        return false;
      }
      CarriedIsCovered(table, from);
      table := Left(table, from) + Moved(Carried(table, from), from, to);
      ok := true;
    }

    method MountOverlay(p: Path, fs: nat)
      modifies this
      ensures table == old(table) + [Mount(p, false, fs)]
    {
      table := table + [Mount(p, false, fs)];
    }
  }
}
