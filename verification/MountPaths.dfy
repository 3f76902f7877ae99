/** Mount points as path strings: lexical order, and the relation "lies under". */
module MountPaths {

  type Path = string

  /** Lexical order of strings. */
  predicate Before(a: Path, b: Path) {
    b != "" && (a == "" || a[0] < b[0] || (a[0] == b[0] && Before(a[1..], b[1..])))
  }

  /** `p` is strictly below directory `a`: it starts with `a/`. */
  predicate Under(p: Path, a: Path) {
    a + "/" <= p
  }

  /** `p` is `a` or lies below it. */
  predicate Covers(a: Path, p: Path) {
    p == a || Under(p, a)
  }

  predicate Apart(a: Path, b: Path) {
    !Covers(a, b) && !Covers(b, a)
  }

  lemma {:induction false} BeforeIrreflexive(a: Path)
    ensures !Before(a, a)
  {
    if a != "" {
      BeforeIrreflexive(a[1..]);
    }
  }

  lemma {:induction false} BeforeTotal(a: Path, b: Path)
    ensures a == b || Before(a, b) || Before(b, a)
  {
    if a != "" && b != "" && a[0] == b[0] {
      BeforeTotal(a[1..], b[1..]);
      assert a == [a[0]] + a[1..] && b == [b[0]] + b[1..];
    }
  }

  lemma {:induction false} BeforeTransitive(a: Path, b: Path, c: Path)
    requires Before(a, b) && Before(b, c)
    ensures Before(a, c)
  {
    if a != "" && a[0] == b[0] == c[0] {
      BeforeTransitive(a[1..], b[1..], c[1..]);
    }
  }

  lemma {:induction false} PrefixIsBefore(a: Path, b: Path)
    requires a <= b && a != b
    ensures Before(a, b)
  {
    if a != "" {
      PrefixIsBefore(a[1..], b[1..]);
    }
  }

  /** A directory comes before everything below it. */
  lemma UnderIsAfter(p: Path, a: Path)
    requires Under(p, a)
    ensures Before(a, p) && p != a
  {
    assert (a + "/")[..|a|] == a;
    PrefixIsBefore(a, p);
  }

  lemma UnderTransitive(p: Path, b: Path, a: Path)
    requires Under(p, b) && Under(b, a)
    ensures Under(p, a)
  {
    assert b <= p;
  }

  /** Two directories above the same path lie one below the other. */
  lemma CoversComparable(a: Path, b: Path, p: Path)
    requires Covers(a, p) && Covers(b, p)
    ensures Covers(a, b) || Covers(b, a)
  {
    if Under(p, a) && Under(p, b) {
      if |a| < |b| {
        assert (a + "/") == p[..|a| + 1] == b[..|a| + 1];
      } else if |b| < |a| {
        assert (b + "/") == p[..|b| + 1] == a[..|b| + 1];
      } else {
        assert a == p[..|a|] == b;
      }
    }
  }

  lemma CoversTransitive(a: Path, b: Path, c: Path)
    requires Covers(a, b) && Covers(b, c)
    ensures Covers(a, c)
  {
    if Under(b, a) && Under(c, b) {
      UnderTransitive(c, b, a);
    }
  }

  /** `p` with its leading `from` exchanged for `to`. */
  function Rebase(p: Path, from: Path, to: Path): (r: Path)
    requires Covers(from, p)
    ensures Covers(to, r) && (r == to <==> p == from)
  {
    var r := to + p[|from|..];
    assert Under(p, from) ==> p[|from|..][0] == '/' && to + "/" <= r;
    r
  }

  lemma RebaseBack(p: Path, from: Path, to: Path)
    requires Covers(from, p)
    ensures Rebase(Rebase(p, from, to), to, from) == p
  {
  }
}
