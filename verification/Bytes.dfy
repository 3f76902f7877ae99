/** Bytes, byte strings, and the fixed-width integer fields the wire and image formats use. */
module Bytes {

  type byte = x: int | 0 <= x < 256

  datatype Option<+T> = None | Some(value: T)

  const U16: int := 0x1_0000
  const U32: int := 0x1_0000_0000

  function Min(a: int, b: int): int {
    if a <= b then a else b
  }

  function Zeros(n: nat): (r: seq<byte>) {
    seq(n, _ => 0)
  }

  /** The low 16 bits of `v`, most significant byte first. */
  function BigEndian16(v: int): (r: seq<byte>)
    ensures |r| == 2
  {
    [v / 256 % 256, v % 256]
  }

  function FromBigEndian16(b: seq<byte>): (v: int)
    requires |b| == 2
    ensures 0 <= v < U16
  {
    b[0] as int * 256 + b[1] as int
  }

  lemma BigEndian16RoundTrip(v: int, b: seq<byte>)
    requires |b| == 2
    ensures FromBigEndian16(BigEndian16(v)) == v % U16
    ensures BigEndian16(FromBigEndian16(b)) == b
  {
  }

  /** The low 32 bits of `v`, least significant byte first. */
  function LittleEndian32(v: int): (r: seq<byte>)
    ensures |r| == 4
  {
    var lo, hi := v % U16, v / U16 % U16;
    [lo % 256, lo / 256, hi % 256, hi / 256]
  }

  function FromLittleEndian32(b: seq<byte>): (v: int)
    requires |b| == 4
    ensures 0 <= v < U32
  {
    var lo, hi := b[0] as int + 256 * (b[1] as int), b[2] as int + 256 * (b[3] as int);
    lo + U16 * hi
  }

  lemma Halves(v: int, lo: int, hi: int)
    requires 0 <= lo < U16 && 0 <= hi < U16
    ensures v % U32 == v % U16 + U16 * (v / U16 % U16)
    ensures (lo + U16 * hi) % U16 == lo && (lo + U16 * hi) / U16 == hi
  {
  }

  lemma LittleEndian32Read(v: int)
    ensures FromLittleEndian32(LittleEndian32(v)) == v % U32
  {
    var lo, hi := v % U16, v / U16 % U16;
    Halves(v, lo, hi);
    assert lo == lo % 256 + 256 * (lo / 256);
    assert hi == hi % 256 + 256 * (hi / 256);
  }

  lemma LittleEndian32Write(b: seq<byte>)
    requires |b| == 4
    ensures LittleEndian32(FromLittleEndian32(b)) == b
  {
    var lo, hi := b[0] as int + 256 * (b[1] as int), b[2] as int + 256 * (b[3] as int);
    Halves(0, lo, hi);
  }

  lemma MulAtLeast(e: int, n: int)
    requires e >= 1 && n > 0
    ensures e * n >= n
  {
  }

  lemma QuotientUnique(n: int, k: int, d: int, m: int)
    requires 0 <= m < n && k * n == d * n + m
    ensures k == d
  {
    if k > d {
      MulAtLeast(k - d, n);
    } else if k < d {
      MulAtLeast(d - k, n);
    }
  }

  lemma DivideBack(k: int, n: int)
    requires n > 0
    ensures k * n / n == k
  {
    var x := k * n;
    QuotientUnique(n, k, x / n, x % n);
  }

  lemma SliceJoin<T>(s: seq<T>, a: nat, b: nat)
    requires a <= b <= |s|
    ensures s[..a] + s[a..b] == s[..b]
  {
  }

  lemma AppendAssoc<T>(a: seq<T>, b: seq<T>, c: seq<T>)
    ensures (a + b) + c == a + (b + c)
  {
  }

  /** Concatenation of a list of byte strings. */
  function Flatten(parts: seq<seq<byte>>): (r: seq<byte>) {
    if parts == [] then [] else parts[0] + Flatten(parts[1..])
  }

  lemma {:induction false} FlattenAppend(a: seq<seq<byte>>, b: seq<seq<byte>>)
    ensures Flatten(a + b) == Flatten(a) + Flatten(b)
  {
    if a == [] {
      assert a + b == b;
    } else {
      FlattenAppend(a[1..], b);
      assert (a + b)[1..] == a[1..] + b;
      AppendAssoc(a[0], Flatten(a[1..]), Flatten(b));
    }
  }

  lemma FlattenSnoc(a: seq<seq<byte>>, x: seq<byte>)
    ensures Flatten(a + [x]) == Flatten(a) + x
  {
    FlattenAppend(a, [x]);
    assert Flatten([x]) == x + Flatten([]);
  }

  /** `before` with `chunk` written at `off`. */
  function Overlay(before: seq<byte>, off: nat, chunk: seq<byte>): (after: seq<byte>)
    requires off + |chunk| <= |before|
    ensures |after| == |before|
  {
    before[..off] + chunk + before[off + |chunk|..]
  }

  lemma OverlayOver(b: seq<byte>, off: nat, x: seq<byte>, y: seq<byte>)
    requires |x| == |y| && off + |x| <= |b|
    ensures Overlay(Overlay(b, off, x), off, y) == Overlay(b, off, y)
  {
  }

  lemma OverlaySame(b: seq<byte>, off: nat, n: nat)
    requires off + n <= |b|
    ensures Overlay(b, off, b[off..off + n]) == b
  {
  }

  lemma OverlayAt(b: seq<byte>, off: nat, x: seq<byte>)
    requires off + |x| <= |b|
    ensures Overlay(b, off, x)[off..off + |x|] == x
  {
  }

  lemma OverlayBefore(b: seq<byte>, off: nat, x: seq<byte>, i: nat, j: nat)
    requires i <= j <= off && off + |x| <= |b|
    ensures Overlay(b, off, x)[i..j] == b[i..j]
  {
  }

  lemma OverlayAfter(b: seq<byte>, off: nat, x: seq<byte>, i: nat, j: nat)
    requires off + |x| <= i <= j <= |b|
    ensures Overlay(b, off, x)[i..j] == b[i..j]
  {
  }

  lemma SliceMiddle<T>(a: seq<T>, b: seq<T>, c: seq<T>)
    ensures (a + b + c)[|a|..|a| + |b|] == b
  {
  }

  lemma SliceSlice<T>(s: seq<T>, a: nat, b: nat, i: nat, j: nat)
    requires a <= b <= |s| && i <= j <= b - a
    ensures s[a..b][i..j] == s[a + i..a + j]
  {
    var x, y := s[a..b][i..j], s[a + i..a + j];
    assert |x| == |y|;
    assert forall k :: 0 <= k < |x| ==> x[k] == y[k];
  }

  lemma ZerosJoin(a: nat, b: nat)
    ensures Zeros(a) + Zeros(b) == Zeros(a + b)
  {
  }

  lemma InsertedMultiset<T>(s: seq<T>, e: T, k: nat)
    requires k <= |s|
    ensures multiset(s[..k] + [e] + s[k..]) == multiset(s) + multiset{e}
  {
    assert s == s[..k] + s[k..];
  }
}
