/**
 Making boot images: a header page followed by page-aligned sections. The header is a C
 struct in little-endian order; versions 0 to 2 share one layout and versions 3 and 4
 another.
 */
module BootImage {
  import opened Bytes
  import Words = VendorBootFormat

  const V1_HEADER_SIZE := 1648
  const V2_HEADER_SIZE := 1660
  const V3_HEADER_SIZE := 1580
  const V3_PAGE_SIZE := 4096

  /** "ANDROID!" */
  const BOOT_MAGIC: seq<byte> := [65, 78, 68, 82, 79, 73, 68, 33]

  // Offsets of the fields of versions 0 to 2.
  const KERNEL_SIZE_AT := 8
  const KERNEL_ADDR_AT := 12
  const RAMDISK_SIZE_AT := 16
  const RAMDISK_ADDR_AT := 20
  const SECOND_SIZE_AT := 24
  const SECOND_ADDR_AT := 28
  const TAGS_ADDR_AT := 32
  const PAGE_SIZE_AT := 36
  const VERSION_AT := 40
  const OS_VERSION_AT := 44
  const HEADER_SIZE_AT := 1644
  const DTB_SIZE_AT := 1648
  const DTB_ADDR_AT := 1652

  // Offsets of the fields of versions 3 and 4; the version is where it was.
  const V3_RAMDISK_SIZE_AT := 12
  const V3_OS_VERSION_AT := 16
  const V3_HEADER_SIZE_AT := 20
  const V4_SIGNATURE_SIZE_AT := 1580

  // ----- Rounding with masks

  predicate PowerOfTwo(p: nat) {
    p == 1 || (p > 1 && p % 2 == 0 && PowerOfTwo(p / 2))
  }

  /** The bits of `a` that are not in `b`. */
  function AndNot(a: nat, b: nat): (r: nat) {
    if a == 0 then 0 else (if a % 2 == 1 && b % 2 == 0 then 1 else 0) + 2 * AndNot(a / 2, b / 2)
  }

  lemma {:induction false} AndNotZero(a: nat)
    ensures AndNot(a, 0) == a
  {
    if a > 0 {
      AndNotZero(a / 2);
    }
  }

  lemma HalfMod(a: nat, p: nat)
    requires p > 0 && p % 2 == 0
    ensures a % p == a % 2 + 2 * (a / 2 % (p / 2))
  {
    var h := p / 2;
    var q, m := a / 2 / h, a / 2 % h;
    assert a == 2 * (a / 2) + a % 2 && a / 2 == h * q + m;
    assert 2 * (h * q) == p * q;
    assert a == p * q + (2 * m + a % 2);
    ModUnique(a, p, q, 2 * m + a % 2);
  }

  lemma ModUnique(a: int, p: int, q: int, m: int)
    requires 0 <= m < p && a == p * q + m
    ensures a % p == m
  {
    var k, r := a / p, a % p;
    assert a == k * p + r && p * q == q * p;
    if r <= m {
      Shifted(q, k, p, m, r);
    } else {
      Shifted(k, q, p, r, m);
    }
  }

  lemma Shifted(x: int, y: int, p: int, m: int, n: int)
    requires 0 <= n <= m < p && x * p + m == y * p + n
    ensures x == y && m == n
  {
    QuotientUnique(p, y, x, m - n);
  }

  lemma {:induction false} AndNotMask(a: nat, p: nat)
    requires PowerOfTwo(p)
    ensures AndNot(a, p - 1) == a - a % p
    decreases p
  {
    if p == 1 {
      AndNotZero(a);
    } else {
      AndNotMask(a / 2, p / 2);
      HalfMod(a, p);
      assert (p - 1) / 2 == p / 2 - 1 && (p - 1) % 2 == 1;
    }
  }

  function RoundUp(n: nat, p: nat): (r: nat)
    requires p > 0
  {
    AndNot(n + p - 1, p - 1)
  }

  /** For a power of two the mask rounds up to the next multiple. */
  lemma RoundUpExact(n: nat, p: nat)
    requires PowerOfTwo(p)
    ensures n <= RoundUp(n, p) < n + p && RoundUp(n, p) % p == 0
    ensures 0 < n <= p ==> RoundUp(n, p) == p
  {
    AndNotMask(n + p - 1, p);
    hide AndNot, PowerOfTwo;
    RoundDown(n + p - 1, p);
    if 0 < n <= p {
      assert n + p - 1 == p * 1 + (n - 1);
      ModUnique(n + p - 1, p, 1, n - 1);
    }
  }

  lemma {:induction false} AndNotAtLeast(a: nat, b: nat)
    ensures AndNot(a, b) >= a - b
  {
    if a > 0 {
      AndNotAtLeast(a / 2, b / 2);
    }
  }

  /** For any page size the mask gives at least the size itself. */
  lemma RoundUpCovers(n: nat, p: nat)
    requires p > 0
    ensures n <= RoundUp(n, p)
  {
    AndNotAtLeast(n + p - 1, p - 1);
  }

  lemma RoundDown(a: nat, p: nat)
    requires p > 0
    ensures 0 <= a % p < p && (a - a % p) % p == 0
  {
    ModUnique(a - a % p, p, a / p, 0);
  }

  // ----- Sections

  function Pad(x: seq<byte>, p: nat): (r: seq<byte>)
    requires p > 0
    ensures |r| == RoundUp(|x|, p)
  {
    RoundUpCovers(|x|, p);
    x + Zeros(RoundUp(|x|, p) - |x|)
  }

  /** Sections one after the other, each padded with zeros to a page boundary. */
  function PadAll(xs: seq<seq<byte>>, p: nat): (r: seq<byte>)
    requires p > 0
  {
    if xs == [] then [] else Pad(xs[0], p) + PadAll(xs[1..], p)
  }

  /** What a boot loader finds at `at`: sections of the given sizes, page by page. */
  function ReadSections(img: seq<byte>, at: nat, sizes: seq<nat>, p: nat): (r: Option<seq<seq<byte>>>)
    requires p > 0
    decreases |sizes|
  {
    if sizes == [] then Some([])
    else if at + sizes[0] > |img| then None
    else
      var rest := ReadSections(img, at + RoundUp(sizes[0], p), sizes[1..], p);
      if rest.None? then None else Some([img[at..at + sizes[0]]] + rest.value)
  }

  function Lengths(xs: seq<seq<byte>>): (r: seq<nat>) {
    seq(|xs|, i requires 0 <= i < |xs| => |xs[i]|)
  }

  lemma {:induction false} SectionsRead(head: seq<byte>, xs: seq<seq<byte>>, tail: seq<byte>, p: nat)
    requires p > 0
    ensures ReadSections(head + PadAll(xs, p) + tail, |head|, Lengths(xs), p) == Some(xs)
    decreases |xs|
  {
    hide RoundUp, ReadSections, Lengths, PadAll, Pad;
    PadFirst(xs, p);
    var img := head + PadAll(xs, p) + tail;
    if xs != [] {
      var x, rest := xs[0], xs[1..];
      PadSplit(xs, p);
      AppendAssoc(head, Pad(x, p), PadAll(rest, p));
      SectionsRead(head + Pad(x, p), rest, tail, p);
      FirstSection(head, x, Zeros(RoundUp(|x|, p) - |x|), PadAll(rest, p), tail);
    }
    ReadFirst(img, |head|, xs, p);
  }

  lemma PadSplit(xs: seq<seq<byte>>, p: nat)
    requires p > 0 && xs != []
    ensures |xs[0]| <= RoundUp(|xs[0]|, p)
    ensures PadAll(xs, p) == Pad(xs[0], p) + PadAll(xs[1..], p)
    ensures Pad(xs[0], p) == xs[0] + Zeros(RoundUp(|xs[0]|, p) - |xs[0]|) && |Pad(xs[0], p)| == RoundUp(|xs[0]|, p)
  {
    RoundUpCovers(|xs[0]|, p);
  }

  lemma FirstSection(head: seq<byte>, x: seq<byte>, zeros: seq<byte>, rest: seq<byte>, tail: seq<byte>)
    ensures var img := head + (x + zeros) + rest + tail;
            |head| + |x| <= |img| && img[|head|..|head| + |x|] == x
  {
  }

  lemma {:induction false} ReadLengths(img: seq<byte>, at: nat, sizes: seq<nat>, p: nat)
    requires p > 0 && ReadSections(img, at, sizes, p).Some?
    ensures var xs := ReadSections(img, at, sizes, p).value; Lengths(xs) == sizes
    decreases |sizes|
  {
    if sizes != [] {
      var next := at + RoundUp(sizes[0], p);
      ReadLengths(img, next, sizes[1..], p);
      var xs := ReadSections(img, at, sizes, p).value;
      var rest := ReadSections(img, next, sizes[1..], p).value;
      assert xs[0] == img[at..at + sizes[0]] && xs[1..] == rest;
      assert Lengths(xs) == [sizes[0]] + Lengths(rest);
    }
  }

  /** Copying a section to where the zeros begin. */
  lemma Place(a: seq<byte>, x: seq<byte>, n: nat, p: nat)
    requires p > 0 && RoundUp(|x|, p) <= n
    ensures |a| + |x| <= |a + Zeros(n)|
    ensures Overlay(a + Zeros(n), |a|, x) == a + Pad(x, p) + Zeros(n - RoundUp(|x|, p))
  {
    RoundUpCovers(|x|, p);
    var r := RoundUp(|x|, p);
    hide RoundUp;
    assert Zeros(n) == Zeros(r) + Zeros(n - r) by {
      ZerosJoin(r, n - r);
    }
    assert (a + Zeros(n))[..|a|] == a;
    assert (a + Zeros(n))[|a| + |x|..] == Zeros(r - |x|) + Zeros(n - r);
  }

  // ----- Sections copied over what is there

  /** Sections copied one after the other, each to a page boundary. */
  function PutAll(out: seq<byte>, at: nat, xs: seq<seq<byte>>, p: nat): (r: seq<byte>)
    requires p > 0 && at + |PadAll(xs, p)| <= |out|
    ensures |r| == |out|
    decreases |xs|
  {
    if xs == [] then out
    else
      RoundUpCovers(|xs[0]|, p);
      PutAll(Overlay(out, at, xs[0]), at + RoundUp(|xs[0]|, p), xs[1..], p)
  }

  /** The byte at `i` once the sections are copied: that of the section that covers it, else what was there. */
  function Covering(b: byte, at: nat, xs: seq<seq<byte>>, p: nat, i: nat): (r: byte)
    requires p > 0
    decreases |xs|
  {
    if xs == [] then b
    else if at <= i < at + |xs[0]| then xs[0][i - at]
    else Covering(b, at + RoundUp(|xs[0]|, p), xs[1..], p, i)
  }

  lemma {:induction false} CoveringBefore(b: byte, at: nat, xs: seq<seq<byte>>, p: nat, i: nat)
    requires p > 0 && i < at
    ensures Covering(b, at, xs, p, i) == b
    decreases |xs|
  {
    if xs != [] {
      CoveringBefore(b, at + RoundUp(|xs[0]|, p), xs[1..], p, i);
    }
  }

  lemma {:induction false} PutAllAt(out: seq<byte>, at: nat, xs: seq<seq<byte>>, p: nat, i: nat)
    requires p > 0 && at + |PadAll(xs, p)| <= |out| && i < |out|
    ensures |PutAll(out, at, xs, p)| == |out| && PutAll(out, at, xs, p)[i] == Covering(out[i], at, xs, p, i)
    decreases |xs|
  {
    hide RoundUp, PutAll, PadAll;
    PadFirst(xs, p);
    PutLength(out, at, xs, p);
    PutFirst(out, at, xs, p);
    if xs != [] {
      var one, next := Overlay(out, at, xs[0]), at + RoundUp(|xs[0]|, p);
      PutAllAt(one, next, xs[1..], p, i);
      if at <= i < at + |xs[0]| {
        CoveringBefore(one[i], next, xs[1..], p, i);
      }
    }
  }

  /** None of the sections touches the bytes from `lo` to `hi`. */
  predicate Misses(at: nat, xs: seq<seq<byte>>, p: nat, lo: nat, hi: nat)
    requires p > 0
    decreases |xs|
  {
    xs == [] || ((at + |xs[0]| <= lo || hi <= at) && Misses(at + RoundUp(|xs[0]|, p), xs[1..], p, lo, hi))
  }

  lemma {:induction false} MissesBefore(at: nat, xs: seq<seq<byte>>, p: nat, lo: nat, hi: nat)
    requires p > 0 && hi <= at
    ensures Misses(at, xs, p, lo, hi)
    decreases |xs|
  {
    if xs != [] {
      MissesBefore(at + RoundUp(|xs[0]|, p), xs[1..], p, lo, hi);
    }
  }

  lemma {:induction false} PutAllMisses(out: seq<byte>, at: nat, xs: seq<seq<byte>>, p: nat, lo: nat, hi: nat)
    requires p > 0 && at + |PadAll(xs, p)| <= |out| && lo <= hi <= |out| && Misses(at, xs, p, lo, hi)
    ensures PutAll(out, at, xs, p)[lo..hi] == out[lo..hi]
    decreases |xs|
  {
    hide RoundUp, PutAll, PadAll;
    PadFirst(xs, p);
    PutFirst(out, at, xs, p);
    if xs != [] {
      if hi <= at {
        OverlayBefore(out, at, xs[0], lo, hi);
      } else {
        OverlayAfter(out, at, xs[0], lo, hi);
      }
      hide Overlay;
      PutAllMisses(Overlay(out, at, xs[0]), at + RoundUp(|xs[0]|, p), xs[1..], p, lo, hi);
    }
  }

  lemma {:induction false} PadFirst(xs: seq<seq<byte>>, p: nat)
    requires p > 0
    ensures xs != [] ==>
              |PadAll(xs, p)| == RoundUp(|xs[0]|, p) + |PadAll(xs[1..], p)| && |xs[0]| <= RoundUp(|xs[0]|, p)
  {
    if xs != [] {
      RoundUpCovers(|xs[0]|, p);
    }
    hide RoundUp;
  }

  lemma {:induction false} PutFirst(out: seq<byte>, at: nat, xs: seq<seq<byte>>, p: nat)
    requires p > 0 && at + |PadAll(xs, p)| <= |out|
    requires xs != [] ==>
               |PadAll(xs, p)| == RoundUp(|xs[0]|, p) + |PadAll(xs[1..], p)| && |xs[0]| <= RoundUp(|xs[0]|, p)
    ensures xs == [] ==> PutAll(out, at, xs, p) == out
    ensures xs != [] ==>
              PutAll(out, at, xs, p) == PutAll(Overlay(out, at, xs[0]), at + RoundUp(|xs[0]|, p), xs[1..], p)
  {
    hide RoundUp, Overlay, PadAll;
  }

  lemma {:induction false} ReadFirst(img: seq<byte>, at: nat, xs: seq<seq<byte>>, p: nat)
    requires p > 0
    requires xs != [] ==>
               && at + |xs[0]| <= |img| && img[at..at + |xs[0]|] == xs[0]
               && ReadSections(img, at + RoundUp(|xs[0]|, p), Lengths(xs[1..]), p) == Some(xs[1..])
    ensures ReadSections(img, at, Lengths(xs), p) == Some(xs)
  {
    hide RoundUp;
    if xs != [] {
      assert Lengths(xs)[1..] == Lengths(xs[1..]) && [xs[0]] + xs[1..] == xs;
    }
  }

  /** Copied sections are read back by their lengths, whatever lay there before. */
  lemma {:induction false} PutAllReads(out: seq<byte>, at: nat, xs: seq<seq<byte>>, p: nat)
    requires p > 0 && at + |PadAll(xs, p)| <= |out|
    ensures ReadSections(PutAll(out, at, xs, p), at, Lengths(xs), p) == Some(xs)
    decreases |xs|
  {
    hide RoundUp, Overlay, PutAll, PadAll, Misses, ReadSections, Lengths;
    PadFirst(xs, p);
    PutLength(out, at, xs, p);
    if xs != [] {
      var x, rest := xs[0], xs[1..];
      PutFirst(out, at, xs, p);
      var next := at + RoundUp(|x|, p);
      OverlayLength(out, at, x);
      PutAllReads(Overlay(out, at, x), next, rest, p);
      MissesBefore(next, rest, p, at, at + |x|);
      PutAllMisses(Overlay(out, at, x), next, rest, p, at, at + |x|);
      OverlayAt(out, at, x);
    }
    ReadFirst(PutAll(out, at, xs, p), at, xs, p);
  }

  lemma PutLength(out: seq<byte>, at: nat, xs: seq<seq<byte>>, p: nat)
    requires p > 0 && at + |PadAll(xs, p)| <= |out|
    ensures |PutAll(out, at, xs, p)| == |out|
  {
  }

  lemma OverlayLength(out: seq<byte>, at: nat, x: seq<byte>)
    requires at + |x| <= |out|
    ensures |Overlay(out, at, x)| == |out|
  {
  }

  lemma {:induction false} ReadFewer(img: seq<byte>, at: nat, sizes: seq<nat>, p: nat, count: nat)
    requires p > 0 && ReadSections(img, at, sizes, p).Some? && count <= |sizes|
    ensures var xs := ReadSections(img, at, sizes, p).value;
            count <= |xs| && ReadSections(img, at, sizes[..count], p) == Some(xs[..count])
    decreases |sizes|
  {
    if count > 0 {
      ReadFewer(img, at + RoundUp(sizes[0], p), sizes[1..], p, count - 1);
      assert sizes[..count][1..] == sizes[1..][..count - 1];
      var xs := ReadSections(img, at, sizes, p).value;
      assert xs[..count] == [xs[0]] + xs[1..][..count - 1];
    }
  }

  // ----- Header fields

  predicate Inside(fields: map<nat, int>, i: int) {
    exists k :: k in fields.Keys && k <= i < k + 4
  }

  /** A header that differs from `src` in the given fields only. */
  predicate FieldsAre(h: seq<byte>, src: seq<byte>, fields: map<nat, int>) {
    && |h| == |src|
    && (forall k :: k in fields.Keys ==> k + 4 <= |h|)
    && (forall k :: k in fields.Keys ==> Words.Word(h, k) == fields[k])
    && (forall i :: 0 <= i < |h| && !Inside(fields, i) ==> h[i] == src[i])
  }

  predicate Clear(fields: map<nat, int>, off: nat) {
    forall k :: k in fields.Keys ==> k + 4 <= off || off + 4 <= k
  }

  lemma PutField(h: seq<byte>, src: seq<byte>, fields: map<nat, int>, off: nat, v: int)
    requires FieldsAre(h, src, fields) && off + 4 <= |h| && Clear(fields, off)
    ensures FieldsAre(Words.PutWord(h, off, v), src, fields[off := v % U32])
  {
    var r, more := Words.PutWord(h, off, v), fields[off := v % U32];
    Words.WordOfPut(h, off, v);
    forall k | k in fields.Keys
      ensures Words.Word(r, k) == fields[k]
    {
      Words.WordBesidePut(h, off, v, k);
    }
    forall i | 0 <= i < |h| && !Inside(more, i)
      ensures r[i] == src[i]
    {
      assert off in more.Keys;
      assert !Inside(fields, i) by {
        forall k | k in fields.Keys
          ensures !(k <= i < k + 4)
        {
          assert k in more.Keys;
        }
      }
      assert !(off <= i < off + 4);
    }
  }

  lemma WordKept(h: seq<byte>, src: seq<byte>, fields: map<nat, int>, off: nat)
    requires FieldsAre(h, src, fields) && off + 4 <= |h| && Clear(fields, off)
    ensures Words.Word(h, off) == Words.Word(src, off)
  {
    forall i | off <= i < off + 4
      ensures h[i] == src[i]
    {
      assert !Inside(fields, i);
    }
    assert h[off..off + 4] == src[off..off + 4];
  }
}
