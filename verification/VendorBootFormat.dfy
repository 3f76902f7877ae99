/**
 Vendor boot images, header versions 3 and 4. An image is a page-aligned sequence of
 sections: header, vendor ramdisk, DTB, and in version 4 the ramdisk fragment table and
 the bootconfig. An AVB footer may occupy the last 64 bytes.
 */
module VendorBootFormat {
  import opened Bytes

  const V3_HEADER_SIZE := 2112
  const V4_HEADER_SIZE := 2128
  const ENTRY_SIZE := 108
  const NAME_SIZE := 32
  const AVB_FOOTER_SIZE := 64

  /** "VNDRBOOT" and "AVBf". */
  const VENDOR_BOOT_MAGIC: seq<byte> := [86, 78, 68, 82, 66, 79, 79, 84]
  const AVB_FOOTER_MAGIC: seq<byte> := [65, 86, 66, 102]

  // Offsets of the header fields.
  const VERSION_AT := 8
  const PAGE_SIZE_AT := 12
  const RAMDISK_SIZE_AT := 24
  const DTB_SIZE_AT := 2100
  const TABLE_SIZE_AT := 2112
  const ENTRY_NUM_AT := 2116
  const ENTRY_SIZE_AT := 2120
  const BOOTCONFIG_SIZE_AT := 2124

  function Word(b: seq<byte>, off: nat): (v: int)
    requires off + 4 <= |b|
    ensures 0 <= v < U32
  {
    FromLittleEndian32(b[off..off + 4])
  }

  function PutWord(b: seq<byte>, off: nat, v: int): (r: seq<byte>)
    requires off + 4 <= |b|
    ensures |r| == |b|
  {
    Overlay(b, off, LittleEndian32(v))
  }

  lemma WordOfPut(b: seq<byte>, off: nat, v: int)
    requires off + 4 <= |b|
    ensures Word(PutWord(b, off, v), off) == v % U32
  {
    OverlayAt(b, off, LittleEndian32(v));
    LittleEndian32Read(v);
  }

  lemma WordBesidePut(b: seq<byte>, off: nat, v: int, at: nat)
    requires off + 4 <= |b| && at + 4 <= |b| && (at + 4 <= off || off + 4 <= at)
    ensures Word(PutWord(b, off, v), at) == Word(b, at)
  {
    if at + 4 <= off {
      OverlayBefore(b, off, LittleEndian32(v), at, at + 4);
    } else {
      OverlayAfter(b, off, LittleEndian32(v), at, at + 4);
    }
  }

  lemma WordOfPrefix(b: seq<byte>, prefix: seq<byte>, off: nat)
    requires prefix <= b && off + 4 <= |prefix|
    ensures Word(b, off) == Word(prefix, off)
  {
    assert b[off..off + 4] == prefix[off..off + 4];
  }

  /** Rounding in 32-bit arithmetic; the addition may wrap around. */
  function RoundUp32(value: int, pageSize: int): (r: int)
    requires 0 <= value < U32 && 0 < pageSize < U32
    ensures 0 <= r < U32
  {
    var pages := (value + pageSize - 1) % U32 / pageSize;
    RoundUpBound(value, pageSize);
    pages * pageSize
  }

  lemma RoundUpBound(value: int, pageSize: int)
    requires 0 <= value < U32 && 0 < pageSize < U32
    ensures var x := (value + pageSize - 1) % U32; 0 <= x / pageSize * pageSize <= x < U32
  {
  }

  /** Without wrap-around the result is the least multiple of the page size not below the value. */
  lemma RoundUpExact(value: int, pageSize: int)
    requires 0 <= value && 0 < pageSize < U32 && value + pageSize - 1 < U32
    ensures var r := RoundUp32(value, pageSize);
            value <= r < value + pageSize && r / pageSize * pageSize == r
  {
    var x := value + pageSize - 1;
    assert x % U32 == x;
    assert x == x / pageSize * pageSize + x % pageSize;
    DivideBack(x / pageSize, pageSize);
  }

  function HeaderSize(version: int): (r: int) {
    if version == 3 then V3_HEADER_SIZE else V4_HEADER_SIZE
  }

  /** What the header check accepts: size, version, magic, page size, at least `version`. */
  predicate HeaderOk(img: seq<byte>, version: int) {
    && |img| >= V3_HEADER_SIZE
    && Word(img, VERSION_AT) in {3, 4}
    && |img| >= HeaderSize(Word(img, VERSION_AT))
    && img[..8] == VENDOR_BOOT_MAGIC
    && Word(img, PAGE_SIZE_AT) != 0
    && Word(img, VERSION_AT) >= version
  }

  /** Section lengths in bytes, in image order. */
  datatype Layout = Layout(o: int, p: int, q: int, r: int, s: int)

  function LayoutOf(img: seq<byte>): (l: Layout)
    requires HeaderOk(img, 3)
    ensures 0 <= l.o < U32 && 0 <= l.p < U32 && 0 <= l.q < U32 && 0 <= l.r < U32 && 0 <= l.s < U32
  {
    var page := Word(img, PAGE_SIZE_AT);
    var v4 := Word(img, VERSION_AT) == 4;
    Layout(RoundUp32(HeaderSize(Word(img, VERSION_AT)), page),
           RoundUp32(Word(img, RAMDISK_SIZE_AT), page),
           RoundUp32(Word(img, DTB_SIZE_AT), page),
           if v4 then RoundUp32(Word(img, TABLE_SIZE_AT), page) else 0,
           if v4 then RoundUp32(Word(img, BOOTCONFIG_SIZE_AT), page) else 0)
  }

  /** The AVB footer, if the last 64 bytes carry its magic. */
  function Footer(img: seq<byte>): (f: Option<seq<byte>>)
    ensures f.Some? ==> |f.value| == AVB_FOOTER_SIZE && f.value[..4] == AVB_FOOTER_MAGIC
  {
    if |img| >= AVB_FOOTER_SIZE && img[|img| - AVB_FOOTER_SIZE..][..4] == AVB_FOOTER_MAGIC
    then Some(img[|img| - AVB_FOOTER_SIZE..])
    else None
  }

  /** Rounding any size up to the image's own never wraps around. */
  predicate RoundsExactly(img: seq<byte>)
    requires HeaderOk(img, 3)
  {
    |img| + Word(img, PAGE_SIZE_AT) <= U32
  }

  // ----- Content and footer

  function Plain(content: seq<byte>, size: nat): (img: seq<byte>)
    requires |content| <= size
    ensures |img| == size
  {
    content + Zeros(size - |content|)
  }

  predicate FooterOk(footer: Option<seq<byte>>) {
    footer.Some? ==> |footer.value| == AVB_FOOTER_SIZE && footer.value[..4] == AVB_FOOTER_MAGIC
  }

  /** An image of `size` bytes from its content, zero-filled, with the footer pinned to its end. */
  function Finish(content: seq<byte>, size: nat, footer: Option<seq<byte>>): (img: seq<byte>)
    requires |content| <= size
    requires footer.Some? ==> |footer.value| == AVB_FOOTER_SIZE <= size
    ensures |img| == size
  {
    if footer.Some? then Overlay(Plain(content, size), size - AVB_FOOTER_SIZE, footer.value) else Plain(content, size)
  }

  /** How many bytes at the end of the content lie where the footer goes. */
  function Overlap(contentSize: nat, size: nat): (k: nat)
    requires contentSize <= size
    ensures k <= AVB_FOOTER_SIZE
  {
    if contentSize + AVB_FOOTER_SIZE <= size then 0 else contentSize + AVB_FOOTER_SIZE - size
  }

  /** The end of the content as the footer leaves it; `k` bytes of it are overlapped. */
  function Spoiled(tail: seq<byte>, k: nat, footer: Option<seq<byte>>): (r: seq<byte>)
    requires k <= AVB_FOOTER_SIZE && (footer.Some? ==> |footer.value| == AVB_FOOTER_SIZE)
    ensures |r| == |tail|
  {
    if footer == None then tail
    else if k <= |tail| then tail[..|tail| - k] + footer.value[..k]
    else footer.value[k - |tail|..k]
  }

  /**
   The footer and the content do not collide: the overlapped end of the content is equal to
   the footer there, or without a footer nothing at the end can be taken for one.
   */
  predicate FooterClear(content: seq<byte>, size: nat, footer: Option<seq<byte>>)
    requires |content| <= size && FooterOk(footer)
  {
    var k := Overlap(|content|, size);
    match footer
    case None => Footer(Plain(content, size)) == None
    case Some(f) => k <= |content| && content[|content| - k..] == f[..k]
  }

  lemma FinishAt(content: seq<byte>, size: nat, footer: Option<seq<byte>>, i: nat)
    requires |content| <= size && FooterOk(footer) && AVB_FOOTER_SIZE <= size && i < size
    ensures var img := Finish(content, size, footer);
            img[i] == if footer.Some? && i >= size - AVB_FOOTER_SIZE then footer.value[i - (size - AVB_FOOTER_SIZE)]
                      else if i < |content| then content[i]
                      else 0
  {
  }

  /** The content ends as the footer leaves it. */
  lemma FinishSpoils(body: seq<byte>, tail: seq<byte>, size: nat, footer: Option<seq<byte>>)
    requires |body + tail| <= size && FooterOk(footer) && AVB_FOOTER_SIZE <= size
    requires Overlap(|body + tail|, size) <= |tail|
    ensures body + Spoiled(tail, Overlap(|body + tail|, size), footer) <= Finish(body + tail, size, footer)
  {
    var k := Overlap(|body + tail|, size);
    var img := Finish(body + tail, size, footer);
    var now := body + Spoiled(tail, k, footer);
    forall i | 0 <= i < |now|
      ensures now[i] == img[i]
    {
      FinishAt(body + tail, size, footer, i);
    }
  }

  /** The end of the content after finishing, however far the footer reaches. */
  lemma TailSpoils(body: seq<byte>, tail: seq<byte>, size: nat, footer: Option<seq<byte>>)
    requires |body + tail| <= size && FooterOk(footer) && AVB_FOOTER_SIZE <= size
    ensures Finish(body + tail, size, footer)[|body|..|body + tail|]
            == Spoiled(tail, Overlap(|body + tail|, size), footer)
  {
    var k := Overlap(|body + tail|, size);
    var img := Finish(body + tail, size, footer);
    var now := Spoiled(tail, k, footer);
    forall i | 0 <= i < |tail|
      ensures now[i] == img[|body| + i]
    {
      FinishAt(body + tail, size, footer, |body| + i);
    }
  }

  /** Before the footer the content stays. */
  lemma FrontStays(content: seq<byte>, size: nat, footer: Option<seq<byte>>, a: nat, b: nat)
    requires |content| <= size && FooterOk(footer) && AVB_FOOTER_SIZE <= size
    requires a <= b <= |content| && (footer.Some? ==> b + AVB_FOOTER_SIZE <= size)
    ensures Finish(content, size, footer)[a..b] == content[a..b]
  {
  }

  lemma FinishFooter(content: seq<byte>, size: nat, footer: Option<seq<byte>>)
    requires |content| <= size && FooterOk(footer) && AVB_FOOTER_SIZE <= size
    ensures Footer(Finish(content, size, footer)) == if footer.Some? then footer else Footer(Plain(content, size))
  {
    var img := Finish(content, size, footer);
    if footer.Some? {
      assert img[|img| - AVB_FOOTER_SIZE..] == footer.value;
    }
  }

  /** Content that ends before the last 64 bytes is always clear of the footer. */
  lemma EndsBeforeFooter(content: seq<byte>, size: nat, footer: Option<seq<byte>>)
    requires |content| + AVB_FOOTER_SIZE <= size && FooterOk(footer)
    ensures FooterClear(content, size, footer)
  {
    var plain := Plain(content, size);
    assert plain[|plain| - AVB_FOOTER_SIZE..][..4][0] == 0 && AVB_FOOTER_MAGIC[0] == 65;
  }

  lemma ContentStays(content: seq<byte>, size: nat, footer: seq<byte>)
    requires |content| <= size && FooterOk(Some(footer)) && AVB_FOOTER_SIZE <= size
    ensures content <= Finish(content, size, Some(footer)) <==> FooterClear(content, size, Some(footer))
  {
    var img := Finish(content, size, Some(footer));
    var k := Overlap(|content|, size);
    var cut := |content| - k;
    if content <= img {
      forall i | 0 <= i < k
        ensures content[cut..][i] == footer[..k][i]
      {
        FinishAt(content, size, Some(footer), cut + i);
      }
      assert content[cut..] == footer[..k];
    }
    if FooterClear(content, size, Some(footer)) {
      forall i | 0 <= i < |content|
        ensures content[i] == img[i]
      {
        FinishAt(content, size, Some(footer), i);
        assert i >= cut ==> content[cut..][i - cut] == footer[..k][i - cut];
      }
    }
  }

  /** Content and footer can both be read back exactly when they do not collide. */
  lemma FinishReadBack(content: seq<byte>, size: nat, footer: Option<seq<byte>>)
    requires |content| <= size && FooterOk(footer) && AVB_FOOTER_SIZE <= size
    ensures content <= Finish(content, size, footer) && Footer(Finish(content, size, footer)) == footer
            <==> FooterClear(content, size, footer)
  {
    hide Footer;
    FinishFooter(content, size, footer);
    if footer.Some? {
      ContentStays(content, size, footer.value);
    }
  }

  // ----- Writing over an image that collided

  /**
   A second rewrite leaves no trace of a first one that collided: what the footer spoiled
   at the end of `cx` lies under the footer again after `cy`, or was not spoiled; without a
   footer, none appeared at the end of `cx`, or the same bytes are at the end of `cy`.
   */
  predicate Recovers(cx: seq<byte>, cy: seq<byte>, tail: seq<byte>, size: nat, footer: Option<seq<byte>>)
    requires |cx| <= size && |cy| <= size && AVB_FOOTER_SIZE <= size && FooterOk(footer)
  {
    match footer
    case Some(_) =>
      var n := |tail| - Min(|tail|, Overlap(|cy|, size));
      Spoiled(tail, Overlap(|cx|, size), footer)[..n] == tail[..n]
    case None =>
      || Footer(Plain(cx, size)) == None
      || Plain(cx, size)[size - AVB_FOOTER_SIZE..] == Plain(cy, size)[size - AVB_FOOTER_SIZE..]
  }

  lemma FinishAgain(cx: seq<byte>, body: seq<byte>, tail: seq<byte>, size: nat, footer: Option<seq<byte>>)
    requires |cx| <= size && |body + tail| <= size && AVB_FOOTER_SIZE <= size && FooterOk(footer)
    ensures var spoiled := Spoiled(tail, Overlap(|cx|, size), footer);
            var footer' := if footer.Some? then footer else Footer(Plain(cx, size));
            Finish(body + spoiled, size, footer') == Finish(body + tail, size, footer)
            <==> Recovers(cx, body + tail, tail, size, footer)
  {
    var cy := body + tail;
    var at := size - AVB_FOOTER_SIZE;
    if footer.Some? {
      SpoiledAgain(body, tail, Spoiled(tail, Overlap(|cx|, size), footer), size, footer);
    } else if Footer(Plain(cx, size)).Some? {
      var plain := Plain(cy, size);
      var over := Finish(cy, size, Footer(Plain(cx, size)));
      assert over[at..] == Plain(cx, size)[at..] && over[..at] == plain[..at];
      assert plain == plain[..at] + plain[at..] && over == over[..at] + over[at..];
    }
  }

  lemma SpoiledAgain(body: seq<byte>, tail: seq<byte>, spoiled: seq<byte>, size: nat, footer: Option<seq<byte>>)
    requires |body + tail| <= size && AVB_FOOTER_SIZE <= size && FooterOk(footer) && footer.Some?
    requires |spoiled| == |tail|
    ensures var n := |tail| - Min(|tail|, Overlap(|body + tail|, size));
            Finish(body + spoiled, size, footer) == Finish(body + tail, size, footer)
            <==> spoiled[..n] == tail[..n]
  {
    var n := |tail| - Min(|tail|, Overlap(|body + tail|, size));
    var a, b := Finish(body + spoiled, size, footer), Finish(body + tail, size, footer);
    if spoiled[..n] == tail[..n] {
      forall i | 0 <= i < size
        ensures a[i] == b[i]
      {
        FinishAt(body + spoiled, size, footer, i);
        FinishAt(body + tail, size, footer, i);
        assert |body| <= i < |body| + n ==> spoiled[..n][i - |body|] == tail[..n][i - |body|];
      }
    } else if a == b {
      forall i | 0 <= i < n
        ensures spoiled[i] == tail[i]
      {
        FinishAt(body + spoiled, size, footer, |body| + i);
        FinishAt(body + tail, size, footer, |body| + i);
      }
    }
  }

  /** Nothing has to be recovered where nothing collided. */
  lemma ClearRecovers(bx: seq<byte>, cy: seq<byte>, tail: seq<byte>, size: nat, footer: Option<seq<byte>>)
    requires |bx + tail| <= size && |cy| <= size && AVB_FOOTER_SIZE <= size && FooterOk(footer)
    requires FooterClear(bx + tail, size, footer)
    ensures Recovers(bx + tail, cy, tail, size, footer)
  {
    if footer.Some? {
      var cx := bx + tail;
      var k := Overlap(|cx|, size);
      if k <= |tail| {
        assert tail == tail[..|tail| - k] + cx[|cx| - k..];
      } else {
        assert tail == cx[|cx| - k..][k - |tail|..];
      }
    }
  }
}
