/** Making a boot image from its parts, and reading the parts back. */
module MkBootImage {
  import opened Bytes
  import opened AsciiText
  import opened BootImage
  import Words = VendorBootFormat

  /** The header fields that are set, for versions 0 to 2. */
  function Fields(src: seq<byte>, base: nat, kernel: nat, ramdisk: nat, second: nat, dtb: nat): (fields: map<nat, int>)
    requires |src| == V2_HEADER_SIZE
  {
    var common := AddressFields(src, base, SizeFields(kernel, ramdisk, second));
    var version := Words.Word(src, VERSION_AT);
    if version == 1 then common[HEADER_SIZE_AT := V1_HEADER_SIZE]
    else if version == 2 then DtbFields(src, base, common, dtb)
    else common
  }

  function SizeFields(kernel: nat, ramdisk: nat, second: nat): (fields: map<nat, int>) {
    map[KERNEL_SIZE_AT := kernel % U32, RAMDISK_SIZE_AT := ramdisk % U32, SECOND_SIZE_AT := second % U32]
  }

  function AddressFields(src: seq<byte>, base: nat, fields: map<nat, int>): (r: map<nat, int>)
    requires |src| == V2_HEADER_SIZE
  {
    fields[KERNEL_ADDR_AT := (Words.Word(src, KERNEL_ADDR_AT) + base) % U32]
          [RAMDISK_ADDR_AT := (Words.Word(src, RAMDISK_ADDR_AT) + base) % U32]
          [SECOND_ADDR_AT := (Words.Word(src, SECOND_ADDR_AT) + base) % U32]
          [TAGS_ADDR_AT := (Words.Word(src, TAGS_ADDR_AT) + base) % U32]
  }

  function DtbAddress(src: seq<byte>, base: nat): (a: nat)
    requires |src| == V2_HEADER_SIZE
  {
    Words.Word(src, DTB_ADDR_AT) + Words.Word(src, DTB_ADDR_AT + 4) * U32 + base
  }

  function DtbFields(src: seq<byte>, base: nat, fields: map<nat, int>, dtb: nat): (r: map<nat, int>)
    requires |src| == V2_HEADER_SIZE
  {
    fields[HEADER_SIZE_AT := V2_HEADER_SIZE % U32]
          [DTB_SIZE_AT := dtb % U32]
          [DTB_ADDR_AT := DtbAddress(src, base) % U32]
          [DTB_ADDR_AT + 4 := DtbAddress(src, base) / U32 % U32]
  }

  function V3Fields(src: seq<byte>, kernel: nat, ramdisk: nat): (fields: map<nat, int>)
    requires |src| == V2_HEADER_SIZE
  {
    var version := Words.Word(src, VERSION_AT);
    var common := map[KERNEL_SIZE_AT := kernel % U32, V3_RAMDISK_SIZE_AT := ramdisk % U32,
                      V3_OS_VERSION_AT := Words.Word(src, OS_VERSION_AT),
                      V3_HEADER_SIZE_AT := V3_HEADER_SIZE, VERSION_AT := version];
    if version >= 4 then common[V4_SIGNATURE_SIZE_AT := 0] else common
  }

  /** An empty image of `n` bytes with the given header and the magic in it. */
  function Blank(header: seq<byte>, n: nat): (r: seq<byte>)
    requires 8 <= |header| <= n
    ensures |r| == n
  {
    Overlay(Overlay(Zeros(n), 0, header), 0, BOOT_MAGIC)
  }

  lemma BlankIs(header: seq<byte>, n: nat)
    requires 8 <= |header| <= n
    ensures Blank(header, n) == Overlay(header, 0, BOOT_MAGIC) + Zeros(n - |header|)
  {
    assert Zeros(n)[|header|..] == Zeros(n - |header|);
  }

  method SetSizes(out0: seq<byte>, ghost blank: seq<byte>, kernel: nat, ramdisk: nat,
                  second: nat) returns (out: seq<byte>)
    requires FieldsAre(out0, blank, map[]) && |out0| >= V2_HEADER_SIZE
    ensures FieldsAre(out, blank, SizeFields(kernel, ramdisk, second))
  {
    hide FieldsAre, Words.PutWord;
    ghost var f: map<nat, int> := map[];
    PutField(out0, blank, f, KERNEL_SIZE_AT, kernel);
    out := Words.PutWord(out0, KERNEL_SIZE_AT, kernel);
    f := f[KERNEL_SIZE_AT := kernel % U32];
    PutField(out, blank, f, RAMDISK_SIZE_AT, ramdisk);
    out := Words.PutWord(out, RAMDISK_SIZE_AT, ramdisk);
    f := f[RAMDISK_SIZE_AT := ramdisk % U32];
    PutField(out, blank, f, SECOND_SIZE_AT, second);
    out := Words.PutWord(out, SECOND_SIZE_AT, second);
    f := f[SECOND_SIZE_AT := second % U32];
    assert f == SizeFields(kernel, ramdisk, second);
  }

  /** Adds the base to one address field. */
  method AddBase(out0: seq<byte>, ghost blank: seq<byte>, ghost src: seq<byte>, ghost f: map<nat, int>, off: nat,
                 base: nat)
    returns (out: seq<byte>)
    requires FieldsAre(out0, blank, f) && Clear(f, off)
    requires 8 <= off && off + 4 <= |src| == V2_HEADER_SIZE <= |out0| && blank == Blank(src, |out0|)
    ensures FieldsAre(out, blank, f[off := (Words.Word(src, off) + base) % U32]) && |out| == |out0|
  {
    hide FieldsAre, Words.PutWord, Words.Word;
    WordKept(out0, blank, f, off);
    BlankWord(src, |out0|, off);
    PutField(out0, blank, f, off, Words.Word(out0, off) + base);
    out := Words.PutWord(out0, off, Words.Word(out0, off) + base);
  }

  lemma BlankWord(header: seq<byte>, n: nat, off: nat)
    requires 8 <= |header| <= n && 8 <= off && off + 4 <= |header|
    ensures Words.Word(Blank(header, n), off) == Words.Word(header, off)
  {
    BlankIs(header, n);
    OverlayAfter(header, 0, BOOT_MAGIC, off, off + 4);
    var h := Overlay(header, 0, BOOT_MAGIC);
    assert (h + Zeros(n - |header|))[off..off + 4] == h[off..off + 4];
  }

  method SetAddresses(out0: seq<byte>, ghost blank: seq<byte>, ghost src: seq<byte>, ghost f: map<nat, int>, base: nat)
    returns (out: seq<byte>)
    requires |src| == V2_HEADER_SIZE <= |out0| && blank == Blank(src, |out0|) && FieldsAre(out0, blank, f)
    requires f.Keys == {KERNEL_SIZE_AT, RAMDISK_SIZE_AT, SECOND_SIZE_AT}
    ensures FieldsAre(out, blank, AddressFields(src, base, f)) && |out| == |out0|
  {
    hide FieldsAre, Words.Word, Blank;
    out := AddBase(out0, blank, src, f, KERNEL_ADDR_AT, base);
    ghost var g := f[KERNEL_ADDR_AT := (Words.Word(src, KERNEL_ADDR_AT) + base) % U32];
    out := AddBase(out, blank, src, g, RAMDISK_ADDR_AT, base);
    g := g[RAMDISK_ADDR_AT := (Words.Word(src, RAMDISK_ADDR_AT) + base) % U32];
    out := AddBase(out, blank, src, g, SECOND_ADDR_AT, base);
    g := g[SECOND_ADDR_AT := (Words.Word(src, SECOND_ADDR_AT) + base) % U32];
    out := AddBase(out, blank, src, g, TAGS_ADDR_AT, base);
  }

  method SetDtb(out0: seq<byte>, ghost blank: seq<byte>, ghost src: seq<byte>, ghost f: map<nat, int>, base: nat,
                dtb: nat)
    returns (out: seq<byte>)
    requires |src| == V2_HEADER_SIZE <= |out0| && blank == Blank(src, |out0|) && FieldsAre(out0, blank, f)
    requires forall k :: k in f.Keys ==> k <= TAGS_ADDR_AT
    ensures FieldsAre(out, blank, DtbFields(src, base, f, dtb)) && |out| == |out0|
  {
    hide FieldsAre, Words.Word, Blank, Words.PutWord;
    PutField(out0, blank, f, HEADER_SIZE_AT, V2_HEADER_SIZE);
    out := Words.PutWord(out0, HEADER_SIZE_AT, V2_HEADER_SIZE);
    ghost var g := f[HEADER_SIZE_AT := V2_HEADER_SIZE % U32];
    PutField(out, blank, g, DTB_SIZE_AT, dtb);
    out := Words.PutWord(out, DTB_SIZE_AT, dtb);
    g := g[DTB_SIZE_AT := dtb % U32];
    WordKept(out, blank, g, DTB_ADDR_AT);
    WordKept(out, blank, g, DTB_ADDR_AT + 4);
    BlankWord(src, |out0|, DTB_ADDR_AT);
    BlankWord(src, |out0|, DTB_ADDR_AT + 4);
    var address := Words.Word(out, DTB_ADDR_AT) + Words.Word(out, DTB_ADDR_AT + 4) * U32 + base;
    PutField(out, blank, g, DTB_ADDR_AT, address);
    out := Words.PutWord(out, DTB_ADDR_AT, address);
    g := g[DTB_ADDR_AT := address % U32];
    PutField(out, blank, g, DTB_ADDR_AT + 4, address / U32);
    out := Words.PutWord(out, DTB_ADDR_AT + 4, address / U32);
  }

  /** The header of versions 0 to 2, written into an empty image. */
  method SetHeader(n: nat, src: seq<byte>, base: nat, kernel: nat, ramdisk: nat, second: nat, dtb: nat)
    returns (out: seq<byte>)
    requires |src| == V2_HEADER_SIZE <= n
    ensures |out| == n && FieldsAre(out, Blank(src, n), Fields(src, base, kernel, ramdisk, second, dtb))
  {
    hide FieldsAre, Words.Word, Blank, Words.PutWord, AddressFields, SizeFields, DtbFields;
    out := Blank(src, n);
    ghost var blank := out;
    NoFields(out);
    out := SetSizes(out, blank, kernel, ramdisk, second);
    ghost var f := SizeFields(kernel, ramdisk, second);
    FieldsLength(out, blank, f);
    FieldKeys(src, base, kernel, ramdisk, second);
    out := SetAddresses(out, blank, src, f, base);
    ghost var g := AddressFields(src, base, f);
    var version := Words.Word(src, VERSION_AT);
    if version == 1 {
      PutField(out, blank, g, HEADER_SIZE_AT, V1_HEADER_SIZE);
      out := Words.PutWord(out, HEADER_SIZE_AT, V1_HEADER_SIZE);
    } else if version == 2 {
      out := SetDtb(out, blank, src, g, base, dtb);
    }
  }

  lemma NoFields(b: seq<byte>)
    ensures FieldsAre(b, b, map[])
  {
  }

  lemma FieldKeys(src: seq<byte>, base: nat, kernel: nat, ramdisk: nat, second: nat)
    requires |src| == V2_HEADER_SIZE
    ensures var f := SizeFields(kernel, ramdisk, second);
            && f.Keys == {KERNEL_SIZE_AT, RAMDISK_SIZE_AT, SECOND_SIZE_AT}
            && forall k :: k in AddressFields(src, base, f).Keys ==> k <= TAGS_ADDR_AT
  {
    hide Words.Word;
  }

  lemma FieldsLength(h: seq<byte>, src: seq<byte>, f: map<nat, int>)
    requires FieldsAre(h, src, f)
    ensures |h| == |src|
  {
  }

  /** The header of versions 3 and 4, written into an empty image. */
  method SetV3Header(n: nat, src: seq<byte>, kernel: nat, ramdisk: nat) returns (out: seq<byte>)
    requires |src| == V2_HEADER_SIZE && n >= V3_PAGE_SIZE
    ensures |out| == n && FieldsAre(out, Blank(Zeros(8), n), V3Fields(src, kernel, ramdisk))
  {
    hide FieldsAre, Words.Word, Words.PutWord, Blank;
    out := Overlay(Zeros(n), 0, BOOT_MAGIC);
    ghost var blank := out;
    BlankMagic(n);
    NoFields(out);
    hide Overlay;
    ghost var f: map<nat, int> := map[];
    PutField(out, blank, f, KERNEL_SIZE_AT, kernel);
    out := Words.PutWord(out, KERNEL_SIZE_AT, kernel);
    f := f[KERNEL_SIZE_AT := kernel % U32];
    PutField(out, blank, f, V3_RAMDISK_SIZE_AT, ramdisk);
    out := Words.PutWord(out, V3_RAMDISK_SIZE_AT, ramdisk);
    f := f[V3_RAMDISK_SIZE_AT := ramdisk % U32];
    var os, version := Words.Word(src, OS_VERSION_AT), Words.Word(src, VERSION_AT);
    PutField(out, blank, f, V3_OS_VERSION_AT, os);
    out := Words.PutWord(out, V3_OS_VERSION_AT, os);
    f := f[V3_OS_VERSION_AT := os];
    PutField(out, blank, f, V3_HEADER_SIZE_AT, V3_HEADER_SIZE);
    out := Words.PutWord(out, V3_HEADER_SIZE_AT, V3_HEADER_SIZE);
    f := f[V3_HEADER_SIZE_AT := V3_HEADER_SIZE];
    PutField(out, blank, f, VERSION_AT, version);
    out := Words.PutWord(out, VERSION_AT, version);
    f := f[VERSION_AT := version];
    if version >= 4 {
      PutField(out, blank, f, V4_SIGNATURE_SIZE_AT, 0);
      out := Words.PutWord(out, V4_SIGNATURE_SIZE_AT, 0);
    }
  }

  lemma BlankMagic(n: nat)
    requires n >= 8
    ensures Blank(Zeros(8), n) == Overlay(Zeros(n), 0, BOOT_MAGIC)
  {
    assert Overlay(Zeros(n), 0, Zeros(8)) == Zeros(n);
  }

  // ----- The image

  /** A first page with exactly the given fields set, and the sections after it. */
  predicate Made(img: seq<byte>, page: nat, first: seq<byte>, fields: map<nat, int>, sections: seq<seq<byte>>)
    requires page > 0
  {
    && page <= |img| && FieldsAre(img[..page], first, fields)
    && img[page..] == PadAll(sections, page)
  }

  /** The first page of a written header, and the zeros behind it. */
  lemma FirstPage(out: seq<byte>, header: seq<byte>, n: nat, page: nat, fields: map<nat, int>)
    requires 8 <= |header| <= page <= n && FieldsAre(out, Blank(header, n), fields)
    requires forall k :: k in fields.Keys ==> k + 4 <= page
    ensures |out| == n && out == out[..page] + Zeros(n - page)
    ensures FieldsAre(out[..page], Blank(header, page), fields)
  {
    BlankIs(header, n);
    BlankIs(header, page);
    forall i | page <= i < n
      ensures out[i] == 0
    {
      assert !Inside(fields, i);
    }
    forall k | k in fields.Keys
      ensures Words.Word(out[..page], k) == fields[k]
    {
      Words.WordOfPrefix(out, out[..page], k);
    }
  }

  lemma FieldsBelow(src: seq<byte>, base: nat, kernel: nat, ramdisk: nat, second: nat, dtb: nat)
    requires |src| == V2_HEADER_SIZE
    ensures forall k :: k in Fields(src, base, kernel, ramdisk, second, dtb).Keys ==> k + 4 <= V2_HEADER_SIZE
    ensures forall k :: k in V3Fields(src, kernel, ramdisk).Keys ==> k + 4 <= V3_PAGE_SIZE
  {
    hide Words.Word;
  }

  lemma PadFour(a: seq<byte>, b: seq<byte>, c: seq<byte>, d: seq<byte>, p: nat)
    requires p > 0
    ensures PadAll([a, b, c, d], p) == Pad(a, p) + Pad(b, p) + Pad(c, p) + Pad(d, p)
    ensures PadAll([a, b], p) == Pad(a, p) + Pad(b, p)
  {
    hide Pad;
    assert [a, b, c, d][1..] == [b, c, d] && [b, c, d][1..] == [c, d] && [c, d][1..] == [d] && [d][1..] == [];
    assert [a, b][1..] == [b] && [b][1..] == [];
    assert PadAll([d], p) == Pad(d, p) + [] && PadAll([b], p) == Pad(b, p) + [];
    assert PadAll([c, d], p) == Pad(c, p) + Pad(d, p);
    assert PadAll([b, c, d], p) == Pad(b, p) + (Pad(c, p) + Pad(d, p));
  }

  /** Copies a section behind what is there. */
  method CopySection(out0: seq<byte>, at: nat, x: seq<byte>, ghost done: seq<byte>, ghost n: nat, ghost p: nat)
    returns (out: seq<byte>)
    requires p > 0 && RoundUp(|x|, p) <= n && at == |done| && out0 == done + Zeros(n)
    ensures out == done + Pad(x, p) + Zeros(n - RoundUp(|x|, p)) && |done + Pad(x, p)| == at + RoundUp(|x|, p)
  {
    hide RoundUp, Pad, Overlay;
    Place(done, x, n, p);
    out := Overlay(out0, at, x);
  }

  /** With smaller pages the kernel is copied over the fields that tell where the sections are. */
  const SMALLEST_PAGE := 44

  /** What is written, the header and the sections a page from the start on, stays inside the image. */
  predicate StaysInside(page: nat, sections: seq<seq<byte>>) {
    && SMALLEST_PAGE <= page <= RoundUp(V1_HEADER_SIZE, page)
    && V2_HEADER_SIZE <= RoundUp(V1_HEADER_SIZE, page) + |PadAll(sections, page)|
  }

  lemma {:induction false} PowerMultiple(p: nat, q: nat)
    requires PowerOfTwo(p) && PowerOfTwo(q) && q <= p
    ensures q > 0 && p % q == 0
    decreases q
  {
    if q > 1 {
      PowerMultiple(p / 2, q / 2);
      HalfMod(p, q);
    }
  }

  lemma MultipleOfMultiple(r: nat, p: nat, q: nat)
    requires p > 0 && q > 0 && r % p == 0 && p % q == 0
    ensures r % q == 0
  {
    var a, b := r / p, p / q;
    assert r == a * p && p == b * q;
    assert a * (b * q) == q * (a * b);
    ModUnique(r, q, a * b, 0);
  }

  /** Pages of a power of two from 64 bytes on are among them. */
  lemma PowersStayInside(page: nat, sections: seq<seq<byte>>)
    requires PowerOfTwo(page) && page >= 64
    ensures StaysInside(page, sections)
    ensures page >= V2_HEADER_SIZE ==> RoundUp(V1_HEADER_SIZE, page) == page
  {
    SixtyFour();
    hide RoundUp, PadAll;
    RoundUpExact(V1_HEADER_SIZE, page);
    PowerMultiple(page, 64);
    MultipleOfMultiple(RoundUp(V1_HEADER_SIZE, page), page, 64);
  }

  lemma SixtyFour()
    ensures PowerOfTwo(64)
  {
    assert PowerOfTwo(8);
  }

  /** A written header, and the sections copied over it page by page. */
  predicate Copied(img: seq<byte>, header: seq<byte>, src: seq<byte>, base: nat, sections: seq<seq<byte>>)
    requires |src| == V2_HEADER_SIZE && |sections| == 4
  {
    var page := Words.Word(src, PAGE_SIZE_AT);
    && StaysInside(page, sections)
    && |header| == RoundUp(V1_HEADER_SIZE, page) + |PadAll(sections, page)|
    && FieldsAre(header, Blank(src, |header|),
                 Fields(src, base, |sections[0]|, |sections[1]|, |sections[2]|, |sections[3]|))
    && img == PutAll(header, page, sections, page)
  }

  method MakeOld(kernel: seq<byte>, ramdisk: seq<byte>, second: seq<byte>, dtb: seq<byte>, base: nat, src: seq<byte>)
    returns (out: seq<byte>, ghost header: seq<byte>)
    requires |src| == V2_HEADER_SIZE
    requires StaysInside(Words.Word(src, PAGE_SIZE_AT), [kernel, ramdisk, second, dtb])
    ensures Copied(out, header, src, base, [kernel, ramdisk, second, dtb])
  {
    hide RoundUp, Pad, Overlay, Words.Word, FieldsAre, Fields, Blank, PadAll, PutAll;
    var page := Words.Word(src, PAGE_SIZE_AT);
    var headerActual := RoundUp(V1_HEADER_SIZE, page);
    var kernelActual, ramdiskActual := RoundUp(|kernel|, page), RoundUp(|ramdisk|, page);
    var secondActual, dtbActual := RoundUp(|second|, page), RoundUp(|dtb|, page);
    var size := headerActual + kernelActual + ramdiskActual + secondActual + dtbActual;
    FourLengths(kernel, ramdisk, second, dtb, page);
    out := SetHeader(size, src, base, |kernel|, |ramdisk|, |second|, |dtb|);
    header := out;
    PutFour(header, page, kernel, ramdisk, second, dtb, page);
    out := Overlay(out, page, kernel);
    OverlayLength(header, page, kernel);
    ghost var one := out;
    out := Overlay(out, page + kernelActual, ramdisk);
    OverlayLength(one, page + kernelActual, ramdisk);
    ghost var two := out;
    out := Overlay(out, page + kernelActual + ramdiskActual, second);
    OverlayLength(two, page + kernelActual + ramdiskActual, second);
    out := Overlay(out, page + kernelActual + ramdiskActual + secondActual, dtb);
  }

  lemma FourLengths(a: seq<byte>, b: seq<byte>, c: seq<byte>, d: seq<byte>, p: nat)
    requires p > 0
    ensures |PadAll([a, b, c, d], p)| == RoundUp(|a|, p) + RoundUp(|b|, p) + RoundUp(|c|, p) + RoundUp(|d|, p)
    ensures |PadAll([b, c, d], p)| == RoundUp(|b|, p) + RoundUp(|c|, p) + RoundUp(|d|, p)
    ensures |PadAll([c, d], p)| == RoundUp(|c|, p) + RoundUp(|d|, p) && |PadAll([d], p)| == RoundUp(|d|, p)
    ensures |a| <= RoundUp(|a|, p) && |b| <= RoundUp(|b|, p) && |c| <= RoundUp(|c|, p) && |d| <= RoundUp(|d|, p)
  {
    hide RoundUp, PadAll;
    assert [a, b, c, d][1..] == [b, c, d] && [b, c, d][1..] == [c, d] && [c, d][1..] == [d] && [d][1..] == [];
    PadFirst([a, b, c, d], p);
    PadFirst([b, c, d], p);
    PadFirst([c, d], p);
    PadFirst([d], p);
    PadNothing(p);
  }

  lemma PadNothing(p: nat)
    requires p > 0
    ensures PadAll([], p) == []
  {
  }

  lemma PutTwo(out: seq<byte>, at: nat, c: seq<byte>, d: seq<byte>, p: nat)
    requires p > 0 && at + RoundUp(|c|, p) + RoundUp(|d|, p) <= |out|
    requires |PadAll([c, d], p)| == RoundUp(|c|, p) + RoundUp(|d|, p) && |PadAll([d], p)| == RoundUp(|d|, p)
    requires |c| <= RoundUp(|c|, p) && |d| <= RoundUp(|d|, p)
    ensures PutAll(out, at, [c, d], p) == Overlay(Overlay(out, at, c), at + RoundUp(|c|, p), d)
  {
    hide RoundUp, PadAll, PutAll, Overlay;
    assert [c, d][1..] == [d] && [d][1..] == [];
    PadNothing(p);
    var cd := at + RoundUp(|c|, p);
    PutFirst(out, at, [c, d], p);
    OverlayLength(out, at, c);
    var one := Overlay(out, at, c);
    PutFirst(one, cd, [d], p);
    OverlayLength(one, cd, d);
    PutFirst(Overlay(one, cd, d), cd + RoundUp(|d|, p), [], p);
  }

  lemma PutFour(out: seq<byte>, at: nat, a: seq<byte>, b: seq<byte>, c: seq<byte>, d: seq<byte>, p: nat)
    requires p > 0 && at + |PadAll([a, b, c, d], p)| <= |out|
    ensures var ab := at + RoundUp(|a|, p);
            var bc := ab + RoundUp(|b|, p);
            var cd := bc + RoundUp(|c|, p);
            && at + |a| <= ab && ab + |b| <= bc && bc + |c| <= cd && cd + |d| <= |out|
            && PutAll(out, at, [a, b, c, d], p)
               == Overlay(Overlay(Overlay(Overlay(out, at, a), ab, b), bc, c), cd, d)
  {
    FourLengths(a, b, c, d, p);
    hide RoundUp, PadAll, PutAll;
    assert [a, b, c, d][1..] == [b, c, d] && [b, c, d][1..] == [c, d];
    var ab := at + RoundUp(|a|, p);
    PutFirst(out, at, [a, b, c, d], p);
    var one := Overlay(out, at, a);
    OverlayLength(out, at, a);
    PutFirst(one, ab, [b, c, d], p);
    OverlayLength(one, ab, b);
    PutTwo(Overlay(one, ab, b), ab + RoundUp(|b|, p), c, d, p);
  }

  /** On zeros the sections are padded with zeros. */
  lemma {:induction false} PutOnZeros(done: seq<byte>, xs: seq<seq<byte>>, p: nat)
    requires p > 0
    ensures PutAll(done + Zeros(|PadAll(xs, p)|), |done|, xs, p) == done + PadAll(xs, p)
    decreases |xs|
  {
    hide RoundUp, Pad, PutAll, Overlay;
    PadFirst(xs, p);
    var n := |PadAll(xs, p)|;
    PutFirst(done + Zeros(n), |done|, xs, p);
    if xs != [] {
      PadLength(xs[0], p);
      Place(done, xs[0], n, p);
      PutOnZeros(done + Pad(xs[0], p), xs[1..], p);
      AppendAssoc(done, Pad(xs[0], p), PadAll(xs[1..], p));
    }
  }

  lemma PadLength(x: seq<byte>, p: nat)
    requires p > 0
    ensures |Pad(x, p)| == RoundUp(|x|, p)
  {
  }

  /** Where the header fits in a page the sections follow it, padded with zeros. */
  lemma LargePage(img: seq<byte>, header: seq<byte>, src: seq<byte>, base: nat, sections: seq<seq<byte>>)
    requires |src| == V2_HEADER_SIZE && |sections| == 4 && Copied(img, header, src, base, sections)
    requires Words.Word(src, PAGE_SIZE_AT) >= V2_HEADER_SIZE && PowerOfTwo(Words.Word(src, PAGE_SIZE_AT))
    ensures var page := Words.Word(src, PAGE_SIZE_AT);
            Made(img, page, Blank(src, page),
                 Fields(src, base, |sections[0]|, |sections[1]|, |sections[2]|, |sections[3]|), sections)
  {
    hide RoundUp, Words.Word, FieldsAre, Fields, Blank, PadAll, PutAll;
    var page := Words.Word(src, PAGE_SIZE_AT);
    PowersStayInside(page, sections);
    FieldsBelow(src, base, |sections[0]|, |sections[1]|, |sections[2]|, |sections[3]|);
    FirstPage(header, src, |header|, page,
              Fields(src, base, |sections[0]|, |sections[1]|, |sections[2]|, |sections[3]|));
    PutOnZeros(header[..page], sections, page);
  }

  lemma Tail(out: seq<byte>, head: seq<byte>, a: seq<byte>, b: seq<byte>, c: seq<byte>, d: seq<byte>)
    requires out == head + a + b + c + d + Zeros(0)
    ensures out[..|head|] == head && out[|head|..] == a + b + c + d
  {
  }

  method MakeV3(kernel: seq<byte>, ramdisk: seq<byte>, src: seq<byte>) returns (out: seq<byte>)
    requires |src| == V2_HEADER_SIZE
    ensures Made(out, V3_PAGE_SIZE, Blank(Zeros(8), V3_PAGE_SIZE), V3Fields(src, |kernel|, |ramdisk|),
                 [kernel, ramdisk])
  {
    hide RoundUp, Pad, Overlay, Words.Word, FieldsAre, V3Fields, Blank, PadAll;
    var page := V3_PAGE_SIZE;
    var kernelActual, ramdiskActual := RoundUp(|kernel|, page), RoundUp(|ramdisk|, page);
    var size := page + kernelActual + ramdiskActual;
    out := SetV3Header(size, src, |kernel|, |ramdisk|);
    FieldsBelow(src, 0, |kernel|, |ramdisk|, 0, 0);
    FirstPage(out, Zeros(8), size, page, V3Fields(src, |kernel|, |ramdisk|));
    ghost var head := out[..page];
    out := CopySection(out, page, kernel, head, size - page, page);
    out := CopySection(out, page + kernelActual, ramdisk, head + Pad(kernel, page), ramdiskActual, page);
    PadFour(kernel, ramdisk, [], [], page);
    Tail(out, head, Pad(kernel, page), Pad(ramdisk, page), [], []);
  }

  /** The sections the header of a version describes. */
  function Sections(version: int, kernel: seq<byte>, ramdisk: seq<byte>, second: seq<byte>, dtb: seq<byte>)
    : (r: seq<seq<byte>>)
  {
    if version >= 3 then [kernel, ramdisk]
    else if version == 2 then [kernel, ramdisk, second, dtb]
    else [kernel, ramdisk, second]
  }

  /**
   Makes a boot image; a second stage or a DTB with version 3 or above ends the program. The
   sections can be read back exactly when their sizes fit the header, and for version 2 when
   the sections leave the bytes of the DTB size as they are.
   */
  method MkBootImg(kernel: seq<byte>, ramdisk: seq<byte>, second: seq<byte>, dtb: seq<byte>, base: nat, src: seq<byte>)
    returns (out: Option<seq<byte>>)
    requires |src| == V2_HEADER_SIZE
    requires Words.Word(src, VERSION_AT) < 3 ==>
               StaysInside(Words.Word(src, PAGE_SIZE_AT), [kernel, ramdisk, second, dtb])
    ensures out.None? <==> Words.Word(src, VERSION_AT) >= 3 && (second != [] || dtb != [])
    ensures out.Some? ==>
              (Unpack(out.value) == Some(Sections(Words.Word(src, VERSION_AT), kernel, ramdisk, second, dtb)) <==>
               && |kernel| < U32 && |ramdisk| < U32 && |second| < U32
               && (Words.Word(src, VERSION_AT) == 2 ==>
                     DtbSizeStays(Words.Word(src, PAGE_SIZE_AT), [kernel, ramdisk, second, dtb])))
    ensures out.Some? && Words.Word(src, VERSION_AT) < 3 ==> |out.value| >= 1660 && OldHeader(out.value, src, base)
    ensures out.Some? && Words.Word(src, VERSION_AT) >= 3 ==> |out.value| >= 4096 && NewHeader(out.value, src)
  {
    hide StaysInside, Copied, Made, Unpack, OldHeader, NewHeader, Words.Word, Fields, V3Fields, Blank, DtbSizeStays;
    if Words.Word(src, VERSION_AT) >= 3 {
      if second != [] || dtb != [] {
        return None;
      }
      var img := MakeV3(kernel, ramdisk, src);
      V3Reads(img, kernel, ramdisk, src);
      NewHeaderReads(img, kernel, ramdisk, src);
      return Some(img);
    }
    PageNotZero(Words.Word(src, PAGE_SIZE_AT), [kernel, ramdisk, second, dtb]);
    var img, header := MakeOld(kernel, ramdisk, second, dtb, base, src);
    OldReads(img, header, [kernel, ramdisk, second, dtb], base, src);
    OldHeaderReads(img, header, src, base, [kernel, ramdisk, second, dtb]);
    if Words.Word(src, VERSION_AT) == 2 {
      DtbSize(img, header, [kernel, ramdisk, second, dtb], base, src);
    }
    return Some(img);
  }

  lemma PageNotZero(page: nat, sections: seq<seq<byte>>)
    requires StaysInside(page, sections)
    ensures page > 0
  {
  }

  // ----- Reading the image

  /** The sections of an image, by the sizes in its header. */
  function Unpack(img: seq<byte>): (r: Option<seq<seq<byte>>>) {
    if |img| < V2_HEADER_SIZE then None
    else
      var version := Words.Word(img, VERSION_AT);
      if version >= 3 then
        ReadSections(img, V3_PAGE_SIZE, [Words.Word(img, KERNEL_SIZE_AT), Words.Word(img, V3_RAMDISK_SIZE_AT)],
                     V3_PAGE_SIZE)
      else
        var page := Words.Word(img, PAGE_SIZE_AT);
        if page == 0 then None else ReadSections(img, page, OldSizes(img), page)
  }

  function OldSizes(img: seq<byte>): (sizes: seq<nat>)
    requires |img| >= V2_HEADER_SIZE
  {
    [Words.Word(img, KERNEL_SIZE_AT), Words.Word(img, RAMDISK_SIZE_AT), Words.Word(img, SECOND_SIZE_AT)] +
    if Words.Word(img, VERSION_AT) == 2 then [Words.Word(img, DTB_SIZE_AT)] else []
  }

  /** Sections are read back exactly when the sizes in the header are their lengths. */
  lemma ReadsExactly(img: seq<byte>, page: nat, sections: seq<seq<byte>>, count: nat, sizes: seq<nat>)
    requires page > 0 && ReadSections(img, page, Lengths(sections), page) == Some(sections) && count <= |sections|
    ensures ReadSections(img, page, sizes, page) == Some(sections[..count]) <==> sizes == Lengths(sections[..count])
  {
    hide ReadSections;
    ReadFewer(img, page, Lengths(sections), page, count);
    assert Lengths(sections)[..count] == Lengths(sections[..count]);
    if ReadSections(img, page, sizes, page) == Some(sections[..count]) {
      ReadLengths(img, page, sizes, page);
    }
  }

  lemma MadeReads(img: seq<byte>, page: nat, first: seq<byte>, fields: map<nat, int>, sections: seq<seq<byte>>)
    requires page > 0 && Made(img, page, first, fields, sections)
    ensures ReadSections(img, page, Lengths(sections), page) == Some(sections)
  {
    SectionsRead(img[..page], sections, [], page);
    hide PadAll, ReadSections, Lengths, FieldsAre;
    assert img == img[..page] + PadAll(sections, page) + [];
  }

  lemma ImageWord(img: seq<byte>, page: nat, first: seq<byte>, fields: map<nat, int>, sections: seq<seq<byte>>,
                  off: nat)
    requires page > 0 && Made(img, page, first, fields, sections) && off + 4 <= page
    ensures off in fields.Keys ==> Words.Word(img, off) == fields[off]
    ensures Clear(fields, off) ==> |first| == page && Words.Word(img, off) == Words.Word(first, off)
  {
    hide Words.Word, PadAll;
    Words.WordOfPrefix(img, img[..page], off);
    if Clear(fields, off) {
      WordKept(img[..page], first, fields, off);
    }
  }

  lemma V3Reads(img: seq<byte>, kernel: seq<byte>, ramdisk: seq<byte>, src: seq<byte>)
    requires |src| == V2_HEADER_SIZE && Words.Word(src, VERSION_AT) >= 3
    requires Made(img, V3_PAGE_SIZE, Blank(Zeros(8), V3_PAGE_SIZE), V3Fields(src, |kernel|, |ramdisk|),
                  [kernel, ramdisk])
    ensures |img| >= V2_HEADER_SIZE
    ensures Unpack(img) == Some([kernel, ramdisk]) <==> |kernel| < U32 && |ramdisk| < U32
  {
    hide Words.Word, PadAll, FieldsAre, Blank, ReadSections;
    var f := V3Fields(src, |kernel|, |ramdisk|);
    var first := Blank(Zeros(8), V3_PAGE_SIZE);
    var sections := [kernel, ramdisk];
    ImageWord(img, V3_PAGE_SIZE, first, f, sections, VERSION_AT);
    ImageWord(img, V3_PAGE_SIZE, first, f, sections, KERNEL_SIZE_AT);
    ImageWord(img, V3_PAGE_SIZE, first, f, sections, V3_RAMDISK_SIZE_AT);
    MadeReads(img, V3_PAGE_SIZE, first, f, sections);
    ReadsExactly(img, V3_PAGE_SIZE, sections, 2, [|kernel| % U32, |ramdisk| % U32]);
    assert sections[..2] == sections;
    assert Lengths(sections) == [|kernel|, |ramdisk|];
    Truncated(|kernel|, |ramdisk|, 0, 0);
  }

  /** Sizes survive 32 bits exactly when they are below 2^32. */
  lemma Truncated(a: nat, b: nat, c: nat, d: nat)
    ensures [a % U32, b % U32] == [a, b] <==> a < U32 && b < U32
    ensures [a % U32, b % U32, c % U32] + [] == [a, b, c] + [] <==> a < U32 && b < U32 && c < U32
    ensures [a % U32, b % U32, c % U32] + [d % U32] == [a, b, c] + [d] <==> a < U32 && b < U32 && c < U32 && d < U32
  {
    var x, y := [a % U32, b % U32, c % U32], [a, b, c];
    assert x == y <==> x[0] == y[0] && x[1] == y[1] && x[2] == y[2];
    assert x + [] == x && y + [] == y;
    assert [a % U32, b % U32] == [a, b] <==> a % U32 == a && b % U32 == b by {
      if [a % U32, b % U32] == [a, b] {
        assert [a % U32, b % U32][0] == [a, b][0] && [a % U32, b % U32][1] == [a, b][1];
      }
    }
    assert x + [d % U32] == y + [d] <==> x == y && d % U32 == d by {
      if x + [d % U32] == y + [d] {
        assert x == (x + [d % U32])[..3] == (y + [d])[..3] == y && (x + [d % U32])[3] == (y + [d])[3];
      }
    }
  }

  lemma OldReads(img: seq<byte>, header: seq<byte>, sections: seq<seq<byte>>, base: nat, src: seq<byte>)
    requires |src| == V2_HEADER_SIZE && Words.Word(src, VERSION_AT) < 3 && |sections| == 4
    requires Copied(img, header, src, base, sections)
    ensures |img| >= V2_HEADER_SIZE
    ensures Unpack(img)
            == Some(Sections(Words.Word(src, VERSION_AT), sections[0], sections[1], sections[2], sections[3])) <==>
            && |sections[0]| < U32 && |sections[1]| < U32 && |sections[2]| < U32
            && (Words.Word(src, VERSION_AT) == 2 ==> Words.Word(img, DTB_SIZE_AT) == |sections[3]|)
  {
    hide Words.Word, PadAll, FieldsAre, Blank, ReadSections, Fields, PutAll, RoundUp;
    var page := Words.Word(src, PAGE_SIZE_AT);
    var v2 := Words.Word(src, VERSION_AT) == 2;
    OldWords(img, header, sections, base, src);
    PutLength(header, page, sections, page);
    PutAllReads(header, page, sections, page);
    var a, b, c, d := |sections[0]|, |sections[1]|, |sections[2]|, |sections[3]|;
    var at := Words.Word(img, DTB_SIZE_AT);
    var sizes := [a % U32, b % U32, c % U32] + if v2 then [at] else [];
    var count := if v2 then 4 else 3;
    ReadsExactly(img, page, sections, count, sizes);
    assert sections[..4] == sections == [sections[0], sections[1], sections[2], sections[3]];
    assert sections[..3] == [sections[0], sections[1], sections[2]];
    assert Lengths(sections[..count]) == [a, b, c] + if v2 then [d] else [];
    Truncated(a, b, c, at);
    SameSizes([a % U32, b % U32, c % U32], [a, b, c], at, d);
  }

  lemma SameSizes(x: seq<nat>, y: seq<nat>, a: nat, b: nat)
    requires |x| == |y|
    ensures x + [a] == y + [b] <==> x == y && a == b
  {
    if x + [a] == y + [b] {
      assert x == (x + [a])[..|x|] == (y + [b])[..|y|] == y && (x + [a])[|x|] == (y + [b])[|y|];
    }
  }

  /** The bytes at the place of the DTB size: of the section copied over it, else those of the size. */
  function DtbBytes(page: nat, sections: seq<seq<byte>>): (r: seq<byte>)
    requires page > 0 && |sections| == 4
    ensures |r| == 4
  {
    var size := LittleEndian32(|sections[3]|);
    seq(4, k requires 0 <= k < 4 => Covering(size[k], page, sections, page, DTB_SIZE_AT + k))
  }

  /** The size of the DTB fits its field and no section changes it. */
  predicate DtbSizeStays(page: nat, sections: seq<seq<byte>>)
    requires page > 0 && |sections| == 4
  {
    |sections[3]| < U32 && DtbBytes(page, sections) == LittleEndian32(|sections[3]|)
  }

  /** Sections that do not reach the field, as always with pages not below the header, leave it as it is. */
  lemma DtbSizeMissed(page: nat, sections: seq<seq<byte>>)
    requires page > 0 && |sections| == 4
    ensures Misses(page, sections, page, DTB_SIZE_AT, DTB_SIZE_AT + 4) ==>
              (DtbSizeStays(page, sections) <==> |sections[3]| < U32)
    ensures page >= V2_HEADER_SIZE ==> Misses(page, sections, page, DTB_SIZE_AT, DTB_SIZE_AT + 4)
  {
    hide Covering, Misses;
    if page >= V2_HEADER_SIZE {
      MissesBefore(page, sections, page, DTB_SIZE_AT, DTB_SIZE_AT + 4);
    }
    if Misses(page, sections, page, DTB_SIZE_AT, DTB_SIZE_AT + 4) {
      var size := LittleEndian32(|sections[3]|);
      hide LittleEndian32;
      forall k | 0 <= k < 4
        ensures DtbBytes(page, sections)[k] == size[k]
      {
        CoveringMissed(size[k], page, sections, page, DTB_SIZE_AT, DTB_SIZE_AT + 4, DTB_SIZE_AT + k);
      }
    }
  }

  lemma {:induction false} CoveringMissed(b: byte, at: nat, xs: seq<seq<byte>>, p: nat, lo: nat, hi: nat, i: nat)
    requires p > 0 && lo <= i < hi && Misses(at, xs, p, lo, hi)
    ensures Covering(b, at, xs, p, i) == b
    decreases |xs|
  {
    if xs != [] {
      CoveringMissed(b, at + RoundUp(|xs[0]|, p), xs[1..], p, lo, hi, i);
    }
  }

  lemma DtbSize(img: seq<byte>, header: seq<byte>, sections: seq<seq<byte>>, base: nat, src: seq<byte>)
    requires |src| == V2_HEADER_SIZE && Words.Word(src, VERSION_AT) == 2 && |sections| == 4
    requires Copied(img, header, src, base, sections)
    ensures |img| >= V2_HEADER_SIZE && Words.Word(src, PAGE_SIZE_AT) > 0
    ensures img[DTB_SIZE_AT..DTB_SIZE_AT + 4] == DtbBytes(Words.Word(src, PAGE_SIZE_AT), sections)
    ensures Words.Word(img, DTB_SIZE_AT) == |sections[3]| <==> DtbSizeStays(Words.Word(src, PAGE_SIZE_AT), sections)
  {
    hide Words.Word, PadAll, FieldsAre, Blank, Fields, PutAll, RoundUp, LittleEndian32, Covering;
    var page, size := Words.Word(src, PAGE_SIZE_AT), LittleEndian32(|sections[3]|);
    PutLength(header, page, sections, page);
    FieldValues(src, base, |sections[0]|, |sections[1]|, |sections[2]|, |sections[3]|);
    FieldWord(header, Blank(src, |header|),
              Fields(src, base, |sections[0]|, |sections[1]|, |sections[2]|, |sections[3]|), DTB_SIZE_AT);
    WordBytes(header, DTB_SIZE_AT, |sections[3]|);
    forall k | 0 <= k < 4
      ensures img[DTB_SIZE_AT + k] == DtbBytes(page, sections)[k]
    {
      PutAllAt(header, page, sections, page, DTB_SIZE_AT + k);
      assert header[DTB_SIZE_AT + k] == header[DTB_SIZE_AT..DTB_SIZE_AT + 4][k];
    }
    FourBytes(img, DTB_SIZE_AT, DtbBytes(page, sections));
    WordBytes(img, DTB_SIZE_AT, |sections[3]|);
  }

  lemma FourBytes(b: seq<byte>, off: nat, x: seq<byte>)
    requires off + 4 <= |b| && |x| == 4 && forall k :: 0 <= k < 4 ==> b[off + k] == x[k]
    ensures b[off..off + 4] == x
  {
  }

  /** A word has a value exactly when its bytes are those of the value. */
  lemma WordBytes(b: seq<byte>, off: nat, v: nat)
    requires off + 4 <= |b|
    ensures Words.Word(b, off) == v % U32 <==> b[off..off + 4] == LittleEndian32(v)
    ensures Words.Word(b, off) == v <==> v < U32 && b[off..off + 4] == LittleEndian32(v)
  {
    hide LittleEndian32, FromLittleEndian32;
    LittleEndian32Read(v);
    LittleEndian32Write(b[off..off + 4]);
    SameBytes(v);
    WordInRange(b, off);
  }

  lemma SameBytes(v: nat)
    ensures LittleEndian32(v % U32) == LittleEndian32(v)
  {
    LittleEndian32Read(v);
    LittleEndian32Write(LittleEndian32(v));
  }

  lemma WordInRange(b: seq<byte>, off: nat)
    requires off + 4 <= |b|
    ensures 0 <= Words.Word(b, off) < U32 && Words.Word(b, off) == FromLittleEndian32(b[off..off + 4])
  {
  }

  lemma SameWord(a: seq<byte>, i: nat, b: seq<byte>, j: nat)
    requires i + 4 <= |a| && j + 4 <= |b| && a[i..i + 4] == b[j..j + 4]
    ensures Words.Word(a, i) == Words.Word(b, j)
  {
  }

  lemma FieldWord(h: seq<byte>, first: seq<byte>, f: map<nat, int>, off: nat)
    requires FieldsAre(h, first, f) && off in f.Keys
    ensures off + 4 <= |h| && Words.Word(h, off) == f[off]
  {
  }

  /** A kernel that covers the DTB size: the DTB is not found although everything is small. */
  lemma SmallPageLosesDtb(img: seq<byte>, header: seq<byte>, base: nat, src: seq<byte>)
    requires |src| == V2_HEADER_SIZE && Words.Word(src, VERSION_AT) == 2 && Words.Word(src, PAGE_SIZE_AT) == 1024
    requires Copied(img, header, src, base, [Zeros(1024), [], [], [1]])
    ensures Unpack(img) != Some(Sections(2, Zeros(1024), [], [], [1]))
  {
    hide Words.Word, Copied, Unpack;
    OldReads(img, header, [Zeros(1024), [], [], [1]], base, src);
    DtbSize(img, header, [Zeros(1024), [], [], [1]], base, src);
    var first := DtbBytes(1024, [Zeros(1024), [], [], [1]])[0];
    assert first == 0 && LittleEndian32(1)[0] == 1;
  }

  lemma FieldValues(src: seq<byte>, base: nat, kernel: nat, ramdisk: nat, second: nat, dtb: nat)
    requires |src| == V2_HEADER_SIZE
    ensures var f := Fields(src, base, kernel, ramdisk, second, dtb);
            && Clear(f, PAGE_SIZE_AT) && Clear(f, VERSION_AT)
            && KERNEL_SIZE_AT in f && f[KERNEL_SIZE_AT] == kernel % U32
            && RAMDISK_SIZE_AT in f && f[RAMDISK_SIZE_AT] == ramdisk % U32
            && SECOND_SIZE_AT in f && f[SECOND_SIZE_AT] == second % U32
            && (Words.Word(src, VERSION_AT) == 2 ==> DTB_SIZE_AT in f && f[DTB_SIZE_AT] == dtb % U32)
  {
    hide Words.Word;
  }

  /** A field in the part of the header that no section reaches. */
  lemma FrontWord(img: seq<byte>, header: seq<byte>, src: seq<byte>, f: map<nat, int>, sections: seq<seq<byte>>,
                  page: nat, off: nat)
    requires page > 0 && page + |PadAll(sections, page)| <= |header| && img == PutAll(header, page, sections, page)
    requires |src| == V2_HEADER_SIZE <= |header| && FieldsAre(header, Blank(src, |header|), f) && 8 <= off
    requires off + 4 <= page
    requires off + 4 <= V2_HEADER_SIZE
    ensures off + 4 <= |img|
    ensures off in f.Keys ==> Words.Word(img, off) == f[off]
    ensures Clear(f, off) ==> Words.Word(img, off) == Words.Word(src, off)
  {
    hide Words.Word, PadAll, FieldsAre, Blank, PutAll, Misses;
    PutLength(header, page, sections, page);
    MissesBefore(page, sections, page, off, off + 4);
    PutAllMisses(header, page, sections, page, off, off + 4);
    SameWord(img, off, header, off);
    if off in f.Keys {
      FieldWord(header, Blank(src, |header|), f, off);
    }
    if Clear(f, off) {
      WordKept(header, Blank(src, |header|), f, off);
      BlankWord(src, |header|, off);
    }
  }

  lemma OldWords(img: seq<byte>, header: seq<byte>, sections: seq<seq<byte>>, base: nat, src: seq<byte>)
    requires |src| == V2_HEADER_SIZE && |sections| == 4 && Copied(img, header, src, base, sections)
    ensures |img| >= V2_HEADER_SIZE
    ensures Words.Word(img, PAGE_SIZE_AT) == Words.Word(src, PAGE_SIZE_AT)
    ensures Words.Word(img, VERSION_AT) == Words.Word(src, VERSION_AT)
    ensures OldSizes(img) == [|sections[0]| % U32, |sections[1]| % U32, |sections[2]| % U32]
                             + if Words.Word(src, VERSION_AT) == 2 then [Words.Word(img, DTB_SIZE_AT)] else []
  {
    hide Words.Word, PadAll, FieldsAre, Blank, Fields, PutAll, RoundUp;
    FieldValues(src, base, |sections[0]|, |sections[1]|, |sections[2]|, |sections[3]|);
    var page := Words.Word(src, PAGE_SIZE_AT);
    var f := Fields(src, base, |sections[0]|, |sections[1]|, |sections[2]|, |sections[3]|);
    PutLength(header, page, sections, page);
    FrontWord(img, header, src, f, sections, page, PAGE_SIZE_AT);
    FrontWord(img, header, src, f, sections, page, VERSION_AT);
    FrontWord(img, header, src, f, sections, page, KERNEL_SIZE_AT);
    FrontWord(img, header, src, f, sections, page, RAMDISK_SIZE_AT);
    FrontWord(img, header, src, f, sections, page, SECOND_SIZE_AT);
  }

  // ----- What a boot loader reads in the header

  function DoubleWord(b: seq<byte>, off: nat): (v: nat)
    requires off + 8 <= |b|
  {
    Words.Word(b, off) + Words.Word(b, off + 4) * U32
  }

  /**
   The header of versions 0 to 2: the magic; the four load addresses of the given header moved
   by the base; and, on a page that holds the header, everything else as it was given but the
   sizes, the header size of the version, and for version 2 the address of the DTB.
   */
  predicate OldHeader(img: seq<byte>, src: seq<byte>, base: nat)
    requires |src| == 1660 <= |img|
  {
    && img[..8] == Ascii("ANDROID!")
    && (forall k :: k in {12, 20, 28, 32} ==> Words.Word(img, k) == (Words.Word(src, k) + base) % U32)
    && (Words.Word(src, 36) >= 1660 ==>
          && img[36..1644] == src[36..1644]
          && match Words.Word(src, 40)
             case 1 => Words.Word(img, 1644) == 1648 && img[1648..1660] == src[1648..]
             case 2 =>
               Words.Word(img, 1644) == 1660 && DoubleWord(img, 1652) == (DoubleWord(src, 1652) + base) % (U32 * U32)
             case _ => img[1644..1660] == src[1644..])
  }

  /** The header of versions 3 and 4: magic, version, OS version and sizes; the rest of the page is zero. */
  predicate NewHeader(img: seq<byte>, src: seq<byte>)
    requires |src| == 1660 && 4096 <= |img|
  {
    && img[..8] == Ascii("ANDROID!")
    && Words.Word(img, 16) == Words.Word(src, 44) && Words.Word(img, 20) == 1580
    && Words.Word(img, 40) == Words.Word(src, 40)
    && img[24..40] == Zeros(16) && img[44..4096] == Zeros(4052)
  }

  lemma Magic()
    ensures BOOT_MAGIC == Ascii("ANDROID!")
  {
  }

  lemma BytesKept(h: seq<byte>, first: seq<byte>, f: map<nat, int>, lo: nat, hi: nat)
    requires FieldsAre(h, first, f) && lo <= hi <= |h|
    requires forall k :: k in f.Keys ==> k + 4 <= lo || hi <= k
    ensures |first| == |h| && h[lo..hi] == first[lo..hi]
  {
    forall i | lo <= i < hi
      ensures h[i] == first[i]
    {
      assert !Inside(f, i);
    }
  }

  /** Bytes before the first section, in no field. */
  lemma FrontBytes(img: seq<byte>, header: seq<byte>, src: seq<byte>, f: map<nat, int>, sections: seq<seq<byte>>,
                   page: nat, lo: nat, hi: nat)
    requires page > 0 && page + |PadAll(sections, page)| <= |header| && img == PutAll(header, page, sections, page)
    requires |src| == V2_HEADER_SIZE <= |header| && FieldsAre(header, Blank(src, |header|), f)
    requires lo <= hi <= page && hi <= |src| && forall k :: k in f.Keys ==> k + 4 <= lo || hi <= k
    ensures hi <= |img| && img[lo..hi] == Overlay(src, 0, BOOT_MAGIC)[lo..hi]
  {
    hide PadAll, FieldsAre, Blank, PutAll, Misses, Overlay;
    PutLength(header, page, sections, page);
    MissesBefore(page, sections, page, lo, hi);
    PutAllMisses(header, page, sections, page, lo, hi);
    BytesKept(header, Blank(src, |header|), f, lo, hi);
    BlankIs(src, |header|);
    OverlayLength(src, 0, BOOT_MAGIC);
  }

  lemma Addresses(src: seq<byte>, base: nat, kernel: nat, ramdisk: nat, second: nat, dtb: nat, k: nat)
    requires |src| == V2_HEADER_SIZE && k in {12, 20, 28, 32}
    ensures var f := Fields(src, base, kernel, ramdisk, second, dtb);
            k in f.Keys && f[k] == (Words.Word(src, k) + base) % U32
  {
    hide Words.Word;
  }

  lemma FieldPlaces(src: seq<byte>, base: nat, kernel: nat, ramdisk: nat, second: nat, dtb: nat)
    requires |src| == V2_HEADER_SIZE
    ensures var f := Fields(src, base, kernel, ramdisk, second, dtb);
            var version := Words.Word(src, 40);
            && (forall k :: k in f.Keys ==> 8 <= k && (k + 4 <= 36 || 1644 <= k))
            && (version == 1 ==> 1644 in f.Keys && f[1644] == 1648 && forall k :: k in f.Keys ==> k + 4 <= 1648)
            && (version == 2 ==> 1644 in f.Keys && f[1644] == 1660)
            && (version != 1 && version != 2 ==> forall k :: k in f.Keys ==> k + 4 <= 36)
  {
    hide Words.Word;
  }

  lemma DtbPlaces(src: seq<byte>, base: nat, kernel: nat, ramdisk: nat, second: nat, dtb: nat)
    requires |src| == V2_HEADER_SIZE && Words.Word(src, 40) == 2
    ensures var f := Fields(src, base, kernel, ramdisk, second, dtb);
            && 1652 in f.Keys && f[1652] == (DoubleWord(src, 1652) + base) % U32
            && 1656 in f.Keys && f[1656] == (DoubleWord(src, 1652) + base) / U32 % U32
  {
    hide Words.Word;
  }

  /** Two halves of a number of 64 bits. */
  lemma TwoHalves(n: nat)
    ensures n % U32 + n / U32 % U32 * U32 == n % (U32 * U32)
  {
    var a, b, c := n % U32, n / U32 % U32, n / U32 / U32;
    assert n == U32 * (n / U32) + a && n / U32 == U32 * c + b;
    assert n == (U32 * U32) * c + (b * U32 + a);
    ModUnique(n, U32 * U32, c, b * U32 + a);
  }

  lemma OldHeaderReads(img: seq<byte>, header: seq<byte>, src: seq<byte>, base: nat, sections: seq<seq<byte>>)
    requires |src| == V2_HEADER_SIZE && |sections| == 4 && Copied(img, header, src, base, sections)
    ensures |img| >= 1660 && OldHeader(img, src, base)
  {
    hide Words.Word, PadAll, FieldsAre, Blank, Fields, PutAll, RoundUp, Overlay, DoubleWord, Ascii;
    var page := Words.Word(src, PAGE_SIZE_AT);
    var a, b, c, d := |sections[0]|, |sections[1]|, |sections[2]|, |sections[3]|;
    var f := Fields(src, base, a, b, c, d);
    FieldPlaces(src, base, a, b, c, d);
    PutLength(header, page, sections, page);
    Magic();
    FrontBytes(img, header, src, f, sections, page, 0, 8);
    OverlayAt(src, 0, BOOT_MAGIC);
    forall k | k in {12, 20, 28, 32}
      ensures Words.Word(img, k) == (Words.Word(src, k) + base) % U32
    {
      Addresses(src, base, a, b, c, d, k);
      FrontWord(img, header, src, f, sections, page, k);
    }
    if page >= 1660 {
      OldHeaderRest(img, header, src, base, sections);
    }
  }

  lemma OldHeaderRest(img: seq<byte>, header: seq<byte>, src: seq<byte>, base: nat, sections: seq<seq<byte>>)
    requires |src| == V2_HEADER_SIZE && |sections| == 4 && Copied(img, header, src, base, sections)
    requires Words.Word(src, 36) >= 1660
    ensures |img| >= 1660 && img[36..1644] == src[36..1644]
    ensures match Words.Word(src, 40)
            case 1 => Words.Word(img, 1644) == 1648 && img[1648..1660] == src[1648..]
            case 2 =>
              Words.Word(img, 1644) == 1660 && DoubleWord(img, 1652) == (DoubleWord(src, 1652) + base) % (U32 * U32)
            case _ => img[1644..1660] == src[1644..]
  {
    hide Words.Word, PadAll, FieldsAre, Blank, Fields, PutAll, RoundUp, Overlay;
    var page, version := Words.Word(src, 36), Words.Word(src, 40);
    var a, b, c, d := |sections[0]|, |sections[1]|, |sections[2]|, |sections[3]|;
    var f := Fields(src, base, a, b, c, d);
    FieldPlaces(src, base, a, b, c, d);
    PutLength(header, page, sections, page);
    FrontBytes(img, header, src, f, sections, page, 36, 1644);
    OverlayAfter(src, 0, BOOT_MAGIC, 36, 1644);
    if version == 1 || version == 2 {
      FrontWord(img, header, src, f, sections, page, 1644);
    }
    if version == 2 {
      DtbPlaces(src, base, a, b, c, d);
      FrontWord(img, header, src, f, sections, page, 1652);
      FrontWord(img, header, src, f, sections, page, 1656);
      TwoHalves(DoubleWord(src, 1652) + base);
    } else {
      var lo := if version == 1 then 1648 else 1644;
      FrontBytes(img, header, src, f, sections, page, lo, 1660);
      OverlayAfter(src, 0, BOOT_MAGIC, lo, 1660);
    }
  }

  lemma NewHeaderReads(img: seq<byte>, kernel: seq<byte>, ramdisk: seq<byte>, src: seq<byte>)
    requires |src| == V2_HEADER_SIZE && Words.Word(src, VERSION_AT) >= 3
    requires Made(img, V3_PAGE_SIZE, Blank(Zeros(8), V3_PAGE_SIZE), V3Fields(src, |kernel|, |ramdisk|),
                  [kernel, ramdisk])
    ensures |img| >= 4096 && NewHeader(img, src)
  {
    hide Words.Word, PadAll, FieldsAre, Blank, Ascii;
    var f, first := V3Fields(src, |kernel|, |ramdisk|), Blank(Zeros(8), 4096);
    ImageWord(img, 4096, first, f, [kernel, ramdisk], 16);
    ImageWord(img, 4096, first, f, [kernel, ramdisk], 20);
    ImageWord(img, 4096, first, f, [kernel, ramdisk], 40);
    Magic();
    ZeroBytes(img[..4096], first, f, Words.Word(src, VERSION_AT) >= 4);
    assert img[..8] == img[..4096][..8] && img[24..40] == img[..4096][24..40];
    assert img[44..4096] == img[..4096][44..4096];
  }

  lemma ZeroBytes(h: seq<byte>, first: seq<byte>, f: map<nat, int>, signed: bool)
    requires |h| == 4096 && first == Blank(Zeros(8), 4096) && FieldsAre(h, first, f)
    requires forall k :: k in f.Keys ==> k in {8, 12, 16, 20, 40} || (signed && k == 1580)
    requires signed ==> 1580 in f.Keys && f[1580] == 0
    ensures h[..8] == BOOT_MAGIC && h[24..40] == Zeros(16) && h[44..4096] == Zeros(4052)
  {
    hide Blank, FieldsAre;
    BytesKept(h, first, f, 0, 8);
    BytesKept(h, first, f, 24, 40);
    BytesKept(h, first, f, 44, 1580);
    BytesKept(h, first, f, 1584, 4096);
    BlankZero(24, 40);
    BlankZero(44, 1580);
    BlankZero(1580, 1584);
    BlankZero(1584, 4096);
    if signed {
      FieldWord(h, first, f, 1580);
      WordBytes(h, 1580, 0);
      assert LittleEndian32(0) == Zeros(4);
    } else {
      BytesKept(h, first, f, 1580, 1584);
    }
    ZerosJoin(1536, 4);
    ZerosJoin(1540, 2512);
    hide *;
    assert h[44..4096] == h[44..1580] + h[1580..1584] + h[1584..4096];
  }

  lemma BlankZero(lo: nat, hi: nat)
    requires 8 <= lo <= hi <= 4096
    ensures var first := Blank(Zeros(8), 4096); first[..8] == BOOT_MAGIC && first[lo..hi] == Zeros(hi - lo)
  {
    BlankMagic(4096);
    hide Blank;
    OverlayAt(Zeros(4096), 0, BOOT_MAGIC);
    OverlayAfter(Zeros(4096), 0, BOOT_MAGIC, lo, hi);
  }
}
