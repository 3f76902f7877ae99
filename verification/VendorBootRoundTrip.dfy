/** Rendering a version 4 image and parsing it again gives back the value. */
module VendorBootRoundTrip {
  import opened Bytes
  import opened VendorBootFormat
  import opened VendorBootImage

  // ----- Fragments and their table

  lemma {:induction false} TableEntry(fs: seq<Fragment>, i: nat)
    requires DescrsOk(fs) && i < |fs|
    ensures Table(fs)[ENTRY_SIZE * i..ENTRY_SIZE * i + ENTRY_SIZE]
            == EntryBytes(|fs[i].data|, |Ramdisk(fs[..i])|, fs[i].descr)
  {
    var front := fs[..|fs| - 1];
    var last := EntryBytes(|fs[|fs| - 1].data|, |Ramdisk(front)|, fs[|fs| - 1].descr);
    assert Table(fs) == Table(front) + last;
    if i < |front| {
      TableEntry(front, i);
      assert front[..i] == fs[..i];
      assert Table(fs)[..|Table(front)|] == Table(front);
    } else {
      SliceMiddle(Table(front), last, []);
    }
  }

  lemma {:induction false} RamdiskSlice(fs: seq<Fragment>, i: nat)
    requires i < |fs|
    ensures |Ramdisk(fs[..i])| + |fs[i].data| <= |Ramdisk(fs)|
    ensures Ramdisk(fs)[|Ramdisk(fs[..i])|..|Ramdisk(fs[..i])| + |fs[i].data|] == fs[i].data
  {
    var front := fs[..|fs| - 1];
    if i < |front| {
      RamdiskSlice(front, i);
      assert front[..i] == fs[..i];
      assert Ramdisk(fs)[..|Ramdisk(front)|] == Ramdisk(front);
    } else {
      SliceMiddle(Ramdisk(front), fs[i].data, []);
    }
  }

  lemma RamdiskStep(fs: seq<Fragment>, i: nat)
    requires i < |fs|
    ensures |Ramdisk(fs[..i + 1])| == |Ramdisk(fs[..i])| + |fs[i].data|
  {
    assert fs[..i + 1][..i] == fs[..i];
  }

  lemma PrefixSum(fs: seq<Fragment>, i: nat)
    requires i <= |fs|
    ensures Sum(DataSizes(fs)[..i]) == |Ramdisk(fs[..i])|
  {
    assert DataSizes(fs)[..i] == DataSizes(fs[..i]);
  }

  // ----- Where the parts of the content lie

  lemma PartAt(a: seq<byte>, b: seq<byte>, img: seq<byte>)
    requires a + b <= img
    ensures a <= img && |a| + |b| <= |img| && img[|a|..|a| + |b|] == b
  {
    SliceMiddle(a, b, img[|a + b|..]);
    assert img == a + b + img[|a + b|..];
  }

  /** Consecutive parts of a byte string. */
  lemma PartsAt(a: seq<byte>, b: seq<byte>, c: seq<byte>, d: seq<byte>, e: seq<byte>, f: seq<byte>, img: seq<byte>)
    requires a + b + c + d + e + f <= img
    ensures |a| + |b| + |c| + |d| + |e| + |f| <= |img|
    ensures img[..|a|] == a
    ensures img[|a|..|a| + |b|] == b
    ensures var n := |a| + |b|; img[n..n + |c|] == c
    ensures var n := |a| + |b| + |c|; img[n..n + |d|] == d
    ensures var n := |a| + |b| + |c| + |d|; img[n..n + |e|] == e
    ensures var n := |a| + |b| + |c| + |d| + |e|; img[n..n + |f|] == f
  {
    PartAt(a + b + c + d + e, f, img);
    PartAt(a + b + c + d, e, img);
    PartAt(a + b + c, d, img);
    PartAt(a + b, c, img);
    PartAt(a, b, img);
  }

  lemma HeaderWords(header: seq<byte>, v: int, img: seq<byte>)
    requires |header| >= V4_HEADER_SIZE && 0 <= v < U32 && PutWord(header, RAMDISK_SIZE_AT, v) <= img
    ensures img[..8] == header[..8]
    ensures Word(img, RAMDISK_SIZE_AT) == v
    ensures forall at {:trigger Word(img, at)} ::
              at in {VERSION_AT, PAGE_SIZE_AT, DTB_SIZE_AT, TABLE_SIZE_AT, ENTRY_NUM_AT, ENTRY_SIZE_AT,
                     BOOTCONFIG_SIZE_AT}
              ==> Word(img, at) == Word(header, at)
  {
    var h := PutWord(header, RAMDISK_SIZE_AT, v);
    OverlayBefore(header, RAMDISK_SIZE_AT, LittleEndian32(v), 0, 8);
    assert img[..8] == h[0..8] == header[0..8];
    WordOfPut(header, RAMDISK_SIZE_AT, v);
    WordOfPrefix(img, h, RAMDISK_SIZE_AT);
    forall at: int | at in {VERSION_AT, PAGE_SIZE_AT, DTB_SIZE_AT, TABLE_SIZE_AT, ENTRY_NUM_AT, ENTRY_SIZE_AT,
                            BOOTCONFIG_SIZE_AT}
      ensures Word(img, at) == Word(header, at)
    {
      WordOfPrefix(img, h, at);
      WordBesidePut(header, RAMDISK_SIZE_AT, v, at);
    }
  }

  // ----- Reading a rendered image back

  function PadSize(v: VendorBoot): (r: int)
    requires Renderable(v)
  {
    RoundUp32(|Ramdisk(v.fragments)|, Word(v.header, PAGE_SIZE_AT))
  }

  function LayoutOfValue(v: VendorBoot): (l: Layout)
    requires Renderable(v)
  {
    Layout(|v.header|, PadSize(v), |v.dtb|, ENTRY_SIZE * |v.fragments| + |v.tableRest|, |v.bootconfig|)
  }

  lemma ReadLayout(v: VendorBoot, img: seq<byte>)
    requires Renderable(v) && Content(v) <= img
    ensures HeaderOk(img, 4) && LayoutOf(img) == LayoutOfValue(v)
    ensures EntryNum(img) == |v.fragments| && Word(img, ENTRY_SIZE_AT) == ENTRY_SIZE
    ensures Word(img, RAMDISK_SIZE_AT) == |Ramdisk(v.fragments)|
  {
    var n := |Ramdisk(v.fragments)|;
    var h := PutWord(v.header, RAMDISK_SIZE_AT, n);
    assert h <= img by {
      ContentStartsWithHeader(v);
    }
    HeaderSizeKnown(v);
    HeaderWords(v.header, n, img);
  }

  lemma HeaderSizeKnown(v: VendorBoot)
    requires Renderable(v)
    ensures |v.header| >= V4_HEADER_SIZE && Word(v.header, RAMDISK_SIZE_AT) == 0
    ensures 0 < Word(v.header, PAGE_SIZE_AT)
  {
  }

  lemma ContentStartsWithHeader(v: VendorBoot)
    requires Renderable(v)
    ensures PutWord(v.header, RAMDISK_SIZE_AT, |Ramdisk(v.fragments)|) <= Content(v)
  {
    var ramdisk := Ramdisk(v.fragments);
    PartsAt(PutWord(v.header, RAMDISK_SIZE_AT, |ramdisk|), PadToPage(ramdisk, Word(v.header, PAGE_SIZE_AT)),
            v.dtb, Table(v.fragments), v.tableRest, v.bootconfig, Content(v));
  }

  /** Lengths of the parts of the content. */
  lemma PartLengths(v: VendorBoot)
    requires Renderable(v)
    ensures |PutWord(v.header, RAMDISK_SIZE_AT, |Ramdisk(v.fragments)|)| == |v.header|
    ensures |PadToPage(Ramdisk(v.fragments), Word(v.header, PAGE_SIZE_AT))| == PadSize(v)
    ensures |Table(v.fragments)| == ENTRY_SIZE * |v.fragments|
    ensures |Content(v)| == |v.header| + PadSize(v) + |v.dtb| + ENTRY_SIZE * |v.fragments| + |v.tableRest|
            + |v.bootconfig|
  {
    hide RoundUp32;
    RoundUpExact(|Ramdisk(v.fragments)|, Word(v.header, PAGE_SIZE_AT));
  }

  lemma ReadRamdisk(v: VendorBoot, img: seq<byte>)
    requires Renderable(v) && Content(v) <= img
    ensures |v.header| + |Ramdisk(v.fragments)| <= |img|
    ensures img[|v.header|..|v.header| + |Ramdisk(v.fragments)|] == Ramdisk(v.fragments)
  {
    PartLengths(v);
    var a := PutWord(v.header, RAMDISK_SIZE_AT, |Ramdisk(v.fragments)|);
    var ramdisk := Ramdisk(v.fragments);
    var pad := PadToPage(ramdisk, Word(v.header, PAGE_SIZE_AT));
    PartsAt(a, pad, v.dtb, Table(v.fragments), v.tableRest, v.bootconfig, img);
    SliceSlice(img, |a|, |a| + |pad|, 0, |ramdisk|);
    assert pad[..|ramdisk|] == ramdisk;
  }

  lemma ReadTable(v: VendorBoot, img: seq<byte>)
    requires Renderable(v) && Content(v) <= img
    ensures var t := |v.header| + PadSize(v) + |v.dtb|;
            && t + ENTRY_SIZE * |v.fragments| <= |img|
            && img[t..t + ENTRY_SIZE * |v.fragments|] == Table(v.fragments)
  {
    hide RoundUp32, Table, Ramdisk, PadToPage, Word;
    PartLengths(v);
    PartsAt(PutWord(v.header, RAMDISK_SIZE_AT, |Ramdisk(v.fragments)|),
            PadToPage(Ramdisk(v.fragments), Word(v.header, PAGE_SIZE_AT)),
            v.dtb, Table(v.fragments), v.tableRest, v.bootconfig, img);
  }

  lemma ReadOthers(v: VendorBoot, img: seq<byte>)
    requires Renderable(v) && Content(v) <= img
    ensures var b := |v.header| + PadSize(v);
            var t := b + |v.dtb|;
            var e := t + ENTRY_SIZE * |v.fragments|;
            var c := e + |v.tableRest|;
            && c + |v.bootconfig| <= |img|
            && img[..|v.header|] == PutWord(v.header, RAMDISK_SIZE_AT, |Ramdisk(v.fragments)|)
            && img[b..t] == v.dtb && img[e..c] == v.tableRest && img[c..c + |v.bootconfig|] == v.bootconfig
  {
    hide RoundUp32, Table, Ramdisk, PadToPage, Word;
    PartLengths(v);
    PartsAt(PutWord(v.header, RAMDISK_SIZE_AT, |Ramdisk(v.fragments)|),
            PadToPage(Ramdisk(v.fragments), Word(v.header, PAGE_SIZE_AT)),
            v.dtb, Table(v.fragments), v.tableRest, v.bootconfig, img);
  }

  lemma ReadTableReadable(v: VendorBoot, img: seq<byte>)
    requires Renderable(v) && Content(v) <= img
    ensures TableReadable(img) && EntryNum(img) == |v.fragments|
    ensures TableStart(img) == |v.header| + PadSize(v) + |v.dtb|
  {
    ReadLayout(v, img);
    PartLengths(v);
  }

  lemma ReadEntry(v: VendorBoot, img: seq<byte>, i: nat)
    requires Renderable(v) && Content(v) <= img && i < |v.fragments|
    ensures TableReadable(img) && i < EntryNum(img)
    ensures var f := v.fragments[i];
            Entry(img, i) == EntryBytes(|f.data|, |Ramdisk(v.fragments[..i])|, f.descr)
  {
    hide RoundUp32, LayoutOf, Content, Table, Ramdisk, HeaderOk, HeaderFits;
    ReadTableReadable(v, img);
    ReadTable(v, img);
    TableEntry(v.fragments, i);
    var t, n := TableStart(img), |v.fragments|;
    SliceSlice(img, t, t + ENTRY_SIZE * n, ENTRY_SIZE * i, ENTRY_SIZE * i + ENTRY_SIZE);
  }

  lemma EntryFields(size: int, offset: int, descr: seq<byte>)
    requires |descr| == DESCR_SIZE && 0 <= size < U32 && 0 <= offset < U32
    ensures var e := EntryBytes(size, offset, descr);
            Word(e, 0) == size && Word(e, 4) == offset && e[8..] == descr
  {
    var e := EntryBytes(size, offset, descr);
    assert e[0..4] == LittleEndian32(size) && e[4..8] == LittleEndian32(offset);
    LittleEndian32Read(size);
    LittleEndian32Read(offset);
  }

  /** The offsets in a rendered table are the exact prefix sums of the sizes. */
  lemma ReadEntryFields(v: VendorBoot, img: seq<byte>, i: nat)
    requires Renderable(v) && Content(v) <= img && i < |v.fragments|
    ensures TableReadable(img) && i < EntryNum(img)
    ensures Word(Entry(img, i), 0) == |v.fragments[i].data|
    ensures Word(Entry(img, i), 4) == |Ramdisk(v.fragments[..i])|
    ensures Entry(img, i)[8..] == v.fragments[i].descr
  {
    ReadEntry(v, img, i);
    RamdiskSlice(v.fragments, i);
    EntryFields(|v.fragments[i].data|, |Ramdisk(v.fragments[..i])|, v.fragments[i].descr);
  }

  lemma ReadSizes(v: VendorBoot, img: seq<byte>)
    requires Renderable(v) && Content(v) <= img && |img| == v.size
    ensures TableReadable(img) && Sizes(img) == DataSizes(v.fragments)
    ensures Parsable(img)
  {
    hide Content, Ramdisk, Table, HeaderOk, HeaderFits, LayoutOf, TableReadable, RoundUp32, Entry;
    ReadLayout(v, img);
    ReadTableReadable(v, img);
    forall i | 0 <= i < |v.fragments|
      ensures Sizes(img)[i] == DataSizes(v.fragments)[i]
    {
      ReadEntryFields(v, img, i);
    }
    HeaderSizeKnown(v);
    PartLengths(v);
    RoundUpExact(|Ramdisk(v.fragments)|, Word(v.header, PAGE_SIZE_AT));
    SamePageSize(v, img);
    ThreeOfFour(img);
  }

  lemma SamePageSize(v: VendorBoot, img: seq<byte>)
    requires Renderable(v) && Content(v) <= img
    ensures |img| >= V4_HEADER_SIZE && Word(img, PAGE_SIZE_AT) == Word(v.header, PAGE_SIZE_AT)
  {
    HeaderSizeKnown(v);
    ContentStartsWithHeader(v);
    HeaderWords(v.header, |Ramdisk(v.fragments)|, img);
  }

  lemma ThreeOfFour(img: seq<byte>)
    requires HeaderOk(img, 4)
    ensures HeaderOk(img, 3)
  {
  }

  lemma ReadFragmentBounds(v: VendorBoot, img: seq<byte>, i: nat)
    requires Renderable(v) && Content(v) <= img && |img| == v.size && i <= |v.fragments|
    ensures Parsable(img) && i <= EntryNum(img)
    ensures FragmentStart(img, i) == |v.header| + |Ramdisk(v.fragments[..i])|
  {
    ReadSizes(v, img);
    ReadLayout(v, img);
    PrefixSum(v.fragments, i);
  }

  lemma ReadFragment(v: VendorBoot, img: seq<byte>, i: nat)
    requires Renderable(v) && Content(v) <= img && |img| == v.size && i < |v.fragments|
    ensures Parsable(img) && i < EntryNum(img) && FragmentAt(img, i) == v.fragments[i]
  {
    hide RoundUp32, LayoutOf, Content, Ramdisk, Table, HeaderOk, HeaderFits, Parsable, FragmentStart, TableStart;
    var fs := v.fragments;
    ReadEntryFields(v, img, i);
    ReadFragmentBounds(v, img, i);
    ReadFragmentBounds(v, img, i + 1);
    RamdiskStep(fs, i);
    RamdiskSlice(fs, i);
    ReadRamdisk(v, img);
    SliceSlice(img, |v.header|, |v.header| + |Ramdisk(fs)|, |Ramdisk(fs[..i])|, |Ramdisk(fs[..i + 1])|);
  }

  lemma ReadFragments(v: VendorBoot, img: seq<byte>)
    requires Renderable(v) && Content(v) <= img && |img| == v.size
    ensures Parsable(img) && Fragments(img) == v.fragments
  {
    ReadSizes(v, img);
    ReadTableReadable(v, img);
    forall i | 0 <= i < |v.fragments|
      ensures Fragments(img)[i] == v.fragments[i]
    {
      ReadFragment(v, img, i);
    }
  }

  /** Blanking the ramdisk size undoes writing it. */
  lemma BlankSize(header: seq<byte>, v: int)
    requires |header| >= V4_HEADER_SIZE && Word(header, RAMDISK_SIZE_AT) == 0
    ensures PutWord(PutWord(header, RAMDISK_SIZE_AT, v), RAMDISK_SIZE_AT, 0) == header
  {
    OverlayOver(header, RAMDISK_SIZE_AT, LittleEndian32(v), LittleEndian32(0));
    LittleEndian32Write(header[RAMDISK_SIZE_AT..RAMDISK_SIZE_AT + 4]);
    OverlaySame(header, RAMDISK_SIZE_AT, 4);
  }

  /** Whatever begins with the laid out content is read back as the value, but for the footer. */
  lemma ReadBack(v: VendorBoot, img: seq<byte>)
    requires Renderable(v) && Content(v) <= img && |img| == v.size
    ensures Parsable(img) && Parse(img) == v.(footer := Footer(img))
  {
    hide RoundUp32, LayoutOf, Word, PutWord, Content, Ramdisk, HeaderOk, HeaderFits, Footer, Parsable, FragmentAt,
         TableReadable;
    ReadFragments(v, img);
    ReadLayout(v, img);
    ReadTableReadable(v, img);
    ReadOthers(v, img);
    HeaderSizeKnown(v);
    BlankSize(v.header, |Ramdisk(v.fragments)|);
  }

  lemma RoomForFooter(v: VendorBoot)
    requires Renderable(v)
    ensures AVB_FOOTER_SIZE <= v.size
  {
    HeaderSizeKnown(v);
    PartLengths(v);
  }

  // ----- The end of the content

  /** Where the board id starts in a table entry without size and offset. */
  const BOARD_ID_AT := 36

  /** The end of the content: the board id of the last fragment and what follows the table. */
  function Tail(v: VendorBoot): (t: seq<byte>)
    requires v.fragments != [] && DescrsOk(v.fragments)
    ensures |t| >= AVB_FOOTER_SIZE
  {
    v.fragments[|v.fragments| - 1].descr[BOARD_ID_AT..] + v.tableRest + v.bootconfig
  }

  /** The value with another end of its content. */
  function WithTail(v: VendorBoot, tail: seq<byte>): (w: VendorBoot)
    requires v.fragments != [] && DescrsOk(v.fragments) && |tail| == |Tail(v)|
    ensures |w.fragments| == |v.fragments| && DescrsOk(w.fragments)
  {
    var n := |v.fragments| - 1;
    var f := v.fragments[n];
    var e := AVB_FOOTER_SIZE + |v.tableRest|;
    v.(fragments := v.fragments[n := f.(descr := f.descr[..BOARD_ID_AT] + tail[..AVB_FOOTER_SIZE])],
       tableRest := tail[AVB_FOOTER_SIZE..e],
       bootconfig := tail[e..])
  }

  lemma TailWithTail(v: VendorBoot, tail: seq<byte>)
    requires v.fragments != [] && DescrsOk(v.fragments) && |tail| == |Tail(v)|
    ensures Tail(WithTail(v, tail)) == tail
    ensures WithTail(v, tail) == v <==> tail == Tail(v)
  {
    var w := WithTail(v, tail);
    var n := |v.fragments| - 1;
    assert w.fragments[n].descr[BOARD_ID_AT..] == tail[..AVB_FOOTER_SIZE];
    assert Tail(w) == tail;
    if tail == Tail(v) {
      assert tail[..AVB_FOOTER_SIZE] == v.fragments[n].descr[BOARD_ID_AT..];
      assert w.fragments[n].descr == v.fragments[n].descr;
      assert w.fragments == v.fragments && w.tableRest == v.tableRest && w.bootconfig == v.bootconfig;
    }
  }

  /** What the fragments need apart from the last board id. */
  lemma RamdiskWithTail(v: VendorBoot, tail: seq<byte>)
    requires v.fragments != [] && DescrsOk(v.fragments) && |tail| == |Tail(v)|
    ensures Ramdisk(WithTail(v, tail).fragments) == Ramdisk(v.fragments)
    ensures var t := Table(v.fragments);
            Table(WithTail(v, tail).fragments) == t[..|t| - AVB_FOOTER_SIZE] + tail[..AVB_FOOTER_SIZE]
  {
    hide LittleEndian32;
    var n := |v.fragments| - 1;
    var w := WithTail(v, tail);
    assert w.fragments[..n] == v.fragments[..n];
    var a := Table(v.fragments[..n]);
    var size, offset := |v.fragments[n].data|, |Ramdisk(v.fragments[..n])|;
    var descr := v.fragments[n].descr;
    EntryTail(a, size, offset, descr, tail[..AVB_FOOTER_SIZE]);
    assert Table(v.fragments) == a + EntryBytes(size, offset, descr);
    assert Table(w.fragments) == a + EntryBytes(size, offset, descr[..BOARD_ID_AT] + tail[..AVB_FOOTER_SIZE]);
  }

  lemma EntryTail(a: seq<byte>, size: int, offset: int, descr: seq<byte>, id: seq<byte>)
    requires |descr| == DESCR_SIZE && |id| == AVB_FOOTER_SIZE
    ensures var t := a + EntryBytes(size, offset, descr);
            a + EntryBytes(size, offset, descr[..BOARD_ID_AT] + id) == t[..|t| - AVB_FOOTER_SIZE] + id
  {
    hide LittleEndian32;
    var e := LittleEndian32(size) + LittleEndian32(offset);
    var t := a + EntryBytes(size, offset, descr);
    assert t == a + e + descr[..BOARD_ID_AT] + descr[BOARD_ID_AT..];
    assert t[..|t| - AVB_FOOTER_SIZE] == a + e + descr[..BOARD_ID_AT];
  }

  /** The content before its end. */
  function Body(v: VendorBoot): (b: seq<byte>)
    requires Renderable(v) && v.fragments != []
  {
    var t := Table(v.fragments);
    PutWord(v.header, RAMDISK_SIZE_AT, |Ramdisk(v.fragments)|)
    + PadToPage(Ramdisk(v.fragments), Word(v.header, PAGE_SIZE_AT)) + v.dtb + t[..|t| - AVB_FOOTER_SIZE]
  }

  lemma ContentWithTail(v: VendorBoot, tail: seq<byte>)
    requires Renderable(v) && v.fragments != [] && |tail| == |Tail(v)|
    ensures Content(v) == Body(v) + Tail(v)
    ensures Renderable(WithTail(v, tail)) && Content(WithTail(v, tail)) == Body(v) + tail
  {
    hide Ramdisk, Table, PutWord, RoundUp32, Word, HeaderOk;
    var w := WithTail(v, tail);
    HeaderSizeKnown(v);
    TailWithTail(v, Tail(v));
    RamdiskWithTail(v, Tail(v));
    RamdiskWithTail(v, tail);
    assert HeaderFits(w);
    JoinTail(Body(v), Tail(v), AVB_FOOTER_SIZE, AVB_FOOTER_SIZE + |v.tableRest|);
    JoinTail(Body(v), tail, AVB_FOOTER_SIZE, AVB_FOOTER_SIZE + |v.tableRest|);
    var front := PutWord(v.header, RAMDISK_SIZE_AT, |Ramdisk(v.fragments)|)
                 + PadToPage(Ramdisk(v.fragments), Word(v.header, PAGE_SIZE_AT)) + v.dtb;
    var t := Table(v.fragments);
    AppendAssoc(front, t[..|t| - AVB_FOOTER_SIZE], Tail(v)[..AVB_FOOTER_SIZE]);
    AppendAssoc(front, t[..|t| - AVB_FOOTER_SIZE], tail[..AVB_FOOTER_SIZE]);
  }

  lemma JoinTail(body: seq<byte>, tail: seq<byte>, a: nat, b: nat)
    requires a <= b <= |tail|
    ensures body + tail[..a] + tail[a..b] + tail[b..] == body + tail
  {
  }

  /** Whatever is laid out can be read; what the footer overlapped is all that is lost. */
  lemma ParseRenderSpoiled(v: VendorBoot)
    requires Renderable(v) && v.fragments != []
    ensures var tail := Spoiled(Tail(v), Overlap(|Content(v)|, v.size), v.footer);
            var out := Render(v);
            && Parsable(out) && Parse(out) == WithTail(v, tail).(footer := Footer(out))
            && Footer(out) == (if v.footer.Some? then v.footer else Footer(Plain(Content(v), v.size)))
  {
    hide HeaderFits, Ramdisk, Content, Parse, Parsable, Footer, Finish, Plain, WithTail, Body;
    var tail := Spoiled(Tail(v), Overlap(|Content(v)|, v.size), v.footer);
    RoomForFooter(v);
    ContentWithTail(v, tail);
    FinishSpoils(Body(v), Tail(v), v.size, v.footer);
    FinishFooter(Content(v), v.size, v.footer);
    var w := WithTail(v, tail);
    SameSize(v, tail);
    ReadBack(w, Render(v));
  }

  lemma SameSize(v: VendorBoot, tail: seq<byte>)
    requires v.fragments != [] && DescrsOk(v.fragments) && |tail| == |Tail(v)|
    ensures WithTail(v, tail).size == v.size && WithTail(v, tail).footer == v.footer
  {
  }

  /**
   What was laid out is read back, fragments, names, types, board ids, DTB, bootconfig and
   footer, exactly when content and footer do not collide.
   */
  lemma ParseRender(v: VendorBoot)
    requires Renderable(v) && v.fragments != []
    ensures Parsable(Render(v))
    ensures Parse(Render(v)) == v <==> FooterClear(Content(v), v.size, v.footer)
  {
    hide Content, Parse, Parsable, Footer, Plain, Render, HeaderFits;
    var k := Overlap(|Content(v)|, v.size);
    var tail := Spoiled(Tail(v), k, v.footer);
    RoomForFooter(v);
    ParseRenderSpoiled(v);
    ContentWithTail(v, tail);
    TailWithTail(v, tail);
    SpoiledSame(Body(v), Tail(v), k, v.footer);
    SameSize(v, tail);
    hide WithTail;
    assert Parse(Render(v)) == v <==> WithTail(v, tail) == v && Footer(Render(v)) == v.footer;
  }

  lemma SpoiledSame(body: seq<byte>, tail: seq<byte>, k: nat, footer: Option<seq<byte>>)
    requires k <= AVB_FOOTER_SIZE <= |tail| && FooterOk(footer)
    ensures Spoiled(tail, k, footer) == tail
            <==> (footer.Some? ==> (body + tail)[|body + tail| - k..] == footer.value[..k])
  {
    assert (body + tail)[|body + tail| - k..] == tail[|tail| - k..];
    assert tail == tail[..|tail| - k] + tail[|tail| - k..];
    if footer.Some? && Spoiled(tail, k, footer) == tail {
      assert Spoiled(tail, k, footer)[|tail| - k..] == footer.value[..k];
    }
  }
}
