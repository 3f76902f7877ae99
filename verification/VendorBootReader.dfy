/**
 A rewritten whole ramdisk as the reader of fragments sees it: one table entry of the record
 size, whose fragment is the new ramdisk.
 */
module VendorBootReader {
  import opened Bytes
  import opened VendorBootFormat
  import opened VendorBootImage
  import opened VendorBootRoundTrip
  import opened VendorBootDefault

  /** The three table words, whatever they were before. */
  lemma TableWords(header: seq<byte>, n: int)
    requires |header| >= V4_HEADER_SIZE && IsV4(header) && 0 <= n < U32
    ensures var h := SetHeader(header, n, SINGLE_ENTRY);
            && Word(h, TABLE_SIZE_AT) == 108 && Word(h, ENTRY_NUM_AT) == 1 && Word(h, ENTRY_SIZE_AT) == 108
  {
    var sized := PutWord(header, RAMDISK_SIZE_AT, n);
    var h := SetHeader(header, n, SINGLE_ENTRY);
    OverlayAt(sized, TABLE_SIZE_AT, SINGLE_ENTRY);
    SliceSlice(h, TABLE_SIZE_AT, TABLE_SIZE_AT + 12, 0, 4);
    SliceSlice(h, TABLE_SIZE_AT, TABLE_SIZE_AT + 12, 4, 8);
    SliceSlice(h, TABLE_SIZE_AT, TABLE_SIZE_AT + 12, 8, 12);
    assert SINGLE_ENTRY[0..4] == LittleEndian32(108) && SINGLE_ENTRY[4..8] == LittleEndian32(1);
    assert SINGLE_ENTRY[8..12] == LittleEndian32(108);
    LittleEndian32Read(108);
    LittleEndian32Read(1);
  }

  /** A version 4 result announces a table of one entry of the record size, footer or not. */
  lemma OneEntryAnnounced(img: seq<byte>, x: seq<byte>)
    requires WholeParsable(img) && WholeFits(img, x) && Word(img, VERSION_AT) == 4
    ensures var out := ReplacedWhole(img, x);
            && HeaderOk(out, 4) && RoundsExactly(out) && Word(out, RAMDISK_SIZE_AT) == |x|
            && Word(out, TABLE_SIZE_AT) == 108 && Word(out, ENTRY_NUM_AT) == 1 && Word(out, ENTRY_SIZE_AT) == 108
  {
    hide RoundUp32, SetHeader, Word, LayoutOf, WholeContent, WholeHeaderFits, Finish;
    UpdatedWholeRenderable(img, x);
    ParsedWholeFits(img);
    ParsedWholeShape(img);
    var w := ParseWhole(img).(ramdisk := x);
    var out := ReplacedWhole(img, x);
    RoomForTable(img, x);
    HeaderKept(w);
    WholeReadHeader(w, out);
    TableWords(w.header, |x|);
    var h := SetHeader(w.header, |x|, SINGLE_ENTRY);
    WordOfPrefix(out, h, TABLE_SIZE_AT);
    WordOfPrefix(out, h, ENTRY_NUM_AT);
    WordOfPrefix(out, h, ENTRY_SIZE_AT);
  }

  /** A table entry is longer than the footer, so the footer does not reach the header section. */
  lemma RoomForTable(img: seq<byte>, x: seq<byte>)
    requires WholeParsable(img) && WholeFits(img, x) && Word(img, VERSION_AT) == 4
    ensures LayoutOf(img).o + AVB_FOOTER_SIZE <= |img| && V4_HEADER_SIZE <= LayoutOf(img).o
  {
    hide RoundUp32, Word;
    HeaderSection(img);
    RoundUpExact(ENTRY_SIZE, Word(img, PAGE_SIZE_AT));
    RoundUpExact(|x|, Word(img, PAGE_SIZE_AT));
  }

  lemma EntryReads(size: nat, descr: seq<byte>)
    requires size < U32 && |descr| == DESCR_SIZE
    ensures var e := EntryBytes(size, 0, descr);
            Word(e, 0) == size && Word(e, 4) == 0 && e[8..] == descr
  {
    var e := EntryBytes(size, 0, descr);
    assert e[0..4] == LittleEndian32(size) && e[4..8] == LittleEndian32(0);
    LittleEndian32Read(size);
    LittleEndian32Read(0);
  }

  lemma OneSize(sizes: seq<nat>, n: nat)
    requires sizes == [n]
    ensures Sum(sizes) == n && Sum(sizes[..0]) == 0 && Sum(sizes[..1]) == n
  {
    assert sizes[..0] == [] && sizes[..1] == sizes;
  }

  /** One table entry at offset 0, without a name, for the ramdisk `x`. */
  ghost predicate OneFragment(img: seq<byte>, x: seq<byte>) {
    && Parsable(img) && EntryNum(img) == 1 && Word(Entry(img, 0), 4) == 0
    && Parse(img).fragments == [Fragment(Zeros(DESCR_SIZE), x)]
  }

  /** What an image that holds one whole ramdisk is to the reader of fragments. */
  lemma HeldIsOneFragment(img: seq<byte>, w: Whole)
    requires WholeRenderable(w) && Holds(img, w) && HeaderOk(img, 4) && Word(img, RAMDISK_SIZE_AT) == |w.ramdisk|
    requires Word(img, ENTRY_NUM_AT) == 1 && Word(img, ENTRY_SIZE_AT) == ENTRY_SIZE
    ensures OneFragment(img, w.ramdisk)
    ensures Parse(img).dtb == w.dtb && Parse(img).bootconfig == w.bootconfig && Parse(img).footer == w.footer
  {
    hide RoundUp32, SetHeader, Word, WholeContent, WholeHeaderFits, Footer, EntryBytes, LayoutOf, HeaderOk, Holds;
    HeldTable(img, w);
    var n := |w.ramdisk|;
    EntryReads(n, Zeros(DESCR_SIZE));
    assert Sizes(img) == [n];
    OneSize(Sizes(img), n);
    RamdiskAt(img, w);
    HeldSectionsAt(img, w);
    assert Fragments(img)[0] == FragmentAt(img, 0);
  }

  lemma HeldTable(img: seq<byte>, w: Whole)
    requires WholeRenderable(w) && Holds(img, w) && HeaderOk(img, 4)
    requires Word(img, ENTRY_NUM_AT) == 1 && Word(img, ENTRY_SIZE_AT) == ENTRY_SIZE
    ensures var l := LayoutOf(img);
            && ENTRY_SIZE <= l.r && V4_HEADER_SIZE <= l.o && l.o + l.p + l.q + l.r + l.s <= |img|
            && |w.ramdisk| <= l.p && RoundsExactly(img) && |w.ramdisk| < U32
            && TableReadable(img) && EntryNum(img) == 1
            && Entry(img, 0) == EntryBytes(|w.ramdisk|, 0, Zeros(DESCR_SIZE))
  {
    hide RoundUp32, SetHeader, Word, WholeContent, WholeHeaderFits, Footer, EntryBytes, LayoutOf, HeaderOk, Holds,
         WholeLayout;
    BlankHeader(w);
    IsVersion4(img);
    StartOfTable(img);
    HeldAsV4(img, w);
    HeldParts(w, img);
    TableSection(w);
    RamdiskFits(w);
    var l := LayoutOf(img);
    var t := l.o + l.p + l.q;
    FirstOfPadded(img[t..t + l.r], EntryBytes(|w.ramdisk|, 0, Zeros(DESCR_SIZE)));
    SliceSlice(img, t, t + l.r, 0, ENTRY_SIZE);
  }

  lemma StartOfTable(img: seq<byte>)
    requires HeaderOk(img, 4)
    ensures HeaderOk(img, 3) && TableStart(img) == LayoutOf(img).o + LayoutOf(img).p + LayoutOf(img).q
  {
  }

  lemma RamdiskFits(w: Whole)
    requires WholeRenderable(w)
    ensures |w.ramdisk| < U32 && |w.ramdisk| <= WholeLayout(w).p
  {
    hide RoundUp32, WholeContent;
    WholePartLengths(w);
    BlankHeader(w);
  }

  /** The table section: the entry and zeros. */
  lemma TableSection(w: Whole)
    requires WholeRenderable(w) && |w.header| >= V3_HEADER_SIZE && IsV4(w.header) && 0 < Word(w.header, PAGE_SIZE_AT)
    ensures var e := EntryBytes(|w.ramdisk|, 0, Zeros(DESCR_SIZE));
            var table := SingleTable(true, |w.ramdisk|, Word(w.header, PAGE_SIZE_AT));
            && |table| == WholeLayout(w).r >= ENTRY_SIZE == |e| && table == e + Zeros(|table| - |e|)
  {
    hide RoundUp32, WholeContent;
    WholePartLengths(w);
    BlankHeader(w);
    RoundUpExact(ENTRY_SIZE, Word(w.header, PAGE_SIZE_AT));
  }

  lemma IsVersion4(img: seq<byte>)
    requires HeaderOk(img, 4)
    ensures Word(img, VERSION_AT) == 4
  {
  }

  lemma HeldSectionsAt(img: seq<byte>, w: Whole)
    requires WholeRenderable(w) && Holds(img, w) && HeaderOk(img, 4)
    ensures WholeParsable(img) && ParseWhole(img) == w
    ensures var l := LayoutOf(img);
            var t := l.o + l.p + l.q;
            && 0 <= l.o <= l.o + l.p <= t <= t + l.r <= t + l.r + l.s <= |img|
            && img[l.o + l.p..t] == w.dtb && img[t + l.r..t + l.r + l.s] == w.bootconfig && Footer(img) == w.footer
  {
    hide RoundUp32, SetHeader, Word, WholeContent, WholeHeaderFits, Footer;
  }

  lemma FirstOfPadded(section: seq<byte>, e: seq<byte>)
    requires |e| <= |section| && section == e + Zeros(|section| - |e|)
    ensures section[0..|e|] == e
  {
  }

  lemma HeldAsV4(img: seq<byte>, w: Whole)
    requires WholeRenderable(w) && Holds(img, w) && Word(img, VERSION_AT) == 4
    requires |w.header| >= V3_HEADER_SIZE && 0 < Word(w.header, PAGE_SIZE_AT)
    ensures IsV4(w.header) && RoundsExactly(img) && LayoutOf(img) == WholeLayout(w) && V4_HEADER_SIZE <= LayoutOf(img).o
    ensures Footer(img) == w.footer && Word(img, PAGE_SIZE_AT) == Word(w.header, PAGE_SIZE_AT)
  {
    hide RoundUp32, SetHeader, Word, WholeContent, WholeHeaderFits, Footer;
    ParsedWholeFits(img);
    HeaderSection(img);
  }

  lemma RamdiskAt(img: seq<byte>, w: Whole)
    requires WholeRenderable(w) && Holds(img, w) && Word(img, RAMDISK_SIZE_AT) == |w.ramdisk|
    ensures var o := LayoutOf(img).o;
            o + |w.ramdisk| <= |img| && img[o..o + |w.ramdisk|] == w.ramdisk
  {
    hide RoundUp32, SetHeader, Word, WholeContent, WholeHeaderFits, Footer;
  }

  /**
   The result of a whole replacement that does not collide with the footer, read fragment by
   fragment: one unnamed fragment at offset 0, the new ramdisk. DTB and bootconfig are those of
   the old image, read in either way.
   */
  lemma OneFragmentRead(img: seq<byte>, x: seq<byte>)
    requires WholeParsable(img) && WholeFits(img, x) && Word(img, VERSION_AT) == 4 && WholeClearOfFooter(img, x)
    ensures var out := ReplacedWhole(img, x);
            && OneFragment(out, x)
            && Parse(out).dtb == ParseWhole(img).dtb && Parse(out).bootconfig == ParseWhole(img).bootconfig
            && Parse(out).footer == Footer(img)
            && (Parsable(img) ==>
                  Parse(out).dtb == Parse(img).dtb && Parse(out).bootconfig == Parse(img).bootconfig)
  {
    hide RoundUp32, SetHeader, Word, LayoutOf, WholeContent, WholeHeaderFits, Finish, Holds, FooterClear, Parsable;
    hide ReplacedWhole;
    WholeMeaningPreserved(img, x);
    OneEntryAnnounced(img, x);
    ParsedWholeShape(img);
    var w, out := ParseWhole(img).(ramdisk := x), ReplacedWhole(img, x);
    HeldIsOneFragment(out, w);
    if Parsable(img) {
      SameSections(img);
    }
  }

  lemma SameSections(img: seq<byte>)
    requires WholeParsable(img) && Parsable(img)
    ensures Parse(img).dtb == ParseWhole(img).dtb && Parse(img).bootconfig == ParseWhole(img).bootconfig
  {
    hide RoundUp32, SetHeader, Word;
  }
}
