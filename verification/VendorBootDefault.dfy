/**
 Replacing the vendor ramdisk as a whole, in version 3 and version 4 images. How the new
 ramdisk is fragmented is unknown, so a version 4 table becomes one entry for all of it.
 */
module VendorBootDefault {
  import opened Bytes
  import opened VendorBootFormat
  import opened VendorBootImage
  import opened VendorBootRoundTrip
  import opened VendorBootFragment
  import D = DataUpdater

  /** `header` is the header section with the ramdisk size and table fields blanked. */
  datatype Whole = Whole(
    header: seq<byte>,
    ramdisk: seq<byte>,
    dtb: seq<byte>,
    bootconfig: seq<byte>,
    footer: Option<seq<byte>>,
    size: nat
  )

  predicate IsV4(header: seq<byte>)
    requires |header| >= V3_HEADER_SIZE
  {
    Word(header, VERSION_AT) == 4
  }

  /** The header with a ramdisk size and, in version 4, the three table words. */
  function SetHeader(header: seq<byte>, ramdiskSize: int, table: seq<byte>): (h: seq<byte>)
    requires |header| >= V3_HEADER_SIZE && (IsV4(header) ==> |header| >= V4_HEADER_SIZE) && |table| == 12
    ensures |h| == |header|
  {
    var sized := PutWord(header, RAMDISK_SIZE_AT, ramdiskSize);
    if IsV4(header) then Overlay(sized, TABLE_SIZE_AT, table) else sized
  }

  /** Table of one entry: total size, entry count, entry size. */
  const SINGLE_ENTRY: seq<byte> := LittleEndian32(ENTRY_SIZE) + LittleEndian32(1) + LittleEndian32(ENTRY_SIZE)

  const BLANK: seq<byte> := Zeros(12)

  predicate WholeParsable(img: seq<byte>) {
    && HeaderOk(img, 3) && RoundsExactly(img)
    && var l := LayoutOf(img);
    && Word(img, RAMDISK_SIZE_AT) <= l.p
    && l.o + l.p + l.q + l.r + l.s <= |img|
  }

  lemma HeaderSection(img: seq<byte>)
    requires HeaderOk(img, 3) && RoundsExactly(img)
    ensures LayoutOf(img).o >= HeaderSize(Word(img, VERSION_AT))
    ensures 0 < Word(img, PAGE_SIZE_AT)
  {
    RoundUpExact(HeaderSize(Word(img, VERSION_AT)), Word(img, PAGE_SIZE_AT));
  }

  lemma HeaderPrefix(img: seq<byte>)
    requires WholeParsable(img)
    ensures var h := img[..LayoutOf(img).o];
            && |h| >= HeaderSize(Word(img, VERSION_AT))
            && h[..8] == img[..8]
            && Word(h, VERSION_AT) == Word(img, VERSION_AT)
            && Word(h, PAGE_SIZE_AT) == Word(img, PAGE_SIZE_AT)
            && Word(h, DTB_SIZE_AT) == Word(img, DTB_SIZE_AT)
            && (Word(img, VERSION_AT) == 4 ==> Word(h, BOOTCONFIG_SIZE_AT) == Word(img, BOOTCONFIG_SIZE_AT))
  {
    HeaderSection(img);
    var h := img[..LayoutOf(img).o];
    assert h[..8] == img[..8];
    WordOfPrefix(img, h, VERSION_AT);
    WordOfPrefix(img, h, PAGE_SIZE_AT);
    WordOfPrefix(img, h, DTB_SIZE_AT);
    if Word(img, VERSION_AT) == 4 {
      WordOfPrefix(img, h, BOOTCONFIG_SIZE_AT);
    }
  }

  function ParseWhole(img: seq<byte>): (w: Whole)
    requires WholeParsable(img)
  {
    HeaderPrefix(img);
    var l := LayoutOf(img);
    var t := l.o + l.p + l.q;
    Whole(
      SetHeader(img[..l.o], 0, BLANK),
      img[l.o..l.o + Word(img, RAMDISK_SIZE_AT)],
      img[l.o + l.p..t],
      img[t + l.r..t + l.r + l.s],
      Footer(img),
      |img|)
  }

  // ----- Rendering

  /** The table section: empty in version 3, one padded entry for the whole ramdisk in version 4. */
  function SingleTable(v4: bool, ramdiskSize: int, pageSize: int): (t: seq<byte>)
    requires 0 < pageSize && pageSize + ENTRY_SIZE <= U32
  {
    if v4 then PadToPage(EntryBytes(ramdiskSize, 0, Zeros(DESCR_SIZE)), pageSize) else []
  }

  predicate WholeHeaderFits(w: Whole) {
    && HeaderOk(w.header, 3)
    && var page := Word(w.header, PAGE_SIZE_AT);
    && page + HeaderSize(Word(w.header, VERSION_AT)) <= U32
    && RoundUp32(HeaderSize(Word(w.header, VERSION_AT)), page) == |w.header|
    && w.header == SetHeader(w.header, 0, BLANK)
    && RoundUp32(Word(w.header, DTB_SIZE_AT), page) == |w.dtb|
    && (if IsV4(w.header) then RoundUp32(Word(w.header, BOOTCONFIG_SIZE_AT), page) == |w.bootconfig|
        else w.bootconfig == [])
  }

  function WholeContent(w: Whole): (c: seq<byte>)
    requires WholeHeaderFits(w) && |w.ramdisk| + Word(w.header, PAGE_SIZE_AT) <= U32
  {
    var page := Word(w.header, PAGE_SIZE_AT);
    SetHeader(w.header, |w.ramdisk|, SINGLE_ENTRY)
    + PadToPage(w.ramdisk, page)
    + w.dtb
    + SingleTable(IsV4(w.header), |w.ramdisk|, page)
    + w.bootconfig
  }

  predicate WholeRenderable(w: Whole) {
    && WholeHeaderFits(w) && |w.ramdisk| <= w.size && w.size + Word(w.header, PAGE_SIZE_AT) <= U32
    && |WholeContent(w)| <= w.size
    && FooterOk(w.footer)
  }

  function RenderWhole(w: Whole): (img: seq<byte>)
    requires WholeRenderable(w)
    ensures |img| == w.size
  {
    Finish(WholeContent(w), w.size, w.footer)
  }

  // ----- Round trip

  lemma SetHeaderWords(header: seq<byte>, n: int, table: seq<byte>)
    requires |header| >= V3_HEADER_SIZE && (IsV4(header) ==> |header| >= V4_HEADER_SIZE) && |table| == 12
    requires 0 <= n < U32
    ensures var h := SetHeader(header, n, table);
            && h[..8] == header[..8] && Word(h, RAMDISK_SIZE_AT) == n
            && Word(h, VERSION_AT) == Word(header, VERSION_AT)
            && Word(h, PAGE_SIZE_AT) == Word(header, PAGE_SIZE_AT)
            && Word(h, DTB_SIZE_AT) == Word(header, DTB_SIZE_AT)
            && (IsV4(header) ==>
                  && Word(h, BOOTCONFIG_SIZE_AT) == Word(header, BOOTCONFIG_SIZE_AT)
                  && Word(h, TABLE_SIZE_AT) == FromLittleEndian32(table[..4]))
  {
    var sized := PutWord(header, RAMDISK_SIZE_AT, n);
    var h := SetHeader(header, n, table);
    OverlayBefore(header, RAMDISK_SIZE_AT, LittleEndian32(n), 0, 8);
    WordOfPut(header, RAMDISK_SIZE_AT, n);
    WordBesidePut(header, RAMDISK_SIZE_AT, n, VERSION_AT);
    WordBesidePut(header, RAMDISK_SIZE_AT, n, PAGE_SIZE_AT);
    WordBesidePut(header, RAMDISK_SIZE_AT, n, DTB_SIZE_AT);
    if IsV4(header) {
      WordBesidePut(header, RAMDISK_SIZE_AT, n, BOOTCONFIG_SIZE_AT);
      OverlayAfter(sized, TABLE_SIZE_AT, table, BOOTCONFIG_SIZE_AT, BOOTCONFIG_SIZE_AT + 4);
      WordOfPrefix(h, h[..TABLE_SIZE_AT], RAMDISK_SIZE_AT);
      WordOfPrefix(h, h[..TABLE_SIZE_AT], VERSION_AT);
      WordOfPrefix(h, h[..TABLE_SIZE_AT], PAGE_SIZE_AT);
      WordOfPrefix(h, h[..TABLE_SIZE_AT], DTB_SIZE_AT);
      assert h[..TABLE_SIZE_AT] == sized[..TABLE_SIZE_AT];
      WordOfPrefix(sized, sized[..TABLE_SIZE_AT], RAMDISK_SIZE_AT);
      WordOfPrefix(sized, sized[..TABLE_SIZE_AT], VERSION_AT);
      WordOfPrefix(sized, sized[..TABLE_SIZE_AT], PAGE_SIZE_AT);
      WordOfPrefix(sized, sized[..TABLE_SIZE_AT], DTB_SIZE_AT);
      assert h[..8] == sized[..8];
      OverlayAt(sized, TABLE_SIZE_AT, table);
      SliceSlice(h, TABLE_SIZE_AT, TABLE_SIZE_AT + 12, 0, 4);
    }
    assert sized[..8] == sized[0..8] && header[..8] == header[0..8];
  }

  /** Setting the header fields twice leaves only the second values. */
  lemma SetHeaderTwice(header: seq<byte>, n: int, table: seq<byte>, m: int, table': seq<byte>)
    requires |header| >= V3_HEADER_SIZE && (IsV4(header) ==> |header| >= V4_HEADER_SIZE)
    requires |table| == 12 && |table'| == 12 && 0 <= n < U32
    ensures IsV4(SetHeader(header, n, table)) == IsV4(header)
    ensures SetHeader(SetHeader(header, n, table), m, table') == SetHeader(header, m, table')
  {
    SetHeaderWords(header, n, table);
    var h := SetHeader(header, n, table);
    if IsV4(header) {
      var sized := PutWord(header, RAMDISK_SIZE_AT, n);
      OverlaysCommute(sized, RAMDISK_SIZE_AT, LittleEndian32(m), TABLE_SIZE_AT, table);
      OverlayOver(PutWord(sized, RAMDISK_SIZE_AT, m), TABLE_SIZE_AT, table, table');
    }
    OverlayOver(header, RAMDISK_SIZE_AT, LittleEndian32(n), LittleEndian32(m));
  }

  lemma OverlaysCommute(b: seq<byte>, i: nat, x: seq<byte>, j: nat, y: seq<byte>)
    requires i + |x| <= j && j + |y| <= |b|
    ensures Overlay(Overlay(b, j, y), i, x) == Overlay(Overlay(b, i, x), j, y)
  {
  }

  function WholeLayout(w: Whole): (l: Layout)
    requires WholeRenderable(w)
  {
    var page := Word(w.header, PAGE_SIZE_AT);
    Layout(|w.header|, RoundUp32(|w.ramdisk|, page), |w.dtb|,
           if IsV4(w.header) then RoundUp32(ENTRY_SIZE, page) else 0, |w.bootconfig|)
  }

  lemma WholePartLengths(w: Whole)
    requires WholeRenderable(w)
    ensures var page := Word(w.header, PAGE_SIZE_AT);
            var l := WholeLayout(w);
            && |PadToPage(w.ramdisk, page)| == l.p >= |w.ramdisk|
            && |SingleTable(IsV4(w.header), |w.ramdisk|, page)| == l.r
            && |WholeContent(w)| == l.o + l.p + l.q + l.r + l.s
  {
    hide RoundUp32;
    var page := Word(w.header, PAGE_SIZE_AT);
    RoundUpExact(|w.ramdisk|, page);
    RoundUpExact(ENTRY_SIZE, page);
  }

  lemma WholeReadParts(w: Whole, img: seq<byte>)
    requires WholeRenderable(w) && WholeContent(w) <= img
    ensures var l := WholeLayout(w);
            var t := l.o + l.p + l.q;
            && t + l.r + l.s <= |img| && |w.ramdisk| <= l.p
            && img[..l.o] == SetHeader(w.header, |w.ramdisk|, SINGLE_ENTRY)
            && img[l.o..l.o + |w.ramdisk|] == w.ramdisk
            && img[l.o..l.o + l.p] == PadToPage(w.ramdisk, Word(w.header, PAGE_SIZE_AT))
            && img[l.o + l.p..t] == w.dtb
            && img[t..t + l.r] == SingleTable(IsV4(w.header), |w.ramdisk|, Word(w.header, PAGE_SIZE_AT))
            && img[t + l.r..t + l.r + l.s] == w.bootconfig
  {
    hide RoundUp32, Word, SetHeader, SingleTable;
    WholePartLengths(w);
    WholeHeaderLength(w);
    var page := Word(w.header, PAGE_SIZE_AT);
    var l := WholeLayout(w);
    var h := SetHeader(w.header, |w.ramdisk|, SINGLE_ENTRY);
    var table := SingleTable(IsV4(w.header), |w.ramdisk|, page);
    var c := WholeContent(w);
    assert c + [] == c;
    PartsAt(h, PadToPage(w.ramdisk, page), w.dtb, table, w.bootconfig, [], img);
    SliceSlice(img, l.o, l.o + l.p, 0, |w.ramdisk|);
    assert PadToPage(w.ramdisk, page)[0..|w.ramdisk|] == w.ramdisk;
  }

  lemma WholeReadHeader(w: Whole, img: seq<byte>)
    requires WholeRenderable(w) && SetHeader(w.header, |w.ramdisk|, SINGLE_ENTRY) <= img
    ensures HeaderOk(img, 3) && LayoutOf(img) == WholeLayout(w)
    ensures Word(img, RAMDISK_SIZE_AT) == |w.ramdisk|
    ensures Word(img, PAGE_SIZE_AT) == Word(w.header, PAGE_SIZE_AT)
    ensures Word(img, VERSION_AT) == Word(w.header, VERSION_AT)
  {
    hide RoundUp32, SetHeader, SingleTable, Word;
    WholeHeaderLength(w);
    var h := SetHeader(w.header, |w.ramdisk|, SINGLE_ENTRY);
    SetHeaderWords(w.header, |w.ramdisk|, SINGLE_ENTRY);
    assert img[..8] == h[..8];
    WordOfPrefix(img, h, VERSION_AT);
    WordOfPrefix(img, h, PAGE_SIZE_AT);
    WordOfPrefix(img, h, DTB_SIZE_AT);
    WordOfPrefix(img, h, RAMDISK_SIZE_AT);
    if IsV4(w.header) {
      WordOfPrefix(img, h, BOOTCONFIG_SIZE_AT);
      WordOfPrefix(img, h, TABLE_SIZE_AT);
      assert SINGLE_ENTRY[..4] == LittleEndian32(ENTRY_SIZE);
      LittleEndian32Read(ENTRY_SIZE);
    }
  }

  lemma WholeHeaderLength(w: Whole)
    requires WholeHeaderFits(w)
    ensures |w.header| >= HeaderSize(Word(w.header, VERSION_AT)) >= V3_HEADER_SIZE
  {
    RoundUpExact(HeaderSize(Word(w.header, VERSION_AT)), Word(w.header, PAGE_SIZE_AT));
  }

  /** The image holds the value: every section, padding and the single table entry included. */
  ghost predicate Holds(img: seq<byte>, w: Whole)
    requires WholeRenderable(w)
  {
    && WholeParsable(img) && ParseWhole(img) == w
    && var l := WholeLayout(w);
    var page := Word(w.header, PAGE_SIZE_AT);
    var t := l.o + l.p + l.q;
    && LayoutOf(img) == l
    && img[..l.o] == SetHeader(w.header, |w.ramdisk|, SINGLE_ENTRY)
    && img[l.o..l.o + l.p] == PadToPage(w.ramdisk, page)
    && img[t..t + l.r] == SingleTable(IsV4(w.header), |w.ramdisk|, page)
  }

  lemma ContentHeld(w: Whole, img: seq<byte>)
    requires WholeRenderable(w) && |img| == w.size && WholeContent(w) <= img && Footer(img) == w.footer
    ensures Holds(img, w)
  {
    hide RoundUp32, SetHeader, SingleTable, Word, LayoutOf, HeaderOk, Footer, WholeContent, WholeHeaderFits, PadToPage;
    WholeReadParts(w, img);
    WholeHeaderLength(w);
    WholeReadHeader(w, img);
    SetHeaderTwice(w.header, |w.ramdisk|, SINGLE_ENTRY, 0, BLANK);
    BlankHeader(w);
  }

  lemma BlankHeader(w: Whole)
    requires WholeHeaderFits(w)
    ensures |w.header| >= V3_HEADER_SIZE && (IsV4(w.header) ==> |w.header| >= V4_HEADER_SIZE)
    ensures w.header == SetHeader(w.header, 0, BLANK)
    ensures 0 < Word(w.header, PAGE_SIZE_AT) && Word(w.header, PAGE_SIZE_AT) + ENTRY_SIZE <= U32
  {
    WholeHeaderLength(w);
  }

  /** Five byte strings one after the other from the start of the image. */
  predicate InARow(img: seq<byte>, a: seq<byte>, b: seq<byte>, c: seq<byte>, d: seq<byte>, e: seq<byte>) {
    && |a| + |b| + |c| + |d| + |e| <= |img|
    && img[..|a|] == a && img[|a|..|a| + |b|] == b && img[|a| + |b|..|a| + |b| + |c|] == c
    && img[|a| + |b| + |c|..|a| + |b| + |c| + |d|] == d
    && img[|a| + |b| + |c| + |d|..|a| + |b| + |c| + |d| + |e|] == e
  }

  lemma RowIsPrefix(img: seq<byte>, a: seq<byte>, b: seq<byte>, c: seq<byte>, d: seq<byte>, e: seq<byte>)
    requires InARow(img, a, b, c, d, e)
    ensures a + b + c + d + e <= img
  {
  }

  lemma HeldContent(w: Whole, img: seq<byte>)
    requires WholeRenderable(w) && Holds(img, w)
    ensures WholeContent(w) <= img && Footer(img) == w.footer
  {
    hide RoundUp32, SetHeader, SingleTable, Word, HeaderOk, Footer, PadToPage, Holds, WholeLayout, InARow,
         WholeHeaderFits;
    BlankHeader(w);
    HeldSections(w, img);
    var page := Word(w.header, PAGE_SIZE_AT);
    RowIsPrefix(img, SetHeader(w.header, |w.ramdisk|, SINGLE_ENTRY), PadToPage(w.ramdisk, page), w.dtb,
                SingleTable(IsV4(w.header), |w.ramdisk|, page), w.bootconfig);
  }

  lemma HeldSections(w: Whole, img: seq<byte>)
    requires WholeRenderable(w) && Holds(img, w)
    requires |w.header| >= V3_HEADER_SIZE && (IsV4(w.header) ==> |w.header| >= V4_HEADER_SIZE)
    requires 0 < Word(w.header, PAGE_SIZE_AT)
    ensures InARow(img, SetHeader(w.header, |w.ramdisk|, SINGLE_ENTRY),
                   PadToPage(w.ramdisk, Word(w.header, PAGE_SIZE_AT)),
                   w.dtb, SingleTable(IsV4(w.header), |w.ramdisk|, Word(w.header, PAGE_SIZE_AT)), w.bootconfig)
    ensures Footer(img) == w.footer
  {
    hide RoundUp32, SetHeader, SingleTable, Word, HeaderOk, Footer, PadToPage, IsV4, Holds, InARow, WholeLayout,
         WholeContent, WholeHeaderFits;
    BlankHeader(w);
    SectionLengths(w);
    HeldParts(w, img);
    var page := Word(w.header, PAGE_SIZE_AT);
    RowFrom(img, SetHeader(w.header, |w.ramdisk|, SINGLE_ENTRY), PadToPage(w.ramdisk, page), w.dtb,
            SingleTable(IsV4(w.header), |w.ramdisk|, page), w.bootconfig, WholeLayout(w));
  }

  lemma SectionLengths(w: Whole)
    requires WholeRenderable(w)
    requires |w.header| >= V3_HEADER_SIZE && (IsV4(w.header) ==> |w.header| >= V4_HEADER_SIZE)
    requires 0 < Word(w.header, PAGE_SIZE_AT)
    ensures var l := WholeLayout(w);
            && |SetHeader(w.header, |w.ramdisk|, SINGLE_ENTRY)| == l.o && |w.dtb| == l.q && |w.bootconfig| == l.s
            && |PadToPage(w.ramdisk, Word(w.header, PAGE_SIZE_AT))| == l.p
            && |SingleTable(IsV4(w.header), |w.ramdisk|, Word(w.header, PAGE_SIZE_AT))| == l.r
  {
    WholePartLengths(w);
    hide RoundUp32, SingleTable, Word, HeaderOk, WholeHeaderFits, PadToPage;
  }

  lemma HeldParts(w: Whole, img: seq<byte>)
    requires WholeRenderable(w) && Holds(img, w)
    requires |w.header| >= V3_HEADER_SIZE && (IsV4(w.header) ==> |w.header| >= V4_HEADER_SIZE)
    requires 0 < Word(w.header, PAGE_SIZE_AT)
    ensures Footer(img) == w.footer
    ensures var l := WholeLayout(w);
            var t := l.o + l.p + l.q;
            && 0 <= l.o <= l.o + l.p <= t <= t + l.r <= t + l.r + l.s <= |img|
            && img[..l.o] == SetHeader(w.header, |w.ramdisk|, SINGLE_ENTRY)
            && img[l.o..l.o + l.p] == PadToPage(w.ramdisk, Word(w.header, PAGE_SIZE_AT))
            && img[l.o + l.p..t] == w.dtb
            && img[t..t + l.r] == SingleTable(IsV4(w.header), |w.ramdisk|, Word(w.header, PAGE_SIZE_AT))
            && img[t + l.r..t + l.r + l.s] == w.bootconfig
  {
    hide RoundUp32, SetHeader, SingleTable, Word, HeaderOk, Footer, WholeHeaderFits, PadToPage, IsV4;
  }

  lemma RowFrom(img: seq<byte>, a: seq<byte>, b: seq<byte>, c: seq<byte>, d: seq<byte>, e: seq<byte>, l: Layout)
    requires |a| == l.o && |b| == l.p && |c| == l.q && |d| == l.r && |e| == l.s
    requires l.o + l.p + l.q + l.r + l.s <= |img|
    requires img[..l.o] == a && img[l.o..l.o + l.p] == b && img[l.o + l.p..l.o + l.p + l.q] == c
    requires img[l.o + l.p + l.q..l.o + l.p + l.q + l.r] == d
    requires img[l.o + l.p + l.q + l.r..l.o + l.p + l.q + l.r + l.s] == e
    ensures InARow(img, a, b, c, d, e)
  {
  }

  lemma RoomForWhole(w: Whole)
    requires WholeRenderable(w)
    ensures AVB_FOOTER_SIZE <= w.size
  {
    WholeHeaderLength(w);
    WholePartLengths(w);
  }

  /** What was laid out is held exactly when content and footer do not collide. */
  lemma RenderedHolds(w: Whole)
    requires WholeRenderable(w)
    ensures Holds(RenderWhole(w), w) <==> FooterClear(WholeContent(w), w.size, w.footer)
  {
    hide WholeHeaderFits, Word, RoundUp32, WholeContent, Finish, Footer, FooterClear, Holds;
    var img := RenderWhole(w);
    RoomForWhole(w);
    FinishReadBack(WholeContent(w), w.size, w.footer);
    if FooterClear(WholeContent(w), w.size, w.footer) {
      ContentHeld(w, img);
    } else if Holds(img, w) {
      HeldContent(w, img);
    }
  }

  // ----- Rewriting

  /** There is room for the new ramdisk, rounded, and in version 4 for a table of one entry. */
  predicate WholeFits(img: seq<byte>, ramdisk: seq<byte>)
    requires WholeParsable(img)
  {
    HeaderSection(img);
    var l := LayoutOf(img);
    var page := Word(img, PAGE_SIZE_AT);
    && |ramdisk| <= |img|
    && l.o + RoundUp32(|ramdisk|, page) + l.q
      + (if Word(img, VERSION_AT) == 4 then RoundUp32(ENTRY_SIZE, page) else 0) + l.s <= |img|
  }

  lemma ParsedWholeFits(img: seq<byte>)
    requires WholeParsable(img)
    ensures WholeHeaderFits(ParseWhole(img))
    ensures var w := ParseWhole(img);
            && Word(w.header, PAGE_SIZE_AT) == Word(img, PAGE_SIZE_AT)
            && Word(w.header, VERSION_AT) == Word(img, VERSION_AT)
  {
    hide RoundUp32, SetHeader, Word;
    HeaderPrefix(img);
    var h := img[..LayoutOf(img).o];
    SetHeaderWords(h, 0, BLANK);
    SetHeaderTwice(h, 0, BLANK, 0, BLANK);
  }

  lemma UpdatedWholeRenderable(img: seq<byte>, ramdisk: seq<byte>)
    requires WholeParsable(img) && WholeFits(img, ramdisk)
    ensures WholeRenderable(ParseWhole(img).(ramdisk := ramdisk))
  {
    hide RoundUp32, SetHeader, Word, HeaderOk, LayoutOf;
    ParsedWholeFits(img);
    var w := ParseWhole(img).(ramdisk := ramdisk);
    assert WholeHeaderFits(w);
    HeaderSection(img);
    RoundUpExact(|ramdisk|, Word(img, PAGE_SIZE_AT));
    RoundUpExact(ENTRY_SIZE, Word(img, PAGE_SIZE_AT));
  }

  /** Copies the header section with its fields set. */
  method RewriteHeader(u: D.DataUpdater, img: seq<byte>, ramdisk: seq<byte>) returns (ok: bool)
    requires HeaderOk(img, 3) && RoundsExactly(img)
    requires u.oldData == img && u.State() == D.Start(img)
    modifies u
    ensures u.Valid()
    ensures ok <==> LayoutOf(img).o <= |img|
    ensures ok ==>
              var o := LayoutOf(img).o;
              && HeaderSize(Word(img, VERSION_AT)) <= o
              && IsV4(img[..o]) == (Word(img, VERSION_AT) == 4)
              && u.Clean() && u.oldPos == u.newPos == o
              && u.Written() == SetHeader(img[..o], |ramdisk|, SINGLE_ENTRY)
  {
    hide RoundUp32, LayoutOf, D.Do;
    HeaderSection(img);
    var o := LayoutOf(img).o;
    assert u.Clean() && u.Written() == [];
    ok := u.Copy(o);
    if !ok {
      return;
    }
    assert u.Written() == img[..o];
    WordOfPrefix(img, img[..o], VERSION_AT);
    u.Patch(RAMDISK_SIZE_AT, LittleEndian32(|ramdisk|));
    if Word(img, VERSION_AT) == 4 {
      u.Patch(TABLE_SIZE_AT, SINGLE_ENTRY);
    }
  }

  /** Writes the new ramdisk padded to a page in place of the old one, and copies the DTB. */
  method RewriteWholeRamdisk(u: D.DataUpdater, img: seq<byte>, ramdisk: seq<byte>) returns (ok: bool)
    requires |ramdisk| < U32 && HeaderOk(img, 3) && RoundsExactly(img)
    requires u.oldData == img && u.Clean() && u.oldPos == u.newPos == LayoutOf(img).o
    modifies u
    ensures u.Valid()
    ensures var l := LayoutOf(img);
            ok <==>
              && Word(img, RAMDISK_SIZE_AT) <= l.p && l.o + l.p + l.q <= |img|
              && |ramdisk| <= |img|
              && l.o + RoundUp32(|ramdisk|, Word(img, PAGE_SIZE_AT)) + l.q <= |img|
    ensures ok ==>
              var l := LayoutOf(img);
              var newP := RoundUp32(|ramdisk|, Word(img, PAGE_SIZE_AT));
              && |ramdisk| <= newP
              && u.Clean() && u.oldPos == l.o + l.p + l.q && u.newPos == l.o + newP + l.q
              && u.Written() == old(u.Written()) + ramdisk + Zeros(newP - |ramdisk|)
                                + img[l.o + l.p..l.o + l.p + l.q]
  {
    hide RoundUp32, Word, LayoutOf, D.Do, Sub32;
    var l := LayoutOf(img);
    var page := Word(img, PAGE_SIZE_AT);
    var ramdiskSize := Word(img, RAMDISK_SIZE_AT);
    RamdiskRounds(img);
    if |ramdisk| <= |img| {
      RoundUpExact(|ramdisk|, page);
    }
    ok := u.Replace(ramdiskSize, ramdisk);
    if !ok {
      return;
    }
    var newP := RoundUp32(|ramdisk|, page);
    PadCheck(l.o, ramdiskSize, ramdiskSize, ramdiskSize, newP, |ramdisk|, |img|);
    ok := u.Skip(Sub32(l.p, ramdiskSize), Sub32(newP, |ramdisk|));
    if !ok {
      return;
    }
    // Both cursors are now at section boundaries by construction; the source checks them here.
    ok := u.Copy(l.q);
  }

  /** Puts one entry for the whole ramdisk in place of the table, and copies the bootconfig. */
  method RewriteWholeTable(u: D.DataUpdater, img: seq<byte>, ramdisk: seq<byte>) returns (ok: bool)
    requires |ramdisk| < U32 && HeaderOk(img, 4) && RoundsExactly(img)
    requires u.oldData == img && u.Clean() && u.oldPos == TableStart(img)
    modifies u
    ensures u.Valid()
    ensures var l := LayoutOf(img);
            ok <==>
              && TableStart(img) + l.r + l.s <= |img|
              && old(u.newPos) + RoundUp32(ENTRY_SIZE, Word(img, PAGE_SIZE_AT)) + l.s <= |img|
    ensures ok ==>
              var l := LayoutOf(img);
              var t := TableStart(img);
              && u.Clean()
              && u.Written() == old(u.Written())
                                + SingleTable(true, |ramdisk|, Word(img, PAGE_SIZE_AT))
                                + img[t + l.r..t + l.r + l.s]
  {
    hide RoundUp32, Word, LayoutOf, D.Do, EntryBytes, TableStart;
    var l := LayoutOf(img);
    var page := Word(img, PAGE_SIZE_AT);
    RoundUpExact(ENTRY_SIZE, page);
    var newR := RoundUp32(ENTRY_SIZE, page);
    var entryAt := u.newPos;
    ghost var before := u.Written();
    ok := u.Skip(l.r, newR);
    if !ok {
      return;
    }
    var entry := EntryBytes(|ramdisk|, 0, Zeros(DESCR_SIZE));
    EntryOverZeros(before, entry, newR);
    u.Patch(entryAt, entry);
    ok := u.Copy(l.s);
  }

  lemma EntryOverZeros(before: seq<byte>, entry: seq<byte>, n: nat)
    requires |entry| <= n
    ensures Overlay(before + Zeros(n), |before|, entry) == before + (entry + Zeros(n - |entry|))
  {
  }

  lemma RamdiskRounds(img: seq<byte>)
    requires HeaderOk(img, 3) && RoundsExactly(img)
    ensures var n := Word(img, RAMDISK_SIZE_AT);
            var p := LayoutOf(img).p;
            && (n <= |img| ==> n <= p && Sub32(p, n) == p - n)
            && (n <= p ==> Sub32(p, n) == p - n)
  {
    hide RoundUp32, Word;
    HeaderSection(img);
    if Word(img, RAMDISK_SIZE_AT) <= |img| {
      RoundUpExact(Word(img, RAMDISK_SIZE_AT), Word(img, PAGE_SIZE_AT));
    }
  }

  lemma WholeContentIs(img: seq<byte>, ramdisk: seq<byte>)
    requires WholeParsable(img) && WholeFits(img, ramdisk)
    ensures var l := LayoutOf(img);
            var page := Word(img, PAGE_SIZE_AT);
            var v4 := Word(img, VERSION_AT) == 4;
            var t := l.o + l.p + l.q;
            var w := ParseWhole(img).(ramdisk := ramdisk);
            && 0 < page && |ramdisk| <= RoundUp32(|ramdisk|, page)
            && l.o >= HeaderSize(Word(img, VERSION_AT)) && IsV4(img[..l.o]) == v4
            && WholeHeaderFits(w) && |w.ramdisk| + Word(w.header, PAGE_SIZE_AT) <= U32
            && WholeContent(w)
               == SetHeader(img[..l.o], |ramdisk|, SINGLE_ENTRY)
                  + ramdisk + Zeros(RoundUp32(|ramdisk|, page) - |ramdisk|) + img[l.o + l.p..t]
                  + SingleTable(v4, |ramdisk|, page)
                  + img[t + l.r..t + l.r + l.s]
  {
    hide RoundUp32, SetHeader, Word, SingleTable, LayoutOf;
    HeaderSection(img);
    HeaderPrefix(img);
    ParsedWholeFits(img);
    var h := img[..LayoutOf(img).o];
    var page := Word(img, PAGE_SIZE_AT);
    RoundUpExact(|ramdisk|, page);
    SetHeaderTwice(h, 0, BLANK, |ramdisk|, SINGLE_ENTRY);
    AppendAssoc(SetHeader(h, |ramdisk|, SINGLE_ENTRY), ramdisk, Zeros(RoundUp32(|ramdisk|, page) - |ramdisk|));
  }

  /**
   Replaces the whole vendor ramdisk. The rewrite succeeds exactly when the sections lie
   within the image and the result fits; then the result is the image of the parsed value
   with only the ramdisk exchanged.
   */
  method ReplaceDefaultVendorRamdisk(img: seq<byte>, ramdisk: seq<byte>) returns (r: Result<seq<byte>>)
    requires |ramdisk| < U32
    requires HeaderOk(img, 3) ==> RoundsExactly(img)
    ensures r.Ok? <==> WholeParsable(img) && WholeFits(img, ramdisk)
    ensures r.Ok? ==>
              && WholeRenderable(ParseWhole(img).(ramdisk := ramdisk))
              && r.value == RenderWhole(ParseWhole(img).(ramdisk := ramdisk))
  {
    hide RoundUp32, SetHeader, SingleTable, D.Do, WholeContent, WholeHeaderFits, Word;
    var e := CheckHeader(img, 3);
    if e.Some? {
      return Err(e.value);
    }
    HeaderSection(img);
    var u := new D.DataUpdater(img);
    var ok := RewriteHeader(u, img, ramdisk);
    if !ok {
      return Err(OutOfBounds);
    }
    ok := RewriteWholeRamdisk(u, img, ramdisk);
    if !ok {
      return Err(OutOfBounds);
    }
    if Word(img, VERSION_AT) >= 4 {
      ok := RewriteWholeTable(u, img, ramdisk);
      if !ok {
        return Err(OutOfBounds);
      }
    }
    assert WholeParsable(img) && WholeFits(img, ramdisk);
    UpdatedWholeRenderable(img, ramdisk);
    WholeContentIs(img, ramdisk);
    NoTableV3(img, |ramdisk|);
    assert u.Written() == WholeContent(ParseWhole(img).(ramdisk := ramdisk));
    CopyAvbFooter(u);
    r := Ok(u.newData);
  }

  /** Version 3 images have neither table nor bootconfig. */
  lemma NoTableV3(img: seq<byte>, n: int)
    requires HeaderOk(img, 3) && RoundsExactly(img)
    ensures Word(img, VERSION_AT) == 3 ==>
              && LayoutOf(img).r == LayoutOf(img).s == 0
              && SingleTable(false, n, Word(img, PAGE_SIZE_AT)) == []
  {
  }

  // ----- What it means

  ghost function ReplacedWhole(img: seq<byte>, ramdisk: seq<byte>): (out: seq<byte>)
    requires WholeParsable(img) && WholeFits(img, ramdisk)
  {
    UpdatedWholeRenderable(img, ramdisk);
    RenderWhole(ParseWhole(img).(ramdisk := ramdisk))
  }

  ghost predicate WholeClearOfFooter(img: seq<byte>, ramdisk: seq<byte>)
    requires WholeParsable(img) && WholeFits(img, ramdisk)
  {
    UpdatedWholeRenderable(img, ramdisk);
    var w := ParseWhole(img).(ramdisk := ramdisk);
    FooterClear(WholeContent(w), w.size, w.footer)
  }

  /**
   The new image holds the same header, DTB, bootconfig and footer, the new ramdisk padded
   with zeros and one table entry for it, exactly when content and footer do not collide.
   */
  lemma WholeMeaningPreserved(img: seq<byte>, ramdisk: seq<byte>)
    requires WholeParsable(img) && WholeFits(img, ramdisk)
    ensures var w := ParseWhole(img).(ramdisk := ramdisk);
            var out := ReplacedWhole(img, ramdisk);
            && |out| == |img| && WholeRenderable(w)
            && (Holds(out, w) <==> WholeClearOfFooter(img, ramdisk))
  {
    hide RoundUp32, SetHeader, Word, HeaderOk, LayoutOf, WholeContent, WholeFits, WholeHeaderFits, FooterClear, Holds;
    UpdatedWholeRenderable(img, ramdisk);
    RenderedHolds(ParseWhole(img).(ramdisk := ramdisk));
  }

  // ----- Replacing twice

  /** The last section that a replacement copies: the bootconfig, in version 3 the DTB. */
  function LastSection(w: Whole): (t: seq<byte>)
    requires |w.header| >= V3_HEADER_SIZE
  {
    if IsV4(w.header) then w.bootconfig else w.dtb
  }

  function WithLastSection(w: Whole, t: seq<byte>): (r: Whole)
    requires |w.header| >= V3_HEADER_SIZE
  {
    if IsV4(w.header) then w.(bootconfig := t) else w.(dtb := t)
  }

  /** The content before the last copied section. */
  function WholeBody(w: Whole): (b: seq<byte>)
    requires WholeRenderable(w)
  {
    var page := Word(w.header, PAGE_SIZE_AT);
    SetHeader(w.header, |w.ramdisk|, SINGLE_ENTRY) + PadToPage(w.ramdisk, page)
    + if IsV4(w.header) then w.dtb + SingleTable(true, |w.ramdisk|, page) else []
  }

  lemma WholeContentSplit(w: Whole, t: seq<byte>)
    requires WholeRenderable(w) && |t| == |LastSection(w)|
    ensures WholeContent(w) == WholeBody(w) + LastSection(w)
    ensures WholeRenderable(WithLastSection(w, t)) && WholeContent(WithLastSection(w, t)) == WholeBody(w) + t
  {
    hide RoundUp32, SetHeader, Word, HeaderOk, PadToPage, EntryBytes;
    BlankHeader(w);
    var page := Word(w.header, PAGE_SIZE_AT);
    var a := SetHeader(w.header, |w.ramdisk|, SINGLE_ENTRY) + PadToPage(w.ramdisk, page);
    var r := WithLastSection(w, t);
    assert WholeHeaderFits(r);
    if IsV4(w.header) {
      var table := SingleTable(true, |w.ramdisk|, page);
      assert a + w.dtb + table == a + (w.dtb + table);
    } else {
      assert a + w.dtb + [] + [] == a + [] + w.dtb && a + t + [] + [] == a + [] + t;
    }
  }

  /** The footer reaches into the header section. */
  ghost predicate HeaderReached(img: seq<byte>)
    requires WholeParsable(img)
  {
    Footer(img).Some? && LayoutOf(img).o + AVB_FOOTER_SIZE > |img|
  }

  /** What a rewritten image parses to, but for the ramdisk. */
  lemma SpoiledWhole(w: Whole, y: seq<byte>)
    requires WholeRenderable(w)
    requires |w.header| + AVB_FOOTER_SIZE <= w.size || w.footer == None
    ensures var out := RenderWhole(w);
            && AVB_FOOTER_SIZE <= w.size && |w.header| >= V3_HEADER_SIZE
            && WholeParsable(out) && LayoutOf(out) == WholeLayout(w)
            && Word(out, PAGE_SIZE_AT) == Word(w.header, PAGE_SIZE_AT)
            && Word(out, VERSION_AT) == Word(w.header, VERSION_AT)
            && Footer(out) == (if w.footer.Some? then w.footer else Footer(Plain(WholeContent(w), w.size)))
            && ParseWhole(out).(ramdisk := y)
               == WithLastSection(w, Spoiled(LastSection(w), Overlap(|WholeContent(w)|, w.size), w.footer))
                  .(ramdisk := y, footer := Footer(out))
  {
    hide RoundUp32, SetHeader, SingleTable, Word, LayoutOf, HeaderOk, Footer, WholeContent, WholeHeaderFits,
         PadToPage, Finish, Spoiled, WholeBody;
    var out := RenderWhole(w);
    RoomForWhole(w);
    BlankHeader(w);
    FinishFooter(WholeContent(w), w.size, w.footer);
    WholePartLengths(w);
    HeaderKept(w);
    WholeReadHeader(w, out);
    SetHeaderTwice(w.header, |w.ramdisk|, SINGLE_ENTRY, 0, BLANK);
    WholeContentSplit(w, LastSection(w));
    TailSpoils(WholeBody(w), LastSection(w), w.size, w.footer);
    SectionsKept(w);
  }

  lemma HeaderKept(w: Whole)
    requires WholeRenderable(w)
    requires |w.header| + AVB_FOOTER_SIZE <= w.size || w.footer == None
    ensures |w.header| >= V3_HEADER_SIZE && (IsV4(w.header) ==> |w.header| >= V4_HEADER_SIZE)
    ensures RenderWhole(w)[..|w.header|] == SetHeader(w.header, |w.ramdisk|, SINGLE_ENTRY)
  {
    hide RoundUp32, SetHeader, SingleTable, Word, HeaderOk, Footer, WholeHeaderFits, Finish, FooterClear, WholeContent;
    BlankHeader(w);
    RoomForWhole(w);
    WholePartLengths(w);
    var c := WholeContent(w);
    WholeReadParts(w, c);
    if w.footer == None {
      PlainStays(c, w.size);
    } else {
      FrontStays(c, w.size, w.footer, 0, |w.header|);
    }
  }

  lemma PlainStays(content: seq<byte>, size: nat)
    requires |content| <= size
    ensures content <= Finish(content, size, None)
  {
  }

  /** In version 4 the table keeps the footer off the DTB; in version 3 there is no bootconfig. */
  lemma SectionsKept(w: Whole)
    requires WholeRenderable(w)
    ensures var l := WholeLayout(w);
            var t := l.o + l.p + l.q;
            var out := RenderWhole(w);
            && (if IsV4(w.header) then l.r >= ENTRY_SIZE && out[l.o + l.p..t] == w.dtb
                else l.r == 0 && w.bootconfig == [])
  {
    hide RoundUp32, SetHeader, SingleTable, Word, HeaderOk, Footer, Finish, WholeContent;
    BlankHeader(w);
    RoomForWhole(w);
    WholePartLengths(w);
    var l := WholeLayout(w);
    var c := WholeContent(w);
    WholeReadParts(w, c);
    if IsV4(w.header) {
      RoundUpExact(ENTRY_SIZE, Word(w.header, PAGE_SIZE_AT));
      FrontStays(c, w.size, w.footer, l.o + l.p, l.o + l.p + l.q);
    }
  }

  /** What the collision of the first replacement did is undone by the second. */
  ghost predicate WholeLossUndone(img: seq<byte>, x: seq<byte>, y: seq<byte>)
    requires WholeParsable(img) && WholeFits(img, x) && WholeFits(img, y)
  {
    UpdatedWholeRenderable(img, x);
    UpdatedWholeRenderable(img, y);
    var w := ParseWhole(img);
    RoomForWhole(w.(ramdisk := x));
    Recovers(WholeContent(w.(ramdisk := x)), WholeContent(w.(ramdisk := y)), LastSection(w), |img|, Footer(img))
  }

  /**
   Last write wins, byte for byte, padding, table and footer included, exactly when the
   first replacement lost nothing at the footer that the second does not cover, or the footer
   covers all of the ramdisk anyway.
   */
  lemma WholeLastWriteWins(img: seq<byte>, x: seq<byte>, y: seq<byte>)
    requires WholeParsable(img) && WholeFits(img, x)
    requires WholeParsable(ReplacedWhole(img, x)) && WholeFits(ReplacedWhole(img, x), y)
    ensures WholeFits(img, y)
    ensures ReplacedWhole(ReplacedWhole(img, x), y) == ReplacedWhole(img, y)
            <==> HeaderReached(img) || WholeLossUndone(img, x, y)
    ensures WholeClearOfFooter(img, x) ==> HeaderReached(img) || WholeLossUndone(img, x, y)
  {
    hide WholeParsable, WholeFits, HeaderReached, WholeLossUndone, WholeClearOfFooter, ReplacedWhole;
    if HeaderReached(img) {
      OnlySizeTwice(img, x, y);
    } else {
      SecondReplacement(img, x, y);
    }
  }

  lemma SecondReplacement(img: seq<byte>, x: seq<byte>, y: seq<byte>)
    requires WholeParsable(img) && WholeFits(img, x) && !HeaderReached(img)
    requires WholeParsable(ReplacedWhole(img, x)) && WholeFits(ReplacedWhole(img, x), y)
    ensures WholeFits(img, y)
    ensures ReplacedWhole(ReplacedWhole(img, x), y) == ReplacedWhole(img, y) <==> WholeLossUndone(img, x, y)
    ensures WholeClearOfFooter(img, x) ==> WholeLossUndone(img, x, y)
  {
    hide RoundUp32, SetHeader, SingleTable, Word, HeaderOk, LayoutOf, WholeContent, WholeHeaderFits, PadToPage, Finish,
         Footer, FooterClear, Spoiled, Overlap, Recovers, WholeBody, ParseWhole, IsV4, Plain, WholeParsable;
    ParsedWholeShape(img);
    UpdatedWholeRenderable(img, x);
    var w := ParseWhole(img);
    var wx, wy := w.(ramdisk := x), w.(ramdisk := y);
    SpoiledWhole(wx, y);
    SameFits(img, x, y);
    UpdatedWholeRenderable(img, y);
    var out := ReplacedWhole(img, x);
    var tail := Spoiled(LastSection(w), Overlap(|WholeContent(wx)|, |img|), Footer(img));
    WholeContentSplit(wy, tail);
    WholeContentSplit(wx, LastSection(w));
    WholeRenderWithFooter(WithLastSection(wy, tail), Footer(out));
    FinishAgain(WholeContent(wx), WholeBody(wy), LastSection(w), |img|, Footer(img));
    if WholeClearOfFooter(img, x) {
      ClearRecovers(WholeBody(wx), WholeContent(wy), LastSection(w), |img|, Footer(img));
    }
  }

  // ----- Images in which the footer reaches into the header section

  /** Only the ramdisk size changes: the footer is copied over everything else that was written. */
  lemma OnlySizeChanges(img: seq<byte>, x: seq<byte>)
    requires WholeParsable(img) && WholeFits(img, x) && HeaderReached(img)
    ensures RAMDISK_SIZE_AT + 4 <= |img| && ReplacedWhole(img, x) == PutWord(img, RAMDISK_SIZE_AT, |x|)
  {
    hide RoundUp32, SingleTable, Word, HeaderOk, LayoutOf, WholeHeaderFits;
    UpdatedWholeRenderable(img, x);
    ReachedIsV3(img, x);
    WholeContentIs(img, x);
    var o, f := LayoutOf(img).o, |img| - AVB_FOOTER_SIZE;
    var head := PutWord(img[..o], RAMDISK_SIZE_AT, |x|);
    var c := WholeContent(ParseWhole(img).(ramdisk := x));
    hide WholeContent;
    assert head <= c;
    CutAtFooter(img, c, head, |x|, o);
  }

  /** A version 4 table is longer than the footer. */
  lemma ReachedIsV3(img: seq<byte>, x: seq<byte>)
    requires WholeParsable(img) && WholeFits(img, x) && HeaderReached(img)
    ensures Word(img, VERSION_AT) == 3 && V3_HEADER_SIZE <= LayoutOf(img).o <= |img| && V3_HEADER_SIZE <= |img|
  {
    hide RoundUp32, Word;
    HeaderSection(img);
    RoundUpExact(ENTRY_SIZE, Word(img, PAGE_SIZE_AT));
    RoundUpExact(|x|, Word(img, PAGE_SIZE_AT));
  }

  lemma CutAtFooter(img: seq<byte>, content: seq<byte>, head: seq<byte>, n: int, o: nat)
    requires V3_HEADER_SIZE <= o <= |img| < o + AVB_FOOTER_SIZE && |content| <= |img|
    requires head == PutWord(img[..o], RAMDISK_SIZE_AT, n) && head <= content && Footer(img).Some?
    ensures Finish(content, |img|, Footer(img)) == PutWord(img, RAMDISK_SIZE_AT, n)
  {
    hide LittleEndian32;
    var f := |img| - AVB_FOOTER_SIZE;
    var whole := PutWord(img, RAMDISK_SIZE_AT, n);
    assert head == whole[..o];
    assert Finish(content, |img|, Footer(img)) == content[..f] + img[f..];
    assert content[..f] == head[..f] == whole[..f] && img[f..] == whole[f..];
  }

  lemma ReachedAgain(img: seq<byte>, x: seq<byte>, y: seq<byte>)
    requires WholeParsable(img) && WholeFits(img, x) && HeaderReached(img)
    ensures var out := ReplacedWhole(img, x);
            && WholeParsable(out) && HeaderReached(out) && (WholeFits(out, y) <==> WholeFits(img, y))
  {
    hide RoundUp32, Word, PutWord, ReplacedWhole;
    OnlySizeChanges(img, x);
    ReachedIsV3(img, x);
    HeaderSection(img);
    SizedHeader(img, |x|);
    RoundUpExact(|x|, Word(img, PAGE_SIZE_AT));
  }

  /** A version 3 image with another ramdisk size. */
  lemma SizedHeader(img: seq<byte>, n: int)
    requires HeaderOk(img, 3) && Word(img, VERSION_AT) == 3 && 0 <= n < U32
    ensures var out := PutWord(img, RAMDISK_SIZE_AT, n);
            && HeaderOk(out, 3) && Word(out, RAMDISK_SIZE_AT) == n && Word(out, PAGE_SIZE_AT) == Word(img, PAGE_SIZE_AT)
            && Word(out, VERSION_AT) == 3 && Footer(out) == Footer(img)
            && LayoutOf(out) == LayoutOf(img).(p := RoundUp32(n, Word(img, PAGE_SIZE_AT)))
  {
    hide RoundUp32, Word;
    SizedWords(img, n);
    hide PutWord, Footer;
  }

  lemma SizedWords(img: seq<byte>, n: int)
    requires |img| >= V3_HEADER_SIZE && 0 <= n < U32
    ensures var out := PutWord(img, RAMDISK_SIZE_AT, n);
            && out[..8] == img[..8] && Word(out, RAMDISK_SIZE_AT) == n
            && Word(out, VERSION_AT) == Word(img, VERSION_AT) && Word(out, PAGE_SIZE_AT) == Word(img, PAGE_SIZE_AT)
            && Word(out, DTB_SIZE_AT) == Word(img, DTB_SIZE_AT) && Footer(out) == Footer(img)
  {
    hide Word, LittleEndian32, Footer;
    WordOfPut(img, RAMDISK_SIZE_AT, n);
    WordBesidePut(img, RAMDISK_SIZE_AT, n, VERSION_AT);
    WordBesidePut(img, RAMDISK_SIZE_AT, n, PAGE_SIZE_AT);
    WordBesidePut(img, RAMDISK_SIZE_AT, n, DTB_SIZE_AT);
    SizedEnds(img, n);
  }

  lemma SizedEnds(img: seq<byte>, n: int)
    requires |img| >= V3_HEADER_SIZE
    ensures var out := PutWord(img, RAMDISK_SIZE_AT, n); out[..8] == img[..8] && Footer(out) == Footer(img)
  {
    var out, f := PutWord(img, RAMDISK_SIZE_AT, n), |img| - AVB_FOOTER_SIZE;
    OverlayBefore(img, RAMDISK_SIZE_AT, LittleEndian32(n), 0, 8);
    OverlayAfter(img, RAMDISK_SIZE_AT, LittleEndian32(n), f, |img|);
    hide LittleEndian32, PutWord;
    assert out[..8] == out[0..8] && img[..8] == img[0..8];
    assert out[f..] == out[f..|img|] && img[f..] == img[f..|img|];
  }

  /** So a second replacement is possible exactly when it is on the first image, and gives the same. */
  lemma OnlySizeTwice(img: seq<byte>, x: seq<byte>, y: seq<byte>)
    requires WholeParsable(img) && WholeFits(img, x) && HeaderReached(img)
    ensures var out := ReplacedWhole(img, x);
            && WholeParsable(out) && (WholeFits(out, y) <==> WholeFits(img, y))
            && (WholeFits(img, y) ==> ReplacedWhole(out, y) == ReplacedWhole(img, y))
  {
    hide WholeParsable, WholeFits, HeaderReached, ReplacedWhole;
    ReachedAgain(img, x, y);
    if WholeFits(img, y) {
      OnlySizeChanges(img, x);
      OnlySizeChanges(img, y);
      OnlySizeChanges(ReplacedWhole(img, x), y);
      OverlayOver(img, RAMDISK_SIZE_AT, LittleEndian32(|x|), LittleEndian32(|y|));
    }
  }

  lemma ParsedWholeShape(img: seq<byte>)
    requires WholeParsable(img)
    ensures var w := ParseWhole(img);
            && w.size == |img| && w.footer == Footer(img) && FooterOk(w.footer)
            && |w.header| == LayoutOf(img).o >= V3_HEADER_SIZE
  {
    hide RoundUp32, SetHeader, Word;
    HeaderPrefix(img);
  }

  lemma WholeRenderWithFooter(w: Whole, footer: Option<seq<byte>>)
    requires WholeRenderable(w) && FooterOk(footer) && AVB_FOOTER_SIZE <= w.size
    ensures WholeRenderable(w.(footer := footer))
    ensures RenderWhole(w.(footer := footer)) == Finish(WholeContent(w), w.size, footer)
  {
    hide RoundUp32, SetHeader, Word, HeaderOk, PadToPage, SingleTable;
    assert WholeHeaderFits(w.(footer := footer));
  }

  /** Room in the rewritten image is room in the original. */
  lemma SameFits(img: seq<byte>, x: seq<byte>, y: seq<byte>)
    requires WholeParsable(img) && WholeFits(img, x) && !HeaderReached(img)
    requires WholeParsable(ReplacedWhole(img, x)) && WholeFits(ReplacedWhole(img, x), y)
    ensures WholeFits(img, y)
  {
    hide RoundUp32, SetHeader, SingleTable, Word, HeaderOk, LayoutOf, WholeContent, WholeHeaderFits, PadToPage,
         Finish, Footer, FooterClear;
    UpdatedWholeRenderable(img, x);
    ParsedWholeShape(img);
    ParsedWholeFits(img);
    ParsedSections(img);
    SpoiledWhole(ParseWhole(img).(ramdisk := x), y);
  }

  lemma ParsedSections(img: seq<byte>)
    requires WholeParsable(img)
    ensures |ParseWhole(img).dtb| == LayoutOf(img).q && |ParseWhole(img).bootconfig| == LayoutOf(img).s
  {
    hide RoundUp32, SetHeader, Word;
  }
}
