/**
 A vendor boot image of five pages whose last 64 bytes are an AVB footer. A ramdisk that
 needs one page more still fits, but then the bootconfig ends where the footer goes.
 */
module VendorBootCollision {
  import opened Bytes
  import opened VendorBootFormat
  import opened VendorBootImage
  import opened VendorBootRoundTrip
  import opened VendorBootFragment
  import opened VendorBootTheorems
  import opened VendorBootDefault

  const PAGE := 4096

  /** A fragment called "a". */
  const DESCR: seq<byte> := Zeros(4) + [97] + Zeros(95)
  const NAME: seq<byte> := [97]

  const FOOTER: seq<byte> := AVB_FOOTER_MAGIC + Zeros(60)
  const BOOTCONFIG: seq<byte> := Ones(PAGE)

  const LARGER_RAMDISK: seq<byte> := Zeros(PAGE + 1)

  function Ones(n: nat): (r: seq<byte>) {
    seq(n, _ => 1)
  }

  predicate HeaderIs(h: seq<byte>) {
    && |h| == PAGE && h[..8] == VENDOR_BOOT_MAGIC
    && Word(h, VERSION_AT) == 4 && Word(h, PAGE_SIZE_AT) == PAGE && Word(h, RAMDISK_SIZE_AT) == 0
    && Word(h, DTB_SIZE_AT) == 0 && Word(h, TABLE_SIZE_AT) == ENTRY_SIZE && Word(h, ENTRY_NUM_AT) == 1
    && Word(h, ENTRY_SIZE_AT) == ENTRY_SIZE && Word(h, BOOTCONFIG_SIZE_AT) == PAGE
  }

  lemma ExampleHeader() returns (h: seq<byte>)
    ensures HeaderIs(h)
  {
    hide Word;
    h := EmptyHeader(PAGE);
    h := WithWord(h, VERSION_AT, 4);
    h := WithWord(h, PAGE_SIZE_AT, PAGE);
    h := WithWord(h, TABLE_SIZE_AT, ENTRY_SIZE);
    h := WithWord(h, ENTRY_NUM_AT, 1);
    h := WithWord(h, ENTRY_SIZE_AT, ENTRY_SIZE);
    h := WithWord(h, BOOTCONFIG_SIZE_AT, PAGE);
  }

  function Example(h: seq<byte>): (v: VendorBoot) {
    VendorBoot(h, [Fragment(DESCR, [7])], [], Zeros(PAGE - ENTRY_SIZE), BOOTCONFIG, Some(FOOTER), 5 * PAGE)
  }

  lemma ExampleRenderable(h: seq<byte>)
    requires HeaderIs(h)
    ensures Renderable(Example(h)) && |Content(Example(h))| == 4 * PAGE
  {
    hide Word, PutWord;
    var v := Example(h);
    assert HeaderFits(v);
    assert v.fragments[..0] == [];
    assert Ramdisk(v.fragments) == [7];
    assert FOOTER[..4] == AVB_FOOTER_MAGIC;
  }

  lemma ExampleParsed(h: seq<byte>)
    requires HeaderIs(h)
    ensures Renderable(Example(h))
    ensures var img := Render(Example(h));
            && HeaderOk(img, 3) && Parsable(img) && Parse(img) == Example(h) && Rewritable(img) && |img| == 5 * PAGE
            && LayoutOf(img) == Layout(PAGE, PAGE, 0, PAGE, PAGE) && Word(img, PAGE_SIZE_AT) == PAGE
            && EntryNum(img) == 1 && Sizes(img) == [1] && TableStart(img) == 2 * PAGE
  {
    hide Word, PutWord, Content, Parse, Parsable, TableReadable, Footer, HeaderOk, HeaderFits, LayoutOf, Finish;
    var v := Example(h);
    ExampleRenderable(h);
    EndsBeforeFooter(Content(v), v.size, v.footer);
    RoomForFooter(v);
    FinishReadBack(Content(v), v.size, v.footer);
    ParseRender(v);
    var img := Render(v);
    ReadLayout(v, img);
    ReadSizes(v, img);
    ReadTableReadable(v, img);
    SamePageSize(v, img);
    ThreeOfFour(img);
    assert v.fragments[..0] == [];
    assert Ramdisk(v.fragments) == [7];
  }

  lemma ExampleReplaceable(h: seq<byte>)
    requires HeaderIs(h)
    ensures Renderable(Example(h))
    ensures Replaceable(Render(Example(h)), NAME, LARGER_RAMDISK, 0)
    ensures NewP(Render(Example(h)), 0, LARGER_RAMDISK) == 2 * PAGE
  {
    hide Word, PutWord, Content, Parse, Parsable, Render, Renderable, TableReadable, LayoutOf, HasName, Sizes;
    ExampleParsed(h);
    var img := Render(Example(h));
    NameParsed(img, 0, NAME);
    ExampleName();
    var sizes := NewSizes(img, 0, LARGER_RAMDISK);
    assert sizes == [PAGE + 1] && sizes[..0] == [];
    assert Sum(sizes) == PAGE + 1;
  }

  lemma ExampleName()
    ensures Name(DESCR) == NAME
  {
    var name := DESCR[4..4 + NAME_SIZE];
    assert name[0] == 97 && name[1..][0] == 0;
    assert CString(name[1..]) == [];
  }

  /** The replacement succeeds and part of the bootconfig is gone. */
  lemma FooterOverwritesBootconfig() returns (img: seq<byte>)
    ensures Replaceable(img, NAME, LARGER_RAMDISK, 0) && !ClearOfFooter(img, NAME, LARGER_RAMDISK, 0)
    ensures var out := Replaced(img, NAME, LARGER_RAMDISK, 0);
            Parsable(out) && Parse(out).bootconfig != Parse(img).bootconfig
  {
    hide Word, PutWord, Content, Parse, Parsable, Render, Renderable, TableReadable, Rewritable, LayoutOf, HasName,
         Sizes, NewP, Footer, AllFits, WithTail, Finish;
    var h := ExampleHeader();
    ExampleParsed(h);
    ExampleReplaceable(h);
    img := Render(Example(h));
    var out := Replaced(img, NAME, LARGER_RAMDISK, 0);
    FooterAfter(img, NAME, LARGER_RAMDISK, 0);
    NewContentEnd(img, NAME, LARGER_RAMDISK, 0);
    MeaningPreserved(img, NAME, LARGER_RAMDISK, 0);
    ReplacedContent(img, NAME, LARGER_RAMDISK, 0);
    var v := Updated(Example(h), 0, LARGER_RAMDISK);
    BootconfigSpoiled(v);
  }

  lemma BootconfigSpoiled(v: VendorBoot)
    requires v.fragments != [] && DescrsOk(v.fragments) && v.bootconfig == BOOTCONFIG && v.footer == Some(FOOTER)
    ensures var tail := Spoiled(Tail(v), AVB_FOOTER_SIZE, v.footer);
            WithTail(v, tail) != v && WithTail(v, tail).bootconfig != v.bootconfig
  {
    var tail := Spoiled(Tail(v), AVB_FOOTER_SIZE, v.footer);
    assert WithTail(v, tail).bootconfig[PAGE - AVB_FOOTER_SIZE] == FOOTER[0] == 65;
    assert v.bootconfig[PAGE - AVB_FOOTER_SIZE] == 1;
  }

  /** Replacing the whole ramdisk of the same image does the same. */
  lemma FooterOverwritesWhole() returns (img: seq<byte>)
    ensures WholeParsable(img) && WholeFits(img, LARGER_RAMDISK) && !WholeClearOfFooter(img, LARGER_RAMDISK)
    ensures WholeRenderable(ParseWhole(img).(ramdisk := LARGER_RAMDISK))
    ensures !Holds(ReplacedWhole(img, LARGER_RAMDISK), ParseWhole(img).(ramdisk := LARGER_RAMDISK))
  {
    hide Word, PutWord, Content, Parse, Render, Renderable, TableReadable, LayoutOf, Sizes, Footer, Finish, Holds,
         SetHeader, WholeContent, WholeBody;
    var h := ExampleHeader();
    ExampleParsed(h);
    img := Render(Example(h));
    ExampleWhole(img, h);
    var w := ParseWhole(img).(ramdisk := LARGER_RAMDISK);
    UpdatedWholeRenderable(img, LARGER_RAMDISK);
    WholeContentSplit(w, LastSection(w));
    WholePartLengths(w);
    WholeMeaningPreserved(img, LARGER_RAMDISK);
    var c := WholeContent(w);
    assert c[|c| - AVB_FOOTER_SIZE] == 1 && FOOTER[0] == 65;
    assert c[|c| - AVB_FOOTER_SIZE..][0] != FOOTER[..AVB_FOOTER_SIZE][0];
  }

  lemma ExampleWhole(img: seq<byte>, h: seq<byte>)
    requires Parsable(img) && Parse(img) == Example(h) && |img| == 5 * PAGE && Rewritable(img) && HeaderOk(img, 3)
    requires LayoutOf(img) == Layout(PAGE, PAGE, 0, PAGE, PAGE) && Word(img, PAGE_SIZE_AT) == PAGE && Sizes(img) == [1]
    ensures WholeParsable(img) && WholeFits(img, LARGER_RAMDISK)
    ensures var w := ParseWhole(img);
            && w.bootconfig == BOOTCONFIG && w.footer == Some(FOOTER) && w.dtb == [] && |w.header| == PAGE
            && IsV4(w.header) && Word(w.header, PAGE_SIZE_AT) == PAGE
  {
    hide Word, PutWord, Content, Footer, SetHeader, Sum, LayoutOf;
    VersionFour(img);
    ParsedWholeFits(img);
    HeaderPrefix(img);
  }
}
