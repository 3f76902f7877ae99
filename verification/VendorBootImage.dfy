/**
 Version 4 images as values: `Parse` reads an image into its fragments, DTB, bootconfig
 and footer; `Render` lays such a value out as bytes, computing every size and offset.
 */
module VendorBootImage {
  import opened Bytes
  import opened VendorBootFormat

  /** A ramdisk fragment; `descr` is the table entry after size and offset: type, name, board id. */
  datatype Fragment = Fragment(descr: seq<byte>, data: seq<byte>)

  /** `header` is the header section with the ramdisk size blanked. */
  datatype VendorBoot = VendorBoot(
    header: seq<byte>,
    fragments: seq<Fragment>,
    dtb: seq<byte>,
    tableRest: seq<byte>,
    bootconfig: seq<byte>,
    footer: Option<seq<byte>>,
    size: nat
  )

  const DESCR_SIZE := ENTRY_SIZE - 8

  // ----- Table entries

  function Sum(sizes: seq<nat>): (r: nat) {
    if sizes == [] then 0 else Sum(sizes[..|sizes| - 1]) + sizes[|sizes| - 1]
  }

  lemma {:induction false} SumMonotone(sizes: seq<nat>, i: nat)
    requires i <= |sizes|
    ensures Sum(sizes[..i]) <= Sum(sizes)
    decreases |sizes| - i
  {
    if i == |sizes| {
      assert sizes[..i] == sizes;
    } else {
      assert sizes[..i + 1][..i] == sizes[..i];
      SumMonotone(sizes, i + 1);
    }
  }

  function TableStart(img: seq<byte>): (r: int)
    requires HeaderOk(img, 4)
  {
    var l := LayoutOf(img);
    l.o + l.p + l.q
  }

  function EntryNum(img: seq<byte>): (n: int)
    requires HeaderOk(img, 4)
    ensures n >= 0
  {
    Word(img, ENTRY_NUM_AT)
  }

  /** The table the header announces lies within the image. */
  predicate TableInside(img: seq<byte>)
    requires HeaderOk(img, 4)
  {
    TableStart(img) + ENTRY_SIZE * EntryNum(img) <= |img|
  }

  /** The whole table can be read and its entries have the size of the entry record. */
  predicate TableReadable(img: seq<byte>) {
    HeaderOk(img, 4) && Word(img, ENTRY_SIZE_AT) == ENTRY_SIZE && TableInside(img)
  }

  function Entry(img: seq<byte>, i: nat): (e: seq<byte>)
    requires TableReadable(img) && i < EntryNum(img)
    ensures |e| == ENTRY_SIZE
  {
    var at := TableStart(img) + ENTRY_SIZE * i;
    img[at..at + ENTRY_SIZE]
  }

  function Sizes(img: seq<byte>): (r: seq<nat>)
    requires TableReadable(img)
    ensures |r| == EntryNum(img)
  {
    seq(EntryNum(img), i requires 0 <= i < EntryNum(img) => Word(Entry(img, i), 0))
  }

  /** The bytes up to the first NUL. */
  function CString(b: seq<byte>): (r: seq<byte>) {
    if b == [] || b[0] == 0 then [] else [b[0]] + CString(b[1..])
  }

  function Name(descr: seq<byte>): (r: seq<byte>)
    requires |descr| == DESCR_SIZE
  {
    CString(descr[4..4 + NAME_SIZE])
  }

  // ----- Parsing

  /** Sections lie within the image and the fragments make up the ramdisk exactly. */
  predicate Parsable(img: seq<byte>) {
    && TableReadable(img) && RoundsExactly(img)
    && var l := LayoutOf(img);
    && l.o >= V4_HEADER_SIZE
    && l.o + l.p + l.q + l.r + l.s <= |img|
    && ENTRY_SIZE * EntryNum(img) <= l.r
    && Sum(Sizes(img)) == Word(img, RAMDISK_SIZE_AT) <= l.p
  }

  function FragmentStart(img: seq<byte>, i: nat): (r: int)
    requires Parsable(img) && i <= EntryNum(img)
    ensures 0 <= r <= LayoutOf(img).o + LayoutOf(img).p
  {
    SumMonotone(Sizes(img), i);
    LayoutOf(img).o + Sum(Sizes(img)[..i])
  }

  function FragmentAt(img: seq<byte>, i: nat): (f: Fragment)
    requires Parsable(img) && i < EntryNum(img)
    ensures |f.descr| == DESCR_SIZE && |f.data| == Sizes(img)[i]
  {
    assert Sizes(img)[..i + 1][..i] == Sizes(img)[..i];
    Fragment(Entry(img, i)[8..], img[FragmentStart(img, i)..FragmentStart(img, i + 1)])
  }

  function Fragments(img: seq<byte>): (fs: seq<Fragment>)
    requires Parsable(img)
    ensures |fs| == EntryNum(img)
    ensures forall i :: 0 <= i < |fs| ==> fs[i] == FragmentAt(img, i)
  {
    seq(EntryNum(img), i requires 0 <= i < EntryNum(img) => FragmentAt(img, i))
  }

  function Parse(img: seq<byte>): (v: VendorBoot)
    requires Parsable(img)
  {
    var l := LayoutOf(img);
    var t := TableStart(img);
    VendorBoot(
      PutWord(img[..l.o], RAMDISK_SIZE_AT, 0),
      Fragments(img),
      img[l.o + l.p..t],
      img[t + ENTRY_SIZE * EntryNum(img)..t + l.r],
      img[t + l.r..t + l.r + l.s],
      Footer(img),
      |img|)
  }

  // ----- Rendering

  function DataSizes(fs: seq<Fragment>): (r: seq<nat>)
    ensures |r| == |fs|
  {
    seq(|fs|, i requires 0 <= i < |fs| => |fs[i].data|)
  }

  /** All fragment data in order. */
  function Ramdisk(fs: seq<Fragment>): (r: seq<byte>)
    ensures |r| == Sum(DataSizes(fs))
  {
    if fs == [] then []
    else
      assert DataSizes(fs)[..|fs| - 1] == DataSizes(fs[..|fs| - 1]);
      Ramdisk(fs[..|fs| - 1]) + fs[|fs| - 1].data
  }

  function EntryBytes(size: int, offset: int, descr: seq<byte>): (e: seq<byte>)
    requires |descr| == DESCR_SIZE
    ensures |e| == ENTRY_SIZE
  {
    LittleEndian32(size) + LittleEndian32(offset) + descr
  }

  predicate DescrsOk(fs: seq<Fragment>) {
    forall i :: 0 <= i < |fs| ==> |fs[i].descr| == DESCR_SIZE
  }

  /** The table entries; the offset of each fragment is the total size of those before it. */
  function Table(fs: seq<Fragment>): (t: seq<byte>)
    requires DescrsOk(fs)
    ensures |t| == ENTRY_SIZE * |fs|
  {
    if fs == [] then []
    else
      var front := fs[..|fs| - 1];
      var last := fs[|fs| - 1];
      Table(front) + EntryBytes(|last.data|, |Ramdisk(front)|, last.descr)
  }

  function PadToPage(data: seq<byte>, pageSize: int): (r: seq<byte>)
    requires 0 < pageSize < U32 && |data| + pageSize - 1 < U32
  {
    RoundUpExact(|data|, pageSize);
    data + Zeros(RoundUp32(|data|, pageSize) - |data|)
  }

  /** The header is a version 4 header whose recorded section sizes are those of the value. */
  predicate HeaderFits(v: VendorBoot) {
    && HeaderOk(v.header, 4)
    && var page := Word(v.header, PAGE_SIZE_AT);
    && RoundUp32(V4_HEADER_SIZE, page) == |v.header|
    && Word(v.header, RAMDISK_SIZE_AT) == 0
    && Word(v.header, ENTRY_SIZE_AT) == ENTRY_SIZE && Word(v.header, ENTRY_NUM_AT) == |v.fragments|
    && RoundUp32(Word(v.header, DTB_SIZE_AT), page) == |v.dtb|
    && RoundUp32(Word(v.header, TABLE_SIZE_AT), page) == ENTRY_SIZE * |v.fragments| + |v.tableRest|
    && RoundUp32(Word(v.header, BOOTCONFIG_SIZE_AT), page) == |v.bootconfig|
  }

  predicate Renderable(v: VendorBoot) {
    && HeaderFits(v) && DescrsOk(v.fragments)
    && |Ramdisk(v.fragments)| <= v.size && v.size + Word(v.header, PAGE_SIZE_AT) <= U32
    && |Content(v)| <= v.size
    && FooterOk(v.footer)
  }

  function Content(v: VendorBoot): (c: seq<byte>)
    requires HeaderFits(v) && DescrsOk(v.fragments)
    requires |Ramdisk(v.fragments)| + Word(v.header, PAGE_SIZE_AT) <= U32
  {
    var ramdisk := Ramdisk(v.fragments);
    PutWord(v.header, RAMDISK_SIZE_AT, |ramdisk|)
    + PadToPage(ramdisk, Word(v.header, PAGE_SIZE_AT))
    + v.dtb + Table(v.fragments) + v.tableRest + v.bootconfig
  }

  function Render(v: VendorBoot): (img: seq<byte>)
    requires Renderable(v)
    ensures |img| == v.size
  {
    Finish(Content(v), v.size, v.footer)
  }
}
