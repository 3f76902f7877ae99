/** What replacing a ramdisk fragment means for the image, and for repeated replacement. */
module VendorBootTheorems {
  import opened Bytes
  import opened VendorBootFormat
  import opened VendorBootImage
  import opened VendorBootRoundTrip
  import opened VendorBootFragment

  /** The image after a successful replacement. */
  ghost function Replaced(img: seq<byte>, name: seq<byte>, ramdisk: seq<byte>, at: nat): (out: seq<byte>)
    requires Replaceable(img, name, ramdisk, at)
  {
    ReplaceableRenderable(img, name, ramdisk, at);
    Render(Updated(Parse(img), at, ramdisk))
  }

  lemma ReplaceableRenderable(img: seq<byte>, name: seq<byte>, ramdisk: seq<byte>, at: nat)
    requires Replaceable(img, name, ramdisk, at)
    ensures Renderable(Updated(Parse(img), at, ramdisk))
  {
    hide LayoutOf, HeaderFits, HeaderOk, Word, RoundUp32, Sum, Sizes, Content;
    UpdatedRenderable(img, at, ramdisk);
  }

  ghost function ContentAfter(img: seq<byte>, name: seq<byte>, ramdisk: seq<byte>, at: nat): (c: seq<byte>)
    requires Replaceable(img, name, ramdisk, at)
    ensures |c| <= |img|
  {
    ReplaceableRenderable(img, name, ramdisk, at);
    Content(Updated(Parse(img), at, ramdisk))
  }

  /** The new content does not collide with the footer. */
  ghost predicate ClearOfFooter(img: seq<byte>, name: seq<byte>, ramdisk: seq<byte>, at: nat)
    requires Replaceable(img, name, ramdisk, at)
  {
    FooterClear(ContentAfter(img, name, ramdisk, at), |img|, Footer(img))
  }

  lemma ParsedShape(img: seq<byte>)
    requires Parsable(img)
    ensures var v := Parse(img);
            && |v.fragments| == EntryNum(img) && DescrsOk(v.fragments)
            && v.size == |img| && v.footer == Footer(img) && HeaderOk(img, 3)
  {
    hide LayoutOf, Word, RoundUp32, Sum, FragmentStart, Footer;
  }

  lemma FooterAfter(img: seq<byte>, name: seq<byte>, ramdisk: seq<byte>, at: nat)
    requires Replaceable(img, name, ramdisk, at)
    ensures var v := Updated(Parse(img), at, ramdisk);
            && Renderable(v) && v.size == |img| && v.footer == Footer(img) && FooterOk(Footer(img))
            && Footer(Replaced(img, name, ramdisk, at))
               == if Footer(img).Some? then Footer(img) else Footer(Plain(Content(v), |img|))
  {
    hide LayoutOf, HeaderFits, HeaderOk, Word, RoundUp32, Sum, Content, Ramdisk, FragmentAt, Plain, Finish, Parsable;
    ReplaceableRenderable(img, name, ramdisk, at);
    var v := Updated(Parse(img), at, ramdisk);
    RoomForFooter(v);
    FinishFooter(Content(v), v.size, v.footer);
  }

  /** The end of the content after a replacement, as the footer leaves it. */
  ghost function TailAfter(v: VendorBoot): (t: seq<byte>)
    requires Renderable(v) && v.fragments != []
    ensures |t| == |Tail(v)|
  {
    Spoiled(Tail(v), Overlap(|Content(v)|, v.size), v.footer)
  }

  /** The result of a replacement always parses; its content is that of the value as spoiled. */
  lemma ReplacedContent(img: seq<byte>, name: seq<byte>, ramdisk: seq<byte>, at: nat)
    requires Replaceable(img, name, ramdisk, at)
    ensures var v := Updated(Parse(img), at, ramdisk);
            && Renderable(v) && v.fragments != []
            && var w := WithTail(v, TailAfter(v));
            var out := Replaced(img, name, ramdisk, at);
            && Renderable(w) && Content(w) <= out && |out| == w.size == |img|
            && Parsable(out) && Parse(out) == w.(footer := Footer(out))
  {
    hide LayoutOf, HeaderFits, HeaderOk, Word, RoundUp32, Sum, Content, Ramdisk, FragmentAt, Footer, Plain, Finish,
         Parsable;
    var v := Updated(Parse(img), at, ramdisk);
    ReplaceableRenderable(img, name, ramdisk, at);
    RoomForFooter(v);
    ParseRenderSpoiled(v);
    ContentWithTail(v, TailAfter(v));
    FinishSpoils(Body(v), Tail(v), v.size, v.footer);
    SameSize(v, TailAfter(v));
  }

  /**
   The new image has the same length and parses; the header records the total size of the
   fragments and the table offsets are exact prefix sums of the sizes. It means the same,
   fragments, names, types, board ids, DTB, bootconfig and footer, except that the named
   fragment holds the new data, exactly when the content does not collide with the footer.
   */
  lemma MeaningPreserved(img: seq<byte>, name: seq<byte>, ramdisk: seq<byte>, at: nat)
    requires Replaceable(img, name, ramdisk, at)
    ensures var out := Replaced(img, name, ramdisk, at);
            && |out| == |img| && Parsable(out)
            && (Parse(out) == Updated(Parse(img), at, ramdisk) <==> ClearOfFooter(img, name, ramdisk, at))
            && Word(out, RAMDISK_SIZE_AT) == Sum(Sizes(out))
            && (forall i :: 0 <= i < EntryNum(out) ==> Word(Entry(out, i), 4) == Sum(Sizes(out)[..i]))
  {
    hide LayoutOf, HeaderFits, HeaderOk, Word, RoundUp32, Sum, Content, Ramdisk, FragmentAt, Footer, Plain, Parse,
         WithTail,
         Render, FooterClear, Sizes, Entry, Updated;
    ParsedShape(img);
    var v := Updated(Parse(img), at, ramdisk);
    FooterAfter(img, name, ramdisk, at);
    ReplacedContent(img, name, ramdisk, at);
    ParseRender(v);
    var w := WithTail(v, TailAfter(v));
    var out := Render(v);
    ReadSizes(w, out);
    forall i | 0 <= i < EntryNum(out)
      ensures Word(Entry(out, i), 4) == Sum(Sizes(out)[..i])
    {
      ReadEntryFields(w, out, i);
      PrefixSum(w.fragments, i);
    }
  }

  /**
   Where the new content ends, and with what: the last 64 bytes of the old content. This
   says of the old image whether the new content collides.
   */
  lemma NewContentEnd(img: seq<byte>, name: seq<byte>, ramdisk: seq<byte>, at: nat)
    requires Replaceable(img, name, ramdisk, at)
    ensures var c := ContentAfter(img, name, ramdisk, at);
            var l := LayoutOf(img);
            var end := TableStart(img) + l.r + l.s;
            && |c| == l.o + NewP(img, at, ramdisk) + l.q + l.r + l.s
            && AVB_FOOTER_SIZE <= |c| && AVB_FOOTER_SIZE <= end <= |img|
            && c[|c| - AVB_FOOTER_SIZE..] == img[end - AVB_FOOTER_SIZE..end]
  {
    hide LayoutOf, HeaderFits, HeaderOk, Word, RoundUp32, Sum, Content, Ramdisk, Parsable, Parse, Updated, TableStart,
         Tail,
         Body, Render, AllFits, NewP, NewSizes;
    ReplaceableRenderable(img, name, ramdisk, at);
    ParsedShape(img);
    TailKept(img, at, ramdisk, ramdisk);
    var v := Updated(Parse(img), at, ramdisk);
    ContentWithTail(v, Tail(v));
    ContentLength(img, name, ramdisk, at);
    OldTail(img);
    VersionFour(img);
    var c, tail := Content(v), Tail(v);
    var end := TableStart(img) + LayoutOf(img).r + LayoutOf(img).s;
    assert c[|c| - AVB_FOOTER_SIZE..] == tail[|tail| - AVB_FOOTER_SIZE..];
    SliceSlice(img, end - |tail|, end, |tail| - AVB_FOOTER_SIZE, |tail|);
  }

  lemma ContentLength(img: seq<byte>, name: seq<byte>, ramdisk: seq<byte>, at: nat)
    requires Replaceable(img, name, ramdisk, at)
    ensures var l := LayoutOf(img);
            |ContentAfter(img, name, ramdisk, at)| == l.o + NewP(img, at, ramdisk) + l.q + l.r + l.s
  {
    hide LayoutOf, HeaderFits, HeaderOk, Word, RoundUp32, Sum, Content, Ramdisk, Parse, Updated, Front, NewTable,
         NewP, NewSizes;
    ContentIsRendered(img, at, ramdisk);
    FrontLength(img, at, ramdisk);
    VersionFour(img);
  }

  lemma OldTail(img: seq<byte>)
    requires Parsable(img) && EntryNum(img) > 0
    ensures var v := Parse(img);
            var end := TableStart(img) + LayoutOf(img).r + LayoutOf(img).s;
            && v.fragments != [] && DescrsOk(v.fragments) && |Tail(v)| <= end <= |img|
            && Tail(v) == img[end - |Tail(v)|..end]
  {
    hide LayoutOf, HeaderOk, Word, Parse, TableStart, Parsable, Footer, EntryNum;
    ParsedTail(img);
    LastBoardId(img);
    ParsedShape(img);
    var n := EntryNum(img);
    var t, r, s := TableStart(img), LayoutOf(img).r, LayoutOf(img).s;
    var e := t + ENTRY_SIZE * n;
    JoinSlices(img, e - AVB_FOOTER_SIZE, e, t + r, t + r + s);
  }

  lemma ParsedTail(img: seq<byte>)
    requires Parsable(img)
    ensures HeaderOk(img, 3) && HeaderOk(img, 4)
    ensures var t, r, s := TableStart(img), LayoutOf(img).r, LayoutOf(img).s;
            var e := t + ENTRY_SIZE * EntryNum(img);
            && 0 <= t <= e <= t + r <= t + r + s <= |img|
            && Parse(img).tableRest == img[e..t + r] && Parse(img).bootconfig == img[t + r..t + r + s]
  {
    hide Word, RoundUp32, Sum, FragmentStart, Sizes, Footer, PutWord;
  }

  lemma LastBoardId(img: seq<byte>)
    requires Parsable(img) && EntryNum(img) > 0
    ensures var n := EntryNum(img);
            var e := TableStart(img) + ENTRY_SIZE * n;
            && AVB_FOOTER_SIZE <= e <= |img|
            && Parse(img).fragments[n - 1].descr[BOARD_ID_AT..] == img[e - AVB_FOOTER_SIZE..e]
  {
    hide LayoutOf, HeaderOk, Word, RoundUp32, Sum, FragmentStart, Sizes, Footer, PutWord, TableStart;
    StartsInside(img);
    var n := EntryNum(img);
    var e := TableStart(img) + ENTRY_SIZE * n;
    SliceSlice(img, e - ENTRY_SIZE, e, 8 + BOARD_ID_AT, ENTRY_SIZE);
    assert Entry(img, n - 1)[8..][BOARD_ID_AT..] == Entry(img, n - 1)[8 + BOARD_ID_AT..ENTRY_SIZE];
  }

  lemma StartsInside(img: seq<byte>)
    requires HeaderOk(img, 4)
    ensures TableStart(img) >= 0
  {
  }

  lemma JoinSlices(img: seq<byte>, a: nat, b: nat, c: nat, d: nat)
    requires a <= b <= c <= d <= |img|
    ensures img[a..b] + img[b..c] + img[c..d] == img[a..d]
  {
  }

  /** In a table with exact offsets, reading a fragment at its offset gives its data. */
  lemma ReadByOffset(img: seq<byte>, i: nat)
    requires Parsable(img) && i < EntryNum(img) && Word(Entry(img, i), 4) == Sum(Sizes(img)[..i])
    ensures var at := LayoutOf(img).o + Word(Entry(img, i), 4);
            && at + Word(Entry(img, i), 0) <= |img|
            && img[at..at + Word(Entry(img, i), 0)] == Parse(img).fragments[i].data
  {
    hide LayoutOf, HeaderOk, Word, RoundUp32;
    SumStep(Sizes(img), i);
    PrefixInside(img, i + 1);
  }

  lemma SameNames(img: seq<byte>, name: seq<byte>, ramdisk: seq<byte>, at: nat, i: nat)
    requires Replaceable(img, name, ramdisk, at)
    requires i < EntryNum(img)
    ensures var out := Replaced(img, name, ramdisk, at);
            && Parsable(out) && EntryNum(out) == EntryNum(img)
            && (HasName(out, i, name) <==> HasName(img, i, name))
  {
    hide LayoutOf, HeaderFits, HeaderOk, RoundUp32, Sum, Content, Word, Footer, Parse, Updated, WithTail, Tail,
         Overlap, Spoiled,
         HasName, AllFits, Entry, Body;
    ReplacedContent(img, name, ramdisk, at);
    var out := Replaced(img, name, ramdisk, at);
    var v := Parse(img);
    ParsedShape(img);
    ParsedShape(out);
    TailKept(img, at, ramdisk, ramdisk);
    DescrKept(v, at, ramdisk, TailAfter(Updated(v, at, ramdisk)), i);
    NameParsed(img, i, name);
    NameParsed(out, i, name);
  }

  lemma NameParsed(img: seq<byte>, i: nat, name: seq<byte>)
    requires Parsable(img) && i < EntryNum(img)
    ensures |Parse(img).fragments| == EntryNum(img) && |Parse(img).fragments[i].descr| == DESCR_SIZE
    ensures HasName(img, i, name) <==> Name(Parse(img).fragments[i].descr) == name
  {
    hide LayoutOf, HeaderOk, Word, RoundUp32, Sum, FragmentStart, Footer, CString;
  }

  /** Only the last board id can change. */
  lemma DescrKept(v: VendorBoot, at: nat, data: seq<byte>, tail: seq<byte>, i: nat)
    requires v.fragments != [] && DescrsOk(v.fragments) && at < |v.fragments| && i < |v.fragments|
    requires |tail| == |Tail(Updated(v, at, data))|
    ensures |WithTail(Updated(v, at, data), tail).fragments| == |v.fragments|
    ensures Name(WithTail(Updated(v, at, data), tail).fragments[i].descr) == Name(v.fragments[i].descr)
  {
    hide CString;
    var was := v.fragments[i].descr;
    var now := WithTail(Updated(v, at, data), tail).fragments[i].descr;
    assert now[..BOARD_ID_AT] == was[..BOARD_ID_AT];
    assert now[4..4 + NAME_SIZE] == now[..BOARD_ID_AT][4..] && was[4..4 + NAME_SIZE] == was[..BOARD_ID_AT][4..];
  }

  /** A replacement leaves the layout as it was, except for the ramdisk section. */
  lemma SameLayout(img: seq<byte>, name: seq<byte>, ramdisk: seq<byte>, at: nat)
    requires Replaceable(img, name, ramdisk, at)
    ensures var out := Replaced(img, name, ramdisk, at);
            && HeaderOk(out, 4) && TableReadable(out)
            && LayoutOf(out) == LayoutOf(img).(p := LayoutOf(out).p)
            && Word(out, PAGE_SIZE_AT) == Word(img, PAGE_SIZE_AT)
            && Sizes(out) == NewSizes(img, at, ramdisk)
  {
    hide LayoutOf, HeaderFits, HeaderOk, Word, RoundUp32, Sum, Content, Ramdisk, FragmentAt, Footer, Spoiled, Overlap;
    ReplacedContent(img, name, ramdisk, at);
    var v := Updated(Parse(img), at, ramdisk);
    var w := WithTail(v, TailAfter(v));
    var out := Replaced(img, name, ramdisk, at);
    ReadLayout(w, out);
    ReadSizes(w, out);
    UpdatedSizes(img, at, ramdisk);
    SamePageSize(w, out);
    HeaderOfParsed(img);
    VersionFour(img);
    assert DataSizes(w.fragments) == DataSizes(v.fragments);
  }

  /** Exchanging data and exchanging the end of the content do not disturb each other. */
  lemma UpdateWithTail(v: VendorBoot, tail: seq<byte>, footer: Option<seq<byte>>, at: nat, x: seq<byte>, y: seq<byte>)
    requires v.fragments != [] && DescrsOk(v.fragments) && |tail| == |Tail(v)| && at < |v.fragments|
    ensures |Tail(Updated(v, at, x))| == |Tail(Updated(v, at, y))| == |tail|
    ensures Updated(WithTail(Updated(v, at, x), tail).(footer := footer), at, y)
            == WithTail(Updated(v, at, y), tail).(footer := footer)
  {
    assert Updated(WithTail(Updated(v, at, x), tail), at, y).fragments == WithTail(Updated(v, at, y), tail).fragments;
  }

  lemma RenderWithFooter(v: VendorBoot, footer: Option<seq<byte>>)
    requires Renderable(v) && FooterOk(footer) && AVB_FOOTER_SIZE <= v.size
    ensures Renderable(v.(footer := footer)) && Render(v.(footer := footer)) == Finish(Content(v), v.size, footer)
  {
    hide HeaderFits, Ramdisk, Table, Word, RoundUp32, PutWord;
    assert HeaderFits(v.(footer := footer)) by { FitsWithFooter(v, footer); }
  }

  lemma FitsWithFooter(v: VendorBoot, footer: Option<seq<byte>>)
    requires HeaderFits(v)
    ensures HeaderFits(v.(footer := footer))
  {
  }

  /** A second replacement is of the same fragment, and possible on the first image as well. */
  lemma ReplaceableAgain(img: seq<byte>, name: seq<byte>, x: seq<byte>, y: seq<byte>, at: nat, again: nat)
    requires Replaceable(img, name, x, at) && Replaceable(Replaced(img, name, x, at), name, y, again)
    ensures again == at && Replaceable(img, name, y, at)
  {
    hide LayoutOf, HeaderFits, HeaderOk, Word, RoundUp32, Sum, Content, Ramdisk, Parsable, Render, HasName, Sizes;
    var out := Replaced(img, name, x, at);
    SameLayout(img, name, x, at);
    SameNames(img, name, x, at, at);
    assert again == at;
    assert NewSizes(out, at, y) == NewSizes(img, at, y);
  }

  /** The end of the content does not depend on the data. */
  lemma TailKept(img: seq<byte>, at: nat, x: seq<byte>, y: seq<byte>)
    requires Parsable(img) && at < EntryNum(img)
    ensures var v := Parse(img);
            && v.fragments != [] && DescrsOk(v.fragments) && at < |v.fragments|
            && Updated(v, at, x).fragments != [] && DescrsOk(Updated(v, at, x).fragments)
            && Updated(v, at, y).fragments != [] && DescrsOk(Updated(v, at, y).fragments)
            && Tail(Updated(v, at, x)) == Tail(Updated(v, at, y)) == Tail(v)
  {
    hide LayoutOf, HeaderOk, Word, RoundUp32, Sum, FragmentStart;
  }

  /** What the collision of the first replacement did is undone by the second. */
  ghost predicate LossUndone(img: seq<byte>, name: seq<byte>, x: seq<byte>, y: seq<byte>, at: nat)
    requires Replaceable(img, name, x, at) && Replaceable(img, name, y, at)
  {
    ReplaceableRenderable(img, name, x, at);
    ReplaceableRenderable(img, name, y, at);
    ReplacedContent(img, name, x, at);
    var vx, vy := Updated(Parse(img), at, x), Updated(Parse(img), at, y);
    RoomForFooter(vx);
    Recovers(Content(vx), Content(vy), Tail(vx), |img|, Footer(img))
  }

  /**
   Last write wins: if the fragment is replaced by `x` and the result again by `y`, the
   outcome is byte for byte the image obtained by replacing with `y` at once, exactly when
   the first replacement lost nothing at the footer that the second does not cover.
   */
  lemma LastWriteWins(img: seq<byte>, name: seq<byte>, x: seq<byte>, y: seq<byte>, at: nat, again: nat)
    requires Replaceable(img, name, x, at)
    requires Replaceable(Replaced(img, name, x, at), name, y, again)
    ensures again == at && Replaceable(img, name, y, at)
    ensures Replaced(Replaced(img, name, x, at), name, y, again) == Replaced(img, name, y, at)
            <==> LossUndone(img, name, x, y, at)
    ensures ClearOfFooter(img, name, x, at) ==> LossUndone(img, name, x, y, at)
  {
    hide LayoutOf, HeaderFits, HeaderOk, Word, RoundUp32, Sum, Content, Ramdisk, Parsable, FragmentAt, HasName,
         Sizes, Footer, Plain, Finish, Spoiled, Overlap, WithTail, Updated, Tail, Recovers, FooterClear, Body, Parse,
         AllFits;
    ReplaceableAgain(img, name, x, y, at, again);
    ReplacedContent(img, name, x, at);
    ReplacedContent(img, name, y, at);
    var v := Parse(img);
    TailKept(img, at, x, y);
    var vx, vy := Updated(v, at, x), Updated(v, at, y);
    var tail := TailAfter(vx);
    FooterAfter(img, name, x, at);
    FooterAfter(img, name, y, at);
    RoomForFooter(vx);
    ContentWithTail(vx, tail);
    SecondRender(img, name, x, y, at);
    ContentWithTail(vy, tail);
    FinishAgain(Content(vx), Body(vy), Tail(vy), |img|, Footer(img));
    if ClearOfFooter(img, name, x, at) {
      ClearRecovers(Body(vx), Content(vy), Tail(vx), |img|, Footer(img));
    }
  }

  lemma SecondRender(img: seq<byte>, name: seq<byte>, x: seq<byte>, y: seq<byte>, at: nat)
    requires Replaceable(img, name, x, at) && Replaceable(img, name, y, at)
    requires Replaceable(Replaced(img, name, x, at), name, y, at)
    ensures var vx, vy := Updated(Parse(img), at, x), Updated(Parse(img), at, y);
            var out := Replaced(img, name, x, at);
            && Renderable(vx) && Renderable(vy) && vx.fragments != [] && vy.fragments != []
            && |Tail(vy)| == |Tail(vx)| && AVB_FOOTER_SIZE <= |img| && |Body(vy) + TailAfter(vx)| <= |img|
            && Replaced(out, name, y, at) == Finish(Body(vy) + TailAfter(vx), |img|, Footer(out))
  {
    hide LayoutOf, HeaderFits, HeaderOk, Word, RoundUp32, Sum, Content, Ramdisk, Parsable, FragmentAt, HasName,
         Sizes, Footer, Plain, Finish, Spoiled, Overlap, WithTail, Updated, Tail, Recovers, FooterClear, Body, Parse,
         AllFits, Render;
    ReplacedContent(img, name, x, at);
    ReplacedContent(img, name, y, at);
    TailKept(img, at, x, y);
    var v := Parse(img);
    var out := Replaced(img, name, x, at);
    var vx, vy := Updated(v, at, x), Updated(v, at, y);
    var tail := TailAfter(vx);
    FooterAfter(img, name, y, at);
    RoomForFooter(vy);
    UpdateWithTail(v, tail, Footer(out), at, x, y);
    ContentWithTail(vy, tail);
    SameSize(vy, tail);
    RenderWithFooter(WithTail(vy, tail), Footer(out));
  }
}
