/**
 Replacing one named ramdisk fragment of a version 4 vendor boot image. The method walks
 the image with the two-cursor buffer; its result is the image rendered from the parsed
 value with that fragment's data exchanged.
 */
module VendorBootFragment {
  import opened Bytes
  import opened VendorBootFormat
  import opened VendorBootImage
  import opened VendorBootRoundTrip
  import D = DataUpdater

  datatype Error =
    | HeaderTooSmall
    | UnknownVersion
    | BadMagic
    | ZeroPageSize
    | VersionTooLow
    | ImageTooSmall
    | TooManyEntries
    | NameNotFound
    | NameNotUnique
    | OutOfBounds
    | OffsetMismatch

  datatype Result<+T> = Ok(value: T) | Err(error: Error)

  method CheckHeader(img: seq<byte>, version: int) returns (e: Option<Error>)
    ensures e == None <==> HeaderOk(img, version)
  {
    if |img| < V3_HEADER_SIZE {
      return Some(HeaderTooSmall);
    }
    var found := Word(img, VERSION_AT);
    if found != 3 && found != 4 {
      return Some(UnknownVersion);
    }
    if |img| < HeaderSize(found) {
      return Some(HeaderTooSmall);
    }
    if img[..8] != VENDOR_BOOT_MAGIC {
      return Some(BadMagic);
    }
    if Word(img, PAGE_SIZE_AT) == 0 {
      return Some(ZeroPageSize);
    }
    if found < version {
      return Some(VersionTooLow);
    }
    return None;
  }

  predicate HasName(img: seq<byte>, i: nat, name: seq<byte>)
    requires TableReadable(img) && i < EntryNum(img)
  {
    Name(Entry(img, i)[8..]) == name
  }

  predicate IsUniqueIndex(img: seq<byte>, name: seq<byte>, i: nat)
    requires TableReadable(img)
  {
    && i < EntryNum(img) && HasName(img, i, name)
    && (forall j :: 0 <= j < EntryNum(img) && HasName(img, j, name) ==> j == i)
  }

  /** Finds the one entry with a name; none or several are errors. */
  method FindUniqueRamdisk(img: seq<byte>, name: seq<byte>) returns (r: Result<nat>)
    requires TableReadable(img)
    ensures r.Ok? ==> IsUniqueIndex(img, name, r.value)
    ensures r.Err? ==> !exists i: nat :: IsUniqueIndex(img, name, i)
    ensures r == Err(NameNotFound) <==> forall i :: 0 <= i < EntryNum(img) ==> !HasName(img, i, name)
  {
    var found: Option<nat> := None;
    for i := 0 to EntryNum(img)
      invariant found.Some? ==> found.value < i && HasName(img, found.value, name)
      invariant forall j :: 0 <= j < i && HasName(img, j, name) ==> found == Some(j)
    {
      if HasName(img, i, name) {
        if found.Some? {
          assert HasName(img, found.value, name);
          return Err(NameNotUnique);
        }
        found := Some(i);
      }
    }
    return if found.Some? then Ok(found.value) else Err(NameNotFound);
  }

  // ----- What the copying loops produce

  function NewSizes(img: seq<byte>, at: nat, ramdisk: seq<byte>): (r: seq<nat>)
    requires TableReadable(img) && at < EntryNum(img)
    ensures |r| == EntryNum(img)
  {
    Sizes(img)[at := |ramdisk|]
  }

  /** Old fragment `i`, delimited by the sizes of the fragments before it. */
  function OldPiece(img: seq<byte>, i: nat): (r: seq<byte>)
    requires TableReadable(img) && i < EntryNum(img)
    requires LayoutOf(img).o + Sum(Sizes(img)[..i + 1]) <= |img|
    ensures |r| == Sizes(img)[i]
  {
    assert Sizes(img)[..i + 1][..i] == Sizes(img)[..i];
    img[LayoutOf(img).o + Sum(Sizes(img)[..i])..LayoutOf(img).o + Sum(Sizes(img)[..i + 1])]
  }

  /** The first `n` fragments, with fragment `at` exchanged. */
  function NewPieces(img: seq<byte>, at: nat, ramdisk: seq<byte>, n: nat): (r: seq<byte>)
    requires TableReadable(img) && n <= EntryNum(img)
    requires LayoutOf(img).o + Sum(Sizes(img)[..n]) <= |img|
  {
    if n == 0 then []
    else
      assert Sizes(img)[..n][..n - 1] == Sizes(img)[..n - 1];
      NewPieces(img, at, ramdisk, n - 1) + if n - 1 == at then ramdisk else OldPiece(img, n - 1)
  }

  /** The first `n` table entries, resized at `at` and with offsets that are prefix sums. */
  function NewTable(img: seq<byte>, at: nat, ramdisk: seq<byte>, n: nat): (t: seq<byte>)
    requires TableReadable(img) && at < EntryNum(img) && n <= EntryNum(img)
    ensures |t| == ENTRY_SIZE * n
  {
    if n == 0 then []
    else
      var sizes := NewSizes(img, at, ramdisk);
      NewTable(img, at, ramdisk, n - 1)
      + EntryBytes(sizes[n - 1], Sum(sizes[..n - 1]), Entry(img, n - 1)[8..])
  }

  lemma SumStep(sizes: seq<nat>, i: nat)
    requires i < |sizes|
    ensures Sum(sizes[..i + 1]) == Sum(sizes[..i]) + sizes[i] <= Sum(sizes)
  {
    assert sizes[..i + 1][..i] == sizes[..i];
    SumMonotone(sizes, i + 1);
  }

  // ----- The copying loops

  /** Where the walk over the fragments stands after `n` of them. */
  ghost predicate FragmentsCopied(u: D.DataUpdater, img: seq<byte>, at: nat, ramdisk: seq<byte>, n: nat,
                                  before: seq<byte>)
    requires TableReadable(img) && at < EntryNum(img) && n <= EntryNum(img)
    reads u
  {
    && u.Clean() && u.oldData == img
    && u.newPos == |before| + Sum(NewSizes(img, at, ramdisk)[..n])
    && u.oldPos == LayoutOf(img).o + Sum(Sizes(img)[..n])
    && u.Written() == before + NewPieces(img, at, ramdisk, n)
  }

  method CopyFragment(u: D.DataUpdater, img: seq<byte>, at: nat, ramdisk: seq<byte>, i: nat,
                      ghost before: seq<byte>)
    returns (ok: bool, size: nat)
    requires TableReadable(img) && at < EntryNum(img) && i < EntryNum(img)
    requires FragmentsCopied(u, img, at, ramdisk, i, before)
    modifies u
    ensures u.Valid()
    ensures size == NewSizes(img, at, ramdisk)[i]
    ensures ok ==> FragmentsCopied(u, img, at, ramdisk, i + 1, before)
    ensures !ok ==>
              || LayoutOf(img).o + Sum(Sizes(img)) > |img|
              || |before| + Sum(NewSizes(img, at, ramdisk)) > |img|
  {
    hide LayoutOf, HeaderOk, TableStart, Word, Sum, D.Do;
    SumStep(Sizes(img), i);
    SumStep(NewSizes(img, at, ramdisk), i);
    var oldSize := Word(Entry(img, i), 0);
    assert oldSize == Sizes(img)[i];
    if i == at {
      ok := u.Replace(oldSize, ramdisk);
      size := |ramdisk|;
    } else {
      ok := u.Copy(oldSize);
      size := oldSize;
    }
    if ok {
      ghost var piece := if i == at then ramdisk else OldPiece(img, i);
      AppendAssoc(before, NewPieces(img, at, ramdisk, i), piece);
      assert NewPieces(img, at, ramdisk, i + 1) == NewPieces(img, at, ramdisk, i) + piece;
    }
  }

  method CopyFragments(u: D.DataUpdater, img: seq<byte>, at: nat, ramdisk: seq<byte>)
    returns (ok: bool, total: nat)
    requires TableReadable(img) && at < EntryNum(img)
    requires u.oldData == img && u.Clean() && u.oldPos == LayoutOf(img).o
    modifies u
    ensures u.Valid()
    ensures ok ==>
              && FragmentsCopied(u, img, at, ramdisk, EntryNum(img), old(u.Written()))
              && total == Sum(NewSizes(img, at, ramdisk))
    ensures !ok ==>
              || LayoutOf(img).o + Sum(Sizes(img)) > |img|
              || old(u.newPos) + Sum(NewSizes(img, at, ramdisk)) > |img|
  {
    hide LayoutOf, HeaderOk, TableStart, Word, D.Do;
    ghost var before := u.Written();
    ghost var sizes' := NewSizes(img, at, ramdisk);
    total := 0;
    var i := 0;
    var num := EntryNum(img);
    assert Sizes(img)[..0] == [] && sizes'[..0] == [];
    while i < num
      invariant 0 <= i <= num && total == Sum(sizes'[..i])
      invariant FragmentsCopied(u, img, at, ramdisk, i, before)
    {
      var size;
      ok, size := CopyFragment(u, img, at, ramdisk, i, before);
      if !ok {
        return;
      }
      SumStep(sizes', i);
      total := total + size;
      i := i + 1;
    }
    assert sizes'[..num] == sizes';
    ok := true;
  }

  /** Patching size and offset of a copied entry gives the new entry. */
  lemma PatchedEntry(before: seq<byte>, e: seq<byte>, size: int, offset: int)
    requires |e| == ENTRY_SIZE && 0 <= size < U32
    ensures var w := before + e;
            var moved := PutWord(w, |before| + 4, offset);
            && PutWord(moved, |before|, size) == before + EntryBytes(size, offset, e[8..])
            && (Word(e, 0) == size ==> moved == before + EntryBytes(size, offset, e[8..]))
  {
    var w := before + e;
    var moved := PutWord(w, |before| + 4, offset);
    assert e == e[0..4] + e[4..8] + e[8..];
    assert moved == before + (e[0..4] + LittleEndian32(offset) + e[8..]);
    LittleEndian32Write(e[0..4]);
  }

  ghost predicate EntriesCopied(u: D.DataUpdater, img: seq<byte>, at: nat, ramdisk: seq<byte>, n: nat,
                                before: seq<byte>)
    requires TableReadable(img) && at < EntryNum(img) && n <= EntryNum(img)
    reads u
  {
    && u.Clean() && u.oldData == img
    && u.oldPos == TableStart(img) + ENTRY_SIZE * n
    && u.newPos == |before| + ENTRY_SIZE * n
    && u.Written() == before + NewTable(img, at, ramdisk, n)
  }

  method CopyEntry(u: D.DataUpdater, img: seq<byte>, at: nat, ramdisk: seq<byte>, i: nat, total: nat,
                   ghost before: seq<byte>)
    returns (ok: bool, size: nat)
    requires TableReadable(img) && at < EntryNum(img) && i < EntryNum(img) && |ramdisk| < U32
    requires total == Sum(NewSizes(img, at, ramdisk)[..i])
    requires EntriesCopied(u, img, at, ramdisk, i, before)
    modifies u
    ensures u.Valid()
    ensures size == NewSizes(img, at, ramdisk)[i]
    ensures ok ==> EntriesCopied(u, img, at, ramdisk, i + 1, before)
    ensures !ok ==> |before| + ENTRY_SIZE * EntryNum(img) > |img|
  {
    hide LayoutOf, HeaderOk, Word, Sum, D.Do, EntryBytes, PutWord, TableStart, Overlay;
    ghost var sizes := NewSizes(img, at, ramdisk);
    ghost var w := u.Written();
    var entryAt := u.newPos;
    ok := u.Copy(ENTRY_SIZE);
    size := if i == at then |ramdisk| else Word(Entry(img, i), 0);
    assert size == sizes[i];
    if !ok {
      return;
    }
    PatchedEntry(w, Entry(img, i), size, total);
    PutWordIsOverlay(u.Written(), entryAt + 4, total);
    u.Patch(entryAt + 4, LittleEndian32(total));
    if i == at {
      PutWordIsOverlay(u.Written(), entryAt, size);
      u.Patch(entryAt, LittleEndian32(size));
    }
    AppendAssoc(before, NewTable(img, at, ramdisk, i), EntryBytes(size, total, Entry(img, i)[8..]));
  }

  lemma PutWordIsOverlay(b: seq<byte>, off: nat, v: int)
    requires off + 4 <= |b|
    ensures PutWord(b, off, v) == Overlay(b, off, LittleEndian32(v))
  {
  }

  method CopyTable(u: D.DataUpdater, img: seq<byte>, at: nat, ramdisk: seq<byte>) returns (ok: bool)
    requires TableReadable(img) && at < EntryNum(img) && |ramdisk| < U32
    requires u.oldData == img && u.Clean() && u.oldPos == TableStart(img)
    modifies u
    ensures u.Valid()
    ensures ok ==> EntriesCopied(u, img, at, ramdisk, EntryNum(img), old(u.Written()))
    ensures !ok ==> old(u.newPos) + ENTRY_SIZE * EntryNum(img) > |img|
  {
    hide LayoutOf, HeaderOk, Word, D.Do, EntryBytes, TableStart;
    ghost var before := u.Written();
    ghost var sizes := NewSizes(img, at, ramdisk);
    var total: nat, i := 0, 0;
    var num := EntryNum(img);
    assert sizes[..0] == [];
    while i < num
      invariant 0 <= i <= num && total == Sum(sizes[..i])
      invariant EntriesCopied(u, img, at, ramdisk, i, before)
    {
      var size;
      ok, size := CopyEntry(u, img, at, ramdisk, i, total, before);
      if !ok {
        return;
      }
      SumStep(sizes, i);
      total := total + size;
      i := i + 1;
    }
    ok := true;
  }

  /** Copies the footer, if there is one, to the end of the new buffer. */
  method CopyAvbFooter(u: D.DataUpdater)
    requires u.Clean()
    modifies u
    ensures u.newData == Finish(old(u.Written()), |u.oldData|, Footer(u.oldData))
  {
    ghost var content := u.Written();
    assert u.newData == content + Zeros(|u.oldData| - |content|);
    if |u.oldData| < AVB_FOOTER_SIZE {
      return;
    }
    var at := |u.oldData| - AVB_FOOTER_SIZE;
    var ok := u.Seek(at);
    if u.oldData[at..][..4] != AVB_FOOTER_MAGIC {
      return;
    }
    ok := u.Copy(AVB_FOOTER_SIZE);
    assert u.oldData[at..at + AVB_FOOTER_SIZE] == u.oldData[at..];
  }

  // ----- The whole rewrite

  function Sub32(a: int, b: int): (r: int)
    ensures 0 <= r < U32
  {
    (a - b) % U32
  }

  /** The table can be read, sizes within the image round without overflow, and the sections fit. */
  predicate Rewritable(img: seq<byte>) {
    && TableReadable(img) && RoundsExactly(img)
    && var l := LayoutOf(img);
       l.o + l.p + l.q + l.r + l.s <= |img|
  }

  /** The fragments make up the ramdisk exactly. */
  predicate SizesAddUp(img: seq<byte>)
    requires Rewritable(img)
  {
    Sum(Sizes(img)) == Word(img, RAMDISK_SIZE_AT) <= LayoutOf(img).p
  }

  /** The rounded size of the new ramdisk. */
  function NewP(img: seq<byte>, at: nat, ramdisk: seq<byte>): (r: int)
    requires Rewritable(img) && at < EntryNum(img) && Sum(NewSizes(img, at, ramdisk)) <= |img|
    ensures Sum(NewSizes(img, at, ramdisk)) <= r
  {
    RoundUpExact(Sum(NewSizes(img, at, ramdisk)), Word(img, PAGE_SIZE_AT));
    RoundUp32(Sum(NewSizes(img, at, ramdisk)), Word(img, PAGE_SIZE_AT))
  }

  /** Header, new ramdisk and DTB fit the image. */
  predicate FrontFits(img: seq<byte>, at: nat, ramdisk: seq<byte>)
    requires Rewritable(img) && at < EntryNum(img)
  {
    && Sum(NewSizes(img, at, ramdisk)) <= |img|
    && LayoutOf(img).o + NewP(img, at, ramdisk) + LayoutOf(img).q <= |img|
  }

  /** Header with the new ramdisk size, new ramdisk padded to a page, DTB. */
  function Front(img: seq<byte>, at: nat, ramdisk: seq<byte>): (r: seq<byte>)
    requires Rewritable(img) && at < EntryNum(img) && SizesAddUp(img) && FrontFits(img, at, ramdisk)
    requires LayoutOf(img).o >= V4_HEADER_SIZE
  {
    var l := LayoutOf(img);
    var total := Sum(NewSizes(img, at, ramdisk));
    assert Sizes(img)[..EntryNum(img)] == Sizes(img);
    PutWord(img[..l.o], RAMDISK_SIZE_AT, total)
    + NewPieces(img, at, ramdisk, EntryNum(img))
    + Zeros(NewP(img, at, ramdisk) - total)
    + img[l.o + l.p..l.o + l.p + l.q]
  }

  lemma HeaderSectionSize(img: seq<byte>)
    requires Rewritable(img)
    ensures HeaderOk(img, 3) && V4_HEADER_SIZE <= LayoutOf(img).o <= |img|
    ensures 0 < Word(img, PAGE_SIZE_AT) && |img| < U32
  {
    RoundUpExact(V4_HEADER_SIZE, Word(img, PAGE_SIZE_AT));
  }

  lemma PutWordInPrefix(a: seq<byte>, b: seq<byte>, off: nat, v: int)
    requires off + 4 <= |a|
    ensures PutWord(a + b, off, v) == PutWord(a, off, v) + b
  {
  }

  /** Copies the header and the fragments, exchanging one; sets the ramdisk size. */
  method RewriteFragments(u: D.DataUpdater, img: seq<byte>, at: nat, ramdisk: seq<byte>)
    returns (ok: bool, total: nat)
    requires Rewritable(img) && at < EntryNum(img)
    requires u.oldData == img && u.State() == D.Start(img)
    modifies u
    ensures u.Valid()
    ensures LayoutOf(img).o >= V4_HEADER_SIZE
    ensures ok ==>
              && u.Clean()
              && total == Sum(NewSizes(img, at, ramdisk)) && LayoutOf(img).o + total <= |img|
              && u.oldPos == LayoutOf(img).o + Sum(Sizes(img)) <= |img|
              && u.newPos == LayoutOf(img).o + total
              && Sizes(img)[..EntryNum(img)] == Sizes(img)
              && u.Written() == PutWord(img[..LayoutOf(img).o], RAMDISK_SIZE_AT, total)
                                + NewPieces(img, at, ramdisk, EntryNum(img))
    ensures !ok ==>
              || LayoutOf(img).o + Sum(Sizes(img)) > |img|
              || LayoutOf(img).o + Sum(NewSizes(img, at, ramdisk)) > |img|
  {
    hide LayoutOf, HeaderOk, TableStart, Word, D.Do, Sum, Sizes, NewPieces;
    HeaderSectionSize(img);
    var o := LayoutOf(img).o;
    assert u.Clean() && u.Written() == [];
    ok := u.Copy(o);
    assert ok && u.Written() == img[..o];
    ok, total := CopyFragments(u, img, at, ramdisk);
    if !ok {
      return;
    }
    assert Sizes(img)[..EntryNum(img)] == Sizes(img);
    assert NewSizes(img, at, ramdisk)[..EntryNum(img)] == NewSizes(img, at, ramdisk);
    PutWordInPrefix(img[..o], NewPieces(img, at, ramdisk, EntryNum(img)), RAMDISK_SIZE_AT, total);
    u.Patch(RAMDISK_SIZE_AT, LittleEndian32(total));
  }

  /** Padding by wrapped differences lands on the old boundary only if the old sizes add up. */
  lemma PadCheck(o: int, p: int, ramdiskSize: int, sum: int, newP: int, total: int, n: int)
    requires 0 <= o && 0 <= p && o + p <= n < U32 && 0 <= ramdiskSize < U32 && 0 <= sum
    requires 0 <= total <= newP < U32 && o + total <= n && o + sum <= n
    ensures Sub32(newP, total) == newP - total
    ensures o + newP <= n ==> (o + newP) % U32 == o + newP
    ensures var end := o + sum + Sub32(p, ramdiskSize);
            (end <= n && end == (o + p) % U32) <==> sum == ramdiskSize <= p
  {
  }

  /** Pads the ramdisk, checks both cursors, and copies the DTB. */
  method PadAndCopyDtb(u: D.DataUpdater, img: seq<byte>, total: nat, newP: int, ghost sum: nat)
    returns (ok: bool)
    requires Rewritable(img) && u.oldData == img && u.Clean()
    requires u.oldPos == LayoutOf(img).o + sum && u.newPos == LayoutOf(img).o + total && total <= newP < U32
    modifies u
    ensures u.Valid()
    ensures var l := LayoutOf(img);
            ok <==> sum == Word(img, RAMDISK_SIZE_AT) <= l.p && l.o + newP + l.q <= |img|
    ensures ok ==>
              var l := LayoutOf(img);
              && u.Clean() && u.oldPos == TableStart(img) && u.newPos == l.o + newP + l.q
              && u.Written() == old(u.Written()) + Zeros(newP - total) + img[l.o + l.p..l.o + l.p + l.q]
  {
    hide HeaderOk, LayoutOf, Word, RoundsExactly;
    HeaderSectionSize(img);
    SectionsNatural(img);
    var l := LayoutOf(img);
    ok := PadSection(u, l.o, l.p, l.q, Word(img, RAMDISK_SIZE_AT), total, newP, sum);
  }

  lemma SectionsNatural(img: seq<byte>)
    requires HeaderOk(img, 3)
    ensures var l := LayoutOf(img); l.o >= 0 && l.p >= 0 && l.q >= 0 && l.r >= 0 && l.s >= 0
    ensures 0 <= Word(img, RAMDISK_SIZE_AT) < U32
  {
  }

  /** Skips the padding of a section of rounded size `p`, checks both cursors, and copies what follows. */
  method PadSection(u: D.DataUpdater, o: nat, p: nat, q: nat, size: nat, total: nat, newP: nat, ghost sum: nat)
    returns (ok: bool)
    requires u.Clean() && u.oldPos == o + sum && u.newPos == o + total && total <= newP < U32
    requires o + p + q <= |u.oldData| < U32 && size < U32
    modifies u
    ensures u.Valid()
    ensures ok <==> sum == size <= p && o + newP + q <= |u.oldData|
    ensures ok ==>
              && u.Clean() && u.oldPos == o + p + q && u.newPos == o + newP + q
              && u.Written() == old(u.Written()) + Zeros(newP - total) + u.oldData[o + p..o + p + q]
  {
    hide D.Do, Sub32, Overlay;
    PadCheck(o, p, size, sum, newP, total, |u.oldData|);
    ok := u.Skip(Sub32(p, size), Sub32(newP, total));
    if !ok {
      return;
    }
    ok := u.CheckOffset((o + p) % U32, (o + newP) % U32);
    if !ok {
      return;
    }
    ok := u.Copy(q);
  }

  /** Header, fragments, padding and DTB. */
  method RewriteFront(u: D.DataUpdater, img: seq<byte>, at: nat, ramdisk: seq<byte>)
    returns (ok: bool)
    requires Rewritable(img) && at < EntryNum(img)
    requires u.oldData == img && u.State() == D.Start(img)
    modifies u
    ensures u.Valid()
    ensures ok <==> SizesAddUp(img) && FrontFits(img, at, ramdisk)
    ensures ok ==>
              var l := LayoutOf(img);
              && l.o >= V4_HEADER_SIZE
              && u.Clean() && u.oldPos == TableStart(img)
              && u.newPos == l.o + NewP(img, at, ramdisk) + l.q
              && u.Written() == Front(img, at, ramdisk)
  {
    hide HeaderOk, LayoutOf, D.Do, Sum, Sizes, NewPieces, Word, RoundUp32, PutWord;
    HeaderSectionSize(img);
    var total;
    ok, total := RewriteFragments(u, img, at, ramdisk);
    if !ok {
      return;
    }
    var newP := RoundUp32(total, Word(img, PAGE_SIZE_AT));
    assert newP == NewP(img, at, ramdisk);
    ok := PadAndCopyDtb(u, img, total, newP, Sum(Sizes(img)));
  }

  /** The new content: front, new table, rest of the table section, bootconfig. */
  function NewContent(img: seq<byte>, at: nat, ramdisk: seq<byte>): (r: seq<byte>)
    requires Rewritable(img) && at < EntryNum(img) && SizesAddUp(img) && FrontFits(img, at, ramdisk)
    requires LayoutOf(img).o >= V4_HEADER_SIZE && ENTRY_SIZE * EntryNum(img) <= LayoutOf(img).r
  {
    var l := LayoutOf(img);
    var t := TableStart(img);
    Front(img, at, ramdisk)
    + NewTable(img, at, ramdisk, EntryNum(img))
    + img[t + ENTRY_SIZE * EntryNum(img)..t + l.r]
    + img[t + l.r..t + l.r + l.s]
  }

  /** Everything fits the image again. */
  predicate AllFits(img: seq<byte>, at: nat, ramdisk: seq<byte>)
    requires Rewritable(img) && at < EntryNum(img)
  {
    var l := LayoutOf(img);
    && Sum(NewSizes(img, at, ramdisk)) <= |img|
    && l.o + NewP(img, at, ramdisk) + l.q + l.r + l.s <= |img|
  }

  /** Copies the table with its entries patched, the rest of its section, and the bootconfig. */
  method RewriteBack(u: D.DataUpdater, img: seq<byte>, at: nat, ramdisk: seq<byte>)
    returns (ok: bool)
    requires Rewritable(img) && at < EntryNum(img) && |ramdisk| < U32
    requires u.oldData == img && u.Clean() && u.oldPos == TableStart(img)
    modifies u
    ensures u.Valid()
    ensures ok <==>
              && ENTRY_SIZE * EntryNum(img) <= LayoutOf(img).r
              && old(u.newPos) + LayoutOf(img).r + LayoutOf(img).s <= |img|
    ensures ok ==>
              var l := LayoutOf(img);
              var t := TableStart(img);
              && u.Clean()
              && u.Written() == old(u.Written())
                                + NewTable(img, at, ramdisk, EntryNum(img))
                                + img[t + ENTRY_SIZE * EntryNum(img)..t + l.r]
                                + img[t + l.r..t + l.r + l.s]
  {
    hide HeaderOk, LayoutOf, D.Do, Sum, Sizes, Word, RoundUp32, NewTable, RoundsExactly, NewSizes;
    HeaderSectionSize(img);
    var l := LayoutOf(img);
    ok := CopyTable(u, img, at, ramdisk);
    if !ok {
      return;
    }
    ok := u.Copy(Sub32(l.r, ENTRY_SIZE * EntryNum(img)));
    if !ok {
      return;
    }
    // Both cursors are where they should be by construction; the source checks them here.
    ok := u.Copy(l.s);
  }

  /** The image whose fragment `at` is replaced. */
  function Updated(v: VendorBoot, at: nat, ramdisk: seq<byte>): (w: VendorBoot)
    requires at < |v.fragments|
  {
    v.(fragments := v.fragments[at := v.fragments[at].(data := ramdisk)])
  }

  /** The fragment named `name` is fragment `at`, and there is room for its new data. */
  ghost predicate Replaceable(img: seq<byte>, name: seq<byte>, ramdisk: seq<byte>, at: nat) {
    Parsable(img) && Rewritable(img) && IsUniqueIndex(img, name, at) && AllFits(img, at, ramdisk)
  }

  // ----- The rewritten bytes are the rendered value

  lemma UpdatedSizes(img: seq<byte>, at: nat, ramdisk: seq<byte>)
    requires Parsable(img) && at < EntryNum(img)
    ensures DataSizes(Updated(Parse(img), at, ramdisk).fragments) == NewSizes(img, at, ramdisk)
  {
  }

  lemma PrefixInside(img: seq<byte>, n: nat)
    requires Parsable(img) && n <= EntryNum(img)
    ensures LayoutOf(img).o + Sum(Sizes(img)[..n]) <= |img|
  {
    SumMonotone(Sizes(img), n);
  }

  lemma UpdatedFragment(img: seq<byte>, at: nat, ramdisk: seq<byte>, k: nat)
    requires Parsable(img) && at < EntryNum(img) && k < EntryNum(img)
    ensures LayoutOf(img).o + Sum(Sizes(img)[..k + 1]) <= |img|
    ensures Updated(Parse(img), at, ramdisk).fragments[k]
            == Fragment(Entry(img, k)[8..], if k == at then ramdisk else OldPiece(img, k))
  {
    hide LayoutOf, HeaderOk, Word;
    PrefixInside(img, k + 1);
  }

  lemma {:induction false} PiecesAreRamdisk(img: seq<byte>, at: nat, ramdisk: seq<byte>, fs: seq<Fragment>, n: nat)
    requires Parsable(img) && at < EntryNum(img) && n <= EntryNum(img)
    requires fs == Updated(Parse(img), at, ramdisk).fragments && |fs| == EntryNum(img)
    ensures LayoutOf(img).o + Sum(Sizes(img)[..n]) <= |img|
    ensures NewPieces(img, at, ramdisk, n) == Ramdisk(fs[..n])
  {
    hide LayoutOf, HeaderOk, Word, Parse, Updated, Sum, Sizes, OldPiece, FragmentAt, Parsable, TableReadable;
    PrefixInside(img, n);
    if n > 0 {
      PiecesAreRamdisk(img, at, ramdisk, fs, n - 1);
      UpdatedFragment(img, at, ramdisk, n - 1);
      assert fs[..n][..n - 1] == fs[..n - 1];
    }
  }

  lemma {:induction false} TableIsTable(img: seq<byte>, at: nat, ramdisk: seq<byte>, fs: seq<Fragment>, n: nat)
    requires Parsable(img) && at < EntryNum(img) && n <= EntryNum(img)
    requires fs == Updated(Parse(img), at, ramdisk).fragments && |fs| == EntryNum(img)
    ensures DescrsOk(fs[..n])
    ensures NewTable(img, at, ramdisk, n) == Table(fs[..n])
  {
    hide LayoutOf, HeaderOk, Word, Parse, Updated, Sum, OldPiece, FragmentAt, Parsable, EntryBytes;
    if n > 0 {
      TableIsTable(img, at, ramdisk, fs, n - 1);
      UpdatedFragment(img, at, ramdisk, n - 1);
      assert fs[..n][..n - 1] == fs[..n - 1];
      UpdatedSizes(img, at, ramdisk);
      assert DataSizes(fs[..n - 1]) == DataSizes(fs)[..n - 1];
    }
  }

  lemma HeaderOfParsed(img: seq<byte>)
    requires Parsable(img)
    ensures var h := Parse(img).header;
            && |h| == LayoutOf(img).o && HeaderOk(h, 4) && Word(h, RAMDISK_SIZE_AT) == 0
            && Word(h, PAGE_SIZE_AT) == Word(img, PAGE_SIZE_AT)
            && Word(h, DTB_SIZE_AT) == Word(img, DTB_SIZE_AT)
            && Word(h, TABLE_SIZE_AT) == Word(img, TABLE_SIZE_AT)
            && Word(h, ENTRY_NUM_AT) == Word(img, ENTRY_NUM_AT)
            && Word(h, ENTRY_SIZE_AT) == Word(img, ENTRY_SIZE_AT)
            && Word(h, BOOTCONFIG_SIZE_AT) == Word(img, BOOTCONFIG_SIZE_AT)
  {
    var h0 := img[..LayoutOf(img).o];
    var h := Parse(img).header;
    HeaderWords(h0, 0, h);
    WordOfPrefix(img, h0, VERSION_AT);
    WordOfPrefix(img, h0, PAGE_SIZE_AT);
    WordOfPrefix(img, h0, DTB_SIZE_AT);
    WordOfPrefix(img, h0, TABLE_SIZE_AT);
    WordOfPrefix(img, h0, ENTRY_NUM_AT);
    WordOfPrefix(img, h0, ENTRY_SIZE_AT);
    WordOfPrefix(img, h0, BOOTCONFIG_SIZE_AT);
    assert h0[..8] == img[..8];
  }

  lemma ParsedHeaderFits(img: seq<byte>, at: nat, ramdisk: seq<byte>)
    requires Parsable(img) && at < EntryNum(img)
    ensures HeaderFits(Updated(Parse(img), at, ramdisk))
  {
    hide RoundUp32, Word, PutWord, HeaderOk, Fragments, Sum, Sizes;
    HeaderOfParsed(img);
    VersionFour(img);
  }

  lemma VersionFour(img: seq<byte>)
    requires HeaderOk(img, 4)
    ensures HeaderOk(img, 3) && Word(img, VERSION_AT) == 4
  {
  }

  lemma UpdatedRamdisk(img: seq<byte>, at: nat, ramdisk: seq<byte>)
    requires Parsable(img) && at < EntryNum(img)
    ensures var fs := Updated(Parse(img), at, ramdisk).fragments;
            && Sizes(img)[..EntryNum(img)] == Sizes(img)
            && LayoutOf(img).o + Sum(Sizes(img)) <= |img|
            && Ramdisk(fs) == NewPieces(img, at, ramdisk, EntryNum(img))
            && |Ramdisk(fs)| == Sum(NewSizes(img, at, ramdisk))
            && DescrsOk(fs) && Table(fs) == NewTable(img, at, ramdisk, EntryNum(img))
  {
    hide LayoutOf, HeaderOk, Word, Sum, Ramdisk, Table, NewPieces, NewTable, FragmentAt;
    var fs := Updated(Parse(img), at, ramdisk).fragments;
    assert fs[..EntryNum(img)] == fs && Sizes(img)[..EntryNum(img)] == Sizes(img);
    PiecesAreRamdisk(img, at, ramdisk, fs, EntryNum(img));
    TableIsTable(img, at, ramdisk, fs, EntryNum(img));
    UpdatedSizes(img, at, ramdisk);
  }

  lemma ResizeHeader(h0: seq<byte>, total: int)
    requires |h0| >= V4_HEADER_SIZE
    ensures PutWord(PutWord(h0, RAMDISK_SIZE_AT, 0), RAMDISK_SIZE_AT, total) == PutWord(h0, RAMDISK_SIZE_AT, total)
  {
    OverlayOver(h0, RAMDISK_SIZE_AT, LittleEndian32(0), LittleEndian32(total));
  }

  /** What the walk writes is the content of the updated value. */
  lemma ContentIsRendered(img: seq<byte>, at: nat, ramdisk: seq<byte>)
    requires Parsable(img) && Rewritable(img) && at < EntryNum(img)
    requires SizesAddUp(img) && AllFits(img, at, ramdisk) && FrontFits(img, at, ramdisk)
    ensures var v := Updated(Parse(img), at, ramdisk);
            && HeaderFits(v) && DescrsOk(v.fragments)
            && |Ramdisk(v.fragments)| <= |img| && |img| + Word(v.header, PAGE_SIZE_AT) <= U32
            && Content(v) == NewContent(img, at, ramdisk)
  {
    hide LayoutOf, HeaderOk, HeaderFits, Word, PutWord, RoundUp32, Sum, Ramdisk, Table,
         NewPieces, NewTable, FragmentAt, Sizes;
    var v := Updated(Parse(img), at, ramdisk);
    ParsedHeaderFits(img, at, ramdisk);
    HeaderOfParsed(img);
    UpdatedRamdisk(img, at, ramdisk);
    VersionFour(img);
    var h0 := img[..LayoutOf(img).o];
    var total := Sum(NewSizes(img, at, ramdisk));
    ResizeHeader(h0, total);
    AppendAssoc(PutWord(h0, RAMDISK_SIZE_AT, total), Ramdisk(v.fragments), Zeros(NewP(img, at, ramdisk) - total));
  }

  lemma UpdatedRenderable(img: seq<byte>, at: nat, ramdisk: seq<byte>)
    requires Parsable(img) && Rewritable(img) && at < EntryNum(img)
    requires SizesAddUp(img) && AllFits(img, at, ramdisk) && FrontFits(img, at, ramdisk)
    ensures Renderable(Updated(Parse(img), at, ramdisk))
  {
    hide LayoutOf, HeaderOk, HeaderFits, Word, PutWord, RoundUp32, Sum, Ramdisk, Table, NewTable,
         FragmentAt, Sizes, Content;
    ContentIsRendered(img, at, ramdisk);
    UpdatedRamdisk(img, at, ramdisk);
    FrontLength(img, at, ramdisk);
  }

  lemma FrontLength(img: seq<byte>, at: nat, ramdisk: seq<byte>)
    requires Parsable(img) && Rewritable(img) && at < EntryNum(img) && SizesAddUp(img) && FrontFits(img, at, ramdisk)
    ensures |Front(img, at, ramdisk)| == LayoutOf(img).o + NewP(img, at, ramdisk) + LayoutOf(img).q
  {
    hide LayoutOf, HeaderOk, Word, RoundUp32, Sum, FragmentAt, Sizes, Ramdisk, Table, NewTable, NewPieces;
    UpdatedRamdisk(img, at, ramdisk);
  }

  // ----- The two size tests before the table is read

  predicate SectionsFit(img: seq<byte>)
    requires HeaderOk(img, 4)
  {
    var l := LayoutOf(img);
    l.o + l.p + l.q + l.r + l.s <= |img|
  }

  /** The test on the number of entries, which compares with everything up to the end of the table. */
  predicate EntriesAccepted(img: seq<byte>)
    requires HeaderOk(img, 4)
  {
    ENTRY_SIZE * EntryNum(img) <= TableStart(img) + LayoutOf(img).r
  }

  lemma SizeTests(img: seq<byte>)
    requires HeaderOk(img, 4)
    ensures var l := LayoutOf(img);
            && (SectionsFit(img) <==> l.o + l.p + l.q + l.r + l.s <= |img|)
            && (EntriesAccepted(img) <==> ENTRY_SIZE * EntryNum(img) <= l.o + l.p + l.q + l.r)
  {
  }

  /**
   Compared with the table section alone, the test would keep the table inside the image.
   As it is, it also lets through exactly the tables that end beyond the image but are no
   longer than what precedes the bootconfig.
   */
  lemma EntriesTestExact(img: seq<byte>)
    requires HeaderOk(img, 4) && SectionsFit(img)
    ensures ENTRY_SIZE * EntryNum(img) <= LayoutOf(img).r ==> EntriesAccepted(img) && TableInside(img)
    ensures EntriesAccepted(img) && !TableInside(img) <==>
            |img| - TableStart(img) < ENTRY_SIZE * EntryNum(img) <= TableStart(img) + LayoutOf(img).r
  {
  }

  /** Such an image: a header alone, announcing 19 entries. */
  lemma TableBeyondImageAccepted() returns (img: seq<byte>)
    ensures HeaderOk(img, 4) && RoundsExactly(img) && Word(img, ENTRY_SIZE_AT) == ENTRY_SIZE
    ensures SectionsFit(img) && EntriesAccepted(img) && !TableInside(img)
  {
    hide Word;
    img := EmptyHeader(V4_HEADER_SIZE);
    img := WithWord(img, VERSION_AT, 4);
    img := WithWord(img, PAGE_SIZE_AT, V4_HEADER_SIZE);
    img := WithWord(img, ENTRY_NUM_AT, 19);
    img := WithWord(img, ENTRY_SIZE_AT, ENTRY_SIZE);
  }

  lemma EmptyHeader(size: nat) returns (r: seq<byte>)
    requires size >= V4_HEADER_SIZE
    ensures |r| == size && r[..8] == VENDOR_BOOT_MAGIC
    ensures forall k {:trigger Word(r, k)} :: k in HEADER_WORDS ==> Word(r, k) == 0
  {
    r := VENDOR_BOOT_MAGIC + Zeros(size - 8);
    forall k: int | k in HEADER_WORDS
      ensures Word(r, k) == 0
    {
      assert r[k..k + 4] == Zeros(4);
    }
  }

  /** Sets one word of a header; the other words and the magic stay. */
  lemma WithWord(b: seq<byte>, at: nat, v: int) returns (r: seq<byte>)
    requires |b| >= V4_HEADER_SIZE && 0 <= v < U32
    requires at in HEADER_WORDS
    ensures |r| == |b| && r[..8] == b[..8]
    ensures Word(r, at) == v
    ensures forall k {:trigger Word(r, k)} :: k in HEADER_WORDS && k != at ==> Word(r, k) == Word(b, k)
  {
    r := PutWord(b, at, v);
    WordOfPut(b, at, v);
    OverlayBefore(b, at, LittleEndian32(v), 0, 8);
    assert r[..8] == r[0..8] && b[..8] == b[0..8];
    hide Word, PutWord;
    forall k: int | k in HEADER_WORDS && k != at
      ensures Word(r, k) == Word(b, k)
    {
      WordBesidePut(b, at, v, k);
    }
  }

  /** Offsets of the words the rewrite reads. */
  const HEADER_WORDS := {VERSION_AT, PAGE_SIZE_AT, RAMDISK_SIZE_AT, DTB_SIZE_AT, TABLE_SIZE_AT,
                         ENTRY_NUM_AT, ENTRY_SIZE_AT, BOOTCONFIG_SIZE_AT}

  /**
   Replaces the data of the fragment called `name`. The rewrite succeeds exactly when the
   image parses, the name occurs once and the result fits; then the result is the image
   of the parsed value with only that fragment's data exchanged.
   */
  method ReplaceVendorRamdiskFragment(name: seq<byte>, img: seq<byte>, ramdisk: seq<byte>)
    returns (r: Result<seq<byte>>)
    requires |ramdisk| < U32
    requires HeaderOk(img, 4) ==> RoundsExactly(img)
    requires HeaderOk(img, 4) && SectionsFit(img) && EntriesAccepted(img) ==> TableReadable(img)
    ensures r.Ok? <==> exists at: nat :: Replaceable(img, name, ramdisk, at)
    ensures forall at: nat :: Replaceable(img, name, ramdisk, at) ==>
              && Renderable(Updated(Parse(img), at, ramdisk))
              && r == Ok(Render(Updated(Parse(img), at, ramdisk)))
  {
    hide LayoutOf, HeaderFits, Word, PutWord, RoundUp32, Sum, Ramdisk, Table, NewTable, NewPieces, FragmentAt,
         Sizes, Content, D.Do, Front, NewP, EntryNum, TableStart;
    var e := CheckHeader(img, 4);
    if e.Some? {
      return Err(e.value);
    }
    var l := LayoutOf(img);
    SizeTests(img);
    if l.o + l.p + l.q + l.r + l.s > |img| {
      return Err(ImageTooSmall);
    }
    if ENTRY_SIZE * EntryNum(img) > l.o + l.p + l.q + l.r {
      return Err(TooManyEntries);
    }
    var found := FindUniqueRamdisk(img, name);
    if found.Err? {
      return Err(found.error);
    }
    var at := found.value;
    var u := new D.DataUpdater(img);
    var ok := RewriteFront(u, img, at, ramdisk);
    if !ok {
      return Err(OffsetMismatch);
    }
    ok := RewriteBack(u, img, at, ramdisk);
    if !ok {
      return Err(OutOfBounds);
    }
    assert Replaceable(img, name, ramdisk, at);
    ContentIsRendered(img, at, ramdisk);
    UpdatedRenderable(img, at, ramdisk);
    assert u.Written() == Content(Updated(Parse(img), at, ramdisk));
    CopyAvbFooter(u);
    r := Ok(u.newData);
    assert r.value == Render(Updated(Parse(img), at, ramdisk));
  }
}
