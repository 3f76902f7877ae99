/** What the tables of boot reason characters stand for, and which damage is repaired. */
module ReasonText {
  import opened Bytes
  import opened AsciiText
  import opened BitErrors
  import opened BitCorrection
  import opened BootReason

  /** The known beginnings of reasons. */
  lemma PrefixesSpelled()
    ensures REBOOT == Ascii("reboot,") && KERNEL_PANIC_PREFIX == Ascii("kernel_panic,")
    ensures SYSRQ == Ascii("kernel_panic,sysrq,")
  {
  }

  /** A key's tail is what follows the longest of the three beginnings it has. */
  lemma TailsSpelled(tail: string)
    ensures KeyTail(Ascii("reboot,") + Ascii(tail)) == Some(Ascii(tail))
    ensures KeyTail(Ascii("kernel_panic,sysrq,") + Ascii(tail)) == Some(Ascii(tail))
    ensures !(Ascii("sysrq,") <= Ascii(tail)) ==> KeyTail(Ascii("kernel_panic,") + Ascii(tail)) == Some(Ascii(tail))
  {
    PrefixesSpelled();
    var t, sysrq := Ascii(tail), Ascii("sysrq,");
    assert SYSRQ == KERNEL_PANIC_PREFIX + sysrq;
    hide Ascii;
    var a, b, c := REBOOT + t, SYSRQ + t, KERNEL_PANIC_PREFIX + t;
    assert a[|REBOOT|..] == t && b[|SYSRQ|..] == t && c[|KERNEL_PANIC_PREFIX|..] == t;
    assert REBOOT[0] != KERNEL_PANIC_PREFIX[0] && b[0] == c[0] == KERNEL_PANIC_PREFIX[0];
    if SYSRQ <= c {
      assert c[13..][..6] == SYSRQ[13..] == sysrq;
    }
  }

  /** Letters become lower case, blanks underlines, and everything else that is not printable a question mark. */
  lemma StandardExactly(c: byte)
    ensures Ascii("A")[0] <= c <= Ascii("Z")[0] ==> StandardByte(c) == c - Ascii("A")[0] + Ascii("a")[0]
    ensures StandardByte(Ascii(" ")[0]) == StandardByte(Ascii("\t")[0]) == Ascii("_")[0]
    ensures c < Ascii(" ")[0] && c != Ascii("\t")[0] ==> StandardByte(c) == Ascii("?")[0]
    ensures c > Ascii("~")[0] ==> StandardByte(c) == Ascii("?")[0]
    ensures StandardChar(c) ==> StandardByte(c) == c
  {
  }

  function Bit(c: byte, weight: nat): (bit: int)
    requires weight > 0
    ensures 0 <= bit < 2
  {
    c / weight % 2
  }

  /** A byte is the sum of its bits. */
  lemma SumOfBits(c: byte)
    ensures c == Bit(c, 1) + 2 * Bit(c, 2) + 4 * Bit(c, 4) + 8 * Bit(c, 8)
                 + 16 * Bit(c, 16) + 32 * Bit(c, 32) + 64 * Bit(c, 64) + 128 * Bit(c, 128)
  {
    assert c / 4 == c / 2 / 2 && c / 8 == c / 4 / 2 && c / 16 == c / 8 / 2 && c / 32 == c / 16 / 2;
    assert c / 64 == c / 32 / 2 && c / 128 == c / 64 / 2 && c / 128 < 2;
  }

  /** Bit errors counted by the bits. */
  lemma DiffCounts(c: byte, b: byte)
    ensures Diff(c, b) == BitDiff(c, b, 1) + BitDiff(c, b, 2) + BitDiff(c, b, 4) + BitDiff(c, b, 8)
                          + BitDiff(c, b, 16) + BitDiff(c, b, 32) + BitDiff(c, b, 64) + BitDiff(c, b, 128)
    ensures forall w: nat :: w in {1, 2, 4, 8, 16, 32, 64, 128} ==>
                               BitDiff(c, b, w) == if Bit(c, w) != Bit(b, w) then 1 else 0
  {
    DiffIsBits(c, b);
    hide Diff;
  }

  lemma NearQuote(c: byte)
    ensures Diff(c, 39) <= 1 <==> c in {39, 38, 37, 35, 47, 55, 7, 103, 167}
  {
    hide Diff, BitDiff, Bit;
    DiffCounts(c, 39);
    SumOfBits(c);
    BitsOfQuote();
    hide *;
  }

  lemma BitsOfQuote()
    ensures Bit(39, 1) == 1 && Bit(39, 2) == 1 && Bit(39, 4) == 1 && Bit(39, 8) == 0
    ensures Bit(39, 16) == 0 && Bit(39, 32) == 1 && Bit(39, 64) == 0 && Bit(39, 128) == 0
  {
  }

  lemma NearNewline(c: byte)
    ensures Diff(c, 10) <= 1 <==> c in {10, 11, 8, 14, 2, 26, 42, 74, 138}
  {
    hide Diff, BitDiff, Bit;
    DiffCounts(c, 10);
    SumOfBits(c);
    BitsOfNewline();
    hide *;
  }

  lemma BitsOfNewline()
    ensures Bit(10, 1) == 0 && Bit(10, 2) == 1 && Bit(10, 4) == 0 && Bit(10, 8) == 1
    ensures Bit(10, 16) == 0 && Bit(10, 32) == 0 && Bit(10, 64) == 0 && Bit(10, 128) == 0
  {
  }

  lemma NearSpace(c: byte)
    ensures Diff(c, 32) <= 1 <==> c in {32, 33, 34, 36, 40, 48, 0, 96, 160}
  {
    hide Diff, BitDiff, Bit;
    DiffCounts(c, 32);
    SumOfBits(c);
    BitsOfSpace();
    hide *;
  }

  lemma BitsOfSpace()
    ensures Bit(32, 1) == 0 && Bit(32, 2) == 0 && Bit(32, 4) == 0 && Bit(32, 8) == 0
    ensures Bit(32, 16) == 0 && Bit(32, 32) == 1 && Bit(32, 64) == 0 && Bit(32, 128) == 0
  {
  }

  lemma NearTab(c: byte)
    ensures Diff(c, 9) <= 1 <==> c in {9, 8, 11, 13, 1, 25, 41, 73, 137}
  {
    hide Diff, BitDiff, Bit;
    DiffCounts(c, 9);
    SumOfBits(c);
    BitsOfTab();
    hide *;
  }

  lemma BitsOfTab()
    ensures Bit(9, 1) == 1 && Bit(9, 2) == 0 && Bit(9, 4) == 0 && Bit(9, 8) == 1
    ensures Bit(9, 16) == 0 && Bit(9, 32) == 0 && Bit(9, 64) == 0 && Bit(9, 128) == 0
  {
  }

  /** The likely quotes are those with at most one bit error, but for two that are acceptable. */
  lemma QuotesExactly(c: byte)
    ensures LikelySingleQuote(c) <==> Diff(c, Ascii("'")[0]) <= 1 && c !in Ascii("7g")
  {
    hide Diff;
    assert Ascii("'")[0] == 39 && Ascii("7g") == [55, 103];
    NearQuote(c);
  }

  /** So are the likely newlines. */
  lemma NewlinesExactly(c: byte)
    ensures LikelyNewline(c) <==> Diff(c, Ascii("\n")[0]) <= 1 && c !in Ascii("*J")
  {
    hide Diff;
    assert Ascii("\n")[0] == 10 && Ascii("*J") == [42, 74];
    NearNewline(c);
  }

  /** The likely blanks are those with at most one bit error in a space or a tab. */
  lemma BlanksExactly(c: byte)
    ensures LikelySpace(c) <==> Diff(c, Ascii(" ")[0]) <= 1 || Diff(c, Ascii("\t")[0]) <= 1
  {
    hide Diff;
    assert Ascii(" ")[0] == 32 && Ascii("\t")[0] == 9;
    NearSpace(c);
    NearTab(c);
  }

  /** A reason ends at a newline or, if it was quoted, at a quote; never at what reasons are made of. */
  lemma EndsExactly(c: byte, quoted: bool)
    ensures Terminates(Ascii("\n")[0], quoted) && (Terminates(Ascii("'")[0], quoted) <==> quoted)
    ensures Ascii("a")[0] <= c <= Ascii("z")[0] || Ascii("0")[0] <= c <= Ascii("9")[0] || c in Ascii(" _,-") ==>
              !Terminates(c, quoted)
  {
    assert Ascii(" _,-") == [32, 95, 44, 45];
  }

  /** Keys up to the length of `cold` are not tried, and up to that of `reboot,cold` without a tail. */
  lemma ShortKeys(s: seq<byte>, key: string, quoted: bool, r: seq<byte>)
    ensures |key| <= |"cold"| ==> (KeyRepaired(s, Ascii(key), quoted, r) <==> r == s)
    ensures |"cold"| < |key| <= |"reboot,cold"| ==>
              (KeyRepaired(s, Ascii(key), quoted, r) <==>
               var needle := Ascii(key) + if quoted then Ascii("'") else [];
               RepairedBy(s, needle, true, r) || RepairedBy(s, needle, false, r))
  {
    hide RepairedBy;
    assert Ascii("'") == [39];
    var needle := Ascii(key) + Terminator(quoted);
    hide Ascii, Terminator;
    if KeyRepaired(s, Ascii(key), quoted, r) && |key| > 4 {
      var mid, corrected :| RepairedBy(s, needle, corrected, mid)
        && if corrected || |key| <= 11 || KeyTail(Ascii(key)).None? then r == mid
           else exists again :: RepairedBy(mid, KeyTail(Ascii(key)).value + Terminator(quoted), again, r);
      assert corrected == true || corrected == false;
    }
  }

  /** Of two tables with one entry each the known reason is repaired first, and the key after it. */
  lemma KnownFirst(states: seq<seq<byte>>, known: seq<byte>, key: seq<byte>, quoted: bool)
    requires Chain(states, [known], [key], quoted, 2)
    ensures exists corrected :: RepairedBy(states[0], known, corrected, states[1])
    ensures KeyRepaired(states[1], key, quoted, states[2])
  {
    hide RepairedBy, KeyRepaired;
    assert StepDone(states[0], [known], [key], quoted, 0, states[1]);
    assert StepDone(states[1], [known], [key], quoted, 1, states[2]);
  }

  /** At most two bits differ in each byte, and in each tail one for each byte, one more in the last two. */
  predicate Mild(damaged: seq<byte>, reason: seq<byte>)
    requires |damaged| == |reason|
  {
    forall k :: 0 <= k < |reason| ==>
                  && Diff(damaged[k], reason[k]) <= 2
                  && Flips(damaged[k..], reason[k..]) <= |reason| - k + if |reason| - k <= 2 then 1 else 0
  }

  lemma MildIsClose(damaged: seq<byte>, reason: seq<byte>)
    requires |damaged| == |reason|
    ensures Close(damaged, 0, reason) <==> Mild(damaged, reason)
  {
    hide Diff, Flips, Errors, Allowed;
    forall k | 0 <= k < |reason|
      ensures Errors(damaged, 0, reason, k) == Flips(damaged[k..], reason[k..])
      ensures Allowed(|reason| - k) == |reason| - k + if |reason| - k <= 2 then 1 else 0
    {
      ErrorsAreFlips(damaged, 0, reason, k);
      assert damaged[0 + k..0 + |reason|] == damaged[k..];
      AllowedIs(|reason| - k);
    }
    if Close(damaged, 0, reason) {
      forall k | 0 <= k < |reason|
        ensures Diff(damaged[k], reason[k]) <= 2
      {
        assert Diff(damaged[0 + k], reason[k]) <= 2;
      }
    }
  }

  lemma NoWindow(s: seq<byte>, needle: seq<byte>, ws: seq<nat>)
    requires |s| == |needle| && Windows(s, needle, ws) && EndBy(needle, ws, |s|)
    ensures ws == [] || Close(s, 0, needle)
  {
    hide Close;
    if ws != [] {
      assert ws[0] == 0;
    }
  }

  lemma NotTouched(s: seq<byte>, needle: seq<byte>)
    ensures EndBy(needle, [], |s|) && Apply(s, needle, []) == s
  {
  }

  /** A damaged reason is repaired to the reason exactly when the damage is mild, and otherwise left alone. */
  lemma DamageRepaired(damaged: seq<byte>, reason: seq<byte>, ws: seq<nat>, r: seq<byte>)
    requires reason != [] && |damaged| == |reason| && IsCorrection(damaged, reason, ws, r)
    ensures r == if Mild(damaged, reason) then reason else damaged
  {
    hide Mild, Close, Apply, Complete;
    MildIsClose(damaged, reason);
    KeptLength(damaged, reason, ws, r);
    if Mild(damaged, reason) {
      MatchInWindow(damaged, reason, ws, 0);
      var i :| 0 <= i < |ws| && ws[i] <= 0 < ws[i] + |reason|;
      ApplyInside(damaged, reason, ws, i);
      assert r[0..|reason|] == r;
    } else {
      WindowsFit(damaged, reason, ws);
      NoWindow(damaged, reason, ws);
      NotTouched(damaged, reason);
    }
  }

  lemma KeptLength(s: seq<byte>, needle: seq<byte>, ws: seq<nat>, r: seq<byte>)
    requires IsCorrection(s, needle, ws, r)
    ensures |r| == |s|
  {
  }
}
