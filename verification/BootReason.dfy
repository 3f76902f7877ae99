/** Boot reasons from a damaged console log: correction against the known reasons, and clean-up. */
module BootReason {
  import opened Bytes
  import opened BitErrors
  import opened BitCorrection
  import opened UnderlineRepair

  const MAX_REASON_LENGTH := 256

  const REBOOT: seq<byte> := [114, 101, 98, 111, 111, 116, 44]  // "reboot,"
  // "kernel_panic,"
  const KERNEL_PANIC_PREFIX: seq<byte> := [107, 101, 114, 110, 101, 108, 95, 112, 97, 110, 105, 99, 44]
  const SYSRQ: seq<byte> := KERNEL_PANIC_PREFIX + [115, 121, 115, 114, 113, 44]  // "kernel_panic,sysrq,"

  // ----- Characters

  predicate Printable(c: byte) {
    32 <= c <= 126
  }

  predicate Blank(c: byte) {
    c == 32 || c == 9
  }

  predicate UpperCase(c: byte) {
    65 <= c <= 90
  }

  function StandardByte(c: byte): (r: byte) {
    var lower := if UpperCase(c) then c + 32 else c;
    var filled := if Blank(lower) then 95 else lower;
    if Printable(filled) then filled else 63
  }

  predicate StandardChar(c: byte) {
    Printable(c) && !Blank(c) && !UpperCase(c)
  }

  /** The three passes over a reason: lower case, underlines for blanks, question marks for the rest. */
  method TransformReason(reason: seq<byte>) returns (r: seq<byte>)
    ensures |r| == |reason| && forall i :: 0 <= i < |r| ==> r[i] == StandardByte(reason[i])
    ensures forall i :: 0 <= i < |r| ==> StandardChar(r[i])
    ensures r == reason <==> forall i :: 0 <= i < |reason| ==> StandardChar(reason[i])
  {
    var lower := seq(|reason|,
                     i requires 0 <= i < |reason| => if UpperCase(reason[i]) then reason[i] + 32 else reason[i]);
    var filled := seq(|lower|, i requires 0 <= i < |lower| => if Blank(lower[i]) then 95 else lower[i]);
    r := seq(|filled|, i requires 0 <= i < |filled| => if Printable(filled[i]) then filled[i] else 63);
    if forall i :: 0 <= i < |reason| ==> StandardChar(reason[i]) {
      assert forall i :: 0 <= i < |reason| ==> r[i] == reason[i];
    }
  }

  /** The quote and the printable or control characters one bit from it, except 7 and g. */
  predicate LikelySingleQuote(c: byte) {
    c in {39, 38, 37, 35, 47, 7, 167}
  }

  predicate LikelyNewline(c: byte) {
    c in {10, 11, 8, 14, 2, 26, 138}
  }

  predicate LikelySpace(c: byte) {
    c in {32, 33, 34, 36, 40, 48, 0, 96, 160, 9, 8, 11, 13, 1, 25, 41, 73, 137}
  }

  predicate Terminates(c: byte, quoted: bool) {
    !(Printable(c) || LikelySpace(c)) || LikelyNewline(c) || (quoted && LikelySingleQuote(c))
  }

  // ----- Subreasons

  /** A repair against a needle, and whether it reports a correction. */
  ghost predicate RepairedBy(s: seq<byte>, needle: seq<byte>, corrected: bool, r: seq<byte>) {
    exists ws, mid, vs :: Repaired(s, needle, ws, mid, vs, r) && (corrected <==> mid != s || r != mid)
  }

  function Terminator(quoted: bool): (t: seq<byte>) {
    if quoted then [39] else []
  }

  /** The part of a key after a known prefix. */
  function KeyTail(key: seq<byte>): (tail: Option<seq<byte>>) {
    if REBOOT <= key then Some(key[|REBOOT|..])
    else if SYSRQ <= key then Some(key[|SYSRQ|..])
    else if KERNEL_PANIC_PREFIX <= key then Some(key[|KERNEL_PANIC_PREFIX|..])
    else None
  }

  /** What a key of the reason table does: itself, and if that corrects nothing a long key's tail. */
  ghost predicate KeyRepaired(s: seq<byte>, key: seq<byte>, quoted: bool, r: seq<byte>) {
    if |key| <= 4 then r == s
    else
      exists mid, corrected ::
        && RepairedBy(s, key + Terminator(quoted), corrected, mid)
        && if corrected || |key| <= 11 || KeyTail(key).None? then r == mid
           else exists again :: RepairedBy(mid, KeyTail(key).value + Terminator(quoted), again, r)
  }

  /** The reasons first, each once, then the keys, in their order. */
  ghost predicate StepDone(s: seq<byte>, known: seq<seq<byte>>, keys: seq<seq<byte>>, quoted: bool, i: nat,
                           r: seq<byte>)
    requires i < |known| + |keys|
  {
    if i < |known| then exists corrected :: RepairedBy(s, known[i], corrected, r)
    else KeyRepaired(s, keys[i - |known|], quoted, r)
  }

  /** The text after each step of the repair. */
  ghost predicate Chain(states: seq<seq<byte>>, known: seq<seq<byte>>, keys: seq<seq<byte>>, quoted: bool, n: nat) {
    && n <= |known| + |keys| && |states| == n + 1
    && forall i :: 0 <= i < n ==> StepDone(states[i], known, keys, quoted, i, states[i + 1])
  }

  lemma ChainSnoc(states: seq<seq<byte>>, known: seq<seq<byte>>, keys: seq<seq<byte>>, quoted: bool, n: nat,
                  r: seq<byte>)
    requires Chain(states, known, keys, quoted, n) && n < |known| + |keys|
    requires StepDone(states[n], known, keys, quoted, n, r)
    ensures Chain(states + [r], known, keys, quoted, n + 1)
  {
    hide StepDone;
    var ss := states + [r];
    forall i | 0 <= i < n + 1
      ensures StepDone(ss[i], known, keys, quoted, i, ss[i + 1])
    {
      assert ss[i] == states[i];
      if i < n {
        assert ss[i + 1] == states[i + 1];
      }
    }
  }

  /** No key is a bare prefix, so no needle is empty. */
  predicate TablesOk(known: seq<seq<byte>>, keys: seq<seq<byte>>) {
    [] !in known && forall i :: 0 <= i < |keys| ==> keys[i] != SYSRQ && keys[i] != KERNEL_PANIC_PREFIX
  }

  method Repair(s: seq<byte>, needle: seq<byte>) returns (corrected: bool, r: seq<byte>)
    requires needle != []
    ensures RepairedBy(s, needle, corrected, r) && |r| == |s|
  {
    hide Repaired;
    ghost var ws, mid, vs;
    corrected, r, ws, mid, vs := CorrectForBitErrorOrUnderline(s, needle);
  }

  /** The repairs for one key of the reason table. */
  method RepairKey(s: seq<byte>, key: seq<byte>, quoted: bool) returns (r: seq<byte>)
    requires key != SYSRQ && key != KERNEL_PANIC_PREFIX
    ensures KeyRepaired(s, key, quoted, r) && |r| == |s|
  {
    hide RepairedBy;
    var end := Terminator(quoted);
    if |key| <= 4 {
      return s;
    }
    var corrected, again;
    corrected, r := Repair(s, key + end);
    ghost var mid := r;
    if corrected || |key| <= 11 {
      return;
    }
    TailNotEmpty(key);
    if REBOOT <= key {
      again, r := Repair(r, key[|REBOOT|..] + end);
    } else if SYSRQ <= key {
      again, r := Repair(r, key[|SYSRQ|..] + end);
    } else if KERNEL_PANIC_PREFIX <= key {
      again, r := Repair(r, key[|KERNEL_PANIC_PREFIX|..] + end);
    }
    assert KeyTail(key).Some? ==> RepairedBy(mid, KeyTail(key).value + end, again, r);
  }

  lemma TailNotEmpty(key: seq<byte>)
    requires |key| > 11 && key != SYSRQ && key != KERNEL_PANIC_PREFIX
    ensures KeyTail(key).Some? ==> KeyTail(key).value != []
  {
    if SYSRQ <= key {
      NotBare(key, SYSRQ);
    }
    if KERNEL_PANIC_PREFIX <= key {
      NotBare(key, KERNEL_PANIC_PREFIX);
    }
  }

  lemma NotBare(key: seq<byte>, prefix: seq<byte>)
    requires prefix <= key && key != prefix
    ensures key[|prefix|..] != []
  {
  }

  /** Cuts a string at its first terminating character. */
  method Cut(s: seq<byte>, quoted: bool) returns (r: seq<byte>)
    ensures r <= s && (forall i :: 0 <= i < |r| ==> !Terminates(r[i], quoted))
    ensures |r| < |s| ==> Terminates(s[|r|], quoted)
  {
    hide Terminates;
    var pos := 0;
    while pos < |s|
      invariant 0 <= pos <= |s| && forall i :: 0 <= i < pos ==> !Terminates(s[i], quoted)
    {
      if Terminates(s[pos], quoted) {
        return s[..pos];
      }
      pos := pos + 1;
    }
    return s;
  }

  /**
   The subreason at a position of the log: at most 256 characters, repaired against every
   entry of both tables in their order, cut at the first likely end, and all printable,
   without blanks, in lower case.
   */
  method GetSubreason(content: seq<byte>, pos: nat, quoted: bool, known: seq<seq<byte>>, keys: seq<seq<byte>>)
    returns (r: seq<byte>, ghost states: seq<seq<byte>>, ghost cut: seq<byte>)
    requires pos <= |content| && TablesOk(known, keys)
    ensures |r| <= MAX_REASON_LENGTH && forall i :: 0 <= i < |r| ==> StandardChar(r[i])
    ensures Chain(states, known, keys, quoted, |known| + |keys|)
    ensures states[0] == content[pos..Min(pos + MAX_REASON_LENGTH, |content|)]
    ensures var repaired := states[|known| + |keys|];
            && |repaired| == |states[0]| && cut <= repaired
            && (forall i :: 0 <= i < |cut| ==> !Terminates(cut[i], quoted))
            && (|cut| < |repaired| ==> Terminates(repaired[|cut|], quoted))
    ensures |r| == |cut| && forall i :: 0 <= i < |r| ==> r[i] == StandardByte(cut[i])
  {
    hide StepDone, Terminates, StandardByte, StandardChar;
    var sub := content[pos..Min(pos + MAX_REASON_LENGTH, |content|)];
    states := [sub];
    ghost var n := |sub|;
    var i := 0;
    while i < |known|
      invariant 0 <= i <= |known| && |sub| == n
      invariant Chain(states, known, keys, quoted, i) && states[0] == content[pos..pos + n] && states[i] == sub
    {
      assert known[i] in known;
      var corrected, next := Repair(sub, known[i]);
      KnownStep(sub, known, keys, quoted, i, corrected, next);
      ChainSnoc(states, known, keys, quoted, i, next);
      sub, states := next, states + [next];
      i := i + 1;
    }
    var j := 0;
    while j < |keys|
      invariant 0 <= j <= |keys| && |sub| == n
      invariant Chain(states, known, keys, quoted, |known| + j) && states[0] == content[pos..pos + n]
      invariant states[|known| + j] == sub
    {
      var next := RepairKey(sub, keys[j], quoted);
      KeyStep(sub, known, keys, quoted, j, next);
      ChainSnoc(states, known, keys, quoted, |known| + j, next);
      sub, states := next, states + [next];
      j := j + 1;
    }
    sub := Cut(sub, quoted);
    cut := sub;
    r := TransformReason(sub);
  }

  lemma KnownStep(s: seq<byte>, known: seq<seq<byte>>, keys: seq<seq<byte>>, quoted: bool, i: nat, corrected: bool,
                  r: seq<byte>)
    requires i < |known| && RepairedBy(s, known[i], corrected, r)
    ensures StepDone(s, known, keys, quoted, i, r)
  {
    hide RepairedBy;
  }

  lemma KeyStep(s: seq<byte>, known: seq<seq<byte>>, keys: seq<seq<byte>>, quoted: bool, j: nat, r: seq<byte>)
    requires j < |keys| && KeyRepaired(s, keys[j], quoted, r)
    ensures StepDone(s, known, keys, quoted, |known| + j, r)
  {
    hide KeyRepaired;
  }
}
