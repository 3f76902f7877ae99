/** Finding a string in data with bit errors. */
module BitErrors {
  import opened Bytes

  const BIT_ERROR_RATE := 8

  /** Number of bits in which two bytes differ. */
  function Diff(a: nat, b: nat): (n: nat)
    decreases a + b
  {
    if a == 0 && b == 0 then 0 else (if a % 2 != b % 2 then 1 else 0) + Diff(a / 2, b / 2)
  }

  lemma {:induction false} DiffZero(a: nat, b: nat)
    ensures Diff(a, b) == 0 <==> a == b
    decreases a + b
  {
    if a != 0 || b != 0 {
      DiffZero(a / 2, b / 2);
    }
  }

  lemma {:induction false} DiffStep(a: nat, b: nat)
    ensures Diff(a, b) == (if a % 2 != b % 2 then 1 else 0) + Diff(a / 2, b / 2)
  {
  }

  function Shifted(a: byte, weight: nat): (n: nat)
    requires weight > 0
  {
    a / weight
  }

  /** The bits of the given weight differ. */
  function BitDiff(a: byte, b: byte, weight: nat): (n: nat)
    requires weight > 0
  {
    if Shifted(a, weight) % 2 != Shifted(b, weight) % 2 then 1 else 0
  }

  /** The same, bit by bit. */
  function DiffBits(a: byte, b: byte): (n: nat) {
    BitDiff(a, b, 1) + BitDiff(a, b, 2) + BitDiff(a, b, 4) + BitDiff(a, b, 8)
    + BitDiff(a, b, 16) + BitDiff(a, b, 32) + BitDiff(a, b, 64) + BitDiff(a, b, 128)
  }

  lemma {:induction false} DiffIsBits(a: byte, b: byte)
    ensures Diff(a, b) == DiffBits(a, b)
  {
    hide Diff, BitDiff, Shifted;
    FirstAndLast(a);
    FirstAndLast(b);
    DiffFrom(a, b, 1);
    DiffFrom(a, b, 2);
    DiffFrom(a, b, 4);
    DiffFrom(a, b, 8);
    DiffFrom(a, b, 16);
    DiffFrom(a, b, 32);
    DiffFrom(a, b, 64);
    DiffFrom(a, b, 128);
    DiffZero(0, 0);
  }

  lemma FirstAndLast(a: byte)
    ensures Shifted(a, 1) == a && Shifted(a, 256) == 0
  {
  }

  lemma {:induction false} DiffFrom(a: byte, b: byte, weight: nat)
    requires weight > 0
    ensures Diff(Shifted(a, weight), Shifted(b, weight))
            == BitDiff(a, b, weight) + Diff(Shifted(a, 2 * weight), Shifted(b, 2 * weight))
  {
    HalvedAgain(a, weight);
    HalvedAgain(b, weight);
    hide Diff, Shifted;
    DiffStep(Shifted(a, weight), Shifted(b, weight));
  }

  lemma {:induction false} HalvedAgain(x: byte, weight: nat)
    requires weight > 0
    ensures Shifted(x, weight) / 2 == Shifted(x, 2 * weight)
  {
    var d, p := x / weight, x / (2 * weight);
    Divided(x, weight);
    Divided(x, 2 * weight);
    Regrouped(d / 2, d % 2, weight);
    RemainderBelow(d % 2, x % weight, weight);
    Quotient(2 * weight, d / 2, d % 2 * weight + x % weight, p, x % (2 * weight));
  }

  lemma Divided(x: nat, n: nat)
    requires n > 0
    ensures x == x / n * n + x % n && 0 <= x % n < n
  {
  }

  lemma Regrouped(q: int, r: int, weight: nat)
    ensures (2 * q + r) * weight == q * (2 * weight) + r * weight
  {
  }

  lemma RemainderBelow(bit: int, r: int, weight: nat)
    requires 0 <= bit < 2 && 0 <= r < weight
    ensures 0 <= bit * weight + r < 2 * weight
  {
  }

  lemma Quotient(n: nat, q: int, r: int, p: int, t: int)
    requires 0 <= r < n && 0 <= t < n && q * n + r == p * n + t
    ensures q == p
  {
    if q > p {
      MulAtLeast(q - p, n);
    } else if q < p {
      MulAtLeast(p - q, n);
    }
  }

  lemma {:induction false} DiffBound(a: nat, b: nat, bits: nat)
    requires a < Power2(bits) && b < Power2(bits)
    ensures Diff(a, b) <= bits && Diff(a, b) == Diff(b, a)
    decreases bits
  {
    if bits > 0 && (a != 0 || b != 0) {
      DiffBound(a / 2, b / 2, bits - 1);
    }
  }

  function Power2(k: nat): (p: nat)
    ensures p > 0
  {
    if k == 0 then 1 else 2 * Power2(k - 1)
  }

  /** Errors allowed in the last `n` bytes of a match. */
  function Allowed(n: nat): (k: nat) {
    (n * 8 + BIT_ERROR_RATE - (if n > 2 then 1 else 0)) / BIT_ERROR_RATE
  }

  /** One error a byte, and one more for very short matches. */
  lemma AllowedIs(n: nat)
    ensures Allowed(n) == if n > 2 then n else n + 1
  {
  }

  /** Errors in the part of the window from `k` on. */
  function Errors(s: seq<byte>, pos: nat, needle: seq<byte>, k: nat): (n: nat)
    requires pos + |needle| <= |s| && k <= |needle|
    decreases |needle| - k
  {
    if k == |needle| then 0 else Diff(s[pos + k], needle[k]) + Errors(s, pos, needle, k + 1)
  }

  /** A fuzzy match: few errors in each byte and in each tail of the window. */
  predicate Close(s: seq<byte>, pos: nat, needle: seq<byte>) {
    && pos + |needle| <= |s|
    && (forall k :: 0 <= k < |needle| ==> Diff(s[pos + k], needle[k]) <= 2)
    && (forall k :: 0 <= k < |needle| ==> Errors(s, pos, needle, k) <= Allowed(|needle| - k))
  }

  /** Counts the errors of a window from its end; gives up when there are too many. */
  method NumError(s: seq<byte>, pos: nat, needle: seq<byte>) returns (r: Option<nat>)
    requires needle != [] && pos + |needle| <= |s|
    ensures r.Some? <==> Close(s, pos, needle)
    ensures r.Some? ==> r.value == Errors(s, pos, needle, 0)
  {
    hide Diff, Allowed;
    var k := |needle|;
    var count, n := 0, 0;
    while k > 0
      invariant 0 <= k <= |needle| && n == |needle| - k && count == Errors(s, pos, needle, k)
      invariant forall j :: k <= j < |needle| ==> Diff(s[pos + j], needle[j]) <= 2
      invariant forall j :: k <= j < |needle| ==> Errors(s, pos, needle, j) <= Allowed(|needle| - j)
    {
      k := k - 1;
      var num := Diff(s[pos + k], needle[k]);
      if num > (8 + BIT_ERROR_RATE) / BIT_ERROR_RATE {
        return None;
      }
      count := count + num;
      n := n + 1;
      assert count == Errors(s, pos, needle, k);
      if count > Allowed(n) {
        return None;
      }
    }
    return Some(count);
  }

  // ----- Searching

  /** The first fuzzy match from `start` on. */
  predicate IsFirst(s: seq<byte>, needle: seq<byte>, start: nat, r: Option<nat>) {
    match r
    case None => forall p :: start <= p <= |s| - |needle| ==> !Close(s, p, needle)
    case Some(pos) => start <= pos && Close(s, pos, needle) && forall p :: start <= p < pos ==> !Close(s, p, needle)
  }

  method Find(s: seq<byte>, needle: seq<byte>, start: nat) returns (r: Option<nat>)
    requires needle != []
    ensures IsFirst(s, needle, start, r)
  {
    hide Close;
    if |needle| > |s| {
      return None;
    }
    var last := |s| - |needle|;
    var pos := start;
    while pos <= last
      invariant start <= pos && forall p :: start <= p < pos && p <= last ==> !Close(s, p, needle)
      decreases last - pos
    {
      var e := NumError(s, pos, needle);
      if e.Some? {
        return Some(pos);
      }
      pos := pos + 1;
    }
    return None;
  }

  predicate ExactAt(s: seq<byte>, needle: seq<byte>, p: int) {
    0 <= p && p + |needle| <= |s| && s[p..p + |needle|] == needle
  }

  /** The last exact match if there is one, else the last fuzzy match. */
  method RFind(s: seq<byte>, needle: seq<byte>) returns (r: Option<nat>)
    requires needle != []
    ensures r.None? ==> forall p :: 0 <= p ==> !Close(s, p, needle)
    ensures r.Some? ==> Close(s, r.value, needle)
    ensures r.Some? && ExactAt(s, needle, r.value) ==> forall p :: p > r.value ==> !ExactAt(s, needle, p)
    ensures r.Some? && !ExactAt(s, needle, r.value) ==>
              (forall p :: !ExactAt(s, needle, p)) && forall p :: p > r.value ==> !Close(s, p, needle)
  {
    TooLong(s, needle);
    if |needle| > |s| {
      return None;
    }
    var pos := |s| - |needle|;
    while pos >= 0
      invariant -1 <= pos <= |s| - |needle| && forall p :: p > pos ==> !ExactAt(s, needle, p)
    {
      if s[pos..pos + |needle|] == needle {
        ExactIsClose(s, pos, needle);
        return Some(pos);
      }
      pos := pos - 1;
    }
    hide Close;
    pos := |s| - |needle|;
    while pos >= 0
      invariant -1 <= pos <= |s| - |needle| && forall p: nat :: p > pos ==> !Close(s, p, needle)
    {
      var e := NumError(s, pos, needle);
      if e.Some? {
        return Some(pos);
      }
      pos := pos - 1;
    }
    return None;
  }

  lemma TooLong(s: seq<byte>, needle: seq<byte>)
    ensures forall p: nat :: p + |needle| > |s| ==> !Close(s, p, needle)
  {
  }

  lemma {:induction false} ExactErrors(s: seq<byte>, pos: nat, needle: seq<byte>, k: nat)
    requires pos + |needle| <= |s| && s[pos..pos + |needle|] == needle && k <= |needle|
    ensures Errors(s, pos, needle, k) == 0
    decreases |needle| - k
  {
    if k < |needle| {
      assert s[pos + k] == needle[k];
      DiffZero(s[pos + k], needle[k]);
      ExactErrors(s, pos, needle, k + 1);
    }
  }

  lemma ExactIsClose(s: seq<byte>, pos: nat, needle: seq<byte>)
    requires pos + |needle| <= |s| && s[pos..pos + |needle|] == needle
    ensures Close(s, pos, needle)
  {
    forall k | 0 <= k < |needle|
      ensures Diff(s[pos + k], needle[k]) <= 2 && Errors(s, pos, needle, k) <= Allowed(|needle| - k)
    {
      assert s[pos + k] == s[pos..pos + |needle|][k];
      DiffZero(s[pos + k], needle[k]);
      ExactErrors(s, pos, needle, k);
    }
  }

  lemma BytesDiffer(a: byte, b: byte)
    ensures Diff(a, b) <= 8 && (Diff(a, b) == 0 <==> a == b) && Diff(a, b) == Diff(b, a)
  {
    DiffZero(a, b);
    assert Power2(4) == 16 && Power2(8) == 16 * Power2(4);
    DiffBound(a, b, 8);
  }
}
