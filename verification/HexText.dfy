/** Hexadecimal numbers in commands and responses: printf's `%08x` and strtol with base 16. */
module HexText {
  import opened Bytes

  function Digit(d: int): (b: byte)
    requires 0 <= d < 16
  {
    if d < 10 then 48 + d else 87 + d
  }

  /** The value of a hexadecimal digit in either case. */
  function DigitValue(b: byte): (v: Option<int>)
    ensures v.Some? ==> 0 <= v.value < 16
  {
    if 48 <= b <= 57 then Some(b - 48)
    else if 97 <= b <= 102 then Some(b - 87)
    else if 65 <= b <= 70 then Some(b - 55)
    else None
  }

  function Hex(n: nat): (s: seq<byte>)
    ensures |s| > 0
  {
    if n < 16 then [Digit(n)] else Hex(n / 16) + [Digit(n % 16)]
  }

  /** At least `width` digits, with leading zeros. */
  function Padded(n: nat, width: nat): (s: seq<byte>) {
    var h := Hex(n);
    if |h| >= width then h else seq(width - |h|, _ => 48) + h
  }

  predicate AllDigits(s: seq<byte>) {
    forall i :: 0 <= i < |s| ==> DigitValue(s[i]).Some?
  }

  function Value(s: seq<byte>): (v: nat)
    requires AllDigits(s)
  {
    if s == [] then 0 else Value(s[..|s| - 1]) * 16 + DigitValue(s[|s| - 1]).value
  }

  function LeadingDigits(s: seq<byte>): (n: nat)
    ensures n <= |s| && AllDigits(s[..n]) && (n < |s| ==> DigitValue(s[n]).None?)
  {
    if s == [] || DigitValue(s[0]).None? then 0
    else
      var n := LeadingDigits(s[1..]);
      assert s[..1 + n] == [s[0]] + s[1..][..n];
      1 + n
  }

  predicate Space(b: byte) {
    9 <= b <= 13 || b == 32
  }

  function SkipSpaces(s: seq<byte>): (r: seq<byte>) {
    if s != [] && Space(s[0]) then SkipSpaces(s[1..]) else s
  }

  /** A leading `0x` counts only when a digit follows it. */
  function SkipPrefix(s: seq<byte>): (r: seq<byte>) {
    if |s| >= 3 && s[0] == 48 && (s[1] == 120 || s[1] == 88) && DigitValue(s[2]).Some? then s[2..] else s
  }

  function Magnitude(s: seq<byte>): (v: nat) {
    var t := SkipPrefix(s);
    Value(t[..LeadingDigits(t)])
  }

  const LONG_MAX: int := 0x7FFF_FFFF_FFFF_FFFF

  /** strtol(s, 0, 16): saturates, and reads as much as it can. */
  function ParseLong(s: seq<byte>): (v: int)
    ensures -LONG_MAX - 1 <= v <= LONG_MAX
  {
    var t := SkipSpaces(s);
    if t != [] && t[0] == 45 then
      var m := Magnitude(t[1..]);
      if m > LONG_MAX then -LONG_MAX - 1 else 0 - m
    else
      var m := Magnitude(if t != [] && t[0] == 43 then t[1..] else t);
      if m > LONG_MAX then LONG_MAX else m
  }

  lemma DigitReads(d: int)
    requires 0 <= d < 16
    ensures DigitValue(Digit(d)) == Some(d)
  {
  }

  lemma {:induction false} HexReads(n: nat)
    ensures AllDigits(Hex(n)) && Value(Hex(n)) == n
  {
    if n < 16 {
      DigitReads(n);
      assert [Digit(n)][..0] == [];
    } else {
      HexReads(n / 16);
      DigitReads(n % 16);
      var h := Hex(n / 16);
      assert (h + [Digit(n % 16)])[..|h|] == h;
    }
  }

  lemma {:induction false} ZerosRead(k: nat, h: seq<byte>)
    requires AllDigits(h)
    ensures AllDigits(seq(k, _ => 48) + h) && Value(seq(k, _ => 48) + h) == Value(h)
    decreases |h|, k
  {
    var z: seq<byte> := seq(k, _ => 48);
    if h == [] {
      assert z + h == z;
      if k > 0 {
        ZerosRead(k - 1, h);
        assert z[..k - 1] == seq(k - 1, _ => 48) + h;
      }
    } else {
      var n := |h| - 1;
      ZerosRead(k, h[..n]);
      assert (z + h)[..k + n] == z + h[..n];
      assert (z + h)[k + n] == h[n];
    }
  }

  lemma PaddedReads(n: nat, width: nat)
    ensures AllDigits(Padded(n, width)) && Value(Padded(n, width)) == n
  {
    HexReads(n);
    if |Hex(n)| < width {
      ZerosRead(width - |Hex(n)|, Hex(n));
    }
  }

  lemma AllDigitsParse(s: seq<byte>)
    requires AllDigits(s)
    ensures ParseLong(s) == if Value(s) > LONG_MAX then LONG_MAX else Value(s)
  {
    assert SkipSpaces(s) == s;
    assert SkipPrefix(s) == s;
    assert LeadingDigits(s) == |s|;
    assert s[..|s|] == s;
  }

  /** A number that was printed reads back, up to the largest long. */
  lemma PrintedParses(n: nat, width: nat)
    requires n <= LONG_MAX
    ensures ParseLong(Padded(n, width)) == n
  {
    PaddedReads(n, width);
    AllDigitsParse(Padded(n, width));
  }

  /** A number with a `0x` prefix reads up to what follows it. */
  lemma PrefixedParses(n: nat, width: nat, rest: seq<byte>)
    requires n <= LONG_MAX && (rest != [] ==> DigitValue(rest[0]).None?)
    ensures ParseLong([48, 120] + Padded(n, width) + rest) == n
  {
    hide ParseLong, Value;
    PaddedReads(n, width);
    var h := Padded(n, width);
    NumberReads([], [], [48, 120], h, rest);
    assert [] + ([] + ([48, 120] + (h + rest))) == [48, 120] + h + rest;
  }

  lemma {:induction false} LeadingAre(h: seq<byte>, rest: seq<byte>)
    requires AllDigits(h) && (rest != [] ==> DigitValue(rest[0]).None?)
    ensures LeadingDigits(h + rest) == |h|
  {
    if h == [] {
      assert h + rest == rest;
    } else {
      assert (h + rest)[1..] == h[1..] + rest && (h + rest)[0] == h[0];
      LeadingAre(h[1..], rest);
    }
  }

  lemma {:induction false} HexLength(n: nat, digits: nat, power: nat)
    requires n < power && power == Power16(digits) && digits > 0
    ensures |Hex(n)| <= digits
    decreases n
  {
    if n >= 16 {
      assert power == 16 * Power16(digits - 1);
      assert digits > 1;
      HexLength(n / 16, digits - 1, Power16(digits - 1));
    }
  }

  function Power16(k: nat): (p: nat)
    ensures p > 0
  {
    if k == 0 then 1 else 16 * Power16(k - 1)
  }

  /** `%08x` of a 32-bit number is eight digits. */
  lemma EightDigits(n: nat)
    requires n < U32
    ensures |Padded(n, 8)| == 8
  {
    assert Power16(4) == 16 * Power16(3) == 0x1_0000;
    assert Power16(8) == 16 * Power16(7) == 256 * Power16(6) == 4096 * Power16(5) == 0x1_0000 * Power16(4) == U32;
    HexLength(n, 8, U32);
  }

  /**
   What strtol makes of spaces, a sign, a prefix, digits and anything behind them: the number,
   as far as a long can hold it.
   */
  lemma NumberReads(spaces: seq<byte>, sign: seq<byte>, prefix: seq<byte>, digits: seq<byte>, rest: seq<byte>)
    requires (forall i :: 0 <= i < |spaces| ==> Space(spaces[i])) && sign in {[], [43], [45]}
    requires prefix in {[], [48, 120], [48, 88]} && digits != [] && AllDigits(digits)
    requires rest != [] ==> DigitValue(rest[0]).None?
    requires prefix == [] && digits == [48] && |rest| >= 2 ==> rest[0] !in {120, 88} || DigitValue(rest[1]).None?
    ensures ParseLong(spaces + (sign + (prefix + (digits + rest))))
            == if sign == [45] then (if Value(digits) > LONG_MAX then -LONG_MAX - 1 else 0 - Value(digits))
               else if Value(digits) > LONG_MAX then LONG_MAX else Value(digits)
  {
    var number := prefix + (digits + rest);
    SpacesSkipped(spaces, sign + number);
    MagnitudeReads(prefix, digits, rest);
    hide Magnitude, Value, SkipSpaces;
    assert number[0] == 48 || number[0] == digits[0];
    NumberStarts(number);
    if sign == [] {
      assert sign + number == number;
    } else {
      assert (sign + number)[1..] == number;
    }
  }

  lemma NumberStarts(number: seq<byte>)
    requires number != [] && DigitValue(number[0]).Some?
    ensures SkipSpaces(number) == number && number[0] !in {43, 45}
    ensures SkipSpaces([43] + number) == [43] + number && SkipSpaces([45] + number) == [45] + number
  {
  }

  lemma {:induction false} SpacesSkipped(spaces: seq<byte>, rest: seq<byte>)
    requires forall i :: 0 <= i < |spaces| ==> Space(spaces[i])
    ensures SkipSpaces(spaces + rest) == SkipSpaces(rest)
  {
    if spaces == [] {
      assert spaces + rest == rest;
    } else {
      SpacesSkipped(spaces[1..], rest);
      assert (spaces + rest)[1..] == spaces[1..] + rest;
    }
  }

  lemma MagnitudeReads(prefix: seq<byte>, digits: seq<byte>, rest: seq<byte>)
    requires prefix in {[], [48, 120], [48, 88]} && digits != [] && AllDigits(digits)
    requires rest != [] ==> DigitValue(rest[0]).None?
    requires prefix == [] && digits == [48] && |rest| >= 2 ==> rest[0] !in {120, 88} || DigitValue(rest[1]).None?
    ensures Magnitude(prefix + (digits + rest)) == Value(digits)
  {
    hide Value;
    var t := prefix + (digits + rest);
    assert SkipPrefix(t) == digits + rest by {
      if prefix == [] {
        assert t == digits + rest && (|digits| >= 2 ==> t[1] == digits[1]);
      } else {
        assert t[2..] == digits + rest && t[2] == digits[0];
      }
    }
    LeadingAre(digits, rest);
    assert (digits + rest)[..|digits|] == digits;
  }
}
