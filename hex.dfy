/**
 * Hexadecimal text as the source writes and reads it: `Number.prototype.toString(16)`,
 * `BN.toString(16, width)`, `String.prototype.padStart` and `parseInt(s, 16)`.
 */
module Hex {
  import opened Wrappers

  /** 16 to the power k. */
  function Pow16(k: nat): (r: nat)
    ensures r >= 1
  {
    if k == 0 then 1 else 16 * Pow16(k - 1)
  }

  /** The value of one digit as `parseInt` reads it in radix 16 (either case), or None. */
  function DigitValue(c: char): (d: Option<nat>)
    ensures d.Some? ==> d.value < 16
  {
    if '0' <= c <= '9' then Some(c as int - '0' as int)
    else if 'a' <= c <= 'f' then Some(c as int - 'a' as int + 10)
    else if 'A' <= c <= 'F' then Some(c as int - 'A' as int + 10)
    else None
  }

  predicate IsHexDigit(c: char) {
    DigitValue(c).Some?
  }

  predicate AllHexDigits(s: string) {
    forall i :: 0 <= i < |s| ==> IsHexDigit(s[i])
  }

  /** Every character is one of 0-9 a-f, the digits JavaScript and bn.js print. */
  predicate IsLowerHex(s: string) {
    forall i :: 0 <= i < |s| ==> '0' <= s[i] <= '9' || 'a' <= s[i] <= 'f'
  }

  /** The lower-case digit of a value below 16. */
  function DigitChar(d: nat): (c: char)
    requires d < 16
    ensures '0' <= c <= '9' || 'a' <= c <= 'f'
    ensures DigitValue(c) == Some(d)
  {
    if d < 10 then ('0' as int + d) as char else ('a' as int + d - 10) as char
  }

  /** The number a string of hex digits denotes, most significant digit first. */
  function Value(s: string): nat
    requires AllHexDigits(s)
  {
    if s == [] then 0 else 16 * Value(s[..|s| - 1]) + DigitValue(s[|s| - 1]).value
  }

  /** `n.toString(16)`: the shortest lower-case hex string of n ("0" for zero). */
  function ToHex(n: nat): (s: string)
    ensures 1 <= |s|
    ensures IsLowerHex(s) && AllHexDigits(s)
    ensures Value(s) == n
    ensures s[0] == '0' ==> n == 0
    ensures n == 0 ==> s == "0"
  {
    if n < 16 then [DigitChar(n)]
    else
      var s := ToHex(n / 16) + [DigitChar(n % 16)];
      assert s[..|s| - 1] == ToHex(n / 16);
      s
  }

  /** k copies of '0'. */
  function Zeros(k: nat): (z: string)
    ensures |z| == k
    ensures forall i :: 0 <= i < k ==> z[i] == '0'
  {
    seq(k, _ => '0')
  }

  /** `s.padStart(w, '0')`. */
  function PadStart(s: string, w: nat): (r: string)
    ensures |r| == if |s| >= w then |s| else w
    ensures r[|r| - |s|..] == s
    ensures forall i :: 0 <= i < |r| - |s| ==> r[i] == '0'
  {
    if |s| >= w then s else Zeros(w - |s|) + s
  }

  /** The zero padding of `BN.toString(16, 64)`: up to the next multiple of 64 characters. */
  function PadTo64(s: string): (r: string)
    ensures |r| % 64 == 0 && |s| <= |r| < |s| + 64
    ensures r[|r| - |s|..] == s
    ensures forall i :: 0 <= i < |r| - |s| ==> r[i] == '0'
  {
    Zeros(if |s| % 64 == 0 then 0 else 64 - |s| % 64) + s
  }

  /**
   * Padding a hex string to a multiple of 64 keeps its digits and its value; one of 1 to 64
   * digits becomes exactly 64.
   */
  lemma PadTo64Digits(s: string)
    requires 1 <= |s| && IsLowerHex(s) && AllHexDigits(s)
    ensures IsLowerHex(PadTo64(s)) && AllHexDigits(PadTo64(s))
    ensures Value(PadTo64(s)) == Value(s)
    ensures |s| <= 64 ==> |PadTo64(s)| == 64
  {
    var r := PadTo64(s);
    var k := |r| - |s|;
    assert r[..k] == Zeros(k);
    assert r == r[..k] + r[k..];
    ValueZeros(k, s);
    forall i | 0 <= i < |r| ensures '0' <= r[i] <= '9' || 'a' <= r[i] <= 'f' {
      if i >= k { assert r[i] == s[i - k]; }
    }
    if |s| <= 64 {
      assert 0 < |r| < 128 && |r| % 64 == 0;
    }
  }

  /** A hex string of 1 to w digits is padded to exactly w, keeping its digits and its value. */
  /** Hex digit strings are closed under concatenation. */
  lemma HexConcat(a: string, b: string)
    requires IsLowerHex(a) && AllHexDigits(a) && IsLowerHex(b) && AllHexDigits(b)
    ensures IsLowerHex(a + b) && AllHexDigits(a + b)
  {
    forall i | 0 <= i < |a + b| ensures '0' <= (a + b)[i] <= '9' || 'a' <= (a + b)[i] <= 'f' {
      if i >= |a| { assert (a + b)[i] == b[i - |a|]; }
    }
    forall i | 0 <= i < |a + b| ensures IsHexDigit((a + b)[i]) {
      if i >= |a| { assert (a + b)[i] == b[i - |a|]; }
    }
  }

  lemma PadStartExact(s: string, w: nat)
    requires 1 <= |s| <= w && IsLowerHex(s) && AllHexDigits(s)
    ensures |PadStart(s, w)| == w && IsLowerHex(PadStart(s, w)) && AllHexDigits(PadStart(s, w))
    ensures Value(PadStart(s, w)) == Value(s)
  {
    var r := PadStart(s, w);
    assert r == Zeros(w - |s|) + s;
    ValueZeros(w - |s|, s);
    forall i | 0 <= i < |r| ensures '0' <= r[i] <= '9' || 'a' <= r[i] <= 'f' {
      if i >= |r| - |s| { assert r[i] == s[i - (|r| - |s|)]; }
    }
  }

  /** Length of the longest prefix of s made of hex digits. */
  function DigitPrefix(s: string): (k: nat)
    ensures k <= |s|
    ensures forall i :: 0 <= i < k ==> IsHexDigit(s[i])
    ensures k < |s| ==> !IsHexDigit(s[k])
  {
    if s == [] || !IsHexDigit(s[0]) then 0 else 1 + DigitPrefix(s[1..])
  }

  /**
   * `parseInt(s, 16)`: an optional "0x"/"0X" is skipped, then the longest run of hex digits is
   * read; with no digit at all the result is NaN (None).
   */
  function ParseInt16(s: string): (r: Option<nat>)
    ensures r.None? <==> HexBody(s) == [] || !IsHexDigit(HexBody(s)[0])
    ensures s != [] && AllHexDigits(s) ==> r == Some(Value(s))
  {
    var body := HexBody(s);
    var k := DigitPrefix(body);
    assert AllHexDigits(s) ==> body == s;
    assert k == |body| ==> body[..k] == body;
    if k == 0 then None else Some(Value(body[..k]))
  }

  /** What `parseInt(s, 16)` reads digits from: s without a leading "0x" or "0X". */
  function HexBody(s: string): (b: string)
    ensures b == s || (|s| >= 2 && s[0] == '0' && (s[1] == 'x' || s[1] == 'X') && b == s[2..])
  {
    if |s| >= 2 && s[0] == '0' && (s[1] == 'x' || s[1] == 'X') then s[2..] else s
  }

  /** Leading zeros do not change a hex value. */
  lemma {:induction false} ValueZeros(k: nat, s: string)
    requires AllHexDigits(s)
    ensures AllHexDigits(Zeros(k) + s)
    ensures Value(Zeros(k) + s) == Value(s)
  {
    var t := Zeros(k) + s;
    assert AllHexDigits(t) by {
      forall i | 0 <= i < |t| ensures IsHexDigit(t[i]) {
        if i >= k { assert t[i] == s[i - k]; }
      }
    }
    if s == [] {
      assert t == Zeros(k);
      if k > 0 {
        assert t[..|t| - 1] == Zeros(k - 1) + [];
        ValueZeros(k - 1, []);
      }
    } else {
      var s' := s[..|s| - 1];
      assert t[..|t| - 1] == Zeros(k) + s';
      assert t[|t| - 1] == s[|s| - 1];
      ValueZeros(k, s');
    }
  }

  /** A hex number below 16^k takes at most k digits. */
  lemma {:induction false} ToHexLength(n: nat, k: nat)
    requires 1 <= k && n < Pow16(k)
    ensures |ToHex(n)| <= k
  {
    if n >= 16 {
      assert k >= 2;
      ToHexLength(n / 16, k - 1);
    }
  }

  /** parseInt reads back every string of hex digits written after "0x". */
  lemma ParseHexAfterPrefix(s: string)
    requires 1 <= |s| && AllHexDigits(s)
    ensures ParseInt16("0x" + s) == Some(Value(s))
  {
    var t := "0x" + s;
    assert |t| >= 2 && t[0] == '0' && t[1] == 'x';
    assert t[2..] == s;
    assert DigitPrefix(s) == |s|;
    assert s[..|s|] == s;
  }

  /**
   * bn.js 4's digit reader (`parseHex4Bits`): 'A'-'F' and 'a'-'f' as usual, any other character
   * c as `(c - 48) & 0xf`, so '0'-'9' read as themselves and 'x' reads as 8.
   */
  function LaxDigit(c: char): (d: nat)
    ensures d < 16
    ensures IsHexDigit(c) ==> d == DigitValue(c).value
    ensures c == 'x' ==> d == 8
  {
    if 'A' <= c <= 'F' then c as int - 55
    else if 'a' <= c <= 'f' then c as int - 87
    else (c as int - 48) % 16
  }

  /** `new BN(s, 16)` in bn.js 4: every character read by `LaxDigit`, most significant first. */
  function LaxValue(s: string): nat
  {
    if s == [] then 0 else 16 * LaxValue(s[..|s| - 1]) + LaxDigit(s[|s| - 1])
  }

  /** Reading a concatenation: the first part is shifted left by the second part's length. */
  lemma {:induction false} LaxValueConcat(a: string, b: string)
    ensures LaxValue(a + b) == LaxValue(a) * Pow16(|b|) + LaxValue(b)
  {
    if b == [] {
      assert a + b == a;
    } else {
      var b' := b[..|b| - 1];
      var d := LaxDigit(b[|b| - 1]);
      assert (a + b)[..|a + b| - 1] == a + b';
      assert (a + b)[|a + b| - 1] == b[|b| - 1];
      LaxValueConcat(a, b');
      assert LaxValue(a + b) == 16 * LaxValue(a + b') + d;
      ShiftDigit(LaxValue(a), Pow16(|b'|), LaxValue(b'), d);
    }
  }

  /** One more digit: 16·(x·p + y) + d = x·(16·p) + (16·y + d). */
  lemma ShiftDigit(x: int, p: int, y: int, d: int)
    ensures 16 * (x * p + y) + d == x * (16 * p) + (16 * y + d)
  {
  }

  /** On hex digits the lax reader agrees with parseInt's value. */
  lemma {:induction false} LaxValueOfHex(s: string)
    requires AllHexDigits(s)
    ensures LaxValue(s) == Value(s)
  {
    if s != [] {
      LaxValueOfHex(s[..|s| - 1]);
    }
  }

  /** The "0x" prefix reads as the two digits 0 and 8. */
  lemma LaxValueOfPrefix(s: string)
    ensures LaxValue("0x" + s) == 8 * Pow16(|s|) + LaxValue(s)
  {
    var z := "0x";
    assert LaxValue(z) == 8 by {
      assert z[..1] == ['0'] && ['0'][..0] == [];
      assert LaxValue(['0']) == 16 * LaxValue([]) + LaxDigit('0');
    }
    LaxValueConcat(z, s);
  }
}
