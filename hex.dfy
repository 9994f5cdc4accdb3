/**
 * Base-16 integer parsing as Rust's `u32::from_str_radix(s, 16)` and
 * `u8::from_str_radix(s, 16)` perform it, and the lowercase fixed-width
 * hexadecimal rendering used to re-encode a parsed frame.
 */
module Hex {
  import opened Wrappers

  newtype u8 = x: int | 0 <= x < 0x100
  newtype u32 = x: int | 0 <= x < 0x1_0000_0000

  /** A digit of radix 16 as `char::to_digit(16)` accepts it: case-insensitive. */
  predicate IsHexDigit(c: char) {
    '0' <= c <= '9' || 'a' <= c <= 'f' || 'A' <= c <= 'F'
  }

  function DigitValue(c: char): (d: nat)
    requires IsHexDigit(c)
    ensures d < 16
  {
    if '0' <= c <= '9' then c as nat - '0' as nat
    else if 'a' <= c <= 'f' then c as nat - 'a' as nat + 10
    else c as nat - 'A' as nat + 10
  }

  predicate AllHexDigits(s: string) {
    forall i :: 0 <= i < |s| ==> IsHexDigit(s[i])
  }

  function Pow16(n: nat): (p: nat)
    ensures p >= 1
  {
    if n == 0 then 1 else 16 * Pow16(n - 1)
  }

  /**
   * The value of a run of hex digits, most significant first: each digit
   * multiplies the value read so far by 16 and adds itself.
   */
  function HexValue(s: string): (v: nat)
    requires AllHexDigits(s)
    ensures v < Pow16(|s|)
  {
    if s == [] then 0 else HexValue(s[..|s| - 1]) * 16 + DigitValue(s[|s| - 1])
  }

  /**
   * The digits `from_str_radix` reads: a leading '+' is skipped unless it is
   * the whole string (an unsigned type does not skip a '-', which is then an
   * invalid digit). Empty when the input is empty or a lone '+'.
   */
  function DigitsOf(s: string): (d: string)
    ensures |d| <= |s|
    ensures |d| == |s| || (|d| == |s| - 1 && s[0] == '+')
  {
    if |s| >= 2 && s[0] == '+' then s[1..] else if s == "+" then [] else s
  }

  /**
   * `from_str_radix(s, 16)` without the overflow check of the target type:
   * an empty digit run (empty input or a lone '+') and any character outside
   * [0-9a-fA-F] are errors.
   */
  function FromStrRadix16(s: string): (r: Option<nat>)
    ensures r.Some? ==> r.value < Pow16(|DigitsOf(s)|)
  {
    var digits := DigitsOf(s);
    if digits != [] && AllHexDigits(digits) then Some(HexValue(digits)) else None
  }

  /**
   * `u32::from_str_radix(s, 16)`: an optional '+' and then one or more hex
   * digits whose value fits in 32 bits; anything else is an error.
   */
  function U32FromStrRadix16(s: string): (r: Option<u32>)
    ensures r.Some? <==>
              (|s| >= 1 && AllHexDigits(s) && HexValue(s) < 0x1_0000_0000) ||
              (|s| >= 2 && s[0] == '+' && AllHexDigits(s[1..]) && HexValue(s[1..]) < 0x1_0000_0000)
    ensures r.Some? && AllHexDigits(s) ==> r.value as nat == HexValue(s)
    ensures r.Some? && |s| >= 2 && s[0] == '+' ==> r.value as nat == HexValue(s[1..])
  {
    FromStrRadix16Accepts(s);
    match FromStrRadix16(s)
    case None => None
    case Some(v) => if v < 0x1_0000_0000 then Some(v as u32) else None
  }

  /**
   * `u8::from_str_radix(s, 16)`: an optional '+' and then one or more hex
   * digits whose value fits in 8 bits; anything else is an error.
   */
  function U8FromStrRadix16(s: string): (r: Option<u8>)
    ensures r.Some? <==>
              (|s| >= 1 && AllHexDigits(s) && HexValue(s) < 0x100) ||
              (|s| >= 2 && s[0] == '+' && AllHexDigits(s[1..]) && HexValue(s[1..]) < 0x100)
    ensures r.Some? && AllHexDigits(s) ==> r.value as nat == HexValue(s)
    ensures r.Some? && |s| >= 2 && s[0] == '+' ==> r.value as nat == HexValue(s[1..])
  {
    FromStrRadix16Accepts(s);
    match FromStrRadix16(s)
    case None => None
    case Some(v) => if v < 0x100 then Some(v as u8) else None
  }

  /** What `from_str_radix` accepts: an optional '+' followed by one or more hex digits. */
  lemma FromStrRadix16Accepts(s: string)
    ensures FromStrRadix16(s).Some? <==>
              (|s| >= 1 && AllHexDigits(s)) || (|s| >= 2 && s[0] == '+' && AllHexDigits(s[1..]))
    ensures |s| >= 1 && AllHexDigits(s) ==> FromStrRadix16(s) == Some(HexValue(s))
    ensures |s| >= 2 && s[0] == '+' && AllHexDigits(s[1..]) ==> FromStrRadix16(s) == Some(HexValue(s[1..]))
  {
  }

  lemma {:induction false} Pow16Monotone(m: nat, n: nat)
    requires m <= n
    ensures Pow16(m) <= Pow16(n)
    decreases n
  {
    if m < n {
      Pow16Monotone(m, n - 1);
    }
  }

  /** Read from the front: the leading digit weighs 16^(|s|-1), the rest is read as a run of its own. */
  lemma {:induction false} HexValueLeadingDigit(s: string)
    requires |s| >= 1 && AllHexDigits(s)
    ensures HexValue(s) == DigitValue(s[0]) * Pow16(|s| - 1) + HexValue(s[1..])
  {
    var n := |s|;
    if n > 1 {
      var init, rest := s[..n - 1], s[1..];
      HexValueLeadingDigit(init);
      assert rest[..|rest| - 1] == init[1..] && rest[|rest| - 1] == s[n - 1] && init[0] == s[0];
      ShiftDigit(DigitValue(s[0]), Pow16(n - 2), HexValue(init[1..]), DigitValue(s[n - 1]));
    }
  }

  lemma ShiftDigit(lead: nat, p: nat, mid: nat, last: nat)
    ensures (lead * p + mid) * 16 + last == lead * (16 * p) + (mid * 16 + last)
  {
  }

  /**
   * The overflow branch of `u32::from_str_radix` cannot be taken by an input
   * of at most 8 characters, nor that of `u8::from_str_radix` by one of at most 2.
   */
  lemma NoOverflow(s: string)
    ensures |s| <= 8 ==> (U32FromStrRadix16(s).Some? <==> FromStrRadix16(s).Some?)
    ensures |s| <= 2 ==> (U8FromStrRadix16(s).Some? <==> FromStrRadix16(s).Some?)
  {
    var n := |DigitsOf(s)|;
    if |s| <= 8 {
      Pow16Monotone(n, 8);
      assert Pow16(8) == 0x1_0000_0000;
    }
    if |s| <= 2 {
      Pow16Monotone(n, 2);
      assert Pow16(2) == 0x100;
    }
  }

  /**
   * A two-character chunk as `u8::from_str_radix` reads it: two hex digits,
   * or '+' and one hex digit; anything else is an error.
   */
  lemma U8OfPair(p: string)
    requires |p| == 2
    ensures IsHexDigit(p[0]) && IsHexDigit(p[1]) ==>
              U8FromStrRadix16(p) == Some((16 * DigitValue(p[0]) + DigitValue(p[1])) as u8)
    ensures p[0] == '+' && IsHexDigit(p[1]) ==> U8FromStrRadix16(p) == Some(DigitValue(p[1]) as u8)
    ensures U8FromStrRadix16(p).Some? <==> (IsHexDigit(p[0]) || p[0] == '+') && IsHexDigit(p[1])
  {
    NoOverflow(p);
    if IsHexDigit(p[0]) && IsHexDigit(p[1]) {
      assert p[..1][..0] == [];
      assert HexValue(p[..1]) == DigitValue(p[0]);
      assert HexValue(p) == 16 * DigitValue(p[0]) + DigitValue(p[1]);
    }
    assert p[1..] == [p[1]];
    assert p[1..][..0] == [];
  }

  /** The lowercase digit of value d, as `{:x}` prints it. */
  function LowerHexDigit(d: nat): (c: char)
    requires d < 16
    ensures IsHexDigit(c) && DigitValue(c) == d
    ensures !('A' <= c <= 'F')
  {
    if d < 10 then ('0' as nat + d) as char else ('a' as nat + d - 10) as char
  }

  /** v in lowercase hex, zero-padded to exactly `width` digits (only the low `width` digits of a larger v). */
  function ToLowerHex(v: nat, width: nat): (s: string)
    ensures |s| == width && AllHexDigits(s)
  {
    if width == 0 then [] else ToLowerHex(v / 16, width - 1) + [LowerHexDigit(v % 16)]
  }

  /** Reading back a rendered value gives the value, as long as it fits the width. */
  lemma {:induction false} HexValueOfLowerHex(v: nat, width: nat)
    requires v < Pow16(width)
    ensures HexValue(ToLowerHex(v, width)) == v
  {
    if width > 0 {
      var s := ToLowerHex(v, width);
      assert s[..width - 1] == ToLowerHex(v / 16, width - 1);
      HexValueOfLowerHex(v / 16, width - 1);
    }
  }

  /** `from_str_radix` inverts the lowercase rendering of any value that fits a non-zero width. */
  lemma FromStrRadix16OfLowerHex(v: nat, width: nat)
    requires 0 < width && v < Pow16(width)
    ensures FromStrRadix16(ToLowerHex(v, width)) == Some(v)
  {
  }
}
