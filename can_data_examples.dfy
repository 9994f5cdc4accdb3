/**
 * Sample literals and what `CanData::from_str` makes of them, including the
 * two behaviours inherited from the library calls: a trailing unpaired
 * payload character is dropped, and a leading '+' is accepted.
 */
module CanFrameExamples {
  import opened Wrappers
  import opened Hex
  import opened RustStr
  import opened CanFrame
  import opened CanFrameProperties

  /** The value of a digit run, one more digit at a time. */
  lemma HexValueByPrefixes(s: string, k: nat)
    requires AllHexDigits(s) && 0 < k <= |s|
    ensures HexValue(s[..k]) == 16 * HexValue(s[..k - 1]) + DigitValue(s[k - 1])
  {
    assert s[..k][..k - 1] == s[..k - 1];
  }

  /** The value of a 3-digit run. */
  lemma HexValue3(s: string)
    requires |s| == 3 && AllHexDigits(s)
    ensures FromStrRadix16(s) == Some(256 * DigitValue(s[0]) + 16 * DigitValue(s[1]) + DigitValue(s[2]))
  {
    FromStrRadix16Accepts(s);
    assert s[..1][..0] == [];
    HexValueByPrefixes(s, 2);
    HexValueByPrefixes(s, 3);
    assert s[..3] == s;
  }

  lemma Standard123()
    ensures ParseCanId("123") == Ok(Standard(0x123))
  {
    HexValue3("123");
    StandardId("123", 0x123);
  }

  lemma Standard7FF()
    ensures ParseCanId("7FF") == Ok(Standard(0x7FF))
  {
    HexValue3("7FF");
    StandardId("7FF", 0x7FF);
  }

  /** Three digits can reach 0xFFF, but 0x800 is already out of the standard range. */
  lemma Standard800Rejected()
    ensures ParseCanId("800").Err?
  {
    HexValue3("800");
    IdRejected("800");
  }

  lemma StandardWithPlus()
    ensures ParseCanId("+7F") == Ok(Standard(0x7F))
  {
  }

  /** A run of n 'F' digits is the largest n-digit value. */
  lemma {:induction false} HexValueAllF(s: string)
    requires forall i :: 0 <= i < |s| ==> s[i] == 'F'
    ensures AllHexDigits(s) && HexValue(s) == Pow16(|s|) - 1
  {
    if s != [] {
      HexValueAllF(s[..|s| - 1]);
    }
  }

  /** The largest extended identifier the code admits. */
  lemma Extended3FFFFFFF()
    ensures ParseCanId("3FFFFFFF") == Ok(Extended(0x3FFF_FFFF))
  {
    var s := "3FFFFFFF";
    ExtendedByLeadingDigit(s);
    HexValueLeadingDigit(s);
    HexValueAllF(s[1..]);
    assert Pow16(7) == 0x1000_0000;
  }

  /** Eight digits can reach 0xFFFFFFFF, but 0x40000000 is already out of the extended range. */
  lemma Extended40000000Rejected()
    ensures ParseCanId("40000000").Err?
  {
    ExtendedByLeadingDigit("40000000");
  }

  lemma BadIds()
    ensures ParseCanId("12").Err? && ParseCanId("1234").Err?
    ensures ParseCanId("1234567").Err? && ParseCanId("123456789").Err?
    ensures ParseCanId("").Err? && ParseCanId("+").Err? && ParseCanId("12G").Err?
  {
  }

  lemma Pairs()
    ensures U8FromStrRadix16("DE") == Some(0xDE)
    ensures U8FromStrRadix16("+1") == Some(0x01)
    ensures U8FromStrRadix16("1G").None? && U8FromStrRadix16("-1").None? && U8FromStrRadix16("++").None?
  {
  }

  lemma EmptyPayloadFrame()
    ensures ParseCanData("7FF#") == Ok(CanData(Standard(0x7FF), []))
  {
    Standard7FF();
    EmptyPayload("7FF");
    assert "7FF" + [Separator] == "7FF#";
  }

  /** The unpaired 'A' is dropped rather than refused. */
  lemma OddPayloadFrame()
    ensures ParseCanData("123#A") == Ok(CanData(Standard(0x123), []))
  {
    Standard123();
    assert DecodePayload("A") == Some([]);
    ParseOfParts("123", "A");
    assert "123" + [Separator] + "A" == "123#A";
  }

  lemma TwoSeparatorsRejected()
    ensures ParseCanData("123##AA") == Err(CanDataError)
  {
  }

  lemma OutOfRangeFrameRejected()
    ensures ParseCanData("800#00") == Err(CanDataError)
  {
    Standard800Rejected();
    ParseOfParts("800", "00");
    assert "800" + [Separator] + "00" == "800#00";
  }

  lemma ShortIdFrameRejected()
    ensures ParseCanData("12#AA") == Err(CanDataError)
  {
  }
}
