/** What `CanData::from_str` accepts and what it builds, stated input by input. */
module CanFrameProperties {
  import opened Wrappers
  import opened Hex
  import opened RustStr
  import opened CanFrame

  /** Every input with exactly one '#' is an identifier part, the '#', and a payload part. */
  lemma {:induction false} OneSeparatorSplits(s: string)
    requires Occurrences(s, Separator) == 1
    ensures var parts := Split(s, Separator);
            |parts| == 2 && s == parts[0] + [Separator] + parts[1]
  {
    var parts := Split(s, Separator);
    SplitShape(s, Separator);
    JoinSplit(s, Separator);
    assert Join(parts[1..], Separator) == parts[1];
  }

  /** On `id#p` the parser decides on the identifier first, then on the payload. */
  lemma {:induction false} ParseOfParts(id: string, p: string)
    requires Separator !in id && Separator !in p
    ensures ParseCanData(id + [Separator] + p) ==
              if ParseCanId(id).Err? || DecodePayload(p).None? then Err(CanDataError)
              else Ok(CanData(ParseCanId(id).value, DecodePayload(p).value))
  {
    SplitAroundSeparator(id, p, Separator);
  }

  /**
   * A standard identifier comes from exactly a 3-character part that
   * `from_str_radix` reads as a value up to 0x7FF; 0x800 to 0xFFF are refused.
   */
  lemma StandardId(s: string, v: u32)
    ensures ParseCanId(s) == Ok(Standard(v)) <==>
              |s| == 3 && FromStrRadix16(s) == Some(v as nat) && v <= MaxStandardId
  {
  }

  /**
   * An extended identifier comes from exactly an 8-character part that
   * `from_str_radix` reads as a value up to 0x3FFFFFFF; larger values are refused.
   */
  lemma ExtendedId(s: string, v: u32)
    ensures ParseCanId(s) == Ok(Extended(v)) <==>
              |s| == 8 && FromStrRadix16(s) == Some(v as nat) && v <= MaxExtendedId
  {
  }

  /**
   * The identifier part is refused exactly when its length is neither 3 nor
   * 8, `from_str_radix` fails on it (empty, a lone '+', a non-hex character),
   * or its value exceeds the bound of its kind.
   */
  lemma IdRejected(s: string)
    ensures ParseCanId(s).Err? <==>
              (|s| != 3 && |s| != 8) || FromStrRadix16(s).None? ||
              (|s| == 3 && FromStrRadix16(s).value > MaxStandardId as nat) ||
              (|s| == 8 && FromStrRadix16(s).value > MaxExtendedId as nat)
  {
  }

  /** v = lead * weight + rest with rest below the weight: v stays below limit * weight exactly when lead < limit. */
  lemma LeadingDigitDecides(v: nat, lead: nat, rest: nat, weight: nat, limit: nat)
    requires v == lead * weight + rest && rest < weight && lead < 16
    ensures v < 16 * weight
    ensures v < limit * weight <==> lead < limit
  {
    MultiplyMonotone(lead, 15, weight);
    if lead < limit {
      MultiplyMonotone(lead, limit - 1, weight);
    } else {
      MultiplyMonotone(limit, lead, weight);
    }
  }

  lemma MultiplyMonotone(a: nat, b: nat, c: nat)
    requires a <= b
    ensures a * c <= b * c
  {
  }

  /**
   * For three plain hex digits the leading digit alone decides: below 8 the
   * identifier is standard with the digits' value, from 8 on it is refused.
   */
  lemma StandardByLeadingDigit(s: string)
    requires |s| == 3 && AllHexDigits(s)
    ensures ParseCanId(s) == if DigitValue(s[0]) < 8 then Ok(Standard(HexValue(s) as u32)) else Err(CanDataError)
  {
    FromStrRadix16Accepts(s);
    HexValueLeadingDigit(s);
    assert Pow16(2) == 0x100;
    var lead, rest := DigitValue(s[0]), HexValue(s[1..]);
    LeadingDigitDecides(HexValue(s), lead, rest, 0x100, 8);
    assert U32FromStrRadix16(s) == Some(HexValue(s) as u32);
  }

  /**
   * For eight plain hex digits the leading digit alone decides: below 4 the
   * identifier is extended with the digits' value, from 4 on it is refused.
   */
  lemma ExtendedByLeadingDigit(s: string)
    requires |s| == 8 && AllHexDigits(s)
    ensures ParseCanId(s) == if DigitValue(s[0]) < 4 then Ok(Extended(HexValue(s) as u32)) else Err(CanDataError)
  {
    FromStrRadix16Accepts(s);
    HexValueLeadingDigit(s);
    assert Pow16(7) == 0x1000_0000;
    var lead, rest := DigitValue(s[0]), HexValue(s[1..]);
    LeadingDigitDecides(HexValue(s), lead, rest, 0x1000_0000, 4);
    assert U32FromStrRadix16(s) == Some(HexValue(s) as u32);
  }

  /** Decoding chunks succeeds exactly when every chunk is a byte, and then yields those bytes in order. */
  lemma {:induction false} DecodeChunksBytes(chunks: seq<string>)
    ensures DecodeChunks(chunks).Some? <==>
              forall i :: 0 <= i < |chunks| ==> U8FromStrRadix16(chunks[i]).Some?
    ensures DecodeChunks(chunks).Some? ==>
              forall i :: 0 <= i < |chunks| ==> DecodeChunks(chunks).value[i] == U8FromStrRadix16(chunks[i]).value
  {
    if chunks != [] {
      var n := |chunks| - 1;
      var init, last := chunks[..n], chunks[n];
      DecodeChunksBytes(init);
      var bytes, b := DecodeChunks(init), U8FromStrRadix16(last);
      if bytes.Some? && b.Some? {
        assert DecodeChunks(chunks) == Some(bytes.value + [b.value]);
        forall i | 0 <= i < |chunks|
          ensures U8FromStrRadix16(chunks[i]).Some?
          ensures DecodeChunks(chunks).value[i] == U8FromStrRadix16(chunks[i]).value
        {
          if i < n {
            assert chunks[i] == init[i];
          }
        }
      } else if bytes.None? {
        var i :| 0 <= i < n && U8FromStrRadix16(init[i]).None?;
        assert chunks[i] == init[i];
      }
    }
  }

  /**
   * The payload decodes exactly when every pair of characters 2i, 2i+1 is a
   * byte; byte i is then the value of that pair, and there are |p| / 2 bytes.
   */
  lemma PayloadBytes(p: string)
    ensures DecodePayload(p).Some? <==>
              forall i :: 0 <= i < |p| / 2 ==> U8FromStrRadix16(p[2 * i..2 * i + 2]).Some?
    ensures DecodePayload(p).Some? ==>
              |DecodePayload(p).value| == |p| / 2 &&
              forall i :: 0 <= i < |p| / 2 ==> DecodePayload(p).value[i] == U8FromStrRadix16(p[2 * i..2 * i + 2]).value
  {
    var chunks := ChunksExact2(p);
    DecodeChunksBytes(chunks);
    assert DecodePayload(p) == DecodeChunks(chunks);
    forall i | 0 <= i < |p| / 2
      ensures U8FromStrRadix16(p[2 * i..2 * i + 2]) == U8FromStrRadix16(chunks[i])
    {
      assert chunks[i] == p[2 * i..2 * i + 2];
    }
    if forall i :: 0 <= i < |p| / 2 ==> U8FromStrRadix16(p[2 * i..2 * i + 2]).Some? {
      assert forall i :: 0 <= i < |chunks| ==> U8FromStrRadix16(chunks[i]).Some?;
      assert DecodePayload(p).Some?;
    } else {
      var i :| 0 <= i < |p| / 2 && U8FromStrRadix16(p[2 * i..2 * i + 2]).None?;
      assert U8FromStrRadix16(chunks[i]).None?;
    }
  }

  /**
   * With an acceptable identifier, `id#p` is accepted exactly when every
   * pair of payload characters is a byte; no partial frame is ever built.
   */
  lemma ParsedPayload(id: string, p: string)
    requires Separator !in id && Separator !in p
    requires ParseCanId(id).Ok?
    ensures ParseCanData(id + [Separator] + p).Ok? <==>
              forall i :: 0 <= i < |p| / 2 ==> U8FromStrRadix16(p[2 * i..2 * i + 2]).Some?
    ensures ParseCanData(id + [Separator] + p).Ok? ==>
              var frame := ParseCanData(id + [Separator] + p).value;
              frame.canId == ParseCanId(id).value &&
              |frame.data| == |p| / 2 &&
              forall i :: 0 <= i < |p| / 2 ==> frame.data[i] == U8FromStrRadix16(p[2 * i..2 * i + 2]).value
  {
    ParseOfParts(id, p);
    PayloadBytes(p);
  }

  /** A pair that is not a byte (say "1G" or "-1") rejects the whole input. */
  lemma BadPairRejects(id: string, p: string, i: nat)
    requires Separator !in id && Separator !in p
    requires i < |p| / 2 && U8FromStrRadix16(p[2 * i..2 * i + 2]).None?
    ensures ParseCanData(id + [Separator] + p) == Err(CanDataError)
  {
    ParseOfParts(id, p);
    PayloadBytes(p);
  }

  /** An empty payload part, as in "7FF#", is accepted with no data. */
  lemma EmptyPayload(id: string)
    requires Separator !in id && ParseCanId(id).Ok?
    ensures ParseCanData(id + [Separator]) == Ok(CanData(ParseCanId(id).value, []))
  {
    ParseOfParts(id, []);
    assert id + [Separator] + [] == id + [Separator];
  }

  /** A trailing unpaired payload character is dropped, not refused: "123#ABC" parses as "123#AB". */
  lemma {:induction false} OddPayloadTruncated(id: string, p: string, c: char)
    requires Separator !in id && Separator !in p && c != Separator
    requires |p| % 2 == 0
    ensures ParseCanData(id + [Separator] + (p + [c])) == ParseCanData(id + [Separator] + p)
  {
    assert Separator !in p + [c];
    ParseOfParts(id, p);
    ParseOfParts(id, p + [c]);
    ChunksExact2DropsUnpaired(p, c);
  }
}
