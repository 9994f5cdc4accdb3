/**
 * The canonical literal of a frame: the identifier in lowercase hex padded
 * to its kind's width (3 or 8), then '#', then each byte as two lowercase
 * hex digits. The parser reads it back to the same frame.
 */
module CanFrameEncoding {
  import opened Wrappers
  import opened Hex
  import opened RustStr
  import opened CanFrame
  import opened CanFrameProperties

  function EncodeCanId(id: CanId): (s: string)
    ensures AllHexDigits(s) && Separator !in s
    ensures |s| == if id.Standard? then 3 else 8
  {
    match id
    case Standard(v) => ToLowerHex(v as nat, 3)
    case Extended(v) => ToLowerHex(v as nat, 8)
  }

  function EncodePayload(data: seq<u8>): (s: string)
    ensures AllHexDigits(s) && Separator !in s
    ensures |s| == 2 * |data|
  {
    if data == [] then []
    else EncodePayload(data[..|data| - 1]) + ToLowerHex(data[|data| - 1] as nat, 2)
  }

  function EncodeCanData(frame: CanData): string {
    EncodeCanId(frame.canId) + [Separator] + EncodePayload(frame.data)
  }

  /** Pair i of an encoded payload is byte i in two lowercase digits. */
  lemma EncodePayloadPairs(data: seq<u8>)
    ensures forall i :: 0 <= i < |data| ==>
              EncodePayload(data)[2 * i..2 * i + 2] == ToLowerHex(data[i] as nat, 2)
  {
    forall i | 0 <= i < |data|
      ensures EncodePayload(data)[2 * i..2 * i + 2] == ToLowerHex(data[i] as nat, 2)
    {
      EncodePayloadPair(data, i);
    }
  }

  /** One pair at a time, by induction on the bytes after it. */
  lemma {:induction false} EncodePayloadPair(data: seq<u8>, i: nat)
    requires i < |data|
    ensures EncodePayload(data)[2 * i..2 * i + 2] == ToLowerHex(data[i] as nat, 2)
  {
    var init := data[..|data| - 1];
    var pre, last := EncodePayload(init), ToLowerHex(data[|data| - 1] as nat, 2);
    assert EncodePayload(data) == pre + last;
    PairOfConcat(pre, last, i);
    if i < |init| {
      EncodePayloadPair(init, i);
    }
  }

  /** Pair i of a string extended by one pair: a pair of the old string, or the new pair. */
  lemma PairOfConcat(pre: string, last: string, i: nat)
    requires |pre| % 2 == 0 && |last| == 2 && 2 * i < |pre| + 2
    ensures (pre + last)[2 * i..2 * i + 2] == if 2 * i < |pre| then pre[2 * i..2 * i + 2] else last
  {
  }

  /** `u8::from_str_radix` reads a byte's two lowercase digits back as the byte. */
  lemma ByteRoundTrip(b: u8)
    ensures U8FromStrRadix16(ToLowerHex(b as nat, 2)) == Some(b)
  {
    assert Pow16(2) == 0x100;
    FromStrRadix16OfLowerHex(b as nat, 2);
  }

  /** Decoding an encoded payload gives back its bytes. */
  lemma {:induction false} PayloadRoundTrip(data: seq<u8>)
    ensures DecodePayload(EncodePayload(data)) == Some(data)
  {
    var p := EncodePayload(data);
    var chunks := ChunksExact2(p);
    assert |chunks| == |data|;
    EncodePayloadPairs(data);
    forall i | 0 <= i < |chunks|
      ensures U8FromStrRadix16(chunks[i]) == Some(data[i])
    {
      assert chunks[i] == p[2 * i..2 * i + 2];
      ByteRoundTrip(data[i]);
    }
    DecodeChunksBytes(chunks);
    var decoded := DecodeChunks(chunks).value;
    assert forall i :: 0 <= i < |data| ==> decoded[i] == data[i];
    assert decoded == data;
    assert DecodePayload(p) == DecodeChunks(chunks);
  }

  /** The identifier part of a valid identifier reads back as that identifier. */
  lemma CanIdRoundTrip(id: CanId)
    requires ValidCanId(id)
    ensures ParseCanId(EncodeCanId(id)) == Ok(id)
  {
    assert Pow16(3) == 0x1000;
    assert Pow16(8) == 0x1_0000_0000;
    FromStrRadix16OfLowerHex(id.value as nat, if id.Standard? then 3 else 8);
  }

  /** Every frame whose identifier is in range is parsed back from its canonical literal. */
  lemma RoundTrip(frame: CanData)
    requires ValidCanId(frame.canId)
    ensures ParseCanData(EncodeCanData(frame)) == Ok(frame)
  {
    var id, p := EncodeCanId(frame.canId), EncodePayload(frame.data);
    ParseOfParts(id, p);
    CanIdRoundTrip(frame.canId);
    PayloadRoundTrip(frame.data);
  }

  /**
   * Every frame the parser produces, re-encoded canonically, parses back to
   * the same frame.
   */
  lemma ParsedRoundTrip(s: string, frame: CanData)
    requires ParseCanData(s) == Ok(frame)
    ensures ParseCanData(EncodeCanData(frame)) == Ok(frame)
  {
    RoundTrip(frame);
  }
}
