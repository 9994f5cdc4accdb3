/**
 * The CAN frame literal `<id>#<payload>` and its parser, `CanData::from_str`.
 *
 * The identifier's width selects its kind (3 characters: standard, 8:
 * extended) and each kind has an upper bound; the payload is read as
 * consecutive two-character chunks, each a base-16 byte. Every failure is
 * the one error `CanDataError`.
 */
module CanFrame {
  import opened Wrappers
  import opened Hex
  import opened RustStr

  datatype CanId = Standard(value: u32) | Extended(value: u32)

  datatype CanData = CanData(canId: CanId, data: seq<u8>)

  /** The parser's single, opaque error. */
  datatype CanDataError = CanDataError

  const Separator: char := '#'
  const MaxStandardId: u32 := 0x7FF
  const MaxExtendedId: u32 := 0x3FFF_FFFF

  /** The range each identifier kind admits. */
  predicate ValidCanId(id: CanId) {
    match id
    case Standard(v) => v <= MaxStandardId
    case Extended(v) => v <= MaxExtendedId
  }

  /**
   * The identifier part: `u32::from_str_radix` is applied whatever the
   * length, then the pair (length, value) decides. Length 3 with a value up
   * to 0x7FF is standard, length 8 with a value up to 0x3FFFFFFF extended,
   * everything else an error.
   */
  function ParseCanId(s: string): (r: Result<CanId, CanDataError>)
    ensures r.Ok? ==> ValidCanId(r.value)
    ensures r.Ok? ==> (r.value.Standard? <==> |s| == 3) && (r.value.Extended? <==> |s| == 8)
  {
    var value := U32FromStrRadix16(s);
    if |s| == 3 && value.Some? then
      if value.value <= MaxStandardId then Ok(Standard(value.value)) else Err(CanDataError)
    else if |s| == 8 && value.Some? then
      if value.value <= MaxExtendedId then Ok(Extended(value.value)) else Err(CanDataError)
    else
      Err(CanDataError)
  }

  /**
   * The bytes of a sequence of chunks, pushed one after the other; the first
   * chunk `u8::from_str_radix` rejects makes the whole decoding fail.
   */
  function DecodeChunks(chunks: seq<string>): (r: Option<seq<u8>>)
    ensures r.Some? ==> |r.value| == |chunks|
  {
    if chunks == [] then Some([])
    else
      match DecodeChunks(chunks[..|chunks| - 1])
      case None => None
      case Some(bytes) =>
        match U8FromStrRadix16(chunks[|chunks| - 1])
        case None => None
        case Some(b) => Some(bytes + [b])
  }

  /** The payload part: its `chunks_exact(2)` decoded as bytes. */
  function DecodePayload(p: string): (r: Option<seq<u8>>)
    ensures r.Some? ==> |r.value| == |p| / 2
  {
    DecodeChunks(ChunksExact2(p))
  }

  /** `CanData::from_str` as a function of the input string. */
  function ParseCanData(s: string): (r: Result<CanData, CanDataError>)
    ensures r.Ok? ==> ValidCanId(r.value.canId)
    ensures r.Ok? ==> Occurrences(s, Separator) == 1
  {
    SplitShape(s, Separator);
    var splits := Split(s, Separator);
    if |splits| != 2 then Err(CanDataError)
    else
      match ParseCanId(splits[0])
      case Err(e) => Err(e)
      case Ok(canId) =>
        match DecodePayload(splits[1])
        case None => Err(CanDataError)
        case Some(data) => Ok(CanData(canId, data))
  }

  /** A failed chunk stays fatal however many chunks follow it. */
  lemma {:induction false} DecodeChunksFailurePersists(chunks: seq<string>, k: nat)
    requires k <= |chunks|
    requires DecodeChunks(chunks[..k]).None?
    ensures DecodeChunks(chunks).None?
    decreases |chunks| - k
  {
    if k < |chunks| {
      assert chunks[..k + 1][..k] == chunks[..k];
      DecodeChunksFailurePersists(chunks, k + 1);
    } else {
      assert chunks[..k] == chunks;
    }
  }

  /** Decoding one more chunk extends the decoded prefix by that chunk's byte. */
  lemma DecodeChunksStep(chunks: seq<string>, k: nat)
    requires k < |chunks|
    ensures DecodeChunks(chunks[..k + 1]) ==
      match DecodeChunks(chunks[..k])
      case None => None
      case Some(bytes) =>
        match U8FromStrRadix16(chunks[k])
        case None => None
        case Some(b) => Some(bytes + [b])
  {
    assert chunks[..k + 1][..k] == chunks[..k];
  }

  /**
   * The payload stage of `CanData::from_str` as the source runs it: a loop
   * over `chunks_exact(2)` that pushes each decoded byte onto a growing
   * vector and gives up at the first chunk that does not parse.
   */
  method DecodePayloadLoop(data: string) returns (r: Option<seq<u8>>)
    ensures r == DecodePayload(data)
  {
    var chunks := ChunksExact2(data);
    var canData: seq<u8> := [];
    for k := 0 to |chunks|
      invariant DecodeChunks(chunks[..k]) == Some(canData)
    {
      var value := U8FromStrRadix16(chunks[k]);
      DecodeChunksStep(chunks, k);
      match value {
        case None =>
          DecodeChunksFailurePersists(chunks, k + 1);
          return None;
        case Some(b) =>
          canData := canData + [b];
      }
    }
    assert chunks[..|chunks|] == chunks;
    return Some(canData);
  }

  /**
   * `CanData::from_str` as the source runs it: split on '#', insist on two
   * parts, classify the identifier, then decode the payload; the first
   * failure returns the error.
   */
  method FromStr(s: string) returns (r: Result<CanData, CanDataError>)
    ensures r == ParseCanData(s)
  {
    var splits := Split(s, Separator);
    if |splits| != 2 {
      return Err(CanDataError);
    }
    var canId := ParseCanId(splits[0]);
    if canId.Err? {
      return Err(CanDataError);
    }
    var data := DecodePayloadLoop(splits[1]);
    if data.None? {
      return Err(CanDataError);
    }
    return Ok(CanData(canId.value, data.value));
  }
}
