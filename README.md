# CAN frame literal parser — a Dafny model of `cansend`

`cansend` reads one CAN frame written as a literal `<id>#<payload>` (the
syntax of the Linux `cansend` tool) and parses it into a frame value:

- the identifier part is hexadecimal; 3 characters make a *standard*
  identifier (at most 0x7FF) and 8 characters an *extended* one (at most
  0x3FFFFFFF);
- the payload part is read as consecutive two-character chunks, each a
  hexadecimal byte;
- every failure is the single error `CanDataError`.

This project models `CanData::from_str` (src/main.rs:29-84). It also models
the three library calls whose behaviour the parser inherits: `str::split('#')`,
`from_str_radix(_, 16)` for `u32` and `u8`, and `chunks_exact(2)`. It then
proves the parser's acceptance conditions, range checks, payload contents
and a re-encoding round trip.

Files and modules:

- `wrappers.dfy` — `Wrappers`: `Option` and `Result`.
- `hex.dfy` — `Hex`: `u8`/`u32` newtypes, `from_str_radix` in radix 16 with
  its `u32`/`u8` overflow checks, and the lowercase fixed-width rendering.
- `rust_str.dfy` — `RustStr`: `str::split` with a single-character
  separator and `chunks_exact(2)`.
- `can_data.dfy` — `CanFrame`: `CanId`, `CanData`, `CanDataError`; the
  parser as the function `ParseCanData`; and the method `FromStr`, whose
  payload loop (`DecodePayloadLoop`) pushes bytes onto a vector as the
  source does. `DecodePayloadLoop` is proved equal to the function
  `DecodePayload`, and `FromStr` to the function `ParseCanData`.
- `can_data_properties.dfy` — `CanFrameProperties`: what the parser accepts
  and builds.
- `can_data_encode.dfy` — `CanFrameEncoding`: the canonical literal of a
  frame and the round trip.
- `can_data_examples.dfy` — `CanFrameExamples`: sample literals.

Three behaviours of the code are easy to miss when reading it; the model
follows the code in each:

- **Odd payloads.** `chunks_exact(2)` (src/main.rs:70) silently drops a
  trailing unpaired character rather than rejecting it, so `123#A` parses to
  standard id 0x123 with no data (`OddPayloadTruncated`, `OddPayloadFrame`).
- **Leading `'+'`.** `from_str_radix` (src/main.rs:42, src/main.rs:73) also
  accepts a leading `'+'` before at least one digit, so `+7F` is standard id
  0x7F and the payload pair `+1` is the byte 0x01 (`FromStrRadix16Accepts`,
  `U8OfPair`, `StandardWithPlus`, `Pairs`).
- **Extended range.** The 29-bit extended identifiers of the CAN 2.0B
  standard end at 0x1FFFFFFF, but the code checks against 0x3FFFFFFF
  (src/main.rs:52), and so does the model (`Extended3FFFFFFF`).

## Model

The encoder members (`LowerHexDigit`, `ToLowerHex`, `EncodeCanId`,
`EncodePayload`, `EncodePayloadPairs`, `EncodePayloadPair`) have no counterpart in the code: they
exist only as the inverse of the parsing lines they cite, for the round trip.

| member | source | states |
|---|---|---|
| Hex.HexValue | src/main.rs:42 | the value of a run of n hex digits, read most significant first, is below 16^n |
| Hex.FromStrRadix16 | src/main.rs:42 | a parsed value is below 16 to the power of the number of digits after an optional '+' |
| Hex.U32FromStrRadix16 | src/main.rs:42 | `u32::from_str_radix` succeeds exactly when the input is one or more hex digits, or '+' and one or more hex digits, whose value is below 2^32; the result is the value of those digits |
| Hex.U8FromStrRadix16 | src/main.rs:73 | `u8::from_str_radix` succeeds exactly when the input is one or more hex digits, or '+' and one or more hex digits, whose value is below 2^8; the result is the value of those digits |
| Hex.FromStrRadix16Accepts | src/main.rs:42-43 | accepted inputs are exactly a non-empty run of hex digits, or '+' followed by one; the value is that of the digits; empty input and a lone '+' are refused |
| Hex.NoOverflow | src/main.rs:42-57 | the overflow error of `u32` cannot happen for at most 8 characters, nor that of `u8` for at most 2 |
| Hex.HexValueLeadingDigit | src/main.rs:42 | a digit run's value is its leading digit times 16^(n-1) plus the value of the remaining digits |
| Hex.U8OfPair | src/main.rs:73-75 | a 2-character chunk is a byte exactly when it is two hex digits (value 16·hi+lo) or '+' and one hex digit (value of that digit) |
| Hex.LowerHexDigit | src/main.rs:73 | the lowercase digit of d is a hex digit of value d and is not upper case |
| Hex.ToLowerHex | src/main.rs:42 | the rendering has exactly `width` characters, all hex digits |
| Hex.HexValueOfLowerHex | src/main.rs:42 | reading back the rendering of a v below 16^width gives v |
| Hex.FromStrRadix16OfLowerHex | src/main.rs:42 | `from_str_radix` inverts the rendering for a non-zero width |
| RustStr.Occurrences | src/main.rs:32 | the count is 0 exactly when the element is absent, and is at most the length |
| RustStr.Split | src/main.rs:32-33 | `split` always yields at least one part (the empty string gives one empty part) |
| RustStr.SplitShape | src/main.rs:32-35 | `split` yields exactly one more part than there are separators, and no part contains a separator |
| RustStr.JoinSplit | src/main.rs:32-33 | joining the parts with the separator gives back the input |
| RustStr.SplitWithoutSeparator | src/main.rs:32-35 | a string without separator splits into itself alone |
| RustStr.SplitAroundSeparator | src/main.rs:32-35 | `a#b` with separator-free a and b splits into exactly [a, b] |
| RustStr.ChunksExact2 | src/main.rs:67-71 | there are floor(n/2) chunks and chunk i is elements 2i and 2i+1 |
| RustStr.ChunksExact2DropsUnpaired | src/main.rs:70 | one element past an even-length prefix adds no chunk |
| CanFrame.ParseCanId | src/main.rs:39-61 | an accepted identifier is in its kind's range, is standard exactly for length 3 and extended exactly for length 8 |
| CanFrame.DecodeChunks | src/main.rs:66-78 | a successful decoding yields one byte per chunk |
| CanFrame.DecodePayload | src/main.rs:63-80 | a decoded payload has floor(k/2) bytes for k payload characters |
| CanFrame.ParseCanData | src/main.rs:31-83 | an accepted input contains exactly one '#' and yields an identifier in range; with zero or several '#' the result is the error |
| CanFrame.DecodeChunksFailurePersists | src/main.rs:73-76 | once a chunk fails, the whole decoding fails whatever follows |
| CanFrame.DecodePayloadLoop | src/main.rs:66-78 | the push loop with early error return computes exactly the payload decoding |
| CanFrame.FromStr | src/main.rs:31-83 | the step-by-step parser computes exactly `ParseCanData` |
| CanFrameProperties.OneSeparatorSplits | src/main.rs:32-37 | an input with exactly one '#' is its identifier part, the '#', and its payload part |
| CanFrameProperties.ParseOfParts | src/main.rs:39-82 | on `id#p` the result is the error if the identifier or the payload fails, and otherwise the frame of both |
| CanFrameProperties.StandardId | src/main.rs:42-50 | `Standard(v)` comes exactly from a 3-character part read as v with v ≤ 0x7FF; 0x800–0xFFF are refused |
| CanFrameProperties.ExtendedId | src/main.rs:42-57 | `Extended(v)` comes exactly from an 8-character part read as v with v ≤ 0x3FFFFFFF |
| CanFrameProperties.IdRejected | src/main.rs:42-58 | the identifier is refused exactly when its length is not 3 or 8, it does not parse, or its value exceeds its kind's bound |
| CanFrameProperties.LeadingDigitDecides | src/main.rs:45-52 | with v = lead·w + rest and rest < w, v stays below limit·w exactly when lead < limit |
| CanFrameProperties.StandardByLeadingDigit | src/main.rs:44-50 | for 3 plain hex digits the id is standard with their value when the leading digit is below 8, and refused otherwise |
| CanFrameProperties.ExtendedByLeadingDigit | src/main.rs:51-57 | for 8 plain hex digits the id is extended with their value when the leading digit is below 4, and refused otherwise |
| CanFrameProperties.DecodeChunksBytes | src/main.rs:66-78 | decoding succeeds exactly when every chunk is a byte, and byte i is then chunk i's value |
| CanFrameProperties.PayloadBytes | src/main.rs:63-80 | the payload decodes exactly when every pair 2i, 2i+1 is a byte; it then has floor(k/2) bytes and byte i is pair i's value |
| CanFrameProperties.ParsedPayload | src/main.rs:63-82 | with a valid identifier, `id#p` is accepted exactly when every pair is a byte; the frame then has that identifier, floor(k/2) bytes, byte i from pair i |
| CanFrameProperties.BadPairRejects | src/main.rs:73-76 | a single pair that is not a byte rejects the whole input, so no partial frame is returned |
| CanFrameProperties.EmptyPayload | src/main.rs:63-82 | `id#` with an acceptable id gives that identifier and empty data |
| CanFrameProperties.OddPayloadTruncated | src/main.rs:67-71 | `id#p` followed by one more payload character parses exactly as `id#p` when p has even length |
| CanFrameEncoding.EncodeCanId | src/main.rs:39-61 | the identifier renders as 3 (standard) or 8 (extended) hex digits, none of them '#' |
| CanFrameEncoding.EncodePayload | src/main.rs:63-80 | the payload renders as 2 hex digits per byte, none of them '#' |
| CanFrameEncoding.EncodePayloadPairs | src/main.rs:67-71 | pair i of the rendered payload is byte i in two lowercase digits |
| CanFrameEncoding.EncodePayloadPair | src/main.rs:67-71 | for a single index i, pair i of the rendered payload is byte i in two lowercase digits |
| CanFrameEncoding.ByteRoundTrip | src/main.rs:73 | `u8::from_str_radix` reads a byte's two lowercase digits back as that byte |
| CanFrameEncoding.PayloadRoundTrip | src/main.rs:63-80 | decoding a rendered payload gives back its bytes |
| CanFrameEncoding.CanIdRoundTrip | src/main.rs:39-61 | an identifier in range reads back from its rendering |
| CanFrameEncoding.RoundTrip | src/main.rs:31-83 | every frame with an identifier in range parses back from its canonical literal |
| CanFrameEncoding.ParsedRoundTrip | src/main.rs:31-83 | every frame the parser produces parses back from its canonical literal |
| CanFrameExamples.HexValue3 | src/main.rs:42 | a 3-digit run reads as 256·d0 + 16·d1 + d2 |
| CanFrameExamples.Standard123 | src/main.rs:44-46 | `123` is `Standard(0x123)` |
| CanFrameExamples.Standard7FF | src/main.rs:44-46 | `7FF` is `Standard(0x7FF)` |
| CanFrameExamples.Standard800Rejected | src/main.rs:45-48 | `800` is refused |
| CanFrameExamples.StandardWithPlus | src/main.rs:42-46 | `+7F` is `Standard(0x7F)` |
| CanFrameExamples.Extended3FFFFFFF | src/main.rs:51-53 | `3FFFFFFF` is the extended identifier 0x3FFFFFFF, the largest the code admits |
| CanFrameExamples.Extended40000000Rejected | src/main.rs:52-55 | `40000000` is refused |
| CanFrameExamples.BadIds | src/main.rs:58 | identifiers of length 2, 4, 7, 9, 0, a lone '+' and `12G` are refused |
| CanFrameExamples.Pairs | src/main.rs:73-75 | `DE` is 0xDE, `+1` is 0x01; `1G`, `-1`, `++` are not bytes |
| CanFrameExamples.EmptyPayloadFrame | src/main.rs:63-82 | `7FF#` is standard 0x7FF with no data |
| CanFrameExamples.OddPayloadFrame | src/main.rs:67-71 | `123#A` is standard 0x123 with no data |
| CanFrameExamples.TwoSeparatorsRejected | src/main.rs:35-37 | `123##AA` is refused |
| CanFrameExamples.OutOfRangeFrameRejected | src/main.rs:45-48 | `800#00` is refused |
| CanFrameExamples.ShortIdFrameRejected | src/main.rs:58 | `12#AA` is refused |

## Left out

- `main()` (src/main.rs:86-129): the clap command-line setup (help and
  version text, the `add` subcommand, the baud-rate value list and
  validator) and the `unreachable!` subcommand match. This is argument
  handling and process I/O, with nothing to prove about the parser.
- Printing the parsed frame with `println!` and the `Debug` rendering
  (src/main.rs:120, src/main.rs:123-126): output formatting with no stated
  contract.
- The `pcan_basic` import and the `peak` hardware feature (src/main.rs:2,
  src/main.rs:94): a foreign hardware library. Nothing is sent on a bus.
- The `Display` impl of `CanDataError` (src/main.rs:23-27): a constant
  string.
- The `None =>` arms of `splits.get(0)` and `splits.get(1)` (src/main.rs:40,
  src/main.rs:64) cannot be reached after the two-part check. The model
  indexes the two parts directly.
- CanFrame.ParseCanId: Rust's `can_id.len()` counts UTF-8 bytes and the
  model counts characters. The result is the same because `from_str_radix`
  accepts only ASCII, and ASCII characters are one byte each.
- Hex.FromStrRadix16: Rust checks for overflow after each digit, while the
  model checks the final value once. The result is the same because the
  partial values never decrease. The `ParseIntError` kinds are dropped
  because the parser discards them.
- ParseCanData and FromStr work on `seq<char>`. Rust's borrowed `&str` and
  its slices, and the allocation of the `Vec`s, are not modelled.
