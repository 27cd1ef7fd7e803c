# Serial telemetry frame decoder

A Dafny model of the decoder inside the USB serial callback of a small React
Native dashboard (`App.js`, the `onReceived` handler) and of its scratch copy
of the tokeniser (`malafat.js`). A vehicle controller sends frames of bytes;
the serial library hands the callback their upper-case hex spelling. Byte
0xFF, spelled `"FF"`, separates the bytes. For every received chunk the
callback does the following:

1. It splits the text on every occurrence of the substring `"FF"`. This is
   JavaScript `String.prototype.split`: left to right, non-overlapping, and
   not aligned to byte boundaries.
2. It drops the empty parts.
3. It reads each remaining part with `parseInt(part, 16)`.
4. It switches on the first token, the tag:
   - tags 0–3 and 8 store one payload token in `speed`, `temp`, `sumVoltage`,
     `soc` or `chargeStatus`;
   - tags 4–6 store `(hi << 8) | lo` in `distanceCovered`,
     `distanceCoveredPrevious` or `range`;
   - tag 7 stores a five-slot `faults` array;
   - any other tag changes no typed field.
5. It always sets `firstByte` to the tag, `dataLength` to the token count and
   `receivedData` to the tokens joined with `","`.

The project is organised as follows:

- `text.dfy` (`Text`) holds `Split`, `Join` and the filter, with the split/join
  round trips.
- `numerals.dfy` (`Numerals`) holds upper-case hex digits, base-16 values and
  decimal spellings.
- `int32.dfy` (`JsInt32`) models ToInt32, `<< 8`, bitwise OR and the signed
  read-back.
- `telemetry.dfy` (`TelemetryState`) holds the state record, the tag table and
  the `switch`.
- `decoder.dfy` (`Decoder`) composes these into `Tokens` and `Decode`.
- `encoder.dfy` (`Encoder`) is the sending side that the decoder assumes. The
  round trips are stated against it.
- `vectors.dfy` (`Vectors`) holds the concrete chunks.

Choices that follow the JavaScript:

- A missing payload token is JavaScript `undefined`. It is modelled as `None`
  and stored as is. Tags 0–3 and 8 store `undefined`, and so do the fault
  slots past the end of the token list.
- In `(hi << 8) | lo`, ToInt32 turns `undefined` into 0 and wraps numbers
  modulo 2^32. The shift drops the bits above bit 31. The result is read back
  as a signed 32-bit integer, so a high token of 0x800000 or more gives a
  negative or wrapped value (`JsInt32.ShlOrOverflow`).
- The state starts at 0 for the numbers, `[]` for `faults` and `undefined`
  for `receivedData` (App.js:6-18).

Edge cases, modelled as the code behaves:

- **Short payloads.** A tag whose payload is short still writes its field.
  Tags 0–3 and 8 store `undefined`, tag 7 stores `undefined` in the missing
  fault slots, and tags 4–6 read a missing token as 0. For example,
  `"07FF01FF02FF03FF04"` sets `faults` to `[1, 2, 3, 4, undefined]`
  (`Vectors.ShortFaultsExample`), and a tag 4–6 list with only the high
  token stores that token times 256, for a token below 256
  (`TelemetryState.ApplyWordShort`).
- **Chunks with no tokens.** A chunk of only delimiters changes no typed
  field, but the diagnostics still run: `firstByte` becomes `undefined`,
  `dataLength` becomes 0 and `receivedData` becomes `""`
  (`Decoder.DecodeDelimitersOnly`).
- **Charge status.** `chargeStatus` holds the payload number, so a charger
  switching on shows as 0 followed by 1, not as booleans
  (`Vectors.ChargeToggleExample`).
- **Runs of 'F'.** A run of 'F's decodes to nothing only when its length is
  even. An odd run leaves one `"F"`, which is token 15 (`Decoder.TokensOfFs`).

A framing limitation of the protocol, as the code implements it: the split is
not byte-aligned, so byte 0xFF is not the only value that breaks a frame. Any
byte other than the last whose low nibble is 0xF (0x0F, 0x1F, …, 0xEF) puts an
'F' before the delimiter. The split then consumes `"FF"` one digit early. A
frame of bytes decodes to itself exactly when no byte is 0xFF and no byte but
the last has low nibble 0xF (`Encoder.FrameRoundTrip`).

## Model

| member | source | states |
|---|---|---|
| Text.Split | App.js:70 | `data.split("FF")` always returns at least one part, and the first part is a prefix of the input |
| Text.JoinSplit | App.js:70 | joining the parts of a split with the separator gives back the original text, so the split loses nothing |
| Text.SplitPartsAvoid | App.js:70 | no part returned by the split contains the separator |
| Text.SplitSingle | App.js:70 | the split returns exactly one part if and only if the separator does not occur, and that part is then the whole input |
| Text.SplitAtSeam | App.js:70 | when nothing before a separator can form an earlier occurrence, the split cuts exactly at it |
| Text.SplitJoin | App.js:70 | parts that contain no separator and create none across a seam are split back unchanged after joining |
| Text.NonEmpty | App.js:70 | `filter(part => part.length > 0)` keeps only non-empty parts and never lengthens the list |
| Text.NonEmptyKeeps | App.js:70 | the filter keeps a part if and only if it was present and non-empty; it is the identity if and only if no part is empty |
| Text.NonEmptyAppend | App.js:70 | filtering a concatenation is concatenating the filtered halves |
| Numerals.HexVal | App.js:70 | `parseInt(part, 16)` of an n-digit part is below 16^n |
| Numerals.HexValConcat | App.js:70 | the value of two hex texts written one after the other is the first shifted left by the second's digit count plus the second |
| Numerals.HexVal255HasFF | App.js:70 | a hex part worth 255 must contain `"FF"` |
| Numerals.Hex2Edges | App.js:70 | a byte's two-digit spelling contains `"FF"` if and only if the byte is 0xFF; it ends in 'F' if and only if the low nibble is 0xF |
| Numerals.Hex2 | App.js:70 | the two-digit upper-case spelling of a byte reads back, in base 16, as that byte |
| Numerals.Decimal | App.js:121 | the decimal text of a token is non-empty digits without a leading zero that read back as the token |
| Decoder.HexVals | App.js:70 | `.map(part => parseInt(part, 16))` gives one value per part, in order, each the part read in base 16 |
| Decoder.Parts | App.js:70 | every part that survives the filter is non-empty hex text without `"FF"` |
| Decoder.Tokens | malafat.js:4 | one token per non-empty part of the split, each worth its part read in base 16 |
| Decoder.Decode | App.js:67-121 | `dataLength` is the number of non-empty parts, and only the field owned by the tag can change among the typed fields |
| Decoder.NoTokenIs255 | App.js:70 | no token ever has value 255 |
| Decoder.TokensWithoutDelimiter | malafat.js:4 | a chunk without `"FF"` gives one token worth the whole chunk, or none when it is empty |
| Decoder.NonEmptyOfFs | App.js:70 | a run of n 'F's splits into no non-empty part when n is even and into the single part "F" when n is odd |
| Decoder.TokensOfFs | App.js:70 | a run of n 'F's gives no token when n is even and the single token 15 when n is odd |
| Decoder.DecodeDelimitersOnly | App.js:70-121 | a chunk of delimiters only changes no typed field and sets `dataLength` 0, `firstByte` undefined and `receivedData` "" |
| Decoder.TokensJoin | App.js:70 | joining non-empty hex parts with "FF" and tokenising gives back their values when no part contains "FF" and no part but the last ends in 'F' |
| Decoder.NoTrailingFSeam | App.js:70 | a part without "FF" and without a trailing 'F' creates no "FF" across the seam with the next delimiter |
| Decoder.TrailingFBreaksRoundTrip | App.js:70 | "0F" and "F0" joined with "FF" read back as 0, 0 instead of 15, 240 |
| Decoder.DecodeIdempotent | App.js:75-121 | decoding the same chunk twice leaves the same state as decoding it once |
| TelemetryState.At | App.js:77 | indexing the token list gives the token inside the list and undefined past its end |
| TelemetryState.Apply | App.js:113-121 | after a chunk, `firstByte` is the first token (undefined when there is none), `dataLength` the token count, and `receivedData` the tokens' decimal spellings joined with "," |
| TelemetryState.ApplyTouchesOnlyOwner | App.js:75-112 | only the typed field owned by the tag may change; an empty list or a tag outside 0..8 changes no typed field |
| TelemetryState.Dispatch | App.js:75-112 | the `switch` changes at most the typed field the tag owns and leaves `firstByte`, `dataLength` and `receivedData` to the code after it |
| TelemetryState.ApplySingleByte | App.js:76-108 | tags 0, 1, 2, 3 and 8 store token 1 in `speed`, `temp`, `sumVoltage`, `soc` and `chargeStatus`, or undefined when the list stops at the tag |
| TelemetryState.ApplyWord | App.js:90-100 | tags 4, 5 and 6 store `t1 * 256 + t2`, which lies in 0..65535 for byte-sized tokens |
| TelemetryState.ApplyWordField | App.js:90-100 | tags 4, 5 and 6 store the shift-and-OR of payload slots 1 and 2 in `distanceCovered`, `distanceCoveredPrevious` and `range` |
| TelemetryState.ApplyWordShort | App.js:90-100 | tags 4, 5 and 6 with a short payload still write their field: with only the high token it is that token times 256, with no payload it is 0 |
| TelemetryState.ApplyFaults | App.js:102-104 | tag 7 stores five slots holding tokens 1..5 in order, undefined exactly where the list is too short |
| TelemetryState.DispatchIdempotent | App.js:75-112 | the `switch` reads only the tokens, so running it twice on the same list is running it once |
| TelemetryState.ApplyIdempotent | App.js:75-121 | applying the same token list twice equals applying it once |
| TelemetryState.ReceivedText | App.js:121 | `join(",")` of the tokens is empty exactly when there are no tokens, and starts with the first token's decimal spelling |
| TelemetryState.ReceivedTextRoundTrip | App.js:121 | splitting `receivedData` on "," gives one field per token, each the token's shortest decimal spelling, which reads back as the token |
| TelemetryState.NoCommaInDigits | App.js:121 | a decimal spelling never contains "," |
| JsInt32.Pattern | App.js:91 | ToInt32 yields a pattern below 2^32 that is congruent to the number modulo 2^32; undefined gives 0 and a value below 2^32 is kept |
| JsInt32.Shl8 | App.js:91 | `x << 8` on a 32-bit pattern keeps the low 24 bits moved up one byte: the result is 256 times the pattern modulo 2^24, below 2^32 |
| JsInt32.OrBits | App.js:91 | bitwise OR of the low k bits stays below 2^k; its value is pinned bit by bit by `OrBitsBit`, overlapping operands included |
| JsInt32.ShlOr | App.js:91 | the shift-and-OR of two tokens always lies in the signed 32-bit range -2^31..2^31-1 |
| JsInt32.Signed | App.js:91 | the signed read-back lies in -2^31..2^31-1, agrees with the pattern modulo 2^32, and keeps patterns below 2^31 |
| JsInt32.OrZero | App.js:91 | OR with 0 keeps the low k bits |
| JsInt32.OrDisjoint | App.js:91 | OR of bit-disjoint operands is their sum |
| JsInt32.OrBitsBit | App.js:91 | each of the low k bits of the OR is set exactly when that bit is set in either operand |
| JsInt32.OrSelf | App.js:91 | OR of a value with itself keeps its low k bits |
| JsInt32.ShlOrOfBytes | App.js:91 | shifting a byte-sized high token left by 8 and OR-ing a byte-sized low token gives `hi * 256 + lo`, in 0..65535 |
| JsInt32.ShlOrSplit16 | App.js:90-100 | any value in 0..65535 split into its high and low byte comes back from the shift-and-OR |
| JsInt32.ShlOrUndefinedIsZero | App.js:91 | undefined in either operand behaves exactly as 0 |
| JsInt32.ShlOrOverlap | App.js:91 | a low token of 256 overlaps the shifted high byte: `1 << 8` OR-ed with 256 is 256, not 512, as the chunk "04FF01FF100" makes App.js store |
| JsInt32.ShlOrOverflow | App.js:91 | a high token of 0x800000 shifts onto the sign bit and reads back as -2^31 |
| Encoder.EncodeFrame | App.js:70 | a frame as the sender spells it is upper-case hex text |
| Encoder.SplitJoinPrefix | App.js:70 | parts with clean seams are cut off intact before whatever text follows them |
| Encoder.FrameSurvives | App.js:70 | a transmittable frame of bytes decodes to exactly those bytes |
| Encoder.PartsBreakAtNibbleF | App.js:70 | at the first non-last byte with low nibble 0xF, the part read is that byte's high digit alone |
| Encoder.FrameBreaksAtNibbleF | App.js:70 | at the first non-last byte with low nibble 0xF (itself not 0xFF), the token read is that byte's high nibble, which differs from the byte, whatever the later bytes are |
| Encoder.FrameRoundTrip | App.js:70 | a frame of bytes decodes to itself if and only if no byte is 0xFF and no byte but the last has low nibble 0xF |
| Encoder.FrameOf | App.js:75-108 | the frame of an update starts with its tag and holds bytes only |
| Encoder.TagMatchesOwner | App.js:75-108 | the sender's tag for each field is the tag the `switch` routes to that field |
| Encoder.UpdateRoundTrip | App.js:67-121 | for every tag 0..8, a transmittable update decoded into any state shows its value in its own field, leaves every other typed field alone, and records the tag and frame length |
| Encoder.ShowsAfterApply | App.js:75-108 | applying an update's own frame stores the update's value |
| Encoder.SingleByteTransmittable | App.js:70 | a one-byte update survives if and only if its value is not 0xFF |
| Encoder.WordTransmittable | App.js:70 | a two-byte update survives if and only if its high byte's low nibble is not 0xF and its low byte is not 0xFF |
| Vectors.WorkedExample | malafat.js:1-6 | "0BFF16FF21" gives tokens 11, 22, 33; tag 11 is unknown, so only the diagnostics change |
| Vectors.FirstChunkExample | App.js:6-121 | from the start-up state, "00FF2A" sets `speed` to 42, `firstByte` to 0, `dataLength` to 2 and `receivedData` to "0,42", and nothing else |
| Vectors.SpeedExample | App.js:76-78 | "00FF2A" sets `speed` to 42 and nothing else typed |
| Vectors.DistanceExample | App.js:90-92 | "04FF01FF2C" sets `distanceCovered` to 300 |
| Vectors.ShortFaultsExample | App.js:102-104 | "07FF01FF02FF03FF04" sets `faults` to 1, 2, 3, 4 and undefined |
| Vectors.ChargeToggleExample | App.js:106-108 | "08FF00" then "08FF01" takes `chargeStatus` from 0 to 1 |

## Left out

- USB permission requests, device listing and port opening (App.js:21-62) are calls into Android and a native serial library.
- Subscribing to and removing the receive callback, and closing the port (App.js:64-67, 125-133), are lifecycle plumbing around that library. The model is the callback body for one chunk. Cross-chunk buffering does not exist in the code and is not modelled; a frame split across two chunks decodes as two frames.
- Rendering and styles (App.js:135-246) are user interface.
- The `dataDecimalArray` loop (App.js:115-119) has no observable effect.
- React batches state updates. The model applies the updates of one callback in program order to an immutable record, which gives the same final state.
- Decoder.Tokens: requires upper-case hex text. `parseInt`'s longest-prefix reading and `NaN` on other characters, and lower-case digits, are not modelled. The serial library delivers upper-case hex.
- Decoder.Decode: requires upper-case hex text, for the same reason.
- Numerals.HexVal: reads a part as an exact natural number. `parseInt` loses precision above 2^53, and this is not modelled; such parts have more than 13 hex digits.
- Numerals.Decimal: spells every token in plain decimal. JavaScript switches to exponent notation at 10^21 and above, and this is not modelled.
- The unused `type` state slot (App.js:19) and the serial port handle slot (App.js:7) are not part of the telemetry record.
