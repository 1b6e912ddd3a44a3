# Remote ID decoding from WiFi beacons, in Dafny

wifi-capture listens on a WiFi interface in monitor mode. It picks out 802.11
beacons that carry an ASTM F3411 (Open Drone ID) broadcast in a Vendor
Specific element (element ID 221, OUI type 13) and decodes the messages
packed inside. This project models the decode engine and proves properties
of it:

- **The three message decoders**:
  - Basic ID, type 0 (`base_message.dfy`);
  - Location/Vector, type 1 (`position_vector_message.dfy`);
  - System, type 4 (`system_message.dfy`).

  Each turns a byte slice into a record or a `MessageError` (`message.dfy`).
- **The dispatcher** `AnyMessage::from_bytes` (`any_message.dfy`). The high
  nibble of byte 0 picks the decoder, which gets the bytes after byte 0.
- **The packet path of `main.rs`** (`capture.dfy`):
  - the radiotap walk;
  - the 100-byte gate of `process_packet`;
  - the check on the first vendor element;
  - the 25-byte pack loop that keeps the last identity and the last
    coordinates;
  - the second dispatcher `create_special_message`.
- **Support modules**:
  - `bytes.dfy`: bytes and little-endian integers;
  - `utf8.dfy`: `str::from_utf8`, with its error index and length,
    checked against the UTF-8 syntax of section 4 of RFC 3629;
  - `trim.dfy`: `trim_end_matches` and `trim_end` over the Unicode
    White_Space property.
- **Concrete instances** (`fixture.dfy`): the captured packet of the
  capture test and the Basic ID tests, stated as lemmas.

## How the code's behaviour is represented

- **Panics.** Rust panics are values: `Outcome<T>` is `Returned(T)` or
  `Panicked(p)`. Here `p` is an out-of-range index, a `u8` overflow (debug
  build semantics) or an `unwrap` of an error.
- **Frame parser.** libwifi's `parse_frame` is a function parameter. It
  returns a beacon's vendor elements, some other frame, or `None` for a
  parse error.
- **Step-by-step code.** Code that works in steps is written as methods
  with loops or cursors:
  - `ParseRadiotap`;
  - `ParseMgt` and its pack loop `RunPacks`, which updates the upload
    record field by field; the loop takes the pack decoder as a parameter
    and `ParseMgt` passes it `AnyMessage::from_bytes`;
  - `ProcessPacket`;
  - the System decoder's cursor chain.

  Each method is proved equal to a specification function. The lemmas
  are stated about those functions.
- **Encoders.** The Location and System decoders are paired with encoders
  written here as their inverses. The round trips are proved in both
  directions.

### Behaviour of the code that a reader may not expect
- **Bad classification region.** The System decoder reports a region
  outside 1..3 as `UnknownMessageType(1)`; there is no error kind of its
  own (src/message/system_message.rs:67-70).
- **Bad packs abort the beacon.** A pack that does not decode is not
  skipped: `unwrap` panics and the whole beacon is abandoned. An
  out-of-range pack slice panics as well; the bounds are not validated
  first (src/main.rs:85-88).
- **First vendor element only.** Only `vendor_specific[0]` is examined; no
  search is made for the element with the Remote ID OUI type
  (src/main.rs:77).
- **Decoders do not see byte 0.** The dispatcher passes `data[1..]` to each
  decoder, not the whole pack (src/message/mod.rs:24).

## Model

| member | source | states |
|---|---|---|
| Message.Discriminant | src/message/message.rs:14-17 | `MessageType` has the two discriminants 0 and 1, one per variant |
| MessageDispatch.DiscriminantsAreMessageTypes | src/message/message.rs:14-17 | the discriminants are the Basic ID and Location `MESSAGE_TYPE` codes |
| Message.Decimal | src/message/message.rs:24 | `{}` of a number is a non-empty digit string with no leading zero |
| Message.DecimalRoundTrip | src/message/message.rs:24 | those digits read back to the number |
| Message.Hex2 | src/message/message.rs:28 | `{:02X}` is exactly two upper-case hex digits whose value is the byte |
| Message.Display | src/message/message.rs:20-31 | the message kind can be read off the text: each kind's text, and only that kind's, starts with its own prefix |
| Message.Utf8ErrorText | src/message/message.rs:25-26 | the `Utf8Error` text starts with "invalid utf-8 sequence of " exactly when an error length is known, otherwise with "incomplete utf-8 byte sequence from index ", and ends in the decimal error index |
| Message.DisplayLayout | src/message/message.rs:21-30 | `Display` covers all three kinds; the length text has the expected length, then the actual one, as digits that read back; the type text ends in the type's two hex digits |
| Fixtures.DisplayLengthExample | src/message/message.rs:23-24 | the exact text for `InsufficientLength(24, 23)` |
| Fixtures.DisplayTypeExample | src/message/message.rs:27-28 | the exact text for `UnknownMessageType(0x0F)` |
| BaseMessageDecoder.FromBytesAsWritten | src/message/base_message.rs:29-69 | as written: under 23 bytes gives `InsufficientLength(23, len)`; the only panic is `IndexOutOfRange(24, 23)` on a 23-byte input; a record needs 24 bytes, has nibble-sized types and takes `reserved` from bytes 21..24 |
| BaseMessageDecoder.FromBytes | src/message/base_message.rs:29-69 | as intended: never panics; under 24 bytes always fails; every error is a length error (with the actual length, below the expected one) or a UTF-8 error; every record is the one the code as written returns |
| BaseMessageDecoder.FromBytesOutcomes | src/message/base_message.rs:29-69 | fewer than 23 bytes gives `InsufficientLength(23, len)`; a record comes exactly when there are at least 24 bytes and bytes 1..21 are well-formed UTF-8; otherwise `InvalidUtf8` carries `from_utf8`'s error, whose index lies inside the identity field |
| BaseMessageDecoder.AsWrittenPanicsAt23 | src/message/base_message.rs:30-61 | as written, every 23-byte input with valid identity bytes panics on `data[21..24]` |
| BaseMessageDecoder.CorrectedAgreesElsewhere | src/message/base_message.rs:58-61 | the corrected decoder returns `InsufficientLength(24, 23)` there and agrees with the code as written at every other length |
| BaseMessageDecoder.FromBytesFields | src/message/base_message.rs:38-61 | ID type and UA type are below 16 and rebuild byte 0; `reserved` is bytes 21..24; `uas_id` is the decoded text of bytes 1..21 with trailing NULs, then trailing white space, cut off |
| BaseMessageDecoder.TrimUasIdSplits | src/message/base_message.rs:50-52 | the text is the identity, then white space, then NULs; the identity does not end in white space, and NULs before trailing white space survive |
| BaseMessageDecoder.FromBytesReadsOnlyPrefix | src/message/base_message.rs:43-61 | inputs that agree on bytes 0..24 decode alike, and the identity depends on bytes 1..21 only |
| Trim.TrimEndMatches | src/message/base_message.rs:50 | the result is a prefix, only the character follows it, and it does not end in that character |
| Trim.TrimEnd | src/message/base_message.rs:51 | the result is a prefix, only white space follows it, and it does not end in white space |
| Trim.TrimEndMatchesPadding | src/message/base_message.rs:50 | NUL padding of any length is removed |
| Trim.TrimEndPadding | src/message/base_message.rs:51 | white-space padding of any length is removed |
| Trim.TrimOfTrimmed | src/message/base_message.rs:50-52 | both trims are idempotent |
| Utf8.FromUtf8 | src/message/base_message.rs:47 | `from_utf8` yields at most one character per byte, and its error index lies inside the input |
| Utf8.StepAt | src/message/base_message.rs:47 | one decoding step consumes 1 to 4 bytes inside the input; an invalid sequence has error length 1 to 3 inside the input; a missing length means fewer than 4 bytes remained |
| Utf8.FromUtf8IsWellFormed | src/message/base_message.rs:47 | `from_utf8` succeeds exactly on the well-formed UTF-8 of RFC 3629 |
| Utf8.FromUtf8Error | src/message/base_message.rs:47-54 | on failure, `valid_up_to` ends the longest well-formed prefix |
| Utf8.StepIsUtf8Char | src/message/base_message.rs:47 | one decoding step succeeds exactly on a UTF8-char and consumes exactly that character |
| Utf8.AsciiDecodes | src/message/base_message.rs:47 | bytes below 0x80 decode one to one to the characters with those codes |
| Utf8.WellFormedExcludes | src/message/base_message.rs:47 | well-formed UTF-8 never contains 0xC0, 0xC1 or 0xF5..0xFF |
| Utf8.ForbiddenByteRejected | src/message/base_message.rs:47-54 | any such byte, 0xFF included, makes the identity invalid |
| Fixtures.TrailingSpacesTrimmed | src/message/base_message.rs:89-111 | 0xA5, "DroneBase" padded with spaces, then fe ed ca decodes to ID type 0xA, UA type 5, "DroneBase" and fe ed ca |
| Fixtures.TrailingNulsTrimmed | src/message/base_message.rs:133-149 | "BaseMsg" padded with NULs decodes to "BaseMsg" |
| Fixtures.LeadByteFFRejected | src/message/base_message.rs:121-130 | a lead byte 0xFF fails with `InvalidUtf8` at index 0, error length 1 |
| Fixtures.TwentyThreeZeros | src/message/base_message.rs:114-118 | 23 zero bytes: the code as written panics; the corrected decoder gives `InsufficientLength(24, 23)` |
| Fixtures.NulBeforeSpaceSurvives | src/message/base_message.rs:50-52 | "ab\0 " trims to "ab\0" |
| Bytes.I32RoundTrip | src/message/position_vector_message.rs:88-93 | `i32::from_le_bytes` inverts the little-endian encoding of every `i32`, the minimum and maximum included, and the encoding inverts it on every 4 bytes |
| Bytes.I16RoundTrip | src/message/position_vector_message.rs:96-98 | the same for `i16` and 2 bytes |
| Bytes.U16RoundTrip | src/message/position_vector_message.rs:109 | the same for `u16` |
| Bytes.U32RoundTrip | src/message/system_message.rs:132-135 | the same for `u32` |
| Bytes.LeU16 | src/main.rs:181 | `u16::from_le_bytes` is the low byte plus 256 times the high byte |
| Bytes.LeU32 | src/message/system_message.rs:133-135 | `u32::from_le_bytes` is the little-endian value of the 4 bytes |
| Bytes.LeI32 | src/message/position_vector_message.rs:88-93 | `i32::from_le_bytes` is that value read as two's complement |
| Bytes.LeI16 | src/message/position_vector_message.rs:96-98 | `i16::from_le_bytes` is the 2-byte value read as two's complement |
| Bytes.AsInt8 | src/message/position_vector_message.rs:84-85 | `as i8` keeps bytes below 0x80 and subtracts 256 from the others |
| PositionVectorDecoder.FromBytes | src/message/position_vector_message.rs:68-137 | a record exactly at 24 bytes or more, otherwise `InsufficientLength(24, len)`; nibble fields are below 16, the height type below 4, and the direction flag equals the speed multiplier |
| PositionVectorDecoder.FromBytesLength | src/message/position_vector_message.rs:70-72 | fewer than 24 bytes fails with `InsufficientLength(24, len)`; 24 or more always decode |
| PositionVectorDecoder.StatusByteLayout | src/message/position_vector_message.rs:75-80 | byte 0 is run status, reserved flag, height type (at most 3) and bit 0; the direction flag and the speed multiplier always agree |
| PositionVectorDecoder.FieldBytes | src/message/position_vector_message.rs:83-114 | each multi-byte field re-encodes little-endian to its bytes; the accuracy nibbles and the reserved byte are the stated nibbles and bytes |
| PositionVectorDecoder.FromBytesToBytes | src/message/position_vector_message.rs:68-116 | every encodable record decodes back from its 24-byte encoding |
| PositionVectorDecoder.ToBytesFromBytes | src/message/position_vector_message.rs:68-116 | every decoded record is encodable; its encoding is the input's first 24 bytes with the high nibbles of bytes 19 and 22 cleared |
| PositionVectorDecoder.FromBytesDiscards | src/message/position_vector_message.rs:101-114 | two inputs decode alike exactly when they agree on their first 24 bytes, apart from the high nibbles of bytes 19 and 22 |
| PositionVectorDecoder.FullTrackAngle | src/message/position_vector_message.rs:40-46 | the full track angle is never below the raw angle and at most 435, so it fits `u16` |
| PositionVectorDecoder.GroundSpeedScaled | src/message/position_vector_message.rs:48-54 | the scaled speed lies in -1280..1270 |
| PositionVectorDecoder.FlagsCoupled | src/message/position_vector_message.rs:40-54 | a decoded record adds 180 exactly when bit 0 of byte 0 is set, and keeps the raw angle otherwise; it multiplies its speed by 10 when bit 0 is set and keeps it otherwise |
| SystemMessageDecoder.FromBytes | src/message/system_message.rs:51-165 | the cursor chain computes the fixed-offset record, with the error cases |
| SystemMessageDecoder.FixedLayout | src/message/system_message.rs:51-165 | the System decoder the dispatcher calls: returns a record exactly when there are at least 24 bytes and the region is 1..3; every error is `InsufficientLength(24, len)` or `UnknownMessageType(1)`; the reserved byte is present exactly beyond 24 bytes |
| SystemMessageDecoder.FixedLayoutOutcomes | src/message/system_message.rs:53-70 | fewer than 24 bytes gives exactly `InsufficientLength(24, len)`; at 24 bytes or more, a region outside 1..3 gives `UnknownMessageType(1)`, and any other region gives a record |
| SystemMessageDecoder.StatusByteLayout | src/message/system_message.rs:61-72 | the region is 1..3; `reserved_bits` is the region's upper two bits; coordinate system, region and station type rebuild byte 0 |
| SystemMessageDecoder.StatusByteDecodes | src/message/system_message.rs:61-72 | a byte built from a coordinate system, a valid region and a station type decodes back to them |
| SystemMessageDecoder.FieldBytes | src/message/system_message.rs:75-140 | every optional field of the chain is present; each field re-encodes little-endian to the bytes at its fixed offset (1, 5, 9, 11, 12, 14, 16, 17, 18, 20) |
| SystemMessageDecoder.ReservedPresence | src/message/system_message.rs:142-146 | `reserved` is `Some(data[24])` exactly when there are 25 bytes or more |
| SystemMessageDecoder.LongerInputKeepsFields | src/message/system_message.rs:83-146 | appending bytes never removes a field, and changes only the reserved byte |
| SystemMessageDecoder.FixedLayoutToBytes | src/message/system_message.rs:51-165 | every encodable record decodes back from its encoding |
| SystemMessageDecoder.ToBytesFixedLayout | src/message/system_message.rs:51-165 | every decoded record is encodable and encodes to the bytes it was read from: bytes 0..24, plus the 25th when there is one |
| MessageDispatch.TypeNibble | src/message/mod.rs:23 | the type is below 16, and with the low nibble it rebuilds byte 0 |
| MessageDispatch.FromBytes | src/message/mod.rs:18-38 | empty input gives `InsufficientLength(1, 0)`; a record's kind is Basic ID, Location or System exactly when the type nibble is 0, 1 or 4; an unknown-type error other than the System decoder's code 1 carries a nibble outside 0, 1, 4 |
| MessageDispatch.DispatchDivergesAt24 | src/message/mod.rs:26-28 | on a 24-byte type-0 input with well-formed bytes 2..22, the Basic ID decoder as written panics with `IndexOutOfRange(24, 23)` on the content, and the modelled dispatcher returns `InsufficientLength(24, 23)` |
| MessageDispatch.PacksAgree | src/main.rs:85-88 | on a 25-byte pack, the only length the pack loop passes, the Basic ID decoder as written and the corrected one agree |
| MessageDispatch.DispatchTable | src/message/mod.rs:18-38 | empty input gives `InsufficientLength(1, 0)`; nibbles 0, 1 and 4 give exactly their decoder's record or error on `data[1..]`; any other nibble gives `UnknownMessageType(nibble)` |
| MessageDispatch.KindMatchesNibble | src/message/mod.rs:26-36 | the record kind always matches the nibble |
| MessageDispatch.LowNibbleIgnored | src/message/mod.rs:23-24 | inputs that differ only in the low nibble of byte 0 decode alike |
| MessageDispatch.ShortContent | src/message/mod.rs:24-35 | a type 1 or type 4 input shorter than 25 bytes fails with `InsufficientLength(24, len - 1)` |
| MessageDispatch.FramedRoundTrip | src/message/mod.rs:30-35 | a Location or System record framed with its type byte, whatever the low nibble, dispatches back to itself |
| Capture.ParseRadiotap | src/main.rs:159-189 | the loop computes the field walk: metrics from signal, rate and channel fields, a stop at the first unknown field type, the frame after the `data[2]` header bytes, or the panic of the first out-of-range read |
| Capture.Walk | src/main.rs:167-186 | every panic of the field walk is an out-of-range read at an index from the input length up to one past the header |
| Capture.Radiotap | src/main.rs:159-189 | a returned frame is `data[data[2]..]`, with `data[2]` inside the input; every panic is an out-of-range read at or past the end |
| Capture.WalkInBounds | src/main.rs:167-186 | the walk cannot panic when two bytes follow the header |
| Capture.RadiotapProperties | src/main.rs:159-189 | the frame returned is `data[data[2]..]`; at least `data[2] + 2` bytes never panic; an empty header, or one whose first byte is no known field type, leaves every metric 0 |
| Fixtures.PacketRadiotap | src/main.rs:224-235 | the captured packet has all metrics 0 and a frame starting at byte 38 |
| Capture.ProcessPacket | src/main.rs:150-157 | the method computes the gate, then the radiotap walk, then the management-frame step |
| Capture.Processed | src/main.rs:150-157 | nothing is done exactly when the packet is shorter than 100 bytes; an outcome for the frame means the radiotap walk returned |
| Capture.ProcessedGate | src/main.rs:150-157 | a packet shorter than 100 bytes is dropped before anything is read; for a longer packet whose radiotap walk returns (always so when it holds `packet[2] + 2` bytes), the frame parser sees exactly `packet[packet[2]..]` and its outcome or panic is the packet's |
| Capture.ParseMgt | src/main.rs:70-113 | the method computes `Mgt`: parse error, not a beacon, not Remote ID, the collected record, or the panic |
| Capture.RunPacks | src/main.rs:80-103 | the loop, updating the record field by field, computes the pack fold from pack 0 with the empty record, after the panics of the header reads at bytes 0 and 3 |
| Capture.Mgt | src/main.rs:70-112 | a parse error and a non-beacon frame are reported as such, and exactly then; a panic or a Remote ID verdict only comes from a beacon |
| Capture.BeaconOutcome | src/main.rs:74-104 | a beacon with no vendor element panics; a record comes only from a first element with ID 221 and OUI type 13 |
| Capture.CollectPacks | src/main.rs:80-103 | vendor data under 4 bytes panics on an out-of-range read; a pack count of 0 yields the empty record ("", 0, 0) |
| Capture.Absorb | src/main.rs:89-102 | a Basic ID sets only the identity, a Location sets only the coordinates, a System message changes nothing |
| Capture.Fold | src/main.rs:83-103 | an overflow panic needs more than 10 declared packs; a slice panic is at an end past the vendor data and within `u8`; the loop panics only by overflow, slice or `unwrap` |
| Capture.FirstElementOnly | src/main.rs:77 | only the first vendor element counts, and it is Remote ID exactly when its element ID is 221 and its OUI type 13 |
| Capture.FoldCompletes | src/main.rs:83-88 | the loop completes exactly when it stops before pack 10, every pack fits and every pack decodes; one bad pack aborts the beacon |
| Capture.OverflowAtPackTen | src/main.rs:85 | with more than 10 packs declared, the `u8` range computation overflows at pack 10 |
| Capture.FoldReadsPacks | src/main.rs:85-87 | the loop reads the vendor data only from byte 4 on |
| Capture.HeaderBytesIgnored | src/main.rs:81-87 | vendor bytes 0, 1 and 2, the declared pack size included, do not affect the outcome |
| Capture.FoldKeepsLast | src/main.rs:89-102 | a completed loop holds the last Basic ID's identity and the last Location's coordinates, or the starting values; System packs leave no trace |
| Capture.CollectPacksOutcome | src/main.rs:78-103 | the vendor data gives a record exactly when it has four header bytes, at most 10 packs that fit and all decode; the record holds the last identity (or "") and the last coordinates (or 0, 0) |
| Fixtures.PackZero | src/main.rs:230-232 | pack 0 of the capture is a Basic ID with ID type 1, UA type 2 and "1581F7FVC251A00CQ25C" |
| Fixtures.PackOne | src/main.rs:232-233 | pack 1 is a Location with latitude 417144317 and longitude 1234844131 |
| Fixtures.PackTwo | src/main.rs:234-235 | pack 2 is a System message in region 2, with reserved bits 1 and no reserved byte |
| Fixtures.VendorDataCollected | src/main.rs:224-235 | the pack loop over the capture yields ("1581F7FVC251A00CQ25C", 1234844131, 417144317) |
| Capture.CreateSpecialMessage | src/main.rs:115-147 | a record comes only from type nibble 0 or 1, and it is a Basic ID exactly for nibble 0 |
| Capture.CreateSpecialAgainstDispatch | src/main.rs:115-147 | `create_special_message` panics exactly on empty input (reading `data[0]`) and on a 24-byte Basic ID whose identity bytes are valid UTF-8 (the decoder as written sees 23 bytes); when it returns on types 0 and 1 it agrees with the dispatcher; every other type, System included, gives `UnknownMessageType(0)`, which the dispatcher never returns for them |

## Left out
- Device enumeration, the pnet capture channel, the capture loop and
  `main` (src/main.rs:19-62, 191-205). These are network I/O.
- Logging and the time of day. The `tracing` events and the `chrono`
  clock are side effects only.
  - The log call before the pack loop (src/main.rs:81) is modelled as
    evaluating its arguments. So vendor data of length 0 panics reading
    byte 0, and lengths 1 to 3 panic reading byte 3.
- libwifi's `parse_frame`, `Beacon`, and `ssid()`. They are a foreign
  parser. The model takes them as a function parameter that returns the
  vendor elements as (element ID, OUI type, data).
- Floating point. The radiotap metrics are kept as the raw integers they
  are converted from: the signed signal byte and the rate in units of
  0.5 Mbit/s. `calculate_ground_speed_knots` is kept as an integer product,
  which is exact in `f32`.
- Every `print` method, and its display scaling (×1e-7, ×0.1): console
  output and floats.
- Serialization in src/upload_data.rs. Only the three fields `main.rs`
  writes are modelled.
- `pub mod wifi`: src/wifi is not part of this model.
- Two tests that state nothing about the behaviour:
  - `test_process_packet` ends in `assert_eq!(4, 3)`, which always
    fails;
  - `test_valid_parsing` copies an 18-byte literal into a 20-byte slice,
    which panics. `Fixtures.TrailingSpacesTrimmed` pads the identity to
    the 20 bytes the test evidently means.
- Capture.Fold: models `u8` overflow with debug-build checks. A release
  build would wrap, and pack 10's range 254..23 would then panic on the
  slice instead; that is not modelled.
- SystemMessageDecoder.FromBytes: the `map_err` fallbacks and the
  station-altitude error branch cannot be reached once the length check
  has passed. They are represented by assertions, not by error returns.
- `BaseMessage::from_bytes`: the dispatcher and the pack loop use the
  corrected decoder (see Findings), so the as-written decoder's panic at 23
  bytes does not reach them. `create_special_message` uses the decoder as
  written, and its panic on a 24-byte Basic ID is modelled.
- MessageDispatch.FromBytes: `AnyMessage::from_bytes` as written
  (src/message/mod.rs:26-28, then src/message/base_message.rs:59) panics
  with `IndexOutOfRange(24, 23)` on a 24-byte type-0 input whose bytes
  2..22 are well-formed UTF-8; the model returns
  `Err(InsufficientLength(24, 23))` there (`DispatchDivergesAt24`). The pack
  loop (src/main.rs:85-88) only passes 25-byte packs, where the two agree
  (`PacksAgree`).
- PositionVectorDecoder.StatusByteLayout: the bit layout of the status
  byte is modelled as written, not as F3411 lays it out:
  - the height type takes two bits;
  - the direction flag and the multiplier share bit 0.

## Findings

| source | as written | input that shows it | evidently intended | confidence | as-written member | corrected member |
|---|---|---|---|---|---|---|
| src/message/base_message.rs:17 | `EXPECTED_LENGTH` is 23, but the reserved bytes are read as `data[21..24]`; a 23-byte input passes the check and the slice panics | 23 zero bytes (the input of the test at src/message/base_message.rs:114-118) | fail with `InsufficientLength(24, 23)`, as the `map_err` fallback, the doc comment and the test say | not executed | BaseMessageDecoder.AsWrittenPanicsAt23 | BaseMessageDecoder.CorrectedAgreesElsewhere |
