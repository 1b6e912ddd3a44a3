/** The Location/Vector message, message type 1
    (src/message/position_vector_message.rs). */
module PositionVectorDecoder {
  import opened Bytes
  import opened Message

  const MESSAGE_TYPE: uint8 := 0x01
  const EXPECTED_LENGTH: nat := 24

  datatype PositionVectorMessage = PositionVectorMessage(
    runStatus: uint8,           // byte 0, bits 7-4
    reservedFlag: bool,         // byte 0, bit 3
    heightType: uint8,          // byte 0, bits 2-1
    trackDirection: bool,       // byte 0, bit 0
    speedMultiplier: bool,      // byte 0, bit 0 as well
    trackAngle: uint8,          // byte 1
    groundSpeed: int8,          // byte 2
    verticalSpeed: int8,        // byte 3
    latitude: int32,            // bytes 4..8, little-endian
    longitude: int32,           // bytes 8..12
    pressureAltitude: int16,    // bytes 12..14
    geometricAltitude: int16,   // bytes 14..16
    groundAltitude: int16,      // bytes 16..18
    verticalAccuracy: uint8,    // byte 18, bits 7-4
    horizontalAccuracy: uint8,  // byte 18, bits 3-0
    speedAccuracy: uint8,       // byte 19, bits 3-0
    timestamp: uint16,          // bytes 20..22
    timestampAccuracy: uint8,   // byte 22, bits 3-0
    reserved: uint8)            // byte 23

  /** `PositionVectorMessage::from_bytes`. */
  function FromBytes(data: seq<uint8>): (r: Result<PositionVectorMessage>)
    ensures r.Ok? <==> |data| >= EXPECTED_LENGTH
    ensures r.Err? ==> r.error == InsufficientLength(EXPECTED_LENGTH, |data|)
    ensures r.Ok? ==>
      && r.value.runStatus < 16 && r.value.heightType < 4
      && r.value.trackDirection == r.value.speedMultiplier
      && r.value.verticalAccuracy < 16 && r.value.horizontalAccuracy < 16
      && r.value.speedAccuracy < 16 && r.value.timestampAccuracy < 16
  {
    if |data| < EXPECTED_LENGTH then Err(InsufficientLength(EXPECTED_LENGTH, |data|))
    else
      var byte0 := data[0];
      Ok(PositionVectorMessage(
        runStatus := (byte0 / 16) % 16,          // (byte0 >> 4) & 0x0F
        reservedFlag := (byte0 / 8) % 2 == 1,    // (byte0 & 0x08) != 0
        heightType := (byte0 / 2) % 4,           // (byte0 & 0x06) >> 1
        trackDirection := byte0 % 2 == 1,        // (byte0 & 0x01) != 0
        speedMultiplier := byte0 % 2 == 1,       // (byte0 & 0x01) != 0
        trackAngle := data[1],
        groundSpeed := AsInt8(data[2]),
        verticalSpeed := AsInt8(data[3]),
        latitude := LeI32(data[4..8]),
        longitude := LeI32(data[8..12]),
        pressureAltitude := LeI16(data[12..14]),
        geometricAltitude := LeI16(data[14..16]),
        groundAltitude := LeI16(data[16..18]),
        verticalAccuracy := data[18] / 16,       // byte18 >> 4
        horizontalAccuracy := data[18] % 16,     // byte18 & 0x0F
        speedAccuracy := data[19] % 16,          // byte19 & 0x0F
        timestamp := LeU16(data[20..22]),
        timestampAccuracy := data[22] % 16,      // byte22 & 0x0F
        reserved := data[23]))
  }

  /** `calculate_full_track_angle`: 180 is added when the direction flag is
      set (see `FlagsCoupled`); the sum stays within `u16`. */
  function FullTrackAngle(m: PositionVectorMessage): (r: uint16)
    ensures m.trackAngle <= r <= 255 + 180
  {
    if m.trackDirection then m.trackAngle + 180 else m.trackAngle
  }

  /** `calculate_ground_speed_knots` without the float: the signed ground
      speed, multiplied by 10 exactly when the multiplier flag is set. The
      product of an `i8` and 10 is exact in `f32`. */
  function GroundSpeedScaled(m: PositionVectorMessage): (r: int)
    ensures -1280 <= r <= 1270
  {
    if m.speedMultiplier then m.groundSpeed * 10 else m.groundSpeed
  }

  // ---------------------------------------------------------------------
  // An encoder, the decoder's inverse.

  /** The records an encoder can produce: nibble fields below 16, the height
      type below 4, and the two flags that share bit 0 equal. */
  predicate Encodable(m: PositionVectorMessage) {
    && m.runStatus < 16 && m.heightType < 4
    && m.trackDirection == m.speedMultiplier
    && m.verticalAccuracy < 16 && m.horizontalAccuracy < 16
    && m.speedAccuracy < 16 && m.timestampAccuracy < 16
  }

  function StatusByte(m: PositionVectorMessage): uint8
    requires Encodable(m)
  {
    m.runStatus * 16 + (if m.reservedFlag then 8 else 0) + m.heightType * 2 + (if m.trackDirection then 1 else 0)
  }

  /** The 24 bytes of a record, with the discarded high nibbles of bytes 19
      and 22 left zero. */
  function ToBytes(m: PositionVectorMessage): (b: seq<uint8>)
    requires Encodable(m)
    ensures |b| == 24
  {
    [StatusByte(m), m.trackAngle, FromInt8(m.groundSpeed), FromInt8(m.verticalSpeed)]
    + EncodeI32(m.latitude) + EncodeI32(m.longitude)
    + EncodeI16(m.pressureAltitude) + EncodeI16(m.geometricAltitude) + EncodeI16(m.groundAltitude)
    + [m.verticalAccuracy * 16 + m.horizontalAccuracy, m.speedAccuracy]
    + EncodeU16(m.timestamp)
    + [m.timestampAccuracy, m.reserved]
  }

  /** The first 24 bytes with the high nibbles of bytes 19 and 22, which the
      decoder discards, cleared. */
  function Canonical(data: seq<uint8>): (c: seq<uint8>)
    requires |data| >= 24
    ensures |c| == 24
  {
    data[..24][19 := data[19] % 16][22 := data[22] % 16]
  }

  lemma ToBytesSlices(m: PositionVectorMessage)
    requires Encodable(m)
    ensures var b := ToBytes(m);
      && b[0] == StatusByte(m) && b[1] == m.trackAngle
      && b[2] == FromInt8(m.groundSpeed) && b[3] == FromInt8(m.verticalSpeed)
      && b[4..8] == EncodeI32(m.latitude) && b[8..12] == EncodeI32(m.longitude)
      && b[12..14] == EncodeI16(m.pressureAltitude) && b[14..16] == EncodeI16(m.geometricAltitude)
      && b[16..18] == EncodeI16(m.groundAltitude)
      && b[18] == m.verticalAccuracy * 16 + m.horizontalAccuracy && b[19] == m.speedAccuracy
      && b[20..22] == EncodeU16(m.timestamp)
      && b[22] == m.timestampAccuracy && b[23] == m.reserved
  {
  }

  /** Every encodable record, `i32::MIN` and `i32::MAX` coordinates included,
      decodes back from its encoding. */
  lemma FromBytesToBytes(m: PositionVectorMessage)
    requires Encodable(m)
    ensures FromBytes(ToBytes(m)) == Ok(m)
  {
    var b := ToBytes(m);
    ToBytesSlices(m);
    I32RoundTrip(m.latitude, b[4..8]);
    I32RoundTrip(m.longitude, b[8..12]);
    I16RoundTrip(m.pressureAltitude, b[12..14]);
    I16RoundTrip(m.geometricAltitude, b[14..16]);
    I16RoundTrip(m.groundAltitude, b[16..18]);
    U16RoundTrip(m.timestamp, b[20..22]);
    StatusByteDecodes(m);
    NibblesDecode(m.verticalAccuracy, m.horizontalAccuracy);
    var r := FromBytes(b).value;
    assert r.runStatus == m.runStatus && r.reservedFlag == m.reservedFlag;
    assert r.heightType == m.heightType && r.trackDirection == m.trackDirection;
    assert r.verticalAccuracy == m.verticalAccuracy && r.horizontalAccuracy == m.horizontalAccuracy;
  }

  /** The fields decoded from the status byte of an encodable record. */
  lemma StatusByteDecodes(m: PositionVectorMessage)
    requires Encodable(m)
    ensures var b := StatusByte(m);
      && (b / 16) % 16 == m.runStatus && ((b / 8) % 2 == 1) == m.reservedFlag
      && (b / 2) % 4 == m.heightType && (b % 2 == 1) == m.trackDirection
  {
    var b := StatusByte(m);
    var f := if m.reservedFlag then 1 else 0;
    var d := if m.trackDirection then 1 else 0;
    assert b == 16 * m.runStatus + (8 * f + 2 * m.heightType + d);
    DivModOf(b, 16, m.runStatus, 8 * f + 2 * m.heightType + d);
    DivModOf(m.runStatus, 16, 0, m.runStatus);
    DivModOf(b, 8, 2 * m.runStatus + f, 2 * m.heightType + d);
    DivModOf(2 * m.runStatus + f, 2, m.runStatus, f);
    DivModOf(b, 2, 8 * m.runStatus + 4 * f + m.heightType, d);
    DivModOf(8 * m.runStatus + 4 * f + m.heightType, 4, 2 * m.runStatus + f, m.heightType);
  }

  lemma NibblesDecode(high: uint8, low: uint8)
    requires high < 16 && low < 16
    ensures (high * 16 + low) / 16 == high && (high * 16 + low) % 16 == low
  {
  }

  /** The status byte rebuilt from the fields decoded from byte 0. */
  lemma StatusByteRebuilt(b: uint8)
    ensures (b / 16) % 16 * 16 + (if (b / 8) % 2 == 1 then 8 else 0) + (b / 2) % 4 * 2
            + (if b % 2 == 1 then 1 else 0) == b
  {
    var q, r := b / 16, b % 16;
    var h3, s3 := r / 8, r % 8;
    var h, bit := s3 / 2, s3 % 2;
    DivModOf(b, 16, q, r);
    DivModOf(q, 16, 0, q);
    DivModOf(b, 8, 2 * q + h3, s3);
    DivModOf(2 * q + h3, 2, q, h3);
    DivModOf(b, 2, 8 * q + 4 * h3 + h, bit);
    DivModOf(8 * q + 4 * h3 + h, 4, 2 * q + h3, h);
  }

  /** The canonical form, piece by piece, in the shape `ToBytes` builds. */
  lemma CanonicalPieces(data: seq<uint8>)
    requires |data| >= 24
    ensures Canonical(data) ==
      [data[0], data[1], data[2], data[3]]
      + data[4..8] + data[8..12] + data[12..14] + data[14..16] + data[16..18]
      + [data[18], data[19] % 16] + data[20..22] + [data[22] % 16, data[23]]
  {
  }

  /** Every input of 24 bytes or more decodes to an encodable record whose
      encoding is the canonical form of the input. */
  lemma ToBytesFromBytes(data: seq<uint8>)
    requires |data| >= 24
    ensures FromBytes(data).Ok?
    ensures Encodable(FromBytes(data).value)
    ensures ToBytes(FromBytes(data).value) == Canonical(data)
  {
    var m := FromBytes(data).value;
    I32RoundTrip(m.latitude, data[4..8]);
    I32RoundTrip(m.longitude, data[8..12]);
    I16RoundTrip(m.pressureAltitude, data[12..14]);
    I16RoundTrip(m.geometricAltitude, data[14..16]);
    I16RoundTrip(m.groundAltitude, data[16..18]);
    U16RoundTrip(m.timestamp, data[20..22]);
    StatusByteRebuilt(data[0]);
    assert StatusByte(m) == data[0];
    CanonicalPieces(data);
  }

  // ---------------------------------------------------------------------
  // Properties of the decoder.

  /** Shorter than 24 bytes fails with `InsufficientLength(24, len)`; 24 bytes
      or more always decode. */
  lemma FromBytesLength(data: seq<uint8>)
    ensures |data| < 24 <==> FromBytes(data) == Err(InsufficientLength(24, |data|))
    ensures FromBytes(data).Ok? <==> |data| >= 24
  {
  }

  /** Two inputs of 24 bytes or more decode alike exactly when they agree on
      the first 24 bytes except the high nibbles of bytes 19 and 22. */
  lemma FromBytesDiscards(a: seq<uint8>, b: seq<uint8>)
    requires |a| >= 24 && |b| >= 24
    ensures FromBytes(a) == FromBytes(b) <==> Canonical(a) == Canonical(b)
  {
    ToBytesFromBytes(a);
    ToBytesFromBytes(b);
    if Canonical(a) == Canonical(b) {
      FromBytesToBytes(FromBytes(a).value);
      FromBytesToBytes(FromBytes(b).value);
    }
  }

  /** Byte 0 is the run status, the reserved flag, the height type (at most 3)
      and bit 0, which both the direction flag and the speed multiplier read,
      so the two are always equal. */
  lemma StatusByteLayout(data: seq<uint8>)
    requires FromBytes(data).Ok?
    ensures var m := FromBytes(data).value;
      && m.heightType <= 3 && m.runStatus < 16
      && m.trackDirection == m.speedMultiplier
      && data[0] == 16 * m.runStatus + (if m.reservedFlag then 8 else 0) + 2 * m.heightType
                    + (if m.trackDirection then 1 else 0)
  {
    StatusByteRebuilt(data[0]);
  }

  /** Each multi-byte field re-encodes, little-endian, to the bytes it was read
      from; the accuracy nibbles and the reserved byte are the cited bytes'
      nibbles. */
  lemma FieldBytes(data: seq<uint8>)
    requires FromBytes(data).Ok?
    ensures var m := FromBytes(data).value;
      && EncodeI32(m.latitude) == data[4..8] && EncodeI32(m.longitude) == data[8..12]
      && EncodeI16(m.pressureAltitude) == data[12..14]
      && EncodeI16(m.geometricAltitude) == data[14..16]
      && EncodeI16(m.groundAltitude) == data[16..18]
      && EncodeU16(m.timestamp) == data[20..22]
      && FromInt8(m.groundSpeed) == data[2] && FromInt8(m.verticalSpeed) == data[3]
      && 16 * m.verticalAccuracy + m.horizontalAccuracy == data[18]
      && m.speedAccuracy == data[19] % 16 && m.timestampAccuracy == data[22] % 16
      && m.reserved == data[23]
  {
    var m := FromBytes(data).value;
    I32RoundTrip(m.latitude, data[4..8]);
    I32RoundTrip(m.longitude, data[8..12]);
    I16RoundTrip(m.pressureAltitude, data[12..14]);
    I16RoundTrip(m.geometricAltitude, data[14..16]);
    I16RoundTrip(m.groundAltitude, data[16..18]);
    U16RoundTrip(m.timestamp, data[20..22]);
  }

  /** Because both flags are bit 0, a decoded record adds 180 to its track
      angle exactly when it multiplies its ground speed by 10. */
  lemma FlagsCoupled(data: seq<uint8>)
    requires FromBytes(data).Ok?
    ensures var m := FromBytes(data).value;
      && (FullTrackAngle(m) == m.trackAngle + 180 <==> data[0] % 2 == 1)
      && (data[0] % 2 == 0 ==> FullTrackAngle(m) == m.trackAngle)
      && (data[0] % 2 == 1 ==> GroundSpeedScaled(m) == 10 * m.groundSpeed)
      && (data[0] % 2 == 0 ==> GroundSpeedScaled(m) == m.groundSpeed)
  {
  }
}
