/** The System message, message type 4 (src/message/system_message.rs). */
module SystemMessageDecoder {
  import opened Bytes
  import opened Wrappers
  import opened Message

  const MESSAGE_TYPE: uint8 := 0x04
  const EXPECTED_LENGTH: nat := 24

  datatype SystemMessage = SystemMessage(
    coordinateSystem: uint8,          // byte 0, bits 7-5
    reservedBits: uint8,              // byte 0, bits 4-3
    classificationRegion: uint8,      // byte 0, bits 4-2
    stationType: uint8,               // byte 0, bits 1-0
    latitude: int32,                  // bytes 1..5, little-endian
    longitude: int32,                 // bytes 5..9
    operationCount: Option<uint16>,
    operationRadius: Option<uint8>,
    altitudeUpper: Option<uint16>,
    altitudeLower: Option<uint16>,
    uaCategory: uint8,
    uaLevel: uint8,
    stationAltitude: uint16,
    timestamp: Option<uint32>,
    reserved: Option<uint8>)

  predicate ValidRegion(region: int) {
    1 <= region <= 3
  }

  function Region(byte0: uint8): uint8 {
    (byte0 / 4) % 8   // (byte0 >> 2) & 0x07
  }

  /** The record the cursor chain yields, at the offsets it settles on once
      the length check has passed: every optional field of the chain is
      present and only the trailing reserved byte depends on the length. */
  function FixedLayout(data: seq<uint8>): (r: Result<SystemMessage>)
    ensures r.Ok? <==> |data| >= EXPECTED_LENGTH && ValidRegion(Region(data[0]))
    ensures r.Err? ==> r.error == InsufficientLength(EXPECTED_LENGTH, |data|) || r.error == UnknownMessageType(1)
    ensures r.Ok? ==> (r.value.reserved.Some? <==> |data| > EXPECTED_LENGTH)
  {
    if |data| < EXPECTED_LENGTH then Err(InsufficientLength(EXPECTED_LENGTH, |data|))
    else if !ValidRegion(Region(data[0])) then Err(UnknownMessageType(1))
    else
      Ok(SystemMessage(
        coordinateSystem := (data[0] / 32) % 8,
        reservedBits := (data[0] / 8) % 4,
        classificationRegion := Region(data[0]),
        stationType := data[0] % 4,
        latitude := LeI32(data[1..5]),
        longitude := LeI32(data[5..9]),
        operationCount := Some(LeU16(data[9..11])),
        operationRadius := Some(data[11]),
        altitudeUpper := Some(LeU16(data[12..14])),
        altitudeLower := Some(LeU16(data[14..16])),
        uaCategory := data[16],
        uaLevel := data[17],
        stationAltitude := LeU16(data[18..20]),
        timestamp := Some(LeU32(data[20..24])),
        reserved := if |data| > 24 then Some(data[24]) else None))
  }

  /** `SystemMessage::from_bytes`: the length check, the classification check
      and the field chain driven by the cursor `offset`, each optional field
      read only when enough bytes remain at that point of the chain. Every
      read stays inside `data`. */
  method FromBytes(data: seq<uint8>) returns (r: Result<SystemMessage>)
    ensures r == FixedLayout(data)
  {
    if |data| < EXPECTED_LENGTH {
      return Err(InsufficientLength(EXPECTED_LENGTH, |data|));
    }
    var byte0 := data[0];
    var coordinateSystem := (byte0 / 32) % 8;   // (byte0 >> 5) & 0x07
    var reservedBits := (byte0 / 8) % 4;        // (byte0 >> 3) & 0x03
    var classificationRegion := (byte0 / 4) % 8;
    if classificationRegion == 0 || classificationRegion > 3 {
      return Err(UnknownMessageType(1));
    }
    var stationType := byte0 % 4;               // byte0 & 0x03

    // Both slices have four bytes, so `try_into` succeeds and the
    // `map_err` fallbacks are never taken.
    var latitude := LeI32(data[1..5]);
    var longitude := LeI32(data[5..9]);

    var offset := 9;
    var operationCount: Option<uint16> := None;
    if |data| > offset + 1 {
      operationCount := Some(LeU16(data[offset..offset + 2]));
      offset := offset + 2;
    }
    var operationRadius: Option<uint8> := None;
    if |data| > offset {
      operationRadius := Some(data[offset]);
      offset := offset + 1;
    }
    var altitudeUpper: Option<uint16> := None;
    if |data| > offset + 1 {
      altitudeUpper := Some(LeU16(data[offset..offset + 2]));
      offset := offset + 2;
    }
    var altitudeLower: Option<uint16> := None;
    if |data| > offset + 1 {
      altitudeLower := Some(LeU16(data[offset..offset + 2]));
      offset := offset + 2;
    }

    var uaCategory := data[offset];
    offset := offset + 1;
    var uaLevel := data[offset];
    offset := offset + 1;

    // The source returns `InsufficientLength(offset + 2, len)` when fewer
    // than two bytes remain here; with 24 bytes or more the cursor stands at
    // 18, so that return is never taken.
    assert offset == 18 && |data| > offset + 1;
    var stationAltitude := LeU16(data[offset..offset + 2]);
    offset := offset + 2;

    var timestamp: Option<uint32> := None;
    if |data| > offset + 3 {
      timestamp := Some(LeU32(data[offset..offset + 4]));
      offset := offset + 4;
    }
    var reserved: Option<uint8> := None;
    if |data| > offset {
      reserved := Some(data[offset]);
    }

    r := Ok(SystemMessage(coordinateSystem, reservedBits, classificationRegion, stationType,
                          latitude, longitude, operationCount, operationRadius,
                          altitudeUpper, altitudeLower, uaCategory, uaLevel,
                          stationAltitude, timestamp, reserved));
  }

  // ---------------------------------------------------------------------
  // Properties of the decoder.

  /** Shorter than 24 bytes fails with `InsufficientLength(24, len)`; from 24
      bytes on, a record is produced exactly when the classification region is
      1, 2 or 3, and any other region fails with `UnknownMessageType(1)`
      whatever the other bytes are. */
  lemma FixedLayoutOutcomes(data: seq<uint8>)
    ensures |data| < 24 <==> FixedLayout(data) == Err(InsufficientLength(24, |data|))
    ensures |data| >= 24 ==> (FixedLayout(data).Ok? <==> ValidRegion(Region(data[0])))
    ensures |data| >= 24 && !ValidRegion(Region(data[0])) ==> FixedLayout(data) == Err(UnknownMessageType(1))
  {
  }

  /** Byte 0 of a decoded record: the region is 1 to 3, `reserved_bits` is the
      region's upper two bits, and coordinate system, region and station type
      rebuild the byte. */
  lemma StatusByteLayout(data: seq<uint8>)
    requires FixedLayout(data).Ok?
    ensures var m := FixedLayout(data).value;
      && ValidRegion(m.classificationRegion)
      && m.reservedBits == m.classificationRegion / 2
      && m.coordinateSystem < 8 && m.stationType < 4
      && data[0] == 32 * m.coordinateSystem + 4 * m.classificationRegion + m.stationType
  {
    var b := data[0];
    ByteSplits(b);
    StatusByteDecodes((b / 32) % 8, Region(b), b % 4);
  }

  /** A byte splits into its top three bits, the three region bits and the
      bottom two bits. */
  lemma ByteSplits(b: uint8)
    ensures b == 32 * ((b / 32) % 8) + 4 * Region(b) + b % 4
  {
    var q, r := b / 32, b % 32;
    DivModOf(b, 32, q, r);
    DivModOf(q, 8, 0, q);
    DivModOf(b, 4, 8 * q + r / 4, r % 4);
    DivModOf(8 * q + r / 4, 8, q, r / 4);
  }

  /** Every field of the chain is present once the length check passes, and
      each re-encodes, little-endian, to the bytes at its fixed offset. */
  lemma FieldBytes(data: seq<uint8>)
    requires FixedLayout(data).Ok?
    ensures var m := FixedLayout(data).value;
      && m.operationCount.Some? && m.operationRadius.Some?
      && m.altitudeUpper.Some? && m.altitudeLower.Some? && m.timestamp.Some?
      && EncodeI32(m.latitude) == data[1..5] && EncodeI32(m.longitude) == data[5..9]
      && EncodeU16(m.operationCount.value) == data[9..11]
      && m.operationRadius.value == data[11]
      && EncodeU16(m.altitudeUpper.value) == data[12..14]
      && EncodeU16(m.altitudeLower.value) == data[14..16]
      && m.uaCategory == data[16] && m.uaLevel == data[17]
      && EncodeU16(m.stationAltitude) == data[18..20]
      && EncodeU32(m.timestamp.value) == data[20..24]
  {
    var m := FixedLayout(data).value;
    I32RoundTrip(m.latitude, data[1..5]);
    I32RoundTrip(m.longitude, data[5..9]);
    U16RoundTrip(m.operationCount.value, data[9..11]);
    U16RoundTrip(m.altitudeUpper.value, data[12..14]);
    U16RoundTrip(m.altitudeLower.value, data[14..16]);
    U16RoundTrip(m.stationAltitude, data[18..20]);
    U32RoundTrip(m.timestamp.value, data[20..24]);
  }

  /** The reserved byte is present exactly when there is a 25th byte, and is
      that byte. */
  lemma ReservedPresence(data: seq<uint8>)
    requires FixedLayout(data).Ok?
    ensures FixedLayout(data).value.reserved.Some? <==> |data| >= 25
    ensures |data| >= 25 ==> FixedLayout(data).value.reserved == Some(data[24])
  {
  }

  /** Presence is monotonic in the length: appending bytes to an input that
      decodes keeps every field, and can only add the reserved byte. */
  lemma LongerInputKeepsFields(data: seq<uint8>, more: seq<uint8>)
    requires FixedLayout(data).Ok?
    ensures FixedLayout(data + more).Ok?
    ensures var m, n := FixedLayout(data).value, FixedLayout(data + more).value;
      && n == m.(reserved := n.reserved)
      && (m.reserved.Some? ==> n.reserved == m.reserved)
      && (n.reserved.Some? <==> |data + more| >= 25)
  {
    var d := data + more;
    assert d[..24] == data[..24];
    assert d[1..5] == data[1..5] && d[5..9] == data[5..9] && d[9..11] == data[9..11];
    assert d[12..14] == data[12..14] && d[14..16] == data[14..16];
    assert d[18..20] == data[18..20] && d[20..24] == data[20..24];
    if |data| > 24 {
      assert d[24] == data[24];
    }
  }

  // ---------------------------------------------------------------------
  // An encoder, the decoder's inverse.

  /** The records the decoder can produce: three-bit coordinate system, a
      valid region whose upper bits are the reserved bits, a two-bit station
      type and every optional field of the chain present. */
  predicate Encodable(m: SystemMessage) {
    && m.coordinateSystem < 8 && ValidRegion(m.classificationRegion)
    && m.reservedBits == m.classificationRegion / 2 && m.stationType < 4
    && m.operationCount.Some? && m.operationRadius.Some?
    && m.altitudeUpper.Some? && m.altitudeLower.Some? && m.timestamp.Some?
  }

  /** 24 bytes, and a 25th when the record carries a reserved byte. */
  function ToBytes(m: SystemMessage): (b: seq<uint8>)
    requires Encodable(m)
    ensures |b| == (if m.reserved.Some? then 25 else 24)
  {
    [32 * m.coordinateSystem + 4 * m.classificationRegion + m.stationType]
    + EncodeI32(m.latitude) + EncodeI32(m.longitude)
    + EncodeU16(m.operationCount.value) + [m.operationRadius.value]
    + EncodeU16(m.altitudeUpper.value) + EncodeU16(m.altitudeLower.value)
    + [m.uaCategory, m.uaLevel] + EncodeU16(m.stationAltitude)
    + EncodeU32(m.timestamp.value)
    + (if m.reserved.Some? then [m.reserved.value] else [])
  }

  lemma ToBytesSlices(m: SystemMessage)
    requires Encodable(m)
    ensures var b := ToBytes(m);
      && b[0] == 32 * m.coordinateSystem + 4 * m.classificationRegion + m.stationType
      && b[1..5] == EncodeI32(m.latitude) && b[5..9] == EncodeI32(m.longitude)
      && b[9..11] == EncodeU16(m.operationCount.value) && b[11] == m.operationRadius.value
      && b[12..14] == EncodeU16(m.altitudeUpper.value) && b[14..16] == EncodeU16(m.altitudeLower.value)
      && b[16] == m.uaCategory && b[17] == m.uaLevel
      && b[18..20] == EncodeU16(m.stationAltitude) && b[20..24] == EncodeU32(m.timestamp.value)
      && (m.reserved.Some? ==> b[24] == m.reserved.value)
  {
  }

  /** The status byte an encoder writes decodes back to its three fields and
      the reserved bits. */
  lemma StatusByteDecodes(c: uint8, region: uint8, station: uint8)
    requires c < 8 && ValidRegion(region) && station < 4
    ensures var b := 32 * c + 4 * region + station;
      && 0 <= b < 256
      && (b / 32) % 8 == c && (b / 8) % 4 == region / 2 && Region(b) == region && b % 4 == station
  {
    var b := 32 * c + 4 * region + station;
    DivModOf(b, 32, c, 4 * region + station);
    DivModOf(c, 8, 0, c);
    DivModOf(b, 8, 4 * c + region / 2, 4 * (region % 2) + station);
    DivModOf(4 * c + region / 2, 4, c, region / 2);
    DivModOf(b, 4, 8 * c + region, station);
    DivModOf(8 * c + region, 8, c, region);
  }

  /** Every encodable record decodes back from its encoding. */
  lemma FixedLayoutToBytes(m: SystemMessage)
    requires Encodable(m)
    ensures FixedLayout(ToBytes(m)) == Ok(m)
  {
    var b := ToBytes(m);
    ToBytesSlices(m);
    I32RoundTrip(m.latitude, b[1..5]);
    I32RoundTrip(m.longitude, b[5..9]);
    U16RoundTrip(m.operationCount.value, b[9..11]);
    U16RoundTrip(m.altitudeUpper.value, b[12..14]);
    U16RoundTrip(m.altitudeLower.value, b[14..16]);
    U16RoundTrip(m.stationAltitude, b[18..20]);
    U32RoundTrip(m.timestamp.value, b[20..24]);
    StatusByteDecodes(m.coordinateSystem, m.classificationRegion, m.stationType);
    assert FixedLayout(b).value.reserved == m.reserved;
  }

  /** The encoding in the shape `ToBytes` builds, read off the input. */
  lemma InputPieces(data: seq<uint8>)
    requires |data| >= 24
    ensures data[..if |data| > 24 then 25 else 24] ==
      [data[0]] + data[1..5] + data[5..9] + data[9..11] + [data[11]]
      + data[12..14] + data[14..16] + [data[16], data[17]] + data[18..20] + data[20..24]
      + (if |data| > 24 then [data[24]] else [])
  {
  }

  /** Every decoded record is encodable and encodes to the bytes it was read
      from: the first 24 bytes, and the 25th when there is one. Nothing the
      decoder reads is lost. */
  lemma ToBytesFixedLayout(data: seq<uint8>)
    requires FixedLayout(data).Ok?
    ensures Encodable(FixedLayout(data).value)
    ensures ToBytes(FixedLayout(data).value) == data[..if |data| > 24 then 25 else 24]
  {
    var m := FixedLayout(data).value;
    FieldBytes(data);
    StatusByteLayout(data);
    ReservedPresence(data);
    InputPieces(data);
    assert [32 * m.coordinateSystem + 4 * m.classificationRegion + m.stationType] == [data[0]];
    assert (if m.reserved.Some? then [m.reserved.value] else []) == (if |data| > 24 then [data[24]] else []);
  }
}
