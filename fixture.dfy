/** Concrete instances: the packet of the capture test in src/main.rs and the
    inputs of the Basic ID tests in src/message/base_message.rs. */
module Fixtures {
  import opened Bytes
  import opened Wrappers
  import opened Message
  import Utf8
  import Trim
  import BaseMessageDecoder
  import PositionVectorDecoder
  import SystemMessageDecoder
  import MessageDispatch
  import Capture

  // ---------------------------------------------------------------------
  // The captured packet, src/main.rs:224-235, split where it is read.

  /** Bytes 0..100: the 38-byte radiotap prefix and the beacon up to its
      vendor element. */
  const PACKET_HEAD: seq<uint8> := RADIOTAP_START + [
    0x2f, 0x40, 0x00, 0xa0, 0x20, 0x08, 0x00, 0xa0, 0x20, 0x08, 0x00, 0x00,
    0x74, 0x71, 0xf3, 0x0b, 0x00, 0x00, 0x00, 0x00, 0x10, 0x0c, 0x85, 0x09,
    0xc0, 0x00, 0x10, 0x00, 0x00, 0x00, 0xc4, 0x00, 0x10, 0x01, 0x80, 0x00,
    0x00, 0x00, 0xff, 0xff, 0xff, 0xff, 0xff, 0xff, 0xe4, 0x7a, 0x2c, 0x24,
    0x3d, 0x26, 0xe4, 0x7a, 0x2c, 0x24, 0x3d, 0x26, 0x00, 0x00, 0x80, 0x84,
    0x00, 0x05, 0x00, 0x00, 0x00, 0x00, 0xa0, 0x00, 0x20, 0x04, 0x00, 0x18,
    0x52, 0x49, 0x44, 0x2d, 0x31, 0x35, 0x38, 0x31, 0x46, 0x37, 0x46, 0x56,
    0x43, 0x32, 0x35, 0x31, 0x41, 0x30, 0x30, 0x43, 0x51, 0x32, 0x35, 0x43]

  /** Radiotap version 0, padding, and the header length 38 (little-endian). */
  const RADIOTAP_START: seq<uint8> := [0x00, 0x00, 0x26, 0x00]

  /** The vendor element header: element 221, length 83, OUI fa:0b:bc and OUI
      type 13. */
  const ELEMENT_HEADER: seq<uint8> := [0xdd, 0x53, 0xfa, 0x0b, 0xbc, 0x0d]

  /** The first four bytes of the vendor data: pack size 25, pack count 3. */
  const VENDOR_HEADER: seq<uint8> := [0x75, 0xf1, 0x19, 0x03]

  /** The serial number of the Basic ID pack, as ASCII bytes. */
  const ID_BYTES: seq<uint8> := [
    0x31, 0x35, 0x38, 0x31, 0x46, 0x37, 0x46, 0x56, 0x43, 0x32, 0x35, 0x31,
    0x41, 0x30, 0x30, 0x43, 0x51, 0x32, 0x35, 0x43]
  const UAS_ID: string := "1581F7FVC251A00CQ25C"

  /** A Basic ID pack: ID type 1, UA type 2, the serial number, 3 reserved bytes. */
  const BASIC_ID_CONTENT: seq<uint8> := [0x12] + ID_BYTES + [0x00, 0x00, 0x00]

  const LOCATION_CONTENT: seq<uint8> := [
    0x22, 0xb5, 0x00, 0x00, 0xfd, 0x1d, 0xdd, 0x18, 0xe3, 0x39, 0x9a, 0x49,
    0xf2, 0x08, 0x48, 0x08, 0xd2, 0x07, 0x3b, 0x04, 0xee, 0x13, 0x0a, 0x00]

  const SYSTEM_CONTENT: seq<uint8> := [
    0x08, 0x00, 0x1e, 0xdd, 0x18, 0x00, 0x3a, 0x9a, 0x49, 0x01, 0x00, 0x00,
    0x00, 0x00, 0x00, 0x00, 0x01, 0x46, 0x08, 0xae, 0xce, 0xd1, 0x0b, 0x00]

  const PACK_0: seq<uint8> := [0x01] + BASIC_ID_CONTENT
  const PACK_1: seq<uint8> := [0x11] + LOCATION_CONTENT
  const PACK_2: seq<uint8> := [0x41] + SYSTEM_CONTENT

  const VENDOR_DATA: seq<uint8> := VENDOR_HEADER + PACK_0 + PACK_1 + PACK_2

  const PACKET_TAIL: seq<uint8> := [0xb6, 0xba, 0x45, 0xe7]

  const PACKET: seq<uint8> := PACKET_HEAD + ELEMENT_HEADER + VENDOR_DATA + PACKET_TAIL

  /** The packet has 189 bytes; the vendor data is its bytes 106..185 and
      declares three packs. */
  lemma PacketLayout()
    ensures |PACKET| == 189 && PACKET[106..185] == VENDOR_DATA
    ensures |VENDOR_DATA| == 4 + 3 * 25 && VENDOR_DATA[3] == 3 && VENDOR_DATA[2] == 25
  {
    assert PACKET[106..185] == (PACKET_HEAD + ELEMENT_HEADER + VENDOR_DATA + PACKET_TAIL)[106..185];
  }

  /** Byte 0 of the packet is no radiotap field type the walk knows, so the
      metrics stay 0, and the frame starts after the 38 bytes `data[2]` gives. */
  lemma PacketRadiotap()
    ensures |PACKET| >= 100
    ensures Capture.Radiotap(PACKET) == Returned((Capture.NO_METRICS, PACKET[38..]))
  {
    PacketLayout();
    assert PACKET[..4] == RADIOTAP_START;
    assert Capture.Walk(PACKET, 38, 0, Capture.NO_METRICS) == Returned(Capture.NO_METRICS);
  }

  /** Packs 0, 1 and 2 are the three pack constants. */
  lemma PacksOfVendorData()
    ensures Capture.PACK_SIZE * 2 + Capture.PACKS_START + Capture.PACK_SIZE <= |VENDOR_DATA|
    ensures Capture.Pack(VENDOR_DATA, 0) == PACK_0
    ensures Capture.Pack(VENDOR_DATA, 1) == PACK_1
    ensures Capture.Pack(VENDOR_DATA, 2) == PACK_2
  {
    assert VENDOR_DATA[4..29] == PACK_0;
    assert VENDOR_DATA[29..54] == PACK_1;
    assert VENDOR_DATA[54..79] == PACK_2;
  }

  /** The serial number is ASCII, so it decodes to the same characters. */
  lemma IdBytesDecode()
    ensures Utf8.FromUtf8(ID_BYTES) == Utf8.Text(UAS_ID)
  {
    AsciiText(ID_BYTES, UAS_ID);
  }

  /** A Basic ID content whose identity bytes decode to a text that needs no
      trimming decodes to the record of its fields. */
  lemma BasicIdDecodesAt(data: seq<uint8>, idType: uint8, uaType: uint8, text: string, id: string, reserved: seq<uint8>)
    requires |data| == 24 && data[0] == 16 * idType + uaType && idType < 16 && uaType < 16
    requires Utf8.FromUtf8(data[1..21]) == Utf8.Text(text) && BaseMessageDecoder.TrimUasId(text) == id
    requires data[21..24] == reserved
    ensures BaseMessageDecoder.FromBytes(data) == Ok(BaseMessageDecoder.BaseMessage(idType, uaType, id, reserved))
  {
  }

  lemma BasicIdContentFacts()
    ensures |BASIC_ID_CONTENT| == 24 && BASIC_ID_CONTENT[0] == 0x12
    ensures Utf8.FromUtf8(BASIC_ID_CONTENT[1..21]) == Utf8.Text(UAS_ID)
    ensures BASIC_ID_CONTENT[21..24] == [0, 0, 0]
  {
    assert BASIC_ID_CONTENT[1..21] == ID_BYTES;
    IdBytesDecode();
  }

  lemma BasicIdContentDecodes()
    ensures BaseMessageDecoder.FromBytes(BASIC_ID_CONTENT)
      == Ok(BaseMessageDecoder.BaseMessage(1, 2, UAS_ID, [0, 0, 0]))
  {
    BasicIdContentFacts();
    SerialNumberUntrimmed();
    BasicIdDecodesAt(BASIC_ID_CONTENT, 1, 2, UAS_ID, UAS_ID, [0, 0, 0]);
  }

  lemma SerialNumberUntrimmed()
    ensures BaseMessageDecoder.TrimUasId(UAS_ID) == UAS_ID
  {
    assert UAS_ID[|UAS_ID| - 1] == 'C';
  }

  /** Pack 0 is a Basic ID with ID type 1, UA type 2 and the serial number. */
  lemma PackZero()
    ensures MessageDispatch.FromBytes(PACK_0)
      == Ok(MessageDispatch.Base(BaseMessageDecoder.BaseMessage(1, 2, UAS_ID, [0, 0, 0])))
  {
    assert PACK_0[1..] == BASIC_ID_CONTENT;
    BasicIdContentDecodes();
    MessageDispatch.DispatchTable(PACK_0);
  }

  /** Pack 1 is a Location with latitude 417144317 and longitude 1234844131,
      whose status byte 0x22 has the direction and multiplier flags clear. */
  lemma PackOne()
    ensures var r := MessageDispatch.FromBytes(PACK_1);
      && r.Ok? && r.value.PositionVector?
      && r.value.positionVector.latitude == 417144317
      && r.value.positionVector.longitude == 1234844131
      && r.value.positionVector.runStatus == 2 && r.value.positionVector.heightType == 1
      && !r.value.positionVector.trackDirection && !r.value.positionVector.speedMultiplier
  {
    assert PACK_1[1..] == LOCATION_CONTENT;
    assert LOCATION_CONTENT[4..8] == [0xfd, 0x1d, 0xdd, 0x18];
    assert LOCATION_CONTENT[8..12] == [0xe3, 0x39, 0x9a, 0x49];
    LocationDecodesAt(LOCATION_CONTENT);
    MessageDispatch.DispatchTable(PACK_1);
  }

  /** A 24-byte Location content with status byte 0x22 and the packet's
      coordinates. */
  lemma LocationDecodesAt(data: seq<uint8>)
    requires |data| == 24 && data[0] == 0x22
    requires data[4..8] == [0xfd, 0x1d, 0xdd, 0x18] && data[8..12] == [0xe3, 0x39, 0x9a, 0x49]
    ensures var r := PositionVectorDecoder.FromBytes(data);
      && r.Ok?
      && r.value.latitude == 417144317 && r.value.longitude == 1234844131
      && r.value.runStatus == 2 && r.value.heightType == 1
      && !r.value.trackDirection && !r.value.speedMultiplier
  {
    LeUintFour(data[4..8]);
    LeUintFour(data[8..12]);
  }

  /** A 24-byte System content with status byte 0x08 and the packet's
      station coordinates. */
  lemma SystemDecodesAt(data: seq<uint8>)
    requires |data| == 24 && data[0] == 0x08
    requires data[1..5] == [0x00, 0x1e, 0xdd, 0x18] && data[5..9] == [0x00, 0x3a, 0x9a, 0x49]
    ensures var r := SystemMessageDecoder.FixedLayout(data);
      && r.Ok?
      && r.value.classificationRegion == 2 && r.value.reservedBits == 1
      && r.value.coordinateSystem == 0 && r.value.stationType == 0
      && r.value.latitude == 417144320 && r.value.longitude == 1234844160
      && r.value.reserved == None
  {
    LeUintFour(data[1..5]);
    LeUintFour(data[5..9]);
  }

  lemma SystemContentDecodes()
    ensures var r := SystemMessageDecoder.FixedLayout(SYSTEM_CONTENT);
      && r.Ok?
      && r.value.classificationRegion == 2 && r.value.reservedBits == 1
      && r.value.coordinateSystem == 0 && r.value.stationType == 0
      && r.value.latitude == 417144320 && r.value.longitude == 1234844160
      && r.value.reserved == None
  {
    assert SYSTEM_CONTENT[1] == 0x00 && SYSTEM_CONTENT[2] == 0x1e && SYSTEM_CONTENT[3] == 0xdd && SYSTEM_CONTENT[4] == 0x18;
    assert SYSTEM_CONTENT[5] == 0x00 && SYSTEM_CONTENT[6] == 0x3a && SYSTEM_CONTENT[7] == 0x9a && SYSTEM_CONTENT[8] == 0x49;
    assert SYSTEM_CONTENT[1..5] == [0x00, 0x1e, 0xdd, 0x18];
    assert SYSTEM_CONTENT[5..9] == [0x00, 0x3a, 0x9a, 0x49];
    SystemDecodesAt(SYSTEM_CONTENT);
  }

  /** Pack 2 is a System message in classification region 2, whose reserved
      bits (1) are the region's upper bits; with 24 content bytes it carries
      no reserved byte. */
  lemma PackTwo()
    ensures var r := MessageDispatch.FromBytes(PACK_2);
      && r.Ok? && r.value.System?
      && r.value.system.classificationRegion == 2 && r.value.system.reservedBits == 1
      && r.value.system.coordinateSystem == 0 && r.value.system.stationType == 0
      && r.value.system.latitude == 417144320 && r.value.system.longitude == 1234844160
      && r.value.system.reserved == None
  {
    assert PACK_2[1..] == SYSTEM_CONTENT;
    SystemContentDecodes();
    MessageDispatch.DispatchTable(PACK_2);
  }

  /** The pack loop over the packet's vendor data ends with the Basic ID's
      serial number and the Location's coordinates. */
  lemma VendorDataCollected()
    ensures Capture.CollectPacks(VENDOR_DATA) == Returned(Capture.UploadData(UAS_ID, 1234844131, 417144317))
  {
    PacksOfVendorData();
    PackZero();
    PackOne();
    PackTwo();
    var d := MessageDispatch.FromBytes;
    var m0 := d(PACK_0).value;
    var m1 := d(PACK_1).value;
    var m2 := d(PACK_2).value;
    var u1 := Capture.Absorb(Capture.EMPTY_UPLOAD, m0);
    var u2 := Capture.Absorb(u1, m1);
    var u3 := Capture.Absorb(u2, m2);
    assert u3 == Capture.UploadData(UAS_ID, 1234844131, 417144317);
    assert Capture.Fold(VENDOR_DATA, 3, 2, u2, d) == Capture.Fold(VENDOR_DATA, 3, 3, u3, d);
    assert Capture.Fold(VENDOR_DATA, 3, 1, u1, d) == Capture.Fold(VENDOR_DATA, 3, 2, u2, d);
    assert Capture.Fold(VENDOR_DATA, 3, 0, Capture.EMPTY_UPLOAD, d) == Capture.Fold(VENDOR_DATA, 3, 1, u1, d);
  }

  // ---------------------------------------------------------------------
  // The Basic ID tests, src/message/base_message.rs:88-159.

  function Repeat(b: uint8, n: nat): (r: seq<uint8>)
    ensures |r| == n && forall k | 0 <= k < n :: r[k] == b
  {
    if n == 0 then [] else [b] + Repeat(b, n - 1)
  }

  /** "DroneBase" as ASCII. */
  const DRONE_BASE: seq<uint8> := [0x44, 0x72, 0x6f, 0x6e, 0x65, 0x42, 0x61, 0x73, 0x65]

  /** "DroneBase" padded with spaces to the 20 identity bytes, after 0xA5 and
      before the reserved bytes fe ed ca, gives ID type 0xA, UA type 5 and the
      identity without its spaces. */
  lemma TrailingSpacesTrimmed()
    ensures BaseMessageDecoder.FromBytes([0xA5] + DRONE_BASE + Repeat(0x20, 11) + [0xFE, 0xED, 0xCA])
      == Ok(BaseMessageDecoder.BaseMessage(0xA, 0x5, "DroneBase", [0xFE, 0xED, 0xCA]))
  {
    var data := [0xA5] + DRONE_BASE + Repeat(0x20, 11) + [0xFE, 0xED, 0xCA];
    var text := "DroneBase" + seq(11, k => ' ');
    SpacePaddedBytes(data, text);
    SpacePaddedTrim(text);
    BasicIdDecodesAt(data, 0xA, 0x5, text, "DroneBase", [0xFE, 0xED, 0xCA]);
  }

  lemma SpacePaddedBytes(data: seq<uint8>, text: string)
    requires data == [0xA5] + DRONE_BASE + Repeat(0x20, 11) + [0xFE, 0xED, 0xCA]
    requires text == "DroneBase" + seq(11, k => ' ')
    ensures |data| == 24 && data[0] == 0xA5 && data[21..24] == [0xFE, 0xED, 0xCA]
    ensures Utf8.FromUtf8(data[1..21]) == Utf8.Text(text)
  {
    var id := DRONE_BASE + Repeat(0x20, 11);
    assert data[1..21] == id;
    AsciiText(id, text);
  }

  lemma SpacePaddedTrim(text: string)
    requires text == "DroneBase" + seq(11, k => ' ')
    ensures BaseMessageDecoder.TrimUasId(text) == "DroneBase"
  {
    Trim.TrimEndPadding("DroneBase", seq(11, k => ' '));
    assert Trim.TrimEndMatches(text, BaseMessageDecoder.NUL) == text;
    assert Trim.TrimEnd("DroneBase") == "DroneBase";
  }

  /** "BaseMsg" followed by 13 NULs gives "BaseMsg". */
  lemma TrailingNulsTrimmed()
    ensures BaseMessageDecoder.FromBytes([0x12, 0x42, 0x61, 0x73, 0x65, 0x4d, 0x73, 0x67] + Repeat(0, 16))
      == Ok(BaseMessageDecoder.BaseMessage(0x1, 0x2, "BaseMsg", [0, 0, 0]))
  {
    var data := [0x12, 0x42, 0x61, 0x73, 0x65, 0x4d, 0x73, 0x67] + Repeat(0, 16);
    var text := "BaseMsg" + seq(13, k => '\0');
    NulPaddedBytes(data, text);
    NulPaddedTrim(text);
    BasicIdDecodesAt(data, 0x1, 0x2, text, "BaseMsg", [0, 0, 0]);
  }

  lemma NulPaddedBytes(data: seq<uint8>, text: string)
    requires data == [0x12, 0x42, 0x61, 0x73, 0x65, 0x4d, 0x73, 0x67] + Repeat(0, 16)
    requires text == "BaseMsg" + seq(13, k => '\0')
    ensures |data| == 24 && data[0] == 0x12 && data[21..24] == [0, 0, 0]
    ensures Utf8.FromUtf8(data[1..21]) == Utf8.Text(text)
  {
    var id := data[1..21];
    assert id == [0x42, 0x61, 0x73, 0x65, 0x4d, 0x73, 0x67] + Repeat(0, 13);
    AsciiText(id, text);
  }

  lemma NulPaddedTrim(text: string)
    requires text == "BaseMsg" + seq(13, k => '\0')
    ensures BaseMessageDecoder.TrimUasId(text) == "BaseMsg"
  {
    Trim.TrimEndMatchesPadding("BaseMsg", BaseMessageDecoder.NUL, seq(13, k => '\0'));
    assert Trim.TrimEndMatches("BaseMsg", BaseMessageDecoder.NUL) == "BaseMsg";
    assert Trim.TrimEnd("BaseMsg") == "BaseMsg";
  }

  /** ASCII bytes decode to the text with those character codes. */
  lemma AsciiText(bytes: seq<uint8>, text: string)
    requires |bytes| == |text| && forall k | 0 <= k < |bytes| :: bytes[k] < 0x80 && text[k] == bytes[k] as char
    ensures Utf8.FromUtf8(bytes) == Utf8.Text(text)
  {
    Utf8.AsciiDecodes(bytes, 0);
    assert seq(|bytes|, k requires 0 <= k < |bytes| => bytes[k] as char) == text;
  }

  /** A NUL standing before trailing white space survives the trim. */
  lemma NulBeforeSpaceSurvives()
    ensures BaseMessageDecoder.TrimUasId("ab\0 ") == "ab\0"
  {
  }

  /** A lead byte 0xFF makes the identity invalid at index 0. */
  lemma LeadByteFFRejected()
    ensures BaseMessageDecoder.FromBytes([0x34, 0xFF] + Repeat(0, 22))
      == Err(InvalidUtf8(Utf8.Utf8Error(0, Some(1))))
  {
    var data := [0x34, 0xFF] + Repeat(0, 22);
    assert data[1..21][0] == 0xFF;
  }

  /** 23 zero bytes: the code as written panics on the reserved slice, the
      corrected decoder reports `InsufficientLength(24, 23)`. */
  lemma TwentyThreeZeros()
    ensures BaseMessageDecoder.FromBytesAsWritten(Repeat(0, 23)) == Panicked(IndexOutOfRange(24, 23))
    ensures BaseMessageDecoder.FromBytes(Repeat(0, 23)) == Err(InsufficientLength(24, 23))
  {
    var data := Repeat(0, 23);
    Utf8.AsciiDecodes(data[1..21], 0);
  }

  // ---------------------------------------------------------------------
  // Display.

  lemma DisplayLengthExample()
    ensures Display(InsufficientLength(24, 23)) == "数据长度不足: 需要 " + "24" + " 字节, 实际 " + "23" + " 字节"
  {
    TwoDigits(24);
    TwoDigits(23);
  }

  lemma TwoDigits(n: nat)
    requires 10 <= n < 100
    ensures Decimal(n) == [Digit(n / 10), Digit(n % 10)]
  {
    assert Decimal(n / 10) == [Digit(n / 10)];
  }

  lemma DisplayTypeExample()
    ensures Display(UnknownMessageType(0x0F)) == "未知消息类型: 0x0F"
  {
    assert Hex2(0x0F) == "0F";
  }
}
