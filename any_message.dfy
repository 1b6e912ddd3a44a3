/** The message-type dispatcher (src/message/mod.rs): the high nibble of byte
    0 selects the decoder, which reads the bytes after it. */
module MessageDispatch {
  import opened Bytes
  import opened Message
  import opened Wrappers
  import Utf8
  import BaseMessageDecoder
  import PositionVectorDecoder
  import SystemMessageDecoder

  datatype AnyMessage =
    | Base(base: BaseMessageDecoder.BaseMessage)
    | PositionVector(positionVector: PositionVectorDecoder.PositionVectorMessage)
    | System(system: SystemMessageDecoder.SystemMessage)

  /** `(data[0] >> 4) & 0x0f`. */
  function TypeNibble(b: uint8): (t: uint8)
    ensures t < 16 && 16 * t + b % 16 == b
  {
    (b / 16) % 16
  }

  /** `AnyMessage::from_bytes`. The System decoder is its fixed-offset
      specification, which the cursor method computes. */
  function FromBytes(data: seq<uint8>): (r: Result<AnyMessage>)
    ensures |data| == 0 ==> r == Err(InsufficientLength(1, 0))
    ensures r.Ok? ==>
      && |data| > 0
      && (r.value.Base? <==> TypeNibble(data[0]) == BaseMessageDecoder.MESSAGE_TYPE)
      && (r.value.PositionVector? <==> TypeNibble(data[0]) == PositionVectorDecoder.MESSAGE_TYPE)
      && (r.value.System? <==> TypeNibble(data[0]) == SystemMessageDecoder.MESSAGE_TYPE)
    ensures r.Err? && r.error.UnknownMessageType? && r.error.messageType != 1 ==>
      |data| > 0 && r.error.messageType == TypeNibble(data[0]) && TypeNibble(data[0]) !in {0, 1, 4}
  {
    if |data| == 0 then Err(InsufficientLength(1, 0))
    else
      var messageType := TypeNibble(data[0]);
      var content := data[1..];
      if messageType == BaseMessageDecoder.MESSAGE_TYPE then
        match BaseMessageDecoder.FromBytes(content)
        case Ok(m) => Ok(Base(m))
        case Err(e) => Err(e)
      else if messageType == PositionVectorDecoder.MESSAGE_TYPE then
        match PositionVectorDecoder.FromBytes(content)
        case Ok(m) => Ok(PositionVector(m))
        case Err(e) => Err(e)
      else if messageType == SystemMessageDecoder.MESSAGE_TYPE then
        match SystemMessageDecoder.FixedLayout(content)
        case Ok(m) => Ok(System(m))
        case Err(e) => Err(e)
      else Err(UnknownMessageType(messageType))
  }

  /** On a 24-byte Basic ID input whose identity bytes are well-formed, the
      Basic ID decoder as written panics on the content, while the dispatcher
      modelled here returns the length error. */
  lemma DispatchDivergesAt24(data: seq<uint8>)
    requires |data| == 24 && TypeNibble(data[0]) == 0 && Utf8.WellFormed(data[2..22])
    ensures BaseMessageDecoder.FromBytesAsWritten(data[1..]) == Panicked(IndexOutOfRange(24, 23))
    ensures FromBytes(data) == Err(InsufficientLength(24, 23))
  {
    assert data[1..][1..21] == data[2..22];
    BaseMessageDecoder.CorrectedAgreesElsewhere(data[1..]);
    BaseMessageDecoder.AsWrittenPanicsAt23(data[1..]);
  }

  /** The pack loop passes 25-byte packs, whose 24-byte content the Basic ID
      decoder as written and the corrected one decode alike. */
  lemma PacksAgree(data: seq<uint8>)
    requires |data| == 25
    ensures BaseMessageDecoder.FromBytesAsWritten(data[1..]) == Returned(BaseMessageDecoder.FromBytes(data[1..]))
  {
    BaseMessageDecoder.CorrectedAgreesElsewhere(data[1..]);
  }

  /** The `MessageType` discriminants are the message-type codes of the Basic
      ID and Location decoders. */
  lemma DiscriminantsAreMessageTypes()
    ensures Discriminant(BaseMessageType) == BaseMessageDecoder.MESSAGE_TYPE
    ensures Discriminant(PositionVectorMessageType) == PositionVectorDecoder.MESSAGE_TYPE
  {
  }

  /** The dispatch table: empty input fails with `InsufficientLength(1, 0)`;
      nibbles 0, 1 and 4 give exactly the records of their decoders on the
      bytes after byte 0, and pass the decoder's error through unchanged; any
      other nibble fails with `UnknownMessageType(nibble)`. */
  lemma DispatchTable(data: seq<uint8>)
    ensures |data| == 0 ==> FromBytes(data) == Err(InsufficientLength(1, 0))
    ensures |data| > 0 && TypeNibble(data[0]) == 0 ==>
      && (forall m :: FromBytes(data) == Ok(Base(m)) <==> BaseMessageDecoder.FromBytes(data[1..]) == Ok(m))
      && (forall e :: FromBytes(data) == Err(e) <==> BaseMessageDecoder.FromBytes(data[1..]) == Err(e))
    ensures |data| > 0 && TypeNibble(data[0]) == 1 ==>
      && (forall m :: FromBytes(data) == Ok(PositionVector(m)) <==> PositionVectorDecoder.FromBytes(data[1..]) == Ok(m))
      && (forall e :: FromBytes(data) == Err(e) <==> PositionVectorDecoder.FromBytes(data[1..]) == Err(e))
    ensures |data| > 0 && TypeNibble(data[0]) == 4 ==>
      && (forall m :: FromBytes(data) == Ok(System(m)) <==> SystemMessageDecoder.FixedLayout(data[1..]) == Ok(m))
      && (forall e :: FromBytes(data) == Err(e) <==> SystemMessageDecoder.FixedLayout(data[1..]) == Err(e))
    ensures |data| > 0 && TypeNibble(data[0]) !in {0, 1, 4} ==>
      FromBytes(data) == Err(UnknownMessageType(TypeNibble(data[0])))
  {
  }

  /** The record kind always matches the nibble. */
  lemma KindMatchesNibble(data: seq<uint8>)
    requires FromBytes(data).Ok?
    ensures |data| > 0
    ensures FromBytes(data).value.Base? <==> TypeNibble(data[0]) == 0
    ensures FromBytes(data).value.PositionVector? <==> TypeNibble(data[0]) == 1
    ensures FromBytes(data).value.System? <==> TypeNibble(data[0]) == 4
  {
  }

  /** Only the high nibble of byte 0 is read: inputs that differ only in the
      low nibble of byte 0 decode alike. */
  lemma LowNibbleIgnored(a: seq<uint8>, b: seq<uint8>)
    requires |a| == |b| > 0 && a[1..] == b[1..] && a[0] / 16 == b[0] / 16
    ensures FromBytes(a) == FromBytes(b)
  {
    assert TypeNibble(a[0]) == TypeNibble(b[0]);
  }

  /** The decoders see `len - 1` bytes, so a Location or System input shorter
      than 25 bytes fails with `InsufficientLength(24, len - 1)`. */
  lemma ShortContent(data: seq<uint8>)
    requires |data| > 0 && TypeNibble(data[0]) in {1, 4} && |data| < 25
    ensures FromBytes(data) == Err(InsufficientLength(24, |data| - 1))
  {
  }

  // ---------------------------------------------------------------------
  // Framing, the dispatcher's inverse on the two fixed-layout kinds.

  /** A Location record framed with its type byte decodes back to itself, and
      so does a System record. */
  lemma FramedRoundTrip(pv: PositionVectorDecoder.PositionVectorMessage,
                        sm: SystemMessageDecoder.SystemMessage, low: uint8)
    requires PositionVectorDecoder.Encodable(pv) && SystemMessageDecoder.Encodable(sm) && low < 16
    ensures FromBytes([16 * PositionVectorDecoder.MESSAGE_TYPE + low] + PositionVectorDecoder.ToBytes(pv))
            == Ok(PositionVector(pv))
    ensures FromBytes([16 * SystemMessageDecoder.MESSAGE_TYPE + low] + SystemMessageDecoder.ToBytes(sm))
            == Ok(System(sm))
  {
    PositionVectorDecoder.FromBytesToBytes(pv);
    SystemMessageDecoder.FixedLayoutToBytes(sm);
    var a := [16 * PositionVectorDecoder.MESSAGE_TYPE + low] + PositionVectorDecoder.ToBytes(pv);
    var b := [16 * SystemMessageDecoder.MESSAGE_TYPE + low] + SystemMessageDecoder.ToBytes(sm);
    assert a[1..] == PositionVectorDecoder.ToBytes(pv);
    assert b[1..] == SystemMessageDecoder.ToBytes(sm);
  }
}
