/** The Basic ID message, message type 0 (src/message/base_message.rs). */
module BaseMessageDecoder {
  import opened Bytes
  import opened Wrappers
  import opened Message
  import Utf8
  import Trim

  const MESSAGE_TYPE: uint8 := 0x00
  /** The length the code checks for; reading the reserved bytes needs 24. */
  const EXPECTED_LENGTH: nat := 23
  const NUL: char := '\0'

  datatype BaseMessage = BaseMessage(
    idType: uint8,          // bits 7-4 of byte 0
    uaType: uint8,          // bits 3-0 of byte 0
    uasId: string,          // bytes 1..21 as UTF-8, trailing NULs then white space removed
    reserved: seq<uint8>)   // bytes 21..24

  /** The identity text: `trim_end_matches('\0')` and then `trim_end()`. */
  function TrimUasId(text: string): string {
    Trim.TrimEnd(Trim.TrimEndMatches(text, NUL))
  }

  /** `BaseMessage::from_bytes` as written. An input of exactly 23 bytes passes
      the length check and then panics on the slice `data[21..24]`, after the
      identity text has been validated. */
  function FromBytesAsWritten(data: seq<uint8>): (r: Outcome<Result<BaseMessage>>)
    ensures r.Panicked? ==> |data| == EXPECTED_LENGTH && r.panic == IndexOutOfRange(24, EXPECTED_LENGTH)
    ensures |data| < EXPECTED_LENGTH ==> r == Returned(Err(InsufficientLength(EXPECTED_LENGTH, |data|)))
    ensures r.Returned? && r.value.Ok? ==>
      && |data| >= 24
      && r.value.value.idType < 16 && r.value.value.uaType < 16
      && r.value.value.reserved == data[21..24]
  {
    if |data| < EXPECTED_LENGTH then
      Returned(Err(InsufficientLength(EXPECTED_LENGTH, |data|)))
    else
      var byte0 := data[0];
      var idType := (byte0 / 16) % 16;   // (byte0 >> 4) & 0x0F
      var uaType := byte0 % 16;          // byte0 & 0x0F
      match Utf8.FromUtf8(data[1..21])
      case Invalid(e) => Returned(Err(InvalidUtf8(e)))
      case Text(s) =>
        if |data| < 21 + 3 then Panicked(IndexOutOfRange(21 + 3, |data|))
        else Returned(Ok(BaseMessage(idType, uaType, TrimUasId(s), data[21..24])))
  }

  /** `BaseMessage::from_bytes` as evidently intended: where the slice of the
      reserved bytes would panic, the decoder returns the error its `map_err`
      fallback names, `InsufficientLength(24, len)`. */
  function FromBytes(data: seq<uint8>): (r: Result<BaseMessage>)
    ensures |data| < 24 ==> r.Err?
    ensures r.Err? ==> r.error.InsufficientLength? || r.error.InvalidUtf8?
    ensures r.Err? && r.error.InsufficientLength? ==> r.error.actual == |data| < r.error.expected
    ensures r.Ok? ==> FromBytesAsWritten(data) == Returned(r)
  {
    match FromBytesAsWritten(data)
    case Returned(r) => r
    case Panicked(_) => Err(InsufficientLength(24, |data|))
  }

  // ---------------------------------------------------------------------
  // The 23-byte discrepancy.

  /** As written, every 23-byte input whose identity bytes are valid UTF-8
      panics; the 23 zero bytes of the source's test are one. */
  lemma AsWrittenPanicsAt23(data: seq<uint8>)
    requires |data| == 23 && Utf8.WellFormed(data[1..21])
    ensures FromBytesAsWritten(data) == Panicked(IndexOutOfRange(24, 23))
  {
    Utf8.FromUtf8IsWellFormed(data[1..21]);
  }

  /** The corrected decoder returns `InsufficientLength(24, 23)` there, which is
      what the source's test expects, and agrees with the code as written on
      every other input. */
  lemma CorrectedAgreesElsewhere(data: seq<uint8>)
    ensures |data| != 23 ==> FromBytesAsWritten(data) == Returned(FromBytes(data))
    ensures |data| == 23 && Utf8.WellFormed(data[1..21]) ==> FromBytes(data) == Err(InsufficientLength(24, 23))
  {
    if |data| == 23 && Utf8.WellFormed(data[1..21]) {
      AsWrittenPanicsAt23(data);
    }
  }

  // ---------------------------------------------------------------------
  // Properties of the decoder.

  /** Inputs shorter than 23 bytes fail with `InsufficientLength(23, len)`;
      a record is produced exactly when there are 24 bytes or more and bytes
      1..21 are well-formed UTF-8; ill-formed identity bytes give
      `InvalidUtf8` carrying `from_utf8`'s error, whose index lies inside the
      identity field. */
  lemma FromBytesOutcomes(data: seq<uint8>)
    ensures |data| < 23 ==> FromBytes(data) == Err(InsufficientLength(23, |data|))
    ensures FromBytes(data).Ok? <==> |data| >= 24 && Utf8.WellFormed(data[1..21])
    ensures |data| >= 23 && !Utf8.WellFormed(data[1..21]) ==>
      && Utf8.FromUtf8(data[1..21]).Invalid?
      && FromBytes(data) == Err(InvalidUtf8(Utf8.FromUtf8(data[1..21]).error))
      && FromBytes(data).error.fault.validUpTo < 20
  {
    if |data| >= 23 {
      Utf8.FromUtf8IsWellFormed(data[1..21]);
      if !Utf8.WellFormed(data[1..21]) {
        Utf8.FromUtf8Error(data[1..21]);
      }
    }
  }

  /** The trimmed identity is the text with a run of white space and then a
      run of NULs cut off its end; the NUL run takes every trailing NUL and the
      result does not end in white space, so NULs standing before trailing
      white space survive. */
  ghost predicate IsTrimmedIdOf(id: string, text: string) {
    exists white: string, nuls: string :: TrimmedAs(id, text, white, nuls)
  }

  predicate TrimmedAs(id: string, text: string, white: string, nuls: string) {
    && text == id + white + nuls
    && (forall k | 0 <= k < |white| :: Trim.IsWhiteSpace(white[k]))
    && (forall k | 0 <= k < |nuls| :: nuls[k] == NUL)
    && (id + white == [] || (id + white)[|id + white| - 1] != NUL)
    && (id == [] || !Trim.IsWhiteSpace(id[|id| - 1]))
  }

  lemma TrimUasIdSplits(text: string)
    ensures IsTrimmedIdOf(TrimUasId(text), text)
  {
    var t1 := Trim.TrimEndMatches(text, NUL);
    var r := Trim.TrimEnd(t1);
    var white := t1[|r|..];
    var nuls := text[|t1|..];
    assert r + white == t1;
    assert t1 + nuls == text;
    assert forall k | 0 <= k < |white| :: Trim.IsWhiteSpace(white[k]) by {
      forall k | 0 <= k < |white| ensures Trim.IsWhiteSpace(white[k]) {
        assert white[k] == t1[|r| + k];
      }
    }
    assert forall k | 0 <= k < |nuls| :: nuls[k] == NUL by {
      forall k | 0 <= k < |nuls| ensures nuls[k] == NUL {
        assert nuls[k] == text[|t1| + k];
      }
    }
    assert text == r + white + nuls;
    assert TrimmedAs(r, text, white, nuls);
  }

  /** A decoded record: the two type nibbles are below 16 and rebuild byte 0;
      `reserved` is bytes 21..24; and `uas_id` is the trimmed decoded text of
      bytes 1..21. */
  lemma FromBytesFields(data: seq<uint8>)
    requires FromBytes(data).Ok?
    ensures var m := FromBytes(data).value;
      && m.idType < 16 && m.uaType < 16
      && 16 * m.idType + m.uaType == data[0]
      && m.reserved == data[21..24] && |m.reserved| == 3
      && Utf8.FromUtf8(data[1..21]).Text?
      && IsTrimmedIdOf(m.uasId, Utf8.FromUtf8(data[1..21]).chars)
  {
    var text := Utf8.FromUtf8(data[1..21]).chars;
    assert FromBytes(data).value == BaseMessage(data[0] / 16 % 16, data[0] % 16, TrimUasId(text), data[21..24]);
    TrimUasIdSplits(text);
  }

  /** Only bytes 0..24 are read: inputs that agree there decode alike, and the
      identity depends on bytes 1..21 alone. */
  lemma FromBytesReadsOnlyPrefix(a: seq<uint8>, b: seq<uint8>)
    requires |a| >= 24 && |b| >= 24
    ensures a[..24] == b[..24] ==> FromBytes(a) == FromBytes(b)
    ensures a[1..21] == b[1..21] && FromBytes(a).Ok? && FromBytes(b).Ok? ==>
      FromBytes(a).value.uasId == FromBytes(b).value.uasId
  {
    if a[..24] == b[..24] {
      assert a[1..21] == a[..24][1..21] && b[1..21] == b[..24][1..21];
      assert a[21..24] == a[..24][21..24] && b[21..24] == b[..24][21..24];
    }
  }
}
