/** The error type shared by the decoders, the message-type enumeration and
    the text `Display` renders for an error (src/message/message.rs). */
module Message {
  import opened Bytes
  import opened Wrappers
  import Utf8

  /** `MessageError`: exactly three kinds. A bad classification region of a
      System message is reported as `UnknownMessageType(1)`; there is no kind
      of its own for it. */
  datatype MessageError =
    | InsufficientLength(expected: nat, actual: nat)
    | InvalidUtf8(fault: Utf8.Utf8Error)
    | UnknownMessageType(messageType: uint8)

  /** What every `from_bytes` returns: a whole record or one error. */
  datatype Result<+T> = Ok(value: T) | Err(error: MessageError)

  /** `MessageType`, with its explicit discriminants. */
  datatype MessageType = BaseMessageType | PositionVectorMessageType

  function Discriminant(t: MessageType): (d: uint8)
    ensures d < 2
    ensures t == (if d == 0 then BaseMessageType else PositionVectorMessageType)
  {
    match t
    case BaseMessageType => 0
    case PositionVectorMessageType => 1
  }

  // ---------------------------------------------------------------------
  // Formatting.

  /** The digit character for a value below 16: '0' to '9', then 'A' to 'F'. */
  function Digit(d: nat): (c: char)
    requires d < 16
    ensures DigitValue(c) == d
  {
    if d < 10 then ('0' as int + d) as char else ('A' as int + d - 10) as char
  }

  predicate IsDecimalDigit(c: char) {
    '0' <= c <= '9'
  }

  predicate AllDecimalDigits(s: string) {
    |s| >= 1 && forall k | 0 <= k < |s| :: IsDecimalDigit(s[k])
  }

  predicate IsUpperHexDigit(c: char) {
    '0' <= c <= '9' || 'A' <= c <= 'F'
  }

  /** `{}` of an unsigned integer: its decimal digits, without leading zeros. */
  function Decimal(n: nat): (s: string)
    ensures |s| >= 1
    ensures forall k | 0 <= k < |s| :: IsDecimalDigit(s[k])
    ensures |s| > 1 ==> s[0] != '0'
    decreases n
  {
    if n < 10 then [Digit(n)] else Decimal(n / 10) + [Digit(n % 10)]
  }

  function DigitValue(c: char): nat {
    if '0' <= c <= '9' then c as int - '0' as int
    else if 'A' <= c <= 'F' then c as int - 'A' as int + 10
    else 0
  }

  /** Reading a digit string back in base 10. */
  function ParseDecimal(s: string): nat {
    if s == [] then 0 else 10 * ParseDecimal(s[..|s| - 1]) + DigitValue(s[|s| - 1])
  }

  /** The digits `{}` prints read back to the number. */
  lemma {:induction false} DecimalRoundTrip(n: nat)
    ensures ParseDecimal(Decimal(n)) == n
    decreases n
  {
    if n >= 10 {
      DecimalRoundTrip(n / 10);
      var s := Decimal(n);
      assert s[..|s| - 1] == Decimal(n / 10);
    }
  }

  /** `{:02X}` of a byte: exactly two upper-case hexadecimal digits. */
  function Hex2(b: uint8): (s: string)
    ensures |s| == 2
    ensures IsUpperHexDigit(s[0]) && IsUpperHexDigit(s[1])
    ensures 16 * DigitValue(s[0]) + DigitValue(s[1]) == b
  {
    [Digit(b / 16), Digit(b % 16)]
  }

  /** `Display` of `Utf8Error`. */
  function Utf8ErrorText(e: Utf8.Utf8Error): (r: string)
    ensures e.errorLen.Some? <==> InvalidSequenceText <= r
    ensures e.errorLen.None? <==> IncompleteSequenceText <= r
    ensures |r| >= |Decimal(e.validUpTo)| && r[|r| - |Decimal(e.validUpTo)|..] == Decimal(e.validUpTo)
  {
    match e.errorLen
    case Some(n) =>
      var t := InvalidSequenceText + Decimal(n) + " bytes from index " + Decimal(e.validUpTo);
      assert t[2] == 'v';
      t
    case None =>
      var t := IncompleteSequenceText + Decimal(e.validUpTo);
      assert t[2] == 'c';
      t
  }

  const InvalidSequenceText: string := "invalid utf-8 sequence of "
  const IncompleteSequenceText: string := "incomplete utf-8 byte sequence from index "

  const InsufficientLengthPrefix: string := "数据长度不足: 需要 "
  const InsufficientLengthMiddle: string := " 字节, 实际 "
  const InsufficientLengthSuffix: string := " 字节"
  const InvalidUtf8Prefix: string := "文本格式错误: "
  const UnknownMessageTypePrefix: string := "未知消息类型: 0x"

  /** `Display for MessageError`. */
  function Display(e: MessageError): (r: string)
    ensures e.InsufficientLength? <==> InsufficientLengthPrefix <= r
    ensures e.InvalidUtf8? <==> InvalidUtf8Prefix <= r
    ensures e.UnknownMessageType? <==> UnknownMessageTypePrefix <= r
  {
    match e
    case InsufficientLength(expected, actual) =>
      var t := InsufficientLengthPrefix + Decimal(expected) + InsufficientLengthMiddle + Decimal(actual) + InsufficientLengthSuffix;
      assert t[0] == '数';
      t
    case InvalidUtf8(fault) =>
      var t := InvalidUtf8Prefix + Utf8ErrorText(fault);
      assert t[0] == '文';
      t
    case UnknownMessageType(code) =>
      var t := UnknownMessageTypePrefix + Hex2(code);
      assert t[0] == '未';
      t
  }

  /** `Display` covers every kind. The length message carries the expected
      length before the actual one, each as decimal digits that read back to
      the number; the unknown-type message ends in the two upper-case hex
      digits of the type. */
  lemma DisplayLayout(e: MessageError)
    ensures e.InsufficientLength? ==>
      exists d1, d2 ::
        && Display(e) == InsufficientLengthPrefix + d1 + InsufficientLengthMiddle + d2 + InsufficientLengthSuffix
        && AllDecimalDigits(d1) && AllDecimalDigits(d2)
        && ParseDecimal(d1) == e.expected && ParseDecimal(d2) == e.actual
    ensures e.InvalidUtf8? ==> Display(e) == InvalidUtf8Prefix + Utf8ErrorText(e.fault)
    ensures e.UnknownMessageType? ==>
      && Display(e) == UnknownMessageTypePrefix + Display(e)[|UnknownMessageTypePrefix|..]
      && var h := Display(e)[|UnknownMessageTypePrefix|..];
        |h| == 2 && IsUpperHexDigit(h[0]) && IsUpperHexDigit(h[1])
        && 16 * DigitValue(h[0]) + DigitValue(h[1]) == e.messageType
  {
    match e
    case InsufficientLength(expected, actual) =>
      DecimalRoundTrip(expected);
      DecimalRoundTrip(actual);
      assert Display(e) == InsufficientLengthPrefix + Decimal(expected) + InsufficientLengthMiddle
        + Decimal(actual) + InsufficientLengthSuffix;
    case InvalidUtf8(_) =>
    case UnknownMessageType(t) =>
      assert Display(e)[|UnknownMessageTypePrefix|..] == Hex2(t);
  }
}
