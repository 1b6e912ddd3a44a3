/** UTF-8 validation and decoding as Rust's `str::from_utf8` performs it,
    with the error it reports, checked against the well-formedness syntax of
    section 4 of RFC 3629. */
module Utf8 {
  import opened Bytes
  import opened Wrappers

  /** Rust's `str::Utf8Error`: the length of the longest valid prefix, and the
      length of the invalid sequence that follows it, or `None` when the input
      ended in the middle of a character. */
  datatype Utf8Error = Utf8Error(validUpTo: nat, errorLen: Option<nat>)

  datatype Decoded = Text(chars: string) | Invalid(error: Utf8Error)

  // ---------------------------------------------------------------------
  // The reference: section 4 of RFC 3629.

  /** UTF8-tail = %x80-BF */
  predicate IsTail(b: uint8) {
    0x80 <= b <= 0xBF
  }

  /** UTF8-char = UTF8-1 / UTF8-2 / UTF8-3 / UTF8-4 */
  predicate IsUtf8Char(c: seq<uint8>) {
    || (|c| == 1 && c[0] <= 0x7F)
    || (|c| == 2 && 0xC2 <= c[0] <= 0xDF && IsTail(c[1]))
    || (|c| == 3 && IsTail(c[2]) &&
        (|| (c[0] == 0xE0 && 0xA0 <= c[1] <= 0xBF)
         || (0xE1 <= c[0] <= 0xEC && IsTail(c[1]))
         || (c[0] == 0xED && 0x80 <= c[1] <= 0x9F)
         || (0xEE <= c[0] <= 0xEF && IsTail(c[1]))))
    || (|c| == 4 && IsTail(c[2]) && IsTail(c[3]) &&
        (|| (c[0] == 0xF0 && 0x90 <= c[1] <= 0xBF)
         || (0xF1 <= c[0] <= 0xF3 && IsTail(c[1]))
         || (c[0] == 0xF4 && 0x80 <= c[1] <= 0x8F)))
  }

  /** UTF8-octets = *( UTF8-char ) */
  predicate WellFormed(s: seq<uint8>)
    decreases |s|
  {
    s == [] || exists n | 1 <= n <= 4 && n <= |s| :: IsUtf8Char(s[..n]) && WellFormed(s[n..])
  }

  // ---------------------------------------------------------------------
  // Rust's validation loop, one character at a time.

  /** `core::str::utf8_char_width` for a non-ASCII lead byte. */
  function CharWidth(first: uint8): nat {
    if 0xC2 <= first <= 0xDF then 2
    else if 0xE0 <= first <= 0xEF then 3
    else if 0xF0 <= first <= 0xF4 then 4
    else 0
  }

  /** The second byte of a three-byte character, which range depends on the
      first. */
  predicate SecondOf3(first: int, second: int) {
    || (first == 0xE0 && 0xA0 <= second <= 0xBF)
    || (0xE1 <= first <= 0xEC && 0x80 <= second <= 0xBF)
    || (first == 0xED && 0x80 <= second <= 0x9F)
    || (0xEE <= first <= 0xEF && 0x80 <= second <= 0xBF)
  }

  /** The second byte of a four-byte character. */
  predicate SecondOf4(first: int, second: int) {
    || (first == 0xF0 && 0x90 <= second <= 0xBF)
    || (0xF1 <= first <= 0xF3 && 0x80 <= second <= 0xBF)
    || (first == 0xF4 && 0x80 <= second <= 0x8F)
  }

  /** One step of the loop at index i: a character of `width` bytes, or the
      error length the step reports. */
  datatype Step = Char(width: nat, c: char) | Bad(errorLen: Option<nat>)

  function StepAt(s: seq<uint8>, i: nat): (r: Step)
    requires i < |s|
    ensures r.Char? ==> 1 <= r.width <= 4 && i + r.width <= |s|
    ensures r.Bad? && r.errorLen.Some? ==> 1 <= r.errorLen.value <= 3 && i + r.errorLen.value <= |s|
    ensures r.Bad? && r.errorLen.None? ==> |s| - i < 4
  {
    var first := s[i];
    if first < 0x80 then Char(1, first as char)
    else
      var w := CharWidth(first);
      if w == 2 then
        if i + 1 >= |s| then Bad(None)
        else if !IsTail(s[i + 1]) then Bad(Some(1))
        else Char(2, Scalar2(first, s[i + 1]))
      else if w == 3 then
        if i + 1 >= |s| then Bad(None)
        else if !SecondOf3(first, s[i + 1]) then Bad(Some(1))
        else if i + 2 >= |s| then Bad(None)
        else if !IsTail(s[i + 2]) then Bad(Some(2))
        else Char(3, Scalar3(first, s[i + 1], s[i + 2]))
      else if w == 4 then
        if i + 1 >= |s| then Bad(None)
        else if !SecondOf4(first, s[i + 1]) then Bad(Some(1))
        else if i + 2 >= |s| then Bad(None)
        else if !IsTail(s[i + 2]) then Bad(Some(2))
        else if i + 3 >= |s| then Bad(None)
        else if !IsTail(s[i + 3]) then Bad(Some(3))
        else Char(4, Scalar4(first, s[i + 1], s[i + 2], s[i + 3]))
      else Bad(Some(1))
  }

  /** The scalar value of a two-byte character: 5 bits of the lead byte and 6
      of the tail. */
  function Scalar2(b0: int, b1: int): (c: char)
    requires 0xC2 <= b0 <= 0xDF && 0x80 <= b1 <= 0xBF
    ensures 0x80 <= c as int <= 0x7FF
  {
    ((b0 % 0x20) * 0x40 + b1 % 0x40) as char
  }

  /** The scalar value of a three-byte character; the second-byte ranges of
      `SecondOf3` keep it at or above 0x800 and outside the surrogates. */
  function Scalar3(b0: int, b1: int, b2: int): (c: char)
    requires 0xE0 <= b0 <= 0xEF && 0 <= b1 < 0x100 && SecondOf3(b0, b1) && 0x80 <= b2 <= 0xBF
    ensures 0x800 <= c as int <= 0xFFFF
  {
    ((b0 % 0x10) * 0x1000 + (b1 % 0x40) * 0x40 + b2 % 0x40) as char
  }

  /** The scalar value of a four-byte character; `SecondOf4` keeps it between
      0x10000 and 0x10FFFF. */
  function Scalar4(b0: int, b1: int, b2: int, b3: int): (c: char)
    requires 0xF0 <= b0 <= 0xF4 && 0 <= b1 < 0x100 && SecondOf4(b0, b1)
    requires 0x80 <= b2 <= 0xBF && 0x80 <= b3 <= 0xBF
    ensures 0x1_0000 <= c as int <= 0x10_FFFF
  {
    var lead, second, tail := b0 % 0x08, b1 % 0x40, (b2 % 0x40) * 0x40 + b3 % 0x40;
    assert lead == b0 - 0xF0 && second == b1 - 0x80 && 0 <= tail < 0x1000;
    assert b0 == 0xF0 ==> 0x10 <= second;
    assert b0 == 0xF4 ==> second <= 0x0F;
    (lead * 0x4_0000 + second * 0x1000 + tail) as char
  }

  function FromUtf8From(s: seq<uint8>, i: nat): (r: Decoded)
    requires i <= |s|
    ensures r.Text? ==> |r.chars| <= |s| - i
    ensures r.Invalid? ==> i <= r.error.validUpTo < |s|
    decreases |s| - i
  {
    if i == |s| then Text([])
    else match StepAt(s, i)
      case Bad(e) => Invalid(Utf8Error(i, e))
      case Char(w, c) =>
        match FromUtf8From(s, i + w)
        case Text(t) => Text([c] + t)
        case Invalid(e) => Invalid(e)
  }

  /** `str::from_utf8`: at most one character per byte, and an error index
      inside the input. */
  function FromUtf8(s: seq<uint8>): (r: Decoded)
    ensures r.Text? ==> |r.chars| <= |s|
    ensures r.Invalid? ==> r.error.validUpTo < |s|
  {
    FromUtf8From(s, 0)
  }

  // ---------------------------------------------------------------------
  // The loop agrees with the reference.

  /** The sequence begins with a UTF8-char. */
  predicate StartsWithChar(t: seq<uint8>) {
    exists n | 1 <= n <= 4 && n <= |t| :: IsUtf8Char(t[..n])
  }

  /** A step succeeds exactly on a UTF8-char, and then consumes exactly it. */
  lemma StepIsUtf8Char(s: seq<uint8>, i: nat)
    requires i < |s|
    ensures StepAt(s, i).Char? ==> IsUtf8Char(s[i..][..StepAt(s, i).width])
    ensures StepAt(s, i).Char? <==> StartsWithChar(s[i..])
    ensures forall n | 1 <= n <= 4 && n <= |s| - i ::
              IsUtf8Char(s[i..][..n]) ==> StepAt(s, i).Char? && StepAt(s, i).width == n
  {
    var t := s[i..];
    if StepAt(s, i).Char? {
      assert IsUtf8Char(t[..StepAt(s, i).width]);
    }
    forall n | 1 <= n <= 4 && n <= |t| && IsUtf8Char(t[..n])
      ensures StepAt(s, i).Char? && StepAt(s, i).width == n
    {
      assert t[..n][0] == s[i];
    }
  }

  /** The lead byte fixes the length of a UTF8-char. */
  lemma Utf8CharLengthUnique(s: seq<uint8>, n: nat, m: nat)
    requires n <= |s| && m <= |s|
    requires IsUtf8Char(s[..n]) && IsUtf8Char(s[..m])
    ensures n == m
  {
  }

  lemma WellFormedCons(s: seq<uint8>, n: nat)
    requires 1 <= n <= 4 && n <= |s|
    requires IsUtf8Char(s[..n]) && WellFormed(s[n..])
    ensures WellFormed(s)
  {
  }

  lemma WellFormedUncons(s: seq<uint8>, n: nat)
    requires 1 <= n <= 4 && n <= |s|
    requires IsUtf8Char(s[..n]) && WellFormed(s)
    ensures WellFormed(s[n..])
  {
    var m :| 1 <= m <= 4 && m <= |s| && IsUtf8Char(s[..m]) && WellFormed(s[m..]);
    Utf8CharLengthUnique(s, n, m);
  }

  lemma WellFormedStartsWithChar(s: seq<uint8>)
    requires s != [] && WellFormed(s)
    ensures StartsWithChar(s)
  {
  }

  lemma {:induction false} FromUtf8FromWellFormed(s: seq<uint8>, i: nat)
    requires i <= |s|
    ensures FromUtf8From(s, i).Text? <==> WellFormed(s[i..])
    decreases |s| - i
  {
    if i < |s| {
      StepIsUtf8Char(s, i);
      match StepAt(s, i)
      case Bad(_) =>
        if WellFormed(s[i..]) {
          WellFormedStartsWithChar(s[i..]);
        }
      case Char(w, _) =>
        FromUtf8FromWellFormed(s, i + w);
        WellFormedAfterChar(s, i, w);
    }
  }

  /** Past a UTF8-char, the rest is well-formed exactly when the whole is. */
  lemma WellFormedAfterChar(s: seq<uint8>, i: nat, w: nat)
    requires 1 <= w <= 4 && i + w <= |s| && IsUtf8Char(s[i..][..w])
    ensures WellFormed(s[i..]) <==> WellFormed(s[i + w..])
  {
    var rest := s[i..];
    assert rest[w..] == s[i + w..];
    if WellFormed(rest) {
      WellFormedUncons(rest, w);
    } else if WellFormed(s[i + w..]) {
      WellFormedCons(rest, w);
    }
  }

  /** `from_utf8` accepts exactly the well-formed UTF-8 of RFC 3629. */
  lemma FromUtf8IsWellFormed(s: seq<uint8>)
    ensures FromUtf8(s).Text? <==> WellFormed(s)
  {
    FromUtf8FromWellFormed(s, 0);
    assert s[0..] == s;
  }

  lemma {:induction false} FromUtf8FromError(s: seq<uint8>, i: nat)
    requires i <= |s|
    requires FromUtf8From(s, i).Invalid?
    ensures var e := FromUtf8From(s, i).error;
      && i <= e.validUpTo < |s|
      && WellFormed(s[i..e.validUpTo])
      && StepAt(s, e.validUpTo).Bad?
      && e.errorLen == StepAt(s, e.validUpTo).errorLen
    decreases |s| - i
  {
    match StepAt(s, i)
    case Bad(_) =>
      assert s[i..i] == [];
    case Char(w, _) =>
      assert FromUtf8From(s, i) == FromUtf8From(s, i + w);
      FromUtf8FromError(s, i + w);
      StepIsUtf8Char(s, i);
      WellFormedConsAt(s, i, w, FromUtf8From(s, i).error.validUpTo);
  }

  /** A UTF8-char followed by well-formed bytes up to j is well-formed up to j. */
  lemma WellFormedConsAt(s: seq<uint8>, i: nat, w: nat, j: nat)
    requires 1 <= w <= 4 && i + w <= j <= |s|
    requires IsUtf8Char(s[i..][..w]) && WellFormed(s[i + w..j])
    ensures WellFormed(s[i..j])
  {
    var seg := s[i..j];
    assert seg[..w] == s[i..][..w];
    assert seg[w..] == s[i + w..j];
    WellFormedCons(seg, w);
  }

  /** On failure, `valid_up_to` ends the longest well-formed prefix: the bytes
      before it are well-formed and no UTF8-char starts at it. `error_len` is
      the length of the rejected sequence, 1 to 3, or `None` when fewer than 4
      bytes remain. */
  lemma FromUtf8Error(s: seq<uint8>)
    requires FromUtf8(s).Invalid?
    ensures var e := FromUtf8(s).error;
      && e.validUpTo < |s|
      && WellFormed(s[..e.validUpTo])
      && !StartsWithChar(s[e.validUpTo..])
      && (e.errorLen.Some? ==> 1 <= e.errorLen.value <= 3 && e.validUpTo + e.errorLen.value <= |s|)
      && (e.errorLen.None? ==> |s| - e.validUpTo < 4)
  {
    FromUtf8FromError(s, 0);
    StepIsUtf8Char(s, FromUtf8(s).error.validUpTo);
  }

  /** Bytes below 0x80 decode one-to-one to the characters with those codes. */
  lemma {:induction false} AsciiDecodes(s: seq<uint8>, i: nat)
    requires i <= |s|
    requires forall k | i <= k < |s| :: s[k] < 0x80
    ensures FromUtf8From(s, i) == Text(seq(|s| - i, k requires 0 <= k < |s| - i => s[i + k] as char))
    decreases |s| - i
  {
    if i < |s| {
      AsciiDecodes(s, i + 1);
    }
  }

  /** Bytes that never occur in well-formed UTF-8: 0xC0, 0xC1 and 0xF5 to 0xFF
      (a lead byte 0xFF, for one). */
  predicate NeverInUtf8(b: uint8) {
    b == 0xC0 || b == 0xC1 || b >= 0xF5
  }

  lemma {:induction false} WellFormedExcludes(s: seq<uint8>)
    requires WellFormed(s)
    ensures forall k | 0 <= k < |s| :: !NeverInUtf8(s[k])
    decreases |s|
  {
    if s != [] {
      var n :| 1 <= n <= 4 && n <= |s| && IsUtf8Char(s[..n]) && WellFormed(s[n..]);
      WellFormedExcludes(s[n..]);
      forall k | 0 <= k < |s| ensures !NeverInUtf8(s[k]) {
        if k >= n {
          assert s[k] == s[n..][k - n];
        } else {
          assert s[k] == s[..n][k];
        }
      }
    }
  }

  /** Any byte that never occurs in UTF-8 makes `from_utf8` fail. */
  lemma ForbiddenByteRejected(s: seq<uint8>, k: nat)
    requires k < |s| && NeverInUtf8(s[k])
    ensures FromUtf8(s).Invalid?
  {
    FromUtf8IsWellFormed(s);
    if WellFormed(s) {
      WellFormedExcludes(s);
    }
  }
}
