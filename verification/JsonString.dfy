/**
 JSON strings: scanning a quoted token, decoding its escapes, quoting a string, and the UTF-8 form
 of an escaped code point.
 */
module JsonString {
  import opened ByteText

  /** The reader's error messages. */
  datatype Message =
    | ValueExpected
    | NotANumber
    | EmptyEscape
    | BadEscape
    | FourDigitsExpected
    | HexDigitExpected
    | SecondHalfTooShort
    | SecondHalfExpected
    | MissingColon
    | MissingCommaOrBrace
    | MissingBraceOrName
    | RootMustBeContainer

  // ---------- UTF-8 ----------

  /** The byte string of a code point; empty beyond the Unicode range.  The alternatives of each
      bit-or have no bit in common, so they are written as sums. */
  function EncodeUtf8(cp: nat): Bytes {
    if cp <= 0x7F then [cp]
    else if cp <= 0x7FF then [0xC0 + cp / 0x40 % 0x20, 0x80 + cp % 0x40]
    else if cp <= 0xFFFF then [0xE0 + cp / 0x1000 % 0x10, 0x80 + cp / 0x40 % 0x40, 0x80 + cp % 0x40]
    else if cp <= 0x10FFFF then
      [0xF0 + cp / 0x40000 % 8, 0x80 + cp / 0x1000 % 0x40, 0x80 + cp / 0x40 % 0x40, 0x80 + cp % 0x40]
    else []
  }

  /** How many bytes a code point takes; beyond the last one there is nothing. */
  lemma EncodedLength(cp: nat)
    ensures |EncodeUtf8(cp)| == if cp <= 0x7F then 1 else if cp <= 0x7FF then 2 else if cp <= 0xFFFF then 3
                                else if cp <= 0x10FFFF then 4 else 0
  {
  }

  predicate IsContinuation(b: Byte) {
    0x80 <= b <= 0xBF
  }

  /** Decoding of one character by sections 3 and 4 of RFC 3629: no overlong form, no surrogate,
      nothing beyond 0x10FFFF. */
  function DecodeUtf8(s: Bytes): Option<nat> {
    if |s| == 1 && s[0] <= 0x7F then Some(s[0])
    else if |s| == 2 && 0xC2 <= s[0] <= 0xDF && IsContinuation(s[1]) then Some((s[0] as int - 0xC0) * 0x40 + (s[1] as int - 0x80))
    else if |s| == 3 && 0xE0 <= s[0] <= 0xEF && IsContinuation(s[1]) && IsContinuation(s[2]) &&
            (s[0] == 0xE0 ==> s[1] >= 0xA0) && (s[0] == 0xED ==> s[1] <= 0x9F)
    then Some((s[0] as int - 0xE0) * 0x1000 + (s[1] as int - 0x80) * 0x40 + (s[2] as int - 0x80))
    else if |s| == 4 && 0xF0 <= s[0] <= 0xF4 && IsContinuation(s[1]) && IsContinuation(s[2]) && IsContinuation(s[3]) &&
            (s[0] == 0xF0 ==> s[1] >= 0x90) && (s[0] == 0xF4 ==> s[1] <= 0x8F)
    then Some((s[0] as int - 0xF0) * 0x40000 + (s[1] as int - 0x80) * 0x1000 + (s[2] as int - 0x80) * 0x40 + (s[3] as int - 0x80))
    else None
  }

  predicate Surrogate(cp: nat) {
    0xD800 <= cp <= 0xDFFF
  }

  /** The six-bit groups of a code point determine it. */
  lemma SixBitGroups(cp: nat)
    requires cp <= 0x10FFFF
    ensures cp == cp / 0x40000 * 0x40000 + cp / 0x1000 % 0x40 * 0x1000 + cp / 0x40 % 0x40 * 0x40 + cp % 0x40
    ensures cp / 0x40000 <= 4 && cp / 0x40000 % 8 == cp / 0x40000
    ensures cp <= 0xFFFF ==> cp / 0x40000 == 0 && cp / 0x1000 % 0x10 == cp / 0x1000 % 0x40
    ensures cp <= 0x7FF ==> cp / 0x1000 == 0 && cp / 0x40 % 0x20 == cp / 0x40 % 0x40
  {
    assert cp / 0x40 == cp / 0x1000 * 0x40 + cp / 0x40 % 0x40;
    assert cp / 0x1000 == cp / 0x40000 * 0x40 + cp / 0x1000 % 0x40;
  }

  /** The standard's decoder inverts the encoder on every code point except the surrogates, which the
      encoder emits all the same and the standard refuses. */
  lemma Utf8Inverse(cp: nat)
    requires cp <= 0x10FFFF
    ensures DecodeUtf8(EncodeUtf8(cp)) == if Surrogate(cp) then None else Some(cp)
  {
    SixBitGroups(cp);
    ghost var d0, d1, d2 := cp % 0x40, cp / 0x40 % 0x40, cp / 0x1000 % 0x40;
    if cp <= 0x7F {
    } else if cp <= 0x7FF {
      assert EncodeUtf8(cp) == [0xC0 + d1, 0x80 + d0];
    } else if cp <= 0xFFFF {
      assert EncodeUtf8(cp) == [0xE0 + d2, 0x80 + d1, 0x80 + d0];
    } else {
      FourBytesInverse(cp);
    }
  }

  lemma FourBytesInverse(cp: nat)
    requires 0xFFFF < cp <= 0x10FFFF
    ensures DecodeUtf8(EncodeUtf8(cp)) == Some(cp)
  {
    SixBitGroups(cp);
    ghost var d0, d1, d2, d3 := cp % 0x40, cp / 0x40 % 0x40, cp / 0x1000 % 0x40, cp / 0x40000;
    assert EncodeUtf8(cp) == [0xF0 + d3, 0x80 + d2, 0x80 + d1, 0x80 + d0];
  }

  /** Distinct code points, surrogates included, have distinct non-empty byte strings. */
  lemma Utf8Injective(a: nat, b: nat)
    requires a <= 0x10FFFF && b <= 0x10FFFF
    ensures EncodeUtf8(a) != []
    ensures EncodeUtf8(a) == EncodeUtf8(b) ==> a == b
  {
    var s, t := EncodeUtf8(a), EncodeUtf8(b);
    if s == t {
      SixBitGroups(a);
      SixBitGroups(b);
      assert |s| == |t| && s[0] == t[0] && s[|s| - 1] == t[|t| - 1];
      if |s| > 1 {
        assert s[1] == t[1];
        if |s| > 2 {
          assert s[2] == t[2];
        }
      }
    }
  }

  // ---------- escapes ----------

  function HexValue(c: Byte): Option<nat> {
    if ZERO <= c <= NINE then Some(c - ZERO)
    else if LOWER_A <= c <= LOWER_F then Some(c - LOWER_A + 10)
    else if UPPER_A <= c <= UPPER_F then Some(c - UPPER_A + 10)
    else None
  }

  datatype CodePoint = CodePoint(code: nat, left: Bytes) | BadCodePoint(message: Message)

  predicate FourHex(s: Bytes)
    requires |s| >= 4
  {
    HexValue(s[0]).Some? && HexValue(s[1]).Some? && HexValue(s[2]).Some? && HexValue(s[3]).Some?
  }

  /** The four hexadecimal digits of an escape. */
  function ReadHex4(s: Bytes): (r: CodePoint)
    ensures r.CodePoint? ==> |s| >= 4 && FourHex(s) && r.left == s[4..] && r.code <= 0xFFFF
    ensures r.BadCodePoint? ==> r.message in {FourDigitsExpected, HexDigitExpected}
  {
    if |s| < 4 then BadCodePoint(FourDigitsExpected)
    else if FourHex(s) then
      CodePoint(((HexValue(s[0]).value * 16 + HexValue(s[1]).value) * 16 + HexValue(s[2]).value) * 16 + HexValue(s[3]).value,
                s[4..])
    else BadCodePoint(HexDigitExpected)
  }

  /** A whole escape after its backslash and 'u': four digits, or a surrogate pair of two such escapes. */
  function ReadCodePoint(s: Bytes): (r: CodePoint)
    ensures r.CodePoint? ==> r.code <= 0x10FFFF
    ensures r.CodePoint? && r.code <= 0xFFFF ==> |s| >= 4 && r.left == s[4..] && !(0xD800 <= r.code <= 0xDBFF)
    ensures r.CodePoint? && r.code > 0xFFFF ==> |s| >= 10 && r.left == s[10..]
    ensures r.BadCodePoint? ==> r.message != EmptyEscape
  {
    match ReadHex4(s)
    case BadCodePoint(m) => BadCodePoint(m)
    case CodePoint(high, left) =>
      if 0xD800 <= high <= 0xDBFF then
        if |left| < 6 then BadCodePoint(SecondHalfTooShort)
        else if left[0] == BACKSLASH && left[1] == LOWER_U then
          match ReadHex4(left[2..])
          case BadCodePoint(m) => BadCodePoint(m)
          case CodePoint(low, left') => CodePoint(0x10000 + high % 0x400 * 0x400 + low % 0x400, left')
        else BadCodePoint(SecondHalfExpected)
      else CodePoint(high, left)
  }

  /** The bytes of a successful escape are well-formed if and only if its first unit is not the second half of a
      surrogate pair. */
  lemma EscapeIsWellFormed(s: Bytes)
    requires ReadCodePoint(s).CodePoint?
    ensures DecodeUtf8(EncodeUtf8(ReadCodePoint(s).code)) == Some(ReadCodePoint(s).code)
            <==> !(0xDC00 <= ReadHex4(s).code <= 0xDFFF)
  {
    hide EncodeUtf8, DecodeUtf8;
    Utf8Inverse(ReadCodePoint(s).code);
  }

  /** The character a one-letter escape stands for. */
  function SimpleEscape(c: Byte): Option<Byte> {
    if c == QUOTE || c == SLASH || c == BACKSLASH then Some(c)
    else if c == LOWER_B then Some(BACKSPACE)
    else if c == LOWER_F then Some(FORM_FEED)
    else if c == LOWER_N then Some(NEWLINE)
    else if c == LOWER_R then Some(RETURN)
    else if c == LOWER_T then Some(TAB)
    else None
  }

  // ---------- decoding the text between the quotes ----------

  /** The decoded text and what was left unread, or an error. */
  datatype Decoding = Decoded(text: Bytes, left: Bytes) | Undecodable(message: Message)

  function Prepend(text: Bytes, d: Decoding): Decoding {
    match d
    case Decoded(more, left) => Decoded(text + more, left)
    case Undecodable(m) => Undecodable(m)
  }

  function DecodeBody(s: Bytes): Decoding {
    if s == [] then Decoded([], [])
    else if s[0] == QUOTE then Decoded([], s)
    else if s[0] != BACKSLASH then Prepend([s[0]], DecodeBody(s[1..]))
    else if |s| == 1 then Undecodable(EmptyEscape)
    else if s[1] == LOWER_U then
      match ReadCodePoint(s[2..])
      case BadCodePoint(m) => Undecodable(m)
      case CodePoint(cp, left) => Prepend(EncodeUtf8(cp), DecodeBody(left))
    else
      match SimpleEscape(s[1])
      case None => Undecodable(BadEscape)
      case Some(c) => Prepend([c], DecodeBody(s[2..]))
  }

  // ---------- what every escape stands for ----------

  function HexLetter(n: nat, upper: bool): Byte
    requires n < 16
  {
    if n < 10 then 0x30 + n else (if upper then 0x41 else 0x61) + (n - 10)
  }

  /** The four digits of a code unit, each letter in upper or in lower case. */
  function UnitText(u: nat, upper: seq<bool>): (r: Bytes)
    requires u <= 0xFFFF && |upper| == 4
    ensures |r| == 4
  {
    [HexLetter(u / 0x1000, upper[0]), HexLetter(u / 0x100 % 0x10, upper[1]),
     HexLetter(u / 0x10 % 0x10, upper[2]), HexLetter(u % 0x10, upper[3])]
  }

  lemma FourDigits(u: nat)
    requires u <= 0xFFFF
    ensures u == ((u / 0x1000 * 16 + u / 0x100 % 0x10) * 16 + u / 0x10 % 0x10) * 16 + u % 0x10
  {
    var v := u / 0x10;
    var w := v / 0x10;
    assert w == u / 0x100 && w / 0x10 == u / 0x1000;
    assert u == v * 0x10 + u % 0x10 && v == w * 0x10 + v % 0x10 && w == w / 0x10 * 0x10 + w % 0x10;
  }

  lemma LettersRead(a: nat, b: nat, c: nat, e: nat, upper: seq<bool>, s: Bytes)
    requires a < 16 && b < 16 && c < 16 && e < 16 && |upper| == 4
    ensures ReadHex4([HexLetter(a, upper[0]), HexLetter(b, upper[1]), HexLetter(c, upper[2]), HexLetter(e, upper[3])] + s)
         == CodePoint(((a * 16 + b) * 16 + c) * 16 + e, s)
  {
    hide HexLetter, HexValue;
    var t := [HexLetter(a, upper[0]), HexLetter(b, upper[1]), HexLetter(c, upper[2]), HexLetter(e, upper[3])] + s;
    assert t[4..] == s;
    LetterReads(a, upper[0]);
    LetterReads(b, upper[1]);
    LetterReads(c, upper[2]);
    LetterReads(e, upper[3]);
  }

  lemma UnitReads(u: nat, upper: seq<bool>, s: Bytes)
    requires u <= 0xFFFF && |upper| == 4
    ensures ReadHex4(UnitText(u, upper) + s) == CodePoint(u, s)
  {
    hide ReadHex4, HexLetter;
    LettersRead(u / 0x1000, u / 0x100 % 0x10, u / 0x10 % 0x10, u % 0x10, upper, s);
    FourDigits(u);
  }

  lemma LetterReads(n: nat, upper: bool)
    requires n < 16
    ensures HexValue(HexLetter(n, upper)) == Some(n)
  {
  }

  /** The two halves of a code point beyond the first plane. */
  function HighHalf(cp: nat): nat
    requires 0x10000 <= cp
  {
    0xD800 + (cp - 0x10000) / 0x400
  }

  function LowHalf(cp: nat): nat
    requires 0x10000 <= cp
  {
    0xDC00 + (cp - 0x10000) % 0x400
  }

  /** What follows the backslash and the letter of a Unicode escape. */
  function CodePointText(cp: nat, upper: seq<bool>): Bytes
    requires cp <= 0x10FFFF && |upper| == 8
  {
    if cp <= 0xFFFF then UnitText(cp, upper[..4])
    else UnitText(HighHalf(cp), upper[..4]) + ([BACKSLASH, LOWER_U] + UnitText(LowHalf(cp), upper[4..]))
  }

  /** Every code point that is no first half of a pair is read from its escape, in either letter case: a single unit,
      or a pair of halves, the high one first. */
  lemma CodePointReads(cp: nat, upper: seq<bool>, s: Bytes)
    requires cp <= 0x10FFFF && |upper| == 8 && !(0xD800 <= cp <= 0xDBFF)
    ensures ReadCodePoint(CodePointText(cp, upper) + s) == CodePoint(cp, s)
  {
    hide ReadHex4, UnitText;
    var t := CodePointText(cp, upper) + s;
    if cp <= 0xFFFF {
      UnitReads(cp, upper[..4], s);
    } else {
      var low := UnitText(LowHalf(cp), upper[4..]) + s;
      assert t == UnitText(HighHalf(cp), upper[..4]) + ([BACKSLASH, LOWER_U] + low);
      UnitReads(HighHalf(cp), upper[..4], [BACKSLASH, LOWER_U] + low);
      UnitReads(LowHalf(cp), upper[4..], s);
      assert ([BACKSLASH, LOWER_U] + low)[2..] == low;
      HalvesJoin(cp);
    }
  }

  lemma HalvesJoin(cp: nat)
    requires 0x10000 <= cp <= 0x10FFFF
    ensures 0xD800 <= HighHalf(cp) <= 0xDBFF && 0xDC00 <= LowHalf(cp) <= 0xDFFF
    ensures 0x10000 + HighHalf(cp) % 0x400 * 0x400 + LowHalf(cp) % 0x400 == cp
  {
  }

  /** Whatever is read as a code point beyond 0xFFFF was written as its two halves, in order; of the second unit only the
      lower ten bits are looked at. */
  lemma PairIsJoined(s: Bytes)
    requires ReadCodePoint(s).CodePoint? && ReadCodePoint(s).code > 0xFFFF
    ensures var cp := ReadCodePoint(s).code;
      && ReadHex4(s).CodePoint? && ReadHex4(s).code == HighHalf(cp)
      && s[4..6] == [0x5C, 0x75]
      && ReadHex4(s[6..]).CodePoint? && ReadHex4(s[6..]).code % 0x400 == LowHalf(cp) % 0x400
      && ReadCodePoint(s).left == s[10..]
  {
    hide ReadHex4;
    var left := s[4..];
    assert left[2..] == s[6..] && s[4..6] == [s[4], s[5]];
  }

  /** A Unicode escape in a string decodes to the bytes of its code point. */
  lemma UnicodeEscapeDecodes(cp: nat, upper: seq<bool>, s: Bytes)
    requires cp <= 0x10FFFF && |upper| == 8 && !(0xD800 <= cp <= 0xDBFF)
    ensures DecodeBody([BACKSLASH, LOWER_U] + CodePointText(cp, upper) + s) == Prepend(EncodeUtf8(cp), DecodeBody(s))
  {
    hide ReadCodePoint, CodePointText, EncodeUtf8;
    var t := [BACKSLASH, LOWER_U] + CodePointText(cp, upper) + s;
    assert t[2..] == CodePointText(cp, upper) + s;
    CodePointReads(cp, upper, s);
  }

  /** The escape \uD83D\uDE00 is the code point 0x1F600, four bytes in UTF-8. */
  lemma PairExample(s: Bytes)
    ensures var text := [BACKSLASH, LOWER_U, 0x44, 0x38, 0x33, 0x44, BACKSLASH, LOWER_U, 0x44, 0x45, 0x30, 0x30];
      DecodeBody(text + s) == Prepend([0xF0, 0x9F, 0x98, 0x80], DecodeBody(s))
  {
    hide DecodeBody;
    var upper := [true, true, true, true, true, true, true, true];
    assert EncodeUtf8(0x1F600) == [0xF0, 0x9F, 0x98, 0x80];
    assert HighHalf(0x1F600) == 0xD83D && LowHalf(0x1F600) == 0xDE00;
    assert UnitText(0xD83D, upper[..4]) == [0x44, 0x38, 0x33, 0x44];
    assert UnitText(0xDE00, upper[4..]) == [0x44, 0x45, 0x30, 0x30];
    UnicodeEscapeDecodes(0x1F600, upper, s);
    assert [BACKSLASH, LOWER_U] + CodePointText(0x1F600, upper)
        == [BACKSLASH, LOWER_U, 0x44, 0x38, 0x33, 0x44, BACKSLASH, LOWER_U, 0x44, 0x45, 0x30, 0x30];
  }

  /** The escapes of one character: quote, slash and backslash stand for themselves, and b, f, n, r and t for the
      control characters 8, 12, 10, 13 and 9; any other letter but u is an error. */
  lemma LetterEscapeDecodes(c: Byte, s: Bytes)
    ensures c in {0x22, 0x2F, 0x5C} ==> DecodeBody([0x5C, c] + s) == Prepend([c], DecodeBody(s))
    ensures DecodeBody([0x5C, 0x62] + s) == Prepend([8], DecodeBody(s))
    ensures DecodeBody([0x5C, 0x66] + s) == Prepend([12], DecodeBody(s))
    ensures DecodeBody([0x5C, 0x6E] + s) == Prepend([10], DecodeBody(s))
    ensures DecodeBody([0x5C, 0x72] + s) == Prepend([13], DecodeBody(s))
    ensures DecodeBody([0x5C, 0x74] + s) == Prepend([9], DecodeBody(s))
    ensures c !in {0x22, 0x2F, 0x5C, 0x62, 0x66, 0x6E, 0x72, 0x74, 0x75} ==>
            DecodeBody([0x5C, c] + s) == Undecodable(BadEscape)
  {
    hide DecodeBody, Prepend;
    EscapeStep(c, s);
    EscapeStep(0x62, s);
    EscapeStep(0x66, s);
    EscapeStep(0x6E, s);
    EscapeStep(0x72, s);
    EscapeStep(0x74, s);
  }

  lemma EscapeStep(c: Byte, s: Bytes)
    ensures c != LOWER_U && SimpleEscape(c).Some? ==>
            DecodeBody([BACKSLASH, c] + s) == Prepend([SimpleEscape(c).value], DecodeBody(s))
    ensures c != LOWER_U && SimpleEscape(c).None? ==> DecodeBody([BACKSLASH, c] + s) == Undecodable(BadEscape)
  {
    hide SimpleEscape, ReadCodePoint, EncodeUtf8;
    assert ([BACKSLASH, c] + s)[2..] == s;
  }

  // ---------- scanning for the closing quote ----------

  datatype Scan = Scan(ok: bool, left: Bytes)

  /** Skips to just after the first quote that no backslash escapes. */
  function ScanString(s: Bytes): (r: Scan)
    ensures |r.left| <= |s| && (r.ok ==> |r.left| < |s|)
  {
    if s == [] then Scan(false, [])
    else if s[0] == QUOTE then Scan(true, s[1..])
    else if s[0] != BACKSLASH then ScanString(s[1..])
    else if |s| == 1 then Scan(false, [])
    else ScanString(s[2..])
  }

  /** Text made of plain characters and backslash pairs. */
  predicate WellEscaped(s: Bytes) {
    s == [] ||
    (if s[0] == BACKSLASH then |s| >= 2 && WellEscaped(s[2..]) else s[0] != QUOTE && WellEscaped(s[1..]))
  }

  /** The text between the quotes of a scanned string is well escaped, and the scan stops at the first
      place it can. */
  lemma {:induction false} ScannedIsWellEscaped(s: Bytes)
    requires ScanString(s).ok
    ensures var n := |s| - |ScanString(s).left| - 1;
            s[n] == QUOTE && WellEscaped(s[..n])
  {
    var left := ScanString(s).left;
    var n := |s| - |left| - 1;
    if s[0] == QUOTE {
    } else if s[0] != BACKSLASH {
      ScannedIsWellEscaped(s[1..]);
      assert s[..n][1..] == s[1..][..n - 1];
    } else {
      ScannedIsWellEscaped(s[2..]);
      assert s[..n][2..] == s[2..][..n - 2];
    }
  }

  lemma {:induction false} WellEscapedIsScanned(body: Bytes, left: Bytes)
    requires WellEscaped(body)
    ensures ScanString(body + [QUOTE] + left) == Scan(true, left)
  {
    var s := body + [QUOTE] + left;
    if body == [] {
      assert s[1..] == left;
    } else if body[0] == BACKSLASH {
      WellEscapedIsScanned(body[2..], left);
      assert s[2..] == body[2..] + [QUOTE] + left;
    } else {
      WellEscapedIsScanned(body[1..], left);
      assert s[1..] == body[1..] + [QUOTE] + left;
    }
  }

  lemma {:induction false} DropPlain(s: Bytes, n: nat)
    requires WellEscaped(s) && n <= |s|
    requires forall i :: 0 <= i < n ==> s[i] != BACKSLASH
    ensures WellEscaped(s[n..])
  {
    if n > 0 {
      DropPlain(s[1..], n - 1);
      assert s[1..][n - 1..] == s[n..];
    }
  }

  lemma CodePointLeavesWellEscaped(s: Bytes)
    requires WellEscaped(s) && ReadCodePoint(s).CodePoint?
    ensures WellEscaped(ReadCodePoint(s).left)
  {
    DropPlain(s, 4);
    if ReadCodePoint(s).code > 0xFFFF {
      var second := s[4..];
      assert second[2..] == s[6..] && WellEscaped(s[6..]);
      DropPlain(s[6..], 4);
      assert s[6..][4..] == s[10..];
    }
  }

  /** On the text of any token the scanner accepts, decoding never meets a bare quote or a backslash
      with nothing after it: it reads the whole text or reports a genuinely bad escape. */
  lemma {:induction false} DecodeReadsAll(s: Bytes)
    requires WellEscaped(s)
    ensures DecodeBody(s).Decoded? ==> DecodeBody(s).left == []
    ensures DecodeBody(s) != Undecodable(EmptyEscape)
    decreases |s|
  {
    if s == [] {
    } else if s[0] != BACKSLASH {
      DecodeReadsAll(s[1..]);
    } else if s[1] == LOWER_U {
      var r := ReadCodePoint(s[2..]);
      if r.CodePoint? {
        CodePointLeavesWellEscaped(s[2..]);
        DecodeReadsAll(r.left);
      }
    } else {
      DecodeReadsAll(s[2..]);
    }
  }

  // ---------- quoting ----------

  predicate IsControl(c: Byte) {
    0 < c <= 0x1F
  }

  /** The characters the writer escapes by a letter. */
  function EscapeLetter(c: Byte): Option<Byte> {
    if c == QUOTE || c == BACKSLASH then Some(c)
    else if c == BACKSPACE then Some(LOWER_B)
    else if c == FORM_FEED then Some(LOWER_F)
    else if c == NEWLINE then Some(LOWER_N)
    else if c == RETURN then Some(LOWER_R)
    else if c == TAB then Some(LOWER_T)
    else None
  }

  function HexDigit(n: nat): Byte
    requires n < 16
  {
    if n < 10 then ZERO + n else UPPER_A + n - 10
  }

  function EscapeChar(c: Byte): Bytes {
    match EscapeLetter(c)
    case Some(letter) => [BACKSLASH, letter]
    case None =>
      if IsControl(c) then [BACKSLASH, LOWER_U, ZERO, ZERO, HexDigit(c / 16), HexDigit(c % 16)]
      else [c]
  }

  function EscapeAll(s: Bytes): Bytes {
    if s == [] then [] else EscapeChar(s[0]) + EscapeAll(s[1..])
  }

  function Quoted(s: Bytes): Bytes {
    [QUOTE] + EscapeAll(s) + [QUOTE]
  }

  predicate NeedsEscape(c: Byte) {
    EscapeLetter(c).Some? || IsControl(c)
  }

  lemma {:induction false} NothingToEscape(s: Bytes)
    requires forall i :: 0 <= i < |s| ==> !NeedsEscape(s[i])
    ensures EscapeAll(s) == s
  {
    if s != [] {
      NothingToEscape(s[1..]);
    }
  }

  lemma {:induction false} EscapeAppend(s: Bytes, c: Byte)
    ensures EscapeAll(s + [c]) == EscapeAll(s) + EscapeChar(c)
  {
    if s == [] {
      assert s + [c] == [c];
      assert EscapeAll([c]) == EscapeChar(c) + EscapeAll([]);
    } else {
      assert (s + [c])[1..] == s[1..] + [c];
      EscapeAppend(s[1..], c);
    }
  }

  /** The quoted form of a zero-terminated string: copied when nothing needs an escape, otherwise
      escaped character by character.  Both ways give the same text. */
  method ValueToQuotedString(value: Bytes) returns (result: Bytes)
    requires NulFree(value)
    ensures result == Quoted(value)
  {
    var special := false;
    for i := 0 to |value|
      invariant !special ==> forall j :: 0 <= j < i ==> !NeedsEscape(value[j])
    {
      special := special || NeedsEscape(value[i]);
    }
    if !special {
      NothingToEscape(value);
      return [QUOTE] + value + [QUOTE];
    }
    result := [QUOTE];
    for i := 0 to |value|
      invariant result == [QUOTE] + EscapeAll(value[..i])
    {
      EscapeAppend(value[..i], value[i]);
      assert value[..i + 1] == value[..i] + [value[i]];
      result := result + EscapeChar(value[i]);
    }
    assert value[..|value|] == value;
    result := result + [QUOTE];
  }

  lemma EscapedCharDecodes(c: Byte, s: Bytes)
    requires c != NUL
    ensures DecodeBody(EscapeChar(c) + s) == Prepend([c], DecodeBody(s))
  {
    var t := EscapeChar(c) + s;
    if EscapeLetter(c).Some? {
      assert t[2..] == s;
    } else if IsControl(c) {
      assert HexValue(HexDigit(c / 16)) == Some(c / 16) && HexValue(HexDigit(c % 16)) == Some(c % 16);
      assert t[2..] == [ZERO, ZERO, HexDigit(c / 16), HexDigit(c % 16)] + s;
      assert t[2..][4..] == s;
      assert ReadCodePoint(t[2..]) == CodePoint(c, s);
    } else {
      assert t[1..] == s;
    }
  }

  /** Decoding undoes escaping, for every string a zero-terminated buffer can hold. */
  lemma {:induction false} DecodeEscaped(s: Bytes)
    requires NulFree(s)
    ensures DecodeBody(EscapeAll(s)) == Decoded(s, [])
  {
    if s != [] {
      DecodeEscaped(s[1..]);
      EscapedCharDecodes(s[0], EscapeAll(s[1..]));
      assert s == [s[0]] + s[1..];
    }
  }

  lemma {:induction false} EscapedIsWellEscaped(s: Bytes)
    ensures WellEscaped(EscapeAll(s))
  {
    if s != [] {
      EscapedIsWellEscaped(s[1..]);
      var t, more := EscapeAll(s), EscapeAll(s[1..]);
      if EscapeLetter(s[0]).Some? {
        assert t[2..] == more;
      } else if IsControl(s[0]) {
        PlainThenWellEscaped(t[2..], 4, more);
      } else {
        assert t[1..] == more;
      }
    }
  }

  lemma {:induction false} PlainThenWellEscaped(s: Bytes, n: nat, more: Bytes)
    requires n <= |s| && s[n..] == more && WellEscaped(more)
    requires forall i :: 0 <= i < n ==> s[i] != BACKSLASH && s[i] != QUOTE
    ensures WellEscaped(s)
  {
    if n > 0 {
      PlainThenWellEscaped(s[1..], n - 1, more);
    } else {
      assert s == more;
    }
  }

  /** Scanning the quoted form of a string, wherever it stands, stops just after it. */
  lemma QuotedIsScanned(s: Bytes, left: Bytes)
    ensures ScanString((Quoted(s) + left)[1..]) == Scan(true, left)
  {
    hide ScanString, EscapeAll;
    EscapedIsWellEscaped(s);
    WellEscapedIsScanned(EscapeAll(s), left);
    assert (Quoted(s) + left)[1..] == EscapeAll(s) + [QUOTE] + left;
  }

  /** What the writer makes of each byte: a letter for seven of them, four digits in upper case for the other control
      characters, and the byte itself for all the rest. */
  lemma EscapesAre(c: Byte)
    ensures c == 0x22 || c == 0x5C ==> EscapeChar(c) == [0x5C, c]
    ensures c == 0x08 ==> EscapeChar(c) == [0x5C, 0x62]
    ensures c == 0x0C ==> EscapeChar(c) == [0x5C, 0x66]
    ensures c == 0x0A ==> EscapeChar(c) == [0x5C, 0x6E]
    ensures c == 0x0D ==> EscapeChar(c) == [0x5C, 0x72]
    ensures c == 0x09 ==> EscapeChar(c) == [0x5C, 0x74]
    ensures 0 < c < 0x20 && c !in {0x08, 0x0C, 0x0A, 0x0D, 0x09} ==>
            EscapeChar(c) == [0x5C, 0x75] + UnitText(c, [true, true, true, true])
    ensures c !in {0x22, 0x5C} && (c == 0 || c >= 0x20) ==> EscapeChar(c) == [c]
  {
    if 0 < c < 0x20 {
      assert c / 0x1000 == 0 && c / 0x100 % 0x10 == 0 && c / 0x10 % 0x10 == c / 16;
    }
  }

  /** Which error each malformed escape gives. */
  lemma BadCodePointsAre(s: Bytes)
    ensures |s| < 4 ==> ReadCodePoint(s) == BadCodePoint(FourDigitsExpected)
    ensures |s| >= 4 && !FourHex(s) ==> ReadCodePoint(s) == BadCodePoint(HexDigitExpected)
    ensures |s| >= 4 && FourHex(s) && 0xD800 <= ReadHex4(s).code <= 0xDBFF && |s| < 10 ==>
            ReadCodePoint(s) == BadCodePoint(SecondHalfTooShort)
    ensures |s| >= 10 && FourHex(s) && 0xD800 <= ReadHex4(s).code <= 0xDBFF && s[4..6] != [0x5C, 0x75] ==>
            ReadCodePoint(s) == BadCodePoint(SecondHalfExpected)
    ensures |s| >= 10 && FourHex(s) && 0xD800 <= ReadHex4(s).code <= 0xDBFF && s[4..6] == [0x5C, 0x75] ==>
            !FourHex(s[6..]) ==> ReadCodePoint(s) == BadCodePoint(HexDigitExpected)
  {
    hide FourHex, HexValue;
    if |s| >= 10 {
      assert s[4..][2..] == s[6..];
      assert s[4..6] == [s[4], s[5]];
    }
  }

  /** A backslash at the end; the scanner never lets one through. */
  lemma BackslashAlone()
    ensures DecodeBody([BACKSLASH]) == Undecodable(EmptyEscape)
  {
    hide ReadCodePoint, EncodeUtf8, SimpleEscape;
  }
}
