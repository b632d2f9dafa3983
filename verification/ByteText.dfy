/** Byte strings, and the characters the JSON text format gives a meaning to. */
module ByteText {

  type Byte = x: int | 0 <= x < 256

  type Bytes = seq<Byte>

  datatype Option<+T> = None | Some(value: T)

  const NUL: Byte := 0x00
  const BACKSPACE: Byte := 0x08
  const TAB: Byte := 0x09
  const NEWLINE: Byte := 0x0A
  const FORM_FEED: Byte := 0x0C
  const RETURN: Byte := 0x0D
  const SPACE: Byte := 0x20
  const QUOTE: Byte := 0x22
  const STAR: Byte := 0x2A
  const PLUS: Byte := 0x2B
  const COMMA: Byte := 0x2C
  const MINUS: Byte := 0x2D
  const DOT: Byte := 0x2E
  const SLASH: Byte := 0x2F
  const ZERO: Byte := 0x30
  const NINE: Byte := 0x39
  const COLON: Byte := 0x3A
  const UPPER_A: Byte := 0x41
  const UPPER_E: Byte := 0x45
  const UPPER_F: Byte := 0x46
  const LEFT_BRACKET: Byte := 0x5B
  const BACKSLASH: Byte := 0x5C
  const RIGHT_BRACKET: Byte := 0x5D
  const LOWER_A: Byte := 0x61
  const LOWER_B: Byte := 0x62
  const LOWER_E: Byte := 0x65
  const LOWER_F: Byte := 0x66
  const LOWER_L: Byte := 0x6C
  const LOWER_N: Byte := 0x6E
  const LOWER_R: Byte := 0x72
  const LOWER_S: Byte := 0x73
  const LOWER_T: Byte := 0x74
  const LOWER_U: Byte := 0x75
  const LEFT_BRACE: Byte := 0x7B
  const RIGHT_BRACE: Byte := 0x7D

  /** No zero byte: the strings a zero-terminated buffer can hold. */
  predicate NulFree(s: Bytes) {
    forall i :: 0 <= i < |s| ==> s[i] != NUL
  }

  /** The part of a string that a zero-terminated copy keeps. */
  function CString(s: Bytes): (r: Bytes)
    ensures NulFree(r)
  {
    if s == [] || s[0] == NUL then [] else [s[0]] + CString(s[1..])
  }

  lemma {:induction false} CStringKeeps(s: Bytes)
    requires NulFree(s)
    ensures CString(s) == s
  {
    if s != [] {
      CStringKeeps(s[1..]);
    }
  }
}
