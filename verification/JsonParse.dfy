/**
 The JSON parser on the level of tokens: what the reader makes of a token sequence, errors and
 recovery included.  The reader itself is proved against these functions.
 */
module JsonParse {
  import opened Arithmetic
  import opened ByteText
  import opened JsonValue
  import opened JsonString
  import opened JsonNumber
  import opened JsonToken

  /** What the reader may do, and the C library's reading of doubles. */
  datatype Config = Config(allowComments: bool, strictRoot: bool, scan: ScanReal)

  datatype ErrorInfo = ErrorInfo(token: Token, message: Message)

  /** The outcome of reading a value: the value left in the current node, the tokens not read, and
      the errors reported. */
  datatype Parsed = Parsed(ok: bool, value: Value, rest: seq<Token>, errors: seq<ErrorInfo>)

  function Head(ts: seq<Token>): Token {
    if ts == [] then Token(EndOfStream, []) else ts[0]
  }

  function After(ts: seq<Token>): seq<Token> {
    if ts == [] then [] else ts[1..]
  }

  function SkipComments(ts: seq<Token>): (r: seq<Token>)
    ensures |r| <= |ts|
    ensures Head(r).kind != CommentToken
  {
    if ts != [] && ts[0].kind == CommentToken then SkipComments(ts[1..]) else ts
  }

  /** Skips past the next token of the wanted kind, or past the end of the stream. */
  function Recover(ts: seq<Token>, wanted: TokenType): (r: seq<Token>)
    ensures |r| <= |ts|
  {
    if ts == [] then []
    else if ts[0].kind == wanted || ts[0].kind == EndOfStream then ts[1..]
    else Recover(ts[1..], wanted)
  }

  /** Decoding of a string token, its quotes included. */
  function DecodeString(text: Bytes): Decoding {
    DecodeBody(if |text| < 2 then [] else text[1..|text| - 1])
  }

  function Fail(value: Value, rest: seq<Token>, token: Token, message: Message): Parsed {
    Parsed(false, value, rest, [ErrorInfo(token, message)])
  }

  function ReadNumber(t: Token, node: Value, rest: seq<Token>, cfg: Config): Parsed {
    match DecodeNumber(t.text, cfg.scan)
    case Number(v) => Parsed(true, v, rest, [])
    case BadNumber(m) => Fail(node, rest, t, m)
  }

  function ReadString(t: Token, node: Value, rest: seq<Token>): Parsed {
    match DecodeString(t.text)
    case Decoded(s, _) => Parsed(true, Str(Some(CString(s))), rest, [])
    case Undecodable(m) => Fail(node, rest, t, m)
  }

  function Significant(ts: seq<Token>, cfg: Config): seq<Token> {
    if cfg.allowComments then SkipComments(ts) else ts
  }

  /** Reads one value into a node that holds node so far. */
  function ReadValue(ts: seq<Token>, node: Value, cfg: Config): (p: Parsed)
    ensures |p.rest| <= |ts| && (p.ok ==> |p.rest| < |ts|)
    ensures p.ok <==> p.errors == []
    decreases |ts|, 0
  {
    var s := Significant(ts, cfg);
    var t, rest := Head(s), After(s);
    match t.kind
    case ObjectBegin => ReadMembers(rest, [], [], cfg)
    case ArrayBegin =>
      if Head(rest).kind == ArrayEnd then Parsed(true, Array([]), After(rest), [])
      else ReadElements(rest, 0, [], cfg)
    case NumberToken => ReadNumber(t, node, rest, cfg)
    case StringToken => ReadString(t, node, rest)
    case TrueToken => Parsed(true, Bool(true), rest, [])
    case FalseToken => Parsed(true, Bool(false), rest, [])
    case NullToken => Parsed(true, Null, rest, [])
    case _ => Fail(node, rest, t, ValueExpected)
  }

  /** Reads the elements from index on; m holds those before.  Any token is taken for a separator. */
  function ReadElements(ts: seq<Token>, index: nat, m: seq<Entry>, cfg: Config): (p: Parsed)
    ensures |p.rest| <= |ts| && (p.ok ==> |p.rest| < |ts|)
    ensures p.ok <==> p.errors == []
    decreases |ts|, 1
  {
    var p := ReadValue(ts, Null, cfg);
    var m' := Put(m, Entry(Index(index), p.value));
    if !p.ok then Parsed(false, Array(m'), Recover(p.rest, ArrayEnd), p.errors)
    else
      var s := SkipComments(p.rest);
      if Head(s).kind == ArrayEnd then Parsed(true, Array(m'), After(s), [])
      else ReadElements(After(s), index + 1, m', cfg)
  }

  /** Reads the members of an object; m holds those before, name is the previous member's name. */
  function ReadMembers(ts: seq<Token>, name: Bytes, m: seq<Entry>, cfg: Config): (p: Parsed)
    ensures |p.rest| <= |ts| && (p.ok ==> |p.rest| < |ts|)
    ensures p.ok <==> p.errors == []
    decreases |ts|, 1
  {
    var s := SkipComments(ts);
    var t, rest := Head(s), After(s);
    if t.kind == ObjectEnd && name == [] then Parsed(true, Object(m), rest, [])
    else if t.kind != StringToken then Fail(Object(m), Recover(rest, ObjectEnd), t, MissingBraceOrName)
    else
      match DecodeString(t.text)
      case Undecodable(message) => Fail(Object(m), Recover(rest, ObjectEnd), t, message)
      case Decoded(name', _) =>
        if Head(rest).kind != MemberSeparator
        then Fail(Object(m), Recover(After(rest), ObjectEnd), Head(rest), MissingColon)
        else ReadMember(After(rest), name', m, cfg)
  }

  /** The node a subscript gives: the value already under the key, or a new null. */
  function Child(m: seq<Entry>, key: Key): Value {
    match Lookup(m, key)
    case Some(v) => v
    case None => Null
  }

  /** Reads a member's value and what follows it. */
  function ReadMember(ts: seq<Token>, name: Bytes, m: seq<Entry>, cfg: Config): (p: Parsed)
    ensures |p.rest| <= |ts|
    ensures p.ok <==> p.errors == []
    decreases |ts|, 2
  {
    var key := Name(CString(name));
    var p := ReadValue(ts, Child(m, key), cfg);
    var m' := Put(m, Entry(key, p.value));
    if !p.ok then Parsed(false, Object(m'), Recover(p.rest, ObjectEnd), p.errors)
    else if Head(p.rest).kind !in {ObjectEnd, ArraySeparator, CommentToken}
    then Fail(Object(m'), Recover(After(p.rest), ObjectEnd), Head(p.rest), MissingCommaOrBrace)
    else
      var s := SkipComments(p.rest);
      if Head(s).kind == ObjectEnd then Parsed(true, Object(m'), After(s), [])
      else ReadMembers(After(s), name, m', cfg)
  }

  predicate IsContainer(v: Value) {
    v.Array? || v.Object?
  }

  /** Reading a document into a root node that holds node so far.  A root of the wrong kind is an error of the
      whole document. */
  function ParseDocument(ts: seq<Token>, document: Bytes, node: Value, cfg: Config): (p: Parsed)
    ensures p.ok <==> p.errors == []
  {
    var p := ReadValue(ts, node, cfg);
    var rest := After(Significant(p.rest, cfg));
    if cfg.strictRoot && !IsContainer(p.value)
    then Parsed(false, p.value, rest, p.errors + [ErrorInfo(Token(ErrorToken, document), RootMustBeContainer)])
    else p.(rest := rest)
  }

  // ---------- whatever is read is a well-formed value ----------

  lemma {:induction false} PutIsValid(m: seq<Entry>, e: Entry, named: bool)
    requires ValidMap(m, named) && ValidMap([e], named)
    ensures ValidMap(Put(m, e), named)
    ensures Put(m, e)[0].key == e.key || (m != [] && Put(m, e)[0].key == m[0].key)
  {
    if m == [] || KeyLess(e.key, m[0].key) {
      assert ([e] + m)[1..] == m;
    } else if m[0].key == e.key {
      assert ([e] + m[1..])[1..] == m[1..];
    } else {
      KeyTrichotomy(e.key, m[0].key);
      PutIsValid(m[1..], e, named);
      assert Put(m, e)[1..] == Put(m[1..], e);
    }
  }

  lemma {:induction false} ChildIsValid(m: seq<Entry>, key: Key, named: bool)
    requires ValidMap(m, named)
    ensures Valid(Child(m, key))
  {
    if m != [] && m[0].key != key {
      ChildIsValid(m[1..], key, named);
    }
  }

  lemma {:induction false} ScanFits(s: Bytes, value: nat, max: nat)
    requires value < WORD
    ensures ScanDigits(s, value, max).Integer? ==> ScanDigits(s, value, max).value < WORD
  {
    if s != [] {
      ScanFits(s[1..], (value * 10 + (s[0] as int - ZERO as int)) % WORD, max);
    }
  }

  lemma NumberIsValid(text: Bytes, scan: ScanReal)
    ensures DecodeNumber(text, scan).Number? ==> Valid(DecodeNumber(text, scan).value)
  {
    ScanFits(text, 0, MAX_UINT);
    if text != [] {
      ScanFits(text[1..], 0, HALF_WORD);
    }
  }

  /** On every token sequence the value left in the node is well formed: integers in range, keys in
      strict order, strings without a zero byte. */
  lemma {:induction false} ReadValueIsValid(ts: seq<Token>, node: Value, cfg: Config)
    requires Valid(node)
    ensures Valid(ReadValue(ts, node, cfg).value)
    decreases |ts|, 0
  {
    var s := Significant(ts, cfg);
    var t, rest := Head(s), After(s);
    match t.kind
    case ObjectBegin => ReadMembersIsValid(rest, [], [], cfg);
    case ArrayBegin =>
      if Head(rest).kind != ArrayEnd {
        ReadElementsIsValid(rest, 0, [], cfg);
      }
    case NumberToken => NumberIsValid(t.text, cfg.scan);
    case _ =>
  }

  lemma {:induction false} ReadElementsIsValid(ts: seq<Token>, index: nat, m: seq<Entry>, cfg: Config)
    requires ValidMap(m, false)
    ensures Valid(ReadElements(ts, index, m, cfg).value)
    decreases |ts|, 1
  {
    ReadValueIsValid(ts, Null, cfg);
    var p := ReadValue(ts, Null, cfg);
    PutIsValid(m, Entry(Index(index), p.value), false);
    var s := SkipComments(p.rest);
    if p.ok && Head(s).kind != ArrayEnd {
      ReadElementsIsValid(After(s), index + 1, Put(m, Entry(Index(index), p.value)), cfg);
    }
  }

  lemma {:induction false} ReadMembersIsValid(ts: seq<Token>, name: Bytes, m: seq<Entry>, cfg: Config)
    requires ValidMap(m, true)
    ensures Valid(ReadMembers(ts, name, m, cfg).value)
    decreases |ts|, 1
  {
    var s := SkipComments(ts);
    var t, rest := Head(s), After(s);
    if t.kind == StringToken && DecodeString(t.text).Decoded? && Head(rest).kind == MemberSeparator {
      ReadMemberIsValid(After(rest), DecodeString(t.text).text, m, cfg);
    }
  }

  lemma {:induction false} ReadMemberIsValid(ts: seq<Token>, name: Bytes, m: seq<Entry>, cfg: Config)
    requires ValidMap(m, true)
    ensures Valid(ReadMember(ts, name, m, cfg).value)
    decreases |ts|, 2
  {
    var key := Name(CString(name));
    ChildIsValid(m, key, true);
    ReadValueIsValid(ts, Child(m, key), cfg);
    var p := ReadValue(ts, Child(m, key), cfg);
    var m' := Put(m, Entry(key, p.value));
    PutIsValid(m, Entry(key, p.value), true);
    var s := SkipComments(p.rest);
    if p.ok && Head(p.rest).kind in {ObjectEnd, ArraySeparator, CommentToken} && Head(s).kind != ObjectEnd {
      ReadMembersIsValid(After(s), name, m', cfg);
    }
  }

  /** Whatever the document, parsing leaves a well-formed root. */
  lemma ParseIsValid(ts: seq<Token>, document: Bytes, node: Value, cfg: Config)
    requires Valid(node)
    ensures Valid(ParseDocument(ts, document, node, cfg).value)
  {
    ReadValueIsValid(ts, node, cfg);
  }
}
