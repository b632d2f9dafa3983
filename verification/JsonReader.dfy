/**
 The JSON reader: a cursor over the document, a stack of nodes under construction and a list of
 errors.  The tokenizer's loops are proved against the functions of the unread text, and the
 recursive descent against the parser of token sequences.

 A child under construction is kept on the node stack and stored into its parent when it is popped.
 */
module JsonReader {
  import opened Arithmetic
  import opened ByteText
  import opened JsonValue
  import opened JsonString
  import opened JsonNumber
  import opened JsonToken
  import opened JsonParse

  /** One call of the tokenizer is one step along the token sequence. */
  lemma TokenStep(s: Bytes)
    ensures NextToken(s).token == Head(Tokenize(s))
    ensures Tokenize(NextToken(s).left) == After(Tokenize(s))
    ensures NextToken(s).token.text == [] ==> NextToken(s).token.kind == EndOfStream
    ensures NextToken(s).token.text != [] ==> |NextToken(s).left| < |s|
  {
  }

  // ---------- decoding of tokens ----------

  lemma {:induction false} StringTokenShape(s: Bytes)
    requires NextToken(s).token.kind == StringToken
    ensures var text := NextToken(s).token.text;
            |text| >= 2 && text[0] == QUOTE && text[|text| - 1] == QUOTE && WellEscaped(text[1..|text| - 1])
  {
    hide WellEscaped, ScanString, ReadComment, SkipNumber, MatchWord;
    var t := SkipSpaces(s);
    var text := NextToken(s).token.text;
    assert t[0] == QUOTE && ScanString(t[1..]).ok;
    ScannedIsWellEscaped(t[1..]);
    assert text[1..|text| - 1] == t[1..][..|text| - 2];
  }

  /** Every string token of every document decodes to its end or fails for a bad escape: the decoder's
      branches for a bare quote and for an empty escape are never taken. */
  lemma {:induction false} StringTokensDecode(s: Bytes, i: nat)
    requires i < |Tokenize(s)| && Tokenize(s)[i].kind == StringToken
    ensures DecodeString(Tokenize(s)[i].text).Decoded? ==> DecodeString(Tokenize(s)[i].text).left == []
    ensures DecodeString(Tokenize(s)[i].text) != Undecodable(EmptyEscape)
    decreases |s|
  {
    hide NextToken, DecodeBody, WellEscaped, SkipSpaces;
    if i == 0 {
      StringTokenShape(s);
      var text := NextToken(s).token.text;
      DecodeReadsAll(text[1..|text| - 1]);
    } else {
      StringTokensDecode(NextToken(s).left, i - 1);
    }
  }

  /** Four hexadecimal digits of s from at on. */
  method DecodeUnicodeEscapeSequence(s: Bytes, at: nat) returns (r: CodePoint)
    requires at <= |s|
    ensures r == ReadHex4(s[at..])
  {
    if |s| - at < 4 {
      return BadCodePoint(FourDigitsExpected);
    }
    var unicode := 0;
    var digits := s[at..];
    for index := 0 to 4
      invariant forall i :: 0 <= i < index ==> HexValue(digits[i]).Some?
      invariant unicode == HexPrefix(digits, index)
    {
      var digit := HexValue(digits[index]);
      if digit.None? {
        return BadCodePoint(HexDigitExpected);
      }
      unicode := unicode * 16 + digit.value;
    }
    assert HexPrefix(digits, 2) == HexValue(digits[0]).value * 16 + HexValue(digits[1]).value;
    r := CodePoint(unicode, digits[4..]);
  }

  function HexPrefix(s: Bytes, n: nat): nat
    requires n <= 4 <= |s| && forall i :: 0 <= i < n ==> HexValue(s[i]).Some?
  {
    if n == 0 then 0 else HexPrefix(s, n - 1) * 16 + HexValue(s[n - 1]).value
  }

  method DecodeUnicodeCodePoint(s: Bytes, at: nat) returns (r: CodePoint)
    requires at <= |s|
    ensures r == ReadCodePoint(s[at..])
  {
    r := DecodeUnicodeEscapeSequence(s, at);
    if r.CodePoint? && 0xD800 <= r.code <= 0xDBFF {
      var high, next := r.code, at + 4;
      if |s| - next < 6 {
        return BadCodePoint(SecondHalfTooShort);
      }
      if s[next] == BACKSLASH && s[next + 1] == LOWER_U {
        assert r.left[2..] == s[next + 2..];
        var low := DecodeUnicodeEscapeSequence(s, next + 2);
        r := if low.CodePoint? then CodePoint(0x10000 + high % 0x400 * 0x400 + low.code % 0x400, low.left) else low;
      } else {
        r := BadCodePoint(SecondHalfExpected);
      }
    }
  }

  lemma PrependTwice(a: Bytes, b: Bytes, d: Decoding)
    ensures Prepend(a, Prepend(b, d)) == Prepend(a + b, d)
  {
    if d.Decoded? {
      AppendAssociates(a, b, d.text);
    }
  }

  /** What the decoding loop does after a backslash at position at - 1. */
  method DecodeEscape(body: Bytes, at: nat) returns (text: Bytes, next: nat, problem: Option<Message>)
    requires 0 < at <= |body| && body[at - 1] == BACKSLASH
    ensures problem.None? ==> at < next <= |body| &&
                              DecodeBody(body[at - 1..]) == Prepend(text, DecodeBody(body[next..]))
    ensures problem.Some? ==> DecodeBody(body[at - 1..]) == Undecodable(problem.value)
  {
    text, next, problem := [], at, None;
    var s := body[at - 1..];
    if at == |body| {
      problem := Some(EmptyEscape);
      return;
    }
    next := at + 1;
    assert s[2..] == body[next..];
    if body[at] == LOWER_U {
      var r := DecodeUnicodeCodePoint(body, next);
      match r
      case BadCodePoint(m) => problem := Some(m);
      case CodePoint(cp, left) =>
        text := EncodeUtf8(cp);
        next := |body| - |left|;
        assert left == body[next..];
    } else {
      var c := SimpleEscape(body[at]);
      if c.None? {
        problem := Some(BadEscape);
      } else {
        text := [c.value];
      }
    }
  }

  /** The decoding loop over a string token. */
  method DecodeStringText(token: Bytes) returns (decoded: Bytes, problem: Option<Message>)
    ensures match DecodeString(token)
            case Decoded(text, _) => problem.None? && decoded == text
            case Undecodable(m) => problem == Some(m)
  {
    var body := if |token| < 2 then [] else token[1..|token| - 1];
    decoded, problem := [], None;
    var at := 0;
    assert body[0..] == body;
    PrependTwice([], [], DecodeBody(body));
    while at != |body|
      invariant 0 <= at <= |body| && problem.None?
      invariant Prepend(decoded, DecodeBody(body[at..])) == DecodeBody(body)
    {
      var c := body[at];
      if c == QUOTE {
        return;
      } else if c == BACKSLASH {
        var text, next;
        text, next, problem := DecodeEscape(body, at + 1);
        if problem.Some? {
          return;
        }
        PrependTwice(decoded, text, DecodeBody(body[next..]));
        decoded, at := decoded + text, next;
      } else {
        assert body[at..][1..] == body[at + 1..];
        PrependTwice(decoded, [c], DecodeBody(body[at + 1..]));
        decoded, at := decoded + [c], at + 1;
      }
    }
  }

  const DOUBLE_BUFFER_SIZE: nat := 32

  /** Copies a numeral and a zero byte into a buffer of its own to scan it as a double.  The zero falls outside the
      buffer, where the model does not follow it, if and only if the numeral is as long as the buffer. */
  method DecodeDoubleText(text: Bytes, scan: ScanReal) returns (r: Number, overrun: bool)
    ensures r == DecodeDouble(text, scan)
    ensures overrun <==> |text| == DOUBLE_BUFFER_SIZE
  {
    overrun := false;
    var copy := text;
    if |text| <= DOUBLE_BUFFER_SIZE {
      var buffer := new Byte[DOUBLE_BUFFER_SIZE];
      forall i | 0 <= i < |text| {
        buffer[i] := text[i];
      }
      if |text| < buffer.Length {
        buffer[|text|] := NUL;
      } else {
        overrun := true;
      }
      copy := buffer[..|text|];
      assert copy == text;
    }
    r := DecodeDouble(copy, scan);
  }

  /** The two loops over a number token. */
  method DecodeNumberText(text: Bytes, scan: ScanReal) returns (r: Number, overrun: bool)
    ensures r == DecodeNumber(text, scan)
    ensures overrun <==> |text| == DOUBLE_BUFFER_SIZE && IsReadAsDouble(text)
  {
    var isDouble := false;
    for i := 0 to |text|
      invariant isDouble <==> exists j :: 0 <= j < i && (IsRealMark(text[j]) || (text[j] == MINUS && j > 0))
    {
      isDouble := isDouble || IsRealMark(text[i]) || (text[i] == MINUS && i > 0);
    }
    if isDouble {
      r, overrun := DecodeDoubleText(text, scan);
      return;
    }
    r, overrun := DecodeIntegerText(text, scan);
  }

  method DecodeIntegerText(text: Bytes, scan: ScanReal) returns (r: Number, overrun: bool)
    requires !IsDouble(text)
    ensures r == DecodeInteger(text, scan)
    ensures overrun <==> |text| == DOUBLE_BUFFER_SIZE && IsReadAsDouble(text)
  {
    var negative := text != [] && text[0] == MINUS;
    var current := if negative then 1 else 0;
    var max := Magnitude(negative);
    var threshold, lastDigit := max / 10, max % 10;
    var value := 0;
    ghost var all := ScanDigits(text[current..], 0, max);
    assert text[0..] == text;
    while current < |text|
      invariant 0 <= current <= |text| && 0 <= value
      invariant ScanDigits(text[current..], value, max) == all
    {
      var c := text[current];
      assert text[current..][1..] == text[current + 1..];
      current := current + 1;
      if !IsDigit(c) {
        return BadNumber(NotANumber), false;
      }
      var digit := c - ZERO;
      if value >= threshold && (current != |text| || digit > lastDigit) {
        r, overrun := DecodeDoubleText(text, scan);
        return;
      }
      value := (value * 10 + digit) % WORD;
    }
    overrun := false;
    r := Number(if negative then Int(ToInt64(-ToInt64(value)))
                else if value <= MAX_INT then Int(value) else UInt(value));
  }

  lemma SkipBlanksKeepsAhead(s: Bytes)
    ensures Tokenize(SkipSpaces(s)) == Tokenize(s)
  {
    hide Lex;
    var t := SkipSpaces(s);
    assert SkipSpaces(t) == t;
    assert NextToken(t) == NextToken(s);
  }

  /** After blanks, a closing bracket under the cursor is a closing bracket as next token. */
  lemma ClosingBracketAhead(s: Bytes)
    requires SkipSpaces(s) == s
    ensures (s != [] && s[0] == RIGHT_BRACKET) <==> Head(Tokenize(s)).kind == ArrayEnd
  {
  }

  class Reader {
    const cfg: Config
    var document: Bytes
    var current: nat
    var nodes: seq<Value>
    var errors: seq<ErrorInfo>

    constructor (cfg: Config)
      ensures this.cfg == cfg && Valid()
    {
      this.cfg := cfg;
      document, current, nodes, errors := [], 0, [], [];
    }

    /** The cursor is within the document. */
    ghost predicate Valid()
      reads this`document, this`current
    {
      current <= |document|
    }

    ghost function Unread(): Bytes
      requires Valid()
      reads this`document, this`current
    {
      document[current..]
    }

    ghost function Ahead(): seq<Token>
      requires Valid()
      reads this`document, this`current
    {
      Tokenize(Unread())
    }

    // ---------- the tokenizer ----------

    method GetNextChar() returns (c: Byte)
      requires Valid()
      modifies this`current
      ensures Valid()
      ensures old(Unread()) == [] ==> c == NUL && Unread() == [] && current == old(current)
      ensures old(Unread()) != [] ==> c == old(Unread())[0] && Unread() == old(Unread())[1..] && current == old(current) + 1
    {
      if current == |document| {
        return NUL;
      }
      c := document[current];
      current := current + 1;
    }

    /** The character under the cursor; the document is followed by a zero. */
    function Peek(): (c: Byte)
      requires Valid()
      reads this`document, this`current
      ensures c == if Unread() == [] then NUL else Unread()[0]
    {
      if current == |document| then NUL else document[current]
    }

    method SkipBlanks()
      requires Valid()
      modifies this`current
      ensures Valid() && Unread() == SkipSpaces(old(Unread()))
      ensures current >= old(current)
    {
      while current != |document|
        invariant Valid() && current >= old(current)
        invariant SkipSpaces(Unread()) == SkipSpaces(old(Unread()))
      {
        if !IsSpace(document[current]) {
          break;
        }
        assert document[current..][1..] == document[current + 1..];
        current := current + 1;
      }
    }

    method Match(word: Bytes) returns (ok: bool)
      requires Valid()
      modifies this`current
      ensures Valid() && Scan(ok, Unread()) == MatchWord(old(Unread()), word)
      ensures current >= old(current)
    {
      if |document| - current < |word| {
        return false;
      }
      var index := |word|;
      while index > 0
        invariant 0 <= index <= |word|
        invariant forall i :: index <= i < |word| ==> document[current + i] == word[i]
      {
        index := index - 1;
        if document[current + index] != word[index] {
          assert Unread()[..|word|][index] != word[index];
          return false;
        }
      }
      assert Unread()[..|word|] == word;
      assert document[current + |word|..] == Unread()[|word|..];
      current := current + |word|;
      return true;
    }

    method ReadQuoted() returns (ok: bool)
      requires Valid()
      modifies this`current
      ensures Valid() && Scan(ok, Unread()) == ScanString(old(Unread()))
      ensures current >= old(current)
    {
      var c := NUL;
      while current != |document|
        invariant Valid() && c != QUOTE && current >= old(current)
        invariant ScanString(Unread()) == ScanString(old(Unread()))
        decreases |document| - current
      {
        c := GetNextChar();
        if c == BACKSLASH {
          var _ := GetNextChar();
        } else if c == QUOTE {
          break;
        }
      }
      ok := c == QUOTE;
    }

    method ReadDigits()
      requires Valid()
      modifies this`current
      ensures Valid() && Unread() == SkipNumber(old(Unread()))
      ensures current >= old(current)
    {
      while current != |document|
        invariant Valid() && current >= old(current)
        invariant SkipNumber(Unread()) == SkipNumber(old(Unread()))
      {
        if !IsNumberChar(document[current]) {
          break;
        }
        assert document[current..][1..] == document[current + 1..];
        current := current + 1;
      }
    }

    method ReadCStyleComment() returns (ok: bool)
      requires Valid()
      modifies this`current
      ensures Valid() && Scan(ok, Unread()) == CComment(old(Unread()))
      ensures current >= old(current)
    {
      while current != |document|
        invariant Valid() && current >= old(current)
        invariant CComment(Unread()) == CComment(old(Unread()))
        decreases |document| - current
      {
        ghost var before := Unread();
        var c := GetNextChar();
        if c == STAR && Peek() == SLASH {
          assert before[1..][1..] == before[2..];
          var _ := GetNextChar();
          return true;
        }
      }
      return false;
    }

    method ReadCppStyleComment()
      requires Valid()
      modifies this`current
      ensures Valid() && Unread() == CppComment(old(Unread()))
      ensures current >= old(current)
    {
      while current != |document|
        invariant Valid() && current >= old(current)
        invariant CppComment(Unread()) == CppComment(old(Unread()))
        decreases |document| - current
      {
        var c := GetNextChar();
        if c == RETURN || c == NEWLINE {
          return;
        }
      }
    }

    method ReadCommentText() returns (ok: bool)
      requires Valid()
      modifies this`current
      ensures Valid() && Scan(ok, Unread()) == ReadComment(old(Unread()))
      ensures current >= old(current)
    {
      var c := GetNextChar();
      ok := false;
      if c == STAR {
        ok := ReadCStyleComment();
      } else if c == SLASH {
        ReadCppStyleComment();
        ok := true;
      }
    }

    /** Reads a token's text after its first character c. */
    method ReadLexeme(c: Byte) returns (kind: TokenType)
      requires Valid()
      modifies this`current
      ensures Valid() && Lexeme(kind, Unread()) == Lex([c] + old(Unread()))
      ensures current >= old(current)
    {
      assert ([c] + Unread())[1..] == Unread();
      var ok := true;
      kind := ErrorToken;
      if c == LEFT_BRACE {
        kind := ObjectBegin;
      } else if c == RIGHT_BRACE {
        kind := ObjectEnd;
      } else if c == LEFT_BRACKET {
        kind := ArrayBegin;
      } else if c == RIGHT_BRACKET {
        kind := ArrayEnd;
      } else if c == QUOTE {
        kind := StringToken;
        ok := ReadQuoted();
      } else if c == SLASH {
        kind := CommentToken;
        ok := ReadCommentText();
      } else if ZERO <= c <= NINE || c == MINUS {
        kind := NumberToken;
        ReadDigits();
      } else if c == LOWER_T {
        kind := TrueToken;
        ok := Match(TRUE_TEXT[1..]);
      } else if c == LOWER_F {
        kind := FalseToken;
        ok := Match(FALSE_TEXT[1..]);
      } else if c == LOWER_N {
        kind := NullToken;
        ok := Match(NULL_TEXT[1..]);
      } else if c == COMMA {
        kind := ArraySeparator;
      } else if c == COLON {
        kind := MemberSeparator;
      } else if c == NUL {
        kind := EndOfStream;
      }
      if !ok {
        kind := ErrorToken;
      }
    }

    /** Reads the next token: one step along the token sequence.  The cursor moves unless it is at the
        end, where the end-of-stream token has no text. */
    method ReadToken() returns (token: Token)
      requires Valid()
      modifies this`current
      ensures Valid() && token == Head(old(Ahead())) && Ahead() == After(old(Ahead()))
      ensures current >= old(current)
      ensures token.kind != EndOfStream ==> current > old(current)
    {
      ghost var s := Unread();
      TokenStep(s);
      SkipBlanks();
      var start := current;
      ghost var t := Unread();
      var c := GetNextChar();
      assert t != [] ==> [c] + Unread() == t;
      var kind := ReadLexeme(c);
      token := Token(kind, document[start..current]);
      assert document[start..current] == t[..|t| - |Unread()|];
      assert Step(token, Unread()) == NextToken(s);
    }

    // ---------- errors ----------

    method AddError(message: Message, token: Token) returns (ok: bool)
      modifies this`errors
      ensures !ok && errors == old(errors) + [ErrorInfo(token, message)]
    {
      errors := errors + [ErrorInfo(token, message)];
      return false;
    }

    method SkipCommentTokens() returns (token: Token)
      requires Valid()
      modifies this`current
      ensures Valid()
      ensures var s := Significant(old(Ahead()), cfg); token == Head(s) && Ahead() == After(s)
      ensures current >= old(current) && (token.kind != EndOfStream ==> current > old(current))
    {
      token := ReadToken();
      if cfg.allowComments {
        token := SkipFurtherComments(token);
      }
    }

    /** Given the token just read, reads on past comments. */
    method SkipFurtherComments(first: Token) returns (token: Token)
      requires Valid()
      modifies this`current
      ensures Valid()
      ensures var s := SkipComments([first] + old(Ahead())); token == Head(s) && Ahead() == After(s)
      ensures current >= old(current)
      ensures first.kind == CommentToken && token.kind != EndOfStream ==> current > old(current)
    {
      token := first;
      ghost var ts := [first] + Ahead();
      while token.kind == CommentToken
        invariant Valid() && current >= old(current)
        invariant Head(SkipComments([token] + Ahead())) == Head(SkipComments(ts))
        invariant After(SkipComments([token] + Ahead())) == After(SkipComments(ts))
        invariant token != first && token.kind != EndOfStream ==> current > old(current)
        decreases |document| - current, token.kind == CommentToken
      {
        ghost var ahead := Ahead();
        assert ([token] + ahead)[1..] == ahead;
        token := ReadToken();
        assert ahead != [] ==> [token] + Ahead() == ahead;
      }
    }

    /** Reads the next token that is not a comment, whether or not comments are allowed elsewhere. */
    method ReadPastComments() returns (token: Token)
      requires Valid()
      modifies this`current
      ensures Valid()
      ensures var s := SkipComments(old(Ahead())); token == Head(s) && Ahead() == After(s)
      ensures current >= old(current) && (token.kind != EndOfStream ==> current > old(current))
    {
      ghost var ts := Ahead();
      token := ReadToken();
      assert ts != [] ==> [token] + Ahead() == ts;
      token := SkipFurtherComments(token);
    }

    /** Skips to the wanted token or the end of the stream; errors met on the way are dropped. */
    method RecoverFromError(wanted: TokenType) returns (ok: bool)
      requires Valid()
      modifies this`current, this`errors
      ensures Valid() && !ok && errors == old(errors)
      ensures Ahead() == Recover(old(Ahead()), wanted)
      ensures current >= old(current)
    {
      var errorCount := |errors|;
      var skip := ReadToken();
      while skip.kind != wanted && skip.kind != EndOfStream
        invariant Valid() && current >= old(current) && errors == old(errors)
        invariant Recover([skip] + Ahead(), wanted) == Recover(old(Ahead()), wanted)
        decreases |document| - current, skip.kind != EndOfStream
      {
        ghost var ahead := Ahead();
        assert ([skip] + ahead)[1..] == ahead;
        skip := ReadToken();
        assert ahead != [] ==> [skip] + Ahead() == ahead;
      }
      errors := errors[..errorCount];
      return false;
    }

    method AddErrorAndRecover(message: Message, token: Token, wanted: TokenType) returns (ok: bool)
      requires Valid()
      modifies this`current, this`errors
      ensures Valid() && !ok && errors == old(errors) + [ErrorInfo(token, message)]
      ensures Ahead() == Recover(old(Ahead()), wanted)
      ensures current >= old(current)
    {
      var _ := AddError(message, token);
      ok := RecoverFromError(wanted);
    }

    // ---------- recursive descent ----------

    /** The outcome p on top of a stack that is otherwise base, with errs reported before. */
    ghost predicate Shows(ok: bool, p: Parsed, base: seq<Value>, errs: seq<ErrorInfo>)
      reads this
    {
      Valid() && ok == p.ok && nodes == base + [p.value] && Ahead() == p.rest && errors == errs + p.errors
    }

    function CurrentValue(): Value
      requires nodes != []
      reads this`nodes
    {
      nodes[|nodes| - 1]
    }

    ghost function Base(): seq<Value>
      requires nodes != []
      reads this`nodes
    {
      nodes[..|nodes| - 1]
    }

    method SetCurrentValue(v: Value)
      requires nodes != []
      modifies this`nodes
      ensures nodes == old(Base()) + [v]
    {
      nodes := nodes[..|nodes| - 1] + [v];
    }

    /** Reads one value into the node on top of the stack.  Whether it succeeds or fails, the stack
        returns to its depth, the nodes below are untouched, and the outcome is the parser's. */
    method ReadNode() returns (ok: bool)
      requires Valid() && nodes != []
      modifies this`current, this`nodes, this`errors
      ensures Shows(ok, ReadValue(old(Ahead()), old(CurrentValue()), cfg), old(Base()), old(errors))
      ensures current >= old(current)
      decreases |document| - current, 0
    {
      hide Tokenize;
      assert nodes == Base() + [CurrentValue()];
      var token := SkipCommentTokens();
      match token.kind
      case ObjectBegin => ok := ReadObject();
      case ArrayBegin => ok := ReadArray();
      case NumberToken => ok := ReadNumberNode(token);
      case StringToken => ok := ReadStringNode(token);
      case TrueToken =>
        SetCurrentValue(Bool(true));
        ok := true;
      case FalseToken =>
        SetCurrentValue(Bool(false));
        ok := true;
      case NullToken =>
        SetCurrentValue(Null);
        ok := true;
      case _ => ok := AddError(ValueExpected, token);
    }

    method ReadNumberNode(token: Token) returns (ok: bool)
      requires Valid() && nodes != []
      modifies this`nodes, this`errors
      ensures Shows(ok, ReadNumber(token, old(CurrentValue()), Ahead(), cfg), old(Base()), old(errors))
    {
      assert nodes == Base() + [CurrentValue()];
      var r, _ := DecodeNumberText(token.text, cfg.scan);
      match r
      case Number(v) =>
        SetCurrentValue(v);
        ok := true;
      case BadNumber(m) => ok := AddError(m, token);
    }

    method ReadStringNode(token: Token) returns (ok: bool)
      requires Valid() && nodes != []
      modifies this`nodes, this`errors
      ensures Shows(ok, ReadString(token, old(CurrentValue()), Ahead()), old(Base()), old(errors))
    {
      assert nodes == Base() + [CurrentValue()];
      var decoded, problem := DecodeStringText(token.text);
      if problem.Some? {
        ok := AddError(problem.value, token);
      } else {
        SetCurrentValue(Str(Some(CString(decoded))));
        ok := true;
      }
    }

    /** Reads a child of the current node: pushes node, reads into it, and pops it again. */
    method ReadChild(node: Value) returns (ok: bool, child: Value)
      requires Valid()
      modifies this`current, this`nodes, this`errors
      ensures Valid() && nodes == old(nodes) && current >= old(current)
      ensures var p := ReadValue(old(Ahead()), node, cfg);
              ok == p.ok && child == p.value && Ahead() == p.rest && errors == old(errors) + p.errors
      decreases |document| - current, 1
    {
      hide Tokenize;
      nodes := nodes + [node];
      ok := ReadNode();
      child := CurrentValue();
      nodes := nodes[..|nodes| - 1];
    }

    method ReadArray() returns (ok: bool)
      requires Valid() && nodes != []
      modifies this`current, this`nodes, this`errors
      ensures Shows(ok,
                    if Head(old(Ahead())).kind == ArrayEnd then Parsed(true, Array([]), After(old(Ahead())), [])
                    else ReadElements(old(Ahead()), 0, [], cfg),
                    old(Base()), old(errors))
      ensures current >= old(current)
      decreases |document| - current, 4
    {
      ghost var ts, base := Ahead(), Base();
      SetCurrentValue(Array([]));
      SkipBlanksKeepsAhead(Unread());
      SkipBlanks();
      ClosingBracketAhead(Unread());
      if Peek() == RIGHT_BRACKET {
        var _ := ReadToken();
        return true;
      }
      ok := ReadArrayElements(ts, base);
    }

    method ReadArrayElements(ghost ts: seq<Token>, ghost base: seq<Value>) returns (ok: bool)
      requires Valid() && nodes == base + [Array([])] && Ahead() == ts
      modifies this`current, this`nodes, this`errors
      ensures Shows(ok, ReadElements(ts, 0, [], cfg), base, old(errors))
      ensures current >= old(current)
      decreases |document| - current, 3
    {
      hide Tokenize;
      var index, m := 0, [];
      while true
        invariant Valid() && current >= old(current) && index >= 0
        invariant nodes == base + [Array(m)] && errors == old(errors)
        invariant ReadElements(Ahead(), index, m, cfg) == ReadElements(ts, 0, [], cfg)
        decreases |document| - current
      {
        var more;
        ok, more, m := ReadArrayElement(index, m, base);
        if !more {
          return;
        }
        index := index + 1;
      }
    }

    /** Reads an element and the token after it; more says that another element should follow. */
    method ReadArrayElement(index: nat, m: seq<Entry>, ghost base: seq<Value>)
      returns (ok: bool, more: bool, m': seq<Entry>)
      requires Valid() && nodes == base + [Array(m)]
      modifies this`current, this`nodes, this`errors
      ensures Valid() && current >= old(current)
      ensures !more ==> Shows(ok, ReadElements(old(Ahead()), index, m, cfg), base, old(errors))
      ensures more ==> current > old(current) && nodes == base + [Array(m')] && errors == old(errors) &&
                       ReadElements(old(Ahead()), index, m, cfg) == ReadElements(Ahead(), index + 1, m', cfg)
      decreases |document| - current, 2
    {
      hide Tokenize;
      var child;
      ok, child := ReadChild(Null);
      m', more := Put(m, Entry(Index(index), child)), false;
      SetCurrentValue(Array(m'));
      if !ok {
        ok := RecoverFromError(ArrayEnd);
        return;
      }
      var token := ReadPastComments();
      more := token.kind != ArrayEnd;
    }

    method ReadObject() returns (ok: bool)
      requires Valid() && nodes != []
      modifies this`current, this`nodes, this`errors
      ensures Shows(ok, ReadMembers(old(Ahead()), [], [], cfg), old(Base()), old(errors))
      ensures current >= old(current)
      decreases |document| - current, 4
    {
      hide Tokenize;
      ghost var ts, base := Ahead(), Base();
      SetCurrentValue(Object([]));
      var name, m := [], [];
      while true
        invariant Valid() && current >= old(current)
        invariant nodes == base + [Object(m)] && errors == old(errors)
        invariant ReadMembers(Ahead(), name, m, cfg) == ReadMembers(ts, [], [], cfg)
        decreases |document| - current
      {
        ghost var before := current;
        var tokenName := ReadPastComments();
        if tokenName.kind == ObjectEnd && name == [] {
          return true;
        }
        if tokenName.kind != StringToken {
          ok := AddErrorAndRecover(MissingBraceOrName, tokenName, ObjectEnd);
          return;
        }
        var problem;
        name, problem := DecodeStringText(tokenName.text);
        if problem.Some? {
          var _ := AddError(problem.value, tokenName);
          ok := RecoverFromError(ObjectEnd);
          return;
        }
        var colon := ReadToken();
        if colon.kind != MemberSeparator {
          ok := AddErrorAndRecover(MissingColon, colon, ObjectEnd);
          return;
        }
        var more;
        ok, more, m := ReadObjectMember(name, m, base);
        if !more {
          return;
        }
      }
    }

    /** Reads a member's value and the token after it; more says that another member should follow. */
    method ReadObjectMember(name: Bytes, m: seq<Entry>, ghost base: seq<Value>)
      returns (ok: bool, more: bool, m': seq<Entry>)
      requires Valid() && nodes == base + [Object(m)]
      modifies this`current, this`nodes, this`errors
      ensures Valid() && current >= old(current)
      ensures !more ==> Shows(ok, ReadMember(old(Ahead()), name, m, cfg), base, old(errors))
      ensures more ==> nodes == base + [Object(m')] && errors == old(errors) &&
                       ReadMember(old(Ahead()), name, m, cfg) == ReadMembers(Ahead(), name, m', cfg)
      decreases |document| - current, 2
    {
      hide Tokenize;
      var key := Name(CString(name));
      var child;
      ok, child := ReadChild(Child(m, key));
      m', more := Put(m, Entry(key, child)), false;
      SetCurrentValue(Object(m'));
      if !ok {
        ok := RecoverFromError(ObjectEnd);
        return;
      }
      ghost var after := Ahead();
      var comma := ReadToken();
      if comma.kind != ObjectEnd && comma.kind != ArraySeparator && comma.kind != CommentToken {
        ok := AddErrorAndRecover(MissingCommaOrBrace, comma, ObjectEnd);
        return;
      }
      assert [comma] + Ahead() == after;
      comma := SkipFurtherComments(comma);
      more := comma.kind != ObjectEnd;
    }

    /** Parses a document into root.  On every document the cursor stays inside it, the run ends, the
        node stack is back to the root, and the result is true exactly when no error was reported. */
    method Parse(text: Bytes, root: Value) returns (ok: bool, value: Value)
      modifies this
      ensures Valid() && nodes == [value] && document == text
      ensures var p := ParseDocument(Tokenize(text), text, root, cfg);
              ok == p.ok && value == p.value && errors == p.errors && Ahead() == p.rest
      ensures ok <==> errors == []
    {
      hide Tokenize;
      document, current, errors, nodes := text, 0, [], [root];
      assert document[0..] == text;
      ok := ReadNode();
      var _ := SkipCommentTokens();
      value := CurrentValue();
      if cfg.strictRoot && !IsContainer(value) {
        ok := AddError(RootMustBeContainer, Token(ErrorToken, text));
      }
    }
  }
}
