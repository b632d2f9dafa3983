/**
 The JSON tokenizer as a function of the unread text, and the texts that stand for a given token
 sequence wherever they are placed.
 */
module JsonToken {
  import opened ByteText
  import opened JsonString

  datatype TokenType =
    | EndOfStream
    | ObjectBegin
    | ObjectEnd
    | ArrayBegin
    | ArrayEnd
    | StringToken
    | NumberToken
    | TrueToken
    | FalseToken
    | NullToken
    | ArraySeparator
    | MemberSeparator
    | CommentToken
    | ErrorToken

  datatype Token = Token(kind: TokenType, text: Bytes)

  const NULL_TEXT: Bytes := [LOWER_N, LOWER_U, LOWER_L, LOWER_L]
  const TRUE_TEXT: Bytes := [LOWER_T, LOWER_R, LOWER_U, LOWER_E]
  const FALSE_TEXT: Bytes := [LOWER_F, LOWER_A, LOWER_L, LOWER_S, LOWER_E]

  predicate IsSpace(c: Byte) {
    c == SPACE || c == TAB || c == RETURN || c == NEWLINE
  }

  function SkipSpaces(s: Bytes): (r: Bytes)
    ensures |r| <= |s|
    ensures r == [] || !IsSpace(r[0])
  {
    if s != [] && IsSpace(s[0]) then SkipSpaces(s[1..]) else s
  }

  predicate IsNumberChar(c: Byte) {
    ZERO <= c <= NINE || c == DOT || c == LOWER_E || c == UPPER_E || c == PLUS || c == MINUS
  }

  function SkipNumber(s: Bytes): (r: Bytes)
    ensures |r| <= |s|
  {
    if s != [] && IsNumberChar(s[0]) then SkipNumber(s[1..]) else s
  }

  function MatchWord(s: Bytes, word: Bytes): Scan {
    if |s| >= |word| && s[..|word|] == word then Scan(true, s[|word|..]) else Scan(false, s)
  }

  /** The rest of a C comment, after its opening. */
  function CComment(s: Bytes): (r: Scan)
    ensures |r.left| <= |s|
  {
    if s == [] then Scan(false, [])
    else if s[0] == STAR && |s| > 1 && s[1] == SLASH then Scan(true, s[2..])
    else CComment(s[1..])
  }

  /** The rest of a line comment, through the end of its line. */
  function CppComment(s: Bytes): (r: Bytes)
    ensures |r| <= |s|
  {
    if s == [] then []
    else if s[0] == RETURN || s[0] == NEWLINE then s[1..]
    else CppComment(s[1..])
  }

  /** A comment after its first slash. */
  function ReadComment(s: Bytes): (r: Scan)
    ensures |r.left| <= |s|
  {
    if s == [] then Scan(false, [])
    else if s[0] == STAR then CComment(s[1..])
    else if s[0] == SLASH then Scan(true, CppComment(s[1..]))
    else Scan(false, s[1..])
  }

  datatype Lexeme = Lexeme(kind: TokenType, left: Bytes)

  function Checked(kind: TokenType, scan: Scan): Lexeme {
    Lexeme(if scan.ok then kind else ErrorToken, scan.left)
  }

  /** The token that starts with the first character of s. */
  function Lex(s: Bytes): (r: Lexeme)
    requires s != []
    ensures |r.left| < |s|
  {
    var c, left := s[0], s[1..];
    if c == LEFT_BRACE then Lexeme(ObjectBegin, left)
    else if c == RIGHT_BRACE then Lexeme(ObjectEnd, left)
    else if c == LEFT_BRACKET then Lexeme(ArrayBegin, left)
    else if c == RIGHT_BRACKET then Lexeme(ArrayEnd, left)
    else if c == QUOTE then Checked(StringToken, ScanString(left))
    else if c == SLASH then Checked(CommentToken, ReadComment(left))
    else if ZERO <= c <= NINE || c == MINUS then Lexeme(NumberToken, SkipNumber(left))
    else if c == LOWER_T then Checked(TrueToken, MatchWord(left, TRUE_TEXT[1..]))
    else if c == LOWER_F then Checked(FalseToken, MatchWord(left, FALSE_TEXT[1..]))
    else if c == LOWER_N then Checked(NullToken, MatchWord(left, NULL_TEXT[1..]))
    else if c == COMMA then Lexeme(ArraySeparator, left)
    else if c == COLON then Lexeme(MemberSeparator, left)
    else if c == NUL then Lexeme(EndOfStream, left)
    else Lexeme(ErrorToken, left)
  }

  datatype Step = Step(token: Token, left: Bytes)

  /** One call of the tokenizer: the next token and the text after it. */
  function NextToken(s: Bytes): (r: Step)
    ensures |r.left| <= |s|
    ensures SkipSpaces(s) != [] ==> |r.left| < |s| && r.token.text != []
  {
    var t := SkipSpaces(s);
    if t == [] then Step(Token(EndOfStream, []), [])
    else
      var l := Lex(t);
      Step(Token(l.kind, t[..|t| - |l.left|]), l.left)
  }

  /** All tokens of the text, the end of the text not among them. */
  function Tokenize(s: Bytes): seq<Token>
    decreases |s|
  {
    if SkipSpaces(s) == [] then [] else [NextToken(s).token] + Tokenize(NextToken(s).left)
  }

  // ---------- texts that stand for tokens ----------

  /** text, placed in front of s, reads as toks. */
  ghost predicate ReadsAs(text: Bytes, toks: seq<Token>, s: Bytes) {
    Tokenize(text + s) == toks + Tokenize(s)
  }

  /** A text that cannot continue a number. */
  predicate Delimited(s: Bytes) {
    s == [] || !IsNumberChar(s[0])
  }

  lemma AppendAssociates<T>(a: seq<T>, b: seq<T>, c: seq<T>)
    ensures a + b + c == a + (b + c)
  {
  }

  lemma ReadsInTurn(a: Bytes, ta: seq<Token>, b: Bytes, tb: seq<Token>, s: Bytes)
    requires ReadsAs(a, ta, b + s) && ReadsAs(b, tb, s)
    ensures ReadsAs(a + b, ta + tb, s)
  {
    hide Tokenize;
    AppendAssociates(a, b, s);
    AppendAssociates(ta, tb, Tokenize(s));
  }

  lemma TokenReads(text: Bytes, kind: TokenType, s: Bytes)
    requires text != [] && !IsSpace(text[0]) && Lex(text + s) == Lexeme(kind, s)
    ensures ReadsAs(text, [Token(kind, text)], s)
  {
    hide Lex;
    var t := text + s;
    assert SkipSpaces(t) == t;
    assert t[..|t| - |s|] == text;
    assert NextToken(t) == Step(Token(kind, text), s);
  }

  /** The kind of a one-character token. */
  function MarkKind(c: Byte): Option<TokenType> {
    if c == LEFT_BRACE then Some(ObjectBegin)
    else if c == RIGHT_BRACE then Some(ObjectEnd)
    else if c == LEFT_BRACKET then Some(ArrayBegin)
    else if c == RIGHT_BRACKET then Some(ArrayEnd)
    else if c == COMMA then Some(ArraySeparator)
    else if c == COLON then Some(MemberSeparator)
    else None
  }

  function Mark(c: Byte): Token
    requires MarkKind(c).Some?
  {
    Token(MarkKind(c).value, [c])
  }

  lemma MarkReads(c: Byte, s: Bytes)
    requires MarkKind(c).Some?
    ensures ReadsAs([c], [Mark(c)], s)
  {
    hide Tokenize;
    assert ([c] + s)[1..] == s;
    TokenReads([c], MarkKind(c).value, s);
  }

  predicate AllSpaces(s: Bytes) {
    forall i :: 0 <= i < |s| ==> IsSpace(s[i])
  }

  lemma {:induction false} SpacesAreSkipped(spaces: Bytes, s: Bytes)
    requires AllSpaces(spaces)
    ensures SkipSpaces(spaces + s) == SkipSpaces(s)
  {
    if spaces == [] {
      assert spaces + s == s;
    } else {
      assert (spaces + s)[1..] == spaces[1..] + s;
      SpacesAreSkipped(spaces[1..], s);
    }
  }

  lemma SpacesRead(spaces: Bytes, s: Bytes)
    requires AllSpaces(spaces)
    ensures ReadsAs(spaces, [], s)
  {
    hide Lex, SkipSpaces;
    SpacesAreSkipped(spaces, s);
    assert NextToken(spaces + s) == NextToken(s);
  }

  lemma QuotedReads(v: Bytes, s: Bytes)
    ensures ReadsAs(Quoted(v), [Token(StringToken, Quoted(v))], s)
  {
    hide Tokenize, ScanString, EscapeAll;
    QuotedIsScanned(v, s);
    TokenReads(Quoted(v), StringToken, s);
  }

  lemma WordReads(word: Bytes, kind: TokenType, s: Bytes)
    requires (word == NULL_TEXT && kind == NullToken) || (word == TRUE_TEXT && kind == TrueToken) ||
             (word == FALSE_TEXT && kind == FalseToken)
    ensures ReadsAs(word, [Token(kind, word)], s)
  {
    hide Tokenize;
    var left := (word + s)[1..];
    assert left == word[1..] + s;
    assert left[..|word| - 1] == word[1..] && left[|word| - 1..] == s;
    assert MatchWord(left, word[1..]) == Scan(true, s);
    TokenReads(word, kind, s);
  }

  lemma {:induction false} NumberIsSkipped(text: Bytes, s: Bytes)
    requires Delimited(s) && forall i :: 0 <= i < |text| ==> IsNumberChar(text[i])
    ensures SkipNumber(text + s) == s
  {
    if text == [] {
      assert text + s == s;
    } else {
      assert (text + s)[1..] == text[1..] + s;
      NumberIsSkipped(text[1..], s);
    }
  }

  /** A text the tokenizer takes for one number. */
  predicate IsNumberText(text: Bytes) {
    && text != []
    && (ZERO <= text[0] <= NINE || text[0] == MINUS)
    && forall i :: 0 <= i < |text| ==> IsNumberChar(text[i])
  }

  lemma NumberReads(text: Bytes, s: Bytes)
    requires IsNumberText(text) && Delimited(s)
    ensures ReadsAs(text, [Token(NumberToken, text)], s)
  {
    hide Tokenize;
    assert (text + s)[1..] == text[1..] + s;
    NumberIsSkipped(text[1..], s);
    TokenReads(text, NumberToken, s);
  }

  // ---------- comments ----------

  /** Nowhere a star and a slash in a row. */
  predicate Unclosed(s: Bytes) {
    forall i :: 0 <= i < |s| - 1 ==> !(s[i] == STAR && s[i + 1] == SLASH)
  }

  lemma {:induction false} CCommentEnds(body: Bytes, s: Bytes)
    requires Unclosed(body)
    ensures CComment(body + [STAR, SLASH] + s) == Scan(true, s)
    ensures CComment(body) == Scan(false, [])
  {
    var t := body + [STAR, SLASH] + s;
    if body == [] {
      assert t[2..] == s;
    } else {
      assert t[1..] == body[1..] + [STAR, SLASH] + s;
      assert t[1] == if |body| > 1 then body[1] else STAR;
      CCommentEnds(body[1..], s);
    }
  }

  lemma {:induction false} CppCommentEnds(body: Bytes, end: Byte, s: Bytes)
    requires end in {RETURN, NEWLINE} && RETURN !in body && NEWLINE !in body
    ensures CppComment(body + [end] + s) == s && CppComment(body) == []
  {
    var t := body + [end] + s;
    if body == [] {
      assert t[1..] == s;
    } else {
      assert t[1..] == body[1..] + [end] + s;
      CppCommentEnds(body[1..], end, s);
    }
  }

  /** A comment between slash-star and the first star-slash is one token. */
  lemma BlockCommentReads(body: Bytes, s: Bytes)
    requires Unclosed(body)
    ensures var text := [SLASH, STAR] + body + [STAR, SLASH];
      ReadsAs(text, [Token(CommentToken, text)], s)
  {
    hide Tokenize, CComment;
    var text := [SLASH, STAR] + body + [STAR, SLASH];
    assert (text + s)[1..][1..] == body + [STAR, SLASH] + s;
    CCommentEnds(body, s);
    TokenReads(text, CommentToken, s);
  }

  /** So is one from two slashes through the end of the line. */
  lemma LineCommentReads(body: Bytes, end: Byte, s: Bytes)
    requires end in {RETURN, NEWLINE} && RETURN !in body && NEWLINE !in body
    ensures var text := [SLASH, SLASH] + body + [end];
      ReadsAs(text, [Token(CommentToken, text)], s)
  {
    hide Tokenize, CppComment;
    var text := [SLASH, SLASH] + body + [end];
    assert (text + s)[1..][1..] == body + [end] + s;
    CppCommentEnds(body, end, s);
    TokenReads(text, CommentToken, s);
  }

  /** A comment that is never closed is one error token, through the end of the text. */
  lemma UnclosedCommentFails(body: Bytes)
    requires Unclosed(body)
    ensures Tokenize([SLASH, STAR] + body) == [Token(ErrorToken, [SLASH, STAR] + body)]
  {
    hide CComment;
    var text := [SLASH, STAR] + body;
    assert text[1..][1..] == body;
    CCommentEnds(body, []);
    assert text + [] == text;
    TokenReads(text, ErrorToken, []);
    assert Tokenize([]) == [];
  }

  // ---------- which bytes start which token ----------

  /** Blank, tab, carriage return and line feed are skipped, and no other byte is. */
  lemma BlankBytes(c: Byte, s: Bytes)
    ensures c in {0x20, 0x09, 0x0D, 0x0A} ==> Tokenize([c] + s) == Tokenize(s)
    ensures c !in {0x20, 0x09, 0x0D, 0x0A} ==>
            Tokenize([c] + s) != [] && Tokenize([c] + s)[0].text != [] && Tokenize([c] + s)[0].text[0] == c
  {
    hide Lex;
    assert ([c] + s)[1..] == s;
    if c in {0x20, 0x09, 0x0D, 0x0A} {
      SpacesRead([c], s);
    }
  }

  /** A number starts with a digit or a minus sign and goes on through digits, points, exponents and signs. */
  lemma NumberBytes(text: Bytes, s: Bytes)
    requires text != [] && (0x30 <= text[0] <= 0x39 || text[0] == 0x2D)
    requires forall i :: 0 <= i < |text| ==> 0x30 <= text[i] <= 0x39 || text[i] in {0x2E, 0x65, 0x45, 0x2B, 0x2D}
    requires s != [] ==> !(0x30 <= s[0] <= 0x39) && s[0] !in {0x2E, 0x65, 0x45, 0x2B, 0x2D}
    ensures Tokenize(text + s) == [Token(NumberToken, text)] + Tokenize(s)
  {
    hide Tokenize;
    NumberReads(text, s);
  }

  /** A byte that can start no token is an error of its own, and a zero byte reads as the end. */
  lemma StrayBytes(c: Byte, s: Bytes)
    requires c !in {0x20, 0x09, 0x0D, 0x0A, 0x7B, 0x7D, 0x5B, 0x5D, 0x22, 0x2F, 0x2D, 0x74, 0x66, 0x6E, 0x2C, 0x3A}
    requires !(0x30 <= c <= 0x39)
    ensures Tokenize([c] + s) == [Token(if c == 0 then EndOfStream else ErrorToken, [c])] + Tokenize(s)
  {
    hide Tokenize;
    assert ([c] + s)[1..] == s;
    TokenReads([c], if c == 0 then EndOfStream else ErrorToken, s);
  }

  /** A slash that opens no comment is an error together with the byte after it. */
  lemma SlashAlone(c: Byte, s: Bytes)
    requires c !in {0x2A, 0x2F}
    ensures Tokenize([0x2F, c] + s) == [Token(ErrorToken, [0x2F, c])] + Tokenize(s)
  {
    hide Tokenize;
    assert ([0x2F, c] + s)[1..] == [c] + s && ([c] + s)[1..] == s;
    TokenReads([0x2F, c], ErrorToken, s);
  }

  /** A first letter of a word that is not continued is an error by itself. */
  lemma WordBrokenOff(c: Byte, s: Bytes)
    requires c == 0x74 ==> !([0x72, 0x75, 0x65] <= s)
    requires c == 0x66 ==> !([0x61, 0x6C, 0x73, 0x65] <= s)
    requires c == 0x6E ==> !([0x75, 0x6C, 0x6C] <= s)
    requires c in {0x74, 0x66, 0x6E}
    ensures Tokenize([c] + s) == [Token(ErrorToken, [c])] + Tokenize(s)
  {
    hide Tokenize;
    assert ([c] + s)[1..] == s;
    assert TRUE_TEXT[1..] == [0x72, 0x75, 0x65] && FALSE_TEXT[1..] == [0x61, 0x6C, 0x73, 0x65];
    assert NULL_TEXT[1..] == [0x75, 0x6C, 0x6C];
    TokenReads([c], ErrorToken, s);
  }
}
