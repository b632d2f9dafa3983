/**
 The two printed forms of a JSON value, compact and indented, as functions, and the proof that both
 read as the value's one token sequence.
 */
module JsonPrint {
  import opened ByteText
  import opened JsonValue
  import opened JsonString
  import opened JsonNumber
  import opened JsonToken

  /** The C library's printing and scanning of doubles. */
  datatype Reals = Reals(print_: real -> Bytes, scan: ScanReal)

  /** The library prints r as a numeral that is marked as a double and scans back to r. */
  predicate PrintsReal(lib: Reals, r: real) {
    var text := lib.print_(r);
    IsNumberText(text) && IsDouble(text) && lib.scan(text) == Some(r)
  }

  /** No null string pointer, and only doubles the library prints faithfully. */
  ghost predicate Printable(v: Value, lib: Reals)
    decreases Weight(v)
  {
    match v
    case Real(r) => PrintsReal(lib, r)
    case Str(s) => s.Some?
    case Array(m) => PrintableMap(m, lib)
    case Object(m) => PrintableMap(m, lib)
    case _ => true
  }

  ghost predicate PrintableMap(m: seq<Entry>, lib: Reals)
    decreases MapWeight(m)
  {
    m == [] || (Printable(m[0].value, lib) && PrintableMap(m[1..], lib))
  }

  ghost predicate Writable(v: Value, lib: Reals) {
    Valid(v) && Printable(v, lib)
  }

  lemma {:induction false} ElementIsWritable(m: seq<Entry>, i: nat, lib: Reals)
    requires ValidMap(m, false) && PrintableMap(m, lib)
    ensures Writable(ElementAt(m, i), lib)
  {
    if m != [] && m[0].key != Index(i) {
      ElementIsWritable(m[1..], i, lib);
    }
  }

  predicate IsScalar(v: Value) {
    !v.Array? && !v.Object?
  }

  function ScalarText(v: Value, lib: Reals): Bytes {
    match v
    case Null => NULL_TEXT
    case Int(i) => IntText(i)
    case UInt(u) => Digits(u)
    case Real(r) => lib.print_(r)
    case Str(s) => if s.Some? then Quoted(s.value) else []
    case Bool(b) => if b then TRUE_TEXT else FALSE_TEXT
    case _ => []
  }

  function ScalarKind(v: Value): TokenType {
    match v
    case Null => NullToken
    case Str(_) => StringToken
    case Bool(b) => if b then TrueToken else FalseToken
    case _ => NumberToken
  }

  function NameOf(key: Key): Bytes {
    if key.Name? then key.name else []
  }

  // ---------- the tokens of a value ----------

  function TokensOf(v: Value, lib: Reals): seq<Token>
    decreases Weight(v), 0
  {
    match v
    case Array(m) =>
      if ArraySize(m) == 0 then [Mark(LEFT_BRACKET), Mark(RIGHT_BRACKET)]
      else [Mark(LEFT_BRACKET)] + ElementTokens(m, 0, lib)
    case Object(m) =>
      if m == [] then [Mark(LEFT_BRACE), Mark(RIGHT_BRACE)]
      else [Mark(LEFT_BRACE)] + MemberTokens(m, lib)
    case _ => [Token(ScalarKind(v), ScalarText(v, lib))]
  }

  /** The tokens of the elements from i on, and the closing bracket. */
  function ElementTokens(m: seq<Entry>, i: nat, lib: Reals): seq<Token>
    requires i < ArraySize(m)
    decreases MapWeight(m), ArraySize(m) - i
  {
    TokensOf(ElementAt(m, i), lib) +
    if i + 1 == ArraySize(m) then [Mark(RIGHT_BRACKET)] else [Mark(COMMA)] + ElementTokens(m, i + 1, lib)
  }

  /** The tokens of the members, and the closing brace. */
  function MemberTokens(m: seq<Entry>, lib: Reals): seq<Token>
    requires m != []
    decreases MapWeight(m), 0
  {
    [Token(StringToken, Quoted(NameOf(m[0].key)))] + ([Mark(COLON)] + (TokensOf(m[0].value, lib) +
    if |m| == 1 then [Mark(RIGHT_BRACE)] else [Mark(COMMA)] + MemberTokens(m[1..], lib)))
  }

  // ---------- the compact form ----------

  /** What follows a colon. */
  function ColonGap(yaml: bool): Bytes {
    if yaml then [SPACE] else []
  }

  function FastText(v: Value, lib: Reals, yaml: bool): Bytes
    decreases Weight(v), 0
  {
    match v
    case Array(m) =>
      if ArraySize(m) == 0 then [LEFT_BRACKET, RIGHT_BRACKET]
      else [LEFT_BRACKET] + FastElements(m, 0, lib, yaml)
    case Object(m) =>
      if m == [] then [LEFT_BRACE, RIGHT_BRACE] else [LEFT_BRACE] + FastMembers(m, lib, yaml)
    case _ => ScalarText(v, lib)
  }

  function FastElements(m: seq<Entry>, i: nat, lib: Reals, yaml: bool): Bytes
    requires i < ArraySize(m)
    decreases MapWeight(m), ArraySize(m) - i, 0
  {
    FastText(ElementAt(m, i), lib, yaml) + FastAfterElement(m, i + 1, lib, yaml)
  }

  /** What follows the elements before i. */
  function FastAfterElement(m: seq<Entry>, i: nat, lib: Reals, yaml: bool): Bytes
    requires i <= ArraySize(m)
    decreases MapWeight(m), ArraySize(m) - i, 1
  {
    if i == ArraySize(m) then [RIGHT_BRACKET] else [COMMA] + FastElements(m, i, lib, yaml)
  }

  function FastMembers(m: seq<Entry>, lib: Reals, yaml: bool): Bytes
    requires m != []
    decreases MapWeight(m), 0
  {
    Quoted(NameOf(m[0].key)) + ([COLON] + (ColonGap(yaml) +
    (FastText(m[0].value, lib, yaml) + FastAfterMember(m[1..], lib, yaml))))
  }

  function FastAfterMember(m: seq<Entry>, lib: Reals, yaml: bool): Bytes
    decreases MapWeight(m), 1
  {
    if m == [] then [RIGHT_BRACE] else [COMMA] + FastMembers(m, lib, yaml)
  }

  // ---------- the indented form ----------

  const RIGHT_MARGIN: int := 74
  const INDENT_SIZE: nat := 3

  function Spaces(n: nat): (s: Bytes)
    ensures |s| == n && AllSpaces(s)
    ensures n > 0 ==> s[n - 1] == SPACE
  {
    if n == 0 then [] else Spaces(n - 1) + [SPACE]
  }

  function NewLine(indent: nat): (s: Bytes)
    ensures s != [] && s[0] == NEWLINE && AllSpaces(s)
  {
    [NEWLINE] + Spaces(indent)
  }

  /** A container with something in it. */
  predicate IsNested(v: Value) {
    (v.Array? && ArraySize(v.map_) > 0) || (v.Object? && v.map_ != [])
  }

  /** The text of a value that is not nested. */
  function LeafText(v: Value, lib: Reals): Bytes {
    if v.Array? then [LEFT_BRACKET, RIGHT_BRACKET]
    else if v.Object? then [LEFT_BRACE, RIGHT_BRACE]
    else ScalarText(v, lib)
  }

  predicate AnyNested(m: seq<Entry>, n: nat) {
    exists i :: 0 <= i < n && IsNested(ElementAt(m, i))
  }

  function LeafLength(m: seq<Entry>, n: nat, lib: Reals): nat {
    if n == 0 then 0 else LeafLength(m, n - 1, lib) + |LeafText(ElementAt(m, n - 1), lib)|
  }

  /** Whether an array is laid out one element a line: it has very many elements, or a nested one, or
      does not fit inside the margin. */
  predicate IsMultiLine(m: seq<Entry>, lib: Reals) {
    var size := ArraySize(m);
    || size * 3 >= RIGHT_MARGIN
    || AnyNested(m, size)
    || 4 + (size - 1) * 2 + LeafLength(m, size, lib) >= RIGHT_MARGIN
  }

  function StyledText(v: Value, indent: nat, lib: Reals): Bytes
    decreases Weight(v), 0
  {
    if !IsNested(v) then LeafText(v, lib)
    else if v.Object? then [LEFT_BRACE] + MemberLines(v.map_, indent, lib)
    else if IsMultiLine(v.map_, lib) then [LEFT_BRACKET] + ElementLines(v.map_, 0, indent, lib)
    else [LEFT_BRACKET, SPACE] + ElementsInLine(v.map_, 0, lib)
  }

  function ElementsInLine(m: seq<Entry>, i: nat, lib: Reals): Bytes
    requires i < ArraySize(m)
    decreases ArraySize(m) - i, 0
  {
    LeafText(ElementAt(m, i), lib) + AfterElementInLine(m, i + 1, lib)
  }

  function AfterElementInLine(m: seq<Entry>, i: nat, lib: Reals): Bytes
    requires i <= ArraySize(m)
    decreases ArraySize(m) - i, 1
  {
    if i == ArraySize(m) then [SPACE, RIGHT_BRACKET] else [COMMA, SPACE] + ElementsInLine(m, i, lib)
  }

  function ElementLines(m: seq<Entry>, i: nat, indent: nat, lib: Reals): Bytes
    requires i < ArraySize(m)
    decreases MapWeight(m), ArraySize(m) - i, 0
  {
    NewLine(indent + INDENT_SIZE) +
    (StyledText(ElementAt(m, i), indent + INDENT_SIZE, lib) + AfterElementLine(m, i + 1, indent, lib))
  }

  function AfterElementLine(m: seq<Entry>, i: nat, indent: nat, lib: Reals): Bytes
    requires i <= ArraySize(m)
    decreases MapWeight(m), ArraySize(m) - i, 1
  {
    if i == ArraySize(m) then NewLine(indent) + [RIGHT_BRACKET] else [COMMA] + ElementLines(m, i, indent, lib)
  }

  function MemberLines(m: seq<Entry>, indent: nat, lib: Reals): Bytes
    requires m != []
    decreases MapWeight(m), 0
  {
    NewLine(indent + INDENT_SIZE) + (Quoted(NameOf(m[0].key)) + ([SPACE] + ([COLON] + ([SPACE] +
    (StyledText(m[0].value, indent + INDENT_SIZE, lib) + AfterMemberLine(m[1..], indent, lib))))))
  }

  function AfterMemberLine(m: seq<Entry>, indent: nat, lib: Reals): Bytes
    decreases MapWeight(m), 1
  {
    if m == [] then NewLine(indent) + [RIGHT_BRACE] else [COMMA] + MemberLines(m, indent, lib)
  }

  // ---------- both forms read as the same tokens ----------

  lemma {:induction false} DigitsAreNumberText(n: nat)
    ensures IsNumberText(Digits(n))
  {
    var s := Digits(n);
    assert forall i :: 0 <= i < |s| ==> IsDigit(s[i]);
  }

  lemma ScalarReads(v: Value, lib: Reals, s: Bytes)
    requires IsScalar(v) && Writable(v, lib) && Delimited(s)
    ensures ReadsAs(ScalarText(v, lib), TokensOf(v, lib), s)
  {
    hide ReadsAs, Digits, IsNumberText;
    match v
    case Null => WordReads(NULL_TEXT, NullToken, s);
    case Int(i) =>
      IntTextIsNumber(i);
      NumberReads(IntText(i), s);
    case UInt(u) =>
      DigitsAreNumberText(u);
      NumberReads(Digits(u), s);
    case Real(r) => NumberReads(lib.print_(r), s);
    case Str(c) => QuotedReads(c.value, s);
    case Bool(b) => WordReads(ScalarText(v, lib), ScalarKind(v), s);
  }

  lemma IntTextIsNumber(i: int)
    ensures IsNumberText(IntText(i))
  {
    hide Digits;
    if i < 0 {
      DigitsAreNumberText(-i);
      var d := Digits(-i);
      assert forall k :: 0 < k < |IntText(i)| ==> IntText(i)[k] == d[k - 1];
    } else {
      DigitsAreNumberText(i);
    }
  }

  /** Two marks in a row. */
  lemma EmptyReads(open: Byte, close: Byte, s: Bytes)
    requires MarkKind(open).Some? && MarkKind(close).Some?
    ensures ReadsAs([open, close], [Mark(open), Mark(close)], s)
  {
    hide ReadsAs;
    MarkReads(close, s);
    MarkReads(open, [close] + s);
    ReadsInTurn([open], [Mark(open)], [close], [Mark(close)], s);
    assert [open] + [close] == [open, close];
    assert [Mark(open)] + [Mark(close)] == [Mark(open), Mark(close)];
  }

  /** A mark in front of a text that reads as toks. */
  lemma MarkThenReads(c: Byte, text: Bytes, toks: seq<Token>, s: Bytes)
    requires MarkKind(c).Some? && ReadsAs(text, toks, s)
    ensures ReadsAs([c] + text, [Mark(c)] + toks, s)
  {
    hide ReadsAs;
    MarkReads(c, text + s);
    ReadsInTurn([c], [Mark(c)], text, toks, s);
  }

  /** White space in front of a text that reads as toks. */
  lemma SpaceThenReads(spaces: Bytes, text: Bytes, toks: seq<Token>, s: Bytes)
    requires AllSpaces(spaces) && ReadsAs(text, toks, s)
    ensures ReadsAs(spaces + text, toks, s)
  {
    hide ReadsAs;
    SpacesRead(spaces, text + s);
    ReadsInTurn(spaces, [], text, toks, s);
    assert [] + toks == toks;
  }

  /** The compact form reads as the value's tokens, at any nesting depth. */
  lemma {:induction false} FastReads(v: Value, lib: Reals, yaml: bool, s: Bytes)
    requires Writable(v, lib) && Delimited(s)
    ensures ReadsAs(FastText(v, lib, yaml), TokensOf(v, lib), s)
    decreases Weight(v), 0
  {
    hide ReadsAs;
    if IsScalar(v) {
      ScalarReads(v, lib, s);
    } else if v.Array? {
      if ArraySize(v.map_) == 0 {
        EmptyReads(LEFT_BRACKET, RIGHT_BRACKET, s);
      } else {
        FastElementsRead(v.map_, 0, lib, yaml, s);
        MarkThenReads(LEFT_BRACKET, FastElements(v.map_, 0, lib, yaml), ElementTokens(v.map_, 0, lib), s);
      }
    } else if v.map_ == [] {
      EmptyReads(LEFT_BRACE, RIGHT_BRACE, s);
    } else {
      FastMembersRead(v.map_, lib, yaml, s);
      MarkThenReads(LEFT_BRACE, FastMembers(v.map_, lib, yaml), MemberTokens(v.map_, lib), s);
    }
  }

  lemma {:induction false} FastElementsRead(m: seq<Entry>, i: nat, lib: Reals, yaml: bool, s: Bytes)
    requires ValidMap(m, false) && PrintableMap(m, lib) && i < ArraySize(m)
    ensures ReadsAs(FastElements(m, i, lib, yaml), ElementTokens(m, i, lib), s)
    decreases MapWeight(m), ArraySize(m) - i
  {
    hide ReadsAs;
    var more := FastAfterElement(m, i + 1, lib, yaml);
    var tokens := if i + 1 == ArraySize(m) then [Mark(RIGHT_BRACKET)] else [Mark(COMMA)] + ElementTokens(m, i + 1, lib);
    if i + 1 == ArraySize(m) {
      MarkReads(RIGHT_BRACKET, s);
    } else {
      FastElementsRead(m, i + 1, lib, yaml, s);
      MarkThenReads(COMMA, FastElements(m, i + 1, lib, yaml), ElementTokens(m, i + 1, lib), s);
    }
    ElementIsWritable(m, i, lib);
    FastReads(ElementAt(m, i), lib, yaml, more + s);
    ReadsInTurn(FastText(ElementAt(m, i), lib, yaml), TokensOf(ElementAt(m, i), lib), more, tokens, s);
  }

  lemma {:induction false} FastMembersRead(m: seq<Entry>, lib: Reals, yaml: bool, s: Bytes)
    requires ValidMap(m, true) && PrintableMap(m, lib) && m != []
    ensures ReadsAs(FastMembers(m, lib, yaml), MemberTokens(m, lib), s)
    decreases MapWeight(m), 0
  {
    hide ReadsAs;
    var more := FastAfterMember(m[1..], lib, yaml);
    var tokens := if |m| == 1 then [Mark(RIGHT_BRACE)] else [Mark(COMMA)] + MemberTokens(m[1..], lib);
    if |m| == 1 {
      MarkReads(RIGHT_BRACE, s);
    } else {
      FastMembersRead(m[1..], lib, yaml, s);
      MarkThenReads(COMMA, FastMembers(m[1..], lib, yaml), MemberTokens(m[1..], lib), s);
    }
    var value, valueTokens := FastText(m[0].value, lib, yaml), TokensOf(m[0].value, lib);
    FastReads(m[0].value, lib, yaml, more + s);
    ReadsInTurn(value, valueTokens, more, tokens, s);
    NameReads(NameOf(m[0].key), [], ColonGap(yaml), value + more, valueTokens + tokens, s);
    NothingBefore([COLON] + (ColonGap(yaml) + (value + more)));
  }

  lemma NothingBefore(s: Bytes)
    ensures [] + s == s
  {
  }

  /** A member's name and colon, with white space around the colon, in front of a text that reads as toks. */
  lemma NameReads(name: Bytes, before: Bytes, after: Bytes, text: Bytes, toks: seq<Token>, s: Bytes)
    requires AllSpaces(before) && AllSpaces(after) && ReadsAs(text, toks, s)
    ensures ReadsAs(Quoted(name) + (before + ([COLON] + (after + text))),
                    [Token(StringToken, Quoted(name))] + ([Mark(COLON)] + toks), s)
  {
    hide ReadsAs;
    SpaceThenReads(after, text, toks, s);
    MarkThenReads(COLON, after + text, toks, s);
    SpaceThenReads(before, [COLON] + (after + text), [Mark(COLON)] + toks, s);
    var tail := before + ([COLON] + (after + text));
    QuotedReads(name, tail + s);
    ReadsInTurn(Quoted(name), [Token(StringToken, Quoted(name))], tail, [Mark(COLON)] + toks, s);
  }

  lemma LeafReads(v: Value, lib: Reals, s: Bytes)
    requires !IsNested(v) && Writable(v, lib) && Delimited(s)
    ensures ReadsAs(LeafText(v, lib), TokensOf(v, lib), s)
  {
    hide ReadsAs;
    if v.Array? {
      EmptyReads(LEFT_BRACKET, RIGHT_BRACKET, s);
    } else if v.Object? {
      EmptyReads(LEFT_BRACE, RIGHT_BRACE, s);
    } else {
      ScalarReads(v, lib, s);
    }
  }

  /** The indented form reads as the same tokens as the compact one, whichever layout is chosen for
      each array. */
  lemma {:induction false} StyledReads(v: Value, indent: nat, lib: Reals, s: Bytes)
    requires Writable(v, lib) && Delimited(s)
    ensures ReadsAs(StyledText(v, indent, lib), TokensOf(v, lib), s)
    decreases Weight(v), 0
  {
    hide ReadsAs, IsMultiLine;
    if !IsNested(v) {
      LeafReads(v, lib, s);
    } else if v.Object? {
      MemberLinesRead(v.map_, indent, lib, s);
      MarkThenReads(LEFT_BRACE, MemberLines(v.map_, indent, lib), MemberTokens(v.map_, lib), s);
    } else if IsMultiLine(v.map_, lib) {
      ElementLinesRead(v.map_, 0, indent, lib, s);
      MarkThenReads(LEFT_BRACKET, ElementLines(v.map_, 0, indent, lib), ElementTokens(v.map_, 0, lib), s);
    } else {
      InLineReads(v, lib, s);
    }
  }

  lemma InLineReads(v: Value, lib: Reals, s: Bytes)
    requires Writable(v, lib) && v.Array? && ArraySize(v.map_) > 0 && !IsMultiLine(v.map_, lib)
    ensures ReadsAs([LEFT_BRACKET, SPACE] + ElementsInLine(v.map_, 0, lib), TokensOf(v, lib), s)
  {
    hide ReadsAs;
    var elements, tokens := ElementsInLine(v.map_, 0, lib), ElementTokens(v.map_, 0, lib);
    ElementsInLineRead(v.map_, 0, lib, s);
    SpaceThenReads([SPACE], elements, tokens, s);
    MarkThenReads(LEFT_BRACKET, [SPACE] + elements, tokens, s);
    assert [LEFT_BRACKET, SPACE] + elements == [LEFT_BRACKET] + ([SPACE] + elements);
  }

  lemma {:induction false} ElementsInLineRead(m: seq<Entry>, i: nat, lib: Reals, s: Bytes)
    requires ValidMap(m, false) && PrintableMap(m, lib) && i < ArraySize(m)
    requires !AnyNested(m, ArraySize(m))
    ensures ReadsAs(ElementsInLine(m, i, lib), ElementTokens(m, i, lib), s)
    decreases ArraySize(m) - i
  {
    hide ReadsAs;
    var more := AfterElementInLine(m, i + 1, lib);
    var tokens := if i + 1 == ArraySize(m) then [Mark(RIGHT_BRACKET)] else [Mark(COMMA)] + ElementTokens(m, i + 1, lib);
    if i + 1 == ArraySize(m) {
      MarkReads(RIGHT_BRACKET, s);
      SpaceThenReads([SPACE], [RIGHT_BRACKET], tokens, s);
      assert [SPACE] + [RIGHT_BRACKET] == [SPACE, RIGHT_BRACKET];
    } else {
      var elements := ElementsInLine(m, i + 1, lib);
      ElementsInLineRead(m, i + 1, lib, s);
      SpaceThenReads([SPACE], elements, ElementTokens(m, i + 1, lib), s);
      MarkThenReads(COMMA, [SPACE] + elements, ElementTokens(m, i + 1, lib), s);
      assert [COMMA, SPACE] + elements == [COMMA] + ([SPACE] + elements);
    }
    ElementIsWritable(m, i, lib);
    assert !IsNested(ElementAt(m, i));
    LeafReads(ElementAt(m, i), lib, more + s);
    ReadsInTurn(LeafText(ElementAt(m, i), lib), TokensOf(ElementAt(m, i), lib), more, tokens, s);
  }

  lemma {:induction false} ElementLinesRead(m: seq<Entry>, i: nat, indent: nat, lib: Reals, s: Bytes)
    requires ValidMap(m, false) && PrintableMap(m, lib) && i < ArraySize(m)
    ensures ReadsAs(ElementLines(m, i, indent, lib), ElementTokens(m, i, lib), s)
    decreases MapWeight(m), ArraySize(m) - i
  {
    hide ReadsAs;
    var more := AfterElementLine(m, i + 1, indent, lib);
    var tokens := if i + 1 == ArraySize(m) then [Mark(RIGHT_BRACKET)] else [Mark(COMMA)] + ElementTokens(m, i + 1, lib);
    if i + 1 == ArraySize(m) {
      MarkReads(RIGHT_BRACKET, s);
      SpaceThenReads(NewLine(indent), [RIGHT_BRACKET], tokens, s);
    } else {
      ElementLinesRead(m, i + 1, indent, lib, s);
      MarkThenReads(COMMA, ElementLines(m, i + 1, indent, lib), ElementTokens(m, i + 1, lib), s);
    }
    ElementIsWritable(m, i, lib);
    var inner := indent + INDENT_SIZE;
    var value, valueTokens := StyledText(ElementAt(m, i), inner, lib), TokensOf(ElementAt(m, i), lib);
    StyledReads(ElementAt(m, i), inner, lib, more + s);
    ReadsInTurn(value, valueTokens, more, tokens, s);
    SpaceThenReads(NewLine(inner), value + more, valueTokens + tokens, s);
  }

  lemma {:induction false} MemberLinesRead(m: seq<Entry>, indent: nat, lib: Reals, s: Bytes)
    requires ValidMap(m, true) && PrintableMap(m, lib) && m != []
    ensures ReadsAs(MemberLines(m, indent, lib), MemberTokens(m, lib), s)
    decreases MapWeight(m), 0
  {
    hide ReadsAs;
    var more := AfterMemberLine(m[1..], indent, lib);
    var tokens := if |m| == 1 then [Mark(RIGHT_BRACE)] else [Mark(COMMA)] + MemberTokens(m[1..], lib);
    if |m| == 1 {
      MarkReads(RIGHT_BRACE, s);
      SpaceThenReads(NewLine(indent), [RIGHT_BRACE], tokens, s);
    } else {
      MemberLinesRead(m[1..], indent, lib, s);
      MarkThenReads(COMMA, MemberLines(m[1..], indent, lib), MemberTokens(m[1..], lib), s);
    }
    var inner := indent + INDENT_SIZE;
    var value, valueTokens := StyledText(m[0].value, inner, lib), TokensOf(m[0].value, lib);
    StyledReads(m[0].value, inner, lib, more + s);
    ReadsInTurn(value, valueTokens, more, tokens, s);
    NameReads(NameOf(m[0].key), [SPACE], [SPACE], value + more, valueTokens + tokens, s);
    SpaceThenReads(NewLine(inner), Quoted(NameOf(m[0].key)) + ([SPACE] + ([COLON] + ([SPACE] + (value + more)))),
                   MemberTokens(m, lib), s);
  }
}
