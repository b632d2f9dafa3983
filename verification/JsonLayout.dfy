/**
 The layout of the two printed forms, judged from the printed bytes alone: a scan over the text keeps track of strings
 and brackets, and says where lines must end, how far they are indented and where single blanks stand.
 */
module JsonLayout {
  import opened ByteText
  import opened JsonValue
  import opened JsonString
  import opened JsonNumber
  import opened JsonToken
  import opened JsonPrint

  /** Where the scan is: for every open bracket whether a line ends right behind it, whether it is inside a string and
      behind a backslash there, whether only blanks precede on the line, and the byte before. */
  datatype Context = Context(open: seq<bool>, inString: bool, escaped: bool, atStart: bool, prev: Byte)

  const START: Context := Context([], false, false, false, NEWLINE)

  predicate Opening(b: Byte) {
    b == LEFT_BRACE || b == LEFT_BRACKET
  }

  predicate Closing(b: Byte) {
    b == RIGHT_BRACE || b == RIGHT_BRACKET
  }

  /** The innermost bracket has its contents on lines of their own. */
  predicate Broken(c: Context) {
    c.open != [] && c.open[|c.open| - 1]
  }

  /** The context behind the first byte of a text. */
  function Next(c: Context, text: Bytes): Context
    requires text != []
  {
    var b := text[0];
    if c.inString then
      Context(c.open, c.escaped || b != QUOTE, !c.escaped && b == BACKSLASH, false, b)
    else
      Context(if Opening(b) then c.open + [|text| > 1 && text[1] == NEWLINE]
              else if Closing(b) && c.open != [] then c.open[..|c.open| - 1]
              else c.open,
              b == QUOTE, false, b == NEWLINE || (b == SPACE && c.atStart), b)
  }

  function Over(c: Context, text: Bytes): Context
    decreases |text|
  {
    if text == [] then c else Over(Next(c, text), text[1..])
  }

  function Blanks(text: Bytes): (k: nat)
    ensures k <= |text|
  {
    if text != [] && text[0] == SPACE then 1 + Blanks(text[1..]) else 0
  }

  /** A line starts with three blanks for every open bracket, a closing bracket counting as closed, and is not empty. */
  predicate LineStarts(text: Bytes, depth: nat) {
    var k := Blanks(text);
    k < |text| && text[k] != NEWLINE && k == 3 * (depth - if Closing(text[k]) then 1 else 0)
  }

  /**
   * What the byte at the head of the text has to meet. A line ends only outside strings, in a bracket broken into
   * lines. A brace is broken unless it is empty. In a broken bracket a line ends behind every comma and before the
   * closing bracket; elsewhere a blank stands there. Blanks surround a colon, and never come in pairs within a line.
   */
  predicate Fits(c: Context, text: Bytes)
    requires text != []
  {
    var b := text[0];
    if b == NEWLINE then !c.inString && Broken(c) && LineStarts(text[1..], |c.open|)
    else if c.inString then true
    else if b == LEFT_BRACE then |text| > 1 && text[1] in {NEWLINE, RIGHT_BRACE}
    else if b == LEFT_BRACKET then |text| > 1 && text[1] in {NEWLINE, SPACE, RIGHT_BRACKET}
    else if b == COMMA then |text| > 1 && c.open != [] && text[1] == if Broken(c) then NEWLINE else SPACE
    else if b == COLON then |text| > 1 && c.prev == SPACE && text[1] == SPACE
    else if Closing(b) then c.open != [] && if Broken(c) then c.atStart else c.prev == SPACE || Opening(c.prev)
    else if b == SPACE then c.atStart || c.prev != SPACE
    else true
  }

  predicate LaidOut(c: Context, text: Bytes)
    decreases |text|
  {
    text == [] || (Fits(c, text) && LaidOut(Next(c, text), text[1..]))
  }

  // ---------- putting texts together ----------

  lemma {:induction false} BlanksAppend(a: Bytes, b: Bytes)
    requires Blanks(a) < |a|
    ensures Blanks(a + b) == Blanks(a)
  {
    if a[0] == SPACE {
      assert (a + b)[1..] == a[1..] + b;
      BlanksAppend(a[1..], b);
    }
  }

  lemma FitsAppend(c: Context, a: Bytes, b: Bytes)
    requires a != [] && Fits(c, a)
    ensures Fits(c, a + b) && Next(c, a + b) == Next(c, a)
  {
    assert (a + b)[1..] == a[1..] + b;
    if a[0] == NEWLINE {
      BlanksAppend(a[1..], b);
    }
  }

  lemma {:induction false} LaidOutAppend(c: Context, a: Bytes, b: Bytes)
    requires LaidOut(c, a) && LaidOut(Over(c, a), b)
    ensures LaidOut(c, a + b) && Over(c, a + b) == Over(Over(c, a), b)
    decreases |a|
  {
    hide Fits, Next;
    if a == [] {
      assert a + b == b;
    } else {
      FitsAppend(c, a, b);
      assert (a + b)[1..] == a[1..] + b;
      LaidOutAppend(Next(c, a), a[1..], b);
    }
  }

  /** One byte in front of a text. */
  lemma LaidOutStep(c: Context, b: Byte, text: Bytes)
    requires Fits(c, [b] + text) && LaidOut(Next(c, [b] + text), text)
    ensures LaidOut(c, [b] + text) && Over(c, [b] + text) == Over(Next(c, [b] + text), text)
  {
    hide Fits, Next;
    assert ([b] + text)[1..] == text;
  }

  predicate Ready(c: Context) {
    !c.inString && !c.escaped
  }

  /** The context behind a value that ends in b. */
  function Behind(c: Context, b: Byte): Context {
    Context(c.open, false, false, false, b)
  }

  // ---------- new lines ----------

  function OnLine(c: Context, n: nat): Context {
    Context(c.open, false, false, true, if n == 0 then NEWLINE else SPACE)
  }

  lemma {:induction false} SpacesFront(n: nat)
    requires n > 0
    ensures Spaces(n) == [SPACE] + Spaces(n - 1)
  {
    if n > 1 {
      SpacesFront(n - 1);
    }
  }

  lemma {:induction false} BlanksOfSpaces(n: nat, text: Bytes)
    requires text != [] && text[0] != SPACE
    ensures Blanks(Spaces(n) + text) == n && (Spaces(n) + text)[n] == text[0]
  {
    if n > 0 {
      SpacesFront(n);
      assert (Spaces(n) + text)[1..] == Spaces(n - 1) + text;
      BlanksOfSpaces(n - 1, text);
    } else {
      assert Spaces(0) + text == text;
    }
  }

  lemma BlankFits(c: Context, text: Bytes)
    requires Ready(c) && (c.atStart || c.prev != SPACE)
    ensures Fits(c, [SPACE] + text) && Next(c, [SPACE] + text) == c.(prev := SPACE)
  {
  }

  lemma {:induction false} SpacesLaidOut(c: Context, n: nat, text: Bytes)
    requires Ready(c) && c.atStart && (n == 0 ==> LaidOut(c, text)) && (n > 0 ==> LaidOut(c.(prev := SPACE), text))
    ensures LaidOut(c, Spaces(n) + text)
    ensures Over(c, Spaces(n) + text) == Over(if n == 0 then c else c.(prev := SPACE), text)
    decreases n
  {
    hide LaidOut, Over, Fits, Next;
    if n == 0 {
      assert Spaces(0) + text == text;
    } else {
      SpacesFront(n);
      assert Spaces(n) + text == [SPACE] + (Spaces(n - 1) + text);
      SpacesLaidOut(c.(prev := SPACE), n - 1, text);
      BlankFits(c, Spaces(n - 1) + text);
      LaidOutStep(c, SPACE, Spaces(n - 1) + text);
    }
  }

  lemma LineEndFits(c: Context, rest: Bytes)
    requires Ready(c) && Broken(c) && LineStarts(rest, |c.open|)
    ensures Fits(c, [NEWLINE] + rest) && Next(c, [NEWLINE] + rest) == OnLine(c, 0)
  {
    hide LineStarts;
    assert ([NEWLINE] + rest)[1..] == rest;
  }

  lemma NewLineLaidOut(c: Context, n: nat, text: Bytes)
    requires Ready(c) && Broken(c) && text != [] && text[0] != SPACE && text[0] != NEWLINE
    requires n == 3 * (|c.open| - if Closing(text[0]) then 1 else 0)
    requires LaidOut(OnLine(c, n), text)
    ensures LaidOut(c, NewLine(n) + text) && Over(c, NewLine(n) + text) == Over(OnLine(c, n), text)
  {
    hide LaidOut, Over, Fits, Next, Spaces, Blanks;
    var rest := Spaces(n) + text;
    assert NewLine(n) + text == [NEWLINE] + rest;
    BlanksOfSpaces(n, text);
    LineEndFits(c, rest);
    SpacesLaidOut(OnLine(c, 0), n, text);
    LaidOutStep(c, NEWLINE, rest);
  }

  // ---------- values without line ends ----------

  /** Bytes that neither the layout nor the scan takes notice of. */
  predicate Neutral(b: Byte) {
    b !in {NEWLINE, QUOTE, COMMA, COLON, SPACE} && !Opening(b) && !Closing(b)
  }

  lemma {:induction false} NeutralLaidOut(c: Context, text: Bytes)
    requires Ready(c) && text != [] && forall i :: 0 <= i < |text| ==> Neutral(text[i])
    ensures LaidOut(c, text) && Over(c, text) == Behind(c, text[|text| - 1])
    decreases |text|
  {
    assert Neutral(text[0]);
    if |text| > 1 {
      NeutralLaidOut(Next(c, text), text[1..]);
    } else {
      assert text[1..] == [];
    }
  }

  lemma {:induction false} EscapedHasNoLineEnd(s: Bytes)
    ensures NEWLINE !in EscapeAll(s)
  {
    if s != [] {
      EscapedHasNoLineEnd(s[1..]);
      assert NEWLINE !in EscapeChar(s[0]);
    }
  }

  lemma {:induction false} InStringLaidOut(c: Context, s: Bytes)
    requires c.inString && !c.escaped && WellEscaped(s) && NEWLINE !in s
    ensures LaidOut(c, s) && Over(c, s).open == c.open && Over(c, s).inString && !Over(c, s).escaped
    decreases |s|
  {
    if s != [] {
      var d := Next(c, s);
      if s[0] == BACKSLASH {
        var t := s[1..];
        assert t[1..] == s[2..];
        InStringLaidOut(Next(d, t), s[2..]);
      } else {
        InStringLaidOut(d, s[1..]);
      }
    }
  }

  lemma QuotedLaidOut(c: Context, s: Bytes)
    requires Ready(c)
    ensures LaidOut(c, Quoted(s)) && Over(c, Quoted(s)) == Behind(c, QUOTE)
  {
    hide EscapeAll, LaidOut, Over;
    var inner := EscapeAll(s) + [QUOTE];
    assert Quoted(s) == [QUOTE] + inner;
    var d := Next(c, [QUOTE] + inner);
    EscapedIsWellEscaped(s);
    EscapedHasNoLineEnd(s);
    InStringLaidOut(d, EscapeAll(s));
    QuoteCloses(Over(d, EscapeAll(s)));
    LaidOutAppend(d, EscapeAll(s), [QUOTE]);
    LaidOutStep(c, QUOTE, inner);
  }

  lemma QuoteCloses(c: Context)
    requires c.inString && !c.escaped
    ensures LaidOut(c, [QUOTE]) && Over(c, [QUOTE]) == Behind(c, QUOTE)
  {
    assert [QUOTE][1..] == [];
  }

  lemma EmptyLaidOut(c: Context, open: Byte, close: Byte)
    requires Ready(c)
    requires (open == LEFT_BRACE && close == RIGHT_BRACE) || (open == LEFT_BRACKET && close == RIGHT_BRACKET)
    ensures LaidOut(c, [open, close]) && Over(c, [open, close]) == Behind(c, close)
  {
    var text := [open, close];
    var d := Next(c, text);
    assert text[1..] == [close] && [close][1..] == [];
    assert d.open[..|d.open| - 1] == c.open;
    assert Over(d, [close]) == Over(Behind(c, close), []);
  }

  /** How the text of a value may start. */
  predicate StartsValue(text: Bytes) {
    text != [] && text[0] !in {SPACE, NEWLINE} && !Closing(text[0])
  }

  lemma NumberIsNeutral(text: Bytes)
    requires IsNumberText(text)
    ensures StartsValue(text) && forall i :: 0 <= i < |text| ==> Neutral(text[i])
  {
  }

  lemma ScalarLaidOut(c: Context, v: Value, lib: Reals)
    requires IsScalar(v) && Writable(v, lib) && Ready(c)
    ensures var text := ScalarText(v, lib);
      StartsValue(text) && LaidOut(c, text) && Over(c, text) == Behind(c, text[|text| - 1])
  {
    hide LaidOut, Over, Digits, IsNumberText, EscapeAll;
    var text := ScalarText(v, lib);
    if v.Str? {
      QuotedLaidOut(c, v.str_.value);
    } else {
      match v {
        case Int(i) => IntTextIsNumber(i); NumberIsNeutral(text);
        case UInt(u) => DigitsAreNumberText(u); NumberIsNeutral(text);
        case Real(r) => NumberIsNeutral(text);
        case _ =>
      }
      NeutralLaidOut(c, text);
    }
  }

  lemma LeafLaidOut(c: Context, v: Value, lib: Reals)
    requires Writable(v, lib) && Ready(c)
    ensures var text := LeafText(v, lib);
      StartsValue(text) && LaidOut(c, text) && Over(c, text) == Behind(c, text[|text| - 1])
  {
    hide LaidOut, Over, ScalarText;
    if v.Array? {
      EmptyLaidOut(c, LEFT_BRACKET, RIGHT_BRACKET);
    } else if v.Object? {
      EmptyLaidOut(c, LEFT_BRACE, RIGHT_BRACE);
    } else {
      ScalarLaidOut(c, v, lib);
    }
  }

  // ---------- all values ----------

  /** What a closing bracket leaves. */
  function Closed(c: Context, b: Byte): Context
    requires c.open != []
  {
    Context(c.open[..|c.open| - 1], false, false, false, b)
  }

  lemma BracketCloses(c: Context, n: nat, b: Byte)
    requires Ready(c) && Broken(c) && Closing(b) && n == 3 * (|c.open| - 1)
    ensures LaidOut(c, NewLine(n) + [b]) && Over(c, NewLine(n) + [b]) == Closed(c, b)
  {
    assert [b][1..] == [];
    assert LaidOut(OnLine(c, n), [b]) && Over(OnLine(c, n), [b]) == Closed(c, b);
    hide LaidOut, Over;
    NewLineLaidOut(c, n, [b]);
  }

  lemma {:induction false} StyledLaidOut(c: Context, v: Value, indent: nat, lib: Reals)
    requires Writable(v, lib) && Ready(c) && indent == 3 * |c.open|
    ensures var text := StyledText(v, indent, lib);
      StartsValue(text) && LaidOut(c, text) && Over(c, text) == Behind(c, text[|text| - 1])
    decreases Weight(v), 0
  {
    hide LaidOut, Over, LeafText, ElementLines, ElementsInLine, MemberLines, IsMultiLine;
    var text := StyledText(v, indent, lib);
    if !IsNested(v) {
      LeafLaidOut(c, v, lib);
    } else if v.Object? {
      MemberLinesStart(v.map_, indent, lib);
      var inner := MemberLines(v.map_, indent, lib);
      var d := Next(c, [LEFT_BRACE] + inner);
      assert d == Context(c.open + [true], false, false, false, LEFT_BRACE);
      MemberLinesLaidOut(d, v.map_, indent, lib);
      LaidOutStep(c, LEFT_BRACE, inner);
      assert d.open[..|d.open| - 1] == c.open;
    } else if IsMultiLine(v.map_, lib) {
      ElementLinesStart(v.map_, 0, indent, lib);
      var inner := ElementLines(v.map_, 0, indent, lib);
      var d := Next(c, [LEFT_BRACKET] + inner);
      assert d == Context(c.open + [true], false, false, false, LEFT_BRACKET);
      ElementLinesLaidOut(d, v.map_, 0, indent, lib);
      LaidOutStep(c, LEFT_BRACKET, inner);
      assert d.open[..|d.open| - 1] == c.open;
    } else {
      OneLineLaidOut(c, v.map_, lib);
    }
  }

  lemma MemberLinesStart(m: seq<Entry>, indent: nat, lib: Reals)
    requires m != []
    ensures MemberLines(m, indent, lib) != [] && MemberLines(m, indent, lib)[0] == NEWLINE
    ensures MemberLines(m, indent, lib)[|MemberLines(m, indent, lib)| - 1] == RIGHT_BRACE
    decreases |m|
  {
    hide StyledText;
    if |m| > 1 {
      MemberLinesStart(m[1..], indent, lib);
    }
  }

  lemma ElementLinesStart(m: seq<Entry>, i: nat, indent: nat, lib: Reals)
    requires i < ArraySize(m)
    ensures ElementLines(m, i, indent, lib) != [] && ElementLines(m, i, indent, lib)[0] == NEWLINE
    ensures ElementLines(m, i, indent, lib)[|ElementLines(m, i, indent, lib)| - 1] == RIGHT_BRACKET
    decreases ArraySize(m) - i
  {
    hide StyledText;
    if i + 1 < ArraySize(m) {
      ElementLinesStart(m, i + 1, indent, lib);
    }
  }

  lemma {:induction false} ElementLinesLaidOut(c: Context, m: seq<Entry>, i: nat, indent: nat, lib: Reals)
    requires ValidMap(m, false) && PrintableMap(m, lib) && i < ArraySize(m)
    requires Ready(c) && Broken(c) && indent + 3 == 3 * |c.open|
    ensures LaidOut(c, ElementLines(m, i, indent, lib))
    ensures Over(c, ElementLines(m, i, indent, lib)) == Closed(c, RIGHT_BRACKET)
    decreases MapWeight(m), ArraySize(m) - i
  {
    hide LaidOut, Over, StyledText, NewLine;
    var n := indent + INDENT_SIZE;
    var text := StyledText(ElementAt(m, i), n, lib);
    var after := AfterElementLine(m, i + 1, indent, lib);
    var line := OnLine(c, n);
    ElementIsWritable(m, i, lib);
    StyledLaidOut(line, ElementAt(m, i), n, lib);
    var d := Behind(line, text[|text| - 1]);
    if i + 1 == ArraySize(m) {
      BracketCloses(d, indent, RIGHT_BRACKET);
    } else {
      var more := ElementLines(m, i + 1, indent, lib);
      ElementLinesStart(m, i + 1, indent, lib);
      ElementLinesLaidOut(Behind(d, COMMA), m, i + 1, indent, lib);
      LaidOutStep(d, COMMA, more);
    }
    LaidOutAppend(line, text, after);
    NewLineLaidOut(c, n, text + after);
  }

  lemma {:induction false} MemberLinesLaidOut(c: Context, m: seq<Entry>, indent: nat, lib: Reals)
    requires m != [] && ValidMap(m, true) && PrintableMap(m, lib)
    requires Ready(c) && Broken(c) && indent + 3 == 3 * |c.open|
    ensures LaidOut(c, MemberLines(m, indent, lib))
    ensures Over(c, MemberLines(m, indent, lib)) == Closed(c, RIGHT_BRACE)
    decreases MapWeight(m), 1
  {
    hide LaidOut, Over, StyledText, NewLine, Quoted;
    var n := indent + INDENT_SIZE;
    var name := Quoted(NameOf(m[0].key));
    var text := StyledText(m[0].value, n, lib);
    var after := AfterMemberLine(m[1..], indent, lib);
    var value := [SPACE] + ([COLON] + ([SPACE] + (text + after)));
    var line := OnLine(c, n);
    QuotedLaidOut(line, NameOf(m[0].key));
    QuotedStarts(NameOf(m[0].key));
    AfterMemberLaidOut(Behind(line, QUOTE), m, indent, lib);
    LaidOutAppend(line, name, value);
    NewLineLaidOut(c, n, name + value);
  }

  lemma QuotedStarts(s: Bytes)
    ensures Quoted(s) != [] && Quoted(s)[0] == QUOTE
  {
  }

  /** From the colon of the first member on. */
  lemma {:induction false} AfterMemberLaidOut(c: Context, m: seq<Entry>, indent: nat, lib: Reals)
    requires m != [] && ValidMap(m, true) && PrintableMap(m, lib)
    requires Ready(c) && Broken(c) && indent + 3 == 3 * |c.open| && !c.atStart && c.prev == QUOTE
    ensures var text := StyledText(m[0].value, indent + INDENT_SIZE, lib);
      var value := [SPACE] + ([COLON] + ([SPACE] + (text + AfterMemberLine(m[1..], indent, lib))));
      LaidOut(c, value) && Over(c, value) == Closed(c, RIGHT_BRACE)
    decreases MapWeight(m), 0
  {
    hide LaidOut, Over, StyledText, NewLine;
    var n := indent + INDENT_SIZE;
    var text := StyledText(m[0].value, n, lib);
    var after := AfterMemberLine(m[1..], indent, lib);
    var d := Behind(c, SPACE);
    StyledLaidOut(d, m[0].value, n, lib);
    var e := Behind(d, text[|text| - 1]);
    if |m| == 1 {
      BracketCloses(e, indent, RIGHT_BRACE);
    } else {
      MemberLinesStart(m[1..], indent, lib);
      MemberLinesLaidOut(Behind(e, COMMA), m[1..], indent, lib);
      LaidOutStep(e, COMMA, MemberLines(m[1..], indent, lib));
    }
    LaidOutAppend(d, text, after);
    LaidOutStep(Behind(c, COLON), SPACE, text + after);
    LaidOutStep(d, COLON, [SPACE] + (text + after));
    LaidOutStep(c, SPACE, [COLON] + ([SPACE] + (text + after)));
  }

  // ---------- arrays on one line ----------

  lemma OneLineLaidOut(c: Context, m: seq<Entry>, lib: Reals)
    requires ValidMap(m, false) && PrintableMap(m, lib) && ArraySize(m) > 0 && Ready(c)
    ensures var text := [LEFT_BRACKET, SPACE] + ElementsInLine(m, 0, lib);
      StartsValue(text) && LaidOut(c, text) && Over(c, text) == Behind(c, text[|text| - 1])
  {
    hide LaidOut, Over, ElementsInLine, Fits, Next;
    var inner := ElementsInLine(m, 0, lib);
    var d := Context(c.open + [false], false, false, false, SPACE);
    ElementsInLineLaidOut(d, m, 0, lib);
    var e := d.(prev := LEFT_BRACKET);
    BlankFits(e, inner);
    LaidOutStep(e, SPACE, inner);
    assert [LEFT_BRACKET, SPACE] + inner == [LEFT_BRACKET] + ([SPACE] + inner);
    OpensOneLine(c, inner);
    LaidOutStep(c, LEFT_BRACKET, [SPACE] + inner);
    assert d.open[..|d.open| - 1] == c.open;
    ElementsInLineEnd(m, 0, lib);
  }

  lemma OpensOneLine(c: Context, inner: Bytes)
    requires Ready(c)
    ensures Fits(c, [LEFT_BRACKET] + ([SPACE] + inner))
    ensures Next(c, [LEFT_BRACKET] + ([SPACE] + inner)) ==
            Context(c.open + [false], false, false, false, LEFT_BRACKET)
  {
  }

  lemma ElementsInLineEnd(m: seq<Entry>, i: nat, lib: Reals)
    requires i < ArraySize(m)
    ensures ElementsInLine(m, i, lib) != []
    ensures ElementsInLine(m, i, lib)[|ElementsInLine(m, i, lib)| - 1] == RIGHT_BRACKET
    decreases ArraySize(m) - i
  {
    hide LeafText;
    if i + 1 < ArraySize(m) {
      ElementsInLineEnd(m, i + 1, lib);
    }
  }

  lemma {:induction false} ElementsInLineLaidOut(c: Context, m: seq<Entry>, i: nat, lib: Reals)
    requires ValidMap(m, false) && PrintableMap(m, lib) && i < ArraySize(m)
    requires Ready(c) && c.open != [] && !Broken(c)
    ensures LaidOut(c, ElementsInLine(m, i, lib))
    ensures Over(c, ElementsInLine(m, i, lib)) == Closed(c, RIGHT_BRACKET)
    decreases ArraySize(m) - i
  {
    hide LaidOut, Over, LeafText;
    var text := LeafText(ElementAt(m, i), lib);
    var after := AfterElementInLine(m, i + 1, lib);
    ElementIsWritable(m, i, lib);
    LeafLaidOut(c, ElementAt(m, i), lib);
    var d := Behind(c, text[|text| - 1]);
    LeafEndsNoBlank(ElementAt(m, i), lib);
    if i + 1 == ArraySize(m) {
      BlankCloses(d);
    } else {
      var more := ElementsInLine(m, i + 1, lib);
      ElementsInLineLaidOut(Behind(d, SPACE), m, i + 1, lib);
      LaidOutStep(Behind(d, COMMA), SPACE, more);
      LaidOutStep(d, COMMA, [SPACE] + more);
      assert [COMMA, SPACE] + more == [COMMA] + ([SPACE] + more);
    }
    LaidOutAppend(c, text, after);
  }

  lemma BlankCloses(c: Context)
    requires Ready(c) && c.open != [] && !Broken(c) && !c.atStart && c.prev != SPACE
    ensures LaidOut(c, [SPACE, RIGHT_BRACKET]) && Over(c, [SPACE, RIGHT_BRACKET]) == Closed(c, RIGHT_BRACKET)
  {
    assert [SPACE, RIGHT_BRACKET][1..] == [RIGHT_BRACKET] && [RIGHT_BRACKET][1..] == [];
    assert Over(Behind(c, SPACE), [RIGHT_BRACKET]) == Over(Closed(c, RIGHT_BRACKET), []);
  }

  lemma LeafEndsNoBlank(v: Value, lib: Reals)
    requires Writable(v, lib)
    ensures LeafText(v, lib) != [] && LeafText(v, lib)[|LeafText(v, lib)| - 1] != SPACE
  {
    hide Digits, EscapeAll, IsNumberText;
    match v
    case Int(i) => IntTextIsNumber(i); NumberIsNeutral(IntText(i));
    case UInt(u) => DigitsAreNumberText(u); NumberIsNeutral(Digits(u));
    case Real(r) => NumberIsNeutral(lib.print_(r));
    case _ =>
  }

  // ---------- the results ----------

  /** The context before byte i. */
  function ContextAt(c: Context, text: Bytes, i: nat): Context
    requires i <= |text|
    decreases i
  {
    if i == 0 then c else ContextAt(Next(c, text), text[1..], i - 1)
  }

  lemma {:induction false} FitsAt(c: Context, text: Bytes, i: nat)
    requires LaidOut(c, text) && i < |text|
    ensures Fits(ContextAt(c, text, i), text[i..])
    decreases |text|
  {
    hide Fits, Next;
    if i > 0 {
      FitsAt(Next(c, text), text[1..], i - 1);
      assert text[1..][i - 1..] == text[i..];
    }
  }

  /** The indented text of any value fits at every byte, and leaves no bracket open. */
  lemma StyledFitsEverywhere(v: Value, lib: Reals, i: nat)
    requires Writable(v, lib) && i < |StyledText(v, 0, lib)|
    ensures var text := StyledText(v, 0, lib);
      Fits(ContextAt(START, text, i), text[i..]) && Over(START, text).open == []
  {
    hide Fits, StyledText, LaidOut, Over;
    StyledLaidOut(START, v, 0, lib);
    FitsAt(START, StyledText(v, 0, lib), i);
  }

  /** Every line end is followed by exactly three blanks for each bracket open before the next token. */
  lemma LinesAreIndented(v: Value, lib: Reals, i: nat)
    requires Writable(v, lib) && i < |StyledText(v, 0, lib)| && StyledText(v, 0, lib)[i] == NEWLINE
    ensures var text := StyledText(v, 0, lib);
      var depth, k := |ContextAt(START, text, i).open|, Blanks(text[i + 1..]);
      && i + 1 + k < |text| && text[i + 1 + k] != NEWLINE
      && k == 3 * (depth - if Closing(text[i + 1 + k]) then 1 else 0)
  {
    hide StyledText, Blanks;
    StyledFitsEverywhere(v, lib, i);
    var text := StyledText(v, 0, lib);
    assert text[i..][1..] == text[i + 1..];
    assert text[i + 1..][Blanks(text[i + 1..])] == text[i + 1 + Blanks(text[i + 1..])];
  }

  /** An array that is not broken into lines takes fewer bytes than the margin; it is broken exactly when it has 25
      elements or more, or a container that is not empty, or would reach the margin on one line. */
  lemma ArrayBreaksExactly(m: seq<Entry>, indent: nat, lib: Reals)
    requires ArraySize(m) > 0
    ensures |StyledText(Array(m), indent, lib)| > 1
    ensures StyledText(Array(m), indent, lib)[1] == NEWLINE <==>
            || ArraySize(m) >= 25
            || (exists i :: 0 <= i < ArraySize(m) && IsNested(ElementAt(m, i)))
            || |[LEFT_BRACKET, SPACE] + ElementsInLine(m, 0, lib)| >= 74
    ensures StyledText(Array(m), indent, lib)[1] != NEWLINE ==> |StyledText(Array(m), indent, lib)| < 74
  {
    hide LeafText, IsNested, ElementsInLine, ElementLines, ElementAt;
    OneLineLength(m, 0, lib);
    ElementLinesStart(m, 0, indent, lib);
    assert IsNested(Array(m)) by { ArrayIsNested(m); }
  }

  lemma ArrayIsNested(m: seq<Entry>)
    requires ArraySize(m) > 0
    ensures IsNested(Array(m))
  {
  }

  lemma {:induction false} OneLineLength(m: seq<Entry>, i: nat, lib: Reals)
    requires i < ArraySize(m)
    ensures |ElementsInLine(m, i, lib)| + LeafLength(m, i, lib)
         == 2 + 2 * (ArraySize(m) - 1 - i) + LeafLength(m, ArraySize(m), lib)
    decreases ArraySize(m) - i
  {
    hide LeafText, ElementAt;
    if i + 1 < ArraySize(m) {
      OneLineLength(m, i + 1, lib);
    }
  }

  // ---------- the compact form ----------

  /** The texts of the tokens, one after the other, with a blank behind each colon if wanted. */
  function Spelled(toks: seq<Token>, yaml: bool): Bytes {
    if toks == [] then []
    else
      toks[0].text + (if yaml && toks[0].kind == MemberSeparator then [SPACE] else []) + Spelled(toks[1..], yaml)
  }

  lemma {:induction false} SpelledAppend(a: seq<Token>, b: seq<Token>, yaml: bool)
    ensures Spelled(a + b, yaml) == Spelled(a, yaml) + Spelled(b, yaml)
  {
    if a == [] {
      assert a + b == b;
    } else {
      assert (a + b)[1..] == a[1..] + b;
      SpelledAppend(a[1..], b, yaml);
    }
  }

  lemma SpelledFront(t: Token, toks: seq<Token>, yaml: bool)
    requires t.kind != MemberSeparator
    ensures Spelled([t] + toks, yaml) == t.text + Spelled(toks, yaml)
  {
    assert ([t] + toks)[1..] == toks;
  }

  lemma SpelledColon(toks: seq<Token>, yaml: bool)
    ensures Spelled([Mark(COLON)] + toks, yaml) == [COLON] + ((if yaml then [SPACE] else []) + Spelled(toks, yaml))
  {
    assert ([Mark(COLON)] + toks)[1..] == toks;
  }

  lemma SpelledOne(t: Token, yaml: bool)
    requires t.kind != MemberSeparator
    ensures Spelled([t], yaml) == t.text
  {
    assert [t][1..] == [];
    assert Spelled([], yaml) == [];
  }

  /** The compact text is the texts of the tokens and nothing else, but for the blanks of the YAML form. */
  lemma {:induction false} CompactIsSpelled(v: Value, lib: Reals, yaml: bool)
    ensures FastText(v, lib, yaml) == Spelled(TokensOf(v, lib), yaml)
    decreases Weight(v), 0
  {
    hide Spelled;
    if IsScalar(v) {
      SpelledOne(Token(ScalarKind(v), ScalarText(v, lib)), yaml);
    } else if v.Array? {
      if ArraySize(v.map_) == 0 {
        SpelledOne(Mark(RIGHT_BRACKET), yaml);
        SpelledFront(Mark(LEFT_BRACKET), [Mark(RIGHT_BRACKET)], yaml);
        assert [Mark(LEFT_BRACKET)] + [Mark(RIGHT_BRACKET)] == [Mark(LEFT_BRACKET), Mark(RIGHT_BRACKET)];
      } else {
        CompactElements(v.map_, 0, lib, yaml);
        SpelledFront(Mark(LEFT_BRACKET), ElementTokens(v.map_, 0, lib), yaml);
      }
    } else if v.map_ == [] {
      SpelledOne(Mark(RIGHT_BRACE), yaml);
      SpelledFront(Mark(LEFT_BRACE), [Mark(RIGHT_BRACE)], yaml);
      assert [Mark(LEFT_BRACE)] + [Mark(RIGHT_BRACE)] == [Mark(LEFT_BRACE), Mark(RIGHT_BRACE)];
    } else {
      CompactMembers(v.map_, lib, yaml);
      SpelledFront(Mark(LEFT_BRACE), MemberTokens(v.map_, lib), yaml);
    }
  }

  lemma {:induction false} CompactElements(m: seq<Entry>, i: nat, lib: Reals, yaml: bool)
    requires i < ArraySize(m)
    ensures FastElements(m, i, lib, yaml) == Spelled(ElementTokens(m, i, lib), yaml)
    decreases MapWeight(m), ArraySize(m) - i
  {
    hide Spelled, TokensOf, FastText;
    var more := if i + 1 == ArraySize(m) then [Mark(RIGHT_BRACKET)] else [Mark(COMMA)] + ElementTokens(m, i + 1, lib);
    CompactIsSpelled(ElementAt(m, i), lib, yaml);
    SpelledAppend(TokensOf(ElementAt(m, i), lib), more, yaml);
    if i + 1 == ArraySize(m) {
      SpelledOne(Mark(RIGHT_BRACKET), yaml);
    } else {
      CompactElements(m, i + 1, lib, yaml);
      SpelledFront(Mark(COMMA), ElementTokens(m, i + 1, lib), yaml);
    }
  }

  lemma {:induction false} CompactMembers(m: seq<Entry>, lib: Reals, yaml: bool)
    requires m != []
    ensures FastMembers(m, lib, yaml) == Spelled(MemberTokens(m, lib), yaml)
    decreases MapWeight(m), 1
  {
    hide Spelled, TokensOf, FastText, Quoted, FastAfterMember;
    var more := if |m| == 1 then [Mark(RIGHT_BRACE)] else [Mark(COMMA)] + MemberTokens(m[1..], lib);
    var value := TokensOf(m[0].value, lib) + more;
    CompactIsSpelled(m[0].value, lib, yaml);
    SpelledAppend(TokensOf(m[0].value, lib), more, yaml);
    CompactAfterMember(m, lib, yaml);
    SpelledColon(value, yaml);
    SpelledFront(Token(StringToken, Quoted(NameOf(m[0].key))), [Mark(COLON)] + value, yaml);
  }

  lemma {:induction false} CompactAfterMember(m: seq<Entry>, lib: Reals, yaml: bool)
    requires m != []
    ensures FastAfterMember(m[1..], lib, yaml) ==
            Spelled(if |m| == 1 then [Mark(RIGHT_BRACE)] else [Mark(COMMA)] + MemberTokens(m[1..], lib), yaml)
    decreases MapWeight(m), 0
  {
    hide Spelled, FastMembers, MemberTokens;
    if |m| == 1 {
      SpelledOne(Mark(RIGHT_BRACE), yaml);
    } else {
      CompactMembers(m[1..], lib, yaml);
      SpelledFront(Mark(COMMA), MemberTokens(m[1..], lib), yaml);
    }
  }
}
