/**
 What the parser makes of objects and arrays in general: members in any order and with repeated names, any separators
 between the elements of an array, and the malformed members it reports.
 */
module JsonDocuments {
  import opened ByteText
  import opened JsonValue
  import opened JsonString
  import opened JsonNumber
  import opened JsonToken
  import opened JsonParse
  import opened JsonPrint
  import opened JsonRoundTrip

  // ---------- objects ----------

  /** A member: the text of its name token and the tokens of its value, with what they stand for. */
  datatype Member = Member(text: Bytes, tokens: seq<Token>, name: Bytes, value: Value)

  /** The name is what the token decodes to, and the value what its tokens yield in front of anything. */
  ghost predicate Reads(x: Member, cfg: Config) {
    && DecodeString(x.text).Decoded? && DecodeString(x.text).text == x.name
    && forall rest :: Yields(x.tokens + rest, x.value, rest, cfg)
  }

  ghost predicate AllRead(ms: seq<Member>, cfg: Config) {
    forall i :: 0 <= i < |ms| ==> Reads(ms[i], cfg)
  }

  /** The key of a member is its name up to a zero byte. */
  function KeyOf(x: Member): Key {
    Name(CString(x.name))
  }

  /** A member and the mark behind it. */
  function MemberText(x: Member, mark: Byte, rest: seq<Token>): seq<Token>
    requires MarkKind(mark).Some?
  {
    [Token(StringToken, x.text)] + ([Mark(COLON)] + (x.tokens + ([Mark(mark)] + rest)))
  }

  /** Members with a comma behind each, and then more. */
  function Leading(ms: seq<Member>, more: seq<Token>): seq<Token> {
    if ms == [] then more else MemberText(ms[0], COMMA, Leading(ms[1..], more))
  }

  /** A whole object: the members, the last of them before the closing brace. */
  function ObjectTokens(ms: seq<Member>, rest: seq<Token>): seq<Token> {
    [Mark(LEFT_BRACE)] +
    if ms == [] then [Mark(RIGHT_BRACE)] + rest
    else Leading(ms[..|ms| - 1], MemberText(ms[|ms| - 1], RIGHT_BRACE, rest))
  }

  function PutAll(m: seq<Entry>, ms: seq<Member>): seq<Entry>
    decreases |ms|
  {
    if ms == [] then m else PutAll(Put(m, Entry(KeyOf(ms[0]), ms[0].value)), ms[1..])
  }

  function LastName(name: Bytes, ms: seq<Member>): Bytes {
    if ms == [] then name else ms[|ms| - 1].name
  }

  lemma MemberReads(x: Member, mark: Byte, rest: seq<Token>, name: Bytes, m: seq<Entry>, cfg: Config)
    requires Reads(x, cfg) && mark in {COMMA, RIGHT_BRACE}
    ensures var m' := Put(m, Entry(KeyOf(x), x.value));
      ReadMembers(MemberText(x, mark, rest), name, m, cfg) ==
      if mark == COMMA then ReadMembers(rest, x.name, m', cfg) else Parsed(true, Object(m'), rest, [])
  {
    hide DecodeString, ReadMember, Put, Yields;
    var ts := MemberText(x, mark, rest);
    var after := [Mark(mark)] + rest;
    assert SkipComments(ts) == ts;
    assert After(ts) == [Mark(COLON)] + (x.tokens + after);
    assert After(After(ts)) == x.tokens + after;
    assert Yields(x.tokens + after, x.value, after, cfg);
    MemberStep(x.tokens + after, x.name, m, x.value, after, cfg);
    assert after[1..] == rest;
  }

  /** Well-formed members are stored one after the other, whatever follows them. */
  lemma {:induction false} LeadingReads(ms: seq<Member>, more: seq<Token>, name: Bytes, m: seq<Entry>, cfg: Config)
    requires AllRead(ms, cfg)
    ensures ReadMembers(Leading(ms, more), name, m, cfg) == ReadMembers(more, LastName(name, ms), PutAll(m, ms), cfg)
    decreases |ms|
  {
    hide ReadMembers, Reads, MemberText, Put;
    if ms != [] {
      MemberReads(ms[0], COMMA, Leading(ms[1..], more), name, m, cfg);
      LeadingReads(ms[1..], more, ms[0].name, Put(m, Entry(KeyOf(ms[0]), ms[0].value)), cfg);
    }
  }

  lemma {:induction false} PutAllLast(m: seq<Entry>, ms: seq<Member>)
    requires ms != []
    ensures PutAll(m, ms) == Put(PutAll(m, ms[..|ms| - 1]), Entry(KeyOf(ms[|ms| - 1]), ms[|ms| - 1].value))
    decreases |ms|
  {
    hide Put;
    if |ms| > 1 {
      PutAllLast(Put(m, Entry(KeyOf(ms[0]), ms[0].value)), ms[1..]);
      assert ms[1..][..|ms| - 2] == ms[..|ms| - 1][1..];
    } else {
      assert ms[..0] == [] && ms[1..] == [];
    }
  }

  lemma ObjectReads(ms: seq<Member>, rest: seq<Token>, node: Value, cfg: Config)
    requires AllRead(ms, cfg)
    ensures ReadValue(ObjectTokens(ms, rest), node, cfg) == Parsed(true, Object(PutAll([], ms)), rest, [])
  {
    var ts := ObjectTokens(ms, rest);
    assert Significant(ts, cfg) == ts;
    if ms == [] {
      assert After(ts) == [Mark(RIGHT_BRACE)] + rest;
      assert SkipComments(After(ts)) == After(ts) && After(After(ts)) == rest;
    } else {
      hide ReadMembers, Reads, MemberText, Put, Leading, PutAll;
      var last := |ms| - 1;
      var front := ms[..last];
      var end := MemberText(ms[last], RIGHT_BRACE, rest);
      assert After(ts) == Leading(front, end);
      LeadingReads(front, end, [], [], cfg);
      MemberReads(ms[last], RIGHT_BRACE, rest, LastName([], front), PutAll([], front), cfg);
      PutAllLast([], ms);
    }
  }

  /** The value of the last member of a name. */
  ghost predicate IsLast(ms: seq<Member>, i: nat) {
    i < |ms| && forall j :: i < j < |ms| ==> KeyOf(ms[j]) != KeyOf(ms[i])
  }

  lemma {:induction false} LookupPutAll(m: seq<Entry>, ms: seq<Member>, key: Key)
    ensures (forall j :: 0 <= j < |ms| ==> KeyOf(ms[j]) != key) ==> Lookup(PutAll(m, ms), key) == Lookup(m, key)
    ensures forall i: nat :: IsLast(ms, i) && KeyOf(ms[i]) == key ==> Lookup(PutAll(m, ms), key) == Some(ms[i].value)
    decreases |ms|
  {
    hide Put, Lookup, KeyOf;
    if ms != [] {
      var m' := Put(m, Entry(KeyOf(ms[0]), ms[0].value));
      var rest := ms[1..];
      LookupPut(m, Entry(KeyOf(ms[0]), ms[0].value), key);
      LookupPutAll(m', rest, key);
      assert forall j :: 0 <= j < |rest| ==> rest[j] == ms[j + 1];
      forall i: nat | IsLast(ms, i) && KeyOf(ms[i]) == key ensures Lookup(PutAll(m, ms), key) == Some(ms[i].value) {
        if i > 0 {
          assert IsLast(rest, i - 1);
        } else {
          assert forall j :: 0 <= j < |rest| ==> KeyOf(rest[j]) != key;
        }
      }
    }
  }

  /**
   * Whatever the order of its members and however often a name occurs, an object is read without error, and has under
   * each name the value of the last member of that name, and no other name.
   */
  lemma ObjectHoldsLastValues(ms: seq<Member>, rest: seq<Token>, node: Value, cfg: Config, key: Key)
    requires AllRead(ms, cfg)
    ensures var p := ReadValue(ObjectTokens(ms, rest), node, cfg);
      && p.ok && p.errors == [] && p.rest == rest && p.value.Object?
      && (forall i: nat :: IsLast(ms, i) && KeyOf(ms[i]) == key ==> Lookup(p.value.map_, key) == Some(ms[i].value))
      && ((forall j :: 0 <= j < |ms| ==> KeyOf(ms[j]) != key) ==> Lookup(p.value.map_, key) == None)
  {
    hide ReadValue, ObjectTokens, PutAll, Reads;
    ObjectReads(ms, rest, node, cfg);
    LookupPutAll([], ms, key);
  }

  // ---------- one document ----------

  /** The token of a number of one digit. */
  lemma DigitYields(d: nat, rest: seq<Token>, cfg: Config)
    requires d < 10
    ensures Yields([Token(NumberToken, [ZERO + d])] + rest, Int(d), rest, cfg)
  {
    var lib := Reals(_ => [], cfg.scan);
    assert IntText(d) == [ZERO + d];
    ScalarYields(Int(d), rest, cfg, lib);
  }

  /** {"b":1,"a":2} holds both members, in the order of their names. */
  lemma UnsortedExample(text: Bytes, node: Value, cfg: Config)
    requires text == [0x7B, 0x22, 0x62, 0x22, 0x3A, 0x31, 0x2C, 0x22, 0x61, 0x22, 0x3A, 0x32, 0x7D]
    ensures ParseDocument(Tokenize(text), text, node, cfg) ==
            Parsed(true, Object([Entry(Name([LOWER_A]), Int(2)), Entry(Name([LOWER_B]), Int(1))]), [], [])
  {
    hide ReadValue, Tokenize, DecodeString, Yields, Put, ObjectTokens;
    var b := Member(Quoted([LOWER_B]), [Token(NumberToken, [0x31])], [LOWER_B], Int(1));
    var a := Member(Quoted([LOWER_A]), [Token(NumberToken, [0x32])], [LOWER_A], Int(2));
    QuotedDecodes([LOWER_B]);
    QuotedDecodes([LOWER_A]);
    forall rest ensures Yields(b.tokens + rest, b.value, rest, cfg) && Yields(a.tokens + rest, a.value, rest, cfg) {
      DigitYields(1, rest, cfg);
      DigitYields(2, rest, cfg);
    }
    ObjectReads([b, a], [], node, cfg);
    UnsortedTokens(text, b, a);
    UnsortedEntries(b, a);
  }

  lemma UnsortedEntries(b: Member, a: Member)
    requires b.name == [LOWER_B] && b.value == Int(1) && a.name == [LOWER_A] && a.value == Int(2)
    ensures PutAll([], [b, a]) == [Entry(Name([LOWER_A]), Int(2)), Entry(Name([LOWER_B]), Int(1))]
  {
    assert CString([LOWER_B]) == [LOWER_B] && CString([LOWER_A]) == [LOWER_A];
    assert [b, a][1..] == [a] && [a][1..] == [];
    var e, f := Entry(Name([LOWER_B]), Int(1)), Entry(Name([LOWER_A]), Int(2));
    assert Put([], e) == [e];
    assert StrLess([LOWER_A], [LOWER_B]);
    assert Put([e], f) == [f, e];
    assert PutAll([f, e], []) == [f, e];
  }

  lemma MemberTokenizes(x: Member, d: Byte, mark: Byte, s: Bytes)
    requires x.text == Quoted(x.name) && x.tokens == [Token(NumberToken, [d])] && IsDigit(d)
    requires mark in {COMMA, RIGHT_BRACE}
    ensures Tokenize(Quoted(x.name) + ([COLON] + ([d] + ([mark] + s)))) == MemberText(x, mark, Tokenize(s))
  {
    hide Tokenize, Quoted;
    MarkReads(mark, s);
    NumberReads([d], [mark] + s);
    MarkReads(COLON, [d] + ([mark] + s));
    QuotedReads(x.name, [COLON] + ([d] + ([mark] + s)));
  }

  lemma UnsortedTokens(text: Bytes, b: Member, a: Member)
    requires text == [0x7B, 0x22, 0x62, 0x22, 0x3A, 0x31, 0x2C, 0x22, 0x61, 0x22, 0x3A, 0x32, 0x7D]
    requires b.name == [LOWER_B] && b.text == Quoted(b.name) && b.tokens == [Token(NumberToken, [0x31])]
    requires a.name == [LOWER_A] && a.text == Quoted(a.name) && a.tokens == [Token(NumberToken, [0x32])]
    ensures Tokenize(text) == ObjectTokens([b, a], [])
  {
    hide Tokenize, Quoted, MemberText;
    var second := Quoted(a.name) + ([COLON] + ([0x32] + ([RIGHT_BRACE] + [])));
    var first := Quoted(b.name) + ([COLON] + ([0x31] + ([COMMA] + second)));
    UnsortedText(text);
    MemberTokenizes(a, 0x32, RIGHT_BRACE, []);
    MemberTokenizes(b, 0x31, COMMA, second);
    MarkReads(LEFT_BRACE, first);
    NothingToRead();
    LeadingOne(b, MemberText(a, RIGHT_BRACE, []));
    assert [b, a][..1] == [b];
  }

  lemma LeadingOne(x: Member, more: seq<Token>)
    ensures Leading([x], more) == MemberText(x, COMMA, more)
  {
    hide MemberText;
    assert [x][1..] == [];
    assert Leading([], more) == more;
  }

  lemma UnsortedText(text: Bytes)
    requires text == [0x7B, 0x22, 0x62, 0x22, 0x3A, 0x31, 0x2C, 0x22, 0x61, 0x22, 0x3A, 0x32, 0x7D]
    ensures var second := Quoted([LOWER_A]) + ([COLON] + ([0x32] + ([RIGHT_BRACE] + [])));
      [LEFT_BRACE] + (Quoted([LOWER_B]) + ([COLON] + ([0x31] + ([COMMA] + second)))) == text
  {
    NothingToEscape([LOWER_B]);
    NothingToEscape([LOWER_A]);
    hide EscapeAll;
    assert Quoted([LOWER_B]) == [QUOTE, LOWER_B, QUOTE] && Quoted([LOWER_A]) == [QUOTE, LOWER_A, QUOTE];
  }

  lemma NothingToRead()
    ensures Tokenize([]) == []
  {
  }

  // ---------- members that are reported ----------

  /** Recovery stops behind the first token of the wanted kind, or behind the end of the stream. */
  lemma {:induction false} RecoverStops(skipped: seq<Token>, t: Token, rest: seq<Token>, wanted: TokenType)
    requires forall i :: 0 <= i < |skipped| ==> skipped[i].kind != wanted && skipped[i].kind != EndOfStream
    requires t.kind == wanted || t.kind == EndOfStream
    ensures Recover(skipped + [t] + rest, wanted) == rest
  {
    var ts := skipped + [t] + rest;
    if skipped == [] {
      assert ts[1..] == rest;
    } else {
      assert ts[1..] == skipped[1..] + [t] + rest;
      RecoverStops(skipped[1..], t, rest, wanted);
    }
  }

  /** The object read so far and one error; reading goes on behind the next closing brace. */
  function Reported(ms: seq<Member>, t: Token, message: Message, rest: seq<Token>): Parsed {
    Parsed(false, Object(PutAll([], ms)), Recover(rest, ObjectEnd), [ErrorInfo(t, message)])
  }

  /** After well-formed members, a token that is neither a name nor a comment is an error; only a closing brace behind
      a comma passes, and that only if the name before the comma is empty. */
  lemma NameIsMissed(ms: seq<Member>, t: Token, rest: seq<Token>, node: Value, cfg: Config)
    requires AllRead(ms, cfg) && t.kind !in {StringToken, CommentToken}
    ensures ReadValue([Mark(LEFT_BRACE)] + Leading(ms, [t] + rest), node, cfg) ==
            if t.kind == ObjectEnd && LastName([], ms) == [] then Parsed(true, Object(PutAll([], ms)), rest, [])
            else Reported(ms, t, MissingBraceOrName, rest)
  {
    var more := [t] + rest;
    ObjectBegins(Leading(ms, more), node, cfg);
    LeadingReads(ms, more, [], [], cfg);
    assert SkipComments(more) == more && After(more) == rest;
  }

  lemma ObjectBegins(ts: seq<Token>, node: Value, cfg: Config)
    ensures ReadValue([Mark(LEFT_BRACE)] + ts, node, cfg) == ReadMembers(ts, [], [], cfg)
  {
    hide ReadMembers;
    var all := [Mark(LEFT_BRACE)] + ts;
    assert Significant(all, cfg) == all && After(all) == ts;
  }

  /** A name that no colon follows. */
  lemma ColonIsMissed(ms: seq<Member>, text: Bytes, t: Token, rest: seq<Token>, node: Value, cfg: Config)
    requires AllRead(ms, cfg) && DecodeString(text).Decoded? && t.kind != MemberSeparator
    ensures ReadValue([Mark(LEFT_BRACE)] + Leading(ms, [Token(StringToken, text), t] + rest), node, cfg) ==
            Reported(ms, t, MissingColon, rest)
  {
    hide DecodeString;
    var more := [Token(StringToken, text), t] + rest;
    ObjectBegins(Leading(ms, more), node, cfg);
    LeadingReads(ms, more, [], [], cfg);
    assert SkipComments(more) == more && After(more) == [t] + rest && After(After(more)) == rest;
  }

  lemma UnendedMember(x: Member, t: Token, rest: seq<Token>, name: Bytes, m: seq<Entry>, cfg: Config)
    requires Reads(x, cfg) && t.kind !in {ObjectEnd, ArraySeparator, CommentToken}
    ensures var last := [Token(StringToken, x.text)] + ([Mark(COLON)] + (x.tokens + ([t] + rest)));
      ReadMembers(last, name, m, cfg) == Parsed(false, Object(Put(m, Entry(KeyOf(x), x.value))), Recover(rest, ObjectEnd),
                                                [ErrorInfo(t, MissingCommaOrBrace)])
  {
    hide DecodeString, Put, ReadValue;
    var after := [t] + rest;
    var last := [Token(StringToken, x.text)] + ([Mark(COLON)] + (x.tokens + after));
    assert SkipComments(last) == last;
    assert After(last) == [Mark(COLON)] + (x.tokens + after) && After(After(last)) == x.tokens + after;
    assert ReadMembers(last, name, m, cfg) == ReadMember(x.tokens + after, x.name, m, cfg);
    assert Yields(x.tokens + after, x.value, after, cfg);
    assert After(after) == rest;
  }

  /** A member that neither a comma nor a closing brace follows is stored, and then reported. */
  lemma CommaIsMissed(ms: seq<Member>, x: Member, t: Token, rest: seq<Token>, node: Value, cfg: Config)
    requires AllRead(ms, cfg) && Reads(x, cfg) && t.kind !in {ObjectEnd, ArraySeparator, CommentToken}
    ensures var last := [Token(StringToken, x.text)] + ([Mark(COLON)] + (x.tokens + ([t] + rest)));
      ReadValue([Mark(LEFT_BRACE)] + Leading(ms, last), node, cfg) ==
      Reported(ms + [x], t, MissingCommaOrBrace, rest)
  {
    hide ReadMembers, ReadValue, Reads, Put, Leading, PutAll;
    var last := [Token(StringToken, x.text)] + ([Mark(COLON)] + (x.tokens + ([t] + rest)));
    ObjectBegins(Leading(ms, last), node, cfg);
    LeadingReads(ms, last, [], [], cfg);
    UnendedMember(x, t, rest, LastName([], ms), PutAll([], ms), cfg);
    assert (ms + [x])[..|ms|] == ms;
    PutAllLast([], ms + [x]);
  }

  // ---------- arrays ----------

  /** An element and the token behind it. */
  datatype Element = Element(tokens: seq<Token>, value: Value, separator: Token)

  ghost predicate ReadsElement(x: Element, cfg: Config) {
    && x.separator.kind !in {ArrayEnd, CommentToken}
    && forall rest :: Yields(x.tokens + rest, x.value, rest, cfg)
  }

  /** The elements with their separators, the closing bracket behind the last. */
  function ElementList(xs: seq<Element>, rest: seq<Token>): seq<Token>
    requires xs != []
  {
    xs[0].tokens + if |xs| == 1 then [Mark(RIGHT_BRACKET)] + rest else [xs[0].separator] + ElementList(xs[1..], rest)
  }

  function Entries(xs: seq<Element>, from: nat): seq<Entry> {
    if xs == [] then [] else [Entry(Index(from), xs[0].value)] + Entries(xs[1..], from + 1)
  }

  lemma {:induction false} ElementsRead(
    xs: seq<Element>, from: nat, m: seq<Entry>, rest: seq<Token>, cfg: Config)
    requires xs != [] && Below(m, Index(from)) && forall i :: 0 <= i < |xs| ==> ReadsElement(xs[i], cfg)
    ensures ReadElements(ElementList(xs, rest), from, m, cfg) ==
            Parsed(true, Array(m + Entries(xs, from)), rest, [])
    decreases |xs|
  {
    hide Yields, ReadElements, Put;
    var e := Entry(Index(from), xs[0].value);
    var after := if |xs| == 1 then [Mark(RIGHT_BRACKET)] + rest else [xs[0].separator] + ElementList(xs[1..], rest);
    assert ReadsElement(xs[0], cfg);
    assert Yields(xs[0].tokens + after, xs[0].value, after, cfg);
    PutLast(m, e);
    ElementStep(xs[0].tokens + after, from, m, xs[0].value, after, cfg);
    AppendAssociates(m, [e], Entries(xs[1..], from + 1));
    if |xs| == 1 {
      assert after[1..] == rest && m + [e] + [] == m + [e];
    } else {
      assert after[1..] == ElementList(xs[1..], rest);
      BelowNext(m, e, Index(from + 1));
      ElementsRead(xs[1..], from + 1, m + [e], rest, cfg);
    }
  }

  lemma BracketYieldsNothing(ts: seq<Token>, value: Value, rest: seq<Token>, cfg: Config)
    ensures Head(ts).kind == ArrayEnd ==> !Yields(ts, value, rest, cfg)
  {
    if Head(ts).kind == ArrayEnd {
      assert SkipComments(ts) == ts;
      assert !ReadValue(ts, Null, cfg).ok;
    }
  }

  lemma {:induction false} EntriesAt(xs: seq<Element>, from: nat, i: nat)
    requires i < |xs|
    ensures |Entries(xs, from)| == |xs| && Entries(xs, from)[i] == Entry(Index(from + i), xs[i].value)
  {
    if |xs| > 1 {
      EntriesAt(xs[1..], from + 1, if i == 0 then 0 else i - 1);
    }
  }

  lemma ArrayReads(xs: seq<Element>, rest: seq<Token>, node: Value, cfg: Config)
    requires xs != [] && forall i :: 0 <= i < |xs| ==> ReadsElement(xs[i], cfg)
    ensures ReadValue([Mark(LEFT_BRACKET)] + ElementList(xs, rest), node, cfg) ==
            Parsed(true, Array(Entries(xs, 0)), rest, [])
  {
    hide Yields, ReadElements;
    var inner := ElementList(xs, rest);
    var ts := [Mark(LEFT_BRACKET)] + inner;
    assert Significant(ts, cfg) == ts && After(ts) == inner;
    var after := if |xs| == 1 then [Mark(RIGHT_BRACKET)] + rest else [xs[0].separator] + ElementList(xs[1..], rest);
    assert ReadsElement(xs[0], cfg);
    assert Yields(xs[0].tokens + after, xs[0].value, after, cfg);
    BracketYieldsNothing(inner, xs[0].value, after, cfg);
    ElementsRead(xs, 0, [], rest, cfg);
    assert [] + Entries(xs, 0) == Entries(xs, 0);
  }

  /** An array holds its elements in order, whatever tokens stand between them: any but a closing bracket or a comment
      is taken for a comma. */
  lemma ArrayTakesAnySeparator(xs: seq<Element>, rest: seq<Token>, node: Value, cfg: Config, i: nat)
    requires i < |xs| && forall i :: 0 <= i < |xs| ==> ReadsElement(xs[i], cfg)
    ensures var p := ReadValue([Mark(LEFT_BRACKET)] + ElementList(xs, rest), node, cfg);
      && p.ok && p.errors == [] && p.rest == rest && p.value.Array?
      && |p.value.map_| == |xs| && p.value.map_[i] == Entry(Index(i), xs[i].value)
  {
    hide ReadValue, ReadsElement, ElementList, Entries;
    ArrayReads(xs, rest, node, cfg);
    EntriesAt(xs, 0, i);
  }

  // ---------- single tokens, comments and errors ----------

  /** The three words, byte by byte. */
  lemma WordsMean(node: Value, cfg: Config, rest: seq<Token>)
    ensures Tokenize([0x74, 0x72, 0x75, 0x65]) == [Token(TrueToken, [0x74, 0x72, 0x75, 0x65])]
    ensures Tokenize([0x66, 0x61, 0x6C, 0x73, 0x65]) == [Token(FalseToken, [0x66, 0x61, 0x6C, 0x73, 0x65])]
    ensures Tokenize([0x6E, 0x75, 0x6C, 0x6C]) == [Token(NullToken, [0x6E, 0x75, 0x6C, 0x6C])]
    ensures ReadValue([Token(TrueToken, TRUE_TEXT)] + rest, node, cfg) == Parsed(true, Bool(true), rest, [])
    ensures ReadValue([Token(FalseToken, FALSE_TEXT)] + rest, node, cfg) == Parsed(true, Bool(false), rest, [])
    ensures ReadValue([Token(NullToken, NULL_TEXT)] + rest, node, cfg) == Parsed(true, Null, rest, [])
  {
    hide Tokenize, ReadValue;
    WordAlone(TRUE_TEXT, TrueToken);
    WordAlone(FALSE_TEXT, FalseToken);
    WordAlone(NULL_TEXT, NullToken);
    WordValue(Token(TrueToken, TRUE_TEXT), rest, node, cfg);
    WordValue(Token(FalseToken, FALSE_TEXT), rest, node, cfg);
    WordValue(Token(NullToken, NULL_TEXT), rest, node, cfg);
  }

  lemma WordAlone(word: Bytes, kind: TokenType)
    requires (word == NULL_TEXT && kind == NullToken) || (word == TRUE_TEXT && kind == TrueToken) ||
             (word == FALSE_TEXT && kind == FalseToken)
    ensures Tokenize(word) == [Token(kind, word)]
  {
    hide Tokenize;
    WordReads(word, kind, []);
    NothingToRead();
    assert word + [] == word;
  }

  lemma WordValue(t: Token, rest: seq<Token>, node: Value, cfg: Config)
    requires t.kind in {TrueToken, FalseToken, NullToken}
    ensures ReadValue([t] + rest, node, cfg) ==
            Parsed(true, if t.kind == NullToken then Null else Bool(t.kind == TrueToken), rest, [])
  {
    hide ReadMembers, ReadElements;
    var ts := [t] + rest;
    assert Significant(ts, cfg) == ts && Head(ts) == t && After(ts) == rest;
  }

  /** A token that starts no value is reported, and the node keeps what it held; so is a comment, unless comments are
      allowed, and then it is passed over. */
  lemma ValueIsMissed(t: Token, rest: seq<Token>, node: Value, cfg: Config)
    ensures t.kind in {EndOfStream, ObjectEnd, ArrayEnd, ArraySeparator, MemberSeparator, ErrorToken} ==>
            ReadValue([t] + rest, node, cfg) == Parsed(false, node, rest, [ErrorInfo(t, ValueExpected)])
    ensures t.kind == CommentToken && !cfg.allowComments ==>
            ReadValue([t] + rest, node, cfg) == Parsed(false, node, rest, [ErrorInfo(t, ValueExpected)])
    ensures t.kind == CommentToken && cfg.allowComments ==>
            ReadValue([t] + rest, node, cfg) == ReadValue(rest, node, cfg)
  {
    assert ([t] + rest)[1..] == rest;
  }

  /** A string or a numeral that does not decode is reported, with its own message. */
  lemma BadScalarIsReported(t: Token, rest: seq<Token>, node: Value, cfg: Config)
    ensures t.kind == StringToken && DecodeString(t.text).Undecodable? ==>
            ReadValue([t] + rest, node, cfg) == Parsed(false, node, rest, [ErrorInfo(t, DecodeString(t.text).message)])
    ensures t.kind == NumberToken && DecodeNumber(t.text, cfg.scan).BadNumber? ==>
            ReadValue([t] + rest, node, cfg) ==
            Parsed(false, node, rest, [ErrorInfo(t, DecodeNumber(t.text, cfg.scan).message)])
  {
    hide DecodeString, DecodeNumber;
    assert ([t] + rest)[1..] == rest;
  }

  /** A member whose value fails is stored as far as it was read; the errors are those of the value, and reading goes on
      behind the next closing brace. */
  lemma BadMember(ms: seq<Member>, text: Bytes, name: Bytes, ts: seq<Token>, node: Value, cfg: Config)
    requires AllRead(ms, cfg) && DecodeString(text).Decoded? && DecodeString(text).text == name
    ensures var m, key := PutAll([], ms), Name(CString(name));
      var p := ReadValue(ts, Child(m, key), cfg);
      !p.ok ==>
        ReadValue([Mark(LEFT_BRACE)] + Leading(ms, [Token(StringToken, text), Mark(COLON)] + ts), node, cfg) ==
        Parsed(false, Object(Put(m, Entry(key, p.value))), Recover(p.rest, ObjectEnd), p.errors)
  {
    hide DecodeString, Put, ReadValue, Leading, PutAll, Recover, Child;
    var more := [Token(StringToken, text), Mark(COLON)] + ts;
    ObjectBegins(Leading(ms, more), node, cfg);
    LeadingReads(ms, more, [], [], cfg);
    assert SkipComments(more) == more && After(more) == [Mark(COLON)] + ts && After(After(more)) == ts;
    assert ReadMembers(more, LastName([], ms), PutAll([], ms), cfg) == ReadMember(ts, name, PutAll([], ms), cfg);
  }

  function LeadingElements(xs: seq<Element>, more: seq<Token>): seq<Token> {
    if xs == [] then more else xs[0].tokens + ([xs[0].separator] + LeadingElements(xs[1..], more))
  }

  lemma {:induction false} LeadingElementsRead(
    xs: seq<Element>, more: seq<Token>, from: nat, m: seq<Entry>, cfg: Config)
    requires Below(m, Index(from)) && forall i :: 0 <= i < |xs| ==> ReadsElement(xs[i], cfg)
    ensures ReadElements(LeadingElements(xs, more), from, m, cfg) ==
            ReadElements(more, from + |xs|, m + Entries(xs, from), cfg)
    decreases |xs|
  {
    hide Yields, ReadElements, Put;
    if xs == [] {
      assert m + [] == m;
    } else {
      var e := Entry(Index(from), xs[0].value);
      var after := [xs[0].separator] + LeadingElements(xs[1..], more);
      assert ReadsElement(xs[0], cfg);
      assert Yields(xs[0].tokens + after, xs[0].value, after, cfg);
      PutLast(m, e);
      ElementStep(xs[0].tokens + after, from, m, xs[0].value, after, cfg);
      AppendAssociates(m, [e], Entries(xs[1..], from + 1));
      assert after[1..] == LeadingElements(xs[1..], more);
      BelowNext(m, e, Index(from + 1));
      LeadingElementsRead(xs[1..], more, from + 1, m + [e], cfg);
    }
  }

  /** The same for an element, and the next closing bracket. */
  lemma BadElement(xs: seq<Element>, ts: seq<Token>, cfg: Config)
    requires forall i :: 0 <= i < |xs| ==> ReadsElement(xs[i], cfg)
    ensures var p := ReadValue(ts, Null, cfg);
      !p.ok ==>
        ReadElements(LeadingElements(xs, ts), 0, [], cfg) ==
        Parsed(false, Array(Put(Entries(xs, 0), Entry(Index(|xs|), p.value))), Recover(p.rest, ArrayEnd), p.errors)
  {
    hide ReadValue, Put, LeadingElements, Recover;
    LeadingElementsRead(xs, ts, 0, [], cfg);
    assert [] + Entries(xs, 0) == Entries(xs, 0);
  }

  /** What follows the value of a document is not looked at. */
  lemma TrailingIsIgnored(ts: seq<Token>, value: Value, rest: seq<Token>, text: Bytes, node: Value, cfg: Config)
    requires Yields(ts, value, rest, cfg)
    ensures var p := ParseDocument(ts, text, node, cfg);
      && p.value == value
      && p.ok == (cfg.strictRoot ==> IsContainer(value))
      && p.errors == if p.ok then [] else [ErrorInfo(Token(ErrorToken, text), RootMustBeContainer)]
  {
    hide ReadValue;
  }

  /** A name that does not decode. */
  lemma NameIsUndecodable(ms: seq<Member>, t: Token, rest: seq<Token>, node: Value, cfg: Config)
    requires AllRead(ms, cfg) && t.kind == StringToken
    ensures DecodeString(t.text).Undecodable? ==>
            ReadValue([Mark(LEFT_BRACE)] + Leading(ms, [t] + rest), node, cfg) ==
            Reported(ms, t, DecodeString(t.text).message, rest)
  {
    hide DecodeString, ReadValue;
    var more := [t] + rest;
    ObjectBegins(Leading(ms, more), node, cfg);
    LeadingReads(ms, more, [], [], cfg);
    assert SkipComments(more) == more && After(more) == rest;
  }

  /** A value that was not read is reported first, and then a root of the wrong kind, over the whole document. */
  lemma RootIsReportedLast(ts: seq<Token>, text: Bytes, node: Value, cfg: Config)
    ensures var p, q := ReadValue(ts, node, cfg), ParseDocument(ts, text, node, cfg);
      !p.ok ==> !q.ok && q.value == p.value && p.errors <= q.errors &&
                q.errors[|p.errors|..] ==
                if cfg.strictRoot && !p.value.Array? && !p.value.Object?
                then [ErrorInfo(Token(ErrorToken, text), RootMustBeContainer)] else []
  {
    hide ReadValue;
  }

  ghost predicate AllComments(ts: seq<Token>) {
    forall i :: 0 <= i < |ts| ==> ts[i].kind == CommentToken
  }

  lemma {:induction false} CommentsAreSkipped(comments: seq<Token>, ts: seq<Token>)
    requires AllComments(comments)
    ensures SkipComments(comments + ts) == SkipComments(ts)
  {
    if comments == [] {
      assert comments + ts == ts;
    } else {
      assert (comments + ts)[1..] == comments[1..] + ts;
      CommentsAreSkipped(comments[1..], ts);
    }
  }

  /** Comments in front of a name, and between an element and what follows it, change nothing. */
  lemma CommentsPass(comments: seq<Token>, ts: seq<Token>, after: seq<Token>, value: Value, name: Bytes, index: nat,
                     m: seq<Entry>, cfg: Config)
    requires AllComments(comments) && after != [] && after[0].kind != CommentToken
    ensures ReadMembers(comments + after, name, m, cfg) == ReadMembers(after, name, m, cfg)
    ensures Yields(ts, value, comments + after, cfg) ==>
            ReadElements(ts, index, m, cfg) ==
            if after[0].kind == ArrayEnd then Parsed(true, Array(Put(m, Entry(Index(index), value))), after[1..], [])
            else ReadElements(after[1..], index + 1, Put(m, Entry(Index(index), value)), cfg)
  {
    hide ReadValue, Put, DecodeString;
    CommentsAreSkipped(comments, after);
    assert SkipComments(after) == after;
  }

  /** Behind a member's value a comment takes the place of the comma: the token after it, whatever it is, is passed
      over unless it closes the object. */
  lemma CommentStandsForComma(comments: seq<Token>, ts: seq<Token>, after: seq<Token>, value: Value, name: Bytes,
                              m: seq<Entry>, cfg: Config)
    requires AllComments(comments) && comments != [] && after != [] && after[0].kind != CommentToken
    ensures var key := Name(CString(name));
      Yields(ts, value, comments + after, cfg) ==>
        ReadMember(ts, name, m, cfg) ==
        if after[0].kind == ObjectEnd then Parsed(true, Object(Put(m, Entry(key, value))), after[1..], [])
        else ReadMembers(after[1..], name, Put(m, Entry(key, value)), cfg)
  {
    hide ReadValue, Put, ReadMembers;
    CommentsAreSkipped(comments, after);
    assert SkipComments(after) == after;
    assert Head(comments + after) == comments[0];
  }
}
