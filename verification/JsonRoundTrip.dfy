/** Parsing undoes printing. */
module JsonRoundTrip {
  import opened ByteText
  import opened JsonValue
  import opened JsonString
  import opened JsonNumber
  import opened JsonToken
  import opened JsonParse
  import opened JsonPrint
  import opened JsonReader
  import opened JsonWriter

  /** The value a printed value comes back as: unsigned integers that fit are signed, and the holes of
      an array are nulls. */
  function Normalise(v: Value): Value
    decreases Weight(v), 0
  {
    match v
    case UInt(u) => IntegerValue(false, u)
    case Array(m) => Array(NormaliseElements(m, ArraySize(m)))
    case Object(m) => Object(NormaliseMembers(m))
    case _ => v
  }

  function NormaliseElements(m: seq<Entry>, n: nat): seq<Entry>
    requires n <= ArraySize(m)
    decreases MapWeight(m), n
  {
    if n == 0 then []
    else NormaliseElements(m, n - 1) + [Entry(Index(n - 1), Normalise(ElementAt(m, n - 1)))]
  }

  function NormaliseMembers(m: seq<Entry>): seq<Entry>
    decreases MapWeight(m), 0
  {
    if m == [] then [] else [Entry(m[0].key, Normalise(m[0].value))] + NormaliseMembers(m[1..])
  }

  // ---------- keys arrive in ascending order ----------

  ghost predicate Below(m: seq<Entry>, key: Key) {
    forall i :: 0 <= i < |m| ==> KeyLess(m[i].key, key)
  }

  lemma {:induction false} PutLast(m: seq<Entry>, e: Entry)
    requires Below(m, e.key)
    ensures Put(m, e) == m + [e]
    ensures Lookup(m, e.key) == None
  {
    if m != [] {
      KeyTrichotomy(m[0].key, e.key);
      assert Below(m[1..], e.key);
      PutLast(m[1..], e);
      assert m == [m[0]] + m[1..];
    }
  }

  lemma BelowNext(m: seq<Entry>, e: Entry, key: Key)
    requires Below(m, e.key) && KeyLess(e.key, key)
    ensures Below(m + [e], key)
  {
    forall i | 0 <= i < |m| ensures KeyLess(m[i].key, key) {
      KeyTransitive(m[i].key, e.key, key);
    }
  }

  lemma {:induction false} ElementsBelow(m: seq<Entry>, n: nat)
    requires n <= ArraySize(m)
    ensures Below(NormaliseElements(m, n), Index(n))
    ensures |NormaliseElements(m, n)| == n
  {
    if n > 0 {
      ElementsBelow(m, n - 1);
      BelowNext(NormaliseElements(m, n - 1), Entry(Index(n - 1), Normalise(ElementAt(m, n - 1))), Index(n));
    }
  }

  lemma QuotedDecodes(s: Bytes)
    requires NulFree(s)
    ensures DecodeString(Quoted(s)) == Decoded(s, [])
  {
    hide DecodeBody, EscapeAll;
    DecodeEscaped(s);
    assert Quoted(s)[1..|Quoted(s)| - 1] == EscapeAll(s);
  }

  // ---------- reading a value's tokens gives the value back ----------

  /** The parser, on these tokens, reads value and leaves rest, whatever the node held before. */
  ghost predicate Yields(ts: seq<Token>, value: Value, rest: seq<Token>, cfg: Config) {
    forall node :: ReadValue(ts, node, cfg) == Parsed(true, value, rest, [])
  }

  lemma TokensStart(v: Value, lib: Reals)
    requires Writable(v, lib)
    ensures TokensOf(v, lib) != [] && TokensOf(v, lib)[0].kind !in {ArrayEnd, CommentToken, ObjectEnd, EndOfStream}
  {
  }

  lemma ScalarYields(v: Value, rest: seq<Token>, cfg: Config, lib: Reals)
    requires IsScalar(v) && Writable(v, lib) && cfg.scan == lib.scan
    ensures Yields(TokensOf(v, lib) + rest, Normalise(v), rest, cfg)
  {
    hide DecodeNumber, DecodeString;
    var ts := TokensOf(v, lib) + rest;
    assert After(ts) == rest && Significant(ts, cfg) == ts;
    match v
    case Int(i) => NumberRoundTrip(cfg.scan);
    case UInt(u) => NumberRoundTrip(cfg.scan);
    case Real(r) => RealDecodes(lib, r);
    case Str(s) =>
      QuotedDecodes(s.value);
      CStringKeeps(s.value);
    case _ =>
  }

  lemma RealDecodes(lib: Reals, r: real)
    requires PrintsReal(lib, r)
    ensures DecodeNumber(lib.print_(r), lib.scan) == Number(Real(r))
  {
  }

  lemma {:induction false} TokensYield(v: Value, rest: seq<Token>, cfg: Config, lib: Reals)
    requires Writable(v, lib) && cfg.scan == lib.scan
    ensures Yields(TokensOf(v, lib) + rest, Normalise(v), rest, cfg)
    decreases Weight(v), 0
  {
    if IsScalar(v) {
      ScalarYields(v, rest, cfg, lib);
    } else if v.Array? {
      ArrayYields(v, rest, cfg, lib);
    } else {
      ObjectYields(v, rest, cfg, lib);
    }
  }

  lemma {:induction false} ArrayYields(v: Value, rest: seq<Token>, cfg: Config, lib: Reals)
    requires Writable(v, lib) && cfg.scan == lib.scan && v.Array?
    ensures Yields(TokensOf(v, lib) + rest, Normalise(v), rest, cfg)
    decreases Weight(v), 0, 0
  {
    hide ReadElements, Put;
    var m := v.map_;
    var ts := TokensOf(v, lib) + rest;
    assert Significant(ts, cfg) == ts;
    if ArraySize(m) == 0 {
      assert After(After(ts)) == rest;
    } else {
      var inner := ElementTokens(m, 0, lib) + rest;
      assert After(ts) == inner;
      ElementIsWritable(m, 0, lib);
      TokensStart(ElementAt(m, 0), lib);
      assert inner[0] == TokensOf(ElementAt(m, 0), lib)[0];
      ElementsYield(m, 0, rest, cfg, lib);
    }
  }

  lemma {:induction false} ElementsYield(m: seq<Entry>, i: nat, rest: seq<Token>, cfg: Config, lib: Reals)
    requires ValidMap(m, false) && PrintableMap(m, lib) && i < ArraySize(m) && cfg.scan == lib.scan
    ensures ReadElements(ElementTokens(m, i, lib) + rest, i, NormaliseElements(m, i), cfg) ==
            Parsed(true, Array(NormaliseElements(m, ArraySize(m))), rest, [])
    decreases MapWeight(m), ArraySize(m) - i
  {
    hide ReadValue, ReadElements, Normalise, TokensOf, Put, Writable, PrintableMap, Yields;
    hide ValidMap, ArraySize, ElementAt, MapWeight;
    var e := ElementAt(m, i);
    var more := if i + 1 == ArraySize(m) then [Mark(RIGHT_BRACKET)] else [Mark(COMMA)] + ElementTokens(m, i + 1, lib);
    var after := more + rest;
    AppendAssociates(TokensOf(e, lib), more, rest);
    ElementIsWritable(m, i, lib);
    TokensYield(e, after, cfg, lib);
    ElementsBelow(m, i);
    PutLast(NormaliseElements(m, i), Entry(Index(i), Normalise(e)));
    ElementStep(TokensOf(e, lib) + after, i, NormaliseElements(m, i), Normalise(e), after, cfg);
    if i + 1 == ArraySize(m) {
      assert after[1..] == rest;
    } else {
      assert after[1..] == ElementTokens(m, i + 1, lib) + rest;
      ElementsYield(m, i + 1, rest, cfg, lib);
    }
  }

  lemma ElementStep(ts: seq<Token>, i: nat, m: seq<Entry>, value: Value, after: seq<Token>, cfg: Config)
    requires Yields(ts, value, after, cfg) && after != [] && after[0].kind != CommentToken
    ensures ReadElements(ts, i, m, cfg) ==
            if after[0].kind == ArrayEnd then Parsed(true, Array(Put(m, Entry(Index(i), value))), after[1..], [])
            else ReadElements(after[1..], i + 1, Put(m, Entry(Index(i), value)), cfg)
  {
    hide ReadValue, Put;
    assert SkipComments(after) == after;
  }

  lemma {:induction false} ObjectYields(v: Value, rest: seq<Token>, cfg: Config, lib: Reals)
    requires Writable(v, lib) && cfg.scan == lib.scan && v.Object?
    ensures Yields(TokensOf(v, lib) + rest, Normalise(v), rest, cfg)
    decreases Weight(v), 0, 0
  {
    var m := v.map_;
    var ts := TokensOf(v, lib) + rest;
    assert Significant(ts, cfg) == ts;
    if m == [] {
      assert After(After(ts)) == rest && SkipComments(After(ts)) == After(ts);
    } else {
      assert After(ts) == MemberTokens(m, lib) + rest;
      MembersYield([], m, [], rest, cfg, lib);
      assert [] + NormaliseMembers(m) == NormaliseMembers(m);
    }
  }

  lemma {:induction false} MembersYield(
    done: seq<Entry>, m: seq<Entry>, name: Bytes, rest: seq<Token>, cfg: Config, lib: Reals)
    requires m != [] && ValidMap(m, true) && PrintableMap(m, lib) && cfg.scan == lib.scan
    requires Below(done, m[0].key)
    ensures ReadMembers(MemberTokens(m, lib) + rest, name, done, cfg) ==
            Parsed(true, Object(done + NormaliseMembers(m)), rest, [])
    decreases MapWeight(m), 1
  {
    hide DecodeString, ReadMember, Put, TokensOf;
    var ts := MemberTokens(m, lib) + rest;
    var key := m[0].key.name;
    assert SkipComments(ts) == ts;
    QuotedDecodes(key);
    CStringKeeps(key);
    var value := TokensOf(m[0].value, lib) +
                 if |m| == 1 then [Mark(RIGHT_BRACE)] else [Mark(COMMA)] + MemberTokens(m[1..], lib);
    assert After(ts) == [Mark(COLON)] + (value + rest);
    assert After(After(ts)) == value + rest;
    MemberYields(done, m, rest, cfg, lib);
  }

  lemma {:induction false} MemberYields(done: seq<Entry>, m: seq<Entry>, rest: seq<Token>, cfg: Config, lib: Reals)
    requires m != [] && ValidMap(m, true) && PrintableMap(m, lib) && cfg.scan == lib.scan
    requires Below(done, m[0].key)
    ensures ReadMember(TokensOf(m[0].value, lib) +
                       (if |m| == 1 then [Mark(RIGHT_BRACE)] else [Mark(COMMA)] + MemberTokens(m[1..], lib)) + rest,
                       m[0].key.name, done, cfg) ==
            Parsed(true, Object(done + NormaliseMembers(m)), rest, [])
    decreases MapWeight(m), 0
  {
    hide ReadValue, TokensOf, Put, ReadMembers, ReadMember, Yields;
    var more := if |m| == 1 then [Mark(RIGHT_BRACE)] else [Mark(COMMA)] + MemberTokens(m[1..], lib);
    var after := more + rest;
    var e := Entry(m[0].key, Normalise(m[0].value));
    AppendAssociates(TokensOf(m[0].value, lib), more, rest);
    TokensYield(m[0].value, after, cfg, lib);
    CStringKeeps(m[0].key.name);
    PutLast(done, e);
    MemberStep(TokensOf(m[0].value, lib) + after, m[0].key.name, done, e.value, after, cfg);
    AppendAssociates(done, [e], NormaliseMembers(m[1..]));
    if |m| == 1 {
      assert after[1..] == rest;
      assert done + [e] + [] == done + [e];
    } else {
      assert after[1..] == MemberTokens(m[1..], lib) + rest;
      BelowNext(done, e, m[1].key);
      MembersYield(done + [e], m[1..], m[0].key.name, rest, cfg, lib);
    }
  }

  lemma MemberStep(ts: seq<Token>, name: Bytes, m: seq<Entry>, value: Value, after: seq<Token>, cfg: Config)
    requires Yields(ts, value, after, cfg) && after != [] && after[0].kind in {ObjectEnd, ArraySeparator}
    ensures var m' := Put(m, Entry(Name(CString(name)), value));
      ReadMember(ts, name, m, cfg) ==
      if after[0].kind == ObjectEnd then Parsed(true, Object(m'), after[1..], [])
      else ReadMembers(after[1..], name, m', cfg)
  {
    hide ReadValue, Put, ReadMembers;
    assert SkipComments(after) == after;
  }

  // ---------- the two round trips ----------

  lemma TokenizeDocument(text: Bytes, toks: seq<Token>)
    requires ReadsAs(text, toks, [NEWLINE])
    ensures Tokenize(text + [NEWLINE]) == toks
  {
    assert SkipSpaces([NEWLINE]) == SkipSpaces([NEWLINE][1..]);
    assert Tokenize([NEWLINE]) == [];
  }

  lemma DocumentYields(v: Value, document: Bytes, node: Value, cfg: Config, lib: Reals)
    requires Writable(v, lib) && cfg.scan == lib.scan
    requires cfg.strictRoot ==> IsContainer(v)
    ensures ParseDocument(TokensOf(v, lib), document, node, cfg) == Parsed(true, Normalise(v), [], [])
  {
    TokensYield(v, [], cfg, lib);
    assert TokensOf(v, lib) + [] == TokensOf(v, lib);
  }

  /** Parsing what the compact writer printed succeeds without an error and gives the value back, up to
      the normalisation of unsigned integers and holes. */
  lemma FastRoundTrip(v: Value, yaml: bool, node: Value, cfg: Config, lib: Reals)
    requires Writable(v, lib) && cfg.scan == lib.scan
    requires cfg.strictRoot ==> IsContainer(v)
    ensures var text := FastText(v, lib, yaml) + [NEWLINE];
      ParseDocument(Tokenize(text), text, node, cfg) == Parsed(true, Normalise(v), [], [])
  {
    hide ReadsAs, Tokenize, ParseDocument;
    FastReads(v, lib, yaml, [NEWLINE]);
    TokenizeDocument(FastText(v, lib, yaml), TokensOf(v, lib));
    DocumentYields(v, FastText(v, lib, yaml) + [NEWLINE], node, cfg, lib);
  }

  /** The same for the indented writer, whose document has the very same tokens. */
  lemma StyledRoundTrip(v: Value, node: Value, cfg: Config, lib: Reals)
    requires Writable(v, lib) && cfg.scan == lib.scan
    requires cfg.strictRoot ==> IsContainer(v)
    ensures Tokenize(StyledText(v, 0, lib) + [NEWLINE]) == Tokenize(FastText(v, lib, false) + [NEWLINE])
    ensures var text := StyledText(v, 0, lib) + [NEWLINE];
      ParseDocument(Tokenize(text), text, node, cfg) == Parsed(true, Normalise(v), [], [])
  {
    hide ReadsAs, Tokenize, ParseDocument;
    StyledReads(v, 0, lib, [NEWLINE]);
    TokenizeDocument(StyledText(v, 0, lib), TokensOf(v, lib));
    FastReads(v, lib, false, [NEWLINE]);
    TokenizeDocument(FastText(v, lib, false), TokensOf(v, lib));
    DocumentYields(v, StyledText(v, 0, lib) + [NEWLINE], node, cfg, lib);
  }

  /** Writing a value and parsing the document, by the objects themselves. */
  method WriteAndParse(v: Value, styled: bool, node: Value, cfg: Config, lib: Reals) returns (ok: bool, value: Value)
    requires Writable(v, lib) && cfg.scan == lib.scan
    requires cfg.strictRoot ==> IsContainer(v)
    ensures ok && value == Normalise(v)
  {
    hide ParseDocument, Tokenize, StyledText, FastText;
    var text;
    if styled {
      var writer := new StyledWriter(lib);
      text := writer.Write(v);
      StyledRoundTrip(v, node, cfg, lib);
    } else {
      var writer := new FastWriter(lib);
      text := writer.Write(v);
      FastRoundTrip(v, false, node, cfg, lib);
    }
    var reader := new Reader(cfg);
    ok, value := reader.Parse(text, node);
  }

  // ---------- what comes back prints the same ----------

  lemma {:induction false} NormalisedElementAt(m: seq<Entry>, n: nat, i: nat)
    requires i < n <= ArraySize(m)
    ensures ElementAt(NormaliseElements(m, n), i) == Normalise(ElementAt(m, i))
    ensures ArraySize(NormaliseElements(m, n)) == n
  {
    hide Normalise;
    var done := NormaliseElements(m, n - 1);
    var e := Entry(Index(n - 1), Normalise(ElementAt(m, n - 1)));
    ElementsBelow(m, n - 1);
    LookupAppend(done, e, Index(i));
    if i < n - 1 {
      NormalisedElementAt(m, n - 1, i);
    } else {
      PutLast(done, e);
    }
  }

  lemma {:induction false} LookupAppend(m: seq<Entry>, e: Entry, key: Key)
    ensures Lookup(m + [e], key) ==
            if Lookup(m, key).Some? then Lookup(m, key) else if e.key == key then Some(e.value) else None
  {
    if m == [] {
      assert m + [e] == [e];
    } else {
      assert (m + [e])[1..] == m[1..] + [e];
      LookupAppend(m[1..], e, key);
    }
  }

  /** A document and what parsing it gives print as the same text: writing, parsing and writing again
      changes nothing. */
  lemma {:induction false} ReprintIsSame(v: Value, lib: Reals, yaml: bool)
    requires Valid(v)
    ensures FastText(Normalise(v), lib, yaml) == FastText(v, lib, yaml)
    decreases Weight(v), 0
  {
    match v
    case UInt(u) => assert NumeralText(false, Digits(u)) == Digits(u);
    case Array(m) =>
      if ArraySize(m) > 0 {
        NormalisedElementAt(m, ArraySize(m), 0);
        ReprintElements(m, 0, lib, yaml);
      }
    case Object(m) =>
      if m != [] {
        ReprintMembers(m, lib, yaml);
      }
    case _ =>
  }

  lemma {:induction false} ReprintElements(m: seq<Entry>, i: nat, lib: Reals, yaml: bool)
    requires ValidMap(m, false) && i < ArraySize(m)
    requires ArraySize(NormaliseElements(m, ArraySize(m))) == ArraySize(m)
    ensures FastElements(NormaliseElements(m, ArraySize(m)), i, lib, yaml) == FastElements(m, i, lib, yaml)
    decreases MapWeight(m), ArraySize(m) - i
  {
    NormalisedElementAt(m, ArraySize(m), i);
    ElementIsValid(m, i);
    ReprintIsSame(ElementAt(m, i), lib, yaml);
    if i + 1 < ArraySize(m) {
      ReprintElements(m, i + 1, lib, yaml);
    }
  }

  lemma {:induction false} ElementIsValid(m: seq<Entry>, i: nat)
    requires ValidMap(m, false)
    ensures Valid(ElementAt(m, i))
  {
    if m != [] && m[0].key != Index(i) {
      ElementIsValid(m[1..], i);
    }
  }

  lemma {:induction false} ReprintMembers(m: seq<Entry>, lib: Reals, yaml: bool)
    requires ValidMap(m, true) && m != []
    ensures NormaliseMembers(m) != []
    ensures FastMembers(NormaliseMembers(m), lib, yaml) == FastMembers(m, lib, yaml)
    decreases MapWeight(m), 0
  {
    ReprintIsSame(m[0].value, lib, yaml);
    assert NormaliseMembers(m)[1..] == NormaliseMembers(m[1..]);
    if |m| > 1 {
      ReprintMembers(m[1..], lib, yaml);
    }
  }

  // ---------- the same for the indented form ----------

  lemma LeafReprints(v: Value, lib: Reals)
    requires Valid(v)
    ensures IsNested(Normalise(v)) <==> IsNested(v)
    ensures LeafText(Normalise(v), lib) == LeafText(v, lib)
  {
    match v
    case UInt(u) => assert NumeralText(false, Digits(u)) == Digits(u);
    case Array(m) =>
      if ArraySize(m) > 0 {
        NormalisedElementAt(m, ArraySize(m), 0);
      }
    case _ =>
  }

  /** Normalising keeps the number, the nesting and the length of the elements, and so the layout. */
  lemma {:induction false} LeafLengthKept(m: seq<Entry>, n: nat, lib: Reals)
    requires ValidMap(m, false) && n <= ArraySize(m)
    ensures var m' := NormaliseElements(m, ArraySize(m));
      && LeafLength(m', n, lib) == LeafLength(m, n, lib)
      && (AnyNested(m', n) <==> AnyNested(m, n))
  {
    hide Normalise, NormaliseElements, ElementAt, IsNested, LeafText;
    var m' := NormaliseElements(m, ArraySize(m));
    if n > 0 {
      LeafLengthKept(m, n - 1, lib);
      NormalisedElementAt(m, ArraySize(m), n - 1);
      ElementIsValid(m, n - 1);
      LeafReprints(ElementAt(m, n - 1), lib);
      assert forall t: seq<Entry> ::
          AnyNested(t, n) <==> AnyNested(t, n - 1) || IsNested(ElementAt(t, n - 1)) by { AnyNestedSteps(n); }
    }
  }

  lemma AnyNestedSteps(n: nat)
    requires n > 0
    ensures forall t: seq<Entry> :: AnyNested(t, n) <==> AnyNested(t, n - 1) || IsNested(ElementAt(t, n - 1))
  {
    hide IsNested, ElementAt;
  }

  lemma LayoutKept(m: seq<Entry>, lib: Reals)
    requires ValidMap(m, false) && ArraySize(m) > 0
    ensures IsMultiLine(NormaliseElements(m, ArraySize(m)), lib) <==> IsMultiLine(m, lib)
  {
    hide NormaliseElements, AnyNested, LeafLength;
    NormalisedElementAt(m, ArraySize(m), 0);
    LeafLengthKept(m, ArraySize(m), lib);
  }

  lemma {:induction false} ReprintInLine(m: seq<Entry>, i: nat, lib: Reals)
    requires ValidMap(m, false) && i < ArraySize(m)
    requires ArraySize(NormaliseElements(m, ArraySize(m))) == ArraySize(m)
    ensures ElementsInLine(NormaliseElements(m, ArraySize(m)), i, lib) == ElementsInLine(m, i, lib)
    decreases ArraySize(m) - i
  {
    hide Normalise, NormaliseElements, ElementAt, LeafText;
    NormalisedElementAt(m, ArraySize(m), i);
    ElementIsValid(m, i);
    LeafReprints(ElementAt(m, i), lib);
    if i + 1 < ArraySize(m) {
      ReprintInLine(m, i + 1, lib);
    }
  }

  /** The indented text of a value and of what comes back are the same, layout included. */
  lemma {:induction false} StyledReprintIsSame(v: Value, indent: nat, lib: Reals)
    requires Valid(v)
    ensures StyledText(Normalise(v), indent, lib) == StyledText(v, indent, lib)
    decreases Weight(v), 0
  {
    LeafReprints(v, lib);
    if IsNested(v) {
      hide IsMultiLine, LeafText, ElementLines, ElementsInLine, MemberLines, NormaliseElements, NormaliseMembers;
      if v.Array? {
        NormalisedElementAt(v.map_, ArraySize(v.map_), 0);
        LayoutKept(v.map_, lib);
        ReprintInLine(v.map_, 0, lib);
        ReprintElementLines(v.map_, 0, indent, lib);
      } else {
        ReprintMemberLines(v.map_, indent, lib);
      }
    }
  }

  lemma {:induction false} ReprintElementLines(m: seq<Entry>, i: nat, indent: nat, lib: Reals)
    requires ValidMap(m, false) && i < ArraySize(m)
    requires ArraySize(NormaliseElements(m, ArraySize(m))) == ArraySize(m)
    ensures ElementLines(NormaliseElements(m, ArraySize(m)), i, indent, lib) == ElementLines(m, i, indent, lib)
    decreases MapWeight(m), ArraySize(m) - i
  {
    hide Normalise, NormaliseElements, StyledText, NewLine;
    NormalisedElementAt(m, ArraySize(m), i);
    ElementIsValid(m, i);
    ElementIsLighter(m, i);
    hide ElementAt;
    StyledReprintIsSame(ElementAt(m, i), indent + INDENT_SIZE, lib);
    if i + 1 < ArraySize(m) {
      ReprintElementLines(m, i + 1, indent, lib);
    }
  }

  lemma {:induction false} ReprintMemberLines(m: seq<Entry>, indent: nat, lib: Reals)
    requires ValidMap(m, true) && m != []
    ensures NormaliseMembers(m) != []
    ensures MemberLines(NormaliseMembers(m), indent, lib) == MemberLines(m, indent, lib)
    decreases MapWeight(m), 0
  {
    hide Normalise, StyledText, NewLine, Quoted;
    StyledReprintIsSame(m[0].value, indent + INDENT_SIZE, lib);
    assert NormaliseMembers(m)[1..] == NormaliseMembers(m[1..]);
    if |m| > 1 {
      ReprintMemberLines(m[1..], indent, lib);
    }
  }
}
