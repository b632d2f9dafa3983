/**
 The two JSON writers as objects that append to a document, proved to print exactly the compact and
 the indented text of the value.
 */
module JsonWriter {
  import opened ByteText
  import opened JsonValue
  import opened JsonString
  import opened JsonNumber
  import opened JsonToken
  import opened JsonPrint

  // ---------- access to members ----------

  lemma {:induction false} KeysAscend(m: seq<Entry>, i: nat, named: bool)
    requires ValidMap(m, named) && 0 < i < |m|
    ensures KeyLess(m[0].key, m[i].key)
  {
    if i > 1 {
      KeysAscend(m[1..], i - 1, named);
      KeyTransitive(m[0].key, m[1].key, m[i].key);
    }
  }

  /** Subscripting an object by its i-th member name gives its i-th value. */
  lemma {:induction false} LookupMember(m: seq<Entry>, i: nat, lib: Reals)
    requires ValidMap(m, true) && PrintableMap(m, lib) && i < |m|
    ensures Lookup(m, m[i].key) == Some(m[i].value)
    ensures Writable(m[i].value, lib)
    ensures ValidMap(m[i..], true) && PrintableMap(m[i..], lib)
  {
    if i > 0 {
      KeysAscend(m, i, true);
      KeyTrichotomy(m[0].key, m[i].key);
      LookupMember(m[1..], i - 1, lib);
      assert m[1..][i - 1..] == m[i..];
    } else {
      assert m[0..] == m;
    }
  }

  method ScalarToString(v: Value, lib: Reals) returns (text: Bytes)
    requires IsScalar(v) && Writable(v, lib)
    ensures text == ScalarText(v, lib)
  {
    match v
    case Null => text := NULL_TEXT;
    case Int(i) => text := ValueToString(i);
    case UInt(u) => text := UnsignedToString(u);
    case Real(r) => text := lib.print_(r);
    case Str(s) => text := ValueToQuotedString(s.value);
    case Bool(b) => text := if b then TRUE_TEXT else FALSE_TEXT;
  }

  lemma Regroup(document: Bytes, text: Bytes, rest: Bytes, all: Bytes)
    requires document + (text + rest) == all
    ensures document + text + rest == all
  {
    AppendAssociates(document, text, rest);
  }

  /** One piece of a text that is known as a whole. */
  method Appended(document: Bytes, text: Bytes, ghost rest: Bytes, ghost all: Bytes) returns (longer: Bytes)
    requires document + (text + rest) == all
    ensures longer == document + text && longer + rest == all
  {
    Regroup(document, text, rest, all);
    longer := document + text;
  }

  class FastWriter {
    const lib: Reals
    var yaml: bool
    var document: Bytes

    constructor (lib: Reals)
      ensures this.lib == lib && !yaml
    {
      this.lib, yaml, document := lib, false, [];
    }

    method EnableYamlCompatibility()
      modifies this`yaml
      ensures yaml
    {
      yaml := true;
    }

    /** The compact text of root, and a line end. */
    method Write(root: Value) returns (text: Bytes)
      requires Writable(root, lib)
      modifies this`document
      ensures text == FastText(root, lib, yaml) + [NEWLINE]
    {
      document := [];
      WriteValue(root);
      document := document + [NEWLINE];
      text := document;
    }

    method WriteValue(v: Value)
      requires Writable(v, lib)
      modifies this`document
      ensures document == old(document) + FastText(v, lib, yaml)
      decreases Weight(v), 0
    {
      if v.Array? {
        WriteElements(v.map_);
      } else if v.Object? {
        WriteMembers(v.map_);
      } else {
        var text := ScalarToString(v, lib);
        document := document + text;
      }
    }

    /** What an array still needs when its first i elements are written. */
    ghost function RestOfElements(m: seq<Entry>, i: nat): Bytes
      requires i <= ArraySize(m)
      reads this`yaml
    {
      if i == 0 && ArraySize(m) > 0 then FastElements(m, 0, lib, yaml) else FastAfterElement(m, i, lib, yaml)
    }

    method WriteElements(m: seq<Entry>)
      requires ValidMap(m, false) && PrintableMap(m, lib)
      modifies this`document
      ensures document == old(document) + FastText(Array(m), lib, yaml)
      decreases Weight(Array(m)), 0, 0
    {
      ghost var all := document + FastText(Array(m), lib, yaml);
      assert FastText(Array(m), lib, yaml) == [LEFT_BRACKET] + RestOfElements(m, 0);
      document := Appended(document, [LEFT_BRACKET], RestOfElements(m, 0), all);
      var size := ArraySize(m);
      for index := 0 to size
        invariant document + RestOfElements(m, index) == all
      {
        if index > 0 {
          document := Appended(document, [COMMA], FastElements(m, index, lib, yaml), all);
        }
        ElementIsWritable(m, index, lib);
        Regroup(document, FastText(ElementAt(m, index), lib, yaml), FastAfterElement(m, index + 1, lib, yaml), all);
        WriteValue(ElementAt(m, index));
      }
      document := document + [RIGHT_BRACKET];
    }

    /** What an object still needs when its members before the i-th are written. */
    ghost function RestOfMembers(m: seq<Entry>, i: nat): Bytes
      requires i <= |m|
      reads this`yaml
    {
      if i == 0 && m != [] then FastMembers(m, lib, yaml) else FastAfterMember(m[i..], lib, yaml)
    }

    method WriteMembers(m: seq<Entry>)
      requires ValidMap(m, true) && PrintableMap(m, lib)
      modifies this`document
      ensures document == old(document) + FastText(Object(m), lib, yaml)
      decreases Weight(Object(m)), 0, 0
    {
      hide FastMembers, Lookup;
      ghost var all := document + FastText(Object(m), lib, yaml);
      assert FastText(Object(m), lib, yaml) == [LEFT_BRACE] + RestOfMembers(m, 0);
      document := Appended(document, [LEFT_BRACE], RestOfMembers(m, 0), all);
      assert m[0..] == m;
      for i := 0 to |m|
        invariant document + RestOfMembers(m, i) == all
      {
        if i > 0 {
          document := Appended(document, [COMMA], FastMembers(m[i..], lib, yaml), all);
        }
        WriteMember(m, i, all);
      }
      document := document + [RIGHT_BRACE];
    }

    method WriteMember(m: seq<Entry>, i: nat, ghost all: Bytes)
      requires ValidMap(m, true) && PrintableMap(m, lib) && i < |m|
      requires document + FastMembers(m[i..], lib, yaml) == all
      modifies this`document
      ensures document + FastAfterMember(m[i + 1..], lib, yaml) == all
      decreases MapWeight(m), 1
    {
      LookupMember(m, i, lib);
      assert m[i..][1..] == m[i + 1..];
      ghost var rest := FastAfterMember(m[i + 1..], lib, yaml);
      var name, value := m[i].key.name, Lookup(m, m[i].key).value;
      ghost var text := FastText(value, lib, yaml);
      var quoted := ValueToQuotedString(name);
      document := Appended(document, quoted, [COLON] + (ColonGap(yaml) + (text + rest)), all);
      document := Appended(document, [COLON], ColonGap(yaml) + (text + rest), all);
      document := Appended(document, ColonGap(yaml), text + rest, all);
      Regroup(document, text, rest, all);
      WriteValue(value);
    }
  }

  // ---------- the indented text never ends in white space ----------

  /** The last character is neither a blank nor a line end. */
  predicate EndsInk(s: Bytes) {
    s != [] && s[|s| - 1] != SPACE && s[|s| - 1] != NEWLINE
  }

  lemma EndsInkAppend(s: Bytes, t: Bytes)
    requires EndsInk(t)
    ensures EndsInk(s + t)
  {
    assert (s + t)[|s + t| - 1] == t[|t| - 1];
  }

  lemma LeafEndsInk(v: Value, lib: Reals)
    requires Writable(v, lib)
    ensures EndsInk(LeafText(v, lib))
  {
    hide Digits, IsNumberText;
    match v
    case Int(i) => IntTextIsNumber(i); NumberEndsInk(IntText(i));
    case UInt(u) => DigitsAreNumberText(u); NumberEndsInk(Digits(u));
    case Real(r) => NumberEndsInk(lib.print_(r));
    case _ =>
  }

  lemma NumberEndsInk(text: Bytes)
    requires IsNumberText(text)
    ensures EndsInk(text)
  {
    assert IsNumberChar(text[|text| - 1]);
  }

  lemma {:induction false} StyledEndsInk(v: Value, indent: nat, lib: Reals)
    requires Writable(v, lib)
    ensures EndsInk(StyledText(v, indent, lib))
  {
    hide IsMultiLine, EndsInk;
    if !IsNested(v) {
      LeafEndsInk(v, lib);
    } else if v.Object? {
      MemberLinesEndInk(v.map_, indent, lib);
      EndsInkAppend([LEFT_BRACE], MemberLines(v.map_, indent, lib));
    } else if IsMultiLine(v.map_, lib) {
      ElementLinesEndInk(v.map_, 0, indent, lib);
      EndsInkAppend([LEFT_BRACKET], ElementLines(v.map_, 0, indent, lib));
    } else {
      ElementsInLineEndInk(v.map_, 0, lib);
      EndsInkAppend([LEFT_BRACKET, SPACE], ElementsInLine(v.map_, 0, lib));
    }
  }

  lemma {:induction false} ElementLinesEndInk(m: seq<Entry>, i: nat, indent: nat, lib: Reals)
    requires i < ArraySize(m)
    ensures EndsInk(ElementLines(m, i, indent, lib))
    decreases ArraySize(m) - i
  {
    var after := AfterElementLine(m, i + 1, indent, lib);
    if i + 1 == ArraySize(m) {
      EndsInkAppend(NewLine(indent), [RIGHT_BRACKET]);
    } else {
      ElementLinesEndInk(m, i + 1, indent, lib);
      EndsInkAppend([COMMA], ElementLines(m, i + 1, indent, lib));
    }
    var text := StyledText(ElementAt(m, i), indent + INDENT_SIZE, lib);
    EndsInkAppend(text, after);
    EndsInkAppend(NewLine(indent + INDENT_SIZE), text + after);
  }

  lemma {:induction false} ElementsInLineEndInk(m: seq<Entry>, i: nat, lib: Reals)
    requires i < ArraySize(m)
    ensures EndsInk(ElementsInLine(m, i, lib))
    decreases ArraySize(m) - i
  {
    if i + 1 != ArraySize(m) {
      ElementsInLineEndInk(m, i + 1, lib);
      EndsInkAppend([COMMA, SPACE], ElementsInLine(m, i + 1, lib));
    }
    EndsInkAppend(LeafText(ElementAt(m, i), lib), AfterElementInLine(m, i + 1, lib));
  }

  lemma {:induction false} MemberLinesEndInk(m: seq<Entry>, indent: nat, lib: Reals)
    requires m != []
    ensures EndsInk(MemberLines(m, indent, lib))
    decreases |m|
  {
    var after := AfterMemberLine(m[1..], indent, lib);
    if |m| == 1 {
      EndsInkAppend(NewLine(indent), [RIGHT_BRACE]);
    } else {
      MemberLinesEndInk(m[1..], indent, lib);
      EndsInkAppend([COMMA], MemberLines(m[1..], indent, lib));
    }
    var text := StyledText(m[0].value, indent + INDENT_SIZE, lib);
    EndsInkAppend(text, after);
    EndsInkAppend([SPACE], text + after);
    EndsInkAppend([COLON], [SPACE] + (text + after));
    EndsInkAppend([SPACE], [COLON] + ([SPACE] + (text + after)));
    EndsInkAppend(Quoted(NameOf(m[0].key)), [SPACE] + ([COLON] + ([SPACE] + (text + after))));
    EndsInkAppend(NewLine(indent + INDENT_SIZE),
                  Quoted(NameOf(m[0].key)) + ([SPACE] + ([COLON] + ([SPACE] + (text + after)))));
  }

  class StyledWriter {
    const lib: Reals
    var document: Bytes
    var childValues: seq<Bytes>
    var indentString: Bytes
    var addChildValues: bool

    constructor (lib: Reals)
      ensures this.lib == lib
    {
      this.lib := lib;
      document, childValues, indentString, addChildValues := [], [], [], false;
    }

    /** Where a value may start: at the very beginning, or right after a blank. */
    ghost predicate AtValue(d: Bytes)
      reads this`indentString
    {
      if d == [] then indentString == [] else d[|d| - 1] == SPACE
    }

    ghost predicate Indented()
      reads this`indentString
    {
      indentString == Spaces(|indentString|)
    }

    /** The indented text of root, and a line end; the indentation is back to nothing. */
    method Write(root: Value) returns (text: Bytes)
      requires Writable(root, lib)
      modifies this
      ensures text == StyledText(root, 0, lib) + [NEWLINE]
      ensures indentString == []
    {
      document, addChildValues, indentString := [], false, [];
      WriteValue(root);
      document := document + [NEWLINE];
      text := document;
    }

    method PushValue(text: Bytes)
      modifies this`document, this`childValues
      ensures addChildValues ==> document == old(document) && childValues == old(childValues) + [text]
      ensures !addChildValues ==> document == old(document) + text && childValues == old(childValues)
    {
      if addChildValues {
        childValues := childValues + [text];
      } else {
        document := document + text;
      }
    }

    /** Starts a new line, unless the document is empty or already stands after a blank. */
    method WriteIndent()
      requires Indented()
      modifies this`document
      ensures AtValue(old(document)) ==> document == old(document)
      ensures EndsInk(old(document)) ==> document == old(document) + NewLine(|indentString|)
    {
      if document != [] {
        var last := document[|document| - 1];
        if last == SPACE {
          return;
        }
        if last != NEWLINE {
          document := document + [NEWLINE];
          assert document + indentString == old(document) + ([NEWLINE] + indentString);
        }
      }
      document := document + indentString;
    }

    method WriteWithIndent(text: Bytes)
      requires Indented()
      modifies this`document
      ensures AtValue(old(document)) ==> document == old(document) + text
      ensures EndsInk(old(document)) ==> document == old(document) + (NewLine(|indentString|) + text)
    {
      WriteIndent();
      if EndsInk(old(document)) {
        AppendAssociates(old(document), NewLine(|indentString|), text);
      }
      document := document + text;
    }

    method Indent()
      requires Indented()
      modifies this`indentString
      ensures Indented() && |indentString| == |old(indentString)| + INDENT_SIZE
    {
      indentString := indentString + [SPACE, SPACE, SPACE];
      assert Spaces(|indentString|) == Spaces(|indentString| - 1) + [SPACE];
      assert Spaces(|indentString| - 1) == Spaces(|indentString| - 2) + [SPACE];
      assert Spaces(|indentString| - 2) == Spaces(|indentString| - 3) + [SPACE];
    }

    /** The source asserts that there is something to take away; callers establish it. */
    method Unindent()
      requires Indented() && |indentString| >= INDENT_SIZE
      modifies this`indentString
      ensures Indented() && |indentString| == |old(indentString)| - INDENT_SIZE
    {
      SpacesPrefix(|indentString|, |indentString| - INDENT_SIZE);
      indentString := indentString[..|indentString| - INDENT_SIZE];
    }

    /** Writes a value where one may start.  While child values are being collected the value is not
        nested and its text is collected instead. */
    method WriteValue(v: Value)
      requires Writable(v, lib) && Indented()
      requires if addChildValues then !IsNested(v) else AtValue(document)
      modifies this
      ensures indentString == old(indentString) && addChildValues == old(addChildValues)
      ensures old(addChildValues) ==> document == old(document) && childValues == old(childValues) + [LeafText(v, lib)]
      ensures !old(addChildValues) ==> document == old(document) + StyledText(v, |indentString|, lib)
      decreases Weight(v), 1
    {
      hide IsMultiLine;
      if v.Array? {
        WriteArrayValue(v.map_);
      } else if v.Object? {
        if v.map_ == [] {
          PushValue([LEFT_BRACE, RIGHT_BRACE]);
        } else {
          WriteObject(v.map_);
        }
      } else {
        var text := ScalarToString(v, lib);
        PushValue(text);
      }
    }

    // ---------- objects ----------

    method WriteObject(m: seq<Entry>)
      requires m != [] && ValidMap(m, true) && PrintableMap(m, lib) && Indented()
      requires !addChildValues && AtValue(document)
      modifies this
      ensures indentString == old(indentString) && !addChildValues
      ensures document == old(document) + StyledText(Object(m), |indentString|, lib)
      decreases MapWeight(m), 4
    {
      hide Lookup, MemberLines;
      ghost var indent := |indentString|;
      ghost var all := document + StyledText(Object(m), indent, lib);
      Regroup(document, [LEFT_BRACE], MemberLines(m, indent, lib), all);
      WriteWithIndent([LEFT_BRACE]);
      Indent();
      var i := 0;
      assert m[0..] == m;
      while true
        invariant 0 <= i < |m| && Indented() && |indentString| == indent + INDENT_SIZE && !addChildValues
        invariant EndsInk(document) && document + MemberLines(m[i..], indent, lib) == all
        decreases |m| - i
      {
        WriteObjectMember(m, i, indent, all);
        i := i + 1;
        if i == |m| {
          break;
        }
        document := Appended(document, [COMMA], MemberLines(m[i..], indent, lib), all);
      }
      assert m[i..] == [];
      Unindent();
      WriteWithIndent([RIGHT_BRACE]);
    }

    method WriteObjectMember(m: seq<Entry>, i: nat, ghost indent: nat, ghost all: Bytes)
      requires ValidMap(m, true) && PrintableMap(m, lib) && i < |m|
      requires Indented() && |indentString| == indent + INDENT_SIZE && !addChildValues
      requires EndsInk(document) && document + MemberLines(m[i..], indent, lib) == all
      modifies this
      ensures indentString == old(indentString) && !addChildValues
      ensures EndsInk(document) && document + AfterMemberLine(m[i + 1..], indent, lib) == all
      decreases MapWeight(m), 3
    {
      hide StyledText;
      LookupMember(m, i, lib);
      assert m[i..][1..] == m[i + 1..];
      ghost var rest := AfterMemberLine(m[i + 1..], indent, lib);
      var name, value := m[i].key.name, Lookup(m, m[i].key).value;
      ghost var text := StyledText(value, indent + INDENT_SIZE, lib);
      var quoted := ValueToQuotedString(name);
      ghost var line := NewLine(indent + INDENT_SIZE);
      ghost var tail := [SPACE] + ([COLON] + ([SPACE] + (text + rest)));
      Regroup(document, line, quoted + tail, all);
      Regroup(document + line, quoted, tail, all);
      AppendAssociates(document, line, quoted);
      WriteWithIndent(quoted);
      document := Appended(document, [SPACE], [COLON] + ([SPACE] + (text + rest)), all);
      document := Appended(document, [COLON], [SPACE] + (text + rest), all);
      document := Appended(document, [SPACE], text + rest, all);
      Regroup(document, text, rest, all);
      StyledEndsInk(value, indent + INDENT_SIZE, lib);
      EndsInkAppend(document, text);
      WriteValue(value);
    }

    // ---------- arrays ----------

    method WriteArrayValue(m: seq<Entry>)
      requires ValidMap(m, false) && PrintableMap(m, lib) && Indented()
      requires if addChildValues then ArraySize(m) == 0 else AtValue(document)
      modifies this
      ensures indentString == old(indentString) && addChildValues == old(addChildValues)
      ensures old(addChildValues) ==> document == old(document) && childValues == old(childValues) + [LeafText(Array(m), lib)]
      ensures !old(addChildValues) ==> document == old(document) + StyledText(Array(m), |indentString|, lib)
      decreases Weight(Array(m)), 0
    {
      var size := ArraySize(m);
      if size == 0 {
        PushValue([LEFT_BRACKET, RIGHT_BRACKET]);
      } else {
        var isArrayMultiLine := IsMultiLineArray(m);
        if isArrayMultiLine {
          WriteElementLines(m);
        } else {
          WriteInLine(m);
        }
      }
    }

    /** Every child value of the array has been collected. */
    ghost predicate Collected(m: seq<Entry>, n: nat)
      reads this`childValues
    {
      |childValues| == n && forall i :: 0 <= i < n ==> childValues[i] == LeafText(ElementAt(m, i), lib)
    }

    /** Decides the layout of an array.  The child values are collected, all of them, whenever the
        decision depends on their length, and otherwise none of them. */
    method IsMultiLineArray(m: seq<Entry>) returns (isMultiLine: bool)
      requires ValidMap(m, false) && PrintableMap(m, lib) && Indented() && ArraySize(m) > 0
      requires !addChildValues
      modifies this
      ensures isMultiLine == IsMultiLine(m, lib)
      ensures indentString == old(indentString) && !addChildValues && document == old(document)
      ensures childValues == [] || (Collected(m, ArraySize(m)) && !AnyNested(m, ArraySize(m)))
      ensures !isMultiLine ==> Collected(m, ArraySize(m))
      decreases MapWeight(m), 3
    {
      var size := ArraySize(m);
      isMultiLine := size * 3 >= RIGHT_MARGIN;
      childValues := [];
      var index := 0;
      while index < size && !isMultiLine
        invariant 0 <= index <= size
        invariant isMultiLine <==> size * 3 >= RIGHT_MARGIN || AnyNested(m, index)
      {
        isMultiLine := IsNested(ElementAt(m, index));
        index := index + 1;
      }
      assert isMultiLine && size * 3 < RIGHT_MARGIN ==> AnyNested(m, size);
      if !isMultiLine {
        var lineLength := CollectChildValues(m, size);
        isMultiLine := lineLength >= RIGHT_MARGIN;
      }
    }

    method CollectChildValues(m: seq<Entry>, size: nat) returns (lineLength: int)
      requires ValidMap(m, false) && PrintableMap(m, lib) && Indented() && size == ArraySize(m) > 0
      requires !addChildValues && childValues == [] && !AnyNested(m, size)
      modifies this
      ensures indentString == old(indentString) && !addChildValues && document == old(document)
      ensures Collected(m, size) && lineLength == 4 + (size - 1) * 2 + LeafLength(m, size, lib)
      decreases MapWeight(m), 2
    {
      assert m != [];
      assert Collected(m, 0);
      hide ArraySize, LeafText, LeafLength, ElementAt, IsNested, ValidMap, PrintableMap, Indented, AnyNested, Collected;
      addChildValues := true;
      lineLength := 4 + (size - 1) * 2;
      LeafLengthNone(m, lib);
      for index := 0 to size
        invariant indentString == old(indentString) && addChildValues && document == old(document)
        invariant Collected(m, index) && lineLength == 4 + (size - 1) * 2 + LeafLength(m, index, lib)
      {
        NotNested(m, size, index);
        LeafLengthNext(m, index, lib);
        var length := CollectChildValue(m, index);
        lineLength := lineLength + length;
      }
      addChildValues := false;
    }

    /** Writes an element into the child values. */
    method CollectChildValue(m: seq<Entry>, index: nat) returns (length: nat)
      requires ValidMap(m, false) && PrintableMap(m, lib) && Indented() && m != []
      requires addChildValues && Collected(m, index) && !IsNested(ElementAt(m, index))
      modifies this
      ensures indentString == old(indentString) && addChildValues && document == old(document)
      ensures Collected(m, index + 1) && length == |LeafText(ElementAt(m, index), lib)|
      decreases MapWeight(m), 1
    {
      hide LeafText, IsNested, ElementAt, ValidMap, PrintableMap, Indented, StyledText;
      ElementIsWritable(m, index, lib);
      ElementIsLighter(m, index);
      WriteValue(ElementAt(m, index));
      length := |childValues[index]|;
    }

    /** One element a line, from the collected child values if there are any. */
    method WriteElementLines(m: seq<Entry>)
      requires ValidMap(m, false) && PrintableMap(m, lib) && Indented() && ArraySize(m) > 0
      requires !addChildValues && AtValue(document) && IsMultiLine(m, lib)
      requires childValues == [] || (Collected(m, ArraySize(m)) && !AnyNested(m, ArraySize(m)))
      modifies this
      ensures indentString == old(indentString) && !addChildValues
      ensures document == old(document) + StyledText(Array(m), |indentString|, lib)
      decreases MapWeight(m), 3
    {
      hide StyledText, IsMultiLine, ArraySize, ElementLines, ValidMap, PrintableMap, AnyNested, LeafText, ElementAt;
      var size := ArraySize(m);
      ghost var indent := |indentString|;
      ArrayText(m, indent, lib);
      ghost var all := document + StyledText(Array(m), indent, lib);
      Regroup(document, [LEFT_BRACKET], ElementLines(m, 0, indent, lib), all);
      WriteWithIndent([LEFT_BRACKET]);
      Indent();
      var hasChildValue := childValues != [];
      var index := 0;
      while true
        invariant 0 <= index < size && Indented() && |indentString| == indent + INDENT_SIZE && !addChildValues
        invariant hasChildValue ==> Collected(m, size) && !AnyNested(m, size)
        invariant EndsInk(document) && document + ElementLines(m, index, indent, lib) == all
        decreases size - index
      {
        WriteElementLine(m, index, hasChildValue, indent, all);
        index := index + 1;
        if index == size {
          break;
        }
        document := Appended(document, [COMMA], ElementLines(m, index, indent, lib), all);
      }
      Unindent();
      WriteWithIndent([RIGHT_BRACKET]);
    }

    method WriteElementLine(m: seq<Entry>, index: nat, hasChildValue: bool, ghost indent: nat, ghost all: Bytes)
      requires ValidMap(m, false) && PrintableMap(m, lib) && index < ArraySize(m)
      requires Indented() && |indentString| == indent + INDENT_SIZE && !addChildValues
      requires hasChildValue ==> Collected(m, ArraySize(m)) && !AnyNested(m, ArraySize(m))
      requires EndsInk(document) && document + ElementLines(m, index, indent, lib) == all
      modifies this
      ensures indentString == old(indentString) && !addChildValues
      ensures hasChildValue ==> childValues == old(childValues)
      ensures EndsInk(document) && document + AfterElementLine(m, index + 1, indent, lib) == all
      decreases MapWeight(m), 2
    {
      ghost var rest := AfterElementLine(m, index + 1, indent, lib);
      var value := ElementAt(m, index);
      ghost var text := StyledText(value, indent + INDENT_SIZE, lib);
      ghost var line := NewLine(indent + INDENT_SIZE);
      assert hasChildValue ==> text == LeafText(value, lib);
      ElementIsWritable(m, index, lib);
      ElementIsLighter(m, index);
      hide StyledText, Lookup, LeafText, ElementLines, AfterElementLine;
      Regroup(document, line, text + rest, all);
      Regroup(document + line, text, rest, all);
      AppendAssociates(document, line, text);
      StyledEndsInk(value, indent + INDENT_SIZE, lib);
      EndsInkAppend(document + line, text);
      if hasChildValue {
        WriteWithIndent(childValues[index]);
      } else {
        WriteIndent();
        WriteValue(value);
      }
    }

    /** All elements on one line, from the collected child values. */
    method WriteInLine(m: seq<Entry>)
      requires ValidMap(m, false) && PrintableMap(m, lib) && ArraySize(m) > 0
      requires Collected(m, ArraySize(m)) && !IsMultiLine(m, lib)
      modifies this`document
      ensures document == old(document) + StyledText(Array(m), |indentString|, lib)
    {
      hide StyledText, IsMultiLine, LeafText, ArraySize, ElementAt, ValidMap, PrintableMap;
      var size := ArraySize(m);
      assert |childValues| == size;
      ArrayText(m, |indentString|, lib);
      ghost var all := document + StyledText(Array(m), |indentString|, lib);
      document := Appended(document, [LEFT_BRACKET, SPACE], ElementsInLine(m, 0, lib), all);
      for index := 0 to size
        invariant document + (if index == 0 then ElementsInLine(m, 0, lib) else AfterElementInLine(m, index, lib)) == all
      {
        if index > 0 {
          document := Appended(document, [COMMA, SPACE], ElementsInLine(m, index, lib), all);
        }
        document := Appended(document, childValues[index], AfterElementInLine(m, index + 1, lib), all);
      }
      document := document + [SPACE, RIGHT_BRACKET];
    }
  }

  lemma ArrayText(m: seq<Entry>, indent: nat, lib: Reals)
    requires ArraySize(m) > 0
    ensures StyledText(Array(m), indent, lib) ==
            if IsMultiLine(m, lib) then [LEFT_BRACKET] + ElementLines(m, 0, indent, lib)
            else [LEFT_BRACKET, SPACE] + ElementsInLine(m, 0, lib)
  {
    hide IsMultiLine, ElementsInLine, ElementLines;
  }

  lemma LeafLengthNone(m: seq<Entry>, lib: Reals)
    ensures LeafLength(m, 0, lib) == 0
  {
  }

  lemma LeafLengthNext(m: seq<Entry>, n: nat, lib: Reals)
    ensures LeafLength(m, n + 1, lib) == LeafLength(m, n, lib) + |LeafText(ElementAt(m, n), lib)|
  {
  }

  lemma NotNested(m: seq<Entry>, n: nat, i: nat)
    requires !AnyNested(m, n) && i < n
    ensures !IsNested(ElementAt(m, i))
  {
  }

  lemma ElementIsLighter(m: seq<Entry>, i: nat)
    requires m != []
    ensures Weight(ElementAt(m, i)) < MapWeight(m)
  {
  }

  lemma {:induction false} SpacesPrefix(n: nat, k: nat)
    requires k <= n
    ensures Spaces(n)[..k] == Spaces(k)
  {
    if k < n {
      SpacesPrefix(n - 1, k);
      assert Spaces(n)[..k] == Spaces(n - 1)[..k];
    }
  }
}
