/** From a file to the cells of an array: the blocks of `split` become values, and `parse` cuts these into fields. */
module LoadPipeline {

  import opened Arithmetic
  import opened ByteText
  import opened Lines
  import Splitting = FileSplitter

  datatype Field = Null | Text(text: Bytes)

  /** "short" and "long" */
  const SHORT: Bytes := [0x73, 0x68, 0x6F, 0x72, 0x74]
  const LONG: Bytes := [0x6C, 0x6F, 0x6E, 0x67]

  // ---------- one line

  function ErrorColumn(tokens: seq<Bytes>, size: nat, d: Byte): Field
    requires size > 0
  {
    if |tokens| < size - 1 then Text(SHORT)
    else if |tokens| > size - 1 then Text(CString(LONG + Tail(tokens[size - 1..], d)))
    else Null
  }

  function FieldAt(tokens: seq<Bytes>, t: nat): Field {
    if t < |tokens| then Text(CString(tokens[t])) else Null
  }

  /** The fields of a line, missing ones null, and the error column last. */
  function Row(line: Bytes, size: nat, d: Byte): (row: seq<Field>)
    requires size > 0
    ensures |row| == size
  {
    var tokens := Split(line, d);
    seq(size - 1, t requires 0 <= t => FieldAt(tokens, t)) + [ErrorColumn(tokens, size, d)]
  }

  function Texts(fields: seq<Field>): seq<Bytes> {
    if fields == [] || fields[0].Null? then [] else [fields[0].text] + Texts(fields[1..])
  }

  /** What the error column tells about the tokens that found no field. */
  function Surplus(error: Field): Bytes {
    if error.Null? || error.text == SHORT || |error.text| < |LONG| then [] else error.text[|LONG|..]
  }

  function Reconstruct(row: seq<Field>, d: Byte): Bytes
    requires row != []
  {
    var last := |row| - 1;
    var text := Tail(Texts(row[..last]), d) + Surplus(row[last]);
    if text == [] then [] else text[1..]
  }

  lemma {:induction false} TokensAreNulFree(line: Bytes, d: Byte, i: nat)
    requires NulFree(line) && i < |Split(line, d)|
    ensures NulFree(Split(line, d)[i])
  {
    if line != [] {
      var rest := Split(line[1..], d);
      if line[0] == d {
        if i > 0 {
          TokensAreNulFree(line[1..], d, i - 1);
        }
      } else {
        TokensAreNulFree(line[1..], d, i);
      }
    }
  }

  lemma {:induction false} TextsOfTokens(tokens: seq<Bytes>, k: nat, fields: seq<Field>)
    requires |fields| == k && forall t: nat :: t < k ==> fields[t] == FieldAt(tokens, t)
    requires forall t :: 0 <= t < |tokens| ==> NulFree(tokens[t])
    ensures Texts(fields) == if k < |tokens| then tokens[..k] else tokens
  {
    if k > 0 && tokens != [] {
      CStringKeeps(tokens[0]);
      TextsOfTokens(tokens[1..], k - 1, fields[1..]);
    }
  }

  lemma NulFreeParts(a: Bytes, b: Bytes)
    ensures NulFree(a + b) <==> NulFree(a) && NulFree(b)
  {
    assert forall i :: 0 <= i < |b| ==> b[i] == (a + b)[|a| + i];
    assert forall i :: 0 <= i < |a| ==> a[i] == (a + b)[i];
  }

  lemma TextIsNulFree(line: Bytes, d: Byte, k: nat)
    requires NulFree(line) && d != NUL && k < |Split(line, d)|
    ensures NulFree(LONG + Tail(Split(line, d)[k..], d))
  {
    hide Split, Tail;
    var tokens := Split(line, d);
    SplitJoins(line, d);
    TailAdds(tokens[..k], tokens[k..], d);
    assert tokens[..k] + tokens[k..] == tokens;
    NulFreeParts([d], line);
    NulFreeParts(Tail(tokens[..k], d), Tail(tokens[k..], d));
    NulFreeParts(LONG, Tail(tokens[k..], d));
  }

  lemma SurplusIsKept(line: Bytes, size: nat, d: Byte)
    requires NulFree(line) && size > 0 && (d != NUL || size > 1)
    ensures var tokens := Split(line, d);
      Surplus(ErrorColumn(tokens, size, d)) == if |tokens| > size - 1 then Tail(tokens[size - 1..], d) else []
  {
    var tokens := Split(line, d);
    if |tokens| > size - 1 {
      if d == NUL {
        NoDelimiters(line, d);
        assert false;
      }
      TextIsNulFree(line, d, size - 1);
      var text := LONG + Tail(tokens[size - 1..], d);
      CStringKeeps(text);
      assert text[0] != SHORT[0];
    }
  }

  lemma {:induction false} NoDelimiters(s: Bytes, d: Byte)
    requires d !in s
    ensures Delimiters(s, d) == 0
  {
    if s != [] {
      NoDelimiters(s[1..], d);
    }
  }

  /** Parsing a line loses nothing: too few or too many fields leave a trace in the error column. */
  lemma RowLosesNothing(line: Bytes, size: nat, d: Byte)
    requires NulFree(line) && size > 0 && (d != NUL || size > 1)
    ensures Reconstruct(Row(line, size, d), d) == line
  {
    hide Split, Tail, CString, ErrorColumn, Surplus, Texts;
    var tokens := Split(line, d);
    var row := Row(line, size, d);
    forall i | 0 <= i < |tokens| ensures NulFree(tokens[i]) {
      TokensAreNulFree(line, d, i);
    }
    TextsOfTokens(tokens, size - 1, row[..size - 1]);
    SurplusIsKept(line, size, d);
    SplitJoins(line, d);
    if |tokens| > size - 1 {
      TailAdds(tokens[..size - 1], tokens[size - 1..], d);
      assert tokens[..size - 1] + tokens[size - 1..] == tokens;
    }
    assert Tail(Texts(row[..size - 1]), d) + Surplus(row[size - 1]) == [d] + line;
  }

  /** What the error column says, by the number of tokens alone: nothing when it is right, "short" when there are too few
      and "long" in front of the rest when there are too many. */
  lemma ErrorColumnSays(line: Bytes, size: nat, d: Byte)
    requires size > 0
    ensures var n, error := Delimiters(line, d) + 1, Row(line, size, d)[size - 1];
      && (error.Null? <==> n == size - 1)
      && (error == Text([0x73, 0x68, 0x6F, 0x72, 0x74]) <==> n < size - 1)
      && (n > size - 1 ==> error.Text? && [0x6C, 0x6F, 0x6E, 0x67] <= error.text)
  {
    hide Split, Tail;
    var tokens := Split(line, d);
    if |tokens| > size - 1 {
      CStringKeepsFront(LONG, Tail(tokens[size - 1..], d));
    }
  }

  lemma {:induction false} CStringKeepsFront(a: Bytes, b: Bytes)
    requires NulFree(a)
    ensures a <= CString(a + b)
  {
    if a != [] {
      assert (a + b)[1..] == a[1..] + b;
      CStringKeepsFront(a[1..], b);
    }
  }

  /** A field is its token up to a zero byte, or null when the line has no such token. */
  lemma FieldSays(line: Bytes, size: nat, d: Byte, t: nat)
    requires t < size - 1
    ensures Row(line, size, d)[t].Null? <==> t > Delimiters(line, d)
    ensures t <= Delimiters(line, d) && NulFree(line) ==> Row(line, size, d)[t] == Text(Split(line, d)[t])
  {
    hide Split;
    if t <= Delimiters(line, d) && NulFree(line) {
      TokensAreNulFree(line, d, t);
      CStringKeeps(Split(line, d)[t]);
    }
  }

  lemma DistinctRows(a: Bytes, b: Bytes, size: nat, d: Byte)
    requires NulFree(a) && NulFree(b) && size > 0 && (d != NUL || size > 1)
    ensures Row(a, size, d) == Row(b, size, d) <==> a == b
  {
    RowLosesNothing(a, size, d);
    RowLosesNothing(b, size, d);
  }

  /** The one excluded case does fail: a zero byte as delimiter hides the line behind it. */
  lemma ZeroDelimiterHidesLine(line: Bytes)
    ensures Row(line, 1, NUL) == [Text(LONG)]
  {
    var tokens := Split(line, NUL);
    var text := LONG + Tail(tokens, NUL);
    assert tokens[0..] == tokens;
    assert text == LONG + [NUL] + (tokens[0] + Tail(tokens[1..], NUL));
    CStringStops(LONG, tokens[0] + Tail(tokens[1..], NUL));
  }

  lemma {:induction false} CStringStops(s: Bytes, rest: Bytes)
    requires NulFree(s)
    ensures CString(s + [NUL] + rest) == s
  {
    if s != [] {
      assert (s + [NUL] + rest)[1..] == s[1..] + [NUL] + rest;
      CStringStops(s[1..], rest);
    }
  }

  // ---------- the cells of a chunk

  datatype Cell = Cell(attribute: nat, position: seq<int>, value: Field)

  /** A field goes to its own attribute, or to its own place along a fourth dimension. */
  function CellAt(onDimension: bool, base: seq<int>, i: nat, value: Field): Cell {
    if onDimension then Cell(0, base + [i], value) else Cell(i, base, value)
  }

  function RowCells(onDimension: bool, base: seq<int>, row: seq<Field>, n: nat): seq<Cell>
    requires n <= |row|
  {
    if n == 0 then [] else RowCells(onDimension, base, row, n - 1) + [CellAt(onDimension, base, n - 1, row[n - 1])]
  }

  datatype Format = Format(lineDelimiter: Byte, attributeDelimiter: Byte, size: nat, onDimension: bool)

  function ChunkCells(f: Format, chunk: seq<int>, lines: seq<Bytes>, n: nat): seq<Cell>
    requires n <= |lines| && f.size > 0
  {
    if n == 0 then []
    else
      ChunkCells(f, chunk, lines, n - 1)
      + RowCells(f.onDimension, chunk + [n - 1], Row(lines[n - 1], f.size, f.attributeDelimiter), f.size)
  }

  /** The lines found in a value, which ends at its first zero byte. */
  function LinesIn(value: Bytes, d: Byte): seq<Bytes> {
    Split(CString(value), d)
  }

  /** The cells of the values, each in a chunk of its own. */
  function FileCells(f: Format, chunks: seq<seq<int>>, values: seq<Bytes>, n: nat): seq<Cell>
    requires n <= |values| == |chunks| && f.size > 0
  {
    if n == 0 then []
    else
      var lines := LinesIn(values[n - 1], f.lineDelimiter);
      FileCells(f, chunks, values, n - 1) + ChunkCells(f, chunks[n - 1], lines, |lines|)
  }

  datatype Outcome = Parsed | NotTerminated | TooManyLines

  class OutputWriter {
    const format: Format
    const chunkSize: nat
    const outputLine: array<Field>
    var outputPosition: seq<int>
    var cells: seq<Cell>

    ghost predicate Valid()
      reads this
    {
      && outputLine.Length == format.size > 0
      && |outputPosition| == if format.onDimension then 4 else 3
    }

    constructor (format: Format, chunkSize: nat)
      requires format.size > 0
      ensures Valid() && cells == [] && this.format == format && this.chunkSize == chunkSize && fresh(outputLine)
    {
      this.format := format;
      this.chunkSize := chunkSize;
      outputLine := new Field[format.size];
      outputPosition := if format.onDimension then [0, 0, 0, 0] else [0, 0, 0];
      cells := [];
    }

    method ProcessChunk(chunk: seq<int>, value: Bytes) returns (outcome: Outcome)
      requires Valid() && |chunk| == 2 && value != []
      modifies this, outputLine
      ensures Valid()
      ensures var lines := LinesIn(value, format.lineDelimiter);
        && (outcome == NotTerminated <==> value[|value| - 1] != NUL)
        && (outcome == TooManyLines <==> value[|value| - 1] == NUL && |lines| > chunkSize)
        && cells == old(cells) + if outcome == Parsed then ChunkCells(format, chunk, lines, |lines|) else []
    {
      hide LinesIn, Row, RowCells;
      outputPosition := outputPosition[0 := chunk[0]][1 := chunk[1]][2 := 0];
      if format.onDimension {
        outputPosition := outputPosition[3 := 0];
      }
      if value[|value| - 1] != NUL {
        return NotTerminated;
      }
      var lines := LinesIn(value, format.lineDelimiter);
      if |lines| > chunkSize {
        return TooManyLines;
      }
      var l := 0;
      while l < |lines|
        invariant Valid() && l <= |lines|
        invariant outputPosition[..3] == chunk + [l]
        invariant cells == old(cells) + ChunkCells(format, chunk, lines, l)
      {
        ParseLine(lines[l]);
        WriteLine(chunk + [l]);
        outputPosition := outputPosition[2 := outputPosition[2] + 1];
        l := l + 1;
      }
      return Parsed;
    }

    method WriteLine(ghost base: seq<int>)
      requires Valid() && outputPosition[..3] == base
      modifies this
      ensures Valid() && outputPosition[..3] == base
      ensures cells == old(cells) + RowCells(format.onDimension, base, outputLine[..], format.size)
    {
      if format.onDimension {
        outputPosition := outputPosition[3 := 0];
      }
      var i := 0;
      while i < format.size
        invariant Valid() && i <= format.size && outputPosition[..3] == base
        invariant format.onDimension ==> outputPosition[3] == i
        invariant cells == old(cells) + RowCells(format.onDimension, base, outputLine[..], i)
      {
        assert outputPosition == if format.onDimension then base + [i] else base;
        cells := cells + [Cell(if format.onDimension then 0 else i, outputPosition, outputLine[i])];
        if format.onDimension {
          outputPosition := outputPosition[3 := outputPosition[3] + 1];
        }
        i := i + 1;
      }
    }

    /** The vector of fields is reused from line to line, so every element is set anew. */
    method ParseLine(line: Bytes)
      requires Valid()
      modifies outputLine
      ensures outputLine[..] == Row(line, format.size, format.attributeDelimiter)
    {
      hide Split;
      var d := format.attributeDelimiter;
      var tokens := Split(line, d);
      var last := format.size - 1;
      if |tokens| < last {
        outputLine[last] := Text(SHORT);
      } else if |tokens| > last {
        var error := LongError(tokens, last, d);
        outputLine[last] := Text(CString(error));
      } else {
        outputLine[last] := Null;
      }
      var t := 0;
      while t < last
        invariant t <= last
        invariant outputLine[last] == ErrorColumn(tokens, format.size, d)
        invariant forall i: nat :: i < t ==> outputLine[i] == FieldAt(tokens, i)
      {
        if t < |tokens| {
          outputLine[t] := Text(CString(tokens[t]));
        } else {
          outputLine[t] := Null;
        }
        t := t + 1;
      }
    }
  }

  method LongError(tokens: seq<Bytes>, from: nat, d: Byte) returns (error: Bytes)
    requires from <= |tokens|
    ensures error == LONG + Tail(tokens[from..], d)
  {
    error := LONG;
    var t := from;
    assert tokens[from..from] == [];
    while t < |tokens|
      invariant from <= t <= |tokens|
      invariant error == LONG + Tail(tokens[from..t], d)
    {
      TailAdds(tokens[from..t], [tokens[t]], d);
      assert tokens[from..t + 1] == tokens[from..t] + [tokens[t]];
      error := error + [d] + tokens[t];
      t := t + 1;
    }
    assert tokens[from..|tokens|] == tokens[from..];
  }

  // ---------- the chunks of a file

  /** A block becomes a zero-terminated string; the zero takes the place of a delimiter at the end. */
  function ValueOf(block: Bytes, d: Byte): (value: Bytes)
    ensures value != [] && value[|value| - 1] == NUL
  {
    Trim(block, d) + [NUL]
  }

  /** One value per block, each in a chunk of its own. */
  class FileSplitArray {
    const splitter: Splitting.FileSplitter
    var rowIndex: nat
    var bufferStart: nat
    var bufferSize: nat

    ghost predicate Valid()
      reads this, splitter, splitter.file, splitter.buffer
    {
      splitter.Valid() && splitter.linesPerBlock > 0 && bufferStart + bufferSize <= splitter.buffer.Length
    }

    /** The block handed out last. */
    ghost function Block(): Bytes
      reads this, splitter, splitter.file, splitter.buffer
      requires Valid()
    {
      splitter.buffer[bufferStart..bufferStart + bufferSize]
    }

    /** The blocks still to come. */
    ghost function Pending(): seq<Bytes>
      reads this, splitter, splitter.file, splitter.buffer
      requires Valid()
    {
      Blocks(splitter.Remaining(), splitter.linesPerBlock, splitter.delimiter)
    }

    /** The block handed out last, if there is one, and those still to come. */
    ghost function Queue(): seq<Bytes>
      reads this, splitter, splitter.file, splitter.buffer
      requires Valid()
    {
      if bufferSize > 0 then [Block()] + Pending() else Pending()
    }

    constructor (contents: Bytes, linesPerChunk: nat, bufferSize: nat, delimiter: Byte, header: int)
      requires linesPerChunk > 0 && bufferSize > 0
      ensures Valid() && fresh(splitter) && fresh(splitter.buffer) && fresh(splitter.file)
      ensures splitter.delimiter == delimiter && rowIndex == 0
      ensures Pending() == Blocks(Body(contents, header, delimiter), linesPerChunk, delimiter)
    {
      splitter := new Splitting.FileSplitter(contents, linesPerChunk, bufferSize, delimiter, header);
      rowIndex := 0;
      bufferStart := 0;
      this.bufferSize := 0;
    }

    method MoveNext() returns (more: bool)
      requires Valid()
      modifies this, splitter, splitter.file, splitter.buffer
      ensures Valid() && (splitter.buffer == old(splitter.buffer) || fresh(splitter.buffer))
      ensures more == (bufferSize > 0)
      ensures rowIndex == old(rowIndex) + if more then 1 else 0
      ensures Queue() == old(Pending()) && (!more ==> Pending() == [])
    {
      hide BlockLength, Blocks, Splitting.FileSplitter.Valid, Splitting.FileSplitter.Remaining;
      ghost var all := splitter.Remaining();
      BlocksStep(all, splitter.linesPerBlock, splitter.delimiter);
      var start, size, _ := splitter.GetBlock();
      ghost var block, rest := splitter.buffer[start..start + size], splitter.Remaining();
      assert all[0..] == all;
      bufferStart, bufferSize := start, size;
      more := bufferSize > 0;
      if more {
        rowIndex := rowIndex + 1;
      }
      assert splitter.Remaining() == rest && Block() == block;
    }

    method GetChunk() returns (chunk: seq<int>, value: Bytes)
      requires Valid() && bufferSize > 0
      ensures chunk == [0, rowIndex - 1]
      ensures value == ValueOf(Block(), splitter.delimiter)
    {
      chunk := [0, rowIndex - 1];
      value := splitter.buffer[bufferStart..bufferStart + bufferSize];
      if value[bufferSize - 1] == splitter.delimiter {
        value := value[bufferSize - 1 := NUL];
      } else {
        value := value + [NUL];
      }
    }
  }

  function ValuesOf(blocks: seq<Bytes>, d: Byte): (values: seq<Bytes>)
    ensures |values| == |blocks|
  {
    if blocks == [] then [] else [ValueOf(blocks[0], d)] + ValuesOf(blocks[1..], d)
  }

  lemma {:induction false} ValueAt(blocks: seq<Bytes>, d: Byte, i: nat)
    requires i < |blocks|
    ensures ValuesOf(blocks, d)[i] == ValueOf(blocks[i], d)
  {
    if i > 0 {
      ValueAt(blocks[1..], d, i - 1);
    }
  }

  /** One value for each block of the file. */
  function Values(contents: Bytes, n: nat, d: Byte): (values: seq<Bytes>)
    requires n > 0
  {
    ValuesOf(Blocks(contents, n, d), d)
  }

  lemma NextValue(values: seq<Bytes>, block: Bytes, pending: seq<Bytes>, d: Byte)
    ensures values + ValuesOf([block] + pending, d) == values + [ValueOf(block, d)] + ValuesOf(pending, d)
  {
    assert ([block] + pending)[1..] == pending;
  }

  /** The chunks of the blocks: one row after the other. */
  function Rows(n: nat): (chunks: seq<seq<int>>)
    ensures |chunks| == n && forall i :: 0 <= i < n ==> chunks[i] == [0, i]
  {
    if n == 0 then [] else Rows(n - 1) + [[0, n - 1]]
  }

  method SplitToValues(contents: Bytes, linesPerChunk: nat, bufferSize: nat, d: Byte, header: int)
    returns (chunks: seq<seq<int>>, values: seq<Bytes>)
    requires linesPerChunk > 0 && bufferSize > 0
    ensures values == Values(Body(contents, header, d), linesPerChunk, d)
    ensures chunks == Rows(|values|)
  {
    hide Blocks, ValueOf, ValuesOf, Body, Splitting.FileSplitter.Valid, Splitting.FileSplitter.Remaining;
    hide FileSplitArray.Pending, FileSplitArray.Block;
    var source := new FileSplitArray(contents, linesPerChunk, bufferSize, d, header);
    chunks, values := [], [];
    var more := source.MoveNext();
    while more
      invariant source.Valid() && fresh(source.splitter) && fresh(source.splitter.buffer) && fresh(source.splitter.file)
      invariant source.splitter.delimiter == d && more == (source.bufferSize > 0)
      invariant |values| == source.rowIndex - (if more then 1 else 0)
      invariant chunks == Rows(|values|)
      invariant values + ValuesOf(source.Queue(), d) == Values(Body(contents, header, d), linesPerChunk, d)
      invariant !more ==> source.Queue() == []
      decreases |source.Queue()|
    {
      var chunk, value := source.GetChunk();
      NextValue(values, source.Block(), source.Pending(), d);
      chunks, values := chunks + [chunk], values + [value];
      more := source.MoveNext();
    }
  }

  ghost predicate Fits(values: seq<Bytes>, d: Byte, chunkSize: nat) {
    forall i :: 0 <= i < |values| ==> |LinesIn(values[i], d)| <= chunkSize
  }

  ghost predicate Terminated(values: seq<Bytes>) {
    forall i :: 0 <= i < |values| ==> values[i] != [] && values[i][|values[i]| - 1] == NUL
  }

  method ParseValues(chunks: seq<seq<int>>, values: seq<Bytes>, f: Format, chunkSize: nat)
    returns (outcome: Outcome, cells: seq<Cell>)
    requires f.size > 0 && |chunks| == |values|
    requires forall i :: 0 <= i < |values| ==> values[i] != [] && |chunks[i]| == 2
    ensures outcome == Parsed <==> Terminated(values) && Fits(values, f.lineDelimiter, chunkSize)
    ensures outcome == NotTerminated ==> !Terminated(values)
    ensures outcome == Parsed ==> cells == FileCells(f, chunks, values, |values|)
  {
    hide LinesIn, ChunkCells;
    var writer := new OutputWriter(f, chunkSize);
    cells := [];
    var i := 0;
    while i < |values|
      invariant i <= |values| && writer.Valid()
      invariant Terminated(values[..i]) && Fits(values[..i], f.lineDelimiter, chunkSize)
      invariant writer.cells == FileCells(f, chunks, values, i)
    {
      outcome := writer.ProcessChunk(chunks[i], values[i]);
      if outcome != Parsed {
        return;
      }
      i := i + 1;
    }
    return Parsed, writer.cells;
  }

  /** Splitting and parsing a whole file: it fails only when a block has more lines than a chunk may hold. */
  method Load(contents: Bytes, linesPerChunk: nat, bufferSize: nat, header: int, f: Format, chunkSize: nat)
    returns (outcome: Outcome, cells: seq<Cell>)
    requires linesPerChunk > 0 && bufferSize > 0 && f.size > 0
    ensures var values := Values(Body(contents, header, f.lineDelimiter), linesPerChunk, f.lineDelimiter);
      && outcome == (if Fits(values, f.lineDelimiter, chunkSize) then Parsed else TooManyLines)
      && (outcome == Parsed ==> cells == FileCells(f, Rows(|values|), values, |values|))
  {
    hide Blocks, FileCells, Fits, Body;
    var d := f.lineDelimiter;
    var chunks, values := SplitToValues(contents, linesPerChunk, bufferSize, d, header);
    forall i | 0 <= i < |values| ensures values[i] != [] && values[i][|values[i]| - 1] == NUL {
      ValueAt(Blocks(Body(contents, header, d), linesPerChunk, d), d, i);
    }
    outcome, cells := ParseValues(chunks, values, f, chunkSize);
  }

  // ---------- what a load delivers

  function LoadedLines(block: Bytes, d: Byte): seq<Bytes> {
    LinesIn(ValueOf(block, d), d)
  }

  lemma {:induction false} CStringOfTerminated(s: Bytes)
    ensures CString(s + [NUL]) == CString(s)
  {
    if s != [] {
      assert (s + [NUL])[1..] == s[1..] + [NUL];
      CStringOfTerminated(s[1..]);
    }
  }

  /** The lines of all values, in order. */
  function AllLines(values: seq<Bytes>, d: Byte): seq<Bytes> {
    if values == [] then [] else LinesIn(values[0], d) + AllLines(values[1..], d)
  }

  /** The lines that a load of a file parses. */
  function Loaded(s: Bytes, n: nat, d: Byte): seq<Bytes>
    requires n > 0
  {
    AllLines(Values(s, n, d), d)
  }

  lemma LoadedStep(s: Bytes, n: nat, d: Byte)
    requires n > 0
    ensures var r := BlockLength(s, n, d);
      Loaded(s, n, d) == if s == [] then [] else LoadedLines(s[..r], d) + Loaded(s[r..], n, d)
  {
    hide BlockLength, LinesIn, ValueOf;
    if s != [] {
      var r := BlockLength(s, n, d);
      assert Values(s, n, d) == [ValueOf(s[..r], d)] + Values(s[r..], n, d) by {
        assert Blocks(s, n, d)[1..] == Blocks(s[r..], n, d);
      }
      assert Values(s, n, d)[1..] == Values(s[r..], n, d);
    }
  }

  ghost predicate SomeHasNul(lines: seq<Bytes>) {
    exists i :: 0 <= i < |lines| && !NulFree(lines[i])
  }

  lemma LoadedLinesAreLines(block: Bytes, d: Byte)
    ensures NulFree(block) ==> LoadedLines(block, d) == LinesOf(block, d)
    ensures !SomeHasNul(LoadedLines(block, d))
  {
    hide Split, CString;
    CStringOfTerminated(Trim(block, d));
    if NulFree(block) {
      CStringKeeps(Trim(block, d));
    }
    var text := CString(Trim(block, d));
    forall i | 0 <= i < |Split(text, d)| ensures NulFree(Split(text, d)[i]) {
      TokensAreNulFree(text, d, i);
    }
  }

  lemma {:induction false} LoadedHaveNoNul(s: Bytes, n: nat, d: Byte)
    requires n > 0
    ensures !SomeHasNul(Loaded(s, n, d))
    decreases |s|
  {
    hide BlockLength, LoadedLines, Loaded;
    LoadedStep(s, n, d);
    if s != [] {
      var r := BlockLength(s, n, d);
      LoadedLinesAreLines(s[..r], d);
      LoadedHaveNoNul(s[r..], n, d);
    }
  }

  lemma {:induction false} NulFreeIsLoaded(s: Bytes, n: nat, d: Byte)
    requires n > 0 && NulFree(s)
    ensures Loaded(s, n, d) == BlockLines(s, n, d)
    decreases |s|
  {
    hide BlockLength, LoadedLines, LinesOf, Loaded;
    LoadedStep(s, n, d);
    if s != [] {
      var r := BlockLength(s, n, d);
      LoadedLinesAreLines(s[..r], d);
      NulFreeIsLoaded(s[r..], n, d);
    }
  }

  lemma NulShowsInLines(s: Bytes, d: Byte)
    requires d != NUL && !NulFree(s)
    ensures SomeHasNul(LinesOf(s, d))
  {
    hide Split;
    var text := Trim(s, d);
    var k :| 0 <= k < |s| && s[k] == NUL;
    assert text[k] == NUL;
    SplitKeepsBytes(text, d, NUL);
    var i :| 0 <= i < |Split(text, d)| && NUL in Split(text, d)[i];
    assert !NulFree(LinesOf(s, d)[i]);
  }

  /**
   * A load delivers, in order, exactly the lines of the whole file, whatever the number of lines in a chunk, if and
   * only if the file holds no zero byte.
   */
  lemma LoadIsExactIffNulFree(s: Bytes, n: nat, d: Byte)
    requires n > 0 && s != [] && d != NUL
    ensures Loaded(s, n, d) == LinesOf(s, d) <==> NulFree(s)
  {
    hide Loaded, LinesOf;
    if NulFree(s) {
      NulFreeIsLoaded(s, n, d);
      BlockLinesAreLines(s, n, d);
    } else {
      LoadedHaveNoNul(s, n, d);
      NulShowsInLines(s, d);
    }
  }

  /** The file "a", zero byte, "b" on one line is loaded as the line "a". */
  lemma ZeroByteCutsLine(s: Bytes, n: nat, d: Byte)
    requires n > 0 && s == [LOWER_A, NUL, LOWER_B] && d == NEWLINE
    ensures Loaded(s, n, d) == [[LOWER_A]] && LinesOf(s, d) == [s]
  {
    hide Loaded, BlockLength, Split, Delimiters, CString;
    WholeBlock(s, n, d);
    assert s[..3] == s && s[3..] == [];
    LoadedStep(s, n, d);
    LoadedStep([], n, d);
    assert ValueOf(s, d) == [LOWER_A] + [NUL] + [LOWER_B, NUL];
    CStringStops([LOWER_A], [LOWER_B, NUL]);
    OneToken([LOWER_A], d);
    OneToken(s, d);
  }

  lemma {:induction false} WholeBlock(s: Bytes, n: nat, d: Byte)
    requires n > 0 && d !in s
    ensures BlockLength(s, n, d) == |s|
  {
    if s != [] {
      WholeBlock(s[1..], n, d);
    }
  }

  lemma OneToken(s: Bytes, d: Byte)
    requires d !in s
    ensures Split(s, d) == [s]
  {
    hide Split;
    NoDelimiters(s, d);
    var tokens := Split(s, d);
    SplitJoins(s, d);
    assert Tail(tokens, d) == [d] + tokens[0] + [];
    assert tokens[0] == ([d] + tokens[0])[1..] == ([d] + s)[1..] == s;
  }

  lemma {:induction false} BlocksAreNulFree(s: Bytes, n: nat, d: Byte, i: nat)
    requires n > 0 && NulFree(s) && i < |Blocks(s, n, d)|
    ensures NulFree(Blocks(s, n, d)[i])
    decreases |s|
  {
    hide BlockLength;
    var r := BlockLength(s, n, d);
    if i > 0 {
      BlocksAreNulFree(s[r..], n, d, i - 1);
    }
  }

  /** Line k of a file is parsed into chunk k / n, as its line k % n. */
  lemma LoadedLineIsAt(s: Bytes, n: nat, d: Byte, i: nat, l: nat)
    requires n > 0 && NulFree(s) && i < |Values(s, n, d)| && l < |LinesIn(Values(s, n, d)[i], d)|
    ensures l < n && i * n + l < |LinesOf(s, d)|
    ensures LinesIn(Values(s, n, d)[i], d)[l] == LinesOf(s, d)[i * n + l]
  {
    hide Blocks, LinesIn, ValueOf, ValuesOf, LinesOf;
    ValueAt(Blocks(s, n, d), d, i);
    BlocksAreNulFree(s, n, d, i);
    LoadedLinesAreLines(Blocks(s, n, d)[i], d);
    LineIsAt(s, n, d, i, l);
  }

  lemma {:induction false} CStringIsPrefix(s: Bytes)
    ensures CString(s) <= s
  {
    if s != [] {
      CStringIsPrefix(s[1..]);
    }
  }

  lemma LoadedAreNoMore(block: Bytes, d: Byte)
    ensures |LoadedLines(block, d)| <= |LinesOf(block, d)|
  {
    hide CString, Delimiters;
    var text := Trim(block, d);
    CStringOfTerminated(text);
    CStringIsPrefix(text);
    var k := |CString(text)|;
    assert text == CString(text) + text[k..];
    DelimitersAdd(CString(text), text[k..], d);
  }

  lemma {:induction false} BlocksHoldFewLines(s: Bytes, n: nat, d: Byte, i: nat)
    requires n > 0 && i < |Blocks(s, n, d)|
    ensures |LinesOf(Blocks(s, n, d)[i], d)| <= n && |LinesOf(Blocks(s, n, d)[i], d)| <= |LinesOf(s, d)|
    decreases |s|
  {
    hide BlockLength, LinesOf;
    var r := BlockLength(s, n, d);
    BlockHasFullLines(s, n, d);
    FirstBlockLines(s, n, d);
    assert r == |s| ==> s[..r] == s && s[r..] == [];
    if i > 0 {
      BlocksHoldFewLines(s[r..], n, d, i - 1);
    }
  }

  /** With no more lines to a block than to a chunk, no file can fail. */
  lemma EnoughRoomAlwaysFits(s: Bytes, n: nat, d: Byte, chunkSize: nat)
    requires 0 < n <= chunkSize
    ensures Fits(Values(s, n, d), d, chunkSize)
  {
    hide Blocks, LinesIn, ValueOf, LinesOf;
    var blocks := Blocks(s, n, d);
    forall i | 0 <= i < |blocks| ensures |LinesIn(Values(s, n, d)[i], d)| <= chunkSize {
      ValueAt(blocks, d, i);
      LoadedAreNoMore(blocks[i], d);
      BlocksHoldFewLines(s, n, d, i);
    }
  }

  /** Otherwise a file without zero bytes fails exactly when it has more lines than a chunk may hold. */
  lemma FitsExactlyWhen(s: Bytes, n: nat, d: Byte, chunkSize: nat)
    requires n > 0 && NulFree(s) && s != []
    ensures Fits(Values(s, n, d), d, chunkSize)
       <==> n <= chunkSize || |LinesOf(s, d)| <= chunkSize
  {
    hide BlockLength, LinesIn, ValueOf, LinesOf;
    var blocks := Blocks(s, n, d);
    forall i | 0 <= i < |blocks| ensures |LinesIn(Values(s, n, d)[i], d)| <= |LinesOf(s, d)| {
      ValueAt(blocks, d, i);
      LoadedAreNoMore(blocks[i], d);
      BlocksHoldFewLines(s, n, d, i);
    }
    if n <= chunkSize {
      EnoughRoomAlwaysFits(s, n, d, chunkSize);
    } else {
      var r := BlockLength(s, n, d);
      BlockHasFullLines(s, n, d);
      LoadedLinesAreLines(s[..r], d);
      assert r == |s| ==> s[..r] == s;
      ValueAt(blocks, d, 0);
    }
  }

  // ---------- where every field goes

  /** Field j of the line in slot l of a chunk. */
  function LineCell(f: Format, chunk: seq<int>, line: Bytes, l: nat, j: nat): Cell
    requires j < f.size
  {
    CellAt(f.onDimension, chunk + [l], j, Row(line, f.size, f.attributeDelimiter)[j])
  }

  lemma {:induction false} RowCellIn(f: Format, chunk: seq<int>, line: Bytes, l: nat, n: nat, c: Cell)
    requires n <= f.size && f.size > 0
    ensures c in RowCells(f.onDimension, chunk + [l], Row(line, f.size, f.attributeDelimiter), n)
       <==> exists j: nat :: j < n && c == LineCell(f, chunk, line, l, j)
  {
    hide Row, CellAt;
    if n > 0 {
      RowCellIn(f, chunk, line, l, n - 1, c);
      assert LineCell(f, chunk, line, l, n - 1) in
             RowCells(f.onDimension, chunk + [l], Row(line, f.size, f.attributeDelimiter), n);
    }
  }

  lemma {:induction false} ChunkCellIn(f: Format, chunk: seq<int>, lines: seq<Bytes>, n: nat, c: Cell)
    requires n <= |lines| && f.size > 0
    ensures c in ChunkCells(f, chunk, lines, n)
       <==> exists l: nat, j: nat :: l < n && j < f.size && c == LineCell(f, chunk, lines[l], l, j)
  {
    hide LineCell, RowCells, Row;
    if n > 0 {
      ChunkCellIn(f, chunk, lines, n - 1, c);
      RowCellIn(f, chunk, lines[n - 1], n - 1, f.size, c);
    }
  }

  lemma {:induction false} FileCellIn(f: Format, chunks: seq<seq<int>>, values: seq<Bytes>, n: nat, c: Cell)
    requires n <= |values| == |chunks| && f.size > 0
    ensures c in FileCells(f, chunks, values, n)
       <==> exists i: nat, l: nat, j: nat :: i < n && l < |LinesIn(values[i], f.lineDelimiter)| && j < f.size
              && c == LineCell(f, chunks[i], LinesIn(values[i], f.lineDelimiter)[l], l, j)
  {
    hide LineCell, ChunkCells, LinesIn;
    if n > 0 {
      var lines := LinesIn(values[n - 1], f.lineDelimiter);
      FileCellIn(f, chunks, values, n - 1, c);
      ChunkCellIn(f, chunks[n - 1], lines, |lines|, c);
    }
  }

  /**
   * The cells of a loaded file without zero bytes are exactly these: for each line k of the file and each column j, the
   * field j of that line's row, at chunk k / n and slot k % n.
   */
  lemma LoadedCells(f: Format, s: Bytes, n: nat, c: Cell)
    requires n > 0 && f.size > 0 && s != [] && NulFree(s)
    ensures var values, lines := Values(s, n, f.lineDelimiter), LinesOf(s, f.lineDelimiter);
      c in FileCells(f, Rows(|values|), values, |values|)
      <==> exists k: nat, j: nat :: k < |lines| && j < f.size && c == LineCell(f, [0, k / n], lines[k], k % n, j)
  {
    hide LineCell, FileCells, LinesIn, LinesOf, Values, Blocks;
    var d := f.lineDelimiter;
    var values, lines := Values(s, n, d), LinesOf(s, d);
    FileCellIn(f, Rows(|values|), values, |values|, c);
    if c in FileCells(f, Rows(|values|), values, |values|) {
      var i: nat, l: nat, j: nat :| i < |values| && l < |LinesIn(values[i], d)| && j < f.size
        && c == LineCell(f, Rows(|values|)[i], LinesIn(values[i], d)[l], l, j);
      LoadedLineIsAt(s, n, d, i, l);
      QuotientAndRemainder(n, i, l);
      var k := i * n + l;
      assert c == LineCell(f, [0, k / n], lines[k], k % n, j);
    }
    forall k: nat, j: nat | k < |lines| && j < f.size ensures LineCell(f, [0, k / n], lines[k], k % n, j) in
      FileCells(f, Rows(|values|), values, |values|)
    {
      LineCellIsLoaded(f, s, n, k, j);
    }
  }

  lemma LineCellIsLoaded(f: Format, s: Bytes, n: nat, k: nat, j: nat)
    requires n > 0 && s != [] && NulFree(s) && k < |LinesOf(s, f.lineDelimiter)| && j < f.size
    ensures var values := Values(s, n, f.lineDelimiter);
      LineCell(f, [0, k / n], LinesOf(s, f.lineDelimiter)[k], k % n, j) in FileCells(f, Rows(|values|), values, |values|)
  {
    hide LineCell, FileCells, LinesIn, LinesOf, Blocks, ValueOf;
    var d := f.lineDelimiter;
    var values := Values(s, n, d);
    var i, l := LineIsInBlock(s, n, d, k);
    BlocksAreNulFree(s, n, d, i);
    LoadedLinesAreLines(Blocks(s, n, d)[i], d);
    ValueAt(Blocks(s, n, d), d, i);
    LoadedLineIsAt(s, n, d, i, l);
    QuotientAndRemainder(n, i, l);
    FileCellIn(f, Rows(|values|), values, |values|, LineCell(f, [0, i], LinesIn(values[i], d)[l], l, j));
  }

  /** The attribute and the coordinates of a field, in either layout. */
  lemma LineCellIsAt(f: Format, row: int, chunk: int, line: Bytes, l: nat, j: nat)
    requires j < f.size
    ensures var c := LineCell(f, [row, chunk], line, l, j);
      && c.value == Row(line, f.size, f.attributeDelimiter)[j]
      && (f.onDimension ==> c.attribute == 0 && c.position == [row, chunk, l, j])
      && (!f.onDimension ==> c.attribute == j && c.position == [row, chunk, l])
  {
    hide Row;
    assert [row, chunk] + [l] == [row, chunk, l];
    assert [row, chunk, l] + [j] == [row, chunk, l, j];
  }

  // ---------- the cells carry the lines in order

  function FieldsOf(cells: seq<Cell>): seq<Field> {
    if cells == [] then [] else [cells[0].value] + FieldsOf(cells[1..])
  }

  function RowsOf(f: Format, lines: seq<Bytes>): seq<Field>
    requires f.size > 0
  {
    if lines == [] then [] else Row(lines[0], f.size, f.attributeDelimiter) + RowsOf(f, lines[1..])
  }

  lemma {:induction false} FieldsAppend(a: seq<Cell>, b: seq<Cell>)
    ensures FieldsOf(a + b) == FieldsOf(a) + FieldsOf(b)
  {
    if a == [] {
      assert a + b == b;
    } else {
      assert (a + b)[1..] == a[1..] + b;
      FieldsAppend(a[1..], b);
    }
  }

  lemma {:induction false} RowsAppend(f: Format, a: seq<Bytes>, b: seq<Bytes>)
    requires f.size > 0
    ensures RowsOf(f, a + b) == RowsOf(f, a) + RowsOf(f, b)
  {
    hide Row;
    if a == [] {
      assert a + b == b;
    } else {
      assert (a + b)[1..] == a[1..] + b;
      RowsAppend(f, a[1..], b);
    }
  }

  lemma {:induction false} AllLinesAppend(values: seq<Bytes>, value: Bytes, d: Byte)
    ensures AllLines(values + [value], d) == AllLines(values, d) + LinesIn(value, d)
  {
    hide LinesIn;
    if values == [] {
      assert values + [value] == [value] && [value][1..] == [];
    } else {
      assert (values + [value])[1..] == values[1..] + [value];
      AllLinesAppend(values[1..], value, d);
    }
  }

  lemma {:induction false} RowCellsCarryRow(onDimension: bool, base: seq<int>, row: seq<Field>, n: nat)
    requires n <= |row|
    ensures FieldsOf(RowCells(onDimension, base, row, n)) == row[..n]
  {
    if n > 0 {
      RowCellsCarryRow(onDimension, base, row, n - 1);
      var last := CellAt(onDimension, base, n - 1, row[n - 1]);
      FieldsAppend(RowCells(onDimension, base, row, n - 1), [last]);
      assert [last][1..] == [] && FieldsOf([last]) == [row[n - 1]];
    }
  }

  lemma {:induction false} ChunkCellsCarryLines(f: Format, chunk: seq<int>, lines: seq<Bytes>, n: nat)
    requires n <= |lines| && f.size > 0
    ensures FieldsOf(ChunkCells(f, chunk, lines, n)) == RowsOf(f, lines[..n])
  {
    hide Row, RowCells;
    if n > 0 {
      var row := Row(lines[n - 1], f.size, f.attributeDelimiter);
      ChunkCellsCarryLines(f, chunk, lines, n - 1);
      RowCellsCarryRow(f.onDimension, chunk + [n - 1], row, f.size);
      FieldsAppend(ChunkCells(f, chunk, lines, n - 1), RowCells(f.onDimension, chunk + [n - 1], row, f.size));
      var one: seq<Bytes> := [lines[n - 1]];
      RowsAppend(f, lines[..n - 1], one);
      assert lines[..n] == lines[..n - 1] + one;
      assert one[1..] == [] && RowsOf(f, one) == row + [];
    }
  }

  /** The cells that a load writes are, in order, the rows of the lines of its values. */
  lemma {:induction false} CellsCarryLines(f: Format, chunks: seq<seq<int>>, values: seq<Bytes>, n: nat)
    requires n <= |values| == |chunks| && f.size > 0
    ensures FieldsOf(FileCells(f, chunks, values, n)) == RowsOf(f, AllLines(values[..n], f.lineDelimiter))
  {
    hide RowsOf, ChunkCells, LinesIn, FieldsOf;
    if n == 0 {
      NoCellsNoLines(f);
    } else {
      var lines := LinesIn(values[n - 1], f.lineDelimiter);
      CellsCarryLines(f, chunks, values, n - 1);
      ChunkCellsCarryLines(f, chunks[n - 1], lines, |lines|);
      assert lines[..|lines|] == lines;
      FieldsAppend(FileCells(f, chunks, values, n - 1), ChunkCells(f, chunks[n - 1], lines, |lines|));
      assert values[..n] == values[..n - 1] + [values[n - 1]];
      AllLinesAppend(values[..n - 1], values[n - 1], f.lineDelimiter);
      RowsAppend(f, AllLines(values[..n - 1], f.lineDelimiter), lines);
    }
  }

  lemma NoCellsNoLines(f: Format)
    requires f.size > 0
    ensures FieldsOf([]) == [] && RowsOf(f, []) == []
  {
  }

  /** What a load of a file writes: the rows of its loaded lines. */
  lemma LoadCarriesLoadedLines(f: Format, s: Bytes, n: nat)
    requires n > 0 && f.size > 0
    ensures var values := Values(s, n, f.lineDelimiter);
      FieldsOf(FileCells(f, Rows(|values|), values, |values|)) == RowsOf(f, Loaded(s, n, f.lineDelimiter))
  {
    hide Values, FileCells, RowsOf, FieldsOf, AllLines;
    var values := Values(s, n, f.lineDelimiter);
    CellsCarryLines(f, Rows(|values|), values, |values|);
    assert values[..|values|] == values;
  }
}
