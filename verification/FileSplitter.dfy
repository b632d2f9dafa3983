/** Cutting a file into blocks of whole lines through one growing buffer. */
module FileSplitter {

  import opened ByteText
  import opened Lines

  /** The bytes of a file, and how many of them have been read. A short read means end of file. */
  class InputFile {
    const contents: Bytes
    var position: nat
    var open: bool

    ghost predicate Valid()
      reads this
    {
      position <= |contents|
    }

    constructor (contents: Bytes)
      ensures Valid() && this.contents == contents && position == 0 && open
    {
      this.contents := contents;
      position := 0;
      open := true;
    }

    method Read(buffer: array<Byte>, offset: nat, size: nat) returns (count: nat)
      requires Valid() && open && offset + size <= buffer.Length
      modifies this, buffer
      ensures Valid() && open && count == if size < |contents| - old(position) then size else |contents| - old(position)
      ensures position == old(position) + count
      ensures buffer[..offset] == old(buffer[..offset])
      ensures buffer[offset..offset + count] == contents[old(position)..position]
    {
      count := if size < |contents| - position then size else |contents| - position;
      forall i | 0 <= i < count {
        buffer[offset + i] := contents[position + i];
      }
      position := position + count;
      assert buffer[offset..offset + count] == contents[old(position)..position];
      assert buffer[..offset] == old(buffer[..offset]);
    }

    /** Reads through the next delimiter, or to the end; the result is negative if there was nothing to read. */
    method GetDelim(delimiter: Byte) returns (count: int)
      requires Valid() && open
      modifies this
      ensures Valid() && open
      ensures position == old(position) + BlockLength(contents[old(position)..], 1, delimiter)
      ensures count == if position == old(position) then -1 else position - old(position)
    {
      var size := BlockLength(contents[position..], 1, delimiter);
      position := position + size;
      count := if size == 0 then -1 else size;
    }

    /** Reads past the lines of the header, or to the end of a file that has fewer. */
    method SkipHeader(header: int, delimiter: Byte)
      requires Valid() && open && position == 0
      modifies this
      ensures Valid() && open && contents[position..] == Body(contents, header, delimiter)
    {
      var count, j := 0, 0;
      ghost var lines: nat := if header > 0 then header else 0;
      assert contents[0..] == contents;
      while j < header && count >= 0
        invariant Valid() && open && 0 <= j <= lines
        invariant BlockLength(contents, lines, delimiter)
               == position + BlockLength(contents[position..], lines - j, delimiter)
        invariant count < 0 ==> position == |contents|
      {
        ghost var rest := contents[position..];
        BlockLengthAdds(rest, lines - j, delimiter);
        count := GetDelim(delimiter);
        assert contents[position..] == rest[BlockLength(rest, 1, delimiter)..];
        j := j + 1;
      }
      assert BlockLength(contents[position..], lines - j, delimiter) == 0;
    }

    method Close()
      requires open
      modifies this
      ensures !open && position == old(position)
    {
      open := false;
    }
  }

  class FileSplitter {
    const linesPerBlock: nat
    const delimiter: Byte
    const file: InputFile
    var buffer: array<Byte>
    var dataStart: nat
    var dataSize: nat
    var endOfFile: bool

    /** Until the end of the file is met, the data reaches to the end of the buffer. */
    ghost predicate Valid()
      reads this, file, buffer
    {
      && linesPerBlock > 0 && buffer.Length > 0
      && dataStart + dataSize <= buffer.Length
      && file.Valid() && file.open == !endOfFile
      && (endOfFile ==> file.position == |file.contents|)
      && (!endOfFile ==> dataStart + dataSize == buffer.Length)
    }

    /** What has not been handed out yet: the data in the buffer, then the unread part of the file. */
    ghost function Remaining(): (r: Bytes)
      reads this, file, buffer
      requires Valid()
      ensures dataSize <= |r| && (endOfFile ==> |r| == dataSize)
    {
      buffer[dataStart..dataStart + dataSize] + file.contents[file.position..]
    }

    constructor (contents: Bytes, linesPerBlock: nat, bufferSize: nat, delimiter: Byte, header: int)
      requires linesPerBlock > 0 && bufferSize > 0
      ensures Valid() && fresh(buffer) && fresh(file)
      ensures this.linesPerBlock == linesPerBlock && this.delimiter == delimiter
      ensures Remaining() == Body(contents, header, delimiter)
    {
      this.linesPerBlock := linesPerBlock;
      this.delimiter := delimiter;
      file := new InputFile(contents);
      buffer := new Byte[bufferSize];
      dataStart := 0;
      endOfFile := false;
      new;
      file.SkipHeader(header, delimiter);
      ghost var start := file.position;
      dataSize := file.Read(buffer, 0, bufferSize);
      if dataSize != bufferSize {
        endOfFile := true;
        file.Close();
      }
      assert contents[start..] == contents[start..file.position] + contents[file.position..];
    }

    /**
     * Makes room behind the data and reads on. The data keeps its meaning; `internalError` is the failed check that a
     * buffer which cannot be shifted is full.
     */
    method EatMoreData() returns (newDataStart: nat, internalError: bool)
      requires Valid() && !endOfFile
      modifies this, file, buffer
      ensures Valid() && !internalError
      ensures buffer == old(buffer) || fresh(buffer)
      ensures newDataStart == dataStart + old(dataSize) && old(dataSize) <= dataSize
      ensures Remaining() == old(Remaining())
      ensures file.position >= old(file.position) && (file.position == old(file.position) ==> endOfFile)
    {
      ghost var data := buffer[dataStart..dataStart + dataSize];
      internalError := MakeRoom();
      newDataStart := dataSize;
      var bytesRead := Fill();
      dataStart := 0;
      dataSize := dataSize + bytesRead;
      Rejoin(data, file.contents, old(file.position), file.position);
    }

    /** Reads as much as there is room for behind the data, and closes the file when it falls short. */
    method Fill() returns (bytesRead: nat)
      requires file.Valid() && file.open && !endOfFile && dataSize < buffer.Length
      modifies this`endOfFile, file, buffer
      ensures dataSize + bytesRead <= buffer.Length
      ensures file.Valid() && file.open == !endOfFile && file.position == old(file.position) + bytesRead
      ensures if endOfFile then file.position == |file.contents| else dataSize + bytesRead == buffer.Length
      ensures buffer[..dataSize + bytesRead]
           == old(buffer[..dataSize]) + file.contents[old(file.position)..file.position]
    {
      var remainder := buffer.Length - dataSize;
      bytesRead := file.Read(buffer, dataSize, remainder);
      if bytesRead != remainder {
        endOfFile := true;
        file.Close();
      }
      assert buffer[..dataSize + bytesRead] == buffer[..dataSize] + buffer[dataSize..dataSize + bytesRead];
    }

    /** The data is moved to the front of the buffer or, if it is there already, the buffer is doubled. */
    method MakeRoom() returns (internalError: bool)
      requires dataStart + dataSize == buffer.Length > 0
      modifies this`buffer, buffer
      ensures !internalError && dataSize < buffer.Length
      ensures buffer == old(buffer) || fresh(buffer)
      ensures buffer[..dataSize] == old(buffer[dataStart..dataStart + dataSize])
    {
      internalError := false;
      if dataStart != 0 {
        Move();
      } else {
        internalError := dataSize != buffer.Length;
        Grow();
        assert buffer[..dataSize] == old(buffer[..]);
      }
    }

    /** The data is copied to the start of the buffer as by a simultaneous assignment. */
    method Move()
      requires dataStart + dataSize <= buffer.Length
      modifies buffer
      ensures buffer[..dataSize] == old(buffer[dataStart..dataStart + dataSize])
    {
      forall i | 0 <= i < dataSize {
        buffer[i] := buffer[dataStart + i];
      }
    }

    method Grow()
      modifies this`buffer
      ensures fresh(buffer) && buffer.Length == 2 * old(buffer).Length
      ensures buffer[..old(buffer).Length] == old(buffer)[..]
    {
      var larger := new Byte[2 * buffer.Length];
      forall i | 0 <= i < buffer.Length {
        larger[i] := buffer[i];
      }
      buffer := larger;
    }

    static lemma Rejoin(data: Bytes, contents: Bytes, from: nat, to: nat)
      requires from <= to <= |contents|
      ensures (data + contents[from..to]) + contents[to..] == data + contents[from..]
    {
      assert contents[from..] == contents[from..to] + contents[to..];
    }

    /** The next block is taken off the front of what remains; it is empty only when nothing remains. */
    method GetBlock() returns (start: nat, numCharacters: nat, ghost failed: bool)
      requires Valid()
      modifies this, file, buffer
      ensures Valid() && !failed
      ensures buffer == old(buffer) || fresh(buffer)
      ensures numCharacters == BlockLength(old(Remaining()), linesPerBlock, delimiter)
      ensures start + numCharacters <= buffer.Length
      ensures buffer[start..start + numCharacters] == old(Remaining())[..numCharacters]
      ensures Remaining() == old(Remaining())[numCharacters..]
    {
      hide BlockLength, Remaining;
      failed := false;
      var lineCounter := linesPerBlock;
      var ch := dataStart;
      numCharacters := 0;
      ghost var all := Remaining();
      assert all[0..] == all;
      while true
        invariant Valid() && Remaining() == all && !failed
        invariant buffer == old(buffer) || fresh(buffer)
        invariant ch == dataStart + numCharacters && numCharacters <= dataSize
        invariant BlockLength(all, linesPerBlock, delimiter)
               == numCharacters + BlockLength(all[numCharacters..], lineCounter, delimiter)
        decreases |file.contents| - file.position, if endOfFile then 0 else 1
      {
        ch, numCharacters, lineCounter := CountLines(ch, numCharacters, lineCounter, all);
        if lineCounter == 0 || endOfFile {
          break;
        }
        ch, failed := EatMoreData();
      }
      BlockEnd(all[numCharacters..], lineCounter, delimiter);
      start := TakeBlock(ch, numCharacters);
    }

    /** Walks on through the data until it ends or the wanted number of delimiters has been met. */
    method CountLines(from: nat, done: nat, lines: nat, ghost all: Bytes)
      returns (ch: nat, numCharacters: nat, lineCounter: nat)
      requires Valid() && Remaining() == all && from == dataStart + done && done <= dataSize
      ensures ch == dataStart + numCharacters && done <= numCharacters <= dataSize
      ensures lineCounter == 0 || numCharacters == dataSize
      ensures done + BlockLength(all[done..], lines, delimiter)
           == numCharacters + BlockLength(all[numCharacters..], lineCounter, delimiter)
    {
      hide BlockLength;
      ch, numCharacters, lineCounter := from, done, lines;
      while numCharacters < dataSize && lineCounter != 0
        invariant ch == dataStart + numCharacters && done <= numCharacters <= dataSize
        invariant done + BlockLength(all[done..], lines, delimiter)
               == numCharacters + BlockLength(all[numCharacters..], lineCounter, delimiter)
      {
        assert buffer[ch] == buffer[dataStart..dataStart + dataSize][numCharacters] == all[numCharacters];
        BlockStep(all, numCharacters, lineCounter, delimiter);
        if buffer[ch] == delimiter {
          lineCounter := lineCounter - 1;
        }
        ch := ch + 1;
        numCharacters := numCharacters + 1;
      }
    }

    method TakeBlock(ch: nat, numCharacters: nat) returns (start: nat)
      requires Valid() && ch == dataStart + numCharacters && numCharacters <= dataSize
      modifies this`dataStart, this`dataSize
      ensures Valid() && start + numCharacters <= buffer.Length
      ensures buffer[start..start + numCharacters] == old(Remaining())[..numCharacters]
      ensures Remaining() == old(Remaining())[numCharacters..]
    {
      ghost var data := buffer[dataStart..dataStart + dataSize];
      start := dataStart;
      dataStart := ch;
      dataSize := dataSize - numCharacters;
      assert buffer[start..start + numCharacters] == data[..numCharacters];
      assert buffer[dataStart..dataStart + dataSize] == data[numCharacters..];
    }

    static lemma BlockStep(s: Bytes, k: nat, n: nat, d: Byte)
      requires k < |s| && n > 0
      ensures BlockLength(s[k..], n, d) == 1 + BlockLength(s[k + 1..], if s[k] == d then n - 1 else n, d)
    {
      assert s[k..][1..] == s[k + 1..];
    }

    static lemma BlockEnd(s: Bytes, n: nat, d: Byte)
      ensures n == 0 || s == [] ==> BlockLength(s, n, d) == 0
    {
    }
  }

  /** The blocks do not depend on the size of the buffer. */
  method SplitFile(contents: Bytes, linesPerBlock: nat, bufferSize: nat, delimiter: Byte, header: int)
    returns (blocks: seq<Bytes>)
    requires linesPerBlock > 0 && bufferSize > 0
    ensures blocks == Blocks(Body(contents, header, delimiter), linesPerBlock, delimiter)
  {
    hide BlockLength, Blocks, Body, FileSplitter.Valid, FileSplitter.Remaining;
    blocks := [];
    var splitter := new FileSplitter(contents, linesPerBlock, bufferSize, delimiter, header);
    var more := true;
    while more
      invariant splitter.Valid() && fresh(splitter) && fresh(splitter.buffer) && fresh(splitter.file)
      invariant splitter.linesPerBlock == linesPerBlock && splitter.delimiter == delimiter
      invariant blocks + Blocks(splitter.Remaining(), linesPerBlock, delimiter)
             == Blocks(Body(contents, header, delimiter), linesPerBlock, delimiter)
      invariant !more ==> splitter.Remaining() == []
      decreases |splitter.Remaining()|, more
    {
      BlocksStep(splitter.Remaining(), linesPerBlock, delimiter);
      var start, count, _ := splitter.GetBlock();
      more := count > 0;
      if more {
        blocks := blocks + [splitter.buffer[start..start + count]];
      }
    }
    BlocksStep([], linesPerBlock, delimiter);
  }
}
