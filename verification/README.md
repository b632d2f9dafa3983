# A model of parts of SciDB

This project models five parts of SciDB and proves what they are for. Nothing was executed: all results are proofs
about the model.

* **JSON library** (`extern/lib_json`). `JsonValue` orders values. `JsonString`, `JsonNumber` and `JsonToken` hold the
  lexical rules, `JsonParse` the grammar over tokens, and `JsonReader` the reader object that works on bytes, with its
  cursor, node stack and error list, proved to compute that grammar. `JsonDocuments` says what that grammar makes of
  whole objects, arrays and errors. `JsonPrint` gives the texts of the two writers, `JsonWriter` the writer objects
  that produce them, `JsonLayout` what these texts look like byte by byte, and `JsonRoundTrip` joins both ends.
  `BatchAllocator` is the library's page allocator, as a class and as a state machine over its operations.
* **MurmurHash3** (`extern/MurmurHash`). `MurmurWords`, `HashFold` and the modules of `Murmur3.dfy`: the three
  variants as loops, and the proof that a difference inside one block or inside the tail always shows in the hash.
  `MurmurReference.dfy` has the algorithm a second time, with its literal constants, the proof that both agree, and
  known answers.
* **match and bestmatch** (`examples/match`, `examples/bestmatch`). `SpatialHash` is the chained table over quantised
  coordinates, `MatchArray`, `MatchOutput` and `BestMatchArray` the operators that use it, and `MatchCache` the locking
  protocol of `findMatch` (that of `findBestMatch` is the same) as a state machine over all interleavings.
* **Load tools** (`examples/load_tools`). `Lines` says what blocks and lines are, `FileSplitter` cuts a file through one
  growing buffer, and `LoadPipeline` carries a file through `split` and `parse`.

`ByteText` and `Arithmetic` hold what several parts share.

Functions say what is computed, methods and classes follow the loops and updates of the source and are proved against
those functions, and lemmas state the results. `dafny verify dfyconfig.toml` checks everything.

## Where the code falls short of its promise

* The overflow guard of `decodeNumber` does not tell a value above the threshold from one at it
  (`JsonNumber.OverflowIsSilent`).
* `decodeDouble` writes a zero byte behind its buffer for a numeral of 32 bytes (`JsonReader.DecodeDoubleText`).
* An escape of the second half of a surrogate pair is accepted on its own and gives bytes that are not well-formed
  (`JsonString.EscapeIsWellFormed`).
* An exception while a table of matches is built leaves it busy for ever (`MatchCache.AbortStrands`).
* Squared distances and the square of the error wrap around at 2^64 (`BestMatchArray.OverflowRecordsStranger`,
  `BestMatchArray.LargeErrorMissesNeighbour`); `BestMatchArray.NearestIffFaithful` has the condition.
* Pages are overrun unless the block size divides the page size (`BatchAllocator.RunawayLeavesPage`).
* A zero byte cuts a block short when it is parsed (`LoadPipeline.LoadIsExactIffNulFree`).

In each case the exact condition under which the code does keep its promise is proved.

## Reading the model

* Bytes are numbers from 0 to 255; JSON maps are lists of entries with ascending keys, so that they can be compared and
  printed in map order; arrays may have holes, as in the source.
* Doubles are real numbers. Printing and scanning them is left to two functions given as parameters, and a value is
  printable if they undo each other on its doubles.
* A thread's step in `MatchCache` is one critical section, one filled cell, or the end of a build. Waiting threads may
  also wake without a signal. A weak pointer can be locked exactly while some thread holds the table.
* In `BatchAllocator` the owner of a held block may write anything into it, at any time.

## Model

| member | source | states |
|---|---|---|
| `JsonValue.KeyTrichotomy` | extern/lib_json/json_value.cpp:170-184 | Of two keys exactly one holds: equal, less, greater; names compare as strings and indices as numbers. |
| `JsonValue.KeyTransitive` | extern/lib_json/json_value.cpp:170-184 | The order of keys is transitive. |
| `JsonValue.FirstByteDecides` | extern/lib_json/json_value.cpp:170-184 | After any common front the smaller byte decides between two names, and a proper prefix comes first. |
| `JsonValue.LookupPut` | extern/lib_json/json_value.cpp:1002-1024 | After storing under any key, wherever it belongs in the order, that key has the new value and every other key what it had. |
| `JsonValue.SizeIsLeastBound` | extern/lib_json/json_value.cpp:850-870 | The size of an array is the least number above all its indices, holes included. |
| `JsonValue.Trichotomy` | extern/lib_json/json_value.cpp:541-583 | Of any two well-formed values exactly one holds: identical, less, greater, at every depth of nesting. |
| `JsonValue.MapTrichotomy` | extern/lib_json/json_value.cpp:566-578 | The same for the member maps of two arrays or objects of one size, compared entry by entry. |
| `JsonValue.Transitive` | extern/lib_json/json_value.cpp:541-583 | `operator<` is transitive, by induction through nested arrays and objects, size first. |
| `JsonValue.MapTransitive` | extern/lib_json/json_value.cpp:566-578 | Lexicographic comparison of maps is transitive. |
| `JsonValue.EqualIsIdentity` | extern/lib_json/json_value.cpp:604-640 | `operator==` holds exactly of identical values. |
| `JsonValue.StrictTotalOrder` | extern/lib_json/json_value.cpp:541-645 | `operator<` is a strict total order and `operator==` holds exactly when neither value is less. |
| `JsonValue.OrderOfKinds` | extern/lib_json/json_value.cpp:541-583 | Which way the order goes: by kind first, then by number, by string with the null pointer first, false before true, or by size. |
| `JsonValue.FirstEntryDecides` | extern/lib_json/json_value.cpp:566-578 | Between containers of one kind and size the first entry that differs decides, by its key and then by its value. |
| `JsonString.Utf8Inverse` | extern/lib_json/json_tool.h:18-53 | Section 3 of RFC 3629 decodes the bytes of a code point back to it, exactly when it is no surrogate. |
| `JsonString.Utf8Injective` | extern/lib_json/json_tool.h:18-53 | Different code points up to 0x10FFFF have different, non-empty byte strings. |
| `JsonString.EncodedLength` | extern/lib_json/json_tool.h:18-53 | A code point takes one to four bytes by its range, and none beyond 0x10FFFF. |
| `JsonString.ReadHex4` | extern/lib_json/json_reader.cpp:717-740 | Success means four hex digits, a value of at most 0xFFFF and exactly four bytes consumed. |
| `JsonString.ReadCodePoint` | extern/lib_json/json_reader.cpp:687-715 | A successful escape is at most 0x10FFFF and consumes 4 bytes, or 10 for a pair; a lone high surrogate never succeeds. |
| `JsonString.EscapeIsWellFormed` | extern/lib_json/json_reader.cpp:687-715 | The bytes of a successful escape are well-formed if and only if its first unit is outside 0xDC00..0xDFFF. |
| `JsonString.UnitReads` | extern/lib_json/json_reader.cpp:717-740 | Four hex digits, each in either case, are read as the number they spell, most significant first. |
| `JsonString.CodePointReads` | extern/lib_json/json_reader.cpp:687-715 | Every code point up to 0x10FFFF written as one unit or as its surrogate pair, in any mix of cases, is read as itself; only a lone high half is excepted. |
| `JsonString.PairIsJoined` | extern/lib_json/json_reader.cpp:687-715 | Conversely, a code point beyond 0xFFFF comes only from its high half, a second escape, and the ten low bits of its low half. |
| `JsonString.UnicodeEscapeDecodes` | extern/lib_json/json_reader.cpp:641-685 | Inside any string such an escape becomes the bytes of its code point. |
| `JsonString.PairExample` | extern/lib_json/json_reader.cpp:687-715 | The escapes D83D and DE00 decode to the four bytes of U+1F600. |
| `JsonString.BadCodePointsAre` | extern/lib_json/json_reader.cpp:687-740 | The error of every malformed escape: too short, no hex digit, no second half, or a bad one. |
| `JsonString.LetterEscapeDecodes` | extern/lib_json/json_reader.cpp:641-685 | The eight letter escapes byte by byte; any other letter is an error. |
| `JsonString.BackslashAlone` | extern/lib_json/json_reader.cpp:641-685 | A backslash with nothing behind it is an empty escape. |
| `JsonString.ScannedIsWellEscaped` | extern/lib_json/json_reader.cpp:433-446 | What the scanner accepts as a string body has no bare quote and no unfinished escape. |
| `JsonString.WellEscapedIsScanned` | extern/lib_json/json_reader.cpp:433-446 | Conversely, every such body followed by a quote is accepted, and the scan stops right behind that quote. |
| `JsonString.DecodeReadsAll` | extern/lib_json/json_reader.cpp:641-685 | On every accepted body the decoder reads to the end: the early-quote and the empty-escape branches are never taken. |
| `JsonString.NothingToEscape` | extern/lib_json/json_writer.cpp:101-112 | When no byte needs an escape, the shortcut prints what the escaping walk would print. |
| `JsonString.ValueToQuotedString` | extern/lib_json/json_writer.cpp:101-162 | Both the shortcut and the walk give the quoted form. |
| `JsonString.EscapedCharDecodes` | extern/lib_json/json_writer.cpp:120-158 | Decoding undoes the escape of one byte, in front of any rest. |
| `JsonString.EscapesAre` | extern/lib_json/json_writer.cpp:120-158 | The escape of every byte: two characters for seven of them, four hex digits for the other control bytes, itself otherwise. |
| `JsonString.DecodeEscaped` | extern/lib_json/json_writer.cpp:115-161 | For every zero-free byte string, decoding the escaped text gives it back. |
| `JsonString.QuotedIsScanned` | extern/lib_json/json_writer.cpp:101-162 | The scanner takes the quoted form of any string as exactly one token, whatever follows. |
| `JsonNumber.NatOfDigits` | extern/lib_json/json_tool.h:78-89 | The printed digits denote the number. |
| `JsonNumber.AtMostTwentyDigits` | extern/lib_json/json_tool.h:64-67 | No 64-bit number has more than twenty digits. |
| `JsonNumber.UIntToString` | extern/lib_json/json_tool.h:78-89 | The digits and a zero byte fill the end of the buffer, the pointer stays inside it and nothing before it changes. |
| `JsonNumber.ValueToString` | extern/lib_json/json_writer.cpp:32-44 | The decimal text of every signed 64-bit number, the least one through wrapping negation included. |
| `JsonNumber.UnsignedToString` | extern/lib_json/json_writer.cpp:47-54 | The decimal text of every unsigned 64-bit number. |
| `JsonNumber.ScanByValue` | extern/lib_json/json_reader.cpp:576-592 | For any digits, leading zeros included, the outcome of the overflow-guarded loop is a function of the number they denote. |
| `JsonNumber.IntegerReadExactly` | extern/lib_json/json_reader.cpp:551-600 | A numeral is read as exactly its integer if and only if it lies in the signed or unsigned 64-bit range. |
| `JsonNumber.OverflowIsSilent` | extern/lib_json/json_reader.cpp:576-600 | What happens to every numeral beyond the range, on either side: a wrapped integer when the guard compares only the last digit, otherwise a double. |
| `JsonNumber.OverflowExample` | extern/lib_json/json_reader.cpp:576-600 | The numeral 18446744073709551620 is read as 4, and -9223372036854775810 as 9223372036854775806. |
| `JsonNumber.NumberRoundTrip` | extern/lib_json/json_reader.cpp:551-600 | Reading undoes printing on every signed and unsigned 64-bit integer. |
| `JsonNumber.MarkedIsDouble` | extern/lib_json/json_reader.cpp:551-571 | A numeral is read as a double as soon as it holds a point, an exponent letter, a plus, or a minus behind the first place. |
| `JsonNumber.NoDigitsAtAll` | extern/lib_json/json_reader.cpp:572-592 | A lone minus is read as zero; other texts without a digit in front are refused unless marked as doubles. |
| `JsonNumber.NoLeadingZero` | extern/lib_json/json_tool.h:78-89 | The printed digits never start with a zero, except for zero itself. |
| `JsonToken.MarkReads` | extern/lib_json/json_reader.cpp:243-280 | A punctuation byte in front of any text is read as its own token. |
| `JsonToken.SpacesRead` | extern/lib_json/json_reader.cpp:318-329 | Blanks between tokens change nothing. |
| `JsonToken.QuotedReads` | extern/lib_json/json_reader.cpp:433-446 | A quoted string in front of any text is read as one string token. |
| `JsonToken.WordReads` | extern/lib_json/json_reader.cpp:332-344 | A literal word is read as its token. |
| `JsonToken.NumberReads` | extern/lib_json/json_reader.cpp:421-431 | A numeral followed by a byte that cannot belong to it is read as one number token. |
| `JsonToken.BlankBytes` | extern/lib_json/json_reader.cpp:318-329 | Exactly four bytes are blanks: they change nothing in front of a text, and any other byte starts the next token. |
| `JsonToken.NumberBytes` | extern/lib_json/json_reader.cpp:421-431 | A run of the fifteen bytes a number may hold, in front of any other byte, is one number token if it starts with a digit or a minus. |
| `JsonToken.BlockCommentReads` | extern/lib_json/json_reader.cpp:347-405 | A block comment in front of any text is one token, through its first closing mark. |
| `JsonToken.LineCommentReads` | extern/lib_json/json_reader.cpp:347-418 | A line comment is one token, through the first line end. |
| `JsonToken.UnclosedCommentFails` | extern/lib_json/json_reader.cpp:395-405 | A block comment that is never closed is an error token up to the end. |
| `JsonToken.SlashAlone` | extern/lib_json/json_reader.cpp:347-365 | A slash that opens no comment is an error token, together with the byte behind it. |
| `JsonToken.WordBrokenOff` | extern/lib_json/json_reader.cpp:283-294 | A first letter of a word that is not continued is an error token by itself. |
| `JsonToken.StrayBytes` | extern/lib_json/json_reader.cpp:301-310 | Any other byte is an error token by itself, but for a zero byte, which ends the stream. |
| `JsonParse.ReadValue` | extern/lib_json/json_reader.cpp:164-212 | Success means no errors and at least one token consumed; the rest is never longer than the input. |
| `JsonParse.ReadElements` | extern/lib_json/json_reader.cpp:508-548 | The same for the elements of an array. |
| `JsonParse.ReadMembers` | extern/lib_json/json_reader.cpp:449-505 | The same for the members of an object. |
| `JsonParse.ParseDocument` | extern/lib_json/json_reader.cpp:120-161 | A document is accepted exactly when the error list is empty. |
| `JsonParse.ParseIsValid` | extern/lib_json/json_reader.cpp:120-161 | Whatever the parser leaves in the root is a well-formed value, on malformed input too: keys ascending, integers in range. |
| `JsonDocuments.ObjectHoldsLastValues` | extern/lib_json/json_reader.cpp:449-505 | An object with any members, in any order and with any repetition of names, is read without error and has under each name the value of its last member of that name, and nothing else. |
| `JsonDocuments.UnsortedExample` | extern/lib_json/json_reader.cpp:449-505 | The bytes of an object with members b and a, in this order, give both members, sorted. |
| `JsonDocuments.ArrayTakesAnySeparator` | extern/lib_json/json_reader.cpp:508-548 | An array holds its elements in order, whatever tokens stand between them. |
| `JsonDocuments.RecoverStops` | extern/lib_json/json_reader.cpp:757-771 | Recovery passes over everything through the first token of the wanted kind or the end. |
| `JsonDocuments.NameIsMissed` | extern/lib_json/json_reader.cpp:449-476 | After any well-formed members, a token that is no name is reported with what was read so far; a closing brace behind a comma passes only after an empty name. |
| `JsonDocuments.NameIsUndecodable` | extern/lib_json/json_reader.cpp:467-469 | The same for a name that does not decode, with the message of its escape. |
| `JsonDocuments.ColonIsMissed` | extern/lib_json/json_reader.cpp:471-477 | The same for a name without a colon. |
| `JsonDocuments.CommaIsMissed` | extern/lib_json/json_reader.cpp:485-494 | The same for a member with neither comma nor brace behind it, which is still stored. |
| `JsonDocuments.BadMember` | extern/lib_json/json_reader.cpp:478-483 | A member whose value fails is stored as far as it was read, with exactly the errors of the value. |
| `JsonDocuments.BadElement` | extern/lib_json/json_reader.cpp:522-527 | The same for an element of an array. |
| `JsonDocuments.WordsMean` | extern/lib_json/json_reader.cpp:164-212 | The bytes of the three words, and the values they stand for. |
| `JsonDocuments.ValueIsMissed` | extern/lib_json/json_reader.cpp:164-212 | Every token that starts no value is reported and leaves the node alone; a comment is one of them unless comments are allowed. |
| `JsonDocuments.BadScalarIsReported` | extern/lib_json/json_reader.cpp:164-212 | A string or numeral that does not decode is reported under its own token and leaves the node alone. |
| `JsonDocuments.CommentsPass` | extern/lib_json/json_reader.cpp:449-548 | Comments before a name and behind an element change nothing. |
| `JsonDocuments.CommentStandsForComma` | extern/lib_json/json_reader.cpp:485-500 | Behind the value of a member, comments stand for the comma: the next token is passed over, whatever it is, unless it closes the object. |
| `JsonDocuments.TrailingIsIgnored` | extern/lib_json/json_reader.cpp:142-160 | What follows the value of a document is not looked at; in strict mode exactly the scalar roots are refused. |
| `JsonDocuments.RootIsReportedLast` | extern/lib_json/json_reader.cpp:142-160 | When the value fails, its errors come first and that of the root last. |
| `JsonReader.StringTokenShape` | extern/lib_json/json_reader.cpp:243-315 | Every string token has both quotes and a well-escaped body between them. |
| `JsonReader.StringTokensDecode` | extern/lib_json/json_reader.cpp:641-685 | For any document, decoding any of its string tokens consumes it whole and never meets the empty-escape error. |
| `JsonReader.DecodeUnicodeEscapeSequence` | extern/lib_json/json_reader.cpp:717-740 | The loop over four hex digits computes the code unit or its error. |
| `JsonReader.DecodeUnicodeCodePoint` | extern/lib_json/json_reader.cpp:687-715 | Joins a surrogate pair, or gives the single code unit or the error. |
| `JsonReader.DecodeStringText` | extern/lib_json/json_reader.cpp:641-685 | The loop over a token gives the decoded string or the first error. |
| `JsonReader.DecodeDoubleText` | extern/lib_json/json_reader.cpp:603-628 | Scans the copy of a numeral; the zero byte behind it falls outside the buffer if and only if the numeral has 32 bytes. |
| `JsonReader.DecodeNumberText` | extern/lib_json/json_reader.cpp:551-600 | The two loops over a numeral compute the specified number, double or error; that buffer is overrun exactly by a numeral of 32 bytes that is read as a double. |
| `JsonReader.Reader.GetNextChar` | extern/lib_json/json_reader.cpp:791-797 | Hands out the bytes in order, then zero bytes, and never moves past the end. |
| `JsonReader.Reader.SkipBlanks` | extern/lib_json/json_reader.cpp:318-329 | Leaves exactly the text from the first non-blank on. |
| `JsonReader.Reader.Match` | extern/lib_json/json_reader.cpp:332-344 | Accepts exactly the given word, and moves only when it does. |
| `JsonReader.Reader.ReadQuoted` | extern/lib_json/json_reader.cpp:433-446 | Stops behind the first unescaped quote, or fails at the end. |
| `JsonReader.Reader.ReadDigits` | extern/lib_json/json_reader.cpp:421-431 | Stops at the first byte that cannot belong to a number. |
| `JsonReader.Reader.ReadCStyleComment` | extern/lib_json/json_reader.cpp:395-405 | Stops behind the first closing mark, or fails at the end. |
| `JsonReader.Reader.ReadCppStyleComment` | extern/lib_json/json_reader.cpp:408-418 | Stops behind the end of the line or of the text. |
| `JsonReader.Reader.ReadToken` | extern/lib_json/json_reader.cpp:243-315 | Gives the head of the token list of the unread text and leaves its tail; every token but the last moves the cursor. |
| `JsonReader.Reader.SkipCommentTokens` | extern/lib_json/json_reader.cpp:215-230 | Gives the first token that is no comment, if comments are allowed. |
| `JsonReader.Reader.RecoverFromError` | extern/lib_json/json_reader.cpp:757-771 | Skips past the wanted token or the end, and drops the errors found meanwhile. |
| `JsonReader.Reader.AddErrorAndRecover` | extern/lib_json/json_reader.cpp:775-781 | Adds one error and recovers. |
| `JsonReader.Reader.ReadNode` | extern/lib_json/json_reader.cpp:164-212 | Terminates on every input, adds exactly the errors the parser function lists, writes the value to the top node and leaves the node stack at its depth, on success and on failure. |
| `JsonReader.Reader.ReadArray` | extern/lib_json/json_reader.cpp:508-548 | The same for an array, any token being taken for a separator. |
| `JsonReader.Reader.ReadArrayElement` | extern/lib_json/json_reader.cpp:520-546 | One round of its loop: an element is stored at its index and the separator is passed, or reading ends. |
| `JsonReader.Reader.ReadObject` | extern/lib_json/json_reader.cpp:449-505 | The same for an object, with the error and recovery of each malformed member. |
| `JsonReader.Reader.ReadObjectMember` | extern/lib_json/json_reader.cpp:478-500 | The value of one member, stored under its name, and what may follow it. |
| `JsonReader.Reader.Parse` | extern/lib_json/json_reader.cpp:120-161 | On every byte string it terminates with the cursor inside the document, one node on the stack and the specified value and errors; it returns true exactly when there is no error. |
| `JsonPrint.FastReads` | extern/lib_json/json_writer.cpp:187-253 | The compact text of a value, in front of any text that does not run on, has exactly the tokens of the value. |
| `JsonPrint.StyledReads` | extern/lib_json/json_writer.cpp:266-470 | The indented text has the very same tokens, whichever layout each array gets. |
| `JsonLayout.CompactIsSpelled` | extern/lib_json/json_writer.cpp:197-253 | The compact text is the texts of the tokens of the value and nothing else, but for a blank behind each colon in YAML form. |
| `JsonLayout.StyledLaidOut` | extern/lib_json/json_writer.cpp:280-470 | From any open bracket and any indentation, the text of a value has every line, blank and bracket where a scanner of its bytes alone expects them. |
| `JsonLayout.StyledFitsEverywhere` | extern/lib_json/json_writer.cpp:266-470 | The same at every byte of the indented text of any value, and no bracket is left open at the end. |
| `JsonLayout.LinesAreIndented` | extern/lib_json/json_writer.cpp:435-470 | Every line end is followed by exactly three blanks for each bracket still open, one bracket less in front of a closing one. |
| `JsonLayout.ArrayBreaksExactly` | extern/lib_json/json_writer.cpp:394-422 | An array is broken into lines exactly when it has 25 elements, a non-empty container, or would reach byte 74 on one line; the length meant is that of the text itself. |
| `JsonWriter.LookupMember` | extern/lib_json/json_writer.cpp:235-248 | Looking a printed name up again finds the member it came from. |
| `JsonWriter.FastWriter.Write` | extern/lib_json/json_writer.cpp:187-194 | The text of the value and a line end. |
| `JsonWriter.FastWriter.WriteValue` | extern/lib_json/json_writer.cpp:197-253 | Appends exactly the compact text, for every value. |
| `JsonWriter.StyledWriter.Write` | extern/lib_json/json_writer.cpp:266-277 | The indented text and a line end; the indentation ends empty. |
| `JsonWriter.StyledWriter.WriteValue` | extern/lib_json/json_writer.cpp:280-338 | Appends the indented text, or collects it as a child text, and restores the indentation. |
| `JsonWriter.StyledWriter.WriteObject` | extern/lib_json/json_writer.cpp:306-336 | The members of an object, one to a line. |
| `JsonWriter.StyledWriter.WriteArrayValue` | extern/lib_json/json_writer.cpp:341-391 | Either layout of an array; the assertion on the number of collected children holds. |
| `JsonWriter.StyledWriter.IsMultiLineArray` | extern/lib_json/json_writer.cpp:394-422 | Many lines are used exactly when an element is a non-empty container, there are 25 elements or more, or the line would pass the right margin; the texts of the elements are collected unless one of the first two holds. |
| `JsonWriter.StyledWriter.WriteIndent` | extern/lib_json/json_writer.cpp:435-447 | Starts an indented line, unless the text ends in a blank already. |
| `JsonWriter.StyledWriter.Unindent` | extern/lib_json/json_writer.cpp:465-470 | Undoes one indentation; its assertion holds wherever it is called. |
| `JsonWriter.StyledEndsInk` | extern/lib_json/json_writer.cpp:435-447 | The text of a value never ends in a blank, so the test for a line end never mistakes a value for one. |
| `JsonRoundTrip.TokensYield` | extern/lib_json/json_reader.cpp:164-212 | The parser reads the tokens of a value as that value, in front of any rest and into any node. |
| `JsonRoundTrip.FastRoundTrip` | extern/lib_json/json_writer.cpp:187-253 | Parsing what the compact writer printed succeeds without error and gives the value back, up to the signedness of small integers and holes read as null. |
| `JsonRoundTrip.StyledRoundTrip` | extern/lib_json/json_writer.cpp:266-470 | The indented document has the tokens of the compact one and is parsed to the same value. |
| `JsonRoundTrip.WriteAndParse` | extern/lib_json/json_reader.cpp:120-161 | The round trip through the writer and reader objects themselves. |
| `JsonRoundTrip.ReprintIsSame` | extern/lib_json/json_writer.cpp:187-253 | Writing, parsing and writing again gives the first text, in the compact form. |
| `JsonRoundTrip.LayoutKept` | extern/lib_json/json_writer.cpp:394-422 | What comes back from parsing has every array laid out as before. |
| `JsonRoundTrip.StyledReprintIsSame` | extern/lib_json/json_writer.cpp:266-470 | The same for the indented form. |
| `BatchAllocator.NextWithRoom` | extern/lib_json/json_batchallocator.h:68-70 | The scan along the pages stops only at a page with room. |
| `BatchAllocator.ReleasedIsReused` | extern/lib_json/json_batchallocator.h:60-65 | While released blocks are left, an allocation hands out the one released last and touches no page. |
| `BatchAllocator.ReleaseThenAllocate` | extern/lib_json/json_batchallocator.h:58-91 | A release followed by an allocation is undone: the same block, pages and list. |
| `BatchAllocator.CarvedIsNext` | extern/lib_json/json_batchallocator.h:79-81 | Otherwise the block starts where the page with room was used up, and that page is used further by one block. |
| `BatchAllocator.RoomIsFirst` | extern/lib_json/json_batchallocator.h:66-78 | Room is taken in the first page of the list that is not full; a page is added in front exactly when all are full. |
| `BatchAllocator.StepKeeps` | extern/lib_json/json_batchallocator.h:58-91 | An allocation, a valid release and any write into a held block keep the free list and the accounting intact. |
| `BatchAllocator.BlocksAreAccountedFor` | extern/lib_json/json_batchallocator.h:35-115 | After any run, for any sizes: held blocks and free list are exactly what was handed out, nothing is in both or listed twice, and no two blocks overlap. |
| `BatchAllocator.RunContains` | extern/lib_json/json_batchallocator.h:58-82 | If a block size divides the page size: every page but the current one is full, and none is filled past its end. |
| `BatchAllocator.RunawayLeavesPage` | extern/lib_json/json_batchallocator.h:66-81 | Otherwise one allocation more than a page has objects hands out memory outside the page. |
| `BatchAllocator.AlwaysInsideIffDivides` | extern/lib_json/json_batchallocator.h:35-115 | Blocks stay inside their pages in every run if and only if the block size divides the page size. |
| `BatchAllocator.Allocator.constructor` | extern/lib_json/json_batchallocator.h:35-44 | Starts with the empty dummy page as current page. |
| `BatchAllocator.Allocator.Allocate` | extern/lib_json/json_batchallocator.h:58-82 | A block nobody holds; the new state is that of the state machine. |
| `BatchAllocator.Allocator.FindPage` | extern/lib_json/json_batchallocator.h:66-78 | Goes on to the first page with room, or puts a new one at the head of the list. |
| `BatchAllocator.Allocator.Release` | extern/lib_json/json_batchallocator.h:86-91 | The block becomes the head of the free list. |
| `HashFold.OneDifferenceShows` | extern/MurmurHash/MurmurHash3.cpp:97-108 | If a step is injective in its state and in its block, then two block sequences that differ in one place fold to different states. |
| `MurmurWords.TailWord32` | extern/MurmurHash/MurmurHash3.cpp:117-122 | The fall-through switch joins the remaining bytes, lowest first. |
| `MurmurWords.TailWord64` | extern/MurmurHash/MurmurHash3.cpp:281-300 | The same for eight bytes. |
| `MurmurWords.Blend32Inverse` | extern/MurmurHash/MurmurHash3.cpp:105-107 | Rotating, multiplying by five and adding is undone by its inverse. |
| `MurmurWords.Scramble32Lossless` | extern/MurmurHash/MurmurHash3.cpp:101-103 | Mixing a word by two multiplications and a rotation loses nothing. |
| `MurmurWords.Fmix32Bijective` | extern/MurmurHash/MurmurHash3.h:32-41 | The 32-bit finaliser has an inverse on both sides. |
| `MurmurWords.Fmix64Bijective` | extern/MurmurHash/MurmurHash3.h:45-54 | The 64-bit finaliser has an inverse on both sides. |
| `MurmurX86_32.StepLossless` | extern/MurmurHash/MurmurHash3.cpp:97-108 | A round is injective in the state for a fixed block and in the block for a fixed state. |
| `MurmurX86_32.FinishLossless` | extern/MurmurHash/MurmurHash3.cpp:128-130 | Mixing in the length and finalising is injective. |
| `MurmurX86_32.MurmurHash3_x86_32` | extern/MurmurHash/MurmurHash3.cpp:81-133 | The loops compute the fold over the blocks, the tail and the finaliser. |
| `MurmurX86_32.NoCollision` | extern/MurmurHash/MurmurHash3.cpp:81-133 | Two different keys of one length that agree outside one block, or outside the tail, never collide, for any seed. |
| `MurmurX86_128.StepLossless` | extern/MurmurHash/MurmurHash3.cpp:158-180 | The same two injectivities for four words. |
| `MurmurX86_128.FinishLossless` | extern/MurmurHash/MurmurHash3.cpp:221-232 | The additions across the words and the finalisers are injective. |
| `MurmurX86_128.MurmurHash3_x86_128` | extern/MurmurHash/MurmurHash3.cpp:137-238 | The loops compute the fold over the blocks, the tail and the finish. |
| `MurmurX86_128.NoCollision` | extern/MurmurHash/MurmurHash3.cpp:137-238 | No collision from a difference inside one block or inside the tail. |
| `MurmurX64_128.StepLossless` | extern/MurmurHash/MurmurHash3.cpp:259-271 | The same two injectivities for two 64-bit words. |
| `MurmurX64_128.FinishLossless` | extern/MurmurHash/MurmurHash3.cpp:306-315 | The additions and the finalisers are injective. |
| `MurmurX64_128.MurmurHash3_x64_128` | extern/MurmurHash/MurmurHash3.cpp:242-319 | The loops compute the fold over the blocks, the tail and the finish. |
| `MurmurX64_128.NoCollision` | extern/MurmurHash/MurmurHash3.cpp:242-319 | No collision from a difference inside one block or inside the tail. |
| `MurmurAnswers.HashIsReference32` | extern/MurmurHash/MurmurHash3.cpp:81-133 | For every key and seed the hash is that of a second definition with the literal constants and rotations of the algorithm. |
| `MurmurAnswers.HashIsReference128` | extern/MurmurHash/MurmurHash3.cpp:137-238 | The same for four 32-bit words. |
| `MurmurAnswers.HashIsReference64` | extern/MurmurHash/MurmurHash3.cpp:242-319 | The same for two 64-bit words. |
| `MurmurAnswers.SeedsKeptApart32` | extern/MurmurHash/MurmurHash3.cpp:81-133 | Different seeds give different hashes of any key. |
| `MurmurAnswers.SeedsKeptApart128` | extern/MurmurHash/MurmurHash3.cpp:137-238 | The same for four 32-bit words. |
| `MurmurAnswers.SeedsKeptApart64` | extern/MurmurHash/MurmurHash3.cpp:242-319 | The same for two 64-bit words. |
| `MurmurAnswers.EmptyKey32` | extern/MurmurHash/MurmurHash3.cpp:81-133 | A known answer: no bytes. |
| `MurmurAnswers.LetterKey32` | extern/MurmurHash/MurmurHash3.cpp:81-133 | A known answer: one byte, all of it tail. |
| `MurmurAnswers.WordKey32` | extern/MurmurHash/MurmurHash3.cpp:81-133 | A known answer: one block and no tail. |
| `MurmurAnswers.EmptyKey128` | extern/MurmurHash/MurmurHash3.cpp:137-238 | A known answer: no bytes. |
| `MurmurAnswers.LetterKey128` | extern/MurmurHash/MurmurHash3.cpp:137-238 | A known answer: one byte, all of it tail. |
| `MurmurAnswers.BlockKey128` | extern/MurmurHash/MurmurHash3.cpp:137-238 | A known answer: one block and no tail. |
| `MurmurAnswers.EmptyKey64` | extern/MurmurHash/MurmurHash3.cpp:242-319 | A known answer: no bytes. |
| `MurmurAnswers.LetterKey64` | extern/MurmurHash/MurmurHash3.cpp:242-319 | A known answer: one byte, all of it tail. |
| `MurmurAnswers.BlockKey64` | extern/MurmurHash/MurmurHash3.cpp:242-319 | A known answer: one block and no tail. |
| `SpatialHash.TruncDivMonotone` | examples/match/MatchArray.cpp:60-61 | Division that truncates toward zero is monotone, across zero too. |
| `SpatialHash.TruncDivSays` | examples/match/MatchArray.cpp:60-61 | Its remainder is smaller than the divisor and never on the other side of zero than the dividend. |
| `SpatialHash.XorDigits` | examples/match/MatchArray.cpp:58-74 | A binary digit of the exclusive or is set exactly when it is set in one of the two operands. |
| `SpatialHash.LookedUpUnder` | examples/match/MatchArray.cpp:220-227 | A position is looked up under its quotients, each mixed in by a multiplication with 1000003 and an exclusive or, modulo 2^64. |
| `SpatialHash.FiledExactly` | examples/match/MatchArray.cpp:58-74 | An entry is filed under exactly the hashes of all combinations of buckets between that of the coordinate less the error and that of the coordinate plus it. |
| `SpatialHash.BucketInRange` | examples/match/MatchArray.cpp:60-61 | The bucket of any coordinate within the error lies between the two buckets the fan-out runs between. |
| `SpatialHash.CloseIsFiled` | examples/match/MatchArray.cpp:58-74 | A catalog entry is filed under the hash of every position within the error in every dimension. |
| `SpatialHash.FoundInIndex` | examples/match/MatchArray.cpp:264-269 | Under a hash the index holds exactly the catalog entries whose fan-out has that hash. |
| `SpatialHash.GetCatalogHash` | examples/match/MatchArray.cpp:220-227 | The loop computes the hash of a position, modulo the word. |
| `SpatialHash.MatchHash.AddCatalogEntry` | examples/match/MatchArray.cpp:58-74 | The recursive insertion links the entry under every hash of its fan-out. |
| `SpatialHash.MatchHash.Find` | examples/match/MatchArray.cpp:76-84 | The rest of the chain from the first element of that hash on, or nothing. |
| `MatchArray.IsNeighbor` | examples/match/MatchArray.cpp:229-236 | True exactly when no coordinate differs by more than the error. |
| `MatchArray.NeighboursOf` | examples/match/MatchArray.cpp:277-285 | Under its own hash a pattern position finds every neighbour, and no stranger passes the test. |
| `MatchArray.MatchesAreNeighbours` | examples/match/MatchArray.cpp:257-288 | The matches recorded for a cell are exactly the catalog positions within the error of it. |
| `MatchArray.IndexCatalog` | examples/match/MatchArray.cpp:263-269 | The loop builds the index of the whole catalog chunk. |
| `MatchArray.MatchChain` | examples/match/MatchArray.cpp:280-285 | The walk along one chain links every match of the cell. |
| `MatchArray.FillMatches` | examples/match/MatchArray.cpp:257-288 | The table it builds holds, for every cell, exactly its neighbours. |
| `MatchOutput.WritePatternItem` | examples/match/MatchArray.cpp:108-122 | The slots of one cell for an attribute of the pattern, or failure when they run out. |
| `MatchOutput.WriteCatalogItem` | examples/match/MatchArray.cpp:128-145 | The same for an attribute of the catalog. |
| `MatchOutput.WriteCoordinateItem` | examples/match/MatchArray.cpp:152-167 | The same for a matched coordinate. |
| `MatchOutput.WriteTagItem` | examples/match/MatchArray.cpp:173-187 | The same for the empty tag. |
| `MatchOutput.GetChunk` | examples/match/MatchArray.cpp:103-190 | Writes the cells of any attribute; fails exactly when some cell has more matches than there are slots. |
| `MatchOutput.CellsFollowSlots` | examples/match/MatchArray.cpp:103-190 | Cell i of every attribute has the position and the match of slot i of one common list. |
| `MatchOutput.CellsShowMatches` | examples/match/MatchArray.cpp:103-190 | What every cell of each attribute shows: the pattern value, the catalog value of the match, its coordinate, or the tag. |
| `MatchOutput.SlotsAreGapFree` | examples/match/MatchArray.cpp:103-190 | Every slot from 0 up to the number of matches of a cell occurs. |
| `MatchOutput.RecordedIsSound` | examples/match/MatchArray.cpp:137-139 | A recorded match is always found again in the catalog chunk. |
| `MatchOutput.MatchChunk` | examples/match/MatchArray.cpp:86-193 | Matching and writing a chunk; the only failure is a lack of slots. |
| `MatchCache.StepKeeps` | examples/match/MatchArray.cpp:238-297 | Every step of every thread keeps the flags and the cache consistent. |
| `MatchCache.CallOutcomes` | examples/match/MatchArray.cpp:238-256 | A call builds when its position has no table in use, waits when that table is busy, and returns it otherwise. |
| `MatchCache.FinishOutcomes` | examples/match/MatchArray.cpp:288-297 | The end of a build frees its table and wakes every blocked thread, whatever it waits for, if and only if one waits for this table. |
| `MatchCache.LetsGo` | examples/match/MatchArray.cpp:238-298 | Releasing a table, or giving up building it, leaves it held exactly by its other holders and changes nothing else. |
| `MatchCache.SafeInEveryRun` | examples/match/MatchArray.cpp:238-297 | After any interleaving: one table in use and one builder for a position, a returned table is complete and not busy, and a blocked thread has its table marked as waited for. |
| `MatchCache.CallIsForItsPosition` | examples/match/MatchArray.cpp:243-255 | A call is served by a table of the position it asked for. |
| `MatchCache.ReturnedIsFrozen` | examples/match/MatchArray.cpp:270-288 | No step changes the cells of a table some call has returned. |
| `MatchCache.StuckForEver` | examples/match/MatchArray.cpp:247-250 | A thread that waits for a busy table without a builder waits in every continuation. |
| `MatchCache.BuilderFreesWaiter` | examples/match/MatchArray.cpp:289-297 | A builder that goes on to the end lets any thread that waits for it return. |
| `MatchCache.CanReturnIffNotOrphan` | examples/match/MatchArray.cpp:238-297 | A waiting thread can still return if and only if its table is not busy without a builder. |
| `MatchCache.NobodyIsStranded` | examples/match/MatchArray.cpp:238-297 | As long as no build fails, every waiting thread can return. |
| `MatchCache.AbortStrands` | examples/match/MatchArray.cpp:257-288 | One build that ends in an exception strands a waiting thread: the busy flag is never reset. |
| `BestMatchArray.CalculateDistance` | examples/bestmatch/BestMatchArray.cpp:177-183 | The squared distance modulo the word. |
| `BestMatchArray.NearIsClose` | examples/bestmatch/BestMatchArray.cpp:58-74 | A Euclidean neighbour is within the error in every dimension, so the fan-out cannot miss it. |
| `BestMatchArray.ChooseInChain` | examples/bestmatch/BestMatchArray.cpp:226-238 | The loop with its running minimum computes that choice. |
| `BestMatchArray.ChooseAfterLinkAll` | examples/bestmatch/BestMatchArray.cpp:225-238 | An entry filed any number of times under the hash is considered once, before all entries filed earlier. |
| `BestMatchArray.BestMatchIsWinner` | examples/bestmatch/BestMatchArray.cpp:206-245 | For every catalog and every error: nothing is recorded if no position is seen, and otherwise the one seen at the least wrapped distance, the last of them on a tie. |
| `BestMatchArray.NearestIffWinnerIsRight` | examples/bestmatch/BestMatchArray.cpp:206-245 | In one catalog, for every error: the nearest position is found if and only if nothing is seen and nothing is near, or that winner is the nearest position within the error. |
| `BestMatchArray.BestMatchIsNearest` | examples/bestmatch/BestMatchArray.cpp:206-245 | For every error: if the search sees exactly the positions within the error and wrapping keeps their order, a match is recorded exactly when one lies within the error, and it attains the least distance over the whole chunk. |
| `BestMatchArray.DisagreementShows` | examples/bestmatch/BestMatchArray.cpp:225-242 | A position seen although too far, or near and not seen, is recorded or missed when it is alone in its chunk. |
| `BestMatchArray.DisorderShows` | examples/bestmatch/BestMatchArray.cpp:225-242 | Of two positions within the error whose order is lost by wrapping, the farther one is recorded, also on a tie. |
| `BestMatchArray.NearestIffFaithful` | examples/bestmatch/BestMatchArray.cpp:206-245 | For every error: the nearest position is found in every part of a catalog if and only if the search sees exactly the positions within the error and wrapping keeps their order. |
| `BestMatchArray.SmallDistancesDoNotLure` | examples/bestmatch/BestMatchArray.cpp:177-183 | If no squared distance reaches 2^64, nothing too far is seen, whatever the error. |
| `BestMatchArray.LureIsRecorded` | examples/bestmatch/BestMatchArray.cpp:225-242 | A lure, a position seen although it is too far, is recorded when it is alone in its chunk, for every error. |
| `BestMatchArray.NearIsSeen` | examples/bestmatch/BestMatchArray.cpp:58-74 | For an error below 2^32 every position within it is seen, at its true distance. |
| `BestMatchArray.NearestIffNoLures` | examples/bestmatch/BestMatchArray.cpp:206-245 | The corollary for an error below 2^32: lures are all that can go wrong. |
| `BestMatchArray.OutdoneLuresDoNoHarm` | examples/bestmatch/BestMatchArray.cpp:206-245 | In one catalog, for an error below 2^32: lures do no harm if each has a position within the error at a smaller wrapped distance. |
| `BestMatchArray.OverflowRecordsStranger` | examples/bestmatch/BestMatchArray.cpp:177-183 | Concrete lures, for the error 1: two positions that differ by 2^32 in one dimension and by 2^32 * 1000003 in the other. |
| `BestMatchArray.LargeErrorPrefersFarther` | examples/bestmatch/BestMatchArray.cpp:226-238 | With an error of 2^32 + 1 a position at distance 2^32 is recorded in place of one at distance one. |
| `BestMatchArray.LargeErrorMissesNeighbour` | examples/bestmatch/BestMatchArray.cpp:226-233 | With an error of 2^32 a neighbour at distance one is missed, with no lure about. |
| `BestMatchArray.FillBestMatches` | examples/bestmatch/BestMatchArray.cpp:206-245 | The table it builds holds, for every cell, its best match and nothing else. |
| `Lines.SplitJoins` | examples/load_tools/PhysicalParse.cpp:101-102 | Splitting at a delimiter loses nothing. |
| `Lines.BodyFollowsHeader` | examples/load_tools/PhysicalSplit.cpp:86-96 | What is left behind a header of n lines starts right behind the n-th line end, or is empty. |
| `Lines.SplitAtDelimiter` | examples/load_tools/PhysicalParse.cpp:101-102 | The tokens of a text cut at a delimiter are those of the two parts. |
| `Lines.BlockShape` | examples/load_tools/PhysicalSplit.cpp:126-155 | A block is the shortest prefix with the wanted number of delimiters, or all there is. |
| `Lines.BlocksConcat` | examples/load_tools/PhysicalSplit.cpp:126-155 | The blocks, one after the other, are the file. |
| `Lines.BlocksAreWholeLines` | examples/load_tools/PhysicalSplit.cpp:119-125 | Every block but the last has exactly the wanted number of delimiters and ends in one; no block is empty or has more. |
| `Lines.BlockLinesAreLines` | examples/load_tools/PhysicalSplit.cpp:283-305 | The lines of the trimmed blocks, in order, are the lines of the trimmed file. |
| `Lines.LineIsAt` | examples/load_tools/PhysicalSplit.cpp:283-305 | Line l of block i is line i * n + l of the file. |
| `Lines.LineIsInBlock` | examples/load_tools/PhysicalSplit.cpp:283-305 | Conversely every line of the file is a line of some block, at that place. |
| `FileSplitter.InputFile.Read` | examples/load_tools/PhysicalSplit.cpp:184 | Reads as many bytes as asked for or as there are; a closed file is never read. |
| `FileSplitter.InputFile.SkipHeader` | examples/load_tools/PhysicalSplit.cpp:86-96 | Leaves exactly what follows the lines of the header, nothing if the file has fewer. |
| `FileSplitter.FileSplitter.constructor` | examples/load_tools/PhysicalSplit.cpp:68-109 | Skips the header and fills the buffer; nothing of the rest is lost or repeated. |
| `FileSplitter.FileSplitter.EatMoreData` | examples/load_tools/PhysicalSplit.cpp:158-194 | What remains is unchanged, the data stays at the end of the buffer until the end of the file, and the internal-error branch is never taken. |
| `FileSplitter.FileSplitter.MakeRoom` | examples/load_tools/PhysicalSplit.cpp:160-181 | Moving or doubling leaves the data at the front and makes room. |
| `FileSplitter.FileSplitter.CountLines` | examples/load_tools/PhysicalSplit.cpp:133-141 | The inner loop advances by the number of bytes that belong to the block. |
| `FileSplitter.FileSplitter.GetBlock` | examples/load_tools/PhysicalSplit.cpp:126-155 | Terminates and takes exactly the next block off what remains, whatever the buffer holds. |
| `FileSplitter.SplitFile` | examples/load_tools/PhysicalSplit.cpp:269-281 | The blocks of a whole run are those of the file behind its header, whatever the size of the buffer. |
| `LoadPipeline.OutputWriter.ParseLine` | examples/load_tools/PhysicalParse.cpp:150-185 | The reused vector holds exactly the row of the line, nothing being left from the line before. |
| `LoadPipeline.LongError` | examples/load_tools/PhysicalParse.cpp:162-168 | The loop over the surplus tokens writes them out behind the word. |
| `LoadPipeline.RowLosesNothing` | examples/load_tools/PhysicalParse.cpp:150-185 | A line can be read back from its fields and its error column, for any number of attributes. |
| `LoadPipeline.ErrorColumnSays` | examples/load_tools/PhysicalParse.cpp:150-185 | The error column is null exactly for the right number of fields, "short" exactly for too few, and starts with "long" for too many. |
| `LoadPipeline.FieldSays` | examples/load_tools/PhysicalParse.cpp:150-185 | A field is null exactly when the line has too few tokens, and otherwise, on a line without zero bytes, the text of its token. |
| `LoadPipeline.LineCellIsAt` | examples/load_tools/PhysicalParse.cpp:108-127 | Where field j of a line goes: attribute j, or position j in the last dimension of the only attribute. |
| `LoadPipeline.DistinctRows` | examples/load_tools/PhysicalParse.cpp:150-185 | Two lines have the same row only if they are the same. |
| `LoadPipeline.ZeroDelimiterHidesLine` | examples/load_tools/PhysicalParse.cpp:160-168 | The one excluded case fails: with a zero byte as delimiter and no fields, every line gives the same row. |
| `LoadPipeline.OutputWriter.ProcessChunk` | examples/load_tools/PhysicalParse.cpp:81-132 | The cells of every line at the positions of the chunk, in either layout, and the two failures. |
| `LoadPipeline.FileSplitArray.MoveNext` | examples/load_tools/PhysicalSplit.cpp:269-281 | Takes the next block, and ends exactly when nothing is left. |
| `LoadPipeline.FileSplitArray.GetChunk` | examples/load_tools/PhysicalSplit.cpp:283-307 | The block without its last delimiter, zero-terminated, in the chunk of its row. |
| `LoadPipeline.SplitToValues` | examples/load_tools/PhysicalSplit.cpp:269-307 | The values of a whole run, each in the chunk of its row. |
| `LoadPipeline.ParseValues` | examples/load_tools/PhysicalParse.cpp:210-228 | All cells of all values, at whatever chunk each comes from, or the first failure. |
| `LoadPipeline.Load` | examples/load_tools/PhysicalParse.cpp:81-132 | Splitting and parsing a file: every cell, or failure exactly when some block has too many lines. |
| `LoadPipeline.LoadCarriesLoadedLines` | examples/load_tools/PhysicalParse.cpp:108-126 | The fields a load writes are, in order, the rows of the lines found in its values. |
| `LoadPipeline.LoadIsExactIffNulFree` | examples/load_tools/PhysicalParse.cpp:95-102 | Those lines are exactly the lines of the whole file, for any number of lines in a chunk, if and only if the file holds no zero byte. |
| `LoadPipeline.ZeroByteCutsLine` | examples/load_tools/PhysicalParse.cpp:95-102 | A file whose line holds a zero byte is loaded as what stands before it. |
| `LoadPipeline.LoadedLineIsAt` | examples/load_tools/PhysicalParse.cpp:83-125 | Line k of the file is parsed into chunk k / n, as its line k % n. |
| `LoadPipeline.LoadedCells` | examples/load_tools/PhysicalParse.cpp:81-132 | The cells of a loaded file without zero bytes are exactly the fields of its lines: field j of line k in chunk k / n, slot k % n, in column j. |
| `LoadPipeline.EnoughRoomAlwaysFits` | examples/load_tools/PhysicalParse.cpp:103-107 | With at most as many lines to a block as to a chunk, no file can fail. |
| `LoadPipeline.FitsExactlyWhen` | examples/load_tools/PhysicalParse.cpp:103-107 | Otherwise a file without zero bytes fails exactly when it has more lines than a chunk may hold. |

## Left out

- JsonRoundTrip.FastRoundTrip: asks that strings are not null pointers, because the writer hands such a pointer to `strpbrk`, and that printing and scanning of doubles undo each other.
- JsonReader.DecodeDoubleText: goes on as if the zero byte behind a full buffer did no harm, because what it overwrites is not part of this model.
- MatchOutput.GetChunk: the only limit on collision slots is their number, because the writing iterator that refuses a position is not part of this model.
- MatchOutput.WritePatternItem: the same limit stands for the refusal of a position.
- MatchOutput.WriteCatalogItem: the same limit stands for the refusal of a position.
- MatchOutput.WriteCoordinateItem: the same limit stands for the refusal of a position.
- MatchOutput.WriteTagItem: the same limit stands for the refusal of a position.
- MatchOutput.MatchChunk: the same limit stands for the refusal of a position.
- JsonReader.Reader.Parse: a child node is stored into its parent when it is popped, not updated in place while it is being read, and comments are skipped but not collected.
- JsonReader.Reader.ReadNode: comments are skipped but not attached to the value.
- JsonWriter.StyledWriter.Write: values have no comments in the model, so none is printed.
- JsonWriter.StyledWriter.WriteValue: values have no comments in the model, so none is printed.
- JsonWriter.StyledWriter.WriteObject: members have no comments in the model, so none is printed.
- JsonWriter.StyledWriter.WriteArrayValue: elements have no comments in the model, so none is printed.
- FileSplitter.FileSplitter.constructor: the file can always be opened and the buffer always be had.
- The position of an error (line, column, extra location) is not recorded; its token and message are.
- The width of sizes and indices: `int` element counts, `size*3` and `unsigned` page sizes do not overflow in the model.
- Coordinates are unbounded integers; the overflow of `pos[i] + error`, `till[i] - from[i]` and of the loop bounds is not modelled.
- Doubles that are not real numbers (infinities, not-a-number, the sign of zero).
- `Value::operator<=`, `resize`, `Path`, the copying of values and `StyledStreamWriter`: easy or near copies of what is modelled.
- Destructors, file opening and failed memory allocation.
- The splitting and parsing settings, operator registration and the movement of chunks between instances.
- The `initialized` flag of a match table: a chunk missing from pattern or catalog gives a table without matches.
- Fairness: `MatchCache` proves that a waiting thread can return, not that a scheduler lets it.
