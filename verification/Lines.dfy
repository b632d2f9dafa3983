/** Text cut into lines at a delimiter byte, and the blocks of whole lines that a file is split into. */
module Lines {

  import opened ByteText

  function Delimiters(s: Bytes, d: Byte): nat {
    if s == [] then 0 else (if s[0] == d then 1 else 0) + Delimiters(s[1..], d)
  }

  lemma {:induction false} DelimitersAdd(a: Bytes, b: Bytes, d: Byte)
    ensures Delimiters(a + b, d) == Delimiters(a, d) + Delimiters(b, d)
  {
    if a == [] {
      assert a + b == b;
    } else {
      assert (a + b)[1..] == a[1..] + b;
      DelimitersAdd(a[1..], b, d);
    }
  }

  // ---------- tokens

  /** Every delimiter separates two tokens, either of which may be empty. */
  function Split(s: Bytes, d: Byte): (r: seq<Bytes>)
    ensures |r| == Delimiters(s, d) + 1
  {
    if s == [] then [[]]
    else if s[0] == d then [[]] + Split(s[1..], d)
    else var rest := Split(s[1..], d); [[s[0]] + rest[0]] + rest[1..]
  }

  /** The tokens written out, each behind a delimiter. */
  function Tail(tokens: seq<Bytes>, d: Byte): Bytes {
    if tokens == [] then [] else [d] + tokens[0] + Tail(tokens[1..], d)
  }

  lemma {:induction false} TailAdds(a: seq<Bytes>, b: seq<Bytes>, d: Byte)
    ensures Tail(a + b, d) == Tail(a, d) + Tail(b, d)
  {
    if a == [] {
      assert a + b == b;
    } else {
      assert (a + b)[1..] == a[1..] + b;
      TailAdds(a[1..], b, d);
    }
  }

  /** Splitting loses nothing. */
  lemma {:induction false} SplitJoins(s: Bytes, d: Byte)
    ensures Tail(Split(s, d), d) == [d] + s
  {
    if s != [] {
      SplitJoins(s[1..], d);
      var rest := Split(s[1..], d);
      assert [s[0]] + s[1..] == s;
      if s[0] == d {
        assert Split(s, d)[1..] == rest;
      } else {
        assert Split(s, d)[1..] == rest[1..];
        var text := rest[0] + Tail(rest[1..], d);
        assert s[1..] == ([d] + s[1..])[1..] == ([d] + text)[1..] == text;
        assert Tail(Split(s, d), d) == [d] + ([s[0]] + text);
      }
    }
  }

  lemma {:induction false} SplitAtDelimiter(a: Bytes, b: Bytes, d: Byte)
    ensures Split(a + [d] + b, d) == Split(a, d) + Split(b, d)
  {
    var s := a + [d] + b;
    if a == [] {
      assert s[1..] == b;
    } else {
      assert s[1..] == a[1..] + [d] + b;
      SplitAtDelimiter(a[1..], b, d);
    }
  }

  /** Apart from the delimiter, the tokens hold exactly the bytes of the text. */
  lemma {:induction false} SplitKeepsBytes(s: Bytes, d: Byte, x: Byte)
    requires x != d
    ensures x in s <==> exists i :: 0 <= i < |Split(s, d)| && x in Split(s, d)[i]
  {
    if s != [] {
      SplitKeepsBytes(s[1..], d, x);
      var rest := Split(s[1..], d);
      var all := Split(s, d);
      assert x in s <==> x == s[0] || x in s[1..];
      if s[0] == d {
        assert forall i :: 0 <= i < |rest| ==> all[i + 1] == rest[i];
      } else {
        assert x in all[0] <==> x == s[0] || x in rest[0];
        assert forall i :: 1 <= i < |rest| ==> all[i] == rest[i];
      }
    }
  }

  /** One delimiter at the end is dropped. */
  function Trim(s: Bytes, d: Byte): Bytes {
    if s != [] && s[|s| - 1] == d then s[..|s| - 1] else s
  }

  function LinesOf(s: Bytes, d: Byte): (r: seq<Bytes>)
    ensures r != []
  {
    Split(Trim(s, d), d)
  }

  // ---------- blocks

  /** The length of the shortest prefix that holds n delimiters, or of the whole text if it holds fewer. */
  function BlockLength(s: Bytes, n: nat, d: Byte): (r: nat)
    ensures r <= |s|
    ensures s != [] && n > 0 ==> r > 0
  {
    if n == 0 || s == [] then 0 else 1 + BlockLength(s[1..], if s[0] == d then n - 1 else n, d)
  }

  /** What follows the first lines of a text. */
  function Body(s: Bytes, header: int, d: Byte): Bytes {
    s[BlockLength(s, if header > 0 then header else 0, d)..]
  }

  lemma {:induction false} BlockLengthAdds(s: Bytes, n: nat, d: Byte)
    requires n > 0
    ensures var r := BlockLength(s, 1, d);
      BlockLength(s, n, d) == r + BlockLength(s[r..], n - 1, d)
  {
    if s != [] {
      var r := BlockLength(s, 1, d);
      if s[0] == d {
        assert r == 1;
      } else {
        assert s[1..][r - 1..] == s[r..];
        BlockLengthAdds(s[1..], n, d);
      }
    }
  }

  /** A header is a front part of the text with as many delimiters as it has lines, ending in the last of them; a text
      with fewer lines is header all through. */
  lemma BodyFollowsHeader(s: Bytes, header: int, d: Byte)
    ensures header <= 0 ==> Body(s, header, d) == s
    ensures var k := |s| - |Body(s, header, d)|;
      && 0 <= k && s == s[..k] + Body(s, header, d)
      && (header > 0 ==> Delimiters(s[..k], d) <= header)
      && (header > 0 && Body(s, header, d) != [] ==> k > 0 && Delimiters(s[..k], d) == header && s[k - 1] == d)
  {
    hide BlockLength, Delimiters;
    if header > 0 {
      BlockShape(s, header, d);
      BlockLengthOfNone(s, header, d);
    } else {
      BlockLengthOfNone(s, 0, d);
    }
  }

  lemma BlockLengthOfNone(s: Bytes, n: nat, d: Byte)
    ensures BlockLength(s, 0, d) == 0
    ensures BlockLength(s, n, d) <= |s| && (s != [] && n > 0 ==> BlockLength(s, n, d) > 0)
  {
  }

  /** A block holds at most n delimiters; if more text follows, it holds n and ends in the last of them. */
  lemma {:induction false} BlockShape(s: Bytes, n: nat, d: Byte)
    requires n > 0
    ensures var r := BlockLength(s, n, d);
      && Delimiters(s[..r], d) <= n
      && (r < |s| ==> Delimiters(s[..r], d) == n)
      && (Delimiters(s[..r], d) == n ==> s[r - 1] == d)
  {
    if s != [] {
      var r := BlockLength(s, n, d);
      assert s[..r][1..] == s[1..][..r - 1];
      if s[0] != d {
        BlockShape(s[1..], n, d);
      } else if n > 1 {
        BlockShape(s[1..], n - 1, d);
      }
    }
  }

  function Blocks(s: Bytes, n: nat, d: Byte): seq<Bytes>
    requires n > 0
    decreases |s|
  {
    if s == [] then [] else var r := BlockLength(s, n, d); [s[..r]] + Blocks(s[r..], n, d)
  }

  lemma BlocksStep(s: Bytes, n: nat, d: Byte)
    requires n > 0
    ensures var r := BlockLength(s, n, d);
      Blocks(s, n, d) == if s == [] then [] else [s[..r]] + Blocks(s[r..], n, d)
  {
    hide BlockLength;
  }

  function Concat(parts: seq<Bytes>): Bytes {
    if parts == [] then [] else parts[0] + Concat(parts[1..])
  }

  lemma {:induction false} BlocksConcat(s: Bytes, n: nat, d: Byte)
    requires n > 0
    ensures Concat(Blocks(s, n, d)) == s
    decreases |s|
  {
    hide BlockLength;
    if s != [] {
      var r := BlockLength(s, n, d);
      BlocksConcat(s[r..], n, d);
      assert Blocks(s, n, d)[1..] == Blocks(s[r..], n, d);
    }
  }

  /** Every block but the last is n whole lines. */
  lemma {:induction false} BlocksAreWholeLines(s: Bytes, n: nat, d: Byte, i: nat)
    requires n > 0 && i < |Blocks(s, n, d)|
    ensures var block := Blocks(s, n, d)[i];
      && block != [] && Delimiters(block, d) <= n
      && (i + 1 < |Blocks(s, n, d)| ==> Delimiters(block, d) == n && block[|block| - 1] == d)
    decreases |s|
  {
    var r := BlockLength(s, n, d);
    BlockShape(s, n, d);
    assert i + 1 < |Blocks(s, n, d)| && i == 0 ==> s[r..] != [];
    if i > 0 {
      assert Blocks(s, n, d)[i] == Blocks(s[r..], n, d)[i - 1];
      BlocksAreWholeLines(s[r..], n, d, i - 1);
    }
  }

  // ---------- the lines of the blocks are the lines of the text

  function BlockLines(s: Bytes, n: nat, d: Byte): seq<Bytes>
    requires n > 0
    decreases |s|
  {
    if s == [] then []
    else var r := BlockLength(s, n, d); LinesOf(s[..r], d) + BlockLines(s[r..], n, d)
  }

  lemma BlockHasFullLines(s: Bytes, n: nat, d: Byte)
    requires n > 0 && s != []
    ensures var r := BlockLength(s, n, d);
      |LinesOf(s[..r], d)| <= n && (r < |s| ==> |LinesOf(s[..r], d)| == n)
  {
    var r := BlockLength(s, n, d);
    var block := s[..r];
    BlockShape(s, n, d);
    if block[r - 1] == d {
      assert block == block[..r - 1] + [d];
      DelimitersAdd(block[..r - 1], [d], d);
    }
  }

  lemma LinesAtDelimiter(a: Bytes, b: Bytes, d: Byte)
    requires b != []
    ensures LinesOf(a + [d] + b, d) == LinesOf(a + [d], d) + LinesOf(b, d)
  {
    hide Split;
    assert Trim(a + [d], d) == a;
    assert Trim(a + [d] + b, d) == a + [d] + Trim(b, d);
    SplitAtDelimiter(a, Trim(b, d), d);
  }

  lemma FirstBlockLines(s: Bytes, n: nat, d: Byte)
    requires n > 0 && s != []
    ensures var r := BlockLength(s, n, d);
      r < |s| ==> LinesOf(s, d) == LinesOf(s[..r], d) + LinesOf(s[r..], d)
  {
    hide BlockLength, Split, Delimiters;
    var r := BlockLength(s, n, d);
    BlockShape(s, n, d);
    if r < |s| {
      LinesAtDelimiter(s[..r - 1], s[r..], d);
      assert s[..r - 1] + [d] == s[..r];
      assert s[..r] + s[r..] == s;
    }
  }

  lemma {:induction false} BlockLinesAreLines(s: Bytes, n: nat, d: Byte)
    requires n > 0 && s != []
    ensures BlockLines(s, n, d) == LinesOf(s, d)
    decreases |s|
  {
    hide LinesOf, BlockLength;
    var r := BlockLength(s, n, d);
    FirstBlockLines(s, n, d);
    if r < |s| {
      BlockLinesAreLines(s[r..], n, d);
    } else {
      assert s[..r] == s && s[r..] == [];
    }
  }

  /** Line l of block i is line i * n + l of the text. */
  lemma {:induction false} LineIsAt(s: Bytes, n: nat, d: Byte, i: nat, l: nat)
    requires n > 0 && i < |Blocks(s, n, d)| && l < |LinesOf(Blocks(s, n, d)[i], d)|
    ensures l < n && i * n + l < |LinesOf(s, d)|
    ensures LinesOf(Blocks(s, n, d)[i], d)[l] == LinesOf(s, d)[i * n + l]
    decreases |s|
  {
    hide LinesOf, BlockLength;
    var r := BlockLength(s, n, d);
    FirstBlockLines(s, n, d);
    BlockHasFullLines(s, n, d);
    if i > 0 {
      assert Blocks(s, n, d)[i] == Blocks(s[r..], n, d)[i - 1];
      LineIsAt(s[r..], n, d, i - 1, l);
      assert i * n + l == n + ((i - 1) * n + l);
    } else {
      assert r == |s| ==> s[..r] == s;
    }
  }

  /** Every line of the text is a line of some block. */
  lemma {:induction false} LineIsInBlock(s: Bytes, n: nat, d: Byte, k: nat) returns (i: nat, l: nat)
    requires n > 0 && s != [] && k < |LinesOf(s, d)|
    ensures i < |Blocks(s, n, d)| && l < |LinesOf(Blocks(s, n, d)[i], d)| && k == i * n + l
    decreases |s|
  {
    hide LinesOf, BlockLength;
    var r := BlockLength(s, n, d);
    FirstBlockLines(s, n, d);
    BlockHasFullLines(s, n, d);
    assert r == |s| ==> s[..r] == s;
    if k < n {
      i, l := 0, k;
    } else {
      i, l := LineIsInBlock(s[r..], n, d, k - n);
      assert Blocks(s, n, d)[i + 1] == Blocks(s[r..], n, d)[i];
      assert (i + 1) * n == i * n + n;
      i := i + 1;
    }
  }
}
