/** MurmurHash3_x86_32. */
module MurmurX86_32 {
  import opened HashFold
  import opened MurmurWords

  function MixKey(k: bv32): bv32 {
    Scramble32(k, A1, 15, A2)
  }

  function Step(h: bv32, k: bv32): bv32 {
    Blend32(h, MixKey(k), 13, 0, 0xe6546b64)
  }

  /** A step is a bijection of the state for a fixed block, and injective in the block for a fixed state. */
  lemma StepLossless()
    ensures Lossless(Step)
  {
    hide Blend32, Unblend32, Scramble32;
    forall s, t, k | Step(s, k) == Step(t, k) ensures s == t {
      Blend32Inverse(s, MixKey(k), 13, 0, 0xe6546b64);
      Blend32Inverse(t, MixKey(k), 13, 0, 0xe6546b64);
    }
    forall s, k, l | Step(s, k) == Step(s, l) ensures k == l {
      Blend32Inverse(s, MixKey(k), 13, 0, 0xe6546b64);
      Blend32Inverse(s, MixKey(l), 13, 0, 0xe6546b64);
      Scramble32Lossless(k, l, A1, 15, A2);
    }
  }

  function Blocks(key: seq<bv8>): seq<bv32> {
    seq(|key| / 4, i requires 0 <= i => Word32(key, 4 * i))
  }

  function Tail(key: seq<bv8>): seq<bv8> {
    key[|key| / 4 * 4..]
  }

  function Absorb(h: bv32, tail: seq<bv8>): bv32 {
    if tail == [] then h else Xor32(h, MixKey(Word32(tail, 0)))
  }

  function Hash(key: seq<bv8>, seed: bv32): bv32 {
    Fmix32(Xor32(Absorb(Fold(Step, seed, Blocks(key)), Tail(key)), Length32(|key|)))
  }

  method MurmurHash3_x86_32(key: seq<bv8>, seed: bv32) returns (out: bv32)
    ensures out == Hash(key, seed)
  {
    hide Rotl32, MulFive, Plus32, Xor32, Times32, Word32, Length32;
    var len := |key|;
    var nblocks := len / 4;
    var h1 := seed;
    ghost var blocks := Blocks(key);
    var i := -nblocks;
    assert blocks[0..] == blocks;
    while i != 0
      invariant -nblocks <= i <= 0
      invariant Fold(Step, h1, blocks[nblocks + i..]) == Fold(Step, seed, blocks)
      decreases -i
    {
      var k1 := Word32(key, 4 * (nblocks + i));
      assert k1 == blocks[nblocks + i];
      assert blocks[nblocks + i..][1..] == blocks[nblocks + i + 1..];
      k1 := Times32(k1, A1);
      k1 := Rotl32(k1, 15);
      k1 := Times32(k1, A2);
      h1 := Xor32(h1, k1);
      h1 := Rotl32(h1, 13);
      PlusZero(h1);
      h1 := Plus32(MulFive(h1), 0xe6546b64);
      i := i + 1;
    }
    var tail := key[nblocks * 4..];
    if tail != [] {
      var k1 := TailWord32(tail, 0);
      k1 := Times32(k1, A1);
      k1 := Rotl32(k1, 15);
      k1 := Times32(k1, A2);
      h1 := Xor32(h1, k1);
    }
    h1 := Xor32(h1, Length32(len));
    out := Fmix32(h1);
  }

  lemma PlusZero(x: bv32)
    ensures Plus32(x, 0) == x
  {
  }

  lemma AbsorbLossless(g: bv32, h: bv32, t: seq<bv8>, u: seq<bv8>)
    requires |t| == |u| < 4 && Absorb(g, t) == Absorb(h, u)
    ensures t == u ==> g == h
    ensures g == h ==> t == u
  {
    hide Xor32, Scramble32, Word32;
    if t != [] {
      var k, l := Word32(t, 0), Word32(u, 0);
      Xor32Inverse(g, MixKey(k));
      Xor32Inverse(h, MixKey(l));
      if g == h {
        Scramble32Lossless(k, l, A1, 15, A2);
        forall i: nat | 0 <= i < 4 ensures At(t, i) == At(u, i) {
          Word32Bytes(t, u, 0, i);
        }
        AgreeEverywhere(t, u, 0, 4);
      }
    }
  }

  lemma FinishLossless(g: bv32, h: bv32, n: nat)
    requires Fmix32(Xor32(g, Length32(n))) == Fmix32(Xor32(h, Length32(n)))
    ensures g == h
  {
    hide Xor32, Fmix32, Length32;
    Fmix32Lossless(Xor32(g, Length32(n)), Xor32(h, Length32(n)));
    Xor32Inverse(g, Length32(n));
    Xor32Inverse(h, Length32(n));
  }

  /** Two different keys of one length that agree outside one block, or outside the tail (the region
      after the last block), have different hashes, whatever the seed. */
  lemma NoCollision(a: seq<bv8>, b: seq<bv8>, seed: bv32, i: nat)
    requires AgreeOutside(a, b, 4 * i, 4 * i + 4)
    ensures a != b ==> Hash(a, seed) != Hash(b, seed)
  {
    hide Word32, Fold, Step, Absorb, Fmix32, Xor32, Length32, At;
    if Hash(a, seed) == Hash(b, seed) {
      var ks, ls := Blocks(a), Blocks(b);
      var n := |a| / 4;
      forall j | 0 <= j < n && j != i ensures ks[j] == ls[j] {
        WordsAgree(a, b, 4 * i, 4 * i + 4, 4 * j);
      }
      FinishLossless(Absorb(Fold(Step, seed, ks), Tail(a)), Absorb(Fold(Step, seed, ls), Tail(b)), |a|);
      AbsorbLossless(Fold(Step, seed, ks), Fold(Step, seed, ls), Tail(a), Tail(b));
      if i < n {
        assert Tail(a) == Tail(b);
        StepLossless();
        OneDifferenceShows(Step, seed, ks, ls, i);
        assert ks[i] == Word32(a, 4 * i) && ls[i] == Word32(b, 4 * i);
        forall p: nat | 4 * i <= p < 4 * i + 4 ensures At(a, p) == At(b, p) {
          Word32Bytes(a, b, 4 * i, p);
        }
        AgreeEverywhere(a, b, 4 * i, 4 * i + 4);
      } else {
        assert ks == ls;
        assert a == a[..n * 4] + Tail(a) && b == b[..n * 4] + Tail(b);
        assert a[..n * 4] == b[..n * 4];
      }
    }
  }
}

/** MurmurHash3_x86_128. */
module MurmurX86_128 {
  import opened HashFold
  import opened MurmurWords

  datatype State = State(h1: bv32, h2: bv32, h3: bv32, h4: bv32)

  datatype Block = Block(k1: bv32, k2: bv32, k3: bv32, k4: bv32)

  /** The four key words, scrambled. */
  function MixKeys(b: Block): Block {
    Block(Scramble32(b.k1, B1, 15, B2), Scramble32(b.k2, B2, 16, B3),
          Scramble32(b.k3, B3, 17, B4), Scramble32(b.k4, B4, 18, B1))
  }

  lemma MixKeysLossless(b: Block, c: Block)
    requires MixKeys(b) == MixKeys(c)
    ensures b == c
  {
    hide Scramble32;
    Scramble32Lossless(b.k1, c.k1, B1, 15, B2);
    Scramble32Lossless(b.k2, c.k2, B2, 16, B3);
    Scramble32Lossless(b.k3, c.k3, B3, 17, B4);
    Scramble32Lossless(b.k4, c.k4, B4, 18, B1);
  }

  function Blend(s: State, m: Block): State {
    var h1 := Blend32(s.h1, m.k1, 19, s.h2, 0x561ccd1b);
    State(h1,
          Blend32(s.h2, m.k2, 17, s.h3, 0x0bcaa747),
          Blend32(s.h3, m.k3, 15, s.h4, 0x96cd1c35),
          Blend32(s.h4, m.k4, 13, h1, 0x32ac3b17))
  }

  function Step(s: State, b: Block): State {
    Blend(s, MixKeys(b))
  }

  lemma BlendLosslessInState(s: State, t: State, m: Block)
    requires Blend(s, m) == Blend(t, m)
    ensures s == t
  {
    hide Blend32, Unblend32;
    var h1, g1 := Blend(s, m).h1, Blend(t, m).h1;
    Blend32Inverse(s.h4, m.k4, 13, h1, 0x32ac3b17);
    Blend32Inverse(t.h4, m.k4, 13, g1, 0x32ac3b17);
    Blend32Inverse(s.h3, m.k3, 15, s.h4, 0x96cd1c35);
    Blend32Inverse(t.h3, m.k3, 15, t.h4, 0x96cd1c35);
    Blend32Inverse(s.h2, m.k2, 17, s.h3, 0x0bcaa747);
    Blend32Inverse(t.h2, m.k2, 17, t.h3, 0x0bcaa747);
    Blend32Inverse(s.h1, m.k1, 19, s.h2, 0x561ccd1b);
    Blend32Inverse(t.h1, m.k1, 19, t.h2, 0x561ccd1b);
  }

  lemma BlendLosslessInKeys(s: State, m: Block, n: Block)
    requires Blend(s, m) == Blend(s, n)
    ensures m == n
  {
    hide Blend32, Unblend32;
    var h1 := Blend(s, m).h1;
    Blend32Inverse(s.h1, m.k1, 19, s.h2, 0x561ccd1b);
    Blend32Inverse(s.h1, n.k1, 19, s.h2, 0x561ccd1b);
    Blend32Inverse(s.h2, m.k2, 17, s.h3, 0x0bcaa747);
    Blend32Inverse(s.h2, n.k2, 17, s.h3, 0x0bcaa747);
    Blend32Inverse(s.h3, m.k3, 15, s.h4, 0x96cd1c35);
    Blend32Inverse(s.h3, n.k3, 15, s.h4, 0x96cd1c35);
    Blend32Inverse(s.h4, m.k4, 13, h1, 0x32ac3b17);
    Blend32Inverse(s.h4, n.k4, 13, h1, 0x32ac3b17);
  }

  /** A step is a bijection of the state for a fixed block, and injective in the block for a fixed state. */
  lemma StepLossless()
    ensures Lossless(Step)
  {
    hide Blend, MixKeys;
    forall s, t, b | Step(s, b) == Step(t, b) ensures s == t {
      BlendLosslessInState(s, t, MixKeys(b));
    }
    forall s, b, c | Step(s, b) == Step(s, c) ensures b == c {
      BlendLosslessInKeys(s, MixKeys(b), MixKeys(c));
      MixKeysLossless(b, c);
    }
  }

  function BlockAt(key: seq<bv8>, o: nat): Block {
    Block(Word32(key, o), Word32(key, o + 4), Word32(key, o + 8), Word32(key, o + 12))
  }

  lemma BlockBytes(s: seq<bv8>, t: seq<bv8>, o: nat, i: nat)
    requires BlockAt(s, o) == BlockAt(t, o) && o <= i < o + 16
    ensures At(s, i) == At(t, i)
  {
    hide Word32, At;
    var w := o + (i - o) / 4 * 4;
    assert w == o || w == o + 4 || w == o + 8 || w == o + 12;
    Word32Bytes(s, t, w, i);
  }

  function Blocks(key: seq<bv8>): seq<Block> {
    seq(|key| / 16, i requires 0 <= i => BlockAt(key, 16 * i))
  }

  function Tail(key: seq<bv8>): seq<bv8> {
    key[|key| / 16 * 16..]
  }

  /** Of the tail's words only those that have a byte are mixed in. */
  function Absorb(s: State, tail: seq<bv8>): State {
    var m := MixKeys(BlockAt(tail, 0));
    State(if |tail| > 0 then Xor32(s.h1, m.k1) else s.h1,
          if |tail| > 4 then Xor32(s.h2, m.k2) else s.h2,
          if |tail| > 8 then Xor32(s.h3, m.k3) else s.h3,
          if |tail| > 12 then Xor32(s.h4, m.k4) else s.h4)
  }

  function AddLength(s: State, n: nat): State {
    var len := Length32(n);
    State(Xor32(s.h1, len), Xor32(s.h2, len), Xor32(s.h3, len), Xor32(s.h4, len))
  }

  /** h1 += h2 + h3 + h4, then every other word += h1. */
  function Spread(s: State): State {
    var h1 := Plus32(Plus32(Plus32(s.h1, s.h2), s.h3), s.h4);
    State(h1, Plus32(s.h2, h1), Plus32(s.h3, h1), Plus32(s.h4, h1))
  }

  function FmixAll(s: State): State {
    State(Fmix32(s.h1), Fmix32(s.h2), Fmix32(s.h3), Fmix32(s.h4))
  }

  function Finish(s: State, n: nat): State {
    Spread(FmixAll(Spread(AddLength(s, n))))
  }

  function Hash(key: seq<bv8>, seed: bv32): State {
    Finish(Absorb(Fold(Step, State(seed, seed, seed, seed), Blocks(key)), Tail(key)), |key|)
  }

  method MurmurHash3_x86_128(key: seq<bv8>, seed: bv32) returns (out: State)
    ensures out == Hash(key, seed)
  {
    hide Finish, Absorb, Word32, Blend, MixKeys;
    var len := |key|;
    var nblocks := len / 16;
    var s := State(seed, seed, seed, seed);
    ghost var blocks, start := Blocks(key), s;
    var i := -nblocks;
    assert blocks[0..] == blocks;
    while i != 0
      invariant -nblocks <= i <= 0
      invariant Fold(Step, s, blocks[nblocks + i..]) == Fold(Step, start, blocks)
      decreases -i
    {
      var o := 16 * (nblocks + i);
      var b := Block(Word32(key, o), Word32(key, o + 4), Word32(key, o + 8), Word32(key, o + 12));
      assert b == blocks[nblocks + i];
      assert blocks[nblocks + i..][1..] == blocks[nblocks + i + 1..];
      s := StepWords(s, b);
      i := i + 1;
    }
    s := AbsorbTail(s, key[nblocks * 16..]);
    out := FinishWords(s, len);
  }

  /** The loop body, word by word. */
  method StepWords(s: State, b: Block) returns (r: State)
    ensures r == Step(s, b)
  {
    hide Rotl32, MulFive, Plus32, Xor32, Times32;
    var h1, h2, h3, h4 := s.h1, s.h2, s.h3, s.h4;
    var k1, k2, k3, k4 := b.k1, b.k2, b.k3, b.k4;
    k1 := Times32(k1, B1);
    k1 := Rotl32(k1, 15);
    k1 := Times32(k1, B2);
    h1 := Xor32(h1, k1);
    h1 := Rotl32(h1, 19);
    h1 := Plus32(h1, h2);
    h1 := Plus32(MulFive(h1), 0x561ccd1b);
    k2 := Times32(k2, B2);
    k2 := Rotl32(k2, 16);
    k2 := Times32(k2, B3);
    h2 := Xor32(h2, k2);
    h2 := Rotl32(h2, 17);
    h2 := Plus32(h2, h3);
    h2 := Plus32(MulFive(h2), 0x0bcaa747);
    k3 := Times32(k3, B3);
    k3 := Rotl32(k3, 17);
    k3 := Times32(k3, B4);
    h3 := Xor32(h3, k3);
    h3 := Rotl32(h3, 15);
    h3 := Plus32(h3, h4);
    h3 := Plus32(MulFive(h3), 0x96cd1c35);
    k4 := Times32(k4, B4);
    k4 := Rotl32(k4, 18);
    k4 := Times32(k4, B1);
    h4 := Xor32(h4, k4);
    h4 := Rotl32(h4, 13);
    h4 := Plus32(h4, h1);
    h4 := Plus32(MulFive(h4), 0x32ac3b17);
    r := State(h1, h2, h3, h4);
  }

  /** The switch on the number of tail bytes: each word's cases fall through to the next word's. */
  method AbsorbTail(s: State, tail: seq<bv8>) returns (r: State)
    requires |tail| < 16
    ensures r == Absorb(s, tail)
  {
    hide Xor32, Times32, Rotl32, Word32;
    var h1, h2, h3, h4 := s.h1, s.h2, s.h3, s.h4;
    if |tail| >= 13 {
      var k4 := TailWord32(tail, 12);
      h4 := Xor32(h4, Times32(Rotl32(Times32(k4, B4), 18), B1));
    }
    if |tail| >= 9 {
      var k3 := TailWord32(tail, 8);
      h3 := Xor32(h3, Times32(Rotl32(Times32(k3, B3), 17), B4));
    }
    if |tail| >= 5 {
      var k2 := TailWord32(tail, 4);
      h2 := Xor32(h2, Times32(Rotl32(Times32(k2, B2), 16), B3));
    }
    if |tail| >= 1 {
      var k1 := TailWord32(tail, 0);
      h1 := Xor32(h1, Times32(Rotl32(Times32(k1, B1), 15), B2));
    }
    r := State(h1, h2, h3, h4);
  }

  method FinishWords(s: State, n: nat) returns (r: State)
    ensures r == Finish(s, n)
  {
    hide Xor32, Plus32, Fmix32, Length32;
    var len := Length32(n);
    var h1, h2, h3, h4 := Xor32(s.h1, len), Xor32(s.h2, len), Xor32(s.h3, len), Xor32(s.h4, len);
    h1 := Plus32(h1, h2);
    h1 := Plus32(h1, h3);
    h1 := Plus32(h1, h4);
    h2 := Plus32(h2, h1);
    h3 := Plus32(h3, h1);
    h4 := Plus32(h4, h1);
    h1 := Fmix32(h1);
    h2 := Fmix32(h2);
    h3 := Fmix32(h3);
    h4 := Fmix32(h4);
    h1 := Plus32(h1, h2);
    h1 := Plus32(h1, h3);
    h1 := Plus32(h1, h4);
    h2 := Plus32(h2, h1);
    h3 := Plus32(h3, h1);
    h4 := Plus32(h4, h1);
    r := State(h1, h2, h3, h4);
  }

  lemma PlusLossless(x: bv32, y: bv32, a: bv32)
    requires Plus32(x, a) == Plus32(y, a)
    ensures x == y
  {
    hide Plus32, Minus32;
    Plus32Inverse(x, a);
    Plus32Inverse(y, a);
  }

  lemma SpreadLossless(s: State, t: State)
    requires Spread(s) == Spread(t)
    ensures s == t
  {
    hide Plus32;
    var h1 := Spread(s).h1;
    PlusLossless(s.h2, t.h2, h1);
    PlusLossless(s.h3, t.h3, h1);
    PlusLossless(s.h4, t.h4, h1);
    PlusLossless(Plus32(Plus32(s.h1, s.h2), s.h3), Plus32(Plus32(t.h1, t.h2), t.h3), s.h4);
    PlusLossless(Plus32(s.h1, s.h2), Plus32(t.h1, t.h2), s.h3);
    PlusLossless(s.h1, t.h1, s.h2);
  }

  lemma XorLossless(x: bv32, y: bv32, m: bv32)
    requires Xor32(x, m) == Xor32(y, m)
    ensures x == y
  {
    hide Xor32;
    Xor32Inverse(x, m);
    Xor32Inverse(y, m);
  }

  /** Finalisation is injective. */
  lemma FinishLossless(s: State, t: State, n: nat)
    requires Finish(s, n) == Finish(t, n)
    ensures s == t
  {
    hide Xor32, Spread, Fmix32, Length32;
    var len := Length32(n);
    var s1, t1 := AddLength(s, n), AddLength(t, n);
    var s2, t2 := Spread(s1), Spread(t1);
    SpreadLossless(FmixAll(s2), FmixAll(t2));
    Fmix32Lossless(s2.h1, t2.h1);
    Fmix32Lossless(s2.h2, t2.h2);
    Fmix32Lossless(s2.h3, t2.h3);
    Fmix32Lossless(s2.h4, t2.h4);
    SpreadLossless(s1, t1);
    XorLossless(s.h1, t.h1, len);
    XorLossless(s.h2, t.h2, len);
    XorLossless(s.h3, t.h3, len);
    XorLossless(s.h4, t.h4, len);
  }

  lemma XorKeyLossless(x: bv32, m: bv32, n: bv32)
    requires Xor32(x, m) == Xor32(x, n)
    ensures m == n
  {
    hide Xor32;
    Xor32Inverse(x, m);
    Xor32Inverse(x, n);
  }

  lemma AbsorbLosslessInState(s: State, t: State, tail: seq<bv8>)
    requires Absorb(s, tail) == Absorb(t, tail)
    ensures s == t
  {
    hide Xor32, MixKeys, BlockAt;
    var m := MixKeys(BlockAt(tail, 0));
    if |tail| > 0 {
      XorLossless(s.h1, t.h1, m.k1);
    }
    if |tail| > 4 {
      XorLossless(s.h2, t.h2, m.k2);
    }
    if |tail| > 8 {
      XorLossless(s.h3, t.h3, m.k3);
    }
    if |tail| > 12 {
      XorLossless(s.h4, t.h4, m.k4);
    }
  }

  lemma AbsorbLosslessInTail(s: State, t: seq<bv8>, u: seq<bv8>)
    requires |t| == |u| < 16 && Absorb(s, t) == Absorb(s, u)
    ensures t == u
  {
    hide Xor32, Scramble32, Word32, At;
    var b, c := BlockAt(t, 0), BlockAt(u, 0);
    var m, n := MixKeys(b), MixKeys(c);
    forall i: nat | 0 <= i < |t| ensures At(t, i) == At(u, i) {
      if i < 4 {
        XorKeyLossless(s.h1, m.k1, n.k1);
        Scramble32Lossless(b.k1, c.k1, B1, 15, B2);
        Word32Bytes(t, u, 0, i);
      } else if i < 8 {
        XorKeyLossless(s.h2, m.k2, n.k2);
        Scramble32Lossless(b.k2, c.k2, B2, 16, B3);
        Word32Bytes(t, u, 4, i);
      } else if i < 12 {
        XorKeyLossless(s.h3, m.k3, n.k3);
        Scramble32Lossless(b.k3, c.k3, B3, 17, B4);
        Word32Bytes(t, u, 8, i);
      } else {
        XorKeyLossless(s.h4, m.k4, n.k4);
        Scramble32Lossless(b.k4, c.k4, B4, 18, B1);
        Word32Bytes(t, u, 12, i);
      }
    }
    AgreeEverywhere(t, u, 0, |t|);
  }

  /** Two different keys of one length that agree outside one block, or outside the tail (the region
      after the last block), have different hashes, whatever the seed. */
  lemma NoCollision(a: seq<bv8>, b: seq<bv8>, seed: bv32, i: nat)
    requires AgreeOutside(a, b, 16 * i, 16 * i + 16)
    ensures a != b ==> Hash(a, seed) != Hash(b, seed)
  {
    hide Word32, Fold, Step, Absorb, Finish, At;
    if Hash(a, seed) == Hash(b, seed) {
      var ks, ls := Blocks(a), Blocks(b);
      var start := State(seed, seed, seed, seed);
      var n := |a| / 16;
      forall j | 0 <= j < n && j != i ensures ks[j] == ls[j] {
        BlocksAgree(a, b, i, j);
      }
      FinishLossless(Absorb(Fold(Step, start, ks), Tail(a)), Absorb(Fold(Step, start, ls), Tail(b)), |a|);
      if i < n {
        assert Tail(a) == Tail(b);
        AbsorbLosslessInState(Fold(Step, start, ks), Fold(Step, start, ls), Tail(a));
        StepLossless();
        OneDifferenceShows(Step, start, ks, ls, i);
        assert ks[i] == BlockAt(a, 16 * i) && ls[i] == BlockAt(b, 16 * i);
        forall p: nat | 16 * i <= p < 16 * i + 16 ensures At(a, p) == At(b, p) {
          BlockBytes(a, b, 16 * i, p);
        }
        AgreeEverywhere(a, b, 16 * i, 16 * i + 16);
      } else {
        assert ks == ls;
        AbsorbLosslessInTail(Fold(Step, start, ks), Tail(a), Tail(b));
        assert a == a[..n * 16] + Tail(a) && b == b[..n * 16] + Tail(b);
        assert a[..n * 16] == b[..n * 16];
      }
    }
  }

  lemma BlocksAgree(a: seq<bv8>, b: seq<bv8>, i: nat, j: nat)
    requires AgreeOutside(a, b, 16 * i, 16 * i + 16) && j != i
    ensures BlockAt(a, 16 * j) == BlockAt(b, 16 * j)
  {
    hide Word32;
    WordsAgree(a, b, 16 * i, 16 * i + 16, 16 * j);
    WordsAgree(a, b, 16 * i, 16 * i + 16, 16 * j + 4);
    WordsAgree(a, b, 16 * i, 16 * i + 16, 16 * j + 8);
    WordsAgree(a, b, 16 * i, 16 * i + 16, 16 * j + 12);
  }
}

/** MurmurHash3_x64_128. */
module MurmurX64_128 {
  import opened HashFold
  import opened MurmurWords

  datatype State = State(h1: bv64, h2: bv64)

  datatype Block = Block(k1: bv64, k2: bv64)

  function MixKeys(b: Block): Block {
    Block(Scramble64(b.k1, D1, 31, D2), Scramble64(b.k2, D2, 33, D1))
  }

  function Blend(s: State, m: Block): State {
    var h1 := Blend64(s.h1, m.k1, 27, s.h2, 0x52dce729);
    State(h1, Blend64(s.h2, m.k2, 31, h1, 0x38495ab5))
  }

  function Step(s: State, b: Block): State {
    Blend(s, MixKeys(b))
  }

  lemma BlendLosslessInState(s: State, t: State, m: Block)
    requires Blend(s, m) == Blend(t, m)
    ensures s == t
  {
    hide Blend64, Unblend64;
    var h1 := Blend(s, m).h1;
    Blend64Inverse(s.h2, m.k2, 31, h1, 0x38495ab5);
    Blend64Inverse(t.h2, m.k2, 31, h1, 0x38495ab5);
    Blend64Inverse(s.h1, m.k1, 27, s.h2, 0x52dce729);
    Blend64Inverse(t.h1, m.k1, 27, t.h2, 0x52dce729);
  }

  lemma BlendLosslessInKeys(s: State, m: Block, n: Block)
    requires Blend(s, m) == Blend(s, n)
    ensures m == n
  {
    hide Blend64, Unblend64;
    var h1 := Blend(s, m).h1;
    Blend64Inverse(s.h1, m.k1, 27, s.h2, 0x52dce729);
    Blend64Inverse(s.h1, n.k1, 27, s.h2, 0x52dce729);
    Blend64Inverse(s.h2, m.k2, 31, h1, 0x38495ab5);
    Blend64Inverse(s.h2, n.k2, 31, h1, 0x38495ab5);
  }

  /** A step is a bijection of the state for a fixed block, and injective in the block for a fixed state. */
  lemma StepLossless()
    ensures Lossless(Step)
  {
    hide Blend, Scramble64;
    forall s, t, b | Step(s, b) == Step(t, b) ensures s == t {
      BlendLosslessInState(s, t, MixKeys(b));
    }
    forall s, b, c | Step(s, b) == Step(s, c) ensures b == c {
      BlendLosslessInKeys(s, MixKeys(b), MixKeys(c));
      Scramble64Lossless(b.k1, c.k1, D1, 31, D2);
      Scramble64Lossless(b.k2, c.k2, D2, 33, D1);
    }
  }

  function BlockAt(key: seq<bv8>, o: nat): Block {
    Block(Word64(key, o), Word64(key, o + 8))
  }

  lemma BlockBytes(s: seq<bv8>, t: seq<bv8>, o: nat, i: nat)
    requires BlockAt(s, o) == BlockAt(t, o) && o <= i < o + 16
    ensures At(s, i) == At(t, i)
  {
    hide Word64, At;
    Word64Bytes(s, t, if i < o + 8 then o else o + 8, i);
  }

  function Blocks(key: seq<bv8>): seq<Block> {
    seq(|key| / 16, i requires 0 <= i => BlockAt(key, 16 * i))
  }

  function Tail(key: seq<bv8>): seq<bv8> {
    key[|key| / 16 * 16..]
  }

  function Absorb(s: State, tail: seq<bv8>): State {
    var m := MixKeys(BlockAt(tail, 0));
    State(if |tail| > 0 then Xor64(s.h1, m.k1) else s.h1, if |tail| > 8 then Xor64(s.h2, m.k2) else s.h2)
  }

  /** h1 += h2; h2 += h1 */
  function Spread(s: State): State {
    var h1 := Plus64(s.h1, s.h2);
    State(h1, Plus64(s.h2, h1))
  }

  function Finish(s: State, n: nat): State {
    var t := Spread(State(Xor64(s.h1, Length64(n)), Xor64(s.h2, Length64(n))));
    Spread(State(Fmix64(t.h1), Fmix64(t.h2)))
  }

  function Hash(key: seq<bv8>, seed: bv32): State {
    Finish(Absorb(Fold(Step, State(seed as bv64, seed as bv64), Blocks(key)), Tail(key)), |key|)
  }

  method MurmurHash3_x64_128(key: seq<bv8>, seed: bv32) returns (out: State)
    ensures out == Hash(key, seed)
  {
    hide Finish, Absorb, Word64, Blend, MixKeys;
    var len := |key|;
    var nblocks := len / 16;
    var s := State(seed as bv64, seed as bv64);
    ghost var blocks, start := Blocks(key), s;
    assert blocks[0..] == blocks;
    for i := 0 to nblocks
      invariant Fold(Step, s, blocks[i..]) == Fold(Step, start, blocks)
    {
      var b := Block(Word64(key, 16 * i), Word64(key, 16 * i + 8));
      assert b == blocks[i];
      assert blocks[i..][1..] == blocks[i + 1..];
      s := StepWords(s, b);
    }
    s := AbsorbTail(s, key[nblocks * 16..]);
    out := FinishWords(s, len);
  }

  /** The loop body, word by word. */
  method StepWords(s: State, b: Block) returns (r: State)
    ensures r == Step(s, b)
  {
    hide Rotl64, MulFive64, Plus64, Xor64, Times64;
    var h1, h2, k1, k2 := s.h1, s.h2, b.k1, b.k2;
    k1 := Times64(k1, D1);
    k1 := Rotl64(k1, 31);
    k1 := Times64(k1, D2);
    h1 := Xor64(h1, k1);
    h1 := Rotl64(h1, 27);
    h1 := Plus64(h1, h2);
    h1 := Plus64(MulFive64(h1), 0x52dce729);
    k2 := Times64(k2, D2);
    k2 := Rotl64(k2, 33);
    k2 := Times64(k2, D1);
    h2 := Xor64(h2, k2);
    h2 := Rotl64(h2, 31);
    h2 := Plus64(h2, h1);
    h2 := Plus64(MulFive64(h2), 0x38495ab5);
    r := State(h1, h2);
  }

  /** The switch on the number of tail bytes: each word's cases fall through to the next word's. */
  method AbsorbTail(s: State, tail: seq<bv8>) returns (r: State)
    requires |tail| < 16
    ensures r == Absorb(s, tail)
  {
    hide Xor64, Times64, Rotl64, Word64;
    var h1, h2 := s.h1, s.h2;
    if |tail| >= 9 {
      var k2 := TailWord64(tail, 8);
      h2 := Xor64(h2, Times64(Rotl64(Times64(k2, D2), 33), D1));
    }
    if |tail| >= 1 {
      var k1 := TailWord64(tail, 0);
      h1 := Xor64(h1, Times64(Rotl64(Times64(k1, D1), 31), D2));
    }
    r := State(h1, h2);
  }

  method FinishWords(s: State, n: nat) returns (r: State)
    ensures r == Finish(s, n)
  {
    hide Xor64, Plus64, Fmix64, Length64;
    var h1, h2 := Xor64(s.h1, Length64(n)), Xor64(s.h2, Length64(n));
    h1 := Plus64(h1, h2);
    h2 := Plus64(h2, h1);
    h1 := Fmix64(h1);
    h2 := Fmix64(h2);
    h1 := Plus64(h1, h2);
    h2 := Plus64(h2, h1);
    r := State(h1, h2);
  }

  lemma SpreadLossless(s: State, t: State)
    requires Spread(s) == Spread(t)
    ensures s == t
  {
    hide Plus64, Minus64;
    var h1 := Spread(s).h1;
    Plus64Inverse(s.h2, h1);
    Plus64Inverse(t.h2, h1);
    Plus64Inverse(s.h1, s.h2);
    Plus64Inverse(t.h1, t.h2);
  }

  lemma XorLossless(x: bv64, y: bv64, m: bv64, n: bv64)
    requires Xor64(x, m) == Xor64(y, n)
    ensures m == n ==> x == y
    ensures x == y ==> m == n
  {
    hide Xor64;
    Xor64Inverse(x, m);
    Xor64Inverse(y, n);
  }

  /** Finalisation is injective. */
  lemma FinishLossless(s: State, t: State, n: nat)
    requires Finish(s, n) == Finish(t, n)
    ensures s == t
  {
    hide Xor64, Spread, Fmix64, Length64;
    var len := Length64(n);
    var s1, t1 := State(Xor64(s.h1, len), Xor64(s.h2, len)), State(Xor64(t.h1, len), Xor64(t.h2, len));
    var s2, t2 := Spread(s1), Spread(t1);
    SpreadLossless(State(Fmix64(s2.h1), Fmix64(s2.h2)), State(Fmix64(t2.h1), Fmix64(t2.h2)));
    Fmix64Lossless(s2.h1, t2.h1);
    Fmix64Lossless(s2.h2, t2.h2);
    SpreadLossless(s1, t1);
    XorLossless(s.h1, t.h1, len, len);
    XorLossless(s.h2, t.h2, len, len);
  }

  lemma AbsorbLosslessInState(s: State, t: State, tail: seq<bv8>)
    requires Absorb(s, tail) == Absorb(t, tail)
    ensures s == t
  {
    hide Xor64, MixKeys, BlockAt;
    var m := MixKeys(BlockAt(tail, 0));
    if |tail| > 0 {
      XorLossless(s.h1, t.h1, m.k1, m.k1);
    }
    if |tail| > 8 {
      XorLossless(s.h2, t.h2, m.k2, m.k2);
    }
  }

  lemma AbsorbLosslessInTail(s: State, t: seq<bv8>, u: seq<bv8>)
    requires |t| == |u| < 16 && Absorb(s, t) == Absorb(s, u)
    ensures t == u
  {
    hide Xor64, Scramble64, Word64, At;
    var b, c := BlockAt(t, 0), BlockAt(u, 0);
    var m, n := MixKeys(b), MixKeys(c);
    forall i: nat | 0 <= i < |t| ensures At(t, i) == At(u, i) {
      if i < 8 {
        XorLossless(s.h1, s.h1, m.k1, n.k1);
        Scramble64Lossless(b.k1, c.k1, D1, 31, D2);
        Word64Bytes(t, u, 0, i);
      } else {
        XorLossless(s.h2, s.h2, m.k2, n.k2);
        Scramble64Lossless(b.k2, c.k2, D2, 33, D1);
        Word64Bytes(t, u, 8, i);
      }
    }
    AgreeEverywhere(t, u, 0, |t|);
  }

  /** Two different keys of one length that agree outside one block, or outside the tail (the region
      after the last block), have different hashes, whatever the seed. */
  lemma NoCollision(a: seq<bv8>, b: seq<bv8>, seed: bv32, i: nat)
    requires AgreeOutside(a, b, 16 * i, 16 * i + 16)
    ensures a != b ==> Hash(a, seed) != Hash(b, seed)
  {
    hide Word64, Fold, Step, Absorb, Finish, At;
    if Hash(a, seed) == Hash(b, seed) {
      var ks, ls := Blocks(a), Blocks(b);
      var start := State(seed as bv64, seed as bv64);
      var n := |a| / 16;
      forall j | 0 <= j < n && j != i ensures ks[j] == ls[j] {
        WordsAgree(a, b, 16 * i, 16 * i + 16, 16 * j);
        WordsAgree(a, b, 16 * i, 16 * i + 16, 16 * j + 8);
      }
      FinishLossless(Absorb(Fold(Step, start, ks), Tail(a)), Absorb(Fold(Step, start, ls), Tail(b)), |a|);
      if i < n {
        assert Tail(a) == Tail(b);
        AbsorbLosslessInState(Fold(Step, start, ks), Fold(Step, start, ls), Tail(a));
        StepLossless();
        OneDifferenceShows(Step, start, ks, ls, i);
        assert ks[i] == BlockAt(a, 16 * i) && ls[i] == BlockAt(b, 16 * i);
        forall p: nat | 16 * i <= p < 16 * i + 16 ensures At(a, p) == At(b, p) {
          BlockBytes(a, b, 16 * i, p);
        }
        AgreeEverywhere(a, b, 16 * i, 16 * i + 16);
      } else {
        assert ks == ls;
        AbsorbLosslessInTail(Fold(Step, start, ks), Tail(a), Tail(b));
        assert a == a[..n * 16] + Tail(a) && b == b[..n * 16] + Tail(b);
        assert a[..n * 16] == b[..n * 16];
      }
    }
  }
}
