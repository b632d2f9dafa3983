/**
 The three hashes once more, in plain bit-vector operations with every constant written out, reading the key from its
 front. Multiplications and rotations have a function each, so that they can be compared one by one.
 */
module MurmurReference {
  import opened MurmurWords

  // ---------- operations on words ----------

  function TimesCC9E2D51(x: bv32): bv32 {
    x * 0xcc9e2d51
  }

  function Times1B873593(x: bv32): bv32 {
    x * 0x1b873593
  }

  function Times239B961B(x: bv32): bv32 {
    x * 0x239b961b
  }

  function TimesAB0E9789(x: bv32): bv32 {
    x * 0xab0e9789
  }

  function Times38B34AE5(x: bv32): bv32 {
    x * 0x38b34ae5
  }

  function TimesA1E38B93(x: bv32): bv32 {
    x * 0xa1e38b93
  }

  function Times85EBCA6B(x: bv32): bv32 {
    x * 0x85ebca6b
  }

  function TimesC2B2AE35(x: bv32): bv32 {
    x * 0xc2b2ae35
  }

  function Left13(x: bv32): bv32 {
    (x << 13) | (x >> 19)
  }

  function Left15(x: bv32): bv32 {
    (x << 15) | (x >> 17)
  }

  function Left16(x: bv32): bv32 {
    (x << 16) | (x >> 16)
  }

  function Left17(x: bv32): bv32 {
    (x << 17) | (x >> 15)
  }

  function Left18(x: bv32): bv32 {
    (x << 18) | (x >> 14)
  }

  function Left19(x: bv32): bv32 {
    (x << 19) | (x >> 13)
  }

  function Fold16(x: bv32): bv32 {
    x ^ (x >> 16)
  }

  function Fold13(x: bv32): bv32 {
    x ^ (x >> 13)
  }

  function Times5(x: bv32): bv32 {
    x * 5
  }

  function FivePlus(x: bv32, c: bv32): bv32 {
    Plus32(Times5(x), c)
  }

  function Times87C37B91114253D5(x: bv64): bv64 {
    x * 0x87c37b91114253d5
  }

  function Times4CF5AD432745937F(x: bv64): bv64 {
    x * 0x4cf5ad432745937f
  }

  function TimesFF51AFD7ED558CCD(x: bv64): bv64 {
    x * 0xff51afd7ed558ccd
  }

  function TimesC4CEB9FE1A85EC53(x: bv64): bv64 {
    x * 0xc4ceb9fe1a85ec53
  }

  function Wide27(x: bv64): bv64 {
    (x << 27) | (x >> 37)
  }

  function Wide31(x: bv64): bv64 {
    (x << 31) | (x >> 33)
  }

  function Wide33(x: bv64): bv64 {
    (x << 33) | (x >> 31)
  }

  function Fold33(x: bv64): bv64 {
    x ^ (x >> 33)
  }

  function WideTimes5(x: bv64): bv64 {
    x * 5
  }

  function WideFivePlus(x: bv64, c: bv64): bv64 {
    Plus64(WideTimes5(x), c)
  }

  function Little32(b0: bv8, b1: bv8, b2: bv8, b3: bv8): bv32 {
    (b0 as bv32) ^ ((b1 as bv32) << 8) ^ ((b2 as bv32) << 16) ^ ((b3 as bv32) << 24)
  }

  function Little64(low: bv32, high: bv32): bv64 {
    (low as bv64) ^ ((high as bv64) << 32)
  }

  /** The byte at i, or zero where the key has ended. */
  function ByteAt(key: seq<bv8>, i: nat): bv8 {
    if i < |key| then key[i] else 0
  }

  function WordAt(key: seq<bv8>, i: nat): bv32 {
    Little32(ByteAt(key, i), ByteAt(key, i + 1), ByteAt(key, i + 2), ByteAt(key, i + 3))
  }

  function WideAt(key: seq<bv8>, i: nat): bv64 {
    Little64(WordAt(key, i), WordAt(key, i + 4))
  }

  function Final32(h: bv32): bv32 {
    Fold16(TimesC2B2AE35(Fold13(Times85EBCA6B(Fold16(h)))))
  }

  function Final64(k: bv64): bv64 {
    Fold33(TimesC4CEB9FE1A85EC53(Fold33(TimesFF51AFD7ED558CCD(Fold33(k)))))
  }

  // ---------- x86_32 ----------

  function Key(k: bv32): bv32 {
    Times1B873593(Left15(TimesCC9E2D51(k)))
  }

  /** All whole words of the key, then what is left of it. */
  function Body(h: bv32, key: seq<bv8>): bv32
    decreases |key|
  {
    if |key| >= 4 then Body(FivePlus(Left13(Xor32(h, Key(WordAt(key, 0)))), 0xe6546b64), key[4..])
    else if key != [] then Xor32(h, Key(WordAt(key, 0)))
    else h
  }

  function Hash32(key: seq<bv8>, seed: bv32): bv32 {
    Final32(Xor32(Body(seed, key), Length32(|key|)))
  }

  // ---------- x86_128 ----------

  function Key1(k: bv32): bv32 {
    TimesAB0E9789(Left15(Times239B961B(k)))
  }

  function Key2(k: bv32): bv32 {
    Times38B34AE5(Left16(TimesAB0E9789(k)))
  }

  function Key3(k: bv32): bv32 {
    TimesA1E38B93(Left17(Times38B34AE5(k)))
  }

  function Key4(k: bv32): bv32 {
    Times239B961B(Left18(TimesA1E38B93(k)))
  }

  function Body128(h1: bv32, h2: bv32, h3: bv32, h4: bv32, key: seq<bv8>): (bv32, bv32, bv32, bv32)
    decreases |key|
  {
    if |key| >= 16 then
      var g1 := FivePlus(Plus32(Left19(Xor32(h1, Key1(WordAt(key, 0)))), h2), 0x561ccd1b);
      var g2 := FivePlus(Plus32(Left17(Xor32(h2, Key2(WordAt(key, 4)))), h3), 0x0bcaa747);
      var g3 := FivePlus(Plus32(Left15(Xor32(h3, Key3(WordAt(key, 8)))), h4), 0x96cd1c35);
      var g4 := FivePlus(Plus32(Left13(Xor32(h4, Key4(WordAt(key, 12)))), g1), 0x32ac3b17);
      Body128(g1, g2, g3, g4, key[16..])
    else
      (if |key| >= 1 then Xor32(h1, Key1(WordAt(key, 0))) else h1,
       if |key| >= 5 then Xor32(h2, Key2(WordAt(key, 4))) else h2,
       if |key| >= 9 then Xor32(h3, Key3(WordAt(key, 8))) else h3,
       if |key| >= 13 then Xor32(h4, Key4(WordAt(key, 12))) else h4)
  }

  function Sums(h: (bv32, bv32, bv32, bv32)): (bv32, bv32, bv32, bv32) {
    var g1 := Plus32(Plus32(Plus32(h.0, h.1), h.2), h.3);
    (g1, Plus32(h.1, g1), Plus32(h.2, g1), Plus32(h.3, g1))
  }

  function Hash128(key: seq<bv8>, seed: bv32): (bv32, bv32, bv32, bv32) {
    var len := Length32(|key|);
    var h := Body128(seed, seed, seed, seed, key);
    var g := Sums((Xor32(h.0, len), Xor32(h.1, len), Xor32(h.2, len), Xor32(h.3, len)));
    Sums((Final32(g.0), Final32(g.1), Final32(g.2), Final32(g.3)))
  }

  // ---------- x64_128 ----------

  function WideKey1(k: bv64): bv64 {
    Times4CF5AD432745937F(Wide31(Times87C37B91114253D5(k)))
  }

  function WideKey2(k: bv64): bv64 {
    Times87C37B91114253D5(Wide33(Times4CF5AD432745937F(k)))
  }

  function WideBody(h1: bv64, h2: bv64, key: seq<bv8>): (bv64, bv64)
    decreases |key|
  {
    if |key| >= 16 then
      var g1 := WideFivePlus(Plus64(Wide27(Xor64(h1, WideKey1(WideAt(key, 0)))), h2), 0x52dce729);
      var g2 := WideFivePlus(Plus64(Wide31(Xor64(h2, WideKey2(WideAt(key, 8)))), g1), 0x38495ab5);
      WideBody(g1, g2, key[16..])
    else
      (if |key| >= 1 then Xor64(h1, WideKey1(WideAt(key, 0))) else h1,
       if |key| >= 9 then Xor64(h2, WideKey2(WideAt(key, 8))) else h2)
  }

  function WideHash(key: seq<bv8>, seed: bv32): (bv64, bv64) {
    WideFinish(WideBody(seed as bv64, seed as bv64, key), Length64(|key|))
  }

  function WideFinish(h: (bv64, bv64), len: bv64): (bv64, bv64) {
    var g1 := Plus64(Xor64(h.0, len), Xor64(h.1, len));
    var g2 := Plus64(Xor64(h.1, len), g1);
    var f1 := Plus64(Final64(g1), Final64(g2));
    (f1, Plus64(Final64(g2), f1))
  }
}

/** The hashes are the reference ones, for every key and every seed, and have known values. */
module MurmurAnswers {
  import opened HashFold
  import opened MurmurWords
  import opened MurmurReference
  import X32 = MurmurX86_32
  import X128 = MurmurX86_128
  import X64 = MurmurX64_128

  // ---------- operation by operation ----------

  lemma SameTimesCC9E2D51(x: bv32)
    ensures MulA1(x) == TimesCC9E2D51(x)
  {
  }

  lemma SameTimes1B873593(x: bv32)
    ensures MulA2(x) == Times1B873593(x)
  {
  }

  lemma SameTimes239B961B(x: bv32)
    ensures MulB1(x) == Times239B961B(x)
  {
  }

  lemma SameTimesAB0E9789(x: bv32)
    ensures MulB2(x) == TimesAB0E9789(x)
  {
  }

  lemma SameTimes38B34AE5(x: bv32)
    ensures MulB3(x) == Times38B34AE5(x)
  {
  }

  lemma SameTimesA1E38B93(x: bv32)
    ensures MulB4(x) == TimesA1E38B93(x)
  {
  }

  lemma SameTimes85EBCA6B(x: bv32)
    ensures MulF1(x) == Times85EBCA6B(x)
  {
  }

  lemma SameTimesC2B2AE35(x: bv32)
    ensures MulF2(x) == TimesC2B2AE35(x)
  {
  }

  lemma SameLeft13(x: bv32)
    ensures Rotl32(x, 13) == Left13(x)
  {
  }

  lemma SameLeft15(x: bv32)
    ensures Rotl32(x, 15) == Left15(x)
  {
  }

  lemma SameLeft16(x: bv32)
    ensures Rotl32(x, 16) == Left16(x)
  {
  }

  lemma SameLeft17(x: bv32)
    ensures Rotl32(x, 17) == Left17(x)
  {
  }

  lemma SameLeft18(x: bv32)
    ensures Rotl32(x, 18) == Left18(x)
  {
  }

  lemma SameLeft19(x: bv32)
    ensures Rotl32(x, 19) == Left19(x)
  {
  }

  lemma SameFold16(x: bv32)
    ensures Shift16(x) == Fold16(x)
  {
  }

  lemma SameFold13(x: bv32)
    ensures Shift13(x) == Fold13(x)
  {
  }

  lemma SameTimes87C37B91114253D5(x: bv64)
    ensures MulD1(x) == Times87C37B91114253D5(x)
  {
  }

  lemma SameTimes4CF5AD432745937F(x: bv64)
    ensures MulD2(x) == Times4CF5AD432745937F(x)
  {
  }

  lemma SameTimesFF51AFD7ED558CCD(x: bv64)
    ensures MulG1(x) == TimesFF51AFD7ED558CCD(x)
  {
  }

  lemma SameTimesC4CEB9FE1A85EC53(x: bv64)
    ensures MulG2(x) == TimesC4CEB9FE1A85EC53(x)
  {
  }

  lemma SameWide27(x: bv64)
    ensures Rotl64(x, 27) == Wide27(x)
  {
  }

  lemma SameWide31(x: bv64)
    ensures Rotl64(x, 31) == Wide31(x)
  {
  }

  lemma SameWide33(x: bv64)
    ensures Rotl64(x, 33) == Wide33(x)
  {
  }

  lemma SameFold33(x: bv64)
    ensures Shift33(x) == Fold33(x)
  {
  }

  lemma SameTimes5(x: bv32)
    ensures MulFive(x) == Times5(x)
  {
  }

  lemma SameWideTimes5(x: bv64)
    ensures MulFive64(x) == WideTimes5(x)
  {
  }

  lemma SameFivePlus(x: bv32, c: bv32)
    ensures Plus32(MulFive(x), c) == FivePlus(x, c)
  {
    hide Plus32, MulFive, Times5;
    SameTimes5(x);
  }

  lemma SameWideFivePlus(x: bv64, c: bv64)
    ensures Plus64(MulFive64(x), c) == WideFivePlus(x, c)
  {
    hide Plus64, MulFive64, WideTimes5;
    SameWideTimes5(x);
  }

  lemma SameFinal32(h: bv32)
    ensures Fmix32(h) == Final32(h)
  {
    hide Xor32, Plus32, MulA1, MulA2, MulB1, MulB2, MulB3, MulB4, MulF1, MulF2, MulFive, Rotl32, Shift16, Shift13;
    hide TimesCC9E2D51, Times1B873593, Times239B961B, TimesAB0E9789, Times38B34AE5, TimesA1E38B93, Times85EBCA6B;
    hide TimesC2B2AE35, Left13, Left15, Left16, Left17, Left18, Left19, Fold16, Fold13, FivePlus;
    var a := Shift16(h);
    var b := MulF1(a);
    var c := Shift13(b);
    var d := MulF2(c);
    SameFold16(h);
    SameTimes85EBCA6B(a);
    SameFold13(b);
    SameTimesC2B2AE35(c);
    SameFold16(d);
  }

  lemma SameFinal64(k: bv64)
    ensures Fmix64(k) == Final64(k)
  {
    hide Xor64, Plus64, MulD1, MulD2, MulG1, MulG2, MulFive64, Rotl64, Shift33;
    hide Times87C37B91114253D5, Times4CF5AD432745937F, TimesFF51AFD7ED558CCD, TimesC4CEB9FE1A85EC53, Wide27, Wide31;
    hide Wide33, Fold33, WideFivePlus;
    var a := Shift33(k);
    var b := MulG1(a);
    var c := Shift33(b);
    var d := MulG2(c);
    SameFold33(k);
    SameTimesFF51AFD7ED558CCD(a);
    SameFold33(b);
    SameTimesC4CEB9FE1A85EC53(c);
    SameFold33(d);
  }

  lemma SameKey(k: bv32)
    ensures Scramble32(k, A1, 15, A2) == Key(k)
  {
    hide Xor32, Plus32, MulA1, MulA2, MulB1, MulB2, MulB3, MulB4, MulF1, MulF2, MulFive, Rotl32, Shift16, Shift13;
    hide TimesCC9E2D51, Times1B873593, Times239B961B, TimesAB0E9789, Times38B34AE5, TimesA1E38B93, Times85EBCA6B;
    hide TimesC2B2AE35, Left13, Left15, Left16, Left17, Left18, Left19, Fold16, Fold13, FivePlus;
    var a := Times32(k, A1);
    var b := Rotl32(a, 15);
    SameTimesCC9E2D51(k);
    SameLeft15(a);
    SameTimes1B873593(b);
  }

  lemma SameKey1(k: bv32)
    ensures Scramble32(k, B1, 15, B2) == Key1(k)
  {
    hide Xor32, Plus32, MulA1, MulA2, MulB1, MulB2, MulB3, MulB4, MulF1, MulF2, MulFive, Rotl32, Shift16, Shift13;
    hide TimesCC9E2D51, Times1B873593, Times239B961B, TimesAB0E9789, Times38B34AE5, TimesA1E38B93, Times85EBCA6B;
    hide TimesC2B2AE35, Left13, Left15, Left16, Left17, Left18, Left19, Fold16, Fold13, FivePlus;
    var a := Times32(k, B1);
    var b := Rotl32(a, 15);
    SameTimes239B961B(k);
    SameLeft15(a);
    SameTimesAB0E9789(b);
  }

  lemma SameKey2(k: bv32)
    ensures Scramble32(k, B2, 16, B3) == Key2(k)
  {
    hide Xor32, Plus32, MulA1, MulA2, MulB1, MulB2, MulB3, MulB4, MulF1, MulF2, MulFive, Rotl32, Shift16, Shift13;
    hide TimesCC9E2D51, Times1B873593, Times239B961B, TimesAB0E9789, Times38B34AE5, TimesA1E38B93, Times85EBCA6B;
    hide TimesC2B2AE35, Left13, Left15, Left16, Left17, Left18, Left19, Fold16, Fold13, FivePlus;
    var a := Times32(k, B2);
    var b := Rotl32(a, 16);
    SameTimesAB0E9789(k);
    SameLeft16(a);
    SameTimes38B34AE5(b);
  }

  lemma SameKey3(k: bv32)
    ensures Scramble32(k, B3, 17, B4) == Key3(k)
  {
    hide Xor32, Plus32, MulA1, MulA2, MulB1, MulB2, MulB3, MulB4, MulF1, MulF2, MulFive, Rotl32, Shift16, Shift13;
    hide TimesCC9E2D51, Times1B873593, Times239B961B, TimesAB0E9789, Times38B34AE5, TimesA1E38B93, Times85EBCA6B;
    hide TimesC2B2AE35, Left13, Left15, Left16, Left17, Left18, Left19, Fold16, Fold13, FivePlus;
    var a := Times32(k, B3);
    var b := Rotl32(a, 17);
    SameTimes38B34AE5(k);
    SameLeft17(a);
    SameTimesA1E38B93(b);
  }

  lemma SameKey4(k: bv32)
    ensures Scramble32(k, B4, 18, B1) == Key4(k)
  {
    hide Xor32, Plus32, MulA1, MulA2, MulB1, MulB2, MulB3, MulB4, MulF1, MulF2, MulFive, Rotl32, Shift16, Shift13;
    hide TimesCC9E2D51, Times1B873593, Times239B961B, TimesAB0E9789, Times38B34AE5, TimesA1E38B93, Times85EBCA6B;
    hide TimesC2B2AE35, Left13, Left15, Left16, Left17, Left18, Left19, Fold16, Fold13, FivePlus;
    var a := Times32(k, B4);
    var b := Rotl32(a, 18);
    SameTimesA1E38B93(k);
    SameLeft18(a);
    SameTimes239B961B(b);
  }

  lemma SameWideKey1(k: bv64)
    ensures Scramble64(k, D1, 31, D2) == WideKey1(k)
  {
    hide Xor64, Plus64, MulD1, MulD2, MulG1, MulG2, MulFive64, Rotl64, Shift33;
    hide Times87C37B91114253D5, Times4CF5AD432745937F, TimesFF51AFD7ED558CCD, TimesC4CEB9FE1A85EC53, Wide27, Wide31;
    hide Wide33, Fold33, WideFivePlus;
    var a := Times64(k, D1);
    var b := Rotl64(a, 31);
    SameTimes87C37B91114253D5(k);
    SameWide31(a);
    SameTimes4CF5AD432745937F(b);
  }

  lemma SameWideKey2(k: bv64)
    ensures Scramble64(k, D2, 33, D1) == WideKey2(k)
  {
    hide Xor64, Plus64, MulD1, MulD2, MulG1, MulG2, MulFive64, Rotl64, Shift33;
    hide Times87C37B91114253D5, Times4CF5AD432745937F, TimesFF51AFD7ED558CCD, TimesC4CEB9FE1A85EC53, Wide27, Wide31;
    hide Wide33, Fold33, WideFivePlus;
    var a := Times64(k, D2);
    var b := Rotl64(a, 33);
    SameTimes4CF5AD432745937F(k);
    SameWide33(a);
    SameTimes87C37B91114253D5(b);
  }

  lemma SameRound13(h: bv32, m: bv32, a: bv32, c: bv32)
    ensures Blend32(h, m, 13, a, c) == FivePlus(Plus32(Left13(Xor32(h, m)), a), c)
  {
    hide Xor32, Plus32, MulA1, MulA2, MulB1, MulB2, MulB3, MulB4, MulF1, MulF2, MulFive, Rotl32, Shift16, Shift13;
    hide TimesCC9E2D51, Times1B873593, Times239B961B, TimesAB0E9789, Times38B34AE5, TimesA1E38B93, Times85EBCA6B;
    hide TimesC2B2AE35, Left13, Left15, Left16, Left17, Left18, Left19, Fold16, Fold13, FivePlus;
    SameLeft13(Xor32(h, m));
    SameFivePlus(Plus32(Left13(Xor32(h, m)), a), c);
  }

  lemma SameRound15(h: bv32, m: bv32, a: bv32, c: bv32)
    ensures Blend32(h, m, 15, a, c) == FivePlus(Plus32(Left15(Xor32(h, m)), a), c)
  {
    hide Xor32, Plus32, MulA1, MulA2, MulB1, MulB2, MulB3, MulB4, MulF1, MulF2, MulFive, Rotl32, Shift16, Shift13;
    hide TimesCC9E2D51, Times1B873593, Times239B961B, TimesAB0E9789, Times38B34AE5, TimesA1E38B93, Times85EBCA6B;
    hide TimesC2B2AE35, Left13, Left15, Left16, Left17, Left18, Left19, Fold16, Fold13, FivePlus;
    SameLeft15(Xor32(h, m));
    SameFivePlus(Plus32(Left15(Xor32(h, m)), a), c);
  }

  lemma SameRound17(h: bv32, m: bv32, a: bv32, c: bv32)
    ensures Blend32(h, m, 17, a, c) == FivePlus(Plus32(Left17(Xor32(h, m)), a), c)
  {
    hide Xor32, Plus32, MulA1, MulA2, MulB1, MulB2, MulB3, MulB4, MulF1, MulF2, MulFive, Rotl32, Shift16, Shift13;
    hide TimesCC9E2D51, Times1B873593, Times239B961B, TimesAB0E9789, Times38B34AE5, TimesA1E38B93, Times85EBCA6B;
    hide TimesC2B2AE35, Left13, Left15, Left16, Left17, Left18, Left19, Fold16, Fold13, FivePlus;
    SameLeft17(Xor32(h, m));
    SameFivePlus(Plus32(Left17(Xor32(h, m)), a), c);
  }

  lemma SameRound19(h: bv32, m: bv32, a: bv32, c: bv32)
    ensures Blend32(h, m, 19, a, c) == FivePlus(Plus32(Left19(Xor32(h, m)), a), c)
  {
    hide Xor32, Plus32, MulA1, MulA2, MulB1, MulB2, MulB3, MulB4, MulF1, MulF2, MulFive, Rotl32, Shift16, Shift13;
    hide TimesCC9E2D51, Times1B873593, Times239B961B, TimesAB0E9789, Times38B34AE5, TimesA1E38B93, Times85EBCA6B;
    hide TimesC2B2AE35, Left13, Left15, Left16, Left17, Left18, Left19, Fold16, Fold13, FivePlus;
    SameLeft19(Xor32(h, m));
    SameFivePlus(Plus32(Left19(Xor32(h, m)), a), c);
  }

  lemma SameWideRound27(h: bv64, m: bv64, a: bv64, c: bv64)
    ensures Blend64(h, m, 27, a, c) == WideFivePlus(Plus64(Wide27(Xor64(h, m)), a), c)
  {
    hide Xor64, Plus64, MulD1, MulD2, MulG1, MulG2, MulFive64, Rotl64, Shift33;
    hide Times87C37B91114253D5, Times4CF5AD432745937F, TimesFF51AFD7ED558CCD, TimesC4CEB9FE1A85EC53, Wide27, Wide31;
    hide Wide33, Fold33, WideFivePlus;
    SameWide27(Xor64(h, m));
    SameWideFivePlus(Plus64(Wide27(Xor64(h, m)), a), c);
  }

  lemma SameWideRound31(h: bv64, m: bv64, a: bv64, c: bv64)
    ensures Blend64(h, m, 31, a, c) == WideFivePlus(Plus64(Wide31(Xor64(h, m)), a), c)
  {
    hide Xor64, Plus64, MulD1, MulD2, MulG1, MulG2, MulFive64, Rotl64, Shift33;
    hide Times87C37B91114253D5, Times4CF5AD432745937F, TimesFF51AFD7ED558CCD, TimesC4CEB9FE1A85EC53, Wide27, Wide31;
    hide Wide33, Fold33, WideFivePlus;
    SameWide31(Xor64(h, m));
    SameWideFivePlus(Plus64(Wide31(Xor64(h, m)), a), c);
  }

  lemma SameWord(key: seq<bv8>, o: nat)
    ensures Word32(key, o) == WordAt(key, o)
  {
    SameJoin32(At(key, o), At(key, o + 1), At(key, o + 2), At(key, o + 3));
  }

  lemma SameJoin32(b0: bv8, b1: bv8, b2: bv8, b3: bv8)
    ensures Join32(b0, b1, b2, b3) == Little32(b0, b1, b2, b3)
  {
  }

  lemma SameWide(key: seq<bv8>, o: nat)
    ensures Word64(key, o) == WideAt(key, o)
  {
    hide Join64, Little64, Little32;
    SameJoin64(At(key, o), At(key, o + 1), At(key, o + 2), At(key, o + 3),
               At(key, o + 4), At(key, o + 5), At(key, o + 6), At(key, o + 7));
  }

  lemma SameJoin64(b0: bv8, b1: bv8, b2: bv8, b3: bv8, b4: bv8, b5: bv8, b6: bv8, b7: bv8)
    ensures Join64(b0, b1, b2, b3, b4, b5, b6, b7) == Little64(Little32(b0, b1, b2, b3), Little32(b4, b5, b6, b7))
  {
  }

  // ---------- x86_32 ----------

  lemma RestOfBlocks32(key: seq<bv8>)
    requires |key| >= 4
    ensures X32.Blocks(key) != [] && X32.Blocks(key)[0] == Word32(key, 0)
    ensures X32.Blocks(key)[1..] == X32.Blocks(key[4..]) && X32.Tail(key) == X32.Tail(key[4..])
  {
    hide Join32;
    var rest := key[4..];
    assert forall i: nat :: At(rest, i) == At(key, i + 4);
    assert |rest| / 4 == |key| / 4 - 1;
  }

  lemma StepIsRound(h: bv32, k: bv32)
    ensures X32.Step(h, k) == FivePlus(Left13(Xor32(h, Key(k))), 0xe6546b64)
  {
    hide Blend32, Scramble32, FivePlus, Left13, Key, Xor32, Plus32;
    SameKey(k);
    X32.PlusZero(Left13(Xor32(h, Key(k))));
    SameRound13(h, Key(k), 0, 0xe6546b64);
  }

  lemma {:induction false} FoldIsBody(h: bv32, key: seq<bv8>)
    ensures X32.Absorb(Fold(X32.Step, h, X32.Blocks(key)), X32.Tail(key)) == Body(h, key)
    decreases |key|
  {
    hide Word32, WordAt, X32.Step, Scramble32, Key, FivePlus, Left13, Xor32;
    SameWord(key, 0);
    if |key| >= 4 {
      StepIsRound(h, Word32(key, 0));
      RestOfBlocks32(key);
      FoldIsBody(X32.Step(h, Word32(key, 0)), key[4..]);
    } else {
      assert X32.Blocks(key) == [] && X32.Tail(key) == key;
      SameKey(Word32(key, 0));
    }
  }

  /** MurmurHash3_x86_32 is its reference. */
  lemma HashIsReference32(key: seq<bv8>, seed: bv32)
    ensures X32.Hash(key, seed) == Hash32(key, seed)
  {
    hide Fmix32, Final32, Body, X32.Absorb, Fold, Xor32, Length32;
    FoldIsBody(seed, key);
    SameFinal32(Xor32(Body(seed, key), Length32(|key|)));
  }

  /** Different seeds keep their hashes apart, whatever the key. */
  lemma SeedsKeptApart32(key: seq<bv8>, seed: bv32, seed': bv32)
    ensures X32.Hash(key, seed) == X32.Hash(key, seed') <==> seed == seed'
  {
    hide Fmix32, X32.Absorb, Fold, X32.Blocks, X32.Step, Length32;
    if X32.Hash(key, seed) == X32.Hash(key, seed') {
      var ks := X32.Blocks(key);
      var g, h := Fold(X32.Step, seed, ks), Fold(X32.Step, seed', ks);
      X32.FinishLossless(X32.Absorb(g, X32.Tail(key)), X32.Absorb(h, X32.Tail(key)), |key|);
      X32.AbsorbLossless(g, h, X32.Tail(key), X32.Tail(key));
      X32.StepLossless();
      FoldKeepsApart(X32.Step, seed, seed', ks);
    }
  }

  // ---------- x86_128 ----------

  function Quad(s: X128.State): (bv32, bv32, bv32, bv32) {
    (s.h1, s.h2, s.h3, s.h4)
  }

  lemma RestOfBlocks128(key: seq<bv8>)
    requires |key| >= 16
    ensures X128.Blocks(key) != [] && X128.Blocks(key)[0] == X128.BlockAt(key, 0)
    ensures X128.Blocks(key)[1..] == X128.Blocks(key[16..]) && X128.Tail(key) == X128.Tail(key[16..])
  {
    hide Join32;
    var rest := key[16..];
    assert forall i: nat :: At(rest, i) == At(key, i + 16);
    assert |rest| / 16 == |key| / 16 - 1;
  }

  lemma StepIsRound128(s: X128.State, b: X128.Block)
    ensures var g1 := FivePlus(Plus32(Left19(Xor32(s.h1, Key1(b.k1))), s.h2), 0x561ccd1b);
      X128.Step(s, b) == X128.State(g1,
        FivePlus(Plus32(Left17(Xor32(s.h2, Key2(b.k2))), s.h3), 0x0bcaa747),
        FivePlus(Plus32(Left15(Xor32(s.h3, Key3(b.k3))), s.h4), 0x96cd1c35),
        FivePlus(Plus32(Left13(Xor32(s.h4, Key4(b.k4))), g1), 0x32ac3b17))
  {
    hide Blend32, Scramble32, FivePlus, Left13, Left15, Left17, Left19, Key1, Key2, Key3, Key4, Xor32, Plus32;
    SameKey1(b.k1);
    SameKey2(b.k2);
    SameKey3(b.k3);
    SameKey4(b.k4);
    var g1 := Blend32(s.h1, Key1(b.k1), 19, s.h2, 0x561ccd1b);
    SameRound19(s.h1, Key1(b.k1), s.h2, 0x561ccd1b);
    SameRound17(s.h2, Key2(b.k2), s.h3, 0x0bcaa747);
    SameRound15(s.h3, Key3(b.k3), s.h4, 0x96cd1c35);
    SameRound13(s.h4, Key4(b.k4), g1, 0x32ac3b17);
  }

  lemma AbsorbIsRest128(s: X128.State, key: seq<bv8>)
    requires |key| < 16
    ensures Quad(X128.Absorb(s, key)) == Body128(s.h1, s.h2, s.h3, s.h4, key)
  {
    hide Word32, WordAt, Scramble32, Key1, Key2, Key3, Key4, Xor32;
    SameWord(key, 0);
    SameWord(key, 4);
    SameWord(key, 8);
    SameWord(key, 12);
    SameKey1(Word32(key, 0));
    SameKey2(Word32(key, 4));
    SameKey3(Word32(key, 8));
    SameKey4(Word32(key, 12));
  }

  lemma {:induction false} FoldIsBody128(s: X128.State, key: seq<bv8>)
    ensures Quad(X128.Absorb(Fold(X128.Step, s, X128.Blocks(key)), X128.Tail(key)))
         == Body128(s.h1, s.h2, s.h3, s.h4, key)
    decreases |key|
  {
    hide Word32, WordAt, X128.Step, X128.Absorb, Key1, Key2, Key3, Key4, FivePlus, Left13, Left15, Left17, Left19;
    hide Xor32, Plus32;
    if |key| >= 16 {
      var b := X128.BlockAt(key, 0);
      SameWord(key, 0);
      SameWord(key, 4);
      SameWord(key, 8);
      SameWord(key, 12);
      StepIsRound128(s, b);
      RestOfBlocks128(key);
      FoldIsBody128(X128.Step(s, b), key[16..]);
    } else {
      assert X128.Blocks(key) == [] && X128.Tail(key) == key;
      AbsorbIsRest128(s, key);
    }
  }

  /** MurmurHash3_x86_128 is its reference. */
  lemma HashIsReference128(key: seq<bv8>, seed: bv32)
    ensures Quad(X128.Hash(key, seed)) == Hash128(key, seed)
  {
    hide Fmix32, Final32, Body128, X128.Absorb, Fold, Xor32, Plus32, Length32;
    var s := X128.State(seed, seed, seed, seed);
    FoldIsBody128(s, key);
    var t := X128.Absorb(Fold(X128.Step, s, X128.Blocks(key)), X128.Tail(key));
    var g := X128.Spread(X128.AddLength(t, |key|));
    SameFinal32(g.h1);
    SameFinal32(g.h2);
    SameFinal32(g.h3);
    SameFinal32(g.h4);
  }

  lemma SeedsKeptApart128(key: seq<bv8>, seed: bv32, seed': bv32)
    ensures X128.Hash(key, seed) == X128.Hash(key, seed') <==> seed == seed'
  {
    hide X128.Finish, X128.Absorb, Fold, X128.Blocks, X128.Step;
    if X128.Hash(key, seed) == X128.Hash(key, seed') {
      var ks := X128.Blocks(key);
      var s, s' := X128.State(seed, seed, seed, seed), X128.State(seed', seed', seed', seed');
      var g, h := Fold(X128.Step, s, ks), Fold(X128.Step, s', ks);
      X128.FinishLossless(X128.Absorb(g, X128.Tail(key)), X128.Absorb(h, X128.Tail(key)), |key|);
      X128.AbsorbLosslessInState(g, h, X128.Tail(key));
      X128.StepLossless();
      FoldKeepsApart(X128.Step, s, s', ks);
    }
  }

  // ---------- x64_128 ----------

  function Pair(s: X64.State): (bv64, bv64) {
    (s.h1, s.h2)
  }

  lemma RestOfBlocks64(key: seq<bv8>)
    requires |key| >= 16
    ensures X64.Blocks(key) != [] && X64.Blocks(key)[0] == X64.BlockAt(key, 0)
    ensures X64.Blocks(key)[1..] == X64.Blocks(key[16..]) && X64.Tail(key) == X64.Tail(key[16..])
  {
    hide Join64;
    var rest := key[16..];
    assert forall i: nat :: At(rest, i) == At(key, i + 16);
    assert |rest| / 16 == |key| / 16 - 1;
  }

  lemma StepIsRound64(s: X64.State, b: X64.Block)
    ensures var g1 := WideFivePlus(Plus64(Wide27(Xor64(s.h1, WideKey1(b.k1))), s.h2), 0x52dce729);
      X64.Step(s, b) == X64.State(g1, WideFivePlus(Plus64(Wide31(Xor64(s.h2, WideKey2(b.k2))), g1), 0x38495ab5))
  {
    hide Blend64, Scramble64, WideFivePlus, Wide27, Wide31, WideKey1, WideKey2, Xor64, Plus64;
    SameWideKey1(b.k1);
    SameWideKey2(b.k2);
    var g1 := Blend64(s.h1, WideKey1(b.k1), 27, s.h2, 0x52dce729);
    SameWideRound27(s.h1, WideKey1(b.k1), s.h2, 0x52dce729);
    SameWideRound31(s.h2, WideKey2(b.k2), g1, 0x38495ab5);
  }

  lemma {:induction false} FoldIsBody64(s: X64.State, key: seq<bv8>)
    ensures Pair(X64.Absorb(Fold(X64.Step, s, X64.Blocks(key)), X64.Tail(key))) == WideBody(s.h1, s.h2, key)
    decreases |key|
  {
    hide Word64, WideAt, X64.Step, Scramble64, WideKey1, WideKey2, WideFivePlus, Wide27, Wide31, Xor64, Plus64;
    SameWide(key, 0);
    SameWide(key, 8);
    if |key| >= 16 {
      var b := X64.BlockAt(key, 0);
      StepIsRound64(s, b);
      RestOfBlocks64(key);
      FoldIsBody64(X64.Step(s, b), key[16..]);
    } else {
      assert X64.Blocks(key) == [] && X64.Tail(key) == key;
      SameWideKey1(Word64(key, 0));
      SameWideKey2(Word64(key, 8));
    }
  }

  /** MurmurHash3_x64_128 is its reference. */
  lemma HashIsReference64(key: seq<bv8>, seed: bv32)
    ensures Pair(X64.Hash(key, seed)) == WideHash(key, seed)
  {
    hide Fmix64, Final64, WideBody, X64.Absorb, Fold, Xor64, Plus64, Length64;
    var s := X64.State(seed as bv64, seed as bv64);
    FoldIsBody64(s, key);
    var t := X64.Absorb(Fold(X64.Step, s, X64.Blocks(key)), X64.Tail(key));
    var g := X64.Spread(X64.State(Xor64(t.h1, Length64(|key|)), Xor64(t.h2, Length64(|key|))));
    SameFinal64(g.h1);
    SameFinal64(g.h2);
  }

  lemma SeedsKeptApart64(key: seq<bv8>, seed: bv32, seed': bv32)
    ensures X64.Hash(key, seed) == X64.Hash(key, seed') <==> seed == seed'
  {
    hide X64.Finish, X64.Absorb, Fold, X64.Blocks, X64.Step;
    if X64.Hash(key, seed) == X64.Hash(key, seed') {
      var ks := X64.Blocks(key);
      var s, s' := X64.State(seed as bv64, seed as bv64), X64.State(seed' as bv64, seed' as bv64);
      var g, h := Fold(X64.Step, s, ks), Fold(X64.Step, s', ks);
      X64.FinishLossless(X64.Absorb(g, X64.Tail(key)), X64.Absorb(h, X64.Tail(key)), |key|);
      X64.AbsorbLosslessInState(g, h, X64.Tail(key));
      X64.StepLossless();
      FoldKeepsApart(X64.Step, s, s', ks);
    }
  }

  // ---------- known answers ----------

  lemma ShortLength32(n: nat)
    requires n < 0x1_0000_0000
    ensures Length32(n) == n as bv32
  {
    assert n % 0x1_0000_0000 == n;
  }

  lemma ShortLength64(n: nat)
    requires n < 0x1_0000_0000_0000_0000
    ensures Length64(n) == n as bv64
  {
    assert n % 0x1_0000_0000_0000_0000 == n;
  }

  lemma SmallLengths32()
    ensures Length32(0) == 0 && Length32(1) == 1 && Length32(4) == 4 && Length32(16) == 16
  {
    hide Length32;
    ShortLength32(0);
    ShortLength32(1);
    ShortLength32(4);
    ShortLength32(16);
    assert 0 as bv32 == 0 && 1 as bv32 == 1 && 4 as bv32 == 4 && 16 as bv32 == 16;
  }

  lemma SmallLengths64()
    ensures Length64(0) == 0 && Length64(1) == 1 && Length64(16) == 16
  {
    hide Length64;
    ShortLength64(0);
    ShortLength64(1);
    ShortLength64(16);
    assert 0 as bv64 == 0 && 1 as bv64 == 1 && 16 as bv64 == 16;
  }

  lemma EmptyKey32Reference(key: seq<bv8>)
    requires key == []
    ensures Hash32(key, 1) == 0x514e28b7
  {
    hide Length32;
    SmallLengths32();
    assert |key| == 0;
  }

  /** The hash of no byte, with the seed 1. */
  lemma EmptyKey32(key: seq<bv8>)
    requires key == []
    ensures X32.Hash(key, 1) == 0x514e28b7
  {
    hide X32.Hash, Hash32;
    EmptyKey32Reference(key);
    HashIsReference32(key, 1);
  }

  lemma LetterKey32Words(key: seq<bv8>)
    requires key == [0x61]
    ensures WordAt(key, 0) == 0x00000061
  {
  }

  lemma LetterKey32Reference(key: seq<bv8>)
    requires key == [0x61]
    ensures Hash32(key, 0) == 0x3c2569b2
  {
    hide Length32;
    SmallLengths32();
    assert |key| == 1;
    hide WordAt;
    LetterKey32Words(key);
  }

  /** The hash of "a". */
  lemma LetterKey32(key: seq<bv8>)
    requires key == [0x61]
    ensures X32.Hash(key, 0) == 0x3c2569b2
  {
    hide X32.Hash, Hash32;
    LetterKey32Reference(key);
    HashIsReference32(key, 0);
  }

  lemma WordKey32Words(key: seq<bv8>)
    requires key == [0x74, 0x65, 0x73, 0x74]
    ensures WordAt(key, 0) == 0x74736574
  {
  }

  lemma WordKey32Body(key: seq<bv8>)
    requires key == [0x74, 0x65, 0x73, 0x74]
    ensures Body(0, key) == 0x7985975b
  {
    hide WordAt;
    WordKey32Words(key);
    assert key[4..] == [];
    assert Body(0x7985975b, []) == 0x7985975b;
  }

  lemma WordKey32Reference(key: seq<bv8>)
    requires key == [0x74, 0x65, 0x73, 0x74]
    ensures Hash32(key, 0) == 0xba6bd213
  {
    hide Length32;
    SmallLengths32();
    assert |key| == 4;
    hide Body;
    WordKey32Body(key);
  }

  /** The hash of "test". */
  lemma WordKey32(key: seq<bv8>)
    requires key == [0x74, 0x65, 0x73, 0x74]
    ensures X32.Hash(key, 0) == 0xba6bd213
  {
    hide X32.Hash, Hash32;
    WordKey32Reference(key);
    HashIsReference32(key, 0);
  }

  lemma EmptyKey128Reference(key: seq<bv8>)
    requires key == []
    ensures Hash128(key, 1) == (0x88c4adec, 0x54d201b9, 0x54d201b9, 0x54d201b9)
  {
    hide Length32;
    SmallLengths32();
    assert |key| == 0;
  }

  /** The hash of no byte, with the seed 1. */
  lemma EmptyKey128(key: seq<bv8>)
    requires key == []
    ensures X128.Hash(key, 1) == X128.State(0x88c4adec, 0x54d201b9, 0x54d201b9, 0x54d201b9)
  {
    hide X128.Hash, Hash128;
    EmptyKey128Reference(key);
    HashIsReference128(key, 1);
  }

  lemma LetterKey128Words(key: seq<bv8>)
    requires key == [0x61]
    ensures WordAt(key, 0) == 0x00000061
  {
  }

  lemma LetterKey128Reference(key: seq<bv8>)
    requires key == [0x61]
    ensures Hash128(key, 0) == (0xa794933c, 0x5556b01b, 0x5556b01b, 0x5556b01b)
  {
    hide Length32;
    SmallLengths32();
    assert |key| == 1;
    hide WordAt;
    LetterKey128Words(key);
  }

  /** The hash of "a". */
  lemma LetterKey128(key: seq<bv8>)
    requires key == [0x61]
    ensures X128.Hash(key, 0) == X128.State(0xa794933c, 0x5556b01b, 0x5556b01b, 0x5556b01b)
  {
    hide X128.Hash, Hash128;
    LetterKey128Reference(key);
    HashIsReference128(key, 0);
  }

  lemma BlockKey128Words(key: seq<bv8>)
    requires key == [0x30, 0x31, 0x32, 0x33, 0x34, 0x35, 0x36, 0x37, 0x38, 0x39, 0x61, 0x62, 0x63, 0x64, 0x65, 0x66]
    ensures WordAt(key, 0) == 0x33323130
    ensures WordAt(key, 4) == 0x37363534
    ensures WordAt(key, 8) == 0x62613938
    ensures WordAt(key, 12) == 0x66656463
  {
  }

  lemma BlockKey128Body(key: seq<bv8>)
    requires key == [0x30, 0x31, 0x32, 0x33, 0x34, 0x35, 0x36, 0x37, 0x38, 0x39, 0x61, 0x62, 0x63, 0x64, 0x65, 0x66]
    ensures Body128(0, 0, 0, 0, key) == (0xa932f036, 0x488bf2c5, 0x07e4a028, 0x3606888e)
  {
    hide WordAt;
    BlockKey128Words(key);
    assert key[16..] == [];
    assert Body128(0xa932f036, 0x488bf2c5, 0x07e4a028, 0x3606888e, []) == (0xa932f036, 0x488bf2c5, 0x07e4a028, 0x3606888e);
  }

  lemma BlockKey128Reference(key: seq<bv8>)
    requires key == [0x30, 0x31, 0x32, 0x33, 0x34, 0x35, 0x36, 0x37, 0x38, 0x39, 0x61, 0x62, 0x63, 0x64, 0x65, 0x66]
    ensures Hash128(key, 0) == (0xfb7d4409, 0x36aed30a, 0x48ad1d9b, 0x572b3bfd)
  {
    hide Length32;
    SmallLengths32();
    assert |key| == 16;
    hide Body128;
    BlockKey128Body(key);
  }

  /** The hash of "0123456789abcdef". */
  lemma BlockKey128(key: seq<bv8>)
    requires key == [0x30, 0x31, 0x32, 0x33, 0x34, 0x35, 0x36, 0x37, 0x38, 0x39, 0x61, 0x62, 0x63, 0x64, 0x65, 0x66]
    ensures X128.Hash(key, 0) == X128.State(0xfb7d4409, 0x36aed30a, 0x48ad1d9b, 0x572b3bfd)
  {
    hide X128.Hash, Hash128;
    BlockKey128Reference(key);
    HashIsReference128(key, 0);
  }

  lemma EmptyKey64Finish()
    ensures WideFinish((0x0000000000000001, 0x0000000000000001), 0) == (0x4610abe56eff5cb5, 0x51622daa78f83583)
  {
  }

  lemma EmptyKey64Reference(key: seq<bv8>)
    requires key == []
    ensures WideHash(key, 1) == (0x4610abe56eff5cb5, 0x51622daa78f83583)
  {
    hide Length64;
    SmallLengths64();
    assert |key| == 0;
    assert (1 as bv32) as bv64 == 1;
    hide WideFinish;
    EmptyKey64Finish();
  }

  /** The hash of no byte, with the seed 1. */
  lemma EmptyKey64(key: seq<bv8>)
    requires key == []
    ensures X64.Hash(key, 1) == X64.State(0x4610abe56eff5cb5, 0x51622daa78f83583)
  {
    hide X64.Hash, WideHash;
    EmptyKey64Reference(key);
    HashIsReference64(key, 1);
  }

  lemma LetterKey64Words(key: seq<bv8>)
    requires key == [0x61]
    ensures WideAt(key, 0) == 0x0000000000000061
  {
  }

  lemma LetterKey64Finish()
    ensures WideFinish((0xf49ed48e325ab585, 0x0000000000000000), 1) == (0x85555565f6597889, 0xe6b53a48510e895a)
  {
  }

  lemma LetterKey64Reference(key: seq<bv8>)
    requires key == [0x61]
    ensures WideHash(key, 0) == (0x85555565f6597889, 0xe6b53a48510e895a)
  {
    hide Length64;
    SmallLengths64();
    assert |key| == 1;
    assert (0 as bv32) as bv64 == 0;
    hide WideAt;
    LetterKey64Words(key);
    hide WideFinish;
    LetterKey64Finish();
  }

  /** The hash of "a". */
  lemma LetterKey64(key: seq<bv8>)
    requires key == [0x61]
    ensures X64.Hash(key, 0) == X64.State(0x85555565f6597889, 0xe6b53a48510e895a)
  {
    hide X64.Hash, WideHash;
    LetterKey64Reference(key);
    HashIsReference64(key, 0);
  }

  lemma BlockKey64Words(key: seq<bv8>)
    requires key == [0x30, 0x31, 0x32, 0x33, 0x34, 0x35, 0x36, 0x37, 0x38, 0x39, 0x61, 0x62, 0x63, 0x64, 0x65, 0x66]
    ensures WideAt(key, 0) == 0x3736353433323130
    ensures WideAt(key, 8) == 0x6665646362613938
  {
  }

  lemma BlockKey64Body(key: seq<bv8>)
    requires key == [0x30, 0x31, 0x32, 0x33, 0x34, 0x35, 0x36, 0x37, 0x38, 0x39, 0x61, 0x62, 0x63, 0x64, 0x65, 0x66]
    ensures WideBody(0, 0, key) == (0x5af1b99c04debb6d, 0x33f1a1d93f0a7bc8)
  {
    hide WideAt;
    BlockKey64Words(key);
    assert key[16..] == [];
    assert WideBody(0x5af1b99c04debb6d, 0x33f1a1d93f0a7bc8, []) == (0x5af1b99c04debb6d, 0x33f1a1d93f0a7bc8);
  }

  lemma BlockKey64Finish()
    ensures WideFinish((0x5af1b99c04debb6d, 0x33f1a1d93f0a7bc8), 16) == (0x4be06d94cf4ad1a7, 0x87c35b5c63a708da)
  {
  }

  lemma BlockKey64Reference(key: seq<bv8>)
    requires key == [0x30, 0x31, 0x32, 0x33, 0x34, 0x35, 0x36, 0x37, 0x38, 0x39, 0x61, 0x62, 0x63, 0x64, 0x65, 0x66]
    ensures WideHash(key, 0) == (0x4be06d94cf4ad1a7, 0x87c35b5c63a708da)
  {
    hide Length64;
    SmallLengths64();
    assert |key| == 16;
    assert (0 as bv32) as bv64 == 0;
    hide WideBody;
    BlockKey64Body(key);
    hide WideFinish;
    BlockKey64Finish();
  }

  /** The hash of "0123456789abcdef". */
  lemma BlockKey64(key: seq<bv8>)
    requires key == [0x30, 0x31, 0x32, 0x33, 0x34, 0x35, 0x36, 0x37, 0x38, 0x39, 0x61, 0x62, 0x63, 0x64, 0x65, 0x66]
    ensures X64.Hash(key, 0) == X64.State(0x4be06d94cf4ad1a7, 0x87c35b5c63a708da)
  {
    hide X64.Hash, WideHash;
    BlockKey64Reference(key);
    HashIsReference64(key, 0);
  }
}
