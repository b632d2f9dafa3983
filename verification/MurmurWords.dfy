/**
 The arithmetic of MurmurHash3: reading little-endian words, and the mixing steps on words, each with
 its inverse.
 */
module MurmurWords {

  // ---------- bytes and words ----------

  function At(s: seq<bv8>, i: nat): bv8 {
    if i < |s| then s[i] else 0
  }

  /** k ^= b << shift */
  function Put32(k: bv32, b: bv8, shift: bv32): bv32
    requires shift < 32
  {
    k ^ ((b as bv32) << shift)
  }

  function Put64(k: bv64, b: bv8, shift: bv64): bv64
    requires shift < 64
  {
    k ^ ((b as bv64) << shift)
  }

  lemma PutNothing(k: bv32, k': bv64, shift: bv32, shift': bv64)
    requires shift < 32 && shift' < 64
    ensures Put32(k, 0, shift) == k && Put64(k', 0, shift') == k'
  {
  }

  function Join32(b0: bv8, b1: bv8, b2: bv8, b3: bv8): bv32 {
    Put32(Put32(Put32(Put32(0, b3, 24), b2, 16), b1, 8), b0, 0)
  }

  function Join64(b0: bv8, b1: bv8, b2: bv8, b3: bv8, b4: bv8, b5: bv8, b6: bv8, b7: bv8): bv64 {
    var high := Put64(Put64(Put64(Put64(0, b7, 56), b6, 48), b5, 40), b4, 32);
    Put64(Put64(Put64(Put64(high, b3, 24), b2, 16), b1, 8), b0, 0)
  }

  lemma Join32Lossless(a0: bv8, a1: bv8, a2: bv8, a3: bv8, b0: bv8, b1: bv8, b2: bv8, b3: bv8)
    requires Join32(a0, a1, a2, a3) == Join32(b0, b1, b2, b3)
    ensures a0 == b0 && a1 == b1 && a2 == b2 && a3 == b3
  {
  }

  lemma Join64Lossless(a0: bv8, a1: bv8, a2: bv8, a3: bv8, a4: bv8, a5: bv8, a6: bv8, a7: bv8,
                       b0: bv8, b1: bv8, b2: bv8, b3: bv8, b4: bv8, b5: bv8, b6: bv8, b7: bv8)
    requires Join64(a0, a1, a2, a3, a4, a5, a6, a7) == Join64(b0, b1, b2, b3, b4, b5, b6, b7)
    ensures a0 == b0 && a1 == b1 && a2 == b2 && a3 == b3 && a4 == b4 && a5 == b5 && a6 == b6 && a7 == b7
  {
  }

  /** The little-endian word at offset o; bytes past the end count as zero. */
  function Word32(s: seq<bv8>, o: nat): bv32 {
    Join32(At(s, o), At(s, o + 1), At(s, o + 2), At(s, o + 3))
  }

  function Word64(s: seq<bv8>, o: nat): bv64 {
    Join64(At(s, o), At(s, o + 1), At(s, o + 2), At(s, o + 3), At(s, o + 4), At(s, o + 5), At(s, o + 6), At(s, o + 7))
  }

  lemma Word32Bytes(s: seq<bv8>, t: seq<bv8>, o: nat, i: nat)
    requires Word32(s, o) == Word32(t, o) && o <= i < o + 4
    ensures At(s, i) == At(t, i)
  {
    hide Join32, At;
    Join32Lossless(At(s, o), At(s, o + 1), At(s, o + 2), At(s, o + 3), At(t, o), At(t, o + 1), At(t, o + 2), At(t, o + 3));
  }

  lemma Word64Bytes(s: seq<bv8>, t: seq<bv8>, o: nat, i: nat)
    requires Word64(s, o) == Word64(t, o) && o <= i < o + 8
    ensures At(s, i) == At(t, i)
  {
    hide Join64, At;
    Join64Lossless(
      At(s, o), At(s, o + 1), At(s, o + 2), At(s, o + 3), At(s, o + 4), At(s, o + 5), At(s, o + 6), At(s, o + 7),
      At(t, o), At(t, o + 1), At(t, o + 2), At(t, o + 3), At(t, o + 4), At(t, o + 5), At(t, o + 6), At(t, o + 7));
  }

  /** Joins the bytes of the tail from offset o on, as the switch does by falling through its cases. */
  method TailWord32(tail: seq<bv8>, o: nat) returns (k: bv32)
    requires o < |tail|
    ensures k == Word32(tail, o)
  {
    hide Put32;
    PutNothing(0, 0, 24, 0);
    PutNothing(0, 0, 16, 0);
    PutNothing(0, 0, 8, 0);
    k := 0;
    if |tail| > o + 3 {
      k := Put32(k, tail[o + 3], 24);
    }
    if |tail| > o + 2 {
      k := Put32(k, tail[o + 2], 16);
    }
    if |tail| > o + 1 {
      k := Put32(k, tail[o + 1], 8);
    }
    k := Put32(k, tail[o], 0);
  }

  method TailWord64(tail: seq<bv8>, o: nat) returns (k: bv64)
    requires o < |tail|
    ensures k == Word64(tail, o)
  {
    hide Put64;
    PutNothing(0, 0, 0, 56);
    PutNothing(0, 0, 0, 48);
    PutNothing(0, 0, 0, 40);
    PutNothing(0, 0, 0, 32);
    PutNothing(0, 0, 0, 24);
    PutNothing(0, 0, 0, 16);
    PutNothing(0, 0, 0, 8);
    k := 0;
    if |tail| > o + 7 {
      k := Put64(k, tail[o + 7], 56);
    }
    if |tail| > o + 6 {
      k := Put64(k, tail[o + 6], 48);
    }
    if |tail| > o + 5 {
      k := Put64(k, tail[o + 5], 40);
    }
    if |tail| > o + 4 {
      k := Put64(k, tail[o + 4], 32);
    }
    if |tail| > o + 3 {
      k := Put64(k, tail[o + 3], 24);
    }
    if |tail| > o + 2 {
      k := Put64(k, tail[o + 2], 16);
    }
    if |tail| > o + 1 {
      k := Put64(k, tail[o + 1], 8);
    }
    k := Put64(k, tail[o], 0);
  }

  // ---------- keys that agree outside a region ----------

  ghost predicate AgreeOutside(a: seq<bv8>, b: seq<bv8>, lo: nat, hi: nat) {
    |a| == |b| && forall i :: 0 <= i < |a| && !(lo <= i < hi) ==> a[i] == b[i]
  }

  lemma WordsAgree(a: seq<bv8>, b: seq<bv8>, lo: nat, hi: nat, o: nat)
    requires AgreeOutside(a, b, lo, hi)
    ensures o + 4 <= lo || hi <= o ==> Word32(a, o) == Word32(b, o)
    ensures o + 8 <= lo || hi <= o ==> Word64(a, o) == Word64(b, o)
  {
    hide Join32, Join64;
  }

  /** Equal bytes inside the region too make the keys equal. */
  lemma AgreeEverywhere(a: seq<bv8>, b: seq<bv8>, lo: nat, hi: nat)
    requires AgreeOutside(a, b, lo, hi)
    requires forall i: nat :: lo <= i < hi ==> At(a, i) == At(b, i)
    ensures a == b
  {
    forall i: nat | i < |a| ensures a[i] == b[i] {
      if lo <= i < hi {
        assert At(a, i) == At(b, i);
      }
    }
  }

  // ---------- 32-bit steps ----------

  function MulA1(x: bv32): bv32 {
    x * 0xcc9e2d51
  }

  function DivA1(x: bv32): bv32 {
    x * 0xdee13bb1
  }

  lemma A1Inverse(x: bv32)
    ensures DivA1(MulA1(x)) == x
  {
    calc {
      DivA1(MulA1(x));
      DivA1(x * 0xcc9e2d51);
      x * 0xcc9e2d51 * 0xdee13bb1;
    }
  }

  function MulA2(x: bv32): bv32 {
    x * 0x1b873593
  }

  function DivA2(x: bv32): bv32 {
    x * 0x56ed309b
  }

  lemma A2Inverse(x: bv32)
    ensures DivA2(MulA2(x)) == x
  {
    calc {
      DivA2(MulA2(x));
      DivA2(x * 0x1b873593);
      x * 0x1b873593 * 0x56ed309b;
    }
  }

  function MulB1(x: bv32): bv32 {
    x * 0x239b961b
  }

  function DivB1(x: bv32): bv32 {
    x * 0x89c95413
  }

  lemma B1Inverse(x: bv32)
    ensures DivB1(MulB1(x)) == x
  {
    calc {
      DivB1(MulB1(x));
      DivB1(x * 0x239b961b);
      x * 0x239b961b * 0x89c95413;
    }
  }

  function MulB2(x: bv32): bv32 {
    x * 0xab0e9789
  }

  function DivB2(x: bv32): bv32 {
    x * 0xdf130eb9
  }

  lemma B2Inverse(x: bv32)
    ensures DivB2(MulB2(x)) == x
  {
    calc {
      DivB2(MulB2(x));
      DivB2(x * 0xab0e9789);
      x * 0xab0e9789 * 0xdf130eb9;
    }
  }

  function MulB3(x: bv32): bv32 {
    x * 0x38b34ae5
  }

  function DivB3(x: bv32): bv32 {
    x * 0x747862ed
  }

  lemma B3Inverse(x: bv32)
    ensures DivB3(MulB3(x)) == x
  {
    calc {
      DivB3(MulB3(x));
      DivB3(x * 0x38b34ae5);
      x * 0x38b34ae5 * 0x747862ed;
    }
  }

  function MulB4(x: bv32): bv32 {
    x * 0xa1e38b93
  }

  function DivB4(x: bv32): bv32 {
    x * 0x58d64a9b
  }

  lemma B4Inverse(x: bv32)
    ensures DivB4(MulB4(x)) == x
  {
    calc {
      DivB4(MulB4(x));
      DivB4(x * 0xa1e38b93);
      x * 0xa1e38b93 * 0x58d64a9b;
    }
  }

  function MulF1(x: bv32): bv32 {
    x * 0x85ebca6b
  }

  function DivF1(x: bv32): bv32 {
    x * 0xa5cb9243
  }

  lemma F1Inverse(x: bv32)
    ensures DivF1(MulF1(x)) == x && MulF1(DivF1(x)) == x
  {
    calc {
      DivF1(MulF1(x));
      DivF1(x * 0x85ebca6b);
      x * 0x85ebca6b * 0xa5cb9243;
    }
    calc {
      MulF1(DivF1(x));
      MulF1(x * 0xa5cb9243);
      x * 0xa5cb9243 * 0x85ebca6b;
    }
  }

  function MulF2(x: bv32): bv32 {
    x * 0xc2b2ae35
  }

  function DivF2(x: bv32): bv32 {
    x * 0x7ed1b41d
  }

  lemma F2Inverse(x: bv32)
    ensures DivF2(MulF2(x)) == x && MulF2(DivF2(x)) == x
  {
    calc {
      DivF2(MulF2(x));
      DivF2(x * 0xc2b2ae35);
      x * 0xc2b2ae35 * 0x7ed1b41d;
    }
    calc {
      MulF2(DivF2(x));
      MulF2(x * 0x7ed1b41d);
      x * 0x7ed1b41d * 0xc2b2ae35;
    }
  }

  function MulFive(x: bv32): bv32 {
    x * 5
  }

  function DivFive(x: bv32): bv32 {
    x * 0xcccccccd
  }

  lemma FiveInverse(x: bv32)
    ensures DivFive(MulFive(x)) == x
  {
    calc {
      DivFive(MulFive(x));
      DivFive(x * 5);
      x * 5 * 0xcccccccd;
    }
  }

  /** The constants that key words are multiplied by. */
  datatype Factor32 = A1 | A2 | B1 | B2 | B3 | B4

  function Times32(x: bv32, f: Factor32): bv32 {
    match f
    case A1 => MulA1(x)
    case A2 => MulA2(x)
    case B1 => MulB1(x)
    case B2 => MulB2(x)
    case B3 => MulB3(x)
    case B4 => MulB4(x)
  }

  lemma Times32Lossless(x: bv32, y: bv32, f: Factor32)
    requires Times32(x, f) == Times32(y, f)
    ensures x == y
  {
    hide MulA1, DivA1, MulA2, DivA2, MulB1, DivB1, MulB2, DivB2, MulB3, DivB3, MulB4, DivB4;
    match f
    case A1 => A1Inverse(x); A1Inverse(y);
    case A2 => A2Inverse(x); A2Inverse(y);
    case B1 => B1Inverse(x); B1Inverse(y);
    case B2 => B2Inverse(x); B2Inverse(y);
    case B3 => B3Inverse(x); B3Inverse(y);
    case B4 => B4Inverse(x); B4Inverse(y);
  }

  function Rotl32(x: bv32, r: bv32): bv32
    requires 0 < r < 32
  {
    (x << r) | (x >> (32 - r))
  }

  predicate IsRotation32(r: bv32) {
    r == 13 || r == 15 || r == 16 || r == 17 || r == 18 || r == 19
  }

  lemma Rotl32Inverse(x: bv32, r: bv32)
    requires IsRotation32(r)
    ensures Rotl32(Rotl32(x, r), 32 - r) == x
  {
    if r == 13 {
    } else if r == 15 {
    } else if r == 16 {
    } else if r == 17 {
    } else if r == 18 {
    } else {
    }
  }

  /** k *= f; k = rotl(k, r); k *= g */
  function Scramble32(k: bv32, f: Factor32, r: bv32, g: Factor32): bv32
    requires 0 < r < 32
  {
    Times32(Rotl32(Times32(k, f), r), g)
  }

  lemma Scramble32Lossless(k: bv32, l: bv32, f: Factor32, r: bv32, g: Factor32)
    requires IsRotation32(r) && Scramble32(k, f, r, g) == Scramble32(l, f, r, g)
    ensures k == l
  {
    hide Times32, Rotl32;
    Times32Lossless(Rotl32(Times32(k, f), r), Rotl32(Times32(l, f), r), g);
    Rotl32Inverse(Times32(k, f), r);
    Rotl32Inverse(Times32(l, f), r);
    Times32Lossless(k, l, f);
  }

  function Plus32(x: bv32, a: bv32): bv32 {
    x + a
  }

  function Minus32(x: bv32, a: bv32): bv32 {
    x - a
  }

  lemma Plus32Inverse(x: bv32, a: bv32)
    ensures Minus32(Plus32(x, a), a) == x
  {
    calc {
      Minus32(Plus32(x, a), a);
      Minus32(x + a, a);
      x + a - a;
    }
  }

  function Xor32(x: bv32, y: bv32): bv32 {
    x ^ y
  }

  lemma Xor32Inverse(h: bv32, m: bv32)
    ensures Xor32(Xor32(h, m), m) == h && Xor32(Xor32(h, m), h) == m
  {
    calc {
      Xor32(Xor32(h, m), m);
      Xor32(h ^ m, m);
      h ^ m ^ m;
    }
    calc {
      Xor32(Xor32(h, m), h);
      Xor32(h ^ m, h);
      h ^ m ^ h;
    }
  }

  /** h ^= m; h = rotl(h, r); h += a; h = h*5 + c */
  function Blend32(h: bv32, m: bv32, r: bv32, a: bv32, c: bv32): bv32
    requires 0 < r < 32
  {
    Plus32(MulFive(Plus32(Rotl32(Xor32(h, m), r), a)), c)
  }

  /** What was blended with m to give y. */
  function Unblend32(y: bv32, m: bv32, r: bv32, a: bv32, c: bv32): bv32
    requires 0 < r < 32
  {
    Xor32(Rotl32(Minus32(DivFive(Minus32(y, c)), a), 32 - r), m)
  }

  lemma Blend32Inverse(h: bv32, m: bv32, r: bv32, a: bv32, c: bv32)
    requires IsRotation32(r)
    ensures Unblend32(Blend32(h, m, r, a, c), m, r, a, c) == h
    ensures Unblend32(Blend32(h, m, r, a, c), h, r, a, c) == m
  {
    hide Plus32, Minus32, Xor32, MulFive, DivFive, Rotl32;
    var x := Rotl32(Xor32(h, m), r);
    Plus32Inverse(MulFive(Plus32(x, a)), c);
    FiveInverse(Plus32(x, a));
    Plus32Inverse(x, a);
    Rotl32Inverse(Xor32(h, m), r);
    Xor32Inverse(h, m);
  }

  function Shift16(x: bv32): bv32 {
    x ^ (x >> 16)
  }

  function Shift13(x: bv32): bv32 {
    x ^ (x >> 13)
  }

  function Unshift13(x: bv32): bv32 {
    x ^ (x >> 13) ^ (x >> 26)
  }

  lemma FoldTwice16(x: bv32)
    ensures Shift16(x ^ (x >> 16)) == x
  {
    assert (x ^ (x >> 16)) ^ ((x ^ (x >> 16)) >> 16) == x;
  }

  lemma Shift16Inverse(x: bv32)
    ensures Shift16(Shift16(x)) == x
  {
    FoldTwice16(x);
  }

  lemma FoldBack13(x: bv32)
    ensures Unshift13(x ^ (x >> 13)) == x
  {
    assert (x ^ (x >> 13)) ^ ((x ^ (x >> 13)) >> 13) ^ ((x ^ (x >> 13)) >> 26) == x;
  }

  lemma FoldForth13(x: bv32)
    ensures Shift13(x ^ (x >> 13) ^ (x >> 26)) == x
  {
    assert (x ^ (x >> 13) ^ (x >> 26)) ^ ((x ^ (x >> 13) ^ (x >> 26)) >> 13) == x;
  }

  lemma Shift13Inverse(x: bv32)
    ensures Unshift13(Shift13(x)) == x && Shift13(Unshift13(x)) == x
  {
    FoldBack13(x);
    FoldForth13(x);
  }

  function Fmix32(h: bv32): bv32 {
    Shift16(MulF2(Shift13(MulF1(Shift16(h)))))
  }

  function Unfmix32(h: bv32): bv32 {
    Shift16(DivF1(Unshift13(DivF2(Shift16(h)))))
  }

  /** The 32-bit finaliser is a bijection. */
  lemma Fmix32Bijective(h: bv32)
    ensures Unfmix32(Fmix32(h)) == h && Fmix32(Unfmix32(h)) == h
  {
    hide MulF1, MulF2, DivF1, DivF2, Shift16, Shift13, Unshift13;
    var h1 := Shift16(h);
    var h2 := MulF1(h1);
    var h3 := Shift13(h2);
    var h4 := MulF2(h3);
    Shift16Inverse(h);
    F1Inverse(h1);
    Shift13Inverse(h2);
    F2Inverse(h3);
    Shift16Inverse(h4);
    var g3 := DivF2(h1);
    var g2 := Unshift13(g3);
    var g1 := DivF1(g2);
    F2Inverse(h1);
    Shift13Inverse(g3);
    F1Inverse(g2);
    Shift16Inverse(g1);
  }

  lemma Fmix32Lossless(g: bv32, h: bv32)
    requires Fmix32(g) == Fmix32(h)
    ensures g == h
  {
    hide Fmix32, Unfmix32;
    Fmix32Bijective(g);
    Fmix32Bijective(h);
  }

  // ---------- 64-bit steps ----------

  function MulD1(x: bv64): bv64 {
    x * 0x87c37b91114253d5
  }

  function DivD1(x: bv64): bv64 {
    x * 0xa98409e882ce4d7d
  }

  lemma D1Inverse(x: bv64)
    ensures DivD1(MulD1(x)) == x
  {
    calc {
      DivD1(MulD1(x));
      DivD1(x * 0x87c37b91114253d5);
      x * 0x87c37b91114253d5 * 0xa98409e882ce4d7d;
    }
  }

  function MulD2(x: bv64): bv64 {
    x * 0x4cf5ad432745937f
  }

  function DivD2(x: bv64): bv64 {
    x * 0xa81e14edd9de2c7f
  }

  lemma D2Inverse(x: bv64)
    ensures DivD2(MulD2(x)) == x
  {
    calc {
      DivD2(MulD2(x));
      DivD2(x * 0x4cf5ad432745937f);
      x * 0x4cf5ad432745937f * 0xa81e14edd9de2c7f;
    }
  }

  function MulG1(x: bv64): bv64 {
    x * 0xff51afd7ed558ccd
  }

  function DivG1(x: bv64): bv64 {
    x * 0x4f74430c22a54005
  }

  lemma G1Inverse(x: bv64)
    ensures DivG1(MulG1(x)) == x && MulG1(DivG1(x)) == x
  {
    calc {
      DivG1(MulG1(x));
      DivG1(x * 0xff51afd7ed558ccd);
      x * 0xff51afd7ed558ccd * 0x4f74430c22a54005;
    }
    calc {
      MulG1(DivG1(x));
      MulG1(x * 0x4f74430c22a54005);
      x * 0x4f74430c22a54005 * 0xff51afd7ed558ccd;
    }
  }

  function MulG2(x: bv64): bv64 {
    x * 0xc4ceb9fe1a85ec53
  }

  function DivG2(x: bv64): bv64 {
    x * 0x9cb4b2f8129337db
  }

  lemma G2Inverse(x: bv64)
    ensures DivG2(MulG2(x)) == x && MulG2(DivG2(x)) == x
  {
    calc {
      DivG2(MulG2(x));
      DivG2(x * 0xc4ceb9fe1a85ec53);
      x * 0xc4ceb9fe1a85ec53 * 0x9cb4b2f8129337db;
    }
    calc {
      MulG2(DivG2(x));
      MulG2(x * 0x9cb4b2f8129337db);
      x * 0x9cb4b2f8129337db * 0xc4ceb9fe1a85ec53;
    }
  }

  function MulFive64(x: bv64): bv64 {
    x * 5
  }

  function DivFive64(x: bv64): bv64 {
    x * 0xcccccccccccccccd
  }

  lemma Five64Inverse(x: bv64)
    ensures DivFive64(MulFive64(x)) == x
  {
    calc {
      DivFive64(MulFive64(x));
      DivFive64(x * 5);
      x * 5 * 0xcccccccccccccccd;
    }
  }

  /** The constants that key words are multiplied by. */
  datatype Factor64 = D1 | D2

  function Times64(x: bv64, f: Factor64): bv64 {
    match f
    case D1 => MulD1(x)
    case D2 => MulD2(x)
  }

  lemma Times64Lossless(x: bv64, y: bv64, f: Factor64)
    requires Times64(x, f) == Times64(y, f)
    ensures x == y
  {
    hide MulD1, DivD1, MulD2, DivD2;
    match f
    case D1 => D1Inverse(x); D1Inverse(y);
    case D2 => D2Inverse(x); D2Inverse(y);
  }

  function Rotl64(x: bv64, r: bv64): bv64
    requires 0 < r < 64
  {
    (x << r) | (x >> (64 - r))
  }

  predicate IsRotation64(r: bv64) {
    r == 27 || r == 31 || r == 33
  }

  lemma Rotl64Inverse(x: bv64, r: bv64)
    requires IsRotation64(r)
    ensures Rotl64(Rotl64(x, r), 64 - r) == x
  {
    if r == 27 {
    } else if r == 31 {
    } else {
    }
  }

  /** k *= f; k = rotl(k, r); k *= g */
  function Scramble64(k: bv64, f: Factor64, r: bv64, g: Factor64): bv64
    requires 0 < r < 64
  {
    Times64(Rotl64(Times64(k, f), r), g)
  }

  lemma Scramble64Lossless(k: bv64, l: bv64, f: Factor64, r: bv64, g: Factor64)
    requires IsRotation64(r) && Scramble64(k, f, r, g) == Scramble64(l, f, r, g)
    ensures k == l
  {
    hide Times64, Rotl64;
    Times64Lossless(Rotl64(Times64(k, f), r), Rotl64(Times64(l, f), r), g);
    Rotl64Inverse(Times64(k, f), r);
    Rotl64Inverse(Times64(l, f), r);
    Times64Lossless(k, l, f);
  }

  function Plus64(x: bv64, a: bv64): bv64 {
    x + a
  }

  function Minus64(x: bv64, a: bv64): bv64 {
    x - a
  }

  lemma Plus64Inverse(x: bv64, a: bv64)
    ensures Minus64(Plus64(x, a), a) == x
  {
    calc {
      Minus64(Plus64(x, a), a);
      Minus64(x + a, a);
      x + a - a;
    }
  }

  function Xor64(x: bv64, y: bv64): bv64 {
    x ^ y
  }

  lemma Xor64Inverse(h: bv64, m: bv64)
    ensures Xor64(Xor64(h, m), m) == h && Xor64(Xor64(h, m), h) == m
  {
    calc {
      Xor64(Xor64(h, m), m);
      Xor64(h ^ m, m);
      h ^ m ^ m;
    }
    calc {
      Xor64(Xor64(h, m), h);
      Xor64(h ^ m, h);
      h ^ m ^ h;
    }
  }

  /** h ^= m; h = rotl(h, r); h += a; h = h*5 + c */
  function Blend64(h: bv64, m: bv64, r: bv64, a: bv64, c: bv64): bv64
    requires 0 < r < 64
  {
    Plus64(MulFive64(Plus64(Rotl64(Xor64(h, m), r), a)), c)
  }

  /** What was blended with m to give y. */
  function Unblend64(y: bv64, m: bv64, r: bv64, a: bv64, c: bv64): bv64
    requires 0 < r < 64
  {
    Xor64(Rotl64(Minus64(DivFive64(Minus64(y, c)), a), 64 - r), m)
  }

  lemma Blend64Inverse(h: bv64, m: bv64, r: bv64, a: bv64, c: bv64)
    requires IsRotation64(r)
    ensures Unblend64(Blend64(h, m, r, a, c), m, r, a, c) == h
    ensures Unblend64(Blend64(h, m, r, a, c), h, r, a, c) == m
  {
    hide Plus64, Minus64, Xor64, MulFive64, DivFive64, Rotl64;
    var x := Rotl64(Xor64(h, m), r);
    Plus64Inverse(MulFive64(Plus64(x, a)), c);
    Five64Inverse(Plus64(x, a));
    Plus64Inverse(x, a);
    Rotl64Inverse(Xor64(h, m), r);
    Xor64Inverse(h, m);
  }

  function Shift33(x: bv64): bv64 {
    x ^ (x >> 33)
  }

  lemma FoldTwice33(x: bv64)
    ensures Shift33(x ^ (x >> 33)) == x
  {
    assert (x ^ (x >> 33)) ^ ((x ^ (x >> 33)) >> 33) == x;
  }

  lemma Shift33Inverse(x: bv64)
    ensures Shift33(Shift33(x)) == x
  {
    FoldTwice33(x);
  }

  function Fmix64(k: bv64): bv64 {
    Shift33(MulG2(Shift33(MulG1(Shift33(k)))))
  }

  function Unfmix64(k: bv64): bv64 {
    Shift33(DivG1(Shift33(DivG2(Shift33(k)))))
  }

  /** The 64-bit finaliser is a bijection. */
  lemma Fmix64Bijective(k: bv64)
    ensures Unfmix64(Fmix64(k)) == k && Fmix64(Unfmix64(k)) == k
  {
    hide MulG1, MulG2, DivG1, DivG2, Shift33;
    var k1 := Shift33(k);
    var k2 := MulG1(k1);
    var k3 := Shift33(k2);
    var k4 := MulG2(k3);
    Shift33Inverse(k);
    G1Inverse(k1);
    Shift33Inverse(k2);
    G2Inverse(k3);
    Shift33Inverse(k4);
    var g3 := DivG2(k1);
    var g2 := Shift33(g3);
    var g1 := DivG1(g2);
    G2Inverse(k1);
    Shift33Inverse(g3);
    G1Inverse(g2);
    Shift33Inverse(g1);
  }

  lemma Fmix64Lossless(g: bv64, h: bv64)
    requires Fmix64(g) == Fmix64(h)
    ensures g == h
  {
    hide Fmix64, Unfmix64;
    Fmix64Bijective(g);
    Fmix64Bijective(h);
  }

  /** The length of a key, as it is mixed in. */
  function Length32(n: nat): bv32 {
    (n % 0x1_0000_0000) as bv32
  }

  function Length64(n: nat): bv64 {
    (n % 0x1_0000_0000_0000_0000) as bv64
  }
}
