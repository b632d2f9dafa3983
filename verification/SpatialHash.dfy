/**
 The chained hash table over quantised coordinates that the match and bestmatch operators index a
 catalog chunk with.  A catalog entry is inserted under the hash of every bucket combination within
 one bucket of its own; a pattern position is looked up under the hash of its own buckets.
 */
module SpatialHash {
  import opened Arithmetic

  type Coordinates = seq<int>

  /** A 64-bit hash, as its unsigned value. */
  type Hash = h: int | 0 <= h < 0x1_0000_0000_0000_0000

  const HASH_MULTIPLIER: int := 1000003
  const HASH_TABLE_RESERVE: nat := 1009

  /** Division truncating toward zero. */
  function TruncDiv(x: int, y: int): int
    requires y != 0
  {
    if y < 0 then (if -x >= 0 then -x / -y else -(x / -y)) else (if x >= 0 then x / y else -(-x / y))
  }

  /** The quotient leaves a remainder smaller than the divisor and on the side of the dividend. */
  lemma TruncDivSays(x: int, y: int)
    requires y != 0
    ensures var r := x - y * TruncDiv(x, y);
      && r < Abs(y) && -r < Abs(y) && (x >= 0 ==> r >= 0) && (x <= 0 ==> r <= 0)
  {
    var d := Abs(y);
    if x >= 0 {
      assert x == d * (x / d) + x % d;
    } else {
      assert -x == d * (-x / d) + -x % d;
    }
  }

  lemma DivMonotone(x: nat, y: nat, d: nat)
    requires x <= y && d > 0
    ensures x / d <= y / d
  {
    var p, q := x / d, y / d;
    assert x == p * d + x % d && y == q * d + y % d;
    ScaleIsMonotone(d, q, p);
  }

  /** Truncating division by a positive number is monotone, across zero too. */
  lemma TruncDivMonotone(x: int, y: int, d: int)
    requires x <= y && d > 0
    ensures TruncDiv(x, d) <= TruncDiv(y, d)
  {
    if x >= 0 {
      DivMonotone(x, y, d);
    } else if y < 0 {
      DivMonotone(-y, -x, d);
    } else {
      DivMonotone(0, -x, d);
      DivMonotone(0, y, d);
    }
  }

  /** Exclusive or of the binary digits. */
  function Xor(a: nat, b: nat): nat {
    if a == 0 && b == 0 then 0 else 2 * Xor(a / 2, b / 2) + (if a % 2 == b % 2 then 0 else 1)
  }

  lemma {:induction false} XorZero(x: nat)
    ensures Xor(0, x) == x && Xor(x, 0) == x
  {
    if x != 0 {
      XorZero(x / 2);
    }
  }

  function Pow2(k: nat): (r: nat)
    ensures r > 0
  {
    if k == 0 then 1 else 2 * Pow2(k - 1)
  }

  lemma {:induction false} XorBelow(a: nat, b: nat, k: nat)
    requires a < Pow2(k) && b < Pow2(k)
    ensures Xor(a, b) < Pow2(k)
  {
    if k > 0 {
      XorBelow(a / 2, b / 2, k - 1);
    }
  }

  lemma {:induction false} Pow2Adds(j: nat, k: nat)
    ensures Pow2(j + k) == Pow2(j) * Pow2(k)
  {
    if j > 0 {
      Pow2Adds(j - 1, k);
    }
  }

  lemma WordIsPow2()
    ensures Pow2(64) == WORD
  {
    assert Pow2(4) == 16;
    Pow2Adds(4, 4);
    Pow2Adds(8, 8);
    Pow2Adds(16, 16);
    Pow2Adds(32, 32);
  }

  /** A binary digit is set in the exclusive or if and only if it is set in exactly one of the two. */
  lemma {:induction false} XorDigits(a: nat, b: nat, k: nat)
    ensures Xor(a, b) / Pow2(k) % 2 == 1 <==> a / Pow2(k) % 2 != b / Pow2(k) % 2
    decreases k
  {
    hide Xor;
    if k > 0 {
      XorDigits(a / 2, b / 2, k - 1);
      XorHalves(a, b);
      HalfFirst(Xor(a, b), k);
      HalfFirst(a, k);
      HalfFirst(b, k);
    } else {
      XorHalves(a, b);
    }
  }

  lemma XorHalves(a: nat, b: nat)
    ensures Xor(a, b) / 2 == Xor(a / 2, b / 2) && (Xor(a, b) % 2 == 1 <==> a % 2 != b % 2)
  {
    var h := Xor(a / 2, b / 2);
    var d := if a % 2 == b % 2 then 0 else 1;
    assert Xor(a, b) == 2 * h + d;
  }

  lemma HalfFirst(a: nat, k: nat)
    requires k > 0
    ensures a / Pow2(k) == a / 2 / Pow2(k - 1)
  {
    var n := Pow2(k - 1);
    var h := a / 2;
    var q, r := h / n, h % n;
    assert h == n * q + r;
    assert a == 2 * n * q + (2 * r + a % 2);
    assert Pow2(k) == 2 * n;
    QuotientAndRemainder(2 * n, q, 2 * r + a % 2);
  }

  /** hash * HASH_MULTIPLIER ^ bucket, in 64-bit arithmetic. */
  function MixHash(hash: Hash, bucket: int): Hash {
    WordIsPow2();
    XorBelow(hash * HASH_MULTIPLIER % WORD, bucket % WORD, 64);
    Xor(hash * HASH_MULTIPLIER % WORD, bucket % WORD)
  }

  /** The hash of a position's own buckets, from dimension i on. */
  function HashFrom(pos: Coordinates, i: nat, hash: Hash, error: int): Hash
    requires i <= |pos| && error != 0
    decreases |pos| - i
  {
    if i == |pos| then hash else HashFrom(pos, i + 1, MixHash(hash, TruncDiv(pos[i], error)), error)
  }

  method GetCatalogHash(pos: Coordinates, error: int) returns (hash: Hash)
    requires error != 0
    ensures hash == HashFrom(pos, 0, 0, error)
  {
    hash := 0;
    for i := 0 to |pos|
      invariant HashFrom(pos, i, hash, error) == HashFrom(pos, 0, 0, error)
    {
      hash := MixHash(hash, TruncDiv(pos[i], error));
    }
  }

  // ---------- the hashes an entry is filed under ----------

  function Lowest(pos: Coordinates, i: nat, error: int): int
    requires i < |pos| && error != 0
  {
    TruncDiv(pos[i] - error, error)
  }

  function Highest(pos: Coordinates, i: nat, error: int): int
    requires i < |pos| && error != 0
  {
    TruncDiv(pos[i] + error, error)
  }

  /** The hashes of an entry, in insertion order, given the hash of the dimensions before i. */
  function FanOut(pos: Coordinates, i: nat, hash: Hash, error: int): seq<Hash>
    requires i < |pos| && error != 0
    decreases |pos| - i, 1, 0
  {
    FanOutFrom(pos, i, hash, error, Lowest(pos, i, error))
  }

  /** The part of the fan-out with bucket lo or above in dimension i. */
  function FanOutFrom(pos: Coordinates, i: nat, hash: Hash, error: int, lo: int): seq<Hash>
    requires i < |pos| && error != 0
    decreases |pos| - i, 0, Highest(pos, i, error) - lo + 1
  {
    if lo > Highest(pos, i, error) then []
    else FanOutAt(pos, i, hash, error, lo) + FanOutFrom(pos, i, hash, error, lo + 1)
  }

  /** The part of the fan-out with bucket b in dimension i. */
  function FanOutAt(pos: Coordinates, i: nat, hash: Hash, error: int, b: int): seq<Hash>
    requires i < |pos| && error != 0
    decreases |pos| - i, 0, -1
  {
    if i + 1 < |pos| then FanOut(pos, i + 1, MixHash(hash, b), error) else [MixHash(hash, b)]
  }

  lemma {:induction false} InFanOutFrom(pos: Coordinates, i: nat, hash: Hash, error: int, lo: int, b: int, h: Hash)
    requires i < |pos| && error != 0 && lo <= b <= Highest(pos, i, error)
    requires h in FanOutAt(pos, i, hash, error, b)
    ensures h in FanOutFrom(pos, i, hash, error, lo)
    decreases b - lo
  {
    hide MixHash, TruncDiv;
    if lo < b {
      InFanOutFrom(pos, i, hash, error, lo + 1, b, h);
    }
  }

  /** A hash made of one bucket for every dimension. */
  function HashOf(buckets: seq<int>, hash: Hash): Hash
    decreases |buckets|
  {
    if buckets == [] then hash
    else HashOf(buckets[1..], MixHash(hash, buckets[0]))
  }

  /** In every dimension from i on, no bucket below that of the coordinate less the error, nor above that of the
      coordinate plus the error. */
  ghost predicate InReach(pos: Coordinates, i: nat, error: int, buckets: seq<int>)
    requires i <= |pos| && error != 0
  {
    && |buckets| == |pos| - i
    && forall j :: 0 <= j < |buckets| ==>
         TruncDiv(pos[i + j] - error, error) <= buckets[j] <= TruncDiv(pos[i + j] + error, error)
  }

  lemma {:induction false} ReachIsFiled(pos: Coordinates, i: nat, hash: Hash, error: int, buckets: seq<int>)
    requires i < |pos| && error != 0 && InReach(pos, i, error, buckets)
    ensures HashOf(buckets, hash) in FanOut(pos, i, hash, error)
    decreases |pos| - i
  {
    hide MixHash, TruncDiv;
    var b := buckets[0];
    if i + 1 < |pos| {
      ReachIsFiled(pos, i + 1, MixHash(hash, b), error, buckets[1..]);
      assert FanOutAt(pos, i, hash, error, b) == FanOut(pos, i + 1, MixHash(hash, b), error);
    } else {
      assert buckets[1..] == [];
      assert HashOf(buckets, hash) == HashOf([], MixHash(hash, b)) == MixHash(hash, b);
    }
    InFanOutFrom(pos, i, hash, error, Lowest(pos, i, error), b, HashOf(buckets, hash));
  }

  lemma {:induction false} FiledIsInReach(pos: Coordinates, i: nat, hash: Hash, error: int, lo: int, h: Hash)
    returns (buckets: seq<int>)
    requires i < |pos| && error != 0 && Lowest(pos, i, error) <= lo && h in FanOutFrom(pos, i, hash, error, lo)
    ensures InReach(pos, i, error, buckets) && HashOf(buckets, hash) == h
    decreases |pos| - i, Highest(pos, i, error) - lo + 1
  {
    hide MixHash, TruncDiv;
    if h in FanOutAt(pos, i, hash, error, lo) {
      var rest: seq<int> := [];
      if i + 1 < |pos| {
        assert FanOutAt(pos, i, hash, error, lo) == FanOut(pos, i + 1, MixHash(hash, lo), error);
        rest := FiledIsInReach(pos, i + 1, MixHash(hash, lo), error, Lowest(pos, i + 1, error), h);
      }
      buckets := [lo] + rest;
      assert buckets[1..] == rest;
    } else {
      buckets := FiledIsInReach(pos, i, hash, error, lo + 1, h);
    }
  }

  /** An entry is filed under exactly the hashes of the buckets in its reach, all combinations of them. */
  lemma FiledExactly(pos: Coordinates, error: int, h: Hash)
    requires pos != [] && error != 0
    ensures h in FanOut(pos, 0, 0, error) <==>
            exists buckets :: InReach(pos, 0, error, buckets) && HashOf(buckets, 0) == h
  {
    hide InReach, HashOf, FanOutFrom;
    if h in FanOut(pos, 0, 0, error) {
      var buckets := FiledIsInReach(pos, 0, 0, error, Lowest(pos, 0, error), h);
    }
    forall buckets | InReach(pos, 0, error, buckets) && HashOf(buckets, 0) == h ensures h in FanOut(pos, 0, 0, error) {
      ReachIsFiled(pos, 0, 0, error, buckets);
    }
  }

  /** A position is looked up under the hash of its own quotients: multiply by 1000003, exclusive or, modulo 2^64. */
  lemma {:induction false} LookedUpUnder(pos: Coordinates, i: nat, hash: Hash, error: int)
    requires i <= |pos| && error != 0
    ensures HashFrom(pos, i, hash, error) ==
            HashOf(seq(|pos| - i, j requires 0 <= j < |pos| - i => TruncDiv(pos[i + j], error)), hash)
    ensures forall bucket :: MixHash(hash, bucket) == Xor(hash * 1000003 % 0x1_0000_0000_0000_0000,
                                                          bucket % 0x1_0000_0000_0000_0000)
    decreases |pos| - i
  {
    hide TruncDiv;
    if i < |pos| {
      var quotients := seq(|pos| - i, j requires 0 <= j < |pos| - i => TruncDiv(pos[i + j], error));
      var next := MixHash(hash, quotients[0]);
      LookedUpUnder(pos, i + 1, next, error);
      hide MixHash;
      assert quotients[1..] ==
             seq(|pos| - (i + 1), j requires 0 <= j < |pos| - (i + 1) => TruncDiv(pos[i + 1 + j], error));
    }
  }

  function Abs(x: int): nat {
    if x < 0 then -x else x
  }

  /** The bucket of a coordinate within the error of pos[i] is one of the buckets pos is filed under. */
  lemma BucketInRange(pos: Coordinates, i: nat, error: int, x: int)
    requires i < |pos| && error != 0 && Abs(x - pos[i]) <= Abs(error)
    ensures Lowest(pos, i, error) <= TruncDiv(x, error) <= Highest(pos, i, error)
  {
    if error > 0 {
      TruncDivMonotone(pos[i] - error, x, error);
      TruncDivMonotone(x, pos[i] + error, error);
    } else {
      TruncDivMonotone(-x, -(pos[i] + error), -error);
      TruncDivMonotone(-(pos[i] - error), -x, -error);
    }
  }

  /** No coordinate differs by more than the error. */
  ghost predicate Close(p: Coordinates, c: Coordinates, error: int)
    requires |p| == |c|
  {
    forall i :: 0 <= i < |p| ==> Abs(p[i] - c[i]) <= Abs(error)
  }

  /** A catalog entry is filed under the hash of every position close to it. */
  lemma {:induction false} CloseIsFiled(p: Coordinates, c: Coordinates, i: nat, hash: Hash, error: int)
    requires |p| == |c| && i < |c| && error != 0 && Close(p, c, error)
    ensures HashFrom(p, i, hash, error) in FanOut(c, i, hash, error)
    decreases |c| - i
  {
    hide MixHash, TruncDiv;
    var b := TruncDiv(p[i], error);
    BucketInRange(c, i, error, p[i]);
    if i + 1 < |c| {
      CloseIsFiled(p, c, i + 1, MixHash(hash, b), error);
    } else {
      assert HashFrom(p, i + 1, MixHash(hash, b), error) == MixHash(hash, b);
    }
    InFanOutFrom(c, i, hash, error, Lowest(c, i, error), b, HashFrom(p, i, hash, error));
  }

  // ---------- the chained table ----------

  datatype Elem = Elem(coords: Coordinates, hash: Hash)

  type Table = t: seq<seq<Elem>> | |t| > 0 witness [[]]

  function ChainOf(t: Table, hash: Hash): nat {
    hash % |t|
  }

  /** Links a new element in front of its chain. */
  function Link(t: Table, e: Elem): Table {
    t[ChainOf(t, e.hash) := [e] + t[ChainOf(t, e.hash)]]
  }

  function LinkAll(t: Table, pos: Coordinates, hashes: seq<Hash>): Table
    decreases |hashes|
  {
    if hashes == [] then t else LinkAll(Link(t, Elem(pos, hashes[0])), pos, hashes[1..])
  }

  /** The elements of a chain that have the hash, in chain order. */
  function WithHash(chain: seq<Elem>, hash: Hash): seq<Elem> {
    if chain == [] then []
    else (if chain[0].hash == hash then [chain[0]] else []) + WithHash(chain[1..], hash)
  }

  function Found(t: Table, hash: Hash): seq<Elem> {
    WithHash(t[ChainOf(t, hash)], hash)
  }

  /** Linking shows under the element's own hash, in front, and nowhere else. */
  lemma FoundAfterLink(t: Table, e: Elem, hash: Hash)
    ensures Found(Link(t, e), hash) == (if e.hash == hash then [e] else []) + Found(t, hash)
  {
    var k := ChainOf(t, e.hash);
    var chain := [e] + t[k];
    assert chain[1..] == t[k];
    if ChainOf(t, hash) == k {
      assert Link(t, e)[k] == chain;
    } else {
      assert [] + Found(t, hash) == Found(t, hash);
    }
  }

  lemma {:induction false} FoundAfterLinkAll(t: Table, pos: Coordinates, hashes: seq<Hash>, hash: Hash, c: Coordinates)
    ensures Elem(c, hash) in Found(LinkAll(t, pos, hashes), hash) <==>
            Elem(c, hash) in Found(t, hash) || (c == pos && hash in hashes)
    decreases |hashes|
  {
    if hashes != [] {
      var e := Elem(pos, hashes[0]);
      FoundAfterLink(t, e, hash);
      FoundAfterLinkAll(Link(t, e), pos, hashes[1..], hash, c);
      assert hash in hashes <==> hash == hashes[0] || hash in hashes[1..];
    }
  }

  lemma {:induction false} LinkAllAppend(t: Table, pos: Coordinates, a: seq<Hash>, b: seq<Hash>)
    ensures LinkAll(t, pos, a + b) == LinkAll(LinkAll(t, pos, a), pos, b)
    decreases |a|
  {
    if a == [] {
      assert a + b == b;
    } else {
      assert (a + b)[1..] == a[1..] + b;
      LinkAllAppend(Link(t, Elem(pos, a[0])), pos, a[1..], b);
    }
  }

  /** The table of a catalog: every entry filed under its fan-out, entry by entry. */
  function Index(t: Table, catalog: seq<Coordinates>, error: int): Table
    requires error != 0 && forall k :: 0 <= k < |catalog| ==> |catalog[k]| > 0
    decreases |catalog|
  {
    if catalog == [] then t
    else Index(LinkAll(t, catalog[0], FanOut(catalog[0], 0, 0, error)), catalog[1..], error)
  }

  /** What is found under a hash is exactly the catalog entries whose fan-out has it. */
  lemma {:induction false} FoundInIndex(t: Table, catalog: seq<Coordinates>, error: int, hash: Hash, c: Coordinates)
    requires error != 0 && forall k :: 0 <= k < |catalog| ==> |catalog[k]| > 0
    ensures Elem(c, hash) in Found(Index(t, catalog, error), hash) <==>
            Elem(c, hash) in Found(t, hash) ||
            (exists k :: 0 <= k < |catalog| && catalog[k] == c && hash in FanOut(c, 0, 0, error))
    decreases |catalog|
  {
    hide Found, FanOut, LinkAll;
    if catalog != [] {
      var hashes := FanOut(catalog[0], 0, 0, error);
      FoundAfterLinkAll(t, catalog[0], hashes, hash, c);
      FoundInIndex(LinkAll(t, catalog[0], hashes), catalog[1..], error, hash, c);
      assert forall k :: 0 <= k < |catalog[1..]| ==> catalog[1..][k] == catalog[k + 1];
      assert forall k :: 1 <= k < |catalog| ==> catalog[k] == catalog[1..][k - 1];
    }
  }

  /** Every element found under a hash has that hash. */
  lemma {:induction false} FoundHasHash(chain: seq<Elem>, hash: Hash, k: nat)
    requires k < |WithHash(chain, hash)|
    ensures WithHash(chain, hash)[k].hash == hash
  {
    var first := if chain[0].hash == hash then 1 else 0;
    if k >= first {
      FoundHasHash(chain[1..], hash, k - first);
    }
  }

  /** The hash table of the source, as an object. */
  class MatchHash {
    var table: Table

    constructor (size: nat)
      ensures |table| == size + HASH_TABLE_RESERVE && forall k :: 0 <= k < |table| ==> table[k] == []
    {
      table := seq(size + HASH_TABLE_RESERVE, _ => []);
    }

    method Insert(pos: Coordinates, h: Hash)
      modifies this
      ensures table == Link(old(table), Elem(pos, h))
    {
      var chain := h % |table|;
      table := table[chain := [Elem(pos, h)] + table[chain]];
    }

    /** Files pos under its fan-out in the dimensions from i on: one bucket below its own to one above
        in every dimension, all combinations. */
    method AddCatalogEntry(pos: Coordinates, i: nat, hash: Hash, error: int)
      requires i < |pos| && error != 0
      modifies this
      ensures table == LinkAll(old(table), pos, FanOut(pos, i, hash, error))
      decreases |pos| - i
    {
      hide MixHash, TruncDiv, LinkAll, Link;
      var from, till := Lowest(pos, i, error), Highest(pos, i, error);
      ghost var all := LinkAll(table, pos, FanOut(pos, i, hash, error));
      var hi := from;
      while hi <= till
        invariant LinkAll(table, pos, FanOutFrom(pos, i, hash, error, hi)) == all
        decreases till - hi + 1
      {
        ghost var here := FanOutAt(pos, i, hash, error, hi);
        LinkAllAppend(table, pos, here, FanOutFrom(pos, i, hash, error, hi + 1));
        if i + 1 < |pos| {
          AddCatalogEntry(pos, i + 1, MixHash(hash, hi), error);
        } else {
          LinkOne(table, pos, MixHash(hash, hi));
          Insert(pos, MixHash(hash, hi));
        }
        hi := hi + 1;
      }
      LinkNone(table, pos);
    }

    /** The chain from the first element with the hash on; empty if there is none. */
    method Find(hash: Hash) returns (chain: seq<Elem>)
      ensures WithHash(chain, hash) == Found(table, hash)
      ensures chain != [] ==> chain[0].hash == hash
    {
      chain := table[hash % |table|];
      while chain != []
        invariant WithHash(chain, hash) == Found(table, hash)
        decreases |chain|
      {
        if chain[0].hash == hash {
          return;
        }
        assert [] + WithHash(chain[1..], hash) == WithHash(chain[1..], hash);
        chain := chain[1..];
      }
    }
  }

  lemma LinkNone(t: Table, pos: Coordinates)
    ensures LinkAll(t, pos, []) == t
  {
  }

  lemma LinkOne(t: Table, pos: Coordinates, h: Hash)
    ensures LinkAll(t, pos, [h]) == Link(t, Elem(pos, h))
  {
    assert [h][1..] == [];
  }
}
