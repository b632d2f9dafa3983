/**
 The match operator: for every pattern position of a chunk, the catalog positions of the chunk that
 lie within the error in every dimension.
 */
module MatchArray {
  import opened Arithmetic
  import opened SpatialHash

  // ---------- finding matches ----------

  /** Within the error in every dimension. */
  predicate Neighbor(from: Coordinates, till: Coordinates, error: int)
    requires |from| == |till|
  {
    forall i :: 0 <= i < |from| ==> Abs(till[i] - from[i]) <= error
  }

  method IsNeighbor(from: Coordinates, till: Coordinates, error: int) returns (r: bool)
    requires |from| == |till|
    ensures r == Neighbor(from, till, error)
  {
    for i := 0 to |from|
      invariant forall j :: 0 <= j < i ==> Abs(till[j] - from[j]) <= error
    {
      if Abs(till[i] - from[i]) > error {
        return false;
      }
    }
    return true;
  }

  /** All positions of the chunk have the same, positive, number of dimensions. */
  predicate SameDimensions(positions: seq<Coordinates>, d: nat) {
    d > 0 && forall k :: 0 <= k < |positions| ==> |positions[k]| == d
  }

  ghost predicate ChainHasDimensions(chain: seq<Elem>, d: nat) {
    forall k :: 0 <= k < |chain| ==> |chain[k].coords| == d
  }

  /** Links the neighbours of p in a catalog chain under the pattern item. */
  function LinkMatches(t: Table, chain: seq<Elem>, p: Coordinates, hash: Hash, error: int, item: Hash): Table
    requires ChainHasDimensions(chain, |p|)
    decreases |chain|
  {
    if chain == [] then t
    else
      var e := chain[0];
      var t' := if e.hash == hash && Neighbor(p, e.coords, error) then Link(t, Elem(e.coords, item)) else t;
      LinkMatches(t', chain[1..], p, hash, error, item)
  }

  lemma {:induction false} FoundAfterMatches(t: Table, chain: seq<Elem>, p: Coordinates, hash: Hash, error: int,
                                             item: Hash, j: Hash, c: Coordinates)
    requires ChainHasDimensions(chain, |p|) && |c| == |p|
    ensures Elem(c, j) in Found(LinkMatches(t, chain, p, hash, error, item), j) <==>
            Elem(c, j) in Found(t, j) ||
            (j == item && Elem(c, hash) in WithHash(chain, hash) && Neighbor(p, c, error))
    decreases |chain|
  {
    if chain != [] {
      hide Found, Link, Neighbor;
      var e := chain[0];
      var links := e.hash == hash && Neighbor(p, e.coords, error);
      var t' := if links then Link(t, Elem(e.coords, item)) else t;
      FoundAfterMatches(t', chain[1..], p, hash, error, item, j, c);
      FoundAfterLink(t, Elem(e.coords, item), j);
    }
  }

  // ---------- every chain of the catalog's index holds catalog positions ----------

  ghost predicate HasDimensions(t: Table, d: nat) {
    forall k :: 0 <= k < |t| ==> ChainHasDimensions(t[k], d)
  }

  lemma {:induction false} LinkAllHasDimensions(t: Table, pos: Coordinates, hashes: seq<Hash>)
    requires HasDimensions(t, |pos|)
    ensures HasDimensions(LinkAll(t, pos, hashes), |pos|)
    ensures |LinkAll(t, pos, hashes)| == |t|
    decreases |hashes|
  {
    if hashes != [] {
      LinkAllHasDimensions(Link(t, Elem(pos, hashes[0])), pos, hashes[1..]);
    }
  }

  lemma {:induction false} IndexHasDimensions(t: Table, catalog: seq<Coordinates>, error: int, d: nat)
    requires error != 0 && SameDimensions(catalog, d) && HasDimensions(t, d)
    ensures HasDimensions(Index(t, catalog, error), d)
    decreases |catalog|
  {
    hide FanOut, LinkAll;
    if catalog != [] {
      var hashes := FanOut(catalog[0], 0, 0, error);
      LinkAllHasDimensions(t, catalog[0], hashes);
      IndexHasDimensions(LinkAll(t, catalog[0], hashes), catalog[1..], error, d);
    }
  }

  // ---------- the table of matches ----------

  function EmptyTable(size: nat): Table {
    seq(size + HASH_TABLE_RESERVE, _ => [])
  }

  /** The table of matches of the pattern positions before n. */
  ghost function MatchTable(pattern: seq<Coordinates>, catalog: seq<Coordinates>, error: int, d: nat, n: nat): Table
    requires error != 0 && SameDimensions(pattern, d) && SameDimensions(catalog, d)
    requires n <= |pattern| < WORD
  {
    if n == 0 then EmptyTable(|pattern|)
    else
      var index := Index(EmptyTable(|catalog|), catalog, error);
      var hash := HashFrom(pattern[n - 1], 0, 0, error);
      assert HasDimensions(index, d) by { IndexHasDimensions(EmptyTable(|catalog|), catalog, error, d); }
      LinkMatches(MatchTable(pattern, catalog, error, d, n - 1), index[ChainOf(index, hash)], pattern[n - 1], hash, error, n - 1)
  }

  lemma {:induction false} LinkMatchesHasDimensions(t: Table, chain: seq<Elem>, p: Coordinates, hash: Hash, error: int, item: Hash)
    requires ChainHasDimensions(chain, |p|) && HasDimensions(t, |p|)
    ensures HasDimensions(LinkMatches(t, chain, p, hash, error, item), |p|)
    decreases |chain|
  {
    if chain != [] {
      hide Neighbor;
      var e := chain[0];
      var t' := if e.hash == hash && Neighbor(p, e.coords, error) then Link(t, Elem(e.coords, item)) else t;
      LinkMatchesHasDimensions(t', chain[1..], p, hash, error, item);
    }
  }

  lemma {:induction false} MatchTableHasDimensions(pattern: seq<Coordinates>, catalog: seq<Coordinates>, error: int, d: nat, n: nat)
    requires error != 0 && SameDimensions(pattern, d) && SameDimensions(catalog, d)
    requires n <= |pattern| < WORD
    ensures HasDimensions(MatchTable(pattern, catalog, error, d, n), d)
  {
    hide Index, HashFrom, LinkMatches;
    if n > 0 {
      MatchTableHasDimensions(pattern, catalog, error, d, n - 1);
      var index := Index(EmptyTable(|catalog|), catalog, error);
      var hash := HashFrom(pattern[n - 1], 0, 0, error);
      IndexHasDimensions(EmptyTable(|catalog|), catalog, error, d);
      LinkMatchesHasDimensions(MatchTable(pattern, catalog, error, d, n - 1), index[ChainOf(index, hash)],
                               pattern[n - 1], hash, error, n - 1);
    }
  }

  /** Under a pattern position's own hash the index holds every neighbour, and no stranger passes for one. */
  lemma NeighboursOf(p: Coordinates, catalog: seq<Coordinates>, error: int, d: nat, c: Coordinates)
    requires error != 0 && |p| == |c| == d && SameDimensions(catalog, d)
    ensures var hash := HashFrom(p, 0, 0, error);
            Elem(c, hash) in Found(Index(EmptyTable(|catalog|), catalog, error), hash) && Neighbor(p, c, error) <==>
            c in catalog && Neighbor(p, c, error)
  {
    hide Index, FanOut, HashFrom;
    var hash := HashFrom(p, 0, 0, error);
    FoundInIndex(EmptyTable(|catalog|), catalog, error, hash, c);
    if c in catalog && Neighbor(p, c, error) {
      CloseIsFiled(p, c, 0, 0, error);
    }
  }

  /** The matches recorded for pattern item k are exactly the catalog positions within the error of it:
      the fan-out over all dimensions misses none, and hash collisions add none. */
  lemma {:induction false} MatchesAreNeighbours(pattern: seq<Coordinates>, catalog: seq<Coordinates>, error: int, d: nat,
                                                n: nat, k: nat, c: Coordinates)
    requires error != 0 && SameDimensions(pattern, d) && SameDimensions(catalog, d)
    requires n <= |pattern| < WORD && k < |pattern| && |c| == d
    ensures Elem(c, k) in Found(MatchTable(pattern, catalog, error, d, n), k) <==>
            k < n && c in catalog && Neighbor(pattern[k], c, error)
  {
    hide Index, HashFrom, Neighbor, LinkMatches;
    if n > 0 {
      MatchesAreNeighbours(pattern, catalog, error, d, n - 1, k, c);
      var p := pattern[n - 1];
      var hash := HashFrom(p, 0, 0, error);
      var index := Index(EmptyTable(|catalog|), catalog, error);
      IndexHasDimensions(EmptyTable(|catalog|), catalog, error, d);
      FoundAfterMatches(MatchTable(pattern, catalog, error, d, n - 1), index[ChainOf(index, hash)], p, hash, error, n - 1, k, c);
      NeighboursOf(p, catalog, error, d, c);
    }
  }

  /** The computation of findMatch: indexes the catalog, then looks every pattern position up. */
  method FillMatches(pattern: seq<Coordinates>, catalog: seq<Coordinates>, error: int, ghost d: nat)
    returns (matches: MatchHash)
    requires error != 0 && SameDimensions(pattern, d) && SameDimensions(catalog, d) && |pattern| < WORD
    ensures fresh(matches) && matches.table == MatchTable(pattern, catalog, error, d, |pattern|)
    ensures forall k, c :: 0 <= k < |pattern| && |c| == d ==>
              (Elem(c, k) in Found(matches.table, k) <==> c in catalog && Neighbor(pattern[k], c, error))
  {
    var catalogHash := IndexCatalog(catalog, error);
    matches := new MatchHash(|pattern|);
    assert matches.table == EmptyTable(|pattern|);
    IndexHasDimensions(EmptyTable(|catalog|), catalog, error, d);
    for item := 0 to |pattern|
      invariant fresh(matches) && matches != catalogHash
      invariant catalogHash.table == Index(EmptyTable(|catalog|), catalog, error)
      invariant matches.table == MatchTable(pattern, catalog, error, d, item)
    {
      var hash := GetCatalogHash(pattern[item], error);
      MatchChain(matches, catalogHash.table[hash % |catalogHash.table|], pattern[item], hash, error, item);
    }
    forall k, c | 0 <= k < |pattern| && |c| == d
      ensures Elem(c, k) in Found(matches.table, k) <==> c in catalog && Neighbor(pattern[k], c, error)
    {
      MatchesAreNeighbours(pattern, catalog, error, d, |pattern|, k, c);
    }
  }

  method IndexCatalog(catalog: seq<Coordinates>, error: int) returns (h: MatchHash)
    requires error != 0 && forall k :: 0 <= k < |catalog| ==> |catalog[k]| > 0
    ensures fresh(h) && h.table == Index(EmptyTable(|catalog|), catalog, error)
  {
    hide FanOut, LinkAll;
    h := new MatchHash(|catalog|);
    assert h.table == EmptyTable(|catalog|);
    assert catalog[0..] == catalog;
    for i := 0 to |catalog|
      invariant fresh(h)
      invariant Index(h.table, catalog[i..], error) == Index(EmptyTable(|catalog|), catalog, error)
    {
      assert catalog[i..][1..] == catalog[i + 1..];
      h.AddCatalogEntry(catalog[i], 0, 0, error);
    }
  }

  /** Walks one catalog chain for one pattern position. */
  method MatchChain(matches: MatchHash, chain: seq<Elem>, p: Coordinates, hash: Hash, error: int, item: Hash)
    requires ChainHasDimensions(chain, |p|)
    modifies matches
    ensures matches.table == LinkMatches(old(matches.table), chain, p, hash, error, item)
  {
    var elem := chain;
    while elem != []
      invariant ChainHasDimensions(elem, |p|)
      invariant LinkMatches(matches.table, elem, p, hash, error, item) ==
                LinkMatches(old(matches.table), chain, p, hash, error, item)
      decreases |elem|
    {
      var near := IsNeighbor(p, elem[0].coords, error);
      if elem[0].hash == hash && near {
        matches.Insert(elem[0].coords, item);
      }
      elem := elem[1..];
    }
  }
}
