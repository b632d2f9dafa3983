/**
 The bestmatch operator: for every pattern position of a chunk, a catalog position of the chunk at the
 least Euclidean distance, if one lies within the error.  Squared distances are computed modulo 2^64.
 */
module BestMatchArray {
  import opened Arithmetic
  import opened ByteText
  import opened SpatialHash
  import opened MatchArray

  // ---------- distances ----------

  ghost function SquaredDistance(p: Coordinates, c: Coordinates): nat
    requires |p| == |c|
  {
    if p == [] then 0 else
      var d := c[|c| - 1] - p[|p| - 1];
      SquaredDistance(p[..|p| - 1], c[..|c| - 1]) + Square(d)
  }

  function Square(x: int): (r: nat)
    ensures r >= Abs(x)
  {
    SquareAtLeast(x);
    x * x
  }

  lemma SquareAtLeast(x: int)
    ensures x * x >= Abs(x)
  {
    if x > 0 {
      assert (x - 1) * x >= 0;
    } else if x < 0 {
      assert (-x - 1) * -x >= 0;
    }
  }

  method CalculateDistance(from: Coordinates, till: Coordinates) returns (dist: nat)
    requires |from| == |till|
    ensures dist == SquaredDistance(from, till) % WORD
  {
    hide Square;
    dist := 0;
    for i := 0 to |from|
      invariant dist == SquaredDistance(from[..i], till[..i]) % WORD
    {
      assert from[..i + 1][..i] == from[..i] && till[..i + 1][..i] == till[..i];
      AddModulo(SquaredDistance(from[..i], till[..i]), Square(till[i] - from[i]));
      dist := (dist + Square(till[i] - from[i])) % WORD;
    }
    assert from[..|from|] == from && till[..|till|] == till;
  }

  lemma AddModulo(a: nat, b: nat)
    ensures (a % WORD + b) % WORD == (a + b) % WORD
  {
  }

  lemma {:induction false} CoordinateBelowDistance(p: Coordinates, c: Coordinates, i: nat)
    requires |p| == |c| && i < |p|
    ensures Square(c[i] - p[i]) <= SquaredDistance(p, c)
  {
    hide Square;
    if i < |p| - 1 {
      CoordinateBelowDistance(p[..|p| - 1], c[..|c| - 1], i);
    }
  }

  lemma GreaterSquares(b: nat, d: nat)
    requires d > 0
    ensures (b + d) * (b + d) > b * b
  {
    assert (b + d) * (b + d) == b * b + 2 * (b * d) + d * d;
  }

  lemma SquareOfAbs(x: int)
    ensures Square(x) == Abs(x) * Abs(x)
  {
  }

  lemma SquareMonotone(x: int, e: int)
    requires Square(x) <= Square(e)
    ensures Abs(x) <= Abs(e)
  {
    hide Square;
    SquareOfAbs(x);
    SquareOfAbs(e);
    var a, b := Abs(x), Abs(e);
    if a > b {
      GreaterSquares(b, a - b);
    }
  }

  /** A position within Euclidean distance of the error is within the error in every dimension. */
  lemma NearIsClose(p: Coordinates, c: Coordinates, error: int)
    requires |p| == |c| && SquaredDistance(p, c) <= Square(error)
    ensures Close(p, c, error)
  {
    hide Square;
    forall i | 0 <= i < |p| ensures Abs(p[i] - c[i]) <= Abs(error) {
      CoordinateBelowDistance(p, c, i);
      SquareMonotone(c[i] - p[i], error);
    }
  }

  // ---------- the least distance along a chain ----------

  const NO_DISTANCE: nat := 0xFFFF_FFFF_FFFF_FFFF

  /** The element chosen so far and its distance. */
  datatype Best = Best(distance: nat, coords: Option<Coordinates>)

  function MaxDistance(error: int): nat {
    Square(error) % WORD
  }

  ghost function Distance64(p: Coordinates, c: Coordinates): nat
    requires |p| == |c|
  {
    SquaredDistance(p, c) % WORD
  }

  /** The loop over a chain, from the best found so far. */
  ghost function Choose(chain: seq<Elem>, p: Coordinates, hash: Hash, error: int, best: Best): Best
    requires ChainHasDimensions(chain, |p|)
    decreases |chain|
  {
    if chain == [] then best
    else
      var d := Distance64(p, chain[0].coords);
      var better := chain[0].hash == hash && d <= MaxDistance(error) && d < best.distance;
      Choose(chain[1..], p, hash, error, if better then Best(d, Some(chain[0].coords)) else best)
  }

  method ChooseInChain(chain: seq<Elem>, p: Coordinates, hash: Hash, error: int) returns (coords: Option<Coordinates>)
    requires ChainHasDimensions(chain, |p|)
    ensures coords == Choose(chain, p, hash, error, Best(NO_DISTANCE, None)).coords
  {
    hide Square, SquaredDistance;
    var minDistance: nat, maxDistance := NO_DISTANCE, MaxDistance(error);
    coords := None;
    var elem := chain;
    while elem != []
      invariant ChainHasDimensions(elem, |p|)
      invariant Choose(elem, p, hash, error, Best(minDistance, coords)) ==
                Choose(chain, p, hash, error, Best(NO_DISTANCE, None))
      decreases |elem|
    {
      if elem[0].hash == hash {
        var distance := CalculateDistance(p, elem[0].coords);
        if distance <= maxDistance && distance < minDistance {
          minDistance, coords := distance, Some(elem[0].coords);
        }
      }
      elem := elem[1..];
    }
  }

  // ---------- the best match of a position ----------

  ghost predicate Within(p: Coordinates, catalog: seq<Coordinates>, error: int, c: Coordinates)
    requires |c| == |p|
  {
    c in catalog && SquaredDistance(p, c) <= Square(error)
  }

  /** What is recorded for p: the choice along p's own chain of the catalog's index. */
  ghost function BestMatch(p: Coordinates, catalog: seq<Coordinates>, error: int): Option<Coordinates>
    requires error != 0 && SameDimensions(catalog, |p|)
  {
    var index := Index(EmptyTable(|catalog|), catalog, error);
    var hash := HashFrom(p, 0, 0, error);
    assert HasDimensions(index, |p|) by { IndexHasDimensions(EmptyTable(|catalog|), catalog, error, |p|); }
    Choose(index[ChainOf(index, hash)], p, hash, error, Best(NO_DISTANCE, None)).coords
  }

  lemma NothingInEmpty(size: nat, hash: Hash)
    ensures Found(EmptyTable(size), hash) == []
  {
  }

  // ---------- the choice without the table ----------

  /** What the search takes for a match: filed under p's hash, at a wrapped distance within the wrapped error. */
  ghost predicate Seen(p: Coordinates, c: Coordinates, error: int)
    requires error != 0 && |c| == |p| > 0
  {
    && HashFrom(p, 0, 0, error) in FanOut(c, 0, 0, error)
    && Distance64(p, c) <= MaxDistance(error) && Distance64(p, c) < NO_DISTANCE
  }

  ghost function Update(best: Best, p: Coordinates, c: Coordinates, error: int): Best
    requires |c| == |p|
  {
    var d := Distance64(p, c);
    if d <= MaxDistance(error) && d < best.distance then Best(d, Some(c)) else best
  }

  /** The choice along the chain of a hash. */
  ghost function ChooseAt(t: Table, p: Coordinates, hash: Hash, error: int, best: Best): Best
    requires HasDimensions(t, |p|)
  {
    Choose(t[ChainOf(t, hash)], p, hash, error, best)
  }

  lemma ChooseAfterLink(t: Table, e: Elem, p: Coordinates, hash: Hash, error: int, best: Best)
    requires HasDimensions(t, |p|) && |e.coords| == |p|
    ensures HasDimensions(Link(t, e), |p|)
    ensures ChooseAt(Link(t, e), p, hash, error, best)
         == ChooseAt(t, p, hash, error, if e.hash == hash then Update(best, p, e.coords, error) else best)
  {
    hide Distance64, MaxDistance;
    var k := ChainOf(t, e.hash);
    var chain := [e] + t[k];
    assert ChainHasDimensions(t[k], |p|);
    assert chain[1..] == t[k] && Link(t, e)[k] == chain;
  }

  /** However often an entry is filed under the hash, it is considered once, and before all earlier entries. */
  lemma {:induction false} ChooseAfterLinkAll(
    t: Table, c: Coordinates, hashes: seq<Hash>, p: Coordinates, hash: Hash, error: int, best: Best)
    requires HasDimensions(t, |p|) && |c| == |p|
    ensures HasDimensions(LinkAll(t, c, hashes), |p|)
    ensures ChooseAt(LinkAll(t, c, hashes), p, hash, error, best)
         == ChooseAt(t, p, hash, error, if hash in hashes then Update(best, p, c, error) else best)
    decreases |hashes|
  {
    hide ChooseAt, Link, Distance64, MaxDistance;
    if hashes != [] {
      var e := Elem(c, hashes[0]);
      var best' := if hash in hashes[1..] then Update(best, p, c, error) else best;
      ChooseAfterLink(t, e, p, hash, error, best');
      ChooseAfterLinkAll(Link(t, e), c, hashes[1..], p, hash, error, best);
    }
  }

  lemma {:induction false} IndexLast(t: Table, front: seq<Coordinates>, c: Coordinates, error: int)
    requires error != 0 && |c| > 0 && forall k :: 0 <= k < |front| ==> |front[k]| > 0
    ensures Index(t, front + [c], error) == LinkAll(Index(t, front, error), c, FanOut(c, 0, 0, error))
    decreases |front|
  {
    hide LinkAll, FanOut;
    if front == [] {
      assert front + [c] == [c] && [c][1..] == [];
    } else {
      assert (front + [c])[1..] == front[1..] + [c];
      IndexLast(LinkAll(t, front[0], FanOut(front[0], 0, 0, error)), front[1..], c, error);
    }
  }

  /** The catalog from its last position to its first. */
  ghost function ScanBack(p: Coordinates, catalog: seq<Coordinates>, error: int, best: Best): Best
    requires error != 0 && SameDimensions(catalog, |p|)
    decreases |catalog|
  {
    if catalog == [] then best
    else
      var last := |catalog| - 1;
      var c := catalog[last];
      ScanBack(p, catalog[..last], error,
               if Seen(p, c, error) && Distance64(p, c) < best.distance then Best(Distance64(p, c), Some(c)) else best)
  }

  lemma {:induction false} ChooseInIndex(t: Table, p: Coordinates, catalog: seq<Coordinates>, error: int, best: Best)
    requires error != 0 && SameDimensions(catalog, |p|) && HasDimensions(t, |p|) && best.distance <= NO_DISTANCE
    ensures HasDimensions(Index(t, catalog, error), |p|)
    ensures var hash := HashFrom(p, 0, 0, error);
      ChooseAt(Index(t, catalog, error), p, hash, error, best)
      == ChooseAt(t, p, hash, error, ScanBack(p, catalog, error, best))
    decreases |catalog|
  {
    hide ChooseAt, HashFrom, FanOut, LinkAll, Distance64, MaxDistance, HasDimensions;
    IndexHasDimensions(t, catalog, error, |p|);
    if catalog != [] {
      var last := |catalog| - 1;
      var front, c := catalog[..last], catalog[last];
      var hash, hashes := HashFrom(p, 0, 0, error), FanOut(c, 0, 0, error);
      assert catalog == front + [c];
      IndexLast(t, front, c, error);
      IndexHasDimensions(t, front, error, |p|);
      ChooseAfterLinkAll(Index(t, front, error), c, hashes, p, hash, error, best);
      ChooseInIndex(t, p, front, error, if hash in hashes then Update(best, p, c, error) else best);
    }
  }

  lemma BestMatchByScan(p: Coordinates, catalog: seq<Coordinates>, error: int)
    requires error != 0 && SameDimensions(catalog, |p|)
    ensures BestMatch(p, catalog, error) == ScanBack(p, catalog, error, Best(NO_DISTANCE, None)).coords
  {
    hide Index, HashFrom, ScanBack;
    IndexHasDimensions(EmptyTable(|catalog|), catalog, error, |p|);
    ChooseInIndex(EmptyTable(|catalog|), p, catalog, error, Best(NO_DISTANCE, None));
  }

  /** A scan improves on what it starts from or leaves it as it is. */
  lemma {:induction false} ScanImproves(p: Coordinates, catalog: seq<Coordinates>, error: int, best: Best)
    requires error != 0 && SameDimensions(catalog, |p|)
    ensures var r := ScanBack(p, catalog, error, best);
      r == best || exists k :: 0 <= k < |catalog| && Seen(p, catalog[k], error) && r.coords == Some(catalog[k])
                               && r.distance == Distance64(p, catalog[k]) < best.distance
    decreases |catalog|
  {
    hide Seen, Distance64;
    if catalog != [] {
      var last := |catalog| - 1;
      var c := catalog[last];
      var d := Distance64(p, c);
      ScanImproves(p, catalog[..last], error,
                   if Seen(p, c, error) && d < best.distance then Best(d, Some(c)) else best);
    }
  }

  /** Among the positions seen, one at the least wrapped distance, and of those the last. */
  ghost predicate Winner(p: Coordinates, catalog: seq<Coordinates>, error: int, k: nat)
    requires error != 0 && SameDimensions(catalog, |p|)
  {
    && k < |catalog| && Seen(p, catalog[k], error)
    && forall j :: 0 <= j < |catalog| && Seen(p, catalog[j], error) ==> Outdoes(p, catalog, k, j)
  }

  ghost predicate Outdoes(p: Coordinates, catalog: seq<Coordinates>, k: nat, j: nat)
    requires k < |catalog| && j < |catalog| && SameDimensions(catalog, |p|)
  {
    Distance64(p, catalog[k]) < Distance64(p, catalog[j]) ||
    (Distance64(p, catalog[k]) == Distance64(p, catalog[j]) && j <= k)
  }

  lemma {:induction false} ScanFindsWinner(
    p: Coordinates, catalog: seq<Coordinates>, error: int, best: Best, k: nat)
    requires error != 0 && SameDimensions(catalog, |p|) && Winner(p, catalog, error, k)
    requires Distance64(p, catalog[k]) < best.distance
    ensures ScanBack(p, catalog, error, best).coords == Some(catalog[k])
    decreases |catalog|
  {
    hide Seen, Distance64;
    var last := |catalog| - 1;
    var c := catalog[last];
    var d := Distance64(p, c);
    var best' := if Seen(p, c, error) && d < best.distance then Best(d, Some(c)) else best;
    var front := catalog[..last];
    if k == last {
      ScanImproves(p, front, error, best');
      assert forall j :: 0 <= j < |front| && Seen(p, front[j], error) ==> Outdoes(p, catalog, k, j);
    } else {
      assert Seen(p, c, error) ==> Outdoes(p, catalog, k, last);
      forall j | 0 <= j < |front| && Seen(p, front[j], error) ensures Outdoes(p, front, k, j) {
        assert Seen(p, catalog[j], error);
        assert Outdoes(p, catalog, k, j);
      }
      ScanFindsWinner(p, front, error, best', k);
    }
  }

  lemma {:induction false} SomeoneWins(p: Coordinates, catalog: seq<Coordinates>, error: int, seen: nat)
    returns (k: nat)
    requires error != 0 && SameDimensions(catalog, |p|) && seen < |catalog| && Seen(p, catalog[seen], error)
    ensures Winner(p, catalog, error, k)
  {
    hide Seen, Distance64;
    k := seen;
    var n := 0;
    while n < |catalog|
      invariant n <= |catalog| && k < |catalog| && Seen(p, catalog[k], error)
      invariant forall j :: 0 <= j < n && Seen(p, catalog[j], error) ==> Outdoes(p, catalog, k, j)
    {
      if Seen(p, catalog[n], error) && !Outdoes(p, catalog, k, n) {
        k := n;
      }
      n := n + 1;
    }
  }

  /** For every catalog and every error: nothing is recorded if nothing is seen, and otherwise the winner is. */
  lemma BestMatchIsWinner(p: Coordinates, catalog: seq<Coordinates>, error: int, k: nat)
    requires error != 0 && SameDimensions(catalog, |p|)
    ensures BestMatch(p, catalog, error).None? <==>
            forall j :: 0 <= j < |catalog| ==> !Seen(p, catalog[j], error)
    ensures Winner(p, catalog, error, k) ==> BestMatch(p, catalog, error) == Some(catalog[k])
  {
    hide BestMatch, Distance64, MaxDistance, HashFrom, FanOut, ScanBack;
    var start := Best(NO_DISTANCE, None);
    BestMatchByScan(p, catalog, error);
    ScanImproves(p, catalog, error, start);
    if Winner(p, catalog, error, k) {
      ScanFindsWinner(p, catalog, error, start, k);
    }
    if j :| 0 <= j < |catalog| && Seen(p, catalog[j], error) {
      var w := SomeoneWins(p, catalog, error, j);
      ScanFindsWinner(p, catalog, error, start, w);
    }
  }

  // ---------- when the choice is the nearest position ----------

  /** A match is recorded for p exactly when some catalog position lies within Euclidean distance of the
      error, and the recorded one attains the least distance over the whole catalog chunk. */
  ghost predicate Nearest(p: Coordinates, catalog: seq<Coordinates>, error: int)
    requires error != 0 && SameDimensions(catalog, |p|)
  {
    var best := BestMatch(p, catalog, error);
    && (best.Some? <==> exists c :: |c| == |p| && Within(p, catalog, error, c))
    && (best.Some? ==>
          && |best.value| == |p| && Within(p, catalog, error, best.value)
          && forall c :: |c| == |p| && c in catalog ==> SquaredDistance(p, best.value) <= SquaredDistance(p, c))
  }

  ghost predicate Near(p: Coordinates, c: Coordinates, error: int)
    requires |c| == |p|
  {
    SquaredDistance(p, c) <= Square(error)
  }

  /** A position within the error that no other is nearer than. */
  ghost predicate Right(p: Coordinates, catalog: seq<Coordinates>, error: int, k: nat)
    requires k < |catalog| && SameDimensions(catalog, |p|)
  {
    && Near(p, catalog[k], error)
    && forall j :: 0 <= j < |catalog| ==> SquaredDistance(p, catalog[k]) <= SquaredDistance(p, catalog[j])
  }

  lemma WithinIsNear(p: Coordinates, catalog: seq<Coordinates>, error: int)
    requires SameDimensions(catalog, |p|)
    ensures (exists c :: |c| == |p| && Within(p, catalog, error, c)) <==>
            exists k :: 0 <= k < |catalog| && Near(p, catalog[k], error)
  {
    hide SquaredDistance, Square;
    if k :| 0 <= k < |catalog| && Near(p, catalog[k], error) {
      assert Within(p, catalog, error, catalog[k]);
    }
  }

  /** In one catalog, for every error: the nearest position is found if and only if nothing is seen and nothing is
      near, or the winner among the positions seen is right. */
  lemma NearestIffWinnerIsRight(p: Coordinates, catalog: seq<Coordinates>, error: int)
    requires error != 0 && SameDimensions(catalog, |p|)
    ensures Nearest(p, catalog, error) <==>
            || (forall k :: 0 <= k < |catalog| ==> !Seen(p, catalog[k], error) && !Near(p, catalog[k], error))
            || (exists k: nat :: Winner(p, catalog, error, k) && Right(p, catalog, error, k))
  {
    hide BestMatch, SquaredDistance, Square, Seen, Outdoes;
    WithinIsNear(p, catalog, error);
    BestMatchIsWinner(p, catalog, error, 0);
    if seen :| 0 <= seen < |catalog| && Seen(p, catalog[seen], error) {
      var w := SomeoneWins(p, catalog, error, seen);
      BestMatchIsWinner(p, catalog, error, w);
      assert catalog[w] in catalog;
      forall k: nat | Winner(p, catalog, error, k) ensures catalog[k] == catalog[w] {
        BestMatchIsWinner(p, catalog, error, k);
      }
    }
  }

  /** The search and the promise agree about a position. */
  ghost predicate Agrees(p: Coordinates, c: Coordinates, error: int)
    requires error != 0 && |c| == |p| > 0
  {
    Seen(p, c, error) <==> Near(p, c, error)
  }

  /** Of two positions within the error, the nearer one has the smaller wrapped distance. */
  ghost predicate Ordered(p: Coordinates, c: Coordinates, e: Coordinates, error: int)
    requires |p| == |c| == |e|
  {
    SquaredDistance(p, c) < SquaredDistance(p, e) && Near(p, e, error) ==> Distance64(p, c) < Distance64(p, e)
  }

  ghost predicate Faithful(p: Coordinates, catalog: seq<Coordinates>, error: int)
    requires error != 0 && SameDimensions(catalog, |p|)
  {
    && (forall k :: 0 <= k < |catalog| ==> Agrees(p, catalog[k], error))
    && (forall j, k :: 0 <= j < |catalog| && 0 <= k < |catalog| ==> Ordered(p, catalog[j], catalog[k], error))
  }

  lemma BestMatchIsNearest(p: Coordinates, catalog: seq<Coordinates>, error: int)
    requires error != 0 && SameDimensions(catalog, |p|) && Faithful(p, catalog, error)
    ensures Nearest(p, catalog, error)
  {
    hide Nearest, SquaredDistance, Square, Distance64, Seen;
    NearestIffWinnerIsRight(p, catalog, error);
    if seen :| 0 <= seen < |catalog| && Seen(p, catalog[seen], error) {
      var w := SomeoneWins(p, catalog, error, seen);
      assert Agrees(p, catalog[w], error);
      forall j | 0 <= j < |catalog| ensures SquaredDistance(p, catalog[w]) <= SquaredDistance(p, catalog[j]) {
        assert Agrees(p, catalog[j], error) && Ordered(p, catalog[j], catalog[w], error);
        assert Seen(p, catalog[j], error) ==> Outdoes(p, catalog, w, j);
      }
      assert Right(p, catalog, error, w);
    } else {
      assert forall k :: 0 <= k < |catalog| ==> Agrees(p, catalog[k], error);
    }
  }

  /** A single position the search is wrong about is recorded although it is too far, or missed. */
  lemma DisagreementShows(p: Coordinates, c: Coordinates, error: int)
    requires error != 0 && |c| == |p| > 0 && !Agrees(p, c, error)
    ensures BestMatch(p, [c], error) == (if Seen(p, c, error) then Some(c) else None)
    ensures !Nearest(p, [c], error)
  {
    hide BestMatch, Nearest, SquaredDistance, Square, Seen;
    assert [c][0] == c;
    NearestIffWinnerIsRight(p, [c], error);
    if Seen(p, c, error) {
      assert Winner(p, [c], error, 0);
    }
    BestMatchIsWinner(p, [c], error, 0);
  }

  /** Of two positions in the wrong order, the farther one is recorded: on a tie, the one filed later. */
  lemma DisorderShows(p: Coordinates, c: Coordinates, e: Coordinates, error: int)
    requires error != 0 && |c| == |e| == |p| > 0
    ensures Agrees(p, c, error) && Agrees(p, e, error) && !Ordered(p, c, e, error) ==>
            BestMatch(p, [c, e], error) == Some(e) && !Nearest(p, [c, e], error)
  {
    hide BestMatch, Nearest, SquaredDistance, Square, Seen, Distance64;
    if Agrees(p, c, error) && Agrees(p, e, error) && !Ordered(p, c, e, error) {
      var pair := [c, e];
      assert pair[0] == c && pair[1] == e;
      assert Seen(p, e, error);
      assert Outdoes(p, pair, 1, 0) && Outdoes(p, pair, 1, 1);
      assert Winner(p, pair, error, 1);
      BestMatchIsWinner(p, pair, error, 1);
      NearestIffWinnerIsRight(p, pair, error);
      forall k: nat | Winner(p, pair, error, k) ensures !Right(p, pair, error, k) {
        BestMatchIsWinner(p, pair, error, k);
      }
    }
  }

  ghost predicate PartOf(part: seq<Coordinates>, catalog: seq<Coordinates>) {
    forall k :: 0 <= k < |part| ==> part[k] in catalog
  }

  ghost predicate NearestInEveryPart(p: Coordinates, catalog: seq<Coordinates>, error: int)
    requires error != 0 && SameDimensions(catalog, |p|)
  {
    forall part :: SameDimensions(part, |p|) && PartOf(part, catalog) ==> Nearest(p, part, error)
  }

  lemma PartIsFaithful(p: Coordinates, part: seq<Coordinates>, catalog: seq<Coordinates>, error: int)
    requires error != 0 && SameDimensions(catalog, |p|) && SameDimensions(part, |p|) && PartOf(part, catalog)
    requires Faithful(p, catalog, error)
    ensures Faithful(p, part, error)
  {
    hide Agrees, Ordered;
    forall k | 0 <= k < |part| ensures Agrees(p, part[k], error) {
      var i :| 0 <= i < |catalog| && catalog[i] == part[k];
    }
    forall j, k | 0 <= j < |part| && 0 <= k < |part| ensures Ordered(p, part[j], part[k], error) {
      var i :| 0 <= i < |catalog| && catalog[i] == part[j];
      var l :| 0 <= l < |catalog| && catalog[l] == part[k];
      assert Ordered(p, catalog[i], catalog[l], error);
    }
  }

  /** For every error: the nearest position is found in every part of the catalog if and only if the search agrees
      about every position and wrapping keeps the order of those within the error. */
  lemma NearestIffFaithful(p: Coordinates, catalog: seq<Coordinates>, error: int)
    requires error != 0 && SameDimensions(catalog, |p|)
    ensures NearestInEveryPart(p, catalog, error) <==> Faithful(p, catalog, error)
  {
    hide Nearest, Agrees, Ordered;
    if Faithful(p, catalog, error) {
      forall part | SameDimensions(part, |p|) && PartOf(part, catalog) ensures Nearest(p, part, error) {
        PartIsFaithful(p, part, catalog, error);
        BestMatchIsNearest(p, part, error);
      }
    } else if k :| 0 <= k < |catalog| && !Agrees(p, catalog[k], error) {
      DisagreementShows(p, catalog[k], error);
      assert PartOf([catalog[k]], catalog);
    } else {
      var j, k :| 0 <= j < |catalog| && 0 <= k < |catalog| && !Ordered(p, catalog[j], catalog[k], error);
      DisorderShows(p, catalog[j], catalog[k], error);
      assert PartOf([catalog[j], catalog[k]], catalog);
    }
  }

  // ---------- errors whose square fits ----------

  /** A position that is too far from p and yet seen. */
  ghost predicate Lure(p: Coordinates, c: Coordinates, error: int)
    requires error != 0 && |c| == |p| > 0
  {
    Seen(p, c, error) && !Near(p, c, error)
  }

  ghost predicate NoLures(p: Coordinates, catalog: seq<Coordinates>, error: int)
    requires error != 0 && SameDimensions(catalog, |p|)
  {
    forall k :: 0 <= k < |catalog| ==> !Lure(p, catalog[k], error)
  }

  lemma DoesNotWrap(p: Coordinates, c: Coordinates)
    requires |p| == |c| && SquaredDistance(p, c) < WORD
    ensures Distance64(p, c) == SquaredDistance(p, c)
  {
    hide SquaredDistance;
  }

  lemma MaxWraps(error: int)
    ensures MaxDistance(error) <= Square(error) && (Square(error) < WORD ==> MaxDistance(error) == Square(error))
  {
    hide Square;
  }

  /** A lure that is alone in its chunk is recorded, too far away as it is. */
  lemma LureIsRecorded(p: Coordinates, c: Coordinates, error: int)
    requires error != 0 && |c| == |p| > 0
    ensures Lure(p, c, error) ==> BestMatch(p, [c], error) == Some(c) && !Nearest(p, [c], error)
  {
    hide BestMatch, Nearest, Seen, Near;
    if Lure(p, c, error) {
      DisagreementShows(p, c, error);
    }
  }

  /** Distances that fit a word lure nobody. */
  lemma SmallDistancesDoNotLure(p: Coordinates, catalog: seq<Coordinates>, error: int)
    requires error != 0 && SameDimensions(catalog, |p|)
    requires forall k :: 0 <= k < |catalog| ==> SquaredDistance(p, catalog[k]) < WORD
    ensures NoLures(p, catalog, error)
  {
    hide Square, SquaredDistance, HashFrom, FanOut, Distance64, MaxDistance;
    MaxWraps(error);
    forall k | 0 <= k < |catalog| ensures !Lure(p, catalog[k], error) {
      DoesNotWrap(p, catalog[k]);
    }
  }

  /** A near position is seen at its true distance. */
  lemma NearIsSeen(p: Coordinates, c: Coordinates, error: int)
    requires error != 0 && |c| == |p| > 0 && Square(error) < NO_DISTANCE && Near(p, c, error)
    ensures Seen(p, c, error) && Distance64(p, c) == SquaredDistance(p, c)
  {
    hide Square, SquaredDistance, HashFrom, FanOut, Distance64, MaxDistance;
    MaxWraps(error);
    DoesNotWrap(p, c);
    NearIsClose(p, c, error);
    CloseIsFiled(p, c, 0, 0, error);
  }

  lemma FaithfulIffNoLures(p: Coordinates, catalog: seq<Coordinates>, error: int)
    requires error != 0 && SameDimensions(catalog, |p|) && Square(error) < NO_DISTANCE
    ensures Faithful(p, catalog, error) <==> NoLures(p, catalog, error)
  {
    hide Square, SquaredDistance, Seen, Distance64;
    forall k | 0 <= k < |catalog|
      ensures Near(p, catalog[k], error) ==>
                Seen(p, catalog[k], error) && Distance64(p, catalog[k]) == SquaredDistance(p, catalog[k])
      ensures Agrees(p, catalog[k], error) <==> !Lure(p, catalog[k], error)
    {
      if Near(p, catalog[k], error) {
        NearIsSeen(p, catalog[k], error);
      }
    }
    forall j, k | 0 <= j < |catalog| && 0 <= k < |catalog| ensures Ordered(p, catalog[j], catalog[k], error) {
    }
  }

  /** For an error below 2^32, a lure is all that can go wrong. */
  lemma NearestIffNoLures(p: Coordinates, catalog: seq<Coordinates>, error: int)
    requires error != 0 && SameDimensions(catalog, |p|) && Square(error) < NO_DISTANCE
    ensures NearestInEveryPart(p, catalog, error) <==> NoLures(p, catalog, error)
  {
    hide NearestInEveryPart, Faithful, NoLures, Square;
    NearestIffFaithful(p, catalog, error);
    FaithfulIffNoLures(p, catalog, error);
  }

  /** In one catalog a lure does no harm if some position within the error has a smaller wrapped distance. */
  lemma OutdoneLuresDoNoHarm(p: Coordinates, catalog: seq<Coordinates>, error: int)
    requires error != 0 && SameDimensions(catalog, |p|) && Square(error) < NO_DISTANCE
    requires forall k :: 0 <= k < |catalog| && Lure(p, catalog[k], error) ==>
               exists j :: 0 <= j < |catalog| && Near(p, catalog[j], error)
                           && Distance64(p, catalog[j]) < Distance64(p, catalog[k])
    ensures Nearest(p, catalog, error)
  {
    hide Nearest, Square, SquaredDistance, Seen, Distance64;
    NearestIffWinnerIsRight(p, catalog, error);
    forall k | 0 <= k < |catalog|
      ensures Near(p, catalog[k], error) ==>
                Seen(p, catalog[k], error) && Distance64(p, catalog[k]) == SquaredDistance(p, catalog[k])
    {
      if Near(p, catalog[k], error) {
        NearIsSeen(p, catalog[k], error);
      }
    }
    if seen :| 0 <= seen < |catalog| && Seen(p, catalog[seen], error) {
      var w := SomeoneWins(p, catalog, error, seen);
      forall j | 0 <= j < |catalog| && Near(p, catalog[j], error) ensures Outdoes(p, catalog, w, j) {
        assert Seen(p, catalog[j], error);
      }
      assert Near(p, catalog[w], error);
      assert Right(p, catalog, error, w);
    }
  }

  /** The elements recorded for a pattern item: the best match, or nothing. */
  ghost function Recorded(p: Coordinates, catalog: seq<Coordinates>, error: int, item: Hash): seq<Elem>
    requires error != 0 && SameDimensions(catalog, |p|)
  {
    match BestMatch(p, catalog, error)
    case None => []
    case Some(c) => [Elem(c, item)]
  }

  /** The computation of findBestMatch: at most one element is recorded for every pattern position. */
  method FillBestMatches(pattern: seq<Coordinates>, catalog: seq<Coordinates>, error: int, ghost d: nat)
    returns (matches: MatchHash)
    requires error != 0 && SameDimensions(pattern, d) && SameDimensions(catalog, d) && |pattern| < WORD
    ensures fresh(matches)
    ensures forall k: nat :: k < |pattern| ==> Found(matches.table, k) == Recorded(pattern[k], catalog, error, k)
  {
    hide Index, Found, Choose;
    var catalogHash := IndexCatalog(catalog, error);
    matches := new MatchHash(|pattern|);
    assert matches.table == EmptyTable(|pattern|);
    forall k: nat | k < |pattern| ensures Found(matches.table, k) == [] {
      NothingInEmpty(|pattern|, k);
    }
    IndexHasDimensions(EmptyTable(|catalog|), catalog, error, d);
    for item := 0 to |pattern|
      invariant fresh(matches) && matches != catalogHash
      invariant catalogHash.table == Index(EmptyTable(|catalog|), catalog, error)
      invariant forall k: nat :: k < |pattern| ==>
                  Found(matches.table, k) == if k < item then Recorded(pattern[k], catalog, error, k) else []
    {
      var hash := GetCatalogHash(pattern[item], error);
      var coords := ChooseInChain(catalogHash.table[hash % |catalogHash.table|], pattern[item], hash, error);
      assert coords == BestMatch(pattern[item], catalog, error);
      if coords.Some? {
        forall k: nat | k < |pattern| {
          FoundAfterLink(matches.table, Elem(coords.value, item), k);
        }
        matches.Insert(coords.value, item);
      }
    }
  }

  // ---------- what overflow does ----------

  lemma DistanceOfPairs(p0: int, p1: int, c0: int, c1: int)
    ensures SquaredDistance([p0, p1], [c0, c1]) == Square(c0 - p0) + Square(c1 - p1)
  {
    assert [p0, p1][..1] == [p0] && [c0, c1][..1] == [c0];
    assert SquaredDistance([p0], [c0]) == SquaredDistance([], []) + Square(c0 - p0);
  }

  /** Two far positions with one hash, for the error 1. */
  ghost predicate Strangers(p: Coordinates, c: Coordinates, near: int, far: int, error: int) {
    && near == 0x1_0000_0000 && far == near * HASH_MULTIPLIER && error == 1
    && |p| == 2 && p[0] == 0 && p[1] == far && |c| == 2 && c[0] == near && c[1] == 0
  }

  lemma StrangersMix(near: Hash, far: Hash)
    requires near == 0x1_0000_0000 && far == near * HASH_MULTIPLIER
    ensures MixHash(0, 0) == 0 && MixHash(0, near) == near && MixHash(0, far) == far && MixHash(near, 0) == far
  {
    hide Xor;
    XorZero(0);
    XorZero(near);
    XorZero(far);
  }

  lemma StrangersCollide(p: Coordinates, c: Coordinates, near: int, far: int, error: int)
    requires Strangers(p, c, near, far, error)
    ensures HashFrom(p, 0, 0, error) in FanOut(c, 0, 0, error)
  {
    hide MixHash, FanOut, FanOutFrom;
    StrangersMix(near, far);
    assert HashFrom(p, 2, far, error) == far;
    assert HashFrom(p, 1, 0, error) == far;
    assert HashFrom(p, 0, 0, error) == far;
    assert FanOutAt(c, 1, near, error, 0) == [far];
    InFanOutFrom(c, 1, near, error, Lowest(c, 1, error), 0, far);
    UnfoldFanOut(c, 1, near, error);
    InFanOutFrom(c, 0, 0, error, Lowest(c, 0, error), near, far);
    UnfoldFanOut(c, 0, 0, error);
  }

  lemma UnfoldFanOut(pos: Coordinates, i: nat, hash: Hash, error: int)
    requires i < |pos| && error != 0
    ensures FanOut(pos, i, hash, error) == FanOutFrom(pos, i, hash, error, Lowest(pos, i, error))
  {
  }

  /** There are lures: two positions with one hash whose distance is a multiple of the word. */
  lemma OverflowRecordsStranger(p: Coordinates, c: Coordinates, near: int, far: int, error: int)
    requires Strangers(p, c, near, far, error)
    ensures Lure(p, c, error) && BestMatch(p, [c], error) == Some(c) && !Nearest(p, [c], error)
  {
    hide HashFrom, FanOut, SquaredDistance, Square, BestMatch, Nearest, Distance64, MaxDistance;
    StrangersAreFar(p, c, near, far, error);
    StrangersCollide(p, c, near, far, error);
    LureIsRecorded(p, c, error);
  }

  /** An error whose square wraps around makes the search miss even a close neighbour, with no lure about. */
  lemma LargeErrorMissesNeighbour(p: Coordinates, c: Coordinates, error: int)
    requires |p| == |c| == 1 && c[0] == p[0] + 1 && error == 0x1_0000_0000
    ensures BestMatch(p, [c], error) == None && Near(p, c, error) && !Nearest(p, [c], error) && NoLures(p, [c], error)
  {
    hide HashFrom, FanOut, BestMatch, Nearest;
    assert SquaredDistance(p, c) == 1;
    DisagreementShows(p, c, error);
    assert [c][0] == c;
  }

  /** An error whose square wraps around can also prefer the farther of two positions it sees. */
  lemma LargeErrorPrefersFarther(p: Coordinates, c: Coordinates, e: Coordinates, error: int)
    requires |p| == |c| == |e| == 1 && c[0] == p[0] + 1 && e[0] == p[0] + 0x1_0000_0000 && error == 0x1_0000_0001
    ensures Near(p, c, error) && Near(p, e, error)
    ensures BestMatch(p, [c, e], error) == Some(e) && !Nearest(p, [c, e], error)
  {
    hide HashFrom, FanOut, BestMatch, Nearest;
    assert SquaredDistance(p, c) == 1 && SquaredDistance(p, e) == WORD;
    assert Square(error) == WORD + 0x2_0000_0001;
    NearIsClose(p, c, error);
    NearIsClose(p, e, error);
    CloseIsFiled(p, c, 0, 0, error);
    CloseIsFiled(p, e, 0, 0, error);
    DisorderShows(p, c, e, error);
  }

  lemma StrangersAreFar(p: Coordinates, c: Coordinates, near: int, far: int, error: int)
    requires Strangers(p, c, near, far, error)
    ensures Distance64(p, c) == 0 && SquaredDistance(p, c) > Square(error) == MaxDistance(error)
  {
    assert p == [0, far] && c == [near, 0];
    DistanceOfPairs(0, far, near, 0);
    assert Square(near) == WORD && Square(-far) == WORD * (HASH_MULTIPLIER * HASH_MULTIPLIER);
  }
}
