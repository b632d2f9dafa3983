/**
 The output chunk of the match operator.  Each of its attributes is written by a loop of its own over
 the matches of every pattern item; the loops agree on the cells.
 */
module MatchOutput {
  import opened Arithmetic
  import opened SpatialHash
  import opened MatchArray

  /** An attribute of the output: one of the pattern, one of the catalog, the matched position's
      coordinate in a dimension, or the empty tag. */
  datatype Attribute = PatternAttribute | CatalogAttribute | MatchedCoordinate(dim: nat) | EmptyTag

  datatype Payload<V> = FromPattern(value: V) | FromCatalog(value: V) | CoordinateOf(x: int) | Present

  /** A pattern cell: its position and the value of the attribute being copied. */
  datatype Item<V> = Item(position: Coordinates, value: V)

  datatype Cell<V> = Cell(position: Coordinates, payload: Payload<V>)

  /** What attribute a shows for a match e of an item. */
  function Shown<V>(a: Attribute, item: Item<V>, e: Elem, catalog: map<Coordinates, V>): Payload<V>
    requires a.CatalogAttribute? ==> e.coords in catalog
    requires a.MatchedCoordinate? ==> a.dim < |e.coords|
  {
    match a
    case PatternAttribute => FromPattern(item.value)
    case CatalogAttribute => FromCatalog(catalog[e.coords])
    case MatchedCoordinate(d) => CoordinateOf(e.coords[d])
    case EmptyTag => Present
  }

  /** Every match is a position of the catalog chunk, of the right number of dimensions. */
  ghost predicate Sound<V>(found: seq<Elem>, a: Attribute, catalog: map<Coordinates, V>) {
    forall k :: 0 <= k < |found| ==>
      (a.CatalogAttribute? ==> found[k].coords in catalog) && (a.MatchedCoordinate? ==> a.dim < |found[k].coords|)
  }

  /** The cells written for an item: collision slots 0, 1, ... in the order of its matches. */
  ghost function ItemCells<V>(a: Attribute, item: Item<V>, found: seq<Elem>, catalog: map<Coordinates, V>): (cells: seq<Cell<V>>)
    requires Sound(found, a, catalog)
    ensures |cells| == |found|
  {
    seq(|found|, k requires 0 <= k < |found| => Cell(item.position + [k], Shown(a, item, found[k], catalog)))
  }

  // ---------- the four loops over an item's chain ----------

  /** The writer's progress: the slots written so far, and the part of the chain still to be seen. */
  ghost predicate Progress<V>(cells: seq<Cell<V>>, elem: seq<Elem>, found: seq<Elem>, hash: Hash,
                              a: Attribute, item: Item<V>, catalog: map<Coordinates, V>)
    requires Sound(found, a, catalog)
  {
    && |cells| <= |found|
    && WithHash(elem, hash) == found[|cells|..]
    && cells == ItemCells(a, item, found, catalog)[..|cells|]
  }

  lemma ProgressStep<V>(cells: seq<Cell<V>>, elem: seq<Elem>, found: seq<Elem>, hash: Hash,
                        a: Attribute, item: Item<V>, catalog: map<Coordinates, V>)
    requires Sound(found, a, catalog) && Progress(cells, elem, found, hash, a, item, catalog) && elem != []
    ensures elem[0].hash != hash ==> Progress(cells, elem[1..], found, hash, a, item, catalog)
    ensures elem[0].hash == hash ==>
              && |cells| < |found| && elem[0] == found[|cells|]
              && Progress(cells + [Cell(item.position + [|cells|], Shown(a, item, elem[0], catalog))],
                          elem[1..], found, hash, a, item, catalog)
  {
    var rest := WithHash(elem[1..], hash);
    if elem[0].hash == hash {
      assert found[|cells|..] == [elem[0]] + rest;
      assert found[|cells| + 1..] == rest;
      var all := ItemCells(a, item, found, catalog);
      assert all[..|cells| + 1] == all[..|cells|] + [all[|cells|]];
    } else {
      assert [] + rest == rest;
    }
  }

  method WritePatternItem<V>(matches: MatchHash, hash: Hash, item: Item<V>, slots: nat, ghost catalog: map<Coordinates, V>)
    returns (cells: seq<Cell<V>>, ok: bool)
    ensures ok <==> |Found(matches.table, hash)| <= slots
    ensures ok ==> cells == ItemCells(PatternAttribute, item, Found(matches.table, hash), catalog)
  {
    hide ItemCells;
    ghost var found := Found(matches.table, hash);
    cells, ok := [], true;
    var elem := matches.Find(hash);
    while elem != []
      invariant Progress(cells, elem, found, hash, PatternAttribute, item, catalog) && |cells| <= slots
      decreases |elem|
    {
      ProgressStep(cells, elem, found, hash, PatternAttribute, item, catalog);
      if elem[0].hash == hash {
        if |cells| >= slots {
          return cells, false;
        }
        cells := cells + [Cell(item.position + [|cells|], FromPattern(item.value))];
      }
      elem := elem[1..];
    }
  }

  method WriteCatalogItem<V>(matches: MatchHash, hash: Hash, item: Item<V>, slots: nat, catalog: map<Coordinates, V>)
    returns (cells: seq<Cell<V>>, ok: bool)
    requires Sound(Found(matches.table, hash), CatalogAttribute, catalog)
    ensures ok <==> |Found(matches.table, hash)| <= slots
    ensures ok ==> cells == ItemCells(CatalogAttribute, item, Found(matches.table, hash), catalog)
  {
    hide ItemCells;
    ghost var found := Found(matches.table, hash);
    cells, ok := [], true;
    var elem := matches.Find(hash);
    while elem != []
      invariant Progress(cells, elem, found, hash, CatalogAttribute, item, catalog) && |cells| <= slots
      decreases |elem|
    {
      ProgressStep(cells, elem, found, hash, CatalogAttribute, item, catalog);
      if elem[0].hash == hash {
        if |cells| >= slots {
          return cells, false;
        }
        // the catalog iterator's setPosition cannot fail: the match is a catalog position
        cells := cells + [Cell(item.position + [|cells|], FromCatalog(catalog[elem[0].coords]))];
      }
      elem := elem[1..];
    }
  }

  method WriteCoordinateItem<V>(matches: MatchHash, hash: Hash, item: Item<V>, slots: nat, dim: nat,
                                ghost catalog: map<Coordinates, V>)
    returns (cells: seq<Cell<V>>, ok: bool)
    requires Sound(Found(matches.table, hash), MatchedCoordinate(dim), catalog)
    ensures ok <==> |Found(matches.table, hash)| <= slots
    ensures ok ==> cells == ItemCells(MatchedCoordinate(dim), item, Found(matches.table, hash), catalog)
  {
    hide ItemCells;
    ghost var found := Found(matches.table, hash);
    cells, ok := [], true;
    var elem := matches.Find(hash);
    while elem != []
      invariant Progress(cells, elem, found, hash, MatchedCoordinate(dim), item, catalog) && |cells| <= slots
      decreases |elem|
    {
      ProgressStep(cells, elem, found, hash, MatchedCoordinate(dim), item, catalog);
      if elem[0].hash == hash {
        if |cells| >= slots {
          return cells, false;
        }
        cells := cells + [Cell(item.position + [|cells|], CoordinateOf(elem[0].coords[dim]))];
      }
      elem := elem[1..];
    }
  }

  method WriteTagItem<V>(matches: MatchHash, hash: Hash, item: Item<V>, slots: nat, ghost catalog: map<Coordinates, V>)
    returns (cells: seq<Cell<V>>, ok: bool)
    ensures ok <==> |Found(matches.table, hash)| <= slots
    ensures ok ==> cells == ItemCells(EmptyTag, item, Found(matches.table, hash), catalog)
  {
    hide ItemCells;
    ghost var found := Found(matches.table, hash);
    cells, ok := [], true;
    var elem := matches.Find(hash);
    while elem != []
      invariant Progress(cells, elem, found, hash, EmptyTag, item, catalog) && |cells| <= slots
      decreases |elem|
    {
      ProgressStep(cells, elem, found, hash, EmptyTag, item, catalog);
      if elem[0].hash == hash {
        if |cells| >= slots {
          return cells, false;
        }
        cells := cells + [Cell(item.position + [|cells|], Present)];
      }
      elem := elem[1..];
    }
  }

  // ---------- a whole chunk ----------

  ghost predicate AllSound<V>(t: Table, n: nat, a: Attribute, catalog: map<Coordinates, V>)
    requires n < WORD
  {
    forall k: nat :: k < n ==> Sound(Found(t, k), a, catalog)
  }

  /** The cells of the items before n. */
  ghost function ChunkCells<V>(t: Table, items: seq<Item<V>>, n: nat, a: Attribute, catalog: map<Coordinates, V>): seq<Cell<V>>
    requires n <= |items| < WORD && AllSound(t, n, a, catalog)
  {
    if n == 0 then [] else ChunkCells(t, items, n - 1, a, catalog) + ItemCells(a, items[n - 1], Found(t, n - 1), catalog)
  }

  /** Writes the chunk of one attribute.  It fails exactly when some item has more matches than there
      are collision slots, whichever the attribute. */
  method GetChunk<V>(matches: MatchHash, items: seq<Item<V>>, slots: nat, a: Attribute, catalog: map<Coordinates, V>)
    returns (cells: seq<Cell<V>>, ok: bool)
    requires |items| < WORD && AllSound(matches.table, |items|, a, catalog)
    ensures ok <==> forall k: nat :: k < |items| ==> |Found(matches.table, k)| <= slots
    ensures ok ==> cells == ChunkCells(matches.table, items, |items|, a, catalog)
  {
    hide ItemCells, Found;
    cells := [];
    for itemNo := 0 to |items|
      invariant forall k: nat :: k < itemNo ==> |Found(matches.table, k)| <= slots
      invariant cells == ChunkCells(matches.table, items, itemNo, a, catalog)
    {
      var more;
      assert Sound(Found(matches.table, itemNo), a, catalog);
      match a {
      case PatternAttribute => more, ok := WritePatternItem(matches, itemNo, items[itemNo], slots, catalog);
      case CatalogAttribute => more, ok := WriteCatalogItem(matches, itemNo, items[itemNo], slots, catalog);
      case MatchedCoordinate(dim) => more, ok := WriteCoordinateItem(matches, itemNo, items[itemNo], slots, dim, catalog);
      case EmptyTag => more, ok := WriteTagItem(matches, itemNo, items[itemNo], slots, catalog);
      }
      if !ok {
        return;
      }
      cells := cells + more;
    }
    ok := true;
  }

  /** Where a cell comes from: an item, one of its collision slots, and the match in that slot. */
  datatype Slot = Slot(item: nat, slot: nat, elem: Elem)

  /** The slots of the items before n, independent of the attribute. */
  ghost function ChunkSlots(t: Table, n: nat): seq<Slot>
    requires n < WORD
  {
    if n == 0 then []
    else
      var found := Found(t, n - 1);
      ChunkSlots(t, n - 1) + seq(|found|, k requires 0 <= k < |found| => Slot(n - 1, k, found[k]))
  }

  /** Every attribute writes the same cells: cell i of each comes from slot i of the common list, with
      that slot's position and that slot's match. */
  lemma {:induction false} CellsFollowSlots<V>(t: Table, items: seq<Item<V>>, n: nat, a: Attribute,
                                               catalog: map<Coordinates, V>, i: nat)
    requires n <= |items| < WORD && AllSound(t, n, a, catalog)
    ensures |ChunkCells(t, items, n, a, catalog)| == |ChunkSlots(t, n)|
    ensures i < |ChunkSlots(t, n)| ==>
              var s := ChunkSlots(t, n)[i];
              && s.item < n && s.slot < |Found(t, s.item)| && s.elem == Found(t, s.item)[s.slot]
              && ChunkCells(t, items, n, a, catalog)[i] ==
                 Cell(items[s.item].position + [s.slot], Shown(a, items[s.item], s.elem, catalog))
  {
    if n > 0 {
      hide Found, Shown;
      CellsFollowSlots(t, items, n - 1, a, catalog, i);
      var before := |ChunkSlots(t, n - 1)|;
      var found := Found(t, n - 1);
      assert Sound(found, a, catalog);
      assert |ItemCells(a, items[n - 1], found, catalog)| == |found|;
    }
  }

  /** What stands in the cell of a slot, attribute by attribute: the item's own value, the value of the matched catalog
      position, one of its coordinates, or the mark of a cell that is there. */
  lemma CellsShowMatches<V>(t: Table, items: seq<Item<V>>, n: nat, a: Attribute, catalog: map<Coordinates, V>, i: nat)
    requires n <= |items| < WORD && AllSound(t, n, a, catalog) && i < |ChunkSlots(t, n)|
    ensures i < |ChunkCells(t, items, n, a, catalog)|
    ensures var s, cell := ChunkSlots(t, n)[i], ChunkCells(t, items, n, a, catalog)[i];
      && s.item < n && cell.position == items[s.item].position + [s.slot]
      && (a.PatternAttribute? ==> cell.payload == FromPattern(items[s.item].value))
      && (a.CatalogAttribute? ==>
            s.elem.coords in catalog && cell.payload == FromCatalog(catalog[s.elem.coords]))
      && (a.MatchedCoordinate? ==> a.dim < |s.elem.coords| && cell.payload == CoordinateOf(s.elem.coords[a.dim]))
      && (a.EmptyTag? ==> cell.payload == Present)
  {
    hide Found, ChunkCells, ChunkSlots;
    CellsFollowSlots(t, items, n, a, catalog, i);
    var s := ChunkSlots(t, n)[i];
    assert Sound(Found(t, s.item), a, catalog);
  }

  /** The slots of an item are gap-free: each of 0, 1, ... up to the number of its matches occurs. */
  lemma {:induction false} SlotsAreGapFree(t: Table, n: nat, item: nat, slot: nat) returns (i: nat)
    requires item < n < WORD && slot < |Found(t, item)|
    ensures i < |ChunkSlots(t, n)| && ChunkSlots(t, n)[i] == Slot(item, slot, Found(t, item)[slot])
  {
    hide Found;
    if item == n - 1 {
      i := |ChunkSlots(t, n - 1)| + slot;
    } else {
      i := SlotsAreGapFree(t, n - 1, item, slot);
    }
  }

  lemma {:induction false} FoundInChain(chain: seq<Elem>, hash: Hash, j: nat)
    requires j < |WithHash(chain, hash)|
    ensures WithHash(chain, hash)[j] in chain
  {
    var first := if chain[0].hash == hash then 1 else 0;
    if j >= first {
      FoundInChain(chain[1..], hash, j - first);
    }
  }

  /** Matches that findMatch recorded are sound for every attribute of the catalog chunk. */
  lemma RecordedIsSound<V>(pattern: seq<Coordinates>, catalog: seq<Coordinates>, error: int, d: nat,
                           a: Attribute, values: map<Coordinates, V>, k: nat)
    requires error != 0 && SameDimensions(pattern, d) && SameDimensions(catalog, d) && k < |pattern| < WORD
    requires forall c :: c in catalog ==> c in values
    requires a.MatchedCoordinate? ==> a.dim < d
    ensures Sound(Found(MatchTable(pattern, catalog, error, d, |pattern|), k), a, values)
  {
    var t := MatchTable(pattern, catalog, error, d, |pattern|);
    var found := Found(t, k);
    MatchTableHasDimensions(pattern, catalog, error, d, |pattern|);
    forall j | 0 <= j < |found|
      ensures found[j].coords in values && |found[j].coords| == d
    {
      FoundInChain(t[ChainOf(t, k)], k, j);
      var c := found[j].coords;
      FoundHasHash(t[ChainOf(t, k)], k, j);
      assert Elem(c, k) == found[j];
      MatchesAreNeighbours(pattern, catalog, error, d, |pattern|, k, c);
    }
  }

  function Positions<V>(items: seq<Item<V>>): seq<Coordinates> {
    seq(|items|, k requires 0 <= k < |items| => items[k].position)
  }

  /** Finds the matches of a chunk and writes one attribute of them.  No lookup in the catalog chunk
      fails; the only failure is an item with more matches than collision slots. */
  method MatchChunk<V>(items: seq<Item<V>>, catalog: seq<Coordinates>, values: map<Coordinates, V>, error: int,
                       slots: nat, a: Attribute, ghost d: nat)
    returns (cells: seq<Cell<V>>, ok: bool)
    requires error != 0 && SameDimensions(Positions(items), d) && SameDimensions(catalog, d) && |items| < WORD
    requires forall c :: c in catalog ==> c in values
    requires a.MatchedCoordinate? ==> a.dim < d
    ensures var t := MatchTable(Positions(items), catalog, error, d, |items|);
            && AllSound(t, |items|, a, values)
            && (ok <==> forall k: nat :: k < |items| ==> |Found(t, k)| <= slots)
            && (ok ==> cells == ChunkCells(t, items, |items|, a, values))
  {
    hide MatchTable, ChunkCells, Found;
    var pattern := Positions(items);
    var matches := FillMatches(pattern, catalog, error, d);
    forall k: nat | k < |items| ensures Sound(Found(matches.table, k), a, values) {
      RecordedIsSound(pattern, catalog, error, d, a, values, k);
    }
    cells, ok := GetChunk(matches, items, slots, a, values);
  }
}
