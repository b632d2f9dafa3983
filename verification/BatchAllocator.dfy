/**
 * An allocator that carves blocks of `perBlock` objects out of pages, and keeps the released ones in a list threaded
 * through their own memory.
 */
module BatchAllocator {

  import opened Arithmetic
  import opened ByteText

  /** A block by its page and the index of its first object there. */
  datatype Block = Block(page: nat, offset: nat)

  /** `used` and `end` are indices of objects; the memory of the page has room for `capacity` of them. */
  datatype Page = Page(next: Option<nat>, used: nat, end: nat, capacity: nat)

  /** `links` is the first word of each block, which holds a link of the free list or the data of the block's owner. */
  datatype Heap = Heap(
    pages: seq<Page>, batches: nat, current: nat, freeHead: Option<Block>, links: map<Block, Option<Block>>)

  function NewPage(count: nat, perBlock: nat, next: Option<nat>): Page {
    Page(next, 0, count, perBlock * count)
  }

  predicate Full(page: Page) {
    page.used == page.end
  }

  predicate ChainOk(pages: seq<Page>) {
    forall i {:trigger pages[i]} :: 0 <= i < |pages| && pages[i].next.Some? ==> pages[i].next.value < i
  }

  predicate HeapOk(h: Heap) {
    && ChainOk(h.pages) && h.batches < |h.pages| && h.current < |h.pages|
    && (h.freeHead.Some? ==> h.freeHead.value in h.links)
  }

  /** The first page with room, from p on along the list. */
  function NextWithRoom(pages: seq<Page>, p: Option<nat>): (r: Option<nat>)
    requires ChainOk(pages) && (p.Some? ==> p.value < |pages|)
    ensures r.Some? ==> r.value < |pages| && !Full(pages[r.value])
    decreases if p.Some? then p.value + 1 else 0
  {
    if p.None? || !Full(pages[p.value]) then p else NextWithRoom(pages, pages[p.value].next)
  }

  function WithRoom(h: Heap, perBlock: nat, perPage: nat): (r: Heap)
    requires HeapOk(h)
    ensures HeapOk(r) && r.freeHead == h.freeHead && r.links == h.links
  {
    if !Full(h.pages[h.current]) then h
    else
      var next := NextWithRoom(h.pages, h.pages[h.current].next);
      if next.Some? then h.(current := next.value)
      else
        var page := NewPage(perPage, perBlock, Some(h.batches));
        h.(pages := h.pages + [page], batches := |h.pages|, current := |h.pages|)
  }

  function Carve(h: Heap, perBlock: nat): Heap
    requires HeapOk(h)
  {
    var page := h.pages[h.current];
    h.(pages := h.pages[h.current := page.(used := page.used + perBlock)])
  }

  // ---------- runs

  datatype Op = Allocate | Release(block: Block) | Write(block: Block, word: Option<Block>)

  /** The heap, the blocks its users hold, and the free list from its head on. */
  datatype World = World(heap: Heap, live: set<Block>, free: seq<Block>)

  function Initial(perBlock: nat): World {
    World(Heap([NewPage(0, perBlock, None)], 0, 0, None, map[]), {}, [])
  }

  predicate FreeList(head: Option<Block>, links: map<Block, Option<Block>>, free: seq<Block>)
    decreases |free|
  {
    if free == [] then head.None?
    else head == Some(free[0]) && free[0] in links && FreeList(links[free[0]], links, free[1..])
  }

  predicate Handed(h: Heap, b: Block, perBlock: nat)
    requires perBlock > 0
  {
    b.page < |h.pages| && b.offset % perBlock == 0 && b.offset < h.pages[b.page].used
  }

  /** What holds of every allocator: each block handed out is either held or on the free list, and never both. */
  ghost predicate Valid(w: World, perBlock: nat) {
    && perBlock > 0 && HeapOk(w.heap)
    && FreeList(w.heap.freeHead, w.heap.links, w.free)
    && (forall i, j :: 0 <= i < j < |w.free| ==> w.free[i] != w.free[j])
    && (forall b :: b in w.free ==> b !in w.live)
    && (forall b :: b in w.live || b in w.free <==> Handed(w.heap, b, perBlock))
    && (forall i :: 0 <= i < |w.heap.pages| ==> w.heap.pages[i].used % perBlock == 0)
  }

  predicate Permitted(w: World, op: Op) {
    op.Allocate? || op.block in w.live
  }

  function Step(w: World, op: Op, perBlock: nat, perPage: nat): World
    requires HeapOk(w.heap) && Permitted(w, op)
  {
    match op
    case Allocate =>
      if w.heap.freeHead.Some? then
        var b := w.heap.freeHead.value;
        World(w.heap.(freeHead := w.heap.links[b]), w.live + {b}, if w.free == [] then [] else w.free[1..])
      else
        var h := WithRoom(w.heap, perBlock, perPage);
        World(Carve(h, perBlock), w.live + {Block(h.current, h.pages[h.current].used)}, w.free)
    case Release(b) =>
      World(w.heap.(links := w.heap.links[b := w.heap.freeHead], freeHead := Some(b)), w.live - {b}, [b] + w.free)
    case Write(b, word) =>
      w.(heap := w.heap.(links := w.heap.links[b := word]))
  }

  lemma {:induction false} FreeListKept(
    head: Option<Block>, links: map<Block, Option<Block>>, free: seq<Block>, b: Block, word: Option<Block>)
    requires FreeList(head, links, free) && b !in free
    ensures FreeList(head, links[b := word], free)
    decreases |free|
  {
    if free != [] {
      FreeListKept(links[free[0]], links, free[1..], b, word);
    }
  }

  lemma NewPageFits(perBlock: nat, perPage: nat, next: Option<nat>)
    requires perBlock > 0
    ensures var page := NewPage(perPage, perBlock, next);
      page.next == next && page.used == 0 && page.end == perPage <= page.capacity
  {
    ScaleIsMonotone(perPage, 0, perBlock);
  }

  lemma NextMultiple(a: nat, b: nat, n: nat)
    requires n > 0 && a % n == 0 && b % n == 0
    ensures (a + n) % n == 0
    ensures b < a ==> b + n <= a
    ensures b < a + n <==> b < a || b == a
  {
    var p, q := a / n, b / n;
    assert a == n * p && b == n * q;
    ScaleIsMonotone(n, p, q);
    ScaleIsMonotone(n, q, p);
    assert a + n == n * (p + 1);
    QuotientAndRemainder(n, p + 1, 0);
  }

  lemma CarveKeeps(w: World, perBlock: nat)
    requires Valid(w, perBlock) && w.free == []
    ensures var h := w.heap;
      Valid(World(Carve(h, perBlock), w.live + {Block(h.current, h.pages[h.current].used)}, []), perBlock)
  {
    var h := w.heap;
    var page := h.pages[h.current];
    var b := Block(h.current, page.used);
    var w' := World(Carve(h, perBlock), w.live + {b}, []);
    forall x ensures x in w'.live <==> Handed(w'.heap, x, perBlock) {
      assert x in w.live || x in w.free <==> Handed(h, x, perBlock);
      if x.offset % perBlock == 0 {
        NextMultiple(page.used, x.offset, perBlock);
      }
    }
    NextMultiple(page.used, 0, perBlock);
  }

  lemma WithRoomKeeps(w: World, perBlock: nat, perPage: nat)
    requires Valid(w, perBlock)
    ensures Valid(w.(heap := WithRoom(w.heap, perBlock, perPage)), perBlock)
  {
    hide NextWithRoom, FreeList;
    var h := WithRoom(w.heap, perBlock, perPage);
    forall b ensures Handed(h, b, perBlock) <==> Handed(w.heap, b, perBlock) {
    }
  }

  lemma {:induction false} FreeListEmpty(w: World, perBlock: nat)
    requires Valid(w, perBlock)
    ensures w.heap.freeHead.None? <==> w.free == []
    ensures w.free != [] ==> w.heap.freeHead == Some(w.free[0])
  {
  }

  lemma ReuseKeeps(w: World, perBlock: nat)
    requires Valid(w, perBlock) && w.free != []
    ensures var b := w.free[0];
      b in w.heap.links && Valid(World(w.heap.(freeHead := w.heap.links[b]), w.live + {b}, w.free[1..]), perBlock)
  {
    var b := w.free[0];
    var w' := World(w.heap.(freeHead := w.heap.links[b]), w.live + {b}, w.free[1..]);
    assert w.free == [b] + w'.free;
    assert FreeList(w'.heap.freeHead, w'.heap.links, w'.free);
    forall x ensures x in w'.live || x in w'.free <==> Handed(w'.heap, x, perBlock) {
      assert x in w.live || x in w.free <==> Handed(w.heap, x, perBlock);
    }
  }

  lemma StepKeeps(w: World, op: Op, perBlock: nat, perPage: nat)
    requires Valid(w, perBlock) && Permitted(w, op)
    ensures Valid(Step(w, op, perBlock, perPage), perBlock)
  {
    hide WithRoom, Carve;
    var w' := Step(w, op, perBlock, perPage);
    match op {
      case Allocate =>
        FreeListEmpty(w, perBlock);
        if w.free == [] {
          WithRoomKeeps(w, perBlock, perPage);
          CarveKeeps(w.(heap := WithRoom(w.heap, perBlock, perPage)), perBlock);
        } else {
          ReuseKeeps(w, perBlock);
        }
      case Release(b) =>
        assert w'.free[1..] == w.free;
        FreeListKept(w.heap.freeHead, w.heap.links, w.free, b, w.heap.freeHead);
      case Write(b, word) =>
        FreeListKept(w.heap.freeHead, w.heap.links, w.free, b, word);
    }
  }

  ghost predicate Allowed(w: World, run: seq<Op>, perBlock: nat, perPage: nat)
    decreases |run|
  {
    run != [] ==>
      HeapOk(w.heap) && Permitted(w, run[0]) && Allowed(Step(w, run[0], perBlock, perPage), run[1..], perBlock, perPage)
  }

  ghost function After(w: World, run: seq<Op>, perBlock: nat, perPage: nat): World
    requires Allowed(w, run, perBlock, perPage)
    decreases |run|
  {
    if run == [] then w else After(Step(w, run[0], perBlock, perPage), run[1..], perBlock, perPage)
  }

  lemma {:induction false} RunKeeps(w: World, run: seq<Op>, perBlock: nat, perPage: nat)
    requires Valid(w, perBlock) && Allowed(w, run, perBlock, perPage)
    ensures Valid(After(w, run, perBlock, perPage), perBlock)
    decreases |run|
  {
    hide Valid, Step;
    if run != [] {
      StepKeeps(w, run[0], perBlock, perPage);
      RunKeeps(Step(w, run[0], perBlock, perPage), run[1..], perBlock, perPage);
    }
  }

  predicate Disjoint(a: Block, b: Block, perBlock: nat) {
    a.page != b.page || a.offset + perBlock <= b.offset || b.offset + perBlock <= a.offset
  }

  /**
   * After any run, for any sizes: the blocks held and the free list together are exactly what was handed out, nothing
   * is in both, and no two blocks overlap.
   */
  lemma BlocksAreAccountedFor(run: seq<Op>, perBlock: nat, perPage: nat, a: Block, b: Block)
    requires perBlock > 0 && Allowed(Initial(perBlock), run, perBlock, perPage)
    ensures var w := After(Initial(perBlock), run, perBlock, perPage);
      && (a in w.live || a in w.free <==> Handed(w.heap, a, perBlock))
      && !(a in w.live && a in w.free)
      && (forall i, j :: 0 <= i < j < |w.free| ==> w.free[i] != w.free[j])
      && (Handed(w.heap, a, perBlock) && Handed(w.heap, b, perBlock) && a != b ==> Disjoint(a, b, perBlock))
  {
    RunKeeps(Initial(perBlock), run, perBlock, perPage);
    if a.offset % perBlock == 0 && b.offset % perBlock == 0 {
      NextMultiple(a.offset, b.offset, perBlock);
      NextMultiple(b.offset, a.offset, perBlock);
    }
  }

  /** As long as a released block is left, an allocation hands out the last one released, and carves nothing. */
  lemma ReleasedIsReused(w: World, perBlock: nat, perPage: nat)
    requires Valid(w, perBlock) && w.free != []
    ensures var w' := Step(w, Allocate, perBlock, perPage);
      && w'.heap.pages == w.heap.pages && w'.heap.current == w.heap.current
      && w'.live == w.live + {w.free[0]} && w'.free == w.free[1..]
  {
    FreeListEmpty(w, perBlock);
  }

  /** A release undone by the next allocation. */
  lemma ReleaseThenAllocate(w: World, b: Block, perBlock: nat, perPage: nat)
    requires Valid(w, perBlock) && b in w.live
    ensures var w' := Step(w, Release(b), perBlock, perPage);
      && HeapOk(w'.heap) && w'.free == [b] + w.free && w'.live == w.live - {b}
      && var w'' := Step(w', Allocate, perBlock, perPage);
      && w''.live == w.live && w''.free == w.free
      && w''.heap.pages == w.heap.pages && w''.heap.freeHead == w.heap.freeHead
  {
    var w' := Step(w, Release(b), perBlock, perPage);
    StepKeeps(w, Release(b), perBlock, perPage);
    ReleasedIsReused(w', perBlock, perPage);
    assert w'.free[1..] == w.free;
    assert w.live - {b} + {b} == w.live;
  }

  /** With nothing released, the block is the next one of the page with room: it starts where that page was used up. */
  lemma CarvedIsNext(w: World, perBlock: nat, perPage: nat)
    requires Valid(w, perBlock) && w.free == []
    ensures var h := WithRoom(w.heap, perBlock, perPage);
      var w' := Step(w, Allocate, perBlock, perPage);
      && w'.live == w.live + {Block(h.current, h.pages[h.current].used)} && w'.free == []
      && w'.heap.pages[h.current].used == h.pages[h.current].used + perBlock
  {
    hide WithRoom;
    FreeListEmpty(w, perBlock);
  }

  /** The pages from p on, along the list. */
  function Chain(pages: seq<Page>, p: Option<nat>): (r: seq<nat>)
    requires ChainOk(pages) && (p.Some? ==> p.value < |pages|)
    ensures forall k :: 0 <= k < |r| ==> r[k] < |pages|
    decreases if p.Some? then p.value + 1 else 0
  {
    if p.None? then [] else [p.value] + Chain(pages, pages[p.value].next)
  }

  lemma {:induction false} FirstWithRoom(pages: seq<Page>, p: Option<nat>, k: nat)
    requires ChainOk(pages) && (p.Some? ==> p.value < |pages|)
    requires k <= |Chain(pages, p)| && forall j :: 0 <= j < k ==> Full(pages[Chain(pages, p)[j]])
    ensures k == |Chain(pages, p)| ==> NextWithRoom(pages, p).None?
    ensures k < |Chain(pages, p)| && !Full(pages[Chain(pages, p)[k]]) ==>
            NextWithRoom(pages, p) == Some(Chain(pages, p)[k])
    decreases k
  {
    if k > 0 {
      var next := pages[p.value].next;
      assert Full(pages[Chain(pages, p)[0]]);
      assert forall j :: 0 <= j < k - 1 ==> Chain(pages, next)[j] == Chain(pages, p)[j + 1];
      FirstWithRoom(pages, next, k - 1);
    }
  }

  /** Room is taken in the first page that is not full, from the current one on; a page is added, in front of the list,
      just when all of these are full. */
  lemma RoomIsFirst(h: Heap, perBlock: nat, perPage: nat, k: nat)
    requires HeapOk(h) && k <= |Chain(h.pages, Some(h.current))|
    requires forall j :: 0 <= j < k ==> Full(h.pages[Chain(h.pages, Some(h.current))[j]])
    ensures var chain, r := Chain(h.pages, Some(h.current)), WithRoom(h, perBlock, perPage);
      && (k == |chain| ==>
            && r.current == r.batches == |h.pages|
            && r.pages == h.pages + [Page(Some(h.batches), 0, perPage, perBlock * perPage)])
      && (k < |chain| && !Full(h.pages[chain[k]]) ==> r == h.(current := chain[k]))
  {
    var chain := Chain(h.pages, Some(h.current));
    var next := h.pages[h.current].next;
    if k > 0 {
      assert Full(h.pages[chain[0]]);
      assert forall j :: 0 <= j < k - 1 ==> Chain(h.pages, next)[j] == chain[j + 1];
      FirstWithRoom(h.pages, next, k - 1);
    }
  }

  // ---------- staying inside the pages

  /** The current page is the newest, every other page is full, and no page is filled past its end. */
  ghost predicate Contained(w: World, perBlock: nat) {
    && perBlock > 0 && HeapOk(w.heap)
    && w.heap.batches == w.heap.current == |w.heap.pages| - 1
    && forall i {:trigger w.heap.pages[i]} :: 0 <= i < |w.heap.pages| ==>
         var page := w.heap.pages[i];
         && page.used <= page.end <= page.capacity
         && page.used % perBlock == 0 && page.end % perBlock == 0
         && (i < w.heap.current ==> Full(page))
  }

  lemma {:induction false} NoRoomBefore(pages: seq<Page>, p: Option<nat>)
    requires ChainOk(pages) && (p.Some? ==> p.value < |pages| && forall i :: 0 <= i <= p.value ==> Full(pages[i]))
    ensures NextWithRoom(pages, p).None?
    decreases if p.Some? then p.value + 1 else 0
  {
    if p.Some? {
      NoRoomBefore(pages, pages[p.value].next);
    }
  }

  lemma WithRoomContains(w: World, perBlock: nat, perPage: nat)
    requires Contained(w, perBlock) && perPage > 0 && perPage % perBlock == 0
    ensures var h := WithRoom(w.heap, perBlock, perPage);
      Contained(w.(heap := h), perBlock) && !Full(h.pages[h.current])
  {
    hide NextWithRoom, NewPage;
    var h := w.heap;
    if Full(h.pages[h.current]) {
      NoRoomBefore(h.pages, h.pages[h.current].next);
      NewPageFits(perBlock, perPage, Some(h.batches));
    }
  }

  lemma CarveContains(w: World, perBlock: nat)
    requires Contained(w, perBlock) && !Full(w.heap.pages[w.heap.current])
    ensures Contained(w.(heap := Carve(w.heap, perBlock)), perBlock)
  {
    var page := w.heap.pages[w.heap.current];
    NextMultiple(page.end, page.used, perBlock);
    NextMultiple(page.used, page.end, perBlock);
  }

  lemma StepContains(w: World, op: Op, perBlock: nat, perPage: nat)
    requires Valid(w, perBlock) && Contained(w, perBlock) && Permitted(w, op)
    requires perPage > 0 && perPage % perBlock == 0
    ensures Contained(Step(w, op, perBlock, perPage), perBlock)
  {
    hide WithRoom, Carve;
    StepKeeps(w, op, perBlock, perPage);
    if op.Allocate? && w.free == [] {
      WithRoomContains(w, perBlock, perPage);
      CarveContains(w.(heap := WithRoom(w.heap, perBlock, perPage)), perBlock);
    }
  }

  lemma {:induction false} RunContains(w: World, run: seq<Op>, perBlock: nat, perPage: nat)
    requires Valid(w, perBlock) && Contained(w, perBlock) && Allowed(w, run, perBlock, perPage)
    requires perPage > 0 && perPage % perBlock == 0
    ensures Contained(After(w, run, perBlock, perPage), perBlock)
    decreases |run|
  {
    hide Valid, Contained, Step;
    if run != [] {
      StepKeeps(w, run[0], perBlock, perPage);
      StepContains(w, run[0], perBlock, perPage);
      RunContains(Step(w, run[0], perBlock, perPage), run[1..], perBlock, perPage);
    }
  }

  /** Every block in use lies within the memory of its page, and only the current page has room left. */
  ghost predicate Inside(w: World, perBlock: nat) {
    && (forall b :: b in w.live ==> b.page < |w.heap.pages| && b.offset + perBlock <= w.heap.pages[b.page].capacity)
    && (forall i :: 0 <= i < |w.heap.pages| && i != w.heap.current ==> Full(w.heap.pages[i]))
  }

  lemma ContainedIsInside(w: World, perBlock: nat)
    requires Valid(w, perBlock) && Contained(w, perBlock)
    ensures Inside(w, perBlock)
  {
    forall b | b in w.live ensures b.page < |w.heap.pages| && b.offset + perBlock <= w.heap.pages[b.page].capacity {
      assert Handed(w.heap, b, perBlock);
      NextMultiple(w.heap.pages[b.page].used, b.offset, perBlock);
    }
  }

  // ---------- sizes that do not divide

  function Allocations(k: nat): seq<Op> {
    seq(k, _ => Allocate)
  }

  /** After k allocations from one page whose end is never met exactly. */
  ghost predicate Runaway(w: World, k: nat, perBlock: nat, perPage: nat) {
    && HeapOk(w.heap) && w.heap.freeHead.None? && w.free == []
    && |w.heap.pages| == 2 && w.heap.current == 1
    && w.heap.pages[1].used == perBlock * k && w.heap.pages[1].end == perPage
    && w.heap.pages[1].capacity == perBlock * perPage
    && (k > 0 ==> Block(1, perBlock * (k - 1)) in w.live)
  }

  lemma RunawayStep(w: World, k: nat, perBlock: nat, perPage: nat)
    requires perBlock > 0 && perPage % perBlock != 0 && Runaway(w, k, perBlock, perPage)
    ensures Runaway(Step(w, Allocate, perBlock, perPage), k + 1, perBlock, perPage)
  {
    if Full(w.heap.pages[1]) {
      QuotientAndRemainder(perBlock, k, 0);
      assert false;
    }
    assert perBlock * (k + 1) == perBlock * k + perBlock;
  }

  lemma {:induction false} RunawayRun(w: World, k: nat, m: nat, perBlock: nat, perPage: nat)
    requires perBlock > 0 && perPage % perBlock != 0 && Runaway(w, k, perBlock, perPage)
    ensures Allowed(w, Allocations(m), perBlock, perPage)
    ensures Runaway(After(w, Allocations(m), perBlock, perPage), k + m, perBlock, perPage)
    decreases m
  {
    hide Runaway, Step, HeapOk;
    if m > 0 {
      assert HeapOk(w.heap) by { RunawayIsOk(w, k, perBlock, perPage); }
      RunawayStep(w, k, perBlock, perPage);
      RunawayRun(Step(w, Allocate, perBlock, perPage), k + 1, m - 1, perBlock, perPage);
      assert Allocations(m)[1..] == Allocations(m - 1);
    }
  }

  lemma RunawayIsOk(w: World, k: nat, perBlock: nat, perPage: nat)
    requires Runaway(w, k, perBlock, perPage)
    ensures HeapOk(w.heap)
  {
  }

  lemma FirstAllocation(perBlock: nat, perPage: nat)
    requires perBlock > 0
    ensures Runaway(Step(Initial(perBlock), Allocate, perBlock, perPage), 1, perBlock, perPage)
  {
    var h := Initial(perBlock).heap;
    assert NextWithRoom(h.pages, h.pages[0].next).None?;
  }

  /** One allocation more than a page has objects leaves the page. */
  lemma RunawayLeavesPage(perBlock: nat, perPage: nat)
    requires perBlock > 0 && perPage % perBlock != 0
    ensures Allowed(Initial(perBlock), Allocations(perPage + 1), perBlock, perPage)
    ensures !Inside(After(Initial(perBlock), Allocations(perPage + 1), perBlock, perPage), perBlock)
  {
    hide Step;
    var w1 := Step(Initial(perBlock), Allocate, perBlock, perPage);
    FirstAllocation(perBlock, perPage);
    RunawayRun(w1, 1, perPage, perBlock, perPage);
    assert Allocations(perPage + 1)[1..] == Allocations(perPage);
  }

  ghost predicate AlwaysInside(perBlock: nat, perPage: nat) {
    forall run :: Allowed(Initial(perBlock), run, perBlock, perPage) ==>
      Inside(After(Initial(perBlock), run, perBlock, perPage), perBlock)
  }

  /** Blocks stay inside their pages in every run if and only if a page is a whole number of blocks. */
  lemma AlwaysInsideIffDivides(perBlock: nat, perPage: nat)
    requires perBlock > 0 && perPage >= 16
    ensures AlwaysInside(perBlock, perPage) <==> perPage % perBlock == 0
  {
    hide Inside, Step;
    var start := Initial(perBlock);
    if perPage % perBlock == 0 {
      forall run | Allowed(start, run, perBlock, perPage) ensures Inside(After(start, run, perBlock, perPage), perBlock) {
        RunKeeps(start, run, perBlock, perPage);
        RunContains(start, run, perBlock, perPage);
        ContainedIsInside(After(start, run, perBlock, perPage), perBlock);
      }
    } else {
      RunawayLeavesPage(perBlock, perPage);
    }
  }

  // ---------- the allocator itself

  class Allocator {
    const objectPerAllocation: nat
    const objectsPerPage: nat
    var pages: seq<Page>
    var batches: nat
    var currentBatch: nat
    var freeHead: Option<Block>
    var links: map<Block, Option<Block>>
    ghost var live: set<Block>
    ghost var free: seq<Block>

    ghost function State(): World
      reads this
    {
      World(Heap(pages, batches, currentBatch, freeHead, links), live, free)
    }

    constructor (objectPerAllocation: nat, objectsPerPage: nat)
      requires objectPerAllocation > 0 && objectsPerPage >= 16
      ensures Valid(State(), objectPerAllocation) && State() == Initial(objectPerAllocation)
      ensures this.objectPerAllocation == objectPerAllocation && this.objectsPerPage == objectsPerPage
    {
      this.objectPerAllocation := objectPerAllocation;
      this.objectsPerPage := objectsPerPage;
      pages := [NewPage(0, objectPerAllocation, None)];
      batches, currentBatch := 0, 0;
      freeHead, links := None, map[];
      live, free := {}, [];
    }

    /** A block nobody held before: the head of the free list, or else the next part of a page. */
    method Allocate() returns (block: Block)
      requires Valid(State(), objectPerAllocation)
      modifies this
      ensures State() == Step(old(State()), Op.Allocate, objectPerAllocation, objectsPerPage)
      ensures Valid(State(), objectPerAllocation)
      ensures block !in old(live) && live == old(live) + {block}
    {
      FreeListEmpty(State(), objectPerAllocation);
      StepKeeps(State(), Op.Allocate, objectPerAllocation, objectsPerPage);
      if freeHead.Some? {
        block := freeHead.value;
        freeHead := links[block];
        live, free := live + {block}, free[1..];
      } else {
        if Full(pages[currentBatch]) {
          FindPage();
        }
        block := Block(currentBatch, pages[currentBatch].used);
        var page := pages[currentBatch];
        pages := pages[currentBatch := page.(used := page.used + objectPerAllocation)];
        live := live + {block};
        assert !Handed(Heap(pages, batches, currentBatch, freeHead, links).(pages := pages[currentBatch := page]),
                       block, objectPerAllocation);
      }
    }

    /** Looks along the list for a page with room, and puts a new one at its head if there is none. */
    method FindPage()
      requires HeapOk(State().heap) && Full(pages[currentBatch])
      modifies this`pages, this`batches, this`currentBatch
      ensures State().heap == WithRoom(old(State().heap), objectPerAllocation, objectsPerPage)
    {
      var batch: Option<nat> := pages[currentBatch].next;
      while batch.Some? && Full(pages[batch.value])
        invariant batch.Some? ==> batch.value < |pages|
        invariant NextWithRoom(pages, pages[currentBatch].next) == NextWithRoom(pages, batch)
        decreases if batch.Some? then batch.value + 1 else 0
      {
        batch := pages[batch.value].next;
      }
      if batch.Some? {
        currentBatch := batch.value;
      } else {
        currentBatch := |pages|;
        pages := pages + [NewPage(objectsPerPage, objectPerAllocation, Some(batches))];
        batches := currentBatch;
      }
    }

    method Release(released: Block)
      requires Valid(State(), objectPerAllocation) && released in live
      modifies this
      ensures State() == Step(old(State()), Op.Release(released), objectPerAllocation, objectsPerPage)
      ensures Valid(State(), objectPerAllocation)
    {
      StepKeeps(State(), Op.Release(released), objectPerAllocation, objectsPerPage);
      links := links[released := freeHead];
      freeHead := Some(released);
      live, free := live - {released}, [released] + free;
    }
  }
}
