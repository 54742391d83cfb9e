/**
  freestanding/kmem.c: the allocator as it runs, over one region of memory. `head` is head_block
  (0 is NULL) and `mem` the words of the region. The ghost `heap` is the block list the memory holds.
 */
module KMem {
  import opened HeapModel
  import opened HeapRuns
  import opened HeapMemory

  lemma TakeCorrect(m: Mem, h: Heap, lo: nat, hi: nat, i: nat, req: nat)
    requires Shape(h, lo, hi) && Rep(m, h) && i < |h| && req >= PTR && req % 8 == 0 && Fits(h[i], req)
    ensures Shape(Take(h, i, req), lo, hi)
    ensures Rep(Apply(m, TakeStores(h, i, req)), Take(h, i, req))
    ensures PayloadsKept(m, Apply(m, TakeStores(h, i, req)), h)
    ensures |Take(h, i, req)| > 0
  {
    TakeRep(m, h, lo, hi, i, req);
    TakeKeepsShape(h, lo, hi, i, req);
    TakePayloads(m, h, lo, hi, i, req);
  }

  lemma PayloadsSame(m: Mem, h: Heap)
    ensures PayloadsKept(m, m, h)
  {
  }

  lemma EmptyMalloc(n: nat)
    requires Required(n) != 0
    ensures Malloc([], n) == ([], 0)
  {
  }

  lemma AlignedTrivial(h: Heap, size: nat, al: nat)
    ensures PowerOfTwo(al) ==> al > 0
    ensures AlignedInRange(size, al) && (size == 0 || !PowerOfTwo(al)) ==> AlignedAlloc(h, size, al) == (h, 0)
  {
  }

  /** In range, the 64-bit sum is the request, and a refusal of kmalloc is a refusal. */
  lemma AlignedAgrees(h: Heap, lo: nat, hi: nat, size: nat, al: nat)
    requires (h == [] || Shape(h, lo, hi)) && size > 0 && PowerOfTwo(al)
    ensures AlignedRequest(size, al) < WORD_MOD
    ensures AlignedInRange(size, al) ==>
      var n := AlignedNeed(size, al);
      && AlignedRequest(size, al) == n > 0 && Required(n) != 0
      && (Malloc(h, n).1 == 0 ==> Malloc(h, n).0 == h && AlignedAlloc(h, size, al) == (h, 0))
  {
    if AlignedInRange(size, al) {
      AlignedSums(size, al);
      if h == [] { EmptyMalloc(AlignedNeed(size, al)); } else { MallocCorrect(h, lo, hi, AlignedNeed(size, al)); }
    }
  }

  /** kmalloc leaves the address of the block in the word below the pointer. */
  lemma BackPointerStored(m: Mem, h: Heap, i: nat, req: nat)
    requires i < |h|
    ensures Rd(Apply(m, TakeStores(h, i, req)), h[i].addr + HDR) == h[i].addr
  {
    var s := TakeStores(h, i, req);
    ReadHit(m, s, |s| - 1);
  }

  /** In range, the last store of kmalloc_aligned completes HeapModel.AlignedAlloc. */
  lemma AlignedDone(m: Mem, m1: Mem, h: Heap, lo: nat, hi: nat, size: nat, al: nat)
    requires Shape(h, lo, hi) && AlignedInRange(size, al) && size > 0 && PowerOfTwo(al)
    requires Malloc(h, AlignedNeed(size, al)).1 != 0
    requires Rep(m1, Malloc(h, AlignedNeed(size, al)).0) && PayloadsKept(m, m1, h)
    ensures var raw := Malloc(h, AlignedNeed(size, al)).1;
      var (h', p) := AlignedAlloc(h, size, al);
      var m' := m1[(p + WORD_MOD - PTR) % WORD_MOD := h[FirstFit(h, Required(AlignedNeed(size, al)))].addr];
      && p == AlignedPlace(raw, al) && p > 0 && |h'| > 0
      && Shape(h', lo, hi) && Rep(m', h') && PayloadsKept(m, m', h)
  {
    hide Shape, Rep, Malloc, PayloadsKept, AlignedAlloc, AlignedInRange, AlignedNeed, PowerOfTwo, RoundUp, Move, Align8;
    AlignedTrivial(h, size, al);
    AlignedPlan(h, lo, hi, size, al);
    MallocLive(h, lo, hi, AlignedNeed(size, al));
    var (h1, raw) := Malloc(h, AlignedNeed(size, al));
    SlideCorrect(m1, h1, lo, hi, raw, al, Align8(size));
    RoomIsWhole(size);
    var q := RoundUp(raw + PTR, al);
    Unwrapped(q);
    var k := FirstFit(h, Required(AlignedNeed(size, al)));
    var m2 := m1[q - PTR := h[k].addr];
    assert Owner(h1, raw) < |h1|;
    SlidePayloads(h, m, lo, hi, AlignedNeed(size, al), m1, m2);
  }

  lemma Unwrapped(q: nat)
    requires PTR <= q < WORD_MOD
    ensures q % WORD_MOD == q && (q + WORD_MOD - PTR) % WORD_MOD == q - PTR
  {
  }

  /** Both halves of kmalloc_aligned together keep every payload that was live before. */
  lemma SlidePayloads(h: Heap, m: Mem, lo: nat, hi: nat, n: nat, m1: Mem, m2: Mem)
    requires Shape(h, lo, hi) && n < WORD_MOD && Required(n) != 0 && Malloc(h, n).1 != 0
    requires PayloadsKept(m, m1, h)
    requires var i := FirstFit(h, Required(n));
      forall a: nat :: !(h[i].addr <= a < h[i].End()) ==> Rd(m2, a) == Rd(m1, a)
    ensures PayloadsKept(m, m2, h)
  {
    var i := FirstFit(h, Required(n));
    forall j, a: nat | 0 <= j < |h| && InPayload(h[j], a) ensures !(h[i].addr <= a < h[i].End()) {
      assert GoodBlock(h[j]);
      if j != i { Apart(h, lo, hi, i, j); }
    }
  }

  lemma AlignedPlan(h: Heap, lo: nat, hi: nat, size: nat, al: nat)
    requires Shape(h, lo, hi) && AlignedInRange(size, al) && size > 0 && PowerOfTwo(al)
    requires Malloc(h, AlignedNeed(size, al)).1 != 0
    ensures var (h1, raw) := Malloc(h, AlignedNeed(size, al));
      && FirstFit(h, Required(AlignedNeed(size, al))) < |h|
      && raw == h[FirstFit(h, Required(AlignedNeed(size, al)))].addr + HDR + PTR
      && Live(h1, raw) && Align8(size) % 8 == 0 && Align8(size) + al + PTR <= h1[Owner(h1, raw)].use.room
      && h1[Owner(h1, raw)].addr == h[FirstFit(h, Required(AlignedNeed(size, al)))].addr
      && h1[Owner(h1, raw)].End() <= h[FirstFit(h, Required(AlignedNeed(size, al)))].End()
      && AlignedAlloc(h, size, al) == (Move(h1, raw, RoundUp(raw + PTR, al), Align8(size)), RoundUp(raw + PTR, al))
  {
    MallocLive(h, lo, hi, AlignedNeed(size, al));
    AlignedMoves(h, size, al);
    RoomIsWhole(size);
    OwnerOfNew(h, lo, hi, AlignedNeed(size, al));
  }

  lemma OwnerOfNew(h: Heap, lo: nat, hi: nat, n: nat)
    requires Shape(h, lo, hi) && n < WORD_MOD && Required(n) != 0 && Malloc(h, n).1 != 0
    ensures var (h1, raw) := Malloc(h, n);
      var i := FirstFit(h, Required(n));
      && Live(h1, raw) && Owner(h1, raw) == i && h1[i].addr == h[i].addr && h1[i].End() <= h[i].End()
  {
    RequestArithmetic(n);
    var i := FirstFit(h, Required(n));
    TakeKeepsShape(h, lo, hi, i, Required(n));
    OwnerIs(Malloc(h, n).0, lo, hi, i);
  }

  lemma SlideBlock(h: Heap, lo: nat, hi: nat, i: nat, al: nat, room: nat)
    requires Shape(h, lo, hi) && i < |h| && h[i].use.Used? && PowerOfTwo(al) && room % 8 == 0
    requires room + al + PTR <= h[i].use.room
    ensures al > 0 && Tiles(h, lo, hi)
    ensures var q := RoundUp(h[i].use.ptr + PTR, al);
      h[i].use.ptr < q && h[i].addr + HDR + PTR <= q && q + room <= h[i].End() <= WORD_MOD
  {
    var b := h[i];
    Inside(h, lo, hi, i);
    assert GoodBlock(b);
    hide Shape, Tiles, PowerOfTwo, RoundUp;
    RoundUpIs(b.use.ptr + PTR, al);
    MovedGood(b, al, room);
  }

  lemma MoveIs(h: Heap, p: nat, q: nat, room: nat)
    requires Live(h, p)
    ensures var i := Owner(h, p);
      Move(h, p, q, room) == h[i := Block(h[i].addr, h[i].size, Used(q, room))] && |h| > 0
  {
  }

  lemma SlideCorrect(m: Mem, h: Heap, lo: nat, hi: nat, raw: nat, al: nat, room: nat)
    requires Shape(h, lo, hi) && Rep(m, h) && Live(h, raw) && PowerOfTwo(al) && room % 8 == 0
    requires room + al + PTR <= h[Owner(h, raw)].use.room
    ensures al > 0
    ensures var i := Owner(h, raw);
      var q := RoundUp(raw + PTR, al);
      && raw < q && h[i].addr + HDR + PTR <= q && q + room <= h[i].End() <= WORD_MOD && |Move(h, raw, q, room)| > 0
      && Shape(Move(h, raw, q, room), lo, hi) && Rep(m[q - PTR := h[i].addr], Move(h, raw, q, room))
  {
    hide *;
    var i := Owner(h, raw);
    SlideBlock(h, lo, hi, i, al, room);
    var q := RoundUp(raw + PTR, al);
    MoveIs(h, raw, q, room);
    MoveCorrect(h, lo, hi, raw, al, room);
    MovedRep(m, h, lo, hi, i, q, room);
  }

  lemma MovedRep(m: Mem, h: Heap, lo: nat, hi: nat, i: nat, q: nat, room: nat)
    requires Tiles(h, lo, hi) && Rep(m, h) && i < |h| && h[i].use.Used?
    requires h[i].addr + HDR + PTR <= q && q <= h[i].End()
    ensures Rep(m[q - PTR := h[i].addr], h[i := Block(h[i].addr, h[i].size, Used(q, room))])
  {
    hide Tiles, Rep;
    MoveRep(m, h, lo, hi, i, q, room);
    ApplyOne(m, [], Store(q - PTR, h[i].addr));
    assert [] + [Store(q - PTR, h[i].addr)] == [Store(q - PTR, h[i].addr)];
  }

  lemma BlockOf(h: Heap, lo: nat, hi: nat, i: nat)
    requires Shape(h, lo, hi) && i < |h|
    ensures Tiles(h, lo, hi) && GoodBlock(h[i])
  {
  }

  lemma WordAligned(b: Block, offset: nat)
    requires GoodBlock(b) && b.use.Used? && offset % 8 == 0
    ensures (b.use.ptr + offset) % 8 == 0
  {
  }

  lemma ClientWriteRep(m: Mem, h: Heap, lo: nat, hi: nat, ptr: nat, offset: nat, v: nat)
    requires Shape(h, lo, hi) && Rep(m, h) && Live(h, ptr) && offset % 8 == 0 && offset < h[Owner(h, ptr)].use.room
    ensures Rep(m[ptr + offset := v], h)
  {
    var i := Owner(h, ptr);
    BlockOf(h, lo, hi, i);
    hide Shape, Tiles, Rep, GoodBlock, Live;
    WordAligned(h[i], offset);
    PayloadWriteRep(m, h, lo, hi, i, ptr + offset, v);
  }

  /** What the walk code relies on at block i: the header fields, and NULL exactly at the ends. */
  ghost predicate Linked(m: Mem, h: Heap, i: nat)
    requires i < |h|
  {
    && Header(m, h, i) && h[i].addr != 0
    && (i + 1 < |h| ==> h[i].addr + HDR <= h[i + 1].addr)
    && (i > 0 ==> 0 < h[i - 1].addr && h[i - 1].addr + HDR <= h[i].addr)
  }

  lemma Links(m: Mem, h: Heap, lo: nat, hi: nat, i: nat)
    requires Tiles(h, lo, hi) && lo > 0 && Rep(m, h) && i < |h|
    ensures Linked(m, h, i)
    ensures i + 1 < |h| ==> Header(m, h, i + 1)
    ensures i > 0 ==> Header(m, h, i - 1)
  {
    Inside(h, lo, hi, i);
    if i > 0 { Inside(h, lo, hi, i - 1); Ordered(h, lo, hi, i - 1, i); }
    if i + 1 < |h| { Ordered(h, lo, hi, i, i + 1); }
  }

  lemma LinksShape(m: Mem, h: Heap, lo: nat, hi: nat, i: nat)
    requires Shape(h, lo, hi) && Rep(m, h) && i < |h|
    ensures Linked(m, h, i)
  {
    Links(m, h, lo, hi, i);
  }

  lemma EmptyLog(m: Mem)
    ensures Apply(m, []) == m
  {
  }

  /** kfree's test on its successor reads the list correctly. */
  lemma ForwardPlan(m: Mem, h: Heap, lo: nat, hi: nat, i: nat)
    requires Shape(h, lo, hi) && i < |h| && Rep(m, MarkedFree(h, i))
    ensures var h1 := MarkedFree(h, i);
      var next := Rd(m, h[i].addr + NEXT);
      && Tiles(h1, lo, hi) && Linked(m, h1, i) && (i + 1 < |h| ==> Linked(m, h1, i + 1))
      && ((next != 0 && Rd(m, next + FREE) != 0) <==> (i + 1 < |h| && h[i + 1].use.Free?))
      && ForwardStores(h, i) == (if i + 1 < |h| && h[i + 1].use.Free? then AbsorbStores(h1, i) else [])
    ensures Rep(Apply(m, ForwardStores(h, i)), FreedForward(h, i))
  {
    MarkFree(h, lo, hi, i);
    ForwardRep(m, h, lo, hi, i);
    assert lo > 0;
    hide Shape, Tiles, Coalesced, Rep, FreedForward, Apply;
    Links(m, MarkedFree(h, i), lo, hi, i);
    if i + 1 < |h| { Links(m, MarkedFree(h, i), lo, hi, i + 1); }
  }

  /** kfree's test on its predecessor reads the list correctly. */
  lemma BackwardPlan(m: Mem, h: Heap, lo: nat, hi: nat, i: nat)
    requires Shape(h, lo, hi) && i < |h| && Rep(m, FreedForward(h, i))
    ensures var h2 := FreedForward(h, i);
      var prev := Rd(m, h[i].addr + PREV);
      && i < |h2| && h2[i].addr == h[i].addr && Linked(m, h2, i) && (i > 0 ==> Linked(m, h2, i - 1))
      && ((prev != 0 && Rd(m, prev + FREE) != 0) <==> (i > 0 && h2[i - 1].use.Free?))
  {
    var h2 := FreedForward(h, i);
    FreedForwardTiles(h, lo, hi, i);
    FreedForwardCoalesced(h, i);
    assert h2[i].addr == h[i].addr && lo > 0;
    hide Shape, Tiles, Coalesced, Rep, FreedForward;
    Links(m, h2, lo, hi, i);
    if i > 0 { Links(m, h2, lo, hi, i - 1); }
  }

  lemma BackPointer(m: Mem, h: Heap, lo: nat, hi: nat, i: nat)
    requires Tiles(h, lo, hi) && lo > 0 && Rep(m, h) && i < |h| && h[i].use.Used?
    ensures h[i].use.ptr >= PTR && Rd(m, h[i].use.ptr - PTR) == h[i].addr != 0
  {
    assert Header(m, h, i) && GoodBlock(h[i]);
    Inside(h, lo, hi, i);
  }

  lemma FreeCorrect(m: Mem, h: Heap, lo: nat, hi: nat, i: nat)
    requires Shape(h, lo, hi) && Rep(m, h) && i < |h|
    ensures Shape(Release(h, i), lo, hi)
    ensures Rep(Apply(m, FreeStores(h, i)), Release(h, i))
    ensures PayloadsKept(m, Apply(m, FreeStores(h, i)), h)
  {
    FreeRep(m, h, lo, hi, i);
    FreePayloads(m, h, lo, hi, i);
    ReleaseKeepsShape(h, lo, hi, i);
  }

  lemma KfreeNull(h: Heap)
    ensures Kfree(h, 0) == h
  {
  }

  /** What kfree of a live pointer finds below it, and what its stores make of the heap. */
  lemma FreePlan(m: Mem, h: Heap, lo: nat, hi: nat, p: nat)
    requires (h == [] || (Shape(h, lo, hi) && Rep(m, h))) && p != 0 && Live(h, p)
    ensures var i := Owner(h, p);
      && p >= PTR && Rd(m, p - PTR) == h[i].addr != 0
      && Kfree(h, p) == Release(h, i) && |Release(h, i)| > 0 && Shape(Release(h, i), lo, hi)
      && Rep(Apply(m, FreeStores(h, i)), Release(h, i)) && PayloadsKept(m, Apply(m, FreeStores(h, i)), h)
  {
    var i := Owner(h, p);
    assert Tiles(h, lo, hi) && lo > 0;
    BackPointer(m, h, lo, hi, i);
    FreeCorrect(m, h, lo, hi, i);
    hide Rep, FreeStores, PayloadsKept, Apply;
  }

  // ---- the wrap-around window --------------------------------------------------------------------

  /** Any heap the memory could hold agrees with h on the blocks before the one stored into. */
  lemma {:induction false} SamePrefix(m: Mem, s: seq<Store>, h: Heap, g: Heap, lo: nat, hi: nat, i: nat, k: nat)
    requires Tiles(h, lo, hi) && Rep(m, h) && k <= i < |h| && Tiles(g, lo, hi) && Rep(Apply(m, s), g)
    requires forall l :: 0 <= l < |s| ==>
      h[i].addr <= s[l].at < h[i].End() || (i + 1 < |h| && s[l].at == h[i + 1].addr + PREV)
    ensures k < |g| && g[k].addr == h[k].addr
    decreases k
  {
    if k == 0 {
    } else {
      var j := k - 1;
      SamePrefix(m, s, h, g, lo, hi, i, j);
      WordsMissed(m, s, h, lo, hi, j, i);
      assert WordOf(h[j], h[j].addr);
      assert Header(m, h, j) && Header(Apply(m, s), g, j);
      Inside(h, lo, hi, k);
      assert g[j].End() == h[k].addr < hi;
    }
  }

  lemma SizeWord(m: Mem, h: Heap, i: nat)
    requires i < |h| && Header(m, h, i) && GoodBlock(h[i])
    ensures Rd(m, h[i].addr) >= PTR
  {
  }

  lemma WrapBreaks(m: Mem, h: Heap, lo: nat, hi: nat, i: nat, g: Heap)
    requires Tiles(h, lo, hi) && Rep(m, h) && i < |h| && Splits(h[i], 0)
    ensures !(Tiles(g, lo, hi) && Rep(Apply(m, TakeStores(h, i, 0)), g))
  {
    var s := TakeStores(h, i, 0);
    if Tiles(g, lo, hi) && Rep(Apply(m, s), g) {
      TakeStoresRange(h, lo, hi, i, 0);
      SamePrefix(m, s, h, g, lo, hi, i, i);
      var d := if i + 1 < |h| then 1 else 0;
      assert s[5 + d] == Store(h[i].addr, 0);
      SizeWord(Apply(m, s), g, i);
      ReadHit(m, s, 5 + d);
      assert false;
    }
  }

  /**
    A request of 2^64 - 15 to 2^64 - 8 bytes makes required_space wrap to 0. Then the memory still holds
    a well-shaped heap exactly when the first free block is too small to be split.
   */
  lemma WrapWindow(m: Mem, h: Heap, lo: nat, hi: nat, size: nat)
    requires Shape(h, lo, hi) && Rep(m, h) && 0 < size < WORD_MOD && Required(size) == 0 && FirstFit(h, 0) < |h|
    ensures WORD_MOD - 16 < size <= WORD_MOD - 8
    ensures var i := FirstFit(h, 0);
      (exists g :: Shape(g, lo, hi) && Rep(Apply(m, TakeStores(h, i, 0)), g)) <==> h[i].size < HDR + SPARE
  {
    RequestArithmetic(size);
    var i := FirstFit(h, 0);
    if h[i].size < HDR + SPARE {
      assert GoodBlock(h[i]);
      assert TakeStores(h, i, 0) == TakeStores(h, i, PTR);
      TakeCorrect(m, h, lo, hi, i, PTR);
    } else {
      forall g ensures !(Tiles(g, lo, hi) && Rep(Apply(m, TakeStores(h, i, 0)), g)) { WrapBreaks(m, h, lo, hi, i, g); }
    }
  }

  /** What a region must be for the blocks in it to have 64-bit addresses that are multiples of 8. */
  predicate RegionInRange(start: nat, size: nat) {
    start % 8 == 0 && start + Align8(size) <= WORD_MOD && Align8(size) < MAX_REGION
  }

  lemma StillAligned(size: nat)
    requires size >= HDR
    ensures Align8(size - HDR) == Align8(size) - HDR && Align8(size) >= size && Align8(size) % 8 == 0
    ensures Align8(size) <= size <==> size % 8 == 0
  {
  }

  /** One free header over a whole region. */
  lemma FreshRep(m: Mem, lo: nat, hi: nat)
    requires GoodRegion(lo, hi) && Rd(m, lo) == hi - lo - HDR
    requires Rd(m, lo + FREE) == 1 && Rd(m, lo + NEXT) == 0 && Rd(m, lo + PREV) == 0
    ensures Shape(Fresh(lo, hi), lo, hi) && Rep(m, Fresh(lo, hi))
  {
    assert Header(m, Fresh(lo, hi), 0);
  }

  /** A request of 2^64 - 8 bytes destroys a fresh heap of at least 96 bytes. */
  lemma WrapDestroysFresh(m: Mem, lo: nat, hi: nat)
    requires GoodRegion(lo, hi) && hi - lo >= HDR + HDR + SPARE && Rep(m, Fresh(lo, hi))
    ensures Required(WORD_MOD - 8) == 0 && FirstFit(Fresh(lo, hi), 0) == 0
    ensures !exists g :: Shape(g, lo, hi) && Rep(Apply(m, TakeStores(Fresh(lo, hi), 0, 0)), g)
  {
    assert Required(WORD_MOD - 8) == 0;
    FreshFits(lo, hi, 0);
    hide Shape, Rep, FirstFit, Required, Apply, TakeStores;
    WrapWindow(m, Fresh(lo, hi), lo, hi, WORD_MOD - 8);
  }

  class Kmem {
    var head: nat
    var total: nat
    var mem: Mem
    ghost var heap: Heap
    ghost var lo: nat
    ghost var hi: nat

    ghost predicate Valid()
      reads this
    {
      if head == 0 then heap == [] else
        && head == lo && hi == lo + Align8(total)
        && Shape(heap, lo, hi) && Rep(mem, heap)
    }

    constructor ()
      ensures Valid() && heap == []
    {
      head, total, mem, heap := 0, 0, map[], [];
    }

    /**
      kmem_init. A region that is too small leaves the allocator as it was. Otherwise one header is written; it is
      a heap of one block for a region in range, and the block ends inside the region exactly when the size is a
      multiple of 8.
     */
    method Init(start: nat, size: nat)
      requires Valid() && start < WORD_MOD && size < WORD_MOD
      modifies this
      ensures start == 0 || size < HDR + SPARE ==>
        Valid() && heap == old(heap) && mem == old(mem) && head == old(head) && total == old(total)
      ensures start != 0 && size >= HDR + SPARE ==>
        && head == start && total == size
        && mem == old(mem)[start := Align8(size - HDR) % WORD_MOD][start + FREE := 1][start + NEXT := 0][start
          + PREV := 0]
      ensures start != 0 && size >= HDR + SPARE && RegionInRange(start, size) ==>
        && Valid() && lo == start && hi == start + Align8(size) && heap == Fresh(lo, hi)
        && (heap[0].End() <= start + size <==> size % 8 == 0)
    {
      if start == 0 || size < HDR + SPARE { return; }
      total := size;
      head := start;
      mem := mem[start := Align8(size - HDR) % WORD_MOD][start + FREE := 1][start + NEXT := 0][start + PREV := 0];
      if RegionInRange(start, size) {
        lo, hi := start, start + Align8(size);
        heap := Fresh(lo, hi);
        hide Shape, Rep;
        StillAligned(size);
        FreshRep(mem, lo, hi);
      }
    }

    /** One store of a word; `log` is the list of stores since the memory was m0. */
    method Put(a: nat, v: nat, ghost m0: Mem, ghost log: seq<Store>) returns (ghost log': seq<Store>)
      requires mem == Apply(m0, log)
      modifies this`mem
      ensures log' == log + [Store(a, v)] && mem == Apply(m0, log') && mem == old(mem)[a := v]
    {
      mem := mem[a := v];
      log' := log + [Store(a, v)];
      ApplyOne(m0, log, Store(a, v));
    }

    /**
      kmalloc. Outside the window in which required_space wraps to 0 it is HeapModel.Malloc, and no
      live payload changes. Inside the window it makes the stores of a zero-byte request.
     */
    method Kmalloc(size: nat) returns (p: nat)
      requires Valid() && size < WORD_MOD
      modifies this`mem, this`heap
      ensures Required(size) != 0 ==> Valid() && (heap, p) == Malloc(old(heap), size)
      ensures Required(size) != 0 ==> PayloadsKept(old(mem), mem, old(heap))
      ensures var i := FirstFit(old(heap), Required(size));
        if size == 0 || i == |old(heap)| then p == 0 && mem == old(mem)
        else p == old(heap)[i].addr + HDR + PTR && mem == Apply(old(mem), TakeStores(old(heap), i, Required(size)))
    {
      PayloadsSame(mem, heap);
      hide Shape, Rep, PayloadsKept, Apply, TakeStores, Take;
      if size == 0 || head == 0 { return 0; }
      RequestArithmetic(size);
      hide Required, Room;
      var curr, i := FindFit(Required(size));
      if curr == 0 { return 0; }
      p := TakeBlock(curr, Required(size), i);
    }

    /** kmalloc's walk over the list: the first free block of at least req bytes, or NULL. */
    method FindFit(req: nat) returns (curr: nat, ghost i: nat)
      requires head != 0 && Valid()
      ensures i == FirstFit(heap, req)
      ensures if i < |heap| then curr == heap[i].addr != 0 else curr == 0
      ensures curr == 0 <==> forall b :: b in heap ==> !Fits(b, req)
    {
      curr := head;
      i := 0;
      while curr != 0
        invariant 0 <= i <= |heap|
        invariant if i < |heap| then curr == heap[i].addr != 0 else curr == 0
        invariant forall j :: 0 <= j < i ==> !Fits(heap[j], req)
        decreases |heap| - i
      {
        assert Header(mem, heap, i);
        if Rd(mem, curr + FREE) != 0 && Rd(mem, curr) >= req { return; }
        curr := Rd(mem, curr + NEXT);
        i := i + 1;
        if i < |heap| { Inside(heap, lo, hi, i); }
      }
    }

    /** The body of kmalloc's loop once the block has been found. */
    method TakeBlock(curr: nat, req: nat, ghost i: nat) returns (p: nat)
      requires head != 0 && Valid() && i < |heap| && heap[i].addr == curr && Fits(heap[i], req)
      requires req == 0 || (req >= PTR && req % 8 == 0)
      modifies this`mem, this`heap
      ensures mem == Apply(old(mem), TakeStores(old(heap), i, req)) && p == curr + HDR + PTR
      ensures req != 0 ==> Valid() && heap == Take(old(heap), i, req)
      ensures req != 0 ==> PayloadsKept(old(mem), mem, old(heap))
    {
      hide Shape, Rep, Take, TakeStores, PayloadsKept, Apply, Fits;
      LinksShape(mem, heap, lo, hi, i);
      p := StoreTake(curr, req, i);
      if req != 0 {
        TakeCorrect(old(mem), heap, lo, hi, i, req);
        heap := Take(heap, i, req);
      }
    }

    /** The stores of kmalloc once it has chosen its block. */
    method StoreTake(curr: nat, req: nat, ghost i: nat) returns (p: nat)
      requires i < |heap| && heap[i].addr == curr && Linked(mem, heap, i)
      modifies this`mem
      ensures mem == Apply(old(mem), TakeStores(heap, i, req)) && p == curr + HDR + PTR
    {
      hide Apply, SplitStores, GrantStores;
      ghost var log := [];
      assert mem == Apply(mem, log) by { EmptyLog(mem); }
      if Rd(mem, curr) >= req + HDR + SPARE {
        log := SplitBlock(curr, req, i);
      }
      p := Grant(curr, old(mem), log, heap[i]);
    }

    /** Marks a block used and stores the back pointer below the payload. */
    method Grant(curr: nat, ghost m0: Mem, ghost log: seq<Store>, ghost b: Block) returns (p: nat)
      requires mem == Apply(m0, log) && b.addr == curr
      modifies this`mem
      ensures p == curr + HDR + PTR && mem == Apply(m0, log + GrantStores(b))
    {
      ghost var log1 := Put(curr + FREE, 0, m0, log);
      p := curr + HDR + PTR;
      ghost var log2 := Put(p - PTR, curr, m0, log1);
      assert log2 == log + GrantStores(b);
    }

    /** Cuts the free block `curr` after req bytes; the remainder becomes a free block of its own. */
    method SplitBlock(curr: nat, req: nat, ghost i: nat) returns (ghost log: seq<Store>)
      requires i < |heap| && heap[i].addr == curr && Splits(heap[i], req) && Header(mem, heap, i)
      requires i + 1 < |heap| ==> heap[i + 1].addr != 0
      modifies this`mem
      ensures log == SplitStores(heap, i, req) && mem == Apply(old(mem), log)
    {
      hide Apply;
      var n := curr + HDR + req;
      log := InitBlock(n, Rd(mem, curr) - req - HDR, Rd(mem, curr + NEXT), curr);
      var next := Rd(mem, curr + NEXT);
      if next != 0 {
        log := Put(next + PREV, n, old(mem), log);
      }
      log := Put(curr + NEXT, n, old(mem), log);
      log := Put(curr, req, old(mem), log);
    }

    /** Fills in the header of a new free block. */
    method InitBlock(n: nat, size: nat, next: nat, prev: nat) returns (ghost log: seq<Store>)
      modifies this`mem
      ensures log == [Store(n, size), Store(n + FREE, 1), Store(n + NEXT, next), Store(n + PREV, prev)]
      ensures mem == Apply(old(mem), log)
      ensures forall a: nat :: !(n <= a <= n + PREV) ==> Rd(mem, a) == Rd(old(mem), a)
    {
      log := Put(n, size, mem, []);
      log := Put(n + FREE, 1, old(mem), log);
      log := Put(n + NEXT, next, old(mem), log);
      log := Put(n + PREV, prev, old(mem), log);
    }

    // ---- kmalloc_aligned -----------------------------------------------------------------------

    /**
      kmalloc_aligned. While its sums fit 64 bits it is HeapModel.AlignedAlloc, and no live payload changes.
      When one wraps around it still makes the stores of kmalloc and of its own back pointer.
     */
    method KmallocAligned(size: nat, al: nat) returns (p: nat)
      requires Valid() && size < WORD_MOD && al < WORD_MOD
      modifies this`mem, this`heap
      ensures AlignedInRange(size, al) ==> Valid() && (heap, p) == AlignedAlloc(old(heap), size, al)
      ensures AlignedInRange(size, al) ==> PayloadsKept(old(mem), mem, old(heap))
      ensures !AlignedInRange(size, al) ==>
        var h, n := old(heap), AlignedRequest(size, al);
        var i := FirstFit(h, Required(n));
        if size == 0 || !PowerOfTwo(al) || n == 0 || i == |h| then p == 0 && mem == old(mem)
        else && p == AlignedPlace(h[i].addr + HDR + PTR, al)
             && mem == Apply(old(mem), TakeStores(h, i, Required(n)))[(p + WORD_MOD - PTR) % WORD_MOD := h[i].addr]
    {
      hide Shape, Rep, Malloc, PayloadsKept, AlignedAlloc, AlignedInRange, AlignedRequest, PowerOfTwo, RoundUp;
      PayloadsSame(mem, heap);
      AlignedTrivial(heap, size, al);
      if size == 0 || al == 0 || !PowerOfTwo(al) { return 0; }
      ghost var h, m := heap, mem;
      var n := AlignedRequest(size, al);
      AlignedAgrees(h, lo, hi, size, al);
      var raw := Kmalloc(n);
      if raw == 0 { return 0; }
      BackPointerStored(m, h, FirstFit(h, Required(n)), Required(n));
      p := AlignedPlace(raw, al);
      if AlignedInRange(size, al) {
        AlignedDone(m, mem, h, lo, hi, size, al);
        heap := AlignedAlloc(h, size, al).0;
      }
      mem := mem[(p + WORD_MOD - PTR) % WORD_MOD := Rd(mem, raw - PTR)];
    }

    // ---- kfree ---------------------------------------------------------------------------------

    /** kfree of NULL or of a live pointer; the payloads of the other pointers keep their contents. */
    method Free(ptr: nat)
      requires Valid() && (ptr == 0 || Live(heap, ptr))
      modifies this`mem, this`heap
      ensures Valid() && heap == Kfree(old(heap), ptr)
      ensures PayloadsKept(old(mem), mem, old(heap))
    {
      hide Shape, Tiles, Rep, Live, Kfree, Release, FreeStores, PayloadsKept, Apply;
      PayloadsSame(mem, heap);
      KfreeNull(heap);
      if ptr == 0 { return; }
      ghost var i := Owner(heap, ptr);
      FreePlan(mem, heap, lo, hi, ptr);
      var block := Rd(mem, ptr - PTR);
      if block == 0 { return; }
      FreeBlock(block, i);
      heap := Release(heap, i);
    }

    method FreeBlock(block: nat, ghost i: nat)
      requires Shape(heap, lo, hi) && Rep(mem, heap) && i < |heap| && block == heap[i].addr
      modifies this`mem
      ensures mem == Apply(old(mem), FreeStores(heap, i))
    {
      ghost var log := Put(block + FREE, 1, mem, []);
      assert log == [Store(heap[i].addr + FREE, 1)];
      MarkFreeRep(old(mem), heap, lo, hi, i);
      MergeNext(block, heap, i);
      ApplyAppend(old(mem), log, ForwardStores(heap, i));
      MergePrev(block, heap, i);
      ApplyAppend(old(mem), log + ForwardStores(heap, i), BackwardStores(heap, i));
    }

    /** Absorbs a free successor. */
    method MergeNext(block: nat, ghost h: Heap, ghost i: nat)
      requires Shape(h, lo, hi) && i < |h| && block == h[i].addr && Rep(mem, MarkedFree(h, i))
      modifies this`mem
      ensures mem == Apply(old(mem), ForwardStores(h, i)) && Rep(mem, FreedForward(h, i))
    {
      hide Shape, Tiles, Rep, FreedForward;
      ForwardPlan(mem, h, lo, hi, i);
      var next := Rd(mem, block + NEXT);
      if next != 0 && Rd(mem, next + FREE) != 0 {
        AbsorbNext(block, MarkedFree(h, i), i);
      }
    }

    method AbsorbNext(block: nat, ghost h: Heap, ghost i: nat)
      requires i + 1 < |h| && block == h[i].addr && Linked(mem, h, i) && Linked(mem, h, i + 1)
      modifies this`mem
      ensures mem == Apply(old(mem), AbsorbStores(h, i))
    {
      var next := Rd(mem, block + NEXT);
      ghost var log := Put(block, Rd(mem, block) + HDR + Rd(mem, next), mem, []);
      log := Put(block + NEXT, Rd(mem, next + NEXT), old(mem), log);
      var after := Rd(mem, block + NEXT);
      if after != 0 {
        log := Put(after + PREV, block, old(mem), log);
      }
      assert log == AbsorbStores(h, i);
    }

    /** Lets a free predecessor absorb the block. */
    method MergePrev(block: nat, ghost h: Heap, ghost i: nat)
      requires Shape(h, lo, hi) && i < |h| && block == h[i].addr && Rep(mem, FreedForward(h, i))
      modifies this`mem
      ensures mem == Apply(old(mem), BackwardStores(h, i))
    {
      BackwardPlan(mem, h, lo, hi, i);
      var prev := Rd(mem, block + PREV);
      if prev != 0 && Rd(mem, prev + FREE) != 0 {
        AbsorbedByPrev(block, FreedForward(h, i), i - 1);
      }
    }

    method AbsorbedByPrev(block: nat, ghost h: Heap, ghost j: nat)
      requires j + 1 < |h| && block == h[j + 1].addr && Linked(mem, h, j) && Linked(mem, h, j + 1)
      modifies this`mem
      ensures mem == Apply(old(mem), AbsorbStores(h, j))
    {
      var prev := Rd(mem, block + PREV);
      ghost var log := Put(prev, Rd(mem, prev) + HDR + Rd(mem, block), mem, []);
      log := Put(prev + NEXT, Rd(mem, block + NEXT), old(mem), log);
      assert Rd(mem, block + NEXT) == NextOf(h, j + 1) && Rd(mem, block + PREV) == prev;
      if Rd(mem, block + NEXT) != 0 {
        log := Put(Rd(mem, block + NEXT) + PREV, Rd(mem, block + PREV), old(mem), log);
      }
      assert log == AbsorbStores(h, j);
    }

    // ---- metrics and clients ---------------------------------------------------------------------

    /** kmem_get_free_bytes. */
    method GetFreeBytes() returns (n: nat)
      requires Valid()
      ensures n == FreeBytes(heap)
    {
      n := 0;
      var curr := head;
      ghost var i := 0;
      while curr != 0
        invariant 0 <= i <= |heap|
        invariant if i < |heap| then curr == heap[i].addr != 0 else curr == 0
        invariant n + FreeBytes(heap[i..]) == FreeBytes(heap)
        decreases |heap| - i
      {
        assert Header(mem, heap, i);
        assert heap[i..][1..] == heap[i + 1..];
        if Rd(mem, curr + FREE) != 0 { n := n + Rd(mem, curr); }
        curr := Rd(mem, curr + NEXT);
        i := i + 1;
        if i < |heap| { Inside(heap, lo, hi, i); }
      }
    }

    /** kmem_get_used_bytes. */
    method GetUsedBytes() returns (n: nat)
      requires Valid()
      ensures n == UsedBytes(heap)
    {
      n := 0;
      var curr := head;
      ghost var i := 0;
      while curr != 0
        invariant 0 <= i <= |heap|
        invariant if i < |heap| then curr == heap[i].addr != 0 else curr == 0
        invariant n + UsedBytes(heap[i..]) == UsedBytes(heap)
        decreases |heap| - i
      {
        assert Header(mem, heap, i);
        assert heap[i..][1..] == heap[i + 1..];
        if Rd(mem, curr + FREE) == 0 { n := n + Rd(mem, curr); }
        curr := Rd(mem, curr + NEXT);
        i := i + 1;
        if i < |heap| { Inside(heap, lo, hi, i); }
      }
    }

    /** A client stores a word inside a payload it owns: the heap is none the worse for it. */
    method ClientWrite(ptr: nat, offset: nat, v: nat)
      requires Valid() && Live(heap, ptr) && offset % 8 == 0 && offset < heap[Owner(heap, ptr)].use.room
      modifies this`mem
      ensures Valid() && heap == old(heap) && Rd(mem, ptr + offset) == v
    {
      hide Shape, Rep, Tiles;
      ClientWriteRep(mem, heap, lo, hi, ptr, offset, v);
      mem := mem[ptr + offset := v];
    }
  }
}
