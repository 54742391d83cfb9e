/**
  The abstract heap of freestanding/kmem.c: the blocks of one region in address order, and what
  allocation and release do to that list. KMem.dfy proves that the in-memory linked list with its
  back pointers implements these functions; SpinHeap.dfy proves it again store by store.
 */
module HeapModel {

  const WORD_MOD: nat := 0x1_0000_0000_0000_0000
  const MAX_REGION: nat := 0x8000_0000_0000_0000
  const HDR: nat := 32   // BLOCK_HEADER_SIZE
  const PTR: nat := 8    // sizeof(kmem_block_t *)
  const SPARE: nat := 32 // smallest remainder worth splitting off

  /** What a block is used for. A used block backs one live pointer with `room` usable bytes. */
  datatype Use = Free | Used(ptr: nat, room: nat)

  datatype Block = Block(addr: nat, size: nat, use: Use) {
    function End(): nat { addr + HDR + size }
  }

  type Heap = seq<Block>

  /** ALIGN8, before the truncation to 64 bits. */
  function Align8(n: nat): nat { (n + 7) / 8 * 8 }

  /** The usable bytes kmalloc reserves for a request: ALIGN8 wraps around at 2^64. */
  function Room(size: nat): nat { Align8(size) % WORD_MOD }

  /** required_space: again a 64-bit sum. */
  function Required(size: nat): nat { (Room(size) + PTR) % WORD_MOD }

  ghost predicate GoodBlock(b: Block) {
    && b.addr % 8 == 0 && b.size % 8 == 0 && b.size >= PTR
    && (b.use.Used? ==>
        && b.use.ptr % 8 == 0 && b.addr + HDR + PTR <= b.use.ptr
        && b.use.room % 8 == 0 && b.use.ptr + b.use.room <= b.End())
  }

  ghost predicate Tiles(h: Heap, lo: nat, hi: nat) {
    && |h| > 0 && h[0].addr == lo && h[|h| - 1].End() == hi
    && (forall i :: 0 <= i < |h| ==> GoodBlock(h[i]))
    && (forall i, j :: 0 <= i < j < |h| && j == i + 1 ==> h[i].End() == h[j].addr)
  }

  ghost predicate Coalesced(h: Heap) {
    forall i, j :: 0 <= i < j < |h| && j == i + 1 ==> h[i].use.Used? || h[j].use.Used?
  }

  ghost predicate GoodRegion(lo: nat, hi: nat) {
    0 < lo && lo % 8 == 0 && lo + HDR + SPARE <= hi <= WORD_MOD && (hi - lo) % 8 == 0 && hi - lo < MAX_REGION
  }

  /** The shape every run keeps. */
  ghost predicate Shape(h: Heap, lo: nat, hi: nat) {
    GoodRegion(lo, hi) && Tiles(h, lo, hi) && Coalesced(h)
  }

  function Fresh(lo: nat, hi: nat): Heap
    requires lo + HDR <= hi
  {
    [Block(lo, hi - lo - HDR, Free)]
  }

  // ---- allocation ------------------------------------------------------------------------------

  predicate Fits(b: Block, req: nat) { b.use.Free? && b.size >= req }

  /** Index of the first block that fits, or |h|. */
  function FirstFit(h: Heap, req: nat): (i: nat)
    ensures i <= |h|
    ensures i < |h| ==> Fits(h[i], req)
    ensures forall j :: 0 <= j < i ==> !Fits(h[j], req)
  {
    if h == [] then 0
    else if Fits(h[0], req) then 0
    else 1 + FirstFit(h[1..], req)
  }

  predicate Splits(b: Block, req: nat) { b.size >= req + HDR + SPARE }

  /** Takes block i for a request of req bytes, of which the last req - PTR are the caller's. */
  function Take(h: Heap, i: nat, req: nat): Heap
    requires i < |h| && Fits(h[i], req) && req >= PTR
  {
    var b := h[i];
    var use := Used(b.addr + HDR + PTR, req - PTR);
    if Splits(b, req) then
      h[..i] + [Block(b.addr, req, use), Block(b.addr + HDR + req, b.size - req - HDR, Free)] + h[i + 1..]
    else
      h[i := Block(b.addr, b.size, use)]
  }

  /** kmalloc. Outside the single wrap-around window Required(size) == 0 it is this function. */
  function Malloc(h: Heap, size: nat): (Heap, nat)
    requires Required(size) != 0
  {
    var i := FirstFit(h, Required(size));
    if size == 0 || i == |h| then (h, 0)
    else (Take(h, i, Required(size)), h[i].addr + HDR + PTR)
  }

  // ---- live pointers ---------------------------------------------------------------------------

  predicate Live(h: Heap, p: nat) { exists i :: 0 <= i < |h| && h[i].use.Used? && h[i].use.ptr == p }

  function Owner(h: Heap, p: nat): (i: nat)
    requires Live(h, p)
    ensures i < |h| && h[i].use.Used? && h[i].use.ptr == p
  {
    if h[0].use.Used? && h[0].use.ptr == p then 0
    else
      assert Live(h[1..], p) by {
        var k :| 0 <= k < |h| && h[k].use.Used? && h[k].use.ptr == p;
        assert h[1..][k - 1] == h[k];
      }
      1 + Owner(h[1..], p)
  }

  /** Moves a live pointer inside its block, as kmalloc_aligned does; `room` bytes stay usable. */
  function Move(h: Heap, p: nat, q: nat, room: nat): Heap
    requires Live(h, p)
  {
    var i := Owner(h, p);
    h[i := Block(h[i].addr, h[i].size, Used(q, room))]
  }

  predicate PowerOfTwo(n: nat) { n == 1 || (n > 0 && n % 2 == 0 && PowerOfTwo(n / 2)) }

  function RoundUp(x: nat, al: nat): nat
    requires al > 0
  {
    (x + al - 1) / al * al
  }

  /** alloc_size of kmalloc_aligned: a 64-bit sum. */
  function AlignedRequest(size: nat, al: nat): nat { (Room(size) + al + PTR + HDR) % WORD_MOD }

  /** aligned_addr: a 64-bit sum again, cut to a multiple of the alignment. */
  function AlignedPlace(raw: nat, al: nat): nat
    requires al > 0
  {
    RoundUp(raw + PTR, al) % WORD_MOD
  }

  /** Neither alloc_size nor what kmalloc makes of it wraps. */
  predicate AlignedInRange(size: nat, al: nat) { Align8(size) + al + PTR + HDR + 16 <= WORD_MOD }

  /** alloc_size: room to slide the pointer up to a multiple of the alignment. */
  function AlignedNeed(size: nat, al: nat): (n: nat)
    requires AlignedInRange(size, al)
    ensures n < WORD_MOD && Required(n) != 0 && Room(n) >= n
  {
    Align8(size) + al + PTR + HDR
  }

  function AlignedAlloc(h: Heap, size: nat, al: nat): (Heap, nat)
    requires AlignedInRange(size, al)
  {
    if size == 0 || !PowerOfTwo(al) then (h, 0)
    else
      var (h1, raw) := Malloc(h, AlignedNeed(size, al));
      if raw == 0 || !Live(h1, raw) then (h1, 0)
      else
        var q := RoundUp(raw + PTR, al);
        (Move(h1, raw, q, Align8(size)), q)
  }

  // ---- release ---------------------------------------------------------------------------------

  /** Absorbs block i + 1 into the free block i. */
  function Absorb(h: Heap, i: nat): Heap
    requires i + 1 < |h|
  {
    h[..i] + [Block(h[i].addr, h[i].size + HDR + h[i + 1].size, Free)] + h[i + 2..]
  }

  /** The heap after the forward merge of kfree. */
  function FreedForward(h: Heap, i: nat): Heap
    requires i < |h|
  {
    var h1 := h[i := Block(h[i].addr, h[i].size, Free)];
    if i + 1 < |h1| && h1[i + 1].use.Free? then Absorb(h1, i) else h1
  }

  function Release(h: Heap, i: nat): Heap
    requires i < |h|
  {
    var h2 := FreedForward(h, i);
    if i > 0 && h2[i - 1].use.Free? then Absorb(h2, i - 1) else h2
  }

  /** kfree of NULL or of a live pointer. */
  function Kfree(h: Heap, p: nat): Heap
    requires p == 0 || Live(h, p)
  {
    if p == 0 then h else Release(h, Owner(h, p))
  }

  // ---- each operation keeps the shape ----------------------------------------------------------

  lemma {:induction false} Ordered(h: Heap, lo: nat, hi: nat, i: nat, j: nat)
    requires Tiles(h, lo, hi) && i < j < |h|
    ensures h[i].End() <= h[j].addr
    decreases j - i
  {
    if i + 1 < j { Ordered(h, lo, hi, i, j - 1); }
  }

  lemma {:induction false} Inside(h: Heap, lo: nat, hi: nat, i: nat)
    requires Tiles(h, lo, hi) && i < |h|
    ensures lo <= h[i].addr && h[i].End() <= hi
  {
    if i > 0 { Ordered(h, lo, hi, 0, i); }
    if i < |h| - 1 { Ordered(h, lo, hi, i, |h| - 1); }
  }

  /** Two used blocks never share a live pointer, so Owner finds the block the caller means. */
  lemma OwnerIs(h: Heap, lo: nat, hi: nat, i: nat)
    requires Tiles(h, lo, hi) && i < |h| && h[i].use.Used?
    ensures Live(h, h[i].use.ptr) && Owner(h, h[i].use.ptr) == i
  {
    var k := Owner(h, h[i].use.ptr);
    if k < i { Ordered(h, lo, hi, k, i); } else if i < k { Ordered(h, lo, hi, i, k); }
  }

  lemma SplitBlocks(b: Block, req: nat)
    requires GoodBlock(b) && req >= PTR && req % 8 == 0 && Fits(b, req) && Splits(b, req)
    ensures GoodBlock(Block(b.addr, req, Used(b.addr + HDR + PTR, req - PTR)))
    ensures GoodBlock(Block(b.addr + HDR + req, b.size - req - HDR, Free))
  {
  }

  lemma SpliceTiles(h: Heap, lo: nat, hi: nat, i: nat, x: Block, y: Block)
    requires Tiles(h, lo, hi) && i < |h| && GoodBlock(x) && GoodBlock(y)
    requires x.addr == h[i].addr && x.End() == y.addr && y.End() == h[i].End()
    ensures Tiles(h[..i] + [x, y] + h[i + 1..], lo, hi)
  {
    var t := h[..i] + [x, y] + h[i + 1..];
    forall k | 0 <= k < |t| ensures GoodBlock(t[k]) {
      if k < i { assert t[k] == h[k]; } else if k > i + 1 { assert t[k] == h[k - 1]; }
    }
    forall k, l | 0 <= k < l < |t| && l == k + 1
      ensures t[k].End() == t[l].addr
    {
      if k > i + 1 { assert t[k] == h[k - 1] && t[l] == h[k]; }
      else if k == i + 1 { assert t[l] == h[k]; }
      else if l < i { assert t[k] == h[k] && t[l] == h[l]; }
      else if l == i { assert t[k] == h[k]; }
    }
  }

  lemma TakeSplitCoalesced(h: Heap, i: nat, req: nat)
    requires Coalesced(h) && i < |h| && req >= PTR && Fits(h[i], req) && Splits(h[i], req)
    ensures Coalesced(Take(h, i, req))
  {
    var t := Take(h, i, req);
    forall k, l | 0 <= k < l < |t| && l == k + 1
      ensures t[k].use.Used? || t[l].use.Used?
    {
      if k > i + 1 { assert t[k] == h[k - 1] && t[l] == h[k]; }
      else if k == i + 1 { assert t[l] == h[k] && (h[i].use.Used? || h[k].use.Used?); }
      else if l < i { assert t[k] == h[k] && t[l] == h[l]; }
    }
  }

  lemma TakeWhole(h: Heap, lo: nat, hi: nat, i: nat, req: nat)
    requires Shape(h, lo, hi) && i < |h| && req >= PTR && req % 8 == 0 && Fits(h[i], req) && !Splits(h[i], req)
    ensures Shape(Take(h, i, req), lo, hi)
  {
    assert GoodBlock(h[i]);
  }

  lemma TakeKeepsShape(h: Heap, lo: nat, hi: nat, i: nat, req: nat)
    requires Shape(h, lo, hi) && i < |h| && req >= PTR && req % 8 == 0 && Fits(h[i], req)
    ensures Shape(Take(h, i, req), lo, hi)
    ensures Take(h, i, req)[i].use == Used(h[i].addr + HDR + PTR, req - PTR)
  {
    if Splits(h[i], req) {
      SplitBlocks(h[i], req);
      SpliceTiles(h, lo, hi, i, Block(h[i].addr, req, Used(h[i].addr + HDR + PTR, req - PTR)),
                  Block(h[i].addr + HDR + req, h[i].size - req - HDR, Free));
      TakeSplitCoalesced(h, i, req);
    } else {
      TakeWhole(h, lo, hi, i, req);
    }
  }

  lemma AbsorbTiles(h: Heap, lo: nat, hi: nat, i: nat)
    requires Tiles(h, lo, hi) && i + 1 < |h|
    ensures Tiles(Absorb(h, i), lo, hi)
  {
    var a := Absorb(h, i);
    AbsorbGood(h, lo, hi, i);
    hide GoodBlock;
    forall k, l | 0 <= k < l < |a| && l == k + 1
      ensures a[k].End() == a[l].addr
    {
      if k > i { assert a[k] == h[k + 1] && a[l] == h[k + 2]; }
      else if k == i { assert a[l] == h[k + 2]; }
      else if l < i { assert a[k] == h[k] && a[l] == h[l]; }
      else { assert a[k] == h[k]; }
    }
    assert a[0].addr == h[0].addr;
    assert a[|a| - 1].End() == h[|h| - 1].End();
  }

  lemma AbsorbGood(h: Heap, lo: nat, hi: nat, i: nat)
    requires Tiles(h, lo, hi) && i + 1 < |h|
    ensures var a := Absorb(h, i); forall k :: 0 <= k < |a| ==> GoodBlock(a[k])
  {
    var a := Absorb(h, i);
    forall k | 0 <= k < |a| ensures GoodBlock(a[k]) {
      if k < i { assert a[k] == h[k]; } else if k > i { assert a[k] == h[k + 1]; }
      else { assert GoodBlock(h[i]) && GoodBlock(h[i + 1]); }
    }
  }

  /** Absorbing restores Coalesced when it removes the one free neighbour of the free block i. */
  lemma AbsorbCoalesces(h: Heap, i: nat)
    requires i + 1 < |h| && h[i].use.Free? && h[i + 1].use.Free?
    requires forall k, l :: 0 <= k < l < |h| && l == k + 1 && k != i ==> h[k].use.Used? || h[l].use.Used?
    ensures Coalesced(Absorb(h, i))
  {
    var a := Absorb(h, i);
    forall k, l | 0 <= k < l < |a| && l == k + 1
      ensures a[k].use.Used? || a[l].use.Used?
    {
      if k > i { assert a[k] == h[k + 1] && a[l] == h[k + 2]; }
      else if k == i { assert a[l] == h[i + 2] && (h[i + 1].use.Used? || h[i + 2].use.Used?); }
      else if l == i { assert h[k].use.Used?; }
    }
  }

  lemma MarkFree(h: Heap, lo: nat, hi: nat, i: nat)
    requires Shape(h, lo, hi) && i < |h|
    ensures Tiles(h[i := Block(h[i].addr, h[i].size, Free)], lo, hi)
  {
    assert GoodBlock(h[i]);
  }

  lemma FreedForwardTiles(h: Heap, lo: nat, hi: nat, i: nat)
    requires Shape(h, lo, hi) && i < |h|
    ensures Tiles(FreedForward(h, i), lo, hi)
  {
    MarkFree(h, lo, hi, i);
    var h1 := h[i := Block(h[i].addr, h[i].size, Free)];
    if i + 1 < |h1| && h1[i + 1].use.Free? { AbsorbTiles(h1, lo, hi, i); }
  }

  lemma ReleaseKeepsShape(h: Heap, lo: nat, hi: nat, i: nat)
    requires Shape(h, lo, hi) && i < |h|
    ensures Shape(Release(h, i), lo, hi)
  {
    var h2 := FreedForward(h, i);
    FreedForwardTiles(h, lo, hi, i);
    FreedForwardCoalesced(h, i);
    hide Tiles, GoodBlock, FreedForward, Absorb;
    if i > 0 && h2[i - 1].use.Free? {
      AbsorbTiles(h2, lo, hi, i - 1);
      AbsorbCoalesces(h2, i - 1);
    }
  }

  lemma FreedForwardCoalesced(h: Heap, i: nat)
    requires Coalesced(h) && i < |h|
    ensures var a := FreedForward(h, i);
      && i < |a| && a[i].use.Free? && (i > 0 ==> a[i - 1] == h[i - 1])
      && forall k, l :: 0 <= k < l < |a| && l == k + 1 && k != i - 1 ==> a[k].use.Used? || a[l].use.Used?
  {
    if i + 1 < |h| && h[i + 1].use.Free? { ReleaseForward(h, i); }
  }

  lemma ReleaseForward(h: Heap, i: nat)
    requires Coalesced(h) && i + 1 < |h| && h[i + 1].use.Free?
    ensures var a := Absorb(h[i := Block(h[i].addr, h[i].size, Free)], i);
      forall k, l :: 0 <= k < l < |a| && l == k + 1 && k != i - 1 ==> a[k].use.Used? || a[l].use.Used?
  {
    var a := Absorb(h[i := Block(h[i].addr, h[i].size, Free)], i);
    forall k, l | 0 <= k < l < |a| && l == k + 1 && k != i - 1
      ensures a[k].use.Used? || a[l].use.Used?
    {
      if k > i { assert a[k] == h[k + 1] && a[l] == h[k + 2]; }
      else if k == i { assert a[l] == h[i + 2] && (h[i + 1].use.Used? || h[i + 2].use.Used?); }
    }
  }

  // ---- arithmetic of requests --------------------------------------------------------------------

  lemma RequestArithmetic(size: nat)
    requires 0 < size < WORD_MOD
    ensures Room(size) % 8 == 0 && Required(size) % 8 == 0
    ensures Required(size) != 0 ==> Required(size) == Room(size) + PTR
    ensures Room(size) >= size <==> size <= WORD_MOD - 8
    ensures Required(size) == 0 <==> WORD_MOD - 16 < size <= WORD_MOD - 8
  {
    var a := (size + 7) / 8;
    assert Align8(size) == 8 * a && size <= 8 * a < size + 8;
  }
}
