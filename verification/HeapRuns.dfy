/**
  Safety over whole runs of the allocator of freestanding/kmem.c: the shape, the set of live
  pointers, the byte accounting and the draining of the heap.
 */
module HeapRuns {
  import opened Arith
  import opened HeapModel

  datatype Op = Alloc(size: nat) | AllocAligned(size: nat, al: nat) | Dispose(p: nat)

  /** What the callers owe: kfree gets NULL or a live pointer; sizes outside the wrap-around windows. */
  predicate Enabled(h: Heap, op: Op) {
    match op
    case Alloc(size) => size < WORD_MOD && Required(size) != 0
    case AllocAligned(size, al) => AlignedInRange(size, al)
    case Dispose(p) => p == 0 || Live(h, p)
  }

  function Step(h: Heap, op: Op): Heap
    requires Enabled(h, op)
  {
    match op
    case Alloc(size) => Malloc(h, size).0
    case AllocAligned(size, al) => AlignedAlloc(h, size, al).0
    case Dispose(p) => Kfree(h, p)
  }

  predicate RunOk(h: Heap, ops: seq<Op>)
    decreases |ops|
  {
    ops == [] || (Enabled(h, ops[0]) && RunOk(Step(h, ops[0]), ops[1..]))
  }

  function Run(h: Heap, ops: seq<Op>): Heap
    requires RunOk(h, ops)
    decreases |ops|
  {
    if ops == [] then h else Run(Step(h, ops[0]), ops[1..])
  }

  /** The live pointers with their usable sizes. */
  ghost function LiveUses(h: Heap): set<Use> { set b | b in h && b.use.Used? :: b.use }

  // ---- what the live pointers are after each operation -------------------------------------------

  lemma TakeLives(h: Heap, i: nat, req: nat)
    requires i < |h| && Fits(h[i], req) && req >= PTR
    ensures LiveUses(Take(h, i, req)) == LiveUses(h) + {Used(h[i].addr + HDR + PTR, req - PTR)}
  {
    var t := Take(h, i, req);
    var grant := Used(h[i].addr + HDR + PTR, req - PTR);
    assert t[i].use == grant && t[i] in t;
    forall u | u in LiveUses(h) ensures u in LiveUses(t) {
      var k :| 0 <= k < |h| && h[k].use == u && h[k].use.Used?;
      assert h[k] == (if k < i || |t| == |h| then t[k] else t[k + 1]);
    }
    forall u | u in LiveUses(t) ensures u in LiveUses(h) + {grant} {
      var k :| 0 <= k < |t| && t[k].use == u && t[k].use.Used?;
      if k < i { assert t[k] == h[k]; }
      else if k > i && |t| == |h| { assert t[k] == h[k]; }
      else if k > i { assert k > i + 1 && t[k] == h[k - 1]; }
    }
  }

  lemma AbsorbLives(h: Heap, i: nat)
    requires i + 1 < |h| && h[i].use.Free? && h[i + 1].use.Free?
    ensures LiveUses(Absorb(h, i)) == LiveUses(h)
  {
    var a := Absorb(h, i);
    forall u | u in LiveUses(h) ensures u in LiveUses(a) {
      var k :| 0 <= k < |h| && h[k].use == u && h[k].use.Used?;
      assert h[k] == (if k < i then a[k] else a[k - 1]);
    }
    forall u | u in LiveUses(a) ensures u in LiveUses(h) {
      var k :| 0 <= k < |a| && a[k].use == u && a[k].use.Used?;
      assert a[k] == (if k < i then h[k] else h[k + 1]);
    }
  }

  lemma UpdateLives(h: Heap, lo: nat, hi: nat, i: nat, b: Block)
    requires Tiles(h, lo, hi) && i < |h| && h[i].use.Used?
    ensures LiveUses(h[i := b]) == (LiveUses(h) - {h[i].use}) + if b.use.Used? then {b.use} else {}
  {
    var g := h[i := b];
    assert g[i] == b && b in g;
    forall u | u in LiveUses(h) - {h[i].use} ensures u in LiveUses(g) {
      var k :| 0 <= k < |h| && h[k].use == u && h[k].use.Used?;
      assert g[k] == h[k];
    }
    forall u | u in LiveUses(g) ensures u in (LiveUses(h) - {h[i].use}) + if b.use.Used? then {b.use} else {} {
      var k :| 0 <= k < |g| && g[k].use == u && g[k].use.Used?;
      if k != i {
        assert h[k] in h;
        OwnerIs(h, lo, hi, i);
        OwnerIs(h, lo, hi, k);
      }
    }
  }

  lemma ReleaseLives(h: Heap, lo: nat, hi: nat, i: nat)
    requires Shape(h, lo, hi) && i < |h| && h[i].use.Used?
    ensures LiveUses(Release(h, i)) == LiveUses(h) - {h[i].use}
  {
    var h1 := h[i := Block(h[i].addr, h[i].size, Free)];
    UpdateLives(h, lo, hi, i, h1[i]);
    if i + 1 < |h1| && h1[i + 1].use.Free? { AbsorbLives(h1, i); }
    var h2 := FreedForward(h, i);
    FreedForwardCoalesced(h, i);
    if i > 0 && h2[i - 1].use.Free? { AbsorbLives(h2, i - 1); }
  }

  // ---- kmalloc -------------------------------------------------------------------------------------

  /**
    kmalloc keeps the shape. A refusal changes nothing and means that no free block is large enough.
    Otherwise exactly one pointer becomes live, a multiple of 8 with Room(size) usable bytes.
   */
  lemma MallocCorrect(h: Heap, lo: nat, hi: nat, size: nat)
    requires Shape(h, lo, hi) && size < WORD_MOD && Required(size) != 0
    ensures Shape(Malloc(h, size).0, lo, hi)
    ensures var (h', p) := Malloc(h, size);
      && (p == 0 <==> size == 0 || forall b :: b in h && b.use.Free? ==> b.size < Required(size))
      && (p == 0 ==> h' == h)
      && (p != 0 ==> LiveUses(h') == LiveUses(h) + {Used(p, Room(size))} && !Live(h, p) && p % 8 == 0)
  {
    hide *;
    MallocIs(h, size);
    if size > 0 {
      RequestArithmetic(size);
      var req := Required(size);
      var i := FirstFit(h, req);
      FirstFitMeans(h, req);
      if i < |h| {
        TakeKeepsShape(h, lo, hi, i, req);
        TakeLives(h, i, req);
        FreeNotLive(h, lo, hi, i);
      }
    }
  }

  lemma MallocIs(h: Heap, size: nat)
    requires size < WORD_MOD && Required(size) != 0
    ensures size == 0 ==> Malloc(h, size) == (h, 0)
    ensures size > 0 ==>
      var i := FirstFit(h, Required(size));
      if i == |h| then Malloc(h, size) == (h, 0)
      else && Required(size) >= PTR && Fits(h[i], Required(size)) && Malloc(h, size).1 != 0
           && Malloc(h, size) == (Take(h, i, Required(size)), h[i].addr + HDR + PTR)
  {
    if size > 0 { RequestArithmetic(size); }
    hide Required, Room, Take;
  }

  lemma FirstFitMeans(h: Heap, req: nat)
    ensures var i := FirstFit(h, req);
      if i == |h| then forall b :: b in h && b.use.Free? ==> b.size < req
      else h[i] in h && h[i].use.Free? && h[i].size >= req
  {
    forall b | b in h && b.use.Free? && FirstFit(h, req) == |h| ensures b.size < req {
      var k :| 0 <= k < |h| && h[k] == b;
    }
  }

  /** The place of a pointer into a free block is a multiple of 8 and not live. */
  lemma FreeNotLive(h: Heap, lo: nat, hi: nat, i: nat)
    requires Shape(h, lo, hi) && i < |h| && h[i].use.Free?
    ensures var p := h[i].addr + HDR + PTR; p % 8 == 0 && !Live(h, p)
  {
    var p := h[i].addr + HDR + PTR;
    assert GoodBlock(h[i]);
    if Live(h, p) {
      var k := Owner(h, p);
      assert GoodBlock(h[k]);
      hide GoodBlock;
      if k < i { Ordered(h, lo, hi, k, i); } else if k > i { Ordered(h, lo, hi, i, k); }
      assert false;
    }
  }

  /** Where block b ends once a request has been taken from it. */
  function TakenEnd(b: Block, req: nat): nat { if Splits(b, req) then b.addr + HDR + req else b.End() }

  /**
    The pointer kmalloc returns for block i has room for the request in that block exactly when neither of the
    two sums it makes wraps around.
   */
  lemma MallocRoomIff(h: Heap, lo: nat, hi: nat, size: nat, i: nat)
    requires Shape(h, lo, hi) && 0 < size < WORD_MOD && i == FirstFit(h, Required(size)) < |h|
    ensures h[i].addr + HDR + PTR + size <= TakenEnd(h[i], Required(size)) <==> size <= WORD_MOD - 16
  {
    hide Align8, Tiles, Coalesced, FirstFit;
    RequestArithmetic(size);
    Inside(h, lo, hi, i);
    RoomBelow(size);
  }

  lemma RoomBelow(size: nat)
    requires 0 < size < WORD_MOD
    ensures Room(size) < size + 8 && (size > WORD_MOD - 8 ==> Room(size) == 0)
  {
    var a := (size + 7) / 8;
    assert Align8(size) == 8 * a && size <= 8 * a < size + 8;
  }

  lemma FreshFits(lo: nat, hi: nat, req: nat)
    requires GoodRegion(lo, hi) && req <= SPARE
    ensures Shape(Fresh(lo, hi), lo, hi) && FirstFit(Fresh(lo, hi), req) == 0
  {
    assert Fits(Fresh(lo, hi)[0], req);
  }

  /** The largest size of all gets a pointer with no room at all, from any fresh region. */
  lemma LargestGetsNothing(lo: nat, hi: nat)
    requires GoodRegion(lo, hi)
    ensures var (h', p) := Malloc(Fresh(lo, hi), WORD_MOD - 1); p != 0 && Used(p, 0) in LiveUses(h')
  {
    var h := Fresh(lo, hi);
    FreshFits(lo, hi, PTR);
    assert Required(WORD_MOD - 1) == PTR && Room(WORD_MOD - 1) == 0;
    hide Shape, FirstFit, LiveUses, Required, Room;
    MallocCorrect(h, lo, hi, WORD_MOD - 1);
  }

  // ---- kmalloc_aligned ------------------------------------------------------------------------------

  lemma RoundUpIs(x: nat, al: nat)
    requires al > 0
    ensures x <= RoundUp(x, al) < x + al && RoundUp(x, al) % al == 0
  {
    var y := x + al - 1;
    assert y == (y / al) * al + y % al;
    MultipleMod(y / al, al);
  }

  lemma RoundUpWide(x: nat, al: nat, d: nat)
    requires al > 0 && al == d * 8
    ensures RoundUp(x, al) % 8 == 0
  {
    var k := (x + al - 1) / al;
    assert RoundUp(x, al) == k * al;
    hide RoundUp;
    MulBack(k, d, 8);
    MultipleMod(k * d, 8);
  }

  lemma PowerOfTwoWide(al: nat)
    requires PowerOfTwo(al) && al >= 8
    ensures al == al / 8 * 8
  {
    PowerHalf(al);
    PowerHalf(al / 2);
    PowerHalf(al / 2 / 2);
    hide PowerOfTwo;
  }

  lemma PowerHalf(n: nat)
    requires PowerOfTwo(n) && n > 1
    ensures PowerOfTwo(n / 2) && n == 2 * (n / 2)
  {
  }

  lemma RoundUpExact(x: nat, al: nat)
    requires al > 0 && x % al == 0
    ensures RoundUp(x, al) == x
  {
    DivMod(x, al);
    DivUnique(x + al - 1, al, x / al, al - 1);
  }

  lemma SmallPowerOfTwo(al: nat)
    requires PowerOfTwo(al) && al < 8
    ensures al == 1 || al == 2 || al == 4
  {
    assert !PowerOfTwo(3);
  }

  lemma RoundUpWord(x: nat, al: nat)
    requires PowerOfTwo(al) && x % 8 == 0
    ensures RoundUp(x, al) % 8 == 0
  {
    hide RoundUp, PowerOfTwo;
    if al >= 8 {
      PowerOfTwoWide(al);
      RoundUpWide(x, al, al / 8);
    } else {
      SmallPowerOfTwo(al);
      if al == 1 { RoundUpExact(x, 1); } else if al == 2 { RoundUpExact(x, 2); } else { RoundUpExact(x, 4); }
    }
  }

  /**
    kmalloc_aligned keeps the shape, and the pointer it returns is a multiple of the alignment
    with Align8(size) usable bytes in a block of its own: freeing it frees that block.
   */
  lemma AlignedCorrect(h: Heap, lo: nat, hi: nat, size: nat, al: nat)
    requires Shape(h, lo, hi) && AlignedInRange(size, al)
    ensures Shape(AlignedAlloc(h, size, al).0, lo, hi)
    ensures var (h', p) := AlignedAlloc(h, size, al);
      && (p == 0 ==> h' == h)
      && (p == 0 <==> size == 0 || !PowerOfTwo(al) || Malloc(h, AlignedNeed(size, al)).1 == 0)
      && (p != 0 ==> LiveUses(h') == LiveUses(h) + {Used(p, Align8(size))} && Align8(size) >= size
                     && p % al == 0 && p % 8 == 0)
  {
    if size == 0 || !PowerOfTwo(al) { return; }
    hide Shape, Move, RoundUp, Malloc, LiveUses, PowerOfTwo, Align8, Room;
    MallocLive(h, lo, hi, AlignedNeed(size, al));
    if Malloc(h, AlignedNeed(size, al)).1 != 0 {
      AlignedMoves(h, size, al);
      hide AlignedAlloc, AlignedNeed;
      AlignedPlaced(h, lo, hi, size, al);
    }
  }

  lemma AlignedPlaced(h: Heap, lo: nat, hi: nat, size: nat, al: nat)
    requires Shape(h, lo, hi) && AlignedInRange(size, al) && size > 0 && PowerOfTwo(al)
    requires var (h1, raw) := Malloc(h, AlignedNeed(size, al)); raw != 0 && Live(h1, raw)
    ensures var (h1, raw) := Malloc(h, AlignedNeed(size, al));
      var q := RoundUp(raw + PTR, al);
      var h' := Move(h1, raw, q, Align8(size));
      && Shape(h', lo, hi) && LiveUses(h') == LiveUses(h) + {Used(q, Align8(size))}
      && Align8(size) >= size && q != 0 && q % al == 0 && q % 8 == 0
  {
    hide Shape, Move, RoundUp, Malloc, LiveUses, PowerOfTwo, Align8, Room;
    var n := AlignedNeed(size, al);
    MallocLive(h, lo, hi, n);
    RoomIsWhole(size);
    MoveCorrect(Malloc(h, n).0, lo, hi, Malloc(h, n).1, al, Align8(size));
  }

  /** The new place of the pointer is still inside its block. */
  lemma MovedGood(b: Block, al: nat, room: nat)
    requires GoodBlock(b) && b.use.Used? && PowerOfTwo(al) && room % 8 == 0 && room + al + PTR <= b.use.room
    ensures var q := RoundUp(b.use.ptr + PTR, al);
      q % al == 0 && q % 8 == 0 && q != 0 && GoodBlock(Block(b.addr, b.size, Used(q, room)))
  {
    GoodUsed(b);
    hide *;
    RoundUpIs(b.use.ptr + PTR, al);
    RoundUpWord(b.use.ptr + PTR, al);
    GoodAgain(b, RoundUp(b.use.ptr + PTR, al), room);
  }

  lemma GoodUsed(b: Block)
    requires GoodBlock(b) && b.use.Used?
    ensures b.use.ptr % 8 == 0 && (b.use.ptr + PTR) % 8 == 0 && b.addr + HDR + PTR <= b.use.ptr
    ensures b.use.ptr + b.use.room <= b.End()
  {
  }

  lemma GoodAgain(b: Block, q: nat, room: nat)
    requires GoodBlock(b) && q % 8 == 0 && room % 8 == 0 && b.addr + HDR + PTR <= q && q + room <= b.End()
    ensures GoodBlock(Block(b.addr, b.size, Used(q, room)))
  {
  }

  lemma AlignedMoves(h: Heap, size: nat, al: nat)
    requires AlignedInRange(size, al) && size > 0 && PowerOfTwo(al)
    requires var (h1, raw) := Malloc(h, AlignedNeed(size, al)); raw != 0 && Live(h1, raw)
    ensures var (h1, raw) := Malloc(h, AlignedNeed(size, al));
      && AlignedAlloc(h, size, al) == (Move(h1, raw, RoundUp(raw + PTR, al), Align8(size)), RoundUp(raw + PTR, al))
  {
  }

  lemma RoomIsWhole(size: nat)
    ensures Align8(size) % 8 == 0 && Align8(size) >= size
  {
  }

  lemma MallocLive(h: Heap, lo: nat, hi: nat, n: nat)
    requires Shape(h, lo, hi) && n < WORD_MOD && Required(n) != 0
    ensures var (h1, raw) := Malloc(h, n);
      && Shape(h1, lo, hi)
      && (raw == 0 ==> h1 == h)
      && (raw != 0 ==> Live(h1, raw) && h1[Owner(h1, raw)].use == Used(raw, Room(n))
                       && LiveUses(h1) - {Used(raw, Room(n))} == LiveUses(h))
  {
    MallocCorrect(h, lo, hi, n);
    var (h1, raw) := Malloc(h, n);
    if raw != 0 {
      RequestArithmetic(n);
      var i := FirstFit(h, Required(n));
      TakeKeepsShape(h, lo, hi, i, Required(n));
      OwnerIs(h1, lo, hi, i);
      FreshUse(h, lo, hi, n);
    }
  }

  /** The second half of kmalloc_aligned: sliding a live pointer up to a multiple of the alignment. */
  lemma MoveCorrect(h: Heap, lo: nat, hi: nat, p: nat, al: nat, room: nat)
    requires Shape(h, lo, hi) && Live(h, p) && PowerOfTwo(al) && room % 8 == 0
    requires room + al + PTR <= h[Owner(h, p)].use.room
    ensures var q := RoundUp(p + PTR, al);
      && Shape(Move(h, p, q, room), lo, hi) && q % al == 0 && q % 8 == 0 && q != 0
      && LiveUses(Move(h, p, q, room)) == LiveUses(h) - {h[Owner(h, p)].use} + {Used(q, room)}
  {
    var q := RoundUp(p + PTR, al);
    var i := Owner(h, p);
    assert GoodBlock(h[i]);
    MovedGood(h[i], al, room);
    hide RoundUp, PowerOfTwo, GoodBlock, LiveUses;
    var b := Block(h[i].addr, h[i].size, Used(q, room));
    MoveShape(h, lo, hi, i, b);
    UpdateLives(h, lo, hi, i, b);
  }

  lemma MoveShape(h: Heap, lo: nat, hi: nat, i: nat, b: Block)
    requires Shape(h, lo, hi) && i < |h| && GoodBlock(b) && b.use.Used? && b.addr == h[i].addr && b.size == h[i].size
    ensures Shape(h[i := b], lo, hi)
  {
  }

  lemma FreshUse(h: Heap, lo: nat, hi: nat, n: nat)
    requires Shape(h, lo, hi) && n < WORD_MOD && Required(n) != 0 && Malloc(h, n).1 != 0
    ensures Used(Malloc(h, n).1, Room(n)) !in LiveUses(h)
  {
    MallocCorrect(h, lo, hi, n);
  }

  lemma {:induction false} PowersApart(a: nat, b: nat)
    requires PowerOfTwo(a) && PowerOfTwo(b) && a < b
    ensures 2 * a <= b
    decreases a
  {
    if a > 1 { PowersApart(a / 2, b / 2); }
  }

  lemma PowerTwice(n: nat)
    requires PowerOfTwo(n)
    ensures PowerOfTwo(2 * n)
  {
  }

  lemma {:induction false} PowerTimes(a: nat, b: nat)
    requires PowerOfTwo(a) && PowerOfTwo(b)
    ensures PowerOfTwo(a * b)
    decreases a
  {
    if a > 1 {
      PowerTimes(a / 2, b);
      assert a == 2 * (a / 2);
      hide PowerOfTwo;
      MulBack(2, a / 2, b);
      PowerTwice(a / 2 * b);
    }
  }

  lemma LargestPower(al: nat)
    requires PowerOfTwo(al) && al < WORD_MOD
    ensures 0 < al <= MAX_REGION
  {
    assert PowerOfTwo(2) && PowerOfTwo(128);
    PowerTimes(2, 128); PowerTimes(256, 128); PowerTimes(256, 256);
    PowerTimes(0x10000, 0x8000); PowerTimes(0x10000, 0x10000);
    PowerTimes(0x1_0000_0000, 0x8000_0000);
    if al > MAX_REGION { PowersApart(MAX_REGION, al); }
  }

  /**
    The pointer of kmalloc_aligned lies in the block it belongs to, with room for the request, exactly when
    none of its sums wraps around.
   */
  lemma AlignedRoomIff(h: Heap, lo: nat, hi: nat, size: nat, al: nat, i: nat)
    requires Shape(h, lo, hi) && 0 < size < WORD_MOD && PowerOfTwo(al) && al < WORD_MOD
    requires AlignedRequest(size, al) != 0 && i == FirstFit(h, Required(AlignedRequest(size, al))) < |h|
    ensures var raw := h[i].addr + HDR + PTR;
      var p := AlignedPlace(raw, al);
      raw <= p && p + size <= TakenEnd(h[i], Required(AlignedRequest(size, al))) <==> AlignedInRange(size, al)
  {
    hide *;
    FitInRegion(h, lo, hi, i, Required(AlignedRequest(size, al)));
    LargestPower(al);
    if AlignedInRange(size, al) {
      AlignedFits(h[i], size, al);
    } else {
      NoBlockFits(h[i], lo, hi, size, al);
    }
  }

  lemma FitInRegion(h: Heap, lo: nat, hi: nat, i: nat, req: nat)
    requires Shape(h, lo, hi) && i == FirstFit(h, req) < |h|
    ensures GoodRegion(lo, hi) && hi <= WORD_MOD && lo <= h[i].addr && h[i].End() <= hi
    ensures Fits(h[i], req) && TakenEnd(h[i], req) <= h[i].End()
  {
    Inside(h, lo, hi, i);
  }

  lemma AlignedSums(size: nat, al: nat)
    requires AlignedInRange(size, al) && al > 0
    ensures var n := AlignedRequest(size, al); n == AlignedNeed(size, al) && Required(n) >= size + al + PTR + HDR + PTR
  {
    var n := AlignedNeed(size, al);
    assert Align8(size) >= size;
    assert Room(size) == Align8(size);
    hide Align8;
    assert AlignedRequest(size, al) == n;
    assert Required(n) == Room(n) + PTR;
  }

  lemma AlignedFits(b: Block, size: nat, al: nat)
    requires size > 0 && al > 0 && AlignedInRange(size, al) && b.End() <= WORD_MOD
    requires Fits(b, Required(AlignedRequest(size, al)))
    ensures var raw := b.addr + HDR + PTR;
      raw <= AlignedPlace(raw, al) && AlignedPlace(raw, al) + size <= TakenEnd(b, Required(AlignedRequest(size, al)))
  {
    AlignedSums(size, al);
    RoundUpIs(b.addr + HDR + PTR + PTR, al);
    Placed(b, size, al, Required(AlignedRequest(size, al)), RoundUp(b.addr + HDR + PTR + PTR, al));
  }

  lemma Placed(b: Block, size: nat, al: nat, req: nat, q: nat)
    requires size > 0 && b.addr + HDR + PTR + PTR <= q < b.addr + HDR + PTR + PTR + al && b.End() <= WORD_MOD
    requires Fits(b, req)
    requires req >= size + al + PTR + HDR + PTR
    ensures q % WORD_MOD == q && b.addr + HDR + PTR <= q && q + size <= TakenEnd(b, req)
  {
  }

  lemma WideRequest(size: nat, al: nat)
    requires PowerOfTwo(al) && al <= MAX_REGION && !AlignedInRange(size, al)
    ensures size >= MAX_REGION - 55
  {
    if al >= 8 { PowerOfTwoWide(al); }
  }

  lemma RegionLimit(lo: nat, hi: nat)
    requires GoodRegion(lo, hi)
    ensures hi - lo <= MAX_REGION - 8 && hi <= WORD_MOD
  {
  }

  /** A request that wraps is larger than what any region leaves above the first place of a pointer. */
  lemma NoBlockFits(b: Block, lo: nat, hi: nat, size: nat, al: nat)
    requires GoodRegion(lo, hi) && lo <= b.addr && b.End() <= hi && PowerOfTwo(al) && al <= MAX_REGION
    requires !AlignedInRange(size, al)
    ensures var raw := b.addr + HDR + PTR; !(raw <= AlignedPlace(raw, al) && AlignedPlace(raw, al) + size <= b.End())
  {
    RoundUpIs(b.addr + HDR + PTR + PTR, al);
    WideRequest(size, al);
    RegionLimit(lo, hi);
    NotPlaced(b, lo, hi, size, al, RoundUp(b.addr + HDR + PTR + PTR, al));
  }

  lemma NotPlaced(b: Block, lo: nat, hi: nat, size: nat, al: nat, q: nat)
    requires lo <= b.addr && b.End() <= hi && hi - lo <= MAX_REGION - 8 && hi <= WORD_MOD && 0 < al <= MAX_REGION
    requires b.addr + HDR + PTR + PTR <= q < b.addr + HDR + PTR + PTR + al && size >= MAX_REGION - 55
    ensures !(b.addr + HDR + PTR <= q % WORD_MOD && q % WORD_MOD + size <= b.End())
  {
    if q >= WORD_MOD { assert q % WORD_MOD == q - WORD_MOD; }
  }

  /** A request of 2^64 - 40 bytes at a multiple of 8 is served by 8 bytes. */
  lemma AlignedGetsLittle(lo: nat, hi: nat)
    requires GoodRegion(lo, hi)
    ensures AlignedRequest(WORD_MOD - 40, 8) == 8 && FirstFit(Fresh(lo, hi), Required(8)) == 0
    ensures var raw := lo + HDR + PTR;
      var p := AlignedPlace(raw, 8);
      !(raw <= p && p + (WORD_MOD - 40) <= TakenEnd(Fresh(lo, hi)[0], Required(8)))
  {
    FreshFits(lo, hi, Required(8));
    assert AlignedRequest(WORD_MOD - 40, 8) == 8 && !AlignedInRange(WORD_MOD - 40, 8) && PowerOfTwo(8);
    hide *;
    AlignedRoomIff(Fresh(lo, hi), lo, hi, WORD_MOD - 40, 8, 0);
  }

  // ---- kfree ------------------------------------------------------------------------------------------

  /** kfree keeps the shape and ends the life of exactly the pointer it is given. */
  lemma KfreeCorrect(h: Heap, lo: nat, hi: nat, p: nat)
    requires Shape(h, lo, hi) && Live(h, p)
    ensures Shape(Kfree(h, p), lo, hi)
    ensures LiveUses(Kfree(h, p)) == LiveUses(h) - {h[Owner(h, p)].use}
    ensures !Live(Kfree(h, p), p)
  {
    var i := Owner(h, p);
    Inside(h, lo, hi, i);
    assert GoodBlock(h[i]);
    ReleaseKeepsShape(h, lo, hi, i);
    ReleaseLives(h, lo, hi, i);
    NotLiveAnyMore(h, lo, hi, p, Kfree(h, p));
  }

  lemma NotLiveAnyMore(h: Heap, lo: nat, hi: nat, p: nat, f: Heap)
    requires Tiles(h, lo, hi) && Live(h, p) && LiveUses(f) == LiveUses(h) - {h[Owner(h, p)].use}
    ensures !Live(f, p)
  {
    if Live(f, p) {
      var k := Owner(f, p);
      assert f[k] in f && f[k].use in LiveUses(f);
      var j :| 0 <= j < |h| && h[j].use == f[k].use;
      OwnerIs(h, lo, hi, j);
      assert false;
    }
  }

  // ---- whole runs -------------------------------------------------------------------------------------

  lemma StepKeepsShape(h: Heap, lo: nat, hi: nat, op: Op)
    requires Shape(h, lo, hi) && Enabled(h, op)
    ensures Shape(Step(h, op), lo, hi)
  {
    match op
    case Alloc(size) => MallocCorrect(h, lo, hi, size);
    case AllocAligned(size, al) => AlignedCorrect(h, lo, hi, size, al);
    case Dispose(p) => if p != 0 { KfreeCorrect(h, lo, hi, p); }
  }

  /** Every run from kmem_init keeps the shape. */
  lemma {:induction false} RunKeepsShape(h: Heap, lo: nat, hi: nat, ops: seq<Op>)
    requires Shape(h, lo, hi) && RunOk(h, ops)
    ensures Shape(Run(h, ops), lo, hi)
    decreases |ops|
  {
    if ops == [] {
    } else {
      StepKeepsShape(h, lo, hi, ops[0]);
      RunKeepsShape(Step(h, ops[0]), lo, hi, ops[1..]);
    }
  }

  /** Payloads of different live pointers never overlap and stay inside the region. */
  lemma PayloadsDisjoint(h: Heap, lo: nat, hi: nat, u: Use, v: Use)
    requires Shape(h, lo, hi) && u in LiveUses(h) && v in LiveUses(h) && u != v
    ensures u.ptr + u.room <= v.ptr || v.ptr + v.room <= u.ptr
    ensures lo < u.ptr && u.ptr + u.room <= hi
  {
    var i :| 0 <= i < |h| && h[i].use == u && h[i].use.Used?;
    var j :| 0 <= j < |h| && h[j].use == v && h[j].use.Used?;
    assert GoodBlock(h[i]) && GoodBlock(h[j]);
    Inside(h, lo, hi, i);
    if i < j { Ordered(h, lo, hi, i, j); } else { Ordered(h, lo, hi, j, i); }
  }

  function FreeBytes(h: Heap): nat {
    if h == [] then 0 else (if h[0].use.Free? then h[0].size else 0) + FreeBytes(h[1..])
  }

  function UsedBytes(h: Heap): nat {
    if h == [] then 0 else (if h[0].use.Used? then h[0].size else 0) + UsedBytes(h[1..])
  }

  lemma {:induction false} SuffixAccounts(h: Heap, lo: nat, hi: nat, k: nat)
    requires Tiles(h, lo, hi) && k < |h|
    ensures FreeBytes(h[k..]) + UsedBytes(h[k..]) + HDR * (|h| - k) == hi - h[k].addr
    decreases |h| - k
  {
    assert h[k..][1..] == h[k + 1..];
    if k + 1 < |h| { SuffixAccounts(h, lo, hi, k + 1); }
  }

  /** In every reachable state free bytes, used bytes and headers add up to the heap size. */
  lemma Accounting(h: Heap, lo: nat, hi: nat)
    requires Shape(h, lo, hi)
    ensures FreeBytes(h) + UsedBytes(h) + HDR * |h| == hi - lo
  {
    SuffixAccounts(h, lo, hi, 0);
    assert h[0..] == h;
  }

  lemma CoalescedPair(h: Heap, i: nat)
    requires Coalesced(h) && i + 1 < |h|
    ensures h[i].use.Used? || h[i + 1].use.Used?
  {
  }

  /** Once nothing is live the heap is again the single free block kmem_init made, in whatever order frees came. */
  lemma Drained(h: Heap, lo: nat, hi: nat)
    requires Shape(h, lo, hi) && LiveUses(h) == {}
    ensures h == Fresh(lo, hi)
  {
    assert forall b :: b in h && b.use.Used? ==> b.use in LiveUses(h);
    assert forall i :: 0 <= i < |h| ==> h[i] in h;
    if |h| > 1 { CoalescedPair(h, 0); assert false; }
    assert h == [h[0]];
  }

  lemma RunDrains(lo: nat, hi: nat, ops: seq<Op>)
    requires GoodRegion(lo, hi) && RunOk(Fresh(lo, hi), ops)
    ensures Shape(Run(Fresh(lo, hi), ops), lo, hi)
    ensures LiveUses(Run(Fresh(lo, hi), ops)) == {} ==> Run(Fresh(lo, hi), ops) == Fresh(lo, hi)
  {
    assert Shape(Fresh(lo, hi), lo, hi);
    RunKeepsShape(Fresh(lo, hi), lo, hi, ops);
    if LiveUses(Run(Fresh(lo, hi), ops)) == {} { Drained(Run(Fresh(lo, hi), ops), lo, hi); }
  }
}
