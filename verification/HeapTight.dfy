/**
  How much of a region each call of freestanding/kmem.c takes: the blocks in use after it, which fix the whole heap,
  and with them how many requests a fresh region serves.
 */
module HeapTight {
  import opened HeapModel
  import opened HeapRuns

  /** The blocks in use, with their place and size. */
  ghost function InUse(h: Heap): set<Block> { set b | b in h && b.use.Used? }

  // ---- the blocks in use fix the heap ---------------------------------------------------------------

  lemma SameStart(h: Heap, lo: nat, hi: nat, k: nat, j: nat)
    requires Tiles(h, lo, hi) && k < |h| && j < |h| && h[j].addr == h[k].addr
    ensures j == k
  {
    if j < k { Ordered(h, lo, hi, j, k); } else if k < j { Ordered(h, lo, hi, k, j); }
  }

  /** A used block of g at the place where h has a block is that block. */
  lemma SharedUsed(g: Heap, h: Heap, lo: nat, hi: nat, k: nat)
    requires Tiles(h, lo, hi) && InUse(g) <= InUse(h)
    requires k < |g| && k < |h| && g[k].addr == h[k].addr && g[k].use.Used?
    ensures g[k] == h[k]
  {
    assert g[k] in InUse(g);
    var j :| 0 <= j < |h| && h[j] == g[k];
    SameStart(h, lo, hi, k, j);
  }

  /** A free block does not end inside a free block of the other heap that starts with it. */
  lemma FreeAsLong(g: Heap, h: Heap, lo: nat, hi: nat, k: nat)
    requires Shape(g, lo, hi) && Shape(h, lo, hi) && InUse(g) <= InUse(h)
    requires k < |g| && k < |h| && g[k].addr == h[k].addr && g[k].use.Free? && h[k].use.Free?
    ensures g[k].size >= h[k].size
  {
    if g[k].size < h[k].size {
      Inside(h, lo, hi, k);
      if k + 1 < |g| {
        CoalescedPair(g, k);
        assert g[k].End() == g[k + 1].addr && g[k + 1] in InUse(g);
        var j :| 0 <= j < |h| && h[j] == g[k + 1];
        if j < k { Ordered(h, lo, hi, j, k); } else if k < j { Ordered(h, lo, hi, k, j); }
        assert false;
      }
    }
  }

  lemma {:induction false} SameUpTo(g: Heap, h: Heap, lo: nat, hi: nat, k: nat)
    requires Shape(g, lo, hi) && Shape(h, lo, hi) && InUse(g) == InUse(h) && k < |g| && k < |h|
    ensures g[k] == h[k]
    decreases k
  {
    if k == 0 {
    } else {
      SameUpTo(g, h, lo, hi, k - 1);
      assert g[k - 1].End() == g[k].addr && h[k - 1].End() == h[k].addr;
    }
    if g[k].use.Used? {
      SharedUsed(g, h, lo, hi, k);
    } else if h[k].use.Used? {
      SharedUsed(h, g, lo, hi, k);
    } else {
      FreeAsLong(g, h, lo, hi, k);
      FreeAsLong(h, g, lo, hi, k);
    }
  }

  lemma NoLonger(g: Heap, h: Heap, lo: nat, hi: nat)
    requires Shape(g, lo, hi) && Shape(h, lo, hi) && InUse(g) == InUse(h)
    ensures |h| <= |g|
  {
    if |g| < |h| {
      SameUpTo(g, h, lo, hi, |g| - 1);
      Inside(h, lo, hi, |g|);
      assert false;
    }
  }

  /** Two heaps of one region with the same blocks in use are the same heap. */
  lemma InUseFixes(g: Heap, h: Heap, lo: nat, hi: nat)
    requires Shape(g, lo, hi) && Shape(h, lo, hi) && InUse(g) == InUse(h)
    ensures g == h
  {
    NoLonger(g, h, lo, hi);
    NoLonger(h, g, lo, hi);
    forall k | 0 <= k < |g| ensures g[k] == h[k] { SameUpTo(g, h, lo, hi, k); }
  }

  // ---- kmalloc ---------------------------------------------------------------------------------------

  /** The bytes a request is given: its own, up to a multiple of 8, in 64 bits. */
  function Payload(size: nat): (n: nat)
    ensures n == Room(size)
  {
    (size + 7) / 8 * 8 % 0x1_0000_0000_0000_0000
  }

  /** The bytes it needs: those and a back pointer. */
  function Need(size: nat): (n: nat)
    ensures n == Required(size)
  {
    (Payload(size) + 8) % 0x1_0000_0000_0000_0000
  }

  /** The first free block of at least that many bytes. */
  ghost predicate FirstFree(h: Heap, need: nat, i: nat) {
    && i < |h| && h[i].use.Free? && h[i].size >= need
    && forall j :: 0 <= j < i && h[j].use.Free? ==> h[j].size < need
  }

  lemma TakeInUse(h: Heap, i: nat, need: nat)
    requires i < |h| && h[i].use.Free? && h[i].size >= need >= 8
    ensures var b := Block(h[i].addr, if h[i].size >= need + 64 then need else h[i].size,
                           Used(h[i].addr + 40, need - 8));
      InUse(Take(h, i, need)) == InUse(h) + {b}
  {
    var t := Take(h, i, need);
    var b := Block(h[i].addr, if h[i].size >= need + 64 then need else h[i].size, Used(h[i].addr + 40, need - 8));
    assert t[i] == b && t[i] in t;
    forall u | u in InUse(h) ensures u in InUse(t) {
      var k :| 0 <= k < |h| && h[k] == u;
      assert h[k] == (if k < i || |t| == |h| then t[k] else t[k + 1]);
    }
    forall u | u in InUse(t) ensures u in InUse(h) + {b} {
      var k :| 0 <= k < |t| && t[k] == u;
      if k < i { assert t[k] == h[k]; }
      else if k > i && |t| == |h| { assert t[k] == h[k]; }
      else if k > i { assert k > i + 1 && t[k] == h[k - 1]; }
    }
  }

  /**
    kmalloc takes the first free block that is large enough. From one with 64 bytes more than it needs it takes
    exactly those, and otherwise the whole block. No other block in use changes.
   */
  lemma MallocTight(h: Heap, lo: nat, hi: nat, size: nat, i: nat)
    requires Shape(h, lo, hi) && 0 < size < 0x1_0000_0000_0000_0000 && Need(size) != 0 && FirstFree(h, Need(size), i)
    ensures var (h', p) := Malloc(h, size);
      var taken := if h[i].size >= Need(size) + 64 then Need(size) else h[i].size;
      && Shape(h', lo, hi) && p == h[i].addr + 40
      && InUse(h') == InUse(h) + {Block(h[i].addr, taken, Used(p, Payload(size)))}
  {
    hide Payload, Room, Need;
    RequestArithmetic(size);
    hide Required;
    FirstFitIs(h, Required(size), i);
    TakeInUse(h, i, Required(size));
    TakeKeepsShape(h, lo, hi, i, Required(size));
    hide Shape, InUse, Take, FirstFit, FirstFree;
  }

  lemma FirstFitIs(h: Heap, need: nat, i: nat)
    requires FirstFree(h, need, i)
    ensures i == FirstFit(h, need)
  {
  }

  /** The block that owns the new pointer is less than 64 bytes larger than needed. */
  lemma OwnerTight(h: Heap, lo: nat, hi: nat, size: nat)
    requires Shape(h, lo, hi) && 0 < size < 0x1_0000_0000_0000_0000 && Need(size) != 0
    ensures var (h', p) := Malloc(h, size);
      && (p != 0 <==> exists i: nat :: FirstFree(h, Need(size), i))
      && (p != 0 ==> Live(h', p) && Need(size) <= h'[Owner(h', p)].size < Need(size) + 64)
  {
    hide Payload, Room, Need;
    RequestArithmetic(size);
    hide Required;
    var i := FirstFit(h, Required(size));
    if i < |h| {
      assert FirstFree(h, Required(size), i);
      TakeKeepsShape(h, lo, hi, i, Required(size));
      OwnerIs(Take(h, i, Required(size)), lo, hi, i);
      hide Shape, FirstFit, FirstFree;
    }
  }

  lemma {:induction false} FreeBytesSum(g: Heap, h: Heap)
    ensures FreeBytes(g + h) == FreeBytes(g) + FreeBytes(h)
  {
    if g == [] {
      assert g + h == h;
    } else {
      assert (g + h)[1..] == g[1..] + h;
      FreeBytesSum(g[1..], h);
    }
  }

  /** Putting other blocks in the place of one. */
  lemma FreeBytesAround(h: Heap, i: nat, m: Heap)
    requires i < |h|
    ensures FreeBytes(h[..i] + m + h[i + 1..]) + FreeBytes([h[i]]) == FreeBytes(h) + FreeBytes(m)
  {
    hide FreeBytes;
    assert h == h[..i] + [h[i]] + h[i + 1..];
    FreeBytesSum(h[..i] + [h[i]], h[i + 1..]);
    FreeBytesSum(h[..i], [h[i]]);
    FreeBytesSum(h[..i] + m, h[i + 1..]);
    FreeBytesSum(h[..i], m);
  }

  /** The free bytes fall by what is needed and a header, or by the block taken whole. */
  lemma FreeBytesFall(h: Heap, lo: nat, hi: nat, size: nat, i: nat)
    requires Shape(h, lo, hi) && 0 < size < 0x1_0000_0000_0000_0000 && Need(size) != 0 && FirstFree(h, Need(size), i)
    ensures var h' := Malloc(h, size).0;
      && FreeBytes(h) == FreeBytes(h') + (if h[i].size >= Need(size) + 64 then Need(size) + 32 else h[i].size)
      && FreeBytes(h) - FreeBytes(h') < Need(size) + 64
  {
    hide Payload, Room, Need;
    RequestArithmetic(size);
    hide Required;
    FirstFitIs(h, Required(size), i);
    TakeFreeBytes(h, i, Required(size));
    hide FreeBytes, Shape, Take, FirstFit, FirstFree;
  }

  /** What kmalloc puts in the place of a block. */
  function Parts(b: Block, need: nat): (m: Heap)
    requires b.size >= need >= 8
  {
    var use := Used(b.addr + 40, need - 8);
    if b.size >= need + 64 then
      [Block(b.addr, need, use), Block(b.addr + 32 + need, b.size - need - 32, Free)]
    else [Block(b.addr, b.size, use)]
  }

  lemma TakeParts(h: Heap, i: nat, need: nat)
    requires i < |h| && h[i].use.Free? && h[i].size >= need >= 8
    ensures Take(h, i, need) == h[..i] + Parts(h[i], need) + h[i + 1..]
  {
  }

  lemma PartsFree(b: Block, need: nat)
    requires b.use.Free? && b.size >= need >= 8
    ensures FreeBytes([b]) == FreeBytes(Parts(b, need)) + if b.size >= need + 64 then need + 32 else b.size
  {
    FewFree(Parts(b, need));
    FewFree([b]);
    hide FreeBytes;
  }

  lemma TakeFreeBytes(h: Heap, i: nat, need: nat)
    requires i < |h| && h[i].use.Free? && h[i].size >= need >= 8
    ensures FreeBytes(h) == FreeBytes(Take(h, i, need)) + if h[i].size >= need + 64 then need + 32 else h[i].size
  {
    hide FreeBytes, Take, Parts;
    TakeParts(h, i, need);
    FreeBytesAround(h, i, Parts(h[i], need));
    PartsFree(h[i], need);
  }

  lemma FewFree(m: Heap)
    ensures |m| == 1 ==> FreeBytes(m) == if m[0].use.Free? then m[0].size else 0
    ensures |m| == 2 && m[0].use.Used? && m[1].use.Free? ==> FreeBytes(m) == m[1].size
  {
    if |m| == 2 { assert m[1..] == [m[1]] && m[1..][1..] == []; }
  }

  // ---- kfree -------------------------------------------------------------------------------------------

  lemma AbsorbInUse(h: Heap, i: nat)
    requires i + 1 < |h| && h[i].use.Free? && h[i + 1].use.Free?
    ensures InUse(Absorb(h, i)) == InUse(h)
  {
    var a := Absorb(h, i);
    forall u | u in InUse(h) ensures u in InUse(a) {
      var k :| 0 <= k < |h| && h[k] == u;
      assert h[k] == (if k < i then a[k] else a[k - 1]);
    }
    forall u | u in InUse(a) ensures u in InUse(h) {
      var k :| 0 <= k < |a| && a[k] == u;
      assert a[k] == (if k < i then h[k] else h[k + 1]);
    }
  }

  lemma UpdateInUse(h: Heap, lo: nat, hi: nat, i: nat, b: Block)
    requires Tiles(h, lo, hi) && i < |h| && h[i].use.Used?
    ensures InUse(h[i := b]) == (InUse(h) - {h[i]}) + if b.use.Used? then {b} else {}
  {
    var g := h[i := b];
    assert g[i] == b && b in g;
    forall u | u in InUse(h) - {h[i]} ensures u in InUse(g) {
      var k :| 0 <= k < |h| && h[k] == u;
      assert g[k] == h[k];
    }
    forall u | u in InUse(g) ensures u in (InUse(h) - {h[i]}) + if b.use.Used? then {b} else {} {
      var k :| 0 <= k < |g| && g[k] == u;
      if k != i {
        assert h[k] in h;
        if h[k] == h[i] { SameStart(h, lo, hi, i, k); }
      }
    }
  }

  /** kfree ends the use of the block of that pointer, and no other block in use changes. */
  lemma KfreeTight(h: Heap, lo: nat, hi: nat, p: nat)
    requires Shape(h, lo, hi) && Live(h, p)
    ensures Shape(Kfree(h, p), lo, hi)
    ensures InUse(Kfree(h, p)) == set b | b in InUse(h) && b.use.ptr != p
  {
    var i := Owner(h, p);
    Inside(h, lo, hi, i);
    assert p != 0 by { assert GoodBlock(h[i]); }
    ReleaseKeepsShape(h, lo, hi, i);
    ReleaseInUse(h, lo, hi, i);
    OnlyOwner(h, lo, hi, p);
  }

  lemma OnlyOwner(h: Heap, lo: nat, hi: nat, p: nat)
    requires Shape(h, lo, hi) && Live(h, p)
    ensures InUse(h) - {h[Owner(h, p)]} == set b | b in InUse(h) && b.use.ptr != p
  {
    forall b | b in InUse(h) && b.use.ptr == p ensures b == h[Owner(h, p)] {
      var k :| 0 <= k < |h| && h[k] == b;
      OwnerIs(h, lo, hi, k);
    }
  }

  lemma ReleaseInUse(h: Heap, lo: nat, hi: nat, i: nat)
    requires Shape(h, lo, hi) && i < |h| && h[i].use.Used?
    ensures InUse(Release(h, i)) == InUse(h) - {h[i]}
  {
    var h1 := h[i := Block(h[i].addr, h[i].size, Free)];
    UpdateInUse(h, lo, hi, i, h1[i]);
    if i + 1 < |h1| && h1[i + 1].use.Free? { AbsorbInUse(h1, i); }
    var h2 := FreedForward(h, i);
    FreedForwardCoalesced(h, i);
    if i > 0 && h2[i - 1].use.Free? { AbsorbInUse(h2, i - 1); }
  }

  /** Freeing what kmalloc has just returned brings the heap back as it was. */
  lemma MallocThenFree(h: Heap, lo: nat, hi: nat, size: nat)
    requires Shape(h, lo, hi) && size < 0x1_0000_0000_0000_0000 && Need(size) != 0
    ensures var (h', p) := Malloc(h, size); (p == 0 || Live(h', p)) && Kfree(h', p) == h
  {
    hide Shape, Need, Required, FirstFree, InUse, Live, Kfree, Malloc;
    MallocCorrect(h, lo, hi, size);
    var (h', p) := Malloc(h, size);
    if p != 0 {
      ZeroRefused(h, size);
      OwnerTight(h, lo, hi, size);
      var i: nat :| FirstFree(h, Need(size), i);
      FirstFreeIn(h, Need(size), i);
      MallocTight(h, lo, hi, size, i);
      var taken := if h[i].size >= Need(size) + 64 then Need(size) else h[i].size;
      FreeUndoes(h, h', lo, hi, Block(h[i].addr, taken, Used(p, Payload(size))));
    } else {
      FreeOfNull(h);
    }
  }

  lemma ZeroRefused(h: Heap, size: nat)
    requires Need(size) != 0
    ensures size == 0 ==> Malloc(h, size).1 == 0
  {
  }

  lemma FreeOfNull(h: Heap)
    ensures Kfree(h, 0) == h
  {
  }

  lemma FirstFreeIn(h: Heap, need: nat, i: nat)
    requires FirstFree(h, need, i)
    ensures i < |h|
  {
  }

  lemma FreeUndoes(h: Heap, g: Heap, lo: nat, hi: nat, b: Block)
    requires Shape(h, lo, hi) && Shape(g, lo, hi) && b.use.Used? && InUse(g) == InUse(h) + {b} && !Live(h, b.use.ptr)
    ensures Live(g, b.use.ptr) && Kfree(g, b.use.ptr) == h
  {
    assert b in InUse(g);
    NotInUse(h, b.use.ptr);
    KfreeTight(g, lo, hi, b.use.ptr);
    hide Shape, Live, Kfree;
    assert InUse(Kfree(g, b.use.ptr)) == InUse(h);
    InUseFixes(Kfree(g, b.use.ptr), h, lo, hi);
  }

  lemma NotInUse(h: Heap, p: nat)
    requires !Live(h, p)
    ensures forall b :: b in InUse(h) ==> b.use.ptr != p
  {
  }

  // ---- kmalloc_aligned ----------------------------------------------------------------------------------

  /** The bytes an aligned request needs: a header, two pointers and the alignment more than its own. */
  function AlignedBytes(size: nat, al: nat): nat { ((size + 7) / 8 * 8 + al + 47) / 8 * 8 + 8 }

  lemma AlignedBytesIs(size: nat, al: nat)
    requires (size + 7) / 8 * 8 + al + 56 <= 0x1_0000_0000_0000_0000
    ensures AlignedInRange(size, al)
    ensures var n := AlignedNeed(size, al);
      n < 0x1_0000_0000_0000_0000 && Required(n) != 0 && Need(n) == AlignedBytes(size, al)
  {
    var a := (size + 7) / 8 * 8;
    assert a == Align8(size);
    hide Align8;
    var n := a + al + 40;
    assert n == AlignedNeed(size, al);
    hide AlignedNeed;
    assert Need(n) == AlignedBytes(size, al) by {
      var w := (n + 7) / 8;
      assert 8 * w <= n + 7;
      assert 8 * w < 0x1_0000_0000_0000_0000;
      assert Payload(n) == 8 * w;
    }
  }

  /**
    kmalloc_aligned takes its block as kmalloc does, and returns the first multiple of the alignment that leaves
    room for two pointers behind the header.
   */
  lemma AlignedTight(h: Heap, lo: nat, hi: nat, size: nat, al: nat, i: nat)
    requires Shape(h, lo, hi) && size > 0 && PowerOfTwo(al)
    requires (size + 7) / 8 * 8 + al + 56 <= 0x1_0000_0000_0000_0000 && FirstFree(h, AlignedBytes(size, al), i)
    ensures AlignedInRange(size, al)
    ensures var (h', p) := AlignedAlloc(h, size, al);
      var need := AlignedBytes(size, al);
      var taken := if h[i].size >= need + 64 then need else h[i].size;
      && Shape(h', lo, hi) && p % al == 0 && h[i].addr + 48 <= p < h[i].addr + 48 + al
      && InUse(h') == InUse(h) + {Block(h[i].addr, taken, Used(p, (size + 7) / 8 * 8))}
  {
    assert al > 0;
    hide Shape, Need, Payload, FirstFree, InUse, Live, Malloc, PowerOfTwo, Owner, RoundUp, Move, LiveUses, AlignedBytes;
    AlignedBytesIs(size, al);
    AlignedCorrect(h, lo, hi, size, al);
    var n := AlignedNeed(size, al);
    assert n > 0;
    hide AlignedInRange, AlignedNeed;
    FirstFreeIn(h, Need(n), i);
    MallocTight(h, lo, hi, n, i);
    MallocCorrect(h, lo, hi, n);
    var (h1, raw) := Malloc(h, n);
    MallocLive(h, lo, hi, n);
    RoundUpIs(raw + 8, al);
    AlignedMoves(h, size, al);
    var taken := if h[i].size >= Need(n) + 64 then Need(n) else h[i].size;
    MoveInUse(h, h1, lo, hi, Block(h[i].addr, taken, Used(raw, Payload(n))), RoundUp(raw + 8, al), Align8(size));
  }

  /** A pointer moved right after its block was taken. */
  lemma MoveInUse(h: Heap, g: Heap, lo: nat, hi: nat, b: Block, q: nat, room: nat)
    requires Shape(g, lo, hi) && b.use.Used? && InUse(g) == InUse(h) + {b} && !Live(h, b.use.ptr)
    ensures Live(g, b.use.ptr)
    ensures InUse(Move(g, b.use.ptr, q, room)) == InUse(h) + {Block(b.addr, b.size, Used(q, room))}
  {
    assert b in InUse(g);
    var k :| 0 <= k < |g| && g[k] == b;
    OwnerIs(g, lo, hi, k);
    UpdateInUse(g, lo, hi, k, Block(b.addr, b.size, Used(q, room)));
    NotInUse(h, b.use.ptr);
    assert b !in InUse(h);
  }

  // ---- how many requests a fresh region serves -------------------------------------------------------------

  predicate Sizes(ss: seq<nat>) { forall k :: 0 <= k < |ss| ==> 0 < ss[k] <= 0xFFFF_FFFF_FFFF_FFF0 }

  /** The bytes the blocks for these requests take, headers included. */
  function Bytes(ss: seq<nat>): nat { if ss == [] then 0 else (ss[0] + 7) / 8 * 8 + 40 + Bytes(ss[1..]) }

  lemma NeedInRange(size: nat)
    requires 0 < size <= 0xFFFF_FFFF_FFFF_FFF0
    ensures Need(size) == (size + 7) / 8 * 8 + 8 && Need(size) >= 16 && Need(size) % 8 == 0
  {
    var w := (size + 7) / 8;
    assert size <= 8 * w < size + 8;
  }

  /** kmalloc returns a pointer for each of these requests, one after the other. */
  predicate Served(h: Heap, ss: seq<nat>)
    requires Sizes(ss)
    decreases |ss|
  {
    if ss == [] then true
    else
      NeedInRange(ss[0]);
      Malloc(h, ss[0]).1 != 0 && Served(Malloc(h, ss[0]).0, ss[1..])
  }

  /** Only the last block is free, and it has that many bytes. */
  ghost predicate Rest(h: Heap, free: nat) {
    |h| > 0 && h[|h| - 1].use.Free? && h[|h| - 1].size == free
    && forall k :: 0 <= k < |h| - 1 ==> h[k].use.Used?
  }

  /** Requests served by a last block of that many bytes: room for all, and 64 bytes too many for all but one. */
  predicate RoomFor(ss: seq<nat>, free: nat) {
    ss == [] || (Bytes(ss) <= free + 32 && (|ss| > 1 ==> Bytes(ss[..|ss| - 1]) + 32 <= free))
  }

  lemma {:induction false} BytesFront(ss: seq<nat>)
    requires |ss| > 1
    ensures Bytes(ss[..|ss| - 1]) == (ss[0] + 7) / 8 * 8 + 40 + Bytes(ss[1..][..|ss| - 2])
  {
    assert ss[..|ss| - 1][1..] == ss[1..][..|ss| - 2];
  }

  lemma RefusedAtOnce(h: Heap, ss: seq<nat>)
    requires Sizes(ss) && ss != [] && forall k :: 0 <= k < |h| && h[k].use.Free? ==> h[k].size < Need(ss[0])
    ensures !Served(h, ss)
  {
    NeedInRange(ss[0]);
    assert FirstFit(h, Need(ss[0])) == |h|;
  }

  lemma TakeLast(h: Heap, free: nat, size: nat)
    requires Rest(h, free) && 0 < size <= 0xFFFF_FFFF_FFFF_FFF0
    ensures Need(size) >= 16 && var (h', p) := Malloc(h, size);
      && (p != 0 <==> free >= Need(size))
      && (free >= Need(size) + 64 ==> Rest(h', free - Need(size) - 32))
      && (Need(size) <= free < Need(size) + 64 ==> forall k :: 0 <= k < |h'| ==> h'[k].use.Used?)
  {
    NeedInRange(size);
    hide Need, Payload, Required, Room;
    var need := Required(size);
    var i := |h| - 1;
    if free >= need {
      assert FirstFit(h, need) == i;
    } else {
      assert FirstFit(h, need) == |h|;
    }
  }

  /** What room for the rest means for the whole list. */
  lemma RoomForRest(ss: seq<nat>, free: nat)
    requires Sizes(ss) && ss != []
    ensures var need := Need(ss[0]);
      && (free < need ==> !RoomFor(ss, free))
      && (need <= free < need + 64 ==> (RoomFor(ss, free) <==> |ss| == 1))
      && (free >= need + 64 ==> (RoomFor(ss, free) <==> RoomFor(ss[1..], free - need - 32)))
  {
    NeedInRange(ss[0]);
    hide Need;
    if |ss| > 1 {
      NeedInRange(ss[1]);
      BytesFront(ss);
    }
  }

  lemma ServedStep(h: Heap, ss: seq<nat>)
    requires Sizes(ss) && ss != []
    ensures Need(ss[0]) != 0
    ensures Served(h, ss) <==> Malloc(h, ss[0]).1 != 0 && Served(Malloc(h, ss[0]).0, ss[1..])
  {
    NeedInRange(ss[0]);
  }

  lemma {:induction false} ServedIff(h: Heap, free: nat, ss: seq<nat>)
    requires Rest(h, free) && Sizes(ss)
    ensures Served(h, ss) <==> RoomFor(ss, free)
    decreases |ss|
  {
    if ss == [] {
    } else {
      TakeLast(h, free, ss[0]);
      ServedStep(h, ss);
      RoomForRest(ss, free);
      var need, h' := Need(ss[0]), Malloc(h, ss[0]).0;
      hide Rest, Need, Required, Malloc, RoomFor, Served;
      if free >= need + 64 {
        ServedIff(h', free - need - 32, ss[1..]);
      } else if need <= free && |ss| == 1 {
        ServedNone(h');
      } else if need <= free {
        RefusedAtOnce(h', ss[1..]);
      }
    }
  }

  lemma ServedNone(h: Heap)
    ensures Served(h, [])
  {
  }

  /**
    A fresh region of n bytes serves a list of requests exactly when their blocks fit in it, with 64 bytes to spare
    for all but the last one.
   */
  lemma FreshServesIff(lo: nat, hi: nat, ss: seq<nat>)
    requires GoodRegion(lo, hi) && Sizes(ss)
    ensures Served(Fresh(lo, hi), ss) <==>
      Bytes(ss) <= hi - lo && (|ss| > 1 ==> Bytes(ss[..|ss| - 1]) + 64 <= hi - lo)
  {
    ServedIff(Fresh(lo, hi), hi - lo - 32, ss);
  }
}
