/**
  How freestanding/kmem.c lays a heap out in memory: doubly linked headers {size, is_free, next, prev}
  of four 8-byte words, and the word below each live pointer that points back to its block.
  Each operation is a list of stores; the lemmas say which heap the memory holds afterwards.
 */
module HeapMemory {
  import opened HeapModel

  /** 8-byte words by address. Words never stored to hold some arbitrary value; here, 0. */
  type Mem = map<nat, nat>

  function Rd(m: Mem, a: nat): nat { if a in m then m[a] else 0 }

  const FREE: nat := 8
  const NEXT: nat := 16
  const PREV: nat := 24

  function NextOf(h: Heap, i: nat): nat { if i + 1 < |h| then h[i + 1].addr else 0 }
  function PrevOf(h: Heap, i: nat): nat { if 0 < i <= |h| then h[i - 1].addr else 0 }

  ghost predicate Header(m: Mem, h: Heap, i: nat)
    requires i < |h|
  {
    var b := h[i];
    && Rd(m, b.addr) == b.size
    && Rd(m, b.addr + FREE) == (if b.use.Free? then 1 else 0)
    && Rd(m, b.addr + NEXT) == NextOf(h, i)
    && Rd(m, b.addr + PREV) == PrevOf(h, i)
    && (b.use.Used? && b.use.ptr >= PTR ==> Rd(m, b.use.ptr - PTR) == b.addr)
  }

  ghost predicate Rep(m: Mem, h: Heap) { forall i :: 0 <= i < |h| ==> Header(m, h, i) }

  // ---- stores ------------------------------------------------------------------------------------

  datatype Store = Store(at: nat, val: nat)

  function Apply(m: Mem, s: seq<Store>): Mem {
    if s == [] then m else Apply(m, s[..|s| - 1])[s[|s| - 1].at := s[|s| - 1].val]
  }

  lemma ApplyOne(m: Mem, s: seq<Store>, x: Store)
    ensures Apply(m, s + [x]) == Apply(m, s)[x.at := x.val]
  {
    assert (s + [x])[..|s|] == s;
  }

  lemma {:induction false} ApplyAppend(m: Mem, s: seq<Store>, t: seq<Store>)
    ensures Apply(m, s + t) == Apply(Apply(m, s), t)
    decreases |t|
  {
    if t == [] {
      assert s + t == s;
    } else {
      var k := |t| - 1;
      assert s + t == (s + t[..k]) + [t[k]];
      ApplyOne(m, s + t[..k], t[k]);
      ApplyAppend(m, s, t[..k]);
    }
  }

  lemma {:induction false} ReadMiss(m: Mem, s: seq<Store>, a: nat)
    requires forall k :: 0 <= k < |s| ==> s[k].at != a
    ensures Rd(Apply(m, s), a) == Rd(m, a)
    decreases |s|
  {
    if s == [] {
    } else {
      ReadMiss(m, s[..|s| - 1], a);
    }
  }

  lemma {:induction false} ReadHit(m: Mem, s: seq<Store>, k: nat)
    requires k < |s| && forall l :: k < l < |s| ==> s[l].at != s[k].at
    ensures Rd(Apply(m, s), s[k].at) == s[k].val
    decreases |s|
  {
    if k < |s| - 1 { ReadHit(m, s[..|s| - 1], k); }
  }

  // ---- kmalloc -------------------------------------------------------------------------------------

  function SplitStores(h: Heap, i: nat, req: nat): seq<Store>
    requires i < |h| && Splits(h[i], req)
  {
    var b := h[i];
    var n := b.addr + HDR + req;
    [Store(n, b.size - req - HDR), Store(n + FREE, 1), Store(n + NEXT, NextOf(h, i)), Store(n + PREV, b.addr)]
    + (if i + 1 < |h| then [Store(h[i + 1].addr + PREV, n)] else [])
    + [Store(b.addr + NEXT, n), Store(b.addr, req)]
  }

  function GrantStores(b: Block): seq<Store> {
    [Store(b.addr + FREE, 0), Store(b.addr + HDR, b.addr)]
  }

  /** The stores of kmalloc once it has chosen block i, in order. */
  function TakeStores(h: Heap, i: nat, req: nat): seq<Store>
    requires i < |h|
  {
    (if Splits(h[i], req) then SplitStores(h, i, req) else []) + GrantStores(h[i])
  }

  /** The words of a used or free block that Rep speaks about. */
  ghost predicate WordOf(b: Block, a: nat) {
    || a == b.addr || a == b.addr + FREE || a == b.addr + NEXT || a == b.addr + PREV
    || (b.use.Used? && b.use.ptr >= PTR && a == b.use.ptr - PTR)
  }

  lemma HeaderKept(m: Mem, m': Mem, h: Heap, i: nat, h': Heap, j: nat)
    requires i < |h| && j < |h'| && h[i] == h'[j] && Header(m, h, i)
    requires NextOf(h, i) == NextOf(h', j) && PrevOf(h, i) == PrevOf(h', j)
    requires forall a :: WordOf(h[i], a) ==> Rd(m', a) == Rd(m, a)
    ensures Header(m', h', j)
  {
    var b := h[i];
    assert WordOf(b, b.addr) && WordOf(b, b.addr + FREE) && WordOf(b, b.addr + NEXT) && WordOf(b, b.addr + PREV);
    assert b.use.Used? && b.use.ptr >= PTR ==> WordOf(b, b.use.ptr - PTR);
  }

  lemma WordsInside(b: Block, a: nat)
    requires GoodBlock(b) && WordOf(b, a)
    ensures b.addr <= a < b.End()
  {
  }

  /** No word of block j is stored to when every store lies in a block other than j. */
  lemma WordsMissed(m: Mem, s: seq<Store>, h: Heap, lo: nat, hi: nat, j: nat, i: nat)
    requires Tiles(h, lo, hi) && j < |h| && i < |h| && j != i
    requires forall k :: 0 <= k < |s| ==>
      h[i].addr <= s[k].at < h[i].End() || (i + 1 < |h| && i + 1 != j && s[k].at == h[i + 1].addr + PREV)
    ensures forall a :: WordOf(h[j], a) ==> Rd(Apply(m, s), a) == Rd(m, a)
  {
    forall a | WordOf(h[j], a) ensures Rd(Apply(m, s), a) == Rd(m, a) {
      WordsInside(h[j], a);
      Apart(h, lo, hi, i, j);
      if i + 1 < |h| && i + 1 != j { Apart(h, lo, hi, i + 1, j); }
      ReadMiss(m, s, a);
    }
  }

  lemma Apart(h: Heap, lo: nat, hi: nat, i: nat, j: nat)
    requires Tiles(h, lo, hi) && i < |h| && j < |h| && i != j
    ensures h[i].End() <= h[j].addr || h[j].End() <= h[i].addr
    ensures GoodBlock(h[i]) && GoodBlock(h[j])
  {
    if i < j { Ordered(h, lo, hi, i, j); } else { Ordered(h, lo, hi, j, i); }
  }

  lemma TakeStoresRange(h: Heap, lo: nat, hi: nat, i: nat, req: nat)
    requires Tiles(h, lo, hi) && i < |h|
    ensures var s := TakeStores(h, i, req);
      forall k :: 0 <= k < |s| ==>
        h[i].addr <= s[k].at < h[i].End() || (i + 1 < |h| && s[k].at == h[i + 1].addr + PREV)
  {
    assert GoodBlock(h[i]);
  }

  lemma SplitReadsNew(m: Mem, h: Heap, lo: nat, hi: nat, i: nat, req: nat)
    requires Tiles(h, lo, hi) && i < |h| && req >= PTR && Fits(h[i], req) && Splits(h[i], req)
    ensures var m' := Apply(m, TakeStores(h, i, req));
      var n := h[i].addr + HDR + req;
      && Rd(m', n) == h[i].size - req - HDR && Rd(m', n + FREE) == 1
      && Rd(m', n + NEXT) == NextOf(h, i) && Rd(m', n + PREV) == h[i].addr
  {
    var s := TakeStores(h, i, req);
    var n := h[i].addr + HDR + req;
    assert s[0].at == n && s[1].at == n + FREE && s[2].at == n + NEXT && s[3].at == n + PREV;
    assert forall l :: 4 <= l < |s| ==> s[l].at < n || s[l].at > n + PREV;
    ReadHit(m, s, 0); ReadHit(m, s, 1); ReadHit(m, s, 2); ReadHit(m, s, 3);
  }

  lemma SplitReadsOld(m: Mem, h: Heap, lo: nat, hi: nat, i: nat, req: nat)
    requires Tiles(h, lo, hi) && i < |h| && req >= PTR && Fits(h[i], req) && Splits(h[i], req)
    ensures var m' := Apply(m, TakeStores(h, i, req));
      var b := h[i];
      && Rd(m', b.addr) == req && Rd(m', b.addr + FREE) == 0 && Rd(m', b.addr + NEXT) == b.addr + HDR + req
      && Rd(m', b.addr + PREV) == Rd(m, b.addr + PREV) && Rd(m', b.addr + HDR) == b.addr
      && (i + 1 < |h| ==> Rd(m', h[i + 1].addr + PREV) == b.addr + HDR + req)
  {
    var s := TakeStores(h, i, req);
    var b := h[i];
    var d := if i + 1 < |h| then 1 else 0;
    assert |s| == 8 + d;
    assert s[4 + d] == Store(b.addr + NEXT, b.addr + HDR + req) && s[5 + d] == Store(b.addr, req);
    assert s[6 + d] == Store(b.addr + FREE, 0) && s[7 + d] == Store(b.addr + HDR, b.addr);
    if d == 1 { assert h[i + 1].addr == b.End(); ReadHit(m, s, 4); }
    ReadHit(m, s, 4 + d); ReadHit(m, s, 5 + d); ReadHit(m, s, 6 + d); ReadHit(m, s, 7 + d);
    ReadMiss(m, s, b.addr + PREV);
  }

  /** The block after the one stored into: only its prev word may have changed. */
  lemma NextKept(m: Mem, s: seq<Store>, h: Heap, lo: nat, hi: nat, i: nat)
    requires Tiles(h, lo, hi) && i + 1 < |h|
    requires forall k :: 0 <= k < |s| ==> h[i].addr <= s[k].at < h[i].End() || s[k].at == h[i + 1].addr + PREV
    ensures forall a :: WordOf(h[i + 1], a) && a != h[i + 1].addr + PREV ==> Rd(Apply(m, s), a) == Rd(m, a)
  {
    forall a | WordOf(h[i + 1], a) && a != h[i + 1].addr + PREV ensures Rd(Apply(m, s), a) == Rd(m, a) {
      assert GoodBlock(h[i + 1]);
      WordsInside(h[i + 1], a);
      ReadMiss(m, s, a);
    }
  }

  lemma HeaderRelinked(m: Mem, m': Mem, h: Heap, i: nat, h': Heap, j: nat)
    requires i < |h| && j < |h'| && h[i] == h'[j] && Header(m, h, i) && GoodBlock(h[i])
    requires NextOf(h, i) == NextOf(h', j) && Rd(m', h[i].addr + PREV) == PrevOf(h', j)
    requires forall a :: WordOf(h[i], a) && a != h[i].addr + PREV ==> Rd(m', a) == Rd(m, a)
    ensures Header(m', h', j)
  {
    var b := h[i];
    assert WordOf(b, b.addr) && WordOf(b, b.addr + FREE) && WordOf(b, b.addr + NEXT);
    assert b.use.Used? && b.use.ptr >= PTR ==> WordOf(b, b.use.ptr - PTR);
  }

  /** Block j of the heap before a split is block k after it, between the same neighbours but for the new block. */
  lemma TakeNeighbours(h: Heap, i: nat, req: nat, j: nat, k: nat)
    requires i < |h| && req >= PTR && Fits(h[i], req) && Splits(h[i], req)
    requires j < |h| && ((j < i && k == j) || (j > i && k == j + 1))
    ensures var t := Take(h, i, req);
      && k < |t| && t[k] == h[j] && NextOf(t, k) == NextOf(h, j)
      && PrevOf(t, k) == if j == i + 1 then h[i].addr + HDR + req else PrevOf(h, j)
  {
    var t := Take(h, i, req);
    assert |t| == |h| + 1 && t[i].addr == h[i].addr && t[i + 1].addr == h[i].addr + HDR + req;
    if j < i {
      assert t[j] == h[j] && (j + 1 < i ==> t[j + 1] == h[j + 1]) && (j > 0 ==> t[j - 1] == h[j - 1]);
    } else {
      assert t[k] == h[j] && (j + 1 < |h| ==> t[k + 1] == h[j + 1]) && (j > i + 1 ==> t[k - 1] == h[j - 1]);
    }
  }

  lemma HeaderOf(m: Mem, h: Heap, i: nat)
    requires Rep(m, h) && i < |h|
    ensures Header(m, h, i)
  {
  }

  lemma GoodOf(h: Heap, lo: nat, hi: nat, i: nat)
    requires Tiles(h, lo, hi) && i < |h|
    ensures GoodBlock(h[i])
  {
  }

  lemma TakeSplitBefore(m: Mem, h: Heap, lo: nat, hi: nat, i: nat, req: nat, j: nat)
    requires Tiles(h, lo, hi) && Rep(m, h) && j < i < |h| && req >= PTR && Fits(h[i], req) && Splits(h[i], req)
    ensures Header(Apply(m, TakeStores(h, i, req)), Take(h, i, req), j)
  {
    hide *;
    HeaderOf(m, h, j);
    TakeNeighbours(h, i, req, j, j);
    TakeStoresRange(h, lo, hi, i, req);
    WordsMissed(m, TakeStores(h, i, req), h, lo, hi, j, i);
    HeaderKept(m, Apply(m, TakeStores(h, i, req)), h, j, Take(h, i, req), j);
  }

  lemma TakeSplitAt(m: Mem, h: Heap, lo: nat, hi: nat, i: nat, req: nat)
    requires Tiles(h, lo, hi) && Rep(m, h) && i < |h| && req >= PTR && Fits(h[i], req) && Splits(h[i], req)
    ensures var m' := Apply(m, TakeStores(h, i, req));
      i + 1 < |Take(h, i, req)| && Header(m', Take(h, i, req), i) && Header(m', Take(h, i, req), i + 1)
  {
    hide *;
    HeaderOf(m, h, i);
    SplitReadsNew(m, h, lo, hi, i, req);
    SplitReadsOld(m, h, lo, hi, i, req);
    SplitHeaders(Apply(m, TakeStores(h, i, req)), h, i, req, Rd(m, h[i].addr + PREV));
  }

  /** Memory that reads so at the old and the new header holds both. */
  lemma SplitHeaders(m: Mem, h: Heap, i: nat, req: nat, prev: nat)
    requires i < |h| && req >= PTR && Fits(h[i], req) && Splits(h[i], req) && prev == PrevOf(h, i)
    requires var b := h[i];
      && Rd(m, b.addr) == req && Rd(m, b.addr + FREE) == 0 && Rd(m, b.addr + NEXT) == b.addr + HDR + req
      && Rd(m, b.addr + PREV) == prev && Rd(m, b.addr + HDR) == b.addr
    requires var n := h[i].addr + HDR + req;
      && Rd(m, n) == h[i].size - req - HDR && Rd(m, n + FREE) == 1 && Rd(m, n + NEXT) == NextOf(h, i)
      && Rd(m, n + PREV) == h[i].addr
    ensures i + 1 < |Take(h, i, req)| && Header(m, Take(h, i, req), i) && Header(m, Take(h, i, req), i + 1)
  {
    var t := Take(h, i, req);
    assert i > 0 ==> t[i - 1] == h[i - 1];
    assert i + 1 < |h| ==> t[i + 2] == h[i + 1];
    assert NextOf(t, i + 1) == NextOf(h, i) && PrevOf(t, i) == PrevOf(h, i);
  }

  lemma TakeSplitNext(m: Mem, h: Heap, lo: nat, hi: nat, i: nat, req: nat)
    requires Tiles(h, lo, hi) && Rep(m, h) && i + 1 < |h| && req >= PTR && Fits(h[i], req) && Splits(h[i], req)
    ensures Header(Apply(m, TakeStores(h, i, req)), Take(h, i, req), i + 2)
  {
    hide *;
    HeaderOf(m, h, i + 1);
    GoodOf(h, lo, hi, i + 1);
    TakeNeighbours(h, i, req, i + 1, i + 2);
    TakeStoresRange(h, lo, hi, i, req);
    SplitReadsOld(m, h, lo, hi, i, req);
    NextKept(m, TakeStores(h, i, req), h, lo, hi, i);
    HeaderRelinked(m, Apply(m, TakeStores(h, i, req)), h, i + 1, Take(h, i, req), i + 2);
  }

  lemma TakeSplitAfter(m: Mem, h: Heap, lo: nat, hi: nat, i: nat, req: nat, j: nat)
    requires Tiles(h, lo, hi) && Rep(m, h) && i < |h| && req >= PTR && Fits(h[i], req) && Splits(h[i], req)
    requires i + 1 < j < |h|
    ensures Header(Apply(m, TakeStores(h, i, req)), Take(h, i, req), j + 1)
  {
    hide *;
    HeaderOf(m, h, j);
    TakeNeighbours(h, i, req, j, j + 1);
    TakeStoresRange(h, lo, hi, i, req);
    WordsMissed(m, TakeStores(h, i, req), h, lo, hi, j, i);
    HeaderKept(m, Apply(m, TakeStores(h, i, req)), h, j, Take(h, i, req), j + 1);
  }

  lemma TakeSplitRep(m: Mem, h: Heap, lo: nat, hi: nat, i: nat, req: nat)
    requires Tiles(h, lo, hi) && Rep(m, h) && i < |h| && req >= PTR && Fits(h[i], req) && Splits(h[i], req)
    ensures Rep(Apply(m, TakeStores(h, i, req)), Take(h, i, req))
  {
    hide Tiles, TakeStores, Header, Apply, NextOf, PrevOf, Fits, Splits, Take;
    TakeLength(h, i, req);
    forall j | 0 <= j < |h| + 1 ensures Header(Apply(m, TakeStores(h, i, req)), Take(h, i, req), j) {
      if j < i { TakeSplitBefore(m, h, lo, hi, i, req, j); }
      else if j <= i + 1 { TakeSplitAt(m, h, lo, hi, i, req); }
      else if j == i + 2 { TakeSplitNext(m, h, lo, hi, i, req); }
      else { TakeSplitAfter(m, h, lo, hi, i, req, j - 1); }
    }
  }

  lemma TakeLength(h: Heap, i: nat, req: nat)
    requires i < |h| && req >= PTR && Fits(h[i], req) && Splits(h[i], req)
    ensures |Take(h, i, req)| == |h| + 1
  {
  }

  /** A change of use, or of the live pointer, that keeps addresses and sizes. */
  lemma UpdateRep(m: Mem, s: seq<Store>, h: Heap, lo: nat, hi: nat, i: nat, b: Block)
    requires Tiles(h, lo, hi) && Rep(m, h) && i < |h| && b.addr == h[i].addr && b.size == h[i].size
    requires forall k :: 0 <= k < |s| ==> h[i].addr <= s[k].at < h[i].End()
    requires Header(Apply(m, s), h[i := b], i)
    ensures Rep(Apply(m, s), h[i := b])
  {
    var m' := Apply(m, s);
    var t := h[i := b];
    forall j | 0 <= j < |t| ensures Header(m', t, j) {
      if j != i {
        assert NextOf(t, j) == NextOf(h, j) && PrevOf(t, j) == PrevOf(h, j);
        WordsMissed(m, s, h, lo, hi, j, i);
        HeaderKept(m, m', h, j, t, j);
      }
    }
  }

  lemma TakeWholeRep(m: Mem, h: Heap, lo: nat, hi: nat, i: nat, req: nat)
    requires Tiles(h, lo, hi) && Rep(m, h) && i < |h| && req >= PTR && Fits(h[i], req) && !Splits(h[i], req)
    ensures Rep(Apply(m, TakeStores(h, i, req)), Take(h, i, req))
  {
    var b := h[i];
    assert TakeStores(h, i, req) == GrantStores(b);
    assert Take(h, i, req) == h[i := Block(b.addr, b.size, Used(b.addr + HDR + PTR, req - PTR))];
    GoodOf(h, lo, hi, i);
    HeaderOf(m, h, i);
    GrantInside(b);
    assert b.size >= PTR;
    hide *;
    GrantHeader(m, h, i, req - PTR);
    UpdateRep(m, GrantStores(b), h, lo, hi, i, Block(b.addr, b.size, Used(b.addr + HDR + PTR, req - PTR)));
  }

  lemma GrantInside(b: Block)
    requires GoodBlock(b)
    ensures forall k :: 0 <= k < |GrantStores(b)| ==> b.addr <= GrantStores(b)[k].at < b.End()
  {
  }

  lemma GrantHeader(m: Mem, h: Heap, i: nat, room: nat)
    requires i < |h| && Header(m, h, i) && h[i].size >= PTR
    ensures Header(Apply(m, GrantStores(h[i])),
      h[i := Block(h[i].addr, h[i].size, Used(h[i].addr + HDR + PTR, room))], i)
  {
    var b := h[i];
    var s := GrantStores(b);
    hide Apply;
    ReadHit(m, s, 0); ReadHit(m, s, 1);
    ReadMiss(m, s, b.addr); ReadMiss(m, s, b.addr + NEXT); ReadMiss(m, s, b.addr + PREV);
  }

  lemma TakeRep(m: Mem, h: Heap, lo: nat, hi: nat, i: nat, req: nat)
    requires Tiles(h, lo, hi) && Rep(m, h) && i < |h| && req >= PTR && Fits(h[i], req)
    ensures Rep(Apply(m, TakeStores(h, i, req)), Take(h, i, req))
  {
    if Splits(h[i], req) { TakeSplitRep(m, h, lo, hi, i, req); } else { TakeWholeRep(m, h, lo, hi, i, req); }
  }

  // ---- kmalloc_aligned ---------------------------------------------------------------------------

  lemma MoveRep(m: Mem, h: Heap, lo: nat, hi: nat, i: nat, q: nat, room: nat)
    requires Tiles(h, lo, hi) && Rep(m, h) && i < |h| && h[i].use.Used?
    requires h[i].addr + HDR + PTR <= q && q <= h[i].End()
    ensures Rep(Apply(m, [Store(q - PTR, h[i].addr)]), h[i := Block(h[i].addr, h[i].size, Used(q, room))])
  {
    var s := [Store(q - PTR, h[i].addr)];
    var b := h[i];
    assert Header(m, h, i);
    ReadHit(m, s, 0);
    ReadMiss(m, s, b.addr); ReadMiss(m, s, b.addr + FREE); ReadMiss(m, s, b.addr + NEXT); ReadMiss(m, s, b.addr + PREV);
    UpdateRep(m, s, h, lo, hi, i, Block(b.addr, b.size, Used(q, room)));
  }

  // ---- kfree ---------------------------------------------------------------------------------------

  lemma MarkFreeRep(m: Mem, h: Heap, lo: nat, hi: nat, i: nat)
    requires Tiles(h, lo, hi) && Rep(m, h) && i < |h|
    ensures Rep(Apply(m, [Store(h[i].addr + FREE, 1)]), h[i := Block(h[i].addr, h[i].size, Free)])
  {
    var s := [Store(h[i].addr + FREE, 1)];
    var b := h[i];
    assert Header(m, h, i);
    ReadHit(m, s, 0);
    ReadMiss(m, s, b.addr); ReadMiss(m, s, b.addr + NEXT); ReadMiss(m, s, b.addr + PREV);
    UpdateRep(m, s, h, lo, hi, i, Block(b.addr, b.size, Free));
  }

  function AbsorbStores(h: Heap, i: nat): seq<Store>
    requires i + 1 < |h|
  {
    [Store(h[i].addr, h[i].size + HDR + h[i + 1].size), Store(h[i].addr + NEXT, NextOf(h, i + 1))]
    + if i + 2 < |h| then [Store(h[i + 2].addr + PREV, h[i].addr)] else []
  }

  lemma AbsorbMissed(m: Mem, h: Heap, lo: nat, hi: nat, i: nat, j: nat)
    requires Tiles(h, lo, hi) && i + 1 < |h| && j < |h| && j != i
    ensures forall a :: WordOf(h[j], a) && (j == i + 2 ==> a != h[j].addr + PREV) ==>
      Rd(Apply(m, AbsorbStores(h, i)), a) == Rd(m, a)
  {
    var s := AbsorbStores(h, i);
    forall a | WordOf(h[j], a) && (j == i + 2 ==> a != h[j].addr + PREV)
      ensures Rd(Apply(m, s), a) == Rd(m, a)
    {
      Apart(h, lo, hi, i, j);
      WordsInside(h[j], a);
      if i + 2 < |h| && j != i + 2 { Apart(h, lo, hi, i + 2, j); }
      ReadMiss(m, s, a);
    }
  }

  lemma AbsorbReads(m: Mem, h: Heap, lo: nat, hi: nat, i: nat)
    requires Tiles(h, lo, hi) && i + 1 < |h|
    ensures var m' := Apply(m, AbsorbStores(h, i));
      var b := h[i];
      && Rd(m', b.addr) == b.size + HDR + h[i + 1].size && Rd(m', b.addr + NEXT) == NextOf(h, i + 1)
      && Rd(m', b.addr + FREE) == Rd(m, b.addr + FREE) && Rd(m', b.addr + PREV) == Rd(m, b.addr + PREV)
      && (i + 2 < |h| ==> Rd(m', h[i + 2].addr + PREV) == b.addr)
  {
    var s := AbsorbStores(h, i);
    var b := h[i];
    if i + 2 < |h| { Apart(h, lo, hi, i, i + 2); Ordered(h, lo, hi, i, i + 2); ReadHit(m, s, 2); }
    ReadHit(m, s, 0); ReadHit(m, s, 1);
    ReadMiss(m, s, b.addr + FREE); ReadMiss(m, s, b.addr + PREV);
  }

  lemma AbsorbFar(m: Mem, h: Heap, lo: nat, hi: nat, i: nat, j: nat)
    requires Tiles(h, lo, hi) && Rep(m, h) && i + 1 < |h| && j < |h| && (j < i || j > i + 2)
    ensures Header(Apply(m, AbsorbStores(h, i)), Absorb(h, i), if j < i then j else j - 1)
  {
    var t := Absorb(h, i);
    var k := if j < i then j else j - 1;
    assert t[k] == h[j];
    AbsorbMissed(m, h, lo, hi, i, j);
    assert j < i ==> t[k + 1].addr == h[j + 1].addr && (j > 0 ==> t[k - 1] == h[j - 1]);
    assert j > i ==> t[k - 1] == h[j - 1] && (j + 1 < |h| ==> t[k + 1] == h[j + 1]);
    assert NextOf(t, k) == NextOf(h, j) && PrevOf(t, k) == PrevOf(h, j);
    HeaderKept(m, Apply(m, AbsorbStores(h, i)), h, j, t, k);
  }

  lemma AbsorbNear(m: Mem, h: Heap, lo: nat, hi: nat, i: nat)
    requires Tiles(h, lo, hi) && Rep(m, h) && i + 1 < |h| && h[i].use.Free?
    ensures var m' := Apply(m, AbsorbStores(h, i));
      Header(m', Absorb(h, i), i) && (i + 2 < |h| ==> Header(m', Absorb(h, i), i + 1))
  {
    var m' := Apply(m, AbsorbStores(h, i));
    var t := Absorb(h, i);
    AbsorbReads(m, h, lo, hi, i);
    assert Header(m, h, i);
    assert i > 0 ==> t[i - 1] == h[i - 1];
    assert PrevOf(t, i) == PrevOf(h, i);
    if i + 2 < |h| { AbsorbNext(m, h, lo, hi, i); }
  }

  lemma AbsorbNext(m: Mem, h: Heap, lo: nat, hi: nat, i: nat)
    requires Tiles(h, lo, hi) && Rep(m, h) && i + 2 < |h| && h[i].use.Free?
    ensures Header(Apply(m, AbsorbStores(h, i)), Absorb(h, i), i + 1) && NextOf(Absorb(h, i), i) == NextOf(h, i + 1)
  {
    AbsorbReads(m, h, lo, hi, i);
    AbsorbedNext(h, i);
    GoodOf(h, lo, hi, i + 2);
    HeaderOf(m, h, i + 2);
    AbsorbMissed(m, h, lo, hi, i, i + 2);
    hide *;
    HeaderRelinked(m, Apply(m, AbsorbStores(h, i)), h, i + 2, Absorb(h, i), i + 1);
  }

  lemma AbsorbedNext(h: Heap, i: nat)
    requires i + 2 < |h|
    ensures var t := Absorb(h, i);
      && i + 1 < |t| && t[i + 1] == h[i + 2] && NextOf(t, i) == NextOf(h, i + 1) && NextOf(t, i + 1) == NextOf(h, i + 2)
      && PrevOf(t, i + 1) == h[i].addr
  {
    var t := Absorb(h, i);
    assert i + 3 < |h| ==> t[i + 2] == h[i + 3];
  }

  lemma AbsorbRep(m: Mem, h: Heap, lo: nat, hi: nat, i: nat)
    requires Tiles(h, lo, hi) && Rep(m, h) && i + 1 < |h| && h[i].use.Free?
    ensures Rep(Apply(m, AbsorbStores(h, i)), Absorb(h, i))
  {
    var t := Absorb(h, i);
    AbsorbNear(m, h, lo, hi, i);
    assert |t| == |h| - 1;
    hide Header, Apply, AbsorbStores, Absorb, GoodBlock;
    forall j | 0 <= j < |t| ensures Header(Apply(m, AbsorbStores(h, i)), t, j) {
      if j < i { AbsorbFar(m, h, lo, hi, i, j); }
      else if j > i + 1 { AbsorbFar(m, h, lo, hi, i, j + 1); }
    }
  }

  function MarkedFree(h: Heap, i: nat): Heap
    requires i < |h|
  {
    h[i := Block(h[i].addr, h[i].size, Free)]
  }

  function ForwardStores(h: Heap, i: nat): seq<Store>
    requires i < |h|
  {
    var h1 := MarkedFree(h, i);
    if i + 1 < |h1| && h1[i + 1].use.Free? then AbsorbStores(h1, i) else []
  }

  function BackwardStores(h: Heap, i: nat): seq<Store>
    requires i < |h|
  {
    var h2 := FreedForward(h, i);
    if i > 0 && h2[i - 1].use.Free? then AbsorbStores(h2, i - 1) else []
  }

  /** The stores of kfree of the live pointer of block i, in order. */
  function FreeStores(h: Heap, i: nat): seq<Store>
    requires i < |h|
  {
    [Store(h[i].addr + FREE, 1)] + ForwardStores(h, i) + BackwardStores(h, i)
  }

  lemma ForwardRep(m: Mem, h: Heap, lo: nat, hi: nat, i: nat)
    requires Shape(h, lo, hi) && i < |h| && Rep(m, MarkedFree(h, i))
    ensures Rep(Apply(m, ForwardStores(h, i)), FreedForward(h, i))
  {
    MarkFree(h, lo, hi, i);
    var h1 := MarkedFree(h, i);
    if i + 1 < |h1| && h1[i + 1].use.Free? { AbsorbRep(m, h1, lo, hi, i); }
  }

  lemma BackwardRep(m: Mem, h: Heap, lo: nat, hi: nat, i: nat)
    requires Shape(h, lo, hi) && i < |h| && Rep(m, FreedForward(h, i))
    ensures Rep(Apply(m, BackwardStores(h, i)), Release(h, i))
  {
    FreedForwardTiles(h, lo, hi, i);
    var h2 := FreedForward(h, i);
    if i > 0 && h2[i - 1].use.Free? { AbsorbRep(m, h2, lo, hi, i - 1); }
  }

  lemma FreeRep(m: Mem, h: Heap, lo: nat, hi: nat, i: nat)
    requires Shape(h, lo, hi) && Rep(m, h) && i < |h|
    ensures Rep(Apply(m, FreeStores(h, i)), Release(h, i))
  {
    var s0 := [Store(h[i].addr + FREE, 1)];
    MarkFreeRep(m, h, lo, hi, i);
    var m1 := Apply(m, s0);
    ForwardRep(m1, h, lo, hi, i);
    ApplyAppend(m, s0, ForwardStores(h, i));
    BackwardRep(Apply(m1, ForwardStores(h, i)), h, lo, hi, i);
    ApplyAppend(m, s0 + ForwardStores(h, i), BackwardStores(h, i));
  }

  /** a lies in the header of some block. */
  ghost predicate InHeader(h: Heap, a: nat) { exists k :: 0 <= k < |h| && h[k].addr <= a < h[k].addr + HDR }

  lemma AbsorbStoresRange(h: Heap, i: nat)
    requires i + 1 < |h|
    ensures forall k :: 0 <= k < |AbsorbStores(h, i)| ==> InHeader(h, AbsorbStores(h, i)[k].at)
  {
    assert forall a :: h[i].addr <= a < h[i].addr + HDR ==> InHeader(h, a);
    assert i + 2 < |h| ==> InHeader(h, h[i + 2].addr + PREV);
  }

  /** Freeing and merging make no header where there was none. */
  lemma HeadersOf(h: Heap, i: nat, a: nat)
    requires i < |h|
    ensures InHeader(MarkedFree(h, i), a) || InHeader(FreedForward(h, i), a) ==> InHeader(h, a)
  {
    var h1, h2 := MarkedFree(h, i), FreedForward(h, i);
    if k :| 0 <= k < |h1| && h1[k].addr <= a < h1[k].addr + HDR { assert h[k].addr == h1[k].addr; }
    if k :| 0 <= k < |h2| && h2[k].addr <= a < h2[k].addr + HDR {
      var l := if |h2| == |h| || k <= i then k else k + 1;
      assert h[l].addr == h2[k].addr;
    }
  }

  /** kfree stores into headers only. */
  lemma FreeStoresRange(h: Heap, i: nat)
    requires i < |h|
    ensures forall k :: 0 <= k < |FreeStores(h, i)| ==> InHeader(h, FreeStores(h, i)[k].at)
  {
    var h1, h2 := MarkedFree(h, i), FreedForward(h, i);
    assert InHeader(h, h[i].addr + FREE);
    if i + 1 < |h1| && h1[i + 1].use.Free? { AbsorbStoresRange(h1, i); }
    if i > 0 && h2[i - 1].use.Free? { AbsorbStoresRange(h2, i - 1); }
    hide InHeader, AbsorbStores, FreedForward, MarkedFree;
    forall a: nat ensures InHeader(h1, a) || InHeader(h2, a) ==> InHeader(h, a) { HeadersOf(h, i, a); }
  }

  // ---- payloads ------------------------------------------------------------------------------------

  /** A word of the payload of the live pointer of block j. */
  ghost predicate InPayload(b: Block, a: nat) { b.use.Used? && b.use.ptr <= a < b.use.ptr + b.use.room }

  /** A client that writes inside a payload it owns disturbs neither the headers nor the back pointers. */
  lemma PayloadWriteRep(m: Mem, h: Heap, lo: nat, hi: nat, i: nat, a: nat, v: nat)
    requires Tiles(h, lo, hi) && Rep(m, h) && i < |h| && InPayload(h[i], a) && a % 8 == 0
    ensures Rep(m[a := v], h)
  {
    var m' := m[a := v];
    assert GoodBlock(h[i]);
    forall j | 0 <= j < |h| ensures Header(m', h, j) {
      assert Header(m, h, j);
      if j != i { Apart(h, lo, hi, i, j); }
      PayloadIsNoWord(h, i, j, a);
      HeaderKept(m, m', h, j, h, j);
    }
  }

  lemma PayloadIsNoWord(h: Heap, i: nat, j: nat, a: nat)
    requires i < |h| && j < |h| && InPayload(h[i], a) && a % 8 == 0 && GoodBlock(h[i]) && GoodBlock(h[j])
    requires i != j ==> h[i].End() <= h[j].addr || h[j].End() <= h[i].addr
    ensures !WordOf(h[j], a)
  {
    if WordOf(h[j], a) { WordsInside(h[j], a); }
  }

  /** A store that cannot hit the payload of block j: into a header, or into another block. */
  ghost predicate Avoids(h: Heap, j: nat, a: nat)
    requires j < |h|
  {
    InHeader(h, a) || exists i :: 0 <= i < |h| && i != j && h[i].addr <= a < h[i].End()
  }

  lemma PayloadMissed(s: seq<Store>, h: Heap, lo: nat, hi: nat, j: nat, a: nat)
    requires Tiles(h, lo, hi) && j < |h| && InPayload(h[j], a)
    requires forall k :: 0 <= k < |s| ==> Avoids(h, j, s[k].at)
    ensures forall k :: 0 <= k < |s| ==> s[k].at != a
  {
    assert GoodBlock(h[j]);
    forall k | 0 <= k < |s| ensures s[k].at != a {
      assert Avoids(h, j, s[k].at);
      var i :| 0 <= i < |h|
        && (h[i].addr <= s[k].at < h[i].addr + HDR || (i != j && h[i].addr <= s[k].at < h[i].End()));
      if i != j { Apart(h, lo, hi, i, j); }
    }
  }

  lemma TakeAvoids(h: Heap, lo: nat, hi: nat, i: nat, req: nat, j: nat)
    requires Tiles(h, lo, hi) && i < |h| && h[i].use.Free? && j < |h| && h[j].use.Used?
    ensures forall k :: 0 <= k < |TakeStores(h, i, req)| ==> Avoids(h, j, TakeStores(h, i, req)[k].at)
  {
    var s := TakeStores(h, i, req);
    TakeStoresRange(h, lo, hi, i, req);
    forall k | 0 <= k < |s| ensures Avoids(h, j, s[k].at) {
      if !(h[i].addr <= s[k].at < h[i].End()) { assert InHeader(h, h[i + 1].addr + PREV); }
    }
  }

  ghost predicate PayloadsKept(m: Mem, m': Mem, h: Heap) {
    forall j, a :: 0 <= j < |h| && InPayload(h[j], a) ==> Rd(m', a) == Rd(m, a)
  }

  /** The allocator never changes a word of a payload that stays live. */
  lemma TakePayloads(m: Mem, h: Heap, lo: nat, hi: nat, i: nat, req: nat)
    requires Tiles(h, lo, hi) && i < |h| && h[i].use.Free?
    ensures PayloadsKept(m, Apply(m, TakeStores(h, i, req)), h)
  {
    var s := TakeStores(h, i, req);
    forall j, a | 0 <= j < |h| && InPayload(h[j], a) ensures Rd(Apply(m, s), a) == Rd(m, a) {
      TakeAvoids(h, lo, hi, i, req, j);
      PayloadMissed(s, h, lo, hi, j, a);
      ReadMiss(m, s, a);
    }
  }

  lemma FreePayloads(m: Mem, h: Heap, lo: nat, hi: nat, i: nat)
    requires Tiles(h, lo, hi) && i < |h|
    ensures PayloadsKept(m, Apply(m, FreeStores(h, i)), h)
  {
    FreeStoresRange(h, i);
    forall j, a | 0 <= j < |h| && InPayload(h[j], a) ensures Rd(Apply(m, FreeStores(h, i)), a) == Rd(m, a) {
      PayloadMissed(FreeStores(h, i), h, lo, hi, j, a);
      ReadMiss(m, FreeStores(h, i), a);
    }
  }

  // ---- the words of a block ------------------------------------------------------------------------

  /**
    The four words of every header, and the one below every live pointer: the size, 1 for a free block, the block
    right behind, the block before, and where the block of the pointer begins.
   */
  lemma HeaderWords(m: Mem, h: Heap, lo: nat, hi: nat, i: nat)
    requires Tiles(h, lo, hi) && Rep(m, h) && i < |h|
    ensures var b := h[i];
      && Rd(m, b.addr) == b.size && Rd(m, b.addr + 8) == (if b.use.Free? then 1 else 0)
      && Rd(m, b.addr + 16) == (if i + 1 < |h| then b.addr + 32 + b.size else 0)
      && (if i == 0 then Rd(m, b.addr + 24) == 0 else
          Rd(m, b.addr + 24) == h[i - 1].addr && Rd(m, Rd(m, b.addr + 24) + 16) == b.addr)
      && (b.use.Used? ==> b.use.ptr >= 8 && Rd(m, b.use.ptr - 8) == b.addr)
  {
    assert Header(m, h, i) && GoodBlock(h[i]);
    if i > 0 {
      assert Header(m, h, i - 1) && h[i - 1].End() == h[i].addr;
    }
    if i + 1 < |h| { assert h[i].End() == h[i + 1].addr; }
  }
}
