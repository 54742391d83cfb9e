/**
  Double buffering in freestanding/kgfx.c: the list of dirty rectangles, the flush that copies only those,
  and when it does as much as the full swap.
 */
module KGfxFlush {
  import opened Common
  import opened Arith

  const MAX_RECTS: nat := 16

  datatype Rect = Rect(x: int, y: int, w: int, h: int)

  function Max0(x: int): nat { if x < 0 then 0 else x }

  /** The sums that the flush forms do not overflow. */
  predicate Representable(r: Rect) {
    && Int32(r.x) && Int32(r.y) && Int32(r.w) && Int32(r.h)
    && Int32(Max0(r.x) + r.w) && Int32(Max0(r.y) + r.h)
  }

  /** The clamping at the head of the flush: the corner moves, the extent does not, and sums compare unsigned. */
  function Clamp(r: Rect, width: nat, height: nat): Rect {
    var x, y := Max0(r.x), Max0(r.y);
    Rect(x, y, if Word(x + r.w) > width then width - x else r.w, if Word(y + r.h) > height then height - y else r.h)
  }

  /** The flush copies at least one row of r. */
  predicate HasRows(r: Rect, height: nat) { Max0(r.y) < height && (r.h > 0 || Max0(r.y) + r.h < 0) }

  /** What a caller can check so that no row copy leaves the screen. */
  predicate Safe(r: Rect, width: nat, height: nat) {
    Representable(r) && (HasRows(r, height) ==> r.x <= width && (r.w >= 0 || Max0(r.x) + r.w < 0))
  }

  /** The copies stay on screen exactly for safe rectangles. */
  lemma SafeIff(r: Rect, width: nat, height: nat)
    requires Representable(r) && width < 0x8000_0000 && height < 0x8000_0000
    ensures var c := Clamp(r, width, height);
      && (Safe(r, width, height) <==> (c.h > 0 ==> 0 <= c.w && c.x + c.w <= width && c.y + c.h <= height))
      && (HasRows(r, height) <==> c.h > 0)
  {
  }

  /** The pixel (x, y) is copied for r. */
  predicate Copies(r: Rect, width: nat, height: nat, x: nat, y: nat) {
    var c := Clamp(r, width, height);
    c.x <= x < c.x + c.w && c.y <= y < c.y + c.h
  }

  predicate Contains(r: Rect, x: int, y: int) { r.x <= x < r.x + r.w && r.y <= y < r.y + r.h }

  /**
    Every visible pixel of an ordinary rectangle is copied, and nothing else if it does not hang over the top or
    left.
   */
  lemma CopiesVisible(r: Rect, width: nat, height: nat, x: nat, y: nat)
    requires Safe(r, width, height) && width < 0x8000_0000 && height < 0x8000_0000 && x < width && y < height
    requires r.w >= 0 && r.h >= 0
    ensures Contains(r, x, y) ==> Copies(r, width, height, x, y)
    ensures r.x >= 0 && r.y >= 0 ==> (Contains(r, x, y) <==> Copies(r, width, height, x, y))
  {
  }

  /**
    The places p of a side of that extent from o on, moved in from off the screen; with a negative end, all of
    them.
   */
  predicate Along(o: int, extent: int, p: nat) {
    var s := if o < 0 then 0 else o;
    s <= p && (p < s + extent || s + extent < 0)
  }

  /** Exactly the visible pixels along both sides are copied: a rectangle off the top or left keeps its extent. */
  lemma CopiesIff(r: Rect, width: nat, height: nat, x: nat, y: nat)
    requires Representable(r) && width < 0x8000_0000 && height < 0x8000_0000 && x < width && y < height
    ensures Copies(r, width, height, x, y) <==> Along(r.x, r.w, x) && Along(r.y, r.h, y)
  {
  }

  predicate Covered(rs: seq<Rect>, width: nat, height: nat, p: nat) {
    width > 0 && exists i :: 0 <= i < |rs| && Copies(rs[i], width, height, p % width, p / width)
  }

  /** The front buffer after a flush, pixel by pixel. */
  function Flushed(front: seq<nat>, back: seq<nat>, rs: seq<Rect>, width: nat, height: nat): (r: seq<nat>)
    requires |front| == |back|
    ensures |r| == |front|
  {
    seq(|front|, p requires 0 <= p < |front| =>
      if p < width * height && Covered(rs, width, height, p) then back[p] else front[p])
  }

  /** The front buffer after a full swap. */
  function Swapped(front: seq<nat>, back: seq<nat>, width: nat, height: nat): (r: seq<nat>)
    requires |front| == |back| >= width * height
    ensures |r| == |front|
  {
    back[..width * height] + front[width * height..]
  }

  /** Flushing equals swapping exactly when the recorded rectangles cover every pixel that differs. */
  lemma FlushIsSwapIff(front: seq<nat>, back: seq<nat>, rs: seq<Rect>, width: nat, height: nat)
    requires |front| == |back| >= width * height
    ensures Flushed(front, back, rs, width, height) == Swapped(front, back, width, height)
      <==> forall p :: 0 <= p < width * height && front[p] != back[p] ==> Covered(rs, width, height, p)
  {
    var f, s := Flushed(front, back, rs, width, height), Swapped(front, back, width, height);
    if forall p :: 0 <= p < width * height && front[p] != back[p] ==> Covered(rs, width, height, p) {
      assert forall p :: 0 <= p < |front| ==> f[p] == s[p];
    } else {
      var p :| 0 <= p < width * height && front[p] != back[p] && !Covered(rs, width, height, p);
      assert f[p] == front[p] && s[p] == back[p];
    }
  }

  // ---- recording --------------------------------------------------------------------------------------

  /** The list after one more call of kgfx_add_dirty_rect: a full list stays. */
  function Added(rs: seq<Rect>, r: Rect): seq<Rect> { if |rs| >= MAX_RECTS then rs else rs + [r] }

  function AddedAll(rs: seq<Rect>, more: seq<Rect>): seq<Rect>
    decreases |more|
  {
    if more == [] then rs else AddedAll(Added(rs, more[0]), more[1..])
  }

  /** A list keeps the first sixteen rectangles recorded since it was cleared. */
  lemma {:induction false} FirstSixteen(rs: seq<Rect>, more: seq<Rect>)
    requires |rs| <= MAX_RECTS
    ensures AddedAll(rs, more) == (rs + more)[..if |rs + more| <= 16 then |rs + more| else 16]
    decreases |more|
  {
    if more == [] {
      assert rs + more == rs;
    } else {
      FirstSixteen(Added(rs, more[0]), more[1..]);
      assert |rs| < MAX_RECTS ==> Added(rs, more[0]) + more[1..] == rs + more;
    }
  }

  /** The rectangles of a recording that the list holds. */
  function Kept(more: seq<Rect>): seq<Rect> { if |more| <= MAX_RECTS then more else more[..MAX_RECTS] }

  /**
    For every recording: the flush equals the full swap exactly when its first sixteen rectangles cover every
    pixel that differs. What only later rectangles cover is not shown.
   */
  lemma RecordedIff(front: seq<nat>, back: seq<nat>, more: seq<Rect>, width: nat, height: nat)
    requires |front| == |back| >= width * height
    ensures Flushed(front, back, AddedAll([], more), width, height) == Swapped(front, back, width, height)
      <==> forall p :: 0 <= p < width * height && front[p] != back[p] ==> Covered(Kept(more), width, height, p)
    ensures forall p :: 0 <= p < width * height && front[p] != back[p] && !Covered(Kept(more), width, height, p) ==>
      Flushed(front, back, AddedAll([], more), width, height)[p] != Swapped(front, back, width, height)[p]
  {
    FirstSixteen([], more);
    assert [] + more == more && AddedAll([], more) == Kept(more);
    hide AddedAll, Kept, Covered;
    FlushIsSwapIff(front, back, Kept(more), width, height);
  }

  /** The loss is real: a change under a seventeenth rectangle is not flushed. */
  lemma SeventeenthIsLost()
    ensures var r, last := Rect(0, 0, 1, 1), Rect(1, 0, 1, 1);
      var rs := AddedAll([], seq(16, _ => r) + [last]);
      && Flushed([0, 0], [7, 7], rs, 2, 1) == [7, 0] && Swapped([0, 0], [7, 7], 2, 1) == [7, 7]
      && Flushed([0, 0], [7, 7], [last, r], 2, 1) == [7, 7]
  {
    var r, last := Rect(0, 0, 1, 1), Rect(1, 0, 1, 1);
    FirstSixteen([], seq(16, _ => r) + [last]);
    var rs := AddedAll([], seq(16, _ => r) + [last]);
    assert rs == seq(16, _ => r);
    assert rs[0] == r && Copies(rs[0], 2, 1, 0, 0) && !Copies(r, 2, 1, 1, 0);
    assert Copies([last, r][0], 2, 1, 1, 0) && Copies([last, r][1], 2, 1, 0, 0);
  }

  /** Every pixel that differs is covered: what drawing and recording keep, and a flush needs. */
  ghost predicate Tracked(front: seq<nat>, back: seq<nat>, rs: seq<Rect>, width: nat, height: nat) {
    |front| == |back| == width * height && |rs| <= MAX_RECTS
    && forall p :: 0 <= p < width * height && front[p] != back[p] ==> Covered(rs, width, height, p)
  }

  /** Drawing within a rectangle and recording it, while there is room. */
  lemma DrawKeepsTracked(front: seq<nat>, back: seq<nat>, back': seq<nat>, rs: seq<Rect>, width: nat, height: nat,
      r: Rect)
    requires Tracked(front, back, rs, width, height) && |rs| < MAX_RECTS && |back'| == |back|
    requires forall p :: 0 <= p < |back| && back'[p] != back[p] ==> width > 0 && Contains(r, p % width, p / width)
    requires Safe(r, width, height) && r.w >= 0 && r.h >= 0 && width < 0x8000_0000 && height < 0x8000_0000
    ensures Tracked(front, back', Added(rs, r), width, height)
  {
    hide Clamp, Copies, Safe, Contains, Covered;
    forall p: nat | p < width * height && front[p] != back'[p] ensures Covered(Added(rs, r), width, height, p) {
      WithinScreen(p, width, height);
      if back'[p] != back[p] {
        CopiesVisible(r, width, height, p % width, p / width);
        CoveredByLast(rs, r, width, height, p);
      } else {
        CoveredStill(rs, r, width, height, p);
      }
    }
  }

  lemma CoveredByLast(rs: seq<Rect>, r: Rect, width: nat, height: nat, p: nat)
    requires |rs| < MAX_RECTS && width > 0 && Copies(r, width, height, p % width, p / width)
    ensures Covered(Added(rs, r), width, height, p)
  {
    hide Copies;
    assert Added(rs, r)[|rs|] == r;
  }

  lemma CoveredStill(rs: seq<Rect>, r: Rect, width: nat, height: nat, p: nat)
    requires Covered(rs, width, height, p)
    ensures Covered(Added(rs, r), width, height, p)
  {
    hide Copies;
    var i :| 0 <= i < |rs| && Copies(rs[i], width, height, p % width, p / width);
    assert Added(rs, r)[i] == rs[i];
  }

  lemma WithinScreen(p: nat, width: nat, height: nat)
    requires p < width * height
    ensures width > 0 && p % width < width && p / width < height
  {
    if p / width >= height { MulMinus(p / width, height, width); MulAtLeast(p / width - height + 1, width); }
  }

  /** So a flush after any amount of tracked drawing shows the back buffer. */
  lemma FlushShowsBack(front: seq<nat>, back: seq<nat>, rs: seq<Rect>, width: nat, height: nat)
    requires Tracked(front, back, rs, width, height)
    ensures Flushed(front, back, rs, width, height) == back && Tracked(back, back, [], width, height)
  {
    FlushIsSwapIff(front, back, rs, width, height);
  }

  // ---- the code ---------------------------------------------------------------------------------------

  /** kgfx_dirty_list_t. */
  class DirtyList {
    const rects: array<Rect>
    var count: nat

    constructor ()
      ensures Valid() && List() == [] && fresh(rects)
    {
      rects := new Rect[MAX_RECTS](_ => Rect(0, 0, 0, 0));
      count := 0;
    }

    ghost predicate Valid()
      reads this
    {
      rects.Length == MAX_RECTS && count <= MAX_RECTS
    }

    ghost function List(): seq<Rect>
      requires Valid()
      reads this, rects
    {
      rects[..count]
    }

    method Clear()
      requires Valid()
      modifies this`count
      ensures Valid() && List() == []
    {
      count := 0;
    }

    method Add(x: int, y: int, w: int, h: int)
      requires Valid()
      modifies this`count, rects
      ensures Valid() && List() == Added(old(List()), Rect(x, y, w, h))
    {
      if count >= MAX_RECTS { return; }
      rects[count] := Rect(x, y, w, h);
      count := count + 1;
    }
  }

  /** kgfx_double_buffer_t. */
  class DoubleBuffer {
    const front: array<nat>
    const back: array<nat>
    const width: nat
    const height: nat

    constructor (front: array<nat>, back: array<nat>, width: nat, height: nat)
      ensures this.front == front && this.back == back && this.width == width && this.height == height
    {
      this.front, this.back, this.width, this.height := front, back, width, height;
    }

    ghost predicate Valid() {
      && front != back && front.Length == back.Length && width * height <= front.Length
      && width < 0x8000_0000 && height < 0x8000_0000
    }

    /** kmemcpy of n pixels at an offset. */
    method Copy(off: nat, n: nat)
      requires Valid() && off + n <= front.Length
      modifies front
      ensures forall p :: 0 <= p < front.Length ==> front[p] == if off <= p < off + n then back[p] else old(front[p])
    {
      var i := 0;
      while i < n
        invariant i <= n
        invariant forall p :: 0 <= p < front.Length ==>
          front[p] == if off <= p < off + i then back[p] else old(front[p])
      {
        front[off + i] := back[off + i];
        i := i + 1;
      }
    }

    /** kgfx_swap_buffers. */
    method SwapBuffers()
      requires Valid()
      modifies front
      ensures front[..] == Swapped(old(front[..]), back[..], width, height)
    {
      Copy(0, width * height);
    }

    /** kgfx_flush_dirty. */
    method FlushDirty(list: DirtyList)
      requires Valid() && list.Valid()
      requires forall i :: 0 <= i < list.count ==> Safe(list.rects[i], width, height)
      modifies front, list`count
      ensures front[..] == Flushed(old(front[..]), back[..], old(list.List()), width, height)
      ensures list.Valid() && list.List() == []
    {
      hide Clamp, Safe, Copies;
      var i := 0;
      while i < list.count
        modifies front
        invariant i <= list.count
        invariant front[..] == Flushed(old(front[..]), back[..], list.rects[..i], width, height)
      {
        FlushRect(list.rects[i]);
        FlushOneMore(old(front[..]), back[..], list.rects[..i], list.rects[i], width, height);
        assert list.rects[..i] + [list.rects[i]] == list.rects[..i + 1];
        i := i + 1;
      }
      list.count := 0;
    }

    method FlushRect(rect: Rect)
      requires Valid() && Safe(rect, width, height)
      modifies front
      ensures front[..] == Flushed(old(front[..]), back[..], [rect], width, height)
    {
      hide Flushed, InRows, Covered, RowsDone;
      var r := rect;
      if r.x < 0 { r := r.(x := 0); }
      if r.y < 0 { r := r.(y := 0); }
      if Word(r.x + r.w) > width { r := r.(w := width - r.x); }
      if Word(r.y + r.h) > height { r := r.(h := height - r.y); }
      assert r == Clamp(rect, width, height);
      SafeIff(rect, width, height);
      hide Clamp, Word;
      CopyRows(r);
      RowsAreFlushed(front[..], old(front[..]), back[..], rect, width, height);
    }

    /** The rows of a clamped rectangle. */
    method CopyRows(r: Rect)
      requires Valid() && r.x >= 0 && r.y >= 0
      requires r.h > 0 ==> r.w >= 0 && r.x + r.w <= width && r.y + r.h <= height
      modifies front
      ensures RowsDone(front[..], old(front[..]), back[..], r, width, height, r.h)
    {
      hide RowsDone;
      var py := r.y;
      NoRows(front[..], back[..], r, width, height, 0);
      NoRows(front[..], back[..], r, width, height, r.h);
      while py < r.y + r.h
        invariant r.y <= py && (r.h >= 0 ==> py <= r.y + r.h) && (r.h < 0 ==> py == r.y)
        invariant r.h < 0 ==> front[..] == old(front[..])
        invariant RowsDone(front[..], old(front[..]), back[..], r, width, height, py - r.y)
      {
        RowFits(r, py, width, height);
        var off := py * width + r.x;
        ghost var was := front[..];
        Copy(off, r.w);
        NextRowDone(front[..], was, old(front[..]), back[..], r, py, width, height);
        py := py + 1;
      }
    }
  }

  /** The first n rows of a clamped rectangle hold the back buffer, everything else is as before. */
  ghost predicate RowsDone(now: seq<nat>, before: seq<nat>, back: seq<nat>, r: Rect, width: nat, height: nat, n: int) {
    |now| == |before| == |back| && forall p: nat :: p < |now| ==>
      now[p] == (if p < width * height && InRows(p, r, width, n) then back[p] else before[p])
  }

  lemma NoRows(before: seq<nat>, back: seq<nat>, r: Rect, width: nat, height: nat, n: int)
    requires |before| == |back|
    ensures n <= 0 ==> RowsDone(before, before, back, r, width, height, n)
  {
  }

  lemma NextRowDone(now: seq<nat>, was: seq<nat>, before: seq<nat>, back: seq<nat>, r: Rect, py: nat, width: nat,
      height: nat)
    requires r.x >= 0 && r.w >= 0 && r.x + r.w <= width && r.y <= py < height
    requires RowsDone(was, before, back, r, width, height, py - r.y) && |now| == |was|
    requires var off := py * width + r.x;
      forall p :: 0 <= p < |now| ==> now[p] == if off <= p < off + r.w then back[p] else was[p]
    ensures RowsDone(now, before, back, r, width, height, py + 1 - r.y)
  {
    hide InRows;
    forall p: nat | p < |now|
      ensures now[p] == (if p < width * height && InRows(p, r, width, py + 1 - r.y) then back[p] else before[p])
    {
      NextRow(p, r, py, width, height);
    }
  }

  lemma OneRect(rect: Rect, width: nat, height: nat)
    ensures forall p: nat :: Covered([rect], width, height, p) <==>
      InRows(p, Clamp(rect, width, height), width, Clamp(rect, width, height).h)
  {
    assert [rect][0] == rect;
  }

  lemma RowsAreFlushed(now: seq<nat>, before: seq<nat>, back: seq<nat>, rect: Rect, width: nat, height: nat)
    requires var r := Clamp(rect, width, height); RowsDone(now, before, back, r, width, height, r.h)
    ensures |before| == |back| && now == Flushed(before, back, [rect], width, height)
  {
    OneRect(rect, width, height);
    hide InRows, Covered, Clamp;
  }

  /** Pixel p lies in the first n rows of r. */
  predicate InRows(p: nat, r: Rect, width: nat, n: int) {
    width > 0 && r.x <= p % width < r.x + r.w && r.y <= p / width < r.y + n
  }

  lemma RowFits(r: Rect, py: nat, width: nat, height: nat)
    requires r.x >= 0 && r.w >= 0 && r.x + r.w <= width && py < height
    ensures py * width + r.x + r.w <= width * height
  {
    MulMinus(height, py, width);
    MulAtLeast(height - py, width);
  }

  lemma NextRow(p: nat, r: Rect, py: nat, width: nat, height: nat)
    requires r.x >= 0 && r.w >= 0 && r.x + r.w <= width && r.y <= py < height
    ensures p < width * height && InRows(p, r, width, py + 1 - r.y) <==>
      (p < width * height && InRows(p, r, width, py - r.y)) || py * width + r.x <= p < py * width + r.x + r.w
  {
    RowFits(r, py, width, height);
    if py * width + r.x <= p < py * width + r.x + r.w { DivUnique(p, width, py, p - py * width); }
    if width > 0 && p / width == py { assert p == width * (p / width) + p % width; }
  }

  lemma FlushOneMore(front: seq<nat>, back: seq<nat>, rs: seq<Rect>, r: Rect, width: nat, height: nat)
    requires |front| == |back|
    ensures Flushed(Flushed(front, back, rs, width, height), back, [r], width, height)
         == Flushed(front, back, rs + [r], width, height)
  {
    hide Copies;
    forall p: nat | p < |front|
      ensures Covered(rs + [r], width, height, p) <==> Covered(rs, width, height, p) || Covered([r], width, height, p)
    {
      CoveredMore(rs, r, width, height, p);
    }
  }

  lemma CoveredMore(rs: seq<Rect>, r: Rect, width: nat, height: nat, p: nat)
    ensures Covered(rs + [r], width, height, p) <==> Covered(rs, width, height, p) || Covered([r], width, height, p)
  {
    hide Copies;
    if Covered(rs, width, height, p) {
      var i :| 0 <= i < |rs| && Copies(rs[i], width, height, p % width, p / width);
      assert (rs + [r])[i] == rs[i];
    }
    if Covered([r], width, height, p) { assert (rs + [r])[|rs|] == r; }
    assert [r][0] == r;
  }
}
