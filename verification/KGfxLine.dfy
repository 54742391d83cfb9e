/**
  Lines of freestanding/kgfx.c: an independent description of the points of a line, the pixels it sets, and
  the incremental loop of kgfx_draw_line that visits exactly those points without 32-bit overflow.
 */
module KGfxLine {
  import opened Common
  import opened Arith
  import opened Euclid

  datatype Point = Point(x: int, y: int)

  /** Steps along the longer axis. */
  function Steps(a: Point, b: Point): nat { Max(Abs(b.x - a.x), Abs(b.y - a.y)) }

  /** The share k/n of m, rounded to the nearest integer, halves up. */
  function Share(k: nat, m: nat, n: nat): nat { if n == 0 then 0 else (2 * k * m + n) / (2 * n) }

  function Toward(u: int, v: int, n: nat): int { if u < v then u + n else u - n }

  /** Point k of the line: k steps along the longer axis, the rounded share along the other. */
  function PointAt(a: Point, b: Point, k: nat): Point {
    var n := Steps(a, b);
    Point(Toward(a.x, b.x, Share(k, Abs(b.x - a.x), n)), Toward(a.y, b.y, Share(k, Abs(b.y - a.y), n)))
  }

  function Line(a: Point, b: Point): (l: seq<Point>)
    ensures |l| == Steps(a, b) + 1
  {
    seq(Steps(a, b) + 1, k requires 0 <= k => PointAt(a, b, k))
  }

  // ---- rounding ---------------------------------------------------------------------------------------

  /** Share is the only integer in its half-open interval around k*m/n. */
  lemma ShareUnique(k: nat, m: nat, n: nat, q: nat)
    requires n > 0
    requires Near(q * n, k * m, n)
    ensures Share(k, m, n) == q
  {
    var t := 2 * k * m + n;
    assert t == 2 * (k * m) + n && q * (2 * n) == 2 * (q * n);
    assert q * (2 * n) <= t < (q + 1) * (2 * n);
    DivIs(t, 2 * n, q);
  }

  lemma DivIs(t: nat, d: nat, q: nat)
    requires d > 0 && q * d <= t < (q + 1) * d
    ensures t / d == q
  {
    MulNext(q, d);
    DivUnique(t, d, q, t - q * d);
  }

  lemma Below(i: nat, m: nat, n: nat)
    requires i <= m
    ensures i * n <= n * m
  {
    MulMinus(m, i, n);
  }

  lemma Gap(p: int, q: int, n: nat)
    requires p < q
    ensures p * n + n <= q * n
  {
    assert (q - p - 1) * n >= 0;
  }

  /** And it is within half a unit of it. */
  lemma ShareNear(k: nat, m: nat, n: nat)
    requires n > 0
    ensures Near(Share(k, m, n) * n, k * m, n)
  {
    var t := 2 * k * m + n;
    var q := t / (2 * n);
    assert t == 2 * n * q + t % (2 * n);
    assert t == 2 * (k * m) + n && 2 * n * q == 2 * (q * n);
  }

  lemma ShareWhole(k: nat, n: nat)
    requires n > 0
    ensures Share(k, n, n) == k
  {
    ShareUnique(k, n, n, k);
  }

  lemma ShareEnds(m: nat, n: nat)
    requires n > 0
    ensures Share(0, m, n) == 0 && Share(n, m, n) == m
  {
    ShareUnique(0, m, n, 0);
    ShareUnique(n, m, n, m);
  }

  lemma ShareStep(k: nat, m: nat, n: nat)
    requires m <= n && n > 0
    ensures Share(k, m, n) <= Share(k + 1, m, n) <= Share(k, m, n) + 1
  {
    ShareNear(k, m, n);
    ShareNear(k + 1, m, n);
    var p, q := Share(k, m, n), Share(k + 1, m, n);
    assert (k + 1) * m == k * m + m;
    if q > p + 1 { Gap(p, p + 1, n); Gap(p + 1, q, n); }
    if q < p { Gap(q, p, n); }
  }

  // ---- what a line is ---------------------------------------------------------------------------------

  /** Both given endpoints are the first and the last point. */
  lemma LineEnds(a: Point, b: Point)
    ensures Line(a, b)[0] == a && Line(a, b)[Steps(a, b)] == b
  {
    if Steps(a, b) > 0 {
      ShareEnds(Abs(b.x - a.x), Steps(a, b));
      ShareEnds(Abs(b.y - a.y), Steps(a, b));
    }
  }

  predicate Adjacent(p: Point, q: Point) { p != q && Abs(p.x - q.x) <= 1 && Abs(p.y - q.y) <= 1 }

  /** Consecutive points are different neighbours. */
  lemma LineConnected(a: Point, b: Point, k: nat)
    requires k < Steps(a, b)
    ensures Adjacent(Line(a, b)[k], Line(a, b)[k + 1])
  {
    var dx, dy, n := Abs(b.x - a.x), Abs(b.y - a.y), Steps(a, b);
    ShareStep(k, dx, n);
    ShareStep(k, dy, n);
    if dx == n { ShareWhole(k, n); ShareWhole(k + 1, n); } else { ShareWhole(k, n); ShareWhole(k + 1, n); }
  }

  /** Twice the distance to the ideal line, measured along the shorter axis and times the longer extent. */
  function Off(a: Point, b: Point, p: Point): nat {
    2 * Abs((p.x - a.x) * (b.y - a.y) - (p.y - a.y) * (b.x - a.x))
  }

  /** Every point is within half a pixel of the ideal line on the minor axis. */
  lemma LineNear(a: Point, b: Point, k: nat)
    requires k <= Steps(a, b)
    ensures Off(a, b, Line(a, b)[k]) <= Steps(a, b)
  {
    var dx, dy, n := Abs(b.x - a.x), Abs(b.y - a.y), Steps(a, b);
    if n > 0 {
      var i, j := Share(k, dx, n), Share(k, dy, n);
      ShareNear(k, dx, n);
      ShareNear(k, dy, n);
      ShareWhole(k, n);
      OffIs(a, b, i, j);
      if dx == n { assert i == k; } else { assert j == k; }
    }
  }

  lemma OffIs(a: Point, b: Point, i: nat, j: nat)
    ensures var p := Point(Toward(a.x, b.x, i), Toward(a.y, b.y, j));
      Off(a, b, p) == 2 * Abs(i * Abs(b.y - a.y) - j * Abs(b.x - a.x))
  {
    var p := Point(Toward(a.x, b.x, i), Toward(a.y, b.y, j));
    var dx, dy := Abs(b.x - a.x), Abs(b.y - a.y);
    var sx, sy := if a.x < b.x then 1 else -1, if a.y < b.y then 1 else -1;
    assert p.x - a.x == sx * i && b.y - a.y == sy * dy && p.y - a.y == sy * j && b.x - a.x == sx * dx;
    assert (sx * i) * (sy * dy) == (sx * sy) * (i * dy);
    assert (sy * j) * (sx * dx) == (sx * sy) * (j * dx);
    assert (sx * sy) * (i * dy) - (sx * sy) * (j * dx) == (sx * sy) * (i * dy - j * dx);
  }

  // ---- pixels -----------------------------------------------------------------------------------------

  /** The pixels of a frame buffer after one clipped plot. */
  function Plot(pix: seq<nat>, w: nat, h: nat, pitch: nat, p: Point, c: nat): (r: seq<nat>)
    requires w <= pitch && h * pitch <= |pix|
    ensures |r| == |pix|
  {
    if 0 <= p.x < w && 0 <= p.y < h then Inside(p.x, p.y, w, h, pitch); pix[p.y * pitch + p.x := c] else pix
  }

  lemma Inside(x: nat, y: nat, w: nat, h: nat, pitch: nat)
    requires x < w <= pitch && y < h
    ensures y * pitch + x < h * pitch
  {
    assert (h - y - 1) * pitch >= 0;
    assert (h - y - 1) * pitch == h * pitch - y * pitch - pitch;
  }

  lemma SamePixel(p: Point, q: Point, pitch: nat)
    requires 0 <= p.x < pitch && 0 <= q.x < pitch && 0 <= p.y && 0 <= q.y
    ensures p.y * pitch + p.x == q.y * pitch + q.x <==> p == q
  {
    if p.y < q.y { Gap(p.y, q.y, pitch); }
    if q.y < p.y { Gap(q.y, p.y, pitch); }
  }

  function PlotAll(pix: seq<nat>, w: nat, h: nat, pitch: nat, ps: seq<Point>, c: nat): (r: seq<nat>)
    requires w <= pitch && h * pitch <= |pix|
    ensures |r| == |pix|
    decreases |ps|
  {
    if ps == [] then pix else Plot(PlotAll(pix, w, h, pitch, ps[..|ps| - 1], c), w, h, pitch, ps[|ps| - 1], c)
  }

  lemma PlotNone(pix: seq<nat>, w: nat, h: nat, pitch: nat, c: nat)
    requires w <= pitch && h * pitch <= |pix|
    ensures PlotAll(pix, w, h, pitch, [], c) == pix
  {
  }

  lemma PlotNext(pix: seq<nat>, w: nat, h: nat, pitch: nat, ps: seq<Point>, p: Point, c: nat)
    requires w <= pitch && h * pitch <= |pix|
    ensures PlotAll(pix, w, h, pitch, ps + [p], c) == Plot(PlotAll(pix, w, h, pitch, ps, c), w, h, pitch, p, c)
  {
    assert (ps + [p])[..|ps|] == ps;
  }

  /** A pixel on screen has the colour of the line if the line visits it, and is as before otherwise. */
  lemma {:induction false} PixelAfter(pix: seq<nat>, w: nat, h: nat, pitch: nat, ps: seq<Point>, c: nat, p: Point)
    requires w <= pitch && h * pitch <= |pix| && 0 <= p.x < w && 0 <= p.y < h
    ensures p.y * pitch + p.x < h * pitch
    ensures PlotAll(pix, w, h, pitch, ps, c)[p.y * pitch + p.x] == if p in ps then c else pix[p.y * pitch + p.x]
    decreases |ps|
  {
    Inside(p.x, p.y, w, h, pitch);
    if ps == [] {
    } else {
      var q := ps[|ps| - 1];
      PixelAfter(pix, w, h, pitch, ps[..|ps| - 1], c, p);
      assert ps == ps[..|ps| - 1] + [q];
      if 0 <= q.x < w && 0 <= q.y < h { SamePixel(p, q, pitch); Inside(q.x, q.y, w, h, pitch); }
    }
  }

  /** Memory between rows and after the last one is never written. */
  lemma {:induction false} PaddingStays(pix: seq<nat>, w: nat, h: nat, pitch: nat, ps: seq<Point>, c: nat, i: nat)
    requires 0 < w <= pitch && h * pitch <= |pix| && i < |pix| && (i % pitch >= w || i / pitch >= h)
    ensures PlotAll(pix, w, h, pitch, ps, c)[i] == pix[i]
    decreases |ps|
  {
    if ps == [] {
    } else {
      var q := ps[|ps| - 1];
      PaddingStays(pix, w, h, pitch, ps[..|ps| - 1], c, i);
      if 0 <= q.x < w && 0 <= q.y < h && q.y * pitch + q.x == i { DivUnique(i, pitch, q.y, q.x); }
    }
  }

  // ---- the code ---------------------------------------------------------------------------------------

  /** kgfx_fb_t. */
  class Framebuffer {
    const buffer: array?<nat>
    const width: nat
    const height: nat
    const pitch: nat

    constructor (buffer: array?<nat>, width: nat, height: nat)
      ensures this.buffer == buffer && this.width == width && this.height == height && pitch == width
    {
      this.buffer, this.width, this.height, this.pitch := buffer, width, height, width;
    }

    ghost predicate Valid() {
      && width <= pitch && width < 0x8000_0000 && height < 0x8000_0000 && height * pitch <= 0x1_0000_0000
      && (buffer != null ==> height * pitch <= buffer.Length)
    }

    /** kgfx_draw_pixel. */
    method DrawPixel(x: int32, y: int32, color: nat)
      requires Valid()
      modifies buffer
      ensures buffer != null ==>
        buffer[..] == Plot(old(buffer[..]), width, height, pitch, Point(x as int, y as int), color)
    {
      if buffer == null { return; }
      if x < 0 || x as int >= width || y < 0 || y as int >= height { return; }
      Inside(x as int, y as int, width, height, pitch);
      buffer[(y as int * pitch + x as int) % 0x1_0000_0000] := color;
    }

    /**
      kgfx_draw_line: it visits the points of the line in order and no others, and every value stays within
      32 bits.
     */
    method DrawLine(x0: int32, y0: int32, x1: int32, y1: int32, color: nat) returns (ghost visited: seq<Point>)
      requires Valid()
      requires NotTooWide(P(x0, y0), P(x1, y1))
      modifies buffer
      ensures visited == Line(Point(x0 as int, y0 as int), Point(x1 as int, y1 as int))
      ensures buffer != null ==> buffer[..] == PlotAll(old(buffer[..]), width, height, pitch, visited, color)
    {
      var dx := if x1 > x0 then x1 - x0 else x0 - x1;
      var sx: int32 := if x0 < x1 then 1 else -1;
      var dy := if y1 > y0 then y0 - y1 else y1 - y0;
      var sy: int32 := if y0 < y1 then 1 else -1;
      visited := DrawSteps(x0, y0, x1, y1, dx, dy, sx, sy, dx + dy, color);
    }

    /** The loop of kgfx_draw_line. */
    method DrawSteps(x0: int32, y0: int32, x1: int32, y1: int32, dx: int32, dy: int32, sx: int32, sy: int32,
        err0: int32, color: nat)
      returns (ghost visited: seq<Point>)
      requires Valid()
      requires Setup(P(x0, y0), P(x1, y1), dx, dy, sx, sy) && err0 as int == dx as int + dy as int
      modifies buffer
      ensures visited == Line(P(x0, y0), P(x1, y1))
      ensures buffer != null ==> buffer[..] == PlotAll(old(buffer[..]), width, height, pitch, visited, color)
    {
      hide Plot, PlotAll, Line, At, Setup;
      ghost var a, b := P(x0, y0), P(x1, y1);
      var x, y, err := x0, y0, err0;
      ghost var n := Steps(a, b);
      ghost var i: nat, j: nat, k: nat := 0, 0, 0;
      visited := [];
      Starting(a, b, dx, dy, sx, sy);
      if buffer != null { PlotNone(buffer[..], width, height, pitch, color); }
      while true
        invariant At(a, b, k, i, j, x, y, err) && k <= n && visited == Line(a, b)[..k]
        invariant buffer != null ==> buffer[..] == PlotAll(old(buffer[..]), width, height, pitch, visited, color)
        decreases n - k
      {
        AtPoint(a, b, k, i, j, x, y, err);
        DrawPixel(x, y, color);
        if buffer != null { PlotNext(old(buffer[..]), width, height, pitch, visited, Line(a, b)[k], color); }
        visited := visited + [Line(a, b)[k]];
        if x == x1 && y == y1 { break; }
        x, y, err, i, j := Advance(x, y, err, dx, dy, sx, sy, a, b, i, j, k);
        k := k + 1;
      }
    }
  }

  function P(x: int32, y: int32): Point { Point(x as int, y as int) }

  predicate InInt32(p: Point) { -0x8000_0000 <= p.x < 0x8000_0000 && -0x8000_0000 <= p.y < 0x8000_0000 }

  /** The error term takes the multiples of the greatest common divisor within half the longer extent around a line. */
  function Half(n: nat, g: nat): nat
    requires g > 0
  {
    var q: nat := n / (2 * g);
    q * g
  }

  /** The most that twice the error term, and the value between its two updates, come to fits 32 bits. */
  predicate LineFits(dx: nat, dy: nat) {
    var n, m := Max(dx, dy), if dx >= dy then dy else dx;
    n == 0 ||
    var g := Gcd(n, m);
    if dx >= dy then 2 * (n - m) + 2 * Half(n, g) < 0x8000_0000 && 2 * m - n + Half(n - 1, g) <= 0x8000_0000
    else 2 * (n - m) + 2 * Half(n, g) <= 0x8000_0000 && 2 * n - Half(n + 2 * g - 1, g) <= 0x8000_0000
  }

  /** The extents and the error term fit 32 bits. */
  predicate NotTooWide(a: Point, b: Point) {
    Steps(a, b) < 0x8000_0000 && LineFits(Abs(b.x - a.x), Abs(b.y - a.y))
  }

  /** The constants of the loop, and no line too long for the error term. */
  ghost predicate Setup(a: Point, b: Point, dx: int32, dy: int32, sx: int32, sy: int32) {
    && InInt32(a) && InInt32(b) && NotTooWide(a, b)
    && dx as int == Abs(b.x - a.x) && -(dy as int) == Abs(b.y - a.y)
    && sx == (if a.x < b.x then 1 else -1) && sy == (if a.y < b.y then 1 else -1)
  }

  /** The loop after k rounds, i of them stepping in x and j in y. */
  ghost predicate At(a: Point, b: Point, k: nat, i: nat, j: nat, x: int32, y: int32, err: int32) {
    && InBand(k, i, j, Abs(b.x - a.x), Abs(b.y - a.y))
    && x as int == Toward(a.x, b.x, i) && y as int == Toward(a.y, b.y, j)
    && err as int == Err(Abs(b.x - a.x), Abs(b.y - a.y), i, j)
  }

  lemma Starting(a: Point, b: Point, dx: int32, dy: int32, sx: int32, sy: int32)
    requires Setup(a, b, dx, dy, sx, sy)
    requires -0x8000_0000 <= dx as int + dy as int < 0x8000_0000
    ensures At(a, b, 0, 0, 0, a.x as int32, a.y as int32, dx + dy)
  {
  }

  lemma AtPoint(a: Point, b: Point, k: nat, i: nat, j: nat, x: int32, y: int32, err: int32)
    requires At(a, b, k, i, j, x, y, err)
    ensures k <= Steps(a, b) && Line(a, b)[k] == P(x, y) && (P(x, y) == b <==> k == Steps(a, b))
  {
    hide InBand, Err, Line;
    BandPoint(a, b, k, i, j);
    BandEnds(k, i, j, Abs(b.x - a.x), Abs(b.y - a.y));
  }

  /** The two tests of the loop body. */
  method Advance(x0: int32, y0: int32, err0: int32, dx: int32, dy: int32, sx: int32, sy: int32,
                 ghost a: Point, ghost b: Point, ghost i0: nat, ghost j0: nat, ghost k: nat)
    returns (x: int32, y: int32, err: int32, ghost i: nat, ghost j: nat)
    requires Setup(a, b, dx, dy, sx, sy) && At(a, b, k, i0, j0, x0, y0, err0) && k < Steps(a, b)
    ensures At(a, b, k + 1, i, j, x, y, err)
  {
    hide InBand, Err, LineFits;
    BandStep(k, i0, j0, dx as int, -(dy as int));
    RoundInRange(k, i0, j0, dx as int, -(dy as int));
    x, y, err, i, j := x0, y0, err0, i0, j0;
    var e2 := 2 * err;
    if e2 >= dy { err := err + dy; x := x + sx; i := i + 1; }
    if e2 <= dx { err := err + dx; y := y + sy; j := j + 1; }
  }

  predicate Near(u: int, v: int, n: nat) { 2 * (u - v) <= n && 2 * (v - u) < n }

  /** The error term after i and j steps. */
  function Err(dx: nat, dy: nat, i: nat, j: nat): int { dx - dy - i * dy + j * dx }

  /** After k rounds, i and j steps were taken: all k on the longer axis, the rounded share on the other. */
  ghost predicate InBand(k: nat, i: nat, j: nat, dx: nat, dy: nat) {
    && k <= Max(dx, dy)
    && if dx >= dy then i == k && (if dx == 0 then j == 0 else Near(j * dx, i * dy, dx))
       else j == k && Near(i * dy, j * dx, dy)
  }

  lemma BandPoint(a: Point, b: Point, k: nat, i: nat, j: nat)
    requires InBand(k, i, j, Abs(b.x - a.x), Abs(b.y - a.y))
    ensures k <= Steps(a, b) && Line(a, b)[k] == Point(Toward(a.x, b.x, i), Toward(a.y, b.y, j))
  {
    var dx, dy, n := Abs(b.x - a.x), Abs(b.y - a.y), Steps(a, b);
    if n > 0 {
      ShareWhole(k, n);
      if dx >= dy { ShareUnique(k, dy, n, j); } else { ShareUnique(k, dx, n, i); }
    }
  }

  /** The far end is reached after exactly as many rounds as the longer extent. */
  lemma BandEnds(k: nat, i: nat, j: nat, dx: nat, dy: nat)
    requires InBand(k, i, j, dx, dy)
    ensures (i == dx && j == dy) <==> k == Max(dx, dy)
  {
    if dx >= dy && k == dx > 0 {
      if j < dy { Gap(j, dy, dx); } else if j > dy { Gap(dy, j, dx); }
    } else if dx < dy && k == dy {
      if i < dx { Gap(i, dx, dy); } else if i > dx { Gap(dx, i, dy); }
    }
  }

  /** One round: the tests of the error term keep the band. */
  lemma BandStep(k: nat, i: nat, j: nat, dx: nat, dy: nat)
    requires InBand(k, i, j, dx, dy) && k < Max(dx, dy)
    ensures var err := Err(dx, dy, i, j);
      var i' := if 2 * err >= 0 - dy then i + 1 else i;
      var j' := if 2 * err <= dx then j + 1 else j;
      InBand(k + 1, i', j', dx, dy)
      && Err(dx, dy, i', j') == err - (if 2 * err >= 0 - dy then dy else 0) + (if 2 * err <= dx then dx else 0)
      && i' <= dx && j' <= dy
  {
    var u, v := i * dy, j * dx;
    assert (i + 1) * dy == u + dy && (j + 1) * dx == v + dx;
    var err := Err(dx, dy, i, j);
    MulNext(i, dy);
    MulNext(j, dx);
    BandInside(k + 1, if 2 * err >= 0 - dy then i + 1 else i, if 2 * err <= dx then j + 1 else j, dx, dy);
  }

  lemma BandInside(k: nat, i: nat, j: nat, dx: nat, dy: nat)
    requires InBand(k, i, j, dx, dy)
    ensures i <= dx && j <= dy
  {
    if dx >= dy {
      if j > dy { Gap(dy, j, dx); Below(i, dx, dy); }
    } else {
      if i > dx { Gap(dx, i, dy); Below(j, dy, dx); }
    }
  }

  // ---- the range of the error term ------------------------------------------------------------------------

  /** What one round computes fits 32 bits: twice the error term, and its value after each update. */
  predicate RoundFits(dx: nat, dy: nat, i: nat, j: nat) {
    var err := Err(dx, dy, i, j);
    var first := if 2 * err >= 0 - dy then err - dy else err;
    var second := if 2 * err <= dx then first + dx else first;
    Int32(2 * err) && Int32(first) && Int32(second)
  }

  /** The distance from the line at a round, doubled, lies within the longer extent. */
  predicate Within(n: nat, w: int) { 0 - n < 2 * w <= n }

  /** In a round of the band: the error term from the distance, and that distance. */
  lemma BandDistance(k: nat, i: nat, j: nat, dx: nat, dy: nat)
    requires InBand(k, i, j, dx, dy) && Max(dx, dy) > 0
    ensures dx >= dy ==> Within(dx, j * dx - k * dy) && Err(dx, dy, i, j) == dx - dy + (j * dx - k * dy)
    ensures dx < dy ==> Within(dy, i * dy - k * dx) && Err(dx, dy, i, j) == dx - dy - (i * dy - k * dx)
  {
  }

  /** A multiple of g within half of n is at most Half(n, g), and at least -Half(n - 1, g). */
  lemma HalfBounds(n: nat, g: nat, t: int)
    requires n > 0 && g > 0 && Within(n, t * g)
    ensures -(Half(n - 1, g) as int) <= t * g <= Half(n, g)
  {
    HalfMost(n, g, t);
    HalfMost(n - 1, g, -t);
    assert (-t) * g == -(t * g);
  }

  lemma HalfMost(n: nat, g: nat, t: int)
    requires g > 0 && 2 * (t * g) <= n
    ensures t * g <= Half(n, g)
  {
    var q := n / (2 * g);
    DivMod(n, 2 * g);
    assert q * (2 * g) == 2 * (q * g);
    if t > q {
      Gap(q, t, g);
      assert false;
    } else if t < q {
      Gap(t, q, g);
    }
  }

  /** Both bounds are multiples within reach. */
  lemma HalfWithin(n: nat, g: nat)
    requires n > 0 && g > 0
    ensures Within(n, Half(n, g)) && Within(n, -(Half(n - 1, g) as int))
  {
    var q, r := n / (2 * g), (n - 1) / (2 * g);
    DivMod(n, 2 * g);
    DivMod(n - 1, 2 * g);
    assert q * (2 * g) == 2 * (q * g) && r * (2 * g) == 2 * (r * g);
  }

  /** Every multiple within reach is the distance at some round. */
  lemma DistanceReached(n: nat, m: nat, t: int) returns (k: nat, c: nat)
    requires n > 0 && m <= n && Within(n, t * Gcd(n, m))
    ensures k < n && c * n - k * m == t * Gcd(n, m)
  {
    var d: int;
    k, d := Reached(n, m, t);
    DistanceSign(n, t * Gcd(n, m), d, k * m);
    c := d;
  }

  lemma DistanceSign(n: nat, w: int, d: int, u: nat)
    requires n > 0 && Within(n, w) && d * n - u == w
    ensures d >= 0
  {
    if d < 0 {
      Gap(d, 0, n);
      assert false;
    }
  }

  lemma RoundInRange(k: nat, i: nat, j: nat, dx: nat, dy: nat)
    requires InBand(k, i, j, dx, dy) && k < Max(dx, dy) && Max(dx, dy) < 0x8000_0000 && LineFits(dx, dy)
    ensures RoundFits(dx, dy, i, j)
  {
    if dx >= dy { WideInRange(k, j, dx, dy); } else { TallInRange(k, i, dx, dy); }
  }

  lemma WideInRange(k: nat, j: nat, dx: nat, dy: nat)
    requires dx >= dy && InBand(k, k, j, dx, dy) && k < dx < 0x8000_0000 && LineFits(dx, dy)
    ensures RoundFits(dx, dy, k, j)
  {
    var g := Gcd(dx, dy);
    GcdDivides(dx, dy);
    BandDistance(k, k, j, dx, dy);
    BandStep(k, k, j, dx, dy);
    var t := Combined(dx, dy, g, k, j);
    HalfBounds(dx, g, t);
    var j' := if 2 * Err(dx, dy, k, j) <= dx then j + 1 else j;
    BandDistance(k + 1, k + 1, j', dx, dy);
    var u := Combined(dx, dy, g, k + 1, j');
    HalfBounds(dx, g, u);
    WideSums(dx, dy, Err(dx, dy, k, j), t * g, u * g, Half(dx, g), Half(dx - 1, g));
  }

  /** The sums of one round on a wide line, from the distances before and after it. */
  lemma WideSums(dx: nat, dy: nat, err: int, w: int, w': int, most: nat, least: nat)
    requires dy <= dx < 0x8000_0000 && err == dx - dy + w && Within(dx, w) && Within(dx, w')
    requires 0 - least <= w <= most && w' <= most && 2 * (dx - dy) + 2 * most < 0x8000_0000
    requires 2 * dy - dx + least <= 0x8000_0000
    requires dx - dy + w' == err - dy + if 2 * err <= dx then dx else 0
    ensures Int32(2 * err) && 2 * err >= 0 - dy && Int32(err - dy) && Int32(dx - dy + w')
  {
  }

  lemma TallInRange(k: nat, i: nat, dx: nat, dy: nat)
    requires dx < dy && InBand(k, i, k, dx, dy) && k < dy < 0x8000_0000 && LineFits(dx, dy)
    ensures RoundFits(dx, dy, i, k)
  {
    var g := Gcd(dy, dx);
    GcdDivides(dy, dx);
    BandDistance(k, i, k, dx, dy);
    BandStep(k, i, k, dx, dy);
    var t := Combined(dy, dx, g, k, i);
    HalfBounds(dy, g, t);
    if 2 * Err(dx, dy, i, k) >= 0 - dy { FirstLeast(dy, dx, g, t); }
    var i' := if 2 * Err(dx, dy, i, k) >= 0 - dy then i + 1 else i;
    BandDistance(k + 1, i', k + 1, dx, dy);
    hide InBand, Err, Gcd, Half;
  }

  /** The least that the first update leaves on a tall line. */
  lemma FirstLeast(n: nat, m: nat, g: nat, t: int)
    requires g > 0 && m % g == 0 && n > 0 && 2 * (t * g) <= 2 * m - n
    ensures m - t * g >= Half(n + 2 * g - 1, g)
  {
    var m' := m / g;
    DivMod(m, g);
    assert (m' - t) * g == m - t * g;
    var q := (n + 2 * g - 1) / (2 * g);
    DivMod(n + 2 * g - 1, 2 * g);
    assert q * (2 * g) == 2 * (q * g);
    if m' - t < q {
      Gap(m' - t, q, g);
    } else if m' - t > q {
      Gap(q, m' - t, g);
    }
  }

  /** The bounds are exact: without them some round of the loop leaves 32 bits. */
  lemma LineFitsIff(dx: nat, dy: nat)
    requires Max(dx, dy) < 0x8000_0000
    ensures LineFits(dx, dy) <==>
      forall k: nat, i: nat, j: nat :: InBand(k, i, j, dx, dy) && k < Max(dx, dy) ==> RoundFits(dx, dy, i, j)
  {
    if LineFits(dx, dy) {
      forall k: nat, i: nat, j: nat | InBand(k, i, j, dx, dy) && k < Max(dx, dy) ensures RoundFits(dx, dy, i, j) {
        RoundInRange(k, i, j, dx, dy);
      }
    } else if dx >= dy {
      var k, j := WideOverflow(dx, dy);
      assert InBand(k, k, j, dx, dy);
    } else {
      var k, i := TallOverflow(dx, dy);
      assert InBand(k, i, k, dx, dy);
    }
  }

  lemma WideOverflow(dx: nat, dy: nat) returns (k: nat, j: nat)
    requires dy <= dx < 0x8000_0000 && !LineFits(dx, dy)
    ensures k < dx && InBand(k, k, j, dx, dy) && !RoundFits(dx, dy, k, j)
  {
    var g := Gcd(dx, dy);
    HalfWithin(dx, g);
    var t := if 2 * (dx - dy) + 2 * Half(dx, g) < 0x8000_0000 then -((dx - 1) / (2 * g)) else dx / (2 * g);
    assert -((dx - 1) / (2 * g)) * g == -((dx - 1) / (2 * g) * g);
    assert t * g == if 2 * (dx - dy) + 2 * Half(dx, g) < 0x8000_0000 then -(Half(dx - 1, g) as int) else Half(dx, g);
    k, j := DistanceReached(dx, dy, t);
    hide Gcd, Half;
  }

  lemma TallOverflow(dx: nat, dy: nat) returns (k: nat, i: nat)
    requires dx < dy < 0x8000_0000 && !LineFits(dx, dy)
    ensures k < dy && InBand(k, i, k, dx, dy) && !RoundFits(dx, dy, i, k)
  {
    var g := Gcd(dy, dx);
    if 2 * (dy - dx) + 2 * Half(dy, g) > 0x8000_0000 {
      HalfWithin(dy, g);
      k, i := DistanceReached(dy, dx, dy / (2 * g));
      hide Gcd, Half;
    } else {
      var t := LeastFirst(dy, dx);
      k, i := DistanceReached(dy, dx, t);
      hide Gcd, Half;
    }
  }

  /** The multiple at which the first update leaves least. */
  lemma LeastFirst(n: nat, m: nat) returns (t: int)
    requires m < n < 0x8000_0000 && 2 * n - Half(n + 2 * Gcd(n, m) - 1, Gcd(n, m)) > 0x8000_0000
    ensures Within(n, t * Gcd(n, m)) && t * Gcd(n, m) == m - Half(n + 2 * Gcd(n, m) - 1, Gcd(n, m))
    ensures n <= 2 * Half(n + 2 * Gcd(n, m) - 1, Gcd(n, m))
  {
    var g := Gcd(n, m);
    GcdDivides(n, m);
    if m == 0 {
      FlatLeast(n);
      assert false;
    }
    var q: nat := (n + 2 * g - 1) / (2 * g);
    t := m / g - q;
    hide Gcd;
    LeastWithin(n, m, g, q);
  }

  lemma FlatLeast(n: nat)
    requires n > 0
    ensures Gcd(n, 0) == n && Half(n + 2 * n - 1, n) == n
  {
    DivUnique(n + 2 * n - 1, 2 * n, 1, n - 1);
  }

  lemma LeastWithin(n: nat, m: nat, g: nat, q: nat)
    requires g > 0 && 0 < m < n && m % g == 0 && q == (n + 2 * g - 1) / (2 * g)
    ensures (m / g - q) * g == m - Half(n + 2 * g - 1, g) && n <= 2 * Half(n + 2 * g - 1, g)
    ensures Within(n, m - Half(n + 2 * g - 1, g))
  {
    var m' := m / g;
    DivMod(m, g);
    DivMod(n + 2 * g - 1, 2 * g);
    LeastSum(m', q, g);
    if m' == 0 { assert false; }
    MulAtLeast(m', g);
  }

  lemma LeastSum(m': nat, q: nat, g: nat)
    ensures (m' - q) * g == m' * g - q * g && q * (2 * g) == 2 * (q * g)
  {
  }

  /** A horizontal line of 2^30 pixels overflows, one of a pixel less does not. */
  lemma LongHorizontal()
    ensures !LineFits(0x4000_0000, 0) && LineFits(0x3fff_ffff, 0)
  {
  }
}
