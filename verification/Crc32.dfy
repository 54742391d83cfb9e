/** crc32 of src/hashcalc/hashcalc.c: chaining over pieces, linearity, and the errors it always detects. */
module Crc32 {

  const POLY: bv32 := 0xEDB88320

  function Xor(a: bv32, b: bv32): bv32 { a ^ b }
  function Not(a: bv32): bv32 { !a }
  function Half(a: bv32): bv32 { a >> 1 }
  predicate Odd(a: bv32) { a & 1 == 1 }
  function Wide(x: bv8): bv32 { x as bv32 }

  /** One of the eight shifts per byte. */
  function Shift(crc: bv32): bv32 { (crc >> 1) ^ (POLY & (0 - (crc & 1))) }

  function Shifted(crc: bv32, n: nat): bv32 { if n == 0 then crc else Shift(Shifted(crc, n - 1)) }

  function Feed(crc: bv32, x: bv8): bv32 { Shifted(Xor(crc, Wide(x)), 8) }

  function FeedAll(crc: bv32, data: seq<bv8>): bv32
    decreases |data|
  {
    if data == [] then crc else Feed(FeedAll(crc, data[..|data| - 1]), data[|data| - 1])
  }

  /** crc32 as a function. */
  function Crc(data: seq<bv8>, current: bv32): bv32 { Not(FeedAll(Not(current), data)) }

  method Crc32(data: array<bv8>, current: bv32) returns (res: bv32)
    ensures res == Crc(data[..], current)
  {
    hide Xor, Not, Wide, Shift;
    var crc := Not(current);
    var i := 0;
    while i < data.Length
      invariant i <= data.Length && crc == FeedAll(Not(current), data[..i])
    {
      crc := Xor(crc, Wide(data[i]));
      ghost var fed := crc;
      var j := 0;
      while j < 8
        invariant j <= 8 && crc == Shifted(fed, j)
      {
        crc := Shift(crc);
        j := j + 1;
      }
      assert data[..i + 1][..i] == data[..i];
      i := i + 1;
    }
    assert data[..i] == data[..];
    res := Not(crc);
  }

  lemma {:induction false} FeedJoin(crc: bv32, a: seq<bv8>, b: seq<bv8>)
    ensures FeedAll(crc, a + b) == FeedAll(FeedAll(crc, a), b)
    decreases |b|
  {
    hide Feed;
    if b == [] {
      assert a + b == a;
    } else {
      assert (a + b)[..|a + b| - 1] == a + b[..|b| - 1];
      FeedJoin(crc, a, b[..|b| - 1]);
    }
  }

  /** The checksum of a whole is the checksum of its second part begun from that of the first. */
  lemma Chained(a: seq<bv8>, b: seq<bv8>, c: bv32)
    ensures Crc(b, Crc(a, c)) == Crc(a + b, c)
  {
    hide FeedAll, Not;
    FeedJoin(Not(c), a, b);
    NotNot(FeedAll(Not(c), a));
  }

  lemma NotNot(x: bv32)
    ensures Not(Not(x)) == x
  {
  }

  // ---- linearity ------------------------------------------------------------------------------------

  lemma Assoc(a: bv32, b: bv32, c: bv32)
    ensures Xor(Xor(a, b), c) == Xor(a, Xor(b, c)) && Xor(a, b) == Xor(b, a)
  {
  }

  lemma Cancel(a: bv32)
    ensures Xor(a, a) == 0 && Xor(a, 0) == a
  {
  }

  /** (a + b) + (c + d) == (a + c) + (b + d). */
  lemma Middle(a: bv32, b: bv32, c: bv32, d: bv32)
    ensures Xor(Xor(a, b), Xor(c, d)) == Xor(Xor(a, c), Xor(b, d))
  {
    hide Xor;
    Assoc(a, b, Xor(c, d)); Assoc(b, c, d); Assoc(c, b, d); Assoc(a, c, Xor(b, d));
  }

  function Fold(a: bv32, odd: bool): bv32 { if odd then Xor(a, POLY) else a }

  lemma ShiftIs(x: bv32)
    ensures Shift(x) == Fold(Half(x), Odd(x))
  {
    assert x & 1 == 1 || x & 1 == 0;
  }

  lemma OddXor(x: bv32, y: bv32)
    ensures Odd(Xor(x, y)) <==> Odd(x) != Odd(y)
  {
  }

  lemma HalfXor(x: bv32, y: bv32)
    ensures Half(Xor(x, y)) == Xor(Half(x), Half(y))
  {
  }

  lemma FoldXor(a: bv32, b: bv32, p: bool, q: bool)
    ensures Xor(Fold(a, p), Fold(b, q)) == Fold(Xor(a, b), p != q)
  {
    hide Xor;
    Middle(a, POLY, b, POLY);
    Cancel(POLY); Cancel(Xor(a, b));
    Assoc(a, b, POLY); Assoc(a, POLY, b); Assoc(POLY, b, POLY);
  }

  lemma ShiftXor(x: bv32, y: bv32)
    ensures Shift(Xor(x, y)) == Xor(Shift(x), Shift(y))
  {
    hide *;
    ShiftIs(x); ShiftIs(y); ShiftIs(Xor(x, y));
    OddXor(x, y); HalfXor(x, y);
    FoldXor(Half(x), Half(y), Odd(x), Odd(y));
  }

  lemma {:induction false} ShiftedXor(x: bv32, y: bv32, n: nat)
    ensures Shifted(Xor(x, y), n) == Xor(Shifted(x, n), Shifted(y, n))
    decreases n
  {
    hide Shift, Xor;
    if n == 0 {
    } else {
      ShiftedXor(x, y, n - 1);
      ShiftXor(Shifted(x, n - 1), Shifted(y, n - 1));
    }
  }

  /** Two runs, after one more byte each, differ by what the difference of registers and bytes becomes. */
  lemma FeedXor(c: bv32, d: bv32, x: bv8, y: bv8)
    ensures Xor(Feed(c, x), Feed(d, y)) == Shifted(Xor(Xor(c, d), Xor(Wide(x), Wide(y))), 8)
  {
    hide Xor, Wide, Shifted;
    ShiftedXor(Xor(c, Wide(x)), Xor(d, Wide(y)), 8);
    Middle(c, Wide(x), d, Wide(y));
  }

  // ---- errors -----------------------------------------------------------------------------------------

  /** x fits in j bytes. */
  predicate Fits(x: bv32, j: nat) {
    if j == 0 then x == 0 else if j == 1 then x < 0x100 else if j == 2 then x < 0x10000
    else if j == 3 then x < 0x1000000 else true
  }

  function Double(x: bv32): bv32 { x << 1 }

  /** One shift undone, while the top bit is clear: nothing was folded in. */
  lemma Backwards(x: bv32)
    requires Shift(x) < 0x8000_0000
    ensures x == Double(Shift(x))
  {
  }

  function DoubleN(x: bv32, n: nat): bv32 { if n == 0 then x else Double(DoubleN(x, n - 1)) }

  lemma DoubleSmall(x: bv32, n: nat)
    requires x < 0x1000000 && n < 8
    ensures DoubleN(x, n) < 0x8000_0000
  {
    DoubleNIs(x, n);
  }

  lemma DoubleNIs(x: bv32, n: nat)
    requires n <= 8
    ensures DoubleN(x, 0) == x && DoubleN(x, 1) == x << 1 && DoubleN(x, 2) == x << 2 && DoubleN(x, 3) == x << 3
      && DoubleN(x, 4) == x << 4 && DoubleN(x, 5) == x << 5 && DoubleN(x, 6) == x << 6 && DoubleN(x, 7) == x << 7
      && DoubleN(x, 8) == x << 8
  {
  }

  /** A register whose top byte came out clear is what it was, moved down by a byte. */
  lemma {:induction false} AllBackwards(x: bv32, n: nat)
    requires n <= 8 && Fits(Shifted(x, 8), 3)
    ensures Shifted(x, 8 - n) == DoubleN(Shifted(x, 8), n)
    decreases n
  {
    hide Shift, Double;
    if n == 0 {
    } else {
      AllBackwards(x, n - 1);
      DoubleSmall(Shifted(x, 8), n - 1);
      Backwards(Shifted(x, 8 - n));
    }
  }

  /** Where the difference after a byte fits in three bytes, it is the one before it with the bytes, moved down. */
  lemma FeedUndone(c: bv32, d: bv32, x: bv8, y: bv8)
    requires Fits(Xor(Feed(c, x), Feed(d, y)), 3)
    ensures Xor(Xor(c, d), Xor(Wide(x), Wide(y))) == Up(Xor(Feed(c, x), Feed(d, y)))
  {
    var z := Xor(Xor(c, d), Xor(Wide(x), Wide(y)));
    assert Shifted(z, 0) == z;
    hide *;
    FeedXor(c, d, x, y);
    AllBackwards(z, 8);
    DoubledUp(Shifted(z, 8));
  }

  /** So a small difference came from a difference at most one byte longer. */
  lemma FeedBack(c: bv32, d: bv32, x: bv8, y: bv8, j: nat)
    requires j <= 3 && Fits(Xor(Feed(c, x), Feed(d, y)), j)
    ensures Fits(Xor(c, d), j + 1)
  {
    hide *;
    FitsMore(Xor(Feed(c, x), Feed(d, y)), j);
    FeedUndone(c, d, x, y);
    ByteBelow(x, y);
    XorBack(Xor(c, d), Xor(Wide(x), Wide(y)), Xor(Feed(c, x), Feed(d, y)), j);
  }

  /** From one register, only by equal bytes. */
  lemma FeedByte(c: bv32, x: bv8, y: bv8, j: nat)
    requires j <= 3 && Fits(Xor(Feed(c, x), Feed(c, y)), j)
    ensures x == y
  {
    hide *;
    FitsMore(Xor(Feed(c, x), Feed(c, y)), j);
    FeedUndone(c, c, x, y);
    ByteBelow(x, y);
    Cancel(c);
    ByteShifted(Xor(Wide(x), Wide(y)), Xor(Feed(c, x), Feed(c, y)), Xor(c, c));
    XorZero(Wide(x), Wide(y));
    WideOnly(x, y);
  }

  /** And equal bytes keep different registers different. */
  lemma FeedRegister(c: bv32, d: bv32, x: bv8)
    requires Feed(c, x) == Feed(d, x)
    ensures c == d
  {
    hide *;
    Cancel(Feed(c, x));
    ZeroFits(Xor(Feed(c, x), Feed(c, x)));
    FeedUndone(c, d, x, x);
    Cancel(Wide(x));
    Cancel(Xor(c, d));
    XorZero(c, d);
  }

  lemma ZeroFits(x: bv32)
    requires x == 0
    ensures Fits(x, 3) && Fits(x, 0) && Up(x) == 0
  {
  }

  function Up(x: bv32): bv32 { x << 8 }

  lemma DoubledUp(x: bv32)
    ensures DoubleN(x, 8) == Up(x)
  {
    DoubleNIs(x, 8);
  }

  lemma FitsMore(x: bv32, j: nat)
    requires j <= 3 && Fits(x, j)
    ensures Fits(x, 3)
  {
  }

  lemma ByteBelow(x: bv8, y: bv8)
    ensures Xor(Wide(x), Wide(y)) < 0x100
  {
  }

  lemma XorBack(e: bv32, w: bv32, after: bv32, j: nat)
    requires j <= 3 && Fits(after, j) && w < 0x100 && Xor(e, w) == Up(after)
    ensures Fits(e, j + 1)
  {
    XorTwice(e, w);
    JoinFits(after, w, j);
  }

  lemma XorTwice(e: bv32, w: bv32)
    ensures Xor(Xor(e, w), w) == e
  {
    hide Xor;
    Assoc(e, w, w); Cancel(w); Cancel(e);
  }

  lemma JoinFits(after: bv32, w: bv32, j: nat)
    requires j <= 3 && Fits(after, j) && w < 0x100
    ensures Fits(Xor(Up(after), w), j + 1)
  {
  }

  lemma ByteShifted(w: bv32, after: bv32, e: bv32)
    requires e == 0 && w < 0x100 && Xor(e, w) == Up(after)
    ensures w == 0
  {
  }

  lemma XorZero(a: bv32, b: bv32)
    requires Xor(a, b) == 0
    ensures a == b
  {
  }

  lemma WideOnly(x: bv8, y: bv8)
    requires Wide(x) == Wide(y)
    ensures x == y
  {
  }

  lemma {:induction false} Window(c: bv32, u: seq<bv8>, v: seq<bv8>, j: nat)
    requires |u| == |v| && |u| + j <= 4 && Fits(Xor(FeedAll(c, u), FeedAll(c, v)), j)
    ensures u == v
    decreases |u|
  {
    hide Feed, Xor, Fits;
    if u == [] {
    } else {
      var n := |u| - 1;
      FeedBack(FeedAll(c, u[..n]), FeedAll(c, v[..n]), u[n], v[n], j);
      Window(c, u[..n], v[..n], j + 1);
      FeedByte(FeedAll(c, u[..n]), u[n], v[n], j);
      assert u == u[..n] + [u[n]] && v == v[..n] + [v[n]];
    }
  }

  /** Different registers stay different whatever is fed to both. */
  lemma {:induction false} StayDifferent(c: bv32, d: bv32, w: seq<bv8>)
    requires FeedAll(c, w) == FeedAll(d, w)
    ensures c == d
    decreases |w|
  {
    hide Feed, Xor;
    if w == [] {
    } else {
      var n := |w| - 1;
      FeedRegister(FeedAll(c, w[..n]), FeedAll(d, w[..n]), w[n]);
      StayDifferent(c, d, w[..n]);
    }
  }

  /** Two messages of one length that differ, and only within four consecutive bytes, never share a checksum. */
  lemma BurstDetected(p: seq<bv8>, u: seq<bv8>, v: seq<bv8>, q: seq<bv8>, c: bv32)
    requires |u| == |v| <= 4 && u != v
    ensures Crc(p + u + q, c) != Crc(p + v + q, c)
  {
    hide FeedAll, Not;
    FeedJoin(Not(c), p, u); FeedJoin(Not(c), p, v);
    FeedJoin(Not(c), p + u, q); FeedJoin(Not(c), p + v, q);
    var s := FeedAll(Not(c), p);
    if Crc(p + u + q, c) == Crc(p + v + q, c) {
      NotNot(FeedAll(Not(c), p + u + q)); NotNot(FeedAll(Not(c), p + v + q));
      StayDifferent(FeedAll(s, u), FeedAll(s, v), q);
      Cancel(FeedAll(s, u));
      ZeroFits(Xor(FeedAll(s, u), FeedAll(s, v)));
      Window(s, u, v, 0);
    }
  }

  // ---- the residue ----------------------------------------------------------------------------------------

  function LowByte(x: bv32): bv32 { x & 0xFF }
  function Down(x: bv32): bv32 { x >> 8 }
  function Byte(x: bv32): bv8 { (x & 0xFF) as bv8 }

  /** The four bytes of a checksum, the lowest first. */
  function Bytes(x: bv32): seq<bv8> { [Byte(x), Byte(Down(x)), Byte(Down(Down(x))), Byte(Down(Down(Down(x))))] }

  lemma {:induction false} ShiftedAgain(x: bv32, n: nat, m: nat)
    ensures Shifted(Shifted(x, n), m) == Shifted(x, n + m)
    decreases m
  {
    hide Shift;
    if m == 0 {
    } else {
      ShiftedAgain(x, n, m - 1);
    }
  }

  predicate Clear(x: bv32, n: nat) { n == 0 || (!Odd(x) && Clear(Half(x), n - 1)) }

  function HalfN(x: bv32, n: nat): bv32 { if n == 0 then x else HalfN(Half(x), n - 1) }

  lemma ClearOne(x: bv32)
    requires !Odd(x)
    ensures Shifted(x, 1) == Half(x)
  {
    ShiftIs(x);
    hide Shift, Half, Odd;
    assert Shifted(x, 0) == x;
  }

  /** While the bits that come out are clear, shifting is halving. */
  lemma {:induction false} ClearShifts(x: bv32, n: nat)
    requires Clear(x, n)
    ensures Shifted(x, n) == HalfN(x, n)
    decreases n
  {
    hide Shift, Half, Odd;
    if n == 0 {
    } else {
      ClearOne(x);
      ClearShifts(Half(x), n - 1);
      ShiftedAgain(x, 1, n - 1);
    }
  }

  lemma OddHalves(x: bv32)
    requires x & 0xFF == 0
    ensures !Odd(x) && !Odd(Half(x)) && !Odd(Half(Half(x))) && !Odd(Half(Half(Half(x))))
    ensures Half(Half(Half(Half(x)))) & 0xF == 0
  {
  }

  lemma OddHalvesOn(x: bv32)
    requires x & 0xF == 0
    ensures !Odd(x) && !Odd(Half(x)) && !Odd(Half(Half(x))) && !Odd(Half(Half(Half(x))))
  {
  }

  lemma FourDown(x: bv32)
    ensures var y := Half(Half(Half(Half(x)))); Half(Half(Half(Half(y)))) == Down(x)
  {
  }

  lemma ClearFour(x: bv32, n: nat)
    requires !Odd(x) && !Odd(Half(x)) && !Odd(Half(Half(x))) && !Odd(Half(Half(Half(x))))
    ensures var y := Half(Half(Half(Half(x)))); (Clear(y, n) ==> Clear(x, n + 4)) && HalfN(x, n + 4) == HalfN(y, n)
  {
    hide Odd, Half;
    var h := Half(Half(x));
    assert Clear(h, n + 2) <== Clear(Half(Half(h)), n);
    assert HalfN(h, n + 2) == HalfN(Half(Half(h)), n);
    assert HalfN(x, n + 4) == HalfN(h, n + 2);
  }

  /** Eight shifts of a register whose low byte is clear move it down by a byte. */
  lemma ClearByte(x: bv32)
    requires x & 0xFF == 0
    ensures Shifted(x, 8) == Down(x)
  {
    OddHalves(x);
    var y := Half(Half(Half(Half(x))));
    OddHalvesOn(y);
    FourDown(x);
    hide Odd, Half, Down, Shifted;
    ClearFour(y, 0);
    ClearFour(x, 4);
    ClearShifts(x, 8);
  }

  lemma HighPart(w: bv32)
    ensures Xor(w, LowByte(w)) & 0xFF == 0
  {
  }

  lemma HighDown(w: bv32)
    ensures Down(Xor(w, LowByte(w))) == Down(w)
  {
  }

  lemma SplitLow(w: bv32)
    ensures var high := Xor(w, LowByte(w)); Xor(LowByte(w), high) == w && Shifted(high, 8) == Down(w)
  {
    HighPart(w);
    HighDown(w);
    hide Xor, LowByte, Down, Shifted;
    ClearByte(Xor(w, LowByte(w)));
    Assoc(LowByte(w), w, LowByte(w));
    XorTwice(w, LowByte(w));
  }

  lemma Steps(x: bv32)
    ensures Shifted(x, 8) == Shift(Shift(Shift(Shift(Shift(Shift(Shift(Shift(x))))))))
  {
    hide Shift;
    assert Shifted(x, 1) == Shift(Shifted(x, 0));
    assert Shifted(x, 3) == Shift(Shifted(x, 2)) && Shifted(x, 2) == Shift(Shifted(x, 1));
    assert Shifted(x, 5) == Shift(Shifted(x, 4)) && Shifted(x, 4) == Shift(Shifted(x, 3));
    assert Shifted(x, 7) == Shift(Shifted(x, 6)) && Shifted(x, 6) == Shift(Shifted(x, 5));
  }

  /** A register takes its next byte as if the register and the bytes to come had been combined. */
  lemma FeedLow(c: bv32, w: bv32, x: bv8)
    requires Wide(x) == LowByte(w)
    ensures Shifted(Xor(c, w), 8) == Xor(Feed(c, x), Down(w))
  {
    SplitLow(w);
    hide Xor, Wide, LowByte, Down, Shifted;
    var high := Xor(w, LowByte(w));
    Assoc(c, Wide(x), high);
    ShiftedXor(Xor(c, Wide(x)), high, 8);
  }

  lemma ByteLow(w: bv32)
    ensures Wide(Byte(w)) == LowByte(w)
  {
  }

  lemma DownFour(w: bv32)
    ensures Down(Down(Down(Down(w)))) == 0
  {
  }

  lemma FeedFour(c: bv32, b: seq<bv8>)
    requires |b| == 4
    ensures FeedAll(c, b) == Feed(Feed(Feed(Feed(c, b[0]), b[1]), b[2]), b[3])
  {
    hide Feed;
    assert b[..3][..2] == b[..2] && b[..2][..1] == b[..1] && b[..1][..0] == [];
    assert FeedAll(c, b[..1]) == Feed(c, b[0]);
    assert FeedAll(c, b[..2]) == Feed(Feed(c, b[0]), b[1]);
    assert FeedAll(c, b[..3]) == Feed(Feed(Feed(c, b[0]), b[1]), b[2]);
  }

  lemma FeedWord(c: bv32, w: bv32)
    ensures FeedAll(c, Bytes(w)) == Shifted(Xor(c, w), 32)
  {
    var b := Bytes(w);
    FeedFour(c, b);
    ByteLow(w); ByteLow(Down(w)); ByteLow(Down(Down(w))); ByteLow(Down(Down(Down(w))));
    DownFour(w);
    hide Byte, Wide, LowByte, Down, Feed, Xor, Shifted, FeedAll;
    var c1 := Feed(c, b[0]);
    var c2 := Feed(c1, b[1]);
    var c3 := Feed(c2, b[2]);
    FeedLow(c, w, b[0]);
    FeedLow(c1, Down(w), b[1]);
    FeedLow(c2, Down(Down(w)), b[2]);
    FeedLow(c3, Down(Down(Down(w))), b[3]);
    Cancel(Feed(c3, b[3]));
    ShiftedAgain(Xor(c, w), 8, 8); ShiftedAgain(Xor(c, w), 16, 8); ShiftedAgain(Xor(c, w), 24, 8);
  }

  lemma OnesShifted()
    ensures Shifted(0xFFFF_FFFF, 32) == 0xDEBB_20E3
  {
    Steps(0xFFFFFFFF);
    assert Shift(0xFFFFFFFF) == 0x92477CDF;
    assert Shift(0x92477CDF) == 0xA49B3D4F;
    assert Shift(0xA49B3D4F) == 0xBFF51D87;
    assert Shift(0xBFF51D87) == 0xB2420DE3;
    assert Shift(0xB2420DE3) == 0xB49985D1;
    assert Shift(0xB49985D1) == 0xB7F441C8;
    assert Shift(0xB7F441C8) == 0x5BFA20E4;
    assert Shift(0x5BFA20E4) == 0x2DFD1072;
    Steps(0x2DFD1072);
    assert Shift(0x2DFD1072) == 0x16FE8839;
    assert Shift(0x16FE8839) == 0xE6C7C73C;
    assert Shift(0xE6C7C73C) == 0x7363E39E;
    assert Shift(0x7363E39E) == 0x39B1F1CF;
    assert Shift(0x39B1F1CF) == 0xF1607BC7;
    assert Shift(0xF1607BC7) == 0x9508BEC3;
    assert Shift(0x9508BEC3) == 0xA73CDC41;
    assert Shift(0xA73CDC41) == 0xBE26ED00;
    Steps(0xBE26ED00);
    assert Shift(0xBE26ED00) == 0x5F137680;
    assert Shift(0x5F137680) == 0x2F89BB40;
    assert Shift(0x2F89BB40) == 0x17C4DDA0;
    assert Shift(0x17C4DDA0) == 0xBE26ED0;
    assert Shift(0xBE26ED0) == 0x5F13768;
    assert Shift(0x5F13768) == 0x2F89BB4;
    assert Shift(0x2F89BB4) == 0x17C4DDA;
    assert Shift(0x17C4DDA) == 0xBE26ED;
    Steps(0xBE26ED);
    assert Shift(0xBE26ED) == 0xEDE79056;
    assert Shift(0xEDE79056) == 0x76F3C82B;
    assert Shift(0x76F3C82B) == 0xD6C16735;
    assert Shift(0xD6C16735) == 0x86D830BA;
    assert Shift(0x86D830BA) == 0x436C185D;
    assert Shift(0x436C185D) == 0xCC0E8F0E;
    assert Shift(0xCC0E8F0E) == 0x66074787;
    assert Shift(0x66074787) == 0xDEBB20E3;
    hide Shift, Shifted;
    ShiftedAgain(0xFFFF_FFFF, 8, 8); ShiftedAgain(0xFFFF_FFFF, 16, 8); ShiftedAgain(0xFFFF_FFFF, 24, 8);
  }

  lemma WithNot(x: bv32)
    ensures Xor(x, Not(x)) == 0xFFFF_FFFF && Not(0xDEBB_20E3) == 0x2144_DF1C && Not(0xFFFF_FFFF) == 0
    ensures Not(0) == 0xFFFF_FFFF
  {
  }

  /** Every message followed by its own checksum, lowest byte first, has one and the same checksum. */
  lemma Residue(m: seq<bv8>, current: bv32)
    ensures Crc(m + Bytes(Crc(m, current)), current) == 0x2144_DF1C
  {
    var r := FeedAll(Not(current), m);
    hide FeedAll, Not, Bytes, Xor, Shifted;
    FeedJoin(Not(current), m, Bytes(Not(r)));
    FeedWord(r, Not(r));
    WithNot(r);
    OnesShifted();
  }

  /** So four bytes after a message are its checksum exactly when the whole has that one. */
  lemma ResidueIff(m: seq<bv8>, b: seq<bv8>, current: bv32)
    requires |b| == 4
    ensures Crc(m + b, current) == 0x2144_DF1C <==> b == Bytes(Crc(m, current))
  {
    hide Crc;
    var own := Bytes(Crc(m, current));
    Residue(m, current);
    if b != own {
      BurstDetected(m, b, own, [], current);
      assert m + b + [] == m + b && m + own + [] == m + own;
    }
  }

  /** The checksum of nothing is the one begun with. */
  lemma NothingFed(current: bv32)
    ensures Crc([], current) == current
  {
    NotNot(current);
  }
}
