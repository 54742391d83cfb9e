/**
  The instructions of src/chip8/chip8.c one by one: what one cycle makes of the two bytes at the program counter.
  h and x are the digits of the first byte, b is the second one, and y and n its digits.
 */
module Chip8Opcodes {
  import opened Arith
  import opened Common
  import opened Chip8Model
  import opened Chip8Laws

  /** Registers, timers and memory hold bytes, the rest 16 bits. */
  ghost predicate Words(c: Cpu) {
    && Sized(c) && Bytes(c.V) && (forall a :: 0 <= a < 4096 ==> c.memory[a] < 256)
    && c.I < 65536 && c.pc < 65536 && c.delay < 256 && c.sound < 256
    && forall i :: 0 <= i < 16 ==> c.stack[i] < 65536
  }

  /** The instruction at the program counter. */
  ghost predicate Reads(c: Cpu, h: nat, x: nat, b: nat) {
    && Sized(c) && Words(c) && h < 16 && x < 16 && b < 256
    && c.pc + 1 < 4096 && c.memory[c.pc] == 16 * h + x && c.memory[c.pc + 1] == b
  }

  function Code(h: nat, x: nat, b: nat): nat { (16 * h + x) * 256 + b }

  lemma Digits(h: nat, x: nat, b: nat)
    requires h < 16 && x < 16 && b < 256
    ensures var op := Code(h, x, b);
      && op < 65536 && op / 4096 == h && op % 4096 == 256 * x + b && op / 256 % 16 == x && op % 256 == b
      && op / 16 % 16 == b / 16 && op % 16 == b % 16
  {
    var op := (16 * h + x) * 256 + b;
    assert op / 256 == 16 * h + x;
    assert op / 16 == 16 * (16 * h + x) + b / 16;
  }

  lemma OpcodeIs(c: Cpu, h: nat, x: nat, b: nat)
    requires Reads(c, h, x, b)
    ensures Sized(c) && c.pc + 1 < 4096 && Code(h, x, b) < 65536 && Opcode(c) == Code(h, x, b)
  {
    Digits(h, x, b);
    hide Words;
  }

  function Next(c: Cpu): Cpu { c.(pc := c.pc + 2) }

  lemma CycleIs(c: Cpu, rnd: nat, h: nat, x: nat, b: nat)
    requires Reads(c, h, x, b)
    ensures Code(h, x, b) < 65536 && Sized(Next(c)) && Cycle(c, rnd) == Execute(Next(c), Code(h, x, b), rnd)
  {
    OpcodeIs(c, h, x, b);
    hide Execute, Reads, Opcode;
  }

  /** One cycle carries out that instruction with the program counter moved on by 2. */
  lemma Decoded(c: Cpu, rnd: nat, h: nat, x: nat, b: nat)
    requires Reads(c, h, x, b)
    ensures h < 16 && x < 16 && b < 256 && Sized(c) && Bytes(c.V) && Next(c) == c.(pc := c.pc + 2)
    ensures Sized(Next(c)) && Code(h, x, b) < 65536 && Cycle(c, rnd) == Execute(Next(c), Code(h, x, b), rnd)
    ensures var op := Code(h, x, b);
      && op / 4096 == h && op % 4096 == 256 * x + b && op / 256 % 16 == x && op % 256 == b
      && op / 16 % 16 == b / 16 && op % 16 == b % 16
  {
    CycleIs(c, rnd, h, x, b);
    Digits(h, x, b);
    hide Execute, Cycle, Code;
  }

  // ---- skips ----------------------------------------------------------------------------------------------

  /** The condition under which an instruction that may skip the next one does. */
  predicate SkipsOn(c: Cpu, h: nat, x: nat, b: nat)
    requires Sized(c) && x < 16 && b < 256
  {
    match h
    case 3 => c.V[x] == b
    case 4 => c.V[x] != b
    case 5 => c.V[x] == c.V[b / 16]
    case 9 => c.V[x] != c.V[b / 16]
    case 14 => (b == 0x9E && c.key[c.V[x] % 16]) || (b == 0xA1 && !c.key[c.V[x] % 16])
    case _ => false
  }

  /** Skipping moves on by 4 and not skipping by 2; nothing else changes. */
  lemma SkipsIff(c: Cpu, rnd: nat, h: nat, x: nat, b: nat)
    requires Reads(c, h, x, b) && h in {3, 4, 5, 9, 14}
    ensures Cycle(c, rnd) == Some(c.(pc := if SkipsOn(c, h, x, b) then c.pc + 4 else c.pc + 2))
  {
    Decoded(c, rnd, h, x, b);
    hide Words, Bytes, Cycle, Code, System, Misc, Draw, Alu, BitAnd;
  }

  // ---- jumps ------------------------------------------------------------------------------------------------

  /** 1nnn and Bnnn jump, and 2nnn calls while the stack has room. */
  lemma JumpsTo(c: Cpu, rnd: nat, h: nat, x: nat, b: nat)
    requires Reads(c, h, x, b)
    ensures h == 1 ==> Cycle(c, rnd) == Some(c.(pc := 256 * x + b))
    ensures h == 2 ==> Cycle(c, rnd) == Some(
      if c.sp < 16 then c.(stack := c.stack[c.sp := c.pc + 2], sp := c.sp + 1, pc := 256 * x + b)
      else c.(pc := c.pc + 2))
    ensures h == 11 ==> Cycle(c, rnd) == Some(c.(pc := 256 * x + b + c.V[0]))
  {
    hide *;
    Decoded(c, rnd, h, x, b);
    FirstByte(c.V);
    JumpStep(Next(c), Code(h, x, b), rnd);
  }

  lemma FirstByte(V: seq<nat>)
    requires Bytes(V)
    ensures |V| == 16 && V[0] < 256
  {
  }

  lemma JumpStep(c: Cpu, op: nat, rnd: nat)
    requires Sized(c) && op < 65536
    ensures var h, nnn := op / 4096, op % 4096;
      && (h == 1 ==> Execute(c, op, rnd) == Some(c.(pc := nnn)))
      && (h == 2 ==> Execute(c, op, rnd) == Some(
           if c.sp < 16 then c.(stack := c.stack[c.sp := c.pc], sp := c.sp + 1, pc := nnn) else c))
      && (h == 11 ==> Execute(c, op, rnd) == Some(c.(pc := (nnn + c.V[0]) % 65536)))
  {
    hide System, Misc, Draw, Alu, BitAnd;
  }

  /** 00EE returns to the address on the stack; without one, and for every other 0nnn but 00E0, nothing happens. */
  lemma ReturnsTo(c: Cpu, rnd: nat, x: nat, b: nat)
    requires Reads(c, 0, x, b) && !(x == 0 && b == 0xE0)
    ensures Cycle(c, rnd) == Some(
      if x == 0 && b == 0xEE && c.sp > 0 then c.(sp := c.sp - 1, pc := c.stack[c.sp - 1]) else c.(pc := c.pc + 2))
  {
    Decoded(c, rnd, 0, x, b);
    hide Words, Bytes, Cycle, Misc, Draw, Alu, BitAnd;
  }

  /** 00E0 puts out every pixel. */
  lemma ClearsScreen(c: Cpu, rnd: nat)
    requires Reads(c, 0, 0, 0xE0)
    ensures Cycle(c, rnd).Some?
    ensures var d := Cycle(c, rnd).value;
      && |d.gfx| == 2048 && (forall p :: 0 <= p < 2048 ==> !d.gfx[p])
      && d == c.(pc := c.pc + 2, gfx := d.gfx, draw := true)
  {
    Decoded(c, rnd, 0, 0, 0xE0);
    hide Words, Bytes, Cycle, Misc, Draw, Alu, BitAnd;
  }

  // ---- registers --------------------------------------------------------------------------------------------

  /** Bit i of a number. */
  predicate Bit(v: nat, i: nat) { v / Pow(2, i) % 2 == 1 }

  lemma BitHalf(v: nat, i: nat)
    ensures Bit(v, i + 1) == Bit(v / 2, i) && (Bit(v, 0) <==> v % 2 == 1)
  {
    var p := Pow(2, i);
    assert Pow(2, i + 1) == 2 * p;
    HalfFirst(v, p);
  }

  lemma HalfFirst(v: nat, p: nat)
    requires p > 0
    ensures v / (2 * p) == v / 2 / p
  {
    var q, r := v / 2 / p, v / 2 % p;
    assert v == 2 * (q * p + r) + v % 2;
    DivUnique(v, 2 * p, q, 2 * r + v % 2);
  }

  /** Bytes with the same eight bits are the same. */
  lemma BitsFix(v: nat, w: nat)
    requires v < 256 && w < 256 && forall i :: 0 <= i < 8 ==> Bit(v, i) == Bit(w, i)
    ensures v == w
  {
    FixTo(v, w, 8);
  }

  lemma {:induction false} FixTo(v: nat, w: nat, k: nat)
    requires v < Pow(2, k) && w < Pow(2, k) && forall i :: 0 <= i < k ==> Bit(v, i) == Bit(w, i)
    ensures v == w
    decreases k
  {
    if k == 0 {
    } else {
      BitHalf(v, 0);
      BitHalf(w, 0);
      hide Bit;
      forall i | 0 <= i < k - 1 ensures Bit(v / 2, i) == Bit(w / 2, i) {
        BitHalf(v, i);
        BitHalf(w, i);
        assert Bit(v, i + 1) == Bit(w, i + 1);
      }
      FixTo(v / 2, w / 2, k - 1);
    }
  }

  lemma ZeroBits(i: nat)
    ensures !Bit(0, i)
  {
  }

  /** The C operators |, & and ^ bit by bit. */
  lemma {:induction false} BitwiseAt(v: nat, w: nat, i: nat)
    ensures Bit(Or(v, w), i) <==> Bit(v, i) || Bit(w, i)
    ensures Bit(BitAnd(v, w), i) <==> Bit(v, i) && Bit(w, i)
    ensures Bit(BitXor(v, w), i) <==> Bit(v, i) != Bit(w, i)
    decreases i
  {
    ZeroBits(i);
    if v != 0 && w != 0 {
      Halves(v, w);
      hide Or, BitAnd, BitXor, Bit;
      var o, a, e := Or(v, w), BitAnd(v, w), BitXor(v, w);
      if i == 0 {
        BitHalf(o, 0); BitHalf(a, 0); BitHalf(e, 0); BitHalf(v, 0); BitHalf(w, 0);
      } else {
        BitHalf(o, i - 1); BitHalf(a, i - 1); BitHalf(e, i - 1); BitHalf(v, i - 1); BitHalf(w, i - 1);
        BitwiseAt(v / 2, w / 2, i - 1);
      }
    }
  }

  lemma Halves(v: nat, w: nat)
    requires v != 0 && w != 0
    ensures Or(v, w) / 2 == Or(v / 2, w / 2) && (Or(v, w) % 2 == 1 <==> v % 2 == 1 || w % 2 == 1)
    ensures BitAnd(v, w) / 2 == BitAnd(v / 2, w / 2) && (BitAnd(v, w) % 2 == 1 <==> v % 2 == 1 && w % 2 == 1)
    ensures BitXor(v, w) / 2 == BitXor(v / 2, w / 2) && (BitXor(v, w) % 2 == 1 <==> v % 2 != w % 2)
  {
    OrDigit(v, w);
    AndDigit(v, w);
    XorDigits(v, w);
    hide *;
    Last(Or(v / 2, w / 2), if v % 2 == 1 || w % 2 == 1 then 1 else 0);
    Last(BitAnd(v / 2, w / 2), if v % 2 == 1 && w % 2 == 1 then 1 else 0);
    Last(BitXor(v / 2, w / 2), if v % 2 != w % 2 then 1 else 0);
  }

  lemma OrDigit(v: nat, w: nat)
    requires v != 0 && w != 0
    ensures Or(v, w) == 2 * Or(v / 2, w / 2) + if v % 2 == 1 || w % 2 == 1 then 1 else 0
  {
  }

  lemma AndDigit(v: nat, w: nat)
    requires v != 0 && w != 0
    ensures BitAnd(v, w) == 2 * BitAnd(v / 2, w / 2) + if v % 2 == 1 && w % 2 == 1 then 1 else 0
  {
    Unfolded(v, w);
    hide *;
    Product(v % 2, w % 2);
  }

  lemma XorDigits(v: nat, w: nat)
    requires v != 0 && w != 0
    ensures BitXor(v, w) == 2 * BitXor(v / 2, w / 2) + if v % 2 != w % 2 then 1 else 0
  {
    Unfolded(v, w);
    hide *;
    ParitySum(v, w);
  }

  lemma Unfolded(v: nat, w: nat)
    requires v != 0 && w != 0
    ensures BitAnd(v, w) == v % 2 * (w % 2) + 2 * BitAnd(v / 2, w / 2)
    ensures BitXor(v, w) == (v + w) % 2 + 2 * BitXor(v / 2, w / 2)
  {
  }

  lemma Product(d: nat, e: nat)
    requires d < 2 && e < 2
    ensures d * e == if d == 1 && e == 1 then 1 else 0
  {
    if d == 0 { assert d * e == 0; }
  }

  lemma ParitySum(v: nat, w: nat)
    ensures (v + w) % 2 == if v % 2 != w % 2 then 1 else 0
  {
  }

  lemma Last(q: nat, d: nat)
    requires d < 2
    ensures (2 * q + d) / 2 == q && (2 * q + d) % 2 == d
  {
  }

  lemma {:induction false} BitwiseBelow(v: nat, w: nat, k: nat)
    requires v < Pow(2, k) && w < Pow(2, k)
    ensures Or(v, w) < Pow(2, k) && BitAnd(v, w) < Pow(2, k) && BitXor(v, w) < Pow(2, k)
    decreases k
  {
    if k > 0 && v != 0 && w != 0 {
      BitwiseBelow(v / 2, w / 2, k - 1);
      Halves(v, w);
      hide Or, BitAnd, BitXor;
    }
  }

  lemma BitwiseBytes(v: nat, w: nat)
    requires v < 256 && w < 256
    ensures Or(v, w) < 256 && BitAnd(v, w) < 256 && BitXor(v, w) < 256
    ensures forall i :: 0 <= i < 8 ==>
      && (Bit(Or(v, w), i) <==> Bit(v, i) || Bit(w, i)) && (Bit(BitAnd(v, w), i) <==> Bit(v, i) && Bit(w, i))
      && (Bit(BitXor(v, w), i) <==> Bit(v, i) != Bit(w, i))
  {
    assert Pow(2, 8) == 256;
    BitwiseBelow(v, w, 8);
    hide Pow, Or, BitAnd, BitXor, Bit;
    forall i | 0 <= i < 8
      ensures Bit(Or(v, w), i) <==> Bit(v, i) || Bit(w, i)
      ensures Bit(BitAnd(v, w), i) <==> Bit(v, i) && Bit(w, i)
      ensures Bit(BitXor(v, w), i) <==> Bit(v, i) != Bit(w, i)
    {
      BitwiseAt(v, w, i);
    }
  }

  lemma AluStep(c: Cpu, op: nat, rnd: nat)
    requires Sized(c) && op < 65536
    ensures op / 4096 == 8 ==> Execute(c, op, rnd) == Some(c.(V := Alu(c.V, op / 256 % 16, op / 16 % 16, op % 16)))
    ensures op / 4096 == 12 ==>
      Execute(c, op, rnd) == Some(c.(V := c.V[op / 256 % 16 := BitAnd(rnd % 256, op % 256)]))
  {
    hide System, Misc, Draw, Alu, BitAnd;
  }

  /** 8xyn changes only registers, and of these only x and VF. */
  predicate OnlyRegisters(c: Cpu, r: Option<Cpu>, x: nat)
    requires Sized(c)
  {
    && r.Some? && |r.value.V| == 16 && r.value == c.(pc := c.pc + 2, V := r.value.V)
    && forall i :: 0 <= i < 16 && i != x && i != 15 ==> r.value.V[i] == c.V[i]
  }

  /** Register i as it is read after VF has been set to f. */
  function Seen(V: seq<nat>, f: nat, i: nat): nat
    requires i < |V|
  {
    if i == 15 then f else V[i]
  }

  /** What 8xyn makes of register x and VF. */
  ghost predicate AluDoes(V: seq<nat>, W: seq<nat>, x: nat, y: nat, n: nat)
    requires |V| == |W| == 16 && x < 16 && y < 16
  {
    match n
    case 0 => W[x] == V[y] && (x != 15 ==> W[15] == V[15])
    case 1 =>
      W[x] < 256 && (x != 15 ==> W[15] == V[15])
      && forall i :: 0 <= i < 8 ==> (Bit(W[x], i) <==> Bit(V[x], i) || Bit(V[y], i))
    case 2 =>
      W[x] < 256 && (x != 15 ==> W[15] == V[15])
      && forall i :: 0 <= i < 8 ==> (Bit(W[x], i) <==> Bit(V[x], i) && Bit(V[y], i))
    case 3 =>
      W[x] < 256 && (x != 15 ==> W[15] == V[15])
      && forall i :: 0 <= i < 8 ==> (Bit(W[x], i) <==> Bit(V[x], i) != Bit(V[y], i))
    case 4 =>
      var f := if V[x] + V[y] > 255 then 1 else 0;
      W[x] == V[x] + V[y] - 256 * f && (x != 15 ==> W[15] == f)
    case 5 =>
      var f := if V[x] >= V[y] then 1 else 0;
      var d := Seen(V, f, x) - Seen(V, f, y);
      W[x] == (if d < 0 then d + 256 else d) && (x != 15 ==> W[15] == f)
    case 6 => W[x] == Seen(V, V[x] % 2, x) / 2 && (x != 15 ==> W[15] == V[x] % 2)
    case 7 =>
      var f := if V[y] >= V[x] then 1 else 0;
      var d := Seen(V, f, y) - Seen(V, f, x);
      W[x] == (if d < 0 then d + 256 else d) && (x != 15 ==> W[15] == f)
    case 14 =>
      var f := if V[x] >= 128 then 1 else 0;
      var d := 2 * Seen(V, f, x);
      W[x] == (if d > 255 then d - 256 else d) && (x != 15 ==> W[15] == f)
    case _ => W == V
  }

  lemma MovesAndBits(V: seq<nat>, x: nat, y: nat, n: nat)
    requires Bytes(V) && x < 16 && y < 16 && n < 4
    ensures AluDoes(V, Alu(V, x, y, n), x, y, n)
  {
    BitwiseBytes(V[x], V[y]);
    hide Or, BitAnd, BitXor, Bit;
  }

  lemma SumsAndHalves(V: seq<nat>, x: nat, y: nat, n: nat)
    requires Bytes(V) && x < 16 && y < 16 && n in {4, 6}
    ensures AluDoes(V, Alu(V, x, y, n), x, y, n)
  {
    assert V[x] < 256 && V[y] < 256;
    hide Bytes, Or, BitAnd, BitXor, Bit, Sub8;
  }

  lemma Doubled(V: seq<nat>, x: nat, y: nat)
    requires Bytes(V) && x < 16 && y < 16
    ensures AluDoes(V, Alu(V, x, y, 14), x, y, 14)
  {
    assert V[x] < 256;
    assert V[x] / 128 % 2 == if V[x] >= 128 then 1 else 0;
    hide Bytes, Or, BitAnd, BitXor, Bit, Sub8;
  }

  lemma OtherDigits(V: seq<nat>, x: nat, y: nat, n: nat)
    requires |V| == 16 && x < 16 && y < 16 && n > 7 && n != 14
    ensures AluDoes(V, Alu(V, x, y, n), x, y, n)
  {
    hide Or, BitAnd, BitXor, Bit, Sub8;
  }

  lemma Sub8Is(v: nat, w: nat)
    requires v < 256 && w < 256
    ensures Sub8(v, w) == if v < w then v - w + 256 else v - w
  {
  }

  lemma Differences(V: seq<nat>, x: nat, y: nat, n: nat)
    requires Bytes(V) && x < 16 && y < 16 && n in {5, 7}
    ensures AluDoes(V, Alu(V, x, y, n), x, y, n)
  {
    assert V[x] < 256 && V[y] < 256;
    var f := if (if n == 5 then V[x] >= V[y] else V[y] >= V[x]) then 1 else 0;
    if n == 5 { Sub8Is(Seen(V, f, x), Seen(V, f, y)); } else { Sub8Is(Seen(V, f, y), Seen(V, f, x)); }
    hide Or, BitAnd, BitXor, Bit, Sub8, Bytes;
  }

  lemma AluIs(V: seq<nat>, x: nat, y: nat, n: nat)
    requires Bytes(V) && x < 16 && y < 16
    ensures AluDoes(V, Alu(V, x, y, n), x, y, n)
    ensures forall i :: 0 <= i < 16 && i != x && i != 15 ==> Alu(V, x, y, n)[i] == V[i]
  {
    AluKeeps(V, x, y, n);
    assert |V| == 16;
    hide Alu, AluDoes, Bytes;
    if n < 4 { MovesAndBits(V, x, y, n); } else if n == 5 || n == 7 { Differences(V, x, y, n); }
    else if n == 4 || n == 6 { SumsAndHalves(V, x, y, n); } else if n == 14 { Doubled(V, x, y); }
    else { OtherDigits(V, x, y, n); }
  }

  lemma AluKeeps(V: seq<nat>, x: nat, y: nat, n: nat)
    requires |V| == 16 && x < 16 && y < 16
    ensures forall i :: 0 <= i < 16 && i != x && i != 15 ==> Alu(V, x, y, n)[i] == V[i]
  {
    hide Or, BitAnd, BitXor, Sub8;
  }

  /** 8xyn: moves, the bitwise operators bit by bit, and the arithmetic with what VF is when it is read. */
  lemma Computes(c: Cpu, rnd: nat, x: nat, b: nat)
    requires Reads(c, 8, x, b)
    ensures OnlyRegisters(c, Cycle(c, rnd), x) && AluDoes(c.V, Cycle(c, rnd).value.V, x, b / 16, b % 16)
  {
    Decoded(c, rnd, 8, x, b);
    AluIs(c.V, x, b / 16, b % 16);
    AluStep(Next(c), Code(8, x, b), rnd);
    hide Alu, AluDoes, Execute, Cycle, Code, Words, Bytes;
  }

  /** Only register x and the program counter have changed. */
  predicate OnlySets(c: Cpu, r: Option<Cpu>, x: nat, v: nat)
    requires Sized(c) && x < 16
  {
    r == Some(c.(pc := c.pc + 2, V := c.V[x := v]))
  }

  /** 6xkk loads, 7xkk adds modulo 256 without touching VF, and Annn loads I. */
  lemma LoadsConstant(c: Cpu, rnd: nat, h: nat, x: nat, b: nat)
    requires Reads(c, h, x, b)
    ensures h == 6 ==> OnlySets(c, Cycle(c, rnd), x, b)
    ensures h == 7 ==> OnlySets(c, Cycle(c, rnd), x, if c.V[x] + b < 256 then c.V[x] + b else c.V[x] + b - 256)
    ensures h == 10 ==> Cycle(c, rnd) == Some(c.(pc := c.pc + 2, I := 256 * x + b))
  {
    Decoded(c, rnd, h, x, b);
    LoadStep(Next(c), Code(h, x, b), rnd);
    assert c.V[x] < 256;
    hide Words, Bytes, Cycle, Code, Execute;
  }

  lemma LoadStep(c: Cpu, op: nat, rnd: nat)
    requires Sized(c) && op < 65536
    ensures var h, x := op / 4096, op / 256 % 16;
      && (h == 6 ==> Execute(c, op, rnd) == Some(c.(V := c.V[x := op % 256])))
      && (h == 7 ==> Execute(c, op, rnd) == Some(c.(V := c.V[x := (c.V[x] + op % 256) % 256])))
      && (h == 10 ==> Execute(c, op, rnd) == Some(c.(I := op % 4096)))
  {
    hide System, Misc, Draw, Alu, BitAnd;
  }

  /** Cxkk: the bits of the random byte that the mask has, and zeros elsewhere. */
  lemma RandomMasked(c: Cpu, rnd: nat, x: nat, b: nat)
    requires Reads(c, 12, x, b)
    ensures var r := Cycle(c, rnd);
      && r.Some? && |r.value.V| == 16 && OnlySets(c, r, x, r.value.V[x]) && r.value.V[x] < 256
      && forall i :: 0 <= i < 8 ==> (Bit(r.value.V[x], i) <==> Bit(b, i) && Bit(rnd % 256, i))
  {
    Decoded(c, rnd, 12, x, b);
    BitwiseBytes(rnd % 256, b);
    AluStep(Next(c), Code(12, x, b), rnd);
    hide Bit, BitAnd, Execute, Cycle, Code, Words, Bytes;
  }

  // ---- the screen -------------------------------------------------------------------------------------------

  /** Row r and column k of the sprite at (vx, vy) are pixel p, and set. */
  predicate HasAt(c: Cpu, vx: nat, vy: nat, r: nat, k: nat, p: nat)
    requires Sized(c) && k < 8
  {
    p / 64 == vy + r && p % 64 == vx + k && c.I + r < 4096 && Bit(c.memory[c.I + r], 7 - k)
  }

  ghost predicate SpriteHas(c: Cpu, vx: nat, vy: nat, n: nat, p: nat)
    requires Sized(c)
  {
    exists r: nat, k: nat :: r < n && k < 8 && HasAt(c, vx, vy, r, k, p)
  }

  lemma LitIsHas(c: Cpu, vx: nat, vy: nat, n: nat, p: nat)
    requires Sized(c)
    ensures Lit(c.memory, c.I, vx, vy, n, p) <==> SpriteHas(c, vx, vy, n, p)
  {
    hide Pow;
    if Lit(c.memory, c.I, vx, vy, n, p) {
      assert HasAt(c, vx, vy, p / 64 - vy, p % 64 - vx, p);
    }
  }

  lemma DrawStep(c: Cpu, op: nat, rnd: nat)
    requires Sized(c) && op < 65536 && op / 4096 == 13
    ensures Execute(c, op, rnd) == Draw(c, op / 256 % 16, op / 16 % 16, op % 16)
  {
    hide System, Misc, Draw, Alu, BitAnd;
  }

  /** Row r of an n-row sprite at height vy is on the screen. */
  predicate OnScreen(vy: nat, n: nat, r: nat) { r < n && vy + r < 32 }

  lemma RowsIn(vy: nat, n: nat, I: nat)
    requires vy < 32
    ensures RowsShown(vy, n) > 0 && I + RowsShown(vy, n) > 4096
      <==> exists r :: OnScreen(vy, n, r) && I + r >= 4096
  {
    var k := RowsShown(vy, n);
    if k > 0 { assert OnScreen(vy, n, k - 1); }
  }

  lemma DrawFlips(c: Cpu, x: nat, y: nat, n: nat)
    requires Sized(c) && x < 16 && y < 16 && Draw(c, x, y, n).Some?
    ensures var d := Draw(c, x, y, n).value;
      && |d.gfx| == 2048 && d == c.(draw := true, gfx := d.gfx, V := d.V)
      && forall p :: 0 <= p < 2048 ==>
           (d.gfx[p] != c.gfx[p] <==> SpriteHas(c, c.V[x] % 64, c.V[y] % 32, n, p))
  {
    hide SpriteHas, Lit, RowsShown;
    var d := Draw(c, x, y, n).value;
    forall p | 0 <= p < 2048
      ensures d.gfx[p] != c.gfx[p] <==> SpriteHas(c, c.V[x] % 64, c.V[y] % 32, n, p)
    {
      LitIsHas(c, c.V[x] % 64, c.V[y] % 32, n, p);
    }
  }

  lemma DrawMarks(c: Cpu, x: nat, y: nat, n: nat)
    requires Sized(c) && x < 16 && y < 16 && Draw(c, x, y, n).Some?
    ensures var d := Draw(c, x, y, n).value;
      |d.gfx| == 2048 && d.V == c.V[15 := if exists p :: 0 <= p < 2048 && c.gfx[p] && !d.gfx[p] then 1 else 0]
  {
    CollisionIff(c, x, y, n);
    hide Lit, RowsShown;
  }

  lemma DrawFails(c: Cpu, x: nat, y: nat, n: nat)
    requires Sized(c) && x < 16 && y < 16
    ensures Draw(c, x, y, n).None? <==> exists r :: OnScreen(c.V[y] % 32, n, r) && c.I + r >= 4096
  {
    RowsIn(c.V[y] % 32, n, c.I);
    hide RowsShown, OnScreen, Lit;
  }

  /**
    Dxyn flips exactly the pixels of the sprite at I that are on the screen, and sets VF to whether one went out.
    It fails exactly when a row to be shown is outside the memory.
   */
  lemma DrawsSprite(c: Cpu, rnd: nat, x: nat, b: nat)
    requires Reads(c, 13, x, b)
    ensures Cycle(c, rnd).None? <==> exists r :: OnScreen(c.V[b / 16] % 32, b % 16, r) && c.I + r >= 4096
    ensures Cycle(c, rnd).Some? ==>
      var d := Cycle(c, rnd).value;
      && |d.gfx| == 2048
      && (forall p :: 0 <= p < 2048 ==>
           (d.gfx[p] != c.gfx[p] <==> SpriteHas(c, c.V[x] % 64, c.V[b / 16] % 32, b % 16, p)))
      && var out := if exists p :: 0 <= p < 2048 && c.gfx[p] && !d.gfx[p] then 1 else 0;
      d == c.(pc := c.pc + 2, draw := true, gfx := d.gfx, V := c.V[15 := out])
  {
    Decoded(c, rnd, 13, x, b);
    DrawStep(Next(c), Code(13, x, b), rnd);
    DrawFails(Next(c), x, b / 16, b % 16);
    if Cycle(c, rnd).Some? {
      DrawFlips(Next(c), x, b / 16, b % 16);
      DrawMarks(Next(c), x, b / 16, b % 16);
      HasMoved(c, c.V[x] % 64, c.V[b / 16] % 32, b % 16);
    }
    hide Words, Bytes, Execute, Cycle, Code, Draw, OnScreen, SpriteHas, Sized;
  }

  lemma HasMoved(c: Cpu, vx: nat, vy: nat, n: nat)
    requires Sized(c)
    ensures forall p: nat :: SpriteHas(Next(c), vx, vy, n, p) == SpriteHas(c, vx, vy, n, p)
  {
    forall p: nat
      ensures SpriteHas(Next(c), vx, vy, n, p) == SpriteHas(c, vx, vy, n, p)
    {
      LitIsHas(c, vx, vy, n, p);
      LitIsHas(Next(c), vx, vy, n, p);
      hide SpriteHas, Lit;
    }
  }

  // ---- timers, keys and memory --------------------------------------------------------------------------------

  lemma MiscStep(c: Cpu, op: nat, rnd: nat)
    requires Sized(c) && op < 65536 && op / 4096 == 15
    ensures Execute(c, op, rnd) == Misc(c, op / 256 % 16, op % 256)
  {
    hide System, Misc, Draw, Alu, BitAnd;
  }

  lemma MiscIs(c: Cpu, rnd: nat, x: nat, b: nat)
    requires Reads(c, 15, x, b)
    ensures x < 16 && Sized(c) && Sized(Next(c)) && Cycle(c, rnd) == Misc(Next(c), x, b)
    ensures Next(c) == c.(pc := c.pc + 2)
    ensures c.pc + 1 < 4096 && c.V[x] < 256
  {
    Decoded(c, rnd, 15, x, b);
    MiscStep(Next(c), Code(15, x, b), rnd);
    hide Execute, Cycle, Code, Misc;
  }

  /** Fx07, Fx15, Fx18, Fx1E and Fx29 move between registers, timers and I; other Fxkk do nothing. */
  lemma MovesTimers(c: Cpu, rnd: nat, x: nat, b: nat)
    requires Reads(c, 15, x, b)
    ensures b == 0x07 ==> OnlySets(c, Cycle(c, rnd), x, c.delay)
    ensures b == 0x15 ==> Cycle(c, rnd) == Some(c.(pc := c.pc + 2, delay := c.V[x]))
    ensures b == 0x18 ==> Cycle(c, rnd) == Some(c.(pc := c.pc + 2, sound := c.V[x]))
    ensures b == 0x1E ==> Cycle(c, rnd) == Some(c.(pc := c.pc + 2, I := (c.I + c.V[x]) % 65536))
    ensures b == 0x29 ==> Cycle(c, rnd) == Some(c.(pc := c.pc + 2, I := 80 + 5 * c.V[x]))
    ensures b !in {0x07, 0x0A, 0x15, 0x18, 0x1E, 0x29, 0x33, 0x55, 0x65} ==> Cycle(c, rnd) == Some(c.(pc := c.pc + 2))
  {
    hide *;
    MiscIs(c, rnd, x, b);
    MiscMoves(Next(c), x, b);
    SetsIs(c, x, c.delay);
  }

  lemma SetsIs(c: Cpu, x: nat, v: nat)
    requires Sized(c) && x < 16
    ensures |c.V| == 16 && OnlySets(c, Some(c.(pc := c.pc + 2, V := c.V[x := v])), x, v)
  {
  }

  lemma MiscMoves(c: Cpu, x: nat, b: nat)
    requires Sized(c) && x < 16
    ensures b == 0x07 ==> Misc(c, x, b) == Some(c.(V := c.V[x := c.delay]))
    ensures b == 0x15 ==> Misc(c, x, b) == Some(c.(delay := c.V[x]))
    ensures b == 0x18 ==> Misc(c, x, b) == Some(c.(sound := c.V[x]))
    ensures b == 0x1E ==> Misc(c, x, b) == Some(c.(I := (c.I + c.V[x]) % 65536))
    ensures b == 0x29 && c.V[x] < 256 ==> Misc(c, x, b) == Some(c.(I := 80 + 5 * c.V[x]))
    ensures b !in {0x07, 0x0A, 0x15, 0x18, 0x1E, 0x29, 0x33, 0x55, 0x65} ==> Misc(c, x, b) == Some(c)
  {
  }

  /** Fx0A waits: it takes the lowest key that is down, and is carried out again while there is none. */
  lemma WaitsForKey(c: Cpu, rnd: nat, x: nat)
    requires Reads(c, 15, x, 0x0A)
    ensures (forall k :: 0 <= k < 16 ==> !c.key[k]) ==> Cycle(c, rnd) == Some(c)
    ensures forall k :: 0 <= k < 16 && c.key[k] && (forall j :: 0 <= j < k ==> !c.key[j]) ==>
      OnlySets(c, Cycle(c, rnd), x, k)
  {
    MiscIs(c, rnd, x, 0x0A);
    hide Cycle, Words, Reads;
  }

  /** Fx33 stores three decimal digits at I, and fails exactly when they are not all in the memory. */
  lemma StoresDecimal(c: Cpu, rnd: nat, x: nat)
    requires Reads(c, 15, x, 0x33)
    ensures Cycle(c, rnd).None? <==> c.I + 2 >= 4096
    ensures Cycle(c, rnd).Some? ==>
      var m := Cycle(c, rnd).value.memory;
      && |m| == 4096 && Cycle(c, rnd).value == c.(pc := c.pc + 2, memory := m)
      && (forall a :: 0 <= a < 4096 && !(c.I <= a <= c.I + 2) ==> m[a] == c.memory[a])
      && m[c.I] < 10 && m[c.I + 1] < 10 && m[c.I + 2] < 10
      && 100 * m[c.I] + 10 * m[c.I + 1] + m[c.I + 2] == c.V[x]
  {
    MiscIs(c, rnd, x, 0x33);
    hide Cycle, Words;
    if Misc(Next(c), x, 0x33).Some? { DecimalDigits(Next(c), x); }
  }

  /** Fx55 stores registers 0 to x from I on, and fails exactly when they are not all in the memory. */
  lemma StoresRegisters(c: Cpu, rnd: nat, x: nat)
    requires Reads(c, 15, x, 0x55)
    ensures Cycle(c, rnd).None? <==> c.I + x >= 4096
    ensures Cycle(c, rnd).Some? ==>
      var m := Cycle(c, rnd).value.memory;
      && |m| == 4096 && Cycle(c, rnd).value == c.(pc := c.pc + 2, memory := m)
      && forall a :: 0 <= a < 4096 ==> m[a] == if c.I <= a <= c.I + x then c.V[a - c.I] else c.memory[a]
  {
    MiscIs(c, rnd, x, 0x55);
    hide Cycle, Words, Reads;
  }

  /** Fx65 loads them. */
  lemma LoadsRegisters(c: Cpu, rnd: nat, x: nat)
    requires Reads(c, 15, x, 0x65)
    ensures Cycle(c, rnd).None? <==> c.I + x >= 4096
    ensures Cycle(c, rnd).Some? ==>
      var W := Cycle(c, rnd).value.V;
      && |W| == 16 && Cycle(c, rnd).value == c.(pc := c.pc + 2, V := W)
      && forall i :: 0 <= i < 16 ==> W[i] == if i <= x then c.memory[c.I + i] else c.V[i]
  {
    MiscIs(c, rnd, x, 0x65);
    hide Cycle, Words, Reads;
  }

  // ---- every cycle ----------------------------------------------------------------------------------------------

  /** What the instruction reads or stores lies partly outside the memory. */
  ghost predicate Beyond(c: Cpu, h: nat, x: nat, b: nat)
    requires Sized(c) && b < 256
  {
    || (h == 13 && exists r :: OnScreen(c.V[b / 16] % 32, b % 16, r) && c.I + r >= 4096)
    || (h == 15 && b == 0x33 && c.I + 2 >= 4096)
    || (h == 15 && b in {0x55, 0x65} && c.I + x >= 4096)
  }

  /** A cycle fails for no other reason. */
  lemma FailsIff(c: Cpu, rnd: nat, h: nat, x: nat, b: nat)
    requires Reads(c, h, x, b)
    ensures Cycle(c, rnd).None? <==> Beyond(c, h, x, b)
  {
    if h == 13 {
      DrawsSprite(c, rnd, x, b);
    } else if h == 15 {
      if b == 0x33 { StoresDecimal(c, rnd, x); }
      else if b == 0x55 { StoresRegisters(c, rnd, x); }
      else if b == 0x65 { LoadsRegisters(c, rnd, x); }
      else { MiscIs(c, rnd, x, b); }
    } else {
      Decoded(c, rnd, h, x, b);
      hide System, Alu, BitAnd, Cycle, Words, Bytes;
    }
  }

  lemma AluBytes(V: seq<nat>, W: seq<nat>, x: nat, y: nat, n: nat)
    requires Bytes(V) && |W| == 16 && x < 16 && y < 16 && AluDoes(V, W, x, y, n)
    requires forall i :: 0 <= i < 16 && i != x && i != 15 ==> W[i] == V[i]
    ensures Bytes(W)
  {
    hide Bit;
    assert V[x] < 256 && V[y] < 256 && V[15] < 256;
    assert W[x] < 256 && W[15] < 256;
  }

  lemma RegistersKeepWords(c: Cpu, d: Cpu, x: nat)
    requires Words(c) && c.pc + 1 < 4096 && OnlyRegisters(c, Some(d), x) && Bytes(d.V)
    ensures Words(d)
  {
  }

  lemma FlowKeepsWords(c: Cpu, rnd: nat, h: nat, x: nat, b: nat)
    requires Reads(c, h, x, b) && h !in {8, 12, 13, 15} && Cycle(c, rnd).Some?
    ensures Words(Cycle(c, rnd).value)
  {
    hide Cycle;
    if h == 0 && x == 0 && b == 0xE0 { ClearsScreen(c, rnd); }
    else if h == 0 { ReturnsTo(c, rnd, x, b); }
    else if h in {1, 2, 11} { JumpsTo(c, rnd, h, x, b); }
    else if h in {6, 7, 10} { LoadsConstant(c, rnd, h, x, b); }
    else { SkipsIff(c, rnd, h, x, b); }
  }

  lemma MiscKeepsWords(c: Cpu, rnd: nat, x: nat, b: nat)
    requires Reads(c, 15, x, b) && Cycle(c, rnd).Some?
    ensures Words(Cycle(c, rnd).value)
  {
    hide Cycle;
    if b == 0x33 { StoresDecimal(c, rnd, x); }
    else if b == 0x55 { StoresRegisters(c, rnd, x); }
    else if b == 0x65 { LoadsRegisters(c, rnd, x); }
    else if b == 0x0A { WaitKeepsWords(c, rnd, x); }
    else { MovesTimers(c, rnd, x, b); }
  }

  lemma WaitKeepsWords(c: Cpu, rnd: nat, x: nat)
    requires Reads(c, 15, x, 0x0A) && Cycle(c, rnd).Some?
    ensures Words(Cycle(c, rnd).value)
  {
    WaitsForKey(c, rnd, x);
    hide Cycle;
    var k := FirstKey(c.key, 0);
    if k < 16 { assert OnlySets(c, Cycle(c, rnd), x, k); }
  }

  /** Every cycle keeps registers, timers and memory bytes, and the rest within 16 bits. */
  lemma CycleKeepsWords(c: Cpu, rnd: nat)
    requires Words(c) && Cycle(c, rnd).Some?
    ensures Words(Cycle(c, rnd).value)
  {
    var h, x, b := c.memory[c.pc] / 16, c.memory[c.pc] % 16, c.memory[c.pc + 1];
    assert Reads(c, h, x, b);
    hide Cycle, Reads, Words;
    if h == 8 {
      Computes(c, rnd, x, b);
      ReadsWords(c, h, x, b);
      AluBytes(c.V, Cycle(c, rnd).value.V, x, b / 16, b % 16);
      RegistersKeepWords(c, Cycle(c, rnd).value, x);
    } else if h == 12 {
      RandomMasked(c, rnd, x, b);
      ReadsWords(c, h, x, b);
      RegistersKeepWords(c, Cycle(c, rnd).value, x);
    } else if h == 13 {
      DrawKeepsWords(c, rnd, x, b);
    } else if h == 15 {
      MiscKeepsWords(c, rnd, x, b);
    } else {
      FlowKeepsWords(c, rnd, h, x, b);
    }
  }

  lemma ReadsWords(c: Cpu, h: nat, x: nat, b: nat)
    requires Reads(c, h, x, b)
    ensures Words(c) && Sized(c) && Bytes(c.V) && c.pc + 1 < 4096 && x < 16 && b < 256
  {
  }

  lemma DrawKeepsWords(c: Cpu, rnd: nat, x: nat, b: nat)
    requires Reads(c, 13, x, b) && Cycle(c, rnd).Some?
    ensures Words(Cycle(c, rnd).value)
  {
    DrawsSprite(c, rnd, x, b);
    hide Cycle, SpriteHas, OnScreen;
  }
}
