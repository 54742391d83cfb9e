/**
  What the opcodes of src/chip8/chip8.c amount to, stated apart from how they are computed: carries and borrows,
  what undoes what, and where writing VF first spoils an operand.
 */
module Chip8Laws {
  import opened Common
  import opened Chip8Model

  predicate Bytes(V: seq<nat>) { |V| == 16 && forall i :: 0 <= i < 16 ==> V[i] < 256 }

  predicate Adds(V: seq<nat>, x: nat, y: nat)
    requires |V| == 16 && x < 16 && y < 16
  {
    var W := Alu(V, x, y, 4);
    W[x] + 256 * W[15] == V[x] + V[y]
  }

  predicate Subtracts(V: seq<nat>, x: nat, y: nat)
    requires |V| == 16 && x < 16 && y < 16
  {
    var W := Alu(V, x, y, 5);
    W[x] + V[y] + 256 * W[15] == V[x] + 256
  }

  predicate SubtractsFrom(V: seq<nat>, x: nat, y: nat)
    requires |V| == 16 && x < 16 && y < 16
  {
    var W := Alu(V, x, y, 7);
    W[x] + V[x] + 256 * W[15] == V[y] + 256
  }

  predicate Halves(V: seq<nat>, x: nat, y: nat)
    requires |V| == 16 && x < 16 && y < 16
  {
    var W := Alu(V, x, y, 6);
    2 * W[x] + W[15] == V[x]
  }

  predicate Doubles(V: seq<nat>, x: nat, y: nat)
    requires |V| == 16 && x < 16 && y < 16
  {
    var W := Alu(V, x, y, 14);
    W[x] + 256 * W[15] == 2 * V[x]
  }

  /** 8xy4 is an addition with the carry in VF exactly when the destination is not VF itself. */
  lemma AddsIff(x: nat, y: nat)
    requires x < 16 && y < 16
    ensures x != 15 <==> forall V :: Bytes(V) ==> Adds(V, x, y)
  {
    if x == 15 {
      var V: seq<nat> := seq(16, _ => 1);
      assert Bytes(V) && !Adds(V, x, y);
    }
  }

  /** 8xy5 is a subtraction with the inverted borrow in VF exactly when neither operand is VF: VF is written first. */
  lemma SubtractsIff(x: nat, y: nat)
    requires x < 16 && y < 16
    ensures x != 15 && y != 15 <==> forall V :: Bytes(V) ==> Subtracts(V, x, y)
  {
    if x == 15 || y == 15 {
      var V: seq<nat> := seq(16, _ => 0);
      assert Bytes(V) && !Subtracts(V, x, y);
    }
  }

  lemma SubtractsFromIff(x: nat, y: nat)
    requires x < 16 && y < 16
    ensures x != 15 && y != 15 <==> forall V :: Bytes(V) ==> SubtractsFrom(V, x, y)
  {
    if x == 15 || y == 15 {
      var V: seq<nat> := seq(16, _ => 0);
      assert Bytes(V) && !SubtractsFrom(V, x, y);
    }
  }

  /** 8xy6 and 8xyE move one bit into VF, exactly when the operand is not VF. */
  lemma ShiftsIff(x: nat, y: nat)
    requires x < 16 && y < 16
    ensures x != 15 <==> forall V :: Bytes(V) ==> Halves(V, x, y)
    ensures x != 15 <==> forall V :: Bytes(V) ==> Doubles(V, x, y)
  {
    if x == 15 {
      var V: seq<nat> := seq(16, _ => 1);
      assert Bytes(V) && !Halves(V, x, y) && !Doubles(V, x, y);
    }
  }

  /** Exclusive or undoes itself. */
  lemma {:induction false} XorTwice(a: nat, b: nat)
    ensures BitXor(BitXor(a, b), b) == a
    decreases a + b
  {
    if a == 0 {
      XorSelf(b);
    } else if b > 0 {
      XorTwice(a / 2, b / 2);
      XorDigit(BitXor(a / 2, b / 2), (a + b) % 2, b);
      assert BitXor(a, b) == (a + b) % 2 + 2 * BitXor(a / 2, b / 2);
      hide BitXor;
      Parity(a, b);
    }
  }

  lemma Parity(a: nat, b: nat)
    ensures ((a + b) % 2 + b) % 2 == a % 2 && a == a % 2 + 2 * (a / 2)
  {
  }

  lemma {:induction false} XorSelf(b: nat)
    ensures BitXor(b, b) == 0
  {
    if b == 0 {
    } else {
      XorSelf(b / 2);
    }
  }

  lemma XorDigit(t: nat, d: nat, b: nat)
    requires d < 2 && b > 0
    ensures BitXor(d + 2 * t, b) == (d + b) % 2 + 2 * BitXor(t, b / 2)
  {
    assert (d + 2 * t) / 2 == t;
  }

  /** Fx33 stores the three decimal digits. */
  lemma DecimalDigits(c: Cpu, x: nat)
    requires Sized(c) && Bytes(c.V) && x < 16 && Misc(c, x, 0x33).Some?
    ensures var m := Misc(c, x, 0x33).value.memory;
      && m[c.I] < 10 && m[c.I + 1] < 10 && m[c.I + 2] < 10
      && 100 * m[c.I] + 10 * m[c.I + 1] + m[c.I + 2] == c.V[x]
  {
    var v := c.V[x];
    assert v == 10 * (v / 10) + v % 10 && v / 10 == 10 * (v / 10 / 10) + v / 10 % 10;
    assert v / 10 / 10 == v / 100;
  }

  /** Fx65 brings back what Fx55 stored, whatever happened to the registers in between. */
  lemma StoreThenLoad(c: Cpu, d: Cpu, x: nat)
    requires Sized(c) && Sized(d) && x < 16 && Misc(c, x, 0x55).Some?
    requires d.memory == Misc(c, x, 0x55).value.memory && d.I == c.I
    ensures Misc(d, x, 0x65).Some? && Misc(d, x, 0x65).value.V == c.V[..x + 1] + d.V[x + 1..]
  {
    assert d.memory[c.I..c.I + x + 1] == c.V[..x + 1];
  }

  /** A stretch of a program: any instructions, and whole subroutine calls with what runs between call and return. */
  datatype Body =
    | Done
    | Plain(op: nat, rnd: nat, rest: Body)
    | Sub(op: nat, inner: Body, rest: Body)

  predicate IsCall(op: nat) { 0x2000 <= op < 0x3000 }

  /** The instructions outside Sub are neither calls nor returns. */
  predicate WellNested(b: Body) {
    match b
    case Done => true
    case Plain(op, _, rest) => op < 65536 && !IsCall(op) && op != 0x00EE && WellNested(rest)
    case Sub(op, inner, rest) => IsCall(op) && WellNested(inner) && WellNested(rest)
  }

  /** How deep the calls go. */
  function Depth(b: Body): nat {
    match b
    case Done => 0
    case Plain(_, _, rest) => Depth(rest)
    case Sub(_, inner, rest) => if Depth(inner) + 1 > Depth(rest) then Depth(inner) + 1 else Depth(rest)
  }

  /** The machine after a stretch, if no instruction of it fails. */
  function After(c: Cpu, b: Body): Option<Cpu>
    requires Sized(c) && WellNested(b)
    decreases b
  {
    match b
    case Done => Some(c)
    case Plain(op, rnd, rest) =>
      ExecuteSized(c, op, rnd);
      var d := Execute(c, op, rnd);
      if d.None? then None else After(d.value, rest)
    case Sub(op, inner, rest) =>
      ExecuteSized(c, op, 0);
      var d := After(Execute(c, op, 0).value, inner);
      if d.None? || !Sized(d.value) then None
      else
        ExecuteSized(d.value, 0x00EE, 0);
        After(Execute(d.value, 0x00EE, 0).value, rest)
  }

  /** No instruction but a call or a return touches the stack. */
  lemma StackUntouched(c: Cpu, op: nat, rnd: nat)
    requires Sized(c) && op < 65536 && !IsCall(op) && op != 0x00EE && Execute(c, op, rnd).Some?
    ensures var d := Execute(c, op, rnd).value; Sized(d) && d.sp == c.sp && d.stack == c.stack
  {
    ExecuteSized(c, op, rnd);
  }

  /**
    While the calls do not go deeper than the stack, a stretch leaves the stack pointer and everything below it
    as they were.
   */
  lemma {:induction false} StackRestored(c: Cpu, b: Body)
    requires Sized(c) && WellNested(b) && c.sp + Depth(b) <= STACK_SIZE && After(c, b).Some?
    ensures var d := After(c, b).value; Sized(d) && d.sp == c.sp && d.stack[..c.sp] == c.stack[..c.sp]
    decreases b, 0
  {
    match b
    case Done =>
    case Plain(op, rnd, rest) =>
      StackUntouched(c, op, rnd);
      StackRestored(Execute(c, op, rnd).value, rest);
    case Sub(op, inner, rest) =>
      ReturnsHome(c, op, inner);
      StackRestored(Execute(After(Execute(c, op, 0).value, inner).value, 0x00EE, 0).value, rest);
  }

  /** A subroutine returns behind its call, whatever ran in it, down to sixteen calls deep. */
  lemma {:induction false} ReturnsHome(c: Cpu, op: nat, inner: Body)
    requires Sized(c) && IsCall(op) && WellNested(inner) && c.sp + Depth(inner) < STACK_SIZE
    requires Sized(Execute(c, op, 0).value) && After(Execute(c, op, 0).value, inner).Some?
    ensures var d := After(Execute(c, op, 0).value, inner).value;
      && Sized(d)
      && var e := Execute(d, 0x00EE, 0).value;
      Sized(e) && e.pc == c.pc && e.sp == c.sp && e.stack[..c.sp] == c.stack[..c.sp]
    decreases inner, 1
  {
    var d := Execute(c, op, 0).value;
    StackRestored(d, inner);
    var e := After(d, inner).value;
    assert e.stack[c.sp] == e.stack[..c.sp + 1][c.sp] == d.stack[..c.sp + 1][c.sp] == c.pc;
    assert e.stack[..c.sp] == e.stack[..c.sp + 1][..c.sp] && d.stack[..c.sp + 1][..c.sp] == c.stack[..c.sp];
  }

  /** Drawing a sprite twice in one place restores the screen; one of the two draws collides iff any pixel shows. */
  lemma DrawTwice(c: Cpu, x: nat, y: nat, n: nat)
    requires Sized(c) && x < 15 && y < 15 && Draw(c, x, y, n).Some?
    ensures var d := Draw(c, x, y, n).value;
      && Draw(d, x, y, n).Some? && Draw(d, x, y, n).value.gfx == c.gfx
      && (d.V[15] == 1 || Draw(d, x, y, n).value.V[15] == 1 <==>
            exists idx :: 0 <= idx < GFX_SIZE && Lit(c.memory, c.I, c.V[x] % GFX_WIDTH, c.V[y] % GFX_HEIGHT, n, idx))
  {
    hide Lit;
    var vx, vy := c.V[x] % GFX_WIDTH, c.V[y] % GFX_HEIGHT;
    var d := Draw(c, x, y, n).value;
    assert Draw(d, x, y, n).value.gfx == c.gfx;
    if idx :| 0 <= idx < GFX_SIZE && Lit(c.memory, c.I, vx, vy, n, idx) {
      assert c.gfx[idx] || d.gfx[idx];
    }
  }

  /** VF is set exactly when a pixel that was lit is out afterwards. */
  lemma CollisionIff(c: Cpu, x: nat, y: nat, n: nat)
    requires Sized(c) && x < 16 && y < 16 && Draw(c, x, y, n).Some?
    ensures var d := Draw(c, x, y, n).value;
      d.V[15] == 1 <==> exists idx :: 0 <= idx < GFX_SIZE && c.gfx[idx] && !d.gfx[idx]
  {
    hide Lit;
    var vx, vy := c.V[x] % GFX_WIDTH, c.V[y] % GFX_HEIGHT;
    var d := Draw(c, x, y, n).value;
    if idx :| 0 <= idx < GFX_SIZE && c.gfx[idx] && Lit(c.memory, c.I, vx, vy, n, idx) { assert !d.gfx[idx]; }
    if idx :| 0 <= idx < GFX_SIZE && c.gfx[idx] && !d.gfx[idx] { assert Lit(c.memory, c.I, vx, vy, n, idx); }
  }
}
