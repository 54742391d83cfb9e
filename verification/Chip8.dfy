/**
  src/chip8/chip8.c as it runs: the `cpu` record with its arrays, chip8_init and chip8_cycle updating it
  in place. `Cycle` returns false where the C code would leave an array.
 */
module Chip8 {
  import opened Common
  import opened Arith
  import opened Chip8Model

  const FONTSET: seq<nat> := [
    0xF0, 0x90, 0x90, 0x90, 0xF0, 0x20, 0x60, 0x20, 0x20, 0x70,
    0xF0, 0x10, 0xF0, 0x80, 0xF0, 0xF0, 0x10, 0xF0, 0x10, 0xF0,
    0x90, 0x90, 0xF0, 0x10, 0x10, 0xF0, 0x80, 0xF0, 0x10, 0xF0,
    0xF0, 0x80, 0xF0, 0x90, 0xF0, 0xF0, 0x10, 0x20, 0x40, 0x40,
    0xF0, 0x90, 0xF0, 0x90, 0xF0, 0xF0, 0x90, 0xF0, 0x10, 0xF0,
    0xF0, 0x90, 0xF0, 0x90, 0x90, 0xE0, 0x90, 0xE0, 0x90, 0xE0,
    0xF0, 0x80, 0x80, 0x80, 0xF0, 0xE0, 0x90, 0x90, 0x90, 0xE0,
    0xF0, 0x80, 0xF0, 0x80, 0xF0, 0xF0, 0x80, 0xF0, 0x80, 0x80]

  class Chip8 {
    const memory: array<nat>
    const V: array<nat>
    const gfx: array<bool>
    const stack: array<nat>
    const key: array<bool>
    var I: nat
    var pc: nat
    var sp: nat
    var delay: nat
    var sound: nat
    var draw: bool

    ghost predicate Valid()
      reads this
    {
      && memory.Length == MEMORY_SIZE && V.Length == 16 && gfx.Length == GFX_SIZE
      && stack.Length == STACK_SIZE && key.Length == 16
      && memory != V && memory != stack && V != stack && gfx != key && sp <= STACK_SIZE
    }

    ghost function State(): (c: Cpu)
      requires Valid()
      reads this, memory, V, gfx, stack, key
      ensures Sized(c)
    {
      Cpu(memory[..], V[..], I, pc, gfx[..], delay, sound, stack[..], sp, key[..], draw)
    }

    /** chip8_init. */
    constructor ()
      ensures Valid() && fresh(memory) && fresh(V) && fresh(gfx) && fresh(stack) && fresh(key)
      ensures State() == Cpu(FontMemory(), seq(16, _ => 0), 0, PROGRAM_START, seq(GFX_SIZE, _ => false), 0, 0,
                             seq(16, _ => 0), 0, seq(16, _ => false), true)
    {
      memory := new nat[MEMORY_SIZE](i =>
        if FONTSET_START <= i < FONTSET_START + |FONTSET| then FONTSET[i - FONTSET_START] else 0);
      V := new nat[16](_ => 0);
      gfx := new bool[GFX_SIZE](_ => false);
      stack := new nat[STACK_SIZE](_ => 0);
      key := new bool[16](_ => false);
      I, pc, sp, delay, sound, draw := 0, PROGRAM_START, 0, 0, 0, true;
      new;
      assert memory[..] == FontMemory() && V[..] == seq(16, _ => 0) == stack[..];
      assert gfx[..] == seq(GFX_SIZE, _ => false) && key[..] == seq(16, _ => false);
    }

    /** chip8_load_rom on the contents of the file, or without one; an empty or oversized program is refused. */
    method LoadRom(file: Option<seq<nat>>) returns (ok: bool)
      requires Valid()
      modifies memory
      ensures Valid() && (ok <==> file.Some? && 0 < |file.value| <= MEMORY_SIZE - PROGRAM_START)
      ensures State() == if ok then old(State()).(memory := WithRom(old(memory[..]), file.value)) else old(State())
    {
      if file.None? { return false; }
      var rom := file.value;
      if |rom| == 0 || |rom| > MEMORY_SIZE - PROGRAM_START { return false; }
      ok := true;
      for i := 0 to |rom|
        invariant forall k :: 0 <= k < MEMORY_SIZE ==>
          memory[k] == if PROGRAM_START <= k < PROGRAM_START + i then rom[k - PROGRAM_START] else old(memory[k])
      {
        memory[PROGRAM_START + i] := rom[i];
      }
      assert memory[..] == WithRom(old(memory[..]), rom);
    }

    /** DRW Vx, Vy, n: flips pixels one by one, row by row, and records whether a lit one went out. */
    method DrawSprite(x: nat, y: nat, n: nat) returns (ok: bool)
      requires Valid() && x < 16 && y < 16
      modifies this`draw, V, gfx
      ensures ok <==> Draw(old(State()), x, y, n).Some?
      ensures ok ==> State() == Draw(old(State()), x, y, n).value
    {
      var vx, vy := V[x] % GFX_WIDTH, V[y] % GFX_HEIGHT;
      if RowsShown(vy, n) > 0 && I + RowsShown(vy, n) > MEMORY_SIZE { return false; }
      V[15] := 0;
      ghost var g0, v0, mem := gfx[..], V[..], memory[..];
      var row := 0;
      NothingLit(g0, mem, I, vx, vy);
      while row < n && vy + row < GFX_HEIGHT
        invariant 0 <= row <= RowsShown(vy, n) && memory[..] == mem
        invariant Drawn(gfx[..], V[..], g0, v0, mem, I, vx, vy, row, 0)
      {
        DrawRow(vx, vy, row, g0, v0);
        row := row + 1;
      }
      draw := true;
      ok := true;
      ClippedRows(gfx[..], V[..], g0, v0, mem, I, vx, vy, row, n);
    }

    method DrawRow(vx: nat, vy: nat, row: nat, ghost g0: seq<bool>, ghost v0: seq<nat>)
      requires Valid() && vx < GFX_WIDTH && vy + row < GFX_HEIGHT && I + row < MEMORY_SIZE
      requires |g0| == GFX_SIZE && |v0| == 16 && Drawn(gfx[..], V[..], g0, v0, memory[..], I, vx, vy, row, 0)
      modifies V, gfx
      ensures Drawn(gfx[..], V[..], g0, v0, memory[..], I, vx, vy, row + 1, 0)
    {
      var sprite := memory[I + row];
      ghost var mem := memory[..];
      var col := 0;
      while col < 8 && vx + col < GFX_WIDTH
        invariant col <= 8 && vx + col <= GFX_WIDTH && memory[..] == mem
        invariant Drawn(gfx[..], V[..], g0, v0, mem, I, vx, vy, row, col)
      {
        ghost var g, v := gfx[..], V[..];
        if SpriteBit(sprite, col) {
          var idx := (vy + row) * GFX_WIDTH + (vx + col);
          if gfx[idx] { V[15] := 1; }
          gfx[idx] := !gfx[idx];
          PixelFlipped(g, gfx[..], v, V[..], g0, v0, mem, I, vx, vy, row, col, idx);
        } else {
          PixelSkipped(g, v, g0, v0, mem, I, vx, vy, row, col);
        }
        col := col + 1;
      }
      RowDone(gfx[..], V[..], g0, v0, mem, I, vx, vy, row, col);
    }

    /** 8xy?. */
    method ArithStep(x: nat, y: nat, n: nat)
      requires Valid() && x < 16 && y < 16
      modifies V
      ensures V[..] == Alu(old(V[..]), x, y, n)
    {
      match n
      case 0 => V[x] := V[y];
      case 1 => V[x] := Or(V[x], V[y]);
      case 2 => V[x] := BitAnd(V[x], V[y]);
      case 3 => V[x] := BitXor(V[x], V[y]);
      case 4 =>
        var sum := V[x] + V[y];
        V[15] := if sum > 255 then 1 else 0;
        V[x] := sum % 256;
      case 5 =>
        V[15] := if V[x] >= V[y] then 1 else 0;
        V[x] := Sub8(V[x], V[y]);
      case 6 =>
        V[15] := V[x] % 2;
        V[x] := V[x] / 2;
      case 7 =>
        V[15] := if V[y] >= V[x] then 1 else 0;
        V[x] := Sub8(V[y], V[x]);
      case 14 =>
        V[15] := V[x] / 128 % 2;
        V[x] := V[x] * 2 % 256;
      case _ =>
    }

    /** Fx0A: the lowest key that is down, or the same instruction again. */
    method WaitKey(x: nat)
      requires Valid() && x < 16
      modifies this`pc, V
      ensures State() == Misc(old(State()), x, 0x0A).value
    {
      var k := 0;
      while k < 16 && !key[k]
        invariant 0 <= k <= 16 && forall j :: 0 <= j < k ==> !key[j]
      {
        k := k + 1;
      }
      assert FirstKey(key[..], 0) == k;
      if k < 16 { V[x] := k; } else { pc := (pc + 65534) % 65536; }
    }

    /** Fx55: V0 to Vx into memory at I. */
    method StoreRegs(x: nat)
      requires Valid() && x < 16 && I + x + 1 <= MEMORY_SIZE
      modifies memory
      ensures memory[..] == old(memory[..])[..I] + V[..x + 1] + old(memory[..])[I + x + 1..]
    {
      for k := 0 to x + 1
        invariant V[..] == old(V[..])
        invariant forall a :: 0 <= a < MEMORY_SIZE ==> memory[a] == if I <= a < I + k then V[a - I] else old(memory[a])
      {
        memory[I + k] := V[k];
      }
    }

    /** Fx65: V0 to Vx from memory at I. */
    method LoadRegs(x: nat)
      requires Valid() && x < 16 && I + x + 1 <= MEMORY_SIZE
      modifies V
      ensures V[..] == memory[I..I + x + 1] + old(V[..])[x + 1..]
    {
      for k := 0 to x + 1
        invariant memory[..] == old(memory[..])
        invariant forall a :: 0 <= a < 16 ==> V[a] == if a < k then memory[I + a] else old(V[a])
      {
        V[k] := memory[I + k];
      }
    }

    /** Fx??. */
    method MiscStep(x: nat, kk: nat) returns (ok: bool)
      requires Valid() && x < 16
      modifies this, V, memory
      ensures Valid()
      ensures ok <==> Misc(old(State()), x, kk).Some?
      ensures ok ==> State() == Misc(old(State()), x, kk).value
    {
      ok := true;
      if kk == 0x07 { V[x] := delay; }
      else if kk == 0x0A { WaitKey(x); }
      else if kk == 0x15 { delay := V[x]; }
      else if kk == 0x18 { sound := V[x]; }
      else if kk == 0x1E { I := (I + V[x]) % 65536; }
      else if kk == 0x29 { I := (FONTSET_START + V[x] * 5) % 65536; }
      else if kk == 0x33 {
        if I + 3 > MEMORY_SIZE { return false; }
        StoreDigits(x);
      }
      else if kk == 0x55 {
        if I + x + 1 > MEMORY_SIZE { return false; }
        StoreRegs(x);
      }
      else if kk == 0x65 {
        if I + x + 1 > MEMORY_SIZE { return false; }
        LoadRegs(x);
      }
    }

    /** Fx33. */
    method StoreDigits(x: nat)
      requires Valid() && x < 16 && I + 3 <= MEMORY_SIZE
      modifies memory
      ensures Valid() && State() == Misc(old(State()), x, 0x33).value
    {
      memory[I] := V[x] / 100;
      memory[I + 1] := V[x] / 10 % 10;
      memory[I + 2] := V[x] % 10;
    }

    method ClearScreen()
      requires Valid()
      modifies this`draw, gfx
      ensures State() == System(old(State()), 0x00E0)
    {
      for i := 0 to GFX_SIZE
        invariant forall k :: 0 <= k < i ==> !gfx[k]
      {
        gfx[i] := false;
      }
      draw := true;
      assert gfx[..] == seq(GFX_SIZE, _ => false);
    }

    method SkipIf(yes: bool)
      requires Valid()
      modifies this`pc
      ensures State() == Skip(old(State()), yes)
    {
      if yes { pc := (pc + 2) % 65536; }
    }

    /** The opcodes that only move the program counter, the stack and I. */
    method FlowStep(op: nat)
      requires Valid() && op < 65536 && op / 4096 in {0, 1, 2, 3, 4, 5, 9, 10, 11}
      modifies this, stack, gfx
      ensures Valid() && State() == Execute(old(State()), op, 0).value
    {
      var nnn, x, y, kk, hi := op % 4096, op / 256 % 16, op / 16 % 16, op % 256, op / 4096;
      if hi == 0 {
        if op == 0x00E0 { ClearScreen(); }
        else if op == 0x00EE {
          if sp > 0 { sp := sp - 1; pc := stack[sp]; }
        }
      }
      else if hi == 1 { pc := nnn; }
      else if hi == 2 {
        if sp < STACK_SIZE { stack[sp] := pc; sp := sp + 1; pc := nnn; }
      }
      else if hi == 3 { SkipIf(V[x] == kk); }
      else if hi == 4 { SkipIf(V[x] != kk); }
      else if hi == 5 { SkipIf(V[x] == V[y]); }
      else if hi == 9 { SkipIf(V[x] != V[y]); }
      else if hi == 10 { I := nnn; }
      else { pc := (nnn + V[0]) % 65536; }
    }

    /** The switch of chip8_cycle. */
    method ExecuteStep(op: nat, rnd: nat) returns (ok: bool)
      requires Valid() && op < 65536
      modifies this, memory, V, gfx, stack
      ensures Valid()
      ensures ok <==> Execute(old(State()), op, rnd).Some?
      ensures ok ==> State() == Execute(old(State()), op, rnd).value
    {
      var x, y, kk, hi := op / 256 % 16, op / 16 % 16, op % 256, op / 4096;
      ok := true;
      if hi == 6 { V[x] := kk; }
      else if hi == 7 { V[x] := (V[x] + kk) % 256; }
      else if hi == 8 { ArithStep(x, y, op % 16); }
      else if hi == 12 { V[x] := BitAnd(rnd % 256, kk); }
      else if hi == 13 { ok := DrawSprite(x, y, op % 16); }
      else if hi == 14 {
        if kk == 0x9E { SkipIf(key[V[x] % 16]); } else if kk == 0xA1 { SkipIf(!key[V[x] % 16]); }
      }
      else if hi == 15 { ok := MiscStep(x, kk); }
      else { FlowStep(op); }
    }

    /** chip8_cycle. */
    method Cycle(rnd: nat) returns (ok: bool)
      requires Valid()
      modifies this, memory, V, gfx, stack
      ensures Valid()
      ensures ok <==> Chip8Model.Cycle(old(State()), rnd).Some?
      ensures ok ==> State() == Chip8Model.Cycle(old(State()), rnd).value
    {
      if pc + 1 >= MEMORY_SIZE { return false; }
      var op := (memory[pc] * 256 + memory[pc + 1]) % 65536;
      pc := (pc + 2) % 65536;
      ok := ExecuteStep(op, rnd);
    }
  }

  // ---- the drawing loops, pixel by pixel ---------------------------------------------------------

  /** Lit by one of the first `row` rows, or by the first `col` columns of the next one. */
  predicate LitTo(mem: seq<nat>, I: nat, vx: nat, vy: nat, row: nat, col: nat, idx: nat) {
    Lit(mem, I, vx, vy, row, idx) ||
    (idx / GFX_WIDTH == vy + row && idx % GFX_WIDTH < vx + col && Lit(mem, I, vx, vy, row + 1, idx))
  }

  ghost predicate HitTo(g0: seq<bool>, mem: seq<nat>, I: nat, vx: nat, vy: nat, row: nat, col: nat) {
    exists idx :: 0 <= idx < |g0| && g0[idx] && LitTo(mem, I, vx, vy, row, col, idx)
  }

  /** The screen and registers in the middle of drawing over g0 and v0. */
  ghost predicate Drawn(g: seq<bool>, v: seq<nat>, g0: seq<bool>, v0: seq<nat>, mem: seq<nat>,
                        I: nat, vx: nat, vy: nat, row: nat, col: nat)
    requires |v0| == 16
  {
    && |g| == |g0| && (forall idx :: 0 <= idx < |g0| ==> g[idx] == (g0[idx] != LitTo(mem, I, vx, vy, row, col, idx)))
    && v == v0[15 := if HitTo(g0, mem, I, vx, vy, row, col) then 1 else 0]
  }

  lemma NothingLit(g0: seq<bool>, mem: seq<nat>, I: nat, vx: nat, vy: nat)
    ensures forall idx: nat :: !LitTo(mem, I, vx, vy, 0, 0, idx)
  {
  }

  /** The pixel at (vx + col, vy + row) is the only one that the next column adds. */
  lemma NextColumn(mem: seq<nat>, I: nat, vx: nat, vy: nat, row: nat, col: nat, idx: nat)
    requires vx + col < GFX_WIDTH && col < 8 && I + row < |mem|
    ensures LitTo(mem, I, vx, vy, row, col + 1, idx) <==>
      LitTo(mem, I, vx, vy, row, col, idx) || (idx == (vy + row) * GFX_WIDTH + vx + col && SpriteBit(mem[I + row], col))
    ensures idx == (vy + row) * GFX_WIDTH + vx + col ==> !LitTo(mem, I, vx, vy, row, col, idx)
  {
    assert idx == idx / GFX_WIDTH * GFX_WIDTH + idx % GFX_WIDTH;
  }

  lemma PixelFlipped(g: seq<bool>, g': seq<bool>, v: seq<nat>, v': seq<nat>, g0: seq<bool>, v0: seq<nat>, mem: seq<nat>,
                     I: nat, vx: nat, vy: nat, row: nat, col: nat, idx: nat)
    requires |v0| == 16 && Drawn(g, v, g0, v0, mem, I, vx, vy, row, col)
    requires vx + col < GFX_WIDTH && col < 8 && I + row < |mem| && SpriteBit(mem[I + row], col)
    requires idx == (vy + row) * GFX_WIDTH + (vx + col) && idx < |g| && g' == g[idx := !g[idx]]
    requires v' == if g[idx] then v[15 := 1] else v
    ensures Drawn(g', v', g0, v0, mem, I, vx, vy, row, col + 1)
  {
    forall i: nat | i < |g0|
      ensures LitTo(mem, I, vx, vy, row, col + 1, i) <==> LitTo(mem, I, vx, vy, row, col, i) || i == idx
    {
      NextColumn(mem, I, vx, vy, row, col, i);
    }
    NextColumn(mem, I, vx, vy, row, col, idx);
    HitGrows(g0, mem, I, vx, vy, row, col, idx);
  }

  lemma HitGrows(g0: seq<bool>, mem: seq<nat>, I: nat, vx: nat, vy: nat, row: nat, col: nat, idx: nat)
    requires idx < |g0|
    requires forall i: nat :: i < |g0| ==>
      (LitTo(mem, I, vx, vy, row, col + 1, i) <==> LitTo(mem, I, vx, vy, row, col, i) || i == idx)
    ensures HitTo(g0, mem, I, vx, vy, row, col + 1) <==> HitTo(g0, mem, I, vx, vy, row, col) || g0[idx]
  {
    if HitTo(g0, mem, I, vx, vy, row, col) {
      var i :| 0 <= i < |g0| && g0[i] && LitTo(mem, I, vx, vy, row, col, i);
      assert LitTo(mem, I, vx, vy, row, col + 1, i);
    }
    assert LitTo(mem, I, vx, vy, row, col, idx) || LitTo(mem, I, vx, vy, row, col + 1, idx);
  }

  /** The set of pixels lit so far is the same at two points of the loops. */
  lemma SameLit(g: seq<bool>, v: seq<nat>, g0: seq<bool>, v0: seq<nat>, mem: seq<nat>,
                I: nat, vx: nat, vy: nat, row: nat, col: nat, row': nat, col': nat)
    requires |v0| == 16 && Drawn(g, v, g0, v0, mem, I, vx, vy, row, col)
    requires forall i: nat :: i < |g0| ==>
      (LitTo(mem, I, vx, vy, row, col, i) <==> LitTo(mem, I, vx, vy, row', col', i))
    ensures Drawn(g, v, g0, v0, mem, I, vx, vy, row', col')
  {
    if HitTo(g0, mem, I, vx, vy, row, col) {
      var i :| 0 <= i < |g0| && g0[i] && LitTo(mem, I, vx, vy, row, col, i);
      assert LitTo(mem, I, vx, vy, row', col', i);
    }
    if HitTo(g0, mem, I, vx, vy, row', col') {
      var i :| 0 <= i < |g0| && g0[i] && LitTo(mem, I, vx, vy, row', col', i);
      assert LitTo(mem, I, vx, vy, row, col, i);
    }
  }

  lemma PixelSkipped(g: seq<bool>, v: seq<nat>, g0: seq<bool>, v0: seq<nat>, mem: seq<nat>,
                     I: nat, vx: nat, vy: nat, row: nat, col: nat)
    requires |v0| == 16 && Drawn(g, v, g0, v0, mem, I, vx, vy, row, col)
    requires vx + col < GFX_WIDTH && col < 8 && I + row < |mem| && !SpriteBit(mem[I + row], col)
    ensures Drawn(g, v, g0, v0, mem, I, vx, vy, row, col + 1)
  {
    forall i: nat | i < |g0|
      ensures LitTo(mem, I, vx, vy, row, col, i) <==> LitTo(mem, I, vx, vy, row, col + 1, i)
    {
      NextColumn(mem, I, vx, vy, row, col, i);
    }
    SameLit(g, v, g0, v0, mem, I, vx, vy, row, col, row, col + 1);
  }

  lemma RowDone(g: seq<bool>, v: seq<nat>, g0: seq<bool>, v0: seq<nat>, mem: seq<nat>,
                I: nat, vx: nat, vy: nat, row: nat, col: nat)
    requires |v0| == 16 && Drawn(g, v, g0, v0, mem, I, vx, vy, row, col)
    requires col == 8 || vx + col == GFX_WIDTH
    ensures Drawn(g, v, g0, v0, mem, I, vx, vy, row + 1, 0)
  {
    forall i: nat | i < |g0|
      ensures LitTo(mem, I, vx, vy, row, col, i) <==> LitTo(mem, I, vx, vy, row + 1, 0, i)
    {
      RowLit(mem, I, vx, vy, row, col, i);
    }
    SameLit(g, v, g0, v0, mem, I, vx, vy, row, col, row + 1, 0);
  }

  lemma RowLit(mem: seq<nat>, I: nat, vx: nat, vy: nat, row: nat, col: nat, i: nat)
    requires col == 8 || vx + col == GFX_WIDTH
    ensures LitTo(mem, I, vx, vy, row, col, i) <==> LitTo(mem, I, vx, vy, row + 1, 0, i)
  {
  }

  /** The rows below the screen would have lit nothing on it. */
  lemma ClippedRows(g: seq<bool>, v: seq<nat>, g0: seq<bool>, v0: seq<nat>, mem: seq<nat>,
                    I: nat, vx: nat, vy: nat, row: nat, n: nat)
    requires |v0| == 16 && |g0| == GFX_SIZE && Drawn(g, v, g0, v0, mem, I, vx, vy, row, 0)
    requires row == n || (row < n && vy + row >= GFX_HEIGHT)
    ensures g == Flipped(g0, mem, I, vx, vy, n)
    ensures v == v0[15 := if Collides(g0, mem, I, vx, vy, n) then 1 else 0]
  {
    forall i: nat | i < |g0|
      ensures LitTo(mem, I, vx, vy, row, 0, i) <==> Lit(mem, I, vx, vy, n, i)
    {
    }
    assert HitTo(g0, mem, I, vx, vy, row, 0) <==> Collides(g0, mem, I, vx, vy, n) by {
      if HitTo(g0, mem, I, vx, vy, row, 0) {
        var i :| 0 <= i < |g0| && g0[i] && LitTo(mem, I, vx, vy, row, 0, i);
        assert Lit(mem, I, vx, vy, n, i);
      }
      if Collides(g0, mem, I, vx, vy, n) {
        var i :| 0 <= i < |g0| && g0[i] && Lit(mem, I, vx, vy, n, i);
        assert LitTo(mem, I, vx, vy, row, 0, i);
      }
    }
  }

  function FontMemory(): seq<nat> {
    seq(MEMORY_SIZE, i => if FONTSET_START <= i < FONTSET_START + |FONTSET| then FONTSET[i - FONTSET_START] else 0)
  }

  function WithRom(memory: seq<nat>, rom: seq<nat>): seq<nat>
    requires |memory| == MEMORY_SIZE && |rom| <= MEMORY_SIZE - PROGRAM_START
  {
    memory[..PROGRAM_START] + rom + memory[PROGRAM_START + |rom|..]
  }
}
