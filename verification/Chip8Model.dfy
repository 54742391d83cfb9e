/**
  The CHIP-8 machine of src/chip8/chip8.c as a function: one cycle takes the state and one random byte to
  the next state, or to None where the C code would index outside one of its arrays.
 */
module Chip8Model {
  import opened Arith
  import opened Common

  const MEMORY_SIZE: nat := 4096
  const GFX_WIDTH: nat := 64
  const GFX_HEIGHT: nat := 32
  const GFX_SIZE: nat := 2048
  const STACK_SIZE: nat := 16
  const FONTSET_START: nat := 0x50
  const PROGRAM_START: nat := 0x200

  /** Bytes and words are naturals; every operation below truncates as uint8_t and uint16_t do. */
  datatype Cpu = Cpu(
    memory: seq<nat>, V: seq<nat>, I: nat, pc: nat, gfx: seq<bool>, delay: nat, sound: nat,
    stack: seq<nat>, sp: nat, key: seq<bool>, draw: bool)

  predicate Sized(c: Cpu) {
    && |c.memory| == MEMORY_SIZE && |c.V| == 16 && |c.gfx| == GFX_SIZE && |c.stack| == STACK_SIZE && |c.key| == 16
    && c.sp <= STACK_SIZE
  }

  // ---- bytes ------------------------------------------------------------------------------------

  function BitAnd(a: nat, b: nat): nat { if a == 0 || b == 0 then 0 else (a % 2) * (b % 2) + 2 * BitAnd(a / 2, b / 2) }

  function BitXor(a: nat, b: nat): nat
    decreases a + b
  {
    if a == 0 then b else if b == 0 then a else (a + b) % 2 + 2 * BitXor(a / 2, b / 2)
  }

  function Sub8(a: nat, b: nat): nat { ((a as int) - (b as int)) % 256 }

  /** byte & (0x80 >> col). */
  predicate SpriteBit(byte: nat, col: nat)
    requires col < 8
  {
    byte / Pow(2, 7 - col) % 2 == 1
  }

  // ---- drawing ------------------------------------------------------------------------------------

  /** The rows of an n-row sprite at vy that are on the screen: the others are never read. */
  function RowsShown(vy: nat, n: nat): nat
  {
    if vy + n <= GFX_HEIGHT then n else if vy < GFX_HEIGHT then GFX_HEIGHT - vy else 0
  }

  /** Pixel idx is under a set bit of the sprite at (vx, vy). */
  predicate Lit(memory: seq<nat>, I: nat, vx: nat, vy: nat, n: nat, idx: nat) {
    var row, col := idx / GFX_WIDTH - vy, idx % GFX_WIDTH - vx;
    0 <= row < n && 0 <= col < 8 && I + row < |memory| && SpriteBit(memory[I + row], col)
  }

  /** DRW flips the lit pixels, clipped at the right and bottom edges. */
  function Flipped(gfx: seq<bool>, memory: seq<nat>, I: nat, vx: nat, vy: nat, n: nat): seq<bool> {
    seq(|gfx|, idx requires 0 <= idx < |gfx| => gfx[idx] != Lit(memory, I, vx, vy, n, idx))
  }

  predicate Collides(gfx: seq<bool>, memory: seq<nat>, I: nat, vx: nat, vy: nat, n: nat) {
    exists idx :: 0 <= idx < |gfx| && gfx[idx] && Lit(memory, I, vx, vy, n, idx)
  }

  function Draw(c: Cpu, x: nat, y: nat, n: nat): Option<Cpu>
    requires Sized(c) && x < 16 && y < 16
  {
    var vx, vy := c.V[x] % GFX_WIDTH, c.V[y] % GFX_HEIGHT;
    if RowsShown(vy, n) > 0 && c.I + RowsShown(vy, n) > MEMORY_SIZE then None
    else
      var hit := Collides(c.gfx, c.memory, c.I, vx, vy, n);
      Some(c.(gfx := Flipped(c.gfx, c.memory, c.I, vx, vy, n), V := c.V[15 := if hit then 1 else 0], draw := true))
  }

  // ---- the opcodes --------------------------------------------------------------------------------

  function Skip(c: Cpu, yes: bool): Cpu { if yes then c.(pc := (c.pc + 2) % 65536) else c }

  /** 8xy?. VF is written before the subtraction or shift reads its operands. */
  function Alu(V: seq<nat>, x: nat, y: nat, n: nat): (W: seq<nat>)
    requires |V| == 16 && x < 16 && y < 16
    ensures |W| == 16
  {
    if n == 0 then V[x := V[y]]
    else if n == 1 then V[x := Or(V[x], V[y])]
    else if n == 2 then V[x := BitAnd(V[x], V[y])]
    else if n == 3 then V[x := BitXor(V[x], V[y])]
    else if n == 4 then V[15 := if V[x] + V[y] > 255 then 1 else 0][x := (V[x] + V[y]) % 256]
    else if n == 5 then var W := V[15 := if V[x] >= V[y] then 1 else 0]; W[x := Sub8(W[x], W[y])]
    else if n == 6 then var W := V[15 := V[x] % 2]; W[x := W[x] / 2]
    else if n == 7 then var W := V[15 := if V[y] >= V[x] then 1 else 0]; W[x := Sub8(W[y], W[x])]
    else if n == 14 then var W := V[15 := V[x] / 128 % 2]; W[x := W[x] * 2 % 256]
    else V
  }

  function FirstKey(key: seq<bool>, k: nat): (r: nat)
    requires k <= |key|
    ensures k <= r <= |key|
    ensures r < |key| ==> key[r]
    ensures forall j :: k <= j < r ==> !key[j]
    decreases |key| - k
  {
    if k == |key| || key[k] then k else FirstKey(key, k + 1)
  }

  /** Fx??. */
  function Misc(c: Cpu, x: nat, kk: nat): Option<Cpu>
    requires Sized(c) && x < 16
  {
    if kk == 0x07 then Some(c.(V := c.V[x := c.delay]))
    else if kk == 0x0A then
      var k := FirstKey(c.key, 0);
      if k < 16 then Some(c.(V := c.V[x := k])) else Some(c.(pc := (c.pc + 65534) % 65536))
    else if kk == 0x15 then Some(c.(delay := c.V[x]))
    else if kk == 0x18 then Some(c.(sound := c.V[x]))
    else if kk == 0x1E then Some(c.(I := (c.I + c.V[x]) % 65536))
    else if kk == 0x29 then Some(c.(I := (FONTSET_START + c.V[x] * 5) % 65536))
    else if kk == 0x33 then
      if c.I + 3 > MEMORY_SIZE then None
      else Some(c.(memory := c.memory[c.I := c.V[x] / 100][c.I + 1 := c.V[x] / 10 % 10][c.I + 2 := c.V[x] % 10]))
    else if kk == 0x55 then
      if c.I + x + 1 > MEMORY_SIZE then None
      else Some(c.(memory := c.memory[..c.I] + c.V[..x + 1] + c.memory[c.I + x + 1..]))
    else if kk == 0x65 then
      if c.I + x + 1 > MEMORY_SIZE then None
      else Some(c.(V := c.memory[c.I..c.I + x + 1] + c.V[x + 1..]))
    else Some(c)
  }

  /** 00E0 and 00EE; every other 0nnn does nothing. */
  function System(c: Cpu, op: nat): Cpu
    requires Sized(c)
  {
    if op == 0x00E0 then c.(gfx := seq(GFX_SIZE, _ => false), draw := true)
    else if op == 0x00EE && c.sp > 0 then c.(sp := c.sp - 1, pc := c.stack[c.sp - 1])
    else c
  }

  function Execute(c: Cpu, op: nat, rnd: nat): Option<Cpu>
    requires Sized(c) && op < 65536
  {
    var nnn, n, x, y, kk := op % 4096, op % 16, op / 256 % 16, op / 16 % 16, op % 256;
    var hi := op / 4096;
    if hi == 0 then Some(System(c, op))
    else if hi == 1 then Some(c.(pc := nnn))
    else if hi == 2 then
      Some(if c.sp < STACK_SIZE then c.(stack := c.stack[c.sp := c.pc], sp := c.sp + 1, pc := nnn) else c)
    else if hi == 3 then Some(Skip(c, c.V[x] == kk))
    else if hi == 4 then Some(Skip(c, c.V[x] != kk))
    else if hi == 5 then Some(Skip(c, c.V[x] == c.V[y]))
    else if hi == 6 then Some(c.(V := c.V[x := kk]))
    else if hi == 7 then Some(c.(V := c.V[x := (c.V[x] + kk) % 256]))
    else if hi == 8 then Some(c.(V := Alu(c.V, x, y, n)))
    else if hi == 9 then Some(Skip(c, c.V[x] != c.V[y]))
    else if hi == 10 then Some(c.(I := nnn))
    else if hi == 11 then Some(c.(pc := (nnn + c.V[0]) % 65536))
    else if hi == 12 then Some(c.(V := c.V[x := BitAnd(rnd % 256, kk)]))
    else if hi == 13 then Draw(c, x, y, n)
    else if hi == 14 then
      if kk == 0x9E then Some(Skip(c, c.key[c.V[x] % 16]))
      else if kk == 0xA1 then Some(Skip(c, !c.key[c.V[x] % 16])) else Some(c)
    else Misc(c, x, kk)
  }

  function Opcode(c: Cpu): nat
    requires Sized(c) && c.pc + 1 < MEMORY_SIZE
  {
    (c.memory[c.pc] * 256 + c.memory[c.pc + 1]) % 65536
  }

  /** chip8_cycle. */
  function Cycle(c: Cpu, rnd: nat): Option<Cpu>
    requires Sized(c)
  {
    if c.pc + 1 >= MEMORY_SIZE then None else Execute(c.(pc := (c.pc + 2) % 65536), Opcode(c), rnd)
  }

  lemma CycleSized(c: Cpu, rnd: nat)
    requires Sized(c)
    ensures Cycle(c, rnd).Some? ==> Sized(Cycle(c, rnd).value)
  {
    hide Execute;
    if c.pc + 1 < MEMORY_SIZE { ExecuteSized(c.(pc := (c.pc + 2) % 65536), Opcode(c), rnd); }
  }

  lemma ExecuteSized(c: Cpu, op: nat, rnd: nat)
    requires Sized(c) && op < 65536
    ensures Execute(c, op, rnd).Some? ==> Sized(Execute(c, op, rnd).value)
  {
    hide Misc, Draw, System, Alu, BitAnd;
    MiscSized(c, op / 256 % 16, op % 256);
    DrawSized(c, op / 256 % 16, op / 16 % 16, op % 16);
    SystemSized(c, op);
  }

  lemma MiscSized(c: Cpu, x: nat, kk: nat)
    requires Sized(c) && x < 16
    ensures Misc(c, x, kk).Some? ==> Sized(Misc(c, x, kk).value)
  {
  }

  lemma DrawSized(c: Cpu, x: nat, y: nat, n: nat)
    requires Sized(c) && x < 16 && y < 16
    ensures Draw(c, x, y, n).Some? ==> Sized(Draw(c, x, y, n).value)
  {
    hide Collides, Lit;
  }

  lemma SystemSized(c: Cpu, op: nat)
    requires Sized(c)
    ensures Sized(System(c, op))
  {
  }
}
