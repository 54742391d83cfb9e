/**
  Every run of the maze program embedded in src/chip8/chip8.c: whatever the random bytes, the keys and the
  timers do, it draws each of the 128 tiles once and then stays in its final self-jump.
 */
module Chip8Maze {
  import opened Arith
  import opened Common
  import opened Chip8Model
  import opened Chip8

  const ROW0: seq<nat> := [0x60, 0x00, 0x61, 0x00, 0xA2, 0x22, 0xC2, 0x01]
  const ROW1: seq<nat> := [0x32, 0x01, 0xA2, 0x1E, 0xD0, 0x14, 0x70, 0x04]
  const ROW2: seq<nat> := [0x30, 0x40, 0x12, 0x04, 0x60, 0x00, 0x71, 0x04]
  const ROW3: seq<nat> := [0x31, 0x20, 0x12, 0x04, 0x12, 0x1C, 0x80, 0x40]
  const ROW4: seq<nat> := [0x20, 0x10, 0x20, 0x40, 0x80, 0x10]

  /** maze_rom. */
  const ROM: seq<nat> := ROW0 + ROW1 + ROW2 + ROW3 + ROW4

  function MazeMemory(): seq<nat> { WithRom(FontMemory(), ROM) }

  /** The machine as main starts it without a program file. */
  function Boot(): Cpu {
    Cpu(MazeMemory(), seq(16, _ => 0), 0, PROGRAM_START, seq(GFX_SIZE, _ => false), 0, 0, seq(16, _ => 0), 0,
      seq(16, _ => false), true)
  }

  /** What the surroundings decide before a cycle: the random byte, the timers, the keys, the drawn flag. */
  datatype Input = Input(rnd: nat, delay: nat, sound: nat, key: seq<bool>, draw: bool)

  function Outside(c: Cpu, i: Input): Cpu
    requires Sized(c)
  {
    c.(delay := i.delay, sound := i.sound, key := if |i.key| == 16 then i.key else c.key, draw := i.draw)
  }

  /** One cycle in its surroundings. */
  function Turn(c: Cpu, i: Input): Option<Cpu>
    requires Sized(c)
  {
    Cycle(Outside(c, i), i.rnd)
  }

  lemma TurnSized(c: Cpu, i: Input)
    requires Sized(c)
    ensures Turn(c, i).Some? ==> Sized(Turn(c, i).value)
  {
    CycleSized(Outside(c, i), i.rnd);
  }

  // ---- the picture ----------------------------------------------------------------------------------

  /** Tiles are numbered row by row, 16 to a row; pixel idx lies in this one. */
  function TileOf(idx: nat): nat { idx / GFX_WIDTH / 4 * 16 + idx % GFX_WIDTH / 4 }

  /** The two sprites: false is the one at 0x21E, true the one at 0x222. */
  predicate Stroke(slash: bool, row: nat, col: nat) {
    if slash then (row == 0 && col == 2) || (row == 1 && col == 1) || (row == 2 && col == 0) || (row == 3 && col == 3)
    else row == col
  }

  /** The screen once the tiles in ts have been drawn, in order. */
  function Picture(ts: seq<bool>): seq<bool> {
    seq(GFX_SIZE, idx requires 0 <= idx < GFX_SIZE =>
      TileOf(idx) < |ts| && Stroke(ts[TileOf(idx)], idx / GFX_WIDTH % 4, idx % GFX_WIDTH % 4))
  }

  function SpriteAt(slash: bool): nat { if slash then 0x222 else 0x21E }

  lemma RomRow(k: nat)
    requires k < 38
    ensures |ROM| == 38 && |ROW0| == |ROW1| == |ROW2| == |ROW3| == 8 && |ROW4| == 6
    ensures ROM[k] == if k < 8 then ROW0[k] else if k < 16 then ROW1[k - 8] else if k < 24 then ROW2[k - 16]
      else if k < 32 then ROW3[k - 24] else ROW4[k - 32]
  {
  }

  lemma RomByte(k: nat)
    requires k < |ROM|
    ensures MazeMemory()[PROGRAM_START + k] == ROM[k]
  {
  }

  lemma Powers()
    ensures Pow(2, 0) == 1 && Pow(2, 1) == 2 && Pow(2, 2) == 4 && Pow(2, 3) == 8
    ensures Pow(2, 4) == 16 && Pow(2, 5) == 32 && Pow(2, 6) == 64 && Pow(2, 7) == 128
  {
    assert Pow(2, 2) == 2 * Pow(2, 1);
    assert Pow(2, 3) == 2 * Pow(2, 2);
    assert Pow(2, 4) == 2 * Pow(2, 3);
    assert Pow(2, 5) == 2 * Pow(2, 4);
    assert Pow(2, 6) == 2 * Pow(2, 5);
  }

  /** Bit col of the byte with only bit b set. */
  lemma OneBit(b: nat, col: nat)
    requires b < 4 && col < 8
    ensures SpriteBit(if b == 0 then 0x80 else if b == 1 then 0x40 else if b == 2 then 0x20 else 0x10, col) <==>
      col == b
  {
    Powers();
    hide Pow;
    assert col in {0, 1, 2, 3, 4, 5, 6, 7};
  }

  lemma StrokeBit(slash: bool, row: nat, col: nat)
    requires row < 4 && col < 8
    ensures SpriteBit(MazeMemory()[SpriteAt(slash) + row], col) <==> Stroke(slash, row, col)
  {
    RomByte(SpriteAt(slash) + row - PROGRAM_START);
    RomRow(SpriteAt(slash) + row - PROGRAM_START);
    var b := if slash && row < 3 then 2 - row else row;
    OneBit(b, col);
  }

  /** Tile n is exactly the 4x4 square whose corner the program computes for it. */
  lemma TilePlace(n: nat, idx: nat)
    requires n < 128 && idx < GFX_SIZE
    ensures TileOf(idx) == n <==>
      0 <= idx / GFX_WIDTH - n / 16 * 4 < 4 && 0 <= idx % GFX_WIDTH - n % 16 * 4 < 4
    ensures TileOf(idx) == n ==>
      idx / GFX_WIDTH % 4 == idx / GFX_WIDTH - n / 16 * 4 && idx % GFX_WIDTH % 4 == idx % GFX_WIDTH - n % 16 * 4
    ensures TileOf(idx) < 128
  {
  }

  lemma LitIsStroke(slash: bool, n: nat, idx: nat)
    requires n < 128 && idx < GFX_SIZE
    ensures Lit(MazeMemory(), SpriteAt(slash), n % 16 * 4, n / 16 * 4, 4, idx) <==>
      TileOf(idx) == n && Stroke(slash, idx / GFX_WIDTH % 4, idx % GFX_WIDTH % 4)
  {
    TilePlace(n, idx);
    var row, col := idx / GFX_WIDTH - n / 16 * 4, idx % GFX_WIDTH - n % 16 * 4;
    if 0 <= row < 4 && 0 <= col < 8 { StrokeBit(slash, row, col); }
  }

  /** Drawing a fresh tile adds it to the picture and turns no pixel off. */
  lemma TileDraw(c: Cpu, ts: seq<bool>, slash: bool)
    requires Sized(c) && c.memory == MazeMemory() && |ts| < 128 && c.I == SpriteAt(slash) && c.gfx == Picture(ts)
    requires c.V[0] == |ts| % 16 * 4 && c.V[1] == |ts| / 16 * 4
    ensures Draw(c, 0, 1, 4) == Some(c.(gfx := Picture(ts + [slash]), V := c.V[15 := 0], draw := true))
  {
    var n := |ts|;
    TileFlips(ts, slash);
    TilePosition(n);
    hide Lit, Picture, Flipped;
    var vx, vy := c.V[0] % GFX_WIDTH, c.V[1] % GFX_HEIGHT;
    assert vx == n % 16 * 4 && vy == n / 16 * 4;
    assert !Collides(c.gfx, c.memory, c.I, vx, vy, 4);
  }

  lemma TilePosition(n: nat)
    requires n < 128
    ensures n % 16 * 4 % GFX_WIDTH == n % 16 * 4 && n / 16 * 4 % GFX_HEIGHT == n / 16 * 4
    ensures n / 16 * 4 + 4 <= GFX_HEIGHT
  {
  }

  /** On the screen so far, the sprite of the next tile meets no lit pixel and completes the picture. */
  lemma TileFlips(ts: seq<bool>, slash: bool)
    requires |ts| < 128
    ensures var n := |ts|;
      && !Collides(Picture(ts), MazeMemory(), SpriteAt(slash), n % 16 * 4, n / 16 * 4, 4)
      && Flipped(Picture(ts), MazeMemory(), SpriteAt(slash), n % 16 * 4, n / 16 * 4, 4) == Picture(ts + [slash])
  {
    var n, m := |ts|, MazeMemory();
    hide MazeMemory;
    forall idx | 0 <= idx < GFX_SIZE
      ensures Lit(m, SpriteAt(slash), n % 16 * 4, n / 16 * 4, 4, idx) ==> !Picture(ts)[idx]
      ensures Picture(ts + [slash])[idx]
        == (Picture(ts)[idx] != Lit(m, SpriteAt(slash), n % 16 * 4, n / 16 * 4, 4, idx))
    {
      hide Lit;
      LitIsStroke(slash, n, idx);
    }
    hide Lit, Picture;
    assert Flipped(Picture(ts), m, SpriteAt(slash), n % 16 * 4, n / 16 * 4, 4) == Picture(ts + [slash]);
  }

  // ---- the program, instruction by instruction ------------------------------------------------------

  /**
    What holds when the program counter is pc and the tiles in ts have been drawn. Memory is as it was at
    the start and VF is 0 throughout.
   */
  ghost predicate At(c: Cpu, ts: seq<bool>) {
    && Sized(c) && c.memory == MazeMemory() && c.gfx == Picture(ts) && c.V[15] == 0 && |ts| <= 128
    && InPlace(c.pc, c.V[0], c.V[1], c.V[2], c.I, |ts|)
  }

  /** The registers at each instruction, with n tiles drawn. */
  predicate InPlace(pc: nat, v0: nat, v1: nat, v2: nat, i: nat, n: nat) {
    var tile := n < 128 && v0 == n % 16 * 4 && v1 == n / 16 * 4;
    var drawn := n > 0 && v1 == (n - 1) / 16 * 4;
    match pc
    case 0x200 => n == 0
    case 0x202 => n == 0 && v0 == 0
    case 0x204 => tile
    case 0x206 => tile && i == 0x222
    case 0x208 => tile && i == 0x222 && v2 < 2
    case 0x20A => tile && i == 0x222 && v2 == 0
    case 0x20C => tile && i == SpriteAt(v2 == 1) && v2 < 2
    case 0x20E => drawn && v0 == (n - 1) % 16 * 4
    case 0x210 => drawn && v0 == (n - 1) % 16 * 4 + 4
    case 0x212 => drawn && v0 == (n - 1) % 16 * 4 + 4 && v0 != 64
    case 0x214 => drawn && (n - 1) % 16 == 15
    case 0x216 => drawn && (n - 1) % 16 == 15 && v0 == 0
    case 0x218 => n > 0 && (n - 1) % 16 == 15 && v0 == 0 && v1 == (n - 1) / 16 * 4 + 4
    case 0x21A => n > 0 && (n - 1) % 16 == 15 && v0 == 0 && v1 == (n - 1) / 16 * 4 + 4 && v1 != 32
    case 0x21C => n == 128
    case _ => false
  }

  /** The program as words. */
  function MazeOp(pc: nat): nat {
    match pc
    case 0x200 => 0x6000
    case 0x202 => 0x6100
    case 0x204 => 0xA222
    case 0x206 => 0xC201
    case 0x208 => 0x3201
    case 0x20A => 0xA21E
    case 0x20C => 0xD014
    case 0x20E => 0x7004
    case 0x210 => 0x3040
    case 0x212 => 0x1204
    case 0x214 => 0x6000
    case 0x216 => 0x7104
    case 0x218 => 0x3120
    case 0x21A => 0x1204
    case _ => 0x121C
  }

  predicate InCode(pc: nat) { 0x200 <= pc <= 0x21C && pc % 2 == 0 }

  lemma FetchAt(c: Cpu, k: nat)
    requires Sized(c) && c.memory == MazeMemory() && k <= 28 && k % 2 == 0 && c.pc == PROGRAM_START + k
    ensures Opcode(c) == MazeOp(c.pc)
  {
    hide MazeOp, MazeMemory, Opcode;
    RomByte(k);
    RomByte(k + 1);
    RomWord(k);
    OpcodeOf(c, ROM[k], ROM[k + 1]);
  }

  lemma OpcodeOf(c: Cpu, a: nat, b: nat)
    requires Sized(c) && c.pc + 1 < MEMORY_SIZE && c.memory[c.pc] == a && c.memory[c.pc + 1] == b
    ensures Opcode(c) == (a * 256 + b) % 65536
  {
  }

  lemma RomWord(k: nat)
    requires k <= 28 && k % 2 == 0
    ensures (ROM[k] * 256 + ROM[k + 1]) % 65536 == MazeOp(PROGRAM_START + k)
  {
    hide ROM, ROW0, ROW1, ROW2, ROW3, MazeOp;
    RomRow(k);
    RomRow(k + 1);
    if k < 8 {
      Row0Word(k);
    } else if k < 16 {
      Row1Word(k - 8);
    } else if k < 24 {
      Row2Word(k - 16);
    } else {
      Row3Word(k - 24);
    }
  }

  lemma Row0Word(k: nat)
    requires k < 8 && k % 2 == 0
    ensures (ROW0[k] * 256 + ROW0[k + 1]) % 65536 == MazeOp(PROGRAM_START + k)
  {
    assert k in {0, 2, 4, 6};
  }

  lemma Row1Word(k: nat)
    requires k < 8 && k % 2 == 0
    ensures (ROW1[k] * 256 + ROW1[k + 1]) % 65536 == MazeOp(PROGRAM_START + 8 + k)
  {
    assert k in {0, 2, 4, 6};
  }

  lemma Row2Word(k: nat)
    requires k < 8 && k % 2 == 0
    ensures (ROW2[k] * 256 + ROW2[k + 1]) % 65536 == MazeOp(PROGRAM_START + 16 + k)
  {
    assert k in {0, 2, 4, 6};
  }

  lemma Row3Word(k: nat)
    requires k < 6 && k % 2 == 0
    ensures (ROW3[k] * 256 + ROW3[k + 1]) % 65536 == MazeOp(PROGRAM_START + 24 + k)
  {
    assert k in {0, 2, 4};
  }

  lemma AndOne(r: nat)
    ensures BitAnd(r, 1) == r % 2
  {
    if r > 0 { assert BitAnd(r / 2, 0) == 0; }
  }

  /** The tile that the cycle draws, if it is the DRW instruction. */
  function Drew(c: Cpu): seq<bool> { if c.pc == 0x20C && |c.V| == 16 then [c.V[2] == 1] else [] }

  /** What one instruction of the program does, DRW apart. */
  function Plain(c: Cpu, rnd: nat): Cpu
    requires Sized(c)
  {
    var d := c.(pc := c.pc + 2);
    match c.pc
    case 0x200 => d.(V := c.V[0 := 0])
    case 0x202 => d.(V := c.V[1 := 0])
    case 0x204 => d.(I := 0x222)
    case 0x206 => d.(V := c.V[2 := rnd % 2])
    case 0x208 => c.(pc := if c.V[2] == 1 then 0x20C else 0x20A)
    case 0x20A => d.(I := 0x21E)
    case 0x20E => d.(V := c.V[0 := (c.V[0] + 4) % 256])
    case 0x210 => c.(pc := if c.V[0] == 64 then 0x214 else 0x212)
    case 0x212 => c.(pc := 0x204)
    case 0x214 => d.(V := c.V[0 := 0])
    case 0x216 => d.(V := c.V[1 := (c.V[1] + 4) % 256])
    case 0x218 => c.(pc := if c.V[1] == 32 then 0x21C else 0x21A)
    case 0x21A => c.(pc := 0x204)
    case _ => c
  }

  lemma ExecuteSet(c: Cpu, rnd: nat)
    requires Sized(c) && c.pc in {0x200, 0x202, 0x204, 0x20A, 0x212, 0x214, 0x21A, 0x21C}
    ensures Execute(c.(pc := (c.pc + 2) % 65536), MazeOp(c.pc), rnd) == Some(Plain(c, rnd))
  {
  }

  lemma ExecuteSkip(c: Cpu, rnd: nat)
    requires Sized(c) && c.pc in {0x208, 0x210, 0x218}
    ensures Execute(c.(pc := (c.pc + 2) % 65536), MazeOp(c.pc), rnd) == Some(Plain(c, rnd))
  {
  }

  lemma ExecuteRandom(c: Cpu, rnd: nat)
    requires Sized(c) && c.pc == 0x206
    ensures Execute(c.(pc := 0x208), 0xC201, rnd) == Some(Plain(c, rnd))
  {
    hide BitAnd;
    AndOne(rnd % 256);
    assert rnd % 256 % 2 == rnd % 2;
  }

  lemma ExecuteAdd(c: Cpu, rnd: nat)
    requires Sized(c) && c.pc in {0x20E, 0x216}
    ensures Execute(c.(pc := (c.pc + 2) % 65536), MazeOp(c.pc), rnd) == Some(Plain(c, rnd))
  {
    hide BitAnd;
  }

  lemma ExecuteDraw(c: Cpu, rnd: nat)
    requires Sized(c) && c.pc == 0x20C
    ensures Execute(c.(pc := (c.pc + 2) % 65536), MazeOp(c.pc), rnd) == Draw(c.(pc := 0x20E), 0, 1, 4)
  {
  }

  lemma CycleIs(c: Cpu, rnd: nat)
    requires Sized(c) && c.memory == MazeMemory() && InCode(c.pc)
    ensures Cycle(c, rnd) == Execute(c.(pc := (c.pc + 2) % 65536), MazeOp(c.pc), rnd)
  {
    FetchAt(c, c.pc - PROGRAM_START);
  }

  lemma ExecutePlain(c: Cpu, rnd: nat)
    requires Sized(c) && InCode(c.pc) && c.pc != 0x20C
    ensures Execute(c.(pc := (c.pc + 2) % 65536), MazeOp(c.pc), rnd) == Some(Plain(c, rnd))
  {
    if c.pc in {0x208, 0x210, 0x218} { ExecuteSkip(c, rnd); }
    else if c.pc == 0x206 { ExecuteRandom(c, rnd); }
    else if c.pc in {0x20E, 0x216} { ExecuteAdd(c, rnd); }
    else { ExecuteSet(c, rnd); }
  }

  lemma TurnIs(c: Cpu, i: Input)
    requires Sized(c) && c.memory == MazeMemory() && InCode(c.pc)
    ensures c.pc != 0x20C ==> Turn(c, i) == Some(Plain(Outside(c, i), i.rnd))
    ensures c.pc == 0x20C ==> Turn(c, i) == Draw(Outside(c, i).(pc := 0x20E), 0, 1, 4)
  {
    CycleIs(Outside(c, i), i.rnd);
    if c.pc == 0x20C { ExecuteDraw(Outside(c, i), i.rnd); } else { ExecutePlain(Outside(c, i), i.rnd); }
  }

  lemma TileKeeps(c: Cpu, ts: seq<bool>, rnd: nat)
    requires At(c, ts) && c.pc < 0x20C
    ensures At(Plain(c, rnd), ts)
  {
    hide Picture, MazeMemory;
  }

  /** The place of the next tile, from that of the last one. */
  lemma NextPlace(n: nat)
    requires n > 0
    ensures (n - 1) % 16 != 15 ==> n % 16 == (n - 1) % 16 + 1 && n / 16 == (n - 1) / 16
    ensures (n - 1) % 16 == 15 ==> n % 16 == 0 && n / 16 == (n - 1) / 16 + 1
  {
  }

  lemma ColumnKeeps(c: Cpu, ts: seq<bool>, rnd: nat)
    requires At(c, ts) && 0x20C < c.pc <= 0x212
    ensures At(Plain(c, rnd), ts)
  {
    hide Picture, MazeMemory;
    assert |ts| > 0 && c.pc in {0x20E, 0x210, 0x212};
    NextPlace(|ts|);
  }

  lemma RowKeeps(c: Cpu, ts: seq<bool>, rnd: nat)
    requires At(c, ts) && 0x212 < c.pc
    ensures At(Plain(c, rnd), ts)
  {
    hide Picture, MazeMemory;
  }

  lemma PlainKeeps(c: Cpu, ts: seq<bool>, rnd: nat)
    requires At(c, ts) && c.pc != 0x20C
    ensures At(Plain(c, rnd), ts)
  {
    if c.pc < 0x20C { TileKeeps(c, ts, rnd); }
    else if c.pc <= 0x212 { ColumnKeeps(c, ts, rnd); }
    else { RowKeeps(c, ts, rnd); }
  }

  lemma OutsideKeeps(c: Cpu, ts: seq<bool>, i: Input)
    requires At(c, ts)
    ensures At(Outside(c, i), ts) && InCode(c.pc)
  {
  }

  lemma TileTurn(c: Cpu, ts: seq<bool>)
    requires At(c, ts) && c.pc == 0x20C
    ensures Draw(c.(pc := 0x20E), 0, 1, 4).Some?
    ensures At(Draw(c.(pc := 0x20E), 0, 1, 4).value, ts + [c.V[2] == 1])
  {
    assert |Picture(ts + [c.V[2] == 1])| == GFX_SIZE;
    hide Picture, MazeMemory, Draw;
    TileDraw(c.(pc := 0x20E), ts, c.V[2] == 1);
  }

  /** One cycle at any instruction. */
  lemma TurnKeeps(c: Cpu, ts: seq<bool>, i: Input)
    requires At(c, ts)
    ensures Turn(c, i).Some? && At(Turn(c, i).value, ts + Drew(c))
  {
    hide Picture, MazeMemory, Turn, Plain, Draw;
    OutsideKeeps(c, ts, i);
    TurnIs(c, i);
    if c.pc == 0x20C {
      hide Outside;
      TileTurn(Outside(c, i), ts);
    } else {
      assert ts + Drew(c) == ts;
      PlainKeeps(Outside(c, i), ts, i.rnd);
    }
  }

  // ---- whole runs -------------------------------------------------------------------------------------

  /** How many cycles are left at most until the final jump. */
  function Rank(pc: nat, n: nat): nat
    requires n <= 128
  {
    (128 - n) * 20 + match pc
      case 0x200 => 10 case 0x202 => 9 case 0x204 => 8 case 0x206 => 7 case 0x208 => 6 case 0x20A => 5 case 0x20C => 4
      case 0x20E => 18 case 0x210 => 17 case 0x214 => 16 case 0x216 => 15 case 0x218 => 14 case 0x21A => 13
      case 0x212 => 12
      case _ => 0
  }

  lemma PlainRanks(c: Cpu, ts: seq<bool>, rnd: nat)
    requires At(c, ts) && c.pc != 0x20C
    ensures c.pc != 0x21C ==> Rank(Plain(c, rnd).pc, |ts|) < Rank(c.pc, |ts|)
    ensures c.pc == 0x21C ==> Plain(c, rnd) == c
  {
  }

  lemma TurnRanks(c: Cpu, ts: seq<bool>, i: Input)
    requires At(c, ts)
    ensures Turn(c, i).Some? && |ts + Drew(c)| <= 128
    ensures c.pc != 0x21C ==> Rank(Turn(c, i).value.pc, |ts + Drew(c)|) < Rank(c.pc, |ts|)
    ensures c.pc == 0x21C ==> Turn(c, i) == Some(Outside(c, i))
  {
    hide Cycle;
    TurnKeeps(c, ts, i);
    TurnIs(c, i);
    OutsideKeeps(c, ts, i);
    if c.pc != 0x20C { PlainRanks(Outside(c, i), ts, i.rnd); assert ts + Drew(c) == ts; }
    else { TileDraw(Outside(c, i).(pc := 0x20E), ts, c.V[2] == 1); }
  }

  /** The state after these cycles; None once the machine would leave its arrays. */
  function After(c: Cpu, run: seq<Input>): Option<Cpu>
    requires Sized(c)
    decreases |run|
  {
    if run == [] then Some(c)
    else
      var d := Turn(c, run[0]);
      if d.None? then None else TurnSized(c, run[0]); After(d.value, run[1..])
  }

  /** The sprites drawn during these cycles, in order, as (Vx, Vy, I). */
  function Draws(c: Cpu, run: seq<Input>): seq<(nat, nat, nat)>
    requires Sized(c)
    decreases |run|
  {
    if run == [] then []
    else
      var d := Turn(c, run[0]);
      (if c.pc == 0x20C then [(c.V[0], c.V[1], c.I)] else [])
      + if d.None? then [] else TurnSized(c, run[0]); Draws(d.value, run[1..])
  }

  /** Tile k of ts as DRW draws it. */
  function TileAt(ts: seq<bool>, k: nat): (nat, nat, nat)
    requires k < |ts|
  {
    (k % 16 * 4, k / 16 * 4, SpriteAt(ts[k]))
  }

  /** Tiles from, from + 1, ... of ts. */
  function Tiles(ts: seq<bool>, from: nat): seq<(nat, nat, nat)>
    decreases |ts| - from
  {
    if from >= |ts| then [] else [TileAt(ts, from)] + Tiles(ts, from + 1)
  }

  lemma {:induction false} AfterKeeps(c: Cpu, ts: seq<bool>, run: seq<Input>) returns (all: seq<bool>)
    requires At(c, ts)
    ensures After(c, run).Some? && At(After(c, run).value, all) && ts <= all
    ensures Draws(c, run) == Tiles(all, |ts|)
    ensures |run| >= Rank(c.pc, |ts|) ==> After(c, run).value.pc == 0x21C
    decreases |run|
  {
    hide Turn;
    if run == [] {
      all := ts;
    } else {
      TurnKeeps(c, ts, run[0]);
      TurnRanks(c, ts, run[0]);
      all := AfterKeeps(Turn(c, run[0]).value, ts + Drew(c), run[1..]);
      DrewPlace(c, ts, all);
    }
  }

  /** What the cycle draws is the next tile. */
  lemma DrewPlace(c: Cpu, ts: seq<bool>, all: seq<bool>)
    requires At(c, ts) && ts + Drew(c) <= all
    ensures ts <= all
    ensures (if c.pc == 0x20C then [(c.V[0], c.V[1], c.I)] else []) + Tiles(all, |ts + Drew(c)|) == Tiles(all, |ts|)
  {
    if c.pc == 0x20C { assert all[|ts|] == (ts + Drew(c))[|ts|]; }
  }

  /** An upper bound on the length of the whole drawing, in cycles. */
  const LAST: nat := 2570

  /**
    Every run of the maze program. At any moment memory is unchanged, VF is 0, the draws so far are the
    tiles 0, 1, 2, ... in order, each with one of the two sprites, and the screen shows exactly them. After
    LAST cycles the machine is in the self-jump at 0x21C and all 128 tiles have been drawn.
   */
  lemma MazeRun(run: seq<Input>) returns (ts: seq<bool>)
    ensures var end := After(Boot(), run);
      && end.Some? && Sized(end.value) && end.value.memory == MazeMemory() && end.value.V[15] == 0
      && end.value.gfx == Picture(ts) && |ts| <= 128 && Draws(Boot(), run) == Tiles(ts, 0)
      && (|run| >= LAST ==> end.value.pc == 0x21C && |ts| == 128)
  {
    hide Turn;
    assert At(Boot(), []);
    ts := AfterKeeps(Boot(), [], run);
  }

  /** And there it stays: a further cycle changes only what the surroundings change. */
  lemma MazeStays(run: seq<Input>, i: Input)
    requires |run| >= LAST
    ensures After(Boot(), run).Some? && Sized(After(Boot(), run).value)
    ensures Turn(After(Boot(), run).value, i) == Some(Outside(After(Boot(), run).value, i))
  {
    hide Turn;
    assert At(Boot(), []);
    var ts := AfterKeeps(Boot(), [], run);
    TurnRanks(After(Boot(), run).value, ts, i);
  }
}
