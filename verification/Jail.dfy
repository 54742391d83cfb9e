/**
  The filter compiler of low-utils/jail.c: capability flags become a classic BPF program, and running that
  program on any system call gives the verdict the flags mean.
 */
module Jail {
  import opened Common

  type uint32 = n: nat | n < 0x1_0000_0000

  const RET_KILL: uint32 := 0x8000_0000
  const RET_ALLOW: uint32 := 0x7fff_0000
  const RET_ERRNO: uint32 := 0x0005_0000
  const EPERM: uint32 := 1
  const OFF_NR: uint32 := 0
  const OFF_ARCH: uint32 := 4
  const CAPACITY: nat := 1024

  // ---- the machine ------------------------------------------------------------------------------------

  /** The instructions used: load a word of the call's data, jump if equal, return. */
  datatype Insn = Load(off: uint32) | JumpEq(k: uint32, jt: nat, jf: nat) | Ret(k: uint32)

  /** struct seccomp_data, as far as it is loaded. */
  datatype Call = Call(nr: uint32, arch: uint32)

  function DataWord(c: Call, off: uint32): uint32
  {
    if off == OFF_NR then c.nr else if off == OFF_ARCH then c.arch else 0
  }

  /** Execution from pc with accumulator a; running off the end has no result. */
  function Run(p: seq<Insn>, pc: nat, a: uint32, c: Call): Option<uint32>
    decreases |p| - pc
  {
    if pc >= |p| then None
    else match p[pc]
      case Load(off) => Run(p, pc + 1, DataWord(c, off), c)
      case JumpEq(k, jt, jf) => Run(p, pc + 1 + (if a == k then jt else jf), a, c)
      case Ret(k) => Some(k)
  }

  /** What the kernel demands of a program: jumps inside it, loads it knows, and a return at the end. */
  predicate Accepted(p: seq<Insn>) {
    && p != [] && p[|p| - 1].Ret?
    && forall i :: 0 <= i < |p| ==>
      && (p[i].JumpEq? ==> i + 1 + p[i].jt < |p| && i + 1 + p[i].jf < |p| && p[i].jt < 256 && p[i].jf < 256)
      && (p[i].Load? ==> p[i].off == OFF_NR || p[i].off == OFF_ARCH)
  }

  // ---- what is meant -------------------------------------------------------------------------------------

  /** The system calls of this platform, by group. */
  datatype Groups = Groups(base: seq<uint32>, write: seq<uint32>, exec: seq<uint32>, net: seq<uint32>,
      ipc: seq<uint32>, sig: seq<uint32>)

  datatype Flags = Flags(net: bool, write: bool, exec: bool, ipc: bool, sig: bool, kill: bool)

  predicate Allowed(g: Groups, f: Flags, nr: uint32) {
    || nr in g.base || (f.write && nr in g.write) || (f.exec && nr in g.exec) || (f.net && nr in g.net)
    || (f.ipc && nr in g.ipc) || (f.sig && nr in g.sig)
  }

  function Deny(f: Flags): uint32 { if f.kill then RET_KILL else RET_ERRNO + EPERM }

  /** The verdict; arch 0 stands for a platform the program does not know, where it is not checked. */
  function Verdict(arch: uint32, g: Groups, f: Flags, c: Call): uint32 {
    if arch != 0 && c.arch != arch then RET_KILL
    else if Allowed(g, f, c.nr) then RET_ALLOW
    else Deny(f)
  }

  // ---- the program emitted ------------------------------------------------------------------------------

  /** ALLOW_SYSCALL, for each of a list. */
  function Rules(nrs: seq<uint32>): (p: seq<Insn>)
    ensures |p| == 2 * |nrs|
    decreases |nrs|
  {
    if nrs == [] then [] else Rules(nrs[..|nrs| - 1]) + [JumpEq(nrs[|nrs| - 1], 0, 1), Ret(RET_ALLOW)]
  }

  function Head(arch: uint32): seq<Insn> {
    (if arch != 0 then [Load(OFF_ARCH), JumpEq(arch, 1, 0), Ret(RET_KILL)] else []) + [Load(OFF_NR)]
  }

  /** All numbers tested, in order. */
  function Listed(g: Groups, f: Flags): seq<uint32> {
    g.base + (if f.write then g.write else []) + (if f.exec then g.exec else []) + (if f.net then g.net else [])
    + (if f.ipc then g.ipc else []) + (if f.sig then g.sig else [])
  }

  function Program(arch: uint32, g: Groups, f: Flags): (p: seq<Insn>)
    ensures |p| == |Head(arch)| + 2 * |Listed(g, f)| + 1
  {
    Head(arch) + Rules(Listed(g, f)) + [Ret(Deny(f))]
  }

  lemma ListedMeans(g: Groups, f: Flags, nr: uint32)
    ensures nr in Listed(g, f) <==> Allowed(g, f, nr)
  {
  }

  lemma {:induction false} RulesJoin(a: seq<uint32>, b: seq<uint32>)
    ensures Rules(a + b) == Rules(a) + Rules(b)
    decreases |b|
  {
    if b == [] {
      assert a + b == a;
    } else {
      assert (a + b)[..|a + b| - 1] == a + b[..|b| - 1];
      RulesJoin(a, b[..|b| - 1]);
    }
  }

  /** The rules allow a listed number, and let any other fall through to what follows them. */
  lemma {:induction false} RunRules(p: seq<Insn>, pc: nat, nrs: seq<uint32>, a: uint32, c: Call)
    requires pc + 2 * |nrs| <= |p| && p[pc..pc + 2 * |nrs|] == Rules(nrs)
    ensures Run(p, pc, a, c) == if a in nrs then Some(RET_ALLOW) else Run(p, pc + 2 * |nrs|, a, c)
    decreases |nrs|
  {
    if nrs == [] {
    } else {
      hide Rules, Run;
      var x, rest := nrs[0], nrs[1..];
      RulesJoin([x], rest);
      assert [x] + rest == nrs;
      RulesOne(x);
      var s := p[pc..pc + 2 * |nrs|];
      assert s[..2] == Rules([x]) && s[2..] == Rules(rest);
      assert p[pc] == s[0] && p[pc + 1] == s[1];
      assert p[pc + 2..pc + 2 + 2 * |rest|] == s[2..];
      RunRules(p, pc + 2, rest, a, c);
      RunRule(p, pc, x, a, c);
    }
  }

  lemma RunRule(p: seq<Insn>, pc: nat, x: uint32, a: uint32, c: Call)
    requires pc + 2 <= |p| && p[pc] == JumpEq(x, 0, 1) && p[pc + 1] == Ret(RET_ALLOW)
    ensures Run(p, pc, a, c) == if a == x then Some(RET_ALLOW) else Run(p, pc + 2, a, c)
  {
  }

  lemma RulesOne(x: uint32)
    ensures Rules([x]) == [JumpEq(x, 0, 1), Ret(RET_ALLOW)]
  {
    assert [x][..0] == [] && Rules([]) == [];
  }

  /** Running the emitted program gives the verdict, on every architecture and number. */
  lemma ProgramCorrect(arch: uint32, g: Groups, f: Flags, c: Call)
    ensures Run(Program(arch, g, f), 0, 0, c) == Some(Verdict(arch, g, f, c))
  {
    var p := Program(arch, g, f);
    var h, n := |Head(arch)|, |Listed(g, f)|;
    assert p[..h] == Head(arch) && p[h..h + 2 * n] == Rules(Listed(g, f)) && p[h + 2 * n] == Ret(Deny(f));
    ListedMeans(g, f, c.nr);
    RunRules(p, h, Listed(g, f), c.nr, c);
    assert p[h - 1] == Load(OFF_NR);
    assert Run(p, h - 1, c.arch, c) == Run(p, h, c.nr, c) && Run(p, h - 1, 0, c) == Run(p, h, c.nr, c);
    if arch != 0 {
      assert p[0] == Load(OFF_ARCH) && p[1] == JumpEq(arch, 1, 0) && p[2] == Ret(RET_KILL);
      assert h == 4 && Run(p, 0, 0, c) == Run(p, 1, c.arch, c);
      assert Run(p, 1, c.arch, c) == if c.arch == arch then Run(p, 3, c.arch, c) else Run(p, 2, c.arch, c);
      assert Run(p, 2, c.arch, c) == Some(RET_KILL);
    }
  }

  /**
    The call is allowed exactly for a matching architecture and a number of the baseline or an enabled group. The
    process is killed for another architecture, or for any other number under `kill`; without it that number fails
    with error 1.
   */
  lemma VerdictIff(arch: uint32, g: Groups, f: Flags, c: Call)
    ensures var r := Run(Program(arch, g, f), 0, 0, c);
      var known := arch == 0 || c.arch == arch;
      var listed := c.nr in g.base || (f.write && c.nr in g.write) || (f.exec && c.nr in g.exec)
        || (f.net && c.nr in g.net) || (f.ipc && c.nr in g.ipc) || (f.sig && c.nr in g.sig);
      && (r == Some(0x7fff_0000) <==> known && listed)
      && (r == Some(0x8000_0000) <==> !known || (!listed && f.kill))
      && (r == Some(0x0005_0001) <==> known && !listed && !f.kill)
  {
    ProgramCorrect(arch, g, f, c);
    hide Run, Program;
  }

  predicate Fewer(f: Flags, e: Flags) {
    (f.net ==> e.net) && (f.write ==> e.write) && (f.exec ==> e.exec) && (f.ipc ==> e.ipc) && (f.sig ==> e.sig)
  }

  /** Enabling more groups never takes an ALLOW away. */
  lemma MoreFlagsAllowMore(arch: uint32, g: Groups, f: Flags, e: Flags, c: Call)
    requires Fewer(f, e) && Run(Program(arch, g, f), 0, 0, c) == Some(RET_ALLOW)
    ensures Run(Program(arch, g, e), 0, 0, c) == Some(RET_ALLOW)
  {
    ProgramCorrect(arch, g, f, c);
    ProgramCorrect(arch, g, e, c);
  }

  lemma {:induction false} RulesShape(nrs: seq<uint32>, i: nat)
    requires i < |nrs|
    ensures Rules(nrs)[2 * i] == JumpEq(nrs[i], 0, 1) && Rules(nrs)[2 * i + 1] == Ret(RET_ALLOW)
    decreases |nrs|
  {
    if i < |nrs| - 1 { RulesShape(nrs[..|nrs| - 1], i); }
  }

  /** And the kernel takes the program: no jump leaves it. */
  lemma ProgramAccepted(arch: uint32, g: Groups, f: Flags)
    ensures Accepted(Program(arch, g, f))
  {
    var p, h, nrs := Program(arch, g, f), |Head(arch)|, Listed(g, f);
    forall i | 0 <= i < |p|
      ensures (p[i].JumpEq? ==> i + 1 + p[i].jt < |p| && i + 1 + p[i].jf < |p| && p[i].jt < 256 && p[i].jf < 256)
      ensures (p[i].Load? ==> p[i].off == OFF_NR || p[i].off == OFF_ARCH)
    {
      if h <= i < h + 2 * |nrs| {
        RulesShape(nrs, (i - h) / 2);
        assert p[i] == Rules(nrs)[i - h];
      }
    }
  }

  // ---- the code ---------------------------------------------------------------------------------------------

  /** filter and pc of setup_seccomp_jail. */
  class Emitter {
    const filter: array<Insn>
    var pc: nat

    constructor ()
      ensures Valid() && Emitted() == [] && fresh(filter)
    {
      filter := new Insn[CAPACITY](_ => Ret(0));
      pc := 0;
    }

    ghost predicate Valid()
      reads this
    {
      filter.Length == CAPACITY && pc <= CAPACITY
    }

    ghost function Emitted(): seq<Insn>
      requires Valid()
      reads this, filter
    {
      filter[..pc]
    }

    method Emit(i: Insn)
      requires Valid() && pc < CAPACITY
      modifies this`pc, filter
      ensures Valid() && Emitted() == old(Emitted()) + [i] && pc == old(pc) + 1
    {
      filter[pc] := i;
      pc := pc + 1;
    }

    /** A run of ALLOW_SYSCALL. */
    method AllowAll(nrs: seq<uint32>)
      requires Valid() && pc + 2 * |nrs| <= CAPACITY
      modifies this`pc, filter
      ensures Valid() && Emitted() == old(Emitted()) + Rules(nrs) && pc == old(pc) + 2 * |nrs|
    {
      var k := 0;
      while k < |nrs|
        invariant k <= |nrs| && Valid() && pc == old(pc) + 2 * k && Emitted() == old(Emitted()) + Rules(nrs[..k])
      {
        Emit(JumpEq(nrs[k], 0, 1));
        Emit(Ret(RET_ALLOW));
        assert nrs[..k + 1][..k] == nrs[..k];
        k := k + 1;
      }
      assert nrs[..k] == nrs;
    }

    /** A group under its flag. */
    method AllowIf(on: bool, nrs: seq<uint32>)
      requires Valid() && pc + |Part(on, nrs)| <= CAPACITY
      modifies this`pc, filter
      ensures Valid() && Emitted() == old(Emitted()) + Part(on, nrs) && pc == old(pc) + |Part(on, nrs)|
    {
      if on { AllowAll(nrs); }
    }

    /** The part of setup_seccomp_jail that builds the filter, given room for it. */
    method Build(arch: uint32, g: Groups, f: Flags)
      requires Valid() && pc == 0 && |Program(arch, g, f)| <= CAPACITY
      modifies this`pc, filter
      ensures Valid() && Emitted() == Program(arch, g, f)
    {
      EmitHead(arch);
      EmitGroups(g, f);
      Emit(Ret(Deny(f)));
    }

    method EmitHead(arch: uint32)
      requires Valid() && pc == 0
      modifies this`pc, filter
      ensures Valid() && Emitted() == Head(arch) && pc == |Head(arch)|
    {
      if arch != 0 {
        Emit(Load(OFF_ARCH));
        Emit(JumpEq(arch, 1, 0));
        Emit(Ret(RET_KILL));
      }
      Emit(Load(OFF_NR));
    }

    /** The calls to ALLOW_SYSCALL, group by group. */
    method EmitGroups(g: Groups, f: Flags)
      requires Valid() && pc + 2 * |Listed(g, f)| <= CAPACITY
      modifies this`pc, filter
      ensures Valid() && Emitted() == old(Emitted()) + Rules(Listed(g, f)) && pc == old(pc) + 2 * |Listed(g, f)|
    {
      ListedRules(g, f);
      hide Rules, Part, Listed;
      ghost var s := Emitted();
      AllowAll(g.base);
      AllowIf(f.write, g.write);
      Assoc(s, Rules(g.base), Part(f.write, g.write));
      AllowIf(f.exec, g.exec);
      Assoc(s, Rules(g.base) + Part(f.write, g.write), Part(f.exec, g.exec));
      AllowIf(f.net, g.net);
      Assoc(s, Rules(g.base) + Part(f.write, g.write) + Part(f.exec, g.exec), Part(f.net, g.net));
      AllowIf(f.ipc, g.ipc);
      Assoc(s, Rules(g.base) + Part(f.write, g.write) + Part(f.exec, g.exec) + Part(f.net, g.net), Part(f.ipc, g.ipc));
      AllowIf(f.sig, g.sig);
      Assoc(s, Rules(g.base) + Part(f.write, g.write) + Part(f.exec, g.exec) + Part(f.net, g.net)
               + Part(f.ipc, g.ipc), Part(f.sig, g.sig));
    }
  }

  lemma Assoc(a: seq<Insn>, b: seq<Insn>, c: seq<Insn>)
    ensures a + b + c == a + (b + c)
  {
  }

  function Part(on: bool, nrs: seq<uint32>): seq<Insn> { if on then Rules(nrs) else [] }

  lemma ListedRules(g: Groups, f: Flags)
    ensures Rules(Listed(g, f))
      == Rules(g.base) + Part(f.write, g.write) + Part(f.exec, g.exec) + Part(f.net, g.net)
         + Part(f.ipc, g.ipc) + Part(f.sig, g.sig)
  {
    var a := g.base;
    RulesJoin(a, if f.write then g.write else []);
    var b := a + if f.write then g.write else [];
    RulesJoin(b, if f.exec then g.exec else []);
    var c := b + if f.exec then g.exec else [];
    RulesJoin(c, if f.net then g.net else []);
    var d := c + if f.net then g.net else [];
    RulesJoin(d, if f.ipc then g.ipc else []);
    var e := d + if f.ipc then g.ipc else [];
    RulesJoin(e, if f.sig then g.sig else []);
  }
}
