/**
  freestanding/kspinlock.c guarding freestanding/kmem.c through kmem_set_locks: any number of threads,
  every interleaving, one source line at a time. A thread spins on the lock, runs the critical section
  of kmalloc, of the second half of kmalloc_aligned or of kfree line by line on the shared memory, and
  unlocks. Meanwhile the owners of live pointers write to their payloads without any lock.
 */
module SpinHeap {
  import opened HeapModel
  import opened HeapRuns
  import opened HeapMemory
  import opened KMem

  datatype Job = Grab(size: nat) | Slide(raw: nat, al: nat, room: nat) | Drop(ptr: nat)

  /** Where a thread is. `reg` is the block pointer the critical section holds in a register. */
  datatype Pc = Idle | Spinning(job: Job) | Inside(job: Job, line: nat, reg: nat)

  const UNLOCK: nat := 20

  /**
    The shared state: the lock word, the memory and the threads. `heap` and `history` are bookkeeping:
    the block list as of the last unlock, and the jobs completed so far in unlock order; `snap` is the
    memory as of the last unlock together with the payload writes since.
   */
  datatype Sys = Sys(lock: bool, mem: Mem, threads: seq<Pc>, heap: Heap, history: seq<Job>, snap: Mem)

  // ---- the jobs as one sequential step ---------------------------------------------------------

  predicate JobOk(h: Heap, j: Job) {
    match j
    case Grab(size) => 0 < size < WORD_MOD && Required(size) != 0
    case Slide(raw, al, room) =>
      Live(h, raw) && PowerOfTwo(al) && room % 8 == 0 && room + al + PTR <= h[Owner(h, raw)].use.room
    case Drop(ptr) => ptr != 0 && Live(h, ptr)
  }

  function Effect(h: Heap, j: Job): Heap
    requires JobOk(h, j)
  {
    match j
    case Grab(size) => Malloc(h, size).0
    case Slide(raw, al, room) => Move(h, raw, RoundUp(raw + PTR, al), room)
    case Drop(ptr) => Kfree(h, ptr)
  }

  /** The pointer a job takes over: no other thread may use it meanwhile. */
  predicate Claims(pc: Pc, p: nat) {
    !pc.Idle? && ((pc.job.Slide? && pc.job.raw == p) || (pc.job.Drop? && pc.job.ptr == p))
  }

  ghost predicate Unclaimed(threads: seq<Pc>, p: nat) { forall t :: 0 <= t < |threads| ==> !Claims(threads[t], p) }

  ghost predicate Replays(h0: Heap, history: seq<Job>, h: Heap)
    decreases |history|
  {
    if history == [] then h == h0
    else
      var k := |history| - 1;
      exists g :: Replays(h0, history[..k], g) && JobOk(g, history[k]) && h == Effect(g, history[k])
  }

  // ---- the code of the critical sections -------------------------------------------------------

  function Entry(j: Job, head: nat): Pc {
    match j
    case Grab(_) => Inside(j, 0, head)
    case Drop(_) => Inside(j, 30, 0)
    case Slide(_, _, _) => Inside(j, 50, 0)
  }

  /** One line of kmalloc between lock and unlock. */
  function GrabLine(req: nat, line: nat, b: nat, m: Mem): (nat, nat, Mem) {
    var n := b + HDR + req;
    if line == 0 then
      if b == 0 then (UNLOCK, 0, m)
      else if Rd(m, b + FREE) != 0 && Rd(m, b) >= req then
        (if Rd(m, b) >= req + HDR + SPARE then 1 else 8, b, m)
      else (0, Rd(m, b + NEXT), m)
    else if line == 1 then (2, b, m[n := if Rd(m, b) >= req + HDR then Rd(m, b) - req - HDR else 0])
    else if line == 2 then (3, b, m[n + FREE := 1])
    else if line == 3 then (4, b, m[n + NEXT := Rd(m, b + NEXT)])
    else if line == 4 then (5, b, m[n + PREV := b])
    else if line == 5 then (6, b, if Rd(m, b + NEXT) != 0 then m[Rd(m, b + NEXT) + PREV := n] else m)
    else if line == 6 then (7, b, m[b + NEXT := n])
    else if line == 7 then (8, b, m[b := req])
    else if line == 8 then (9, b, m[b + FREE := 0])
    else (UNLOCK, b, m[b + HDR := b])
  }

  /** One line of kfree between lock and unlock. */
  function DropLine(ptr: nat, line: nat, b: nat, m: Mem): (nat, nat, Mem)
    requires ptr >= PTR
  {
    var next := Rd(m, b + NEXT);
    var prev := Rd(m, b + PREV);
    if line == 30 then (if Rd(m, ptr - PTR) == 0 then UNLOCK else 31, Rd(m, ptr - PTR), m)
    else if line == 31 then (32, b, m[b + FREE := 1])
    else if line == 32 then (if next != 0 && Rd(m, next + FREE) != 0 then 33 else 36, b, m)
    else if line == 33 then (34, b, m[b := Rd(m, b) + HDR + Rd(m, next)])
    else if line == 34 then (35, b, m[b + NEXT := Rd(m, next + NEXT)])
    else if line == 35 then (36, b, if next != 0 then m[next + PREV := b] else m)
    else if line == 36 then (if prev != 0 && Rd(m, prev + FREE) != 0 then 37 else UNLOCK, b, m)
    else if line == 37 then (38, b, m[prev := Rd(m, prev) + HDR + Rd(m, b)])
    else if line == 38 then (39, b, m[prev + NEXT := next])
    else (UNLOCK, b, if next != 0 then m[next + PREV := prev] else m)
  }

  /** Where the back pointer of a payload address lives. */
  function Below(p: nat): nat { if p >= PTR then p - PTR else 0 }

  /** One line of the second locked section of kmalloc_aligned. */
  function SlideLine(raw: nat, al: nat, line: nat, b: nat, m: Mem): (nat, nat, Mem)
    requires raw >= PTR && al > 0
  {
    if line == 50 then (51, Rd(m, raw - PTR), m)
    else (UNLOCK, b, m[Below(RoundUp(raw + PTR, al)) := b])
  }

  predicate CanStep(pc: Pc) {
    pc.Inside? && pc.line != UNLOCK
    && (pc.job.Drop? ==> pc.job.ptr >= PTR) && (pc.job.Slide? ==> pc.job.raw >= PTR && pc.job.al > 0)
  }

  function CodeStep(pc: Pc, m: Mem): (Pc, Mem)
    requires CanStep(pc)
  {
    var r := match pc.job
      case Grab(size) => GrabLine(Required(size), pc.line, pc.reg, m)
      case Drop(ptr) => DropLine(ptr, pc.line, pc.reg, m)
      case Slide(raw, al, _) => SlideLine(raw, al, pc.line, pc.reg, m);
    (Inside(pc.job, r.0, r.1), r.2)
  }

  // ---- the transition system ---------------------------------------------------------------------

  datatype Action =
    | Begin(job: Job)          // a thread calls into the allocator
    | TestAndSet               // one round of kspinlock_lock, or a kspinlock_trylock
    | GiveUp                   // kspinlock_trylock found the lock taken
    | Line                     // one line of a critical section
    | Unlock                   // kspinlock_unlock
    | Payload(a: nat, v: nat)  // an owner writes a word of a live payload

  ghost predicate Next(s: Sys, t: nat, act: Action, s': Sys, head: nat)
  {
    t < |s.threads| &&
    var pc := s.threads[t];
    match act
    case Begin(job) =>
      && pc.Idle? && JobOk(s.heap, job)
      && (forall u, p :: 0 <= u < |s.threads| && Claims(s.threads[u], p) ==> !Claims(Spinning(job), p))
      && s' == s.(threads := s.threads[t := Spinning(job)])
    case TestAndSet =>
      && pc.Spinning?
      && s' == if s.lock then s else s.(lock := true, threads := s.threads[t := Entry(pc.job, head)])
    case GiveUp => pc.Spinning? && s.lock && s' == s.(threads := s.threads[t := Idle])
    case Line =>
      && CanStep(pc)
      && s' == s.(threads := s.threads[t := CodeStep(pc, s.mem).0], mem := CodeStep(pc, s.mem).1)
    case Unlock =>
      && pc.Inside? && pc.line == UNLOCK && JobOk(s.heap, pc.job)
      && s' == Sys(false, s.mem, s.threads[t := Idle], Effect(s.heap, pc.job), s.history + [pc.job], s.mem)
    case Payload(a, v) =>
      && (exists j :: 0 <= j < |s.heap| && InPayload(s.heap[j], a) && Unclaimed(s.threads, s.heap[j].use.ptr))
      && a % 8 == 0
      && s' == s.(mem := s.mem[a := v], snap := s.snap[a := v])
  }

  // ---- what holds at each line of a critical section -------------------------------------------

  function B2N(b: bool): nat { if b then 1 else 0 }

  /** How many stores of kmalloc are done before a line; d tells whether the block has a successor. */
  function GrabDone(line: nat, splits: bool, d: nat): nat
    requires 1 <= line <= 9
  {
    if line <= 5 then line - 1 else if splits || line < 8 then line - 2 + d else line - 8
  }

  /** kmalloc holds: the memory is the snapshot plus the stores of the lines passed. */
  ghost predicate GrabOk(h: Heap, req: nat, snap: Mem, line: nat, b: nat, m: Mem) {
    var i := FirstFit(h, req);
    if line == 0 then m == snap && exists k :: 0 <= k <= i && b == (if k < |h| then h[k].addr else 0)
    else if line == UNLOCK then m == if i == |h| then snap else Apply(snap, TakeStores(h, i, req))
    else
      && line <= 9 && i < |h| && b == h[i].addr && (line <= 7 ==> Splits(h[i], req))
      && GrabDone(line, Splits(h[i], req), B2N(i + 1 < |h|)) <= |TakeStores(h, i, req)|
      && m == Apply(snap, TakeStores(h, i, req)[..GrabDone(line, Splits(h[i], req), B2N(i + 1 < |h|))])
  }

  /** The memory once block i is marked free, after the forward merge, and at the end of kfree. */
  function Freed1(h: Heap, i: nat, snap: Mem): Mem
    requires i < |h|
  {
    Apply(snap, [Store(h[i].addr + FREE, 1)])
  }

  function Freed2(h: Heap, i: nat, snap: Mem): Mem
    requires i < |h|
  {
    Apply(Freed1(h, i, snap), ForwardStores(h, i))
  }

  function Freed3(h: Heap, i: nat, snap: Mem): Mem
    requires i < |h|
  {
    Apply(Freed2(h, i, snap), BackwardStores(h, i))
  }

  predicate MergesNext(h: Heap, i: nat) { i + 1 < |h| && h[i + 1].use.Free? }

  predicate MergesPrev(h: Heap, i: nat)
    requires i < |h|
  {
    0 < i < |FreedForward(h, i)| && FreedForward(h, i)[i - 1].use.Free?
  }

  /** The memory when n stores of the merge of block i + 1 into block i are done. */
  function Merging(h: Heap, i: nat, m: Mem, n: nat): Mem
    requires i + 1 < |h| && n <= 2
  {
    Apply(m, AbsorbStores(h, i)[..n])
  }

  ghost predicate DropOk(h: Heap, i: nat, snap: Mem, line: nat, b: nat, m: Mem)
    requires i < |h|
  {
    && (line == UNLOCK || 30 <= line <= 39)
    && (line > 30 ==> b == h[i].addr)
    && (if line == UNLOCK then m == Freed3(h, i, snap)
        else if line <= 31 then m == snap
        else if line == 32 then m == Freed1(h, i, snap)
        else if line <= 35 then MergesNext(h, i) && m == Merging(MarkedFree(h, i), i, Freed1(h, i, snap), line - 33)
        else if line == 36 then m == Freed2(h, i, snap)
        else MergesPrev(h, i) && m == Merging(FreedForward(h, i), i - 1, Freed2(h, i, snap), line - 37))
  }

  ghost predicate SlideOk(b0: nat, q: nat, snap: Mem, line: nat, b: nat, m: Mem) {
    if line == UNLOCK then m == snap[q := b0]
    else m == snap && (line == 50 || (line == 51 && b == b0))
  }

  ghost predicate HolderOk(h: Heap, snap: Mem, pc: Pc, m: Mem) {
    && pc.Inside? && JobOk(h, pc.job)
    && match pc.job
       case Grab(size) => GrabOk(h, Required(size), snap, pc.line, pc.reg, m)
       case Drop(ptr) => DropOk(h, Owner(h, ptr), snap, pc.line, pc.reg, m)
       case Slide(raw, al, _) =>
         SlideOk(h[Owner(h, raw)].addr, Below(RoundUp(raw + PTR, al)), snap, pc.line, pc.reg, m)
  }

  lemma OneMore(m: Mem, s: seq<Store>, n: nat)
    requires n < |s|
    ensures Apply(m, s[..n + 1]) == Apply(m, s[..n])[s[n].at := s[n].val]
  {
    assert s[..n + 1] == s[..n] + [s[n]];
    ApplyOne(m, s[..n], s[n]);
  }

  lemma AllDone(m: Mem, s: seq<Store>)
    ensures Apply(m, s[..|s|]) == Apply(m, s) && Apply(m, s[..0]) == m
  {
    assert s[..|s|] == s;
  }

  // ---- kmalloc line by line ------------------------------------------------------------------------

  lemma ScanStep(h: Heap, lo: nat, hi: nat, snap: Mem, req: nat, b: nat)
    requires Shape(h, lo, hi) && Rep(snap, h) && GrabOk(h, req, snap, 0, b, snap)
    ensures var (l', b', m') := GrabLine(req, 0, b, snap); GrabOk(h, req, snap, l', b', m')
  {
    var i := FirstFit(h, req);
    var k :| 0 <= k <= i && b == (if k < |h| then h[k].addr else 0);
    if k < |h| { LinksShape(snap, h, lo, hi, k); }
    if k == i && i < |h| {
      AllDone(snap, TakeStores(h, i, req));
      hide Apply, TakeStores, FirstFit, Shape, Rep;
      ScanFound(h, snap, req, i);
    } else if k < i {
      ScanOn(h, k, i, req);
      hide Apply, TakeStores, FirstFit, Shape, Rep;
    }
  }

  lemma ScanFound(h: Heap, snap: Mem, req: nat, i: nat)
    requires i == FirstFit(h, req) < |h| && Linked(snap, h, i) && Apply(snap, TakeStores(h, i, req)[..0]) == snap
    ensures var (l', b', m') := GrabLine(req, 0, h[i].addr, snap); GrabOk(h, req, snap, l', b', m')
  {
    hide Apply;
  }

  lemma ScanOn(h: Heap, k: nat, i: nat, req: nat)
    requires i == FirstFit(h, req) && k < i
    ensures !Fits(h[k], req) && NextOf(h, k) == if k + 1 < |h| then h[k + 1].addr else 0
  {
  }

  lemma SplitPlan(h: Heap, i: nat, req: nat)
    requires i < |h| && Splits(h[i], req)
    ensures var s := TakeStores(h, i, req);
      var b := h[i].addr;
      var n := b + HDR + req;
      var d := B2N(i + 1 < |h|);
      && |s| == 8 + d
      && s[0] == Store(n, h[i].size - req - HDR) && s[1] == Store(n + FREE, 1)
      && s[2] == Store(n + NEXT, NextOf(h, i)) && s[3] == Store(n + PREV, b)
      && (d == 1 ==> s[4] == Store(h[i + 1].addr + PREV, n))
      && s[4 + d] == Store(b + NEXT, n) && s[5 + d] == Store(b, req)
      && s[6 + d] == Store(b + FREE, 0) && s[7 + d] == Store(b + HDR, b)
  {
  }

  /** Until the new header is complete, the old block's own header reads as before. */
  lemma SplitEarly(h: Heap, snap: Mem, i: nat, req: nat, n: nat)
    requires i < |h| && Splits(h[i], req) && n <= 4
    ensures var m := Apply(snap, TakeStores(h, i, req)[..n]);
      && Rd(m, h[i].addr) == Rd(snap, h[i].addr) && Rd(m, h[i].addr + NEXT) == Rd(snap, h[i].addr + NEXT)
  {
    SplitPlan(h, i, req);
    var s := TakeStores(h, i, req)[..n];
    assert forall k :: 0 <= k < n ==> s[k].at >= h[i].addr + HDR;
    ReadMiss(snap, s, h[i].addr);
    ReadMiss(snap, s, h[i].addr + NEXT);
  }

  /** The store that lines 1 to 4 of kmalloc make, given what they read. */
  lemma SplitLine(req: nat, line: nat, b: nat, m: Mem, h: Heap, i: nat)
    requires 1 <= line <= 4 && i < |h| && Splits(h[i], req) && b == h[i].addr
    requires Rd(m, b) == h[i].size && Rd(m, b + NEXT) == NextOf(h, i)
    ensures var s := TakeStores(h, i, req);
      |s| >= 8 && GrabLine(req, line, b, m) == (line + 1, b, m[s[line - 1].at := s[line - 1].val])
  {
    SplitPlan(h, i, req);
  }

  lemma SplitStepEarly(h: Heap, snap: Mem, req: nat, line: nat, b: nat, m: Mem)
    requires Rep(snap, h) && 1 <= line <= 4 && GrabOk(h, req, snap, line, b, m)
    ensures var (l', b', m') := GrabLine(req, line, b, m); GrabOk(h, req, snap, l', b', m')
  {
    var i := FirstFit(h, req);
    assert Header(snap, h, i);
    SplitEarly(h, snap, i, req, line - 1);
    SplitLine(req, line, b, m, h, i);
    OneMore(snap, TakeStores(h, i, req), line - 1);
  }

  lemma SplitStepRelink(h: Heap, lo: nat, hi: nat, snap: Mem, req: nat, b: nat, m: Mem)
    requires Shape(h, lo, hi) && Rep(snap, h) && GrabOk(h, req, snap, 5, b, m)
    ensures var (l', b', m') := GrabLine(req, 5, b, m); GrabOk(h, req, snap, l', b', m')
  {
    var i := FirstFit(h, req);
    Links(snap, h, lo, hi, i);
    SplitEarly(h, snap, i, req, 4);
    SplitPlan(h, i, req);
    OneMore(snap, TakeStores(h, i, req), 4);
  }

  lemma SplitStepLate(h: Heap, snap: Mem, req: nat, line: nat, b: nat, m: Mem)
    requires 6 <= line <= 7 && GrabOk(h, req, snap, line, b, m)
    ensures var (l', b', m') := GrabLine(req, line, b, m); GrabOk(h, req, snap, l', b', m')
  {
    var i := FirstFit(h, req);
    SplitPlan(h, i, req);
    hide TakeStores, Apply, FirstFit;
    OneMore(snap, TakeStores(h, i, req), line - 2 + B2N(i + 1 < |h|));
  }

  lemma GrantPlan(h: Heap, i: nat, req: nat)
    requires i < |h|
    ensures var s := TakeStores(h, i, req);
      |s| >= 2 && s[|s| - 2] == Store(h[i].addr + FREE, 0) && s[|s| - 1] == Store(h[i].addr + HDR, h[i].addr)
    ensures |TakeStores(h, i, req)| == if Splits(h[i], req) then 8 + B2N(i + 1 < |h|) else 2
  {
    assert GrantStores(h[i])[0] == Store(h[i].addr + FREE, 0);
  }

  lemma GrantStep(h: Heap, snap: Mem, req: nat, b: nat, m: Mem)
    requires GrabOk(h, req, snap, 8, b, m)
    ensures var (l', b', m') := GrabLine(req, 8, b, m); GrabOk(h, req, snap, l', b', m')
  {
    var i := FirstFit(h, req);
    GrantPlan(h, i, req);
    OneMore(snap, TakeStores(h, i, req), |TakeStores(h, i, req)| - 2);
  }

  lemma GrantLast(h: Heap, snap: Mem, req: nat, b: nat, m: Mem)
    requires GrabOk(h, req, snap, 9, b, m)
    ensures var (l', b', m') := GrabLine(req, 9, b, m); GrabOk(h, req, snap, l', b', m')
  {
    var i := FirstFit(h, req);
    var s := TakeStores(h, i, req);
    GrantPlan(h, i, req);
    OneMore(snap, s, |s| - 1);
    AllDone(snap, s);
  }

  lemma GrabSteps(h: Heap, lo: nat, hi: nat, snap: Mem, req: nat, line: nat, b: nat, m: Mem)
    requires Shape(h, lo, hi) && Rep(snap, h) && line != UNLOCK && GrabOk(h, req, snap, line, b, m)
    ensures var (l', b', m') := GrabLine(req, line, b, m); GrabOk(h, req, snap, l', b', m')
  {
    if line == 0 { ScanStep(h, lo, hi, snap, req, b); }
    else if line <= 4 { SplitStepEarly(h, snap, req, line, b, m); }
    else if line == 5 { SplitStepRelink(h, lo, hi, snap, req, b, m); }
    else if line <= 7 { SplitStepLate(h, snap, req, line, b, m); }
    else if line == 8 { GrantStep(h, snap, req, b, m); }
    else { GrantLast(h, snap, req, b, m); }
  }

  // ---- kfree line by line ----------------------------------------------------------------------------

  lemma FreeStages(h: Heap, lo: nat, hi: nat, snap: Mem, i: nat)
    requires Shape(h, lo, hi) && Rep(snap, h) && i < |h|
    ensures Rep(Freed1(h, i, snap), MarkedFree(h, i)) && Tiles(MarkedFree(h, i), lo, hi)
    ensures Rep(Freed2(h, i, snap), FreedForward(h, i))
    ensures Freed3(h, i, snap) == Apply(snap, FreeStores(h, i))
  {
    MarkFree(h, lo, hi, i);
    MarkFreeRep(snap, h, lo, hi, i);
    ForwardRep(Freed1(h, i, snap), h, lo, hi, i);
    var s0 := [Store(h[i].addr + FREE, 1)];
    ApplyAppend(snap, s0, ForwardStores(h, i));
    ApplyAppend(snap, s0 + ForwardStores(h, i), BackwardStores(h, i));
  }

  lemma DropFirst(h: Heap, lo: nat, hi: nat, snap: Mem, i: nat, line: nat, b: nat, m: Mem)
    requires Shape(h, lo, hi) && Rep(snap, h) && i < |h| && h[i].use.Used? && h[i].use.ptr >= PTR && 30 <= line <= 31
    requires DropOk(h, i, snap, line, b, m)
    ensures var (l', b', m') := DropLine(h[i].use.ptr, line, b, m); DropOk(h, i, snap, l', b', m')
  {
    BackPointer(snap, h, lo, hi, i);
    ApplyOne(snap, [], Store(h[i].addr + FREE, 1));
  }

  lemma TestForwardLine(h: Heap, snap: Mem, i: nat, ptr: nat, b: nat)
    requires i < |h| && ptr >= PTR && b == h[i].addr
    requires var next := Rd(Freed1(h, i, snap), b + NEXT);
      (next != 0 && Rd(Freed1(h, i, snap), next + FREE) != 0) <==> MergesNext(h, i)
    requires !MergesNext(h, i) ==> ForwardStores(h, i) == []
    ensures var (l', b', m') := DropLine(ptr, 32, b, Freed1(h, i, snap)); DropOk(h, i, snap, l', b', m')
  {
    if MergesNext(h, i) { AllDone(Freed1(h, i, snap), AbsorbStores(MarkedFree(h, i), i)); }
  }

  lemma TestForward(h: Heap, lo: nat, hi: nat, snap: Mem, i: nat, ptr: nat, b: nat)
    requires Shape(h, lo, hi) && Rep(snap, h) && i < |h| && ptr >= PTR && b == h[i].addr
    ensures var (l', b', m') := DropLine(ptr, 32, b, Freed1(h, i, snap)); DropOk(h, i, snap, l', b', m')
  {
    FreeStages(h, lo, hi, snap, i);
    ForwardPlan(Freed1(h, i, snap), h, lo, hi, i);
    TestForwardLine(h, snap, i, ptr, b);
  }

  /** Reads that the half-done merge of block i + 1 into block i still answers as before it. */
  lemma HalfAbsorbed(m: Mem, h: Heap, i: nat, n: nat)
    requires i + 1 < |h| && Linked(m, h, i) && Linked(m, h, i + 1) && n <= 2
    ensures var m' := Merging(h, i, m, n);
      && Rd(m', h[i + 1].addr + NEXT) == NextOf(h, i + 1) && Rd(m', h[i + 1].addr + PREV) == h[i].addr
      && Rd(m', h[i + 1].addr) == h[i + 1].size && (n == 0 ==> Rd(m', h[i].addr) == h[i].size)
      && Rd(m', h[i].addr + NEXT) == (if n < 2 then h[i + 1].addr else NextOf(h, i + 1))
  {
    var s := AbsorbStores(h, i);
    assert s[..n] == if n == 0 then [] else if n == 1 then [s[0]] else [s[0], s[1]];
    ReadMiss(m, s[..n], h[i + 1].addr);
    ReadMiss(m, s[..n], h[i + 1].addr + NEXT);
    ReadMiss(m, s[..n], h[i + 1].addr + PREV);
    if n < 2 { ReadMiss(m, s[..n], h[i].addr + NEXT); } else { ReadHit(m, s[..n], 1); }
  }

  /** Store n of the merge; the third one is made only when there is a block behind. */
  lemma MergeStore(m: Mem, h: Heap, i: nat, n: nat)
    requires i + 1 < |h| && n <= 2
    ensures n < 2 ==>
      Merging(h, i, m, n + 1) == Merging(h, i, m, n)[AbsorbStores(h, i)[n].at := AbsorbStores(h, i)[n].val]
    ensures n == 2 && i + 2 < |h| ==>
      Apply(m, AbsorbStores(h, i)) == Merging(h, i, m, 2)[h[i + 2].addr + PREV := h[i].addr]
    ensures n == 2 && i + 2 == |h| ==> Apply(m, AbsorbStores(h, i)) == Merging(h, i, m, 2)
  {
    var s := AbsorbStores(h, i);
    if n < |s| { OneMore(m, s, n); }
    AllDone(m, s);
  }

  /** Lines 33 to 35 of kfree make the stores of the merge of block i + 1 into block i. */
  lemma MergeNextLines(ptr: nat, line: nat, h: Heap, i: nat, m1: Mem, m: Mem)
    requires ptr >= PTR && i + 1 < |h| && 33 <= line <= 35 && m == Merging(h, i, m1, line - 33)
    requires Linked(m1, h, i) && Linked(m1, h, i + 1) && (NextOf(h, i + 1) != 0 <==> i + 2 < |h|)
    ensures var (l', b', m') := DropLine(ptr, line, h[i].addr, m);
      && l' == line + 1 && b' == h[i].addr
      && m' == if line < 35 then Merging(h, i, m1, line - 32) else Apply(m1, AbsorbStores(h, i))
  {
    HalfAbsorbed(m1, h, i, line - 33);
    MergeStore(m1, h, i, line - 33);
  }

  lemma ForwardStep(h: Heap, lo: nat, hi: nat, snap: Mem, i: nat, ptr: nat, line: nat, b: nat, m: Mem)
    requires Shape(h, lo, hi) && Rep(snap, h) && i < |h| && ptr >= PTR && 33 <= line <= 35
    requires DropOk(h, i, snap, line, b, m)
    ensures var (l', b', m') := DropLine(ptr, line, b, m); DropOk(h, i, snap, l', b', m')
  {
    FreeStages(h, lo, hi, snap, i);
    ForwardPlan(Freed1(h, i, snap), h, lo, hi, i);
    AfterMerge(MarkedFree(h, i), lo, hi, i);
    MergeNextLines(ptr, line, MarkedFree(h, i), i, Freed1(h, i, snap), m);
  }

  lemma AfterMerge(h: Heap, lo: nat, hi: nat, i: nat)
    requires Tiles(h, lo, hi) && lo > 0 && i + 1 < |h|
    ensures NextOf(h, i + 1) != 0 <==> i + 2 < |h|
    ensures i + 2 < |h| ==> NextOf(h, i + 1) == h[i + 2].addr
  {
    if i + 2 < |h| { HeapModel.Inside(h, lo, hi, i + 2); }
  }

  lemma TestBackward(h: Heap, lo: nat, hi: nat, snap: Mem, i: nat, ptr: nat, b: nat)
    requires Shape(h, lo, hi) && Rep(snap, h) && i < |h| && ptr >= PTR && b == h[i].addr
    ensures var (l', b', m') := DropLine(ptr, 36, b, Freed2(h, i, snap)); DropOk(h, i, snap, l', b', m')
  {
    hide Shape, Tiles, Rep, Coalesced, FreedForward, Linked, Freed1, Freed2, Freed3, Merging, MergesPrev;
    FreeStages(h, lo, hi, snap, i);
    BackwardPlan(Freed2(h, i, snap), h, lo, hi, i);
    BackwardStart(h, i, snap);
  }

  /** Either the backward merge begins, with none of its stores done, or there is nothing left to store. */
  lemma BackwardStart(h: Heap, i: nat, snap: Mem)
    requires i < |h| && i < |FreedForward(h, i)|
    ensures MergesPrev(h, i) <==> i > 0 && FreedForward(h, i)[i - 1].use.Free?
    ensures MergesPrev(h, i) ==> Merging(FreedForward(h, i), i - 1, Freed2(h, i, snap), 0) == Freed2(h, i, snap)
    ensures !MergesPrev(h, i) ==> Freed3(h, i, snap) == Freed2(h, i, snap)
  {
    hide FreedForward, Freed2;
    if MergesPrev(h, i) { AllDone(Freed2(h, i, snap), AbsorbStores(FreedForward(h, i), i - 1)); }
  }

  /** Lines 37 to 39 of kfree make the stores of the merge of block j + 1 into block j. */
  lemma MergePrevLines(ptr: nat, line: nat, h: Heap, j: nat, m2: Mem, m: Mem)
    requires ptr >= PTR && j + 1 < |h| && 37 <= line <= 39 && m == Merging(h, j, m2, line - 37)
    requires Linked(m2, h, j) && Linked(m2, h, j + 1) && (NextOf(h, j + 1) != 0 <==> j + 2 < |h|)
    ensures var (l', b', m') := DropLine(ptr, line, h[j + 1].addr, m);
      && l' == (if line < 39 then line + 1 else UNLOCK) && b' == h[j + 1].addr
      && m' == if line < 39 then Merging(h, j, m2, line - 36) else Apply(m2, AbsorbStores(h, j))
  {
    HalfAbsorbed(m2, h, j, line - 37);
    MergeStore(m2, h, j, line - 37);
  }

  lemma BackwardStep(h: Heap, lo: nat, hi: nat, snap: Mem, i: nat, ptr: nat, line: nat, b: nat, m: Mem)
    requires Shape(h, lo, hi) && Rep(snap, h) && i < |h| && ptr >= PTR && 37 <= line <= 39
    requires DropOk(h, i, snap, line, b, m)
    ensures var (l', b', m') := DropLine(ptr, line, b, m); DropOk(h, i, snap, l', b', m')
  {
    assert lo > 0;
    hide *;
    BackwardAt(h, snap, i, line, b, m);
    FreeStages(h, lo, hi, snap, i);
    BackwardPlan(Freed2(h, i, snap), h, lo, hi, i);
    FreedForwardTiles(h, lo, hi, i);
    AfterMerge(FreedForward(h, i), lo, hi, i - 1);
    MergePrevLines(ptr, line, FreedForward(h, i), i - 1, Freed2(h, i, snap), m);
    var (l', b', m') := DropLine(ptr, line, b, m);
    BackwardNext(h, snap, i, line, l', b', m');
  }

  /** What DropOk says in the middle of the merge with the predecessor. */
  lemma BackwardAt(h: Heap, snap: Mem, i: nat, line: nat, b: nat, m: Mem)
    requires i < |h| && 37 <= line <= 39 && DropOk(h, i, snap, line, b, m)
    ensures MergesPrev(h, i) && 0 < i < |FreedForward(h, i)| && b == h[i].addr
    ensures m == Merging(FreedForward(h, i), i - 1, Freed2(h, i, snap), line - 37)
  {
  }

  lemma BackwardNext(h: Heap, snap: Mem, i: nat, line: nat, l': nat, b': nat, m': Mem)
    requires i < |h| && 37 <= line <= 39 && MergesPrev(h, i) && 0 < i < |FreedForward(h, i)| && b' == h[i].addr
    requires l' == if line < 39 then line + 1 else UNLOCK
    requires m' == if line < 39 then Merging(FreedForward(h, i), i - 1, Freed2(h, i, snap), line - 36)
      else Apply(Freed2(h, i, snap), AbsorbStores(FreedForward(h, i), i - 1))
    ensures DropOk(h, i, snap, l', b', m')
  {
    hide FreedForward, Freed1, Freed2, Apply, AbsorbStores;
  }

  lemma DropSteps(h: Heap, lo: nat, hi: nat, snap: Mem, i: nat, line: nat, b: nat, m: Mem)
    requires Shape(h, lo, hi) && Rep(snap, h) && i < |h| && h[i].use.Used? && h[i].use.ptr >= PTR
    requires line != UNLOCK && DropOk(h, i, snap, line, b, m)
    ensures var (l', b', m') := DropLine(h[i].use.ptr, line, b, m); DropOk(h, i, snap, l', b', m')
  {
    var ptr := h[i].use.ptr;
    if line <= 31 { DropFirst(h, lo, hi, snap, i, line, b, m); }
    else if line == 32 { TestForward(h, lo, hi, snap, i, ptr, b); }
    else if line <= 35 { ForwardStep(h, lo, hi, snap, i, ptr, line, b, m); }
    else if line == 36 { TestBackward(h, lo, hi, snap, i, ptr, b); }
    else { BackwardStep(h, lo, hi, snap, i, ptr, line, b, m); }
  }

  // ---- any line ----------------------------------------------------------------------------------------

  /** Whatever line the holder is at, one more line keeps it on its plan. */
  lemma HolderSteps(h: Heap, lo: nat, hi: nat, snap: Mem, pc: Pc, m: Mem)
    requires Shape(h, lo, hi) && Rep(snap, h) && CanStep(pc) && HolderOk(h, snap, pc, m)
    ensures HolderOk(h, snap, CodeStep(pc, m).0, CodeStep(pc, m).1)
  {
    match pc.job
    case Grab(size) => GrabSteps(h, lo, hi, snap, Required(size), pc.line, pc.reg, m);
    case Drop(ptr) => DropSteps(h, lo, hi, snap, Owner(h, ptr), pc.line, pc.reg, m);
    case Slide(raw, _, _) => BackPointer(snap, h, lo, hi, Owner(h, raw));
  }

  // ---- the invariant of the whole system -------------------------------------------------------------

  /** Pending jobs are still possible, and no two threads have claimed the same pointer. */
  ghost predicate ClaimsOk(h: Heap, threads: seq<Pc>) {
    && (forall t :: 0 <= t < |threads| && !threads[t].Idle? ==> JobOk(h, threads[t].job))
    && (forall t, u, p :: 0 <= t < u < |threads| && Claims(threads[t], p) ==> !Claims(threads[u], p))
  }

  ghost predicate Inv(s: Sys, lo: nat, hi: nat) {
    && Shape(s.heap, lo, hi) && Rep(s.snap, s.heap) && ClaimsOk(s.heap, s.threads)
    && Replays(Fresh(lo, hi), s.history, s.heap)
    && (!s.lock ==> s.mem == s.snap && forall t :: 0 <= t < |s.threads| ==> !s.threads[t].Inside?)
    && (s.lock ==> exists t :: 0 <= t < |s.threads| && Holds(s, t))
  }

  /** Thread t is in its critical section, on plan, and nobody else is in one. */
  ghost predicate Holds(s: Sys, t: nat)
    requires t < |s.threads|
  {
    && HolderOk(s.heap, s.snap, s.threads[t], s.mem)
    && forall u :: 0 <= u < |s.threads| && u != t ==> !s.threads[u].Inside?
  }

  lemma InitInv(lo: nat, hi: nat, m: Mem, n: nat)
    requires GoodRegion(lo, hi) && Rep(m, Fresh(lo, hi))
    ensures Inv(Sys(false, m, seq(n, _ => Idle), Fresh(lo, hi), [], m), lo, hi)
  {
  }

  // What a completed job leaves behind.

  lemma GrabFinished(h: Heap, lo: nat, hi: nat, snap: Mem, size: nat, b: nat, m: Mem)
    requires Shape(h, lo, hi) && Rep(snap, h) && JobOk(h, Grab(size)) && GrabOk(h, Required(size), snap, UNLOCK, b, m)
    ensures Shape(Malloc(h, size).0, lo, hi) && Rep(m, Malloc(h, size).0)
  {
    var i := FirstFit(h, Required(size));
    RequestArithmetic(size);
    if i < |h| { TakeCorrect(snap, h, lo, hi, i, Required(size)); }
  }

  lemma DropFinished(h: Heap, lo: nat, hi: nat, snap: Mem, ptr: nat, b: nat, m: Mem)
    requires Shape(h, lo, hi) && Rep(snap, h) && ptr != 0 && Live(h, ptr)
    requires DropOk(h, Owner(h, ptr), snap, UNLOCK, b, m)
    ensures Shape(Kfree(h, ptr), lo, hi) && Rep(m, Kfree(h, ptr))
  {
    FreeStages(h, lo, hi, snap, Owner(h, ptr));
    FreeCorrect(snap, h, lo, hi, Owner(h, ptr));
  }

  lemma FinishedRep(h: Heap, lo: nat, hi: nat, snap: Mem, pc: Pc, m: Mem)
    requires Shape(h, lo, hi) && Rep(snap, h) && HolderOk(h, snap, pc, m) && pc.line == UNLOCK
    ensures Shape(Effect(h, pc.job), lo, hi) && Rep(m, Effect(h, pc.job))
  {
    hide Shape, Rep, Malloc, Kfree, Move, GrabOk, DropOk, RoundUp, LiveUses;
    match pc.job
    case Grab(size) => GrabFinished(h, lo, hi, snap, size, pc.reg, m);
    case Drop(ptr) => DropFinished(h, lo, hi, snap, ptr, pc.reg, m);
    case Slide(raw, al, room) => SlideCorrect(snap, h, lo, hi, raw, al, room);
  }

  /** The set of live pointers after a job: it loses what the job claimed and gains what the job made. */
  lemma EffectShape(h: Heap, lo: nat, hi: nat, j: Job)
    requires Shape(h, lo, hi) && JobOk(h, j)
    ensures Shape(Effect(h, j), lo, hi)
    ensures LiveUses(Effect(h, j)) >= LiveUses(h) - if j.Grab? then {} else {h[Owner(h, Claimed(j))].use}
  {
    hide Shape, LiveUses, Malloc, Kfree, Move, RoundUp, PowerOfTwo, Live, Required;
    match j
    case Grab(size) => MallocCorrect(h, lo, hi, size);
    case Drop(ptr) => KfreeCorrect(h, lo, hi, ptr);
    case Slide(raw, al, room) => MoveCorrect(h, lo, hi, raw, al, room);
  }

  function Claimed(j: Job): nat
    requires !j.Grab?
  {
    if j.Slide? then j.raw else j.ptr
  }

  lemma LiveByUse(h: Heap, lo: nat, hi: nat, u: Use)
    requires Tiles(h, lo, hi) && u in LiveUses(h)
    ensures Live(h, u.ptr) && h[Owner(h, u.ptr)].use == u
  {
    var b :| b in h && b.use.Used? && b.use == u;
    var i :| 0 <= i < |h| && h[i] == b;
    OwnerIs(h, lo, hi, i);
  }

  lemma OtherUse(h: Heap, p: nat, q: nat)
    requires Live(h, p) && Live(h, q) && p != q
    ensures h[Owner(h, p)].use != h[Owner(h, q)].use
  {
  }

  lemma JobStaysOk(h: Heap, lo: nat, hi: nat, done: Job, j: Job)
    requires Shape(h, lo, hi) && JobOk(h, done) && JobOk(h, j)
    requires !j.Grab? && !done.Grab? ==> Claimed(j) != Claimed(done)
    ensures JobOk(Effect(h, done), j)
  {
    if !j.Grab? {
      ClaimLives(h, lo, hi, done, j);
      hide Shape, Effect, LiveUses, Live;
      LiveByUse(Effect(h, done), lo, hi, h[Owner(h, Claimed(j))].use);
    }
  }

  /** The pointer that j claims stays live, with all its room. */
  lemma ClaimLives(h: Heap, lo: nat, hi: nat, done: Job, j: Job)
    requires Shape(h, lo, hi) && JobOk(h, done) && JobOk(h, j) && !j.Grab?
    requires !done.Grab? ==> Claimed(j) != Claimed(done)
    ensures Live(h, Claimed(j)) && h[Owner(h, Claimed(j))].use in LiveUses(Effect(h, done))
    ensures Tiles(Effect(h, done), lo, hi)
  {
    hide Shape, Effect, LiveUses, JobOk, Tiles;
    ClaimIs(h, j);
    EffectShape(h, lo, hi, done);
    ShapeTiles(Effect(h, done), lo, hi);
    if !done.Grab? {
      ClaimIs(h, done);
      OtherUse(h, Claimed(j), Claimed(done));
    }
  }

  lemma ClaimIs(h: Heap, j: Job)
    requires JobOk(h, j) && !j.Grab?
    ensures Live(h, Claimed(j)) && h[Owner(h, Claimed(j))].use in LiveUses(h)
  {
    assert h[Owner(h, Claimed(j))] in h;
  }

  lemma ShapeTiles(h: Heap, lo: nat, hi: nat)
    requires Shape(h, lo, hi)
    ensures Tiles(h, lo, hi)
  {
  }

  lemma ClaimsApart(s: Sys, t: nat, u: nat)
    requires ClaimsOk(s.heap, s.threads) && t < |s.threads| && u < |s.threads| && t != u
    requires !s.threads[t].Idle? && !s.threads[u].Idle?
    ensures !s.threads[t].job.Grab? && !s.threads[u].job.Grab? ==>
      Claimed(s.threads[t].job) != Claimed(s.threads[u].job)
  {
    if !s.threads[t].job.Grab? && !s.threads[u].job.Grab? {
      assert Claims(s.threads[t], Claimed(s.threads[t].job)) && Claims(s.threads[u], Claimed(s.threads[u].job));
    }
  }

  lemma ClaimsAfterUnlock(s: Sys, t: nat, lo: nat, hi: nat)
    requires Shape(s.heap, lo, hi) && ClaimsOk(s.heap, s.threads) && t < |s.threads| && !s.threads[t].Idle?
    ensures JobOk(s.heap, s.threads[t].job)
    ensures ClaimsOk(Effect(s.heap, s.threads[t].job), s.threads[t := Idle])
  {
    var job := s.threads[t].job;
    var threads' := s.threads[t := Idle];
    forall u | 0 <= u < |threads'| && !threads'[u].Idle? ensures JobOk(Effect(s.heap, job), threads'[u].job) {
      assert threads'[u] == s.threads[u];
      ClaimsApart(s, t, u);
      JobStaysOk(s.heap, lo, hi, job, s.threads[u].job);
    }
    assert forall u, p :: 0 <= u < |threads'| && Claims(threads'[u], p) ==> Claims(s.threads[u], p);
  }

  lemma {:induction false} ReplaysMore(h0: Heap, history: seq<Job>, h: Heap, j: Job)
    requires Replays(h0, history, h) && JobOk(h, j)
    ensures Replays(h0, history + [j], Effect(h, j))
  {
    assert (history + [j])[..|history|] == history;
  }

  // One step of each kind.

  lemma BeginInv(s: Sys, t: nat, job: Job, s': Sys, lo: nat, hi: nat, head: nat)
    requires Inv(s, lo, hi) && Next(s, t, Begin(job), s', head)
    ensures Inv(s', lo, hi)
  {
    if s.lock { var k :| 0 <= k < |s.threads| && Holds(s, k); assert Holds(s', k); }
  }

  lemma TestAndSetInv(s: Sys, t: nat, s': Sys, lo: nat, hi: nat)
    requires Inv(s, lo, hi) && Next(s, t, TestAndSet, s', lo)
    ensures Inv(s', lo, hi)
  {
    if !s.lock {
      var pc := s'.threads[t];
      EntryOk(s.heap, lo, hi, s.snap, s.threads[t].job);
      assert Holds(s', t);
      assert forall u, p :: 0 <= u < |s.threads| && Claims(s'.threads[u], p) ==> Claims(s.threads[u], p);
    }
  }

  lemma EntryOk(h: Heap, lo: nat, hi: nat, snap: Mem, j: Job)
    requires Shape(h, lo, hi) && JobOk(h, j)
    ensures HolderOk(h, snap, Entry(j, lo), snap)
  {
    if j.Grab? { assert 0 <= 0 <= FirstFit(h, Required(j.size)) && lo == h[0].addr; }
  }

  lemma GiveUpInv(s: Sys, t: nat, s': Sys, lo: nat, hi: nat, head: nat)
    requires Inv(s, lo, hi) && Next(s, t, GiveUp, s', head)
    ensures Inv(s', lo, hi)
  {
    var k :| 0 <= k < |s.threads| && Holds(s, k);
    assert k != t;
    assert Holds(s', k);
  }

  lemma LineInv(s: Sys, t: nat, s': Sys, lo: nat, hi: nat, head: nat)
    requires Inv(s, lo, hi) && Next(s, t, Line, s', head)
    ensures Inv(s', lo, hi)
  {
    HolderIs(s, t, lo, hi);
    HolderSteps(s.heap, lo, hi, s.snap, s.threads[t], s.mem);
    hide HolderOk, Shape, Rep, Replays, CodeStep, JobOk;
    assert Holds(s', t);
    assert forall u, p :: 0 <= u < |s.threads| ==> (Claims(s'.threads[u], p) <==> Claims(s.threads[u], p));
  }

  lemma UnlockInv(s: Sys, t: nat, s': Sys, lo: nat, hi: nat, head: nat)
    requires Inv(s, lo, hi) && Next(s, t, Unlock, s', head)
    ensures Inv(s', lo, hi)
  {
    HolderIs(s, t, lo, hi);
    FinishedRep(s.heap, lo, hi, s.snap, s.threads[t], s.mem);
    ReplaysMore(Fresh(lo, hi), s.history, s.heap, s.threads[t].job);
    ClaimsAfterUnlock(s, t, lo, hi);
  }

  lemma HolderIs(s: Sys, t: nat, lo: nat, hi: nat)
    requires Inv(s, lo, hi) && t < |s.threads| && s.threads[t].Inside?
    ensures s.lock && Holds(s, t)
  {
    var k :| 0 <= k < |s.threads| && Holds(s, k);
  }

  lemma PayloadInv(s: Sys, t: nat, a: nat, v: nat, s': Sys, lo: nat, hi: nat, head: nat)
    requires Inv(s, lo, hi) && Next(s, t, Payload(a, v), s', head)
    ensures Inv(s', lo, hi)
  {
    var j :| 0 <= j < |s.heap| && InPayload(s.heap[j], a) && Unclaimed(s.threads, s.heap[j].use.ptr);
    PayloadWriteRep(s.snap, s.heap, lo, hi, j, a, v);
    if s.lock {
      var k :| 0 <= k < |s.threads| && Holds(s, k);
      HolderUnmoved(s.heap, lo, hi, s.snap, s.threads[k], s.mem, j, a, v);
      assert Holds(s', k);
    }
  }

  lemma {:induction false} ApplyCommutes(m: Mem, s: seq<Store>, a: nat, v: nat)
    requires forall k :: 0 <= k < |s| ==> s[k].at != a
    ensures Apply(m, s)[a := v] == Apply(m[a := v], s)
    decreases |s|
  {
    if s == [] {
    } else {
      ApplyCommutes(m, s[..|s| - 1], a, v);
    }
  }

  lemma GrabUnmoved(h: Heap, lo: nat, hi: nat, snap: Mem, req: nat, line: nat, b: nat, m: Mem, j: nat, a: nat, v: nat)
    requires Shape(h, lo, hi) && j < |h| && InPayload(h[j], a) && GrabOk(h, req, snap, line, b, m)
    ensures GrabOk(h, req, snap[a := v], line, b, m[a := v])
  {
    var i := FirstFit(h, req);
    if i < |h| {
      var s := TakeStores(h, i, req);
      TakeAvoids(h, lo, hi, i, req, j);
      PayloadMissed(s, h, lo, hi, j, a);
      ApplyCommutes(snap, s, a, v);
      if 1 <= line <= 9 {
        var n := GrabDone(line, Splits(h[i], req), B2N(i + 1 < |h|));
        ApplyCommutes(snap, s[..n], a, v);
      }
    }
  }

  lemma FreeStoresMissed(h: Heap, lo: nat, hi: nat, i: nat, j: nat, a: nat)
    requires Shape(h, lo, hi) && i < |h| && j < |h| && InPayload(h[j], a)
    ensures h[i].addr + FREE != a
    ensures forall k :: 0 <= k < |ForwardStores(h, i)| ==> ForwardStores(h, i)[k].at != a
    ensures forall k :: 0 <= k < |BackwardStores(h, i)| ==> BackwardStores(h, i)[k].at != a
  {
    var first, fwd, bwd := [Store(h[i].addr + FREE, 1)], ForwardStores(h, i), BackwardStores(h, i);
    assert Tiles(h, lo, hi) && FreeStores(h, i) == first + fwd + bwd;
    FreeStoresAvoid(h, i, j);
    hide *;
    PayloadMissed(FreeStores(h, i), h, lo, hi, j, a);
    PartsMissed(first, fwd, bwd, a);
    assert first[0].at == h[i].addr + FREE;
  }

  lemma FreeStoresAvoid(h: Heap, i: nat, j: nat)
    requires i < |h| && j < |h|
    ensures forall k :: 0 <= k < |FreeStores(h, i)| ==> Avoids(h, j, FreeStores(h, i)[k].at)
  {
    hide FreeStores;
    FreeStoresRange(h, i);
  }

  lemma PartsMissed(x: seq<Store>, y: seq<Store>, z: seq<Store>, a: nat)
    requires forall k :: 0 <= k < |x + y + z| ==> (x + y + z)[k].at != a
    ensures forall k :: 0 <= k < |x| ==> x[k].at != a
    ensures forall k :: 0 <= k < |y| ==> y[k].at != a
    ensures forall k :: 0 <= k < |z| ==> z[k].at != a
  {
    forall k | 0 <= k < |x| ensures x[k].at != a { assert (x + y + z)[k] == x[k]; }
    forall k | 0 <= k < |y| ensures y[k].at != a { assert (x + y + z)[|x| + k] == y[k]; }
    forall k | 0 <= k < |z| ensures z[k].at != a { assert (x + y + z)[|x| + |y| + k] == z[k]; }
  }

  lemma DropUnmoved(h: Heap, lo: nat, hi: nat, snap: Mem, i: nat, line: nat, b: nat, m: Mem, j: nat, a: nat, v: nat)
    requires Shape(h, lo, hi) && i < |h| && j < |h| && InPayload(h[j], a) && DropOk(h, i, snap, line, b, m)
    ensures DropOk(h, i, snap[a := v], line, b, m[a := v])
  {
    FreeStoresMissed(h, lo, hi, i, j, a);
    ApplyCommutes(snap, [Store(h[i].addr + FREE, 1)], a, v);
    ApplyCommutes(Freed1(h, i, snap), ForwardStores(h, i), a, v);
    ApplyCommutes(Freed2(h, i, snap), BackwardStores(h, i), a, v);
    if 33 <= line <= 35 {
      ApplyCommutes(Freed1(h, i, snap), AbsorbStores(MarkedFree(h, i), i)[..line - 33], a, v);
    } else if 37 <= line <= 39 {
      ApplyCommutes(Freed2(h, i, snap), AbsorbStores(FreedForward(h, i), i - 1)[..line - 37], a, v);
    }
  }

  lemma SlideUnmoved(h: Heap, lo: nat, hi: nat, snap: Mem, raw: nat, al: nat, room: nat, j: nat, a: nat)
    requires Shape(h, lo, hi) && Rep(snap, h) && JobOk(h, Slide(raw, al, room))
    requires j < |h| && InPayload(h[j], a) && h[j].use.ptr != raw
    ensures Below(RoundUp(raw + PTR, al)) != a
  {
    SlideCorrect(snap, h, lo, hi, raw, al, room);
    Apart(h, lo, hi, Owner(h, raw), j);
  }

  lemma HolderUnmoved(h: Heap, lo: nat, hi: nat, snap: Mem, pc: Pc, m: Mem, j: nat, a: nat, v: nat)
    requires Shape(h, lo, hi) && Rep(snap, h) && HolderOk(h, snap, pc, m) && j < |h| && InPayload(h[j], a)
    requires !Claims(pc, h[j].use.ptr)
    ensures HolderOk(h, snap[a := v], pc, m[a := v])
  {
    match pc.job
    case Grab(size) => GrabUnmoved(h, lo, hi, snap, Required(size), pc.line, pc.reg, m, j, a, v);
    case Drop(ptr) => DropUnmoved(h, lo, hi, snap, Owner(h, ptr), pc.line, pc.reg, m, j, a, v);
    case Slide(raw, al, room) => SlideUnmoved(h, lo, hi, snap, raw, al, room, j, a);
  }

  // ---- the theorems --------------------------------------------------------------------------------------

  ghost predicate Step(s: Sys, s': Sys, head: nat) { exists t, act :: Next(s, t, act, s', head) }

  lemma StepInv(s: Sys, s': Sys, lo: nat, hi: nat)
    requires Inv(s, lo, hi) && Step(s, s', lo)
    ensures Inv(s', lo, hi)
  {
    var t, act :| Next(s, t, act, s', lo);
    match act
    case Begin(job) => BeginInv(s, t, job, s', lo, hi, lo);
    case TestAndSet => TestAndSetInv(s, t, s', lo, hi);
    case GiveUp => GiveUpInv(s, t, s', lo, hi, lo);
    case Line => LineInv(s, t, s', lo, hi, lo);
    case Unlock => UnlockInv(s, t, s', lo, hi, lo);
    case Payload(a, v) => PayloadInv(s, t, a, v, s', lo, hi, lo);
  }

  /** A finite run: kmem_init has built the first heap, all threads are idle, and then any interleaving. */
  ghost predicate Behaviour(run: seq<Sys>, lo: nat, hi: nat, n: nat) {
    && |run| > 0 && GoodRegion(lo, hi)
    && (exists m :: Rep(m, Fresh(lo, hi)) && run[0] == Sys(false, m, seq(n, _ => Idle), Fresh(lo, hi), [], m))
    && forall i, j :: 0 <= i < j < |run| && j == i + 1 ==> Step(run[i], run[j], lo)
  }

  lemma {:induction false} BehaviourInv(run: seq<Sys>, lo: nat, hi: nat, n: nat, k: nat)
    requires Behaviour(run, lo, hi, n) && k < |run|
    ensures Inv(run[k], lo, hi)
    decreases k
  {
    if k == 0 {
      var m :| Rep(m, Fresh(lo, hi)) && run[0] == Sys(false, m, seq(n, _ => Idle), Fresh(lo, hi), [], m);
      InitInv(lo, hi, m, n);
    } else {
      BehaviourInv(run, lo, hi, n, k - 1);
      StepInv(run[k - 1], run[k], lo, hi);
    }
  }

  /** At every moment of every run at most one thread is between lock and unlock. */
  lemma MutualExclusion(run: seq<Sys>, lo: nat, hi: nat, n: nat, k: nat, t: nat, u: nat)
    requires Behaviour(run, lo, hi, n) && k < |run| && t < |run[k].threads| && u < |run[k].threads|
    requires run[k].threads[t].Inside? && run[k].threads[u].Inside?
    ensures t == u && run[k].lock
  {
    BehaviourInv(run, lo, hi, n, k);
    HolderIs(run[k], t, lo, hi);
  }

  /**
    Whenever the lock is clear, memory holds a well-shaped heap, and it is the heap that the completed
    jobs give when they run one after the other in the order in which they unlocked.
   */
  lemma ClearMeansShaped(run: seq<Sys>, lo: nat, hi: nat, n: nat, k: nat)
    requires Behaviour(run, lo, hi, n) && k < |run| && !run[k].lock
    ensures exists h :: Shape(h, lo, hi) && Rep(run[k].mem, h) && Replays(Fresh(lo, hi), run[k].history, h)
  {
    BehaviourInv(run, lo, hi, n, k);
  }

  /** While a thread holds the lock it is never stuck: it can run its next line or unlock. */
  lemma HolderCanMove(run: seq<Sys>, lo: nat, hi: nat, n: nat, k: nat)
    requires Behaviour(run, lo, hi, n) && k < |run| && run[k].lock
    ensures exists t, act, s' :: (act == Line || act == Unlock) && Next(run[k], t, act, s', lo)
  {
    BehaviourInv(run, lo, hi, n, k);
    HolderStep(run[k], lo, hi);
  }

  lemma HolderStep(s: Sys, lo: nat, hi: nat)
    requires Inv(s, lo, hi) && s.lock
    ensures exists t, act, s' :: (act == Line || act == Unlock) && Next(s, t, act, s', lo)
  {
    var t :| 0 <= t < |s.threads| && Holds(s, t);
    var pc := s.threads[t];
    HolderReady(s.heap, lo, hi, s.snap, pc, s.mem);
    hide *;
    ReadyActs(s, t, lo);
  }

  lemma ReadyActs(s: Sys, t: nat, head: nat)
    requires t < |s.threads| && s.threads[t].Inside? && JobOk(s.heap, s.threads[t].job)
    requires s.threads[t].line != UNLOCK ==> CanStep(s.threads[t])
    ensures exists u, act, s' :: (act == Line || act == Unlock) && Next(s, u, act, s', head)
  {
    hide Effect, CodeStep, CanStep, JobOk;
    var pc := s.threads[t];
    if pc.line == UNLOCK {
      assert Next(s, t, Unlock,
        Sys(false, s.mem, s.threads[t := Idle], Effect(s.heap, pc.job), s.history + [pc.job], s.mem), head);
    } else {
      assert Next(s, t, Line, s.(threads := s.threads[t := CodeStep(pc, s.mem).0], mem := CodeStep(pc, s.mem).1), head);
    }
  }

  lemma HolderReady(h: Heap, lo: nat, hi: nat, snap: Mem, pc: Pc, m: Mem)
    requires Shape(h, lo, hi) && Rep(snap, h) && HolderOk(h, snap, pc, m)
    ensures pc.Inside? && JobOk(h, pc.job) && (pc.line != UNLOCK ==> CanStep(pc))
  {
    if !pc.job.Grab? { BackPointer(snap, h, lo, hi, Owner(h, Claimed(pc.job))); }
  }
}
