/**
  How long a thread holds the lock of freestanding/kmem.c: a count of the lines it has still to run, which every
  one of its own lines brings down and nothing else changes.
 */
module SpinProgress {
  import opened HeapModel
  import opened HeapMemory
  import opened SpinHeap

  /** Which block starts at b, or the number of blocks. */
  function BlockAt(h: Heap, b: nat): (k: nat)
    ensures k <= |h|
    ensures k < |h| ==> h[k].addr == b
    ensures forall j :: 0 <= j < k ==> h[j].addr != b
  {
    if h == [] then 0 else if h[0].addr == b then 0 else 1 + BlockAt(h[1..], b)
  }

  /** The most lines a thread inside its critical section can still run: 0 exactly when it is about to unlock. */
  function LinesLeft(h: Heap, pc: Pc): (n: nat)
    requires pc.Inside?
  {
    if pc.line == UNLOCK then 0
    else match pc.job
      case Grab(_) => if pc.line == 0 then 10 + (|h| - BlockAt(h, pc.reg)) else if pc.line < 10 then 10 - pc.line else 1
      case Drop(_) => if 30 <= pc.line < 40 then 40 - pc.line else 1
      case Slide(_, _, _) => if pc.line == 50 then 2 else 1
  }

  lemma LeftNone(h: Heap, pc: Pc)
    requires pc.Inside?
    ensures LinesLeft(h, pc) == 0 <==> pc.line == UNLOCK
    ensures LinesLeft(h, pc) <= |h| + 10
  {
  }

  lemma BlockAtIs(h: Heap, lo: nat, hi: nat, k: nat)
    requires Shape(h, lo, hi) && k <= |h|
    ensures BlockAt(h, if k < |h| then h[k].addr else 0) == k
  {
    var b := if k < |h| then h[k].addr else 0;
    var i := BlockAt(h, b);
    if i < |h| {
      HeapModel.Inside(h, lo, hi, i);
      if i < k && k < |h| { Ordered(h, lo, hi, i, k); }
    }
  }

  lemma ScanShrinks(h: Heap, lo: nat, hi: nat, snap: Mem, req: nat, b: nat)
    requires Shape(h, lo, hi) && Rep(snap, h) && GrabOk(h, req, snap, 0, b, snap) && b != 0
    ensures var next := Rd(snap, b + NEXT); BlockAt(h, next) > BlockAt(h, b)
  {
    var i := FirstFit(h, req);
    var k :| 0 <= k <= i && b == (if k < |h| then h[k].addr else 0);
    assert Header(snap, h, k);
    BlockAtIs(h, lo, hi, k);
    BlockAtIs(h, lo, hi, k + 1);
  }

  lemma GrabShrinks(h: Heap, lo: nat, hi: nat, snap: Mem, size: nat, line: nat, b: nat, m: Mem)
    requires Shape(h, lo, hi) && Rep(snap, h) && line != UNLOCK && GrabOk(h, Required(size), snap, line, b, m)
    ensures var (l', b', m') := GrabLine(Required(size), line, b, m);
      LinesLeft(h, Pc.Inside(Grab(size), l', b')) < LinesLeft(h, Pc.Inside(Grab(size), line, b))
  {
    hide Shape, Rep, TakeStores, FirstFit, BlockAt, Apply, Required;
    if line == 0 && b != 0 { ScanShrinks(h, lo, hi, snap, Required(size), b); }
    hide GrabOk;
  }

  lemma DropShrinks(h: Heap, i: nat, snap: Mem, ptr: nat, line: nat, b: nat, m: Mem)
    requires i < |h| && ptr >= PTR && line != UNLOCK && DropOk(h, i, snap, line, b, m)
    ensures var (l', b', m') := DropLine(ptr, line, b, m);
      LinesLeft(h, Pc.Inside(Drop(ptr), l', b')) < LinesLeft(h, Pc.Inside(Drop(ptr), line, b))
  {
    hide Freed1, Freed2, Freed3, Merging, MergesNext, MergesPrev, Rd;
  }

  /** Each line a holder runs leaves fewer. */
  lemma LineShrinks(h: Heap, lo: nat, hi: nat, snap: Mem, pc: Pc, m: Mem)
    requires Shape(h, lo, hi) && Rep(snap, h) && HolderOk(h, snap, pc, m) && CanStep(pc)
    ensures LinesLeft(h, CodeStep(pc, m).0) < LinesLeft(h, pc)
  {
    hide Shape, Rep, JobOk, GrabOk, DropOk, GrabLine, DropLine, Apply;
    match pc.job
    case Grab(size) => GrabShrinks(h, lo, hi, snap, size, pc.line, pc.reg, m);
    case Drop(ptr) => DropShrinks(h, Owner(h, ptr), snap, ptr, pc.line, pc.reg, m);
    case Slide(raw, al, _) =>
  }

  lemma HolderLine(s: Sys, u: nat, s': Sys, lo: nat, hi: nat, t: nat)
    requires SpinHeap.Inv(s, lo, hi) && Next(s, u, Line, s', lo) && t < |s.threads| && s.threads[t].Inside?
    ensures s'.heap == s.heap && |s'.threads| == |s.threads| && s'.threads[t].Inside?
    ensures LinesLeft(s.heap, s'.threads[t]) < LinesLeft(s.heap, s.threads[t])
  {
    HolderIs(s, t, lo, hi);
    assert u == t;
    var pc := s.threads[t];
    hide CodeStep, LinesLeft, Claims;
    LineShrinks(s.heap, lo, hi, s.snap, pc, s.mem);
    StaysInside(pc, s.mem);
  }

  lemma StaysInside(pc: Pc, m: Mem)
    requires CanStep(pc)
    ensures CodeStep(pc, m).0.Inside?
  {
  }

  lemma OtherStep(s: Sys, u: nat, act: Action, s': Sys, lo: nat, t: nat)
    requires t < |s.threads| && Holds(s, t) && s.threads[t].Inside? && s.lock
    requires Next(s, u, act, s', lo) && !act.Line? && t < |s'.threads| && s'.threads[t].Inside?
    ensures s'.heap == s.heap && s'.threads[t] == s.threads[t]
  {
    hide HolderOk, Effect, Entry, Claims, JobOk, InPayload;
  }

  /** A step of the system leaves the lines of a holder alone, or is one of them. */
  lemma StepShrinks(s: Sys, s': Sys, lo: nat, hi: nat, t: nat)
    requires SpinHeap.Inv(s, lo, hi) && Step(s, s', lo)
    requires t < |s.threads| && t < |s'.threads| && s.threads[t].Inside? && s'.threads[t].Inside?
    ensures s'.heap == s.heap
    ensures s'.threads[t] == s.threads[t] || LinesLeft(s.heap, s'.threads[t]) < LinesLeft(s.heap, s.threads[t])
  {
    var u, act :| Next(s, u, act, s', lo);
    hide *;
    if act.Line? {
      HolderLine(s, u, s', lo, hi, t);
    } else {
      HolderIs(s, t, lo, hi);
      OtherStep(s, u, act, s', lo, t);
    }
  }

  /** Thread t is inside its critical section from moment a to moment b. */
  predicate Holding(run: seq<Sys>, t: nat, a: nat, b: nat) {
    a <= b < |run| && forall j :: a <= j <= b ==> t < |run[j].threads| && run[j].threads[t].Inside?
  }

  /** The lines thread t runs between the two moments. */
  function LinesRun(run: seq<Sys>, t: nat, a: nat, b: nat): nat
    requires Holding(run, t, a, b)
    decreases b
  {
    if a == b then 0
    else LinesRun(run, t, a, b - 1) + if run[b].threads[t] != run[b - 1].threads[t] then 1 else 0
  }

  lemma LinesRunIs(run: seq<Sys>, t: nat, a: nat, b: nat)
    requires Holding(run, t, a, b)
    ensures a <= b < |run|
    ensures t < |run[a].threads| && run[a].threads[t].Inside? && t < |run[b].threads| && run[b].threads[t].Inside?
    ensures a == b ==> LinesRun(run, t, a, b) == 0
    ensures a < b ==> Holding(run, t, a, b - 1) && t < |run[b - 1].threads| && run[b - 1].threads[t].Inside?
    ensures a < b ==>
      var now := if run[b].threads[t] != run[b - 1].threads[t] then 1 else 0;
      LinesRun(run, t, a, b) == LinesRun(run, t, a, b - 1) + now
  {
  }

  /** Lines run and lines left never add up to more than was left at the start, whatever the others do. */
  lemma {:induction false} LinesBounded(run: seq<Sys>, lo: nat, hi: nat, n: nat, t: nat, a: nat, b: nat)
    requires Behaviour(run, lo, hi, n) && Holding(run, t, a, b)
    ensures run[b].heap == run[a].heap
    ensures LinesRun(run, t, a, b) + LinesLeft(run[b].heap, run[b].threads[t])
         <= LinesLeft(run[a].heap, run[a].threads[t])
    decreases b
  {
    hide *;
    LinesRunIs(run, t, a, b);
    if a < b {
      LinesBounded(run, lo, hi, n, t, a, b - 1);
      BehaviourInv(run, lo, hi, n, b - 1);
      NextStep(run, lo, hi, n, b);
      StepShrinks(run[b - 1], run[b], lo, hi, t);
    }
  }

  lemma NextStep(run: seq<Sys>, lo: nat, hi: nat, n: nat, b: nat)
    requires Behaviour(run, lo, hi, n) && 0 < b < |run|
    ensures Step(run[b - 1], run[b], lo)
  {
  }

  lemma {:induction false} BlocksBound(h: Heap, lo: nat, hi: nat, k: nat)
    requires Tiles(h, lo, hi) && k < |h|
    ensures lo + (HDR + PTR) * (k + 1) <= h[k].End()
    decreases k
  {
    assert GoodBlock(h[k]);
    if k == 0 {
    } else {
      BlocksBound(h, lo, hi, k - 1);
      Ordered(h, lo, hi, k - 1, k);
    }
  }

  lemma InvBlocks(s: Sys, lo: nat, hi: nat)
    requires SpinHeap.Inv(s, lo, hi)
    ensures lo <= hi && |s.heap| <= (hi - lo) / (HDR + PTR)
  {
    hide Rep, ClaimsOk, Replays, Holds;
    assert Tiles(s.heap, lo, hi);
    BlocksBound(s.heap, lo, hi, |s.heap| - 1);
  }

  /**
    A thread holds the lock for a bounded number of its own lines: one per block of the heap and ten more, so
    that only the size of the region counts. With none left it is about to unlock.
   */
  lemma HoldsBriefly(run: seq<Sys>, lo: nat, hi: nat, n: nat, t: nat, a: nat, b: nat)
    requires Behaviour(run, lo, hi, n) && Holding(run, t, a, b)
    ensures LinesRun(run, t, a, b) <= |run[a].heap| + 10 <= (hi - lo) / (HDR + PTR) + 10
    ensures LinesRun(run, t, a, b) == LinesLeft(run[a].heap, run[a].threads[t]) ==> run[b].threads[t].line == UNLOCK
  {
    hide *;
    LinesRunIs(run, t, a, b);
    LinesBounded(run, lo, hi, n, t, a, b);
    BehaviourInv(run, lo, hi, n, a);
    LeftNone(run[a].heap, run[a].threads[t]);
    LeftNone(run[b].heap, run[b].threads[t]);
    InvBlocks(run[a], lo, hi);
  }
}
