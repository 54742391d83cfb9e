/**
  The node table of freestanding/kvfs.c with the heap buffers it owns: what every operation keeps, and which
  file each path holds.
 */
module VfsTable {
  import opened Common
  import opened VfsPath

  const MAX_NODES: nat := 64
  const TYPE_FILE: byte := 0

  /** A data pointer: null, memory of the caller, or a buffer from kmalloc. */
  datatype Data = Null | Given(bytes: seq<byte>) | Buffer(addr: nat)

  /** kvfs_node_t. */
  datatype Node = Node(path: string, data: Data, size: nat, typ: byte, mode: nat, used: bool, dynamic: bool)

  const BLANK: Node := Node("", Null, 0, 0, 0, false, false)

  /** Buffers handed out by kmalloc and not yet freed, with their bytes. */
  type Buffers = map<nat, seq<byte>>

  /** vfs_table and vfs_node_count, and the buffers. */
  datatype Vfs = Vfs(nodes: seq<Node>, count: nat, heap: Buffers)

  /** The first used node of that path, or the number of nodes. */
  function Find(nodes: seq<Node>, p: string): (i: nat)
    ensures i <= |nodes| && (i < |nodes| ==> nodes[i].used && nodes[i].path == p)
    ensures forall j :: 0 <= j < i ==> !(nodes[j].used && nodes[j].path == p)
  {
    if nodes == [] then 0 else if nodes[0].used && nodes[0].path == p then 0 else 1 + Find(nodes[1..], p)
  }

  function FirstFree(nodes: seq<Node>): (i: nat)
    ensures i <= |nodes| && (i < |nodes| ==> !nodes[i].used)
    ensures forall j :: 0 <= j < i ==> nodes[j].used
  {
    if nodes == [] then 0 else if !nodes[0].used then 0 else 1 + FirstFree(nodes[1..])
  }

  predicate Owns(n: Node) { n.used && n.dynamic && n.data != Null }

  /** The heap after kfree of what a node owns. */
  function Freed(h: Buffers, n: Node): Buffers { if Owns(n) && n.data.Buffer? then h - {n.data.addr} else h }

  /** kvfs_create. */
  function Create(s: Vfs, path: Option<string>, data: Data, size: nat, typ: byte, mode: nat): (Vfs, bool) {
    if path.None? || s.count >= MAX_NODES then (s, false)
    else
      var p := Sanitize(path);
      var i := Find(s.nodes, p);
      if i < |s.nodes| then
        var n := s.nodes[i];
        (s.(nodes := s.nodes[i := Node(n.path, data, size, typ, mode, true, false)], heap := Freed(s.heap, n)), true)
      else
        var k := FirstFree(s.nodes);
        if k == |s.nodes| then (s, false)
        else (s.(nodes := s.nodes[k := Node(p, data, size, typ, mode, true, false)], count := s.count + 1), true)
  }

  /** The copy kvfs_write makes: the bytes given, or what kmalloc left there, and a terminator. */
  function Copied(src: Option<seq<byte>>, junk: seq<byte>): seq<byte> { (if src.Some? then src.value else junk) + [0] }

  /** kvfs_write, with the answer of kmalloc. */
  function Write(s: Vfs, path: Option<string>, src: Option<seq<byte>>, size: nat, fresh_: Option<nat>,
      junk: seq<byte>): (Vfs, bool)
  {
    if fresh_.None? then (s, false)
    else
      var p := Sanitize(path);
      var a := fresh_.value;
      var h := s.heap[a := Copied(src, junk)];
      var i := Find(s.nodes, p);
      if i < |s.nodes| then
        var n := s.nodes[i];
        (s.(nodes := s.nodes[i := n.(data := Buffer(a), size := size, dynamic := true)], heap := Freed(h, n)), true)
      else
        var k := FirstFree(s.nodes);
        if k == |s.nodes| then (s.(heap := h - {a}), false)
        else (Vfs(s.nodes[k := Node(p, Buffer(a), size, TYPE_FILE, 0x1A4, true, true)], s.count + 1, h), true)
  }

  /** kvfs_delete: type, mode, size and is_dynamic stay in the slot. */
  function Delete(s: Vfs, path: Option<string>): (Vfs, bool) {
    var i := Find(s.nodes, Sanitize(path));
    if i == |s.nodes| then (s, false)
    else
      var n := s.nodes[i];
      (Vfs(s.nodes[i := n.(used := false, path := "", data := Null)], if s.count > 0 then s.count - 1 else 0,
        Freed(s.heap, n)), true)
  }

  /** kvfs_open: the slot of the node, or none. */
  function Open(s: Vfs, path: Option<string>): Option<nat> {
    if path.None? || Find(s.nodes, Sanitize(path)) == |s.nodes| then None else Some(Find(s.nodes, Sanitize(path)))
  }

  // ---- contents --------------------------------------------------------------------------------------------

  datatype File = File(data: Option<seq<byte>>, typ: byte, mode: nat)

  function Contents(h: Buffers, n: Node): Option<seq<byte>> {
    match n.data
    case Null => None
    case Given(bytes) => Some(bytes)
    case Buffer(a) => if a in h && n.size <= |h[a]| then Some(h[a][..n.size]) else None
  }

  /** What a canonical path holds. */
  function FileAt(s: Vfs, p: string): Option<File> {
    var i := Find(s.nodes, p);
    if i == |s.nodes| then None else Some(File(Contents(s.heap, s.nodes[i]), s.nodes[i].typ, s.nodes[i].mode))
  }

  /** kvfs_read of an open node. */
  function ReadNode(h: Buffers, n: Node, offset: nat, count: nat): seq<byte> {
    var c := Contents(h, n);
    if c.None? || offset >= n.size || n.size > |c.value| then []
    else c.value[offset..if offset + count > n.size then n.size else offset + count]
  }

  // ---- the invariant ------------------------------------------------------------------------------------

  function CountUsed(nodes: seq<Node>): nat
  {
    if nodes == [] then 0 else (if nodes[0].used then 1 else 0) + CountUsed(nodes[1..])
  }

  predicate GoodNode(h: Buffers, n: Node) {
    if !n.used then n.data == Null
    else
      && Canonical(n.path)
      && (n.dynamic <==> n.data.Buffer?)
      && (n.data.Given? ==> |n.data.bytes| == n.size)
      && (n.data.Buffer? ==> n.data.addr in h && |h[n.data.addr]| == n.size + 1 && h[n.data.addr][n.size] == 0)
  }

  ghost predicate Distinct(nodes: seq<Node>) {
    forall i, j :: 0 <= i < j < |nodes| && nodes[i].used && nodes[j].used ==>
      nodes[i].path != nodes[j].path && (nodes[i].data.Buffer? ==> nodes[i].data != nodes[j].data)
  }

  predicate Holds(n: Node, a: nat) { n.used && n.dynamic && n.data == Buffer(a) }

  /** Every buffer is the data of a used dynamic node. */
  ghost predicate NoLeak(s: Vfs) { forall a :: a in s.heap ==> exists i :: 0 <= i < |s.nodes| && Holds(s.nodes[i], a) }

  ghost predicate Inv(s: Vfs) {
    && |s.nodes| == MAX_NODES && s.count == CountUsed(s.nodes)
    && (forall i :: 0 <= i < MAX_NODES ==> GoodNode(s.heap, s.nodes[i]))
    && Distinct(s.nodes) && NoLeak(s)
  }

  /** The live buffers are exactly the data pointers of used dynamic nodes, each of one node. */
  lemma BuffersExactly(s: Vfs, a: nat)
    requires Inv(s)
    ensures a in s.heap <==> exists i :: 0 <= i < MAX_NODES && Holds(s.nodes[i], a)
    ensures forall i, j :: 0 <= i < MAX_NODES && 0 <= j < MAX_NODES && Holds(s.nodes[i], a) && Holds(s.nodes[j], a) ==>
      i == j
  {
    if i :| 0 <= i < MAX_NODES && Holds(s.nodes[i], a) { assert GoodNode(s.heap, s.nodes[i]); }
  }

  // ---- counting and finding -------------------------------------------------------------------------------

  lemma {:induction false} CountSet(nodes: seq<Node>, i: nat, n: Node)
    requires i < |nodes|
    ensures CountUsed(nodes[i := n]) + (if nodes[i].used then 1 else 0) == CountUsed(nodes) + (if n.used then 1 else 0)
    decreases |nodes|
  {
    if i == 0 {
      assert nodes[i := n][1..] == nodes[1..];
    } else {
      assert nodes[i := n][1..] == nodes[1..][i - 1 := n];
      CountSet(nodes[1..], i - 1, n);
    }
  }

  lemma {:induction false} CountFull(nodes: seq<Node>)
    ensures CountUsed(nodes) <= |nodes|
    ensures CountUsed(nodes) == |nodes| <==> forall i :: 0 <= i < |nodes| ==> nodes[i].used
    decreases |nodes|
  {
    if nodes == [] {
    } else {
      CountFull(nodes[1..]);
      if nodes[0].used && CountUsed(nodes[1..]) == |nodes| - 1 {
        forall i | 0 <= i < |nodes| ensures nodes[i].used { if i > 0 { assert nodes[1..][i - 1].used; } }
      } else if forall i :: 0 <= i < |nodes| ==> nodes[i].used {
        assert nodes[0].used;
        forall i | 0 <= i < |nodes[1..]| ensures nodes[1..][i].used { assert nodes[i + 1].used; }
      }
    }
  }

  lemma {:induction false} FindIs(nodes: seq<Node>, p: string, i: nat)
    requires i <= |nodes| && (i < |nodes| ==> nodes[i].used && nodes[i].path == p)
    requires forall j :: 0 <= j < i ==> !(nodes[j].used && nodes[j].path == p)
    ensures Find(nodes, p) == i
    decreases i
  {
    if i == 0 {
    } else {
      assert !(nodes[0].used && nodes[0].path == p);
      FindIs(nodes[1..], p, i - 1);
    }
  }

  lemma FindOther(nodes: seq<Node>, i: nat, n: Node, q: string)
    requires i < |nodes| && !(nodes[i].used && nodes[i].path == q) && !(n.used && n.path == q)
    ensures Find(nodes[i := n], q) == Find(nodes, q)
  {
    FindIs(nodes[i := n], q, Find(nodes, q));
  }

  /** The node of a path is the only one. */
  lemma FindUnique(nodes: seq<Node>, i: nat, n: Node, p: string)
    requires i < |nodes| && n.used && n.path == p
    requires forall j :: 0 <= j < |nodes| && j != i ==> !(nodes[j].used && nodes[j].path == p)
    ensures Find(nodes[i := n], p) == i
  {
    FindIs(nodes[i := n], p, i);
  }

  // ---- one slot replaced --------------------------------------------------------------------------------------

  /** The heap lost what the old node held and gained what the new one holds. */
  ghost predicate HeapMoved(h: Buffers, h': Buffers, n: Node, n': Node) {
    && (forall a :: a in h' <==> (a in h && !Holds(n, a)) || Holds(n', a))
    && (forall a :: a in h && a in h' ==> h'[a] == h[a])
    && (forall a :: Holds(n', a) ==> a !in h)
  }

  lemma SetKeepsInv(s: Vfs, i: nat, n: Node, h: Buffers, count: nat)
    requires Inv(s) && i < MAX_NODES && GoodNode(h, n) && HeapMoved(s.heap, h, s.nodes[i], n)
    requires n.used ==> forall j :: 0 <= j < MAX_NODES && j != i ==> !(s.nodes[j].used && s.nodes[j].path == n.path)
    requires count + (if s.nodes[i].used then 1 else 0) == s.count + (if n.used then 1 else 0)
    ensures Inv(Vfs(s.nodes[i := n], count, h))
  {
    var t := Vfs(s.nodes[i := n], count, h);
    CountSet(s.nodes, i, n);
    SetGood(s, i, n, h);
    SetDistinct(s, i, n, h);
    SetNoLeak(s, i, n, h, count);
  }

  /** Another node's buffer is not the one given up. */
  lemma KeptBuffer(s: Vfs, i: nat, j: nat)
    requires Inv(s) && i < MAX_NODES && j < MAX_NODES && i != j && s.nodes[j].used && s.nodes[j].data.Buffer?
    ensures !Holds(s.nodes[i], s.nodes[j].data.addr) && s.nodes[j].data.addr in s.heap
  {
    assert GoodNode(s.heap, s.nodes[j]);
  }

  lemma SetGood(s: Vfs, i: nat, n: Node, h: Buffers)
    requires Inv(s) && i < MAX_NODES && GoodNode(h, n) && HeapMoved(s.heap, h, s.nodes[i], n)
    ensures var t := s.nodes[i := n]; forall j :: 0 <= j < MAX_NODES ==> GoodNode(h, t[j])
  {
    hide Canonical;
    var t := s.nodes[i := n];
    forall j | 0 <= j < MAX_NODES ensures GoodNode(h, t[j]) {
      if j != i {
        assert GoodNode(s.heap, s.nodes[j]);
        if s.nodes[j].used && s.nodes[j].data.Buffer? { KeptBuffer(s, i, j); }
      }
    }
  }

  lemma SetDistinct(s: Vfs, i: nat, n: Node, h: Buffers)
    requires Inv(s) && i < MAX_NODES && GoodNode(h, n) && HeapMoved(s.heap, h, s.nodes[i], n)
    requires n.used ==> forall j :: 0 <= j < MAX_NODES && j != i ==> !(s.nodes[j].used && s.nodes[j].path == n.path)
    ensures Distinct(s.nodes[i := n])
  {
    var t := s.nodes[i := n];
    forall j | 0 <= j < MAX_NODES && j != i && n.used && t[j].used && n.data.Buffer?
      ensures t[j].data != n.data
    {
      if s.nodes[j].data.Buffer? { KeptBuffer(s, i, j); assert Holds(n, n.data.addr); }
    }
  }

  lemma SetNoLeak(s: Vfs, i: nat, n: Node, h: Buffers, count: nat)
    requires Inv(s) && i < MAX_NODES && HeapMoved(s.heap, h, s.nodes[i], n)
    ensures NoLeak(Vfs(s.nodes[i := n], count, h))
  {
    var t := s.nodes[i := n];
    forall a | a in h ensures exists j :: 0 <= j < |t| && Holds(t[j], a) {
      if Holds(n, a) { assert Holds(t[i], a); } else {
        var j :| 0 <= j < |s.nodes| && Holds(s.nodes[j], a);
        assert Holds(t[j], a);
      }
    }
  }

  /** Contents of the other nodes are untouched. */
  lemma SetKeepsFile(s: Vfs, i: nat, n: Node, h: Buffers, count: nat, q: string)
    requires Inv(s) && i < MAX_NODES && HeapMoved(s.heap, h, s.nodes[i], n)
    requires !(s.nodes[i].used && s.nodes[i].path == q) && !(n.used && n.path == q)
    ensures FileAt(Vfs(s.nodes[i := n], count, h), q) == FileAt(s, q)
  {
    FindOther(s.nodes, i, n, q);
    var j := Find(s.nodes, q);
    if j < MAX_NODES && s.nodes[j].data.Buffer? { KeptBuffer(s, i, j); }
  }

  lemma SetsFile(s: Vfs, i: nat, n: Node, h: Buffers, count: nat)
    requires |s.nodes| == MAX_NODES && i < MAX_NODES && n.used
    requires forall j :: 0 <= j < MAX_NODES && j != i ==> !(s.nodes[j].used && s.nodes[j].path == n.path)
    ensures FileAt(Vfs(s.nodes[i := n], count, h), n.path) == Some(File(Contents(h, n), n.typ, n.mode))
  {
    FindUnique(s.nodes, i, n, n.path);
  }

  /** The node that kfree is asked to release is live: no buffer is freed twice. */
  lemma FreesLive(s: Vfs, i: nat)
    requires Inv(s) && i < MAX_NODES && Owns(s.nodes[i])
    ensures s.nodes[i].data.Buffer? && s.nodes[i].data.addr in s.heap
  {
    assert GoodNode(s.heap, s.nodes[i]);
  }

  lemma OthersNamed(s: Vfs, p: string)
    requires Inv(s)
    ensures forall j :: 0 <= j < MAX_NODES && j != Find(s.nodes, p) ==> !(s.nodes[j].used && s.nodes[j].path == p)
  {
  }

  // ---- the operations ------------------------------------------------------------------------------------------

  /** Data a caller may hand to kvfs_create: nothing, or that many bytes. */
  predicate GivenData(data: Data, size: nat) { data.Null? || (data.Given? && |data.bytes| == size) }

  function DataOf(data: Data): Option<seq<byte>> { if data.Given? then Some(data.bytes) else None }

  /** A creation fails only for the null path or a full table, even one that has the path already. */
  lemma CreateDoes(s: Vfs, path: Option<string>, data: Data, size: nat, typ: byte, mode: nat, q: string)
    requires Inv(s) && GivenData(data, size)
    ensures var (t, ok) := Create(s, path, data, size, typ, mode);
      && Inv(t) && (ok <==> path.Some? && s.count < 64)
      && FileAt(t, q) == if ok && q == Sanitize(path) then Some(File(DataOf(data), typ, mode)) else FileAt(s, q)
  {
    hide Sanitize, Canonical, Inv, FileAt, Find, FirstFree, CountUsed;
    InvSize(s);
    var (t, ok) := Create(s, path, data, size, typ, mode);
    if path.Some? && s.count < MAX_NODES {
      var p := Sanitize(path);
      SanitizeCanonical(path);
      OthersNamed(s, p);
      var i := Find(s.nodes, p);
      var n := Node(p, data, size, typ, mode, true, false);
      if i < MAX_NODES {
        MovedToStatic(s, i, n);
        SetKeepsInv(s, i, n, t.heap, s.count);
        SetsFile(s, i, n, t.heap, s.count);
        if q != p { SetKeepsFile(s, i, n, t.heap, s.count, q); }
      } else {
        Room(s);
        var k := FirstFree(s.nodes);
        MovedToStatic(s, k, n);
        SetKeepsInv(s, k, n, t.heap, s.count + 1);
        SetsFile(s, k, n, t.heap, s.count + 1);
        if q != p { SetKeepsFile(s, k, n, t.heap, s.count + 1, q); }
      }
    }
  }

  /** A table of 64 files: creating one of them again is refused, although that would not need a slot. */
  lemma FullTableRefuses(s: Vfs, path: string, data: Data, size: nat, typ: byte, mode: nat)
    requires Inv(s) && s.count == 64 && FileAt(s, Sanitize(Some(path))).Some?
    ensures Create(s, Some(path), data, size, typ, mode) == (s, false)
  {
  }

  lemma InvSize(s: Vfs)
    requires Inv(s)
    ensures |s.nodes| == MAX_NODES && s.count == CountUsed(s.nodes)
  {
  }

  /** With fewer nodes counted than slots, there is a free one. */
  lemma Room(s: Vfs)
    requires Inv(s)
    ensures FirstFree(s.nodes) < MAX_NODES <==> s.count < MAX_NODES
    ensures FirstFree(s.nodes) < MAX_NODES ==> !s.nodes[FirstFree(s.nodes)].used
  {
    CountFull(s.nodes);
  }

  /** Replacing a node by one without a buffer frees exactly the old one's. */
  lemma MovedToStatic(s: Vfs, i: nat, n: Node)
    requires Inv(s) && i < MAX_NODES && !n.data.Buffer?
    ensures HeapMoved(s.heap, Freed(s.heap, s.nodes[i]), s.nodes[i], n)
    ensures !s.nodes[i].used ==> Freed(s.heap, s.nodes[i]) == s.heap
  {
    NodeGood(s, i);
    hide Inv, GoodNode;
    StaticMoves(s.heap, s.nodes[i], n);
  }

  lemma NodeGood(s: Vfs, i: nat)
    requires Inv(s) && i < MAX_NODES
    ensures |s.nodes| == MAX_NODES && GoodNode(s.heap, s.nodes[i])
  {
  }

  lemma StaticMoves(h: Buffers, was: Node, n: Node)
    requires GoodNode(h, was) && !n.data.Buffer?
    ensures HeapMoved(h, Freed(h, was), was, n)
    ensures !was.used ==> Freed(h, was) == h
  {
    hide Canonical;
  }

  /** Replacing it by one with a new buffer frees the old one's and adds that. */
  lemma MovedToBuffer(s: Vfs, i: nat, n: Node, a: nat, b: seq<byte>)
    requires Inv(s) && i < MAX_NODES && Holds(n, a) && a !in s.heap
    ensures HeapMoved(s.heap, Freed(s.heap[a := b], s.nodes[i]), s.nodes[i], n)
    ensures var h := Freed(s.heap[a := b], s.nodes[i]); a in h && h[a] == b
    ensures !s.nodes[i].used ==> Freed(s.heap[a := b], s.nodes[i]) == s.heap[a := b]
  {
    hide Canonical;
    assert GoodNode(s.heap, s.nodes[i]);
  }

  /** The bytes kvfs_write stores. */
  function Meant(src: Option<seq<byte>>, junk: seq<byte>): seq<byte> { if src.Some? then src.value else junk }

  /** Type and mode survive writing over a node; a new one is an ordinary file. */
  lemma WriteDoes(s: Vfs, path: Option<string>, src: Option<seq<byte>>, size: nat, a: Option<nat>, junk: seq<byte>,
      q: string)
    requires Inv(s) && (src.Some? ==> |src.value| == size) && |junk| == size && (a.Some? ==> a.value !in s.heap)
    ensures var (t, ok) := Write(s, path, src, size, a, junk);
      var p := Sanitize(path);
      && Inv(t) && (ok <==> a.Some? && (FileAt(s, p).Some? || s.count < 64))
      && FileAt(t, q) ==
        (if ok && q == p then
           Some(File(Some(Meant(src, junk)), if FileAt(s, p).Some? then FileAt(s, p).value.typ else 0,
                     if FileAt(s, p).Some? then FileAt(s, p).value.mode else 0x1A4))
         else FileAt(s, q))
  {
    hide Sanitize, Canonical, Inv, Find, FirstFree, CountUsed;
    InvSize(s);
    if a.Some? {
      var p := Sanitize(path);
      SanitizeCanonical(path);
      OthersNamed(s, p);
      Room(s);
      var i := Find(s.nodes, p);
      if i < MAX_NODES {
        WriteOver(s, i, p, src, size, a.value, junk, q);
      } else if s.count < MAX_NODES {
        WriteNew(s, FirstFree(s.nodes), p, src, size, a.value, junk, q);
      } else {
        assert s.heap[a.value := Copied(src, junk)] - {a.value} == s.heap;
      }
    }
  }

  lemma WriteOver(s: Vfs, i: nat, p: string, src: Option<seq<byte>>, size: nat, a: nat, junk: seq<byte>, q: string)
    requires Inv(s) && i == Find(s.nodes, p) < MAX_NODES && Canonical(p) && (src.Some? ==> |src.value| == size)
    requires |junk| == size && a !in s.heap
    ensures var n := s.nodes[i].(data := Buffer(a), size := size, dynamic := true);
      var t := Vfs(s.nodes[i := n], s.count, Freed(s.heap[a := Copied(src, junk)], s.nodes[i]));
      Inv(t) && FileAt(t, q) == if q == p then Some(File(Some(Meant(src, junk)), s.nodes[i].typ, s.nodes[i].mode))
        else FileAt(s, q)
  {
    hide Canonical;
    var n := s.nodes[i].(data := Buffer(a), size := size, dynamic := true);
    var h := Freed(s.heap[a := Copied(src, junk)], s.nodes[i]);
    OthersNamed(s, p);
    MovedToBuffer(s, i, n, a, Copied(src, junk));
    hide Inv, Distinct, NoLeak, Find, FileAt, HeapMoved;
    CopiedIs(src, junk);
    SetKeepsInv(s, i, n, h, s.count);
    SetsFile(s, i, n, h, s.count);
    if q != p { SetKeepsFile(s, i, n, h, s.count, q); }
  }

  lemma CopiedIs(src: Option<seq<byte>>, junk: seq<byte>)
    ensures var c, m := Copied(src, junk), Meant(src, junk); |c| == |m| + 1 && c[..|m|] == m && c[|m|] == 0
  {
  }

  lemma WriteNew(s: Vfs, k: nat, p: string, src: Option<seq<byte>>, size: nat, a: nat, junk: seq<byte>, q: string)
    requires Inv(s) && k < MAX_NODES && !s.nodes[k].used && Find(s.nodes, p) == MAX_NODES && Canonical(p)
    requires (src.Some? ==> |src.value| == size) && |junk| == size && a !in s.heap
    ensures var n := Node(p, Buffer(a), size, TYPE_FILE, 0x1A4, true, true);
      var t := Vfs(s.nodes[k := n], s.count + 1, s.heap[a := Copied(src, junk)]);
      Inv(t) && FileAt(t, q) == if q == p then Some(File(Some(Meant(src, junk)), TYPE_FILE, 0x1A4)) else FileAt(s, q)
  {
    hide Canonical;
    var n := Node(p, Buffer(a), size, TYPE_FILE, 0x1A4, true, true);
    var h := s.heap[a := Copied(src, junk)];
    OthersNamed(s, p);
    MovedToBuffer(s, k, n, a, Copied(src, junk));
    hide Inv, Distinct, NoLeak, Find, FileAt, HeapMoved;
    CopiedIs(src, junk);
    SetKeepsInv(s, k, n, h, s.count + 1);
    SetsFile(s, k, n, h, s.count + 1);
    if q != p { SetKeepsFile(s, k, n, h, s.count + 1, q); }
  }

  /** Deleting removes one path, frees its buffer if it owns one, and touches nothing else. */
  lemma DeleteDoes(s: Vfs, path: Option<string>, q: string)
    requires Inv(s)
    ensures var (t, ok) := Delete(s, path);
      && Inv(t) && (ok <==> FileAt(s, Sanitize(path)).Some?)
      && FileAt(t, q) == if q == Sanitize(path) then None else FileAt(s, q)
  {
    hide Sanitize, Canonical, Inv, Find, CountUsed;
    InvSize(s);
    var p := Sanitize(path);
    OthersNamed(s, p);
    var i := Find(s.nodes, p);
    if i < MAX_NODES {
      var n := s.nodes[i].(used := false, path := "", data := Null);
      MovedToStatic(s, i, n);
      CountSet(s.nodes, i, n);
      SetKeepsInv(s, i, n, Freed(s.heap, s.nodes[i]), s.count - 1);
      if q == p { FindIs(s.nodes[i := n], p, MAX_NODES); }
      else { SetKeepsFile(s, i, n, Freed(s.heap, s.nodes[i]), s.count - 1, q); }
    }
  }
}
