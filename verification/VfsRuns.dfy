/**
  freestanding/kvfs.c over whole runs: each path holds what was last stored under any of its spellings, a reset
  leaves no buffer behind, and a directory lists each of its children once.
 */
module VfsRuns {
  import opened Common
  import opened VfsPath
  import opened VfsTable

  // ---- the reset at the head of kvfs_init ----------------------------------------------------------------

  function ClearedNode(n: Node): Node { n.(used := false, dynamic := false, path := "", data := Null, size := 0) }

  function FreedAll(h: Buffers, nodes: seq<Node>): Buffers
    decreases |nodes|
  {
    if nodes == [] then h else Freed(FreedAll(h, nodes[..|nodes| - 1]), nodes[|nodes| - 1])
  }

  function ClearedAll(nodes: seq<Node>): (r: seq<Node>)
    ensures |r| == |nodes|
  {
    seq(|nodes|, i requires 0 <= i < |nodes| => ClearedNode(nodes[i]))
  }

  function Reset(s: Vfs): Vfs { Vfs(ClearedAll(s.nodes), 0, FreedAll(s.heap, s.nodes)) }

  lemma {:induction false} FreedAllHas(h: Buffers, nodes: seq<Node>, a: nat)
    ensures a in FreedAll(h, nodes) ==> a in h && forall i :: 0 <= i < |nodes| ==> !Holds(nodes[i], a)
    decreases |nodes|
  {
    if nodes == [] {
    } else {
      var m := |nodes| - 1;
      FreedAllHas(h, nodes[..m], a);
      if a in FreedAll(h, nodes) {
        assert !Holds(nodes[m], a);
        forall i | 0 <= i < |nodes| ensures !Holds(nodes[i], a) { if i < m { assert nodes[..m][i] == nodes[i]; } }
      }
    }
  }

  lemma {:induction false} NoneUsed(nodes: seq<Node>, q: string)
    requires forall i :: 0 <= i < |nodes| ==> !nodes[i].used
    ensures CountUsed(nodes) == 0 && Find(nodes, q) == |nodes|
    decreases |nodes|
  {
    if nodes == [] {
    } else {
      assert !nodes[0].used;
      forall i | 0 <= i < |nodes[1..]| ensures !nodes[1..][i].used { assert !nodes[i + 1].used; }
      NoneUsed(nodes[1..], q);
    }
  }

  /** A reset frees every buffer and forgets every file. */
  lemma ResetDoes(s: Vfs, q: string)
    requires Inv(s)
    ensures Inv(Reset(s)) && Reset(s).heap == map[] && FileAt(Reset(s), q) == None
  {
    var t := Reset(s);
    forall a | a in t.heap ensures false {
      FreedAllHas(s.heap, s.nodes, a);
    }
    NoneUsed(t.nodes, q);
    hide Canonical;
  }

  // ---- runs -----------------------------------------------------------------------------------------------

  datatype Op =
    | DoReset
    | DoCreate(path: Option<string>, data: Data, size: nat, typ: byte, mode: nat)
    | DoWrite(path: Option<string>, src: Option<seq<byte>>, size: nat, a: Option<nat>, junk: seq<byte>)
    | DoDelete(path: Option<string>)

  /** What callers and kmalloc promise: sizes that match, and fresh buffers. */
  predicate OpOk(s: Vfs, op: Op) {
    match op
    case DoCreate(_, data, size, _, _) => GivenData(data, size)
    case DoWrite(_, src, size, a, junk) =>
      (src.Some? ==> |src.value| == size) && |junk| == size && (a.Some? ==> a.value !in s.heap)
    case _ => true
  }

  function Step(s: Vfs, op: Op): (Vfs, bool) {
    match op
    case DoReset => (Reset(s), true)
    case DoCreate(path, data, size, typ, mode) => Create(s, path, data, size, typ, mode)
    case DoWrite(path, src, size, a, junk) => Write(s, path, src, size, a, junk)
    case DoDelete(path) => Delete(s, path)
  }

  predicate RunOk(s: Vfs, ops: seq<Op>)
    decreases |ops|
  {
    ops == [] || (OpOk(s, ops[0]) && RunOk(Step(s, ops[0]).0, ops[1..]))
  }

  function Run(s: Vfs, ops: seq<Op>): Vfs
    decreases |ops|
  {
    if ops == [] then s else Run(Step(s, ops[0]).0, ops[1..])
  }

  /** What a path holds after one operation, from what it held and whether the operation reported success. */
  function Next(before: Option<File>, op: Op, ok: bool, q: string): Option<File> {
    match op
    case DoReset => None
    case DoCreate(path, data, _, typ, mode) =>
      if ok && Sanitize(path) == q then Some(File(DataOf(data), typ, mode)) else before
    case DoWrite(path, src, _, _, junk) =>
      if ok && Sanitize(path) == q then
        Some(if before.Some? then before.value.(data := Some(Meant(src, junk)))
             else File(Some(Meant(src, junk)), TYPE_FILE, 0x1A4))
      else before
    case DoDelete(path) => if Sanitize(path) == q then None else before
  }

  function Expected(s: Vfs, before: Option<File>, ops: seq<Op>, q: string): Option<File>
    decreases |ops|
  {
    if ops == [] then before
    else Expected(Step(s, ops[0]).0, Next(before, ops[0], Step(s, ops[0]).1, q), ops[1..], q)
  }

  lemma StepDoes(s: Vfs, op: Op, q: string)
    requires Inv(s) && OpOk(s, op)
    ensures var (t, ok) := Step(s, op); Inv(t) && FileAt(t, q) == Next(FileAt(s, q), op, ok, q)
  {
    hide Create, Write, Delete, Inv, FileAt, Reset, Sanitize;
    match op
    case DoReset => ResetDoes(s, q);
    case DoCreate(path, data, size, typ, mode) => CreateDoes(s, path, data, size, typ, mode, q);
    case DoWrite(path, src, size, a, junk) => WriteDoes(s, path, src, size, a, junk, q);
    case DoDelete(path) => DeleteDoes(s, path, q);
  }

  /** Over every run the table stays in order, and each path holds what was last stored under it. */
  lemma {:induction false} RunHolds(s: Vfs, ops: seq<Op>, q: string)
    requires Inv(s) && RunOk(s, ops)
    ensures Inv(Run(s, ops)) && FileAt(Run(s, ops), q) == Expected(s, FileAt(s, q), ops, q)
    decreases |ops|
  {
    hide Inv, FileAt, OpOk, Step, Next;
    if ops == [] {
    } else {
      StepDoes(s, ops[0], q);
      RunHolds(Step(s, ops[0]).0, ops[1..], q);
    }
  }

  // ---- a full table ----------------------------------------------------------------------------------------

  /** The paths /, /a, /aa and so on. */
  function LetterPath(i: nat): (p: string)
    ensures |p| == i + 1 && p[0] == '/' && forall k :: 0 < k <= i ==> p[k] == 'a'
  {
    "/" + seq(i, _ => 'a')
  }

  function LetterOp(i: nat): Op { DoCreate(Some(LetterPath(i)), Null, 0, TYPE_FILE, 0x1A4) }

  /** Creating number i and those after it. */
  function LetterOps(i: nat): (ops: seq<Op>)
    decreases MAX_NODES - i
  {
    if i >= MAX_NODES then [] else [LetterOp(i)] + LetterOps(i + 1)
  }

  /** The first i paths are there, and nothing else counts. */
  ghost predicate Lettered(s: Vfs, i: nat) {
    && Inv(s) && s.count == i
    && forall k :: 0 <= k < MAX_NODES ==> (FileAt(s, LetterPath(k)).Some? <==> k < i)
  }

  lemma LetterClean(i: nat)
    requires i < MAX_NODES
    ensures Sanitize(Some(LetterPath(i))) == LetterPath(i)
  {
    CanonicalFixed(LetterPath(i));
  }

  lemma OneMoreLetter(s: Vfs, i: nat)
    requires i < MAX_NODES && Lettered(s, i)
    ensures OpOk(s, LetterOp(i)) && Lettered(Step(s, LetterOp(i)).0, i + 1)
  {
    LetterClean(i);
    var p := LetterPath(i);
    hide Sanitize, Inv, LetterPath;
    forall k | 0 <= k < MAX_NODES
      ensures Inv(Step(s, LetterOp(i)).0) && (FileAt(Step(s, LetterOp(i)).0, LetterPath(k)).Some? <==> k < i + 1)
    {
      CreateDoes(s, Some(p), Null, 0, TYPE_FILE, 0x1A4, LetterPath(k));
      assert |LetterPath(k)| == k + 1 && |p| == i + 1;
    }
    CreateCounts(s, Some(p));
  }

  lemma CreateCounts(s: Vfs, path: Option<string>)
    requires Inv(s) && path.Some? && s.count < MAX_NODES && FileAt(s, Sanitize(path)).None?
    ensures Create(s, path, Null, 0, TYPE_FILE, 0x1A4).0.count == s.count + 1
  {
    Room(s);
    hide Sanitize, Canonical, Find, FirstFree, CountUsed;
  }

  lemma {:induction false} FillFrom(s: Vfs, i: nat)
    requires i <= MAX_NODES && Lettered(s, i)
    ensures RunOk(s, LetterOps(i)) && Lettered(Run(s, LetterOps(i)), MAX_NODES)
    decreases MAX_NODES - i
  {
    hide Lettered, OpOk, Step, LetterOp;
    if i == MAX_NODES {
      assert LetterOps(i) == [];
    } else {
      assert LetterOps(i)[0] == LetterOp(i) && LetterOps(i)[1..] == LetterOps(i + 1);
      OneMoreLetter(s, i);
      FillFrom(Step(s, LetterOp(i)).0, i + 1);
    }
  }

  /** A reset and 64 creations, from any state, lead to a table that refuses to create the root it holds. */
  lemma FullTableReached(s: Vfs)
    requires Inv(s)
    ensures var ops := [DoReset] + LetterOps(0);
      var t := Run(s, ops);
      && RunOk(s, ops) && Inv(t) && FileAt(t, Sanitize(Some("/"))).Some?
      && Create(t, Some("/"), Null, 0, TYPE_DIR, 0x1ED) == (t, false)
  {
    var ops := [DoReset] + LetterOps(0);
    assert ops[0] == DoReset && ops[1..] == LetterOps(0);
    ResetLettered(s);
    hide Lettered, LetterOps;
    FillFrom(Reset(s), 0);
    var t := Run(s, ops);
    assert t == Run(Reset(s), LetterOps(0));
    LetterClean(0);
    assert LetterPath(0) == "/";
    LetteredRoot(t);
    FullTableRefuses(t, "/", Null, 0, TYPE_DIR, 0x1ED);
  }

  lemma LetteredRoot(t: Vfs)
    requires Lettered(t, MAX_NODES)
    ensures Inv(t) && t.count == MAX_NODES && FileAt(t, LetterPath(0)).Some?
  {
  }

  lemma ResetLettered(s: Vfs)
    requires Inv(s)
    ensures Lettered(Reset(s), 0)
  {
    hide Inv, FileAt;
    ResetDoes(s, LetterPath(0));
    forall k | 0 <= k < MAX_NODES ensures FileAt(Reset(s), LetterPath(k)).None? { ResetDoes(s, LetterPath(k)); }
  }

  /**
    A read from an offset gets the bytes from there on, as many as asked for and there are; the reads of two
    stretches that meet are the read of both.
   */
  lemma ReadPart(h: Buffers, n: Node, bytes: seq<byte>, offset: nat, count: nat, more: nat)
    requires Contents(h, n) == Some(bytes) && |bytes| == n.size
    ensures var r := ReadNode(h, n, offset, count);
      && |r| == (if offset + count <= |bytes| then count else if offset <= |bytes| then |bytes| - offset else 0)
      && (forall k :: 0 <= k < |r| ==> r[k] == bytes[offset + k])
      && r + ReadNode(h, n, offset + count, more) == ReadNode(h, n, offset, count + more)
  {
    hide Contents;
    if offset + count < |bytes| {
      var e := if offset + count + more > |bytes| then |bytes| else offset + count + more;
      Joined(bytes, offset, offset + count, e);
    }
  }

  lemma Joined(b: seq<byte>, i: nat, j: nat, k: nat)
    requires i <= j <= k <= |b|
    ensures b[i..j] + b[j..k] == b[i..k]
  {
  }

  /** What was written is read back under any spelling with the same components. */
  lemma WriteThenRead(s: Vfs, path: Option<string>, src: seq<byte>, a: Option<nat>, other: Option<string>)
    requires Inv(s) && (a.Some? ==> a.value !in s.heap) && other.Some? && Names(other) == Names(path)
    requires Write(s, path, Some(src), |src|, a, src).1
    ensures var t := Write(s, path, Some(src), |src|, a, src).0;
      var i := Open(t, other);
      i.Some? && t.nodes[i.value].size == |src| && ReadNode(t.heap, t.nodes[i.value], 0, |src|) == src
  {
    hide Sanitize, Write, Names, Inv;
    SanitizeIs(path);
    SanitizeIs(other);
    WriteDoes(s, path, Some(src), |src|, a, src, Sanitize(path));
    var t := Write(s, path, Some(src), |src|, a, src).0;
    var i := Find(t.nodes, Sanitize(path));
    InvSize(t);
    WholeSize(t, i);
    assert src[0..|src|] == src;
  }

  lemma WholeSize(s: Vfs, i: nat)
    requires Inv(s) && i < MAX_NODES && s.nodes[i].used && Contents(s.heap, s.nodes[i]).Some?
    ensures |Contents(s.heap, s.nodes[i]).value| == s.nodes[i].size
  {
    assert GoodNode(s.heap, s.nodes[i]);
  }

  // ---- directories --------------------------------------------------------------------------------------------

  /** One call of the listing callback. */
  datatype Report = Report(name: string, size: nat, typ: byte, mode: nat)

  /** The first slash at or after i, or the length. */
  function SlashFrom(p: string, i: nat): (k: nat)
    requires i <= |p|
    ensures i <= k <= |p| && (k < |p| ==> p[k] == '/') && forall j :: i <= j < k ==> p[j] != '/'
    decreases |p| - i
  {
    if i == |p| || p[i] == '/' then i else SlashFrom(p, i + 1)
  }

  /** The body of the loop of kvfs_list_dir. */
  function Item(n: Node, dir: string): seq<Report> {
    var p := n.path;
    if !n.used || p == dir then []
    else if dir == "/" then
      if |p| > 1 && p[0] == '/' then
        var sub := SlashFrom(p, 1);
        if sub == |p| then [Report(p[1..], n.size, n.typ, n.mode)]
        else if n.typ == TYPE_DIR && sub == |p| - 1 && sub - 1 < 32 then [Report(p[1..sub], n.size, n.typ, n.mode)]
        else []
      else []
    else if |p| > |dir| && p[..|dir|] == dir && p[|dir|] == '/' && SlashFrom(p, |dir| + 1) == |p| then
      [Report(p[|dir| + 1..], n.size, n.typ, n.mode)]
    else []
  }

  function Listing(nodes: seq<Node>, dir: string): seq<Report>
    decreases |nodes|
  {
    if nodes == [] then [] else Listing(nodes[..|nodes| - 1], dir) + Item(nodes[|nodes| - 1], dir)
  }

  /** The path of an entry of a directory. */
  function ChildPath(dir: string, name: string): string { (if dir == "/" then "" else dir) + "/" + name }

  function ReportOf(n: Node, name: string): Report { Report(name, n.size, n.typ, n.mode) }

  /** A node is reported exactly when it is an immediate child, with its last component. */
  lemma ItemIff(n: Node, dir: string, name: string)
    requires n.used ==> Canonical(n.path)
    requires Canonical(dir)
    ensures ReportOf(n, name) in Item(n, dir) <==> n.used && Name(name) && n.path == ChildPath(dir, name)
    ensures |Item(n, dir)| <= 1
    ensures Item(n, dir) != [] ==> exists c :: Item(n, dir) == [ReportOf(n, c)]
  {
    if n.used {
      var p := n.path;
      if Name(name) && p == ChildPath(dir, name) { ChildReported(n, dir, name); }
      if Item(n, dir) != [] { ReportedChild(n, dir); }
    }
  }

  lemma ChildReported(n: Node, dir: string, name: string)
    requires n.used && Canonical(n.path) && Canonical(dir) && Name(name) && n.path == ChildPath(dir, name)
    ensures Item(n, dir) == [ReportOf(n, name)]
  {
    var p := n.path;
    if dir == "/" {
      assert p[1..] == name;
      assert forall i :: 1 <= i < |p| ==> p[i] == name[i - 1];
    } else {
      assert p[..|dir|] == dir && p[|dir| + 1..] == name;
      assert forall i :: |dir| < i < |p| ==> p[i] == name[i - |dir| - 1];
    }
  }

  lemma ReportedChild(n: Node, dir: string)
    requires n.used && Canonical(n.path) && Canonical(dir) && Item(n, dir) != []
    ensures exists c :: Name(c) && Item(n, dir) == [ReportOf(n, c)] && n.path == ChildPath(dir, c)
  {
    var p := n.path;
    if dir == "/" {
      var c := p[1..];
      var sub := SlashFrom(p, 1);
      if sub == |p| {
        assert p == "/" + c;
        assert Name(c);
        assert Item(n, dir) == [ReportOf(n, c)] && p == ChildPath(dir, c);
      }
    } else {
      var c := p[|dir| + 1..];
      assert p == dir + "/" + c;
      assert p[|p| - 1] == '/' || c != "";
      assert Name(c);
      assert Item(n, dir) == [ReportOf(n, c)] && p == ChildPath(dir, c);
    }
  }

  /** How often a name is reported. */
  function Times(rs: seq<Report>, name: string): nat {
    if rs == [] then 0 else Times(rs[..|rs| - 1], name) + if rs[|rs| - 1].name == name then 1 else 0
  }

  function TimesPath(nodes: seq<Node>, p: string): nat {
    if nodes == [] then 0
    else TimesPath(nodes[..|nodes| - 1], p) + if nodes[|nodes| - 1].used && nodes[|nodes| - 1].path == p then 1 else 0
  }

  lemma {:induction false} TimesAreNodes(nodes: seq<Node>, dir: string, name: string)
    requires Canonical(dir) && forall i :: 0 <= i < |nodes| ==> nodes[i].used ==> Canonical(nodes[i].path)
    ensures Times(Listing(nodes, dir), name) == if Name(name) then TimesPath(nodes, ChildPath(dir, name)) else 0
    decreases |nodes|
  {
    hide Item, Canonical, ChildPath, Name;
    if nodes == [] {
    } else {
      var m := |nodes| - 1;
      var n := nodes[m];
      TimesAreNodes(nodes[..m], dir, name);
      ItemIff(n, dir, name);
      var before, item := Listing(nodes[..m], dir), Item(n, dir);
      if item == [] {
        assert before + item == before;
      } else {
        var c :| item == [ReportOf(n, c)];
        assert (before + item)[..|before|] == before;
        assert ReportOf(n, name) in item <==> c == name;
      }
    }
  }

  lemma {:induction false} TimesFind(nodes: seq<Node>, p: string)
    requires Distinct(nodes)
    ensures TimesPath(nodes, p) == if Find(nodes, p) < |nodes| then 1 else 0
    decreases |nodes|
  {
    if nodes == [] {
    } else {
      var m := |nodes| - 1;
      TimesFind(nodes[..m], p);
      var k := Find(nodes[..m], p);
      if k < m { FindIs(nodes, p, k); }
      else if nodes[m].used && nodes[m].path == p { FindIs(nodes, p, m); }
      else { FindIs(nodes, p, |nodes|); }
    }
  }

  /** A directory lists a name once if it is a file right below it, and otherwise not at all. */
  lemma ListsEachChildOnce(s: Vfs, dir: Option<string>, name: string)
    requires Inv(s)
    ensures Times(Listing(s.nodes, Sanitize(dir)), name)
         == if Name(name) && FileAt(s, ChildPath(Sanitize(dir), name)).Some? then 1 else 0
  {
    hide Listing, Canonical, Sanitize, ChildPath;
    SanitizeCanonical(dir);
    forall i | 0 <= i < |s.nodes| && s.nodes[i].used
      ensures Canonical(s.nodes[i].path)
    {
      assert GoodNode(s.heap, s.nodes[i]);
    }
    TimesAreNodes(s.nodes, Sanitize(dir), name);
    TimesFind(s.nodes, ChildPath(Sanitize(dir), name));
  }

  lemma {:induction false} ReportedFrom(nodes: seq<Node>, dir: string, r: Report) returns (i: nat)
    requires r in Listing(nodes, dir)
    ensures i < |nodes| && r in Item(nodes[i], dir)
    decreases |nodes|
  {
    var m := |nodes| - 1;
    if r in Item(nodes[m], dir) {
      i := m;
    } else {
      i := ReportedFrom(nodes[..m], dir, r);
    }
  }

  /** Each is listed with the size of its data, its type and its mode. */
  lemma ListedAsStored(s: Vfs, dir: Option<string>, r: Report)
    requires Inv(s) && r in Listing(s.nodes, Sanitize(dir))
    ensures var f := FileAt(s, ChildPath(Sanitize(dir), r.name));
      f.Some? && r.typ == f.value.typ && r.mode == f.value.mode
        && (f.value.data.Some? ==> r.size == |f.value.data.value|)
  {
    SanitizeCanonical(dir);
    var i := ReportedFrom(s.nodes, Sanitize(dir), r);
    NodeGood(s, i);
    hide Sanitize, Listing, ChildPath, Canonical, Inv;
    OneReport(s.nodes[i], Sanitize(dir), r);
    FoundHere(s, i);
    if Contents(s.heap, s.nodes[i]).Some? { WholeSize(s, i); }
  }

  lemma OneReport(n: Node, dir: string, r: Report)
    requires Canonical(dir) && (n.used ==> Canonical(n.path)) && r in Item(n, dir)
    ensures n.used && n.path == ChildPath(dir, r.name) && r.size == n.size && r.typ == n.typ && r.mode == n.mode
  {
    ReportedChild(n, dir);
    hide Item, Canonical, ChildPath;
  }

  lemma FoundHere(s: Vfs, i: nat)
    requires Inv(s) && i < MAX_NODES && s.nodes[i].used
    ensures |s.nodes| == MAX_NODES
    ensures FileAt(s, s.nodes[i].path)
      == Some(File(Contents(s.heap, s.nodes[i]), s.nodes[i].typ, s.nodes[i].mode))
  {
    FindIs(s.nodes, s.nodes[i].path, i);
  }

  /** And in the order of the table. */
  lemma {:induction false} ListingJoins(a: seq<Node>, b: seq<Node>, dir: string)
    ensures Listing(a + b, dir) == Listing(a, dir) + Listing(b, dir)
    decreases |b|
  {
    hide Item;
    if b == [] {
      assert a + b == a;
    } else {
      var m := |b| - 1;
      assert (a + b)[..|a + b| - 1] == a + b[..m];
      ListingJoins(a, b[..m], dir);
    }
  }
}
