/** freestanding/kvfs.c as it runs: linear scans over the node table, with the buffers it takes and gives back. */
module KVfs {
  import opened Common
  import opened VfsPath
  import opened VfsTable
  import opened VfsRuns

  /** The memory a data pointer points to. */
  function Bytes(h: Buffers, d: Data): seq<byte> {
    match d
    case Given(b) => b
    case Buffer(a) => if a in h then h[a] else []
    case Null => []
  }

  /** What a read copies, from a used node or a deleted one. */
  lemma ReadsBytes(s: Vfs, i: nat, offset: nat, count: nat)
    requires Inv(s) && i < MAX_NODES
    ensures |s.nodes| == MAX_NODES
    ensures var n := s.nodes[i];
      if n.data == Null || offset >= n.size then ReadNode(s.heap, n, offset, count) == []
      else
        var k := if offset + count > n.size then n.size - offset else count;
        && n.used && offset + k <= |Bytes(s.heap, n.data)|
        && ReadNode(s.heap, n, offset, count) == Bytes(s.heap, n.data)[offset..offset + k]
    ensures !s.nodes[i].used ==> s.nodes[i].data == Null
  {
    assert GoodNode(s.heap, s.nodes[i]);
    hide Inv, Canonical;
  }

  class Kvfs {
    const table: array<Node>
    var nodeCount: nat
    /** Live kmalloc buffers. */
    var heap: Buffers

    constructor ()
      ensures Valid() && Inv(State()) && fresh(table) && forall p :: FileAt(State(), p) == None
    {
      table := new Node[MAX_NODES](_ => BLANK);
      nodeCount, heap := 0, map[];
      new;
      forall p ensures FileAt(State(), p) == None && CountUsed(table[..]) == 0 { NoneUsed(table[..], p); }
      NoneUsed(table[..], "");
    }

    ghost predicate Valid()
      reads this
    {
      table.Length == MAX_NODES
    }

    ghost function State(): (s: Vfs)
      requires Valid()
      reads this, table
      ensures |s.nodes| == MAX_NODES
    {
      Vfs(table[..], nodeCount, heap)
    }

    /** The scans by path. */
    method FindNode(p: string) returns (i: nat)
      requires Valid()
      ensures i == Find(table[..], p)
    {
      i := 0;
      while i < MAX_NODES
        invariant i <= MAX_NODES && forall j :: 0 <= j < i ==> !(table[j].used && table[j].path == p)
      {
        if table[i].used && table[i].path == p { break; }
        i := i + 1;
      }
      FindIs(table[..], p, i);
    }

    method FindSlot() returns (i: nat)
      requires Valid()
      ensures i == FirstFree(table[..])
    {
      i := 0;
      while i < MAX_NODES
        invariant i <= MAX_NODES && forall j :: 0 <= j < i ==> table[j].used
      {
        if !table[i].used { break; }
        i := i + 1;
      }
    }

    /** sanitize_path into a local buffer. */
    method Clean(path: Option<string>) returns (p: string)
      requires path.Some? ==> '\0' !in path.value
      ensures p == Sanitize(path)
    {
      var buf := new char[MAX_PATH](_ => ' ');
      var j := SanitizePath(path, buf);
      p := buf[..j];
    }

    /** kfree of what a node owns. */
    method Release(n: Node)
      requires Valid()
      modifies this`heap
      ensures heap == Freed(old(heap), n)
    {
      if n.used && n.dynamic && n.data != Null {
        match n.data
        case Buffer(a) => heap := heap - {a};
        case _ =>
      }
    }

    method Create(path: Option<string>, data: Data, size: nat, typ: byte, mode: nat) returns (ok: bool)
      requires Valid() && (path.Some? ==> '\0' !in path.value)
      modifies this`nodeCount, this`heap, table
      ensures (State(), ok) == VfsTable.Create(old(State()), path, data, size, typ, mode)
    {
      hide Sanitize, Find, FirstFree, Freed;
      if path.None? || nodeCount >= MAX_NODES { return false; }
      var p := Clean(path);
      var i := FindNode(p);
      if i < MAX_NODES {
        Release(table[i]);
        table[i] := Node(table[i].path, data, size, typ, mode, true, false);
        assert table[..] == old(table[..])[i := table[i]];
        return true;
      }
      i := FindSlot();
      if i == MAX_NODES { return false; }
      table[i] := Node(p, data, size, typ, mode, true, false);
      assert table[..] == old(table[..])[i := table[i]];
      nodeCount := nodeCount + 1;
      ok := true;
    }

    /** kvfs_write; `a` is what kmalloc answers. */
    method Write(path: Option<string>, src: Option<seq<byte>>, size: nat, a: Option<nat>,
        junk: seq<byte>) returns (ok: bool)
      requires Valid() && (path.Some? ==> '\0' !in path.value)
      modifies this`nodeCount, this`heap, table
      ensures (State(), ok) == VfsTable.Write(old(State()), path, src, size, a, junk)
    {
      hide Sanitize, Find, FirstFree, Freed, Copied;
      var p := Clean(path);
      if a.None? { return false; }
      heap := heap[a.value := Copied(src, junk)];
      var i := FindNode(p);
      if i < MAX_NODES {
        Release(table[i]);
        table[i] := table[i].(data := Buffer(a.value), size := size, dynamic := true);
        assert table[..] == old(table[..])[i := table[i]];
        return true;
      }
      i := FindSlot();
      if i == MAX_NODES {
        heap := heap - {a.value};
        return false;
      }
      table[i] := Node(p, Buffer(a.value), size, TYPE_FILE, 0x1A4, true, true);
      assert table[..] == old(table[..])[i := table[i]];
      nodeCount := nodeCount + 1;
      ok := true;
    }

    method Delete(path: Option<string>) returns (ok: bool)
      requires Valid() && (path.Some? ==> '\0' !in path.value)
      modifies this`nodeCount, this`heap, table
      ensures (State(), ok) == VfsTable.Delete(old(State()), path)
    {
      hide Sanitize, Find, Freed;
      var p := Clean(path);
      var i := FindNode(p);
      if i == MAX_NODES { return false; }
      Release(table[i]);
      table[i] := table[i].(used := false, path := "", data := Null);
      assert table[..] == old(table[..])[i := table[i]];
      if nodeCount > 0 { nodeCount := nodeCount - 1; }
      ok := true;
    }

    method Open(path: Option<string>) returns (node: Option<nat>)
      requires Valid() && (path.Some? ==> '\0' !in path.value)
      ensures node == VfsTable.Open(State(), path)
    {
      if path.None? { return None; }
      var p := Clean(path);
      var i := FindNode(p);
      node := if i < MAX_NODES then Some(i) else None;
    }

    /** kvfs_read of a node once opened: a deleted one has no data. */
    method Read(node: Option<nat>, buf: array?<byte>, offset: nat, count: nat) returns (n: nat)
      requires Valid() && Inv(State()) && (node.Some? ==> node.value < MAX_NODES)
      requires buf != null ==> count <= buf.Length
      modifies buf
      ensures node.None? || buf == null || !table[node.value].used ==> n == 0
      ensures node.Some? && buf != null ==> n <= count && buf[..n] == ReadNode(heap, table[node.value], offset, count)
      ensures buf != null ==> forall k :: n <= k < buf.Length ==> buf[k] == old(buf[k])
    {
      hide Inv, GoodNode, ReadNode, Contents;
      n := 0;
      if node.None? || buf == null { return; }
      var e := table[node.value];
      ReadsBytes(State(), node.value, offset, count);
      if e.data == Null || offset >= e.size { return; }
      n := count;
      if offset + n > e.size { n := e.size - offset; }
      CopyOut(buf, Bytes(heap, e.data), offset, n);
    }

    /** kmemcpy. */
    method CopyOut(buf: array<byte>, bytes: seq<byte>, offset: nat, n: nat)
      requires n <= buf.Length && offset + n <= |bytes|
      modifies buf
      ensures buf[..n] == bytes[offset..offset + n]
      ensures forall k :: n <= k < buf.Length ==> buf[k] == old(buf[k])
    {
      var k := 0;
      while k < n
        invariant k <= n && forall m :: 0 <= m < k ==> buf[m] == bytes[offset + m]
        invariant forall m :: n <= m < buf.Length ==> buf[m] == old(buf[m])
      {
        buf[k] := bytes[offset + k];
        k := k + 1;
      }
    }

    /** kvfs_list_dir, with the calls of the callback in order. */
    method ListDir(dir: Option<string>) returns (calls: seq<Report>)
      requires Valid() && (dir.Some? ==> '\0' !in dir.value)
      ensures calls == Listing(table[..], Sanitize(dir))
    {
      hide Item, Sanitize;
      var target := Clean(dir);
      calls := [];
      var i := 0;
      while i < MAX_NODES
        invariant i <= MAX_NODES && calls == Listing(table[..i], target)
      {
        var now := ListNode(table[i], target);
        assert table[..i + 1][..i] == table[..i];
        calls := calls + now;
        i := i + 1;
      }
      assert table[..i] == table[..];
    }

    /** kstrchr for a slash. */
    method FindSlash(p: string, i0: nat) returns (k: nat)
      requires i0 <= |p|
      ensures k == SlashFrom(p, i0)
    {
      k := i0;
      while k < |p| && p[k] != '/'
        invariant i0 <= k <= |p| && SlashFrom(p, k) == SlashFrom(p, i0)
      {
        k := k + 1;
      }
    }

    method ListNode(n: Node, target: string) returns (calls: seq<Report>)
      ensures calls == Item(n, target)
    {
      hide SlashFrom;
      calls := [];
      if !n.used || n.path == target { return; }
      var p := n.path;
      if target == "/" {
        if |p| > 1 && p[0] == '/' {
          var sub := FindSlash(p, 1);
          if sub == |p| {
            calls := [ReportOf(n, p[1..])];
          } else if n.typ == TYPE_DIR && sub == |p| - 1 {
            var dlen := sub - 1;
            if dlen < 32 { calls := [ReportOf(n, p[1..1 + dlen])]; }
          }
        }
      } else if |p| > |target| && p[..|target|] == target && p[|target|] == '/' {
        var next := FindSlash(p, |target| + 1);
        if next == |p| { calls := [ReportOf(n, p[|target| + 1..])]; }
      }
    }

    /** The loop at the head of kvfs_init. */
    method ResetTable()
      requires Valid()
      modifies this`nodeCount, this`heap, table
      ensures State() == Reset(old(State()))
    {
      hide Freed;
      var i := 0;
      ghost var was := table[..];
      assert was[..0] == [];
      while i < MAX_NODES
        modifies this`heap, table
        invariant i <= MAX_NODES && heap == FreedAll(old(heap), was[..i])
        invariant forall k :: 0 <= k < i ==> table[k] == ClearedNode(was[k])
        invariant forall k :: i <= k < MAX_NODES ==> table[k] == was[k]
      {
        Release(table[i]);
        assert was[..i + 1][..i] == was[..i];
        table[i] := ClearedNode(table[i]);
        i := i + 1;
      }
      assert was[..i] == was;
      assert table[..] == ClearedAll(was);
      nodeCount := 0;
    }
  }
}
