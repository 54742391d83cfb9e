/**
  What kdiskfs_mount of freestanding/kdiskfs.c tells the VFS: one call for each file it can restore, in the order
  of the table, and no other call.
 */
module DiskMounts {
  import opened Common
  import opened DiskModel
  import opened DiskProof
  import opened DiskRuns

  /** The call that belongs to what is stored under its path; `got` is whether kmalloc gives the memory for a file. */
  ghost predicate Belongs(file: Option<File>, got: bool, c: Restored) {
    file.Some? && match c
    case MkDir(_) => file.value.typ == 1
    case WriteFile(_, data) => file.value.typ != 1 && file.value.data == data && data != [] && got
    case CreateEmpty(_, typ, mode) => file.value == File([], typ, mode) && typ != 1
  }

  /** The call for one entry in use. */
  lemma OneCall(d: Disk, e: Entry, got: bool, c: Restored)
    requires e.used != 0 && (ReadBack(d, e) == [] <==> e.size == 0)
    ensures c in RestoreOne(d, e, got)
      <==> c.path == CStr(e.path) && Belongs(Some(File(ReadBack(d, e), e.typ, e.mode)), got, c)
  {
    hide ReadBack, CStr;
  }

  lemma EmptyIff(s: Fs, k: nat)
    requires Core(s) && k < MAX_FILES && s.entries[k].used != 0
    ensures ReadBack(s.disk, s.entries[k]) == [] <==> s.entries[k].size == 0
  {
    assert UsedOk(s, s.entries[k]);
    hide Core, CStr, GoodEntry, Cat;
  }

  lemma FoundAt(s: Fs, k: nat)
    requires Core(s) && k < MAX_FILES && s.entries[k].used != 0
    ensures Find(s.entries, CStr(s.entries[k].path)) == k && |s.entries| == MAX_FILES
  {
    FindOnly(s, k);
  }

  lemma UnusedCallsNothing(d: Disk, e: Entry, got: bool)
    ensures e.used == 0 ==> RestoreOne(d, e, got) == []
  {
  }

  /** The calls for a whole table. */
  lemma CallsIff(s: Fs, got: seq<bool>, c: Restored)
    requires Core(s) && |got| == MAX_FILES
    ensures |s.entries| == MAX_FILES
    ensures c in Restore(s.disk, s.entries, got)
      <==> Find(s.entries, c.path) < MAX_FILES && Belongs(FileOf(s, c.path), got[Find(s.entries, c.path)], c)
  {
    CoreTable(s);
    hide Core, Restore, RestoreOne, ReadBack, CStr, GoodTable, Belongs, Sized;
    var es, i := s.entries, Find(s.entries, c.path);
    if i < MAX_FILES {
      EmptyIff(s, i);
      OneCall(s.disk, es[i], got[i], c);
      if c in RestoreOne(s.disk, es[i], got[i]) { RestoreHas(s.disk, es, got, i, c); }
    }
    if c in Restore(s.disk, es, got) {
      var k := RestoreFrom(s.disk, es, got, c);
      UnusedCallsNothing(s.disk, es[k], got[k]);
      EmptyIff(s, k);
      OneCall(s.disk, es[k], got[k], c);
      FoundAt(s, k);
    }
  }

  /**
    A mount in the same session tells the VFS exactly this: to make a directory for each path that holds one, to
    write each file that is not empty and gets its memory, with its bytes, and to create each empty file with its
    type and mode.
   */
  lemma MountCallsIff(s: Fs, got: seq<bool>, c: Restored)
    requires Core(s) && |got| == MAX_FILES
    ensures Sized(s)
    ensures c in Mount(s, got).1
      <==> Find(s.entries, c.path) < MAX_FILES && Belongs(FileOf(s, c.path), got[Find(s.entries, c.path)], c)
  {
    CoreTable(s);
    hide *;
    MountReturns(s, s);
    LoadedAgain(s);
    CallsIff(s, got, c);
  }

  /** After a power cycle it does so for what the first 25 entries hold. */
  lemma CycleCallsIff(s: Fs, got: seq<bool>, c: Restored)
    requires Core(s) && |got| == MAX_FILES
    ensures Sized(Off(s))
    ensures c in Mount(Off(s), got).1
      <==> Find(s.entries, c.path) < 25 && Belongs(FileOf(s, c.path), got[Find(s.entries, c.path)], c)
  {
    assert Sized(Off(s));
    CoreTable(s);
    hide *;
    CycleCut(s);
    CycleKeepsCore(s);
    CycleFile(s, c.path);
    CallsIff(PowerCycle(s), got, c);
    CutFind(s, PowerCycle(s), c.path);
    SameDisk(s, PowerCycle(s));
    BelongsNone(got, c);
  }

  lemma BelongsNone(got: seq<bool>, c: Restored)
    ensures forall g :: !Belongs(None, g, c)
  {
  }

  lemma SameDisk(s: Fs, m: Fs)
    requires Cut(s, m)
    ensures m.disk == s.disk
  {
  }

  lemma CutFind(s: Fs, m: Fs, q: seq<byte>)
    requires Cut(s, m)
    ensures |s.entries| == MAX_FILES && |m.entries| == MAX_FILES
    ensures Find(m.entries, q) == if Find(s.entries, q) < 25 then Find(s.entries, q) else MAX_FILES
  {
    hide CStr, GoodEntry;
    var i := Find(s.entries, q);
    FirstIs(m.entries, q, if i < 25 then i else MAX_FILES);
  }

  // ---- their order -------------------------------------------------------------------------------------------

  /** The names for which there is a call, in the order of the places. */
  function Called(d: seq<Option<Item>>, got: seq<bool>): seq<seq<byte>>
    requires |got| == |d|
  {
    if d == [] then []
    else
      var told := d[0].Some? && (d[0].value.file.typ == 1 || d[0].value.file.data == [] || got[0]);
      (if told then [d[0].value.name] else []) + Called(d[1..], got[1..])
  }

  function Paths(cs: seq<Restored>): seq<seq<byte>> { if cs == [] then [] else [cs[0].path] + Paths(cs[1..]) }

  function Places(d: Disk, es: seq<Entry>): (v: seq<Option<Item>>)
    ensures |v| == |es|
  {
    seq(|es|, i requires 0 <= i < |es| => Place(d, es[i]))
  }

  lemma {:induction false} PathsSum(a: seq<Restored>, b: seq<Restored>)
    ensures Paths(a + b) == Paths(a) + Paths(b)
    decreases |a|
  {
    if a == [] {
      assert a + b == b;
    } else {
      assert (a + b)[1..] == a[1..] + b;
      PathsSum(a[1..], b);
    }
  }

  lemma OnePath(d: Disk, e: Entry, got: bool)
    requires e.used != 0 ==> (ReadBack(d, e) == [] <==> e.size == 0)
    ensures Paths(RestoreOne(d, e, got)) == Called([Place(d, e)], [got])
  {
    hide ReadBack, CStr;
    assert [Place(d, e)][1..] == [] && [got][1..] == [];
    var cs := RestoreOne(d, e, got);
    if cs != [] { assert cs[1..] == []; }
  }

  lemma CalledFirst(d: seq<Option<Item>>, got: seq<bool>)
    requires |got| == |d| > 0
    ensures Called(d, got) == Called([d[0]], [got[0]]) + Called(d[1..], got[1..])
  {
    assert [d[0]][1..] == [] && [got[0]][1..] == [];
  }

  lemma {:induction false} PathsInOrder(d: Disk, es: seq<Entry>, got: seq<bool>)
    requires |got| == |es|
    requires forall k :: 0 <= k < |es| && es[k].used != 0 ==> (ReadBack(d, es[k]) == [] <==> es[k].size == 0)
    ensures Paths(Restore(d, es, got)) == Called(Places(d, es), got)
    decreases |es|
  {
    hide ReadBack, RestoreOne, Place;
    if es == [] {
    } else {
      PathsInOrder(d, es[1..], got[1..]);
      OnePath(d, es[0], got[0]);
      PathsSum(RestoreOne(d, es[0], got[0]), Restore(d, es[1..], got[1..]));
      CalledFirst(Places(d, es), got);
      assert Places(d, es)[1..] == Places(d, es[1..]) && Places(d, es)[0] == Place(d, es[0]);
    }
  }

  lemma CallsInOrder(s: Fs, got: seq<bool>)
    requires Core(s) && |got| == MAX_FILES
    ensures Sized(s) && Paths(Restore(s.disk, s.entries, got)) == Called(View(s), got)
  {
    CoreTable(s);
    hide Core, ReadBack, Restore, Called, Place, GoodTable;
    forall k | 0 <= k < MAX_FILES && s.entries[k].used != 0
      ensures ReadBack(s.disk, s.entries[k]) == [] <==> s.entries[k].size == 0
    {
      EmptyIff(s, k);
    }
    PathsInOrder(s.disk, s.entries, got);
    assert Places(s.disk, s.entries) == View(s);
  }

  /** A mount in the same session makes one call for each of these places, in their order. */
  lemma MountInOrder(s: Fs, got: seq<bool>)
    requires Core(s) && |got| == MAX_FILES
    ensures Sized(s) && Paths(Mount(s, got).1) == Called(View(s), got)
  {
    CoreTable(s);
    hide *;
    MountReturns(s, s);
    LoadedAgain(s);
    CallsInOrder(s, got);
  }

  /** After a power cycle it does so for the first 25 places. */
  lemma CycleInOrder(s: Fs, got: seq<bool>)
    requires Core(s) && |got| == MAX_FILES
    ensures Sized(s) && Sized(Off(s))
    ensures Paths(Mount(Off(s), got).1) == Called(View(s)[..25], got[..25])
  {
    assert Sized(Off(s));
    CoreTable(s);
    hide *;
    CycleCut(s);
    CycleKeepsCore(s);
    CallsInOrder(PowerCycle(s), got);
    SameDisk(s, PowerCycle(s));
    CutCalled(s, PowerCycle(s), got);
  }

  lemma CutCalled(s: Fs, m: Fs, got: seq<bool>)
    requires Cut(s, m) && |got| == MAX_FILES
    ensures Sized(s) && Sized(m) && Called(View(m), got) == Called(View(s)[..25], got[..25])
  {
    CutView(s, m);
    hide View, Cut, Called;
    var front, back := View(m)[..25], View(m)[25..];
    assert front == View(s)[..25] && front + back == View(m) && got[..25] + got[25..] == got;
    CalledSplit(front, back, got[..25], got[25..]);
    CalledNone(back, got[25..]);
  }

  lemma {:induction false} CalledSplit(a: seq<Option<Item>>, b: seq<Option<Item>>, g: seq<bool>, h: seq<bool>)
    requires |g| == |a| && |h| == |b|
    ensures Called(a + b, g + h) == Called(a, g) + Called(b, h)
    decreases |a|
  {
    if a == [] {
      assert a + b == b && g + h == h;
    } else {
      assert (a + b)[1..] == a[1..] + b && (g + h)[1..] == g[1..] + h;
      CalledSplit(a[1..], b, g[1..], h);
    }
  }

  lemma {:induction false} CalledNone(b: seq<Option<Item>>, h: seq<bool>)
    requires |h| == |b| && forall i :: 0 <= i < |b| ==> b[i].None?
    ensures Called(b, h) == []
    decreases |b|
  {
    if b == [] {
    } else {
      CalledNone(b[1..], h[1..]);
    }
  }
}
