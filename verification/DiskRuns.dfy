/**
  freestanding/kdiskfs.c across mounts: what the four table sectors bring back, in the same session and after
  a power cycle, and every run of format, save, delete, mount and power cycle.
 */
module DiskRuns {
  import opened Arith
  import opened Common
  import opened DiskModel
  import opened DiskProof

  // ---- the table, from the disk and from memory ---------------------------------------------------------------

  lemma {:induction false} TableSlice(es: seq<Entry>, k: nat)
    requires k < |es| && forall i :: 0 <= i < |es| ==> |es[i].path| == 64
    ensures TableBytes(es)[k * ENTRY_SIZE..(k + 1) * ENTRY_SIZE] == Encode(es[k])
    decreases k
  {
    var b := TableBytes(es);
    if k == 0 {
      assert b[0..ENTRY_SIZE] == Encode(es[0]);
    } else {
      TableSlice(es[1..], k - 1);
      assert b[k * ENTRY_SIZE..(k + 1) * ENTRY_SIZE] == TableBytes(es[1..])[(k - 1) * ENTRY_SIZE..k * ENTRY_SIZE];
    }
  }

  /** The bytes a mount finds: the first four sectors of the table as synced, then what was in memory. */
  function MountedBytes(s: Fs, ram: seq<Entry>): (b: seq<byte>)
    requires Sized(s) && |ram| == MAX_FILES && forall i :: 0 <= i < MAX_FILES ==> |ram[i].path| == 64
    ensures |b| == MAX_FILES * ENTRY_SIZE
  {
    TableBytes(s.entries)[..4 * SECTOR] + TableBytes(ram)[4 * SECTOR..]
  }

  lemma FourSlices(t: seq<byte>)
    requires |t| >= 4 * SECTOR
    ensures t[0 * SECTOR..(0 + 1) * SECTOR] + t[1 * SECTOR..(1 + 1) * SECTOR] + t[2 * SECTOR..(2 + 1) * SECTOR]
            + t[3 * SECTOR..(3 + 1) * SECTOR] == t[..4 * SECTOR]
  {
    assert t[..1 * SECTOR] + t[1 * SECTOR..2 * SECTOR] == t[..2 * SECTOR];
    assert t[..2 * SECTOR] + t[2 * SECTOR..3 * SECTOR] == t[..3 * SECTOR];
    assert t[..3 * SECTOR] + t[3 * SECTOR..4 * SECTOR] == t[..4 * SECTOR];
  }

  lemma LoadedBytes(s: Fs, ram: seq<Entry>)
    requires Sized(s) && Synced(s) && |ram| == MAX_FILES && forall i :: 0 <= i < MAX_FILES ==> |ram[i].path| == 64
    ensures LoadTable(s.disk, ram) == DecodeTable(MountedBytes(s, ram))
  {
    hide TableBytes, DecodeTable, SuperSector;
    FourSlices(TableBytes(s.entries));
    assert TableSector(s, 0) + TableSector(s, 1) + TableSector(s, 2) + TableSector(s, 3)
      == TableBytes(s.entries)[..4 * SECTOR];
  }

  const WHOLE: nat := 25
  const PART: nat := 48

  predicate GoodTable(es: seq<Entry>) { |es| == MAX_FILES && forall i :: 0 <= i < MAX_FILES ==> GoodEntry(es[i]) }

  /**
    The table a mount makes of the table on disk and the one in memory: 25 whole entries and 48 characters of
    the next one's path come from the disk.
   */
  function Loaded(es: seq<Entry>, ram: seq<Entry>): (r: seq<Entry>)
    requires GoodTable(es) && GoodTable(ram)
    ensures GoodTable(r)
  {
    es[..WHOLE] + [ram[WHOLE].(path := es[WHOLE].path[..PART] + ram[WHOLE].path[PART..])] + ram[WHOLE + 1..]
  }

  lemma {:induction false} CutTable(es: seq<Entry>, k: nat)
    requires k <= |es| && forall i :: 0 <= i < |es| ==> |es[i].path| == 64
    ensures TableBytes(es) == TableBytes(es[..k]) + TableBytes(es[k..])
    decreases k
  {
    if k == 0 {
      assert es[..0] == [] && es[0..] == es;
    } else {
      CutTable(es[1..], k - 1);
      assert es[..k][1..] == es[1..][..k - 1] && es[1..][k - 1..] == es[k..];
    }
  }

  lemma JoinBytes(a: seq<byte>, b: seq<byte>, c: seq<byte>, a': seq<byte>, b': seq<byte>, c': seq<byte>)
    requires |a| == |a'| && |b| == |b'| && PART <= |b|
    ensures (a + (b + c))[..|a| + PART] + (a' + (b' + c'))[|a| + PART..] == a + (b[..PART] + b'[PART..]) + c'
  {
  }

  lemma EncodeHead(e: Entry, f: Entry)
    requires GoodEntry(e) && GoodEntry(f)
    ensures Encode(e)[..PART] + Encode(f)[PART..] == Encode(f.(path := e.path[..PART] + f.path[PART..]))
  {
    hide Le;
  }

  lemma TableAround(es: seq<Entry>)
    requires GoodTable(es)
    ensures TableBytes(es) == TableBytes(es[..WHOLE]) + (Encode(es[WHOLE]) + TableBytes(es[WHOLE + 1..]))
  {
    CutTable(es, WHOLE);
    assert es[WHOLE..][0] == es[WHOLE] && es[WHOLE..][1..] == es[WHOLE + 1..];
  }

  /** The bytes a mount finds are those of the loaded table. */
  lemma MountedIs(s: Fs, ram: seq<Entry>)
    requires GoodTable(s.entries) && GoodTable(ram)
    ensures MountedBytes(s, ram) == TableBytes(Loaded(s.entries, ram))
  {
    hide TableBytes, Encode;
    var es, r := s.entries, Loaded(s.entries, ram);
    TableAround(es); TableAround(ram); TableAround(r);
    EncodeHead(es[WHOLE], ram[WHOLE]);
    JoinBytes(TableBytes(es[..WHOLE]), Encode(es[WHOLE]), TableBytes(es[WHOLE + 1..]),
              TableBytes(ram[..WHOLE]), Encode(ram[WHOLE]), TableBytes(ram[WHOLE + 1..]));
    assert r[..WHOLE] == es[..WHOLE] && r[WHOLE + 1..] == ram[WHOLE + 1..];
  }

  lemma DecodesTable(es: seq<Entry>)
    requires GoodTable(es)
    ensures DecodeTable(TableBytes(es)) == es
  {
    hide TableBytes, Encode, Decode;
    forall k | 0 <= k < MAX_FILES ensures DecodeTable(TableBytes(es))[k] == es[k] {
      TableSlice(es, k);
      EntryRoundTrip(es[k]);
    }
  }

  /** The table after a mount, whatever memory held before. */
  lemma LoadIs(s: Fs, ram: seq<Entry>)
    requires Core(s) && GoodTable(ram)
    ensures LoadTable(s.disk, ram) == Loaded(s.entries, ram)
  {
    assert Synced(s) && GoodTable(s.entries);
    hide LoadTable, Synced, Loaded, MountedBytes, DecodeTable, TableBytes, Core;
    LoadedBytes(s, ram);
    MountedIs(s, ram);
    DecodesTable(Loaded(s.entries, ram));
  }

  lemma Fields(a: seq<byte>, b: seq<byte>, c: seq<byte>, d: seq<byte>, z: seq<byte>)
    requires |a| == |b| == |c| == |d| == 4
    ensures var s := a + b + c + d + z; s[0..4] == a && s[4..8] == b && s[8..12] == c && s[12..16] == d
  {
  }

  lemma SuperReturns(magic: nat, num: nat, next: nat, bsize: nat)
    requires magic < U32 && num < U32 && next < U32 && bsize < U32
    ensures var sb := SuperSector(magic, num, next, bsize);
      UnLe(sb[0..4]) == magic && UnLe(sb[4..8]) == num && UnLe(sb[8..12]) == next && UnLe(sb[12..16]) == bsize
  {
    SmallPow256();
    LeInverse(magic, 4); LeInverse(num, 4); LeInverse(next, 4); LeInverse(bsize, 4);
    hide Le, UnLe, Pow;
    Fields(Le(magic, 4), Le(num, 4), Le(next, 4), Le(bsize, 4), Zeros(SECTOR - 16));
  }

  // ---- mounting -------------------------------------------------------------------------------------------

  /** The state a mount makes of a disk left by any run, whatever memory held before. */
  lemma MountReturns(s: Fs, ram: Fs)
    requires Core(s) && GoodTable(ram.entries) && ram.disk == s.disk
    ensures Marked(ram) && Mounted(ram) == s.(entries := Loaded(s.entries, ram.entries))
    ensures LoadTable(s.disk, ram.entries) == Loaded(s.entries, ram.entries)
    ensures forall got :: |got| == MAX_FILES ==>
      Mount(ram, got) == (Mounted(ram), Restore(s.disk, Loaded(s.entries, ram.entries), got))
  {
    SuperReturns(s.magic, s.num, s.next, s.bsize);
    LoadIs(s, ram.entries);
    hide LoadTable, UnLe, SuperSector, TableSector, Loaded;
  }

  lemma LoadedAgain(s: Fs)
    requires GoodTable(s.entries)
    ensures s.(entries := Loaded(s.entries, s.entries)) == s
  {
    var e := s.entries[WHOLE];
    assert e.path[..PART] + e.path[PART..] == e.path;
    assert Loaded(s.entries, s.entries) == s.entries;
  }

  lemma CoreTable(s: Fs)
    requires Core(s)
    ensures GoodTable(s.entries) && Sized(s)
  {
  }

  /** A second mount in the same session changes nothing. */
  lemma MountAgain(s: Fs)
    requires Core(s)
    ensures Sized(s) && Mounted(s) == s
  {
    CoreTable(s);
    hide *;
    MountReturns(s, s);
    LoadedAgain(s);
  }

  /** Memory as it is after a power cycle: the superblock and the table are zero. */
  function Off(s: Fs): Fs { Fs(0, 0, 0, 0, Blank(), s.disk) }

  function PowerCycle(s: Fs): Fs { Mounted(Off(s)) }

  /** Memory m has the first 25 entries of s and no other used entry; the rest of it is as in s. */
  ghost predicate Cut(s: Fs, m: Fs) {
    && GoodTable(s.entries) && GoodTable(m.entries) && m == s.(entries := m.entries)
    && (forall k :: 0 <= k < WHOLE ==> m.entries[k] == s.entries[k])
    && forall k :: WHOLE <= k < MAX_FILES ==> m.entries[k].used == 0
  }

  lemma BlankCut(s: Fs)
    requires GoodTable(s.entries)
    ensures GoodTable(Blank()) && Cut(s, s.(entries := Loaded(s.entries, Blank())))
  {
  }

  /** A power cycle and the mount after it keep the first 25 entries and lose the others. */
  lemma CycleCut(s: Fs)
    requires Core(s)
    ensures Cut(s, PowerCycle(s)) && GoodTable(Blank()) && PowerCycle(s) == s.(entries := Loaded(s.entries, Blank()))
    ensures forall got :: |got| == MAX_FILES ==> Mount(Off(s), got).1 == Restore(s.disk, PowerCycle(s).entries, got)
  {
    CoreTable(s);
    BlankCut(s);
    hide Core, Mounted, Loaded, LoadTable, Blank, Cut, Restore;
    MountReturns(s, Off(s));
  }

  /** The number of files whose entries do not fit the four sectors. */
  function Lost(s: Fs): nat
    requires Sized(s)
  {
    CountUsed(s.entries[WHOLE..])
  }

  lemma {:induction false} CountCut(es: seq<Entry>, k: nat)
    requires k <= |es|
    ensures CountUsed(es) == CountUsed(es[..k]) + CountUsed(es[k..])
    decreases k
  {
    if k == 0 {
      assert es[..0] == [] && es[0..] == es;
    } else {
      CountCut(es[1..], k - 1);
      assert es[..k][1..] == es[1..][..k - 1] && es[1..][k - 1..] == es[k..];
    }
  }

  lemma {:induction false} CountNone(es: seq<Entry>)
    ensures CountUsed(es) == 0 <==> forall i :: 0 <= i < |es| ==> es[i].used == 0
    decreases |es|
  {
    if es == [] {
    } else {
      CountNone(es[1..]);
      assert forall i :: 1 <= i < |es| ==> es[i] == es[1..][i - 1];
    }
  }

  lemma CutSurplus(s: Fs, m: Fs)
    requires Cut(s, m)
    ensures Surplus(m) == Surplus(s) + Lost(s)
  {
    hide CountUsed;
    CountCut(s.entries, WHOLE);
    CountCut(m.entries, WHOLE);
    assert m.entries[..WHOLE] == s.entries[..WHOLE];
    CountNone(m.entries[WHOLE..]);
  }

  /** A power cycle leaves the counter as it is and forgets the files past the 25th entry. */
  lemma CycleSurplus(s: Fs)
    requires Core(s)
    ensures Sized(s) && Surplus(PowerCycle(s)) == Surplus(s) + Lost(s)
  {
    CoreTable(s);
    hide *;
    CycleCut(s);
    CutSurplus(s, PowerCycle(s));
  }

  lemma LoadedSynced(s: Fs, m: Fs)
    requires GoodTable(s.entries) && GoodTable(Blank()) && Synced(s) && m == s.(entries := Loaded(s.entries, Blank()))
    ensures Synced(m)
  {
    MountedIs(s, Blank());
    hide TableBytes, Loaded, SuperSector, Blank;
    assert TableBytes(m.entries)[..4 * SECTOR] == TableBytes(s.entries)[..4 * SECTOR];
    forall i: nat | i < 4 ensures TableSector(m, i) == TableSector(s, i) {
      SliceOfPrefix(TableBytes(m.entries), TableBytes(s.entries), i);
    }
  }

  lemma SliceOfPrefix(t: seq<byte>, u: seq<byte>, i: nat)
    requires |t| == |u| == MAX_FILES * ENTRY_SIZE && t[..4 * SECTOR] == u[..4 * SECTOR] && i < 4
    ensures t[i * SECTOR..(i + 1) * SECTOR] == u[i * SECTOR..(i + 1) * SECTOR]
  {
    assert t[i * SECTOR..(i + 1) * SECTOR] == t[..4 * SECTOR][i * SECTOR..(i + 1) * SECTOR];
    assert u[i * SECTOR..(i + 1) * SECTOR] == u[..4 * SECTOR][i * SECTOR..(i + 1) * SECTOR];
  }

  lemma CutCore(s: Fs, m: Fs)
    requires Core(s) && Cut(s, m) && Sized(m) && Synced(m)
    ensures Core(m)
  {
    hide Synced, CStr, Needed, GoodEntry;
    forall k | 0 <= k < MAX_FILES ensures UsedOk(m, m.entries[k]) { assert UsedOk(s, s.entries[k]); }
    forall i, j | 0 <= i < j < MAX_FILES && m.entries[i].used != 0 && m.entries[j].used != 0
      ensures ApartFrom(m.entries[i], m.entries[j]) && CStr(m.entries[i].path) != CStr(m.entries[j].path)
    {
      assert s.entries[i] == m.entries[i] && s.entries[j] == m.entries[j];
    }
  }

  lemma CoreSynced(s: Fs)
    requires Core(s)
    ensures Sized(s) && Synced(s)
  {
  }

  lemma CycleKeepsCore(s: Fs)
    requires Core(s)
    ensures Core(PowerCycle(s))
  {
    CoreTable(s);
    CoreSynced(s);
    CycleCut(s);
    var m := PowerCycle(s);
    assert Sized(m);
    hide *;
    LoadedSynced(s, m);
    CutCore(s, m);
  }

  lemma LostNone(s: Fs)
    requires Sized(s)
    ensures Lost(s) == 0 <==> forall k :: WHOLE <= k < MAX_FILES ==> s.entries[k].used == 0
  {
    CountNone(s.entries[WHOLE..]);
    assert forall k :: WHOLE <= k < MAX_FILES ==> s.entries[k] == s.entries[WHOLE..][k - WHOLE];
    hide CountUsed;
  }

  lemma InvCore(s: Fs)
    requires Inv(s)
    ensures Core(s)
  {
  }

  lemma SurplusInv(s: Fs)
    requires Core(s)
    ensures Inv(s) <==> Surplus(s) == 0
  {
  }

  /** The counter is right after a power cycle exactly when no file has an entry from 25 on. */
  lemma CycleInvIff(s: Fs)
    requires Inv(s)
    ensures Inv(PowerCycle(s)) <==> forall k :: WHOLE <= k < MAX_FILES ==> s.entries[k].used == 0
  {
    InvCore(s);
    CoreTable(s);
    hide *;
    CycleKeepsCore(s);
    CycleSurplus(s);
    LostNone(s);
    SurplusInv(s);
    SurplusInv(PowerCycle(s));
  }

  lemma CutFile(s: Fs, m: Fs, q: seq<byte>)
    requires Cut(s, m)
    ensures FileOf(m, q) == if Find(s.entries, q) < WHOLE then FileOf(s, q) else None
  {
    hide ReadBack, CStr, GoodEntry;
    var i := Find(s.entries, q);
    FirstIs(m.entries, q, if i < WHOLE then i else MAX_FILES);
  }

  /** A power cycle keeps exactly the files whose entries are among the first 25, with their contents. */
  lemma CycleFile(s: Fs, q: seq<byte>)
    requires Core(s)
    ensures FileOf(PowerCycle(s), q) == if Find(s.entries, q) < WHOLE then FileOf(s, q) else None
  {
    CycleCut(s);
    hide *;
    CutFile(s, PowerCycle(s), q);
  }

  lemma {:induction false} RestoreHas(d: Disk, es: seq<Entry>, got: seq<bool>, k: nat, c: Restored)
    requires |got| == |es| && k < |es| && c in RestoreOne(d, es[k], got[k])
    ensures c in Restore(d, es, got)
    decreases k
  {
    if k == 0 {
      assert Restore(d, es, got) == RestoreOne(d, es[0], got[0]) + Restore(d, es[1..], got[1..]);
    } else {
      RestoreHas(d, es[1..], got[1..], k - 1, c);
    }
  }

  lemma {:induction false} RestoreFrom(d: Disk, es: seq<Entry>, got: seq<bool>, c: Restored) returns (k: nat)
    requires |got| == |es| && c in Restore(d, es, got)
    ensures k < |es| && c in RestoreOne(d, es[k], got[k])
    decreases |es|
  {
    if c in RestoreOne(d, es[0], got[0]) {
      k := 0;
    } else {
      k := RestoreFrom(d, es[1..], got[1..], c);
      k := k + 1;
    }
  }

  lemma RestoresIt(d: Disk, e: Entry)
    requires e.used != 0 && e.typ != TYPE_DIR && e.size > 0
    ensures RestoreOne(d, e, true) == [WriteFile(CStr(e.path), ReadBack(d, e))]
  {
  }

  lemma RestoredIs(d: Disk, e: Entry, got: bool, c: Restored)
    requires c in RestoreOne(d, e, got) && c.WriteFile?
    ensures got && e.used != 0 && CStr(e.path) == c.path
  {
  }

  lemma CutRestored(s: Fs, m: Fs, path: seq<byte>, got: seq<bool>)
    requires Core(s) && Cut(s, m) && FileOf(s, path).Some? && |got| == MAX_FILES
    requires FileOf(s, path).value.typ != TYPE_DIR && FileOf(s, path).value.data != []
    ensures |m.entries| == MAX_FILES && Find(s.entries, path) < MAX_FILES
    ensures WriteFile(path, FileOf(s, path).value.data) in Restore(s.disk, m.entries, got)
      <==> Find(s.entries, path) < WHOLE && got[Find(s.entries, path)]
  {
    hide Core, ReadBack, CStr, Restore, RestoreOne, GoodEntry, GoodTable;
    var i, es := Find(s.entries, path), m.entries;
    assert |s.entries| == MAX_FILES && |es| == MAX_FILES by { CutSizes(s, m); }
    SizeOfNonEmpty(s, i);
    var c := WriteFile(path, FileOf(s, path).value.data);
    if i < WHOLE && got[i] {
      RestoresIt(s.disk, es[i]);
      RestoreHas(s.disk, es, got, i, c);
    } else if c in Restore(s.disk, es, got) {
      var k := RestoreFrom(s.disk, es, got, c);
      RestoredIs(s.disk, es[k], got[k], c);
      OtherFile(s, path, k);
      assert false;
    }
  }

  lemma CutSizes(s: Fs, m: Fs)
    requires Cut(s, m)
    ensures |s.entries| == MAX_FILES && |m.entries| == MAX_FILES
  {
  }

  /**
    The mount after a power cycle hands a non-empty file to the VFS with exactly its last saved bytes if and
    only if its entry is among the first 25 and kmalloc gives the memory for it.
   */
  lemma RestoredIff(s: Fs, path: seq<byte>, got: seq<bool>)
    requires Core(s) && FileOf(s, path).Some? && FileOf(s, path).value.typ != TYPE_DIR && |got| == MAX_FILES
    requires FileOf(s, path).value.data != []
    ensures Find(s.entries, path) < MAX_FILES
    ensures WriteFile(path, FileOf(s, path).value.data) in Mount(Off(s), got).1
      <==> Find(s.entries, path) < WHOLE && got[Find(s.entries, path)]
  {
    CoreTable(s);
    hide *;
    CycleCut(s);
    CutRestored(s, PowerCycle(s), path, got);
  }

  lemma SizeOfNonEmpty(s: Fs, i: nat)
    requires Core(s) && i < MAX_FILES && ReadBack(s.disk, s.entries[i]) != []
    ensures s.entries[i].size > 0
  {
  }

  // ---- runs --------------------------------------------------------------------------------------------------

  datatype Op =
    | DoFormat
    | DoSave(path: seq<byte>, src: Option<seq<byte>>, size: nat, typ: byte, mode: nat)
    | DoDelete(path: seq<byte>)
    | DoMount
    | DoPowerCycle

  /** A save with data says how much. */
  predicate Sane(op: Op) { op.DoSave? && op.src.Some? ==> |op.src.value| == op.size }

  /** What the callers and the disk owe: 32-bit sizes, and room for the data and the name of every save. */
  ghost predicate OpOk(s: Fs, op: Op)
    requires Sized(s)
  {
    match op
    case DoFormat => true
    case DoSave(path, src, size, typ, mode) =>
      && Sane(op) && NoNul(path) && size < U32 && mode < 65536
      && SaveFits(s, path, size) && NameFits(s, path)
    case DoDelete(path) => true
    case DoMount => true
    case DoPowerCycle => true
  }

  ghost function Step(s: Fs, op: Op): Fs
    requires Sized(s) && OpOk(s, op)
  {
    match op
    case DoFormat => Format(s)
    case DoSave(path, src, size, typ, mode) => Save(s, path, src, size, typ, mode).0
    case DoDelete(path) => Delete(s, path).0
    case DoMount => Mounted(s)
    case DoPowerCycle => PowerCycle(s)
  }

  lemma StepCore(s: Fs, op: Op)
    requires Core(s) && OpOk(s, op)
    ensures Core(Step(s, op))
  {
    hide Core, Mounted, PowerCycle, Format, Save, Delete;
    match op
    case DoFormat => FormatInv(s, []);
    case DoSave(path, src, size, typ, mode) => SaveKeepsCore(s, path, src, size, typ, mode);
    case DoDelete(path) => DeleteKeepsCore(s, path);
    case DoMount => MountAgain(s);
    case DoPowerCycle => CycleKeepsCore(s);
  }

  /** How far the counter is ahead of the files after an operation. */
  lemma StepSurplus(s: Fs, op: Op)
    requires Core(s) && OpOk(s, op) && Surplus(s) >= 0 && Surplus(s) + MAX_FILES < U32
    ensures Surplus(Step(s, op)) == match op
      case DoFormat => 0
      case DoPowerCycle => Surplus(s) + Lost(s)
      case _ => Surplus(s)
  {
    hide Mounted, PowerCycle, Format, Save, Delete, Surplus, Lost;
    match op
    case DoFormat => FormatSurplus(s);
    case DoSave(path, src, size, typ, mode) => SaveSurplus(s, path, src, size, typ, mode);
    case DoDelete(path) => DeleteSurplus(s, path);
    case DoMount => MountAgain(s);
    case DoPowerCycle => CycleSurplus(s);
  }

  lemma FormatSurplus(s: Fs)
    ensures Surplus(Format(s)) == 0
  {
    hide *;
    FormatInv(s, []);
    InvCore(Format(s));
    SurplusInv(Format(s));
  }

  ghost predicate RunOk(s: Fs, ops: seq<Op>)
    decreases |ops|
  {
    ops == [] || (Sized(s) && Sane(ops[0]) && OpOk(s, ops[0]) && RunOk(Step(s, ops[0]), ops[1..]))
  }

  ghost function Run(s: Fs, ops: seq<Op>): Fs
    requires RunOk(s, ops)
    decreases |ops|
  {
    if ops == [] then s else Run(Step(s, ops[0]), ops[1..])
  }

  // ---- the directory a caller sees ---------------------------------------------------------------------------

  /** A file under its name. */
  datatype Item = Item(name: seq<byte>, file: File)

  /** The 32 places for files: no sectors, counters or table. */
  type Dir = d: seq<Option<Item>> | |d| == MAX_FILES witness seq(MAX_FILES, _ => None)

  function Place(d: Disk, e: Entry): Option<Item> {
    if e.used == 0 then None else Some(Item(CStr(e.path), File(ReadBack(d, e), e.typ, e.mode)))
  }

  /** The directory a state stands for. */
  function View(s: Fs): Dir
    requires Sized(s)
  {
    seq(MAX_FILES, i requires 0 <= i < MAX_FILES => Place(s.disk, s.entries[i]))
  }

  /** The first place of that name, or 32. */
  function Where(d: seq<Option<Item>>, q: seq<byte>): (i: nat)
    ensures i <= |d| && (i < |d| ==> d[i].Some? && d[i].value.name == q)
    ensures forall j :: 0 <= j < i ==> !(d[j].Some? && d[j].value.name == q)
  {
    if d == [] then 0 else if d[0].Some? && d[0].value.name == q then 0 else 1 + Where(d[1..], q)
  }

  function FirstNone(d: seq<Option<Item>>): (i: nat)
    ensures i <= |d| && (i < |d| ==> d[i].None?)
    ensures forall j :: 0 <= j < i ==> d[j].Some?
  {
    if d == [] then 0 else if d[0].None? then 0 else 1 + FirstNone(d[1..])
  }

  function Lookup(d: Dir, q: seq<byte>): Option<File> {
    if Where(d, q) < MAX_FILES then Some(d[Where(d, q)].value.file) else None
  }

  /** What an operation does to the directory. */
  function Shown(d: Dir, op: Op): Dir
    requires Sane(op)
  {
    match op
    case DoFormat => seq(MAX_FILES, _ => None)
    case DoSave(path, src, size, typ, mode) =>
      var i := if Where(d, path) < MAX_FILES then Where(d, path) else FirstNone(d);
      if i == MAX_FILES then d else d[i := Some(Item(Stored(path), File(Meant(src, size), typ, mode)))]
    case DoDelete(path) => if Where(d, path) < MAX_FILES then d[Where(d, path) := None] else d
    case DoMount => d
    case DoPowerCycle => d[..WHOLE] + seq(MAX_FILES - WHOLE, _ => None)
  }

  /** The directory at the end, going by the history of the operations alone. */
  function Expected(d: Dir, ops: seq<Op>): Dir
    requires forall i :: 0 <= i < |ops| ==> Sane(ops[i])
    decreases |ops|
  {
    if ops == [] then d else Expected(Shown(d, ops[0]), ops[1..])
  }

  /** The searches agree. */
  lemma ViewFinds(s: Fs, q: seq<byte>)
    requires Sized(s)
    ensures Where(View(s), q) == Find(s.entries, q) && FirstNone(View(s)) == FirstUnused(s.entries)
  {
    hide ReadBack, CStr, Where, Find, FirstNone, FirstUnused;
    forall k | 0 <= k < MAX_FILES ensures View(s)[k] == Place(s.disk, s.entries[k]) {}
    hide View;
  }

  /** What the directory holds under a path is what the state holds. */
  lemma LookupIs(s: Fs, q: seq<byte>)
    requires Sized(s)
    ensures Lookup(View(s), q) == FileOf(s, q)
  {
    ViewFinds(s, q);
    hide ReadBack, CStr, Where, Find;
  }

  lemma ViewSet(s: Fs, s': Fs, k: nat, e: Entry)
    requires Sized(s) && Sized(s') && k < MAX_FILES && s'.entries == s.entries[k := e]
    requires forall j :: 0 <= j < MAX_FILES && j != k && s.entries[j].used != 0 ==>
      ReadBack(s'.disk, s.entries[j]) == ReadBack(s.disk, s.entries[j])
    ensures View(s') == View(s)[k := Place(s'.disk, e)]
  {
    hide ReadBack, CStr;
  }

  /** A save with room does to the state what it does to the directory, whatever the length of the path. */
  lemma SaveView(s: Fs, path: seq<byte>, src: Option<seq<byte>>, size: nat, typ: byte, mode: nat)
    requires Core(s) && NoNul(path) && (src.Some? ==> |src.value| == size) && size < U32 && mode < 65536
    requires SaveFits(s, path, size)
    ensures Sized(s) && Sized(Save(s, path, src, size, typ, mode).0)
    ensures View(Save(s, path, src, size, typ, mode).0) == Shown(View(s), DoSave(path, src, size, typ, mode))
  {
    CoreTable(s);
    ViewFinds(s, path);
    SaveSized(s, path, src, size, typ, mode);
    hide Core, Save, ReadBack, CStr, Where, FirstNone, Find, FirstUnused, SaveFits, SavedEntry, View, GoodTable, Sized,
      Meant, Stored;
    var k := Slot(s.entries, path);
    if k == MAX_FILES {
      SaveRefused(s, path, src, size, typ, mode);
    } else {
      var s', e' := Save(s, path, src, size, typ, mode).0, SavedEntry(s, path, size, typ, mode);
      SavedContents(s, path, src, size, typ, mode);
      SavedName(s, path, size, typ, mode);
      EntryWritten(s, path, size, typ, mode);
      forall j | 0 <= j < MAX_FILES && j != k && s.entries[j].used != 0
        ensures ReadBack(s'.disk, s.entries[j]) == ReadBack(s.disk, s.entries[j])
      {
        OthersRead(s, path, src, size, typ, mode, j);
      }
      ViewSet(s, s', k, e');
    }
  }

  lemma SaveSized(s: Fs, path: seq<byte>, src: Option<seq<byte>>, size: nat, typ: byte, mode: nat)
    requires Sized(s) && (src.Some? ==> |src.value| == size)
    ensures Sized(Save(s, path, src, size, typ, mode).0)
  {
    hide PutTable, SuperSector, WriteData, StrNCopy, Find, FirstUnused;
  }

  lemma DeleteView(s: Fs, path: seq<byte>)
    requires Core(s)
    ensures Sized(s) && Sized(Delete(s, path).0)
    ensures View(Delete(s, path).0) == Shown(View(s), DoDelete(path))
  {
    CoreTable(s);
    ViewFinds(s, path);
    DeleteKeepsCore(s, path);
    CoreTable(Delete(s, path).0);
    hide Core, ReadBack, CStr, Where, FirstNone, Find, View, GoodTable, Sized, Sync;
    var i := Find(s.entries, path);
    if i < MAX_FILES {
      DeletedEntries(s, path);
      forall j | 0 <= j < MAX_FILES && s.entries[j].used != 0
        ensures ReadBack(Delete(s, path).0.disk, s.entries[j]) == ReadBack(s.disk, s.entries[j])
      {
        DeleteReads(s, path, j);
      }
      ViewSet(s, Delete(s, path).0, i, s.entries[i].(used := 0));
    }
  }

  lemma DeletedEntries(s: Fs, path: seq<byte>)
    requires Sized(s) && Find(s.entries, path) < MAX_FILES
    ensures var i := Find(s.entries, path); Delete(s, path).0.entries == s.entries[i := s.entries[i].(used := 0)]
  {
    hide PutTable, SuperSector;
  }

  lemma FormatView(s: Fs)
    ensures Sized(Format(s)) && View(Format(s)) == seq(MAX_FILES, _ => None)
  {
    hide PutTable, SuperSector, ReadBack, CStr;
  }

  lemma CutView(s: Fs, m: Fs)
    requires Cut(s, m)
    ensures Sized(s) && Sized(m) && View(m) == View(s)[..WHOLE] + seq(MAX_FILES - WHOLE, _ => None)
  {
    hide ReadBack, CStr;
  }

  /** Every operation does to the state what it does to the directory. */
  lemma StepView(s: Fs, op: Op)
    requires Core(s) && Sane(op) && OpOk(s, op)
    ensures Sized(s) && Sized(Step(s, op)) && View(Step(s, op)) == Shown(View(s), op)
  {
    CoreTable(s);
    hide Core, Mounted, PowerCycle, Format, Save, Delete, View, Sized, Cut;
    match op
    case DoFormat => FormatView(s);
    case DoSave(path, src, size, typ, mode) => SaveView(s, path, src, size, typ, mode);
    case DoDelete(path) => DeleteView(s, path);
    case DoMount => MountAgain(s);
    case DoPowerCycle =>
      CycleCut(s);
      CutView(s, PowerCycle(s));
  }

  lemma {:induction false} RunSane(s: Fs, ops: seq<Op>)
    requires RunOk(s, ops)
    ensures forall i :: 0 <= i < |ops| ==> Sane(ops[i])
    decreases |ops|
  {
    if ops == [] {
    } else {
      RunSane(Step(s, ops[0]), ops[1..]);
      forall i | 0 <= i < |ops| ensures Sane(ops[i]) { if i > 0 { assert ops[i] == ops[1..][i - 1]; } }
    }
  }

  /**
    Every run refines the history of its operations on 32 named places: names and contents are what the last
    save left there, until a deletion, a format or a power cycle, and the table stays in order.
   */
  lemma {:induction false} RunHolds(s: Fs, ops: seq<Op>)
    requires Core(s) && RunOk(s, ops)
    ensures Core(Run(s, ops)) && Sized(s) && Sized(Run(s, ops))
    ensures forall i :: 0 <= i < |ops| ==> Sane(ops[i])
    ensures View(Run(s, ops)) == Expected(View(s), ops)
    decreases |ops|
  {
    RunSane(s, ops);
    CoreTable(s);
    hide Core, View, OpOk, Step, Sized, Sane;
    if ops == [] {
      assert Run(s, ops) == s;
    } else {
      StepCore(s, ops[0]);
      StepView(s, ops[0]);
      RunHolds(Step(s, ops[0]), ops[1..]);
    }
  }

  /** So each path holds at the end what the history says. */
  lemma RunFile(s: Fs, ops: seq<Op>, q: seq<byte>)
    requires Core(s) && RunOk(s, ops)
    ensures Sized(s) && (forall i :: 0 <= i < |ops| ==> Sane(ops[i]))
    ensures FileOf(Run(s, ops), q) == Lookup(Expected(View(s), ops), q)
  {
    hide *;
    RunHolds(s, ops);
    LookupIs(Run(s, ops), q);
  }

  // ---- the counter of files ----------------------------------------------------------------------------------

  ghost function NowLost(s: Fs, before: nat, op: Op): nat
    requires Sized(s)
  {
    match op
    case DoFormat => 0
    case DoPowerCycle => before + Lost(s)
    case _ => before
  }

  /** The files that power cycles have lost since the last format. */
  ghost function LostSince(s: Fs, before: nat, ops: seq<Op>): nat
    requires RunOk(s, ops)
    decreases |ops|
  {
    if ops == [] then before else LostSince(Step(s, ops[0]), NowLost(s, before, ops[0]), ops[1..])
  }

  /** The 32-bit counter never wraps: the losses stay that small at every point of the run. */
  ghost predicate FewLost(s: Fs, before: nat, ops: seq<Op>)
    requires RunOk(s, ops)
    decreases |ops|
  {
    before + MAX_FILES < U32 && (ops == [] || FewLost(Step(s, ops[0]), NowLost(s, before, ops[0]), ops[1..]))
  }

  /** Over every run the counter of files is ahead by exactly the files that power cycles have lost. */
  lemma {:induction false} RunCounts(s: Fs, ops: seq<Op>, before: nat)
    requires Core(s) && RunOk(s, ops) && Surplus(s) == before && FewLost(s, before, ops)
    ensures Surplus(Run(s, ops)) == LostSince(s, before, ops)
    decreases |ops|
  {
    hide Core, Surplus, OpOk, Lost, Step, Sized;
    if ops == [] {
    } else {
      StepCore(s, ops[0]);
      StepSurplus(s, ops[0]);
      RunCounts(Step(s, ops[0]), ops[1..], NowLost(s, before, ops[0]));
    }
  }
}
