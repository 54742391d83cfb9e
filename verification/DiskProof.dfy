/**
  freestanding/kdiskfs.c over every run of format, save, delete, mount and power cycle: extents, counters,
  contents, and what a remount brings back.
 */
module DiskProof {
  import opened Common
  import opened DiskModel

  // ---- the invariant --------------------------------------------------------------------------------

  predicate ApartFrom(e: Entry, f: Entry) { e.start + e.count <= f.start || f.start + f.count <= e.start }

  ghost predicate UsedOk(s: Fs, e: Entry) {
    e.used != 0 ==> DATA_LBA <= e.start && e.count == Needed(e.size) && e.start + e.count <= s.next
  }

  function CountUsed(es: seq<Entry>): nat
  {
    if es == [] then 0 else (if es[0].used != 0 then 1 else 0) + CountUsed(es[1..])
  }

  ghost predicate Synced(s: Fs)
    requires Sized(s)
  {
    && Rd(s.disk, SUPER_LBA) == SuperSector(s.magic, s.num, s.next, s.bsize)
    && Rd(s.disk, TABLE_LBA) == TableSector(s, 0) && Rd(s.disk, TABLE_LBA + 1) == TableSector(s, 1)
    && Rd(s.disk, TABLE_LBA + 2) == TableSector(s, 2) && Rd(s.disk, TABLE_LBA + 3) == TableSector(s, 3)
  }

  /** Extents in range and apart, names distinct, and the disk in step with memory. */
  ghost predicate Core(s: Fs) {
    && Sized(s) && s.magic == MAGIC && s.bsize < U32 && s.num < U32 && DATA_LBA <= s.next < U32
    && (forall i :: 0 <= i < MAX_FILES ==> GoodEntry(s.entries[i]) && UsedOk(s, s.entries[i]))
    && (forall i, j :: 0 <= i < j < MAX_FILES && s.entries[i].used != 0 && s.entries[j].used != 0 ==>
          ApartFrom(s.entries[i], s.entries[j]) && CStr(s.entries[i].path) != CStr(s.entries[j].path))
    && Synced(s)
  }

  /** And the counter of files is right. */
  ghost predicate Inv(s: Fs) {
    Core(s) && s.num == CountUsed(s.entries)
  }

  datatype File = File(data: seq<byte>, typ: byte, mode: nat)

  /** What the file system holds under a path. */
  function FileOf(s: Fs, path: seq<byte>): Option<File> {
    var i := Find(s.entries, path);
    if i == |s.entries| then None else Some(File(ReadBack(s.disk, s.entries[i]), s.entries[i].typ, s.entries[i].mode))
  }

  // ---- strings and counts -----------------------------------------------------------------------------

  lemma {:induction false} CStrOf(path: seq<byte>, rest: seq<byte>)
    requires NoNul(path) && rest != [] && rest[0] == 0
    ensures CStr(path + rest) == path
    decreases |path|
  {
    if path == [] {
      assert path + rest == rest;
    } else {
      assert (path + rest)[1..] == path[1..] + rest;
      CStrOf(path[1..], rest);
    }
  }

  /** The name under which a save stores a file: 63 characters of the path at most. */
  function Stored(path: seq<byte>): (n: seq<byte>)
    ensures |n| <= 63 && (|path| <= 63 ==> n == path)
  {
    if |path| <= 63 then path else path[..63]
  }

  lemma StoredName(field: seq<byte>, path: seq<byte>)
    requires |field| == 64 && field[63] == 0 && NoNul(path)
    ensures CStr(StrNCopy(field, path)) == Stored(path)
  {
    var n := Stored(path);
    var rest := Zeros(63 - |n|) + [field[63]];
    assert StrNCopy(field, path) == n + rest;
    CStrOf(n, rest);
  }

  lemma {:induction false} CStrShort(raw: seq<byte>)
    requires raw != [] && raw[|raw| - 1] == 0
    ensures |CStr(raw)| < |raw|
    decreases |raw|
  {
    if raw[0] == 0 {
      assert CStr(raw) == [];
    } else {
      CStrShort(raw[1..]);
    }
  }

  lemma {:induction false} CountSet(es: seq<Entry>, i: nat, e: Entry)
    requires i < |es|
    ensures CountUsed(es[i := e]) + (if es[i].used != 0 then 1 else 0) == CountUsed(es) + (if e.used != 0 then 1 else 0)
    decreases |es|
  {
    if i == 0 {
      assert es[i := e][1..] == es[1..];
    } else {
      assert es[i := e][1..] == es[1..][i - 1 := e];
      CountSet(es[1..], i - 1, e);
    }
  }

  lemma {:induction false} CountBound(es: seq<Entry>)
    ensures CountUsed(es) <= |es|
    decreases |es|
  {
    if es == [] {
    } else {
      CountBound(es[1..]);
    }
  }

  // ---- sectors ----------------------------------------------------------------------------------------

  lemma {:induction false} WriteDataAt(d: Disk, lba: nat, n: nat, src: Option<seq<byte>>, size: nat, a: nat)
    requires (src.Some? ==> |src.value| == size) && lba + n <= U32
    ensures Rd(WriteData(d, lba, n, src, size), a) ==
      if lba <= a < lba + n then DataSector(src, size, a - lba) else Rd(d, a)
    decreases n
  {
    hide DataSector;
    if n == 0 {
    } else {
      WriteDataAt(d, lba, n - 1, src, size, a);
      WordSmall(lba + n - 1);
      hide Word;
    }
  }

  lemma {:induction false} CatSame(d: Disk, d': Disk, lba: nat, n: nat)
    requires lba + n <= U32 && forall a :: lba <= a < lba + n ==> Rd(d', a) == Rd(d, a)
    ensures Cat(d', lba, n) == Cat(d, lba, n)
    decreases n
  {
    if n == 0 {
    } else {
      CatSame(d, d', lba, n - 1);
    }
  }

  /** The bytes a save means to store. */
  function Meant(src: Option<seq<byte>>, size: nat): (b: seq<byte>)
    requires src.Some? ==> |src.value| == size
    ensures |b| == size
  {
    if src.Some? then src.value else Zeros(size)
  }

  lemma DataSectorAt(src: Option<seq<byte>>, size: nat, k: nat, j: nat)
    requires (src.Some? ==> |src.value| == size) && j < SECTOR && k * SECTOR + j < size < U32
    ensures DataSector(src, size, k)[j] == Meant(src, size)[k * SECTOR + j]
  {
    WordSmall(k * SECTOR);
    hide Word;
  }

  lemma {:induction false} CatData(d: Disk, lba: nat, n: nat, src: Option<seq<byte>>, size: nat, p: nat)
    requires (src.Some? ==> |src.value| == size) && p < n * SECTOR && p < size < U32 && lba + n <= U32
    requires forall k :: 0 <= k < n ==> Rd(d, lba + k) == DataSector(src, size, k)
    ensures Cat(d, lba, n)[p] == Meant(src, size)[p]
    decreases n
  {
    WordSmall(lba + n - 1);
    hide DataSector, Meant, Word;
    if p < (n - 1) * SECTOR {
      CatData(d, lba, n - 1, src, size, p);
    } else {
      DataSectorAt(src, size, n - 1, p - (n - 1) * SECTOR);
    }
  }

  /** A file whose sectors were just written reads back as it was meant. */
  lemma ReadsBack(d: Disk, e: Entry, src: Option<seq<byte>>)
    requires (src.Some? ==> |src.value| == e.size) && e.size < U32 && e.count == Needed(e.size)
    requires e.start + e.count <= U32
    requires forall k :: 0 <= k < e.count ==> Rd(d, e.start + k) == DataSector(src, e.size, k)
    ensures ReadBack(d, e) == Meant(src, e.size)
  {
    assert e.size <= e.count * SECTOR;
    forall p | 0 <= p < e.size ensures Cat(d, e.start, e.count)[p] == Meant(src, e.size)[p] {
      CatData(d, e.start, e.count, src, e.size, p);
    }
  }

  lemma SyncKeeps(s: Fs, a: nat)
    requires Sized(s)
    ensures Synced(Sync(s)) && (a >= DATA_LBA ==> Rd(Sync(s).disk, a) == Rd(s.disk, a))
  {
  }

  // ---- looking files up ---------------------------------------------------------------------------------

  lemma {:induction false} FirstIs(es: seq<Entry>, q: seq<byte>, i: nat)
    requires i <= |es| && (i < |es| ==> es[i].used != 0 && Named(es[i], q))
    requires forall j :: 0 <= j < i ==> !(es[j].used != 0 && Named(es[j], q))
    ensures Find(es, q) == i
    decreases i
  {
    if i == 0 {
    } else {
      FirstIs(es[1..], q, i - 1);
    }
  }

  /** Replacing entry i leaves the search for q where it was, if entry i was and is not a file named q. */
  lemma FindElsewhere(es: seq<Entry>, i: nat, e: Entry, q: seq<byte>)
    requires i < |es| && !(es[i].used != 0 && Named(es[i], q)) && !(e.used != 0 && Named(e, q))
    ensures Find(es[i := e], q) == Find(es, q)
  {
    FirstIs(es[i := e], q, Find(es, q));
  }

  lemma FindHere(es: seq<Entry>, i: nat, e: Entry, q: seq<byte>)
    requires i < |es| && e.used != 0 && Named(e, q) && i <= Find(es, q)
    ensures Find(es[i := e], q) == i
  {
    FirstIs(es[i := e], q, i);
  }

  /** With distinct names, the only used entry of a name is the one the search finds. */
  lemma FindOnly(s: Fs, i: nat)
    requires Core(s) && i < MAX_FILES && s.entries[i].used != 0
    ensures Find(s.entries, CStr(s.entries[i].path)) == i
  {
  }

  // ---- saving -------------------------------------------------------------------------------------------

  /** What a caller can check before a save: the sectors it will write are free or the file's own, and in range. */
  ghost predicate SaveFits(s: Fs, path: seq<byte>, size: nat)
    requires Sized(s)
  {
    var i := Slot(s.entries, path);
    i == MAX_FILES ||
    if s.entries[i].used == 0 then s.next + Needed(size) < U32
    else
      && s.entries[i].start + Needed(size) <= s.next
      && forall j :: 0 <= j < MAX_FILES && j != i && s.entries[j].used != 0 ==>
           s.entries[i].start + Needed(size) <= s.entries[j].start
             || s.entries[j].start + s.entries[j].count <= s.entries[i].start
  }

  /** And that a path too long for its field is not cut to the name of another file. */
  predicate NameFits(s: Fs, path: seq<byte>)
    requires Sized(s)
  {
    |path| <= 63 || Slot(s.entries, path) == MAX_FILES || Find(s.entries, path[..63]) == MAX_FILES
  }

  /** A new file always fits while the disk lasts, and so does a save over a file with as many sectors or more. */
  lemma EnoughSectorsFit(s: Fs, path: seq<byte>, size: nat)
    requires Core(s) && s.next + Needed(size) < U32
    requires Find(s.entries, path) < MAX_FILES ==> Needed(size) <= s.entries[Find(s.entries, path)].count
    ensures SaveFits(s, path, size)
  {
    var i := Slot(s.entries, path);
    if i < MAX_FILES && s.entries[i].used != 0 { assert UsedOk(s, s.entries[i]); }
  }

  /** The entry that a save writes. */
  function SavedEntry(s: Fs, path: seq<byte>, size: nat, typ: byte, mode: nat): Entry
    requires Sized(s) && Slot(s.entries, path) < MAX_FILES
  {
    var e := s.entries[Slot(s.entries, path)];
    Entry(StrNCopy(e.path, path), size, if e.used != 0 then e.start else s.next, Needed(size), typ, 1, mode)
  }

  /** The state a save has made when it syncs. */
  function Placed(s: Fs, path: seq<byte>, src: Option<seq<byte>>, size: nat, typ: byte, mode: nat): (p: Fs)
    requires Sized(s) && (src.Some? ==> |src.value| == size) && Slot(s.entries, path) < MAX_FILES
    ensures Sized(p)
  {
    var i, e' := Slot(s.entries, path), SavedEntry(s, path, size, typ, mode);
    var kept := s.entries[i].used != 0;
    s.(num := if kept then s.num else Word(s.num + 1), next := if kept then s.next else s.next + Needed(size),
       entries := s.entries[i := e'], disk := WriteData(s.disk, e'.start, e'.count, src, size))
  }

  /** With 32-bit sizes and sector numbers to spare, no field wraps. */
  predicate Narrow(s: Fs, path: seq<byte>, src: Option<seq<byte>>, size: nat, mode: nat) {
    && Sized(s) && (src.Some? ==> |src.value| == size) && size < U32 && mode < 65536
    && Slot(s.entries, path) < MAX_FILES
    && (s.entries[Slot(s.entries, path)].used == 0 ==> s.next + Needed(size) < U32)
  }

  lemma WordSmall(x: nat)
    ensures x < U32 ==> Word(x) == x
  {
  }

  lemma SaveIs(s: Fs, path: seq<byte>, src: Option<seq<byte>>, size: nat, typ: byte, mode: nat)
    requires Narrow(s, path, src, size, mode)
    ensures Save(s, path, src, size, typ, mode) == (Sync(Placed(s, path, src, size, typ, mode)), true)
  {
    assert Needed(size) < U32;
    hide Sync, WriteData, StrNCopy, Needed, Slot, Word, Sized;
    WordSmall(s.next + Needed(size));
    WordSmall(size);
    WordSmall(Needed(size));
  }

  /** The entries after a save are again in order. */
  lemma SaveEntries(s: Fs, path: seq<byte>, size: nat, typ: byte, mode: nat, next: nat)
    requires Core(s) && NoNul(path) && size < U32 && mode < 65536 && Slot(s.entries, path) < MAX_FILES
    requires SaveFits(s, path, size) && NameFits(s, path)
    requires next == if s.entries[Slot(s.entries, path)].used != 0 then s.next else s.next + Needed(size)
    ensures var es := s.entries[Slot(s.entries, path) := SavedEntry(s, path, size, typ, mode)];
      && (forall i :: 0 <= i < MAX_FILES ==> GoodEntry(es[i]) && (es[i].used != 0 ==>
            DATA_LBA <= es[i].start && es[i].count == Needed(es[i].size) && es[i].start + es[i].count <= next))
      && (forall i, j :: 0 <= i < j < MAX_FILES && es[i].used != 0 && es[j].used != 0 ==>
            ApartFrom(es[i], es[j]) && CStr(es[i].path) != CStr(es[j].path))
  {
    var k := Slot(s.entries, path);
    var e' := SavedEntry(s, path, size, typ, mode);
    var es := s.entries[k := e'];
    assert GoodEntry(s.entries[k]) && UsedOk(s, s.entries[k]);
    StoredName(s.entries[k].path, path);
    forall j | 0 <= j < MAX_FILES && j != k && es[j].used != 0
      ensures ApartFrom(es[j], e') && CStr(es[j].path) != Stored(path)
      ensures GoodEntry(es[j]) && DATA_LBA <= es[j].start && es[j].count == Needed(es[j].size)
      ensures es[j].start + es[j].count <= s.next
    {
      assert es[j] == s.entries[j] && UsedOk(s, s.entries[j]) && GoodEntry(s.entries[j]);
      OtherName(s, path, j);
    }
  }

  lemma OtherFile(s: Fs, path: seq<byte>, j: nat)
    requires Core(s) && j < MAX_FILES && j != Find(s.entries, path) && s.entries[j].used != 0
    ensures CStr(s.entries[j].path) != path
  {
    if CStr(s.entries[j].path) == path { FindOnly(s, j); }
  }

  lemma OtherName(s: Fs, path: seq<byte>, j: nat)
    requires Core(s) && Slot(s.entries, path) < MAX_FILES && NameFits(s, path)
    requires j < MAX_FILES && j != Slot(s.entries, path) && s.entries[j].used != 0
    ensures CStr(s.entries[j].path) != Stored(path)
  {
    OtherFile(s, Stored(path), j);
  }

  /** No stored name is longer than 63 characters, so a longer path is never found. */
  lemma LongNotFound(s: Fs, path: seq<byte>)
    requires Core(s) && |path| > 63
    ensures Find(s.entries, path) == MAX_FILES
  {
    var i := Find(s.entries, path);
    if i < MAX_FILES {
      assert GoodEntry(s.entries[i]);
      CStrShort(s.entries[i].path);
    }
  }

  lemma SaveKeepsCore(s: Fs, path: seq<byte>, src: Option<seq<byte>>, size: nat, typ: byte, mode: nat)
    requires Core(s) && NoNul(path) && (src.Some? ==> |src.value| == size) && size < U32 && mode < 65536
    requires SaveFits(s, path, size) && NameFits(s, path)
    ensures Core(Save(s, path, src, size, typ, mode).0)
  {
    hide WriteData, StrNCopy, TableSector, SuperSector, Needed, CStr, Save;
    if Slot(s.entries, path) < MAX_FILES {
      SaveIs(s, path, src, size, typ, mode);
      var p := Placed(s, path, src, size, typ, mode);
      SyncKeeps(p, 0);
      SaveEntries(s, path, size, typ, mode, p.next);
    } else {
      SaveRefused(s, path, src, size, typ, mode);
    }
  }

  /** How far the counter is ahead of the files. */
  function Surplus(s: Fs): int { s.num - CountUsed(s.entries) }

  lemma SaveSurplus(s: Fs, path: seq<byte>, src: Option<seq<byte>>, size: nat, typ: byte, mode: nat)
    requires Core(s) && (src.Some? ==> |src.value| == size) && size < U32 && mode < 65536
    requires SaveFits(s, path, size) && Surplus(s) + MAX_FILES < U32
    ensures Surplus(Save(s, path, src, size, typ, mode).0) == Surplus(s)
  {
    hide WriteData, StrNCopy, TableSector, SuperSector, Needed, CStr, Save, CountUsed;
    var k := Slot(s.entries, path);
    if k < MAX_FILES {
      SaveIs(s, path, src, size, typ, mode);
      CountSet(s.entries, k, SavedEntry(s, path, size, typ, mode));
      CountBound(s.entries[k := SavedEntry(s, path, size, typ, mode)]);
    } else {
      SaveRefused(s, path, src, size, typ, mode);
    }
  }

  /** A save that fits keeps the invariant. */
  lemma SaveKeepsInv(s: Fs, path: seq<byte>, src: Option<seq<byte>>, size: nat, typ: byte, mode: nat)
    requires Inv(s) && NoNul(path) && (src.Some? ==> |src.value| == size) && size < U32 && mode < 65536
    requires SaveFits(s, path, size) && NameFits(s, path)
    ensures Inv(Save(s, path, src, size, typ, mode).0)
  {
    SaveKeepsCore(s, path, src, size, typ, mode);
    SaveSurplus(s, path, src, size, typ, mode);
  }

  /** With all 32 entries used by other files, a save does nothing. */
  lemma SaveRefused(s: Fs, path: seq<byte>, src: Option<seq<byte>>, size: nat, typ: byte, mode: nat)
    requires Sized(s) && (src.Some? ==> |src.value| == size) && Slot(s.entries, path) == MAX_FILES
    ensures Save(s, path, src, size, typ, mode) == (s, false)
  {
  }

  lemma CoreSized(s: Fs)
    requires Core(s)
    ensures Sized(s)
  {
  }

  /** The data area holds the data in the sectors of the entry, and elsewhere what it held. */
  predicate WrittenAt(d: Disk, d': Disk, e: Entry, src: Option<seq<byte>>, a: nat)
    requires src.Some? ==> |src.value| == e.size
  {
    Rd(d', a) == if e.start <= a < e.start + e.count then DataSector(src, e.size, a - e.start) else Rd(d, a)
  }

  ghost predicate Written(d: Disk, d': Disk, e: Entry, src: Option<seq<byte>>)
    requires src.Some? ==> |src.value| == e.size
  {
    forall a :: a >= DATA_LBA ==> WrittenAt(d, d', e, src, a)
  }

  lemma WrittenReads(d: Disk, d': Disk, e: Entry, src: Option<seq<byte>>)
    requires (src.Some? ==> |src.value| == e.size) && e.size < U32 && e.count == Needed(e.size)
    requires DATA_LBA <= e.start && e.start + e.count <= U32 && Written(d, d', e, src)
    ensures ReadBack(d', e) == Meant(src, e.size)
  {
    hide ReadBack, DataSector, Rd, Needed, Meant;
    forall k | 0 <= k < e.count
      ensures Rd(d', e.start + k) == DataSector(src, e.size, k)
    {
      assert WrittenAt(d, d', e, src, e.start + k);
    }
    ReadsBack(d', e, src);
  }

  lemma SavedContents(s: Fs, path: seq<byte>, src: Option<seq<byte>>, size: nat, typ: byte, mode: nat)
    requires Core(s) && (src.Some? ==> |src.value| == size) && size < U32 && mode < 65536
    requires SaveFits(s, path, size) && Slot(s.entries, path) < MAX_FILES
    ensures var (s', ok) := Save(s, path, src, size, typ, mode);
      var e' := SavedEntry(s, path, size, typ, mode);
      ok && s'.entries == s.entries[Slot(s.entries, path) := e'] && ReadBack(s'.disk, e') == Meant(src, size)
  {
    CoreSized(s);
    hide *;
    FitsNarrow(s, path, src, size, typ, mode);
    SavedDisk(s, path, src, size, typ, mode);
    WrittenReads(s.disk, Save(s, path, src, size, typ, mode).0.disk, SavedEntry(s, path, size, typ, mode), src);
  }

  lemma SavedName(s: Fs, path: seq<byte>, size: nat, typ: byte, mode: nat)
    requires Core(s) && NoNul(path) && Slot(s.entries, path) < MAX_FILES
    ensures CStr(SavedEntry(s, path, size, typ, mode).path) == Stored(path)
    ensures var k := Slot(s.entries, path); s.entries[k].used != 0 ==> CStr(s.entries[k].path) == Stored(path)
  {
    var k := Slot(s.entries, path);
    assert GoodEntry(s.entries[k]);
    StoredName(s.entries[k].path, path);
    if |path| > 63 { LongNotFound(s, path); }
  }

  /** A search finds the saved entry, or what was before it or elsewhere. */
  lemma FindSaved(es: seq<Entry>, k: nat, e: Entry, n: seq<byte>, q: seq<byte>)
    requires k < |es| && e.used != 0 && CStr(e.path) == n && (es[k].used != 0 ==> CStr(es[k].path) == n)
    ensures Find(es[k := e], q) == if q == n && k <= Find(es, n) then k else Find(es, q)
  {
    if q != n {
      FindElsewhere(es, k, e, q);
    } else if k <= Find(es, n) {
      FindHere(es, k, e, n);
    } else {
      FirstIs(es[k := e], n, Find(es, n));
    }
  }

  /**
    What a save that fits does to every path: the stored name holds what was meant, unless an earlier entry has
    that name already, and every other path holds what it held.
   */
  lemma SaveDoes(s: Fs, path: seq<byte>, src: Option<seq<byte>>, size: nat, typ: byte, mode: nat, q: seq<byte>)
    requires Core(s) && NoNul(path) && (src.Some? ==> |src.value| == size) && size < U32 && mode < 65536
    requires SaveFits(s, path, size) && Slot(s.entries, path) < MAX_FILES
    ensures Save(s, path, src, size, typ, mode).1
    ensures var n := Stored(path);
      FileOf(Save(s, path, src, size, typ, mode).0, q) ==
        if q == n && Slot(s.entries, path) <= Find(s.entries, n) then Some(File(Meant(src, size), typ, mode))
        else FileOf(s, q)
  {
    CoreSized(s);
    hide *;
    var k, e' := Slot(s.entries, path), SavedEntry(s, path, size, typ, mode);
    SlotApart(s, path, q);
    SavedContents(s, path, src, size, typ, mode);
    SavedName(s, path, size, typ, mode);
    EntryWritten(s, path, size, typ, mode);
    FindSaved(s.entries, k, e', Stored(path), q);
    var j := Find(s.entries, q);
    if j < MAX_FILES && j != k { OthersRead(s, path, src, size, typ, mode, j); }
    FilesAfter(s, Save(s, path, src, size, typ, mode).0, k, e', Stored(path), File(Meant(src, size), typ, mode), q);
  }

  lemma EntryWritten(s: Fs, path: seq<byte>, size: nat, typ: byte, mode: nat)
    requires Sized(s) && Slot(s.entries, path) < MAX_FILES
    ensures var e' := SavedEntry(s, path, size, typ, mode);
      |s.entries| == MAX_FILES && e'.used != 0 && e'.typ == typ && e'.mode == mode
  {
  }

  /** Contents after one entry has been written, given where a search ends and what the sectors hold. */
  lemma FilesAfter(s: Fs, s': Fs, k: nat, e: Entry, n: seq<byte>, f: File, q: seq<byte>)
    requires |s.entries| == MAX_FILES && k < MAX_FILES && s'.entries == s.entries[k := e]
    requires Find(s'.entries, q) == if q == n && k <= Find(s.entries, n) then k else Find(s.entries, q)
    requires Find(s.entries, q) == k ==> q == n
    requires f == File(ReadBack(s'.disk, e), e.typ, e.mode)
    requires var j := Find(s.entries, q);
      j < MAX_FILES && j != k ==> ReadBack(s'.disk, s.entries[j]) == ReadBack(s.disk, s.entries[j])
    ensures FileOf(s', q) == if q == n && k <= Find(s.entries, n) then Some(f) else FileOf(s, q)
  {
    hide ReadBack, Find;
  }

  /** The entry found under another name is not the one that is written. */
  lemma SlotApart(s: Fs, path: seq<byte>, q: seq<byte>)
    requires Core(s) && Slot(s.entries, path) < MAX_FILES
    ensures |s.entries| == MAX_FILES
    ensures Find(s.entries, q) == Slot(s.entries, path) ==> q == Stored(path)
    ensures Find(s.entries, Stored(path)) < Slot(s.entries, path) ==> Find(s.entries, Stored(path)) < MAX_FILES
  {
    if |path| > 63 { LongNotFound(s, path); }
  }

  /** After a save that fits its path is found if and only if it has at most 63 characters. */
  lemma SavedFoundIff(s: Fs, path: seq<byte>, src: Option<seq<byte>>, size: nat, typ: byte, mode: nat)
    requires Core(s) && NoNul(path) && (src.Some? ==> |src.value| == size) && size < U32 && mode < 65536
    requires SaveFits(s, path, size) && Slot(s.entries, path) < MAX_FILES
    ensures FileOf(Save(s, path, src, size, typ, mode).0, path).Some? <==> |path| <= 63
  {
    SaveDoes(s, path, src, size, typ, mode, path);
    if |path| > 63 { LongNotFound(s, path); }
    hide Save, ReadBack, Core, SaveFits;
  }

  /** The data area after a save within the 32-bit sector numbers: the new sectors, and everything else as before. */
  lemma SavedDisk(s: Fs, path: seq<byte>, src: Option<seq<byte>>, size: nat, typ: byte, mode: nat)
    requires Core(s) && Narrow(s, path, src, size, mode)
    requires SavedEntry(s, path, size, typ, mode).start + Needed(size) <= U32
    ensures var s' := Save(s, path, src, size, typ, mode).0;
      var e' := SavedEntry(s, path, size, typ, mode);
      && s'.entries == s.entries[Slot(s.entries, path) := e'] && Save(s, path, src, size, typ, mode).1
      && DATA_LBA <= e'.start && e'.size == size && e'.count == Needed(size) && Written(s.disk, s'.disk, e', src)
  {
    hide WriteData, StrNCopy, Save, PutTable, SuperSector, Needed, CStr, Synced, Find, FirstUnused, DataSector, Rd;
    var e' := SavedEntry(s, path, size, typ, mode);
    var s' := Save(s, path, src, size, typ, mode).0;
    SaveIs(s, path, src, size, typ, mode);
    assert UsedOk(s, s.entries[Slot(s.entries, path)]);
    hide Core, UsedOk, GoodEntry;
    forall a | a >= DATA_LBA ensures WrittenAt(s.disk, s'.disk, e', src, a) {
      SyncKeeps(Placed(s, path, src, size, typ, mode), a);
      WriteDataAt(s.disk, e'.start, e'.count, src, size, a);
    }
  }

  lemma FitsNarrow(s: Fs, path: seq<byte>, src: Option<seq<byte>>, size: nat, typ: byte, mode: nat)
    requires Core(s) && (src.Some? ==> |src.value| == size) && size < U32 && mode < 65536
    requires SaveFits(s, path, size) && Slot(s.entries, path) < MAX_FILES
    ensures Narrow(s, path, src, size, mode) && SavedEntry(s, path, size, typ, mode).start + Needed(size) <= U32
  {
    hide Needed, StrNCopy, Synced, GoodEntry;
  }

  lemma OthersRead(s: Fs, path: seq<byte>, src: Option<seq<byte>>, size: nat, typ: byte, mode: nat, j: nat)
    requires Core(s) && (src.Some? ==> |src.value| == size) && size < U32 && mode < 65536
    requires SaveFits(s, path, size) && Slot(s.entries, path) < MAX_FILES
    requires j < MAX_FILES && j != Slot(s.entries, path) && s.entries[j].used != 0
    ensures ReadBack(Save(s, path, src, size, typ, mode).0.disk, s.entries[j]) == ReadBack(s.disk, s.entries[j])
  {
    hide WriteData, StrNCopy, Save, TableSector, SuperSector, Needed, Synced;
    assert UsedOk(s, s.entries[j]);
    FitsNarrow(s, path, src, size, typ, mode);
    SavedDisk(s, path, src, size, typ, mode);
    var s', e' := Save(s, path, src, size, typ, mode).0, SavedEntry(s, path, size, typ, mode);
    forall a | s.entries[j].start <= a < s.entries[j].start + s.entries[j].count
      ensures Rd(s'.disk, a) == Rd(s.disk, a)
    {
      assert WrittenAt(s.disk, s'.disk, e', src, a);
    }
    CatSame(s.disk, s'.disk, s.entries[j].start, s.entries[j].count);
  }

  /** Without room, or with a name cut to another file's, the table is no longer in order: the condition is exact. */
  lemma SaveFitsIff(s: Fs, path: seq<byte>, src: Option<seq<byte>>, size: nat, typ: byte, mode: nat)
    requires Core(s) && NoNul(path) && (src.Some? ==> |src.value| == size) && size < U32 && mode < 65536
    ensures Core(Save(s, path, src, size, typ, mode).0) <==> SaveFits(s, path, size) && NameFits(s, path)
  {
    if !SaveFits(s, path, size) {
      if s.entries[Slot(s.entries, path)].used != 0 {
        NoRoom(s, path, src, size, typ, mode);
      } else {
        NoSectors(s, path, src, size, typ, mode);
      }
    } else if NameFits(s, path) {
      SaveKeepsCore(s, path, src, size, typ, mode);
    } else {
      NameClash(s, path, src, size, typ, mode);
    }
  }

  /** A long path cut to the name of a file gives two used entries one name. */
  lemma NameClash(s: Fs, path: seq<byte>, src: Option<seq<byte>>, size: nat, typ: byte, mode: nat)
    requires Core(s) && NoNul(path) && (src.Some? ==> |src.value| == size) && size < U32 && mode < 65536
    requires SaveFits(s, path, size) && !NameFits(s, path)
    ensures !Core(Save(s, path, src, size, typ, mode).0)
  {
    var k, i := Slot(s.entries, path), Find(s.entries, path[..63]);
    LongNotFound(s, path);
    assert s.entries[k].used == 0 && s.entries[i].used != 0;
    hide WriteData, StrNCopy, Save, ReadBack, SaveFits, Synced, Needed, ApartFrom;
    SavedContents(s, path, src, size, typ, mode);
    SavedName(s, path, size, typ, mode);
    var es := Save(s, path, src, size, typ, mode).0.entries;
    assert es[i] == s.entries[i] && es[k].used != 0 && CStr(es[k].path) == CStr(es[i].path);
  }

  lemma NoRoom(s: Fs, path: seq<byte>, src: Option<seq<byte>>, size: nat, typ: byte, mode: nat)
    requires Core(s) && (src.Some? ==> |src.value| == size) && size < U32
    requires !SaveFits(s, path, size) && s.entries[Slot(s.entries, path)].used != 0
    ensures !Core(Save(s, path, src, size, typ, mode).0)
  {
    hide WriteData, StrNCopy, TableSector, SuperSector, Synced, CStr;
    var k := Slot(s.entries, path);
    var s' := Save(s, path, src, size, typ, mode).0;
    var e' := s'.entries[k];
    assert Needed(size) < U32;
    assert e'.start == s.entries[k].start && e'.count == Needed(size) && s'.next == s.next && e'.used == 1;
    if s.entries[k].start + Needed(size) > s.next {
      assert !UsedOk(s', e');
    } else {
      var j :| 0 <= j < MAX_FILES && j != k && s.entries[j].used != 0 &&
        !(s.entries[k].start + Needed(size) <= s.entries[j].start
          || s.entries[j].start + s.entries[j].count <= s.entries[k].start);
      assert s'.entries[j] == s.entries[j] && !ApartFrom(e', s'.entries[j]) && !ApartFrom(s'.entries[j], e');
    }
  }

  /** A new file past the last sector number makes the next free sector wrap around. */
  lemma NoSectors(s: Fs, path: seq<byte>, src: Option<seq<byte>>, size: nat, typ: byte, mode: nat)
    requires Core(s) && (src.Some? ==> |src.value| == size) && size < U32
    requires !SaveFits(s, path, size) && s.entries[Slot(s.entries, path)].used == 0
    ensures !Core(Save(s, path, src, size, typ, mode).0)
  {
    hide WriteData, StrNCopy, TableSector, SuperSector, Synced, CStr;
    var s' := Save(s, path, src, size, typ, mode).0;
    var e' := s'.entries[Slot(s.entries, path)];
    assert Needed(size) < U32;
    assert e'.start == s.next && e'.count == Needed(size) && s'.next == s.next + Needed(size) - U32 && e'.used == 1;
    assert !UsedOk(s', e');
  }

  // ---- deleting and formatting -----------------------------------------------------------------------------

  lemma DeleteKeepsCore(s: Fs, path: seq<byte>)
    requires Core(s)
    ensures Core(Delete(s, path).0) && (Delete(s, path).1 <==> FileOf(s, path).Some?)
  {
    hide TableSector, SuperSector, Needed, CStr, ReadBack;
    var i := Find(s.entries, path);
    if i < MAX_FILES {
      assert GoodEntry(s.entries[i]);
      var es := s.entries[i := s.entries[i].(used := 0)];
      SyncKeeps(s.(num := if s.num > 0 then s.num - 1 else 0, entries := es), 0);
    }
  }

  lemma DeleteSurplus(s: Fs, path: seq<byte>)
    requires Core(s) && Surplus(s) >= 0
    ensures Surplus(Delete(s, path).0) == Surplus(s)
  {
    hide TableSector, SuperSector, CStr, Synced, CountUsed;
    var i := Find(s.entries, path);
    if i < MAX_FILES { CountSet(s.entries, i, s.entries[i].(used := 0)); }
  }

  /** Deleting a file removes it and nothing else. */
  lemma DeleteRemoves(s: Fs, path: seq<byte>, q: seq<byte>)
    requires Core(s)
    ensures FileOf(Delete(s, path).0, q) == if q == path then None else FileOf(s, q)
  {
    hide TableSector, SuperSector, ReadBack, CStr, Synced;
    var i := Find(s.entries, path);
    if i < MAX_FILES {
      var es := s.entries[i := s.entries[i].(used := 0)];
      if q == path {
        GoneFrom(s, i, path);
      } else {
        FindElsewhere(s.entries, i, s.entries[i].(used := 0), q);
        var j := Find(s.entries, q);
        if j < MAX_FILES { DeleteReads(s, path, j); }
      }
    }
  }

  lemma GoneFrom(s: Fs, i: nat, path: seq<byte>)
    requires Core(s) && i == Find(s.entries, path) < MAX_FILES
    ensures Find(s.entries[i := s.entries[i].(used := 0)], path) == MAX_FILES
  {
    var es := s.entries[i := s.entries[i].(used := 0)];
    forall j | 0 <= j < MAX_FILES ensures !(es[j].used != 0 && Named(es[j], path)) {
      if j != i && s.entries[j].used != 0 { OtherFile(s, path, j); }
    }
    FirstIs(es, path, MAX_FILES);
  }

  lemma DeleteReads(s: Fs, path: seq<byte>, j: nat)
    requires Core(s) && j < MAX_FILES && s.entries[j].used != 0
    ensures ReadBack(Delete(s, path).0.disk, s.entries[j]) == ReadBack(s.disk, s.entries[j])
  {
    hide TableSector, SuperSector, CStr, Synced;
    assert UsedOk(s, s.entries[j]);
    CatSame(s.disk, Delete(s, path).0.disk, s.entries[j].start, s.entries[j].count);
  }

  lemma {:induction false} NoneUsed(n: nat, q: seq<byte>)
    ensures CountUsed(seq(n, _ => NO_ENTRY)) == 0 && Find(seq(n, _ => NO_ENTRY), q) == n
    decreases n
  {
    if n == 0 {
    } else {
      assert seq(n, _ => NO_ENTRY)[1..] == seq(n - 1, _ => NO_ENTRY);
      NoneUsed(n - 1, q);
    }
  }

  lemma FormatSynced(s: Fs)
    ensures Sized(Format(s)) && Synced(Format(s))
  {
    hide TableBytes, SuperSector;
  }

  /** Formatting starts over with no files. */
  lemma FormatInv(s: Fs, q: seq<byte>)
    ensures Inv(Format(s)) && FileOf(Format(s), q) == None
  {
    NoneUsed(MAX_FILES, q);
    FormatSynced(s);
    hide Synced, PutTable, SuperSector, CountUsed, Find;
  }
}
