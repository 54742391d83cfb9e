/**
  What freestanding/kdiskfs.c loses, exactly: the bytes of a neighbour when a file outgrows its sectors, a path
  longer than its field, and the files whose entries do not fit the sectors of the table.
 */
module DiskLosses {
  import opened Common
  import opened DiskModel
  import opened DiskProof
  import opened DiskRuns

  lemma {:induction false} CatAt(d: Disk, lba: nat, n: nat, p: nat)
    requires p < n * SECTOR && lba + n <= U32
    ensures Cat(d, lba, n)[p] == Rd(d, lba + p / SECTOR)[p % SECTOR]
    decreases n
  {
    if p < (n - 1) * SECTOR { CatAt(d, lba, n - 1, p); }
  }

  /** Byte p of a file. */
  lemma ReadAt(d: Disk, e: Entry, p: nat)
    requires p < e.size && e.count == Needed(e.size) && e.start + e.count <= U32
    ensures |ReadBack(d, e)| == e.size && ReadBack(d, e)[p] == Rd(d, e.start + p / SECTOR)[p % SECTOR]
  {
    assert e.size <= e.count * SECTOR;
    CatAt(d, e.start, e.count, p);
  }

  lemma ReadLength(d: Disk, e: Entry)
    requires e.count == Needed(e.size)
    ensures |ReadBack(d, e)| == e.size
  {
    assert e.size <= e.count * SECTOR;
  }

  /** The byte a save writes at offset o of its sectors. */
  function WrittenByte(src: Option<seq<byte>>, size: nat, o: nat): byte
    requires src.Some? ==> |src.value| == size
  {
    if o < size then Meant(src, size)[o] else 0
  }

  lemma DataSectorByte(src: Option<seq<byte>>, size: nat, k: nat, j: nat)
    requires (src.Some? ==> |src.value| == size) && j < SECTOR && k * SECTOR < U32
    ensures DataSector(src, size, k)[j] == WrittenByte(src, size, k * SECTOR + j)
  {
    WordSmall(k * SECTOR);
    hide Word;
  }

  lemma NeededOffset(size: nat, k: nat)
    requires size < U32 && k < Needed(size)
    ensures k * SECTOR < U32
  {
  }

  /** The sector of byte p of the file e is among the n sectors from `start` on. */
  predicate Overrun(start: nat, n: nat, e: Entry, p: nat) { start <= e.start + p / SECTOR < start + n }

  lemma OverrunByte(d: Disk, d': Disk, e': Entry, src: Option<seq<byte>>, e: Entry, p: nat)
    requires (src.Some? ==> |src.value| == e'.size) && e'.size < U32 && e'.count == Needed(e'.size)
    requires Written(d, d', e', src)
    requires p < e.size && e.count == Needed(e.size) && DATA_LBA <= e.start && e.start + e.count <= U32
    ensures |ReadBack(d', e)| == |ReadBack(d, e)| == e.size
    ensures ReadBack(d', e)[p] == if Overrun(e'.start, e'.count, e, p)
      then WrittenByte(src, e'.size, (e.start - e'.start) * SECTOR + p) else ReadBack(d, e)[p]
  {
    hide ReadBack, DataSector, WrittenByte, Needed, Written;
    ReadAt(d, e, p); ReadAt(d', e, p);
    var a := e.start + p / SECTOR;
    WrittenHere(d, d', e', src, a);
    if Overrun(e'.start, e'.count, e, p) {
      NeededOffset(e'.size, a - e'.start);
      DataSectorByte(src, e'.size, a - e'.start, p % SECTOR);
    }
  }

  lemma WrittenHere(d: Disk, d': Disk, e: Entry, src: Option<seq<byte>>, a: nat)
    requires (src.Some? ==> |src.value| == e.size) && Written(d, d', e, src) && a >= DATA_LBA
    ensures WrittenAt(d, d', e, src, a)
  {
  }

  /** Wherever the sectors written run over the file e, it already holds the bytes that are written there. */
  ghost predicate Spared(start: nat, n: nat, e: Entry, data: seq<byte>, src: Option<seq<byte>>, size: nat)
    requires src.Some? ==> |src.value| == size
  {
    forall p :: 0 <= p < |data| && Overrun(start, n, e, p) ==>
      data[p] == WrittenByte(src, size, (e.start - start) * SECTOR + p)
  }

  lemma SparedIff(d: Disk, d': Disk, e': Entry, src: Option<seq<byte>>, e: Entry)
    requires (src.Some? ==> |src.value| == e'.size) && e'.size < U32 && e'.count == Needed(e'.size)
    requires Written(d, d', e', src)
    requires e.count == Needed(e.size) && DATA_LBA <= e.start && e.start + e.count <= U32
    ensures ReadBack(d', e) == ReadBack(d, e) <==> Spared(e'.start, e'.count, e, ReadBack(d, e), src, e'.size)
  {
    hide ReadBack, WrittenByte, Needed, Written;
    ReadLength(d, e); ReadLength(d', e);
    forall p | 0 <= p < e.size
      ensures ReadBack(d', e)[p] == if Overrun(e'.start, e'.count, e, p)
        then WrittenByte(src, e'.size, (e.start - e'.start) * SECTOR + p) else ReadBack(d, e)[p]
    {
      OverrunByte(d, d', e', src, e, p);
    }
  }

  /** What a save over a file that has grown does to every other file: it survives exactly when it is spared. */
  lemma OthersSurviveIff(s: Fs, path: seq<byte>, src: Option<seq<byte>>, size: nat, typ: byte, mode: nat, q: seq<byte>)
    requires Core(s) && NoNul(path) && Narrow(s, path, src, size, mode)
    requires SavedEntry(s, path, size, typ, mode).start + Needed(size) <= U32
    requires q != Stored(path) && FileOf(s, q).Some?
    ensures FileOf(Save(s, path, src, size, typ, mode).0, q) == FileOf(s, q) <==>
      Spared(SavedEntry(s, path, size, typ, mode).start, Needed(size), s.entries[Find(s.entries, q)],
             FileOf(s, q).value.data, src, size)
  {
    hide WriteData, StrNCopy, Save, ReadBack, CStr, Spared, DataSector, Meant, Needed, Written;
    var e' := SavedEntry(s, path, size, typ, mode);
    SavedDisk(s, path, src, size, typ, mode);
    SavedName(s, path, size, typ, mode);
    FindElsewhere(s.entries, Slot(s.entries, path), e', q);
    var e := s.entries[Find(s.entries, q)];
    assert UsedOk(s, e);
    SparedIff(s.disk, Save(s, path, src, size, typ, mode).0.disk, e', src, e);
  }

  // ---- a disk with n files of one byte ----------------------------------------------------------------------

  /** A format and n saves, of files named by one character and holding one byte. */
  function Filled(s: Fs, n: nat): (f: Fs)
    requires n < 100
    ensures Sized(f)
  {
    hide TableSector, SuperSector, WriteData;
    if n == 0 then Format(s) else Save(Filled(s, n - 1), [n], Some([n]), 1, 0, 0).0
  }

  predicate FileAt(e: Entry, k: nat)
  {
    e.used != 0 && CStr(e.path) == [k] && e.size == 1 && e.start == DATA_LBA + k - 1 && e.typ == 0
  }

  /** The first n entries are the files, in order, and the rest is unused. */
  predicate InOrder(f: Fs, n: nat) {
    && Sized(f) && f.next == DATA_LBA + n
    && (forall k :: 0 <= k < MAX_FILES ==> if k < n then FileAt(f.entries[k], k + 1) else f.entries[k].used == 0)
  }

  lemma FreshName(f: Fs, n: nat)
    requires InOrder(f, n) && n < MAX_FILES
    ensures Find(f.entries, [n + 1]) == MAX_FILES && Slot(f.entries, [n + 1]) == n
  {
    forall j | 0 <= j < n ensures f.entries[j].used != 0 && !Named(f.entries[j], [n + 1]) {
      assert FileAt(f.entries[j], j + 1);
      assert [j + 1][0] != [n + 1][0];
    }
    FirstIs(f.entries, [n + 1], MAX_FILES);
    assert f.entries[n].used == 0;
  }

  lemma AddedInOrder(f: Fs, n: nat)
    requires InOrder(f, n) && n < MAX_FILES && (forall k :: 0 <= k < MAX_FILES ==> GoodEntry(f.entries[k]))
    requires f.next < 1000
    ensures Narrow(f, [n + 1], Some([n + 1]), 1, 0) && SaveFits(f, [n + 1], 1)
    ensures InOrder(Sync(Placed(f, [n + 1], Some([n + 1]), 1, 0, 0)), n + 1)
  {
    FreshName(f, n);
    assert GoodEntry(f.entries[n]);
    StoredName(f.entries[n].path, [n + 1]);
    hide CStr, StrNCopy, WriteData, Find, FirstUnused, TableSector, SuperSector;
  }

  lemma CoreGood(s: Fs)
    requires Core(s)
    ensures forall k :: 0 <= k < MAX_FILES ==> GoodEntry(s.entries[k])
  {
  }

  lemma AddOne(f: Fs, n: nat)
    requires Inv(f) && InOrder(f, n) && n < MAX_FILES
    ensures var f' := Save(f, [n + 1], Some([n + 1]), 1, 0, 0).0;
      Inv(f') && InOrder(f', n + 1) && FileOf(f', [n + 1]) == Some(File([n + 1], 0, 0))
  {
    InvCore(f);
    CoreGood(f);
    assert NoNul([n + 1]) && f.next < 1000;
    FreshName(f, n);
    assert Meant(Some([n + 1]), 1) == [n + 1];
    hide *;
    AddedInOrder(f, n);
    SaveIs(f, [n + 1], Some([n + 1]), 1, 0, 0);
    SaveKeepsInv(f, [n + 1], Some([n + 1]), 1, 0, 0);
    SaveDoes(f, [n + 1], Some([n + 1]), 1, 0, 0, [n + 1]);
  }

  lemma Formatted(s: Fs)
    ensures Inv(Format(s)) && InOrder(Format(s), 0)
  {
    FormatInv(s, []);
    hide Inv, Core, PutTable;
  }

  lemma {:induction false} FilledIs(s: Fs, n: nat)
    requires n <= MAX_FILES
    ensures Inv(Filled(s, n)) && InOrder(Filled(s, n), n)
    ensures n > 0 ==> FileOf(Filled(s, n), [n]) == Some(File([n], 0, 0))
    decreases n
  {
    hide Inv, InOrder, FileOf, Save, Format;
    if n == 0 {
      Formatted(s);
    } else {
      FilledIs(s, n - 1);
      AddOne(Filled(s, n - 1), n - 1);
    }
  }

  // ---- what goes wrong --------------------------------------------------------------------------------------

  /** The 26th file is there until the power goes off; then it is gone, and the counter still counts it. */
  lemma TwentySixthIsLost(s: Fs)
    ensures var f := Filled(s, WHOLE + 1);
      && Inv(f) && FileOf(f, [WHOLE + 1]) == Some(File([WHOLE + 1], 0, 0))
      && FileOf(PowerCycle(f), [WHOLE + 1]) == None && !Inv(PowerCycle(f)) && PowerCycle(f).num == WHOLE + 1
  {
    var f := Filled(s, WHOLE + 1);
    FilledIs(s, WHOLE + 1);
    InvCore(f);
    CycleFile(f, [WHOLE + 1]);
    CycleInvIff(f);
    CycleCut(f);
    FoundAt(f, WHOLE + 1, WHOLE);
    CountOf(f, WHOLE + 1);
    hide Inv, Filled, FileOf, PowerCycle, Loaded;
    assert FileAt(f.entries[WHOLE], WHOLE + 1);
  }

  lemma FoundAt(f: Fs, n: nat, k: nat)
    requires Core(f) && InOrder(f, n) && k < n <= MAX_FILES
    ensures Find(f.entries, [k + 1]) == k
  {
    assert FileAt(f.entries[k], k + 1);
    FindOnly(f, k);
    hide Core;
  }

  lemma {:induction false} CountFirst(es: seq<Entry>, n: nat)
    requires n <= |es| && forall k :: 0 <= k < |es| ==> (es[k].used != 0 <==> k < n)
    ensures CountUsed(es) == n
    decreases |es|
  {
    if es != [] { CountFirst(es[1..], if n > 0 then n - 1 else 0); }
  }

  lemma CountOf(f: Fs, n: nat)
    requires Inv(f) && InOrder(f, n) && n <= MAX_FILES
    ensures f.num == n
  {
    CountFirst(f.entries, n);
  }

  /**
    The file 2 holds the byte 2 until the file 1 before it grows to two sectors; then it holds that file's last
    byte.
   */
  lemma NeighbourIsOverwritten(s: Fs)
    ensures var f := Filled(s, 2);
      var g := Save(f, [1], Some(seq(SECTOR + 1, _ => 1)), SECTOR + 1, 0, 0).0;
      Inv(f) && FileOf(f, [2]) == Some(File([2], 0, 0)) && FileOf(g, [2]) != FileOf(f, [2])
  {
    var f := Filled(s, 2);
    FilledIs(s, 2);
    InvCore(f);
    FoundAt(f, 2, 0); FoundAt(f, 2, 1);
    Grows(f);
  }

  lemma Grows(f: Fs)
    requires Core(f) && InOrder(f, 2) && FileOf(f, [2]) == Some(File([2], 0, 0))
    requires Find(f.entries, [1]) == 0 && Find(f.entries, [2]) == 1
    ensures FileOf(Save(f, [1], Some(seq(SECTOR + 1, _ => 1)), SECTOR + 1, 0, 0).0, [2]) != FileOf(f, [2])
  {
    var src := Some(seq(SECTOR + 1, _ => 1));
    assert FileAt(f.entries[0], 1) && FileAt(f.entries[1], 2);
    assert [1][0] != [2][0] && NoNul([1]);
    hide Core, FileOf, Find, Save, FirstUnused, CStr, StrNCopy;
    OthersSurviveIff(f, [1], src, SECTOR + 1, 0, 0, [2]);
    assert Overrun(DATA_LBA, 2, f.entries[1], 0);
    assert WrittenByte(src, SECTOR + 1, SECTOR) == 1;
  }

  /** A path of 64 characters is saved, and not found. */
  lemma LongPathIsNotFound(s: Fs)
    ensures var path := seq(64, _ => 65);
      var (f, ok) := Save(Format(s), path, Some([7]), 1, 0, 0);
      ok && f.num == 1 && FileOf(f, path) == None
  {
    var f, path: seq<byte> := Format(s), seq(64, _ => 65);
    Formatted(s);
    InvCore(f);
    FormatInv(s, path);
    NoneNamed(f, path);
    hide Core, Find, FirstUnused, CStr, StrNCopy, FileOf, Format, Synced, WriteData;
    SavedFoundIff(f, path, Some([7]), 1, 0, 0);
    CountOf(f, 0);
    SaveIs(f, path, Some([7]), 1, 0, 0);
  }

  lemma NoneNamed(f: Fs, path: seq<byte>)
    requires InOrder(f, 0)
    ensures Find(f.entries, path) == MAX_FILES && Slot(f.entries, path) == 0
  {
    FirstIs(f.entries, path, MAX_FILES);
  }

  // ---- names that are cut to one another ----------------------------------------------------------------------

  /** The letter A, n times. */
  function As(n: nat): (a: seq<byte>)
    ensures |a| == n && NoNul(a)
  {
    seq(n, _ => 65)
  }

  lemma Alike()
    ensures As(64)[..63] == As(63) && As(63) != [66] && As(64) != As(63)
    ensures Stored(As(63)) == As(63) && Stored(As(64)) == As(63) && Stored([66]) == [66] && NoNul([66])
  {
    assert As(64)[..63] == As(63) && |As(63)| != |[66]| && |As(64)| != |As(63)|;
  }

  /** A save of one byte. */
  function One(s: Fs, path: seq<byte>, b: byte): (Fs, bool)
    requires Sized(s)
  {
    Save(s, path, Some([b]), 1, 0, 0)
  }

  function OneItem(name: seq<byte>, b: byte): Option<Item> { Some(Item(name, File([b], 0, 0))) }

  /** Under a name that is not there it takes the first free place. */
  lemma OneMore(s: Fs, path: seq<byte>, b: byte)
    requires Core(s) && NoNul(path) && s.next < 1000 && Sized(s)
    requires Where(View(s), path) == MAX_FILES && FirstNone(View(s)) < MAX_FILES
    ensures var (s', ok) := One(s, path, b);
      && ok && Sized(s') && s'.next <= s.next + 1
      && View(s') == View(s)[FirstNone(View(s)) := OneItem(Stored(path), b)]
      && (Core(s') <==> |path| <= 63 || Where(View(s), path[..63]) == MAX_FILES)
  {
    assert 1 < U32;
    hide *;
    OneFree(s, path, b);
    NewFits(s, path);
    OneNext(s, path, b);
    SaveView(s, path, Some([b]), 1, 0, 0);
    SaveFitsIff(s, path, Some([b]), 1, 0, 0);
  }

  lemma OneFree(s: Fs, path: seq<byte>, b: byte)
    requires Sized(s) && Where(View(s), path) == MAX_FILES && FirstNone(View(s)) < MAX_FILES
    ensures Find(s.entries, path) == MAX_FILES && FirstUnused(s.entries) < MAX_FILES
    ensures NameFits(s, path) <==> |path| <= 63 || Where(View(s), path[..63]) == MAX_FILES
    ensures One(s, path, b) == Save(s, path, Some([b]), 1, 0, 0)
    ensures Shown(View(s), DoSave(path, Some([b]), 1, 0, 0)) == View(s)[FirstNone(View(s)) := OneItem(Stored(path), b)]
  {
    hide View, Where, FirstNone, Save, Find, FirstUnused, Stored;
    ViewFinds(s, path);
    if |path| > 63 { ViewFinds(s, path[..63]); }
    assert Meant(Some([b]), 1) == [b];
    hide Sized;
  }

  lemma NewFits(s: Fs, path: seq<byte>)
    requires Core(s) && s.next < 1000 && Find(s.entries, path) == MAX_FILES
    ensures SaveFits(s, path, 1)
  {
    hide Synced, CStr;
  }

  lemma OneNext(s: Fs, path: seq<byte>, b: byte)
    requires Sized(s) && s.next < 1000 && Find(s.entries, path) == MAX_FILES && FirstUnused(s.entries) < MAX_FILES
    ensures One(s, path, b).1 && One(s, path, b).0.next <= s.next + 1
  {
    hide PutTable, SuperSector, WriteData, StrNCopy, Find, FirstUnused;
  }

  /** An empty directory, and the searches in a few concrete ones. */
  lemma EmptyView(s: Fs)
    ensures var f := Format(s); Core(f) && Sized(f) && f.next < 100 && View(f) == seq(MAX_FILES, _ => None)
  {
    FormatInv(s, []);
    InvCore(Format(s));
    FormatView(s);
    hide Core, Inv, View, PutTable;
  }

  /**
    63 letters and 64 of them: the second save reports success, but its name is cut to that of the first, which
    alone is found from then on, and the table has two entries of one name.
   */
  lemma NamesCollide(s: Fs)
    ensures var f := One(Format(s), As(63), 1).0;
      && Core(f) && Sized(f)
      && var (g, ok) := One(f, As(64), 2);
      && ok && SaveFits(f, As(64), 1) && !NameFits(f, As(64)) && !Core(g)
      && FileOf(g, As(63)) == Some(File([1], 0, 0)) && FileOf(g, As(64)) == None
  {
    Alike();
    EmptyView(s);
    var e := Format(s);
    hide Core, View, One, FileOf, Find, SaveFits, Format, Stored, As;
    OneMore(e, As(63), 1);
    var f := One(e, As(63), 1).0;
    assert View(f)[0] == OneItem(As(63), 1) && FirstNone(View(f)) == 1 && Where(View(f), As(64)) == MAX_FILES;
    OneMore(f, As(64), 2);
    var g := One(f, As(64), 2).0;
    assert Where(View(f), As(63)) == 0;
    ViewFinds(f, As(63)); ViewFinds(f, As(64));
    NewFits(f, As(64));
    assert !NameFits(f, As(64));
    assert View(g)[0] == OneItem(As(63), 1) && Where(View(g), As(63)) == 0 && Where(View(g), As(64)) == MAX_FILES;
    LookupIs(g, As(63)); LookupIs(g, As(64));
  }

  /** A file B, one of 63 letters behind it, and B deleted again. */
  function Vacated(s: Fs): (h: Fs)
    ensures Sized(h)
  {
    hide PutTable, SuperSector, WriteData, StrNCopy, Find, FirstUnused;
    Delete(One(One(Format(s), [66], 0).0, As(63), 1).0, [66]).0
  }

  lemma VacatedView(s: Fs)
    ensures var h := Vacated(s);
      && Core(h) && h.next < 1000 && View(h)[0] == None && View(h)[1] == OneItem(As(63), 1)
      && forall i :: 2 <= i < MAX_FILES ==> View(h)[i] == None
  {
    Alike();
    EmptyView(s);
    var e := Format(s);
    hide Core, View, One, Find, SaveFits, Sized, Format, Stored, As, Delete;
    OneMore(e, [66], 0);
    var a := One(e, [66], 0).0;
    assert View(a)[0] == OneItem([66], 0) && FirstNone(View(a)) == 1 && Where(View(a), As(63)) == MAX_FILES;
    OneMore(a, As(63), 1);
    var f := One(a, As(63), 1).0;
    assert View(f)[0] == OneItem([66], 0) && View(f)[1] == OneItem(As(63), 1) && Where(View(f), [66]) == 0;
    DeleteView(f, [66]);
    DeleteKeepsCore(f, [66]);
    DeleteNext(f, [66]);
  }

  /** When an earlier place is free, the file of 63 letters is hidden behind the one saved under 64. */
  lemma PrefixIsHidden(s: Fs)
    ensures var h := Vacated(s);
      && Core(h) && FileOf(h, As(63)) == Some(File([1], 0, 0))
      && FileOf(One(h, As(64), 2).0, As(63)) == Some(File([2], 0, 0))
  {
    Alike();
    VacatedView(s);
    hide Core, View, One, FileOf, Find, SaveFits, Stored, As, Vacated;
    var h := Vacated(s);
    assert FirstNone(View(h)) == 0 && Where(View(h), As(63)) == 1 && Where(View(h), As(64)) == MAX_FILES;
    OneMore(h, As(64), 2);
    var g := One(h, As(64), 2).0;
    assert View(g)[0] == OneItem(As(63), 2) && Where(View(g), As(63)) == 0;
    LookupIs(h, As(63)); LookupIs(g, As(63));
  }

  lemma DeleteNext(s: Fs, path: seq<byte>)
    requires Sized(s)
    ensures Delete(s, path).0.next == s.next
  {
  }
}
