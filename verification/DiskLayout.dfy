/**
  Where freestanding/kdiskfs.c puts what it stores: every byte of the superblock, of the table and of the sectors
  of a file.
 */
module DiskLayout {
  import opened Arith
  import opened Common
  import opened DiskModel
  import opened DiskProof
  import opened DiskRuns

  /** Two bytes, the lower first. */
  function Pair(b: seq<byte>, at: nat): nat
    requires at + 2 <= |b|
  {
    (b[at] as int) + 0x100 * (b[at + 1] as int)
  }

  /** Four bytes, the lowest first. */
  function Quad(b: seq<byte>, at: nat): nat
    requires at + 4 <= |b|
  {
    Pair(b, at) + 0x1_0000 * Pair(b, at + 2)
  }

  lemma LeIs(x: nat)
    requires x < U32
    ensures Quad(Le(x, 4), 0) == x && (x < 65536 ==> Pair(Le(x, 2), 0) == x)
  {
    var y := x / 256;
    var z := y / 256;
    var w := z / 256;
    assert Le(x, 4) == [x % 256] + Le(y, 3) && Le(y, 3) == [y % 256] + Le(z, 2);
    assert Le(z, 2) == [z % 256] + Le(w, 1) && Le(w, 1) == [w % 256] + Le(w / 256, 0);
    assert Le(x, 2) == [x % 256] + Le(y, 1) && Le(y, 1) == [y % 256] + Le(z, 0);
    hide Le;
    assert x == x % 256 + 256 * y && y == y % 256 + 256 * z && z == z % 256 + 256 * w;
    assert w < 256;
  }

  lemma QuadPart(b: seq<byte>, at: nat)
    requires at + 4 <= |b|
    ensures Quad(b, at) == Quad(b[at..at + 4], 0)
  {
  }

  lemma PairPart(b: seq<byte>, at: nat)
    requires at + 2 <= |b|
    ensures Pair(b, at) == Pair(b[at..at + 2], 0)
  {
  }

  /** The 80 bytes of an entry. */
  lemma EntryLayout(e: Entry)
    requires GoodEntry(e)
    ensures var b := Encode(e);
      && b[..64] == e.path && Quad(b, 64) == e.size && Quad(b, 68) == e.start && Quad(b, 72) == e.count
      && b[76] == e.typ && b[77] == e.used && Pair(b, 78) == e.mode
  {
    LeIs(e.size); LeIs(e.start); LeIs(e.count); LeIs(e.mode);
    hide Le, Quad, Pair;
    EntryParts(e.path, Le(e.size, 4), Le(e.start, 4), Le(e.count, 4), [e.typ, e.used], Le(e.mode, 2));
    var b := Encode(e);
    hide Encode;
    PairPart(b, 78);
    QuadPart(b, 64); QuadPart(b, 68); QuadPart(b, 72);
  }

  /** The first 16 bytes of sector 1: "KSFS", the number of files, the next free sector and the sector size. */
  lemma SuperOnDisk(s: Fs)
    requires Core(s)
    ensures var b := Rd(s.disk, 1);
      && b[..4] == [0x4B, 0x53, 0x46, 0x53] && Quad(b, 4) == s.num && Quad(b, 8) == s.next && Quad(b, 12) == s.bsize
  {
    LeIs(s.num); LeIs(s.next); LeIs(s.bsize);
    assert Synced(s) && s.magic == MAGIC;
    MagicBytes();
    var b := Rd(s.disk, 1);
    assert b == SuperSector(MAGIC, s.num, s.next, s.bsize);
    hide Le, Quad, Pair, Synced, Core, Rd;
    Fields(Le(MAGIC, 4), Le(s.num, 4), Le(s.next, 4), Le(s.bsize, 4), Zeros(SECTOR - 16));
    QuadPart(b, 4); QuadPart(b, 8); QuadPart(b, 12);
  }

  lemma MagicBytes()
    ensures Le(MAGIC, 4) == [0x4B, 0x53, 0x46, 0x53]
  {
    assert Le(0x5346534B, 4) == [0x4B] + Le(0x534653, 3) && Le(0x534653, 3) == [0x53] + Le(0x5346, 2);
    assert Le(0x5346, 2) == [0x46] + Le(0x53, 1) && Le(0x53, 1) == [0x53];
  }

  /** Byte p of the table on disk, from sector 2 on, is byte p % 80 of entry p / 80. */
  lemma TableOnDisk(s: Fs, p: nat)
    requires Core(s) && p < 2048
    ensures |s.entries| == 32 && |s.entries[p / 80].path| == 64
    ensures Rd(s.disk, 2 + p / 512)[p % 512] == Encode(s.entries[p / 80])[p % 80]
  {
    CoreSized(s);
    SectorOf(s, p / 512);
    hide Core, Rd, TableBytes, Encode;
    ByteOfTable(s.entries, p);
  }

  lemma ByteOfTable(es: seq<Entry>, p: nat)
    requires |es| == 32 && p < 2048 && forall i :: 0 <= i < |es| ==> |es[i].path| == 64
    ensures TableBytes(es)[p / 512 * 512..(p / 512 + 1) * 512][p % 512] == Encode(es[p / 80])[p % 80]
  {
    TableSlice(es, p / 80);
    hide TableBytes, Encode;
    InSector(TableBytes(es), p);
    InEntry(TableBytes(es), p);
  }

  lemma InSector(b: seq<byte>, p: nat)
    requires (p / 512 + 1) * 512 <= |b|
    ensures b[p / 512 * 512..(p / 512 + 1) * 512][p % 512] == b[p]
  {
  }

  lemma InEntry(b: seq<byte>, p: nat)
    requires (p / 80 + 1) * 80 <= |b|
    ensures b[p / 80 * 80..(p / 80 + 1) * 80][p % 80] == b[p]
  {
  }

  lemma SectorOf(s: Fs, i: nat)
    requires Core(s) && i < 4
    ensures Sized(s) && Rd(s.disk, 2 + i) == TableBytes(s.entries)[i * 512..(i + 1) * 512]
  {
    hide *;
    FourSectors(s);
    SectorSlice(s, i);
  }

  lemma SectorSlice(s: Fs, i: nat)
    requires Sized(s) && i < 4
    ensures |TableBytes(s.entries)| == 2560 && TableSector(s, i) == TableBytes(s.entries)[i * 512..(i + 1) * 512]
  {
  }

  lemma FourSectors(s: Fs)
    requires Core(s)
    ensures Sized(s) && Rd(s.disk, 2) == TableSector(s, 0) && Rd(s.disk, 3) == TableSector(s, 1)
    ensures Rd(s.disk, 4) == TableSector(s, 2) && Rd(s.disk, 5) == TableSector(s, 3)
  {
    hide TableSector, Rd, SuperSector;
  }

  /** A formatted disk has no files and its data begins at sector 6. */
  lemma FormatIs(s: Fs)
    ensures var f := Format(s); Core(f) && f.num == 0 && f.next == 6 && f.bsize == 512 && f.magic == 0x5346534B
  {
    hide PutTable, SuperSector;
    FormatInv(s, []);
  }

  /** A disk whose sector 1 does not begin with "KSFS" is formatted by a mount, which then restores nothing. */
  lemma UnmarkedIsFormatted(s: Fs, got: seq<bool>)
    requires Sized(s) && |got| == MAX_FILES
    ensures Rd(s.disk, 1)[..4] != [0x4B, 0x53, 0x46, 0x53] ==> Mount(s, got) == (Format(s), [])
  {
    MagicBytes();
    var b := Rd(s.disk, 1);
    hide Format, Rd, Restore, LoadTable, Le, UnLe;
    if Marked(s) {
      assert b[0..4] == b[..4];
      UnLeFixes(b[..4], MAGIC);
    }
  }

  lemma {:induction false} UnLeFixes(b: seq<byte>, x: nat)
    requires UnLe(b) == x
    ensures b == Le(x, |b|)
    decreases |b|
  {
    if b == [] {
    } else {
      var r := UnLe(b[1..]);
      assert x == b[0] + 256 * r;
      assert x % 256 == b[0] && x / 256 == r;
      UnLeFixes(b[1..], r);
      assert Le(x, |b|) == [x % 256] + Le(x / 256, |b| - 1);
      assert b == [b[0]] + b[1..];
    }
  }

  // ---- what a save writes -----------------------------------------------------------------------------------

  /** The sectors that a file of that size takes: at least one, and no more than it fills. */
  predicate Fills(n: nat, size: nat) { n >= 1 && size <= 512 * n && (n > 1 ==> size > 512 * (n - 1)) }

  lemma NeededFills(size: nat)
    ensures Fills(Needed(size), size)
  {
  }

  /** The name field: up to 63 characters of the path, then zeros. */
  lemma NameField(e: Entry, path: seq<byte>)
    requires GoodEntry(e)
    ensures forall i :: 0 <= i < 64 ==> StrNCopy(e.path, path)[i] == if i < |path| && i < 63 then path[i] else 0
  {
  }

  /**
    A save that fits: a new file takes the next free sectors and is counted, a known one keeps its place, and its
    entry says so. Its sectors then hold its bytes, or zeros for data that is missing, and zeros behind them.
   */
  lemma SaveWrites(s: Fs, path: seq<byte>, src: Option<seq<byte>>, size: nat, typ: byte, mode: nat, p: nat)
    requires Core(s) && (src.Some? ==> |src.value| == size) && size < U32 && mode < 65536
    requires SaveFits(s, path, size) && Slot(s.entries, path) < MAX_FILES && s.num + 1 < U32
    ensures var (s', k) := (Save(s, path, src, size, typ, mode).0, Slot(s.entries, path));
      && |s.entries| == |s'.entries| == MAX_FILES
      && var (was, e) := (s.entries[k], s'.entries[k]);
      && e == Entry(StrNCopy(was.path, path), size, e.start, e.count, typ, 1, mode) && Fills(e.count, size)
      && (if was.used == 0 then e.start == s.next && s'.next == s.next + e.count && s'.num == s.num + 1
          else e.start == was.start && s'.next == s.next && s'.num == s.num)
      && (p < 512 * e.count ==>
            Rd(s'.disk, e.start + p / 512)[p % 512] == if src.Some? && p < size then src.value[p] else 0)
  {
    hide *;
    CoreSized(s);
    FitsNarrow(s, path, src, size, typ, mode);
    SavedDisk(s, path, src, size, typ, mode);
    SaveCounts(s, path, src, size, typ, mode);
    NeededFills(size);
    EntrySaved(s, path, size, typ, mode);
    var e := SavedEntry(s, path, size, typ, mode);
    if p < 512 * e.count {
      FillsRange(e.count, size);
      ByteWritten(s.disk, Save(s, path, src, size, typ, mode).0.disk, e, src, p);
    }
  }

  lemma FillsRange(n: nat, size: nat)
    requires Fills(n, size) && size < U32
    ensures n * SECTOR < U32 + SECTOR
  {
  }

  lemma EntrySaved(s: Fs, path: seq<byte>, size: nat, typ: byte, mode: nat)
    requires Sized(s) && Slot(s.entries, path) < MAX_FILES
    ensures |s.entries| == MAX_FILES
    ensures var (was, e) := (s.entries[Slot(s.entries, path)], SavedEntry(s, path, size, typ, mode));
      && e == Entry(StrNCopy(was.path, path), size, e.start, Needed(size), typ, 1, mode)
      && e.start == if was.used == 0 then s.next else was.start
  {
    hide StrNCopy, Needed, Slot;
  }

  lemma SaveCounts(s: Fs, path: seq<byte>, src: Option<seq<byte>>, size: nat, typ: byte, mode: nat)
    requires Narrow(s, path, src, size, mode) && s.num + 1 < U32
    ensures |s.entries| == MAX_FILES
    ensures var s' := Save(s, path, src, size, typ, mode).0;
      if s.entries[Slot(s.entries, path)].used == 0 then s'.next == s.next + Needed(size) && s'.num == s.num + 1
      else s'.next == s.next && s'.num == s.num
  {
    SaveIs(s, path, src, size, typ, mode);
    WordSmall(s.num + 1);
    hide Save, Needed, Slot, StrNCopy, WriteData, PutTable, SuperSector, Word, SavedEntry;
  }

  lemma ByteWritten(d: Disk, d': Disk, e: Entry, src: Option<seq<byte>>, p: nat)
    requires (src.Some? ==> |src.value| == e.size) && e.size < U32 && e.count * SECTOR < U32 + SECTOR
    requires DATA_LBA <= e.start && Written(d, d', e, src) && p < 512 * e.count
    ensures Rd(d', e.start + p / 512)[p % 512] == if src.Some? && p < e.size then src.value[p] else 0
  {
    assert WrittenAt(d, d', e, src, e.start + p / 512);
    WordSmall(p / 512 * SECTOR);
    hide Rd, Word, Written;
  }
}
