/**
  The on-disk format and the operations of freestanding/kdiskfs.c as functions on a state of superblock
  counters, the 32 directory entries in memory, and the sectors of the disk.
 */
module DiskModel {
  import opened Arith
  import opened Common

  const SECTOR: nat := 512
  const MAX_FILES: nat := 32
  const ENTRY_SIZE: nat := 80
  const SUPER_LBA: nat := 1
  const TABLE_LBA: nat := 2
  const DATA_LBA: nat := 6
  const MAGIC: nat := 0x5346534B

  // ---- bytes ------------------------------------------------------------------------------------

  function Le(x: nat, n: nat): (b: seq<byte>)
    ensures |b| == n
  {
    if n == 0 then [] else [x % 256] + Le(x / 256, n - 1)
  }

  function UnLe(b: seq<byte>): nat { if b == [] then 0 else b[0] + 256 * UnLe(b[1..]) }

  lemma {:induction false} LeInverse(x: nat, n: nat)
    requires x < Pow(256, n)
    ensures UnLe(Le(x, n)) == x
    decreases n
  {
    if n == 0 {
    } else {
      LeInverse(x / 256, n - 1);
      assert Le(x, n)[1..] == Le(x / 256, n - 1);
    }
  }

  // ---- directory entries --------------------------------------------------------------------------

  /** kdiskfs_entry_t; `path` is the raw 64-byte field. */
  datatype Entry = Entry(path: seq<byte>, size: nat, start: nat, count: nat, typ: byte, used: byte, mode: nat)

  predicate GoodEntry(e: Entry) {
    |e.path| == 64 && e.path[63] == 0 && e.size < U32 && e.start < U32 && e.count < U32 && e.mode < 65536
  }

  function Encode(e: Entry): (b: seq<byte>)
    requires |e.path| == 64
    ensures |b| == ENTRY_SIZE
  {
    e.path + Le(e.size, 4) + Le(e.start, 4) + Le(e.count, 4) + [e.typ, e.used] + Le(e.mode, 2)
  }

  function Decode(b: seq<byte>): Entry
    requires |b| == ENTRY_SIZE
  {
    Entry(b[..64], UnLe(b[64..68]), UnLe(b[68..72]), UnLe(b[72..76]), b[76], b[77], UnLe(b[78..80]))
  }

  lemma SmallPow256()
    ensures Pow(256, 2) == 65536 && Pow(256, 4) == U32
  {
    assert Pow(256, 3) == 256 * Pow(256, 2);
  }

  lemma EntryParts(p: seq<byte>, s: seq<byte>, a: seq<byte>, c: seq<byte>, tu: seq<byte>, m: seq<byte>)
    requires |p| == 64 && |s| == |a| == |c| == 4 && |tu| == |m| == 2
    ensures var b := p + s + a + c + tu + m;
      && |b| == ENTRY_SIZE && b[..64] == p && b[64..68] == s && b[68..72] == a && b[72..76] == c
      && b[76] == tu[0] && b[77] == tu[1] && b[78..80] == m
  {
  }

  lemma EntryRoundTrip(e: Entry)
    requires GoodEntry(e)
    ensures Decode(Encode(e)) == e
  {
    hide Le, UnLe, Pow;
    SmallPow256();
    LeInverse(e.size, 4);
    LeInverse(e.start, 4);
    LeInverse(e.count, 4);
    LeInverse(e.mode, 2);
    EntryParts(e.path, Le(e.size, 4), Le(e.start, 4), Le(e.count, 4), [e.typ, e.used], Le(e.mode, 2));
  }

  const NO_ENTRY: Entry := Entry(Zeros(64), 0, 0, 0, 0, 0, 0)

  /** The characters before the terminating NUL. */
  function CStr(raw: seq<byte>): seq<byte> { if raw == [] || raw[0] == 0 then [] else [raw[0]] + CStr(raw[1..]) }

  predicate NoNul(s: seq<byte>) { forall i :: 0 <= i < |s| ==> s[i] != 0 }

  /** kstrncpy(field, path, 63): byte 63 of the field stays. */
  function StrNCopy(field: seq<byte>, path: seq<byte>): (r: seq<byte>)
    requires |field| == 64
    ensures |r| == 64 && r[63] == field[63]
  {
    (if |path| >= 63 then path[..63] else path + Zeros(63 - |path|)) + [field[63]]
  }

  /** kstrcmp(entry.path, path) == 0. */
  predicate Named(e: Entry, path: seq<byte>) { CStr(e.path) == path }

  // ---- the state --------------------------------------------------------------------------------

  type Sector = s: seq<byte> | |s| == SECTOR witness Zeros(SECTOR)

  type Disk = map<nat, Sector>

  /** Sectors never written hold some bytes; here, zeros. */
  function Rd(d: Disk, lba: nat): Sector { if lba in d then d[lba] else Zeros(SECTOR) }

  /** The superblock and the directory table in memory, and the drive. */
  datatype Fs = Fs(magic: nat, bsize: nat, num: nat, next: nat, entries: seq<Entry>, disk: Disk)

  predicate Sized(s: Fs) { |s.entries| == MAX_FILES && forall i :: 0 <= i < MAX_FILES ==> |s.entries[i].path| == 64 }

  function TableBytes(es: seq<Entry>): (b: seq<byte>)
    requires forall i :: 0 <= i < |es| ==> |es[i].path| == 64
    ensures |b| == ENTRY_SIZE * |es|
  {
    if es == [] then [] else Encode(es[0]) + TableBytes(es[1..])
  }

  /** Sector i of the table: the four of them hold the first 2048 of its 2560 bytes. */
  function TableSector(s: Fs, i: nat): Sector
    requires Sized(s) && i < 4
  {
    TableBytes(s.entries)[i * SECTOR..(i + 1) * SECTOR]
  }

  function SuperSector(magic: nat, num: nat, next: nat, bsize: nat): Sector {
    Le(magic, 4) + Le(num, 4) + Le(next, 4) + Le(bsize, 4) + Zeros(SECTOR - 16)
  }

  /** The four sectors of the table, written in order. */
  function PutTable(s: Fs): Disk
    requires Sized(s)
  {
    s.disk[TABLE_LBA := TableSector(s, 0)][TABLE_LBA + 1 := TableSector(s, 1)]
          [TABLE_LBA + 2 := TableSector(s, 2)][TABLE_LBA + 3 := TableSector(s, 3)]
  }

  /** sync_table_to_disk. */
  function Sync(s: Fs): Fs
    requires Sized(s)
  {
    s.(disk := PutTable(s)[SUPER_LBA := SuperSector(s.magic, s.num, s.next, s.bsize)])
  }

  /** The first used entry of that name, or 32. */
  function Find(es: seq<Entry>, path: seq<byte>): (i: nat)
    ensures i <= |es|
    ensures i < |es| ==> es[i].used != 0 && Named(es[i], path)
    ensures forall j :: 0 <= j < i ==> !(es[j].used != 0 && Named(es[j], path))
  {
    if es == [] then 0 else if es[0].used != 0 && Named(es[0], path) then 0 else 1 + Find(es[1..], path)
  }

  function FirstUnused(es: seq<Entry>): (i: nat)
    ensures i <= |es|
    ensures i < |es| ==> es[i].used == 0
    ensures forall j :: 0 <= j < i ==> es[j].used != 0
  {
    if es == [] then 0 else if es[0].used == 0 then 0 else 1 + FirstUnused(es[1..])
  }

  /** Where a save goes: the entry of that name, else the first unused one, else 32. */
  function Slot(es: seq<Entry>, path: seq<byte>): (i: nat)
    ensures i <= |es|
  {
    if Find(es, path) < |es| then Find(es, path) else FirstUnused(es)
  }

  function Needed(size: nat): nat { if size == 0 then 1 else (size + SECTOR - 1) / SECTOR }

  /**
    Sector k of a file of that size; the data may be missing, and is then written as zeros. Offsets are 32 bits
    wide.
   */
  function DataSector(src: Option<seq<byte>>, size: nat, k: nat): Sector
    requires src.Some? ==> |src.value| == size
  {
    var off := Word(k * SECTOR);
    if src.None? || off >= size then Zeros(SECTOR)
    else if off + SECTOR <= size then src.value[off..off + SECTOR]
    else src.value[off..] + Zeros(off + SECTOR - size)
  }

  /** The first n data sectors of a file, written from lba on; sector numbers are 32 bits wide. */
  function WriteData(d: Disk, lba: nat, n: nat, src: Option<seq<byte>>, size: nat): Disk
    requires src.Some? ==> |src.value| == size
  {
    if n == 0 then d else WriteData(d, lba, n - 1, src, size)[Word(lba + n - 1) := DataSector(src, size, n - 1)]
  }

  /** kdiskfs_save_file. */
  function Save(s: Fs, path: seq<byte>, src: Option<seq<byte>>, size: nat, typ: byte, mode: nat): (Fs, bool)
    requires Sized(s) && (src.Some? ==> |src.value| == size)
  {
    var i := Slot(s.entries, path);
    if i == MAX_FILES then (s, false)
    else
      var e := s.entries[i];
      var n := Word(Needed(size));
      var start := if e.used != 0 then e.start else s.next;
      var next := if e.used != 0 then s.next else Word(s.next + n);
      var num := if e.used != 0 then s.num else Word(s.num + 1);
      var e' := Entry(StrNCopy(e.path, path), Word(size), start, n, typ, 1, mode % 65536);
      var d := WriteData(s.disk, start, n, src, size);
      (Sync(s.(num := num, next := next, entries := s.entries[i := e'], disk := d)), true)
  }

  /** kdiskfs_delete_file. */
  function Delete(s: Fs, path: seq<byte>): (Fs, bool)
    requires Sized(s)
  {
    var i := Find(s.entries, path);
    if i == MAX_FILES then (s, false)
    else
      var s' := s.(entries := s.entries[i := s.entries[i].(used := 0)], num := if s.num > 0 then s.num - 1 else 0);
      (Sync(s'), true)
  }

  /** The directory in memory after a power cycle or a format. */
  function Blank(): (es: seq<Entry>)
    ensures |es| == MAX_FILES && forall i :: 0 <= i < MAX_FILES ==> es[i] == NO_ENTRY
  {
    seq(MAX_FILES, _ => NO_ENTRY)
  }

  /** kdiskfs_format: the superblock first, then the four table sectors. */
  function Format(s: Fs): Fs {
    var f := Fs(MAGIC, SECTOR, 0, DATA_LBA, Blank(), s.disk[SUPER_LBA := SuperSector(MAGIC, 0, DATA_LBA, SECTOR)]);
    f.(disk := PutTable(f))
  }

  // ---- mounting -----------------------------------------------------------------------------------

  /** The calls kdiskfs_mount makes into the VFS. */
  datatype Restored =
    | MkDir(path: seq<byte>)
    | WriteFile(path: seq<byte>, data: seq<byte>)
    | CreateEmpty(path: seq<byte>, typ: byte, mode: nat)

  function Cat(d: Disk, lba: nat, n: nat): (b: seq<byte>)
    ensures |b| == n * SECTOR
  {
    if n == 0 then [] else Cat(d, lba, n - 1) + Rd(d, Word(lba + n - 1))
  }

  /** What a mount or a reader gets of a file: the first `size` bytes of its sectors. */
  function ReadBack(d: Disk, e: Entry): seq<byte> {
    var all := Cat(d, e.start, e.count);
    if e.size <= |all| then all[..e.size] else all
  }

  /** The call for one entry; `got` says whether kmalloc gave the memory for its data. */
  function RestoreOne(d: Disk, e: Entry, got: bool): seq<Restored> {
    if e.used == 0 then []
    else if e.typ == TYPE_DIR then [MkDir(CStr(e.path))]
    else if e.size > 0 then if got then [WriteFile(CStr(e.path), ReadBack(d, e))] else []
    else [CreateEmpty(CStr(e.path), e.typ, e.mode)]
  }

  function Restore(d: Disk, es: seq<Entry>, got: seq<bool>): seq<Restored>
    requires |got| == |es|
  {
    if es == [] then [] else RestoreOne(d, es[0], got[0]) + Restore(d, es[1..], got[1..])
  }

  function DecodeTable(b: seq<byte>): (es: seq<Entry>)
    requires |b| % ENTRY_SIZE == 0
    ensures |es| == |b| / ENTRY_SIZE
  {
    seq(|b| / ENTRY_SIZE, i requires 0 <= i < |b| / ENTRY_SIZE => Decode(b[i * ENTRY_SIZE..(i + 1) * ENTRY_SIZE]))
  }

  /** The entries after a mount: four sectors over whatever was in memory. */
  function LoadTable(d: Disk, old_entries: seq<Entry>): (es: seq<Entry>)
    requires |old_entries| == MAX_FILES && forall i :: 0 <= i < MAX_FILES ==> |old_entries[i].path| == 64
    ensures |es| == MAX_FILES
  {
    DecodeTable(Rd(d, TABLE_LBA) + Rd(d, TABLE_LBA + 1) + Rd(d, TABLE_LBA + 2) + Rd(d, TABLE_LBA + 3)
                + TableBytes(old_entries)[4 * SECTOR..])
  }

  predicate Marked(s: Fs) { UnLe(Rd(s.disk, SUPER_LBA)[0..4]) == MAGIC }

  /** The state after kdiskfs_mount: a disk without the magic number is formatted, any other is loaded. */
  function Mounted(s: Fs): Fs
    requires Sized(s)
  {
    var sb := Rd(s.disk, SUPER_LBA);
    if !Marked(s) then Format(s)
    else Fs(MAGIC, UnLe(sb[12..16]), UnLe(sb[4..8]), UnLe(sb[8..12]), LoadTable(s.disk, s.entries), s.disk)
  }

  /** kdiskfs_mount: with the calls that restore the files, given kmalloc's answers. */
  function Mount(s: Fs, got: seq<bool>): (Fs, seq<Restored>)
    requires Sized(s) && |got| == MAX_FILES
  {
    (Mounted(s), if Marked(s) then Restore(s.disk, LoadTable(s.disk, s.entries), got) else [])
  }
}
