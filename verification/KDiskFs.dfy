/**
  freestanding/kdiskfs.c as it runs: the superblock and the directory table in memory, the sectors of the
  drive, and the loops that move bytes between them.
 */
module KDiskFs {
  import opened Common
  import opened DiskModel

  class Kdiskfs {
    const present: bool
    var magic: nat
    var bsize: nat
    var num: nat
    var next: nat
    const entries: array<Entry>
    var disk: Disk

    constructor (present: bool, disk: Disk)
      ensures Valid() && this.present == present && this.disk == disk && fresh(entries)
      ensures State() == Fs(0, 0, 0, 0, Blank(), disk)
    {
      this.present, this.disk := present, disk;
      magic, bsize, num, next := 0, 0, 0, 0;
      entries := new Entry[MAX_FILES](_ => NO_ENTRY);
      new;
      assert entries[..] == Blank();
    }

    ghost predicate Valid()
      reads this, entries
    {
      entries.Length == MAX_FILES && forall i :: 0 <= i < MAX_FILES ==> |entries[i].path| == 64
    }

    ghost function State(): (s: Fs)
      requires Valid()
      reads this, entries
      ensures Sized(s)
    {
      Fs(magic, bsize, num, next, entries[..], disk)
    }

    /** The four table sectors. */
    method WriteTable()
      requires Valid()
      modifies this`disk
      ensures disk == PutTable(old(State()))
    {
      hide TableBytes;
      var i := 0;
      var bytes := TableBytes(entries[..]);
      while i < 4
        invariant 0 <= i <= 4
        invariant i == 0 ==> disk == old(disk)
        invariant i == 1 ==> disk == old(disk)[TABLE_LBA := TableSector(State(), 0)]
        invariant i == 2 ==> disk == old(disk)[TABLE_LBA := TableSector(State(), 0)]
                                              [TABLE_LBA + 1 := TableSector(State(), 1)]
        invariant i == 3 ==> disk == old(disk)[TABLE_LBA := TableSector(State(), 0)]
                                              [TABLE_LBA + 1 := TableSector(State(), 1)]
                                              [TABLE_LBA + 2 := TableSector(State(), 2)]
        invariant i == 4 ==> disk == PutTable(old(State()))
      {
        disk := disk[TABLE_LBA + i := bytes[i * SECTOR..(i + 1) * SECTOR]];
        i := i + 1;
      }
    }

    /** sync_table_to_disk. */
    method SyncTable()
      requires Valid()
      modifies this`disk
      ensures State() == Sync(old(State()))
    {
      WriteTable();
      disk := disk[SUPER_LBA := SuperSector(magic, num, next, bsize)];
    }

    /** kdiskfs_format. */
    method Format() returns (ok: bool)
      requires Valid()
      modifies this`magic, this`bsize, this`num, this`next, this`disk, entries
      ensures Valid() && ok == present
      ensures State() == if present then DiskModel.Format(old(State())) else old(State())
    {
      hide TableSector, SuperSector, PutTable;
      if !present { return false; }
      magic, num, next, bsize := MAGIC, 0, DATA_LBA, SECTOR;
      disk := disk[SUPER_LBA := SuperSector(magic, num, next, bsize)];
      var i := 0;
      while i < MAX_FILES
        modifies entries
        invariant i <= MAX_FILES
        invariant forall k :: 0 <= k < i ==> entries[k] == NO_ENTRY
      {
        entries[i] := NO_ENTRY;
        i := i + 1;
      }
      assert entries[..] == Blank();
      WriteTable();
      ok := true;
    }

    method FindUsed(path: seq<byte>) returns (i: nat)
      requires Valid()
      ensures i == Find(entries[..], path)
    {
      i := 0;
      while i < MAX_FILES
        invariant i <= MAX_FILES
        invariant forall j :: 0 <= j < i ==> !(entries[j].used != 0 && Named(entries[j], path))
      {
        if entries[i].used != 0 && Named(entries[i], path) { break; }
        i := i + 1;
      }
    }

    method FindFree() returns (i: nat)
      requires Valid()
      ensures i == FirstUnused(entries[..])
    {
      i := 0;
      while i < MAX_FILES
        invariant i <= MAX_FILES
        invariant forall j :: 0 <= j < i ==> entries[j].used != 0
      {
        if entries[i].used == 0 { break; }
        i := i + 1;
      }
    }

    /** The data loop of a save. */
    method WriteSectors(lba: nat, n: nat, src: Option<seq<byte>>, size: nat)
      requires src.Some? ==> |src.value| == size
      modifies this`disk
      ensures disk == WriteData(old(disk), lba, n, src, size)
    {
      var s := 0;
      while s < n
        invariant s <= n
        invariant disk == WriteData(old(disk), lba, s, src, size)
      {
        var off := Word(s * SECTOR);
        var copy := if size > off then size - off else 0;
        if copy > SECTOR { copy := SECTOR; }
        var buf: Sector := Zeros(SECTOR);
        if src.Some? && copy > 0 { buf := src.value[off..off + copy] + buf[copy..]; }
        assert buf == DataSector(src, size, s);
        disk := disk[Word(lba + s) := buf];
        s := s + 1;
      }
    }

    /** kdiskfs_save_file. */
    method SaveFile(path: seq<byte>, src: Option<seq<byte>>, size: nat, typ: byte, mode: nat) returns (ok: bool)
      requires Valid() && (src.Some? ==> |src.value| == size) && mode < 65536
      modifies this`num, this`next, this`disk, entries
      ensures Valid()
      ensures (State(), ok) == if present then Save(old(State()), path, src, size, typ, mode) else (old(State()), false)
    {
      hide TableSector, SuperSector, PutTable, Sync, WriteData, StrNCopy, Find, FirstUnused, Word;
      if !present { return false; }
      var i := FindUsed(path);
      if i == MAX_FILES { i := FindFree(); }
      if i == MAX_FILES { return false; }
      ghost var before := entries[..];
      assert i == Slot(before, path);
      var n := (size + SECTOR - 1) / SECTOR;
      if n == 0 { n := 1; }
      n := Word(n);
      var e := entries[i];
      var start := if e.used != 0 then e.start else next;
      if e.used == 0 { next, num := Word(next + n), Word(num + 1); }
      WriteSectors(start, n, src, size);
      entries[i] := Entry(StrNCopy(e.path, path), Word(size), start, n, typ, 1, mode);
      assert entries[..] == before[i := entries[i]];
      SyncTable();
      ok := true;
    }

    /** kdiskfs_delete_file; there is no check of the drive here. */
    method DeleteFile(path: seq<byte>) returns (ok: bool)
      requires Valid()
      modifies this`num, this`disk, entries
      ensures Valid() && (State(), ok) == Delete(old(State()), path)
    {
      hide TableSector, SuperSector;
      var i := FindUsed(path);
      if i == MAX_FILES { return false; }
      entries[i] := entries[i].(used := 0);
      assert entries[..] == old(entries[..])[i := entries[i]];
      if num > 0 { num := num - 1; }
      SyncTable();
      ok := true;
    }

    /** The table loop of a mount: raw sectors over the bytes of the entries in memory. */
    method LoadEntries()
      requires Valid()
      modifies entries
      ensures Valid() && entries[..] == LoadTable(disk, old(entries[..]))
    {
      hide TableBytes, Decode, DecodeTable;
      var tail := TableBytes(entries[..])[4 * SECTOR..];
      var bytes := ReadTable();
      var es := DecodeTable(bytes + tail);
      assert es == LoadTable(disk, entries[..]);
      forall k | 0 <= k < MAX_FILES ensures |es[k].path| == 64 { PathOfDecoded(bytes + tail, k); }
      var i := 0;
      while i < MAX_FILES
        modifies entries
        invariant 0 <= i <= MAX_FILES
        invariant forall k :: 0 <= k < i ==> entries[k] == es[k]
        invariant forall k :: i <= k < MAX_FILES ==> entries[k] == old(entries[k])
      {
        entries[i] := es[i];
        i := i + 1;
      }
      assert entries[..] == es;
    }

    method ReadTable() returns (bytes: seq<byte>)
      ensures bytes == Rd(disk, TABLE_LBA) + Rd(disk, TABLE_LBA + 1) + Rd(disk, TABLE_LBA + 2) + Rd(disk, TABLE_LBA + 3)
    {
      bytes := [];
      var i := 0;
      while i < 4
        invariant 0 <= i <= 4
        invariant i == 0 ==> bytes == []
        invariant i == 1 ==> bytes == Rd(disk, TABLE_LBA)
        invariant i == 2 ==> bytes == Rd(disk, TABLE_LBA) + Rd(disk, TABLE_LBA + 1)
        invariant i == 3 ==> bytes == Rd(disk, TABLE_LBA) + Rd(disk, TABLE_LBA + 1) + Rd(disk, TABLE_LBA + 2)
        invariant i == 4 ==>
          bytes == Rd(disk, TABLE_LBA) + Rd(disk, TABLE_LBA + 1) + Rd(disk, TABLE_LBA + 2) + Rd(disk, TABLE_LBA + 3)
      {
        bytes := bytes + Rd(disk, TABLE_LBA + i);
        i := i + 1;
      }
    }

    lemma PathOfDecoded(b: seq<byte>, k: nat)
      requires |b| == MAX_FILES * ENTRY_SIZE && k < MAX_FILES
      ensures |DecodeTable(b)[k].path| == 64
    {
    }

    /** The sectors of one file, one by one, cut at its size. */
    method ReadFile(e: Entry) returns (data: seq<byte>)
      ensures data == ReadBack(disk, e)
    {
      data := [];
      var s := 0;
      while s < e.count
        invariant s <= e.count && data == Cat(disk, e.start, s)
      {
        data := data + Rd(disk, Word(e.start + s));
        s := s + 1;
      }
      if e.size <= |data| { data := data[..e.size]; }
    }

    /** kdiskfs_mount, with the calls it makes into the VFS in order; `got` is whether kmalloc answers each request. */
    method Mount(got: seq<bool>) returns (ok: bool, calls: seq<Restored>)
      requires Valid() && |got| == MAX_FILES
      modifies this`magic, this`bsize, this`num, this`next, this`disk, entries
      ensures Valid() && ok == present
      ensures (State(), calls) == if present then DiskModel.Mount(old(State()), got) else (old(State()), [])
    {
      hide TableBytes, DecodeTable, LoadTable, DiskModel.Format, UnLe;
      calls := [];
      if !present { return false, calls; }
      var sb := Rd(disk, SUPER_LBA);
      magic, num, next, bsize := UnLe(sb[0..4]), UnLe(sb[4..8]), UnLe(sb[8..12]), UnLe(sb[12..16]);
      if magic != MAGIC {
        FormatForgets(old(State()), State());
        ok := Format();
        return;
      }
      LoadEntries();
      calls := RestoreAll(got);
      ok := true;
    }

    lemma FormatForgets(s: Fs, t: Fs)
      requires s.disk == t.disk
      ensures DiskModel.Format(s) == DiskModel.Format(t)
    {
    }

    method RestoreEntry(e: Entry, got: bool) returns (calls: seq<Restored>)
      ensures calls == RestoreOne(disk, e, got)
    {
      calls := [];
      if e.used != 0 {
        if e.typ == TYPE_DIR {
          calls := [MkDir(CStr(e.path))];
        } else if e.size > 0 {
          if got {
            var data := ReadFile(e);
            calls := [WriteFile(CStr(e.path), data)];
          }
        } else {
          calls := [CreateEmpty(CStr(e.path), e.typ, e.mode)];
        }
      }
    }

    method RestoreAll(got: seq<bool>) returns (calls: seq<Restored>)
      requires Valid() && |got| == MAX_FILES
      ensures calls == Restore(disk, entries[..], got)
    {
      hide CStr, ReadBack, RestoreOne, Restore;
      calls := [];
      var i := 0;
      ghost var es := entries[..];
      RestoreEnds(disk, es, got);
      while i < MAX_FILES
        invariant i <= MAX_FILES && entries[..] == es
        invariant calls + Restore(disk, es[i..], got[i..]) == Restore(disk, es, got)
      {
        RestoreNext(disk, es, got, i);
        var now := RestoreEntry(entries[i], got[i]);
        calls := calls + now;
        i := i + 1;
      }
    }

    lemma RestoreEnds(d: Disk, es: seq<Entry>, got: seq<bool>)
      requires |got| == |es|
      ensures es[0..] == es && got[0..] == got && Restore(d, es[|es|..], got[|es|..]) == []
    {
    }

    lemma RestoreNext(d: Disk, es: seq<Entry>, got: seq<bool>, i: nat)
      requires |got| == |es| && i < |es|
      ensures Restore(d, es[i..], got[i..]) == RestoreOne(d, es[i], got[i]) + Restore(d, es[i + 1..], got[i + 1..])
    {
      assert es[i..][1..] == es[i + 1..] && got[i..][1..] == got[i + 1..];
    }
  }
}
