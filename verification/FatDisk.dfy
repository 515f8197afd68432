/**
 What the FAT32 driver keeps on disk beside file data (kernel/BasicDrivers/fat32.c): the table,
 128 little-endian entries a sector, and the root directory, 16 entries of 32 bytes a sector
 ("FAT Directory Structure" in Microsoft's FAT32 File System Specification).
 */
module FatDisk {
  import opened Words
  import opened FatChains
  import opened FatData

  const ENTRY: nat := 32
  const PER_SECTOR: nat := 16
  const DELETED: Byte := 0xE5
  const LONG_NAME: Byte := 0x0F

  // ---------------------------------------------------------------- several sectors at once

  /** disk_write has stored the first k sectors of `data` from `base` on. */
  ghost predicate Stored(disk0: Disk, disk: Disk, base: nat, data: seq<Sector>, k: nat)
    requires k <= |data|
  {
    forall lba: nat :: Sec(disk, lba) == if base <= lba < base + k then data[lba - base] else Sec(disk0, lba)
  }

  lemma {:induction false} StoreNext(disk0: Disk, disk: Disk, base: nat, data: seq<Sector>, k: nat)
    requires k < |data| && Stored(disk0, disk, base, data, k)
    ensures Stored(disk0, disk[base + k := data[k]], base, data, k + 1)
  {
    var disk' := disk[base + k := data[k]];
    forall lba: nat
      ensures Sec(disk', lba) == if base <= lba < base + k + 1 then data[lba - base] else Sec(disk0, lba)
    {
      assert lba != base + k ==> Sec(disk', lba) == Sec(disk, lba);
    }
  }

  // ---------------------------------------------------------------- the table on disk

  /** Byte b of an entry, the low one first. */
  function ByteOf(e: Entry, b: nat): Byte
    requires b < 4
  {
    if b == 0 then e % 256
    else if b == 1 then e / 256 % 256
    else if b == 2 then e / 256 / 256 % 256
    else e / 256 / 256 / 256
  }

  function Word32(a: Byte, b: Byte, c: Byte, d: Byte): Entry
  {
    a + 0x100 * b + 0x1_0000 * c + 0x100_0000 * d
  }

  lemma {:induction false} WordRoundTrip(e: Entry)
    ensures Word32(ByteOf(e, 0), ByteOf(e, 1), ByteOf(e, 2), ByteOf(e, 3)) == e
  {
  }

  /** Sector k of the cached table. */
  function TableSector(fat: Table, k: nat): Sector
    requires 128 * k + 128 <= |fat|
  {
    seq(SECTOR, j requires 0 <= j < SECTOR => ByteOf(fat[128 * k + j / 4], j % 4))
  }

  function TableSectors(fat: Table, n: nat): (r: seq<Sector>)
    requires |fat| == 128 * n
  {
    seq<Sector>(n, k requires 0 <= k < n => TableSector(fat, k))
  }

  function EntryIn(s: Sector, i: nat): Entry
    requires i < 128
  {
    Word32(s[4 * i], s[4 * i + 1], s[4 * i + 2], s[4 * i + 3])
  }

  /** Entry c of the table as it is on disk. */
  function DiskEntry(v: Volume, disk: Disk, c: nat): Entry
  {
    EntryIn(Sec(disk, v.fatStart + c / 128), c % 128)
  }

  function DiskTable(v: Volume, disk: Disk): (r: Table)
    ensures |r| == 128 * v.fatSectors
  {
    seq(128 * v.fatSectors, c requires 0 <= c < 128 * v.fatSectors => DiskEntry(v, disk, c))
  }

  /** Entry c of the table is the number in the four bytes from byte 4c of the table on, little-endian. */
  lemma {:induction false} EntryOnDisk(v: Volume, disk: Disk, c: nat)
    ensures var s, b := Sec(disk, v.fatStart + 4 * c / 512), 4 * c % 512;
            var b0: nat, b1: nat, b2: nat, b3: nat := s[b], s[b + 1], s[b + 2], s[b + 3];
            DiskEntry(v, disk, c) == b0 + 256 * b1 + 65536 * b2 + 16777216 * b3
  {
    var q, r := c / 128, c % 128;
    assert 4 * c == 512 * q + 4 * r;
  }

  lemma {:induction false} TableSectorEntry(fat: Table, k: nat, i: nat)
    requires 128 * k + 128 <= |fat| && i < 128
    ensures EntryIn(TableSector(fat, k), i) == fat[128 * k + i]
  {
  }

  lemma {:induction false} FlushedEntryAt(v: Volume, disk0: Disk, disk: Disk, fat: Table, k: nat, q: nat, r: nat)
    requires |fat| == 128 * v.fatSectors && k <= v.fatSectors && q < v.fatSectors && r < 128
    requires Stored(disk0, disk, v.fatStart, TableSectors(fat, v.fatSectors), k)
    ensures EntryIn(Sec(disk, v.fatStart + q), r) ==
            if q < k then fat[128 * q + r] else EntryIn(Sec(disk0, v.fatStart + q), r)
  {
    if q < k {
      assert Sec(disk, v.fatStart + q) == TableSectors(fat, v.fatSectors)[q] == TableSector(fat, q);
      TableSectorEntry(fat, q, r);
    }
  }

  /** fat32_flush, stopped after k sectors, has the entries of those sectors new and the others as they were. */
  lemma {:induction false} FlushedEntry(v: Volume, disk0: Disk, disk: Disk, fat: Table, k: nat, c: nat)
    requires |fat| == 128 * v.fatSectors && k <= v.fatSectors && c < |fat|
    requires Stored(disk0, disk, v.fatStart, TableSectors(fat, v.fatSectors), k)
    ensures DiskEntry(v, disk, c) == if c / 128 < k then fat[c] else DiskEntry(v, disk0, c)
  {
    var q, r := DiskEntryAt(v, disk0, disk, c);
    assert q < v.fatSectors;
    FlushedEntryAt(v, disk0, disk, fat, k, q, r);
  }

  lemma {:induction false} DiskEntryAt(v: Volume, disk0: Disk, disk: Disk, c: nat) returns (q: nat, r: nat)
    ensures r < 128 && c == 128 * q + r && q == c / 128
    ensures DiskEntry(v, disk, c) == EntryIn(Sec(disk, v.fatStart + q), r)
    ensures DiskEntry(v, disk0, c) == EntryIn(Sec(disk0, v.fatStart + q), r)
  {
    q, r := c / 128, c % 128;
  }

  // ---------------------------------------------------------------- directory clusters

  /** The sectors of a cluster. */
  function Image(v: Volume, disk: Disk, c: nat): (img: seq<Sector>)
    requires c >= 2
    ensures |img| == v.perCluster
  {
    seq<Sector>(v.perCluster, k requires 0 <= k < v.perCluster => Sec(disk, v.Lba(c) + k))
  }

  /** Byte f of directory entry e. */
  function Field(img: seq<Sector>, e: nat, f: nat): Byte
    requires e < PER_SECTOR * |img| && f < ENTRY
  {
    img[e / PER_SECTOR][e % PER_SECTOR * ENTRY + f]
  }

  /** An entry the scans look at: in use, not part of a long name, and no end mark before it. */
  ghost predicate Listed(img: seq<Sector>, e: nat)
  {
    && e < PER_SECTOR * |img|
    && (forall e': nat :: e' <= e ==> Field(img, e', 0) != 0)
    && Field(img, e, 0) != DELETED && Field(img, e, 11) != LONG_NAME
  }

  /** The first cluster of an entry's file. */
  function StartOf(img: seq<Sector>, e: nat): nat
    requires e < PER_SECTOR * |img|
  {
    Word32(Field(img, e, 26), Field(img, e, 27), Field(img, e, 20), Field(img, e, 21))
  }

  function SizeOf(img: seq<Sector>, e: nat): nat
    requires e < PER_SECTOR * |img|
  {
    Word32(Field(img, e, 28), Field(img, e, 29), Field(img, e, 30), Field(img, e, 31))
  }

  function Upper(b: Byte): Byte
  {
    if 97 <= b <= 122 then b - 32 else b
  }

  /** Small letters become their capitals, and no other byte changes. */
  lemma {:induction false} UpperLetters(b: Byte, k: nat)
    ensures k < 26 && b == 'a' as int + k ==> Upper(b) == 'A' as int + k
    ensures !('a' as int <= b <= 'z' as int) ==> Upper(b) == b
    ensures !('a' as int <= Upper(b) <= 'z' as int)
  {
  }

  type ShortName = s: seq<Byte> | |s| == 11 witness seq(11, _ => 0)

  /** The 11 name bytes of an entry. */
  function RawName(img: seq<Sector>, e: nat): ShortName
    requires e < PER_SECTOR * |img|
  {
    seq(11, f requires 0 <= f < 11 => Field(img, e, f))
  }

  ghost predicate Matches(img: seq<Sector>, e: nat, name: ShortName)
    requires e < PER_SECTOR * |img|
  {
    forall f: nat :: f < 11 ==> Upper(Field(img, e, f)) == name[f]
  }

  ghost predicate Hit(img: seq<Sector>, e: nat, name: ShortName)
  {
    Listed(img, e) && Matches(img, e, name)
  }

  /** After an end mark there are only end marks. */
  ghost predicate Tidy(img: seq<Sector>)
  {
    forall e: nat, e': nat :: e < e' < PER_SECTOR * |img| && Field(img, e, 0) == 0 ==> Field(img, e', 0) == 0
  }

  // ---------------------------------------------------------------- an entry is rewritten

  /** The cluster with `data` in place of entry e. */
  function PutEntry(img: seq<Sector>, e: nat, data: seq<Byte>): (r: seq<Sector>)
    requires e < PER_SECTOR * |img| && |data| == ENTRY
    ensures |r| == |img|
  {
    img[e / PER_SECTOR := Patch(img[e / PER_SECTOR], e % PER_SECTOR * ENTRY, data)]
  }

  function EntryBytes(img: seq<Sector>, e: nat): (r: seq<Byte>)
    requires e < PER_SECTOR * |img|
    ensures |r| == ENTRY
  {
    seq(ENTRY, f requires 0 <= f < ENTRY => Field(img, e, f))
  }

  lemma {:induction false} PutField(img: seq<Sector>, e: nat, data: seq<Byte>, e': nat, f: nat)
    requires e < PER_SECTOR * |img| && |data| == ENTRY && e' < PER_SECTOR * |img| && f < ENTRY
    ensures Field(PutEntry(img, e, data), e', f) == if e' == e then data[f] else Field(img, e', f)
  {
  }

  /** fat32_delete's mark. */
  function MarkDeleted(img: seq<Sector>, e: nat): seq<Sector>
    requires e < PER_SECTOR * |img|
  {
    PutEntry(img, e, EntryBytes(img, e)[0 := DELETED])
  }

  lemma {:induction false} MarkedListing(img: seq<Sector>, e: nat, e': nat)
    requires Listed(img, e)
    ensures Listed(MarkDeleted(img, e), e') <==> Listed(img, e') && e' != e
    ensures Listed(img, e') && e' != e ==> StartOf(MarkDeleted(img, e), e') == StartOf(img, e')
  {
    var data := EntryBytes(img, e)[0 := DELETED];
    forall x: nat, f: nat | x < PER_SECTOR * |img| && f < ENTRY
      ensures Field(MarkDeleted(img, e), x, f) == if x == e && f == 0 then DELETED else Field(img, x, f)
    {
      PutField(img, e, data, x, f);
    }
  }

  /** Marking keeps the end marks where they are. */
  lemma {:induction false} MarkedTidy(img: seq<Sector>, e: nat)
    requires Listed(img, e) && Tidy(img)
    ensures Tidy(MarkDeleted(img, e))
  {
    var data := EntryBytes(img, e)[0 := DELETED];
    forall x: nat | x < PER_SECTOR * |img|
      ensures Field(MarkDeleted(img, e), x, 0) == if x == e then DELETED else Field(img, x, 0)
    {
      PutField(img, e, data, x, 0);
    }
  }

  // ---------------------------------------------------------------- a new entry

  /** A free entry: never used, or deleted. */
  predicate IsSlot(img: seq<Sector>, e: nat)
  {
    e < PER_SECTOR * |img| && (Field(img, e, 0) == 0 || Field(img, e, 0) == DELETED)
  }

  type Stamp = s: seq<Byte> | |s| == 8 witness seq(8, _ => 0)

  /** fat32_create_file's entry: name, archive attribute, creation and write times, first cluster, no
      bytes yet. What it does not set stays. */
  function NewEntry(was: seq<Byte>, name: ShortName, stamp: Stamp, c: Entry): (r: seq<Byte>)
    requires |was| == ENTRY
    ensures |r| == ENTRY
  {
    seq(ENTRY, f requires 0 <= f < ENTRY => NewByte(was, name, stamp, c, f))
  }

  function NewByte(was: seq<Byte>, name: ShortName, stamp: Stamp, c: Entry, f: nat): Byte
    requires |was| == ENTRY && f < ENTRY
  {
    if f < 11 then name[f]
    else if f == 11 then 0x20
    else if 14 <= f < 18 then stamp[f - 14]
    else if 20 <= f < 22 then ByteOf(c, f - 18)
    else if 22 <= f < 26 then stamp[f - 18]
    else if 26 <= f < 28 then ByteOf(c, f - 26)
    else if 28 <= f then 0
    else was[f]
  }

  function AddEntry(img: seq<Sector>, e: nat, name: ShortName, stamp: Stamp, c: Entry): (r: seq<Sector>)
    requires e < PER_SECTOR * |img|
    ensures |r| == |img|
  {
    PutEntry(img, e, NewEntry(EntryBytes(img, e), name, stamp, c))
  }

  /** A name that is stored as it is compared, and that does not look like a free entry. */
  predicate Proper(name: ShortName)
  {
    name[0] != 0 && name[0] != DELETED && forall f: nat :: f < 11 ==> Upper(name[f]) == name[f]
  }

  lemma {:induction false} AddedField(img: seq<Sector>, e: nat, name: ShortName, stamp: Stamp, c: Entry, f: nat)
    requires e < PER_SECTOR * |img| && f < ENTRY
    ensures Field(AddEntry(img, e, name, stamp, c), e, f) == NewByte(EntryBytes(img, e), name, stamp, c, f)
  {
  }

  /** The new entry names its cluster and holds no bytes. */
  lemma {:induction false} AddedStart(img: seq<Sector>, e: nat, name: ShortName, stamp: Stamp, c: Entry)
    requires e < PER_SECTOR * |img|
    ensures StartOf(AddEntry(img, e, name, stamp, c), e) == c
  {
  }

  lemma {:induction false} AddedSize(img: seq<Sector>, e: nat, name: ShortName, stamp: Stamp, c: Entry)
    requires e < PER_SECTOR * |img|
    ensures SizeOf(AddEntry(img, e, name, stamp, c), e) == 0
  {
  }

  lemma {:induction false} AddedName(img: seq<Sector>, e: nat, name: ShortName, stamp: Stamp, c: Entry)
    requires e < PER_SECTOR * |img| && Proper(name)
    ensures Matches(AddEntry(img, e, name, stamp, c), e, name)
  {
  }

  /** Entries other than e keep every field. */
  lemma {:induction false} OthersKept(img: seq<Sector>, r: seq<Sector>, e: nat, data: seq<Byte>, x: nat)
    requires e < PER_SECTOR * |img| && |data| == ENTRY && r == PutEntry(img, e, data) && x < PER_SECTOR * |img|
    requires x != e
    ensures forall f: nat :: f < ENTRY ==> Field(r, x, f) == Field(img, x, f)
  {
  }

  lemma {:induction false} AddedTidy(img: seq<Sector>, e: nat, name: ShortName, stamp: Stamp, c: Entry)
    requires FirstSlot(img, e) && Tidy(img) && Proper(name)
    ensures Tidy(AddEntry(img, e, name, stamp, c))
  {
    var data := NewEntry(EntryBytes(img, e), name, stamp, c);
    var r := AddEntry(img, e, name, stamp, c);
    forall x: nat | x < PER_SECTOR * |img| ensures Field(r, x, 0) == if x == e then name[0] else Field(img, x, 0) {
      PutField(img, e, data, x, 0);
    }
    forall x: nat | x < e ensures Field(img, x, 0) != 0 {
      assert !IsSlot(img, x);
    }
  }

  ghost predicate FirstSlot(img: seq<Sector>, e: nat)
  {
    IsSlot(img, e) && forall x: nat :: x < e ==> !IsSlot(img, x)
  }

  /** The new entry is listed, and the listing of the others does not change. */
  lemma {:induction false} AddedListing(img: seq<Sector>, e: nat, name: ShortName, stamp: Stamp, c: Entry, e': nat)
    requires FirstSlot(img, e) && Tidy(img) && Proper(name)
    ensures Listed(AddEntry(img, e, name, stamp, c), e') <==> Listed(img, e') || e' == e
    ensures Listed(img, e') ==> e' != e && StartOf(AddEntry(img, e, name, stamp, c), e') == StartOf(img, e')
  {
    var r := AddEntry(img, e, name, stamp, c);
    AddedField(img, e, name, stamp, c, 11);
    forall x: nat | x < PER_SECTOR * |img| ensures Field(r, x, 0) == if x == e then name[0] else Field(img, x, 0) {
      PutField(img, e, NewEntry(EntryBytes(img, e), name, stamp, c), x, 0);
    }
    forall x: nat | x < e ensures Field(img, x, 0) != 0 {
      assert !IsSlot(img, x);
    }
    if e' < PER_SECTOR * |img| && e' != e {
      OthersKept(img, r, e, NewEntry(EntryBytes(img, e), name, stamp, c), e');
      OthersListed(img, r, e, e');
    }
  }

  lemma {:induction false} OthersListed(img: seq<Sector>, r: seq<Sector>, e: nat, x: nat)
    requires e < PER_SECTOR * |img| && |r| == |img| && x < PER_SECTOR * |img| && x != e && Tidy(img)
    requires forall y: nat :: y < PER_SECTOR * |img| && y != e ==> Field(r, y, 0) == Field(img, y, 0)
    requires Field(r, e, 0) != 0 && forall f: nat :: f < ENTRY ==> Field(r, x, f) == Field(img, x, f)
    ensures Listed(r, x) <==> Listed(img, x)
    ensures StartOf(r, x) == StartOf(img, x)
  {
  }
}
