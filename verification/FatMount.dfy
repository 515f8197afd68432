/**
 Mounting a FAT32 volume (fat32_mount in kernel/BasicDrivers/fat32.c): what the boot sector says about
 where the table and the data are ("Boot Sector and BPB Structure" in Microsoft's FAT32 File System
 Specification), in 32-bit arithmetic, and the table that is cached.
 */
module FatMount {
  import opened Words
  import opened FatChains
  import opened FatData
  import opened FatDisk

  /** The fields of the boot sector that count. */
  datatype Bpb = Bpb(
    bytesPerSector: nat, perCluster: nat, reserved: nat, fats: nat, total16: nat, total32: nat, fatSize: nat,
    root: nat, signature: nat)

  function Half(s: Sector, o: nat): nat
    requires o + 2 <= SECTOR
  {
    var low: nat, high: nat := s[o], s[o + 1];
    low + 256 * high
  }

  function Field32(s: Sector, o: nat): nat
    requires o + 4 <= SECTOR
  {
    Word32(s[o], s[o + 1], s[o + 2], s[o + 3])
  }

  function BpbOf(s: Sector): Bpb
  {
    Bpb(Half(s, 0x0B), s[0x0D], Half(s, 0x0E), s[0x10], Half(s, 0x13), Field32(s, 0x20), Field32(s, 0x24),
        Field32(s, 0x2C), s[0x42])
  }

  function TotalSectors(b: Bpb): nat
  {
    if b.total16 != 0 then b.total16 else b.total32
  }

  function Mod32(x: int): nat
  {
    x % TWO_32
  }

  /** What the boot sector must say for the mount to go on. */
  predicate Accepted(b: Bpb)
  {
    (b.signature == 0x28 || b.signature == 0x29) && b.bytesPerSector == 512
  }

  function VolumeOf(b: Bpb): Volume
    requires b.perCluster > 0
  {
    var first := Mod32(b.reserved + b.fats * b.fatSize);
    var data := Mod32(TotalSectors(b) - first);
    Volume(data / b.perCluster, b.perCluster, first, Times(b.perCluster, SECTOR), b.reserved, b.fatSize, b.root)
  }

  /** The layout that the specification has: one of the two sector counts in use, then reserved sectors,
      all copies of the table, and at least one data sector, in a volume whose table has an entry for each
      cluster and all of whose numbers can be told from end marks. */
  ghost predicate Regular(b: Bpb)
  {
    && (b.total16 == 0 || b.total32 == 0)
    && b.perCluster > 0 && b.fats > 0 && b.reserved + b.fats * b.fatSize < TotalSectors(b) < TWO_32
    && Clusters(b) + 2 <= 128 * b.fatSize && Clusters(b) + 2 <= 0x0FFF_FFF7
  }

  function Clusters(b: Bpb): int
    requires b.perCluster > 0
  {
    (TotalSectors(b) - b.reserved - b.fats * b.fatSize) / b.perCluster
  }

  /** On a regular volume copy k of the table lies between the reserved sectors and the data, the cached one
      is the first, and the data clusters end within the volume. */
  lemma {:induction false} RegularLayout(b: Bpb, k: nat)
    requires Regular(b) && k < b.fats
    ensures var v := VolumeOf(b);
            && v.Ok() && v.fatStart == b.reserved && v.firstData == b.reserved + b.fats * b.fatSize
            && v.total == Clusters(b) && v.root == b.root
            && b.reserved <= b.reserved + k * b.fatSize
            && b.reserved + k * b.fatSize + b.fatSize <= v.firstData
            && v.firstData + v.total * v.perCluster <= b.total16 + b.total32
  {
    CopyFits(b.fats, b.fatSize, k);
    CopyFits(b.fats, b.fatSize, 0);
    TimesPositive(b.perCluster);
    Quotient(TotalSectors(b) - b.reserved - b.fats * b.fatSize, b.perCluster);
    Unwrapped(b, b.fats * b.fatSize);
  }

  /** Nothing wraps on a regular volume. */
  lemma {:induction false} Unwrapped(b: Bpb, tables: nat)
    requires Regular(b) && tables == b.fats * b.fatSize
    ensures VolumeOf(b).firstData == b.reserved + tables && VolumeOf(b).total == Clusters(b)
  {
    assert Mod32(b.reserved + tables) == b.reserved + tables;
    var data := TotalSectors(b) - b.reserved - tables;
    assert Mod32(data) == data;
  }

  lemma {:induction false} TimesPositive(n: nat)
    requires n > 0
    ensures Times(n, SECTOR) > 0
  {
  }

  lemma {:induction false} Quotient(x: nat, n: nat)
    requires n > 0
    ensures x / n * n <= x
  {
  }

  lemma {:induction false} CopyFits(copies: nat, size: nat, k: nat)
    requires k < copies
    ensures 0 <= k * size && k * size + size <= copies * size
  {
    TimesGap(k, copies, size);
    TimesIsProduct(k, size);
    TimesIsProduct(copies, size);
  }

  /** Whether cluster numbers index the cached table is never checked: exactly when they do. */
  lemma {:induction false} TableCovers(b: Bpb, disk: Disk)
    requires b.perCluster > 0
    ensures Covers(DiskTable(VolumeOf(b), disk), VolumeOf(b).total) <==>
            VolumeOf(b).total + 2 <= 128 * b.fatSize && VolumeOf(b).total + 2 <= 0x0FFF_FFF7
  {
  }

  datatype Mounted = Mounted(v: Volume, fat: Table) | Refused | ReadError

  method ReadSector(disk: Disk, lba: nat) returns (ok: bool, s: Sector)
    ensures ok ==> s == Sec(disk, lba)
  {
    ok, s := *, Sec(disk, lba);
  }

  /** The first k sectors of the cached table. */
  ghost predicate Cached(v: Volume, disk: Disk, fat: Table, k: nat)
  {
    |fat| == 128 * k && forall c: nat :: c < |fat| ==> fat[c] == DiskEntry(v, disk, c)
  }

  lemma {:induction false} CachedMore(v: Volume, disk: Disk, fat: Table, k: nat)
    requires Cached(v, disk, fat, k)
    ensures Cached(v, disk, fat + SectorEntries(Sec(disk, v.fatStart + k)), k + 1)
  {
    var s := Sec(disk, v.fatStart + k);
    forall i: nat | i < 128 ensures DiskEntry(v, disk, 128 * k + i) == SectorEntries(s)[i] {
      assert (128 * k + i) / 128 == k && (128 * k + i) % 128 == i;
    }
    forall c: nat | 128 * k <= c < 128 * k + 128 ensures DiskEntry(v, disk, c) == SectorEntries(s)[c - 128 * k] {
      assert c == 128 * k + (c - 128 * k);
    }
  }

  method ReadTable(v: Volume, disk: Disk) returns (ok: bool, fat: Table)
    ensures ok ==> fat == DiskTable(v, disk)
  {
    var k := 0;
    ok, fat := true, [];
    while k < v.fatSectors
      invariant k <= v.fatSectors && Cached(v, disk, fat, k)
    {
      var s;
      ok, s := ReadSector(disk, v.fatStart + k);
      if !ok {
        return;
      }
      CachedMore(v, disk, fat, k);
      fat := fat + SectorEntries(s);
      k := k + 1;
    }
  }

  /** fat32_mount: the volume that the boot sector describes, with the first copy of its table. */
  method Mount(disk: Disk) returns (r: Mounted)
    requires BpbOf(Sec(disk, 0)).perCluster > 0
    ensures r.Refused? ==> !Accepted(BpbOf(Sec(disk, 0)))
    ensures r.Mounted? ==> Accepted(BpbOf(Sec(disk, 0))) && r.v == VolumeOf(BpbOf(Sec(disk, 0)))
    ensures r.Mounted? ==> r.fat == DiskTable(r.v, disk)
  {
    var ok, boot := ReadSector(disk, 0);
    if !ok {
      return ReadError;
    }
    var b := BpbOf(boot);
    if b.signature != 0x28 && b.signature != 0x29 {
      return Refused;
    }
    if b.bytesPerSector != 512 {
      return Refused;
    }
    var fat;
    ok, fat := ReadTable(VolumeOf(b), disk);
    r := if ok then Mounted(VolumeOf(b), fat) else ReadError;
  }

  /** The 128 entries of a table sector. */
  function SectorEntries(s: Sector): (r: seq<Entry>)
    ensures |r| == 128
  {
    seq(128, i requires 0 <= i < 128 => EntryIn(s, i))
  }
}
