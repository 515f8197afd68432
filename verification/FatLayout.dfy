/**
 The byte layout of a FAT32 volume's boot sector and directory entries as Microsoft's FAT32 File System
 Specification gives it ("Boot Sector and BPB Structure", "FAT Directory Structure"): the fields one
 after the other, little-endian. What the driver reads and writes at fixed offsets are those fields.
 */
module FatLayout {
  import opened Words
  import opened Bytes
  import opened FatChains
  import opened FatData
  import FatDisk
  import opened FatMount

  // ---------------------------------------------------------------- the boot sector

  /** What lies between the fields that the driver reads. */
  datatype BootRest = BootRest(
    start: seq<Byte>, rootEntries: nat, media: nat, fatSize16: nat, geometry: seq<Byte>, flags: nat, version: nat,
    middle: seq<Byte>)

  predicate BootSizes(r: BootRest)
  {
    |r.start| == 11 && |r.geometry| == 8 && |r.middle| == 18
  }

  function UpToTotal16(b: Bpb, r: BootRest): (bytes: seq<Byte>)
    ensures |bytes| == |r.start| + 8
  {
    r.start + LittleEndian(b.bytesPerSector, 2) + LittleEndian(b.perCluster, 1) + LittleEndian(b.reserved, 2) +
    LittleEndian(b.fats, 1) + LittleEndian(r.rootEntries, 2)
  }

  function UpToTotal32(b: Bpb, r: BootRest): (bytes: seq<Byte>)
    ensures |bytes| == |r.start| + |r.geometry| + 13
  {
    UpToTotal16(b, r) + LittleEndian(b.total16, 2) + LittleEndian(r.media, 1) + LittleEndian(r.fatSize16, 2) +
    r.geometry
  }

  function UpToRoot(b: Bpb, r: BootRest): (bytes: seq<Byte>)
    ensures |bytes| == |r.start| + |r.geometry| + 25
  {
    UpToTotal32(b, r) + LittleEndian(b.total32, 4) + LittleEndian(b.fatSize, 4) + LittleEndian(r.flags, 2) +
    LittleEndian(r.version, 2)
  }

  /** The boot sector up to its signature byte. */
  function BootBytes(b: Bpb, r: BootRest): (bytes: seq<Byte>)
    ensures |bytes| == |r.start| + |r.geometry| + |r.middle| + 30
  {
    UpToRoot(b, r) + LittleEndian(b.root, 4) + r.middle + LittleEndian(b.signature, 1)
  }

  predicate BootRange(b: Bpb)
  {
    && b.bytesPerSector < 0x1_0000 && b.perCluster < 256 && b.reserved < 0x1_0000 && b.fats < 256
    && b.total16 < 0x1_0000 && b.total32 < TWO_32 && b.fatSize < TWO_32 && b.root < TWO_32 && b.signature < 256
  }

  lemma {:induction false} OneAt(s: seq<Byte>, o: nat, w: nat)
    requires HasField(s, o, LittleEndian(w, 1)) && w < 256
    ensures s[o] == w
  {
    assert Power256(1) == 256;
    ReadsBack(s, o, w, 1);
  }

  lemma {:induction false} Field32At(s: Sector, o: nat, w: nat)
    requires o + 4 <= SECTOR && HasField(s, o, LittleEndian(w, 4)) && w < TWO_32
    ensures Field32(s, o) == w
  {
    FourAt(s, o, w);
  }

  /** A boot sector laid out so is read as its fields. */
  lemma {:induction false} BootRead(s: Sector, b: Bpb, r: BootRest)
    requires BootSizes(r) && BootRange(b) && HasField(s, 0, BootBytes(b, r))
    ensures BpbOf(s) == b
  {
    var all := BootBytes(b, r);
    BootStart(s, b, r, all);
    BootMiddle(s, b, r, all);
    FieldWithin(s, 0, UpToRoot(b, r), LittleEndian(b.root, 4), all);
    Field32At(s, 0x2C, b.root);
    FieldWithin(s, 0, UpToRoot(b, r) + LittleEndian(b.root, 4) + r.middle, LittleEndian(b.signature, 1), all);
    OneAt(s, 0x42, b.signature);
  }

  lemma {:induction false} BootStart(s: Sector, b: Bpb, r: BootRest, all: seq<Byte>)
    requires BootSizes(r) && BootRange(b) && HasField(s, 0, all)
    requires UpToTotal16(b, r) + LittleEndian(b.total16, 2) <= all
    ensures Half(s, 0x0B) == b.bytesPerSector && s[0x0D] == b.perCluster && Half(s, 0x0E) == b.reserved
    ensures s[0x10] == b.fats && Half(s, 0x13) == b.total16
  {
    var toCluster := r.start + LittleEndian(b.bytesPerSector, 2);
    var toReserved := toCluster + LittleEndian(b.perCluster, 1);
    var toFats := toReserved + LittleEndian(b.reserved, 2);
    FrontOf(UpToTotal16(b, r), LittleEndian(b.total16, 2), all);
    FieldWithin(s, 0, r.start, LittleEndian(b.bytesPerSector, 2), all);
    FieldWithin(s, 0, toCluster, LittleEndian(b.perCluster, 1), all);
    FieldWithin(s, 0, toReserved, LittleEndian(b.reserved, 2), all);
    FieldWithin(s, 0, toFats, LittleEndian(b.fats, 1), all);
    FieldWithin(s, 0, UpToTotal16(b, r), LittleEndian(b.total16, 2), all);
    TwoAt(s, 0x0B, b.bytesPerSector);
    OneAt(s, 0x0D, b.perCluster);
    TwoAt(s, 0x0E, b.reserved);
    OneAt(s, 0x10, b.fats);
    TwoAt(s, 0x13, b.total16);
  }

  lemma {:induction false} BootMiddle(s: Sector, b: Bpb, r: BootRest, all: seq<Byte>)
    requires BootSizes(r) && BootRange(b) && HasField(s, 0, all)
    requires UpToTotal32(b, r) + LittleEndian(b.total32, 4) + LittleEndian(b.fatSize, 4) <= all
    ensures Field32(s, 0x20) == b.total32 && Field32(s, 0x24) == b.fatSize
  {
    var front := UpToTotal32(b, r) + LittleEndian(b.total32, 4);
    FrontOf(front, LittleEndian(b.fatSize, 4), all);
    FieldWithin(s, 0, UpToTotal32(b, r), LittleEndian(b.total32, 4), all);
    FieldWithin(s, 0, front, LittleEndian(b.fatSize, 4), all);
    Field32At(s, 0x20, b.total32);
    Field32At(s, 0x24, b.fatSize);
  }

  // ---------------------------------------------------------------- directory entries

  /** The fields of a directory entry; the first cluster is stored in two halves. */
  datatype DirFields = DirFields(
    name: FatDisk.ShortName, attr: nat, reserved: nat, tenths: nat, created: seq<Byte>, accessed: nat, cluster: nat,
    written: seq<Byte>, size: nat)

  predicate DirRange(d: DirFields)
  {
    d.attr < 256 && |d.created| == 4 && |d.written| == 4 && d.cluster < TWO_32 && d.size < TWO_32
  }

  function UpToHigh(d: DirFields): (bytes: seq<Byte>)
    ensures |bytes| == 16 + |d.created|
  {
    d.name + LittleEndian(d.attr, 1) + LittleEndian(d.reserved, 1) + LittleEndian(d.tenths, 1) + d.created +
    LittleEndian(d.accessed, 2)
  }

  function UpToLow(d: DirFields): (bytes: seq<Byte>)
    ensures |bytes| == 18 + |d.created| + |d.written|
  {
    UpToHigh(d) + LittleEndian(d.cluster / 0x1_0000, 2) + d.written
  }

  function DirBytes(d: DirFields): (bytes: seq<Byte>)
    ensures |bytes| == 24 + |d.created| + |d.written|
  {
    UpToLow(d) + LittleEndian(d.cluster % 0x1_0000, 2) + LittleEndian(d.size, 4)
  }

  /** Byte f of entry e of a directory cluster. */
  function RawByte(img: seq<Sector>, e: nat, f: nat): Byte
    requires e < 16 * |img| && f < 32
  {
    img[e / 16][e % 16 * 32 + f]
  }

  lemma {:induction false} FieldRaw(img: seq<Sector>, e: nat, f: nat)
    requires e < 16 * |img| && f < 32
    ensures FatDisk.Field(img, e, f) == RawByte(img, e, f)
  {
  }

  /** Entry e of a directory cluster, laid out so, is read as its name, attributes, first cluster and size. */
  lemma {:induction false} DirRead(img: seq<Sector>, e: nat, d: DirFields)
    requires e < FatDisk.PER_SECTOR * |img| && DirRange(d)
    requires HasField(img[e / 16], e % 16 * 32, DirBytes(d))
    ensures |DirBytes(d)| == FatDisk.ENTRY
    ensures FatDisk.RawName(img, e) == d.name && FatDisk.Field(img, e, 11) == d.attr
    ensures FatDisk.StartOf(img, e) == d.cluster && FatDisk.SizeOf(img, e) == d.size
  {
    var s, o := img[e / 16], e % 16 * 32;
    DirNameRead(s, o, d, DirBytes(d));
    DirEndRead(s, o, d, DirBytes(d));
    forall f: nat | f < 32 ensures FatDisk.Field(img, e, f) == s[o + f] {
      FieldRaw(img, e, f);
    }
    forall f | 0 <= f < 11 ensures FatDisk.RawName(img, e)[f] == d.name[f] {
      assert s[o..o + 11][f] == s[o + f];
    }
  }

  lemma {:induction false} DirNameRead(s: Sector, o: nat, d: DirFields, all: seq<Byte>)
    requires DirRange(d) && HasField(s, o, all) && UpToHigh(d) <= all
    ensures o + 12 <= SECTOR && s[o..o + 11] == d.name && s[o + 11] == d.attr
  {
    FirstField(s, o, d.name, all);
    FieldWithin(s, o, d.name, LittleEndian(d.attr, 1), all);
    OneAt(s, o + 11, d.attr);
  }

  lemma {:induction false} DirEndRead(s: Sector, o: nat, d: DirFields, all: seq<Byte>)
    requires DirRange(d) && HasField(s, o, all) && all == DirBytes(d)
    ensures o + 32 <= SECTOR
    ensures FatDisk.Word32(s[o + 26], s[o + 27], s[o + 20], s[o + 21]) == d.cluster
    ensures FatDisk.Word32(s[o + 28], s[o + 29], s[o + 30], s[o + 31]) == d.size
  {
    var high, low := d.cluster / 0x1_0000, d.cluster % 0x1_0000;
    FieldWithin(s, o, UpToHigh(d), LittleEndian(high, 2), all);
    FieldWithin(s, o, UpToLow(d), LittleEndian(low, 2), all);
    FieldWithin(s, o, UpToLow(d) + LittleEndian(low, 2), LittleEndian(d.size, 4), all);
    TwoAt(s, o + 20, high);
    TwoAt(s, o + 26, low);
    FourAt(s, o + 28, d.size);
  }

  /** What the scans look at: entries before the cluster's first one that begins with 0, without those that
      begin with 0xE5 and those with the attributes of a long name. */
  lemma {:induction false} ListedIff(img: seq<Sector>, e: nat)
    ensures FatDisk.Listed(img, e) <==>
            e < 16 * |img| && (forall x: nat :: x <= e ==> RawByte(img, x, 0) != 0) &&
            RawByte(img, e, 0) != 0xE5 && RawByte(img, e, 11) != 0x0F
  {
    if e < 16 * |img| {
      forall x: nat | x <= e ensures RawByte(img, x, 0) == FatDisk.Field(img, x, 0) {
        FieldRaw(img, x, 0);
      }
      FieldRaw(img, e, 11);
    }
  }

  /** Where a directory entry is: entry e of cluster c is 32 bytes of the data area. */
  lemma {:induction false} EntryOnDisk(v: Volume, disk: Disk, c: nat, e: nat, f: nat)
    requires c >= 2 && e < 16 * v.perCluster && f < 32
    ensures FatDisk.Field(FatDisk.Image(v, disk, c), e, f) ==
            Sec(disk, v.firstData + (c - 2) * v.perCluster + e / 16)[e % 16 * 32 + f]
  {
    TimesIsProduct(c - 2, v.perCluster);
    var k, o := e / 16, e % 16 * 32 + f;
    assert k < v.perCluster && v.Lba(c) == v.firstData + (c - 2) * v.perCluster;
    assert FatDisk.Image(v, disk, c)[k] == Sec(disk, v.Lba(c) + k);
  }

  /** The entry that a creation writes, field by field: what it does not set keeps the bytes that were there. */
  lemma {:induction false} NewEntryLaidOut(
    was: seq<Byte>, name: FatDisk.ShortName, stamp: FatDisk.Stamp, c: Entry, d: DirFields)
    requires |was| == FatDisk.ENTRY
    requires d == DirFields(name, 0x20, was[12], was[13], stamp[..4], was[18] + 256 * was[19] as nat, c, stamp[4..], 0)
    ensures FatDisk.NewEntry(was, name, stamp, c) == DirBytes(d)
  {
    var high, low := c / 0x1_0000, c % 0x1_0000;
    OneByte(0x20);
    OneByte(was[12]);
    OneByte(was[13]);
    TwoBytes(d.accessed, was[18], was[19]);
    TwoBytes(high, FatDisk.ByteOf(c, 2), FatDisk.ByteOf(c, 3));
    TwoBytes(low, FatDisk.ByteOf(c, 0), FatDisk.ByteOf(c, 1));
    ZeroBytes(4);
    assert stamp == stamp[..4] + stamp[4..];
    EntryTail(was, name, stamp, c, d);
  }

  lemma {:induction false} EntryTail(
    was: seq<Byte>, name: FatDisk.ShortName, stamp: FatDisk.Stamp, c: Entry, d: DirFields)
    requires |was| == FatDisk.ENTRY && d.name == name && d.created == stamp[..4] && d.written == stamp[4..]
    requires LittleEndian(d.attr, 1) == [0x20] && LittleEndian(d.reserved, 1) == [was[12]]
    requires LittleEndian(d.tenths, 1) == [was[13]] && LittleEndian(d.accessed, 2) == [was[18], was[19]]
    requires LittleEndian(d.cluster / 0x1_0000, 2) == [FatDisk.ByteOf(c, 2), FatDisk.ByteOf(c, 3)]
    requires LittleEndian(d.cluster % 0x1_0000, 2) == [FatDisk.ByteOf(c, 0), FatDisk.ByteOf(c, 1)]
    requires LittleEndian(d.size, 4) == [0, 0, 0, 0]
    ensures FatDisk.NewEntry(was, name, stamp, c) == DirBytes(d)
  {
    var r := FatDisk.NewEntry(was, name, stamp, c);
    forall f | 0 <= f < 32 ensures r[f] == DirBytes(d)[f] {
      assert r[f] == FatDisk.NewByte(was, name, stamp, c, f);
    }
  }

  lemma {:induction false} OneByte(w: Byte)
    ensures LittleEndian(w, 1) == [w]
  {
  }

  lemma {:induction false} TwoBytes(w: nat, low: Byte, high: Byte)
    requires w == low + 256 * high
    ensures LittleEndian(w, 2) == [low, high]
  {
    OneByte(high);
  }

  lemma {:induction false} ZeroBytes(n: nat)
    ensures LittleEndian(0, n) == seq(n, _ => 0)
  {
    if n > 0 {
      ZeroBytes(n - 1);
    }
  }
}
