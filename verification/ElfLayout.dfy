/**
 The byte layout of ELF64 files as the System V gABI gives it ("ELF Header" in chapter 4, "Program
 Header" in chapter 5): the fields one after the other, little-endian. What the loader reads at fixed
 offsets are those fields.
 */
module ElfLayout {
  import opened Words
  import opened Bytes
  import opened AddressSpace
  import opened ElfFormat

  datatype FileHeader = FileHeader(
    ident: seq<Byte>, kind: nat, machine: nat, version: nat, entry: nat, phoff: nat, shoff: nat, flags: nat,
    ehsize: nat, phentsize: nat, phnum: nat, shentsize: nat, shnum: nat, shstrndx: nat)

  /** The fields that the loader reads fit their sizes. */
  predicate InRange(h: FileHeader)
  {
    && |h.ident| == 16 && h.machine < 0x1_0000 && h.entry < TWO_64 && h.phoff < TWO_64
    && h.phentsize < 0x1_0000 && h.phnum < 0x1_0000
  }

  function UpToMachine(h: FileHeader): (bytes: seq<Byte>)
    ensures |bytes| == |h.ident| + 2
  {
    h.ident + LittleEndian(h.kind, 2)
  }

  function UpToEntry(h: FileHeader): (bytes: seq<Byte>)
    ensures |bytes| == |h.ident| + 8
  {
    UpToMachine(h) + LittleEndian(h.machine, 2) + LittleEndian(h.version, 4)
  }

  function UpToPhOff(h: FileHeader): (bytes: seq<Byte>)
    ensures |bytes| == |h.ident| + 16
  {
    UpToEntry(h) + LittleEndian(h.entry, 8)
  }

  function UpToPhEntSize(h: FileHeader): (bytes: seq<Byte>)
    ensures |bytes| == |h.ident| + 38
  {
    UpToPhOff(h) + LittleEndian(h.phoff, 8) + LittleEndian(h.shoff, 8) + LittleEndian(h.flags, 4) +
    LittleEndian(h.ehsize, 2)
  }

  function UpToPhNum(h: FileHeader): (bytes: seq<Byte>)
    ensures |bytes| == |h.ident| + 40
  {
    UpToPhEntSize(h) + LittleEndian(h.phentsize, 2)
  }

  function HeaderBytes(h: FileHeader): (bytes: seq<Byte>)
    ensures |bytes| == |h.ident| + 48
  {
    UpToPhNum(h) + LittleEndian(h.phnum, 2) + LittleEndian(h.shentsize, 2) + LittleEndian(h.shnum, 2) +
    LittleEndian(h.shstrndx, 2)
  }

  function UpToVaddr(p: Phdr): (bytes: seq<Byte>)
    ensures |bytes| == 16
  {
    LittleEndian(p.kind, 4) + LittleEndian(p.flags, 4) + LittleEndian(p.offset, 8)
  }

  function UpToFilesz(p: Phdr, paddr: nat): (bytes: seq<Byte>)
    ensures |bytes| == 32
  {
    UpToVaddr(p) + LittleEndian(p.vaddr, 8) + LittleEndian(paddr, 8)
  }

  /** A program header with the two fields that the loader does not read. */
  function PhdrBytes(p: Phdr, paddr: nat, align: nat): (bytes: seq<Byte>)
    ensures |bytes| == 56
  {
    UpToFilesz(p, paddr) + LittleEndian(p.filesz, 8) + LittleEndian(p.memsz, 8) + LittleEndian(align, 8)
  }

  lemma {:induction false} TwoBytes(f: Image, o: nat, w: nat)
    requires w < 0x1_0000 && HasField(f.bytes, o, LittleEndian(w, 2))
    ensures Half(f, o) == w
  {
    TwoAt(f.bytes, o, w);
  }

  lemma {:induction false} FourBytes(f: Image, o: nat, w: nat)
    requires w < 0x1_0000_0000 && HasField(f.bytes, o, LittleEndian(w, 4))
    ensures Word4(f, o) == w
  {
    FourAt(f.bytes, o, w);
  }

  lemma {:induction false} Value4(f: Image, o: nat, n: nat)
    requires o + n + 4 <= |f.bytes|
    ensures ValueAt(f.bytes, o, n + 4) == Word4(f, o) + 0x1_0000_0000 * ValueAt(f.bytes, o + 4, n)
  {
    assert ValueAt(f.bytes, o + 3, n + 1) == At(f, o + 3) + 256 * ValueAt(f.bytes, o + 4, n);
    assert ValueAt(f.bytes, o + 2, n + 2) == At(f, o + 2) + 256 * ValueAt(f.bytes, o + 3, n + 1);
    assert ValueAt(f.bytes, o + 1, n + 3) == At(f, o + 1) + 256 * ValueAt(f.bytes, o + 2, n + 2);
  }

  lemma {:induction false} EightBytes(f: Image, o: nat, w: Word)
    requires HasField(f.bytes, o, LittleEndian(w, 8))
    ensures Word8(f, o) == w
  {
    assert Power256(8) == TWO_64;
    ReadsBack(f.bytes, o, w, 8);
    Value4(f, o, 4);
    Value4(f, o + 4, 0);
  }

  // ---------------------------------------------------------------- the loader reads the fields

  /** The numbers that the loader takes from the file header are its fields, and the size it asks for
      is the header's. */
  lemma {:induction false} FileHeaderRead(f: Image, h: FileHeader)
    requires InRange(h) && HasField(f.bytes, 0, HeaderBytes(h))
    ensures |HeaderBytes(h)| == EHDR_SIZE
    ensures Entry(f) == h.entry && PhOff(f) == h.phoff && PhEntSize(f) == h.phentsize && PhNum(f) == h.phnum
    ensures Half(f, 18) == h.machine && forall j :: 0 <= j < 16 ==> At(f, j) == h.ident[j]
  {
    var all := HeaderBytes(h);
    FieldWithin(f.bytes, 0, UpToMachine(h), LittleEndian(h.machine, 2), all);
    FieldWithin(f.bytes, 0, UpToEntry(h), LittleEndian(h.entry, 8), all);
    FieldWithin(f.bytes, 0, UpToPhOff(h), LittleEndian(h.phoff, 8), all);
    FieldWithin(f.bytes, 0, UpToPhEntSize(h), LittleEndian(h.phentsize, 2), all);
    FieldWithin(f.bytes, 0, UpToPhNum(h), LittleEndian(h.phnum, 2), all);
    TwoBytes(f, 18, h.machine);
    EightBytes(f, 24, h.entry);
    EightBytes(f, 32, h.phoff);
    TwoBytes(f, 54, h.phentsize);
    TwoBytes(f, 56, h.phnum);
    FirstField(f.bytes, 0, h.ident, all);
    forall j | 0 <= j < 16 ensures At(f, j) == h.ident[j] {
      assert f.bytes[0..16][j] == h.ident[j];
    }
  }

  /** What is refused, in the header's own fields. */
  lemma {:induction false} HeaderChecked(f: Image, h: FileHeader)
    requires InRange(h) && HasField(f.bytes, 0, HeaderBytes(h))
    ensures HeaderError(f) == Some(BadMagic) <==> h.ident[..4] != [0x7F, 0x45, 0x4C, 0x46]
    ensures HeaderError(f) == Some(Not64Bit) <==> h.ident[..4] == [0x7F, 0x45, 0x4C, 0x46] && h.ident[4] != 2
    ensures HeaderError(f) == Some(NotX8664) <==>
            h.ident[..5] == [0x7F, 0x45, 0x4C, 0x46, 2] && h.machine != 62
    ensures HeaderError(f).None? <==>
            h.ident[..5] == [0x7F, 0x45, 0x4C, 0x46, 2] && h.machine == 62 &&
            Accepts(h.phoff, h.phentsize, h.phnum, |f.bytes|)
  {
    FileHeaderRead(f, h);
  }

  /** A program header at its place in the table is read as its fields. */
  lemma {:induction false} PhdrRead(f: Image, i: nat, p: Phdr, paddr: nat, align: nat)
    requires p.kind < 0x1_0000_0000 && p.flags < 0x1_0000_0000 && PhOff(f) + 56 * i < TWO_64
    requires HasField(f.bytes, PhOff(f) + 56 * i, PhdrBytes(p, paddr, align))
    ensures |PhdrBytes(p, paddr, align)| == PHDR_SIZE
    ensures PhdrAt(f, i) == p
  {
    var o, all := PhOff(f) + 56 * i, PhdrBytes(p, paddr, align);
    BeginningRead(f, o, p, all);
    EndRead(f, o, p, paddr, all);
  }

  lemma {:induction false} BeginningRead(f: Image, o: nat, p: Phdr, all: seq<Byte>)
    requires p.kind < 0x1_0000_0000 && p.flags < 0x1_0000_0000 && HasField(f.bytes, o, all)
    requires UpToVaddr(p) + LittleEndian(p.vaddr, 8) <= all
    ensures Word4(f, o) == p.kind && Word4(f, o + 4) == p.flags
    ensures Word8(f, o + 8) == p.offset && Word8(f, o + 16) == p.vaddr
  {
    var kind, flags := LittleEndian(p.kind, 4), LittleEndian(p.flags, 4);
    FirstField(f.bytes, o, kind, all);
    FieldWithin(f.bytes, o, kind, flags, all);
    FieldWithin(f.bytes, o, kind + flags, LittleEndian(p.offset, 8), all);
    FieldWithin(f.bytes, o, UpToVaddr(p), LittleEndian(p.vaddr, 8), all);
    FourBytes(f, o, p.kind);
    FourBytes(f, o + 4, p.flags);
    EightBytes(f, o + 8, p.offset);
    EightBytes(f, o + 16, p.vaddr);
  }

  lemma {:induction false} EndRead(f: Image, o: nat, p: Phdr, paddr: nat, all: seq<Byte>)
    requires HasField(f.bytes, o, all)
    requires UpToFilesz(p, paddr) + LittleEndian(p.filesz, 8) + LittleEndian(p.memsz, 8) <= all
    ensures Word8(f, o + 32) == p.filesz && Word8(f, o + 40) == p.memsz
  {
    var head, filesz := UpToFilesz(p, paddr), LittleEndian(p.filesz, 8);
    FrontOf(head + filesz, LittleEndian(p.memsz, 8), all);
    FieldWithin(f.bytes, o, head, filesz, all);
    FieldWithin(f.bytes, o, head + filesz, LittleEndian(p.memsz, 8), all);
    EightBytes(f, o + 32, p.filesz);
    EightBytes(f, o + 40, p.memsz);
  }

  /** PT_LOAD is 1, and the second of the flags, PF_W, decides whether a segment is writable. */
  lemma {:induction false} FlagsRead(p: Phdr, x: nat, w: nat, rest: nat)
    requires p.flags == x + 2 * w + 4 * rest && x < 2 && w < 2
    ensures Writable(p) <==> w == 1
    ensures Loadable(p) <==> p.kind == 1
  {
    assert p.flags / 2 == w + 2 * rest;
  }
}
