/**
 ELF64 files as the loader reads them (include/userland/elf64.h; "ELF Header" in chapter 4 and
 "Program Header" in chapter 5 of the System V gABI).
 */
module ElfFormat {
  import opened Words
  import opened AddressSpace

  const EHDR_SIZE: nat := 64
  const PHDR_SIZE: nat := 56
  const PT_LOAD: nat := 1

  /** The file's bytes, and what else can be read at some distance from them. */
  datatype Image = Image(bytes: seq<Byte>, beyond: map<nat, Byte>)

  predicate Readable(f: Image, offset: nat)
  {
    offset < |f.bytes| || offset in f.beyond
  }

  /** The byte at an offset; 0 stands for one that cannot be read. */
  function At(f: Image, offset: nat): Byte
  {
    if offset < |f.bytes| then f.bytes[offset] else if offset in f.beyond then f.beyond[offset] else 0
  }

  function Half(f: Image, o: nat): (r: nat)
    ensures r < 0x1_0000
  {
    At(f, o) + 256 * At(f, o + 1)
  }

  function Word4(f: Image, o: nat): (r: nat)
    ensures r < 0x1_0000_0000
  {
    Half(f, o) + 0x1_0000 * Half(f, o + 2)
  }

  function Word8(f: Image, o: nat): (r: Word)
  {
    Word4(f, o) + 0x1_0000_0000 * Word4(f, o + 4)
  }

  function Entry(f: Image): Word { Word8(f, 24) }
  function PhOff(f: Image): Word { Word8(f, 32) }
  function PhEntSize(f: Image): nat { Half(f, 54) }
  function PhNum(f: Image): nat { Half(f, 56) }

  /** A program header. */
  datatype Phdr = Phdr(kind: nat, flags: nat, offset: Word, vaddr: Word, filesz: Word, memsz: Word)

  /** Where header i is looked for: the loader steps by a header's own size, whatever e_phentsize says. */
  function PhdrOffset(f: Image, i: nat): nat
  {
    var o := PhOff(f) + PHDR_SIZE * i;
    if o < TWO_64 then o else o - TWO_64
  }

  function PhdrAt(f: Image, i: nat): Phdr
  {
    var o := PhdrOffset(f, i);
    Phdr(Word4(f, o), Word4(f, o + 4), Word8(f, o + 8), Word8(f, o + 16), Word8(f, o + 32), Word8(f, o + 40))
  }

  /** All of the program headers can be read. */
  predicate HeadersReadable(f: Image)
  {
    forall i, k :: 0 <= i < PhNum(f) && 0 <= k < PHDR_SIZE ==> HeaderByteReadable(f, i, k)
  }

  predicate HeaderByteReadable(f: Image, i: nat, k: nat)
  {
    Readable(f, PhdrOffset(f, i) + k)
  }

  function Phdrs(f: Image): (r: seq<Phdr>)
    ensures |r| == PhNum(f)
  {
    seq(PhNum(f), i requires 0 <= i < PhNum(f) => PhdrAt(f, i))
  }

  datatype ElfError = BadMagic | Not64Bit | NotX8664 | HeadersBeyondFile | NoSegments | MapFailed

  /** The end of the program header table as it is checked: a 32-bit signed product, widened, added
      in 64 bits. */
  function CheckedEnd(off: nat, entsize: nat, num: nat): nat
  {
    var product := entsize * num;
    (off + if product < 0x8000_0000 then product else product + TWO_64 - 0x1_0000_0000) % TWO_64
  }

  /** The checks before any segment is looked at. */
  function HeaderError(f: Image): Option<ElfError>
  {
    if |f.bytes| < EHDR_SIZE then Some(BadMagic)
    else if At(f, 0) != 0x7F || At(f, 1) != 0x45 || At(f, 2) != 0x4C || At(f, 3) != 0x46 then Some(BadMagic)
    else if At(f, 4) != 2 then Some(Not64Bit)
    else if Half(f, 18) != 62 then Some(NotX8664)
    else if CheckedEnd(PhOff(f), PhEntSize(f), PhNum(f)) > |f.bytes| then Some(HeadersBeyondFile)
    else None
  }

  /** The check lets a file of this size pass. */
  predicate Accepts(off: nat, entsize: nat, num: nat, size: nat)
  {
    CheckedEnd(off, entsize, num) <= size
  }

  /** When the check is enough: no headers, or entries of at least a header's size with a table that ends
      before 2^64, or a product past 2^31 that makes the check fail on everything. */
  predicate CheckSuffices(off: nat, entsize: nat, num: nat)
  {
    || num == 0
    || (entsize >= PHDR_SIZE && entsize * num < 0x8000_0000 && off + entsize * num < TWO_64)
    || (entsize * num >= 0x8000_0000 && off + entsize * num < 0x1_0000_0000)
  }

  /** The headers that are read lie inside every file that passes the check exactly then. */
  lemma {:induction false} HeaderCheckSuffices(off: nat, entsize: nat, num: nat)
    requires off < TWO_64 && entsize < 0x1_0000 && num < 0x1_0000
    ensures (forall size: nat :: Accepts(off, entsize, num, size) ==> off + PHDR_SIZE * num <= size) <==>
            CheckSuffices(off, entsize, num)
  {
    var product, span := entsize * num, PHDR_SIZE * num;
    var end := CheckedEnd(off, entsize, num);
    Products(entsize, num, product, span);
    assert Accepts(off, entsize, num, end);
    CheckedEndCases(off, product, end);
  }

  lemma {:induction false} Products(entsize: nat, num: nat, product: nat, span: nat)
    requires entsize < 0x1_0000 && num < 0x1_0000 && product == entsize * num && span == PHDR_SIZE * num
    ensures product < 0x1_0000_0000 && (num == 0 ==> product == 0)
    ensures entsize >= PHDR_SIZE ==> span <= product
    ensures entsize < PHDR_SIZE && num > 0 ==> product < span
  {
    assert product <= 0xFFFF * 0xFFFF;
  }

  lemma {:induction false} CheckedEndCases(off: nat, product: nat, end: nat)
    requires off < TWO_64 && product < 0x1_0000_0000
    requires end == (off + if product < 0x8000_0000 then product else product + TWO_64 - 0x1_0000_0000) % TWO_64
    ensures product < 0x8000_0000 && off + product < TWO_64 ==> end == off + product
    ensures product < 0x8000_0000 && off + product >= TWO_64 ==> end < off
    ensures product >= 0x8000_0000 && off + product < 0x1_0000_0000 ==> end == off + product + TWO_64 - 0x1_0000_0000
    ensures product >= 0x8000_0000 && off + product >= 0x1_0000_0000 ==> end < off
  {
  }

  /** A file that passes a sufficient check has its headers inside. */
  lemma {:induction false} HeadersInside(f: Image)
    requires HeaderError(f).None? && CheckSuffices(PhOff(f), PhEntSize(f), PhNum(f)) && |f.bytes| < TWO_64
    ensures HeadersReadable(f)
  {
    HeaderCheckSuffices(PhOff(f), PhEntSize(f), PhNum(f));
    assert Accepts(PhOff(f), PhEntSize(f), PhNum(f), |f.bytes|);
    forall i, k | 0 <= i < PhNum(f) && 0 <= k < PHDR_SIZE ensures HeaderByteReadable(f, i, k) {
      InsideSpan(f, PhOff(f), PhNum(f), i, k);
    }
  }

  lemma {:induction false} InsideSpan(f: Image, off: nat, num: nat, i: nat, k: nat)
    requires off == PhOff(f) && off + PHDR_SIZE * num <= |f.bytes| < TWO_64 && i < num && k < PHDR_SIZE
    ensures HeaderByteReadable(f, i, k)
  {
    assert PHDR_SIZE * i + k < PHDR_SIZE * num;
  }

  /** A table of one proper entry just below 2^64 passes on any file, its header before the file. */
  lemma {:induction false} HeaderBeforeFile(size: nat)
    ensures Accepts(TWO_64 - PHDR_SIZE, PHDR_SIZE, 1, size) && !CheckSuffices(TWO_64 - PHDR_SIZE, PHDR_SIZE, 1)
  {
  }

  // ---------------------------------------------------------------- segments

  predicate Loadable(p: Phdr)
  {
    p.kind == PT_LOAD
  }

  /** The segment, rounded up to pages, does not reach the end of the address space. */
  predicate Bounded(p: Phdr)
  {
    p.vaddr + p.memsz + PAGE - 1 < TWO_64
  }

  /** All of it is in the lower or all of it in the upper half of the canonical addresses. */
  predicate InOneHalf(p: Phdr)
  {
    Bounded(p) && (p.vaddr + p.memsz <= TWO_47 || p.vaddr >= TWO_64 - TWO_47)
  }

  predicate Writable(p: Phdr)
  {
    p.flags / 2 % 2 == 1
  }

  /** The pages that are mapped for a segment: first ..< last. */
  function FirstPage(p: Phdr): nat
  {
    p.vaddr / PAGE
  }

  function LastPage(p: Phdr): nat
  {
    WrapAdd(WrapAdd(p.vaddr, p.memsz), PAGE - 1) / PAGE
  }

  /** Every byte of the segment is on one of these pages. */
  lemma {:induction false} PageInside(p: Phdr, k: nat)
    requires Bounded(p) && k < p.memsz
    ensures FirstPage(p) <= (p.vaddr + k) / PAGE < LastPage(p)
  {
    assert LastPage(p) == (p.vaddr + p.memsz + PAGE - 1) / PAGE;
  }

  /** They are the pages that begin before its end and end after its beginning. */
  lemma {:induction false} PagesExact(p: Phdr, q: nat)
    requires Bounded(p)
    ensures FirstPage(p) <= q < LastPage(p) <==> q * PAGE < p.vaddr + p.memsz && (q + 1) * PAGE > p.vaddr
  {
    assert LastPage(p) == (p.vaddr + p.memsz + PAGE - 1) / PAGE;
  }

  /** The pages of a segment in one half have different page numbers. */
  lemma {:induction false} PagesDiffer(p: Phdr, q: nat, r: nat)
    requires InOneHalf(p) && FirstPage(p) <= q < LastPage(p) && FirstPage(p) <= r < LastPage(p) && Key(q) == Key(r)
    ensures q == r
  {
    assert LastPage(p) == (p.vaddr + p.memsz + PAGE - 1) / PAGE;
    HalfPage(p, q);
    HalfPage(p, r);
  }

  lemma {:induction false} HalfPage(p: Phdr, q: nat)
    requires InOneHalf(p) && FirstPage(p) <= q < LastPage(p) && LastPage(p) == (p.vaddr + p.memsz + PAGE - 1) / PAGE
    ensures if p.vaddr + p.memsz <= TWO_47 then q < TWO_47 / PAGE
            else TWO_64 / PAGE - TWO_47 / PAGE <= q < TWO_64 / PAGE
  {
  }

  // ---------------------------------------------------------------- what a segment should hold

  /** Where byte k of a segment comes from. */
  function Source(p: Phdr, k: nat): nat
  {
    if p.offset + k < TWO_64 then p.offset + k else p.offset + k - TWO_64
  }

  /** Byte k of a segment: from the file, then zero. */
  function Want(f: Image, p: Phdr, k: nat): Byte
  {
    if k < p.filesz then At(f, Source(p, k)) else 0
  }

  predicate InSegment(p: Phdr, va: nat)
  {
    p.vaddr <= va < p.vaddr + p.memsz
  }

  ghost predicate DisjointSegments(p: Phdr, q: Phdr)
  {
    forall va: nat :: !(InSegment(p, va) && InSegment(q, va))
  }

  /** What the loader takes for granted: data inside the file, no more of it than the segment has memory,
      and addresses that the processor accepts. */
  predicate Sound(f: Image, p: Phdr)
  {
    p.offset + p.filesz <= |f.bytes| && p.filesz <= p.memsz && InOneHalf(p)
  }

  /** What is read for byte k of a segment: the file's byte that far from the segment's offset, or zero
      where the file has no more for it. */
  predicate IsSegmentByte(f: Image, p: Phdr, k: nat, read: Option<Byte>)
  {
    && (k < p.filesz ==> p.offset + k < |f.bytes| && read == Some(f.bytes[p.offset + k]))
    && (k >= p.filesz ==> read == Some(0))
  }

  lemma {:induction false} SoundBytes(f: Image, p: Phdr, k: nat)
    requires Sound(f, p) && |f.bytes| < TWO_64
    ensures IsSegmentByte(f, p, k, Some(Want(f, p, k)))
  {
  }
}
