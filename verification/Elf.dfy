/**
 elf64_load (kernel/Userland/elf64.c) on top of the page tables: bounds, page mapping through
 vmm_is_mapped and vmm_alloc_map, the chunked copy and the clearing of what the file does not supply.
 */
module Elf {
  import opened Words
  import opened Bytes
  import opened AddressSpace
  import opened ElfFormat
  import opened LoaderOnVmm
  import Tables = PageTables
  import VirtualMemory

  /** How a load ends. `TableHit` is a store into a page table: what follows is up to the bytes stored,
      and is not modelled. */
  datatype Result =
    | Loaded(entry: Word, base: Word, max: Word, size: Word)
    | Refused(error: ElfError)
    | PageFault
    | TableHit

  datatype StoreResult = Stored | Faulted | HitTable

  // ---------------------------------------------------------------- what is touched

  /** Page number n belongs to one of the segment's pages. */
  ghost predicate OnPage(p: Phdr, n: nat)
  {
    exists q: nat :: FirstPage(p) <= q < LastPage(p) && Key(q) == n
  }

  ghost predicate OnSomePage(segs: seq<Phdr>, n: nat)
  {
    exists i :: 0 <= i < |segs| && Loadable(segs[i]) && OnPage(segs[i], n)
  }

  /** The page numbers of all segments. */
  ghost function Touched(segs: seq<Phdr>): set<nat>
  {
    set n: nat | n < TWO_36 && OnSomePage(segs, n)
  }

  ghost predicate Covered(p: Phdr, touched: set<nat>)
  {
    forall q: nat :: FirstPage(p) <= q < LastPage(p) ==> Key(q) in touched
  }

  lemma {:induction false} TouchedCovers(segs: seq<Phdr>, i: nat)
    requires i < |segs| && Loadable(segs[i])
    ensures Covered(segs[i], Touched(segs))
  {
    forall q: nat | FirstPage(segs[i]) <= q < LastPage(segs[i]) ensures Key(q) in Touched(segs) {
      assert OnPage(segs[i], Key(q));
    }
  }

  // ---------------------------------------------------------------- one segment's bytes

  /** Of the bytes that can be held, the first n of the segment are as wanted and the others as before. */
  ghost predicate Effect(
    pages: Pages, tables: set<nat>, ram: set<nat>, touched: set<nat>, phys0: Memory, phys: Memory, f: Image,
    p: Phdr, n: nat)
  {
    forall va: nat {:trigger Reach(pages, touched, va)} ::
      Reach(pages, touched, va) && !Spoiled(pages, tables, ram, touched, PageOf(va)) ==>
        Peek(pages, phys, va) ==
        if p.vaddr <= va < p.vaddr + n then Want(f, p, va - p.vaddr) else Peek(pages, phys0, va)
  }

  lemma {:induction false} EffectStep(
    pages: Pages, tables: set<nat>, ram: set<nat>, touched: set<nat>, phys0: Memory, phys: Memory, phys': Memory,
    f: Image, p: Phdr, n: nat, va: nat)
    requires Effect(pages, tables, ram, touched, phys0, phys, f, p, n) && va == p.vaddr + n && Reach(pages, touched, va)
    requires phys' == Poke(pages, phys, ram, va, Want(f, p, n))
    ensures Effect(pages, tables, ram, touched, phys0, phys', f, p, n + 1)
  {
    forall x: nat | Reach(pages, touched, x) && !Spoiled(pages, tables, ram, touched, PageOf(x))
      ensures Peek(pages, phys', x) ==
              if p.vaddr <= x < p.vaddr + n + 1 then Want(f, p, x - p.vaddr) else Peek(pages, phys0, x)
    {
      StoreChanges(pages, tables, ram, phys, touched, va, Want(f, p, n), x);
    }
  }

  /** The segment is in place, except on pages that cannot hold their bytes. */
  ghost predicate Held(
    pages: Pages, tables: set<nat>, ram: set<nat>, touched: set<nat>, phys: Memory, f: Image, p: Phdr)
  {
    forall va: nat :: InSegment(p, va) ==> ByteHeld(pages, tables, ram, touched, phys, f, p, va)
  }

  ghost predicate ByteHeld(
    pages: Pages, tables: set<nat>, ram: set<nat>, touched: set<nat>, phys: Memory, f: Image, p: Phdr, va: nat)
  {
    && va >= p.vaddr && Mapped(pages, PageOf(va))
    && (Peek(pages, phys, va) == Want(f, p, va - p.vaddr) || Spoiled(pages, tables, ram, touched, PageOf(va)))
  }

  /** Outside the segment, reachable bytes are kept. */
  ghost predicate OthersKept(
    pages0: Pages, phys0: Memory, pages: Pages, tables: set<nat>, ram: set<nat>, phys: Memory, touched: set<nat>,
    p: Phdr)
  {
    forall va: nat ::
      Reach(pages0, touched, va) && !InSegment(p, va) ==> ByteKept(pages0, phys0, pages, tables, ram, phys, touched, va)
  }

  /** A byte of a sound segment is at a touched, canonical address. */
  lemma {:induction false} ByteReach(pages: Pages, touched: set<nat>, p: Phdr, va: nat)
    requires InOneHalf(p) && Covered(p, touched) && InSegment(p, va)
    ensures Canonical(va) && PageOf(va) in touched
    ensures Mapped(pages, PageOf(va)) ==> Reach(pages, touched, va)
  {
    PageInside(p, va - p.vaddr);
  }

  lemma {:induction false} NextByteReach(pages: Pages, touched: set<nat>, p: Phdr, va: nat)
    requires InOneHalf(p) && Covered(p, touched) && InSegment(p, va) && MappedUpTo(pages, p, LastPage(p))
    ensures Reach(pages, touched, va)
  {
    PageInside(p, va - p.vaddr);
    ByteReach(pages, touched, p, va);
  }

  lemma {:induction false} StaysHeld(
    pages0: Pages, tables0: set<nat>, phys0: Memory, pages: Pages, tables: set<nat>, phys: Memory, ram: set<nat>,
    touched: set<nat>, f: Image, p: Phdr, q: Phdr)
    requires Held(pages0, tables0, ram, touched, phys0, f, q)
    requires OthersKept(pages0, phys0, pages, tables, ram, phys, touched, p)
    requires Later(pages0, tables0, pages, tables)
    requires DisjointSegments(q, p) && InOneHalf(q) && Covered(q, touched)
    ensures Held(pages, tables, ram, touched, phys, f, q)
  {
    forall va: nat | InSegment(q, va) ensures ByteHeld(pages, tables, ram, touched, phys, f, q, va) {
      assert ByteHeld(pages0, tables0, ram, touched, phys0, f, q, va);
      ByteReach(pages0, touched, q, va);
      assert ByteKept(pages0, phys0, pages, tables, ram, phys, touched, va);
      if Spoiled(pages0, tables0, ram, touched, PageOf(va)) {
        StaysSpoiled(pages0, tables0, pages, tables, ram, touched, PageOf(va));
      }
    }
  }

  /** Mapped, then filled: the segment is held and the rest is kept. */
  lemma {:induction false} SegmentDone(
    pages0: Pages, phys0: Memory, pages: Pages, tables: set<nat>, phys1: Memory, phys: Memory, ram: set<nat>,
    touched: set<nat>, f: Image, p: Phdr)
    requires InOneHalf(p) && Covered(p, touched) && BytesKept(pages0, phys0, pages, tables, ram, phys1, touched)
    requires forall q: nat :: FirstPage(p) <= q < LastPage(p) ==> Mapped(pages, Key(q))
    requires Effect(pages, tables, ram, touched, phys1, phys, f, p, p.memsz)
    ensures Held(pages, tables, ram, touched, phys, f, p)
    ensures OthersKept(pages0, phys0, pages, tables, ram, phys, touched, p)
  {
    forall va: nat | InSegment(p, va) ensures ByteHeld(pages, tables, ram, touched, phys, f, p, va) {
      PageInside(p, va - p.vaddr);
      ByteReach(pages, touched, p, va);
    }
    forall va: nat | Reach(pages0, touched, va) && !InSegment(p, va)
      ensures ByteKept(pages0, phys0, pages, tables, ram, phys, touched, va)
    {
      assert ByteKept(pages0, phys0, pages, tables, ram, phys1, touched, va);
      assert Reach(pages, touched, va);
    }
  }

  // ---------------------------------------------------------------- what a load goes through

  /** Byte k has an address the processor accepts and, if it comes from the file, a source that can be read. */
  ghost predicate UsableAt(f: Image, p: Phdr, k: nat)
  {
    k < TWO_64 && Canonical(WrapAdd(p.vaddr, k)) && (k < p.filesz ==> Readable(f, Source(p, k)))
  }

  /** The bytes from a up to b are usable. */
  ghost predicate Usable(f: Image, p: Phdr, a: nat, b: nat)
  {
    forall k: nat :: a <= k < b ==> UsableAt(f, p, k)
  }

  ghost predicate AllUsable(f: Image, p: Phdr)
  {
    Usable(f, p, 0, p.filesz) && Usable(f, p, p.filesz, p.memsz)
  }

  /** All bytes of the first n segments are usable. */
  ghost predicate UsableUpTo(f: Image, segs: seq<Phdr>, n: nat)
  {
    forall i :: 0 <= i < |segs| && i < n && Loadable(segs[i]) ==> AllUsable(f, segs[i])
  }

  lemma {:induction false} UsableMore(f: Image, segs: seq<Phdr>, i: nat)
    requires UsableUpTo(f, segs, i) && i < |segs| && (Loadable(segs[i]) ==> AllUsable(f, segs[i]))
    ensures UsableUpTo(f, segs, i + 1)
  {
  }

  /** What can end a load early once its headers are read. */
  predicate Stops(r: Result)
  {
    r == PageFault || r == TableHit || r == Refused(MapFailed)
  }

  /** A touched page is on a frame that holds a table. */
  ghost predicate OnTable(pages: Pages, tables: set<nat>, touched: set<nat>)
  {
    exists q :: q in touched && Mapped(pages, q) && pages[q].frame in tables
  }

  /** Page numbers, tables and free frames are the same. */
  ghost predicate SameMap(v: View, v': View)
  {
    v'.pages == v.pages && v'.tables == v.tables && v'.free == v.free
  }

  /** A sound segment on mapped pages is filled up to n, starting from v0. */
  ghost predicate Filling(f: Image, p: Phdr, v0: View, v: View, ram: set<nat>, touched: set<nat>, n: nat)
  {
    && Sound(f, p) && Covered(p, touched) && MappedUpTo(v.pages, p, LastPage(p)) && SameMap(v0, v)
    && Effect(v.pages, v.tables, ram, touched, v0.phys, v.phys, f, p, n)
  }

  lemma {:induction false} FillingReach(
    f: Image, p: Phdr, v0: View, v: View, ram: set<nat>, touched: set<nat>, n: Word, va: Word)
    requires Filling(f, p, v0, v, ram, touched, n) && n < p.memsz && va == WrapAdd(p.vaddr, n)
    ensures va == p.vaddr + n && Reach(v.pages, touched, va)
  {
    assert InSegment(p, va);
    NextByteReach(v.pages, touched, p, va);
  }

  lemma {:induction false} FillingStep(
    f: Image, p: Phdr, v0: View, v: View, v': View, ram: set<nat>, touched: set<nat>, n: Word, va: Word)
    requires Filling(f, p, v0, v, ram, touched, n) && va == p.vaddr + n && Reach(v.pages, touched, va) && SameMap(v, v')
    requires v'.phys == Poke(v.pages, v.phys, ram, va, Want(f, p, n))
    ensures Filling(f, p, v0, v', ram, touched, n + 1)
  {
    EffectStep(v.pages, v.tables, ram, touched, v0.phys, v.phys, v'.phys, f, p, n, va);
  }

  /** How much is copied in one turn: at most a page, and not past the end of the page. */
  function ChunkSize(p: Phdr, offset: Word, left: nat): (n: nat)
    requires left > 0
    ensures 0 < n <= left
  {
    var chunk := if left > PAGE then PAGE else left;
    var inPage := WrapAdd(p.vaddr, offset) % PAGE;
    if chunk + inPage > PAGE then PAGE - inPage else chunk
  }

  // ---------------------------------------------------------------- all segments

  /** The first n segments are held. */
  ghost predicate AllHeld(
    segs: seq<Phdr>, pages: Pages, tables: set<nat>, ram: set<nat>, touched: set<nat>, phys: Memory, f: Image,
    n: nat)
  {
    forall i :: 0 <= i < |segs| && i < n && Loadable(segs[i]) ==> Held(pages, tables, ram, touched, phys, f, segs[i])
  }

  /** Segments are sound and do not overlap. */
  ghost predicate Proper(segs: seq<Phdr>, f: Image)
  {
    && (forall i :: 0 <= i < |segs| && Loadable(segs[i]) ==> Sound(f, segs[i]))
    && (forall i, j ::
          0 <= i < j < |segs| && Loadable(segs[i]) && Loadable(segs[j]) ==> DisjointSegments(segs[i], segs[j]))
  }

  lemma {:induction false} SkippedHeld(
    segs: seq<Phdr>, pages: Pages, tables: set<nat>, ram: set<nat>, phys: Memory, f: Image, i: nat)
    requires i < |segs| && !Loadable(segs[i]) && AllHeld(segs, pages, tables, ram, Touched(segs), phys, f, i)
    ensures AllHeld(segs, pages, tables, ram, Touched(segs), phys, f, i + 1)
  {
  }

  lemma {:induction false} AnotherHeld(
    segs: seq<Phdr>, pages0: Pages, tables0: set<nat>, phys0: Memory, pages: Pages, tables: set<nat>, phys: Memory,
    ram: set<nat>, f: Image, i: nat)
    requires i < |segs| && Loadable(segs[i]) && Proper(segs, f) && Later(pages0, tables0, pages, tables)
    requires AllHeld(segs, pages0, tables0, ram, Touched(segs), phys0, f, i)
    requires Held(pages, tables, ram, Touched(segs), phys, f, segs[i])
    requires OthersKept(pages0, phys0, pages, tables, ram, phys, Touched(segs), segs[i])
    ensures AllHeld(segs, pages, tables, ram, Touched(segs), phys, f, i + 1)
  {
    forall j | 0 <= j < i && Loadable(segs[j]) ensures Held(pages, tables, ram, Touched(segs), phys, f, segs[j]) {
      TouchedCovers(segs, j);
      StaysHeld(pages0, tables0, phys0, pages, tables, phys, ram, Touched(segs), f, segs[i], segs[j]);
    }
  }

  /** Read through the page tables, the segment begins with the file's bytes from its offset on, and the
      rest of it is zero. */
  ghost predicate InPlace(m: Tables.Memory, root: nat, f: Image, p: Phdr)
  {
    forall va: nat :: InSegment(p, va) ==> LoadedAt(m, root, f, p, va)
  }

  ghost predicate LoadedAt(m: Tables.Memory, root: nat, f: Image, p: Phdr, va: nat)
  {
    p.vaddr <= va < TWO_64 && IsSegmentByte(f, p, va - p.vaddr, ReadThrough(m, root, va))
  }

  /** Every byte of every segment reads back. */
  ghost predicate AllInPlace(m: Tables.Memory, root: nat, f: Image, segs: seq<Phdr>)
  {
    forall i :: 0 <= i < |segs| && Loadable(segs[i]) ==> InPlace(m, root, f, segs[i])
  }

  /** Every byte of the segment is in memory. */
  ghost predicate SegmentPeeks(pages: Pages, phys: Memory, ram: set<nat>, f: Image, p: Phdr)
  {
    forall va: nat {:trigger BytePeeks(pages, phys, ram, f, p, va)} ::
      InSegment(p, va) ==> BytePeeks(pages, phys, ram, f, p, va)
  }

  ghost predicate BytePeeks(pages: Pages, phys: Memory, ram: set<nat>, f: Image, p: Phdr, va: nat)
  {
    p.vaddr <= va < TWO_64 && PeeksAt(pages, phys, ram, va, Want(f, p, va - p.vaddr))
  }

  ghost predicate AllPeek(pages: Pages, phys: Memory, ram: set<nat>, f: Image, segs: seq<Phdr>)
  {
    forall i :: 0 <= i < |segs| && Loadable(segs[i]) ==> SegmentPeeks(pages, phys, ram, f, segs[i])
  }

  /** What is held on pages apart is in memory. */
  lemma {:induction false} HeldApart(
    pages: Pages, tables: set<nat>, ram: set<nat>, phys: Memory, f: Image, segs: seq<Phdr>)
    requires Proper(segs, f) && Apart(pages, tables, ram, Touched(segs))
    requires AllHeld(segs, pages, tables, ram, Touched(segs), phys, f, |segs|)
    ensures AllPeek(pages, phys, ram, f, segs)
  {
    forall i | 0 <= i < |segs| && Loadable(segs[i]) ensures SegmentPeeks(pages, phys, ram, f, segs[i]) {
      TouchedCovers(segs, i);
      forall va: nat | InSegment(segs[i], va) ensures BytePeeks(pages, phys, ram, f, segs[i], va) {
        HeldByte(pages, tables, ram, Touched(segs), phys, f, segs[i], va);
      }
    }
  }

  lemma {:induction false} HeldByte(
    pages: Pages, tables: set<nat>, ram: set<nat>, touched: set<nat>, phys: Memory, f: Image, p: Phdr, va: nat)
    requires InOneHalf(p) && Covered(p, touched) && InSegment(p, va)
    requires Apart(pages, tables, ram, touched) && Held(pages, tables, ram, touched, phys, f, p)
    ensures BytePeeks(pages, phys, ram, f, p, va)
  {
    assert ByteHeld(pages, tables, ram, touched, phys, f, p, va);
    ByteReach(pages, touched, p, va);
    assert !Spoiled(pages, tables, ram, touched, PageOf(va));
  }

  /** What is in memory reads back through the tables. */
  lemma {:induction false} PeeksReadBack(m: Tables.Memory, root: nat, ram: set<nat>, f: Image, segs: seq<Phdr>)
    requires ram <= m.Keys && AllPeek(PagesOf(m, root), BytesOf(m, ram), ram, f, segs) && Proper(segs, f)
    requires |f.bytes| < TWO_64
    ensures AllInPlace(m, root, f, segs)
  {
    forall i | 0 <= i < |segs| && Loadable(segs[i]) ensures InPlace(m, root, f, segs[i]) {
      SegmentReadsBack(m, root, ram, f, segs[i], PagesOf(m, root), BytesOf(m, ram));
    }
  }

  lemma {:induction false} SegmentReadsBack(
    m: Tables.Memory, root: nat, ram: set<nat>, f: Image, p: Phdr, pages: Pages, phys: Memory)
    requires ram <= m.Keys && Sound(f, p) && |f.bytes| < TWO_64 && pages == PagesOf(m, root) && phys == BytesOf(m, ram)
    requires SegmentPeeks(pages, phys, ram, f, p)
    ensures InPlace(m, root, f, p)
  {
    forall va: nat | InSegment(p, va) ensures LoadedAt(m, root, f, p, va) {
      assert BytePeeks(pages, phys, ram, f, p, va);
      ByteReadsBack(m, root, ram, f, p, va);
    }
  }

  lemma {:induction false} ByteReadsBack(m: Tables.Memory, root: nat, ram: set<nat>, f: Image, p: Phdr, va: nat)
    requires ram <= m.Keys && Sound(f, p) && |f.bytes| < TWO_64
    requires BytePeeks(PagesOf(m, root), BytesOf(m, ram), ram, f, p, va)
    ensures LoadedAt(m, root, f, p, va)
  {
    ReadsAgree(m, root, ram, va, Want(f, p, va - p.vaddr));
    SoundBytes(f, p, va - p.vaddr);
  }

  // ---------------------------------------------------------------- bounds

  /** `base` is the lowest address of a segment and `max` the highest end; without segments, the limits. */
  ghost predicate IsBounds(segs: seq<Phdr>, base: nat, max: nat)
  {
    && (forall i :: 0 <= i < |segs| && Loadable(segs[i]) ==>
       base <= segs[i].vaddr && WrapAdd(segs[i].vaddr, segs[i].memsz) <= max)
    && (base == TWO_64 - 1 || exists i :: 0 <= i < |segs| && Loadable(segs[i]) && segs[i].vaddr == base)
    && (max == 0 || exists i :: 0 <= i < |segs| && Loadable(segs[i]) && WrapAdd(segs[i].vaddr, segs[i].memsz) == max)
  }

  /** The loader takes a segment at the last address for none. */
  ghost predicate NothingToLoad(segs: seq<Phdr>)
  {
    forall i :: 0 <= i < |segs| && Loadable(segs[i]) ==> segs[i].vaddr == TWO_64 - 1
  }

  /** Without overflow the bounds are those of the bytes: every byte of a segment is between them. */
  lemma {:induction false} BoundsHoldBytes(segs: seq<Phdr>, base: nat, max: nat, i: nat, va: nat)
    requires IsBounds(segs, base, max) && i < |segs| && Loadable(segs[i]) && Bounded(segs[i]) && InSegment(segs[i], va)
    ensures base <= va < max
  {
  }

  // ---------------------------------------------------------------- rights

  /** The page got a frame of its own: open to user mode exactly if the levels above allow it, and writable
      if they do, the segment is, and the page does not begin before it. */
  ghost predicate Rights(m: Tables.Memory, root: nat, pages: Pages, p: Phdr, q: nat)
  {
    && Mapped(pages, Key(q))
    && (pages[Key(q)].user <==> Tables.UpperUser(m, root, PathTo(Key(q))))
    && (pages[Key(q)].write <==> Writable(p) && q * PAGE >= p.vaddr && Tables.UpperWrite(m, root, PathTo(Key(q))))
  }

  /** What mapping a segment does to its page q. A page that was mapped is left alone. A page without
      translation, and an unmapped first page, get a frame. But of the pages in a large page all after the
      first become visible when it is split, and stay on the frames they had. */
  ghost predicate PageDone(m0: Tables.Memory, root: nat, pages0: Pages, pages: Pages, p: Phdr, q: nat)
  {
    && Mapped(pages, Key(q))
    && (Mapped(pages0, Key(q)) ==> pages[Key(q)] == pages0[Key(q)])
    && (!Mapped(pages0, Key(q)) ==> Rights(m0, root, pages, p, q) || Exposed(pages0, pages, q))
    && (!Mapped(pages0, Key(q)) && (Key(q) !in pages0 || q == FirstPage(p)) ==> Rights(m0, root, pages, p, q))
    && (Key(q) in pages0 && q != FirstPage(p) && q % 512 != 0 ==> pages[Key(q)].frame == pages0[Key(q)].frame)
  }

  /** The page has become visible where it was. */
  ghost predicate Exposed(pages0: Pages, pages: Pages, q: nat)
  {
    Key(q) in pages0 && Key(q) in pages && pages[Key(q)] == pages0[Key(q)].(visible := true)
  }

  /** The page's turn has not come yet. */
  ghost predicate PageAhead(m0: Tables.Memory, m: Tables.Memory, root: nat, pages0: Pages, pages: Pages, q: nat)
  {
    && Key(q) < TWO_36 && (Key(q) in pages <==> Key(q) in pages0)
    && (Key(q) in pages0 ==> SeenStill(pages0[Key(q)], pages[Key(q)])) && SameUppers(m0, m, root, Key(q))
  }

  lemma {:induction false} AllAhead(m: Tables.Memory, root: nat, pages: Pages)
    ensures forall q: nat :: PageAhead(m, m, root, pages, pages, q)
  {
  }

  lemma {:induction false} StillDone(
    m0: Tables.Memory, root: nat, pages0: Pages, pages: Pages, pages': Pages, p: Phdr, q: nat)
    requires PageDone(m0, root, pages0, pages, p, q) && Mapped(pages', Key(q)) && pages'[Key(q)] == pages[Key(q)]
    ensures PageDone(m0, root, pages0, pages', p, q)
  {
  }

  lemma {:induction false} StillAhead(
    m0: Tables.Memory, m: Tables.Memory, m': Tables.Memory, root: nat, pages0: Pages, pages: Pages, pages': Pages,
    q: nat, x: nat)
    requires PageAhead(m0, m, root, pages0, pages, x) && Key(x) != Key(q)
    requires OthersSeen(pages, pages', Key(q)) && UppersKept(m, m', root, Key(q))
    ensures PageAhead(m0, m', root, pages0, pages', x)
  {
    assert SameUppers(m, m', root, Key(x));
  }

  /** The page's turn. */
  lemma {:induction false} TurnDone(
    m0: Tables.Memory, m: Tables.Memory, root: nat, pages0: Pages, pages: Pages, pages': Pages, p: Phdr, q: nat)
    requires PageAhead(m0, m, root, pages0, pages, q) && Mapped(pages', Key(q))
    requires Mapped(pages, Key(q)) ==> pages' == pages
    requires !Mapped(pages, Key(q)) ==> Rights(m, root, pages', p, q)
    requires q == FirstPage(p) ==> pages == pages0
    requires q != FirstPage(p) && q % 512 != 0 && Key(q) in pages ==> Mapped(pages, Key(q))
    ensures PageDone(m0, root, pages0, pages', p, q)
  {
  }

  /** The pages of the segment up to q are mapped. */
  ghost predicate MappedUpTo(pages: Pages, p: Phdr, q: nat)
  {
    forall x: nat :: FirstPage(p) <= x < q ==> Mapped(pages, Key(x))
  }

  ghost predicate DoneUpTo(m0: Tables.Memory, root: nat, pages0: Pages, pages: Pages, p: Phdr, q: nat)
  {
    forall x: nat :: FirstPage(p) <= x < q ==> PageDone(m0, root, pages0, pages, p, x)
  }

  ghost predicate AheadFrom(
    m0: Tables.Memory, m: Tables.Memory, root: nat, pages0: Pages, pages: Pages, p: Phdr, q: nat)
  {
    forall x: nat :: q <= x < LastPage(p) ==> PageAhead(m0, m, root, pages0, pages, x)
  }

  lemma {:induction false} MoreMapped(pages: Pages, tables: set<nat>, pages': Pages, tables': set<nat>, p: Phdr, q: nat)
    requires MappedUpTo(pages, p, q) && Later(pages, tables, pages', tables') && Mapped(pages', Key(q))
    ensures MappedUpTo(pages', p, q + 1)
  {
    forall x: nat | FirstPage(p) <= x < q + 1 ensures Mapped(pages', Key(x)) {
    }
  }

  lemma {:induction false} MoreDone(
    m0: Tables.Memory, m: Tables.Memory, m': Tables.Memory, root: nat, pages0: Pages, pages: Pages,
    tables: set<nat>, pages': Pages, tables': set<nat>, p: Phdr, q: nat)
    requires InOneHalf(p) && FirstPage(p) <= q < LastPage(p)
    requires DoneUpTo(m0, root, pages0, pages, p, q) && AheadFrom(m0, m, root, pages0, pages, p, q)
    requires Later(pages, tables, pages', tables') && Mapped(pages', Key(q))
    requires OthersSeen(pages, pages', Key(q)) && UppersKept(m, m', root, Key(q))
    requires Mapped(pages, Key(q)) ==> pages' == pages
    requires !Mapped(pages, Key(q)) ==> Rights(m, root, pages', p, q)
    requires q == FirstPage(p) ==> pages == pages0
    requires q != FirstPage(p) && q % 512 != 0 && Key(q) in pages ==> Mapped(pages, Key(q))
    ensures DoneUpTo(m0, root, pages0, pages', p, q + 1) && AheadFrom(m0, m', root, pages0, pages', p, q + 1)
  {
    TurnDone(m0, m, root, pages0, pages, pages', p, q);
    forall x: nat | FirstPage(p) <= x < q ensures PageDone(m0, root, pages0, pages', p, x) {
      StillDone(m0, root, pages0, pages, pages', p, x);
    }
    forall x: nat | q < x < LastPage(p) ensures PageAhead(m0, m', root, pages0, pages', x) {
      if Key(x) == Key(q) {
        PagesDiffer(p, x, q);
      }
      StillAhead(m0, m, m', root, pages0, pages, pages', q, x);
    }
  }

  /** Within a 2 MB page the page numbers follow each other. */
  lemma {:induction false} NextInLargePage(q: nat)
    requires q % 512 != 0
    ensures q > 0 && Key(q) < TWO_36 && Key(q - 1) < TWO_36 && Key(q - 1) / 512 == Key(q) / 512
  {
    KeyInLargePage(q);
    assert q == 512 * (q / 512) + q % 512;
    KeyInLargePage(q - 1);
  }

  /** The page number keeps the place in the 2 MB page. */
  lemma {:induction false} KeyInLargePage(q: nat)
    ensures Key(q) / 512 == q / 512 % 0x800_0000 && Key(q) % 512 == q % 512 && Key(q) < TWO_36
  {
    var a, b := q / 512, q % 512;
    var c, d := a / 0x800_0000, a % 0x800_0000;
    KeyDigits(q, c, d, b);
  }

  lemma {:induction false} KeyDigits(q: nat, c: nat, d: nat, b: nat)
    requires q == 0x10_0000_0000 * c + 512 * d + b && d < 0x800_0000 && b < 512
    ensures q % 0x10_0000_0000 == 512 * d + b && q % 0x10_0000_0000 / 512 == d
  {
  }

  /** After the first page of a large page has been mapped, its other pages are mapped too. */
  lemma {:induction false} ShownTogether(m: Tables.Memory, root: nat, ram: set<nat>, v: View, q: nat)
    requires Shown(m, root, ram, v) && q % 512 != 0 && q > 0 && Mapped(v.pages, Key(q - 1)) && Key(q) in v.pages
    ensures Mapped(v.pages, Key(q))
  {
    NextInLargePage(q);
    ShownIsView(m, root, ram, v.free, v);
    SeenTogether(m, root, Key(q - 1), Key(q));
  }

  lemma {:induction false} RightsOf(m: Tables.Memory, root: nat, pages: Pages, p: Phdr, q: nat, frame: nat, write: bool)
    requires Key(q) < TWO_36 && Key(q) in pages && pages[Key(q)] == UserPage(m, root, Key(q), frame, write)
    requires write == (q * PAGE >= p.vaddr && Writable(p))
    ensures Rights(m, root, pages, p, q)
  {
  }

  /** The first page of a writable segment, if it gets a frame, is writable exactly when the levels above
      allow it and the segment begins on a page boundary. */
  lemma {:induction false} FirstPageWritable(m0: Tables.Memory, root: nat, pages0: Pages, pages: Pages, p: Phdr)
    requires PageDone(m0, root, pages0, pages, p, FirstPage(p)) && !Mapped(pages0, Key(FirstPage(p))) && Writable(p)
    ensures pages[Key(FirstPage(p))].write <==>
            p.vaddr % PAGE == 0 && Tables.UpperWrite(m0, root, PathTo(Key(FirstPage(p))))
  {
    assert p.vaddr == PAGE * (p.vaddr / PAGE) + p.vaddr % PAGE;
  }

  /** Any page that had no translation: user mode reaches it if every level above does, and it is writable if
      they are and the flags of the segment say so, unless it begins before the segment. */
  lemma {:induction false} NewPageRights(
    m0: Tables.Memory, root: nat, pages0: Pages, pages: Pages, p: Phdr, q: nat, va: Word)
    requires PageDone(m0, root, pages0, pages, p, q) && Key(q) !in pages0 && PageOf(va) == Key(q)
    ensures pages[Key(q)].user <==>
            forall k :: 1 <= k <= 3 ==>
              Tables.LevelEntry(m0, root, va, k) % 2 == 1 && Tables.LevelEntry(m0, root, va, k) / 4 % 2 == 1
    ensures pages[Key(q)].write <==>
            p.flags / 2 % 2 == 1 && p.vaddr <= q * 4096 && Tables.UpperWrite(m0, root, Tables.PathOf(va))
  {
    PathOfAddress(va);
    var e1, e2 := Tables.LevelEntry(m0, root, va, 1), Tables.LevelEntry(m0, root, va, 2);
    var e3 := Tables.LevelEntry(m0, root, va, 3);
    assert Rights(m0, root, pages, p, q);
  }

  // ---------------------------------------------------------------- programs over free memory

  /** Every page below 4 GB translates to the frame of its own number. */
  ghost predicate LowIdentity(m: Tables.Memory, root: nat)
  {
    forall k: nat :: k < 0x10_0000 ==> OnOwnFrame(m, root, k)
  }

  ghost predicate OnOwnFrame(m: Tables.Memory, root: nat, k: nat)
  {
    k in PagesOf(m, root) && PagesOf(m, root)[k].frame == k
  }

  /** vmm_init leaves it so. */
  lemma {:induction false} LowIdentityAfterInit(m0: Tables.Memory, m: Tables.Memory, root: nat)
    requires VirtualMemory.IdentityBuilt(m0, m, root, 4) && Tables.Present(m0[root][0])
    ensures LowIdentity(m, root)
  {
    forall k: nat | k < 0x10_0000 ensures OnOwnFrame(m, root, k) {
      OwnFrameAfterInit(m0, m, root, k);
    }
  }

  lemma {:induction false} OwnFrameAfterInit(m0: Tables.Memory, m: Tables.Memory, root: nat, k: nat)
    requires VirtualMemory.IdentityBuilt(m0, m, root, 4) && Tables.Present(m0[root][0]) && k < 0x10_0000
    ensures OnOwnFrame(m, root, k)
  {
    IdentityPath(k);
    VirtualMemory.LowPagesAreIdentity(m0, m, root, k);
    OwnFrameFrom(m, root, k, PathTo(k));
  }

  lemma {:induction false} IdentityPath(k: nat)
    requires k < 0x10_0000
    ensures Tables.IdentityPage(k) == PathTo(k)
  {
    assert k % Tables.TWO_40 == k;
  }

  lemma {:induction false} OwnFrameFrom(m: Tables.Memory, root: nat, k: nat, p: seq<nat>)
    requires k < TWO_36 && p == PathTo(k) && Tables.Translate(m, root, p).Some?
    requires Tables.Translate(m, root, p).value.frame == k
    ensures OnOwnFrame(m, root, k)
  {
  }

  /** So a program there is settled only where the frame allocator has nothing left. */
  lemma {:induction false} LowPagesUnsettled(
    m: Tables.Memory, root: nat, free: set<nat>, tables: set<nat>, ram: set<nat>, touched: set<nat>, k: nat)
    requires LowIdentity(m, root) && k < 0x10_0000 && k in touched && k in free
    ensures !Settled(PagesOf(m, root), free, tables, ram, touched)
  {
    assert OnOwnFrame(m, root, k);
  }

  /** Mapping one page of a 2 MB page leaves every other one visible on the frame it had: the loader takes
      it for mapped and gives it none. */
  lemma {:induction false} OthersGetNoFrame(
    m: Tables.Memory, m1: Tables.Memory, root: nat, free: set<nat>, free1: set<nat>, n: nat, k: nat, f: nat,
    w: Word)
    requires n < TWO_36 && k < TWO_36 && n != k && n / 512 == k / 512 && Tables.Present(w) && k in PagesOf(m, root)
    requires Tables.AllocMapped(m, m1, root, free, free1, PathTo(n), f, w)
    ensures Mapped(PagesOf(m1, root), k) && PagesOf(m1, root)[k].frame == PagesOf(m, root)[k].frame
  {
    PathsDiffer(n, k);
    assert Tables.SamePage(m, m1, root, PathTo(k));
    MappedNow(m, m1, root, free, free1, n, f, w);
    SeenTogether(m1, root, n, k);
  }

  lemma {:induction false} MappedNow(
    m: Tables.Memory, m1: Tables.Memory, root: nat, free: set<nat>, free1: set<nat>, n: nat, f: nat, w: Word)
    requires n < TWO_36 && Tables.Present(w) && Tables.AllocMapped(m, m1, root, free, free1, PathTo(n), f, w)
    ensures Mapped(PagesOf(m1, root), n)
  {
  }

  /** The second page of a program linked at 4 MB stays on frame 0x401, free or not. */
  lemma {:induction false} SecondPageOfProgram(
    m: Tables.Memory, m1: Tables.Memory, root: nat, free: set<nat>, free1: set<nat>, f: nat, w: Word)
    requires LowIdentity(m, root) && Tables.Present(w)
    requires Tables.AllocMapped(m, m1, root, free, free1, PathTo(0x400), f, w)
    ensures Mapped(PagesOf(m1, root), 0x401) && PagesOf(m1, root)[0x401].frame == 0x401
  {
    assert OnOwnFrame(m, root, 0x401);
    OthersGetNoFrame(m, m1, root, free, free1, 0x400, 0x401, f, w);
  }

  /** And when the frame allocator hands that frame out, whatever was stored on the page reads as zero. */
  lemma {:induction false} StoredBytesLost(
    m1: Tables.Memory, m2: Tables.Memory, root: nat, free1: set<nat>, free2: set<nat>, k: nat, t: Tables.Table,
    j: nat, w: Word, va: Word)
    requires Tables.WellFormed(m1, root, free1) && k in free1 && k in m1 && k < TWO_36 && j < TWO_36 && j != k
    requires Mapped(PagesOf(m1, root), k) && PagesOf(m1, root)[k].frame == k && PageOf(va) == k
    requires Tables.AllocMapped(m1[k := t], m2, root, free1, free2, PathTo(j), k, w)
    ensures ReadThrough(m1[k := t], root, va) == Some(ByteAt(t, OffsetOf(va)))
    ensures ReadThrough(m2, root, va) == Some(0)
  {
    StoredOnFree(m1, root, free1, k, t);
    PathsDiffer(j, k);
    assert Tables.SamePage(m1[k := t], m2, root, PathTo(k));
    PathOfAddress(va);
    ZeroByte(m2[k], OffsetOf(va));
  }

  lemma {:induction false} StoredOnFree(m: Tables.Memory, root: nat, free: set<nat>, k: nat, t: Tables.Table)
    requires Tables.WellFormed(m, root, free) && k in free && k in m && k < TWO_36
    requires k in PagesOf(m, root) && PagesOf(m, root)[k].frame == k
    ensures Tables.Translate(m[k := t], root, PathTo(k)).Some?
    ensures Tables.Translate(m[k := t], root, PathTo(k)).value.frame == k
  {
    assert !Tables.IsTable(m, root, k) by {
      assert forall q :: |q| <= 3 ==> Tables.InUse(m, root, free, q);
    }
    DataWriteWalk(m, root, free, k, t, PathTo(k));
  }

  lemma {:induction false} ZeroByte(t: Tables.Table, o: nat)
    requires o < PAGE && forall j :: 0 <= j < Tables.ENTRIES ==> t[j] == 0
    ensures ByteAt(t, o) == 0
  {
    ZeroDigit(o % 8);
  }

  class Loader {
    const vmm: VirtualMemory.Vmm
    ghost const ram: set<nat>  // the frames there are

    /** v is what the page tables and memory show. */
    ghost predicate Holds(v: View)
      reads vmm, vmm.pmm, vmm.pmm.bitmap
    {
      vmm.Valid() && ram <= vmm.mem.Keys && vmm.free <= ram && v.free == vmm.free && Shown(vmm.mem, vmm.root, ram, v)
    }

    constructor (vmm: VirtualMemory.Vmm)
      requires vmm.Valid()
      ensures this.vmm == vmm && ram == vmm.mem.Keys
      ensures Holds(ViewOf(vmm.mem, vmm.root, ram, vmm.free))
    {
      this.vmm, ram := vmm, vmm.mem.Keys;
      new;
      ShownIsView(vmm.mem, vmm.root, ram, vmm.free, ViewOf(vmm.mem, vmm.root, ram, vmm.free));
    }

    // -------------------------------------------------------------- the address space

    /** vmm_is_mapped of page q. */
    method IsMapped(q: nat, ghost v: View) returns (yes: bool)
      requires Holds(v) && q * PAGE < TWO_64
      modifies vmm`mem, vmm`free, vmm.pmm, vmm.pmm.bitmap
      ensures Holds(v) && vmm.mem == old(vmm.mem)
      ensures yes <==> Mapped(v.pages, Key(q))
    {
      var va: Word := q * PAGE;
      PathOfPage(q, va);
      ShownIsView(vmm.mem, vmm.root, ram, vmm.free, v);
      yes := vmm.IsMapped(va);
    }

    /** vmm_alloc_map of page q with user, and possibly write, permission. */
    method AllocMap(
      q: nat, write: bool, ghost v: View)
      returns (ok: bool, ghost v': View, ghost grown: Pages, ghost frame: nat)
      requires Holds(v) && q * PAGE < TWO_64
      modifies vmm`mem, vmm`free, vmm.pmm, vmm.pmm.bitmap
      ensures Holds(v') && v'.free <= v.free && v'.tables <= v.tables + (v.free - v'.free)
      ensures Grows(v.pages, v.tables, v.phys, grown, v'.tables, v'.phys, frame) && Key(q) < TWO_36
      ensures v'.pages == if ok then grown[Key(q) := UserPage(old(vmm.mem), vmm.root, Key(q), frame, write)] else grown
      ensures ok ==> frame in v.free && frame !in v'.free && frame !in v'.tables
      ensures ok ==> UppersKept(old(vmm.mem), vmm.mem, vmm.root, Key(q))
    {
      var flags: Word := if write then 7 else 5;
      assert flags % PAGE == flags && flags % 2 == 1;
      var va: Word := q * PAGE;
      ghost var n := Key(q);
      PathOfPage(q, va);
      ShownIsView(vmm.mem, vmm.root, ram, vmm.free, v);
      ok, frame := vmm.AllocMap(va, flags);
      v' := ViewOf(vmm.mem, vmm.root, ram, vmm.free);
      ShownIsView(vmm.mem, vmm.root, ram, vmm.free, v');
      if ok {
        AllocMapGrows(old(vmm.mem), vmm.mem, vmm.root, old(vmm.free), vmm.free, ram, n, Tables.PathOf(va), frame, flags,
                      Tables.MakeEntry(frame, flags % PAGE));
        UserPageIsNew(old(vmm.mem), vmm.root, n, frame, write);
        grown := Besides(v'.pages, v.pages, n);
      } else {
        FailedAllocMapGrows(old(vmm.mem), vmm.mem, vmm.root, old(vmm.free), vmm.free, ram, frame);
        grown := v'.pages;
      }
    }

    /** A byte store in kernel mode: it faults on an address the processor refuses or that does not
        translate, and ignores write protection. */
    method Store(va: Word, b: Byte, ghost v: View) returns (r: StoreResult, ghost v': View)
      requires Holds(v)
      modifies vmm`mem
      ensures Holds(v') && v'.pages == v.pages && v'.tables == v.tables && v'.free == v.free
      ensures r == Faulted <==> !Canonical(va) || PageOf(va) !in v.pages
      ensures r == HitTable <==> Canonical(va) && PageOf(va) in v.pages && v.pages[PageOf(va)].frame in v.tables
      ensures r == Stored ==> v'.phys == Poke(v.pages, v.phys, ram, va, b)
      ensures r != Stored ==> v' == v
    {
      PathOfAddress(va);
      ShownIsView(vmm.mem, vmm.root, ram, vmm.free, v);
      v' := v;
      var t := Tables.Translate(vmm.mem, vmm.root, Tables.PathOf(va));
      if !Canonical(va) || t.None? {
        r := Faulted;
        return;
      }
      var f := t.value.frame;
      Tables.HoldsTableIff(vmm.mem, vmm.root, f);
      r := Stored;
      if f in vmm.mem {
        if Tables.HoldsTable(vmm.mem, vmm.root, f) {
          r := HitTable;
          return;
        }
        StorePokes(vmm.mem, vmm.root, vmm.free, ram, va, b);
        vmm.StoreFrame(f, WithByte(vmm.mem[f], OffsetOf(va), b));
        v' := ViewOf(vmm.mem, vmm.root, ram, vmm.free);
        ShownIsView(vmm.mem, vmm.root, ram, vmm.free, v');
      }
    }

    // -------------------------------------------------------------- mapping

    /** One turn of the mapping loop: a page that is not mapped gets a frame. */
    method MapOne(p: Phdr, q: nat, ghost touched: set<nat>, ghost v: View) returns (ok: bool, ghost v': View)
      requires Holds(v) && q * PAGE < TWO_64 && Key(q) in touched
      modifies vmm`mem, vmm`free, vmm.pmm, vmm.pmm.bitmap
      ensures Holds(v') && Key(q) < TWO_36 && Refusal(v, v', ram, touched)
      ensures Mapped(v.pages, Key(q)) ==> ok && vmm.mem == old(vmm.mem) && v' == v
      ensures ok ==> Mapped(v'.pages, Key(q)) && Progress(v, v', ram, touched)
      ensures ok ==> OthersSeen(v.pages, v'.pages, Key(q)) && UppersKept(old(vmm.mem), vmm.mem, vmm.root, Key(q))
      ensures ok && !Mapped(v.pages, Key(q)) ==> Rights(old(vmm.mem), vmm.root, v'.pages, p, q)
    {
      ok, v' := true, v;
      var mapped := IsMapped(q, v);
      if mapped {
        NoProgress(v, ram, touched);
        return;
      }
      var write := q * PAGE >= p.vaddr && Writable(p);
      ghost var grown, frame;
      ok, v', grown, frame := AllocMap(q, write, v);
      if ok {
        MappingProgress(v, v', grown, ram, touched, Key(q), UserPage(old(vmm.mem), vmm.root, Key(q), frame, write));
        RightsOf(old(vmm.mem), vmm.root, v'.pages, p, q, frame, write);
      } else {
        RefusalKeeps(v, v', ram, touched, frame);
      }
    }

    /** The pages of one segment are mapped. */
    method MapSegment(p: Phdr, ghost touched: set<nat>, ghost v: View) returns (ok: bool, ghost v': View)
      requires Holds(v) && Covered(p, touched)
      modifies vmm`mem, vmm`free, vmm.pmm, vmm.pmm.bitmap
      ensures Holds(v') && Refusal(v, v', ram, touched)
      ensures ok ==> Progress(v, v', ram, touched) && MappedUpTo(v'.pages, p, LastPage(p))
      ensures ok && InOneHalf(p) ==> DoneUpTo(old(vmm.mem), vmm.root, v.pages, v'.pages, p, LastPage(p))
    {
      ok, v' := true, v;
      ghost var m0, half := vmm.mem, InOneHalf(p);
      var q: nat := FirstPage(p);
      NoProgress(v, ram, touched);
      AllAhead(m0, vmm.root, v.pages);
      while q < LastPage(p)
        invariant Holds(v') && Progress(v, v', ram, touched) && q >= FirstPage(p) && MappedUpTo(v'.pages, p, q)
        invariant q == FirstPage(p) ==> v' == v
        invariant half ==> DoneUpTo(m0, vmm.root, v.pages, v'.pages, p, q)
        invariant half ==> AheadFrom(m0, vmm.mem, vmm.root, v.pages, v'.pages, p, q)
        invariant q >= LastPage(p) ==> q == LastPage(p) || q == FirstPage(p)
        decreases LastPage(p) - q
      {
        ghost var v1, m1 := v', vmm.mem;
        if q != FirstPage(p) && q % 512 != 0 && Key(q) in v1.pages {
          ShownTogether(m1, vmm.root, ram, v1, q);
        }
        ok, v' := MapOne(p, q, touched, v1);
        if !ok {
          RefusalAgain(v, v1, v', ram, touched);
          return;
        }
        ProgressAgain(v, v1, v', ram, touched);
        MoreMapped(v1.pages, v1.tables, v'.pages, v'.tables, p, q);
        if half {
          MoreDone(m0, m1, vmm.mem, vmm.root, v.pages, v1.pages, v1.tables, v'.pages, v'.tables, p, q);
        }
        q := q + 1;
      }
    }

    // -------------------------------------------------------------- filling

    /** Byte n of the segment is stored. `good` says that the segment is sound and its pages are mapped. */
    method StoreNext(
      f: Image, p: Phdr, n: Word, b: Byte, ghost v0: View, ghost v: View, ghost touched: set<nat>, ghost good: bool)
      returns (r: StoreResult, ghost v': View)
      requires Holds(v)
      requires good ==> Filling(f, p, v0, v, ram, touched, n) && n < p.memsz && b == Want(f, p, n)
      modifies vmm`mem
      ensures Holds(v') && SameMap(v, v')
      ensures r == Stored ==> Canonical(WrapAdd(p.vaddr, n))
      ensures good ==> r != Faulted && (r == Stored ==> Filling(f, p, v0, v', ram, touched, n + 1))
      ensures good && r == HitTable ==> OnTable(v'.pages, v'.tables, touched)
    {
      var va: Word := WrapAdd(p.vaddr, n);
      if good {
        FillingReach(f, p, v0, v, ram, touched, n, va);
      }
      r, v' := Store(va, b, v);
      if good && r == Stored {
        FillingStep(f, p, v0, v, v', ram, touched, n, va);
      }
    }

    /** Bytes from..<to of the segment are read from the file and stored: the inner loop of the copy. */
    method CopyChunk(
      f: Image, p: Phdr, from: nat, to: nat, ghost v0: View, ghost v: View, ghost touched: set<nat>,
      ghost good: bool)
      returns (r: StoreResult, ghost v': View)
      requires Holds(v) && from <= to <= p.filesz
      requires good ==> Filling(f, p, v0, v, ram, touched, from)
      modifies vmm`mem
      ensures Holds(v') && SameMap(v, v')
      ensures r == Stored ==> Usable(f, p, from, to)
      ensures good ==> r != Faulted && (r == Stored ==> Filling(f, p, v0, v', ram, touched, to))
      ensures good && r == HitTable ==> OnTable(v'.pages, v'.tables, touched)
    {
      var n: nat := from;
      r, v' := Stored, v;
      while n < to
        invariant from <= n <= to && r == Stored && Usable(f, p, from, n)
        invariant Holds(v') && SameMap(v, v')
        invariant good ==> Filling(f, p, v0, v', ram, touched, n)
      {
        if !Readable(f, Source(p, n)) {
          r := Faulted;
          return;
        }
        r, v' := StoreNext(f, p, n, At(f, Source(p, n)), v0, v', touched, good);
        if r != Stored {
          return;
        }
        assert UsableAt(f, p, n);
        n := n + 1;
      }
    }

    /** The copy, in chunks that do not cross a page. */
    method CopySegment(f: Image, p: Phdr, ghost v: View, ghost touched: set<nat>, ghost good: bool)
      returns (r: StoreResult, ghost v': View)
      requires Holds(v) && (good ==> Filling(f, p, v, v, ram, touched, 0))
      modifies vmm`mem
      ensures Holds(v') && SameMap(v, v')
      ensures r == Stored ==> Usable(f, p, 0, p.filesz)
      ensures good ==> r != Faulted && (r == Stored ==> Filling(f, p, v, v', ram, touched, p.filesz))
      ensures good && r == HitTable ==> OnTable(v'.pages, v'.tables, touched)
    {
      var offset: nat, left: nat := 0, p.filesz;
      r, v' := Stored, v;
      while left > 0
        invariant offset + left == p.filesz && r == Stored && Usable(f, p, 0, offset)
        invariant Holds(v') && SameMap(v, v')
        invariant good ==> Filling(f, p, v, v', ram, touched, offset)
      {
        var chunk := ChunkSize(p, offset, left);
        r, v' := CopyChunk(f, p, offset, offset + chunk, v, v', touched, good);
        if r != Stored {
          return;
        }
        offset, left := offset + chunk, left - chunk;
      }
    }

    /** The part of the segment that the file does not supply is cleared. */
    method ClearRest(f: Image, p: Phdr, ghost v0: View, ghost v: View, ghost touched: set<nat>, ghost good: bool)
      returns (r: StoreResult, ghost v': View)
      requires Holds(v) && (good ==> Filling(f, p, v0, v, ram, touched, p.filesz))
      modifies vmm`mem
      ensures Holds(v') && SameMap(v, v')
      ensures r == Stored ==> Usable(f, p, p.filesz, p.memsz)
      ensures good ==> r != Faulted && (r == Stored ==> Filling(f, p, v0, v', ram, touched, p.memsz))
      ensures good && r == HitTable ==> OnTable(v'.pages, v'.tables, touched)
    {
      var n: nat := p.filesz;
      r, v' := Stored, v;
      while n < p.memsz
        invariant p.filesz <= n && r == Stored && Usable(f, p, p.filesz, n)
        invariant Holds(v') && SameMap(v, v')
        invariant good ==> Filling(f, p, v0, v', ram, touched, n) && n <= p.memsz
      {
        r, v' := StoreNext(f, p, n, 0, v0, v', touched, good);
        if r != Stored {
          return;
        }
        assert UsableAt(f, p, n);
        n := n + 1;
      }
    }

    // -------------------------------------------------------------- the loader

    /** The first pass: lowest address and highest end over all segments. */
    method Bounds(segs: seq<Phdr>) returns (base: Word, max: Word)
      ensures IsBounds(segs, base, max)
    {
      base, max := TWO_64 - 1, 0;
      var i := 0;
      while i < |segs|
        invariant i <= |segs|
        invariant IsBounds(segs[..i], base, max)
      {
        if Loadable(segs[i]) {
          if segs[i].vaddr < base {
            base := segs[i].vaddr;
          }
          var end := WrapAdd(segs[i].vaddr, segs[i].memsz);
          if end > max {
            max := end;
          }
        }
        assert segs[..i + 1] == segs[..i] + [segs[i]];
        i := i + 1;
      }
      assert segs[..i] == segs;
    }

    /** One segment: mapped, copied, cleared. */
    method LoadSegment(f: Image, p: Phdr, ghost touched: set<nat>, ghost v: View, ghost good: bool)
      returns (r: Option<Result>, ghost v': View)
      requires Holds(v) && Covered(p, touched) && (good ==> Sound(f, p))
      modifies vmm`mem, vmm`free, vmm.pmm, vmm.pmm.bitmap
      ensures Holds(v') && Refusal(v, v', ram, touched) && (r.Some? ==> Stops(r.value))
      ensures r.None? ==> AllUsable(f, p)
      ensures r.None? && InOneHalf(p) ==> DoneUpTo(old(vmm.mem), vmm.root, v.pages, v'.pages, p, LastPage(p))
      ensures good ==> r != Some(PageFault) && (r == Some(TableHit) ==> OnTable(v'.pages, v'.tables, touched))
      ensures good && r.None? ==>
                && Held(v'.pages, v'.tables, ram, touched, v'.phys, f, p)
                && OthersKept(v.pages, v.phys, v'.pages, v'.tables, ram, v'.phys, touched, p)
    {
      r := None;
      var ok;
      ghost var v1, v2;
      ok, v1 := MapSegment(p, touched, v);
      v' := v1;
      if !ok {
        r := Some(Refused(MapFailed));
        return;
      }
      var s;
      s, v2 := CopySegment(f, p, v1, touched, good);
      v' := v2;
      if s == Stored {
        s, v' := ClearRest(f, p, v1, v2, touched, good);
      }
      if s != Stored {
        r := Some(if s == Faulted then PageFault else TableHit);
        return;
      }
      if good {
        SegmentDone(v.pages, v.phys, v'.pages, v'.tables, v1.phys, v'.phys, ram, touched, f, p);
      }
    }

    /** The second pass, over all segments. */
    method LoadSegments(f: Image, segs: seq<Phdr>, ghost v: View, ghost good: bool)
      returns (r: Option<Result>, ghost v': View)
      requires Holds(v) && (good ==> Proper(segs, f))
      modifies vmm`mem, vmm`free, vmm.pmm, vmm.pmm.bitmap
      ensures Holds(v') && Refusal(v, v', ram, Touched(segs)) && (r.Some? ==> Stops(r.value))
      ensures r.None? ==> UsableUpTo(f, segs, |segs|)
      ensures good ==> r != Some(PageFault) && (r == Some(TableHit) ==> OnTable(v'.pages, v'.tables, Touched(segs)))
      ensures good && r.None? ==> AllHeld(segs, v'.pages, v'.tables, ram, Touched(segs), v'.phys, f, |segs|)
    {
      r, v' := None, v;
      var i := 0;
      while i < |segs|
        invariant i <= |segs| && r == None && Holds(v') && Refusal(v, v', ram, Touched(segs))
        invariant UsableUpTo(f, segs, i)
        invariant good ==> AllHeld(segs, v'.pages, v'.tables, ram, Touched(segs), v'.phys, f, i)
      {
        if Loadable(segs[i]) {
          ghost var v1 := v';
          TouchedCovers(segs, i);
          r, v' := LoadSegment(f, segs[i], Touched(segs), v1, good);
          RefusalAgain(v, v1, v', ram, Touched(segs));
          if r.Some? {
            return;
          }
          if good {
            AnotherHeld(segs, v1.pages, v1.tables, v1.phys, v'.pages, v'.tables, v'.phys, ram, f, i);
          }
        } else if good {
          SkippedHeld(segs, v'.pages, v'.tables, ram, v'.phys, f, i);
        }
        UsableMore(f, segs, i);
        i := i + 1;
      }
    }

    /** elf64_load. With sound segments that do not overlap it never faults, and stores into a page table only
        if a touched page is on one. If in the end the touched pages are on frames of their own that hold no
        table, every byte of every segment reads back through the page tables; and they are if they were
        settled to begin with. */
    method Load(f: Image, ghost v: View) returns (r: Result, ghost v': View)
      requires Holds(v) && |f.bytes| < TWO_64
      modifies vmm`mem, vmm`free, vmm.pmm, vmm.pmm.bitmap
      ensures Holds(v') && Refusal(v, v', ram, Touched(Phdrs(f)))
      ensures HeaderError(f).Some? ==> r == Refused(HeaderError(f).value) && v' == v
      ensures r.Refused? ==> HeaderError(f) == Some(r.error) || r.error == NoSegments || r.error == MapFailed
      ensures HeaderError(f).None? && HeadersReadable(f) ==> (r == Refused(NoSegments) <==> NothingToLoad(Phdrs(f)))
      ensures r.Loaded? ==>
                HeaderError(f).None? && r.entry == Entry(f) && r.size == WrapSub(r.max, r.base) &&
                IsBounds(Phdrs(f), r.base, r.max)
      ensures r.Loaded? ==>
                HeadersReadable(f) &&
                forall i :: 0 <= i < PhNum(f) && Loadable(Phdrs(f)[i]) ==> AllUsable(f, Phdrs(f)[i])
      ensures HeadersReadable(f) && Proper(Phdrs(f), f) ==> r != PageFault
      ensures Proper(Phdrs(f), f) && r == TableHit ==> OnTable(v'.pages, v'.tables, Touched(Phdrs(f)))
      ensures Proper(Phdrs(f), f) && r.Loaded? && Apart(v'.pages, v'.tables, ram, Touched(Phdrs(f))) ==>
                AllInPlace(vmm.mem, vmm.root, f, Phdrs(f))
    {
      v' := v;
      var error := HeaderError(f);
      if error.Some? {
        r := Refused(error.value);
        return;
      }
      if !HeadersReadable(f) {
        r := PageFault;
        return;
      }
      var segs := Phdrs(f);
      var base, max := Bounds(segs);
      if base == TWO_64 - 1 {
        r := Refused(NoSegments);
        return;
      }
      ghost var good := Proper(segs, f);
      var stop;
      stop, v' := LoadSegments(f, segs, v, good);
      if stop.Some? {
        r := stop.value;
        return;
      }
      r := Loaded(Entry(f), base, max, WrapSub(max, base));
      if good && Apart(v'.pages, v'.tables, ram, Touched(segs)) {
        HeldApart(v'.pages, v'.tables, ram, v'.phys, f, segs);
        ShownIsView(vmm.mem, vmm.root, ram, vmm.free, v');
        PeeksReadBack(vmm.mem, vmm.root, ram, f, segs);
      }
    }
  }
}
