/**
 The address space a program is loaded into: a partial map from virtual pages to frames, and the bytes of
 frames. Frames that hold page tables are told apart, because storing into one is not storing data.
 */
module AddressSpace {
  import opened Words

  const TWO_36: nat := 0x10_0000_0000
  const TWO_47: nat := 0x8000_0000_0000

  /** A translation with its effective rights; `visible` is what vmm_is_mapped sees, which is 4 KB
      pages only. */
  datatype Page = Page(frame: nat, write: bool, user: bool, visible: bool)

  type Pages = map<nat, Page>
  type Memory = map<(nat, nat), Byte>

  /** The page number that a walk looks at: bits 12-47. */
  function Key(q: nat): nat
  {
    q % TWO_36
  }

  function PageOf(va: nat): nat
  {
    Key(va / PAGE)
  }

  function OffsetOf(va: nat): nat
  {
    va % PAGE
  }

  /** Bits 48-63 repeat bit 47; the processor faults on any other address. */
  predicate Canonical(va: nat)
  {
    va < TWO_47 || TWO_64 - TWO_47 <= va < TWO_64
  }

  /** Canonical addresses are told apart by page number and offset. */
  lemma {:induction false} CanonicalApart(va: nat, va': nat)
    requires Canonical(va) && Canonical(va') && PageOf(va) == PageOf(va') && OffsetOf(va) == OffsetOf(va')
    ensures va == va'
  {
    CanonicalPage(va);
    CanonicalPage(va');
  }

  lemma {:induction false} CanonicalPage(va: nat)
    requires Canonical(va)
    ensures va / PAGE == if va < TWO_47 then PageOf(va) else PageOf(va) + TWO_64 / PAGE - TWO_36
  {
  }

  predicate Mapped(pages: Pages, q: nat)
  {
    q in pages && pages[q].visible
  }

  function Cell(pages: Pages, va: nat): (nat, nat)
    requires PageOf(va) in pages
  {
    (pages[PageOf(va)].frame, OffsetOf(va))
  }

  /** The byte at a virtual address. */
  function Peek(pages: Pages, phys: Memory, va: nat): Byte
    requires PageOf(va) in pages
  {
    if Cell(pages, va) in phys then phys[Cell(pages, va)] else 0
  }

  /** Address va is in memory and reads b. */
  ghost predicate PeeksAt(pages: Pages, phys: Memory, ram: set<nat>, va: nat, b: Byte)
  {
    PageOf(va) in pages && pages[PageOf(va)].frame in ram && Peek(pages, phys, va) == b
  }

  /** Memory after a byte store; a frame outside `ram` keeps nothing. */
  ghost function Poke(pages: Pages, phys: Memory, ram: set<nat>, va: nat, b: Byte): Memory
    requires PageOf(va) in pages
  {
    if pages[PageOf(va)].frame in ram then phys[Cell(pages, va) := b] else phys
  }

  // ---------------------------------------------------------------- pages that cannot hold their bytes

  ghost predicate Shares(pages: Pages, touched: set<nat>, q: nat, r: nat)
  {
    q != r && r in touched && q in pages && Mapped(pages, r) && pages[q].frame == pages[r].frame
  }

  /** The page's frame holds a page table, is no memory, or is another touched page's as well. */
  ghost predicate Spoiled(pages: Pages, tables: set<nat>, ram: set<nat>, touched: set<nat>, q: nat)
    requires q in pages
  {
    pages[q].frame in tables || pages[q].frame !in ram || exists r :: Shares(pages, touched, q, r)
  }

  /** Touched pages are in memory, on frames of their own that hold no table. */
  ghost predicate Apart(pages: Pages, tables: set<nat>, ram: set<nat>, touched: set<nat>)
  {
    && (forall q :: q in touched && Mapped(pages, q) ==> pages[q].frame in ram && pages[q].frame !in tables)
    && (forall q, r :: q in touched && Mapped(pages, q) ==> !Shares(pages, touched, q, r))
  }

  /** The same, ahead of time: whatever translates on a touched page is out of the frame allocator's reach too. */
  ghost predicate Settled(pages: Pages, free: set<nat>, tables: set<nat>, ram: set<nat>, touched: set<nat>)
  {
    && (forall q :: q in touched && q in pages ==>
          pages[q].frame in ram && pages[q].frame !in tables && pages[q].frame !in free)
    && (forall q, r :: q in touched && r in touched && q in pages && r in pages && q != r ==>
          pages[q].frame != pages[r].frame)
  }

  lemma {:induction false} SettledApart(
    pages: Pages, free: set<nat>, tables: set<nat>, ram: set<nat>, touched: set<nat>)
    requires Settled(pages, free, tables, ram, touched)
    ensures Apart(pages, tables, ram, touched)
  {
  }

  /** Mappings that were there are there, and tables stay tables. */
  ghost predicate Later(pages0: Pages, tables0: set<nat>, pages: Pages, tables: set<nat>)
  {
    tables0 <= tables && forall q :: Mapped(pages0, q) ==> Mapped(pages, q) && pages[q] == pages0[q]
  }

  lemma {:induction false} StaysSpoiled(
    pages0: Pages, tables0: set<nat>, pages: Pages, tables: set<nat>, ram: set<nat>, touched: set<nat>, q: nat)
    requires Later(pages0, tables0, pages, tables) && Mapped(pages0, q) && Spoiled(pages0, tables0, ram, touched, q)
    ensures Spoiled(pages, tables, ram, touched, q)
  {
    if r :| Shares(pages0, touched, q, r) {
      assert Shares(pages, touched, q, r);
    }
  }

  // ---------------------------------------------------------------- stores

  /** An address on a touched page that is mapped. */
  ghost predicate Reach(pages: Pages, touched: set<nat>, va: nat)
  {
    Canonical(va) && PageOf(va) in touched && Mapped(pages, PageOf(va))
  }

  /** What a byte store does to the pages that can hold their bytes. */
  lemma {:induction false} StoreChanges(
    pages: Pages, tables: set<nat>, ram: set<nat>, phys: Memory, touched: set<nat>, va: nat, b: Byte, x: nat)
    requires Reach(pages, touched, va) && Reach(pages, touched, x) && !Spoiled(pages, tables, ram, touched, PageOf(x))
    ensures Peek(pages, Poke(pages, phys, ram, va, b), x) == if x == va then b else Peek(pages, phys, x)
  {
    assert !Shares(pages, touched, PageOf(x), PageOf(va));
    if PageOf(x) == PageOf(va) && OffsetOf(x) == OffsetOf(va) {
      CanonicalApart(x, va);
    }
  }

  // ---------------------------------------------------------------- mapping

  /** Addresses that were reachable still are, through the same translation, and read the same unless
      their page has been spoiled. */
  ghost predicate BytesKept(
    pages0: Pages, phys0: Memory, pages: Pages, tables: set<nat>, ram: set<nat>, phys: Memory, touched: set<nat>)
  {
    forall va: nat :: Reach(pages0, touched, va) ==> ByteKept(pages0, phys0, pages, tables, ram, phys, touched, va)
  }

  ghost predicate ByteKept(
    pages0: Pages, phys0: Memory, pages: Pages, tables: set<nat>, ram: set<nat>, phys: Memory, touched: set<nat>,
    va: nat)
  {
    && Mapped(pages0, PageOf(va)) && Mapped(pages, PageOf(va))
    && (Peek(pages, phys, va) == Peek(pages0, phys0, va) || Spoiled(pages, tables, ram, touched, PageOf(va)))
  }

  lemma {:induction false} BytesKeptAgain(
    a: Pages, am: Memory, b: Pages, bt: set<nat>, bm: Memory, c: Pages, ct: set<nat>, cm: Memory, ram: set<nat>,
    touched: set<nat>)
    requires Later(b, bt, c, ct)
    requires BytesKept(a, am, b, bt, ram, bm, touched) && BytesKept(b, bm, c, ct, ram, cm, touched)
    ensures BytesKept(a, am, c, ct, ram, cm, touched)
  {
    forall va: nat | Reach(a, touched, va) ensures ByteKept(a, am, c, ct, ram, cm, touched, va) {
      assert ByteKept(a, am, b, bt, ram, bm, touched, va);
      assert Reach(b, touched, va);
      assert ByteKept(b, bm, c, ct, ram, cm, touched, va);
      if Spoiled(b, bt, ram, touched, PageOf(va)) {
        StaysSpoiled(b, bt, c, ct, ram, touched, PageOf(va));
      }
    }
  }

  /** What vmm_alloc_map does besides mapping its page: only tables and frame g are written, and splitting
      a large page makes pages visible but moves nothing. */
  ghost predicate Grows(
    pages0: Pages, tables0: set<nat>, phys0: Memory, pages: Pages, tables: set<nat>, phys: Memory, g: nat)
  {
    && tables0 <= tables && pages.Keys == pages0.Keys
    && (forall q :: q in pages0 ==> SeenStill(pages0[q], pages[q]))
    && (forall c: (nat, nat) :: c.0 !in tables && c.0 != g ==> (c in phys <==> c in phys0))
    && (forall c: (nat, nat) :: c.0 !in tables && c.0 != g && c in phys ==> phys[c] == phys0[c])
  }

  ghost predicate SeenStill(was: Page, now: Page)
  {
    now == was.(visible := now.visible) && (was.visible ==> now.visible)
  }

  /** A page that was not mapped gets frame g. Whoever had the frame before is spoiled by it. */
  lemma {:induction false} MappingKeeps(
    pages0: Pages, tables0: set<nat>, phys0: Memory, grown: Pages, tables: set<nat>, phys: Memory, ram: set<nat>,
    touched: set<nat>, q: nat, page: Page)
    requires Grows(pages0, tables0, phys0, grown, tables, phys, page.frame) && !Mapped(pages0, q) && page.visible
    requires q in touched
    ensures Later(pages0, tables0, grown[q := page], tables)
    ensures BytesKept(pages0, phys0, grown[q := page], tables, ram, phys, touched)
  {
    var pages := grown[q := page];
    forall x | Mapped(pages0, x) ensures Mapped(pages, x) && pages[x] == pages0[x] {
      assert SeenStill(pages0[x], grown[x]);
    }
    forall va: nat | Reach(pages0, touched, va) ensures ByteKept(pages0, phys0, pages, tables, ram, phys, touched, va) {
      if pages0[PageOf(va)].frame == page.frame {
        assert Shares(pages, touched, PageOf(va), q);
      }
    }
  }

  /** Frames that the allocator hands out keep settled pages settled. */
  lemma {:induction false} MappingSettles(
    pages0: Pages, tables0: set<nat>, phys0: Memory, free0: set<nat>, grown: Pages, tables: set<nat>, phys: Memory,
    free: set<nat>, ram: set<nat>, touched: set<nat>, q: nat, page: Page)
    requires Settled(pages0, free0, tables0, ram, touched)
    requires Grows(pages0, tables0, phys0, grown, tables, phys, page.frame)
    requires free <= free0 && tables <= tables0 + (free0 - free) && free0 <= ram
    requires page.frame in free0 && page.frame !in free && page.frame !in tables
    ensures Settled(grown[q := page], free, tables, ram, touched)
  {
    assert forall x :: x in pages0 ==> SeenStill(pages0[x], grown[x]);
  }

  lemma {:induction false} GrowingSettles(
    pages0: Pages, tables0: set<nat>, phys0: Memory, free0: set<nat>, grown: Pages, tables: set<nat>, phys: Memory,
    free: set<nat>, ram: set<nat>, touched: set<nat>, g: nat)
    requires Settled(pages0, free0, tables0, ram, touched) && Grows(pages0, tables0, phys0, grown, tables, phys, g)
    requires free <= free0 && tables <= tables0 + (free0 - free)
    ensures Settled(grown, free, tables, ram, touched)
  {
    assert forall x :: x in pages0 ==> SeenStill(pages0[x], grown[x]);
  }

  // ---------------------------------------------------------------- progress of a load

  /** An address space with the frames that the allocator still has. */
  datatype View = View(pages: Pages, tables: set<nat>, phys: Memory, free: set<nat>)

  /** Mapping more pages: what was mapped stays, bytes are kept, and settled pages stay settled. */
  ghost predicate Progress(v0: View, v: View, ram: set<nat>, touched: set<nat>)
  {
    && v.free <= v0.free && Later(v0.pages, v0.tables, v.pages, v.tables)
    && BytesKept(v0.pages, v0.phys, v.pages, v.tables, ram, v.phys, touched)
    && (Settled(v0.pages, v0.free, v0.tables, ram, touched) ==> Settled(v.pages, v.free, v.tables, ram, touched))
  }

  lemma {:induction false} NoProgress(v: View, ram: set<nat>, touched: set<nat>)
    ensures Progress(v, v, ram, touched)
  {
  }

  lemma {:induction false} ProgressAgain(a: View, b: View, c: View, ram: set<nat>, touched: set<nat>)
    requires Progress(a, b, ram, touched) && Progress(b, c, ram, touched)
    ensures Progress(a, c, ram, touched)
  {
    BytesKeptAgain(a.pages, a.phys, b.pages, b.tables, b.phys, c.pages, c.tables, c.phys, ram, touched);
  }

  /** Other pages translate as before. */
  ghost predicate OthersSeen(pages0: Pages, pages: Pages, n: nat)
  {
    forall k :: k != n ==> (k in pages <==> k in pages0) && (k in pages0 ==> SeenStill(pages0[k], pages[k]))
  }

  /** A page that was not mapped is mapped to a frame from the allocator. */
  lemma {:induction false} MappingProgress(
    v0: View, v: View, grown: Pages, ram: set<nat>, touched: set<nat>, q: nat, page: Page)
    requires Grows(v0.pages, v0.tables, v0.phys, grown, v.tables, v.phys, page.frame) && v.pages == grown[q := page]
    requires !Mapped(v0.pages, q) && page.visible && q in touched
    requires v.free <= v0.free && v.tables <= v0.tables + (v0.free - v.free) && v0.free <= ram
    requires page.frame in v0.free && page.frame !in v.free && page.frame !in v.tables
    ensures Progress(v0, v, ram, touched) && OthersSeen(v0.pages, v.pages, q)
  {
    MappingKeeps(v0.pages, v0.tables, v0.phys, grown, v.tables, v.phys, ram, touched, q, page);
    if Settled(v0.pages, v0.free, v0.tables, ram, touched) {
      MappingSettles(v0.pages, v0.tables, v0.phys, v0.free, grown, v.tables, v.phys, v.free, ram, touched, q, page);
    }
  }

  /** What holds even after a refusal. */
  ghost predicate Refusal(v0: View, v: View, ram: set<nat>, touched: set<nat>)
  {
    && v.free <= v0.free && Later(v0.pages, v0.tables, v.pages, v.tables)
    && (Settled(v0.pages, v0.free, v0.tables, ram, touched) ==> Settled(v.pages, v.free, v.tables, ram, touched))
  }

  lemma {:induction false} RefusalAgain(a: View, b: View, c: View, ram: set<nat>, touched: set<nat>)
    requires Refusal(a, b, ram, touched) && Refusal(b, c, ram, touched)
    ensures Refusal(a, c, ram, touched)
  {
  }

  lemma {:induction false} RefusalKeeps(v0: View, v: View, ram: set<nat>, touched: set<nat>, g: nat)
    requires Grows(v0.pages, v0.tables, v0.phys, v.pages, v.tables, v.phys, g)
    requires v.free <= v0.free && v.tables <= v0.tables + (v0.free - v.free)
    ensures Refusal(v0, v, ram, touched)
  {
    forall x | Mapped(v0.pages, x) ensures Mapped(v.pages, x) && v.pages[x] == v0.pages[x] {
      assert SeenStill(v0.pages[x], v.pages[x]);
    }
    if Settled(v0.pages, v0.free, v0.tables, ram, touched) {
      GrowingSettles(v0.pages, v0.tables, v0.phys, v0.free, v.pages, v.tables, v.phys, v.free, ram, touched, g);
    }
  }

  // ---------------------------------------------------------------- why frames must not be shared

  /** Some memory shows the wanted bytes at these addresses. */
  ghost predicate Shows(pages: Pages, phys: Memory, want: map<nat, Byte>)
  {
    forall va: nat :: va in want ==> PageOf(va) in pages && Peek(pages, phys, va) == want[va]
  }

  ghost predicate CanShow(pages: Pages, want: map<nat, Byte>)
  {
    exists phys :: Shows(pages, phys, want)
  }

  ghost predicate SameCell(pages: Pages, va: nat, x: nat)
    requires PageOf(va) in pages && PageOf(x) in pages
  {
    va != x && Cell(pages, va) == Cell(pages, x)
  }

  /** A range of addresses can hold every program if and only if no two of them share a byte of memory. */
  lemma {:induction false} HoldsEveryProgram(pages: Pages, addrs: set<nat>)
    requires forall va :: va in addrs ==> PageOf(va) in pages
    ensures (forall want: map<nat, Byte> :: want.Keys == addrs ==> CanShow(pages, want)) <==>
            forall va, x :: va in addrs && x in addrs ==> !SameCell(pages, va, x)
  {
    if va, x :| va in addrs && x in addrs && SameCell(pages, va, x) {
      var want: map<nat, Byte> := map a | a in addrs :: if a == va then 1 else 0;
      assert want.Keys == addrs && !CanShow(pages, want);
    } else {
      forall want: map<nat, Byte> | want.Keys == addrs ensures CanShow(pages, want) {
        var phys := Fill(pages, want, addrs);
        assert Shows(pages, phys, want);
      }
    }
  }

  lemma {:induction false} Fill(pages: Pages, want: map<nat, Byte>, addrs: set<nat>) returns (phys: Memory)
    requires addrs <= want.Keys && forall va :: va in addrs ==> PageOf(va) in pages
    requires forall va, x :: va in addrs && x in addrs ==> !SameCell(pages, va, x)
    ensures forall va :: va in addrs ==> Peek(pages, phys, va) == want[va]
    decreases |addrs|
  {
    phys := map[];
    if addrs != {} {
      var a :| a in addrs;
      var rest := Fill(pages, want, addrs - {a});
      phys := rest[Cell(pages, a) := want[a]];
      forall va | va in addrs ensures Peek(pages, phys, va) == want[va] {
        assert !SameCell(pages, a, va);
        assert va != a ==> va in addrs - {a};
      }
    }
  }
}
