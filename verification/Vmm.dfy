/**
 The virtual memory manager (kernel/InitKernel/vmm.c) over the frame allocator. Table frames
 are reached by their physical address, as the source does through its identity map; the last
 section proves when that map covers every table.
 */
module VirtualMemory {
  import opened Words
  import opened Collections
  import opened PageTables
  import Pmm

  const KERN_RW_CD: nat := 27
  const MMIO_BASE: Word := 0xFFFF_FFFF_C000_0000
  const HEAP_BASE: Word := 0xFFFF_FFFF_A000_0000
  const HEAP_SIZE: nat := 512 * 1024 * 1024

  /** The leaf entry vmm_map_page stores. */
  function LeafEntry(phys: Word, flags: Word): Word
  {
    MakeEntry((phys / PAGE) % TWO_40, flags % PAGE)
  }

  /** A device window: `size` bytes at virtual `base` showing physical `phys`. */
  datatype Window = Window(base: Word, phys: Word, size: nat)

  /** Pages a window of `size` bytes at physical address `phys` touches. */
  function WindowPages(phys: nat, size: nat): nat
  {
    (phys + size + PAGE - 1) / PAGE - phys / PAGE
  }

  /** No fewer pages would hold the window. */
  lemma {:induction false} WindowIsTight(phys: nat, size: nat)
    requires size > 0
    ensures (WindowPages(phys, size) - 1) * 4096 < phys % 4096 + size <= WindowPages(phys, size) * 4096
  {
  }

  /** Of an entry's low bits: present (0), writable (1), write-through (3) and not cached (4). */
  predicate ForDevice(flags: nat)
  {
    flags % 2 == 1 && flags / 2 % 2 == 1 && flags / 8 % 2 == 1 && flags / 16 % 2 == 1
  }

  ghost predicate AsDevice(m: Memory, root: nat, a: Word)
  {
    Translate(m, root, PathOf(a)).Some? && ForDevice(Translate(m, root, PathOf(a)).value.flags)
  }

  /** Address a shows the physical byte as far from `phys` as a is from `from`, writable and not cached. */
  ghost predicate ShowsAt(m: Memory, root: nat, from: nat, phys: nat, a: Word)
    requires from <= a
  {
    Reaches(m, root, a, phys + (a - from)) && AsDevice(m, root, a)
  }

  /** Bytes from..to show the physical bytes from `phys` on. */
  ghost predicate Shows(m: Memory, root: nat, from: nat, to: nat, phys: nat)
  {
    forall a: Word | from <= a < to :: ShowsAt(m, root, from, phys, a)
  }

  lemma {:induction false} MmioPagesDiffer(a: Word, b: Word)
    requires MMIO_BASE <= a && MMIO_BASE <= b
    ensures PathOf(a) == PathOf(b) <==> a / PAGE == b / PAGE
  {
    SamePath(a, b);
    TopPage(a / PAGE);
    TopPage(b / PAGE);
  }

  lemma {:induction false} TopPage(n: nat)
    requires 0xF_FFFF_FFFC_0000 <= n < 0x10_0000_0000_0000
    ensures n % TWO_36 == n - 0xF_FFF0_0000_0000
  {
  }

  /** One more page at the end of a window; everything shown before stays. */
  lemma {:induction false} ShowsOneMore(
    m: Memory, m': Memory, root: nat, free: set<nat>, free': set<nat>, from: nat, virt: Word, start: nat,
    phys: Word, flags: Word)
    requires WellFormed(m, root, free)
    requires Mapped(m, m', root, free, free', PathOf(virt), LeafEntry(phys, flags)) && ForDevice(flags) && flags < PAGE
    requires MMIO_BASE <= from <= virt && virt % PAGE == phys % PAGE == 0
    requires phys < TWO_40 * PAGE && phys == start + (virt - from)
    requires Shows(m, root, from, virt, start)
    ensures Shows(m', root, from, virt + PAGE, start)
  {
    forall a: Word | from <= a < virt + PAGE ensures ShowsAt(m', root, from, start, a) {
      if a < virt {
        assert ShowsAt(m, root, from, start, a);
        ReachesBelow(m, m', root, free, free', virt, LeafEntry(phys, flags), a, start + (a - from));
      } else {
        ReachesNew(m, m', root, free, free', virt, phys, flags, a);
      }
    }
  }

  lemma {:induction false} ReachesBelow(
    m: Memory, m': Memory, root: nat, free: set<nat>, free': set<nat>, virt: Word, w: Word, a: Word, phys: nat)
    requires WellFormed(m, root, free) && Mapped(m, m', root, free, free', PathOf(virt), w)
    requires MMIO_BASE <= a < virt && virt % PAGE == 0 && Reaches(m, root, a, phys) && AsDevice(m, root, a)
    ensures Reaches(m', root, a, phys) && AsDevice(m', root, a)
  {
    MmioPagesDiffer(a, virt);
    assert a / PAGE != virt / PAGE;
    assert SamePage(m, m', root, PathOf(a));
    ReachesKept(m, m', root, free, free', a, phys);
  }

  lemma {:induction false} ReachesNew(
    m: Memory, m': Memory, root: nat, free: set<nat>, free': set<nat>, virt: Word, phys: Word, flags: Word, a: Word)
    requires Mapped(m, m', root, free, free', PathOf(virt), LeafEntry(phys, flags)) && ForDevice(flags) && flags < PAGE
    requires MMIO_BASE <= virt <= a < virt + PAGE && virt % PAGE == 0 && phys % PAGE == 0 && phys < TWO_40 * PAGE
    ensures Reaches(m', root, a, phys + (a - virt)) && AsDevice(m', root, a)
  {
    MmioPagesDiffer(a, virt);
    LeafFields(phys, flags);
    ReachesMapped(m, m', root, free, free', a, LeafEntry(phys, flags));
  }

  /** What lies wholly below the mapped page keeps showing. */
  lemma {:induction false} ShowsKept(
    m: Memory, m': Memory, root: nat, free: set<nat>, free': set<nat>, virt: Word, w: Word, from: nat, to: nat,
    phys: nat)
    requires WellFormed(m, root, free) && Mapped(m, m', root, free, free', PathOf(virt), w)
    requires MMIO_BASE <= from && to <= virt && virt % PAGE == 0 && Shows(m, root, from, to, phys)
    ensures Shows(m', root, from, to, phys)
  {
    forall a: Word | from <= a < to ensures ShowsAt(m', root, from, phys, a) {
      assert ShowsAt(m, root, from, phys, a);
      ReachesBelow(m, m', root, free, free', virt, w, a, phys + (a - from));
    }
  }

  /** A failed mapping keeps everything shown. */
  lemma {:induction false} ShowsBuilt(
    m: Memory, m': Memory, root: nat, free: set<nat>, free': set<nat>, from: nat, to: nat, phys: nat)
    requires WellFormed(m, root, free) && Builds(m, m', root, free, free') && Shows(m, root, from, to, phys)
    ensures Shows(m', root, from, to, phys)
  {
    forall a: Word | from <= a < to ensures ShowsAt(m', root, from, phys, a) {
      assert ShowsAt(m, root, from, phys, a);
      assert SamePage(m, m', root, PathOf(a));
      ReachesKept(m, m', root, free, free', a, phys + (a - from));
    }
  }

  lemma {:induction false} LeafFields(phys: Word, flags: Word)
    requires phys < TWO_40 * PAGE && phys % PAGE == 0 && flags % 2 == 1
    ensures Present(LeafEntry(phys, flags)) && FrameOf(LeafEntry(phys, flags)) * PAGE == phys
    ensures flags < PAGE ==> Flags(LeafEntry(phys, flags)) == flags
  {
  }

  lemma {:induction false} LeafEntryOfFrame(f: nat, flags: Word)
    requires f < TWO_40
    ensures LeafEntry(f * PAGE, flags) == MakeEntry(f, flags % PAGE)
  {
  }

  // ---------------------------------------------------------------- the initial identity map

  const BOOT_PDPT: nat := 0x71

  function SetUser(e: Word): Word
  {
    if User(e) then e else e + 4
  }

  function IdentityEntry(gb: nat, i: nat): Word
    requires gb < 4 && i < ENTRIES
  {
    MakeEntry(gb * 0x4_0000 + i * 512, 0x87)
  }

  function IdentityTable(gb: nat): (t: seq<Word>)
    requires gb < 4
    ensures |t| == ENTRIES
  {
    seq(ENTRIES, i requires 0 <= i < ENTRIES => IdentityEntry(gb, i))
  }

  /** The path runs into one of the first n gigabytes. */
  predicate InLow(q: seq<nat>, n: nat)
  {
    |q| >= 2 && q[0] == 0 && q[1] < n
  }

  /** The first n gigabytes have their 2MB entries; all other entries are as in m0, except that
      PML4[0] is user accessible. */
  ghost predicate IdentityBuilt(m0: Memory, m: Memory, root: nat, n: nat)
    requires n <= 4
  {
    && root in m0 && EntryAt(m, root, [0]) == SetUser(m0[root][0])
    && (forall gb :: 0 <= gb < n ==> Flags(EntryAt(m, root, [0, gb])) == 7)
    && (forall gb, i :: 0 <= gb < n && 0 <= i < ENTRIES ==> EntryAt(m, root, [0, gb, i]) == IdentityEntry(gb, i))
    && (forall q :: 1 <= |q| <= 4 && q != [0] && !InLow(q, n) ==> EntryAt(m, root, q) == EntryAt(m0, root, q))
  }

  lemma {:induction false} SetUserFields(e: Word)
    ensures User(SetUser(e)) && Present(SetUser(e)) == Present(e) && Writable(SetUser(e)) == Writable(e)
    ensures FrameOf(SetUser(e)) == FrameOf(e)
  {
    if !User(e) {
      assert (e + 4) / 4 == e / 4 + 1;
      assert (e + 4) / 2 == e / 2 + 2;
      assert (e + 4) / PAGE == e / PAGE;
    }
  }

  lemma {:induction false} RootMadeUserTables(m: Memory, m': Memory, root: nat, free: set<nat>, q: seq<nat>)
    requires WellFormed(m, root, free) && TableAt(m, root, [0]).Some?
    requires root in m && m' == m[root := m[root][0 := SetUser(m[root][0])]]
    requires 1 <= |q| <= 4
    ensures EntryAt(m', root, q) == if q == [0] then SetUser(m[root][0]) else EntryAt(m, root, q)
    ensures TableAt(m', root, q) == TableAt(m, root, q)
    decreases |q|
  {
    var n := |q| - 1;
    if n > 0 {
      RootMadeUserTables(m, m', root, free, q[..n]);
      assert TableAt(m, root, []) == Some(root);
    } else {
      assert q == [q[0]] && q[..n] == [];
      SetUserFields(m[root][0]);
    }
  }

  lemma {:induction false} RootMadeUser(m: Memory, root: nat, free: set<nat>)
    requires WellFormed(m, root, free) && TableAt(m, root, [0]).Some? && root in m
    ensures WellFormed(m[root := m[root][0 := SetUser(m[root][0])]], root, free)
    ensures TableAt(m[root := m[root][0 := SetUser(m[root][0])]], root, [0]) == TableAt(m, root, [0])
    ensures IdentityBuilt(m, m[root := m[root][0 := SetUser(m[root][0])]], root, 0)
  {
    var m' := m[root := m[root][0 := SetUser(m[root][0])]];
    forall q | 1 <= |q| <= 4
      ensures EntryAt(m', root, q) == if q == [0] then SetUser(m[root][0]) else EntryAt(m, root, q)
      ensures TableAt(m', root, q) == TableAt(m, root, q)
    {
      RootMadeUserTables(m, m', root, free, q);
    }
    assert forall q :: |q| <= 3 ==> TableAt(m', root, q) == TableAt(m, root, q);
    SameTablesWellFormed(m, m', root, free);
  }

  lemma {:induction false} IdentityFields(gb: nat, i: nat)
    requires gb < 4 && i < ENTRIES
    ensures var e := IdentityEntry(gb, i);
            Present(e) && Large(e) && Writable(e) && User(e) && Flags(e) == 0x87 &&
            FrameOf(e) / 512 * 512 == gb * 0x4_0000 + i * 512
  {
    EntryFields(gb * 0x4_0000 + i * 512, 0x87);
  }

  lemma {:induction false} IdentityCanGraft(m: Memory, root: nat, free: set<nat>, gb: nat, g: nat)
    requires WellFormed(m, root, free) && g in free && gb < 4 && TableAt(m, root, [0]).Some?
    ensures CanGraft(m, root, free, [0], gb, g, IdentityTable(gb), 7)
    ensures forall j :: 0 <= j < ENTRIES ==> Present(IdentityTable(gb)[j])
  {
    forall j | 0 <= j < ENTRIES ensures Present(IdentityTable(gb)[j]) && !Directs(IdentityTable(gb)[j], 3) {
      IdentityFields(gb, j);
    }
  }

  lemma {:induction false} IdentityStepBuilt(m0: Memory, m: Memory, root: nat, free: set<nat>, gb: nat, g: nat)
    requires WellFormed(m, root, free) && g in free && gb < 4
    requires TableAt(m, root, [0]) == Some(BOOT_PDPT) && IdentityBuilt(m0, m, root, gb)
    ensures WellFormed(Graft(m, BOOT_PDPT, gb, g, IdentityTable(gb), 7), root, free - {g})
    ensures TableAt(Graft(m, BOOT_PDPT, gb, g, IdentityTable(gb), 7), root, [0]) == Some(BOOT_PDPT)
    ensures IdentityBuilt(m0, Graft(m, BOOT_PDPT, gb, g, IdentityTable(gb), 7), root, gb + 1)
  {
    var m' := Graft(m, BOOT_PDPT, gb, g, IdentityTable(gb), 7);
    IdentityCanGraft(m, root, free, gb, g);
    GraftWellFormed(m, root, free, [0], gb, g, IdentityTable(gb), 7);
    GraftTables(m, root, free, [0], gb, g, IdentityTable(gb), 7, [0]);
    forall q | 1 <= |q| <= 4 ensures EntryAt(m', root, q) == NewEntry(m, root, gb, g, q) {
      GraftEntries(m, root, free, [0], gb, g, IdentityTable(gb), 7, q);
      assert [0] + [gb] == [0, gb];
    }
    IdentityStepEntries(m0, m, m', root, gb, g);
  }

  /** The entry at q once frame g holds the 2MB entries of gigabyte gb. */
  function NewEntry(m: Memory, root: nat, gb: nat, g: nat, q: seq<nat>): Word
    requires 1 <= |q| && gb < 4 && g < TWO_40
  {
    if q == [0, gb] then MakeEntry(g, 7)
    else if [0, gb] <= q then
      if |q| == 3 && q[2] < ENTRIES then IdentityTable(gb)[q[2]] else 0
    else EntryAt(m, root, q)
  }

  lemma {:induction false} IdentityStepEntries(m0: Memory, m: Memory, m': Memory, root: nat, gb: nat, g: nat)
    requires gb < 4 && g < TWO_40 && IdentityBuilt(m0, m, root, gb)
    requires forall q :: 1 <= |q| <= 4 ==> EntryAt(m', root, q) == NewEntry(m, root, gb, g, q)
    ensures IdentityBuilt(m0, m', root, gb + 1)
  {
    EntryFields(g, 7);
    forall k, i | 0 <= k < gb + 1 && 0 <= i < ENTRIES
      ensures EntryAt(m', root, [0, k, i]) == IdentityEntry(k, i) && Flags(EntryAt(m', root, [0, k])) == 7
    {
      assert [0, gb] <= [0, k, i] <==> k == gb;
      assert [0, gb] <= [0, k] <==> k == gb;
    }
    forall q | 1 <= |q| <= 4 && q != [0] && !InLow(q, gb + 1)
      ensures EntryAt(m', root, q) == EntryAt(m0, root, q)
    {
      assert !InLow(q, gb) && !([0, gb] <= q);
    }
  }

  /** Every page below 4GB translates to the frame of the same number, readable by user code. */
  lemma {:induction false} LowPagesAreIdentity(m0: Memory, m: Memory, root: nat, f: nat)
    requires IdentityBuilt(m0, m, root, 4) && Present(m0[root][0]) && f < 0x10_0000
    ensures IdentityMapped(m, root, f)
    ensures Translate(m, root, IdentityPage(f)) == Some(Mapping(f, Writable(m0[root][0]), true, 0x87))
  {
    var p := IdentityPage(f);
    var gb, i := f / 0x4_0000, (f / 512) % 512;
    LowPath(f);
    assert p[..1] == [0] && p[..2] == [0, gb] && p[..3] == [0, gb, i];
    SetUserFields(m0[root][0]);
    IdentityWalk(EntryAt(m, root, [0]), EntryAt(m, root, [0, gb]), EntryAt(m, root, p), f);
  }

  /** After initialisation every table, and every frame that can become one, is identity-mapped:
      the starting point TablesStayIdentityMapped asks for. */
  lemma {:induction false} InitStartsIdentityMapped(m0: Memory, m: Memory, root: nat, free: set<nat>)
    requires WellFormed(m, root, free) && (forall f :: f in m ==> f < 0x10_0000)
    requires IdentityBuilt(m0, m, root, 4) && Present(m0[root][0])
    ensures StartsIdentityMapped(Snapshot(m, free), root)
  {
    forall g | IsTable(m, root, g) || g in free ensures IdentityMapped(m, root, g) {
      LowPagesAreIdentity(m0, m, root, g);
    }
  }

  lemma {:induction false} IdentityWalk(e1: Word, e2: Word, e4: Word, f: nat)
    requires f < 0x10_0000 && Present(e1) && User(e1) && Flags(e2) == 7
    ensures Walk(e1, e2, IdentityEntry(f / 0x4_0000, (f / 512) % 512), e4, (f / 512) % 512, f % 512) ==
            Some(Mapping(f, Writable(e1), true, 0x87))
  {
    FlagFields(e2);
    IdentityFields(f / 0x4_0000, (f / 512) % 512);
    assert f / 0x4_0000 == f / 512 / 512;
  }

  lemma {:induction false} LowPath(f: nat)
    requires f < 0x10_0000
    ensures IdentityPage(f) == [0, f / 0x4_0000, (f / 512) % 512, f % 512]
  {
    NineDigits(f);
    LowDigits(f);
    assert f % TWO_40 == f && f * PAGE / PAGE == f;
  }

  lemma {:induction false} LowDigits(f: nat)
    requires f < 0x10_0000
    ensures f / 512 / 512 / 512 % 512 == 0 && f / 512 / 512 % 512 == f / 0x4_0000
  {
    var a := f / 512 / 512;
    assert a < 4;
    assert a == f / 0x4_0000;
  }

  lemma {:induction false} PathSlots(virt: Word)
    ensures PathOf(virt)[..3][..2] == PathOf(virt)[..2]
    ensures PathOf(virt)[..2] + [PdIndex(virt)] == PathOf(virt)[..3]
  {
  }

  /** A table on the way shows that the entries above it are not large. */
  lemma {:induction false} NoLargeAbove(m: Memory, root: nat, p: seq<nat>)
    requires IsPath(p, 4)
    ensures TableAt(m, root, p[..2]).Some? ==> !Large(EntryAt(m, root, p[..2]))
    ensures TableAt(m, root, p[..3]).Some? ==>
              TableAt(m, root, p[..2]).Some? && !Large(EntryAt(m, root, p[..3]))
  {
    assert p[..3][..2] == p[..2];
    if TableAt(m, root, p[..3]).Some? {
      ParentTable(m, root, p[..3]);
    }
  }

  class Vmm {
    const pmm: Pmm.FrameAllocator
    const root: nat
    var mem: Memory
    var mmioNext: Word
    ghost var free: set<nat>  // the allocator's free frames
    ghost var windows: seq<Window>  // what vmm_map_mmio has returned so far

    ghost predicate Valid()
      reads this, pmm, pmm.bitmap
    {
      pmm.Valid() && free == pmm.free && WellFormed(mem, root, free)
    }

    /** Takes over the tables that CR3 designates. */
    constructor (pmm: Pmm.FrameAllocator, root: nat, mem: Memory)
      requires pmm.Valid()
      ensures this.pmm == pmm && this.root == root && this.mem == mem && mmioNext == MMIO_BASE
      ensures free == pmm.free && windows == []
    {
      this.pmm, this.root, this.mem, mmioNext := pmm, root, mem, MMIO_BASE;
      free := pmm.free;
      windows := [];
    }

    // -------------------------------------------------------------- frames

    /** A frame from the allocator, 0 when there is none. */
    method AllocFrame() returns (f: nat)
      requires Valid()
      modifies this`free, pmm, pmm.bitmap
      ensures pmm.Valid() && free == pmm.free
      ensures f == 0 <==> old(free) == {}
      ensures f == 0 ==> free == old(free)
      ensures f != 0 ==> f in old(free) && free == old(free) - {f}
      ensures f < TWO_40
      ensures |free| == |old(free)| - if f == 0 then 0 else 1
    {
      var addr := pmm.AllocPage();
      f := addr / PAGE;
      free := pmm.free;
    }

    method ClearPage(f: nat)
      requires f in mem
      modifies this`mem
      ensures mem == old(mem)[f := ZERO_TABLE]
    {
      for i := 0 to ENTRIES
        invariant f in mem && mem == old(mem)[f := mem[f]]
        invariant forall j :: 0 <= j < i ==> mem[f][j] == 0
      {
        mem := mem[f := mem[f][i := 0]];
      }
      assert mem[f] == ZERO_TABLE;
    }

    /** Hangs an empty table into the empty slot i of table f: the allocating half of
        get_pdpte, get_pd and get_pt. */
    method AddTable(f: nat, i: nat, ghost path: seq<nat>) returns (g: nat)
      requires Valid()
      requires |path| <= 2 && i < ENTRIES && TableAt(mem, root, path) == Some(f)
      requires !Present(mem[f][i])
      modifies this`mem, this`free, pmm, pmm.bitmap
      ensures Valid() && Builds(old(mem), mem, root, old(free), free)
      ensures g == 0 <==> old(free) == {}
      ensures g == 0 ==> mem == old(mem) && free == old(free)
      ensures g != 0 ==> |free| == |old(free)| - 1
      ensures g != 0 ==> f in mem && TableAt(mem, root, path + [i]) == Some(g) && FrameOf(mem[f][i]) == g
      ensures forall p, k :: IsPath(p, 4) && 1 <= k <= 3 && p[..k] != path + [i] ==>
                EntryAt(mem, root, p[..k]) == EntryAt(old(mem), root, p[..k])
    {
      g := AllocFrame();
      if g == 0 {
        BuildsNothing(mem, root, free);
        return;
      }
      ClearPage(g);
      mem := mem[f := mem[f][i := MakeEntry(g, 3)]];
      assert mem == Graft(old(mem), f, i, g, ZERO_TABLE, 3);
      LinkEffect(old(mem), root, old(free), path, i, g);
    }

    // -------------------------------------------------------------- the walk

    /** The PDPT of an address; 0 is NULL. */
    method GetPdpt(v: Word, alloc: bool) returns (r: nat)
      requires Valid()
      modifies this`mem, this`free, pmm, pmm.bitmap
      ensures Valid() && Builds(old(mem), mem, root, old(free), free)
      ensures !alloc ==> mem == old(mem) && free == old(free)
      ensures r == 0 <==> Missing(old(mem), root, PathOf(v)[..1]) > if alloc then |old(free)| else 0
      ensures r != 0 ==> TableAt(mem, root, PathOf(v)[..1]) == Some(r)
      ensures r != 0 ==> |free| == |old(free)| - Missing(old(mem), root, PathOf(v)[..1])
      ensures |free| >= |old(free)| - 1
      ensures EntryAt(mem, root, PathOf(v)[..2]) == EntryAt(old(mem), root, PathOf(v)[..2])
      ensures EntryAt(mem, root, PathOf(v)[..3]) == EntryAt(old(mem), root, PathOf(v)[..3])
    {
      var i := Pml4Index(v);
      ghost var p := PathOf(v);
      assert TableAt(mem, root, []) == Some(root);
      assert p[..1] == [i] && p[..1][..0] == [] && [] + [i] == [i];
      BuildsNothing(mem, root, free);
      var entry := mem[root][i];
      assert EntryAt(mem, root, p[..1]) == entry;
      if !Present(entry) {
        if !alloc {
          return 0;
        }
        var g := AddTable(root, i, []);
        if g == 0 {
          return 0;
        }
        entry := mem[root][i];
      }
      r := FrameOf(entry);
    }

    /** The PD of an address; NULL under a 1GB page. */
    method GetPd(v: Word, alloc: bool) returns (r: nat)
      requires Valid()
      modifies this`mem, this`free, pmm, pmm.bitmap
      ensures Valid() && Builds(old(mem), mem, root, old(free), free)
      ensures !alloc ==> mem == old(mem) && free == old(free)
      ensures r == 0 <==> Blocked(old(mem), root, PathOf(v)) ||
                          Missing(old(mem), root, PathOf(v)[..2]) > if alloc then |old(free)| else 0
      ensures r != 0 ==> TableAt(mem, root, PathOf(v)[..2]) == Some(r)
      ensures r != 0 ==> |free| == |old(free)| - Missing(old(mem), root, PathOf(v)[..2])
      ensures |free| >= |old(free)| - 2
      ensures Blocked(old(mem), root, PathOf(v)) ==> Blocked(mem, root, PathOf(v))
      ensures EntryAt(mem, root, PathOf(v)[..3]) == EntryAt(old(mem), root, PathOf(v)[..3])
    {
      ghost var p := PathOf(v);
      var pdpt := GetPdpt(v, alloc);
      assert p[..2][..1] == p[..1];
      if pdpt == 0 {
        return 0;
      }
      var i := PdptIndex(v);
      assert p[..1] + [i] == p[..2];
      var entry := mem[pdpt][i];
      assert EntryAt(mem, root, p[..2]) == entry;
      if Large(entry) {
        return 0;
      }
      if !Present(entry) {
        if !alloc {
          return 0;
        }
        ghost var m1, free1 := mem, free;
        var g := AddTable(pdpt, i, p[..1]);
        BuildsTrans(old(mem), m1, mem, root, old(free), free1, free);
        if g == 0 {
          return 0;
        }
        entry := mem[pdpt][i];
      }
      r := FrameOf(entry);
    }

    /** The PT of an address; NULL under a 1GB or 2MB page. */
    method GetPt(v: Word, alloc: bool) returns (r: nat)
      requires Valid()
      modifies this`mem, this`free, pmm, pmm.bitmap
      ensures Valid() && Builds(old(mem), mem, root, old(free), free)
      ensures !alloc ==> mem == old(mem) && free == old(free)
      ensures r == 0 <==> InLargePage(old(mem), root, PathOf(v)) ||
                          Missing(old(mem), root, PathOf(v)[..3]) > if alloc then |old(free)| else 0
      ensures r != 0 ==> TableAt(mem, root, PathOf(v)[..3]) == Some(r)
      ensures r != 0 ==> |free| == |old(free)| - Missing(old(mem), root, PathOf(v)[..3])
      ensures |free| >= |old(free)| - 3
    {
      ghost var p := PathOf(v);
      var pd := GetPd(v, alloc);
      assert p[..3][..2] == p[..2];
      if pd == 0 {
        return 0;
      }
      var i := PdIndex(v);
      assert p[..2] + [i] == p[..3];
      var entry := mem[pd][i];
      assert EntryAt(mem, root, p[..3]) == entry;
      if Large(entry) {
        return 0;
      }
      if !Present(entry) {
        if !alloc {
          return 0;
        }
        ghost var m1, free1 := mem, free;
        var g := AddTable(pd, i, p[..2]);
        BuildsTrans(old(mem), m1, mem, root, old(free), free1, free);
        if g == 0 {
          return 0;
        }
        entry := mem[pd][i];
      }
      r := FrameOf(entry);
    }

    // -------------------------------------------------------------- mapping

    method FillSplit(g: nat, pde: Word)
      requires g in mem
      modifies this`mem
      ensures mem == old(mem)[g := SplitTable(pde)]
    {
      for k := 0 to ENTRIES
        invariant g in mem && mem == old(mem)[g := mem[g]]
        invariant forall j :: 0 <= j < k ==> mem[g][j] == SplitEntry(pde, j)
      {
        mem := mem[g := mem[g][k := SplitEntry(pde, k)]];
      }
      assert mem[g] == SplitTable(pde);
    }

    /** Clears and fills frame g, then lets slot i of table f lead to it. */
    method WriteSplit(f: nat, i: nat, g: nat, pde: Word)
      requires f in mem && g in mem && f != g && i < ENTRIES && g < TWO_40
      modifies this`mem
      ensures mem == Split(old(mem), f, i, g, pde)
    {
      ClearPage(g);
      FillSplit(g, pde);
      mem := mem[f := mem[f][i := MakeEntry(g, SplitFlags(pde))]];
    }

    /** Replaces the 2MB entry in slot i of table f by a table of 512 4KB entries. */
    method SplitLargePage(f: nat, i: nat, pde: Word, ghost path: seq<nat>) returns (ok: bool)
      requires Valid()
      requires |path| == 2 && i < ENTRIES && TableAt(mem, root, path) == Some(f)
      requires mem[f][i] == pde && Large(pde) && Present(pde)
      modifies this`mem, this`free, pmm, pmm.bitmap
      ensures Valid() && Builds(old(mem), mem, root, old(free), free)
      ensures ok <==> old(free) != {}
      ensures !ok ==> mem == old(mem) && free == old(free)
      ensures ok ==> |free| == |old(free)| - 1
      ensures ok ==> TableAt(mem, root, path + [i]).Some?
      ensures TableAt(old(mem), root, path + [i]) == None
    {
      assert (path + [i])[..2] == path;
      var g := AllocFrame();
      if g == 0 {
        BuildsNothing(mem, root, free);
        return false;
      }
      WriteSplit(f, i, g, pde);
      SplitEffect(old(mem), root, old(free), path, i, g, pde);
      ok := true;
    }

    /** The second half of vmm_map_page: no large page is on the way any more. */
    method SetPage(phys: Word, virt: Word, flags: Word) returns (ok: bool)
      requires Valid()
      requires TableAt(mem, root, PathOf(virt)[..2]).Some?
      requires !InLargePage(mem, root, PathOf(virt))
      modifies this`mem, this`free, pmm, pmm.bitmap
      ensures Valid()
      ensures ok <==> (TableAt(old(mem), root, PathOf(virt)[..3]).Some? || old(free) != {})
      ensures ok ==> Mapped(old(mem), mem, root, old(free), free, PathOf(virt), LeafEntry(phys, flags))
      ensures |free| == |old(free)| - if ok && TableAt(old(mem), root, PathOf(virt)[..3]).None? then 1 else 0
      ensures !ok ==> Builds(old(mem), mem, root, old(free), free)
    {
      ghost var p := PathOf(virt);
      assert p[..3][..2] == p[..2];
      MissingNone(mem, root, p[..2]);
      var pt := GetPt(virt, true);
      if pt == 0 {
        return false;
      }
      ghost var m1 := mem;
      var ptIndex := PtIndex(virt);
      mem := mem[pt := mem[pt][ptIndex := LeafEntry(phys, flags)]];
      assert mem == SetLeaf(m1, pt, p[3], LeafEntry(phys, flags));
      BuildThenLeaf(old(mem), m1, root, old(free), free, p, LeafEntry(phys, flags));
      ok := true;
    }

    /** Maps one page. Succeeds exactly when no 1GB page is in the way and enough frames are
        free for the missing tables; then the page translates to the given frame and flags and
        every other page is as before. A failure changes no page. */
    method MapPage(phys: Word, virt: Word, flags: Word) returns (ok: bool)
      requires Valid()
      modifies this`mem, this`free, pmm, pmm.bitmap
      ensures Valid()
      ensures ok <==> !Blocked(old(mem), root, PathOf(virt)) &&
                      Missing(old(mem), root, PathOf(virt)[..3]) <= |old(free)|
      ensures ok ==> Mapped(old(mem), mem, root, old(free), free, PathOf(virt), LeafEntry(phys, flags))
      ensures ok ==> |free| == |old(free)| - Missing(old(mem), root, PathOf(virt)[..3])
      ensures !ok ==> Builds(old(mem), mem, root, old(free), free)
      ensures |free| >= |old(free)| - 3
      ensures Blocked(old(mem), root, PathOf(virt)) ==> Blocked(mem, root, PathOf(virt))
    {
      ghost var p := PathOf(virt);
      PathSlots(virt);
      var pd := GetPd(virt, true);
      if pd == 0 {
        return false;
      }
      ghost var m1, free1 := mem, free;
      ok := SplitIfLarge(virt, pd);
      BuildsTrans(old(mem), m1, mem, root, old(free), free1, free);
      if !ok {
        return;
      }
      ghost var m2, free2 := mem, free;
      ok := SetPage(phys, virt, flags);
      if ok {
        BuildThenMap(old(mem), m2, mem, root, old(free), free2, free, p, LeafEntry(phys, flags));
      } else {
        BuildsTrans(old(mem), m2, mem, root, old(free), free2, free);
      }
    }

    /** The middle of vmm_map_page: a 2MB page in the way is split. */
    method SplitIfLarge(virt: Word, pd: nat) returns (ok: bool)
      requires Valid() && TableAt(mem, root, PathOf(virt)[..2]) == Some(pd)
      modifies this`mem, this`free, pmm, pmm.bitmap
      ensures Valid() && Builds(old(mem), mem, root, old(free), free)
      ensures ok <==> !Large(EntryAt(old(mem), root, PathOf(virt)[..3])) || old(free) != {}
      ensures ok ==> TableAt(mem, root, PathOf(virt)[..2]).Some? && !InLargePage(mem, root, PathOf(virt))
      ensures if ok && Large(EntryAt(old(mem), root, PathOf(virt)[..3]))
              then |free| == |old(free)| - 1 && TableAt(mem, root, PathOf(virt)[..3]).Some?
              else mem == old(mem) && free == old(free)
      ensures Large(EntryAt(old(mem), root, PathOf(virt)[..3])) ==>
                TableAt(old(mem), root, PathOf(virt)[..3]).None?
    {
      ghost var p := PathOf(virt);
      PathSlots(virt);
      BuildsNothing(mem, root, free);
      var pdIndex := PdIndex(virt);
      var pde := mem[pd][pdIndex];
      assert EntryAt(mem, root, p[..3]) == pde;
      ok := true;
      if Large(pde) {
        ok := SplitLargePage(pd, pdIndex, pde, p[..2]);
      }
      NoLargeAbove(mem, root, p);
    }

    /** A store into a frame that holds no table. */
    method StoreFrame(f: nat, t: Table)
      requires Valid() && f in mem && !IsTable(mem, root, f)
      modifies this`mem
      ensures Valid() && mem == old(mem)[f := t]
    {
      DataWrite(mem, root, free, f, t);
      mem := mem[f := t];
    }

    // -------------------------------------------------------------- 4KB leaves

    /** Clears the 4KB leaf of a page; does nothing where the walker finds no PT, so a page
        inside a large page stays mapped. */
    method UnmapPage(virt: Word)
      requires Valid()
      modifies this`mem, this`free, pmm, pmm.bitmap
      ensures Valid() && free == old(free)
      ensures TableAt(old(mem), root, PathOf(virt)[..3]).None? ==> mem == old(mem)
      ensures TableAt(old(mem), root, PathOf(virt)[..3]).Some? ==>
                LeafSet(old(mem), mem, root, free, PathOf(virt), 0)
      ensures Translate(mem, root, PathOf(virt)) ==
                if InLargePage(old(mem), root, PathOf(virt)) then Translate(old(mem), root, PathOf(virt)) else None
    {
      ghost var p := PathOf(virt);
      WalkerSees(mem, root, free, p);
      NoTableNeeds(mem, root, p);
      var pt := GetPt(virt, false);
      if pt == 0 {
        return;
      }
      mem := mem[pt := mem[pt][PtIndex(virt) := 0]];
      LeafWrite(old(mem), root, free, p, 0);
    }

    method GetPhys(virt: Word) returns (phys: Word)
      requires Valid()
      modifies this`mem, this`free, pmm, pmm.bitmap
      ensures Valid() && mem == old(mem) && free == old(free)
      ensures phys == PhysOf(mem, root, virt)
    {
      NoTableNeeds(mem, root, PathOf(virt));
      var pt := GetPt(virt, false);
      if pt == 0 {
        return 0;
      }
      var entry := mem[pt][PtIndex(virt)];
      if !Present(entry) {
        return 0;
      }
      phys := MakeEntry(FrameOf(entry), PageOffset(virt));
    }

    method IsMapped(virt: Word) returns (yes: bool)
      requires Valid()
      modifies this`mem, this`free, pmm, pmm.bitmap
      ensures Valid() && mem == old(mem) && free == old(free)
      ensures yes <==> Translate(mem, root, PathOf(virt)).Some? && !InLargePage(mem, root, PathOf(virt))
    {
      NoTableNeeds(mem, root, PathOf(virt));
      WalkerSees(mem, root, free, PathOf(virt));
      var pt := GetPt(virt, false);
      if pt == 0 {
        return false;
      }
      yes := Present(mem[pt][PtIndex(virt)]);
    }

    /** Replaces the low 12 bits of a leaf and keeps its frame field. Where a PT exists, a page
        that was not mapped becomes mapped when the new flags say present. */
    method ChangeFlags(virt: Word, flags: Word)
      requires Valid()
      modifies this`mem, this`free, pmm, pmm.bitmap
      ensures Valid() && free == old(free)
      ensures TableAt(old(mem), root, PathOf(virt)[..3]).None? ==> mem == old(mem)
      ensures TableAt(old(mem), root, PathOf(virt)[..3]).Some? ==>
                LeafSet(old(mem), mem, root, free, PathOf(virt),
                        MakeEntry(FrameOf(EntryAt(old(mem), root, PathOf(virt))), flags % PAGE))
    {
      ghost var p := PathOf(virt);
      NoTableNeeds(mem, root, p);
      var pt := GetPt(virt, false);
      if pt == 0 {
        return;
      }
      var entry := MakeEntry(FrameOf(mem[pt][PtIndex(virt)]), flags % PAGE);
      mem := mem[pt := mem[pt][PtIndex(virt) := entry]];
      LeafWrite(old(mem), root, free, p, entry);
    }

    /** Maps a zeroed frame of its own. A failure to map does not give the frame back. */
    method AllocMap(virt: Word, flags: Word) returns (ok: bool, ghost frame: nat)
      requires Valid()
      modifies this`mem, this`free, pmm, pmm.bitmap
      ensures Valid()
      ensures frame == 0 <==> old(free) == {}
      ensures ok <==> frame != 0 && !Blocked(old(mem), root, PathOf(virt)) &&
                      Missing(old(mem), root, PathOf(virt)[..3]) < |old(free)|
      ensures frame < TWO_40
      ensures ok ==> AllocMapped(old(mem), mem, root, old(free), free, PathOf(virt), frame,
                                 MakeEntry(frame, flags % PAGE))
      ensures !ok ==> SameView(old(mem), mem, root) && frame !in free && free <= old(free)
      ensures !ok ==> TablesGrow(old(mem), mem, root, old(free), free) && DataKeptBut(old(mem), mem, root, frame) &&
                      (frame in old(mem) ==> frame in mem)
      ensures frame != 0 ==> |free| < |old(free)|
    {
      var f := AllocZeroed(PathOf(virt));
      frame := f;
      if f == 0 {
        return false, frame;
      }
      ghost var free1 := free;
      ok := MapPage(f * PAGE, virt, flags);
      LeafEntryOfFrame(f, flags);
      if ok {
        AllocThenMap(old(mem), mem, root, old(free), free, PathOf(virt), f, MakeEntry(f, flags % PAGE));
      } else {
        AllocThenFail(old(mem), mem, root, old(free), free, f);
      }
      SubsetSize(free, free1);
    }

    method AllocZeroed(ghost p: seq<nat>) returns (f: nat)
      requires Valid() && IsPath(p, 4)
      modifies this`mem, this`free, pmm, pmm.bitmap
      ensures Valid()
      ensures f == 0 <==> old(free) == {}
      ensures f == 0 ==> mem == old(mem) && free == old(free)
      ensures f != 0 ==> f in old(free) && free == old(free) - {f} && mem == old(mem)[f := ZERO_TABLE]
      ensures |free| == |old(free)| - if f == 0 then 0 else 1
      ensures f < TWO_40
      ensures Missing(mem, root, p[..3]) == Missing(old(mem), root, p[..3])
      ensures Blocked(mem, root, p) == Blocked(old(mem), root, p)
    {
      f := AllocFrame();
      if f != 0 {
        ClearPage(f);
        FreshFrame(old(mem), root, old(free), f);
        FreshFrameNeeds(old(mem), root, old(free), f, p);
      }
    }

    // -------------------------------------------------------------- initialisation

    /** Identity-maps the first 4GB with user-accessible 2MB pages, under PML4[0]. */
    method Init() returns (ok: bool)
      requires Valid() && TableAt(mem, root, [0]) == Some(BOOT_PDPT)
      modifies this`mem, this`free, pmm, pmm.bitmap
      ensures Valid() && free <= old(free)
      ensures ok <==> |old(free)| >= 4
      ensures ok ==> IdentityBuilt(old(mem), mem, root, 4)
      ensures |free| == |old(free)| - if ok then 4 else |old(free)|
    {
      mem := mem[root := mem[root][0 := SetUser(mem[root][0])]];
      RootMadeUser(old(mem), root, free);
      var gb := 0;
      while gb < 4
        invariant 0 <= gb <= 4
        invariant Valid() && free <= old(free)
        invariant TableAt(mem, root, [0]) == Some(BOOT_PDPT)
        invariant IdentityBuilt(old(mem), mem, root, gb)
        invariant |free| == |old(free)| - gb
      {
        ok := InitGigabyte(gb, old(mem));
        if !ok {
          return;
        }
        gb := gb + 1;
      }
      ok := true;
    }

    method InitGigabyte(gb: nat, ghost m0: Memory) returns (ok: bool)
      requires Valid() && TableAt(mem, root, [0]) == Some(BOOT_PDPT) && gb < 4
      requires IdentityBuilt(m0, mem, root, gb)
      modifies this`mem, this`free, pmm, pmm.bitmap
      ensures Valid() && free <= old(free) && ok == (old(free) != {})
      ensures |free| == |old(free)| - if ok then 1 else 0
      ensures ok ==> TableAt(mem, root, [0]) == Some(BOOT_PDPT) && IdentityBuilt(m0, mem, root, gb + 1)
    {
      ghost var m1, free1 := mem, free;
      var g := AllocFrame();
      if g == 0 {
        return false;
      }
      FillIdentity(g, gb);
      mem := mem[BOOT_PDPT := mem[BOOT_PDPT][gb := MakeEntry(g, 7)]];
      assert mem == Graft(m1, BOOT_PDPT, gb, g, IdentityTable(gb), 7);
      IdentityStepBuilt(m0, m1, root, free1, gb, g);
      ok := true;
    }

    method FillIdentity(g: nat, gb: nat)
      requires g in mem && gb < 4
      modifies this`mem
      ensures mem == old(mem)[g := IdentityTable(gb)]
    {
      for k := 0 to ENTRIES
        invariant g in mem && mem == old(mem)[g := mem[g]]
        invariant forall j :: 0 <= j < k ==> mem[g][j] == IdentityEntry(gb, j)
      {
        mem := mem[g := mem[g][k := IdentityEntry(gb, k)]];
      }
      assert mem[g] == IdentityTable(gb);
    }

    // -------------------------------------------------------------- device windows

    ghost predicate WindowsHold()
      reads this
    {
      AllShow(mem, root, windows, mmioNext)
    }

    /** Maps the pages of a device region at the next free window address. It fails only where a 1GB page
        is in the way or fewer than three frames a page are free. */
    method MapMmio(phys: Word, size: nat) returns (base: Word)
      requires Valid() && WindowsHold()
      requires phys + size + PAGE <= TWO_40 * PAGE
      requires mmioNext + WindowPages(phys, size) * PAGE < TWO_64
      modifies this`mem, this`free, this`mmioNext, this`windows, pmm, pmm.bitmap
      ensures Valid() && WindowsHold()
      ensures base == 0 ==> windows == old(windows)
      ensures base != 0 ==> windows == old(windows) + [Window(base, phys, size)]
      ensures base != 0 ==> base == old(mmioNext) + phys % 4096 && base >= HEAP_BASE + HEAP_SIZE
      ensures base != 0 ==> mmioNext == old(mmioNext) + WindowPages(phys, size) * 4096
      ensures old(mmioNext) <= mmioNext
      ensures OutsideKept(old(mem), mem, root, old(mmioNext), mmioNext)
      ensures base == 0 ==> Blocked(mem, root, PathOf(mmioNext)) || |old(free)| < 3 * WindowPages(phys, size)
    {
      var virtBase := mmioNext;
      var physStart := phys - phys % PAGE;
      var pageCount := WindowPages(phys, size);
      WindowFits(phys, size);
      var ok := MapPages(physStart, pageCount);
      if !ok {
        AllShowLater(mem, root, windows, virtBase, mmioNext);
        return 0;
      }
      base := virtBase + phys % PAGE;
      AllShowOneMore(mem, root, windows, virtBase, mmioNext, physStart, phys, size, base);
      windows := windows + [Window(base, phys, size)];
    }

    method MapPages(physStart: Word, pageCount: nat) returns (ok: bool)
      requires Valid() && WindowsHold()
      requires physStart % PAGE == 0 && physStart + pageCount * PAGE <= TWO_40 * PAGE
      requires mmioNext + pageCount * PAGE < TWO_64
      modifies this`mem, this`free, this`mmioNext, pmm, pmm.bitmap
      ensures Valid() && AllShow(mem, root, windows, old(mmioNext))
      ensures old(mmioNext) <= mmioNext <= old(mmioNext) + pageCount * PAGE && mmioNext % PAGE == 0
      ensures ok ==> mmioNext == old(mmioNext) + pageCount * PAGE
      ensures ok ==> Shows(mem, root, old(mmioNext), mmioNext, physStart)
      ensures OutsideKept(old(mem), mem, root, old(mmioNext), mmioNext)
      ensures !ok ==> Blocked(mem, root, PathOf(mmioNext)) || |old(free)| < 3 * pageCount
    {
      ghost var from := mmioNext;
      var i := 0;
      while i < pageCount
        invariant 0 <= i <= pageCount
        invariant Valid() && AllShow(mem, root, windows, from)
        invariant mmioNext == from + i * PAGE
        invariant Shows(mem, root, from, mmioNext, physStart)
        invariant OutsideKept(old(mem), mem, root, from, mmioNext)
        invariant |free| >= |old(free)| - 3 * i
      {
        ghost var before, virt := mem, mmioNext;
        ok := MapNextPage(physStart + i * PAGE, from, physStart);
        OutsideGrows(old(mem), before, mem, root, from, virt, mmioNext);
        if !ok {
          return;
        }
        i := i + 1;
      }
      ok := true;
    }

    /** Maps one page at mmioNext and advances it; a failure changes nothing that shows. */
    method MapNextPage(phys: Word, ghost from: nat, ghost start: nat) returns (ok: bool)
      requires Valid() && mmioNext % PAGE == 0 && mmioNext + PAGE < TWO_64
      requires AllShow(mem, root, windows, from)
      requires phys % PAGE == 0 && phys < TWO_40 * PAGE
      requires MMIO_BASE <= from <= mmioNext && phys == start + (mmioNext - from)
      requires Shows(mem, root, from, mmioNext, start)
      modifies this`mem, this`free, this`mmioNext, pmm, pmm.bitmap
      ensures Valid() && AllShow(mem, root, windows, from)
      ensures mmioNext == old(mmioNext) + if ok then PAGE else 0
      ensures Shows(mem, root, from, mmioNext, start)
      ensures forall q :: IsPath(q, 4) && (q != PathOf(old(mmioNext)) || !ok) ==> SamePage(old(mem), mem, root, q)
      ensures !ok ==> Blocked(mem, root, PathOf(mmioNext)) || |old(free)| < 3
      ensures |free| >= |old(free)| - 3
    {
      MissingBound(mem, root, PathOf(mmioNext)[..3]);
      var virt := mmioNext;
      ok := MapPage(phys, virt, KERN_RW_CD);
      if ok {
        DevicePageShown(old(mem), mem, root, old(free), free, windows, from, virt, start, phys);
        mmioNext := mmioNext + PAGE;
      } else {
        AllShowBuilt(old(mem), mem, root, old(free), free, windows, from);
        ShowsBuilt(old(mem), mem, root, old(free), free, from, virt, start);
      }
    }
  }

  /** Every window handed out shows its device, and windows are disjoint and in order. */
  ghost predicate AllShow(m: Memory, root: nat, windows: seq<Window>, next: nat)
  {
    && MMIO_BASE <= next && next % PAGE == 0
    && (forall i :: 0 <= i < |windows| ==> WindowShows(m, root, windows[i], next))
    && (forall i, j :: 0 <= i < j < |windows| ==> windows[i].base + windows[i].size <= windows[j].base)
  }

  ghost predicate WindowShows(m: Memory, root: nat, w: Window, next: nat)
  {
    MMIO_BASE <= w.base && w.base + w.size <= next && Shows(m, root, w.base, w.base + w.size, w.phys)
  }

  lemma {:induction false} AllShowMapped(
    m: Memory, m': Memory, root: nat, free: set<nat>, free': set<nat>, windows: seq<Window>, next: nat, virt: Word,
    w: Word)
    requires WellFormed(m, root, free) && Mapped(m, m', root, free, free', PathOf(virt), w)
    requires AllShow(m, root, windows, next) && next <= virt && virt % PAGE == 0
    ensures AllShow(m', root, windows, next)
  {
    forall i | 0 <= i < |windows| ensures WindowShows(m', root, windows[i], next) {
      var x := windows[i];
      assert WindowShows(m, root, x, next);
      ShowsKept(m, m', root, free, free', virt, w, x.base, x.base + x.size, x.phys);
    }
  }

  lemma {:induction false} DeviceFlags()
    ensures ForDevice(KERN_RW_CD) && KERN_RW_CD < PAGE
  {
  }

  lemma {:induction false} DevicePageShown(
    m: Memory, m': Memory, root: nat, free: set<nat>, free': set<nat>, windows: seq<Window>, from: nat, virt: Word,
    start: nat, phys: Word)
    requires WellFormed(m, root, free)
    requires Mapped(m, m', root, free, free', PathOf(virt), LeafEntry(phys, KERN_RW_CD))
    requires AllShow(m, root, windows, from) && Shows(m, root, from, virt, start)
    requires MMIO_BASE <= from <= virt && virt % PAGE == phys % PAGE == 0
    requires phys < TWO_40 * PAGE && phys == start + (virt - from)
    ensures AllShow(m', root, windows, from) && Shows(m', root, from, virt + PAGE, start)
  {
    DeviceFlags();
    AllShowMapped(m, m', root, free, free', windows, from, virt, LeafEntry(phys, KERN_RW_CD));
    ShowsOneMore(m, m', root, free, free', from, virt, start, phys, KERN_RW_CD);
  }

  lemma {:induction false} AllShowLater(m: Memory, root: nat, windows: seq<Window>, next: nat, next': nat)
    requires AllShow(m, root, windows, next) && next <= next' && next' % PAGE == 0
    ensures AllShow(m, root, windows, next')
  {
  }

  lemma {:induction false} AllShowBuilt(
    m: Memory, m': Memory, root: nat, free: set<nat>, free': set<nat>, windows: seq<Window>, next: nat)
    requires WellFormed(m, root, free) && Builds(m, m', root, free, free')
    requires AllShow(m, root, windows, next)
    ensures AllShow(m', root, windows, next)
  {
    forall i | 0 <= i < |windows| ensures WindowShows(m', root, windows[i], next) {
      var x := windows[i];
      assert WindowShows(m, root, x, next);
      ShowsBuilt(m, m', root, free, free', x.base, x.base + x.size, x.phys);
    }
  }

  lemma {:induction false} AllShowOneMore(
    m: Memory, root: nat, windows: seq<Window>, virtBase: nat, next: Word, physStart: nat, phys: Word, size: nat,
    base: Word)
    requires AllShow(m, root, windows, virtBase) && next % PAGE == 0
    requires base - virtBase == phys - physStart >= 0 && base + size <= next
    requires Shows(m, root, virtBase, next, physStart)
    ensures AllShow(m, root, windows + [Window(base, phys, size)], next)
  {
    var x := Window(base, phys, size);
    ShowsPart(m, root, virtBase, next, physStart, x.base, x.base + size, phys);
    assert WindowShows(m, root, x, next);
    forall i | 0 <= i < |windows| ensures WindowShows(m, root, windows[i], next) {
      assert WindowShows(m, root, windows[i], virtBase);
    }
  }

  /** Pages with no address in from..to are as they were. */
  ghost predicate OutsideKept(m: Memory, m': Memory, root: nat, from: nat, to: nat)
  {
    forall q :: IsPath(q, 4) && Outside(q, from, to) ==> SamePage(m, m', root, q)
  }

  ghost predicate Outside(q: seq<nat>, from: nat, to: nat)
  {
    forall a: Word | from <= a < to :: !OnPage(q, a)
  }

  predicate OnPage(q: seq<nat>, a: Word)
  {
    q == PathOf(a)
  }

  lemma {:induction false} OutsideGrows(m: Memory, m1: Memory, m2: Memory, root: nat, from: nat, virt: Word, to: nat)
    requires from <= virt && (to == virt || to == virt + PAGE)
    requires OutsideKept(m, m1, root, from, virt)
    requires forall q :: IsPath(q, 4) && (q != PathOf(virt) || to == virt) ==> SamePage(m1, m2, root, q)
    ensures OutsideKept(m, m2, root, from, to)
  {
    forall q | IsPath(q, 4) && Outside(q, from, to) ensures SamePage(m, m2, root, q) {
      assert Outside(q, from, virt);
      assert to == virt || !OnPage(q, virt);
      assert SamePage(m, m1, root, q);
      assert SamePage(m1, m2, root, q);
    }
  }

  lemma {:induction false} WindowFits(phys: nat, size: nat)
    ensures phys % PAGE + size <= WindowPages(phys, size) * PAGE
    ensures phys - phys % PAGE + WindowPages(phys, size) * PAGE < phys + size + PAGE
    ensures (phys - phys % PAGE) % PAGE == 0
  {
  }

  lemma {:induction false} ShowsPart(
    m: Memory, root: nat, from: nat, to: nat, phys: nat, from': nat, to': nat, phys': nat)
    requires from <= from' && to' <= to && Shows(m, root, from, to, phys) && phys' == phys + (from' - from)
    ensures Shows(m, root, from', to', phys')
  {
    forall a: Word | from' <= a < to' ensures ShowsAt(m, root, from', phys', a) {
      assert ShowsAt(m, root, from, phys, a);
    }
  }

  lemma {:induction false} NoTableNeeds(m: Memory, root: nat, p: seq<nat>)
    requires |p| == 4
    ensures TableAt(m, root, p[..3]).Some? <==> Missing(m, root, p[..3]) == 0 && !InLargePage(m, root, p)
  {
    if TableAt(m, root, p[..3]).Some? {
      MissingNone(m, root, p[..3]);
      UpperEntries(m, root, p);
    }
  }
}
