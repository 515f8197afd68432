/**
 The kernel heap (kernel/InitKernel/heap.c): first-fit allocation over boundary-tagged blocks.
 Each operation is atomic, as the source runs it with interrupts off. Whether another page can
 be mapped is decided outside the heap: an operation that may grow it takes the number of pages that
 vmm_alloc_map can still map.
 */
module Heap {
  import opened Words
  import opened Bytes
  import opened HeapModel
  import opened HeapSteps
  import opened HeapAccounting

  /** Bytes a request takes with its tags, rounded up to the alignment. */
  function TotalFor(size: nat): (total: int)
    ensures total % 16 == 0 && size + META <= total < size + META + 16
  {
    (size + META + 15) / 16 * 16
  }

  function Min(x: int, y: int): int { if x < y then x else y }

  /** The whole pages that `bytes` bytes take. */
  function PagesFor(bytes: int): (n: int)
    ensures bytes <= n * PAGE < bytes + PAGE
  {
    (bytes + PAGE - 1) / PAGE
  }

  /** The pages between the end of the mapped region and the address `needed`. */
  function PagesTo(end: int, needed: int): int
  {
    if needed <= end then 0 else PagesFor(needed - end)
  }

  /** By how many pages the heap can grow: `can` can be mapped, and the region ends at max. */
  function Room(mapped: int, max: int, can: int): int
  {
    Min(can, (max - mapped) / PAGE)
  }

  lemma {:induction false} WholePages(mapped: int, max: int)
    requires mapped % PAGE == 0 && max % PAGE == 0
    ensures (max - mapped) / PAGE * PAGE == max - mapped
  {
  }

  ghost predicate NothingFits(blocks: Blocks, total: int)
  {
    forall a :: FreeAt(blocks, a) ==> blocks[a].size < total
  }

  /** kmalloc needs new pages for a request of `size` bytes. */
  ghost predicate MustGrow(blocks: Blocks, size: nat)
  {
    0 < size <= MAX_ALLOC && NothingFits(blocks, TotalFor(size))
  }

  /** The request is refused: bad size, or nothing fits and too few pages can be mapped. */
  ghost predicate Fails(blocks: Blocks, mapped: int, max: int, size: nat, can: nat)
  {
    size == 0 || size > MAX_ALLOC ||
    (MustGrow(blocks, size) && Room(mapped, max, can) < PagesFor(TotalFor(size)))
  }

  /** Refused, in the request's own terms: nothing or more than 256 MB is asked for, or no free block has
      room for it beside the 48 bytes of tags, nor have the pages that can still be mapped. */
  lemma {:induction false} RefusedIff(
    blocks: Blocks, start: int, end: int, mapped: nat, max: nat, size: nat, can: nat)
    requires Tiled(blocks, start, end) && mapped <= max
    ensures Fails(blocks, mapped, max, size, can) <==>
            size == 0 || size > 256 * 1024 * 1024 ||
            ((forall a :: FreeAt(blocks, a) ==> blocks[a].size < size + 48) &&
             (can * 4096 < size + 48 || (max - mapped) / 4096 * 4096 < size + 48))
  {
    var total, room := TotalFor(size), Room(mapped, max, can);
    forall a | FreeAt(blocks, a) ensures blocks[a].size < total <==> blocks[a].size < size + 48 {
      assert BlockFits(blocks, start, end, a);
      RoundedUp(blocks[a].size, size + 48, total);
    }
    RoomTooSmall(room, size + 48, total);
    LesserTooSmall(can, (max - mapped) / 4096, room, size + 48);
    assert NothingFits(blocks, total) <==> forall a :: FreeAt(blocks, a) ==> blocks[a].size < size + 48;
  }

  lemma {:induction false} RoomTooSmall(room: int, n: int, total: int)
    requires total % 16 == 0 && n <= total < n + 16
    ensures room < PagesFor(total) <==> room * 4096 < n
  {
    var bytes := room * 4096;
    assert bytes == 16 * (room * 256);
    RoundedUp(bytes, n, total);
  }

  lemma {:induction false} LesserTooSmall(x: int, y: int, least: int, n: int)
    requires least == if x < y then x else y
    ensures least * 4096 < n <==> x * 4096 < n || y * 4096 < n
  {
  }

  /** What is a multiple of 16 is not less than the rounded number unless it is less than the number. */
  lemma {:induction false} RoundedUp(x: int, n: int, total: int)
    requires x % 16 == 0 && total % 16 == 0 && n <= total < n + 16
    ensures x < total <==> x < n
  {
  }

  /** The request leaves the heap without a block structure: some of the pages needed can be
      mapped, but not all. */
  ghost predicate Loses(blocks: Blocks, mapped: int, max: int, size: nat, can: nat)
  {
    MustGrow(blocks, size) && 0 < Room(mapped, max, can) < PagesFor(TotalFor(size))
  }

  /** The pages that a request maps. */
  ghost function Growth(blocks: Blocks, mapped: int, max: int, size: nat, can: nat): int
  {
    if MustGrow(blocks, size) then Min(PagesFor(TotalFor(size)), Room(mapped, max, can)) else 0
  }

  /** Entry k is the first of the list that is large enough. */
  ghost predicate FirstFit(blocks: Blocks, list: seq<int>, total: int, k: nat)
  {
    && k < |list| && FreeAt(blocks, list[k]) && blocks[list[k]].size >= total
    && forall j :: 0 <= j < k ==> list[j] in blocks && blocks[list[j]].size < total
  }

  /** The block that a request is served from: the first fit, or new space at the end. */
  ghost predicate Chosen(blocks: Blocks, list: seq<int>, total: int, end: int, a: int)
  {
    if NothingFits(blocks, total) then a == end && a !in blocks
    else exists k: nat :: FirstFit(blocks, list, total, k) && list[k] == a
  }

  /** The size of the free block at a, or of the new one made there. */
  ghost function Available(blocks: Blocks, a: int, total: int): int
  {
    if a in blocks then blocks[a].size else PagesFor(total) * PAGE
  }

  /** How much of a free block is allocated: all of it when the rest would be too small. */
  function Taken(available: int, total: int): (taken: int)
    ensures total <= available ==> total <= taken <= available && taken < total + MIN_BLOCK
    ensures taken == total <==> available == total || available >= total + MIN_BLOCK
  {
    if available >= total + MIN_BLOCK then total else available
  }

  /** Allocation of pointer p: one more live block, everything live before is intact. */
  ghost predicate Allocated(m: Mem, blocks: Blocks, m': Mem, blocks': Blocks, p: int, size: int)
  {
    && Gained(blocks, blocks', p - 32)
    && p % 16 == 0 && blocks'[p - 32].size - META >= size
    && PayloadsKept(m, m', blocks)
  }

  /** check_footer. */
  predicate CheckFooter(m: Mem, hdr: int)
  {
    var sz := SizeBits(Rd(m, hdr));
    Rd(m, hdr + sz - 8) == MAGIC && Rd(m, hdr + sz - 16) == Rd(m, hdr)
  }

  /** What kfree checks before it releases the block at hdr. */
  predicate PassesChecks(m: Mem, hdr: int)
  {
    Rd(m, hdr + 24) == MAGIC && CheckFooter(m, hdr) && LiveBit(Rd(m, hdr))
  }

  /** Release of block a: it is no longer live, every other live block is intact. */
  ghost predicate Released(m: Mem, blocks: Blocks, m': Mem, blocks': Blocks, a: int)
  {
    Gone(blocks, blocks', a) && PayloadsKept(m, m', blocks')
  }

  lemma {:induction false} HeaderBits(size: int, live: bool)
    requires 0 <= size < ALLOCATED
    ensures SizeBits(Header(size, live)) == size && LiveBit(Header(size, live)) == live
  {
  }

  /** What the code reads back from a block's tags. */
  lemma {:induction false} ReadTags(kind: FooterKind, start: int, end: int, m: Mem, blocks: Blocks, a: int)
    requires Tiled(blocks, start, end) && Tagged(m, kind, blocks) && a in blocks
    ensures BlockFits(blocks, start, end, a)
    ensures SizeBits(Rd(m, a)) == blocks[a].size && LiveBit(Rd(m, a)) == blocks[a].live
    ensures Rd(m, a + 24) == MAGIC && Rd(m, a + blocks[a].size - 8) == MAGIC
    ensures Rd(m, a + blocks[a].size - 16) == Footer(kind, blocks[a].size, blocks[a].live)
    ensures Rd(m, a) == Header(blocks[a].size, blocks[a].live)
  {
    assert BlockFits(blocks, start, end, a) && TaggedAt(m, kind, a, blocks[a]);
  }

  /** list_remove leaves both headers readable: their sizes add up to the merged size. */
  lemma {:induction false} MergedSizeRead(
    kind: FooterKind, start: int, end: int, m: Mem, head: Word, blocks: Blocks, list: seq<int>, h: int, lo: int,
    hi: int, k: nat)
    requires Consistent(kind, start, end, m, head, blocks, list, h)
    requires Mergeable(blocks, list, h, lo, k) && hi == lo + blocks[lo].size
    ensures SizeBits(Rd(UnlinkMem(m, list[k]), lo)) + SizeBits(Rd(UnlinkMem(m, list[k]), hi)) == MergedSize(blocks, lo)
  {
    MergeUnlinked(kind, start, end, m, head, blocks, list, h, k);
    ReadTags(kind, start, end, UnlinkMem(m, list[k]), blocks, lo);
    ReadTags(kind, start, end, UnlinkMem(m, list[k]), blocks, hi);
  }

  /** One whole merge, in the terms of the code that performs it. */
  lemma {:induction false} AbsorbStep(
    kind: FooterKind, start: int, end: int, m: Mem, head: Word, blocks: Blocks, list: seq<int>, h: int, lo: int,
    hi: int, other: int, k: nat)
      returns (m': Mem, head': Word, size: int, blocks': Blocks, list': seq<int>)
    requires Consistent(kind, start, end, m, head, blocks, list, h) && Coalesced(blocks, h)
    requires Mergeable(blocks, list, h, lo, k) && hi == lo + blocks[lo].size && list[k] == other
    ensures blocks' == Merged(blocks, lo, false)
    ensures SizeBits(Rd(UnlinkMem(m, other), lo)) + SizeBits(Rd(UnlinkMem(m, other), hi)) == size
    ensures MIN_BLOCK <= size < ALLOCATED
    ensures m' == Stamp(UnlinkMem(m, other), kind, lo, size, false) && head' == UnlinkHead(m, head, other)
    ensures Consistent(kind, start, end, m', head', blocks', list', lo)
    ensures PayloadsKept(m, m', blocks')
    ensures Coalesced(blocks', lo) && FreeAt(blocks', lo) && SameLive(blocks, blocks')
  {
    MergedSizeRead(kind, start, end, m, head, blocks, list, h, lo, hi, k);
    MergeStep(kind, start, end, m, head, blocks, list, h, lo, k);
    MergedCoalesced(blocks, start, end, h, lo);
    size, blocks', list' := MergedSize(blocks, lo), Merged(blocks, lo, false), Without(list, k);
    m', head' := Stamp(UnlinkMem(m, other), kind, lo, size, false), UnlinkHead(m, head, other);
  }

  lemma {:induction false} EmptyHeap(kind: FooterKind, start: Word)
    requires 0 < start && start % 16 == 0
    ensures Consistent(kind, start, start, map[], 0, map[], [], 0) && Coalesced(map[], 0)
  {
  }

  lemma {:induction false} FirstBlock(kind: FooterKind, start: Word, end: int) returns (m: Mem, blocks: Blocks)
    requires 0 < start && start % PAGE == 0 && end == start + PAGE <= TWO_64
    ensures m == PushMem(Stamp(map[], kind, start, PAGE, false), 0, start)
    ensures Consistent(kind, start, end, m, start, blocks, [start as int], 0) && Coalesced(blocks, 0)
    ensures blocks == map[start as int := Block(PAGE, false)]
    ensures forall b :: !LiveAt(blocks, b)
  {
    var none: Blocks := map[];
    PageIsAligned(start);
    EmptyHeap(kind, start);
    m := PushMem(Stamp(map[], kind, start, PAGE, false), 0, start);
    blocks := none[start as int := Block(PAGE, false)];
    ExtendStep(kind, start, start, end, PAGE, map[], 0, none, [], Stamp(map[], kind, start, PAGE, false));
    assert [start as int] + [] == [start as int];
    forall x ensures CoalescedAt(blocks, 0, x) {
    }
  }

  /** After a partial expansion failure no block structure fits the memory: the newly mapped part
      starts with a zero header. */
  lemma {:induction false} NoStructureAfterPartialExpansion(
    kind: FooterKind, start: int, end: int, end': int, m: Mem, head: Word, blocks: Blocks, list: seq<int>,
    other: Blocks)
    requires Consistent(kind, start, end, m, head, blocks, list, 0) && end < end'
    ensures !(Tiled(other, start, end') && Tagged(m, kind, other))
  {
    if Tiled(other, start, end') && Tagged(m, kind, other) {
      var a := start;
      while a < end
        invariant start <= a <= end && a in other && (a < end ==> a in blocks)
        decreases end - a
      {
        ReadTags(kind, start, end, m, blocks, a);
        ReadTags(kind, start, end', m, other, a);
        a := a + blocks[a].size;
      }
      assert WrittenWithin(m, start, end, a);
      ReadTags(kind, start, end', m, other, a);
    }
  }

  /** No choice of blocks tiles start..end with the tags that the memory holds. */
  ghost predicate NoStructure(kind: FooterKind, start: int, end: int, m: Mem)
  {
    forall other: Blocks :: !(Tiled(other, start, end) && Tagged(m, kind, other))
  }

  lemma {:induction false} PartialExpansion(
    kind: FooterKind, start: int, end: int, end': int, m: Mem, head: Word, blocks: Blocks, list: seq<int>)
    requires Consistent(kind, start, end, m, head, blocks, list, 0) && end <= end'
    ensures end < end' ==> NoStructure(kind, start, end', m)
  {
    if end < end' {
      forall other: Blocks ensures !(Tiled(other, start, end') && Tagged(m, kind, other)) {
        NoStructureAfterPartialExpansion(kind, start, end, end', m, head, blocks, list, other);
      }
    }
  }

  /** The split of kmalloc, in the terms of the code that performs it. */
  lemma {:induction false} SplitPlan(
    kind: FooterKind, start: int, end: int, m: Mem, head: Word, blocks: Blocks, list: seq<int>, k: nat, best: int,
    rest: Word, total: int, size: int)
      returns (m1: Mem, m2: Mem, m': Mem, head': Word, blocks': Blocks, list': seq<int>)
    requires Consistent(kind, start, end, m, head, blocks, list, 0)
    requires k < |list| && list[k] == best && CanCut(blocks, best, rest, total, size)
    requires Coalesced(blocks, best) && NextNotFree(blocks, best)
    ensures MIN_BLOCK <= total < ALLOCATED && MIN_BLOCK <= size < ALLOCATED
    ensures m1 == Stamp(m, kind, rest, size, false) && m2 == ReplaceMem(m1, best, rest)
    ensures LiveAt(blocks', best) && blocks'[best].size == total
    ensures Rd(m2, rest + 24) == MAGIC
    ensures m' == Stamp(m2, kind, best, total, true) && head' == ReplaceHead(m1, head, best, rest)
    ensures Consistent(kind, start, end, m', head', blocks', list', 0)
    ensures Coalesced(blocks', 0) && Allocated(m, blocks, m', blocks', best + 32, total - META)
  {
    assert BlockFits(blocks, start, end, best);
    CutTiled(blocks, start, end, best, rest, total, size, true);
    SplitCoalesced(blocks, start, end, best, rest, total, size);
    m1 := Stamp(m, kind, rest, size, false);
    m2 := ReplaceMem(m1, best, rest);
    SplitStep(kind, start, end, m, head, blocks, list, k, best, rest, total, size, m1, m2);
    blocks', list' := Cut(blocks, best, rest, total, size, true), list[k := rest];
    m', head' := Stamp(m2, kind, best, total, true), ReplaceHead(m1, head, best, rest);
    CutAllocates(m, m', blocks, best, rest, total, size);
  }

  /** The new block of an expansion, in the terms of the code that makes it. */
  lemma {:induction false} ExtendPlan(
    kind: FooterKind, start: int, curEnd: Word, end': int, size: int, m: Mem, head: Word, blocks: Blocks,
    list: seq<int>)
      returns (m1: Mem, m': Mem, blocks': Blocks, list': seq<int>)
    requires Consistent(kind, start, curEnd, m, head, blocks, list, 0) && Coalesced(blocks, 0)
    requires curEnd % PAGE == 0 && size % PAGE == 0 && PAGE <= size < ALLOCATED
    requires end' == curEnd + size <= TWO_64 && end' - start < ALLOCATED
    ensures m1 == Stamp(m, kind, curEnd, size, false) && m' == PushMem(m1, head, curEnd)
    ensures Consistent(kind, start, end', m', curEnd, blocks', list', 0)
    ensures list' != [] && list'[0] == curEnd && FreeAt(blocks', curEnd) && blocks'[curEnd].size == size
    ensures SameLive(blocks, blocks') && PayloadsKept(m, m', blocks)
    ensures Coalesced(blocks', curEnd) && NextNotFree(blocks', curEnd)
  {
    PageIsAligned(curEnd);
    PageIsAligned(size);
    m1 := Stamp(m, kind, curEnd, size, false);
    m' := PushMem(m1, head, curEnd);
    ExtendStep(kind, start, curEnd, end', size, m, head, blocks, list, m1);
    ExtendedCoalesced(blocks, start, curEnd, size);
    blocks', list' := blocks[curEnd as int := Block(size, false)], [curEnd as int] + list;
  }

  lemma {:induction false} PageIsAligned(x: int)
    requires x % PAGE == 0
    ensures x % 16 == 0
  {
  }

  class KernelHeap {
    const kind: FooterKind
    const start: Word
    const max: nat
    var mem: Mem
    var head: Word
    var mapped: nat
    var used: Word
    ghost var blocks: Blocks
    ghost var list: seq<int>
    ghost var end: int  // start + mapped

    /** The region: page aligned, and far enough below 2^64 that no size computation wraps. */
    ghost predicate Geometry()
      reads this
    {
      && 0 < start && start % PAGE == 0 && max % PAGE == 0 && mapped % PAGE == 0 && mapped <= max
      && start + max + MAX_ALLOC + MIN_BLOCK <= TWO_64 && max < ALLOCATED && end == start + mapped
    }

    ghost predicate Working(h: int)
      reads this
    {
      && Geometry()
      && Consistent(kind, start, end, mem, head, blocks, list, h)
      && Coalesced(blocks, h)
    }

    ghost predicate Valid()
      reads this
    {
      Working(0)
    }

    // -------------------------------------------------------------- header, footer and links

    /** blk_set_size, blk_set_magic and set_footer. */
    method StampBlock(a: int, size: int, live: bool)
      requires MIN_BLOCK <= size < ALLOCATED
      modifies this`mem
      ensures mem == Stamp(old(mem), kind, a, size, live)
    {
      mem := mem[a := Header(size, live)];
      mem := mem[a + 24 := MAGIC];
      HeaderBits(size, live);
      var sz := SizeBits(Rd(mem, a));
      mem := mem[a + sz - 8 := MAGIC];
      mem := mem[a + sz - 16 := if kind == Documented then Rd(mem, a) else sz];
    }

    method ListRemove(h: int)
      modifies this`mem, this`head
      ensures mem == UnlinkMem(old(mem), h) && head == UnlinkHead(old(mem), old(head), h)
    {
      var prev, next := Rd(mem, h + 8), Rd(mem, h + 16);
      if prev != 0 {
        mem := mem[prev as int + 16 := next];
      } else {
        head := next;
      }
      if next != 0 {
        mem := mem[next as int + 8 := prev];
      }
      mem := mem[h + 8 := 0];
      mem := mem[h + 16 := 0];
    }

    method ListInsertHead(h: Word)
      modifies this`mem, this`head
      ensures mem == PushMem(old(mem), old(head), h) && head == h
    {
      var first := head;
      mem := mem[h as int + 8 := 0];
      mem := mem[h as int + 16 := first];
      if first != 0 {
        mem := mem[first as int + 8 := h];
      }
      head := h;
    }

    // -------------------------------------------------------------- merging

    /** The header of the block before hdr according to the footer word below it; 0 is NULL. */
    method PrevPhys(hdr: Word) returns (prev: Word)
      requires Working(hdr) && FreeAt(blocks, hdr)
      ensures prev != 0 ==> prev in blocks && prev + blocks[prev].size == hdr
      ensures prev == 0 ==> PrevNotFree(blocks, hdr)
    {
      NothingBefore(blocks, start, end, hdr);
      if hdr == start {
        return 0;
      }
      ghost var p := Predecessor(blocks, start, end, hdr);
      ReadTags(kind, start, end, mem, blocks, p);
      var prevSize := Rd(mem, hdr - 16);
      if prevSize == 0 || prevSize > max {
        return 0;
      }
      prev := hdr - prevSize;
    }

    /** Takes list entry k off the list and joins the neighbours lo and hi, one of which is the
        worked-on block h. */
    method Absorb(lo: Word, hi: Word, other: Word, ghost h: int, ghost k: nat)
      requires Working(h) && Mergeable(blocks, list, h, lo, k) && list[k] == other
      requires hi == lo + blocks[lo].size
      modifies this`mem, this`head, this`blocks, this`list
      ensures Working(lo) && FreeAt(blocks, lo) && blocks == Merged(old(blocks), lo, false)
      ensures SameLive(old(blocks), blocks) && PayloadsKept(old(mem), mem, blocks)
    {
      ghost var m', head', size, blocks', list' :=
        AbsorbStep(kind, start, end, mem, head, blocks, list, h, lo, hi, other, k);
      ListRemove(other);
      var newSize := SizeBits(Rd(mem, lo)) + SizeBits(Rd(mem, hi));
      assert newSize == size;
      StampBlock(lo, newSize, false);
      assert mem == m' && head == head';
      blocks, list := blocks', list';
    }

    method MergePrev(hdr: Word) returns (r: Word)
      requires Working(hdr) && FreeAt(blocks, hdr)
      modifies this`mem, this`head, this`blocks, this`list
      ensures Working(r) && FreeAt(blocks, r) && PrevNotFree(blocks, r)
      ensures SameLive(old(blocks), blocks) && PayloadsKept(old(mem), mem, blocks)
    {
      var prev := PrevPhys(hdr);
      if prev == 0 {
        return hdr;
      }
      ReadTags(kind, start, end, mem, blocks, prev);
      if LiveBit(Rd(mem, prev)) {
        NothingBefore(blocks, start, end, hdr);
        return hdr;
      }
      ghost var k := PlaceInList(blocks, list, hdr, prev);
      MergedCoalesced(blocks, start, end, hdr, prev);
      Absorb(prev, hdr, prev, hdr, k);
      r := prev;
    }

    method MergeNext(hdr: Word) returns (r: Word)
      requires Working(hdr) && FreeAt(blocks, hdr) && PrevNotFree(blocks, hdr)
      modifies this`mem, this`head, this`blocks, this`list
      ensures Working(r) && FreeAt(blocks, r) && PrevNotFree(blocks, r) && NextNotFree(blocks, r)
      ensures SameLive(old(blocks), blocks) && PayloadsKept(old(mem), mem, blocks)
    {
      ReadTags(kind, start, end, mem, blocks, hdr);
      var next := hdr + SizeBits(Rd(mem, hdr));
      r := hdr;
      if next >= start + mapped {
        NothingAtEnd(blocks, start, end);
        return;
      }
      ReadTags(kind, start, end, mem, blocks, next);
      if LiveBit(Rd(mem, next)) {
        return;
      }
      ghost var k := PlaceInList(blocks, list, hdr, next);
      MergedCoalesced(blocks, start, end, hdr, hdr);
      Absorb(hdr, next, next, hdr, k);
    }

    // -------------------------------------------------------------- growing

    /** Maps pages until the region reaches `needed`; `can` is the number of pages that
        vmm_alloc_map can still map. A failure part way keeps the pages mapped so far. */
    method ExpandTo(needed: nat, can: nat) returns (ok: bool)
      requires Geometry()
      modifies this`mapped
      ensures ok <==> PagesTo(start + old(mapped), needed) <= Room(old(mapped), max, can)
      ensures mapped == old(mapped) + Min(PagesTo(start + old(mapped), needed), Room(old(mapped), max, can)) * PAGE
      ensures old(mapped) <= mapped <= max && mapped % PAGE == 0
    {
      var curEnd, left := start + mapped, can;
      ghost var n, pages, room := 0, PagesTo(start + mapped, needed), Room(mapped, max, can);
      WholePages(mapped, max);
      while curEnd < needed
        invariant curEnd == start + mapped && mapped == old(mapped) + n * PAGE
        invariant n <= pages && n <= room && left == can - n
        decreases left
      {
        if curEnd >= start + max {
          return false;
        }
        if left == 0 {
          return false;
        }
        left := left - 1;
        curEnd := curEnd + PAGE;
        mapped := mapped + PAGE;
        n := n + 1;
      }
      ok := true;
    }

    /** heap_init: the first page becomes one free block; without it the heap starts empty. */
    constructor (kind: FooterKind, start: Word, max: nat, can: nat)
      requires 0 < start && start % PAGE == 0 && max % PAGE == 0 && PAGE <= max < ALLOCATED
      requires start + max + MAX_ALLOC + MIN_BLOCK <= TWO_64
      ensures Valid() && this.kind == kind && this.start == start && this.max == max
      ensures used == 0 && forall b :: !LiveAt(blocks, b)
      ensures blocks == if can == 0 then map[] else map[start as int := Block(PAGE, false)]
      ensures mapped == if can == 0 then 0 else PAGE
    {
      this.kind, this.start, this.max := kind, start, max;
      mem, head, mapped, used := map[], 0, 0, 0;
      blocks, list, end := map[], [], start;
      new;
      EmptyHeap(kind, start);
      if can != 0 {
        AddFirstPage();
      }
    }

    /** The first page becomes one free block. */
    method AddFirstPage()
      requires Geometry() && mapped == 0 && PAGE <= max && mem == map[] && head == 0
      modifies this
      ensures Valid() && used == old(used) && mapped == PAGE && forall b :: !LiveAt(blocks, b)
      ensures blocks == map[start as int := Block(PAGE, false)]
    {
      ghost var m', blocks' := FirstBlock(kind, start, start + PAGE);
      StampBlock(start, PAGE, false);
      ListInsertHead(start);
      assert mem == m';
      mapped := PAGE;
      blocks, list, end := blocks', [start as int], start + PAGE;
    }

    // -------------------------------------------------------------- kmalloc

    /** First fit: the first list entry that is large enough, 0 when there is none. */
    method FindFit(total: int) returns (best: Word, ghost k: nat)
      requires Valid()
      ensures k <= |list| && forall j :: 0 <= j < k ==> list[j] in blocks && blocks[list[j]].size < total
      ensures best == 0 <==> k == |list|
      ensures best != 0 ==> k < |list| && list[k] == best && FreeAt(blocks, best) && blocks[best].size >= total
    {
      best, k := head, 0;
      while best != 0
        invariant k <= |list| && best == if k < |list| then list[k] else 0
        invariant forall j :: 0 <= j < k ==> list[j] in blocks && blocks[list[j]].size < total
        decreases |list| - k
      {
        ListNodes(kind, start, end, mem, head, blocks, list, 0);
        ReadTags(kind, start, end, mem, blocks, best);
        LinkValues(mem, head, list, k);
        if SizeBits(Rd(mem, best)) >= total {
          return;
        }
        best := Rd(mem, best + 16);
        k := k + 1;
        if k < |list| {
          LinkValues(mem, head, list, k);
        }
      }
      if k < |list| {
        LinkValues(mem, head, list, k);
      }
    }

    /** Allocates the first `total` bytes of the free block best, or all of it when the rest would
        be too small to be a block. */
    method Take(best: Word, total: int, ghost k: nat) returns (p: Word)
      requires Geometry() && Consistent(kind, start, end, mem, head, blocks, list, 0)
      requires k < |list| && list[k] == best && FreeAt(blocks, best)
      requires Coalesced(blocks, best) && NextNotFree(blocks, best)
      requires total % 16 == 0 && MIN_BLOCK <= total <= blocks[best].size
      modifies this`mem, this`head, this`blocks, this`list
      ensures Valid() && Allocated(old(mem), old(blocks), mem, blocks, p, total - META)
      ensures p == best + 32
      ensures blocks[best].size == Taken(old(blocks)[best].size, total)
    {
      ReadTags(kind, start, end, mem, blocks, best);
      var bsize := SizeBits(Rd(mem, best));
      if bsize >= total + MIN_BLOCK {
        TakePart(best, best + total, total, bsize - total, k);
      } else {
        TakeWhole(best, bsize, k);
        RetypeAllocates(old(mem), mem, old(blocks), best, total);
      }
      p := best + 32;
    }

    /** The rest block takes the place of the cut block in the list. */
    method ReplaceInList(h: int, r: Word)
      modifies this`mem, this`head
      ensures mem == ReplaceMem(old(mem), h, r) && head == ReplaceHead(old(mem), old(head), h, r)
    {
      var prev, next := Rd(mem, h + 8), Rd(mem, h + 16);
      if prev != 0 {
        mem := mem[prev as int + 16 := r];
      } else {
        head := r;
      }
      if next != 0 {
        mem := mem[next as int + 8 := r];
      }
      mem := mem[r as int + 8 := prev];
      mem := mem[r as int + 16 := next];
    }

    method TakePart(best: Word, rest: Word, total: int, size: int, ghost k: nat)
      requires Geometry() && Consistent(kind, start, end, mem, head, blocks, list, 0)
      requires k < |list| && list[k] == best && CanCut(blocks, best, rest, total, size)
      requires Coalesced(blocks, best) && NextNotFree(blocks, best)
      modifies this`mem, this`head, this`blocks, this`list
      ensures Valid() && Allocated(old(mem), old(blocks), mem, blocks, best + 32, total - META)
      ensures blocks[best].size == total
    {
      ghost var m1, m2, m', head', blocks', list' :=
        SplitPlan(kind, start, end, mem, head, blocks, list, k, best, rest, total, size);
      CutInMemory(best, rest, total, size, m1, m2);
      blocks, list := blocks', list';
    }

    /** The memory writes of a split. */
    method CutInMemory(best: Word, rest: Word, total: int, size: int, ghost m1: Mem, ghost m2: Mem)
      requires MIN_BLOCK <= total < ALLOCATED && MIN_BLOCK <= size < ALLOCATED
      requires m1 == Stamp(mem, kind, rest, size, false) && m2 == ReplaceMem(m1, best, rest)
      requires Rd(m2, rest + 24) == MAGIC
      modifies this`mem, this`head
      ensures mem == Stamp(m2, kind, best, total, true) && head == ReplaceHead(m1, old(head), best, rest)
    {
      StampBlock(rest, size, false);
      ReplaceInList(best, rest);
      SameWrite(mem, rest + 24, MAGIC);
      mem := mem[rest as int + 24 := MAGIC];
      StampBlock(best, total, true);
    }

    method TakeWhole(best: Word, bsize: int, ghost k: nat)
      requires Geometry() && Consistent(kind, start, end, mem, head, blocks, list, 0)
      requires k < |list| && list[k] == best && FreeAt(blocks, best) && blocks[best].size == bsize
      requires Coalesced(blocks, best)
      modifies this`mem, this`head, this`blocks, this`list
      ensures Valid() && blocks == Retyped(old(blocks), best, true)
      ensures PayloadsKept(old(mem), mem, old(blocks))
    {
      WholeStep(kind, start, end, mem, head, blocks, list, k);
      WholeCoalesced(blocks, start, end, best);
      ghost var blocks', list' := Retyped(blocks, best, true), Without(list, k);
      ListRemove(best);
      StampBlock(best, bsize, true);
      blocks, list := blocks', list';
    }

    /** kmalloc, when `can` more pages can be mapped. On success the pointer is 16-byte aligned, its
        block holds at least `size` bytes, nothing live changes, and the block is the first of the
        list that is large enough, or new space where there was none. NULL means a bad size, or
        that nothing fits and the heap cannot grow by the pages needed. If it can grow by some of
        them but not by all, they stay mapped and no block structure fits the region any more. */
    method Kmalloc(size: nat, can: nat) returns (p: Word)
      requires Valid()
      modifies this
      ensures p == 0 <==> Fails(old(blocks), old(mapped), max, size, can)
      ensures p != 0 ==> Valid() && Allocated(old(mem), old(blocks), mem, blocks, p, size)
      ensures p != 0 ==> Chosen(old(blocks), old(list), TotalFor(size), start + old(mapped), p - 32)
      ensures p != 0 ==> blocks[p - 32].size == Taken(Available(old(blocks), p - 32, TotalFor(size)), TotalFor(size))
      ensures p != 0 ==> 0 <= TotalFor(size) < TWO_64 &&
                         Entered(Books(old(blocks), old(used)), Took(p - 32, TotalFor(size)), Books(blocks, used))
      ensures p == 0 ==> mem == old(mem) && head == old(head) && used == old(used) &&
                         blocks == old(blocks) && list == old(list)
      ensures mapped == old(mapped) + Growth(old(blocks), old(mapped), max, size, can) * PAGE
      ensures !Valid() <==> Loses(old(blocks), old(mapped), max, size, can)
      ensures !Valid() ==> NoStructure(kind, start, start + mapped, mem)
    {
      if size == 0 || size > MAX_ALLOC {
        return 0;
      }
      var total := TotalFor(size);
      NoBlockAtZero(blocks, start, end);
      var best: Word, k := FindFit(total);
      if best == 0 {
        NoFit(blocks, list, total);
        var ok := Grow(total, can);
        if !ok {
          return 0;
        }
        best, k := head, 0;
      } else {
        FromCoalesced(blocks, start, end, best);
      }
      ghost var m1, blocks1 := mem, blocks;
      p := Take(best, total, k);
      AllocatedFrom(old(mem), m1, mem, old(blocks), blocks1, blocks, p, size, total);
      used := WrapAdd(used, total);
    }

    /** Expands the heap by at least `total` bytes and puts the new block at the list's head. */
    method Grow(total: int, can: nat) returns (ok: bool)
      requires Valid() && MIN_BLOCK <= total <= MAX_ALLOC + MIN_BLOCK
      modifies this
      ensures Geometry() && used == old(used)
      ensures ok <==> PagesFor(total) <= Room(old(mapped), max, can)
      ensures mapped == old(mapped) + Min(PagesFor(total), Room(old(mapped), max, can)) * PAGE
      ensures !ok ==> mem == old(mem) && head == old(head) && blocks == old(blocks) && list == old(list)
      ensures !ok ==> (Valid() <==> Room(old(mapped), max, can) == 0)
      ensures !ok && !Valid() ==> NoStructure(kind, start, start + mapped, mem)
      ensures ok ==> Consistent(kind, start, end, mem, head, blocks, list, 0) && list != [] && list[0] == head
      ensures ok ==> head == start + old(mapped) && head !in old(blocks)
      ensures ok ==> FreeAt(blocks, head) && blocks[head].size == PagesFor(total) * PAGE
      ensures ok ==> Coalesced(blocks, head) && NextNotFree(blocks, head)
      ensures ok ==> SameLive(old(blocks), blocks) && PayloadsKept(old(mem), mem, old(blocks))
    {
      var curEnd: Word := start + mapped;
      ok := ExpandTo(curEnd + total, can);
      if !ok {
        end := start + mapped;
        PartialExpansion(kind, start, old(end), end, mem, head, blocks, list);
        return;
      }
      NothingAtEnd(blocks, start, end);
      AddBlock(curEnd, start + mapped - curEnd);
    }

    /** The expanded space becomes one free block at the head of the list. */
    method AddBlock(curEnd: Word, size: nat)
      requires start + mapped == curEnd + size && curEnd == end && curEnd % PAGE == 0 && size % PAGE == 0
      requires PAGE <= size
      requires Consistent(kind, start, end, mem, head, blocks, list, 0) && Coalesced(blocks, 0)
      requires 0 < start && start + max <= TWO_64 && mapped <= max < ALLOCATED
      modifies this`mem, this`head, this`blocks, this`list, this`end
      ensures end == start + mapped && Consistent(kind, start, end, mem, head, blocks, list, 0)
      ensures FreeAt(blocks, curEnd) && blocks[curEnd].size == size && SameLive(old(blocks), blocks)
      ensures list != [] && list[0] == curEnd && head == curEnd
      ensures Coalesced(blocks, curEnd) && NextNotFree(blocks, curEnd)
      ensures PayloadsKept(old(mem), mem, old(blocks))
    {
      ghost var end' := start + mapped;
      ghost var m1, m', blocks', list' := ExtendPlan(kind, start, curEnd, end', size, mem, head, blocks, list);
      StampBlock(curEnd, size, false);
      assert mem == m1;
      ListInsertHead(curEnd);
      assert mem == m';
      blocks, list, end := blocks', list', end';
    }

    // -------------------------------------------------------------- kfree

    /** kfree of a pointer that kmalloc returned, of a block already free, of NULL, of an address
        outside the heap, or of a word inside a block that fails the checks. With the documented
        footer a live block is released and merged with its free neighbours; with the footer as
        written its check fails and nothing at all changes. */
    method Kfree(ptr: Word)
      requires Valid()
      requires ptr >= 32 && start <= ptr - 32 < start + mapped ==>
                 ptr - 32 in blocks || (ptr % 8 == 0 && !PassesChecks(mem, ptr - 32))
      modifies this
      ensures Valid() && mapped == old(mapped)
      ensures kind == Documented && LiveAt(old(blocks), ptr - 32) ==>
                Released(old(mem), old(blocks), mem, blocks, ptr - 32) &&
                Entered(Books(old(blocks), old(used)), Gave(ptr - 32), Books(blocks, used))
      ensures !(kind == Documented && LiveAt(old(blocks), ptr - 32)) ==>
                mem == old(mem) && head == old(head) && used == old(used) && blocks == old(blocks) && list == old(list)
    {
      NoBlockBelow(blocks, start, end);
      if ptr < 32 {
        return;
      }
      var hdr: Word := ptr - 32;
      if hdr < start || hdr >= start + mapped {
        return;
      }
      if hdr in blocks {
        ReadTags(kind, start, end, mem, blocks, hdr);
      }
      if Rd(mem, hdr + 24) != MAGIC || !CheckFooter(mem, hdr) {
        return;
      }
      if !LiveBit(Rd(mem, hdr)) {
        return;
      }
      Release(hdr);
    }

    method Release(hdr: Word)
      requires Valid() && LiveAt(blocks, hdr)
      modifies this
      ensures Valid() && mapped == old(mapped)
      ensures Released(old(mem), old(blocks), mem, blocks, hdr)
      ensures Entered(Books(old(blocks), old(used)), Gave(hdr), Books(blocks, used))
    {
      ReadTags(kind, start, end, mem, blocks, hdr);
      var sz := SizeBits(Rd(mem, hdr));
      used := WrapSub(used, sz);
      MarkFree(hdr, sz);
      ghost var m1 := mem;
      MergeAndInsert(hdr);
      ReleasedByMerging(old(mem), m1, mem, old(blocks), blocks, hdr);
    }

    /** merge_prev, merge_next and list_insert_head. */
    method MergeAndInsert(hdr: Word)
      requires Working(hdr) && FreeAt(blocks, hdr)
      modifies this`mem, this`head, this`blocks, this`list
      ensures Valid() && SameLive(old(blocks), blocks) && PayloadsKept(old(mem), mem, blocks)
    {
      var h := MergePrev(hdr);
      ghost var m2, blocks2 := mem, blocks;
      h := MergeNext(h);
      ghost var m3 := mem;
      Insert(h);
      MergingKeeps(old(mem), m2, m3, mem, old(blocks), blocks2, blocks);
    }

    /** The header and footer say free; the block is worked on. */
    method MarkFree(hdr: Word, sz: int)
      requires Valid() && LiveAt(blocks, hdr) && sz == blocks[hdr].size
      modifies this`mem, this`blocks
      ensures Working(hdr) && FreeAt(blocks, hdr) && blocks == Retyped(old(blocks), hdr, false)
      ensures PayloadsKept(old(mem), mem, blocks)
    {
      FreeStep(kind, start, end, mem, head, blocks, list, hdr);
      FreedCoalesced(blocks, start, end, hdr);
      ghost var blocks' := Retyped(blocks, hdr, false);
      StampBlock(hdr, sz, false);
      blocks := blocks';
    }

    method Insert(h: Word)
      requires Working(h) && FreeAt(blocks, h) && PrevNotFree(blocks, h) && NextNotFree(blocks, h)
      modifies this`mem, this`head, this`list
      ensures Valid() && PayloadsKept(old(mem), mem, blocks)
    {
      InsertStep(kind, start, end, mem, head, blocks, list, h);
      InsertedCoalesced(blocks, h);
      ListInsertHead(h);
      list := [h as int] + list;
    }

    // -------------------------------------------------------------- krealloc, heap_check

    /** A client stores a byte into its own payload. */
    method Store(x: int, b: Byte, ghost a: int)
      requires Valid() && InPayload(blocks, a, x) && blocks[a].live
      modifies this`mem
      ensures Valid() && mem == WithByteAt(old(mem), x, b)
    {
      WordInPayload(blocks, start, end, a, x);
      PayloadWrite(kind, start, end, mem, head, blocks, list, a, WordOf(x), WithByteAt(mem, x, b)[WordOf(x)]);
      mem := WithByteAt(mem, x, b);
    }

    /** Copies n bytes from payload to payload. */
    method CopyPayload(src: Word, dst: Word, n: int)
      requires Valid() && LiveAt(blocks, src - 32) && LiveAt(blocks, dst - 32) && src != dst
      requires 0 <= n <= blocks[src - 32].size - META && n <= blocks[dst - 32].size - META
      modifies this`mem
      ensures Valid()
      ensures Copied(mem, dst, old(mem), src, n) && OnlyPayload(old(mem), mem, blocks, dst - 32)
    {
      ghost var a, c := src - 32, dst - 32;
      var i := 0;
      while i < n
        invariant 0 <= i <= n
        invariant Valid()
        invariant Copied(mem, dst, old(mem), src, i) && OnlyPayload(old(mem), mem, blocks, c)
      {
        ghost var m1 := mem;
        assert InPayload(blocks, c, dst + i);
        CopyTarget(blocks, start, end, a, c, i);
        Store(dst + i, ByteOf(mem, src + i), c);
        CopiedOneMore(old(mem), m1, mem, blocks, c, dst, src, i);
        i := i + 1;
      }
    }

    /** krealloc of NULL or of a live pointer. A moved payload begins with all of the old one;
        every other live payload is untouched. */
    method Krealloc(ptr: Word, size: nat, can: nat) returns (q: Word)
      requires Valid()
      requires ptr == 0 || (ptr >= 32 && LiveAt(blocks, ptr - 32))
      modifies this
      ensures ptr == 0 ==> (q == 0 <==> Fails(old(blocks), old(mapped), max, size, can))
      ensures ptr != 0 ==> (q == 0 <==> size == 0 || (size > old(blocks)[ptr - 32].size - META &&
                                                      Fails(old(blocks), old(mapped), max, size, can)))
      ensures !Valid() <==> (ptr == 0 || size > old(blocks)[ptr - 32].size - META) &&
                            Loses(old(blocks), old(mapped), max, size, can)
      ensures q != 0 ==> LiveAt(blocks, q - 32) && blocks[q - 32].size - META >= size
      ensures ptr == 0 && q != 0 ==> Allocated(old(mem), old(blocks), mem, blocks, q, size)
      ensures ptr != 0 && 0 < size <= old(blocks)[ptr - 32].size - META ==>
                q == ptr && mem == old(mem) && blocks == old(blocks)
      ensures ptr != 0 && q != 0 ==>
                Copied(mem, q, old(mem), ptr, old(blocks)[ptr - 32].size - META)
      ensures ptr != 0 && (q != 0 || size == 0) ==> OthersIntact(old(mem), old(blocks), mem, blocks, ptr - 32)
      ensures ptr != 0 && q == 0 && size != 0 ==> mem == old(mem) && blocks == old(blocks)
      ensures ptr != 0 && q != 0 && q != ptr ==> (LiveAt(blocks, ptr - 32) <==> kind == AsWritten)
    {
      if ptr == 0 {
        q := Kmalloc(size, can);
        return;
      }
      if size == 0 {
        Kfree(ptr);
        ReleasedIntact(old(mem), old(blocks), mem, blocks, ptr - 32);
        return 0;
      }
      var hdr: Word := ptr - 32;
      ReadTags(kind, start, end, mem, blocks, hdr);
      q := 0;
      if Rd(mem, hdr + 24) != MAGIC {
        return;
      }
      var oldUser := SizeBits(Rd(mem, hdr)) - META;
      if size <= oldUser {
        q := ptr;
        return;
      }
      q := Move(ptr, size, oldUser, can);
    }

    /** The growing case of krealloc: a new block, a copy, and kfree of the old one. */
    method Move(ptr: Word, size: nat, oldUser: int, can: nat) returns (q: Word)
      requires Valid() && ptr >= 32 && LiveAt(blocks, ptr - 32) && oldUser == blocks[ptr - 32].size - META < size
      modifies this
      ensures q == 0 <==> Fails(old(blocks), old(mapped), max, size, can)
      ensures !Valid() <==> Loses(old(blocks), old(mapped), max, size, can)
      ensures q != 0 ==> LiveAt(blocks, q - 32) && blocks[q - 32].size - META >= size && q != ptr
      ensures q != 0 ==> Copied(mem, q, old(mem), ptr, oldUser)
      ensures q != 0 ==> OthersIntact(old(mem), old(blocks), mem, blocks, ptr - 32)
      ensures q == 0 ==> mem == old(mem) && blocks == old(blocks)
      ensures q != 0 ==> (LiveAt(blocks, ptr - 32) <==> kind == AsWritten)
    {
      ghost var m1;
      q, m1 := CopyToNew(ptr, size, oldUser, can);
      if q == 0 {
        return;
      }
      ghost var m2, blocks1, a, c := mem, blocks, ptr - 32, q - 32;
      Kfree(ptr);
      MovedIntact(old(mem), m1, m2, mem, old(blocks), blocks1, blocks, start, end, a, c, size);
      MovedContents(old(mem), m1, m2, mem, old(blocks), blocks1, start, old(end), start, end, a, c, oldUser);
    }

    /** A new block that begins with the old payload; m1 is the memory before the copy. */
    method CopyToNew(ptr: Word, size: nat, oldUser: int, can: nat) returns (q: Word, ghost m1: Mem)
      requires Valid() && ptr >= 32 && LiveAt(blocks, ptr - 32) && oldUser == blocks[ptr - 32].size - META < size
      modifies this
      ensures q == 0 <==> Fails(old(blocks), old(mapped), max, size, can)
      ensures !Valid() <==> Loses(old(blocks), old(mapped), max, size, can)
      ensures q == 0 ==> mem == old(mem) && blocks == old(blocks)
      ensures q != 0 ==> Allocated(old(mem), old(blocks), m1, blocks, q, size) && q >= 32
      ensures q != 0 ==> OnlyPayload(m1, mem, blocks, q - 32) && Copied(mem, q, m1, ptr, oldUser)
    {
      assert BlockFits(blocks, start, end, ptr - 32);
      q := Kmalloc(size, can);
      m1 := mem;
      if q != 0 {
        assert LiveAt(old(blocks), ptr - 32);
        assert BlockFits(blocks, start, end, q - 32);
        CopyPayload(ptr, q, oldUser);
      }
    }

    /** heap_check over any memory in which the next words lead from the head through `path` to 0:
        it reports nothing iff the prev words agree and every node is in order. */
    method HeapCheck(ghost path: seq<int>) returns (r: int)
      requires Chained(mem, head, path)
      ensures r == 0 <==>
              Linked(mem, head, path) && forall i :: 0 <= i < |path| ==> InOrder(mem, start, mapped, path[i])
    {
      var prev: Word, cur: Word := 0, head;
      ghost var k := 0;
      while cur != 0
        invariant 0 <= k <= |path| && cur == (if k < |path| then path[k] else 0)
        invariant prev == if k == 0 then 0 else path[k - 1]
        invariant forall i {:trigger LinkedAt(mem, path, i)} :: 0 <= i < k ==> LinkedAt(mem, path, i)
        invariant forall i :: 0 <= i < k ==> InOrder(mem, start, mapped, path[i])
        decreases |path| - k
      {
        assert ChainedAt(mem, path, k);
        r := -1;
        if cur < start || cur >= start + mapped {
          assert !InOrder(mem, start, mapped, path[k]);
          return;
        }
        if Rd(mem, cur + 24) != MAGIC || !CheckFooter(mem, cur) {
          assert !InOrder(mem, start, mapped, path[k]);
          return;
        }
        if LiveBit(Rd(mem, cur)) {
          assert !InOrder(mem, start, mapped, path[k]);
          return;
        }
        if Rd(mem, cur + 8) != prev {
          assert !LinkedAt(mem, path, k);
          return;
        }
        prev := cur;
        cur := Rd(mem, cur + 16);
        k := k + 1;
        assert k < |path| ==> ChainedAt(mem, path, k);
      }
      assert k < |path| ==> ChainedAt(mem, path, k);
      r := 0;
    }
  }

  ghost predicate ChainedAt(m: Mem, path: seq<int>, i: nat)
    requires i < |path|
  {
    path[i] > 0 && Rd(m, path[i] + 16) == if i == |path| - 1 then 0 else path[i + 1]
  }

  /** Following the next words from head visits `path` and ends. */
  ghost predicate Chained(m: Mem, head: int, path: seq<int>)
  {
    && head == (if path == [] then 0 else path[0])
    && forall i {:trigger ChainedAt(m, path, i)} :: 0 <= i < |path| ==> ChainedAt(m, path, i)
  }

  /** What heap_check demands of a node, apart from its prev word. */
  ghost predicate InOrder(m: Mem, start: int, mapped: int, f: int)
  {
    start <= f < start + mapped && Rd(m, f + 24) == MAGIC && CheckFooter(m, f) && !LiveBit(Rd(m, f))
  }

  /** A consistent heap passes heap_check. */
  lemma {:induction false} ConsistentPassesCheck(
    kind: FooterKind, start: int, mapped: int, m: Mem, head: Word, blocks: Blocks, list: seq<int>)
    requires Consistent(kind, start, start + mapped, m, head, blocks, list, 0)
    ensures Chained(m, head, list) && Linked(m, head, list)
    ensures forall i :: 0 <= i < |list| ==> InOrder(m, start, mapped, list[i])
  {
    ListNodes(kind, start, start + mapped, m, head, blocks, list, 0);
    forall i | 0 <= i < |list| ensures ChainedAt(m, list, i) {
      assert LinkedAt(m, list, i);
      assert i + 1 < |list| ==> LinkedAt(m, list, i + 1);
    }
    forall i | 0 <= i < |list| ensures InOrder(m, start, mapped, list[i]) {
      ReadTags(kind, start, start + mapped, m, blocks, list[i]);
    }
  }

  /** Every live block except a is still live, of the same size and with the same payload. */
  ghost predicate OthersIntact(m: Mem, blocks: Blocks, m': Mem, blocks': Blocks, a: int)
  {
    && (forall b :: LiveAt(blocks, b) && b != a ==> LiveAt(blocks', b) && blocks'[b] == blocks[b])
    && (forall b, x {:trigger InPayload(blocks, b, x)} ::
          InPayload(blocks, b, x) && blocks[b].live && b != a ==> Rd(m', x) == Rd(m, x))
  }

  /** Allocation, copy into the new payload, and release (or not) of the old block a. */
  lemma {:induction false} MovedIntact(
    m: Mem, m1: Mem, m2: Mem, m3: Mem, blocks: Blocks, blocks1: Blocks, blocks2: Blocks, start: int, end: int,
    a: int, c: int, size: int)
    requires Tiled(blocks1, start, end) && LiveAt(blocks, a) && Allocated(m, blocks, m1, blocks1, c + 32, size)
    requires OnlyPayload(m1, m2, blocks1, c)
    requires Released(m2, blocks1, m3, blocks2, a) || (m3 == m2 && blocks2 == blocks1)
    ensures OthersIntact(m, blocks, m3, blocks2, a)
    ensures LiveAt(blocks2, c) && blocks2[c] == blocks1[c]
    ensures forall x {:trigger InPayload(blocks1, c, x)} :: InPayload(blocks1, c, x) ==> Rd(m3, x) == Rd(m2, x)
  {
    forall b, x | InPayload(blocks, b, x) && blocks[b].live && b != a ensures Rd(m3, x) == Rd(m, x) {
      assert LiveAt(blocks, b) && LiveAt(blocks1, b) && LiveAt(blocks2, b);
      assert InPayload(blocks1, b, x) && InPayload(blocks2, b, x);
      PayloadsDisjoint(blocks1, start, end, b, c, x);
    }
    forall x | InPayload(blocks1, c, x) ensures Rd(m3, x) == Rd(m2, x) {
      assert LiveAt(blocks2, c);
      assert InPayload(blocks2, c, x);
    }
  }

  lemma {:induction false} MovedContents(
    m: Mem, m1: Mem, m2: Mem, m3: Mem, blocks: Blocks, blocks1: Blocks, start: int, end: int, start1: int,
    end1: int, a: int, c: int, n: int)
    requires Tiled(blocks, start, end) && Tiled(blocks1, start1, end1)
    requires LiveAt(blocks, a) && n == blocks[a].size - META && c in blocks1 && n <= blocks1[c].size - META
    requires PayloadsKept(m, m1, blocks) && Copied(m2, c + 32, m1, a + 32, n)
    requires forall x {:trigger InPayload(blocks1, c, x)} :: InPayload(blocks1, c, x) ==> Rd(m3, x) == Rd(m2, x)
    ensures Copied(m3, c + 32, m, a + 32, n)
  {
    var src, dst := a + 32, c + 32;
    forall i | 0 <= i < n ensures CopiedAt(m3, dst, m, src, i) {
      assert CopiedAt(m2, dst, m1, src, i);
      assert InPayload(blocks1, c, dst + i) && InPayload(blocks, a, src + i);
      WordInPayload(blocks1, start1, end1, c, dst + i);
      WordInPayload(blocks, start, end, a, src + i);
    }
  }

  // ---------------------------------------------------------------- bytes of a payload

  /** The address of the word that holds byte x. */
  function WordOf(x: int): int { x - x % 8 }

  function ByteOf(m: Mem, x: int): Byte { Digit(Rd(m, WordOf(x)), x % 8) }

  /** The memory with byte x replaced. */
  function WithByteAt(m: Mem, x: int, b: Byte): (m': Mem)
    ensures WordOf(x) in m' && m' == m[WordOf(x) := m'[WordOf(x)]]
  {
    assert Power256(8) == TWO_64;
    SetDigitFits(Rd(m, WordOf(x)), x % 8, b, 8);
    m[WordOf(x) := SetDigit(Rd(m, WordOf(x)), x % 8, b)]
  }

  lemma {:induction false} ByteOfStore(m: Mem, x: int, b: Byte, y: int)
    ensures ByteOf(WithByteAt(m, x, b), y) == if y == x then b else ByteOf(m, y)
  {
    if WordOf(y) == WordOf(x) {
      DigitSet(Rd(m, WordOf(x)), x % 8, b, y % 8);
    }
  }

  lemma {:induction false} WordAbove(a: int, x: int)
    requires a % 16 == 0 && a + 32 <= x
    ensures a + 32 <= WordOf(x) && WordOf(x) % 8 == 0
  {
    var k, j := a / 16, x / 8;
    assert a + 32 == 8 * (2 * k + 4) && WordOf(x) == 8 * j;
    assert j >= 2 * k + 4;
  }

  /** The payload consists of whole words. */
  lemma {:induction false} WordInPayload(blocks: Blocks, start: int, end: int, a: int, x: int)
    requires Tiled(blocks, start, end) && InPayload(blocks, a, x)
    ensures InPayload(blocks, a, WordOf(x)) && WordOf(x) % 8 == 0
  {
    assert BlockFits(blocks, start, end, a);
    WordAbove(a, x);
  }

  lemma {:induction false} CopyTarget(blocks: Blocks, start: int, end: int, a: int, c: int, i: int)
    requires Tiled(blocks, start, end) && InPayload(blocks, a, a + 32 + i) && InPayload(blocks, c, c + 32 + i) && a != c
    ensures InPayload(blocks, c, WordOf(c + 32 + i)) && !InPayload(blocks, c, WordOf(a + 32 + i))
  {
    WordInPayload(blocks, start, end, a, a + 32 + i);
    WordInPayload(blocks, start, end, c, c + 32 + i);
    PayloadsDisjoint(blocks, start, end, a, c, WordOf(a + 32 + i));
  }

  ghost predicate CopiedAt(m': Mem, dst: int, m: Mem, src: int, i: int)
  {
    ByteOf(m', dst + i) == ByteOf(m, src + i)
  }

  /** The n bytes at dst are those that were at src. */
  ghost predicate Copied(m': Mem, dst: int, m: Mem, src: int, n: int)
  {
    forall i {:trigger CopiedAt(m', dst, m, src, i)} :: 0 <= i < n ==> CopiedAt(m', dst, m, src, i)
  }

  /** Only words of block c's payload have changed. */
  ghost predicate OnlyPayload(m: Mem, m': Mem, blocks: Blocks, c: int)
  {
    forall x {:trigger Rd(m', x)} :: !InPayload(blocks, c, x) ==> Rd(m', x) == Rd(m, x)
  }

  lemma {:induction false} CopiedOneMore(m: Mem, m1: Mem, m2: Mem, blocks: Blocks, c: int, dst: int, src: int, i: int)
    requires Copied(m1, dst, m, src, i) && OnlyPayload(m, m1, blocks, c)
    requires InPayload(blocks, c, WordOf(dst + i)) && !InPayload(blocks, c, WordOf(src + i))
    requires m2 == WithByteAt(m1, dst + i, ByteOf(m1, src + i))
    ensures Copied(m2, dst, m, src, i + 1) && OnlyPayload(m, m2, blocks, c)
  {
    forall j | 0 <= j < i + 1 ensures CopiedAt(m2, dst, m, src, j) {
      ByteOfStore(m1, dst + i, ByteOf(m1, src + i), dst + j);
      assert j < i ==> CopiedAt(m1, dst, m, src, j);
      assert Rd(m1, WordOf(src + i)) == Rd(m, WordOf(src + i));
    }
    forall x | !InPayload(blocks, c, x) ensures Rd(m2, x) == Rd(m, x) {
      assert Rd(m1, x) == Rd(m, x);
    }
  }

  lemma {:induction false} ReleasedIntact(m: Mem, blocks: Blocks, m': Mem, blocks': Blocks, a: int)
    requires Released(m, blocks, m', blocks', a) || (m' == m && blocks' == blocks)
    ensures OthersIntact(m, blocks, m', blocks', a)
  {
    forall b, x | InPayload(blocks, b, x) && blocks[b].live && b != a ensures Rd(m', x) == Rd(m, x) {
      assert LiveAt(blocks, b) && LiveAt(blocks', b);
      assert InPayload(blocks', b, x);
    }
  }

  lemma {:induction false} NoBlockBelow(blocks: Blocks, start: int, end: int)
    requires Tiled(blocks, start, end)
    ensures forall a :: a in blocks ==> start <= a < end
  {
    forall a | a in blocks ensures start <= a < end {
      assert BlockFits(blocks, start, end, a);
    }
  }

  lemma {:induction false} MergingKeeps(
    m: Mem, m2: Mem, m3: Mem, m4: Mem, blocks: Blocks, blocks2: Blocks, blocks3: Blocks)
    requires SameLive(blocks, blocks2) && SameLive(blocks2, blocks3)
    requires PayloadsKept(m, m2, blocks2) && PayloadsKept(m2, m3, blocks3) && PayloadsKept(m3, m4, blocks3)
    ensures SameLive(blocks, blocks3) && PayloadsKept(m, m4, blocks3)
  {
    PayloadsChain(m, m2, m3, blocks2, blocks3);
    PayloadsChain(m, m3, m4, blocks3, blocks3);
    forall b ensures LiveAt(blocks, b) <==> LiveAt(blocks3, b) {
      assert LiveAt(blocks, b) <==> LiveAt(blocks2, b);
    }
  }

  lemma {:induction false} ReleasedByMerging(m: Mem, m1: Mem, m2: Mem, blocks: Blocks, blocks2: Blocks, a: int)
    requires LiveAt(blocks, a)
    requires PayloadsKept(m, m1, Retyped(blocks, a, false)) && SameLive(Retyped(blocks, a, false), blocks2)
    requires PayloadsKept(m1, m2, blocks2)
    ensures Released(m, blocks, m2, blocks2, a)
  {
    var blocks1 := Retyped(blocks, a, false);
    PayloadsChain(m, m1, m2, blocks1, blocks2);
    forall b ensures LiveAt(blocks2, b) <==> LiveAt(blocks, b) && b != a {
      assert LiveAt(blocks1, b) <==> LiveAt(blocks, b) && b != a;
    }
  }

  lemma {:induction false} FromCoalesced(blocks: Blocks, start: int, end: int, a: int)
    requires Tiled(blocks, start, end) && 0 < start && Coalesced(blocks, 0) && FreeAt(blocks, a)
    ensures Coalesced(blocks, a) && NextNotFree(blocks, a)
  {
    assert BlockFits(blocks, start, end, a);
    assert CoalescedAt(blocks, 0, a);
    NoBlockAtZero(blocks, start, end);
    forall x ensures CoalescedAt(blocks, a, x) {
      assert CoalescedAt(blocks, 0, x);
    }
  }

  /** Allocation from the heap as it was, or as it is after growing by one free block. */
  lemma {:induction false} AllocatedFrom(
    m: Mem, m1: Mem, m2: Mem, blocks: Blocks, grown: Blocks, blocks': Blocks, p: int, size: int, total: int)
    requires total - META >= size && SameLive(blocks, grown)
    requires PayloadsKept(m, m1, blocks) && Allocated(m1, grown, m2, blocks', p, total - META)
    ensures Allocated(m, blocks, m2, blocks', p, size)
  {
    forall b | LiveAt(blocks, b) ensures LiveAt(grown, b) && grown[b] == blocks[b] {
    }
    PayloadsOfOthers(m, m1, m2, blocks, grown);
  }

  lemma {:induction false} NoFit(blocks: Blocks, list: seq<int>, total: int)
    requires Listed(blocks, list, 0) && 0 !in blocks
    requires forall j :: 0 <= j < |list| ==> list[j] in blocks && blocks[list[j]].size < total
    ensures NothingFits(blocks, total)
  {
    forall a | FreeAt(blocks, a) ensures blocks[a].size < total {
      var k := PlaceInList(blocks, list, 0, a);
    }
  }

  lemma {:induction false} SameWrite(m: Mem, x: int, v: Word)
    requires Rd(m, x) == v && v != 0
    ensures m[x := v] == m
  {
  }

  lemma {:induction false} CutAllocates(m: Mem, m': Mem, blocks: Blocks, a: int, r: int, total: int, size: int)
    requires FreeAt(blocks, a) && r !in blocks && a % 16 == 0 && PayloadsKept(m, m', blocks) && r != a
    ensures Allocated(m, blocks, m', Cut(blocks, a, r, total, size, true), a + 32, total - META)
  {
  }

  lemma {:induction false} RetypeAllocates(m: Mem, m': Mem, blocks: Blocks, a: int, total: int)
    requires FreeAt(blocks, a) && a % 16 == 0 && blocks[a].size >= total && PayloadsKept(m, m', blocks)
    ensures Allocated(m, blocks, m', Retyped(blocks, a, true), a + 32, total - META)
  {
  }

  lemma {:induction false} NothingAtEnd(blocks: Blocks, start: int, end: int)
    requires Tiled(blocks, start, end)
    ensures !FreeAt(blocks, end)
  {
    forall a | a in blocks ensures a < end {
      assert BlockFits(blocks, start, end, a);
    }
  }

  lemma {:induction false} PlaceInList(blocks: Blocks, list: seq<int>, h: int, a: int) returns (k: nat)
    requires Listed(blocks, list, h) && FreeAt(blocks, a) && a != h
    ensures k < |list| && list[k] == a
  {
    assert a in list;
    k :| 0 <= k < |list| && list[k] == a;
  }
}
