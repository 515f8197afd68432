/**
 What each step of the heap's operations does to the block structure: freeing, merging, list
 insertion, splitting, whole-block allocation and extension. Every lemma carries the invariant
 across one step and shows that no live payload is written.
 */
module HeapSteps {
  import opened Words
  import opened Collections
  import opened HeapModel

  /** The invariant; h is a free block that is out of the list while it is worked on (0: none). */
  ghost predicate Consistent(
    kind: FooterKind, start: int, end: int, m: Mem, head: Word, blocks: Blocks, list: seq<int>, h: int)
  {
    && 0 < start && end <= TWO_64 && end - start < ALLOCATED
    && Tiled(blocks, start, end)
    && Tagged(m, kind, blocks)
    && Linked(m, head, list)
    && Listed(blocks, list, h)
    && MemWithin(m, start, end)
  }

  /** Only mapped addresses have been written. */
  ghost predicate MemWithin(m: Mem, start: int, end: int)
  {
    forall x {:trigger WrittenWithin(m, start, end, x)} :: WrittenWithin(m, start, end, x)
  }

  ghost predicate WrittenWithin(m: Mem, start: int, end: int, x: int)
  {
    x in m ==> start <= x < end
  }

  /** No word of any live payload changes. */
  ghost predicate PayloadsKept(m: Mem, m': Mem, blocks: Blocks)
  {
    forall b, x {:trigger InPayload(blocks, b, x)} ::
      InPayload(blocks, b, x) && blocks[b].live ==> Rd(m', x) == Rd(m, x)
  }

  ghost predicate LiveAt(blocks: Blocks, b: int)
  {
    b in blocks && blocks[b].live
  }

  /** The live blocks of both structures are the same, with the same sizes. */
  ghost predicate SameLive(blocks: Blocks, blocks': Blocks)
  {
    && (forall b :: LiveAt(blocks, b) <==> LiveAt(blocks', b))
    && (forall b :: LiveAt(blocks, b) && LiveAt(blocks', b) ==> blocks'[b] == blocks[b])
  }

  ghost predicate PrevNotFree(blocks: Blocks, h: int)
  {
    forall a :: FreeAt(blocks, a) ==> a + blocks[a].size != h
  }

  ghost predicate NextNotFree(blocks: Blocks, h: int)
    requires h in blocks
  {
    !FreeAt(blocks, h + blocks[h].size)
  }

  // ---------------------------------------------------------------- helpers

  lemma {:induction false} ListNodes(
    kind: FooterKind, start: int, end: int, m: Mem, head: Word, blocks: Blocks, list: seq<int>, h: int)
    requires Consistent(kind, start, end, m, head, blocks, list, h)
    ensures Nodes(list)
    ensures forall i :: 0 <= i < |list| ==> list[i] in blocks && !blocks[list[i]].live
  {
    forall i | 0 <= i < |list|
      ensures 0 < list[i] < TWO_64 && list[i] % 16 == 0 && list[i] in blocks && !blocks[list[i]].live
    {
      assert list[i] in list;
      assert BlockFits(blocks, start, end, list[i]);
    }
  }

  lemma {:induction false} StampKeepsPayloads(
    m: Mem, kind: FooterKind, blocks: Blocks, start: int, end: int, a: int, size: int, live: bool)
    requires Tiled(blocks, start, end) && a in blocks && BlockFits(blocks, start, end, a)
    requires blocks[a] == Block(size, live)
    ensures PayloadsKept(m, Stamp(m, kind, a, size, live), blocks)
  {
    forall b, x | InPayload(blocks, b, x) ensures Rd(Stamp(m, kind, a, size, live), x) == Rd(m, x) {
      assert Apart(blocks, a, b) && Apart(blocks, b, a);
      StampFrame(m, kind, a, size, live, x);
    }
  }

  lemma {:induction false} LinksKeepPayloads(m: Mem, m': Mem, blocks: Blocks, start: int, end: int, nodes: seq<int>)
    requires Tiled(blocks, start, end) && OnlyLinks(m, m', nodes)
    requires forall f :: f in nodes ==> f in blocks && !blocks[f].live
    ensures PayloadsKept(m, m', blocks)
  {
    forall b, x | InPayload(blocks, b, x) && blocks[b].live ensures Rd(m', x) == Rd(m, x) {
      LinkWordsApart(blocks, start, end, nodes, b, x);
    }
  }

  lemma {:induction false} LinksKeepTagged(
    m: Mem, m': Mem, kind: FooterKind, blocks: Blocks, start: int, end: int, nodes: seq<int>)
    requires Tiled(blocks, start, end) && OnlyLinks(m, m', nodes) && Tagged(m, kind, blocks)
    requires forall f :: f in nodes ==> f in blocks
    ensures Tagged(m', kind, blocks)
  {
    forall b | b in blocks ensures TaggedAt(m', kind, b, blocks[b]) {
      assert TaggedAt(m, kind, b, blocks[b]);
      LinksKeepTags(m, m', kind, blocks, start, end, nodes, b);
    }
  }

  function Without(list: seq<int>, k: nat): seq<int>
    requires k < |list|
  {
    list[..k] + list[k + 1..]
  }

  lemma {:induction false} WithoutMembers(list: seq<int>, k: nat)
    requires Distinct(list) && k < |list|
    ensures Distinct(Without(list, k))
    ensures forall a :: a in Without(list, k) <==> a in list && a != list[k]
  {
  }

  lemma {:induction false} StampWithin(m: Mem, kind: FooterKind, start: int, end: int, a: int, size: int, live: bool)
    requires MemWithin(m, start, end) && start <= a && a + size <= end && MIN_BLOCK <= size < ALLOCATED
    ensures MemWithin(Stamp(m, kind, a, size, live), start, end)
  {
    forall x ensures WrittenWithin(Stamp(m, kind, a, size, live), start, end, x) {
      assert WrittenWithin(m, start, end, x);
    }
  }

  lemma {:induction false} WordInside(blocks: Blocks, start: int, end: int, f: int)
    requires Tiled(blocks, start, end) && f in blocks
    ensures start <= f + 8 < end && start <= f + 16 < end
  {
    assert BlockFits(blocks, start, end, f);
  }

  lemma {:induction false} PushWithin(m: Mem, head: Word, start: int, end: int, blocks: Blocks, list: seq<int>, h: Word)
    requires MemWithin(m, start, end) && Tiled(blocks, start, end) && Linked(m, head, list)
    requires h in blocks && forall i :: 0 <= i < |list| ==> list[i] in blocks
    ensures MemWithin(PushMem(m, head, h), start, end)
  {
    WordInside(blocks, start, end, h);
    if list != [] {
      WordInside(blocks, start, end, list[0]);
    }
    forall x ensures WrittenWithin(PushMem(m, head, h), start, end, x) {
      assert WrittenWithin(m, start, end, x);
    }
  }

  lemma {:induction false} PushListed(blocks: Blocks, list: seq<int>, h: int)
    requires Listed(blocks, list, h) && FreeAt(blocks, h) && 0 !in blocks
    ensures Listed(blocks, [h] + list, 0)
  {
    var list' := [h] + list;
    forall i, j | 0 <= i < j < |list'| ensures list'[i] != list'[j] {
      assert list'[j] == list[j - 1] && list[j - 1] in list;
    }
  }

  lemma {:induction false} NoBlockAtZero(blocks: Blocks, start: int, end: int)
    requires Tiled(blocks, start, end) && 0 < start
    ensures 0 !in blocks
  {
    assert 0 in blocks ==> BlockFits(blocks, start, end, 0);
  }

  lemma {:induction false} TagsCarryOver(m: Mem, kind: FooterKind, blocks: Blocks, blocks': Blocks, a: int)
    requires TaggedBut(m, kind, blocks, a)
    requires forall b :: b in blocks' && b != a ==> b in blocks && blocks'[b] == blocks[b]
    ensures TaggedBut(m, kind, blocks', a)
  {
    forall b | b in blocks' && b != a ensures TaggedAt(m, kind, b, blocks'[b]) {
      assert TaggedAt(m, kind, b, blocks[b]);
    }
  }

  /** Stamping block a with its entry in `blocks`, everything else being in order already. */
  lemma {:induction false} Restamp(
    kind: FooterKind, start: int, end: int, m: Mem, head: Word, blocks: Blocks, list: seq<int>, h: int, a: int,
    size: int, live: bool)
    requires 0 < start && end <= TWO_64 && end - start < ALLOCATED && MemWithin(m, start, end)
    requires Tiled(blocks, start, end) && Linked(m, head, list) && Listed(blocks, list, h)
    requires a in blocks && blocks[a] == Block(size, live)
    requires TaggedBut(m, kind, blocks, a)
    ensures MIN_BLOCK <= size < ALLOCATED
    ensures Consistent(kind, start, end, Stamp(m, kind, a, size, live), head, blocks, list, h)
    ensures PayloadsKept(m, Stamp(m, kind, a, size, live), blocks)
  {
    assert BlockFits(blocks, start, end, a);
    forall i | 0 <= i < |list| ensures list[i] in blocks {
      var f := list[i];
      assert f in list;
    }
    StampKeepsTags(m, kind, blocks, start, end, a, size, live);
    StampKeepsLinks(m, kind, blocks, start, end, a, size, live, head, list);
    StampKeepsPayloads(m, kind, blocks, start, end, a, size, live);
    StampWithin(m, kind, start, end, a, size, live);
  }

  // ---------------------------------------------------------------- freeing

  function Retyped(blocks: Blocks, a: int, live: bool): Blocks
    requires a in blocks
  {
    blocks[a := Block(blocks[a].size, live)]
  }

  /** kfree marks block a free; it is not in the list yet. */
  lemma {:induction false} FreeStep(
    kind: FooterKind, start: int, end: int, m: Mem, head: Word, blocks: Blocks, list: seq<int>, a: int)
    requires Consistent(kind, start, end, m, head, blocks, list, 0) && LiveAt(blocks, a)
    ensures BlockFits(blocks, start, end, a)
    ensures Consistent(kind, start, end, Stamp(m, kind, a, blocks[a].size, false), head, Retyped(blocks, a, false),
            list, a)
    ensures PayloadsKept(m, Stamp(m, kind, a, blocks[a].size, false), Retyped(blocks, a, false))
  {
    var blocks1 := Retyped(blocks, a, false);
    assert BlockFits(blocks, start, end, a);
    RetypedTiled(blocks, start, end, a, false);
    NoBlockAtZero(blocks, start, end);
    TagsCarryOver(m, kind, blocks, blocks1, a);
    Restamp(kind, start, end, m, head, blocks1, list, a, a, blocks[a].size, false);
  }

  lemma {:induction false} FreedCoalesced(blocks: Blocks, start: int, end: int, a: int)
    requires Tiled(blocks, start, end) && 0 < start && Coalesced(blocks, 0) && LiveAt(blocks, a)
    ensures Coalesced(Retyped(blocks, a, false), a)
  {
    var blocks1 := Retyped(blocks, a, false);
    forall x ensures CoalescedAt(blocks1, a, x) {
      assert CoalescedAt(blocks, 0, x);
      if x in blocks {
        assert BlockFits(blocks, start, end, x);
      }
    }
  }

  // ---------------------------------------------------------------- insertion

  /** The worked-on block joins the list at its head. */
  lemma {:induction false} InsertStep(
    kind: FooterKind, start: int, end: int, m: Mem, head: Word, blocks: Blocks, list: seq<int>, h: Word)
    requires Consistent(kind, start, end, m, head, blocks, list, h) && FreeAt(blocks, h)
    ensures Consistent(kind, start, end, PushMem(m, head, h), h, blocks, [h] + list, 0)
    ensures PayloadsKept(m, PushMem(m, head, h), blocks)
  {
    ListNodes(kind, start, end, m, head, blocks, list, h);
    assert BlockFits(blocks, start, end, h);
    NoBlockAtZero(blocks, start, end);
    PushLinked(m, head, list, h);
    PushFrame(m, head, list, h);
    var nodes := [h as int] + list;
    assert forall f :: f in nodes ==> f in blocks && !blocks[f].live;
    LinksKeepTagged(m, PushMem(m, head, h), kind, blocks, start, end, nodes);
    LinksKeepPayloads(m, PushMem(m, head, h), blocks, start, end, nodes);
    PushListed(blocks, list, h);
    PushWithin(m, head, start, end, blocks, list, h);
  }

  lemma {:induction false} InsertedCoalesced(blocks: Blocks, h: int)
    requires Coalesced(blocks, h) && h in blocks && PrevNotFree(blocks, h) && NextNotFree(blocks, h)
    ensures Coalesced(blocks, 0)
  {
    forall a ensures CoalescedAt(blocks, 0, a) {
      assert CoalescedAt(blocks, h, a);
    }
  }

  // ---------------------------------------------------------------- merging

  /** The worked-on block and its free neighbour: lo and hi are adjacent, one of them is the
      worked-on block h and the other is entry k of the list. */
  ghost predicate Mergeable(blocks: Blocks, list: seq<int>, h: int, lo: int, k: nat)
  {
    && k < |list|
    && FreeAt(blocks, lo) && FreeAt(blocks, lo + blocks[lo].size)
    && ((h == lo && list[k] == lo + blocks[lo].size) || (list[k] == lo && h == lo + blocks[lo].size))
  }

  function MergedSize(blocks: Blocks, lo: int): int
    requires lo in blocks && lo + blocks[lo].size in blocks
  {
    blocks[lo].size + blocks[lo + blocks[lo].size].size
  }

  lemma {:induction false} MergedSizeFits(blocks: Blocks, start: int, end: int, lo: int)
    requires Tiled(blocks, start, end) && end - start < ALLOCATED
    requires lo in blocks && lo + blocks[lo].size in blocks
    ensures MIN_BLOCK <= MergedSize(blocks, lo) < ALLOCATED
  {
    assert BlockFits(blocks, start, end, lo) && BlockFits(blocks, start, end, lo + blocks[lo].size);
  }

  lemma {:induction false} MergedListed(blocks: Blocks, start: int, end: int, list: seq<int>, h: int, lo: int, k: nat)
    requires Tiled(blocks, start, end) && Listed(blocks, list, h) && Mergeable(blocks, list, h, lo, k)
    ensures Listed(Merged(blocks, lo, false), Without(list, k), lo)
    ensures SameLive(blocks, Merged(blocks, lo, false))
  {
    WithoutMembers(list, k);
    assert BlockFits(blocks, start, end, lo);
  }

  /** list_remove and the new tags turn the two blocks into one worked-on block at lo. */
  lemma {:induction false} MergeStep(
    kind: FooterKind, start: int, end: int, m: Mem, head: Word, blocks: Blocks, list: seq<int>, h: int, lo: int,
    k: nat)
    requires Consistent(kind, start, end, m, head, blocks, list, h) && Mergeable(blocks, list, h, lo, k)
    ensures MIN_BLOCK <= MergedSize(blocks, lo) < ALLOCATED
    ensures Consistent(kind, start, end, Stamp(UnlinkMem(m, list[k]), kind, lo, MergedSize(blocks, lo), false),
                       UnlinkHead(m, head, list[k]), Merged(blocks, lo, false), Without(list, k), lo)
    ensures PayloadsKept(m, Stamp(UnlinkMem(m, list[k]), kind, lo, MergedSize(blocks, lo), false),
            Merged(blocks, lo, false))
    ensures SameLive(blocks, Merged(blocks, lo, false))
  {
    var m1, head1, list1 := UnlinkMem(m, list[k]), UnlinkHead(m, head, list[k]), Without(list, k);
    var blocks1 := Merged(blocks, lo, false);
    assert blocks1[lo] == Block(MergedSize(blocks, lo), false);
    MergedSizeFits(blocks, start, end, lo);
    MergeUnlinked(kind, start, end, m, head, blocks, list, h, k);
    MergedTiled(blocks, start, end, lo, false);
    MergedListed(blocks, start, end, list, h, lo, k);
    TagsCarryOver(m1, kind, blocks, blocks1, lo);
    Restamp(kind, start, end, m1, head1, blocks1, list1, lo, lo, MergedSize(blocks, lo), false);
    PayloadsChain(m, m1, Stamp(m1, kind, lo, MergedSize(blocks, lo), false), blocks, blocks1);
  }

  lemma {:induction false} UnlinkWithin(
    m: Mem, head: Word, start: int, end: int, blocks: Blocks, list: seq<int>, k: nat)
    requires MemWithin(m, start, end) && Tiled(blocks, start, end) && Linked(m, head, list) && k < |list|
    requires forall i :: 0 <= i < |list| ==> list[i] in blocks
    ensures MemWithin(UnlinkMem(m, list[k]), start, end)
  {
    LinkValues(m, head, list, k);
    WordInside(blocks, start, end, list[k]);
    if k > 0 {
      WordInside(blocks, start, end, list[k - 1]);
    }
    if k + 1 < |list| {
      WordInside(blocks, start, end, list[k + 1]);
    }
    forall x ensures WrittenWithin(UnlinkMem(m, list[k]), start, end, x) {
      assert WrittenWithin(m, start, end, x);
    }
  }

  /** After list_remove the tags and payloads are intact and the list is linked. */
  lemma {:induction false} MergeUnlinked(
    kind: FooterKind, start: int, end: int, m: Mem, head: Word, blocks: Blocks, list: seq<int>, h: int, k: nat)
    requires Consistent(kind, start, end, m, head, blocks, list, h) && k < |list|
    ensures Linked(UnlinkMem(m, list[k]), UnlinkHead(m, head, list[k]), Without(list, k))
    ensures Tagged(UnlinkMem(m, list[k]), kind, blocks)
    ensures PayloadsKept(m, UnlinkMem(m, list[k]), blocks)
    ensures MemWithin(UnlinkMem(m, list[k]), start, end)
  {
    ListNodes(kind, start, end, m, head, blocks, list, h);
    UnlinkLinked(m, head, list, k);
    UnlinkFrame(m, head, list, k);
    LinksKeepTagged(m, UnlinkMem(m, list[k]), kind, blocks, start, end, list);
    LinksKeepPayloads(m, UnlinkMem(m, list[k]), blocks, start, end, list);
    UnlinkWithin(m, head, start, end, blocks, list, k);
  }

  lemma {:induction false} PayloadsChain(m: Mem, m1: Mem, m2: Mem, blocks: Blocks, blocks': Blocks)
    requires PayloadsKept(m, m1, blocks) && PayloadsKept(m1, m2, blocks')
    requires forall b :: LiveAt(blocks', b) ==> LiveAt(blocks, b) && blocks[b] == blocks'[b]
    ensures PayloadsKept(m, m2, blocks')
  {
    forall b, x | InPayload(blocks', b, x) && blocks'[b].live ensures Rd(m2, x) == Rd(m, x) {
      assert LiveAt(blocks', b);
      assert InPayload(blocks, b, x);
    }
  }

  lemma {:induction false} MergedCoalesced(blocks: Blocks, start: int, end: int, h: int, lo: int)
    requires Tiled(blocks, start, end) && Coalesced(blocks, h)
    requires FreeAt(blocks, lo) && FreeAt(blocks, lo + blocks[lo].size)
    requires h == lo || h == lo + blocks[lo].size
    ensures Coalesced(Merged(blocks, lo, false), lo)
    ensures h != lo || PrevNotFree(blocks, lo) ==> PrevNotFree(Merged(blocks, lo, false), lo)
    ensures h == lo ==> NextNotFree(Merged(blocks, lo, false), lo)
  {
    var hi := lo + blocks[lo].size;
    var blocks' := Merged(blocks, lo, false);
    assert BlockFits(blocks, start, end, lo) && BlockFits(blocks, start, end, hi);
    forall x ensures CoalescedAt(blocks', lo, x) {
      assert CoalescedAt(blocks, h, x);
      if x in blocks {
        assert BlockFits(blocks, start, end, x);
      }
    }
    forall x | FreeAt(blocks', x)
      ensures x + blocks'[x].size == lo ==> h == lo && FreeAt(blocks, x) && x + blocks[x].size == lo
    {
      assert CoalescedAt(blocks, h, x);
      assert BlockFits(blocks, start, end, x);
    }
    assert CoalescedAt(blocks, h, hi);
  }

  /** merge_prev leaves the block alone only when what precedes it is not free. */
  lemma {:induction false} NothingBefore(blocks: Blocks, start: int, end: int, h: int)
    requires Tiled(blocks, start, end)
    ensures PrevNotFree(blocks, start)
    ensures forall p :: LiveAt(blocks, p) && p + blocks[p].size == h ==> PrevNotFree(blocks, h)
  {
    forall a | FreeAt(blocks, a) ensures a + blocks[a].size != start {
      assert BlockFits(blocks, start, end, a);
    }
    forall p | LiveAt(blocks, p) && p + blocks[p].size == h ensures PrevNotFree(blocks, h) {
      forall a | FreeAt(blocks, a) ensures a + blocks[a].size != h {
        assert BlockFits(blocks, start, end, a) && BlockFits(blocks, start, end, p);
        assert Apart(blocks, a, p) && Apart(blocks, p, a);
      }
    }
  }

  // ---------------------------------------------------------------- allocating

  /** Taking a whole free block off the list. */
  lemma {:induction false} WholeStep(
    kind: FooterKind, start: int, end: int, m: Mem, head: Word, blocks: Blocks, list: seq<int>, k: nat)
    requires Consistent(kind, start, end, m, head, blocks, list, 0) && k < |list| && FreeAt(blocks, list[k])
    ensures BlockFits(blocks, start, end, list[k])
    ensures Consistent(kind, start, end, Stamp(UnlinkMem(m, list[k]), kind, list[k], blocks[list[k]].size, true),
                       UnlinkHead(m, head, list[k]), Retyped(blocks, list[k], true), Without(list, k), 0)
    ensures PayloadsKept(m, Stamp(UnlinkMem(m, list[k]), kind, list[k], blocks[list[k]].size, true), blocks)
  {
    var a := list[k];
    var m1, head1, list1, blocks1 :=
      UnlinkMem(m, a), UnlinkHead(m, head, a), Without(list, k), Retyped(blocks, a, true);
    assert BlockFits(blocks, start, end, a);
    MergeUnlinked(kind, start, end, m, head, blocks, list, 0, k);
    RetypedTiled(blocks, start, end, a, true);
    WithoutMembers(list, k);
    NoBlockAtZero(blocks, start, end);
    TagsCarryOver(m1, kind, blocks, blocks1, a);
    Restamp(kind, start, end, m1, head1, blocks1, list1, 0, a, blocks[a].size, true);
    PayloadsOfOthers(m, m1, Stamp(m1, kind, a, blocks[a].size, true), blocks, blocks1);
  }

  lemma {:induction false} PayloadsOfOthers(m: Mem, m1: Mem, m2: Mem, blocks: Blocks, blocks': Blocks)
    requires PayloadsKept(m, m1, blocks) && PayloadsKept(m1, m2, blocks')
    requires forall b :: LiveAt(blocks, b) ==> LiveAt(blocks', b) && blocks[b] == blocks'[b]
    ensures PayloadsKept(m, m2, blocks)
  {
    forall b, x | InPayload(blocks, b, x) && blocks[b].live ensures Rd(m2, x) == Rd(m, x) {
      assert LiveAt(blocks, b);
      assert InPayload(blocks', b, x);
    }
  }

  lemma {:induction false} WholeCoalesced(blocks: Blocks, start: int, end: int, a: int)
    requires Tiled(blocks, start, end) && 0 < start && Coalesced(blocks, a) && FreeAt(blocks, a)
    ensures Coalesced(Retyped(blocks, a, true), 0)
  {
    var blocks1 := Retyped(blocks, a, true);
    forall x ensures CoalescedAt(blocks1, 0, x) {
      assert CoalescedAt(blocks, a, x);
    }
  }

  /** The rest block gets its tags. */
  lemma {:induction false} SplitRest(
    kind: FooterKind, start: int, end: int, m: Mem, head: Word, blocks: Blocks, cut: Blocks, list: seq<int>, a: int,
    r: int, size: int)
    requires Tiled(cut, start, end) && r in cut && cut[r] == Block(size, false) && MIN_BLOCK <= size < ALLOCATED
    requires r != a
    requires forall b :: b in cut && b != a && b != r ==> b in blocks && cut[b] == blocks[b]
    requires Tagged(m, kind, blocks) && Linked(m, head, list) && MemWithin(m, start, end)
    requires forall i :: 0 <= i < |list| ==> list[i] in cut
    ensures Linked(Stamp(m, kind, r, size, false), head, list) && MemWithin(Stamp(m, kind, r, size, false), start, end)
    ensures TaggedBut(Stamp(m, kind, r, size, false), kind, cut, a)
    ensures PayloadsKept(m, Stamp(m, kind, r, size, false), cut)
  {
    assert BlockFits(cut, start, end, r);
    StampKeepsLinks(m, kind, cut, start, end, r, size, false, head, list);
    StampKeepsPayloads(m, kind, cut, start, end, r, size, false);
    StampWithin(m, kind, start, end, r, size, false);
    forall b | b in cut && b != a ensures TaggedAt(Stamp(m, kind, r, size, false), kind, b, cut[b]) {
      if b != r {
        assert TaggedAt(m, kind, b, blocks[b]);
        StampKeepsTagsAt(m, kind, cut, start, end, r, size, false, b);
      }
    }
  }

  /** The rest block takes the cut block's place in the list. */
  lemma {:induction false} SplitRelinked(
    kind: FooterKind, start: int, end: int, m: Mem, head: Word, cut: Blocks, list: seq<int>, k: nat, r: Word)
    requires Tiled(cut, start, end) && Linked(m, head, list) && Nodes(list) && k < |list| && MemWithin(m, start, end)
    requires r in cut && !cut[r].live && r !in list && r > 0 && r % 16 == 0
    requires forall f :: f in list ==> f in cut && !cut[f].live
    requires TaggedBut(m, kind, cut, list[k])
    ensures Linked(ReplaceMem(m, list[k], r), ReplaceHead(m, head, list[k], r), list[k := r])
    ensures TaggedBut(ReplaceMem(m, list[k], r), kind, cut, list[k])
    ensures PayloadsKept(m, ReplaceMem(m, list[k], r), cut)
    ensures MemWithin(ReplaceMem(m, list[k], r), start, end)
  {
    var nodes := [r as int] + list;
    var m' := ReplaceMem(m, list[k], r);
    ReplaceLinked(m, head, list, k, r);
    ReplaceFrame(m, head, list, k, r);
    assert forall f :: f in nodes ==> f in cut && !cut[f].live;
    forall b | b in cut && b != list[k] ensures TaggedAt(m', kind, b, cut[b]) {
      LinksKeepTags(m, m', kind, cut, start, end, nodes, b);
    }
    LinksKeepPayloads(m, m', cut, start, end, nodes);
    ReplaceWithin(m, head, start, end, cut, list, k, r);
  }

  lemma {:induction false} ReplaceWithin(
    m: Mem, head: Word, start: int, end: int, blocks: Blocks, list: seq<int>, k: nat, r: Word)
    requires MemWithin(m, start, end) && Tiled(blocks, start, end) && Linked(m, head, list) && k < |list|
    requires r in blocks && forall f :: f in list ==> f in blocks
    ensures MemWithin(ReplaceMem(m, list[k], r), start, end)
  {
    LinkValues(m, head, list, k);
    WordInside(blocks, start, end, r);
    if k > 0 {
      assert list[k - 1] in list;
      WordInside(blocks, start, end, list[k - 1]);
    }
    if k + 1 < |list| {
      assert list[k + 1] in list;
      WordInside(blocks, start, end, list[k + 1]);
    }
    forall x ensures WrittenWithin(ReplaceMem(m, list[k], r), start, end, x) {
      assert WrittenWithin(m, start, end, x);
    }
  }

  lemma {:induction false} SplitListed(blocks: Blocks, list: seq<int>, k: nat, r: int, total: int, size: int)
    requires Listed(blocks, list, 0) && k < |list| && r !in blocks && r != 0
    ensures Listed(Cut(blocks, list[k], r, total, size, true), list[k := r], 0)
  {
    var a, list' := list[k], list[k := r];
    var blocks' := Cut(blocks, a, r, total, size, true);
    assert forall i :: 0 <= i < |list| ==> list[i] in list;
    forall x | x in list' ensures x in blocks' && !blocks'[x].live && x != 0 {
      var i :| 0 <= i < |list'| && list'[i] == x;
      assert i != k ==> x == list[i] && list[i] != a;
    }
    forall x | x in blocks' && !blocks'[x].live && x != 0 ensures x in list' {
      if x == r {
        assert list'[k] == r;
      } else {
        assert x in list;
        var i :| 0 <= i < |list| && list[i] == x;
        assert list'[i] == x;
      }
    }
  }

  /** Splitting: the first `total` bytes at a are allocated and the rest takes over the list entry. */
  lemma {:induction false} SplitStep(
    kind: FooterKind, start: int, end: int, m: Mem, head: Word, blocks: Blocks, list: seq<int>, k: nat, a: int,
    r: Word, total: int, size: int, m1: Mem, m2: Mem)
    requires Consistent(kind, start, end, m, head, blocks, list, 0) && k < |list| && list[k] == a
    requires CanCut(blocks, a, r, total, size) && 0 <= total < ALLOCATED && 0 <= size < ALLOCATED
    requires m1 == Stamp(m, kind, r, size, false) && m2 == ReplaceMem(m1, a, r)
    ensures Rd(m2, r + 24) == MAGIC
    ensures Consistent(kind, start, end, Stamp(m2, kind, a, total, true), ReplaceHead(m1, head, a, r),
                       Cut(blocks, a, r, total, size, true), list[k := r], 0)
    ensures PayloadsKept(m, Stamp(m2, kind, a, total, true), blocks)
  {
    var cut, blocks2 := Cut(blocks, a, r, total, size, false), Cut(blocks, a, r, total, size, true);
    CutTiled(blocks, start, end, a, r, total, size, false);
    CutTiled(blocks, start, end, a, r, total, size, true);
    ListNodes(kind, start, end, m, head, blocks, list, 0);
    SplitRest(kind, start, end, m, head, blocks, cut, list, a, r, size);
    assert r !in list;
    SplitRelinked(kind, start, end, m1, head, cut, list, k, r);
    assert TaggedAt(m2, kind, r, cut[r]);
    TagsCarryOver(m2, kind, cut, blocks2, a);
    SplitListed(blocks, list, k, r, total, size);
    Restamp(kind, start, end, m2, ReplaceHead(m1, head, a, r), blocks2, list[k := r], 0, a, total, true);
    SplitPayloads(m, m1, m2, Stamp(m2, kind, a, total, true), blocks, a, r, total, size);
  }

  lemma {:induction false} SplitPayloads(
    m: Mem, m1: Mem, m2: Mem, m3: Mem, blocks: Blocks, a: int, r: int, total: int, size: int)
    requires FreeAt(blocks, a) && r !in blocks
    requires PayloadsKept(m, m1, Cut(blocks, a, r, total, size, false))
    requires PayloadsKept(m1, m2, Cut(blocks, a, r, total, size, false))
    requires PayloadsKept(m2, m3, Cut(blocks, a, r, total, size, true))
    ensures PayloadsKept(m, m3, blocks)
  {
    forall b, x | InPayload(blocks, b, x) && blocks[b].live ensures Rd(m3, x) == Rd(m, x) {
      assert InPayload(Cut(blocks, a, r, total, size, false), b, x);
      assert InPayload(Cut(blocks, a, r, total, size, true), b, x);
    }
  }

  lemma {:induction false} PayloadsSameLive(m: Mem, m': Mem, blocks: Blocks, blocks': Blocks)
    requires PayloadsKept(m, m', blocks)
    requires forall b :: LiveAt(blocks', b) ==> LiveAt(blocks, b) && blocks[b] == blocks'[b]
    ensures PayloadsKept(m, m', blocks')
  {
    forall b, x | InPayload(blocks', b, x) && blocks'[b].live ensures Rd(m', x) == Rd(m, x) {
      assert LiveAt(blocks', b) && InPayload(blocks, b, x);
    }
  }

  lemma {:induction false} SplitCoalesced(blocks: Blocks, start: int, end: int, a: int, r: int, total: int, size: int)
    requires Tiled(blocks, start, end) && 0 < start && Coalesced(blocks, a)
    requires CanCut(blocks, a, r, total, size) && NextNotFree(blocks, a)
    ensures Coalesced(Cut(blocks, a, r, total, size, true), 0)
  {
    var blocks' := Cut(blocks, a, r, total, size, true);
    CutTiled(blocks, start, end, a, r, total, size, true);
    forall x ensures CoalescedAt(blocks', 0, x) {
      assert CoalescedAt(blocks, a, x);
      if x in blocks {
        assert BlockFits(blocks, start, end, x);
        assert x != a ==> x + blocks[x].size != r;
      }
    }
  }

  // ---------------------------------------------------------------- extending

  /** expand_to mapped `size` bytes at `end`; the new block is stamped and pushed. */
  lemma {:induction false} ExtendStep(
    kind: FooterKind, start: int, end: Word, end': int, size: int, m: Mem, head: Word, blocks: Blocks,
    list: seq<int>, m1: Mem)
    requires Consistent(kind, start, end, m, head, blocks, list, 0)
    requires end % 16 == 0 && size % 16 == 0 && MIN_BLOCK <= size < ALLOCATED && end' == end + size <= TWO_64
    requires end' - start < ALLOCATED
    requires m1 == Stamp(m, kind, end, size, false)
    ensures Consistent(kind, start, end', PushMem(m1, head, end), end, blocks[end as int := Block(size, false)],
            [end as int] + list, 0)
    ensures PayloadsKept(m, PushMem(m1, head, end), blocks)
    ensures end !in blocks
  {
    var blocks1 := blocks[end as int := Block(size, false)];
    ExtendStamp(kind, start, end, end', size, m, head, blocks, list, blocks1);
    InsertStep(kind, start, end', m1, head, blocks1, list, end);
    PayloadsChain(m, m1, PushMem(m1, head, end), blocks1, blocks1);
    PayloadsSameLive(m, PushMem(m1, head, end), blocks1, blocks);
  }

  /** The new block is stamped but not yet in the list. */
  lemma {:induction false} ExtendStamp(
    kind: FooterKind, start: int, end: int, end': int, size: int, m: Mem, head: Word, blocks: Blocks,
    list: seq<int>, blocks1: Blocks)
    requires Consistent(kind, start, end, m, head, blocks, list, 0)
    requires end % 16 == 0 && size % 16 == 0 && MIN_BLOCK <= size < ALLOCATED && end' == end + size <= TWO_64
    requires end' - start < ALLOCATED
    requires blocks1 == blocks[end := Block(size, false)]
    ensures Consistent(kind, start, end', Stamp(m, kind, end, size, false), head, blocks1, list, end)
    ensures PayloadsKept(m, Stamp(m, kind, end, size, false), blocks1) && end !in blocks
  {
    ExtendedTiled(blocks, start, end, end');
    NoBlockAtZero(blocks, start, end);
    assert forall a :: a in list ==> a in blocks && a != end;
    TagsCarryOver(m, kind, blocks, blocks1, end);
    forall x ensures WrittenWithin(m, start, end', x) {
      assert WrittenWithin(m, start, end, x);
    }
    Restamp(kind, start, end', m, head, blocks1, list, end, end, size, false);
  }

  lemma {:induction false} ExtendedCoalesced(blocks: Blocks, start: int, end: int, size: int)
    requires Tiled(blocks, start, end) && 0 < start && Coalesced(blocks, 0) && end !in blocks && size > 0
    ensures Coalesced(blocks[end := Block(size, false)], end)
    ensures NextNotFree(blocks[end := Block(size, false)], end)
  {
    var blocks' := blocks[end := Block(size, false)];
    forall x ensures CoalescedAt(blocks', end, x) {
      assert CoalescedAt(blocks, 0, x);
      if x in blocks {
        assert BlockFits(blocks, start, end, x);
      }
    }
    assert end + size in blocks ==> BlockFits(blocks, start, end, end + size);
  }

  // ---------------------------------------------------------------- writing a payload

  /** A word stored into a live payload leaves the whole structure alone. */
  lemma {:induction false} PayloadWrite(
    kind: FooterKind, start: int, end: int, m: Mem, head: Word, blocks: Blocks, list: seq<int>, a: int, x: int,
    v: Word)
    requires Consistent(kind, start, end, m, head, blocks, list, 0)
    requires InPayload(blocks, a, x) && blocks[a].live && x % 8 == 0
    ensures Consistent(kind, start, end, m[x := v], head, blocks, list, 0)
  {
    var m' := m[x := v];
    assert BlockFits(blocks, start, end, a);
    ListNodes(kind, start, end, m, head, blocks, list, 0);
    forall b | b in blocks ensures TaggedAt(m', kind, b, blocks[b]) {
      assert TaggedAt(m, kind, b, blocks[b]);
      TagsApartFromPayload(m, kind, blocks, start, end, a, x, v, b);
    }
    forall i | 0 <= i < |list| ensures LinkedAt(m', list, i) {
      LinksApartFromPayload(m, blocks, start, end, list, a, x, v, i);
    }
    forall y ensures WrittenWithin(m', start, end, y) {
      assert WrittenWithin(m, start, end, y);
    }
  }

  lemma {:induction false} TagsApartFromPayload(
    m: Mem, kind: FooterKind, blocks: Blocks, start: int, end: int, a: int, x: int, v: Word, b: int)
    requires Tiled(blocks, start, end) && InPayload(blocks, a, x) && b in blocks && TaggedAt(m, kind, b, blocks[b])
    ensures TaggedAt(m[x := v], kind, b, blocks[b])
  {
    assert Apart(blocks, a, b) && Apart(blocks, b, a);
  }

  lemma {:induction false} LinksApartFromPayload(
    m: Mem, blocks: Blocks, start: int, end: int, list: seq<int>, a: int, x: int, v: Word, i: nat)
    requires Tiled(blocks, start, end) && InPayload(blocks, a, x)
    requires i < |list| && list[i] in blocks && LinkedAt(m, list, i)
    ensures LinkedAt(m[x := v], list, i)
  {
    var b := list[i];
    assert BlockFits(blocks, start, end, b) && Apart(blocks, a, b) && Apart(blocks, b, a);
  }

  /** Payloads of different live blocks are disjoint, aligned and inside the mapped region. */
  lemma {:induction false} PayloadsDisjoint(blocks: Blocks, start: int, end: int, a: int, b: int, x: int)
    requires Tiled(blocks, start, end) && InPayload(blocks, a, x)
    ensures start <= x < end && (a + 32) % 16 == 0
    ensures InPayload(blocks, b, x) ==> a == b
  {
    assert BlockFits(blocks, start, end, a) && Apart(blocks, a, b) && Apart(blocks, b, a);
  }

  /** Blocks tile the mapped region: each address lies in exactly one block. */
  lemma {:induction false} ExactlyOneBlock(blocks: Blocks, start: int, end: int, x: int)
    requires Tiled(blocks, start, end)
    ensures start <= x < end <==> exists a :: a in blocks && a <= x < a + blocks[a].size
    ensures forall a, b ::
              a in blocks && b in blocks && a <= x < a + blocks[a].size && b <= x < b + blocks[b].size ==> a == b
  {
    if start <= x < end {
      var a := Covered(blocks, start, end, x);
    }
    forall a | a in blocks && a <= x < a + blocks[a].size ensures start <= x < end {
      assert BlockFits(blocks, start, end, a);
    }
    forall a, b | a in blocks && b in blocks && a <= x < a + blocks[a].size && b <= x < b + blocks[b].size
      ensures a == b
    {
      assert Apart(blocks, a, b) && Apart(blocks, b, a);
    }
  }

  /** Header and footer of a block agree, as kfree demands, unless the block is live and the
      footer is the one the code writes. */
  lemma {:induction false} FooterAgrees(kind: FooterKind, m: Mem, blocks: Blocks, a: int)
    requires Tagged(m, kind, blocks) && a in blocks
    ensures Rd(m, a + blocks[a].size - 16) == Rd(m, a) <==> kind == Documented || !blocks[a].live
  {
    assert TaggedAt(m, kind, a, blocks[a]);
  }
}
