/**
 The kernel heap's data structures (kernel/InitKernel/heap.c): boundary-tagged blocks that tile
 the mapped region, and a doubly linked list of the free ones. Memory is a map from addresses to
 64-bit words; an address never written reads as 0, like a freshly mapped page.

 The footer word is a parameter. `Documented` stores the header word with its allocated flag, as
 the comment in set_footer says; `AsWritten` stores the bare size, as its code does.
 */
module HeapModel {
  import opened Words
  import opened Collections

  const MAGIC: Word := 0xBEEF_CAFE_2016_1220
  const META: int := 48
  const MIN_BLOCK: int := 64
  const ALLOCATED: nat := 0x8000_0000_0000_0000
  const MAX_ALLOC: nat := 0x1000_0000

  type Mem = map<int, Word>

  datatype FooterKind = Documented | AsWritten

  datatype Block = Block(size: int, live: bool)

  type Blocks = map<int, Block>

  function Rd(m: Mem, a: int): Word
  {
    if a in m then m[a] else 0
  }

  /** blk_size and blk_is_alloc: the low 63 bits, and bit 63. */
  function SizeBits(w: Word): int { if w >= ALLOCATED then w - ALLOCATED else w }
  predicate LiveBit(w: Word) { w >= ALLOCATED }

  function Header(size: int, live: bool): Word
    requires 0 <= size < ALLOCATED
  {
    if live then size + ALLOCATED else size
  }

  function Footer(kind: FooterKind, size: int, live: bool): Word
    requires 0 <= size < ALLOCATED
  {
    if kind == Documented then Header(size, live) else size
  }

  // ---------------------------------------------------------------- the invariant's parts

  /** Blocks lie in start..end, back to back, with no gap and no overlap. */
  ghost predicate Tiled(blocks: Blocks, start: int, end: int)
  {
    && start <= end && start % 16 == 0
    && (start < end ==> start in blocks)
    && (forall a {:trigger BlockFits(blocks, start, end, a)} :: a in blocks ==> BlockFits(blocks, start, end, a))
    && (forall a, b {:trigger Apart(blocks, a, b)} :: Apart(blocks, a, b))
  }

  /** Of two blocks the lower one ends where the higher one begins, or before. */
  ghost predicate Apart(blocks: Blocks, a: int, b: int)
  {
    a in blocks && b in blocks && a < b ==> a + blocks[a].size <= b
  }

  ghost predicate BlockFits(blocks: Blocks, start: int, end: int, a: int)
    requires a in blocks
  {
    && start <= a && a % 16 == 0
    && MIN_BLOCK <= blocks[a].size < ALLOCATED && blocks[a].size % 16 == 0
    && a + blocks[a].size <= end
    && (a + blocks[a].size < end ==> a + blocks[a].size in blocks)
  }

  ghost predicate TaggedAt(m: Mem, kind: FooterKind, a: int, b: Block)
  {
    && MIN_BLOCK <= b.size < ALLOCATED
    && Rd(m, a) == Header(b.size, b.live)
    && Rd(m, a + 24) == MAGIC
    && Rd(m, a + b.size - 16) == Footer(kind, b.size, b.live)
    && Rd(m, a + b.size - 8) == MAGIC
  }

  /** Every block carries its header and footer words. */
  ghost predicate Tagged(m: Mem, kind: FooterKind, blocks: Blocks)
  {
    forall a {:trigger TaggedAt(m, kind, a, blocks[a])} :: a in blocks ==> TaggedAt(m, kind, a, blocks[a])
  }

  /** Every block but a carries its tags. */
  ghost predicate TaggedBut(m: Mem, kind: FooterKind, blocks: Blocks, a: int)
  {
    forall b {:trigger TaggedAt(m, kind, b, blocks[b])} ::
      b in blocks && b != a ==> TaggedAt(m, kind, b, blocks[b])
  }

  /** The word at head, and the link words, spell out the list in both directions. */
  ghost predicate Linked(m: Mem, head: int, list: seq<int>)
  {
    && head == (if list == [] then 0 else list[0])
    && (forall i {:trigger LinkedAt(m, list, i)} :: 0 <= i < |list| ==> LinkedAt(m, list, i))
  }

  ghost predicate LinkedAt(m: Mem, list: seq<int>, i: nat)
    requires i < |list|
  {
    && list[i] > 0
    && Rd(m, list[i] + 8) == (if i == 0 then 0 else list[i - 1])
    && Rd(m, list[i] + 16) == (if i == |list| - 1 then 0 else list[i + 1])
  }

  /** The list holds each free block once, except block h that is being worked on (0: none). */
  ghost predicate Listed(blocks: Blocks, list: seq<int>, h: int)
  {
    && Distinct(list)
    && forall a {:trigger a in list} :: a in list <==> a in blocks && !blocks[a].live && a != h
  }

  ghost predicate FreeAt(blocks: Blocks, a: int)
  {
    a in blocks && !blocks[a].live
  }

  /** No two free neighbours, leaving aside pairs that involve block h. */
  ghost predicate Coalesced(blocks: Blocks, h: int)
  {
    forall a {:trigger CoalescedAt(blocks, h, a)} :: CoalescedAt(blocks, h, a)
  }

  ghost predicate CoalescedAt(blocks: Blocks, h: int, a: int)
  {
    FreeAt(blocks, a) && a != h && a + blocks[a].size != h ==> !FreeAt(blocks, a + blocks[a].size)
  }

  /** Address x is in the payload of block a. */
  ghost predicate InPayload(blocks: Blocks, a: int, x: int)
  {
    a in blocks && a + 32 <= x < a + blocks[a].size - 16
  }

  // ---------------------------------------------------------------- consequences of tiling

  /** Every address of the mapped region lies in a block (and, blocks being disjoint, in one). */
  lemma {:induction false} Covered(blocks: Blocks, start: int, end: int, x: int) returns (a: int)
    requires Tiled(blocks, start, end) && start <= x < end
    ensures a in blocks && a <= x < a + blocks[a].size
  {
    a := start;
    while x >= a + blocks[a].size
      invariant a in blocks && a <= x
      decreases x - a
    {
      assert BlockFits(blocks, start, end, a);
      a := a + blocks[a].size;
      assert BlockFits(blocks, start, end, a);
    }
  }

  /** The block that ends where b begins. */
  lemma {:induction false} Predecessor(blocks: Blocks, start: int, end: int, b: int) returns (a: int)
    requires Tiled(blocks, start, end) && b in blocks && b != start
    ensures a in blocks && a + blocks[a].size == b
  {
    assert BlockFits(blocks, start, end, b);
    a := Covered(blocks, start, end, b - 1);
    assert Apart(blocks, a, b);
  }

  // ---------------------------------------------------------------- rewriting the tiling

  lemma {:induction false} Aligned(x: int, y: int)
    requires x % 16 == 0 && y % 16 == 0
    ensures (x + y) % 16 == 0 && (x - y) % 16 == 0
  {
  }

  lemma {:induction false} MergedTiled(blocks: Blocks, start: int, end: int, a: int, live: bool)
    requires Tiled(blocks, start, end) && end - start < ALLOCATED
    requires a in blocks && a + blocks[a].size in blocks
    ensures Tiled(Merged(blocks, a, live), start, end)
  {
    var b := a + blocks[a].size;
    var blocks' := Merged(blocks, a, live);
    assert BlockFits(blocks, start, end, a) && BlockFits(blocks, start, end, b);
    Aligned(blocks[a].size, blocks[b].size);
    forall x | x in blocks' ensures BlockFits(blocks', start, end, x) {
      assert BlockFits(blocks, start, end, x);
      assert Apart(blocks, x, a) && Apart(blocks, a, x);
    }
    forall x, y ensures Apart(blocks', x, y) {
      assert Apart(blocks, x, y) && Apart(blocks, b, y);
    }
  }

  function Merged(blocks: Blocks, a: int, live: bool): Blocks
    requires a in blocks && a + blocks[a].size in blocks
  {
    var b := a + blocks[a].size;
    (blocks - {b})[a := Block(blocks[a].size + blocks[b].size, live)]
  }

  /** What cutting free block a at address r needs: both parts are proper blocks. */
  ghost predicate CanCut(blocks: Blocks, a: int, r: int, total: int, size: int)
  {
    && FreeAt(blocks, a) && r == a + total && blocks[a].size == total + size
    && total % 16 == 0 && MIN_BLOCK <= total && MIN_BLOCK <= size
  }

  /** Block a becomes two: total bytes at a, and the rest at r. */
  function Cut(blocks: Blocks, a: int, r: int, total: int, size: int, live: bool): Blocks
  {
    blocks[a := Block(total, live)][r := Block(size, false)]
  }

  lemma {:induction false} CutTiled(
    blocks: Blocks, start: int, end: int, a: int, r: int, total: int, size: int, live: bool)
    requires Tiled(blocks, start, end) && CanCut(blocks, a, r, total, size)
    ensures Tiled(Cut(blocks, a, r, total, size, live), start, end)
    ensures r !in blocks && r % 16 == 0 && start <= a < r < end
    ensures MIN_BLOCK <= size < ALLOCATED && total < ALLOCATED
  {
    var blocks' := Cut(blocks, a, r, total, size, live);
    assert BlockFits(blocks, start, end, a) && Apart(blocks, a, r);
    Aligned(a, total);
    Aligned(blocks[a].size, total);
    assert size == blocks[a].size - total;
    forall x | x in blocks' ensures BlockFits(blocks', start, end, x) {
      if x != r {
        assert BlockFits(blocks, start, end, x);
      }
    }
    forall x, y ensures Apart(blocks', x, y) {
      assert Apart(blocks, x, y) && Apart(blocks, a, y) && Apart(blocks, x, a) && Apart(blocks, a, x);
    }
  }

  lemma {:induction false} ExtendedTiled(blocks: Blocks, start: int, end: int, end': int)
    requires Tiled(blocks, start, end) && end % 16 == 0
    requires MIN_BLOCK <= end' - end < ALLOCATED && (end' - end) % 16 == 0
    ensures Tiled(blocks[end := Block(end' - end, false)], start, end')
    ensures end !in blocks
  {
    var blocks' := blocks[end := Block(end' - end, false)];
    forall x | x in blocks ensures x + blocks[x].size <= end && x < end {
      assert BlockFits(blocks, start, end, x);
    }
    forall x | x in blocks' ensures BlockFits(blocks', start, end', x) {
      assert x != end ==> BlockFits(blocks, start, end, x);
    }
    forall x, y ensures Apart(blocks', x, y) {
      assert Apart(blocks, x, y);
    }
  }

  lemma {:induction false} RetypedTiled(blocks: Blocks, start: int, end: int, a: int, live: bool)
    requires Tiled(blocks, start, end) && a in blocks
    ensures Tiled(blocks[a := Block(blocks[a].size, live)], start, end)
  {
    var blocks' := blocks[a := Block(blocks[a].size, live)];
    forall x | x in blocks' ensures BlockFits(blocks', start, end, x) {
      assert BlockFits(blocks, start, end, x);
    }
    forall x, y ensures Apart(blocks', x, y) {
      assert Apart(blocks, x, y);
    }
  }

  // ---------------------------------------------------------------- writing tags

  /** The four tag words of a block. */
  function Stamp(m: Mem, kind: FooterKind, a: int, size: int, live: bool): Mem
    requires 0 <= size < ALLOCATED
  {
    m[a := Header(size, live)][a + 24 := MAGIC][a + size - 8 := MAGIC][a + size - 16 := Footer(kind, size, live)]
  }

  /** Stamping block a leaves the tags of any other block. */
  lemma {:induction false} StampKeepsTagsAt(
    m: Mem, kind: FooterKind, blocks: Blocks, start: int, end: int, a: int, size: int, live: bool, b: int)
    requires Tiled(blocks, start, end) && a in blocks && b in blocks && a != b
    requires BlockFits(blocks, start, end, a) && blocks[a] == Block(size, live)
    requires TaggedAt(m, kind, b, blocks[b])
    ensures TaggedAt(Stamp(m, kind, a, size, live), kind, b, blocks[b])
  {
    assert Apart(blocks, a, b) && Apart(blocks, b, a);
  }

  lemma {:induction false} StampKeepsTags(
    m: Mem, kind: FooterKind, blocks: Blocks, start: int, end: int, a: int, size: int, live: bool)
    requires Tiled(blocks, start, end) && a in blocks && BlockFits(blocks, start, end, a)
    requires blocks[a] == Block(size, live)
    requires TaggedBut(m, kind, blocks, a)
    ensures Tagged(Stamp(m, kind, a, size, live), kind, blocks)
  {
    forall b | b in blocks ensures TaggedAt(Stamp(m, kind, a, size, live), kind, b, blocks[b]) {
      if b != a {
        StampKeepsTagsAt(m, kind, blocks, start, end, a, size, live, b);
      }
    }
  }

  /** Memory outside block a is untouched by its stamp, and so are its own link words and payload. */
  lemma {:induction false} StampFrame(m: Mem, kind: FooterKind, a: int, size: int, live: bool, x: int)
    requires MIN_BLOCK <= size < ALLOCATED
    requires x < a || x >= a + size || a + 32 <= x < a + size - 16 || x == a + 8 || x == a + 16
    ensures Rd(Stamp(m, kind, a, size, live), x) == Rd(m, x)
  {
  }

  // ---------------------------------------------------------------- writing links

  /** m' differs from m at most in the link words of the blocks in `nodes`. */
  ghost predicate OnlyLinks(m: Mem, m': Mem, nodes: seq<int>)
  {
    forall x {:trigger Rd(m', x)} :: x - 8 !in nodes && x - 16 !in nodes ==> Rd(m', x) == Rd(m, x)
  }

  ghost predicate Nodes(list: seq<int>)
  {
    Distinct(list) && forall i :: 0 <= i < |list| ==> 0 < list[i] < TWO_64 && list[i] % 16 == 0
  }

  /** list_remove: the memory and the head afterwards. */
  function UnlinkMem(m: Mem, h: int): Mem
  {
    var prev, next := Rd(m, h + 8), Rd(m, h + 16);
    var m1 := if prev != 0 then m[prev + 16 := next] else m;
    var m2 := if next != 0 then m1[next + 8 := prev] else m1;
    m2[h + 8 := 0][h + 16 := 0]
  }

  function UnlinkHead(m: Mem, head: Word, h: int): Word
  {
    if Rd(m, h + 8) != 0 then head else Rd(m, h + 16)
  }

  lemma {:induction false} LinkValues(m: Mem, head: Word, list: seq<int>, k: nat)
    requires Linked(m, head, list) && k < |list|
    ensures Rd(m, list[k] + 8) == if k == 0 then 0 else list[k - 1]
    ensures Rd(m, list[k] + 16) == if k == |list| - 1 then 0 else list[k + 1]
    ensures list[k] > 0 && (k > 0 ==> list[k - 1] > 0) && (k + 1 < |list| ==> list[k + 1] > 0)
    ensures |list| > 0 && head == list[0] > 0
  {
    assert LinkedAt(m, list, k) && LinkedAt(m, list, 0);
    assert k > 0 ==> LinkedAt(m, list, k - 1);
    assert k + 1 < |list| ==> LinkedAt(m, list, k + 1);
  }

  lemma {:induction false} NotSameLink(f: int, g: int)
    requires f % 16 == 0 && g % 16 == 0
    ensures f + 8 != g + 16
  {
  }

  lemma {:induction false} UnlinkAt(m: Mem, head: Word, list: seq<int>, k: nat, j: nat)
    requires Linked(m, head, list) && Nodes(list) && k < |list| && j < |list| && j != k
    ensures Rd(UnlinkMem(m, list[k]), list[j] + 8) ==
            if j == k + 1 then Rd(m, list[k] + 8) else Rd(m, list[j] + 8)
    ensures Rd(UnlinkMem(m, list[k]), list[j] + 16) ==
            if j + 1 == k then Rd(m, list[k] + 16) else Rd(m, list[j] + 16)
  {
    LinkValues(m, head, list, k);
    LinkValues(m, head, list, j);
    NotSameLink(list[j], list[k]);
    NotSameLink(list[k], list[j]);
    if k > 0 {
      NotSameLink(list[j], list[k - 1]);
      assert list[j] == list[k - 1] <==> j == k - 1;
    }
    if k + 1 < |list| {
      NotSameLink(list[k + 1], list[j]);
      assert list[j] == list[k + 1] <==> j == k + 1;
    }
  }

  lemma {:induction false} UnlinkLinked(m: Mem, head: Word, list: seq<int>, k: nat)
    requires Linked(m, head, list) && Nodes(list) && k < |list|
    ensures Linked(UnlinkMem(m, list[k]), UnlinkHead(m, head, list[k]), list[..k] + list[k + 1..])
  {
    var list' := list[..k] + list[k + 1..];
    var m' := UnlinkMem(m, list[k]);
    forall i | 0 <= i < |list'| ensures LinkedAt(m', list', i) {
      var j := if i < k then i else i + 1;
      UnlinkAt(m, head, list, k, j);
      assert list'[i] == list[j];
      assert i > 0 ==> list'[i - 1] == list[if i - 1 < k then i - 1 else i];
      assert i + 1 < |list'| ==> list'[i + 1] == list[if i + 1 < k then i + 1 else i + 2];
      LinkValues(m, head, list, k);
      LinkValues(m, head, list, j);
    }
    LinkValues(m, head, list, k);
  }

  lemma {:induction false} UnlinkFrame(m: Mem, head: Word, list: seq<int>, k: nat)
    requires Linked(m, head, list) && k < |list|
    ensures OnlyLinks(m, UnlinkMem(m, list[k]), list)
  {
    LinkValues(m, head, list, k);
    forall x | x - 8 !in list && x - 16 !in list ensures Rd(UnlinkMem(m, list[k]), x) == Rd(m, x) {
      assert list[k] != x - 8 && list[k] != x - 16;
      assert k > 0 ==> list[k - 1] != x - 16;
      assert k + 1 < |list| ==> list[k + 1] != x - 8;
    }
  }

  function PushMem(m: Mem, head: Word, h: Word): Mem
  {
    var m1 := m[h + 8 := 0][h + 16 := head];
    if head != 0 then m1[head + 8 := h] else m1
  }

  lemma {:induction false} PushAt(m: Mem, head: Word, list: seq<int>, h: Word, i: nat)
    requires Linked(m, head, list) && Nodes(list) && h !in list && h > 0 && h % 16 == 0 && i < |list|
    ensures Rd(PushMem(m, head, h), list[i] + 8) == if i == 0 then h else Rd(m, list[i] + 8)
    ensures Rd(PushMem(m, head, h), list[i] + 16) == Rd(m, list[i] + 16)
  {
  }

  lemma {:induction false} PushOwn(m: Mem, head: Word, list: seq<int>, h: Word)
    requires Linked(m, head, list) && Nodes(list) && h !in list && h > 0 && h % 16 == 0
    ensures Rd(PushMem(m, head, h), h + 8) == 0 && Rd(PushMem(m, head, h), h + 16) == head
  {
  }

  lemma {:induction false} PushLinked(m: Mem, head: Word, list: seq<int>, h: Word)
    requires Linked(m, head, list) && Nodes(list) && h !in list && h > 0 && h % 16 == 0
    ensures Linked(PushMem(m, head, h), h, [h] + list)
  {
    var list' := [h] + list;
    var m' := PushMem(m, head, h);
    PushOwn(m, head, list, h);
    forall i | 0 <= i < |list'| ensures LinkedAt(m', list', i) {
      if i > 0 {
        PushAt(m, head, list, h, i - 1);
        LinkValues(m, head, list, i - 1);
      }
    }
  }

  lemma {:induction false} PushFrame(m: Mem, head: Word, list: seq<int>, h: Word)
    requires Linked(m, head, list)
    ensures OnlyLinks(m, PushMem(m, head, h), [h as int] + list)
  {
  }

  /** The relinking of kmalloc's split: r takes the place of h. */
  function ReplaceMem(m: Mem, h: int, r: Word): Mem
  {
    var prev, next := Rd(m, h + 8), Rd(m, h + 16);
    var m1 := if prev != 0 then m[prev + 16 := r] else m;
    var m2 := if next != 0 then m1[next + 8 := r] else m1;
    m2[r + 8 := prev][r + 16 := next]
  }

  function ReplaceHead(m: Mem, head: Word, h: int, r: Word): Word
  {
    if Rd(m, h + 8) != 0 then head else r
  }

  lemma {:induction false} ReplaceLinked(m: Mem, head: Word, list: seq<int>, k: nat, r: Word)
    requires Linked(m, head, list) && Nodes(list) && k < |list|
    requires r !in list && r > 0 && r % 16 == 0
    ensures Linked(ReplaceMem(m, list[k], r), ReplaceHead(m, head, list[k], r), list[k := r])
  {
    var list' := list[k := r];
    var m' := ReplaceMem(m, list[k], r);
    forall i | 0 <= i < |list'| ensures LinkedAt(m', list', i) {
      ReplaceAt(m, head, list, k, r, i);
      LinkValues(m, head, list, i);
    }
    LinkValues(m, head, list, k);
  }

  lemma {:induction false} ReplaceFrame(m: Mem, head: Word, list: seq<int>, k: nat, r: Word)
    requires Linked(m, head, list) && k < |list|
    ensures OnlyLinks(m, ReplaceMem(m, list[k], r), [r as int] + list)
  {
    LinkValues(m, head, list, k);
    var nodes := [r as int] + list;
    forall x | x - 8 !in nodes && x - 16 !in nodes ensures Rd(ReplaceMem(m, list[k], r), x) == Rd(m, x) {
      assert nodes[0] == r;
      assert k > 0 ==> nodes[k] == list[k - 1];
      assert k + 1 < |list| ==> nodes[k + 2] == list[k + 1];
    }
  }

  lemma {:induction false} ReplaceAt(m: Mem, head: Word, list: seq<int>, k: nat, r: Word, j: nat)
    requires Linked(m, head, list) && Nodes(list) && k < |list| && j < |list|
    requires r !in list && r > 0 && r % 16 == 0
    ensures Rd(ReplaceMem(m, list[k], r), list[k := r][j] + 8) == if j == k + 1 then r else Rd(m, list[j] + 8)
    ensures Rd(ReplaceMem(m, list[k], r), list[k := r][j] + 16) == if j + 1 == k then r else Rd(m, list[j] + 16)
  {
    LinkValues(m, head, list, k);
    LinkValues(m, head, list, j);
    NotSameLink(r, r);
    NotSameLink(list[j], r);
    NotSameLink(r, list[j]);
    if k > 0 {
      NotSameLink(list[j], list[k - 1]);
      assert list[j] == list[k - 1] <==> j == k - 1;
    }
    if k + 1 < |list| {
      NotSameLink(list[k + 1], list[j]);
      assert list[j] == list[k + 1] <==> j == k + 1;
    }
  }

  // ---------------------------------------------------------------- links and tags do not meet

  lemma {:induction false} LinksKeepTags(
    m: Mem, m': Mem, kind: FooterKind, blocks: Blocks, start: int, end: int, nodes: seq<int>, b: int)
    requires Tiled(blocks, start, end) && OnlyLinks(m, m', nodes) && b in blocks
    requires forall f :: f in nodes ==> f in blocks
    requires TaggedAt(m, kind, b, blocks[b])
    ensures TaggedAt(m', kind, b, blocks[b])
  {
    var sz := blocks[b].size;
    LinkWordsApart(blocks, start, end, nodes, b, b);
    LinkWordsApart(blocks, start, end, nodes, b, b + 24);
    LinkWordsApart(blocks, start, end, nodes, b, b + sz - 16);
    LinkWordsApart(blocks, start, end, nodes, b, b + sz - 8);
  }

  /** No link word of a block in `nodes` is a word of block b other than b's own link words. */
  lemma {:induction false} LinkWordsApart(blocks: Blocks, start: int, end: int, nodes: seq<int>, b: int, x: int)
    requires Tiled(blocks, start, end) && b in blocks
    requires forall f :: f in nodes ==> f in blocks
    requires b <= x < b + blocks[b].size && ((x != b + 8 && x != b + 16) || b !in nodes)
    ensures x - 8 !in nodes && x - 16 !in nodes
  {
    forall f | f in nodes ensures f != x - 8 && f != x - 16 {
      assert BlockFits(blocks, start, end, f) && Apart(blocks, f, b) && Apart(blocks, b, f);
    }
  }

  lemma {:induction false} StampKeepsLinks(
    m: Mem, kind: FooterKind, blocks: Blocks, start: int, end: int, a: int, size: int, live: bool, head: Word,
    list: seq<int>)
    requires Tiled(blocks, start, end) && a in blocks && BlockFits(blocks, start, end, a)
    requires blocks[a] == Block(size, live)
    requires Linked(m, head, list) && forall i :: 0 <= i < |list| ==> list[i] in blocks
    ensures Linked(Stamp(m, kind, a, size, live), head, list)
  {
    forall i | 0 <= i < |list| ensures LinkedAt(Stamp(m, kind, a, size, live), list, i) {
      assert LinkedAt(m, list, i);
      assert BlockFits(blocks, start, end, list[i]) && Apart(blocks, a, list[i]) && Apart(blocks, list[i], a);
      StampFrame(m, kind, a, size, live, list[i] + 8);
      StampFrame(m, kind, a, size, live, list[i] + 16);
    }
  }
}
