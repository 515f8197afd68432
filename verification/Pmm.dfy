/**
 The physical page-frame allocator (kernel/EarlyKernel/pmm.c): one bit per frame, set when the
 frame is in use, and two counters. `FrameAllocator` is the code; `Ledger` is what a caller
 can rely on over a whole run of allocations and frees.
 */
module Pmm {
  import opened Words
  import opened Collections

  const MAX_PAGES: nat := 0x10_0000
  const BITMAP_BYTES: nat := 0x2_0000
  const AVAILABLE: nat := 1

  // ---------------------------------------------------------------- bits of a byte

  /** Bit k of b: shift right, then the lowest bit. */
  predicate Bit(b: nat, k: nat)
    decreases 2 * k
  {
    if k == 0 then b % 2 == 1 else Bit(b / 2, k - 1)
  }

  /** b with bit k set or cleared. */
  function WithBit(b: nat, k: nat, on: bool): nat
    decreases 2 * k
  {
    if k == 0 then b / 2 * 2 + (if on then 1 else 0) else WithBit(b / 2, k - 1, on) * 2 + b % 2
  }

  lemma {:induction false} WithBitAt(b: nat, k: nat, on: bool, j: nat)
    ensures Bit(WithBit(b, k, on), j) == if j == k then on else Bit(b, j)
    decreases k
  {
    var c := WithBit(b, k, on);
    if k == 0 {
      assert c / 2 == b / 2;
    } else {
      assert c / 2 == WithBit(b / 2, k - 1, on) && c % 2 == b % 2;
      if j > 0 {
        WithBitAt(b / 2, k - 1, on, j - 1);
      }
    }
  }

  function Power2(n: nat): (p: nat)
    ensures p > 0
  {
    if n == 0 then 1 else 2 * Power2(n - 1)
  }

  lemma {:induction false} WithBitFits(b: nat, k: nat, on: bool, n: nat)
    requires k < n && b < Power2(n)
    ensures WithBit(b, k, on) < Power2(n)
  {
    var q := b / 2;
    assert b == 2 * q + b % 2 && q < Power2(n - 1);
    if k > 0 {
      WithBitFits(q, k - 1, on, n - 1);
    }
  }

  lemma {:induction false} WithBitByte(b: Byte, k: nat, on: bool)
    requires k < 8
    ensures WithBit(b, k, on) < 256
  {
    assert Power2(8) == 256;
    WithBitFits(b, k, on, 8);
  }

  /** In a byte of ones every bit is set. */
  lemma {:induction false} AllOnes(k: nat, n: nat)
    requires k < n
    ensures Bit(Power2(n) - 1, k)
  {
    var b := Power2(n) - 1;
    assert b == 2 * (Power2(n - 1) - 1) + 1;
    if k > 0 {
      AllOnes(k - 1, n - 1);
    }
  }

  // ---------------------------------------------------------------- the boot memory map

  /** One multiboot2 memory-map entry. */
  datatype MmapEntry = MmapEntry(addr: Word, len: Word, kind: nat)

  function Least(a: nat, b: nat): nat
  {
    if a < b then a else b
  }

  /** First whole page of an entry; the additions wrap as the C ones do. */
  function StartPage(e: MmapEntry): nat
  {
    WrapAdd(e.addr, PAGE - 1) / PAGE
  }

  function EndPage(e: MmapEntry): nat
  {
    Least(WrapAdd(e.addr, e.len) / PAGE, MAX_PAGES)
  }

  predicate AtLeast(lo: nat, p: nat)
  {
    lo <= p
  }

  /** The pages lo, ..., hi - 1. */
  function Interval(lo: nat, hi: nat): (s: set<nat>)
  {
    set p: nat | p < hi && AtLeast(lo, p)
  }

  lemma {:induction false} IntervalSize(lo: nat, hi: nat)
    ensures |Interval(lo, hi)| == if lo < hi then hi - lo else 0
    decreases hi - lo
  {
    if lo < hi {
      IntervalSize(lo, hi - 1);
      assert Interval(lo, hi) == Interval(lo, hi - 1) + {hi - 1};
    } else {
      assert Interval(lo, hi) == {};
    }
  }

  /** The whole pages an entry makes available. */
  function Pages(e: MmapEntry): set<nat>
  {
    if e.kind == AVAILABLE then Interval(StartPage(e), EndPage(e)) else {}
  }

  /** They are the pages that lie wholly inside an available entry. */
  lemma {:induction false} WholePages(e: MmapEntry, p: nat)
    requires e.addr + e.len < TWO_64 && e.addr + PAGE - 1 < TWO_64
    ensures p in Pages(e) <==>
            e.kind == 1 && p < 0x10_0000 && e.addr <= p * 4096 && (p + 1) * 4096 <= e.addr + e.len
  {
    assert AtLeast(StartPage(e), p) <==> StartPage(e) <= p;
    assert e.addr + PAGE - 1 == 4096 * StartPage(e) + (e.addr + PAGE - 1) % 4096;
    assert e.addr + e.len == 4096 * ((e.addr + e.len) / 4096) + (e.addr + e.len) % 4096;
  }

  /** The page range of every entry, in the map's order. */
  function Ranges(entries: seq<MmapEntry>): seq<set<nat>>
  {
    seq(|entries|, i requires 0 <= i < |entries| => Pages(entries[i]))
  }

  function Union(ranges: seq<set<nat>>): set<nat>
  {
    if ranges == [] then {} else Union(ranges[..|ranges| - 1]) + ranges[|ranges| - 1]
  }

  /** What `total_pages` counts while the map is scanned: overlaps are counted again. */
  function SizeSum(ranges: seq<set<nat>>): nat
  {
    if ranges == [] then 0 else SizeSum(ranges[..|ranges| - 1]) + |ranges[|ranges| - 1]|
  }

  ghost predicate Disjoint(ranges: seq<set<nat>>)
  {
    forall i, j :: 0 <= i < j < |ranges| ==> ranges[i] !! ranges[j]
  }

  lemma {:induction false} InUnion(ranges: seq<set<nat>>, p: nat)
    ensures p in Union(ranges) <==> exists i :: 0 <= i < |ranges| && p in ranges[i]
  {
    if ranges != [] {
      var n := |ranges| - 1;
      InUnion(ranges[..n], p);
      assert ranges == ranges[..n] + [ranges[n]];
    }
  }

  lemma {:induction false} UnionSize(a: set<nat>, b: set<nat>)
    ensures |a + b| + |a * b| == |a| + |b|
    ensures |a * b| == 0 <==> a !! b
  {
    if x :| x in a && x in b {
      assert x in a * b;
    }
    assert a + b == a + (b - a);
    assert b == (b - a) + a * b;
    assert |b| == |b - a| + |a * b|;
    assert |a + (b - a)| == |a| + |b - a|;
  }

  lemma {:induction false} DisjointInit(ranges: seq<set<nat>>, n: nat)
    requires |ranges| == n + 1
    ensures Disjoint(ranges) <==> Disjoint(ranges[..n]) && Union(ranges[..n]) !! ranges[n]
  {
    var init := ranges[..n];
    assert forall i :: 0 <= i < n ==> init[i] == ranges[i];
    if Disjoint(ranges) {
      forall p | p in Union(init) ensures p !in ranges[n] {
        InUnion(init, p);
      }
    } else if Disjoint(init) {
      var i, j :| 0 <= i < j < |ranges| && !(ranges[i] !! ranges[j]);
      var p :| p in ranges[i] && p in ranges[j];
      assert init[i] == ranges[i];
      InUnion(init, p);
    }
  }

  /** The scan counts every available page once exactly when no two ranges overlap. */
  lemma {:induction false} SumIsUnion(ranges: seq<set<nat>>)
    ensures SizeSum(ranges) >= |Union(ranges)|
    ensures SizeSum(ranges) == |Union(ranges)| <==> Disjoint(ranges)
  {
    if ranges != [] {
      var n := |ranges| - 1;
      SumIsUnion(ranges[..n]);
      UnionSize(Union(ranges[..n]), ranges[n]);
      DisjointInit(ranges, n);
    }
  }

  lemma {:induction false} SizeSumBound(ranges: seq<set<nat>>, bound: nat)
    requires forall i :: 0 <= i < |ranges| ==> |ranges[i]| <= bound
    ensures SizeSum(ranges) <= |ranges| * bound
  {
    if ranges != [] {
      SizeSumBound(ranges[..|ranges| - 1], bound);
    }
  }

  lemma {:induction false} RangesBounded(entries: seq<MmapEntry>)
    ensures SizeSum(Ranges(entries)) <= |entries| * MAX_PAGES
    ensures forall p :: p in Union(Ranges(entries)) ==> p < MAX_PAGES
    ensures |Union(Ranges(entries))| <= MAX_PAGES
  {
    forall i | 0 <= i < |entries| ensures |Ranges(entries)[i]| <= MAX_PAGES {
      IntervalSize(StartPage(entries[i]), EndPage(entries[i]));
    }
    SizeSumBound(Ranges(entries), MAX_PAGES);
    forall p | p in Union(Ranges(entries)) ensures p < MAX_PAGES {
      InUnion(Ranges(entries), p);
    }
    SubsetSize(Union(Ranges(entries)), Interval(0, MAX_PAGES));
    IntervalSize(0, MAX_PAGES);
  }

  lemma {:induction false} ScanOne(entries: seq<MmapEntry>, i: nat)
    requires i < |entries| < 0x1_0000_0000
    ensures Union(Ranges(entries)[..i + 1]) == Union(Ranges(entries)[..i]) + Pages(entries[i])
    ensures SizeSum(Ranges(entries)[..i + 1]) == SizeSum(Ranges(entries)[..i]) + |Pages(entries[i])|
    ensures SizeSum(Ranges(entries)[..i]) + MAX_PAGES < TWO_64
  {
    assert Ranges(entries)[..i + 1][..i] == Ranges(entries)[..i];
    assert Ranges(entries)[..i] == Ranges(entries[..i]);
    RangesBounded(entries[..i]);
  }

  lemma {:induction false} InitAccounts(entries: seq<MmapEntry>, image: set<nat>)
    ensures var ranges := Ranges(entries);
            SizeSum(ranges) - |Union(ranges) * image| >= |Union(ranges) - image|
    ensures var ranges := Ranges(entries);
            SizeSum(ranges) - |Union(ranges) * image| == |Union(ranges) - image| <==> Disjoint(ranges)
    ensures Disjoint(Ranges(entries)) ==> SizeSum(Ranges(entries)) <= MAX_PAGES
    ensures forall p :: p in Union(Ranges(entries)) ==> p < MAX_PAGES
  {
    var avail := Union(Ranges(entries));
    SumIsUnion(Ranges(entries));
    RangesBounded(entries);
    assert avail == (avail - image) + avail * image;
    assert |avail| == |avail - image| + |avail * image|;
  }

  // ---------------------------------------------------------------- the ledger of a run

  /** Free frames, the two counters, and the frames handed out and not yet returned. */
  datatype Ledger = Ledger(free: set<nat>, total: Word, used: Word, held: set<nat>)

  datatype Op = Alloc | Free(phys: Word)

  ghost predicate Lowest(p: nat, s: set<nat>)
  {
    p in s && forall q :: q in s ==> p <= q
  }

  lemma {:induction false} LowestExists(s: set<nat>)
    requires s != {}
    ensures exists p :: Lowest(p, s)
    decreases |s|
  {
    var x :| x in s;
    if s - {x} == {} {
      assert s == {x};
      assert Lowest(x, s);
    } else {
      LowestExists(s - {x});
      var y :| Lowest(y, s - {x});
      assert forall q :: q in s ==> q == x || q in s - {x};
      assert Lowest(if x <= y then x else y, s);
    }
  }

  ghost function FirstFit(s: set<nat>): (p: nat)
    requires s != {}
    ensures Lowest(p, s)
  {
    LowestExists(s);
    var p :| Lowest(p, s);
    p
  }

  ghost function Step(l: Ledger, op: Op): Ledger
  {
    match op
    case Alloc =>
      if l.free == {} then l
      else
        var p := FirstFit(l.free);
        Ledger(l.free - {p}, WrapDec(l.total), WrapAdd(l.used, 1), l.held + {p})
    case Free(phys) =>
      var p := phys / PAGE;
      if p < MAX_PAGES && p !in l.free then
        Ledger(l.free + {p}, WrapAdd(l.total, 1), WrapDec(l.used), l.held - {p})
      else l
  }

  /** The address an allocation returns: 0 stands for failure. */
  ghost function Result(l: Ledger): nat
  {
    if l.free == {} then 0 else FirstFit(l.free) * PAGE
  }

  ghost function Run(l: Ledger, ops: seq<Op>): Ledger
  {
    if ops == [] then l else Step(Run(l, ops[..|ops| - 1]), ops[|ops| - 1])
  }

  /** Callers return only frames they hold. */
  ghost predicate Legal(l: Ledger, ops: seq<Op>)
  {
    ops == [] ||
    (Legal(l, ops[..|ops| - 1]) &&
     (ops[|ops| - 1].Free? ==> ops[|ops| - 1].phys / PAGE in Run(l, ops[..|ops| - 1]).held))
  }

  ghost predicate Balanced(l: Ledger)
  {
    && (forall p :: p in l.free ==> 0 < p < MAX_PAGES)
    && (forall p :: p in l.held ==> 0 < p < MAX_PAGES)
    && l.held !! l.free
    && l.total == |l.free|
    && |l.held| <= l.used
    && l.used + l.total < TWO_64
  }

  lemma {:induction false} StepKeepsBalance(l: Ledger, op: Op)
    requires Balanced(l)
    requires op.Free? ==> op.phys / PAGE in l.held
    ensures Balanced(Step(l, op))
    ensures Step(l, op).used + Step(l, op).total == l.used + l.total
    ensures op.Alloc? ==> (Result(l) == 0 <==> l.free == {})
    ensures op.Alloc? && Result(l) != 0 ==>
              Result(l) / PAGE in l.free && Result(l) / PAGE !in l.held &&
              Result(l) / PAGE in Step(l, op).held
  {
    match op {
      case Alloc =>
        if l.free != {} {
          var p := FirstFit(l.free);
          assert |l.free - {p}| == |l.free| - 1;
          assert |l.held + {p}| == |l.held| + 1;
        }
      case Free(phys) =>
        var p := phys / PAGE;
        assert |l.free + {p}| == |l.free| + 1;
        assert |l.held - {p}| == |l.held| - 1;
    }
  }

  /** After a legal release the page is free and nobody holds it, every other page is as before, and the
      next allocation succeeds with a page not above it. */
  lemma {:induction false} ReleaseReturns(l: Ledger, phys: Word)
    requires Balanced(l) && phys / PAGE in l.held
    ensures var p, r := phys / PAGE, Step(l, Free(phys));
            && r.free == l.free + {p} && r.held == l.held - {p} && p !in l.free
            && r.total == l.total + 1 && r.used == l.used - 1
            && 0 < Result(r) <= p * PAGE && Result(r) / PAGE in r.free
  {
    var p, r := phys / PAGE, Step(l, Free(phys));
    StepKeepsBalance(l, Free(phys));
    assert |l.free + {p}| == |l.free| + 1;
    assert |l.held - {p}| == |l.held| - 1;
    assert Lowest(FirstFit(r.free), r.free) && p in r.free;
  }

  /** An allocation takes the lowest free page out of the free ones, and the caller holds it. */
  lemma {:induction false} AllocationTakes(l: Ledger)
    requires Balanced(l) && l.free != {}
    ensures var p, r := Result(l) / PAGE, Step(l, Alloc);
            && Result(l) == p * PAGE && p in l.free && (forall q :: q in l.free ==> p <= q)
            && r.free == l.free - {p} && r.held == l.held + {p}
            && r.total == l.total - 1 && r.used == l.used + 1
  {
    var p := FirstFit(l.free);
    assert Lowest(p, l.free);
    assert |l.free - {p}| == |l.free| - 1;
    assert l.total == |l.free| > 0;
  }

  /** Over every legal run the counter equals the number of clear bits and the sum is constant. */
  lemma {:induction false} RunKeepsBalance(l: Ledger, ops: seq<Op>)
    requires Balanced(l) && Legal(l, ops)
    ensures Balanced(Run(l, ops))
    ensures Run(l, ops).used + Run(l, ops).total == l.used + l.total
  {
    if ops != [] {
      RunKeepsBalance(l, ops[..|ops| - 1]);
      StepKeepsBalance(Run(l, ops[..|ops| - 1]), ops[|ops| - 1]);
    }
  }

  /** No frame is handed out while someone holds it, at any point of any legal run; and an
      allocation fails exactly when nothing is free. */
  lemma {:induction false} NeverHandedOutTwice(l: Ledger, ops: seq<Op>)
    requires Balanced(l) && Legal(l, ops)
    ensures var r := Result(Run(l, ops));
            (r == 0 <==> Run(l, ops).free == {}) &&
            (r != 0 ==> r % PAGE == 0 && r / PAGE !in Run(l, ops).held)
  {
    RunKeepsBalance(l, ops);
    StepKeepsBalance(Run(l, ops), Alloc);
  }

  lemma {:induction false} IntervalGrow(all: set<nat>, lo: nat, p: nat)
    requires lo <= p
    ensures all + Interval(lo, p) + {p} == all + Interval(lo, p + 1)
  {
  }

  /** Moving the reserved prefix past page p. */
  lemma {:induction false} ReserveOne(all: set<nat>, p: nat)
    ensures (all - Interval(0, p)) - {p} == all - Interval(0, p + 1)
    ensures p !in all ==> all - Interval(0, p) == all - Interval(0, p + 1)
    ensures |all * Interval(0, p + 1)| == |all * Interval(0, p)| + if p in all then 1 else 0
    ensures |all * Interval(0, p + 1)| <= |all|
  {
    if p in all {
      assert all * Interval(0, p + 1) == all * Interval(0, p) + {p};
    } else {
      assert all * Interval(0, p + 1) == all * Interval(0, p);
    }
    SubsetSize(all * Interval(0, p + 1), all);
  }

  lemma {:induction false} InitBalanced(entries: seq<MmapEntry>, kernelEnd: Word, l: Ledger)
    requires l.free == Union(Ranges(entries)) - Interval(0, KernelPages(kernelEnd)) && l.held == {}
    requires l.total + l.used == SizeSum(Ranges(entries))
    requires l.used == |Union(Ranges(entries)) * Interval(0, KernelPages(kernelEnd))|
    ensures l.total == |l.free| <==> Disjoint(Ranges(entries))
    ensures 0 < kernelEnd <= TWO_64 - PAGE && Disjoint(Ranges(entries)) ==> Balanced(l)
  {
    InitAccounts(entries, Interval(0, KernelPages(kernelEnd)));
    if 0 < kernelEnd <= TWO_64 - PAGE {
      assert KernelPages(kernelEnd) > 0;
      assert AtLeast(0, 0);
    }
  }

  /** Pages from 0 to the end of the kernel image, rounded up. */
  function KernelPages(kernelEnd: Word): nat
  {
    WrapAdd(kernelEnd, PAGE - 1) / PAGE
  }

  /** They are the pages that hold a byte below the end of the image. */
  lemma {:induction false} ImagePages(kernelEnd: Word, p: nat)
    requires kernelEnd <= TWO_64 - PAGE
    ensures p in Interval(0, KernelPages(kernelEnd)) <==> p * 4096 < kernelEnd
  {
    assert AtLeast(0, p);
    assert kernelEnd + PAGE - 1 == 4096 * KernelPages(kernelEnd) + (kernelEnd + PAGE - 1) % 4096;
  }

  /** No byte of the image is on a free page, and no available page beyond the image is withheld. */
  ghost predicate ImageKeptOut(free: set<nat>, available: set<nat>, kernelEnd: Word)
  {
    && (forall b: nat :: b < kernelEnd ==> b / 4096 !in free)
    && (forall p: nat :: p in available && kernelEnd <= p * 4096 ==> p in free)
    && free <= available
  }

  lemma {:induction false} ImageIsKeptOut(free: set<nat>, available: set<nat>, kernelEnd: Word)
    requires kernelEnd <= TWO_64 - PAGE && free == available - Interval(0, KernelPages(kernelEnd))
    ensures ImageKeptOut(free, available, kernelEnd)
  {
    forall b: nat | b < kernelEnd ensures b / 4096 !in free {
      ImagePages(kernelEnd, b / 4096);
      assert b / 4096 * 4096 <= b;
    }
    forall p: nat | p in available && kernelEnd <= p * 4096 ensures p in free {
      ImagePages(kernelEnd, p);
    }
  }

  // ---------------------------------------------------------------- the code

  class FrameAllocator {
    const bitmap: array<Byte>
    var totalPages: Word
    var usedPages: Word
    ghost var free: set<nat>  // the pages whose bits are clear
    ghost var held: set<nat>

    ghost predicate Valid()
      reads this`free, bitmap
    {
      && bitmap.Length == BITMAP_BYTES
      && (forall p :: p in free ==> p < MAX_PAGES)
      && (forall p: nat :: p < MAX_PAGES ==> BitShows(p))
    }

    ghost predicate BitShows(page: nat)
      requires bitmap.Length == BITMAP_BYTES && page < MAX_PAGES
      reads this`free, bitmap
    {
      page in free <==> !InUse(page)
    }

    predicate InUse(page: nat)
      requires bitmap.Length == BITMAP_BYTES && page < MAX_PAGES
      reads bitmap
    {
      Bit(bitmap[page / 8], page % 8)
    }

    ghost function State(): Ledger
      reads this
    {
      Ledger(free, totalPages, usedPages, held)
    }

    constructor ()
      ensures Valid() && fresh(bitmap)
    {
      bitmap := new Byte[BITMAP_BYTES](_ => 0xFF);
      totalPages, usedPages := 0, 0;
      free, held := {}, {};
      new;
      AllSet();
    }

    /** All-ones bytes leave no page free. */
    lemma {:induction false} AllSet()
      requires bitmap.Length == BITMAP_BYTES && forall j :: 0 <= j < bitmap.Length ==> bitmap[j] == 0xFF
      ensures forall p: nat :: p < MAX_PAGES ==> InUse(p)
    {
      forall p: nat | p < MAX_PAGES ensures InUse(p) {
        assert bitmap[p / 8] == 0xFF && Power2(8) == 256;
        AllOnes(p % 8, 8);
      }
    }

    /** One bit of the bitmap changes. */
    method WriteBit(page: nat, on: bool)
      requires bitmap.Length == BITMAP_BYTES && page < MAX_PAGES
      modifies bitmap
      ensures forall p: nat :: p < MAX_PAGES ==> InUse(p) == if p == page then on else old(InUse(p))
    {
      var i, k := page / 8, page % 8;
      ghost var b := bitmap[i];
      WithBitByte(b, k, on);
      bitmap[i] := WithBit(bitmap[i], k, on);
      forall p: nat | p < MAX_PAGES ensures InUse(p) == if p == page then on else old(InUse(p)) {
        if p / 8 == i {
          WithBitAt(b, k, on, p % 8);
          assert p % 8 == k <==> p == page;
        }
      }
    }

    method BitmapSet(page: nat)
      requires Valid()
      modifies bitmap, this`free
      ensures Valid() && free == old(free) - {page}
    {
      if page < MAX_PAGES {
        WriteBit(page, true);
        free := free - {page};
        forall p: nat | p < MAX_PAGES ensures BitShows(p) {
          assert old(BitShows(p));
        }
      }
    }

    method BitmapClear(page: nat)
      requires Valid()
      modifies bitmap, this`free
      ensures Valid() && free == old(free) + (if page < MAX_PAGES then {page} else {})
    {
      if page < MAX_PAGES {
        WriteBit(page, false);
        free := free + {page};
        forall p: nat | p < MAX_PAGES ensures BitShows(p) {
          assert old(BitShows(p));
        }
      }
    }

    method BitmapTest(page: nat) returns (used: bool)
      requires Valid()
      ensures used <==> page !in free
    {
      if page >= MAX_PAGES {
        return true;
      }
      assert BitShows(page);
      used := Bit(bitmap[page / 8], page % 8);
    }

    /** Marks every frame used. */
    method FillBitmap()
      requires Valid()
      modifies bitmap, this`free
      ensures Valid() && free == {}
    {
      for i := 0 to bitmap.Length
        invariant forall j :: 0 <= j < i ==> bitmap[j] == 0xFF
      {
        bitmap[i] := 0xFF;
      }
      AllSet();
      free := {};
    }

    /** Everything the memory map makes available and the kernel image does not cover is free. */
    method Init(entries: seq<MmapEntry>, kernelEnd: Word)
      requires Valid()
      requires |entries| < 0x1_0000_0000
      modifies this, bitmap
      ensures Valid() && free == Union(Ranges(entries)) - Interval(0, KernelPages(kernelEnd))
      ensures totalPages + usedPages == SizeSum(Ranges(entries))
      ensures usedPages == |Union(Ranges(entries)) * Interval(0, KernelPages(kernelEnd))|
      ensures totalPages == |free| <==> Disjoint(Ranges(entries))
      ensures held == {}
      ensures kernelEnd <= TWO_64 - PAGE ==> ImageKeptOut(free, Union(Ranges(entries)), kernelEnd)
      ensures 0 < kernelEnd <= TWO_64 - PAGE && Disjoint(Ranges(entries)) ==> Balanced(State())
    {
      FillBitmap();
      totalPages, usedPages := 0, 0;
      held := {};
      ScanMap(entries);
      InitAccounts(entries, {});
      assert Union(Ranges(entries)) * {} == {} && Union(Ranges(entries)) - {} == Union(Ranges(entries));
      ReserveKernel(KernelPages(kernelEnd));
      InitBalanced(entries, kernelEnd, State());
      if kernelEnd <= TWO_64 - PAGE {
        ImageIsKeptOut(free, Union(Ranges(entries)), kernelEnd);
      }
    }

    method ScanMap(entries: seq<MmapEntry>)
      requires Valid() && free == {} && totalPages == 0
      requires |entries| < 0x1_0000_0000
      modifies this`totalPages, this`free, bitmap
      ensures Valid() && free == Union(Ranges(entries))
      ensures totalPages == SizeSum(Ranges(entries))
    {
      var i := 0;
      while i < |entries|
        invariant 0 <= i <= |entries|
        invariant Valid() && free == Union(Ranges(entries)[..i])
        invariant totalPages == SizeSum(Ranges(entries)[..i])
      {
        ScanOne(entries, i);
        if entries[i].kind == AVAILABLE {
          ReleaseRange(StartPage(entries[i]), EndPage(entries[i]));
        }
        i := i + 1;
      }
      assert Ranges(entries)[..i] == Ranges(entries);
    }

    method ReleaseRange(startPage: nat, endPage: nat)
      requires Valid() && endPage <= MAX_PAGES && totalPages + MAX_PAGES < TWO_64
      modifies this`totalPages, this`free, bitmap
      ensures Valid() && free == old(free) + Interval(startPage, endPage)
      ensures totalPages == old(totalPages) + |Interval(startPage, endPage)|
    {
      var p := startPage;
      while p < endPage
        invariant p >= startPage
        invariant p <= endPage || p == startPage
        invariant Valid() && free == old(free) + Interval(startPage, p)
        invariant totalPages == old(totalPages) + (p - startPage)
      {
        BitmapClear(p);
        totalPages := totalPages + 1;
        IntervalGrow(old(free), startPage, p);
        p := p + 1;
      }
      assert Interval(startPage, p) == Interval(startPage, endPage);
      IntervalSize(startPage, endPage);
    }

    method ReserveKernel(kernelEndPage: nat)
      requires Valid()
      requires usedPages == 0 && totalPages >= |free|
      modifies this`totalPages, this`usedPages, this`free, bitmap
      ensures Valid() && free == old(free) - Interval(0, kernelEndPage)
      ensures totalPages + usedPages == old(totalPages)
      ensures usedPages == |old(free) * Interval(0, kernelEndPage)|
    {
      var p := 0;
      ghost var all := free;
      while p < kernelEndPage && p < MAX_PAGES
        invariant p == 0 || p <= kernelEndPage
        invariant p <= MAX_PAGES
        invariant Valid() && free == all - Interval(0, p)
        invariant usedPages == |all * Interval(0, p)|
        invariant totalPages + usedPages == old(totalPages)
      {
        ReserveOne(all, p);
        var used := BitmapTest(p);
        if !used {
          BitmapSet(p);
          usedPages := WrapAdd(usedPages, 1);
          totalPages := WrapDec(totalPages);
        }
        p := p + 1;
      }
      assert all * Interval(0, p) == all * Interval(0, kernelEndPage);
      assert all - Interval(0, p) == all - Interval(0, kernelEndPage);
    }

    /** Hands out the lowest free frame; returns address 0 when there is none. */
    method AllocPage() returns (addr: Word)
      requires Valid()
      modifies this, bitmap
      ensures Valid() && State() == Step(old(State()), Alloc)
      ensures addr == Result(old(State()))
    {
      var i := 0;
      while i < MAX_PAGES
        invariant i <= MAX_PAGES
        invariant Valid() && State() == old(State())
        invariant forall p :: p in free ==> i <= p
      {
        var used := BitmapTest(i);
        if !used {
          assert Lowest(i, free);
          assert Lowest(FirstFit(free), free);
          BitmapSet(i);
          usedPages := WrapAdd(usedPages, 1);
          totalPages := WrapDec(totalPages);
          held := held + {i};
          return i * PAGE;
        }
        i := i + 1;
      }
      assert free == {};
      return 0;
    }

    /** Returns a frame; a frame that is already free is left alone. */
    method FreePage(phys: Word)
      requires Valid()
      modifies this, bitmap
      ensures Valid() && State() == Step(old(State()), Free(phys))
    {
      var page := phys / PAGE;
      if page < MAX_PAGES {
        var used := BitmapTest(page);
        if used {
          BitmapClear(page);
          usedPages := WrapDec(usedPages);
          totalPages := WrapAdd(totalPages, 1);
          held := held - {page};
        }
      }
    }
  }
}
