/**
 Four-level page tables in physical memory (section 4.5 of the Intel SDM, Vol. 3), as the
 kernel's walker sees them (kernel/InitKernel/vmm.c, include/kernel/vmm.h).

 A table is named by the path of indices that leads to it: [] is the PML4, [a] a PDPT,
 [a, b] a PD and [a, b, c] a PT. A virtual page is a path of four indices.
 */
module PageTables {
  import opened Words

  const ENTRIES: nat := 512
  const TWO_40: nat := 0x100_0000_0000
  const TWO_36: nat := 0x10_0000_0000

  type Table = t: seq<Word> | |t| == ENTRIES witness seq(ENTRIES, _ => 0)
  type Memory = map<nat, Table>

  const ZERO_TABLE: Table := seq(ENTRIES, _ => 0)

  // ---------------------------------------------------------------- entries

  predicate Present(e: Word) { e % 2 == 1 }
  predicate Writable(e: Word) { (e / 2) % 2 == 1 }
  predicate User(e: Word) { (e / 4) % 2 == 1 }
  predicate Large(e: Word) { (e / 128) % 2 == 1 }

  /** Bits 0-11. */
  function Flags(e: Word): nat { e % PAGE }

  /** Bits 12-51, the frame number. */
  function FrameOf(e: Word): nat { (e / PAGE) % TWO_40 }

  function MakeEntry(frame: nat, flags: nat): (e: Word)
    requires frame < TWO_40 && flags < PAGE
  {
    frame * PAGE + flags
  }

  function SetPresent(flags: nat): nat
  {
    if flags % 2 == 1 then flags else flags + 1
  }

  lemma {:induction false} LowBits(a: nat, b: nat)
    requires b < PAGE
    ensures (a * PAGE + b) / PAGE == a && (a * PAGE + b) % PAGE == b
    ensures (a * PAGE + b) % 2 == b % 2
    ensures ((a * PAGE + b) / 2) % 2 == (b / 2) % 2
    ensures ((a * PAGE + b) / 4) % 2 == (b / 4) % 2
    ensures ((a * PAGE + b) / 128) % 2 == (b / 128) % 2
  {
    var x := a * PAGE + b;
    assert x == 4096 * a + b;
    Bit0(x, a, b);
    Bit1(x, a, b);
    Bit2(x, a, b);
    Bit7(x, a, b);
  }

  lemma {:induction false} Bit0(x: nat, a: nat, b: nat)
    requires x == 4096 * a + b
    ensures x % 2 == b % 2
  {
  }

  lemma {:induction false} Bit1(x: nat, a: nat, b: nat)
    requires x == 4096 * a + b
    ensures x / 2 % 2 == b / 2 % 2
  {
    assert x / 2 == 2048 * a + b / 2;
  }

  lemma {:induction false} Bit2(x: nat, a: nat, b: nat)
    requires x == 4096 * a + b
    ensures x / 4 % 2 == b / 4 % 2
  {
    assert x / 4 == 1024 * a + b / 4;
  }

  lemma {:induction false} Bit7(x: nat, a: nat, b: nat)
    requires x == 4096 * a + b
    ensures x / 128 % 2 == b / 128 % 2
  {
    assert x / 128 == 32 * a + b / 128;
  }

  lemma {:induction false} EntryFields(frame: nat, flags: nat)
    requires frame < TWO_40 && flags < PAGE
    ensures FrameOf(MakeEntry(frame, flags)) == frame
    ensures Flags(MakeEntry(frame, flags)) == flags
    ensures Present(MakeEntry(frame, flags)) == Present(flags)
    ensures Writable(MakeEntry(frame, flags)) == Writable(flags)
    ensures User(MakeEntry(frame, flags)) == User(flags)
    ensures Large(MakeEntry(frame, flags)) == Large(flags)
  {
    LowBits(frame, flags);
  }

  lemma {:induction false} FlagFields(e: Word)
    ensures Present(Flags(e)) == Present(e) && Writable(Flags(e)) == Writable(e)
    ensures User(Flags(e)) == User(e) && Large(Flags(e)) == Large(e)
  {
    LowBits(e / PAGE, e % PAGE);
  }

  // ---------------------------------------------------------------- addresses

  /** Digit k of n to the base 512: nine bits of a page number. */
  function Nine(n: nat, k: nat): (i: nat)
    ensures i < ENTRIES
    decreases 2 * k
  {
    if k == 0 then n % 512 else Nine(n / 512, k - 1)
  }

  function Pml4Index(v: Word): nat { Nine(v / PAGE, 3) }
  function PdptIndex(v: Word): nat { Nine(v / PAGE, 2) }
  function PdIndex(v: Word): nat { Nine(v / PAGE, 1) }
  function PtIndex(v: Word): nat { Nine(v / PAGE, 0) }
  function PageOffset(v: Word): nat { v % 0x1000 }

  /** The indices are the shifts and masks of the header file. */
  lemma {:induction false} IndexBits(v: Word)
    ensures Pml4Index(v) == v / 0x80_0000_0000 % 512 && PdptIndex(v) == v / 0x4000_0000 % 512
    ensures PdIndex(v) == v / 0x20_0000 % 512 && PtIndex(v) == v / 0x1000 % 512
  {
    var n := v / PAGE;
    NineDigits(n);
    assert v / 0x20_0000 == n / 512;
    assert v / 0x4000_0000 == n / 512 / 512;
    assert v / 0x80_0000_0000 == n / 512 / 512 / 512;
  }

  lemma {:induction false} NineDigits(n: nat)
    ensures Nine(n, 0) == n % 512 && Nine(n, 1) == n / 512 % 512
    ensures Nine(n, 2) == n / 512 / 512 % 512 && Nine(n, 3) == n / 512 / 512 / 512 % 512
  {
    var a, b := n / 512, n / 512 / 512;
    assert Nine(b / 512, 0) == b / 512 % 512;
    assert Nine(b, 1) == Nine(b / 512, 0);
    assert Nine(a, 2) == Nine(b, 1);
    assert Nine(b, 0) == b % 512;
    assert Nine(a, 1) == Nine(b, 0);
  }

  predicate IsPath(p: seq<nat>, n: nat)
  {
    |p| == n && forall i :: 0 <= i < n ==> p[i] < ENTRIES
  }

  function PathOf(v: Word): (p: seq<nat>)
    ensures IsPath(p, 4)
  {
    [Pml4Index(v), PdptIndex(v), PdIndex(v), PtIndex(v)]
  }

  /** Bits 12-47 of an address: the page number the walk looks at. */
  function PageNumber(v: Word): nat
  {
    (v / PAGE) % TWO_36
  }

  function Compose(p: seq<nat>): nat
    requires |p| == 4
  {
    ((p[0] * 512 + p[1]) * 512 + p[2]) * 512 + p[3]
  }

  /** The four indices are exactly the digits of the page number. */
  lemma {:induction false} ComposePath(v: Word)
    ensures Compose(PathOf(v)) == PageNumber(v)
  {
    NineDigits(v / PAGE);
    Digits(v / PAGE);
  }

  lemma {:induction false} Digits(n: nat)
    ensures (((n / 512 / 512 / 512) % 512 * 512 + (n / 512 / 512) % 512) * 512 + (n / 512) % 512) * 512 + n % 512
            == n % TWO_36
  {
  }

  lemma {:induction false} ComposeInjective(p: seq<nat>, q: seq<nat>)
    requires IsPath(p, 4) && IsPath(q, 4) && Compose(p) == Compose(q)
    ensures p == q
  {
    SameDigits((p[0] * 512 + p[1]) * 512 + p[2], p[3], (q[0] * 512 + q[1]) * 512 + q[2], q[3]);
    SameDigits(p[0] * 512 + p[1], p[2], q[0] * 512 + q[1], q[2]);
    SameDigits(p[0], p[1], q[0], q[1]);
  }

  lemma {:induction false} SameDigits(a: nat, b: nat, c: nat, d: nat)
    requires a * 512 + b == c * 512 + d && b < 512 && d < 512
    ensures a == c && b == d
  {
  }

  /** Two addresses share a walk exactly when bits 12-47 agree. */
  lemma {:induction false} SamePath(u: Word, v: Word)
    ensures PathOf(u) == PathOf(v) <==> PageNumber(u) == PageNumber(v)
  {
    ComposePath(u);
    ComposePath(v);
    if PageNumber(u) == PageNumber(v) {
      ComposeInjective(PathOf(u), PathOf(v));
    }
  }

  // ---------------------------------------------------------------- the tree

  /** Whether the entry that ends a path of length `depth` designates a next-level table.
      The PML4 level has no page-size bit. */
  predicate Directs(e: Word, depth: nat)
  {
    Present(e) && (depth == 1 || !Large(e))
  }

  /** The frame of the table a path leads to. */
  function TableAt(m: Memory, root: nat, q: seq<nat>): Option<nat>
    decreases |q|, 1
  {
    if q == [] then Some(root)
    else
      var e := EntryAt(m, root, q);
      if Directs(e, |q|) then Some(FrameOf(e)) else None
  }

  /** The entry that ends a path, 0 when the table holding it does not exist. */
  function EntryAt(m: Memory, root: nat, q: seq<nat>): Word
    requires q != []
    decreases |q|, 0
  {
    var n := |q| - 1;
    match TableAt(m, root, q[..n])
    case None => 0
    case Some(f) => if f in m && q[n] < ENTRIES then m[f][q[n]] else 0
  }

  ghost predicate IsTable(m: Memory, root: nat, f: nat)
  {
    exists q :: |q| <= 3 && TableAt(m, root, q) == Some(f)
  }

  /** The same by a search that can be carried out: below path q some table is in frame f. */
  predicate HoldsBelow(m: Memory, root: nat, q: seq<nat>, f: nat)
    decreases 3 - |q|
  {
    |q| <= 3 &&
    (TableAt(m, root, q) == Some(f) ||
     (|q| < 3 && exists i :: 0 <= i < ENTRIES && HoldsBelow(m, root, q + [i], f)))
  }

  predicate HoldsTable(m: Memory, root: nat, f: nat)
  {
    HoldsBelow(m, root, [], f)
  }

  lemma {:induction false} HoldsTableIff(m: Memory, root: nat, f: nat)
    ensures HoldsTable(m, root, f) <==> IsTable(m, root, f)
  {
    if HoldsTable(m, root, f) {
      HoldsBelowIsTable(m, root, [], f);
    }
    if q :| |q| <= 3 && TableAt(m, root, q) == Some(f) {
      FoundBelow(m, root, q, 0, f);
      assert q[..0] == [];
    }
  }

  lemma {:induction false} HoldsBelowIsTable(m: Memory, root: nat, q: seq<nat>, f: nat)
    requires HoldsBelow(m, root, q, f)
    ensures IsTable(m, root, f)
    decreases 3 - |q|
  {
    if TableAt(m, root, q) != Some(f) {
      var i :| 0 <= i < ENTRIES && HoldsBelow(m, root, q + [i], f);
      HoldsBelowIsTable(m, root, q + [i], f);
    }
  }

  lemma {:induction false} FoundBelow(m: Memory, root: nat, q: seq<nat>, k: nat, f: nat)
    requires k <= |q| <= 3 && TableAt(m, root, q) == Some(f)
    ensures HoldsBelow(m, root, q[..k], f)
    decreases |q| - k
  {
    if k == |q| {
      assert q[..k] == q;
    } else {
      FoundBelow(m, root, q, k + 1, f);
      IndexInRange(m, root, q, k);
      assert q[..k] + [q[k]] == q[..k + 1];
    }
  }

  lemma {:induction false} IndexInRange(m: Memory, root: nat, q: seq<nat>, k: nat)
    requires k < |q| && TableAt(m, root, q).Some?
    ensures q[k] < ENTRIES
    decreases |q|
  {
    if k < |q| - 1 {
      IndexInRange(m, root, q[..|q| - 1], k);
    }
  }

  /** Every table frame exists in memory, is marked used, and is not frame 0 (whose address is NULL). */
  ghost predicate TablesInUse(m: Memory, root: nat, free: set<nat>)
  {
    forall q :: |q| <= 3 ==> InUse(m, root, free, q)
  }

  ghost predicate InUse(m: Memory, root: nat, free: set<nat>, q: seq<nat>)
  {
    TableAt(m, root, q).Some? ==>
      TableAt(m, root, q).value in m && TableAt(m, root, q).value !in free && TableAt(m, root, q).value != 0
  }

  /** No frame is reached by two paths: table frames are distinct and have one parent entry. */
  ghost predicate OneParent(m: Memory, root: nat)
  {
    forall q, r :: |q| <= 3 && |r| <= 3 ==> OwnFrames(m, root, q, r)
  }

  ghost predicate OwnFrames(m: Memory, root: nat, q: seq<nat>, r: seq<nat>)
  {
    TableAt(m, root, q).Some? && TableAt(m, root, q) == TableAt(m, root, r) ==> q == r
  }

  ghost predicate LargeIsPresent(m: Memory, root: nat)
  {
    forall q :: |q| == 3 && Large(EntryAt(m, root, q)) ==> Present(EntryAt(m, root, q))
  }

  ghost predicate WellFormed(m: Memory, root: nat, free: set<nat>)
  {
    && (forall f :: f in free ==> f in m && 0 < f < TWO_40)
    && TablesInUse(m, root, free)
    && OneParent(m, root)
    && LargeIsPresent(m, root)
  }

  // ---------------------------------------------------------------- translation

  /** A translation: the frame, the effective rights, and the leaf entry's low 12 bits. */
  datatype Mapping = Mapping(frame: nat, write: bool, user: bool, flags: nat)

  function Translate(m: Memory, root: nat, p: seq<nat>): Option<Mapping>
    requires |p| == 4
  {
    Walk(EntryAt(m, root, p[..1]), EntryAt(m, root, p[..2]), EntryAt(m, root, p[..3]),
         EntryAt(m, root, p), p[2], p[3])
  }

  function Walk(e1: Word, e2: Word, e3: Word, e4: Word, i2: nat, i1: nat): Option<Mapping>
  {
    if !Present(e1) || !Present(e2) then None
    else if Large(e2) then
      Some(Mapping(FrameOf(e2) / 0x4_0000 * 0x4_0000 + i2 * 512 + i1,
                   Writable(e1) && Writable(e2), User(e1) && User(e2), Flags(e2)))
    else if !Present(e3) then None
    else if Large(e3) then
      Some(Mapping(FrameOf(e3) / 512 * 512 + i1,
                   Writable(e1) && Writable(e2) && Writable(e3), User(e1) && User(e2) && User(e3), Flags(e3)))
    else if !Present(e4) then None
    else
      Some(Mapping(FrameOf(e4),
                   Writable(e1) && Writable(e2) && Writable(e3) && Writable(e4),
                   User(e1) && User(e2) && User(e3) && User(e4), Flags(e4)))
  }

  /** The entry of an address at level k: 1 for the PML4, 4 for the page table. */
  function LevelEntry(m: Memory, root: nat, v: Word, k: nat): Word
    requires 1 <= k <= 4
  {
    EntryAt(m, root, PathOf(v)[..k])
  }

  /** A 4 KB page: bits 12-51 of the last entry, and a right if every level grants it. */
  lemma {:induction false} SmallPage(m: Memory, root: nat, v: Word)
    requires forall k :: 1 <= k <= 4 ==> LevelEntry(m, root, v, k) % 2 == 1
    requires LevelEntry(m, root, v, 2) / 128 % 2 == 0 && LevelEntry(m, root, v, 3) / 128 % 2 == 0
    ensures Translate(m, root, PathOf(v)).Some?
    ensures var t, e := Translate(m, root, PathOf(v)).value, LevelEntry(m, root, v, 4);
            && t.frame == e / 4096 % 0x100_0000_0000 && t.flags == e % 4096
            && (t.write <==> forall k :: 1 <= k <= 4 ==> LevelEntry(m, root, v, k) / 2 % 2 == 1)
            && (t.user <==> forall k :: 1 <= k <= 4 ==> LevelEntry(m, root, v, k) / 4 % 2 == 1)
  {
    assert PathOf(v)[..4] == PathOf(v);
    var e1, e2 := LevelEntry(m, root, v, 1), LevelEntry(m, root, v, 2);
    var e3, e4 := LevelEntry(m, root, v, 3), LevelEntry(m, root, v, 4);
    assert Translate(m, root, PathOf(v)) == Walk(e1, e2, e3, e4, PathOf(v)[2], PathOf(v)[3]);
  }

  /** A 2 MB page: bits 21-51 of the page-directory entry, and the address's bits 0-20 below them. */
  lemma {:induction false} LargePage(m: Memory, root: nat, v: Word)
    requires forall k :: 1 <= k <= 3 ==> LevelEntry(m, root, v, k) % 2 == 1
    requires LevelEntry(m, root, v, 2) / 128 % 2 == 0 && LevelEntry(m, root, v, 3) / 128 % 2 == 1
    ensures Translate(m, root, PathOf(v)).Some?
    ensures var t, e := Translate(m, root, PathOf(v)).value, LevelEntry(m, root, v, 3);
            && t.frame * 4096 + v % 4096 == e / 0x20_0000 % 0x8000_0000 * 0x20_0000 + v % 0x20_0000
            && t.flags == e % 4096
            && (t.write <==> forall k :: 1 <= k <= 3 ==> LevelEntry(m, root, v, k) / 2 % 2 == 1)
            && (t.user <==> forall k :: 1 <= k <= 3 ==> LevelEntry(m, root, v, k) / 4 % 2 == 1)
  {
    var e1, e2, e3 := LevelEntry(m, root, v, 1), LevelEntry(m, root, v, 2), LevelEntry(m, root, v, 3);
    var i2, i1 := PathOf(v)[2], PathOf(v)[3];
    assert Translate(m, root, PathOf(v)) == Walk(e1, e2, e3, EntryAt(m, root, PathOf(v)), i2, i1);
    LargeAddress(e3, v);
  }

  lemma {:induction false} LargeAddress(e: Word, v: Word)
    ensures (FrameOf(e) / 512 * 512 + PtIndex(v)) * 4096 + v % 4096 ==
            e / 0x20_0000 % 0x8000_0000 * 0x20_0000 + v % 0x20_0000
  {
    NineDigits(v / PAGE);
    var f, q := e / PAGE, v / PAGE;
    assert e / 0x20_0000 == f / 512;
    assert f % TWO_40 / 512 == f / 512 % 0x8000_0000;
    assert v % 0x20_0000 == q % 512 * 4096 + v % 4096;
  }

  /** A 1 GB page: bits 30-51 of the second entry, and the address's bits 0-29 below them. */
  lemma {:induction false} HugePage(m: Memory, root: nat, v: Word)
    requires forall k :: 1 <= k <= 2 ==> LevelEntry(m, root, v, k) % 2 == 1
    requires LevelEntry(m, root, v, 2) / 128 % 2 == 1
    ensures Translate(m, root, PathOf(v)).Some?
    ensures var t, e := Translate(m, root, PathOf(v)).value, LevelEntry(m, root, v, 2);
            && t.frame * 4096 + v % 4096 == e / 0x4000_0000 % 0x40_0000 * 0x4000_0000 + v % 0x4000_0000
            && t.flags == e % 4096
            && (t.write <==> forall k :: 1 <= k <= 2 ==> LevelEntry(m, root, v, k) / 2 % 2 == 1)
            && (t.user <==> forall k :: 1 <= k <= 2 ==> LevelEntry(m, root, v, k) / 4 % 2 == 1)
  {
    var e1, e2 := LevelEntry(m, root, v, 1), LevelEntry(m, root, v, 2);
    var i2, i1 := PathOf(v)[2], PathOf(v)[3];
    assert Translate(m, root, PathOf(v)) ==
           Walk(e1, e2, EntryAt(m, root, PathOf(v)[..3]), EntryAt(m, root, PathOf(v)), i2, i1);
    HugeAddress(e2, v);
  }

  lemma {:induction false} HugeAddress(e: Word, v: Word)
    ensures (FrameOf(e) / 0x4_0000 * 0x4_0000 + PdIndex(v) * 512 + PtIndex(v)) * 4096 + v % 4096 ==
            e / 0x4000_0000 % 0x40_0000 * 0x4000_0000 + v % 0x4000_0000
  {
    NineDigits(v / PAGE);
    HugeFrame(e);
    HugeOffset(v);
  }

  lemma {:induction false} HugeFrame(e: Word)
    ensures FrameOf(e) / 0x4_0000 == e / 0x4000_0000 % 0x40_0000
  {
    var f := e / PAGE;
    var a, b := f / 0x4_0000, f % 0x4_0000;
    var c, d := a / 0x40_0000, a % 0x40_0000;
    assert e / 0x4000_0000 == a;
    assert f == TWO_40 * c + (0x4_0000 * d + b);
    assert f % TWO_40 == 0x4_0000 * d + b;
  }

  lemma {:induction false} HugeOffset(v: Word)
    ensures v % 0x4000_0000 == (v / PAGE / 512 % 512 * 512 + v / PAGE % 512) * 4096 + v % 4096
  {
    var q, r := v / PAGE, v % PAGE;
    TwoDigits(q);
    var c, d := q / 0x4_0000, q % 0x4_0000;
    assert v == 0x4000_0000 * c + (d * 4096 + r);
  }

  lemma {:induction false} TwoDigits(q: nat)
    ensures q % 0x4_0000 == q / 512 % 512 * 512 + q % 512
  {
    var a, b := q / 512, q % 512;
    var c, d := a / 512, a % 512;
    assert q == 0x4_0000 * c + (d * 512 + b);
  }

  /** No page where an entry on the way is absent. */
  lemma {:induction false} NoPage(m: Memory, root: nat, v: Word, k: nat)
    requires 1 <= k <= 4 && LevelEntry(m, root, v, k) % 2 == 0
    requires forall j :: 1 < j < k && j < 4 ==> LevelEntry(m, root, v, j) / 128 % 2 == 0
    ensures Translate(m, root, PathOf(v)).None?
  {
    assert PathOf(v)[..4] == PathOf(v);
    var e1, e2 := LevelEntry(m, root, v, 1), LevelEntry(m, root, v, 2);
    var e3, e4 := LevelEntry(m, root, v, 3), LevelEntry(m, root, v, 4);
    assert Translate(m, root, PathOf(v)) == Walk(e1, e2, e3, e4, PathOf(v)[2], PathOf(v)[3]);
  }

  /** Write permission the upper levels will grant to a 4KB leaf: missing and split levels
      are created writable. */
  function UpperWrite(m: Memory, root: nat, p: seq<nat>): bool
    requires |p| == 4
  {
    var e1, e2, e3 := EntryAt(m, root, p[..1]), EntryAt(m, root, p[..2]), EntryAt(m, root, p[..3]);
    (Present(e1) ==> Writable(e1)) && (Present(e2) ==> Writable(e2)) &&
    (Present(e3) && !Large(e3) ==> Writable(e3))
  }

  /** User permission the upper levels will grant: missing levels are created without it. */
  function UpperUser(m: Memory, root: nat, p: seq<nat>): bool
    requires |p| == 4
  {
    var e1, e2, e3 := EntryAt(m, root, p[..1]), EntryAt(m, root, p[..2]), EntryAt(m, root, p[..3]);
    Present(e1) && User(e1) && Present(e2) && User(e2) && Present(e3) && User(e3)
  }

  /** Whether a page lies in a 1GB or 2MB page, which the kernel's 4KB walker does not see. */
  predicate InLargePage(m: Memory, root: nat, p: seq<nat>)
    requires |p| == 4
  {
    Large(EntryAt(m, root, p[..2])) || Large(EntryAt(m, root, p[..3]))
  }

  /** Two memories translate every page, and would map every page, alike. */
  ghost predicate SameView(m: Memory, m': Memory, root: nat)
  {
    forall p :: IsPath(p, 4) ==> SamePage(m, m', root, p)
  }

  ghost predicate SamePage(m: Memory, m': Memory, root: nat, p: seq<nat>)
    requires |p| == 4
  {
    && Translate(m', root, p) == Translate(m, root, p)
    && UpperWrite(m', root, p) == UpperWrite(m, root, p)
    && UpperUser(m', root, p) == UpperUser(m, root, p)
  }

  // ---------------------------------------------------------------- one entry changes

  /** Memory m' differs from m, on table frames, at most in entry i of the table at `path`. */
  ghost predicate OneEntryChanged(m: Memory, m': Memory, root: nat, path: seq<nat>, i: nat)
  {
    forall q, j | |q| <= 3 && 0 <= j < ENTRIES && TableAt(m, root, q).Some? ::
      TableAt(m, root, q).value in m && !(q == path && j == i) ==>
        TableAt(m, root, q).value in m' &&
        m'[TableAt(m, root, q).value][j] == m[TableAt(m, root, q).value][j]
  }

  /** Tables whose path does not run through the changed entry are where they were. */
  lemma {:induction false} OthersKept(
    m: Memory, m': Memory, root: nat, free: set<nat>, path: seq<nat>, i: nat, q: seq<nat>)
    requires WellFormed(m, root, free)
    requires OneEntryChanged(m, m', root, path, i)
    requires |q| <= 3 && !(path + [i] <= q)
    ensures TableAt(m', root, q) == TableAt(m, root, q)
    decreases |q|, 1
  {
    if q != [] {
      EntriesKept(m, m', root, free, path, i, q);
    }
  }

  lemma {:induction false} EntriesKept(
    m: Memory, m': Memory, root: nat, free: set<nat>, path: seq<nat>, i: nat, q: seq<nat>)
    requires WellFormed(m, root, free)
    requires OneEntryChanged(m, m', root, path, i)
    requires 1 <= |q| <= 4 && !(path + [i] <= q)
    ensures EntryAt(m', root, q) == EntryAt(m, root, q)
    decreases |q|, 0
  {
    var n := |q| - 1;
    assert q == q[..n] + [q[n]];
    assert !(path + [i] <= q[..n]);
    OthersKept(m, m', root, free, path, i, q[..n]);
    if TableAt(m, root, q[..n]).Some? && q[n] < ENTRIES {
      assert !(q[..n] == path && q[n] == i);
    }
  }

  // ---------------------------------------------------------------- a new table is hung in

  /** Fills frame g with t and stores an entry for it in slot i of table f. */
  function Graft(m: Memory, f: nat, i: nat, g: nat, t: Table, flags: nat): Memory
    requires f in m && i < ENTRIES && g < TWO_40 && flags < PAGE
  {
    m[g := t][f := m[f][i := MakeEntry(g, flags)]]
  }

  /** What Graft needs: the slot's table exists, g is free, and t leads nowhere further. */
  ghost predicate CanGraft(m: Memory, root: nat, free: set<nat>, path: seq<nat>, i: nat, g: nat, t: Table, flags: nat)
  {
    && WellFormed(m, root, free)
    && |path| <= 2 && i < ENTRIES && g in free && flags < PAGE
    && TableAt(m, root, path).Some?
    && Present(flags) && !Large(flags)
    && (|path| < 2 ==> forall j :: 0 <= j < ENTRIES ==> !Directs(t[j], |path| + 2))
  }

  lemma {:induction false} GraftChangesOneEntry(
    m: Memory, root: nat, free: set<nat>, path: seq<nat>, i: nat, g: nat, t: Table, flags: nat)
    requires CanGraft(m, root, free, path, i, g, t, flags)
    ensures OneEntryChanged(m, Graft(m, TableAt(m, root, path).value, i, g, t, flags), root, path, i)
  {
  }

  /** The tables after a graft: the new one, nothing below it, and the old ones elsewhere. */
  lemma {:induction false} GraftTables(
    m: Memory, root: nat, free: set<nat>, path: seq<nat>, i: nat, g: nat, t: Table, flags: nat, q: seq<nat>)
    requires CanGraft(m, root, free, path, i, g, t, flags) && |q| <= 3
    ensures var m' := Graft(m, TableAt(m, root, path).value, i, g, t, flags);
            TableAt(m', root, q) ==
            if q == path + [i] then Some(g)
            else if path + [i] <= q then None
            else TableAt(m, root, q)
    decreases |q|
  {
    var m' := Graft(m, TableAt(m, root, path).value, i, g, t, flags);
    if q == path + [i] {
      GraftHead(m, root, free, path, i, g, t, flags);
    } else if path + [i] <= q {
      var n := |q| - 1;
      assert path + [i] <= q[..n];
      GraftTables(m, root, free, path, i, g, t, flags, q[..n]);
      if q[..n] == path + [i] {
        assert |q| == |path| + 2;
        assert m'[g] == t;
      }
    } else {
      GraftChangesOneEntry(m, root, free, path, i, g, t, flags);
      OthersKept(m, m', root, free, path, i, q);
    }
  }

  lemma {:induction false} GraftHead(
    m: Memory, root: nat, free: set<nat>, path: seq<nat>, i: nat, g: nat, t: Table, flags: nat)
    requires CanGraft(m, root, free, path, i, g, t, flags)
    ensures var m' := Graft(m, TableAt(m, root, path).value, i, g, t, flags);
            EntryAt(m', root, path + [i]) == MakeEntry(g, flags) &&
            TableAt(m', root, path + [i]) == Some(g)
  {
    var m' := Graft(m, TableAt(m, root, path).value, i, g, t, flags);
    GraftChangesOneEntry(m, root, free, path, i, g, t, flags);
    OthersKept(m, m', root, free, path, i, path);
    assert (path + [i])[..|path|] == path;
    EntryFields(g, flags);
  }

  /** A graft of a table whose large entries are present keeps the tree well formed. */
  lemma {:induction false} GraftWellFormed(
    m: Memory, root: nat, free: set<nat>, path: seq<nat>, i: nat, g: nat, t: Table, flags: nat)
    requires CanGraft(m, root, free, path, i, g, t, flags)
    requires |path| == 1 ==> forall j :: 0 <= j < ENTRIES && Large(t[j]) ==> Present(t[j])
    ensures WellFormed(Graft(m, TableAt(m, root, path).value, i, g, t, flags), root, free - {g})
  {
    var m' := Graft(m, TableAt(m, root, path).value, i, g, t, flags);
    forall q | |q| <= 3
      ensures TableAt(m', root, q) ==
              if q == path + [i] then Some(g)
              else if path + [i] <= q then None
              else TableAt(m, root, q)
    {
      GraftTables(m, root, free, path, i, g, t, flags, q);
    }
    forall q | |q| == 3 && Large(EntryAt(m', root, q)) ensures Present(EntryAt(m', root, q)) {
      GraftLargeIsPresent(m, root, free, path, i, g, t, flags, q);
    }
  }

  lemma {:induction false} GraftLargeIsPresent(
    m: Memory, root: nat, free: set<nat>, path: seq<nat>, i: nat, g: nat, t: Table, flags: nat, q: seq<nat>)
    requires CanGraft(m, root, free, path, i, g, t, flags)
    requires |path| == 1 ==> forall j :: 0 <= j < ENTRIES && Large(t[j]) ==> Present(t[j])
    requires |q| == 3
    ensures var m' := Graft(m, TableAt(m, root, path).value, i, g, t, flags);
            Large(EntryAt(m', root, q)) ==> Present(EntryAt(m', root, q))
  {
    var m' := Graft(m, TableAt(m, root, path).value, i, g, t, flags);
    if path + [i] <= q {
      GraftTables(m, root, free, path, i, g, t, flags, q[..2]);
      GraftHead(m, root, free, path, i, g, t, flags);
      if |path| == 2 {
        assert q == path + [i];
        EntryFields(g, flags);
      }
    } else {
      GraftChangesOneEntry(m, root, free, path, i, g, t, flags);
      EntriesKept(m, m', root, free, path, i, q);
    }
  }

  /** Entries along a page's path after a graft. */
  lemma {:induction false} GraftEntries(
    m: Memory, root: nat, free: set<nat>, path: seq<nat>, i: nat, g: nat, t: Table, flags: nat, q: seq<nat>)
    requires CanGraft(m, root, free, path, i, g, t, flags)
    requires 1 <= |q| <= 4
    ensures var m' := Graft(m, TableAt(m, root, path).value, i, g, t, flags);
            EntryAt(m', root, q) ==
            if q == path + [i] then MakeEntry(g, flags)
            else if path + [i] <= q then
              if |q| == |path| + 2 && q[|path| + 1] < ENTRIES then t[q[|path| + 1]] else 0
            else EntryAt(m, root, q)
  {
    var m' := Graft(m, TableAt(m, root, path).value, i, g, t, flags);
    if q == path + [i] {
      GraftHead(m, root, free, path, i, g, t, flags);
    } else if path + [i] <= q {
      GraftBelow(m, root, free, path, i, g, t, flags, q);
    } else {
      GraftChangesOneEntry(m, root, free, path, i, g, t, flags);
      EntriesKept(m, m', root, free, path, i, q);
    }
  }

  /** Below the new slot there are the entries of the new table, and nothing further down. */
  lemma {:induction false} GraftBelow(
    m: Memory, root: nat, free: set<nat>, path: seq<nat>, i: nat, g: nat, t: Table, flags: nat, q: seq<nat>)
    requires CanGraft(m, root, free, path, i, g, t, flags) && 1 <= |q| <= 4
    requires path + [i] <= q && q != path + [i]
    ensures var m' := Graft(m, TableAt(m, root, path).value, i, g, t, flags);
            EntryAt(m', root, q) ==
            if |q| == |path| + 2 && q[|path| + 1] < ENTRIES then t[q[|path| + 1]] else 0
  {
    var m', n := Graft(m, TableAt(m, root, path).value, i, g, t, flags), |q| - 1;
    GraftTables(m, root, free, path, i, g, t, flags, q[..n]);
    assert path + [i] <= q[..n];
    if n == |path| + 1 {
      assert q[..n] == path + [i];
      assert TableAt(m', root, q[..n]) == Some(g) && m'[g] == t;
    } else {
      assert TableAt(m', root, q[..n]) == None;
    }
  }

  /** Linking an empty table into an empty slot changes no page (get_pdpte, get_pd, get_pt). */
  lemma {:induction false} LinkKeepsView(m: Memory, root: nat, free: set<nat>, path: seq<nat>, i: nat, g: nat)
    requires CanGraft(m, root, free, path, i, g, ZERO_TABLE, 3)
    requires !Present(m[TableAt(m, root, path).value][i])
    ensures SameView(m, Graft(m, TableAt(m, root, path).value, i, g, ZERO_TABLE, 3), root)
  {
    forall p | IsPath(p, 4)
      ensures SamePage(m, Graft(m, TableAt(m, root, path).value, i, g, ZERO_TABLE, 3), root, p)
    {
      LinkKeepsPage(m, root, free, path, i, g, p);
    }
  }

  /** Along any page's path, linking changes the linked slot and nothing else. */
  lemma {:induction false} LinkEntries(
    m: Memory, root: nat, free: set<nat>, path: seq<nat>, i: nat, g: nat, p: seq<nat>, k: nat)
    requires CanGraft(m, root, free, path, i, g, ZERO_TABLE, 3)
    requires !Present(m[TableAt(m, root, path).value][i])
    requires IsPath(p, 4) && 1 <= k <= 4
    ensures var m' := Graft(m, TableAt(m, root, path).value, i, g, ZERO_TABLE, 3);
            EntryAt(m', root, p[..k]) ==
            if p[..k] == path + [i] then MakeEntry(g, 3) else EntryAt(m, root, p[..k])
    ensures p[..k] == path + [i] ==> EntryAt(m, root, p[..k]) == m[TableAt(m, root, path).value][i]
  {
    var q := p[..k];
    GraftEntries(m, root, free, path, i, g, ZERO_TABLE, 3, q);
    SlotEntry(m, root, path, i);
    if q != path + [i] && path + [i] <= q {
      NothingBelowSlot(m, root, path + [i], q);
    }
  }

  lemma {:induction false} SlotEntry(m: Memory, root: nat, path: seq<nat>, i: nat)
    requires TableAt(m, root, path).Some? && TableAt(m, root, path).value in m && i < ENTRIES
    ensures EntryAt(m, root, path + [i]) == m[TableAt(m, root, path).value][i]
  {
    assert (path + [i])[..|path|] == path;
  }

  /** Below an absent entry every entry reads as 0. */
  lemma {:induction false} NothingBelowSlot(m: Memory, root: nat, slot: seq<nat>, q: seq<nat>)
    requires slot != [] && !Present(EntryAt(m, root, slot)) && slot <= q && q != slot && |q| <= 4
    ensures EntryAt(m, root, q) == 0
  {
    assert TableAt(m, root, slot) == None;
    NoTableBelow(m, root, slot, q[..|q| - 1]);
  }

  lemma {:induction false} LinkKeepsPage(
    m: Memory, root: nat, free: set<nat>, path: seq<nat>, i: nat, g: nat, p: seq<nat>)
    requires CanGraft(m, root, free, path, i, g, ZERO_TABLE, 3)
    requires !Present(m[TableAt(m, root, path).value][i])
    requires IsPath(p, 4)
    ensures SamePage(m, Graft(m, TableAt(m, root, path).value, i, g, ZERO_TABLE, 3), root, p)
  {
    var m' := Graft(m, TableAt(m, root, path).value, i, g, ZERO_TABLE, 3);
    LinkEntries(m, root, free, path, i, g, p, 1);
    LinkEntries(m, root, free, path, i, g, p, 2);
    LinkEntries(m, root, free, path, i, g, p, 3);
    LinkEntries(m, root, free, path, i, g, p, 4);
    assert p[..4] == p;
    var e1, e2, e3, e4 :=
      EntryAt(m, root, p[..1]), EntryAt(m, root, p[..2]), EntryAt(m, root, p[..3]), EntryAt(m, root, p);
    if path + [i] == p[..|path| + 1] {
      BelowAbsent(m, root, p);
      LinkWalk(e1, e2, e3, e4, g, p[2], p[3]);
    }
  }

  lemma {:induction false} LinkWalk(e1: Word, e2: Word, e3: Word, e4: Word, g: nat, i2: nat, i1: nat)
    requires g < TWO_40
    ensures var e := MakeEntry(g, 3); Present(e) && !Large(e) && Writable(e) && !User(e)
    ensures !Present(e1) && !Present(e2) ==> Walk(MakeEntry(g, 3), e2, e3, e4, i2, i1) == Walk(e1, e2, e3, e4, i2, i1)
    ensures !Present(e2) && !Present(e3) ==> Walk(e1, MakeEntry(g, 3), e3, e4, i2, i1) == Walk(e1, e2, e3, e4, i2, i1)
    ensures !Present(e3) && !Present(e4) ==> Walk(e1, e2, MakeEntry(g, 3), e4, i2, i1) == Walk(e1, e2, e3, e4, i2, i1)
  {
    EntryFields(g, 3);
  }

  /** Entries below an absent one read as 0. */
  lemma {:induction false} BelowAbsent(m: Memory, root: nat, p: seq<nat>)
    requires |p| == 4
    ensures !Present(EntryAt(m, root, p[..1])) ==> EntryAt(m, root, p[..2]) == 0
    ensures !Present(EntryAt(m, root, p[..2])) ==> EntryAt(m, root, p[..3]) == 0
    ensures !Present(EntryAt(m, root, p[..3])) ==> EntryAt(m, root, p) == 0
  {
    assert p[..2][..1] == p[..1] && p[..3][..2] == p[..2];
  }

  // ---------------------------------------------------------------- splitting a 2MB page

  function SplitEntry(pde: Word, i: nat): Word
    requires i < ENTRIES
  {
    LargeFrame(FrameOf(pde), i);
    MakeEntry(FrameOf(pde) / 512 * 512 + i, SetPresent(Flags(pde)))
  }

  /** The 512 entries that replace a 2MB entry. */
  function SplitTable(pde: Word): (t: seq<Word>)
    ensures |t| == ENTRIES
  {
    seq(ENTRIES, i requires 0 <= i < ENTRIES => SplitEntry(pde, i))
  }

  /** Flags of the entry that then designates the new table. */
  function SplitFlags(pde: Word): nat
  {
    if User(pde) then 7 else 3
  }

  lemma {:induction false} LargeFrame(f: nat, i: nat)
    requires f < TWO_40 && i < ENTRIES
    ensures f / 512 * 512 + i < TWO_40
  {
  }

  lemma {:induction false} SplitEntryFields(pde: Word, i: nat)
    requires i < ENTRIES && Present(pde)
    ensures var e := SplitEntry(pde, i);
            && FrameOf(e) == FrameOf(pde) / 512 * 512 + i && Flags(e) == Flags(pde)
            && Present(e) && Writable(e) == Writable(pde) && User(e) == User(pde)
  {
    FlagFields(pde);
    LargeFrame(FrameOf(pde), i);
    EntryFields(FrameOf(pde) / 512 * 512 + i, Flags(pde));
  }

  /** What a split needs: a present 2MB entry in slot i of the PD at `path`, and a free frame. */
  ghost predicate CanSplit(m: Memory, root: nat, free: set<nat>, path: seq<nat>, i: nat, g: nat, pde: Word)
  {
    && WellFormed(m, root, free)
    && |path| == 2 && i < ENTRIES && g in free
    && TableAt(m, root, path).Some?
    && m[TableAt(m, root, path).value][i] == pde && Large(pde) && Present(pde)
  }

  function Split(m: Memory, f: nat, i: nat, g: nat, pde: Word): Memory
    requires f in m && i < ENTRIES && g < TWO_40
  {
    Graft(m, f, i, g, SplitTable(pde), SplitFlags(pde))
  }

  lemma {:induction false} SplitIsGraft(m: Memory, root: nat, free: set<nat>, path: seq<nat>, i: nat, g: nat, pde: Word)
    requires CanSplit(m, root, free, path, i, g, pde)
    ensures CanGraft(m, root, free, path, i, g, SplitTable(pde), SplitFlags(pde))
  {
  }

  lemma {:induction false} WalkSplit(e1: Word, e2: Word, pde: Word, e4: Word, g: nat, i2: nat, i1: nat)
    requires Present(pde) && Large(pde) && g < TWO_40 && i1 < ENTRIES
    ensures Walk(e1, e2, MakeEntry(g, SplitFlags(pde)), SplitEntry(pde, i1), i2, i1) == Walk(e1, e2, pde, e4, i2, i1)
    ensures var e3 := MakeEntry(g, SplitFlags(pde));
            Present(e3) && !Large(e3) && Writable(e3) && User(e3) == User(pde)
  {
    EntryFields(g, SplitFlags(pde));
    SplitEntryFields(pde, i1);
  }

  lemma {:induction false} SplitEntries(
    m: Memory, root: nat, free: set<nat>, path: seq<nat>, i: nat, g: nat, pde: Word, p: seq<nat>, k: nat)
    requires CanSplit(m, root, free, path, i, g, pde) && IsPath(p, 4) && 1 <= k <= 4
    ensures var m' := Split(m, TableAt(m, root, path).value, i, g, pde);
            EntryAt(m', root, p[..k]) ==
            if path + [i] <= p && k == 3 then MakeEntry(g, SplitFlags(pde))
            else if path + [i] <= p && k == 4 then SplitEntry(pde, p[3])
            else EntryAt(m, root, p[..k])
  {
    SplitIsGraft(m, root, free, path, i, g, pde);
    GraftEntries(m, root, free, path, i, g, SplitTable(pde), SplitFlags(pde), p[..k]);
    assert path + [i] <= p && k >= 3 ==> path + [i] <= p[..k];
    assert path + [i] <= p[..k] ==> path + [i] <= p;
  }

  lemma {:induction false} SplitKeepsPage(
    m: Memory, root: nat, free: set<nat>, path: seq<nat>, i: nat, g: nat, pde: Word, p: seq<nat>)
    requires CanSplit(m, root, free, path, i, g, pde) && IsPath(p, 4)
    ensures SamePage(m, Split(m, TableAt(m, root, path).value, i, g, pde), root, p)
  {
    SplitEntries(m, root, free, path, i, g, pde, p, 1);
    SplitEntries(m, root, free, path, i, g, pde, p, 2);
    SplitEntries(m, root, free, path, i, g, pde, p, 3);
    SplitEntries(m, root, free, path, i, g, pde, p, 4);
    assert p[..4] == p;
    if path + [i] <= p {
      assert p[..3][..2] == path;
      assert EntryAt(m, root, p[..3]) == pde;
      WalkSplit(EntryAt(m, root, p[..1]), EntryAt(m, root, p[..2]), pde, EntryAt(m, root, p), g, p[2], p[3]);
    }
  }

  /** Every one of the 512 pages keeps its frame, its effective rights and its 12 flag bits,
      and no other page changes. */
  lemma {:induction false} SplitKeepsView(
    m: Memory, root: nat, free: set<nat>, path: seq<nat>, i: nat, g: nat, pde: Word)
    requires CanSplit(m, root, free, path, i, g, pde)
    ensures SameView(m, Split(m, TableAt(m, root, path).value, i, g, pde), root)
    ensures WellFormed(Split(m, TableAt(m, root, path).value, i, g, pde), root, free - {g})
  {
    forall p | IsPath(p, 4)
      ensures SamePage(m, Split(m, TableAt(m, root, path).value, i, g, pde), root, p)
    {
      SplitKeepsPage(m, root, free, path, i, g, pde, p);
    }
    SplitIsGraft(m, root, free, path, i, g, pde);
    GraftWellFormed(m, root, free, path, i, g, SplitTable(pde), SplitFlags(pde));
  }

  // ---------------------------------------------------------------- what table building keeps

  /** Table frames of m stay where they are, and new ones come out of the free frames. */
  ghost predicate TablesGrow(m: Memory, m': Memory, root: nat, free: set<nat>, free': set<nat>)
  {
    forall q :: |q| <= 3 ==> TableGrows(m, m', root, free, free', q)
  }

  ghost predicate TableGrows(m: Memory, m': Memory, root: nat, free: set<nat>, free': set<nat>, q: seq<nat>)
  {
    && (TableAt(m, root, q).Some? ==> TableAt(m', root, q) == TableAt(m, root, q))
    && (TableAt(m', root, q).Some? ==>
          TableAt(m', root, q) == TableAt(m, root, q) || TableAt(m', root, q).value in free - free')
  }

  /** Only tables are written: data in use, and frames that are still free, are as they were. */
  ghost predicate DataKept(m: Memory, m': Memory, root: nat)
  {
    forall f :: f in m && !IsTable(m', root, f) ==> f in m' && m'[f] == m[f]
  }

  /** ... apart from frame g. */
  ghost predicate DataKeptBut(m: Memory, m': Memory, root: nat, g: nat)
  {
    forall f :: f in m && f != g && !IsTable(m', root, f) ==> f in m' && m'[f] == m[f]
  }

  lemma {:induction false} FreeKept(m: Memory, m': Memory, root: nat, free': set<nat>, f: nat)
    requires WellFormed(m', root, free') && DataKept(m, m', root) && f in m && f in free'
    ensures f in m' && m'[f] == m[f]
  {
  }

  /** The effect of building tables: no page changes. */
  ghost predicate Builds(m: Memory, m': Memory, root: nat, free: set<nat>, free': set<nat>)
  {
    && WellFormed(m', root, free') && free' <= free
    && SameView(m, m', root)
    && TablesGrow(m, m', root, free, free')
    && DataKept(m, m', root)
  }

  lemma {:induction false} BuildsNothing(m: Memory, root: nat, free: set<nat>)
    requires WellFormed(m, root, free)
    ensures Builds(m, m, root, free, free)
  {
  }

  lemma {:induction false} BuildsTrans(
    m: Memory, m1: Memory, m2: Memory, root: nat, free: set<nat>, free1: set<nat>, free2: set<nat>)
    requires Builds(m, m1, root, free, free1) && Builds(m1, m2, root, free1, free2)
    ensures Builds(m, m2, root, free, free2)
  {
    forall p | IsPath(p, 4) ensures SamePage(m, m2, root, p) {
      assert SamePage(m, m1, root, p) && SamePage(m1, m2, root, p);
    }
    DataKeptTrans(m, m1, m2, root, free1, free2);
  }

  lemma {:induction false} GraftBuilds(
    m: Memory, root: nat, free: set<nat>, path: seq<nat>, i: nat, g: nat, t: Table, flags: nat)
    requires CanGraft(m, root, free, path, i, g, t, flags)
    requires !Directs(m[TableAt(m, root, path).value][i], |path| + 1)
    ensures var m' := Graft(m, TableAt(m, root, path).value, i, g, t, flags);
            TablesGrow(m, m', root, free, free - {g}) && DataKept(m, m', root)
  {
    var m' := Graft(m, TableAt(m, root, path).value, i, g, t, flags);
    assert (path + [i])[..|path|] == path;
    assert TableAt(m, root, path + [i]) == None;
    forall q | |q| <= 3
      ensures TableAt(m, root, q).Some? ==> TableAt(m', root, q) == TableAt(m, root, q)
      ensures TableAt(m', root, q) == TableAt(m, root, q) || TableAt(m', root, q) == Some(g)
    {
      GraftTables(m, root, free, path, i, g, t, flags, q);
      if path + [i] <= q {
        NoTableBelow(m, root, path + [i], q);
      }
    }
    assert IsTable(m, root, TableAt(m, root, path).value);
    GraftHead(m, root, free, path, i, g, t, flags);
    assert TableAt(m', root, path) == TableAt(m, root, path) && TableAt(m', root, path + [i]) == Some(g);
  }

  lemma {:induction false} NoTableBelow(m: Memory, root: nat, r: seq<nat>, q: seq<nat>)
    requires r <= q && r != [] && TableAt(m, root, r) == None
    ensures TableAt(m, root, q) == None
    decreases |q|
  {
    if r == q {
    } else {
      NoTableBelow(m, root, r, q[..|q| - 1]);
    }
  }

  lemma {:induction false} LinkBuilds(m: Memory, root: nat, free: set<nat>, path: seq<nat>, i: nat, g: nat)
    requires CanGraft(m, root, free, path, i, g, ZERO_TABLE, 3)
    requires !Present(m[TableAt(m, root, path).value][i])
    ensures Builds(m, Graft(m, TableAt(m, root, path).value, i, g, ZERO_TABLE, 3), root, free, free - {g})
  {
    LinkKeepsView(m, root, free, path, i, g);
    GraftWellFormed(m, root, free, path, i, g, ZERO_TABLE, 3);
    GraftBuilds(m, root, free, path, i, g, ZERO_TABLE, 3);
  }

  /** Everything a linking step promises, for the code that performs it. */
  lemma {:induction false} LinkEffect(m: Memory, root: nat, free: set<nat>, path: seq<nat>, i: nat, g: nat)
    requires WellFormed(m, root, free) && |path| <= 2 && i < ENTRIES && g in free
    requires TableAt(m, root, path).Some? && !Present(m[TableAt(m, root, path).value][i])
    ensures var f := TableAt(m, root, path).value;
            var m' := Graft(m, f, i, g, ZERO_TABLE, 3);
            && Builds(m, m', root, free, free - {g})
            && TableAt(m', root, path + [i]) == Some(g) && FrameOf(m'[f][i]) == g
            && forall p, k | IsPath(p, 4) && 1 <= k <= 3 && p[..k] != path + [i] ::
                 EntryAt(m', root, p[..k]) == EntryAt(m, root, p[..k])
  {
    assert CanGraft(m, root, free, path, i, g, ZERO_TABLE, 3);
    LinkBuilds(m, root, free, path, i, g);
    GraftHead(m, root, free, path, i, g, ZERO_TABLE, 3);
    EntryFields(g, 3);
    forall p, k | IsPath(p, 4) && 1 <= k <= 3 && p[..k] != path + [i]
      ensures var m' := Graft(m, TableAt(m, root, path).value, i, g, ZERO_TABLE, 3);
              EntryAt(m', root, p[..k]) == EntryAt(m, root, p[..k])
    {
      LinkEntries(m, root, free, path, i, g, p, k);
    }
  }

  lemma {:induction false} SplitBuilds(m: Memory, root: nat, free: set<nat>, path: seq<nat>, i: nat, g: nat, pde: Word)
    requires CanSplit(m, root, free, path, i, g, pde)
    ensures Builds(m, Split(m, TableAt(m, root, path).value, i, g, pde), root, free, free - {g})
  {
    SplitKeepsView(m, root, free, path, i, g, pde);
    SplitIsGraft(m, root, free, path, i, g, pde);
    GraftBuilds(m, root, free, path, i, g, SplitTable(pde), SplitFlags(pde));
  }

  lemma {:induction false} SplitEffect(m: Memory, root: nat, free: set<nat>, path: seq<nat>, i: nat, g: nat, pde: Word)
    requires CanSplit(m, root, free, path, i, g, pde)
    ensures var m' := Split(m, TableAt(m, root, path).value, i, g, pde);
            && Builds(m, m', root, free, free - {g})
            && TableAt(m', root, path + [i]) == Some(g)
            && TableAt(m, root, path + [i]) == None
  {
    SplitBuilds(m, root, free, path, i, g, pde);
    SplitIsGraft(m, root, free, path, i, g, pde);
    GraftHead(m, root, free, path, i, g, SplitTable(pde), SplitFlags(pde));
    assert (path + [i])[..2] == path;
  }

  // ---------------------------------------------------------------- a leaf is written

  function SetLeaf(m: Memory, f: nat, i: nat, w: Word): Memory
    requires f in m && i < ENTRIES
  {
    m[f := m[f][i := w]]
  }

  /** The page p now has leaf entry w; no other page, no table and no data frame changes. */
  ghost predicate LeafSet(m: Memory, m': Memory, root: nat, free: set<nat>, p: seq<nat>, w: Word)
    requires |p| == 4
  {
    && WellFormed(m', root, free)
    && TablesGrow(m, m', root, free, free)
    && DataKept(m, m', root)
    && (forall q :: IsPath(q, 4) && q != p ==> SamePage(m, m', root, q))
    && EntryAt(m', root, p) == w
    && Translate(m', root, p) == LeafMapping(w, UpperWrite(m, root, p), UpperUser(m, root, p))
    && UpperWrite(m', root, p) == UpperWrite(m, root, p)
    && UpperUser(m', root, p) == UpperUser(m, root, p)
  }

  function LeafMapping(w: Word, write: bool, user: bool): Option<Mapping>
  {
    if Present(w) then Some(Mapping(FrameOf(w), write && Writable(w), user && User(w), Flags(w))) else None
  }

  lemma {:induction false} ParentTable(m: Memory, root: nat, q: seq<nat>)
    requires q != [] && TableAt(m, root, q).Some?
    ensures Directs(EntryAt(m, root, q), |q|) && TableAt(m, root, q[..|q| - 1]).Some?
  {
  }

  lemma {:induction false} UpperEntries(m: Memory, root: nat, p: seq<nat>)
    requires |p| == 4 && TableAt(m, root, p[..3]).Some?
    ensures Present(EntryAt(m, root, p[..1]))
    ensures Present(EntryAt(m, root, p[..2])) && !Large(EntryAt(m, root, p[..2]))
    ensures Present(EntryAt(m, root, p[..3])) && !Large(EntryAt(m, root, p[..3]))
    ensures TableAt(m, root, p[..1]).Some? && TableAt(m, root, p[..2]).Some?
  {
    ParentTable(m, root, p[..3]);
    assert p[..3][..2] == p[..2];
    ParentTable(m, root, p[..2]);
    assert p[..2][..1] == p[..1];
    ParentTable(m, root, p[..1]);
  }

  lemma {:induction false} LeafWriteTables(m: Memory, root: nat, free: set<nat>, p: seq<nat>, w: Word)
    requires WellFormed(m, root, free) && IsPath(p, 4) && TableAt(m, root, p[..3]).Some?
    ensures var m' := SetLeaf(m, TableAt(m, root, p[..3]).value, p[3], w);
            && (forall q :: |q| <= 3 ==> TableAt(m', root, q) == TableAt(m, root, q))
            && (forall q :: 1 <= |q| <= 4 && q != p ==> EntryAt(m', root, q) == EntryAt(m, root, q))
            && EntryAt(m', root, p) == w
            && DataKept(m, m', root)
  {
    var f := TableAt(m, root, p[..3]).value;
    var m' := SetLeaf(m, f, p[3], w);
    assert p == p[..3] + [p[3]];
    assert OneEntryChanged(m, m', root, p[..3], p[3]);
    forall q | |q| <= 3 ensures TableAt(m', root, q) == TableAt(m, root, q) {
      OthersKept(m, m', root, free, p[..3], p[3], q);
    }
    forall q | 1 <= |q| <= 4 && q != p ensures EntryAt(m', root, q) == EntryAt(m, root, q) {
      EntriesKept(m, m', root, free, p[..3], p[3], q);
    }
    assert IsTable(m, root, f);
  }

  lemma {:induction false} SameTablesWellFormed(m: Memory, m': Memory, root: nat, free: set<nat>)
    requires WellFormed(m, root, free) && m'.Keys == m.Keys
    requires forall q :: |q| <= 3 ==> TableAt(m', root, q) == TableAt(m, root, q)
    requires forall q :: |q| == 3 ==> EntryAt(m', root, q) == EntryAt(m, root, q)
    ensures WellFormed(m', root, free) && TablesGrow(m, m', root, free, free)
  {
  }

  lemma {:induction false} LeafWriteOthers(m: Memory, m': Memory, root: nat, p: seq<nat>)
    requires |p| == 4
    requires forall q :: 1 <= |q| <= 4 && q != p ==> EntryAt(m', root, q) == EntryAt(m, root, q)
    ensures forall q :: IsPath(q, 4) && q != p ==> SamePage(m, m', root, q)
  {
  }

  lemma {:induction false} LeafWriteTarget(m: Memory, m': Memory, root: nat, p: seq<nat>, w: Word)
    requires |p| == 4 && TableAt(m, root, p[..3]).Some?
    requires forall k :: 1 <= k <= 3 ==> EntryAt(m', root, p[..k]) == EntryAt(m, root, p[..k])
    requires EntryAt(m', root, p) == w
    ensures Translate(m', root, p) == LeafMapping(w, UpperWrite(m, root, p), UpperUser(m, root, p))
    ensures UpperWrite(m', root, p) == UpperWrite(m, root, p)
    ensures UpperUser(m', root, p) == UpperUser(m, root, p)
  {
    UpperEntries(m, root, p);
  }

  lemma {:induction false} LeafWrite(m: Memory, root: nat, free: set<nat>, p: seq<nat>, w: Word)
    requires WellFormed(m, root, free) && IsPath(p, 4) && TableAt(m, root, p[..3]).Some?
    ensures LeafSet(m, SetLeaf(m, TableAt(m, root, p[..3]).value, p[3], w), root, free, p, w)
  {
    var m' := SetLeaf(m, TableAt(m, root, p[..3]).value, p[3], w);
    LeafWriteTables(m, root, free, p, w);
    SameTablesWellFormed(m, m', root, free);
    LeafWriteTarget(m, m', root, p, w);
    LeafWriteOthers(m, m', root, p);
  }

  // ---------------------------------------------------------------- mapping as a whole

  /** How many tables on the way to q do not exist yet. */
  function Missing(m: Memory, root: nat, q: seq<nat>): nat
  {
    if q == [] then 0
    else Missing(m, root, q[..|q| - 1]) + if TableAt(m, root, q).None? then 1 else 0
  }

  /** A 1GB page stands on the way: the mapper gives up. */
  predicate Blocked(m: Memory, root: nat, p: seq<nat>)
    requires |p| >= 2
  {
    Large(EntryAt(m, root, p[..2]))
  }

  lemma {:induction false} MissingNone(m: Memory, root: nat, q: seq<nat>)
    requires TableAt(m, root, q).Some?
    ensures Missing(m, root, q) == 0
  {
    if q != [] {
      ParentTable(m, root, q);
      MissingNone(m, root, q[..|q| - 1]);
    }
  }

  lemma {:induction false} MissingBound(m: Memory, root: nat, q: seq<nat>)
    ensures Missing(m, root, q) <= |q|
  {
    if q != [] {
      MissingBound(m, root, q[..|q| - 1]);
    }
  }

  /** The effect of a successful mapping of page p with leaf entry w. */
  ghost predicate Mapped(m: Memory, m': Memory, root: nat, free: set<nat>, free': set<nat>, p: seq<nat>, w: Word)
    requires |p| == 4
  {
    && WellFormed(m', root, free') && free' <= free
    && Translate(m', root, p) == LeafMapping(w, UpperWrite(m, root, p), UpperUser(m, root, p))
    && !InLargePage(m', root, p)
    && (forall q :: IsPath(q, 4) && q != p ==> SamePage(m, m', root, q))
    && TablesGrow(m, m', root, free, free')
    && DataKept(m, m', root)
  }

  lemma {:induction false} SetIsMapped(m: Memory, m': Memory, root: nat, free: set<nat>, p: seq<nat>, w: Word)
    requires IsPath(p, 4) && TableAt(m, root, p[..3]).Some? && LeafSet(m, m', root, free, p, w)
    ensures Mapped(m, m', root, free, free, p, w)
  {
    UpperEntries(m', root, p);
  }

  lemma {:induction false} BuildThenMap(
    m: Memory, m1: Memory, m2: Memory, root: nat, free: set<nat>, free1: set<nat>, free2: set<nat>, p: seq<nat>,
    w: Word)
    requires Builds(m, m1, root, free, free1)
    requires IsPath(p, 4) && Mapped(m1, m2, root, free1, free2, p, w)
    ensures Mapped(m, m2, root, free, free2, p, w)
  {
    assert SamePage(m, m1, root, p);
    forall q | IsPath(q, 4) && q != p ensures SamePage(m, m2, root, q) {
      assert SamePage(m, m1, root, q) && SamePage(m1, m2, root, q);
    }
    DataKeptTrans(m, m1, m2, root, free1, free2);
  }

  /** Tables made on demand carry no user bit: a page that needed one is closed to user mode, whatever
      its own flags; any other page is open exactly when its flags and the levels above say so. */
  lemma {:induction false} UserNeedsTables(
    m: Memory, m': Memory, root: nat, free: set<nat>, free': set<nat>, p: seq<nat>, w: Word)
    requires IsPath(p, 4) && Mapped(m, m', root, free, free', p, w) && Present(w)
    ensures Translate(m', root, p).Some?
    ensures Translate(m', root, p).value.user <==> User(w) && UpperUser(m, root, p)
    ensures TableAt(m, root, p[..3]).None? && !InLargePage(m, root, p) ==> !Translate(m', root, p).value.user
  {
    assert p[..3][..2] == p[..2] && p[..2][..1] == p[..1];
  }

  lemma {:induction false} BuildThenLeaf(
    m: Memory, m1: Memory, root: nat, free: set<nat>, free1: set<nat>, p: seq<nat>, w: Word)
    requires Builds(m, m1, root, free, free1)
    requires IsPath(p, 4) && TableAt(m1, root, p[..3]).Some?
    ensures Mapped(m, SetLeaf(m1, TableAt(m1, root, p[..3]).value, p[3], w), root, free, free1, p, w)
  {
    var m2 := SetLeaf(m1, TableAt(m1, root, p[..3]).value, p[3], w);
    LeafWrite(m1, root, free1, p, w);
    SetIsMapped(m1, m2, root, free1, p, w);
    BuildThenMap(m, m1, m2, root, free, free1, free1, p, w);
  }

  lemma {:induction false} DataKeptTrans(m: Memory, m1: Memory, m2: Memory, root: nat, free1: set<nat>, free2: set<nat>)
    requires TablesGrow(m1, m2, root, free1, free2) && DataKept(m, m1, root) && DataKept(m1, m2, root)
    ensures DataKept(m, m2, root)
  {
    forall f | f in m && !IsTable(m2, root, f) ensures f in m2 && m2[f] == m[f] {
      StaysTable(m1, m2, root, free1, free2, f);
    }
  }

  lemma {:induction false} StaysTable(m: Memory, m': Memory, root: nat, free: set<nat>, free': set<nat>, f: nat)
    requires TablesGrow(m, m', root, free, free')
    ensures IsTable(m, root, f) ==> IsTable(m', root, f)
  {
    if q :| |q| <= 3 && TableAt(m, root, q) == Some(f) {
      assert TableAt(m', root, q) == Some(f);
    }
  }

  // ---------------------------------------------------------------- the 4KB view of the walker

  /** The physical address vmm_get_phys reports: 0 unless a present 4KB leaf is found. */
  function PhysOf(m: Memory, root: nat, v: Word): (phys: nat)
  {
    if TableAt(m, root, PathOf(v)[..3]).Some? && Present(EntryAt(m, root, PathOf(v)))
    then FrameOf(EntryAt(m, root, PathOf(v))) * PAGE + PageOffset(v)
    else 0
  }

  /** The walker finds a leaf exactly for the pages that translate through a 4KB entry; it does
      not see a page inside a 2MB or 1GB page. */
  lemma {:induction false} WalkerSees(m: Memory, root: nat, free: set<nat>, p: seq<nat>)
    requires WellFormed(m, root, free) && IsPath(p, 4)
    ensures TableAt(m, root, p[..3]).Some? && Present(EntryAt(m, root, p)) <==>
            Translate(m, root, p).Some? && !InLargePage(m, root, p)
    ensures TableAt(m, root, p[..3]).Some? && Present(EntryAt(m, root, p)) ==>
            Translate(m, root, p).value.frame == FrameOf(EntryAt(m, root, p))
    ensures InLargePage(m, root, p) ==> TableAt(m, root, p[..3]).None?
    ensures TableAt(m, root, p[..3]).None? && !InLargePage(m, root, p) ==> Translate(m, root, p).None?
  {
    assert p[..3][..2] == p[..2] && p[..2][..1] == p[..1];
    if TableAt(m, root, p[..3]).Some? {
      UpperEntries(m, root, p);
    } else {
      BelowAbsent(m, root, p);
    }
  }

  /** Writing a frame that is no table changes no page. */
  lemma {:induction false} DataWrite(m: Memory, root: nat, free: set<nat>, f: nat, t: Table)
    requires WellFormed(m, root, free) && f in m && !IsTable(m, root, f)
    ensures WellFormed(m[f := t], root, free) && SameView(m, m[f := t], root)
    ensures TablesGrow(m, m[f := t], root, free, free)
    ensures !IsTable(m[f := t], root, f)
    ensures forall q :: |q| <= 3 ==> TableAt(m[f := t], root, q) == TableAt(m, root, q)
    ensures forall q :: 1 <= |q| <= 4 ==> EntryAt(m[f := t], root, q) == EntryAt(m, root, q)
  {
    var m' := m[f := t];
    var nowhere := [0, 0, 0, 0];
    assert OneEntryChanged(m, m', root, nowhere, 0);
    forall q | |q| <= 3 ensures TableAt(m', root, q) == TableAt(m, root, q) {
      OthersKept(m, m', root, free, nowhere, 0, q);
    }
    forall q | 1 <= |q| <= 4 ensures EntryAt(m', root, q) == EntryAt(m, root, q) {
      EntriesKept(m, m', root, free, nowhere, 0, q);
    }
    SameTablesWellFormed(m, m', root, free);
    SameEntriesSameView(m, m', root);
    assert forall q :: |q| <= 3 ==> TableAt(m', root, q) != Some(f);
  }

  /** Taking a free frame and zeroing it changes no page and no table. */
  lemma {:induction false} FreshFrame(m: Memory, root: nat, free: set<nat>, f: nat)
    requires WellFormed(m, root, free) && f in free
    ensures WellFormed(m[f := ZERO_TABLE], root, free - {f}) && SameView(m, m[f := ZERO_TABLE], root)
    ensures !IsTable(m[f := ZERO_TABLE], root, f)
  {
    assert !IsTable(m, root, f);
    DataWrite(m, root, free, f, ZERO_TABLE);
  }

  lemma {:induction false} FreshFrameNeeds(m: Memory, root: nat, free: set<nat>, f: nat, p: seq<nat>)
    requires WellFormed(m, root, free) && f in free && |p| == 4
    ensures Missing(m[f := ZERO_TABLE], root, p[..3]) == Missing(m, root, p[..3])
    ensures Blocked(m[f := ZERO_TABLE], root, p) == Blocked(m, root, p)
  {
    assert !IsTable(m, root, f);
    DataWrite(m, root, free, f, ZERO_TABLE);
    SameMissing(m, m[f := ZERO_TABLE], root, p[..3]);
  }

  lemma {:induction false} SameMissing(m: Memory, m': Memory, root: nat, q: seq<nat>)
    requires |q| <= 3
    requires forall r :: |r| <= 3 ==> TableAt(m', root, r) == TableAt(m, root, r)
    ensures Missing(m', root, q) == Missing(m, root, q)
  {
    if q != [] {
      SameMissing(m, m', root, q[..|q| - 1]);
    }
  }

  /** A frame that was set aside before a mapping is still intact, and no table, after it. */
  lemma {:induction false} FrameSurvives(m1: Memory, m2: Memory, root: nat, free1: set<nat>, free2: set<nat>, f: nat)
    requires TablesGrow(m1, m2, root, free1, free2) && DataKept(m1, m2, root)
    requires f in m1 && f !in free1 && !IsTable(m1, root, f)
    ensures f in m2 && m2[f] == m1[f] && !IsTable(m2, root, f)
  {
  }

  ghost predicate Zeroed(m: Memory, f: nat)
  {
    f in m && forall j :: 0 <= j < ENTRIES ==> m[f][j] == 0
  }

  /** Page p is mapped, with entry w, to the zeroed frame f that was free before. */
  ghost predicate AllocMapped(
    m: Memory, m': Memory, root: nat, free: set<nat>, free': set<nat>, p: seq<nat>, f: nat, w: Word)
    requires |p| == 4
  {
    && f in free && f !in free' && free' <= free
    && Zeroed(m', f) && !IsTable(m', root, f)
    && Translate(m', root, p) == LeafMapping(w, UpperWrite(m, root, p), UpperUser(m, root, p))
    && !InLargePage(m', root, p)
    && (forall q :: IsPath(q, 4) && q != p ==> SamePage(m, m', root, q))
    && TablesGrow(m, m', root, free, free') && DataKeptBut(m, m', root, f)
  }

  /** Setting a frame aside first makes no difference to what becomes of the tables. */
  lemma {:induction false} SetAside(m: Memory, m2: Memory, root: nat, free: set<nat>, free2: set<nat>, f: nat)
    requires WellFormed(m, root, free) && f in free && free2 <= free - {f}
    requires TablesGrow(m[f := ZERO_TABLE], m2, root, free - {f}, free2)
    ensures TablesGrow(m, m2, root, free, free2)
  {
    assert !IsTable(m, root, f);
    DataWrite(m, root, free, f, ZERO_TABLE);
  }

  lemma {:induction false} AllocThenMap(
    m: Memory, m2: Memory, root: nat, free: set<nat>, free2: set<nat>, p: seq<nat>, f: nat, w: Word)
    requires WellFormed(m, root, free) && f in free && IsPath(p, 4)
    requires Mapped(m[f := ZERO_TABLE], m2, root, free - {f}, free2, p, w)
    ensures AllocMapped(m, m2, root, free, free2, p, f, w)
  {
    var m1 := m[f := ZERO_TABLE];
    FreshFrame(m, root, free, f);
    FrameSurvives(m1, m2, root, free - {f}, free2, f);
    SetAside(m, m2, root, free, free2, f);
    assert DataKept(m1, m2, root);
    assert SamePage(m, m1, root, p);
    forall q | IsPath(q, 4) && q != p ensures SamePage(m, m2, root, q) {
      assert SamePage(m, m1, root, q) && SamePage(m1, m2, root, q);
    }
  }

  lemma {:induction false} AllocThenFail(m: Memory, m2: Memory, root: nat, free: set<nat>, free2: set<nat>, f: nat)
    requires WellFormed(m, root, free) && f in free
    requires Builds(m[f := ZERO_TABLE], m2, root, free - {f}, free2)
    ensures SameView(m, m2, root) && TablesGrow(m, m2, root, free, free2) && DataKeptBut(m, m2, root, f) && f in m2
  {
    var m1 := m[f := ZERO_TABLE];
    FreshFrame(m, root, free, f);
    FrameSurvives(m1, m2, root, free - {f}, free2, f);
    SetAside(m, m2, root, free, free2, f);
    assert DataKept(m1, m2, root);
    forall q | IsPath(q, 4) ensures SamePage(m, m2, root, q) {
      assert SamePage(m, m1, root, q) && SamePage(m1, m2, root, q);
    }
  }

  lemma {:induction false} SameEntriesSameView(m: Memory, m': Memory, root: nat)
    requires forall q :: 1 <= |q| <= 4 ==> EntryAt(m', root, q) == EntryAt(m, root, q)
    ensures SameView(m, m', root)
  {
  }

  // ---------------------------------------------------------------- what a split does not carry over

  predicate ExecuteDisable(e: Word) { e / 0x8000_0000_0000_0000 == 1 }

  /** The PAT bit is bit 12 of a 2MB entry and bit 7 of a 4KB entry. */
  predicate PatOfLarge(e: Word) { (e / PAGE) % 2 == 1 }
  predicate PatOfSmall(e: Word) { Large(e) }

  /** A split page keeps its memory type exactly when the 2MB entry had its PAT bit set, and
      its execute-disable right exactly when that bit was clear. */
  lemma {:induction false} SplitCarriesOver(pde: Word, i: nat)
    requires i < ENTRIES && Present(pde) && Large(pde)
    ensures PatOfSmall(SplitEntry(pde, i)) == PatOfLarge(pde) <==> PatOfLarge(pde)
    ensures ExecuteDisable(SplitEntry(pde, i)) == ExecuteDisable(pde) <==> !ExecuteDisable(pde)
  {
    FlagFields(pde);
    LargeFrame(FrameOf(pde), i);
    EntryFields(FrameOf(pde) / 512 * 512 + i, Flags(pde));
  }

  // ---------------------------------------------------------------- the identity map over a run

  datatype Snapshot = Snapshot(mem: Memory, free: set<nat>)

  /** What every VMM operation on page p does: other pages keep their translation, and tables
      stay put or come out of the free frames. */
  ghost predicate VmmStep(s: Snapshot, s': Snapshot, root: nat, p: seq<nat>)
    requires |p| == 4
  {
    && s'.free <= s.free
    && TablesGrow(s.mem, s'.mem, root, s.free, s'.free)
    && forall q :: IsPath(q, 4) && q != p ==> Translate(s'.mem, root, q) == Translate(s.mem, root, q)
  }

  lemma {:induction false} MappedIsStep(
    m: Memory, m': Memory, root: nat, free: set<nat>, free': set<nat>, p: seq<nat>, w: Word)
    requires IsPath(p, 4) && Mapped(m, m', root, free, free', p, w)
    ensures VmmStep(Snapshot(m, free), Snapshot(m', free'), root, p)
  {
  }

  lemma {:induction false} LeafSetIsStep(m: Memory, m': Memory, root: nat, free: set<nat>, p: seq<nat>, w: Word)
    requires IsPath(p, 4) && LeafSet(m, m', root, free, p, w)
    ensures VmmStep(Snapshot(m, free), Snapshot(m', free), root, p)
  {
  }

  lemma {:induction false} BuildsIsStep(m: Memory, m': Memory, root: nat, free: set<nat>, free': set<nat>, p: seq<nat>)
    requires IsPath(p, 4) && Builds(m, m', root, free, free')
    ensures VmmStep(Snapshot(m, free), Snapshot(m', free'), root, p)
  {
  }

  lemma {:induction false} AllocMappedIsStep(
    m: Memory, m': Memory, root: nat, free: set<nat>, free': set<nat>, p: seq<nat>, f: nat, w: Word)
    requires IsPath(p, 4) && AllocMapped(m, m', root, free, free', p, f, w)
    ensures VmmStep(Snapshot(m, free), Snapshot(m', free'), root, p)
  {
    forall q | IsPath(q, 4) && q != p ensures Translate(m', root, q) == Translate(m, root, q) {
      assert SamePage(m, m', root, q);
    }
  }

  lemma {:induction false} AllocFailedIsStep(
    m: Memory, m': Memory, root: nat, free: set<nat>, free': set<nat>, p: seq<nat>)
    requires IsPath(p, 4) && free' <= free && SameView(m, m', root) && TablesGrow(m, m', root, free, free')
    ensures VmmStep(Snapshot(m, free), Snapshot(m', free'), root, p)
  {
    forall q | IsPath(q, 4) && q != p ensures Translate(m', root, q) == Translate(m, root, q) {
      assert SamePage(m, m', root, q);
    }
  }

  /** The page that a frame's physical address names. */
  function IdentityPage(f: nat): (p: seq<nat>)
    ensures IsPath(p, 4)
  {
    PathOf((f % TWO_40) * PAGE)
  }

  ghost predicate IdentityMapped(m: Memory, root: nat, f: nat)
  {
    Translate(m, root, IdentityPage(f)).Some? && Translate(m, root, IdentityPage(f)).value.frame == f
  }

  ghost predicate StepAt(run: seq<Snapshot>, root: nat, targets: seq<seq<nat>>, k: nat)
  {
    k < |targets| && k + 1 < |run| && IsPath(targets[k], 4) && VmmStep(run[k], run[k + 1], root, targets[k])
  }

  ghost predicate IsRun(run: seq<Snapshot>, root: nat, targets: seq<seq<nat>>)
  {
    && |run| == |targets| + 1
    && (forall k :: 0 <= k < |targets| ==> StepAt(run, root, targets, k))
  }

  /** Frame f holds a table at some point of the run. */
  ghost predicate EverTable(run: seq<Snapshot>, root: nat, f: nat)
  {
    exists j :: 0 <= j < |run| && IsTable(run[j].mem, root, f)
  }

  lemma {:induction false} TablesComeFromStart(run: seq<Snapshot>, root: nat, targets: seq<seq<nat>>, j: nat, f: nat)
    requires IsRun(run, root, targets) && j < |run|
    ensures run[j].free <= run[0].free
    ensures IsTable(run[j].mem, root, f) ==> IsTable(run[0].mem, root, f) || f in run[0].free
    decreases j
  {
    if j > 0 {
      TablesComeFromStart(run, root, targets, j - 1, f);
      assert StepAt(run, root, targets, j - 1);
      if q :| |q| <= 3 && TableAt(run[j].mem, root, q) == Some(f) {
        if TableAt(run[j].mem, root, q) == TableAt(run[j - 1].mem, root, q) {
          assert IsTable(run[j - 1].mem, root, f);
        }
      }
    }
  }

  /** Over a whole run, a page that no operation targets keeps its translation. */
  lemma {:induction false} TranslationKept(run: seq<Snapshot>, root: nat, targets: seq<seq<nat>>, p: seq<nat>, k: nat)
    requires IsRun(run, root, targets) && k < |run| && IsPath(p, 4)
    requires p !in targets
    ensures Translate(run[k].mem, root, p) == Translate(run[0].mem, root, p)
    decreases k
  {
    if k > 0 {
      TranslationKept(run, root, targets, p, k - 1);
      assert StepAt(run, root, targets, k - 1);
      assert targets[k - 1] in targets;
    }
  }

  /** Every table and every frame that may become one is identity-mapped. */
  ghost predicate StartsIdentityMapped(s: Snapshot, root: nat)
  {
    forall g :: IsTable(s.mem, root, g) || g in s.free ==> IdentityMapped(s.mem, root, g)
  }

  lemma {:induction false} IdentityAtStart(run: seq<Snapshot>, root: nat, targets: seq<seq<nat>>, f: nat)
    requires IsRun(run, root, targets)
    requires StartsIdentityMapped(run[0], root)
    requires EverTable(run, root, f)
    ensures IdentityMapped(run[0].mem, root, f)
  {
    var j :| 0 <= j < |run| && IsTable(run[j].mem, root, f);
    TablesComeFromStart(run, root, targets, j, f);
  }

  /** The walker dereferences table frames through the identity map it edits. This is sound
      over any run in which no operation targets the identity page of a frame that holds a
      table at any time: such frames are identity-mapped at every point. */
  lemma {:induction false} TablesStayIdentityMapped(
    run: seq<Snapshot>, root: nat, targets: seq<seq<nat>>, f: nat, k: nat)
    requires IsRun(run, root, targets) && k < |run|
    requires StartsIdentityMapped(run[0], root)
    requires IdentityPage(f) !in targets
    requires EverTable(run, root, f)
    ensures IdentityMapped(run[k].mem, root, f)
  {
    IdentityAtStart(run, root, targets, f);
    TranslationKept(run, root, targets, IdentityPage(f), k);
  }

  // ---------------------------------------------------------------- windows of 4KB pages

  /** The walker finds address v at physical address phys. */
  ghost predicate Reaches(m: Memory, root: nat, v: Word, phys: nat)
  {
    && TableAt(m, root, PathOf(v)[..3]).Some?
    && Present(EntryAt(m, root, PathOf(v)))
    && PhysOf(m, root, v) == phys
  }

  /** Once found, an address stays where it is while other pages are mapped. */
  lemma {:induction false} ReachesKept(
    m: Memory, m': Memory, root: nat, free: set<nat>, free': set<nat>, v: Word, phys: nat)
    requires WellFormed(m, root, free) && WellFormed(m', root, free')
    requires TablesGrow(m, m', root, free, free') && Translate(m', root, PathOf(v)) == Translate(m, root, PathOf(v))
    requires Reaches(m, root, v, phys)
    ensures Reaches(m', root, v, phys)
  {
    var p := PathOf(v);
    WalkerSees(m, root, free, p);
    UpperEntries(m', root, p);
    WalkerSees(m', root, free', p);
  }

  lemma {:induction false} ReachesMapped(
    m: Memory, m': Memory, root: nat, free: set<nat>, free': set<nat>, v: Word, w: Word)
    requires Mapped(m, m', root, free, free', PathOf(v), w) && Present(w)
    ensures Reaches(m', root, v, FrameOf(w) * PAGE + PageOffset(v))
  {
    WalkerSees(m', root, free', PathOf(v));
  }
}
