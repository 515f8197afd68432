/**
 The address space that programs are loaded into is the page tables' own. Seen through the translation,
 vmm_alloc_map on four-level tables maps one page, and a store into a data frame changes one byte.
 */
module LoaderOnVmm {
  import opened Words
  import opened Bytes
  import Tables = PageTables
  import opened AddressSpace

  /** The walk's indices for page number n. */
  function PathTo(n: nat): (p: seq<nat>)
    requires n < TWO_36
    ensures Tables.IsPath(p, 4)
  {
    Tables.PathOf(n * PAGE)
  }

  lemma {:induction false} PathsDiffer(n: nat, k: nat)
    requires n < TWO_36 && k < TWO_36
    ensures PathTo(n) == PathTo(k) <==> n == k
  {
    Tables.SamePath(n * PAGE, k * PAGE);
    NumberOfPage(n);
    NumberOfPage(k);
  }

  lemma {:induction false} NumberOfPage(n: nat)
    requires n < TWO_36
    ensures n * PAGE < TWO_64 && Tables.PageNumber(n * PAGE) == n
  {
  }

  /** The walk of an address is that of its page. */
  lemma {:induction false} PathOfAddress(va: Word)
    ensures PageOf(va) < TWO_36 && Tables.PathOf(va) == PathTo(PageOf(va))
  {
    var n := PageOf(va);
    NumberOfPage(n);
    Tables.SamePath(va, n * PAGE);
  }

  lemma {:induction false} PathOfPage(q: nat, va: Word)
    requires va == q * PAGE
    ensures Key(q) < TWO_36 && Tables.PathOf(va) == PathTo(Key(q))
  {
    PathOfAddress(va);
    assert va / PAGE == q;
  }

  /** Pages of one 2 MB page differ in the last index only. */
  lemma {:induction false} SameLargePage(n: nat, k: nat)
    requires n < TWO_36 && k < TWO_36 && n / 512 == k / 512
    ensures PathTo(n)[..3] == PathTo(k)[..3]
  {
    PathDigits(n);
    PathDigits(k);
  }

  lemma {:induction false} PathDigits(n: nat)
    requires n < TWO_36
    ensures PathTo(n)[..3] == [n / 512 / 512 / 512 % 512, n / 512 / 512 % 512, n / 512 % 512]
  {
    assert n * PAGE / PAGE == n;
    Tables.NineDigits(n);
  }

  // ---------------------------------------------------------------- the view

  /** A translation as the loader sees it, with its effective rights. */
  ghost function Seen(m: Tables.Memory, root: nat, p: seq<nat>): Page
    requires |p| == 4 && Tables.Translate(m, root, p).Some?
  {
    var t := Tables.Translate(m, root, p).value;
    Page(t.frame, t.write, t.user, !Tables.InLargePage(m, root, p))
  }

  /** All pages that translate. */
  ghost function PagesOf(m: Tables.Memory, root: nat): Pages
  {
    map n: nat | n < TWO_36 && Tables.Translate(m, root, PathTo(n)).Some? :: Seen(m, root, PathTo(n))
  }

  /** Byte o of a frame of eight-byte words. */
  function ByteAt(t: Tables.Table, o: nat): Byte
    requires o < PAGE
  {
    Digit(t[o / 8], o % 8)
  }

  /** The frame with byte o replaced. */
  function WithByte(t: Tables.Table, o: nat, b: Byte): Tables.Table
    requires o < PAGE
  {
    assert Power256(8) == TWO_64;
    SetDigitFits(t[o / 8], o % 8, b, 8);
    t[o / 8 := SetDigit(t[o / 8], o % 8, b)]
  }

  lemma {:induction false} ByteSet(t: Tables.Table, o: nat, b: Byte, x: nat)
    requires o < PAGE && x < PAGE
    ensures ByteAt(WithByte(t, o, b), x) == if x == o then b else ByteAt(t, x)
  {
    if x / 8 == o / 8 {
      DigitSet(t[o / 8], o % 8, b, x % 8);
      assert x % 8 == o % 8 <==> x == o;
    }
  }

  /** The bytes of the machine's frames. */
  ghost function BytesOf(m: Tables.Memory, ram: set<nat>): Memory
  {
    map f: nat, o: nat | f in ram && o < PAGE :: (f, o) := if f in m then ByteAt(m[f], o) else 0
  }

  ghost function TablesOf(m: Tables.Memory, root: nat): set<nat>
  {
    set f | f in m && Tables.IsTable(m, root, f)
  }

  /** What a load through the page tables reads. */
  ghost function ReadThrough(m: Tables.Memory, root: nat, va: Word): Option<Byte>
  {
    match Tables.Translate(m, root, Tables.PathOf(va))
    case None => None
    case Some(t) => if t.frame in m then Some(ByteAt(m[t.frame], OffsetOf(va))) else None
  }

  /** Reading through the tables is reading the address space. */
  lemma {:induction false} ReadsAgree(m: Tables.Memory, root: nat, ram: set<nat>, va: Word, b: Byte)
    requires ram <= m.Keys && PeeksAt(PagesOf(m, root), BytesOf(m, ram), ram, va, b)
    ensures ReadThrough(m, root, va) == Some(b)
  {
    PathOfAddress(va);
    var cell := Cell(PagesOf(m, root), va);
    assert cell == (cell.0, cell.1) && cell in BytesOf(m, ram);
  }

  // ---------------------------------------------------------------- a store

  /** A store into a frame that holds no table moves no page, makes no table and changes one byte. */
  lemma {:induction false} StorePokes(m: Tables.Memory, root: nat, free: set<nat>, ram: set<nat>, va: Word, b: Byte)
    requires Tables.WellFormed(m, root, free) && ram <= m.Keys
    requires PageOf(va) in PagesOf(m, root)
    requires var f := PagesOf(m, root)[PageOf(va)].frame; f in m && !Tables.IsTable(m, root, f)
    ensures var f := PagesOf(m, root)[PageOf(va)].frame;
            var m' := m[f := WithByte(m[f], OffsetOf(va), b)];
            && Tables.WellFormed(m', root, free) && PagesOf(m', root) == PagesOf(m, root) &&
               TablesOf(m', root) == TablesOf(m, root)
            && BytesOf(m', ram) == Poke(PagesOf(m, root), BytesOf(m, ram), ram, va, b)
  {
    var f := PagesOf(m, root)[PageOf(va)].frame;
    var t := WithByte(m[f], OffsetOf(va), b);
    var m' := m[f := t];
    forall n: nat | n < TWO_36 ensures SameWalk(m, m', root, PathTo(n)) {
      DataWriteWalk(m, root, free, f, t, PathTo(n));
    }
    SamePages(m, m', root);
    DataWriteTables(m, root, free, f, t);
    PokedBytes(m, m', ram, f, OffsetOf(va), b);
  }

  ghost predicate SameWalk(m: Tables.Memory, m': Tables.Memory, root: nat, p: seq<nat>)
    requires |p| == 4
  {
    && Tables.Translate(m', root, p) == Tables.Translate(m, root, p)
    && Tables.InLargePage(m', root, p) == Tables.InLargePage(m, root, p)
  }

  lemma {:induction false} DataWriteWalk(
    m: Tables.Memory, root: nat, free: set<nat>, f: nat, t: Tables.Table, p: seq<nat>)
    requires Tables.WellFormed(m, root, free) && f in m && !Tables.IsTable(m, root, f) && Tables.IsPath(p, 4)
    ensures SameWalk(m, m[f := t], root, p)
  {
    Tables.DataWrite(m, root, free, f, t);
    assert Tables.SamePage(m, m[f := t], root, p);
  }

  lemma {:induction false} SamePages(m: Tables.Memory, m': Tables.Memory, root: nat)
    requires forall n: nat :: n < TWO_36 ==> SameWalk(m, m', root, PathTo(n))
    ensures PagesOf(m', root) == PagesOf(m, root)
  {
  }

  lemma {:induction false} SameTables(m: Tables.Memory, m': Tables.Memory, root: nat)
    requires m'.Keys == m.Keys && forall q :: |q| <= 3 ==> Tables.TableAt(m', root, q) == Tables.TableAt(m, root, q)
    ensures TablesOf(m', root) == TablesOf(m, root)
  {
    forall f: nat ensures Tables.IsTable(m', root, f) <==> Tables.IsTable(m, root, f) {
      if q :| |q| <= 3 && Tables.TableAt(m', root, q) == Some(f) {
        assert Tables.TableAt(m, root, q) == Some(f);
      }
      if q :| |q| <= 3 && Tables.TableAt(m, root, q) == Some(f) {
        assert Tables.TableAt(m', root, q) == Some(f);
      }
    }
  }

  lemma {:induction false} DataWriteTables(m: Tables.Memory, root: nat, free: set<nat>, f: nat, t: Tables.Table)
    requires Tables.WellFormed(m, root, free) && f in m && !Tables.IsTable(m, root, f)
    ensures Tables.WellFormed(m[f := t], root, free) && TablesOf(m[f := t], root) == TablesOf(m, root)
  {
    Tables.DataWrite(m, root, free, f, t);
    SameTables(m, m[f := t], root);
  }

  lemma {:induction false} PokedBytes(m: Tables.Memory, m': Tables.Memory, ram: set<nat>, f: nat, o: nat, b: Byte)
    requires f in m && o < PAGE && m' == m[f := WithByte(m[f], o, b)]
    ensures BytesOf(m', ram) == if f in ram then BytesOf(m, ram)[(f, o) := b] else BytesOf(m, ram)
  {
    forall x: nat | x < PAGE ensures ByteAt(m'[f], x) == if x == o then b else ByteAt(m[f], x) {
      ByteSet(m[f], o, b, x);
    }
  }

  // ---------------------------------------------------------------- a new page

  /** Pages that the 4 KB walker sees keep being seen. */
  lemma {:induction false} StaysVisible(
    m: Tables.Memory, m': Tables.Memory, root: nat, free: set<nat>, free': set<nat>, p: seq<nat>)
    requires Tables.IsPath(p, 4) && Tables.TablesGrow(m, m', root, free, free')
    requires Tables.Translate(m, root, p).Some? && !Tables.InLargePage(m, root, p)
    ensures !Tables.InLargePage(m', root, p)
  {
    assert Tables.TableAt(m, root, p[..3]).Some?;
    Tables.UpperEntries(m', root, p);
  }

  /** A page whose translation is the same is seen the same, or newly seen by the 4 KB walker. */
  lemma {:induction false} SeenAgain(
    m: Tables.Memory, m': Tables.Memory, root: nat, free: set<nat>, free': set<nat>, n: nat)
    requires n < TWO_36 && Tables.TablesGrow(m, m', root, free, free') && Tables.SamePage(m, m', root, PathTo(n))
    ensures n in PagesOf(m', root) <==> n in PagesOf(m, root)
    ensures n in PagesOf(m, root) ==> SeenStill(PagesOf(m, root)[n], PagesOf(m', root)[n])
  {
    if n in PagesOf(m, root) && !Tables.InLargePage(m, root, PathTo(n)) {
      StaysVisible(m, m', root, free, free', PathTo(n));
    }
  }

  /** Tables stay tables, and new ones were free. */
  lemma {:induction false} TablesStay(m: Tables.Memory, m': Tables.Memory, root: nat, free: set<nat>, free': set<nat>)
    requires Tables.WellFormed(m, root, free) && Tables.WellFormed(m', root, free') && free' <= free
    requires Tables.TablesGrow(m, m', root, free, free')
    ensures TablesOf(m, root) <= TablesOf(m', root) <= TablesOf(m, root) + (free - free')
  {
    forall f | f in TablesOf(m, root) ensures f in TablesOf(m', root) {
      Tables.StaysTable(m, m', root, free, free', f);
    }
    forall f | f in TablesOf(m', root) ensures f in TablesOf(m, root) + (free - free') {
      var q :| |q| <= 3 && Tables.TableAt(m', root, q) == Some(f);
      assert Tables.TableAt(m', root, q) == Tables.TableAt(m, root, q) || f in free - free';
    }
  }

  /** Bytes outside the tables and frame g are as they were. */
  lemma {:induction false} BytesStay(
    m: Tables.Memory, m': Tables.Memory, root: nat, free': set<nat>, ram: set<nat>, g: nat)
    requires ram <= m.Keys && Tables.DataKeptBut(m, m', root, g) && Tables.TablesInUse(m', root, free')
    requires g in ram ==> g in m'
    ensures ram <= m'.Keys
    ensures forall c: (nat, nat) ::
              c.0 !in TablesOf(m', root) && c.0 != g ==> (c in BytesOf(m', ram) <==> c in BytesOf(m, ram))
    ensures forall c: (nat, nat) ::
              c.0 !in TablesOf(m', root) && c.0 != g && c in BytesOf(m', ram) ==>
                BytesOf(m', ram)[c] == BytesOf(m, ram)[c]
  {
  }

  /** The translation as it would be without the new page. */
  ghost function Besides(now: Pages, before: Pages, n: nat): Pages
  {
    if n in before then now[n := before[n]] else now - {n}
  }

  lemma {:induction false} OthersStill(
    m: Tables.Memory, m': Tables.Memory, root: nat, free: set<nat>, free': set<nat>, n: nat)
    requires n < TWO_36 && Tables.TablesGrow(m, m', root, free, free')
    requires forall q :: Tables.IsPath(q, 4) && q != PathTo(n) ==> Tables.SamePage(m, m', root, q)
    ensures forall k: nat :: k != n ==> (k in PagesOf(m', root) <==> k in PagesOf(m, root))
    ensures forall k: nat :: k != n && k in PagesOf(m, root) ==> SeenStill(PagesOf(m, root)[k], PagesOf(m', root)[k])
  {
    forall k: nat | k != n
      ensures k in PagesOf(m', root) <==> k in PagesOf(m, root)
      ensures k in PagesOf(m, root) ==> SeenStill(PagesOf(m, root)[k], PagesOf(m', root)[k])
    {
      if k < TWO_36 {
        PathsDiffer(n, k);
        assert Tables.SamePage(m, m', root, PathTo(k));
        SeenAgain(m, m', root, free, free', k);
      }
    }
  }

  lemma {:induction false} BesidesStill(before: Pages, now: Pages, n: nat)
    requires forall k: nat :: k != n ==> (k in now <==> k in before) && (k in before ==> SeenStill(before[k], now[k]))
    requires n in now
    ensures Besides(now, before, n).Keys == before.Keys
    ensures forall k :: k in before ==> SeenStill(before[k], Besides(now, before, n)[k])
    ensures now == Besides(now, before, n)[n := now[n]]
  {
  }

  /** The page that vmm_alloc_map maps, with the rights that the levels above leave it. */
  ghost function NewPage(m: Tables.Memory, root: nat, n: nat, f: nat, flags: nat): Page
    requires n < TWO_36
  {
    Page(f, Tables.UpperWrite(m, root, PathTo(n)) && flags / 2 % 2 == 1,
         Tables.UpperUser(m, root, PathTo(n)) && flags / 4 % 2 == 1, true)
  }

  /** The same for the permissions that the loader asks for: present, user, and possibly write. */
  ghost function UserPage(m: Tables.Memory, root: nat, n: nat, f: nat, write: bool): Page
    requires n < TWO_36
  {
    Page(f, Tables.UpperWrite(m, root, PathTo(n)) && write, Tables.UpperUser(m, root, PathTo(n)), true)
  }

  lemma {:induction false} UserPageIsNew(m: Tables.Memory, root: nat, n: nat, f: nat, write: bool)
    requires n < TWO_36
    ensures NewPage(m, root, n, f, if write then 7 else 5) == UserPage(m, root, n, f, write)
  {
  }

  lemma {:induction false} NewPageSeen(m: Tables.Memory, m': Tables.Memory, root: nat, n: nat, f: nat, flags: nat)
    requires n < TWO_36 && f < Tables.TWO_40 && flags < PAGE && flags % 2 == 1
    requires Tables.Translate(m', root, PathTo(n)) ==
             Tables.LeafMapping(Tables.MakeEntry(f, flags), Tables.UpperWrite(m, root, PathTo(n)),
               Tables.UpperUser(m, root, PathTo(n)))
    requires !Tables.InLargePage(m', root, PathTo(n))
    ensures n in PagesOf(m', root) && PagesOf(m', root)[n] == NewPage(m, root, n, f, flags)
  {
    Tables.EntryFields(f, flags);
  }

  /** A vmm_alloc_map that succeeds is a growth and one new page on a frame that was free. */
  lemma {:induction false} AllocMapGrows(
    m: Tables.Memory, m': Tables.Memory, root: nat, free: set<nat>, free': set<nat>, ram: set<nat>, n: nat,
    p: seq<nat>, f: nat, flags: nat, w: Word)
    requires Tables.WellFormed(m, root, free) && Tables.WellFormed(m', root, free') && ram <= m.Keys
    requires n < TWO_36 && p == PathTo(n) && f < Tables.TWO_40 && flags < PAGE && flags % 2 == 1
    requires w == Tables.MakeEntry(f, flags)
    requires Tables.AllocMapped(m, m', root, free, free', p, f, w)
    ensures Grows(PagesOf(m, root), TablesOf(m, root), BytesOf(m, ram),
                  Besides(PagesOf(m', root), PagesOf(m, root), n), TablesOf(m', root), BytesOf(m', ram), f)
    ensures PagesOf(m', root) == Besides(PagesOf(m', root), PagesOf(m, root), n)[n := NewPage(m, root, n, f, flags)]
    ensures f !in TablesOf(m', root) && TablesOf(m', root) <= TablesOf(m, root) + (free - free') && ram <= m'.Keys
    ensures UppersKept(m, m', root, n)
  {
    OthersUppers(m, m', root, n);
    NewPageSeen(m, m', root, n, f, flags);
    TablesStay(m, m', root, free, free');
    BytesStay(m, m', root, free', ram, f);
    OthersStill(m, m', root, free, free', n);
    BesidesStill(PagesOf(m, root), PagesOf(m', root), n);
  }

  /** The levels above every page but n grant the same rights. */
  ghost predicate UppersKept(m: Tables.Memory, m': Tables.Memory, root: nat, n: nat)
  {
    forall k: nat :: k < TWO_36 && k != n ==> SameUppers(m, m', root, k)
  }

  ghost predicate SameUppers(m: Tables.Memory, m': Tables.Memory, root: nat, k: nat)
    requires k < TWO_36
  {
    && Tables.UpperWrite(m', root, PathTo(k)) == Tables.UpperWrite(m, root, PathTo(k))
    && Tables.UpperUser(m', root, PathTo(k)) == Tables.UpperUser(m, root, PathTo(k))
  }

  lemma {:induction false} OthersUppers(m: Tables.Memory, m': Tables.Memory, root: nat, n: nat)
    requires n < TWO_36 && forall q :: Tables.IsPath(q, 4) && q != PathTo(n) ==> Tables.SamePage(m, m', root, q)
    ensures UppersKept(m, m', root, n)
  {
    forall k: nat | k < TWO_36 && k != n ensures SameUppers(m, m', root, k) {
      PathsDiffer(n, k);
      assert Tables.SamePage(m, m', root, PathTo(k));
    }
  }

  /** A vmm_alloc_map that fails moves no page. */
  lemma {:induction false} FailedAllocMapGrows(
    m: Tables.Memory, m': Tables.Memory, root: nat, free: set<nat>, free': set<nat>, ram: set<nat>, g: nat)
    requires Tables.WellFormed(m, root, free) && Tables.WellFormed(m', root, free') && ram <= m.Keys && free' <= free
    requires Tables.SameView(m, m', root) && Tables.TablesGrow(m, m', root, free, free')
    requires Tables.DataKeptBut(m, m', root, g)
    requires g in ram ==> g in m'
    ensures Grows(PagesOf(m, root), TablesOf(m, root), BytesOf(m, ram), PagesOf(m', root), TablesOf(m', root),
            BytesOf(m', ram), g)
    ensures TablesOf(m', root) <= TablesOf(m, root) + (free - free') && ram <= m'.Keys
  {
    TablesStay(m, m', root, free, free');
    BytesStay(m, m', root, free', ram, g);
    PagesStill(m, m', root, free, free');
  }

  lemma {:induction false} PagesStill(m: Tables.Memory, m': Tables.Memory, root: nat, free: set<nat>, free': set<nat>)
    requires Tables.SameView(m, m', root) && Tables.TablesGrow(m, m', root, free, free')
    ensures PagesOf(m', root).Keys == PagesOf(m, root).Keys
    ensures forall n :: n in PagesOf(m, root) ==> SeenStill(PagesOf(m, root)[n], PagesOf(m', root)[n])
  {
    forall n: nat
      ensures n in PagesOf(m', root) <==> n in PagesOf(m, root)
      ensures n in PagesOf(m, root) ==> SeenStill(PagesOf(m, root)[n], PagesOf(m', root)[n])
    {
      if n < TWO_36 {
        assert Tables.SamePage(m, m', root, PathTo(n));
        SeenAgain(m, m', root, free, free', n);
      }
    }
  }

  // ---------------------------------------------------------------- pages that get no frame

  /** The pages of one 2 MB page are all seen by the 4 KB walker, or none is. */
  lemma {:induction false} SeenTogether(m: Tables.Memory, root: nat, n: nat, k: nat)
    requires n < TWO_36 && k < TWO_36 && n / 512 == k / 512 && Mapped(PagesOf(m, root), n) && k in PagesOf(m, root)
    ensures Mapped(PagesOf(m, root), k)
  {
    SameLargePage(n, k);
    var p, q := PathTo(n), PathTo(k);
    assert p[..3][..2] == p[..2] && q[..3][..2] == q[..2];
  }

  // ---------------------------------------------------------------- representation

  ghost function ViewOf(m: Tables.Memory, root: nat, ram: set<nat>, free: set<nat>): View
  {
    View(PagesOf(m, root), TablesOf(m, root), BytesOf(m, ram), free)
  }

  datatype Part = PagesPart | TablesPart | BytesPart

  /** v is the view of the machine, part by part. */
  ghost predicate Shown(m: Tables.Memory, root: nat, ram: set<nat>, v: View)
  {
    forall part: Part :: Agrees(m, root, ram, v, part)
  }

  ghost predicate Agrees(m: Tables.Memory, root: nat, ram: set<nat>, v: View, part: Part)
  {
    match part
    case PagesPart => v.pages == PagesOf(m, root)
    case TablesPart => v.tables == TablesOf(m, root)
    case BytesPart => v.phys == BytesOf(m, ram)
  }

  lemma {:induction false} ShownIsView(m: Tables.Memory, root: nat, ram: set<nat>, free: set<nat>, v: View)
    ensures Shown(m, root, ram, v) && v.free == free <==> v == ViewOf(m, root, ram, free)
  {
    assert Agrees(m, root, ram, v, PagesPart) <==> v.pages == PagesOf(m, root);
    assert Agrees(m, root, ram, v, TablesPart) <==> v.tables == TablesOf(m, root);
    assert Agrees(m, root, ram, v, BytesPart) <==> v.phys == BytesOf(m, ram);
  }
}
