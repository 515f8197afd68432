/**
 The root directory and its files (kernel/BasicDrivers/fat32.c): what the entries on disk say about
 chains, and that fat32_delete keeps it true after every single sector write.
 */
module FatDirectory {
  import opened Words
  import opened Collections
  import opened FatChains
  import opened FatData
  import opened FatDisk

  // ---------------------------------------------------------------- entries

  /** Entry e of the directory's cluster i is one the scans look at. */
  ghost predicate At(v: Volume, disk: Disk, dir: seq<nat>, i: nat, e: nat)
    requires Placed(dir)
  {
    i < |dir| && Listed(Image(v, disk, dir[i]), e)
  }

  ghost function Start(v: Volume, disk: Disk, dir: seq<nat>, i: nat, e: nat): nat
    requires Placed(dir) && At(v, disk, dir, i, e)
  {
    StartOf(Image(v, disk, dir[i]), e)
  }

  /** (i, e) is the first entry, in the order of the scans, that is listed under the name. */
  ghost predicate FirstHit(v: Volume, disk: Disk, dir: seq<nat>, i: nat, e: nat, name: ShortName)
    requires Placed(dir)
  {
    && i < |dir| && Hit(Image(v, disk, dir[i]), e, name)
    && (forall x: nat :: x < e ==> !Hit(Image(v, disk, dir[i]), x, name))
    && (forall j: nat, x: nat :: j < i ==> !Hit(Image(v, disk, dir[j]), x, name))
  }

  ghost predicate NoHit(v: Volume, disk: Disk, dir: seq<nat>, name: ShortName)
    requires Placed(dir)
  {
    forall j: nat, x: nat :: j < |dir| ==> !Hit(Image(v, disk, dir[j]), x, name)
  }

  /** An entry has no clusters, or its first cluster is that of a known chain other than the root's. */
  ghost predicate Fits(owners: Owners, root: nat, s: nat)
  {
    s == 0 || (s in owners && s != root)
  }

  /** Every listed entry has its file, and no two entries share one. */
  ghost predicate DirOk(v: Volume, disk: Disk, owners: Owners)
  {
    && v.root in owners && Placed(owners[v.root])
    && (forall i: nat, e: nat ::
          At(v, disk, owners[v.root], i, e) ==> Fits(owners, v.root, Start(v, disk, owners[v.root], i, e)))
    && (forall i: nat, e: nat, i': nat, e': nat ::
          At(v, disk, owners[v.root], i, e) && At(v, disk, owners[v.root], i', e') && (i != i' || e != e') ==>
            Separate(v, disk, owners[v.root], i, e, i', e'))
  }

  ghost predicate Separate(v: Volume, disk: Disk, dir: seq<nat>, i: nat, e: nat, i': nat, e': nat)
    requires Placed(dir) && At(v, disk, dir, i, e) && At(v, disk, dir, i', e')
  {
    Start(v, disk, dir, i, e) == Start(v, disk, dir, i', e') ==> Start(v, disk, dir, i, e) == 0
  }

  /** What a mount after a crash needs: going by the disk alone, the directory and every listed file
      have their whole chains. */
  ghost predicate CrashSafe(v: Volume, disk: Disk, owners: Owners)
    requires Covers(DiskTable(v, disk), v.total)
  {
    && v.root in owners && Placed(owners[v.root]) && IsChain(DiskTable(v, disk), v.total, owners[v.root])
    && forall i: nat, e: nat ::
         At(v, disk, owners[v.root], i, e) ==> OnDisk(v, disk, owners, Start(v, disk, owners[v.root], i, e))
  }

  ghost predicate OnDisk(v: Volume, disk: Disk, owners: Owners, s: nat)
    requires Covers(DiskTable(v, disk), v.total)
  {
    s == 0 || (s in owners && owners[s] != [] && owners[s][0] == s && IsChain(DiskTable(v, disk), v.total, owners[s]))
  }

  // ---------------------------------------------------------------- what sector writes change

  /** Writing inside cluster c leaves every other cluster; c itself has the first k sectors new. */
  lemma {:induction false} ImageStored(v: Volume, disk0: Disk, disk: Disk, c: nat, img: seq<Sector>, k: nat, c': nat)
    requires c >= 2 && c' >= 2 && |img| == v.perCluster && k <= v.perCluster && Stored(disk0, disk, v.Lba(c), img, k)
    ensures Image(v, disk, c') == if c' == c then img[..k] + Image(v, disk0, c)[k..] else Image(v, disk0, c')
  {
    forall j: nat | j < v.perCluster
      ensures Image(v, disk, c')[j] == if c' == c && j < k then img[j] else Image(v, disk0, c')[j]
    {
      var lba := v.Lba(c') + j;
      if v.Lba(c) <= lba < v.Lba(c) + k {
        LbaInjective(v, c', j, c, lba - v.Lba(c));
      }
      assert Sec(disk, lba) == if v.Lba(c) <= lba < v.Lba(c) + k then img[lba - v.Lba(c)] else Sec(disk0, lba);
    }
    assert Image(v, disk, c') == if c' == c then img[..k] + Image(v, disk0, c)[k..] else Image(v, disk0, c');
  }

  /** An entry lies in one sector: until that is written the cluster is as before, then it is as new. */
  lemma {:induction false} EntryStored(
    v: Volume, disk0: Disk, disk: Disk, c: nat, e: nat, data: seq<Byte>, k: nat, c': nat)
    requires c >= 2 && c' >= 2 && e < PER_SECTOR * v.perCluster && |data| == ENTRY && k <= v.perCluster
    requires Stored(disk0, disk, v.Lba(c), PutEntry(Image(v, disk0, c), e, data), k)
    ensures Image(v, disk, c') ==
            if c' == c && e / PER_SECTOR < k then PutEntry(Image(v, disk0, c), e, data) else Image(v, disk0, c')
  {
    var old0 := Image(v, disk0, c);
    var img := PutEntry(old0, e, data);
    ImageStored(v, disk0, disk, c, img, k, c');
    if e / PER_SECTOR < k {
      assert img[..k] + old0[k..] == img;
    } else {
      assert img[..k] + old0[k..] == old0;
    }
  }

  /** The table lies before the clusters. */
  lemma {:induction false} TableKept(v: Volume, disk0: Disk, disk: Disk, base: nat, data: seq<Sector>, k: nat)
    requires v.fatStart + v.fatSectors <= base && k <= |data| && Stored(disk0, disk, base, data, k)
    ensures DiskTable(v, disk) == DiskTable(v, disk0)
  {
  }

  lemma {:induction false} ImagesKept(v: Volume, disk0: Disk, disk: Disk, data: seq<Sector>, k: nat, c: nat)
    requires v.Ok() && c >= 2 && k <= |data| == v.fatSectors && Stored(disk0, disk, v.fatStart, data, k)
    ensures Image(v, disk, c) == Image(v, disk0, c)
  {
    forall j: nat | j < v.perCluster ensures Image(v, disk, c)[j] == Image(v, disk0, c)[j] {
      var lba := v.Lba(c) + j;
      assert Sec(disk, lba) == Sec(disk0, lba);
    }
  }

  // ---------------------------------------------------------------- deletion, write by write

  /** The entry is being marked: k sectors of its directory cluster have been written. */
  lemma {:induction false} MarkingIsSafe(v: Volume, disk0: Disk, disk: Disk, owners: Owners, i: nat, e: nat, k: nat)
    requires v.Ok() && Covers(DiskTable(v, disk0), v.total) && Owned(DiskTable(v, disk0), v.total, owners)
    requires DirOk(v, disk0, owners) && At(v, disk0, owners[v.root], i, e) && k <= v.perCluster
    requires Stored(disk0, disk, v.Lba(owners[v.root][i]), MarkDeleted(Image(v, disk0, owners[v.root][i]), e), k)
    ensures DiskTable(v, disk) == DiskTable(v, disk0) && CrashSafe(v, disk, owners)
  {
    var dir := owners[v.root];
    var img := Image(v, disk0, dir[i]);
    TableKept(v, disk0, disk, v.Lba(dir[i]), MarkDeleted(img, e), k);
    forall i': nat, e': nat | At(v, disk, dir, i', e') ensures OnDisk(v, disk, owners, Start(v, disk, dir, i', e')) {
      MarkedEntry(v, disk0, disk, dir, i, e, k, i', e');
      assert Fits(owners, v.root, Start(v, disk0, dir, i', e'));
    }
  }

  /** What is listed while the entry is being marked was listed before, with the same first cluster;
      the entry itself is gone once its sector is written. */
  lemma {:induction false} MarkedEntry(
    v: Volume, disk0: Disk, disk: Disk, dir: seq<nat>, i: nat, e: nat, k: nat, i': nat, e': nat)
    requires Placed(dir) && At(v, disk0, dir, i, e) && k <= v.perCluster
    requires Stored(disk0, disk, v.Lba(dir[i]), MarkDeleted(Image(v, disk0, dir[i]), e), k)
    requires At(v, disk, dir, i', e')
    ensures At(v, disk0, dir, i', e') && Start(v, disk, dir, i', e') == Start(v, disk0, dir, i', e')
    ensures k == v.perCluster ==> dir[i'] != dir[i] || e' != e
  {
    var img := Image(v, disk0, dir[i]);
    EntryStored(v, disk0, disk, dir[i], e, EntryBytes(img, e)[0 := DELETED], k, dir[i']);
    if dir[i'] == dir[i] {
      MarkedListing(img, e, e');
    }
  }

  /** The entry is gone, and the table without its chain is being flushed: k sectors of it are written. */
  lemma {:induction false} FlushingIsSafe(
    v: Volume, disk1: Disk, disk: Disk, owners: Owners, fat: Table, gone: seq<nat>, k: nat)
    requires v.Ok() && |fat| == 128 * v.fatSectors && k <= v.fatSectors
    requires Covers(DiskTable(v, disk1), v.total) && Owned(DiskTable(v, disk1), v.total, owners)
    requires CrashSafe(v, disk1, owners) && Cleared(DiskTable(v, disk1), fat, gone)
    requires Apart(owners[v.root], gone)
    requires forall i: nat, e: nat ::
               At(v, disk1, owners[v.root], i, e) ==> Spared(owners, gone, Start(v, disk1, owners[v.root], i, e))
    requires Stored(disk1, disk, v.fatStart, TableSectors(fat, v.fatSectors), k)
    ensures CrashSafe(v, disk, owners)
  {
    var dir := owners[v.root];
    ChainFlushed(v, disk1, disk, fat, gone, k, dir);
    forall i: nat, e: nat | At(v, disk, dir, i, e) ensures OnDisk(v, disk, owners, Start(v, disk, dir, i, e)) {
      ImagesKept(v, disk1, disk, TableSectors(fat, v.fatSectors), k, dir[i]);
      assert At(v, disk1, dir, i, e);
      var s := Start(v, disk1, dir, i, e);
      assert Spared(owners, gone, s) && OnDisk(v, disk1, owners, s);
      if s != 0 {
        ChainFlushed(v, disk1, disk, fat, gone, k, owners[s]);
      }
    }
  }

  ghost predicate Spared(owners: Owners, gone: seq<nat>, s: nat)
  {
    s == 0 || (s in owners && Apart(owners[s], gone))
  }

  /** A chain with no cluster in `gone` is on disk all the time. */
  lemma {:induction false} ChainFlushed(
    v: Volume, disk1: Disk, disk: Disk, fat: Table, gone: seq<nat>, k: nat, chain: seq<nat>)
    requires |fat| == 128 * v.fatSectors && k <= v.fatSectors && Covers(DiskTable(v, disk1), v.total)
    requires Cleared(DiskTable(v, disk1), fat, gone) && Apart(chain, gone)
    requires IsChain(DiskTable(v, disk1), v.total, chain)
    requires Stored(disk1, disk, v.fatStart, TableSectors(fat, v.fatSectors), k)
    ensures IsChain(DiskTable(v, disk), v.total, chain)
  {
    forall c | c in chain && InRange(v.total, c) ensures DiskTable(v, disk)[c] == DiskTable(v, disk1)[c] {
      FlushedEntry(v, disk1, disk, fat, k, c);
    }
    ChainFrame(DiskTable(v, disk1), DiskTable(v, disk), v.total, chain);
  }

  /** After the whole flush the disk's table is the cached one. */
  lemma {:induction false} FlushedAll(v: Volume, disk1: Disk, disk: Disk, fat: Table)
    requires |fat| == 128 * v.fatSectors
    requires Stored(disk1, disk, v.fatStart, TableSectors(fat, v.fatSectors), v.fatSectors)
    ensures DiskTable(v, disk) == fat
  {
    forall c: nat | c < |fat| ensures DiskTable(v, disk)[c] == fat[c] {
      FlushedEntry(v, disk1, disk, fat, v.fatSectors, c);
    }
  }

  // ---------------------------------------------------------------- the directory after a deletion

  /** The listing of `disk` is that of `disk0` without entry (i, e). */
  ghost predicate OneLess(v: Volume, disk0: Disk, disk: Disk, dir: seq<nat>, i: nat, e: nat)
    requires Placed(dir)
  {
    forall i': nat, e': nat {:trigger At(v, disk, dir, i', e')} {:trigger At(v, disk0, dir, i', e')} ::
      && (At(v, disk, dir, i', e') <==> At(v, disk0, dir, i', e') && !(i' == i && e' == e))
      && (At(v, disk, dir, i', e') ==> Start(v, disk, dir, i', e') == Start(v, disk0, dir, i', e'))
  }

  /** Where a flush only rewrote the table, the listing is the same. */
  lemma {:induction false} OneLessFlushed(
    v: Volume, disk0: Disk, disk1: Disk, disk: Disk, dir: seq<nat>, i: nat, e: nat, data: seq<Sector>, k: nat)
    requires v.Ok() && Placed(dir) && OneLess(v, disk0, disk1, dir, i, e) && k <= |data| == v.fatSectors
    requires Stored(disk1, disk, v.fatStart, data, k)
    ensures OneLess(v, disk0, disk, dir, i, e)
  {
    forall i': nat, e': nat
      ensures At(v, disk, dir, i', e') <==> At(v, disk1, dir, i', e')
      ensures At(v, disk, dir, i', e') ==> Start(v, disk, dir, i', e') == Start(v, disk1, dir, i', e')
    {
      if i' < |dir| {
        ImagesKept(v, disk1, disk, data, k, dir[i']);
      }
    }
  }

  lemma {:induction false} MarkedOneLess(v: Volume, disk0: Disk, disk: Disk, dir: seq<nat>, i: nat, e: nat)
    requires Placed(dir) && Distinct(dir) && At(v, disk0, dir, i, e)
    requires Stored(disk0, disk, v.Lba(dir[i]), MarkDeleted(Image(v, disk0, dir[i]), e), v.perCluster)
    ensures OneLess(v, disk0, disk, dir, i, e)
  {
    var img := Image(v, disk0, dir[i]);
    forall i': nat, e': nat
      ensures At(v, disk, dir, i', e') <==> At(v, disk0, dir, i', e') && !(i' == i && e' == e)
      ensures At(v, disk, dir, i', e') ==> Start(v, disk, dir, i', e') == Start(v, disk0, dir, i', e')
    {
      if i' < |dir| {
        EntryStored(v, disk0, disk, dir[i], e, EntryBytes(img, e)[0 := DELETED], v.perCluster, dir[i']);
        MarkedListing(img, e, e');
      }
    }
  }

  /** The clusters a deletion gives back. */
  ghost function Gone(owners: Owners, s: nat): seq<nat>
    requires s == 0 || s in owners
  {
    if s == 0 then [] else owners[s]
  }

  ghost function Without(owners: Owners, s: nat): Owners
  {
    if s == 0 then owners else owners - {s}
  }

  /** Entries other than the deleted one keep their chains out of what is given back. */
  lemma {:induction false} OthersSpared(v: Volume, fat: Table, disk0: Disk, disk: Disk, owners: Owners, i: nat, e: nat)
    requires Covers(fat, v.total) && Owned(fat, v.total, owners) && DirOk(v, disk0, owners)
    requires At(v, disk0, owners[v.root], i, e) && OneLess(v, disk0, disk, owners[v.root], i, e)
    ensures var s := Start(v, disk0, owners[v.root], i, e);
            (s == 0 || s in owners) && Apart(owners[v.root], Gone(owners, s)) &&
            forall i': nat, e': nat :: At(v, disk, owners[v.root], i', e') ==>
              Spared(owners, Gone(owners, s), Start(v, disk, owners[v.root], i', e'))
  {
    var dir := owners[v.root];
    var s := Start(v, disk0, dir, i, e);
    assert Fits(owners, v.root, s);
    assert s != 0 ==> Apart(owners[v.root], owners[s]);
    forall i': nat, e': nat | At(v, disk, dir, i', e')
      ensures Spared(owners, Gone(owners, s), Start(v, disk, dir, i', e'))
    {
      var t := Start(v, disk0, dir, i', e');
      assert Fits(owners, v.root, t);
      assert Separate(v, disk0, dir, i', e', i, e);
      assert s != 0 && t != 0 ==> Apart(owners[t], owners[s]);
    }
  }

  lemma {:induction false} DirOkWithout(v: Volume, disk0: Disk, disk: Disk, owners: Owners, i: nat, e: nat)
    requires DirOk(v, disk0, owners) && At(v, disk0, owners[v.root], i, e)
    requires OneLess(v, disk0, disk, owners[v.root], i, e)
    ensures DirOk(v, disk, Without(owners, Start(v, disk0, owners[v.root], i, e)))
  {
    var dir := owners[v.root];
    var s := Start(v, disk0, dir, i, e);
    var owners' := Without(owners, s);
    assert Fits(owners, v.root, s);
    forall i': nat, e': nat | At(v, disk, dir, i', e') ensures Fits(owners', v.root, Start(v, disk, dir, i', e')) {
      assert Fits(owners, v.root, Start(v, disk0, dir, i', e'));
      assert Separate(v, disk0, dir, i', e', i, e);
    }
    forall i1: nat, e1: nat, i2: nat, e2: nat | At(v, disk, dir, i1, e1) && At(v, disk, dir, i2, e2) &&
      (i1 != i2 || e1 != e2)
      ensures Separate(v, disk, dir, i1, e1, i2, e2)
    {
      assert Separate(v, disk0, dir, i1, e1, i2, e2);
    }
  }

  /** Every cluster of the directory has its end marks last. */
  ghost predicate DirTidy(v: Volume, disk: Disk, dir: seq<nat>)
    requires Placed(dir)
  {
    forall i: nat :: i < |dir| ==> Tidy(Image(v, disk, dir[i]))
  }

  lemma {:induction false} MarkedDirTidy(v: Volume, disk0: Disk, disk: Disk, dir: seq<nat>, i: nat, e: nat)
    requires Placed(dir) && At(v, disk0, dir, i, e) && DirTidy(v, disk0, dir)
    requires Stored(disk0, disk, v.Lba(dir[i]), MarkDeleted(Image(v, disk0, dir[i]), e), v.perCluster)
    ensures DirTidy(v, disk, dir)
  {
    var img := Image(v, disk0, dir[i]);
    MarkedTidy(img, e);
    forall j: nat | j < |dir| ensures Tidy(Image(v, disk, dir[j])) {
      EntryStored(v, disk0, disk, dir[i], e, EntryBytes(img, e)[0 := DELETED], v.perCluster, dir[j]);
    }
  }

  // ---------------------------------------------------------------- the directory after a creation

  /** The listing of `disk` is that of `disk0` with entry (i, e) for the file at s. */
  ghost predicate OneMore(v: Volume, disk0: Disk, disk: Disk, dir: seq<nat>, i: nat, e: nat, s: nat)
    requires Placed(dir)
  {
    && !At(v, disk0, dir, i, e) && At(v, disk, dir, i, e) && Start(v, disk, dir, i, e) == s
    && forall i': nat, e': nat {:trigger At(v, disk, dir, i', e')} {:trigger At(v, disk0, dir, i', e')} ::
         && (At(v, disk, dir, i', e') <==> At(v, disk0, dir, i', e') || (i' == i && e' == e))
         && (At(v, disk0, dir, i', e') ==> Start(v, disk, dir, i', e') == Start(v, disk0, dir, i', e'))
  }

  /** The entry's sector is on disk as soon as more than e / 16 sectors of its cluster are. */
  lemma {:induction false} AddedOneMore(
    v: Volume, disk0: Disk, disk: Disk, dir: seq<nat>, i: nat, e: nat, name: ShortName, stamp: Stamp, c: Entry,
    j: nat)
    requires Placed(dir) && Distinct(dir) && i < |dir| && DirTidy(v, disk0, dir) && Proper(name)
    requires FirstSlot(Image(v, disk0, dir[i]), e) && e / PER_SECTOR < j <= v.perCluster
    requires Stored(disk0, disk, v.Lba(dir[i]), AddEntry(Image(v, disk0, dir[i]), e, name, stamp, c), j)
    ensures OneMore(v, disk0, disk, dir, i, e, c) && DirTidy(v, disk, dir)
    ensures Image(v, disk, dir[i]) == AddEntry(Image(v, disk0, dir[i]), e, name, stamp, c)
  {
    var img := Image(v, disk0, dir[i]);
    var data := NewEntry(EntryBytes(img, e), name, stamp, c);
    AddedStart(img, e, name, stamp, c);
    AddedTidy(img, e, name, stamp, c);
    EntryStored(v, disk0, disk, dir[i], e, data, j, dir[i]);
    forall i': nat, e': nat
      ensures At(v, disk, dir, i', e') <==> At(v, disk0, dir, i', e') || (i' == i && e' == e)
      ensures At(v, disk0, dir, i', e') ==> Start(v, disk, dir, i', e') == Start(v, disk0, dir, i', e')
    {
      if i' < |dir| {
        EntryStored(v, disk0, disk, dir[i], e, data, j, dir[i']);
        AddedListing(img, e, name, stamp, c, e');
      }
    }
    forall x: nat | x < |dir| ensures Tidy(Image(v, disk, dir[x])) {
      EntryStored(v, disk0, disk, dir[i], e, data, j, dir[x]);
    }
    AddedListing(img, e, name, stamp, c, e);
  }

  lemma {:induction false} DirOkWith(v: Volume, disk0: Disk, disk: Disk, owners: Owners, i: nat, e: nat, s: nat)
    requires DirOk(v, disk0, owners) && s !in owners && s != 0 && OneMore(v, disk0, disk, owners[v.root], i, e, s)
    ensures DirOk(v, disk, owners[s := [s]])
  {
    var dir := owners[v.root];
    var owners' := owners[s := [s]];
    forall i': nat, e': nat | At(v, disk, dir, i', e')
      ensures Fits(owners', v.root, Start(v, disk, dir, i', e'))
      ensures (i' == i && e' == e) || Start(v, disk, dir, i', e') != s
    {
      if At(v, disk0, dir, i', e') {
        assert Fits(owners, v.root, Start(v, disk0, dir, i', e'));
      }
    }
    forall i1: nat, e1: nat, i2: nat, e2: nat | At(v, disk, dir, i1, e1) && At(v, disk, dir, i2, e2) &&
      (i1 != i2 || e1 != e2)
      ensures Separate(v, disk, dir, i1, e1, i2, e2)
    {
      if At(v, disk0, dir, i1, e1) && At(v, disk0, dir, i2, e2) {
        assert Separate(v, disk0, dir, i1, e1, i2, e2);
      }
    }
  }

  // ---------------------------------------------------------------- writes to other sectors

  /** The directory's sectors are the same on both disks. */
  ghost predicate SameDir(v: Volume, disk0: Disk, disk: Disk, dir: seq<nat>)
    requires Placed(dir)
  {
    forall i: nat :: i < |dir| ==> Image(v, disk, dir[i]) == Image(v, disk0, dir[i])
  }

  lemma {:induction false} SameDirListing(v: Volume, disk0: Disk, disk: Disk, owners: Owners, owners': Owners)
    requires DirOk(v, disk0, owners) && v.root in owners' && owners'[v.root] == owners[v.root]
    requires SameDir(v, disk0, disk, owners[v.root]) && owners.Keys <= owners'.Keys
    ensures DirOk(v, disk, owners')
  {
    var dir := owners[v.root];
    forall i: nat, e: nat | At(v, disk, dir, i, e)
      ensures At(v, disk0, dir, i, e) && Start(v, disk, dir, i, e) == Start(v, disk0, dir, i, e)
      ensures Fits(owners', v.root, Start(v, disk, dir, i, e))
    {
      assert At(v, disk0, dir, i, e);
      assert Fits(owners, v.root, Start(v, disk0, dir, i, e));
    }
    forall i1: nat, e1: nat, i2: nat, e2: nat | At(v, disk, dir, i1, e1) && At(v, disk, dir, i2, e2) &&
      (i1 != i2 || e1 != e2)
      ensures Separate(v, disk, dir, i1, e1, i2, e2)
    {
      assert Separate(v, disk0, dir, i1, e1, i2, e2);
    }
  }

  /** A write to a file leaves the directory and every other file's entry alone. */
  lemma {:induction false} WriteKeepsDir(
    v: Volume, fat: Table, disk0: Disk, disk: Disk, owners: Owners, owners': Owners, s: nat)
    requires v.Ok() && Covers(fat, v.total) && Owned(fat, v.total, owners') && DirOk(v, disk0, owners) && s != v.root
    requires Grown(owners, owners', s) && Placed(owners'[s]) && OutsideKept(v, disk0, disk, owners'[s])
    ensures SameDir(v, disk0, disk, owners[v.root]) && DirOk(v, disk, owners')
  {
    var dir := owners[v.root];
    assert Apart(owners'[v.root], owners'[s]);
    forall i: nat | i < |dir| ensures Image(v, disk, dir[i]) == Image(v, disk0, dir[i]) {
      assert dir[i] in dir;
      OutsideImage(v, disk0, disk, owners'[s], dir[i]);
    }
    SameDirListing(v, disk0, disk, owners, owners');
  }

  lemma {:induction false} OutsideImage(v: Volume, disk0: Disk, disk: Disk, chain: seq<nat>, c: nat)
    requires Placed(chain) && c >= 2 && c !in chain && OutsideKept(v, disk0, disk, chain)
    ensures Image(v, disk, c) == Image(v, disk0, c)
  {
    forall j: nat | j < v.perCluster ensures Image(v, disk, c)[j] == Image(v, disk0, c)[j] {
      var lba := v.Lba(c) + j;
      if InClusters(v, chain, lba) {
        var i: nat, t: nat :| IsSector(v, chain, i, t, lba);
        LbaInjective(v, c, j, chain[i], t);
      }
      assert Sec(disk, lba) == Sec(disk0, lba);
    }
  }

  /** A flush leaves the directory alone. */
  lemma {:induction false} FlushKeepsDir(v: Volume, disk0: Disk, disk: Disk, dir: seq<nat>, data: seq<Sector>, k: nat)
    requires v.Ok() && Placed(dir) && k <= |data| == v.fatSectors && Stored(disk0, disk, v.fatStart, data, k)
    ensures SameDir(v, disk0, disk, dir) && (DirTidy(v, disk0, dir) ==> DirTidy(v, disk, dir))
  {
    forall i: nat | i < |dir| ensures Image(v, disk, dir[i]) == Image(v, disk0, dir[i]) {
      ImagesKept(v, disk0, disk, data, k, dir[i]);
    }
  }

  /** fat32_create_file's two groups of writes together. */
  lemma {:induction false} CreatedDir(
    v: Volume, disk0: Disk, disk1: Disk, disk: Disk, owners: Owners, i: nat, e: nat, name: ShortName, stamp: Stamp,
    c: Entry, data: seq<Sector>)
    requires v.Ok() && DirOk(v, disk0, owners) && Distinct(owners[v.root]) && DirTidy(v, disk0, owners[v.root])
    requires Proper(name)
    requires i < |owners[v.root]| && FirstSlot(Image(v, disk0, owners[v.root][i]), e) && c !in owners && c != 0
    requires Stored(disk0, disk1, v.Lba(owners[v.root][i]),
             AddEntry(Image(v, disk0, owners[v.root][i]), e, name, stamp, c), v.perCluster)
    requires |data| == v.fatSectors && Stored(disk1, disk, v.fatStart, data, v.fatSectors)
    ensures OneMore(v, disk0, disk, owners[v.root], i, e, c) && DirTidy(v, disk, owners[v.root])
    ensures DirOk(v, disk, owners[c := [c]])
    ensures Hit(Image(v, disk, owners[v.root][i]), e, name) && SizeOf(Image(v, disk, owners[v.root][i]), e) == 0
  {
    var dir := owners[v.root];
    var img := Image(v, disk0, dir[i]);
    AddedOneMore(v, disk0, disk1, dir, i, e, name, stamp, c, v.perCluster);
    FlushKeepsDir(v, disk1, disk, dir, data, v.fatSectors);
    OneMoreKept(v, disk0, disk1, disk, dir, i, e, c);
    DirOkWith(v, disk0, disk, owners, i, e, c);
    AddedName(img, e, name, stamp, c);
    AddedSize(img, e, name, stamp, c);
    assert At(v, disk, dir, i, e);
  }

  lemma {:induction false} OneMoreKept(
    v: Volume, disk0: Disk, disk1: Disk, disk: Disk, dir: seq<nat>, i: nat, e: nat, s: nat)
    requires Placed(dir) && OneMore(v, disk0, disk1, dir, i, e, s) && SameDir(v, disk1, disk, dir)
    ensures OneMore(v, disk0, disk, dir, i, e, s)
  {
  }

  // ---------------------------------------------------------------- creation, write by write

  /** Where fat32_create_file stands: j sectors of the directory cluster are written, then k of the table. */
  ghost predicate Creating(
    v: Volume, disk0: Disk, disk1: Disk, disk: Disk, owners: Owners, i: nat, e: nat, name: ShortName, stamp: Stamp,
    c: Entry, j: nat, k: nat)
  {
    && v.Ok() && DirOk(v, disk0, owners) && DirTidy(v, disk0, owners[v.root]) && Proper(name)
    && Covers(DiskTable(v, disk0), v.total) && Owned(DiskTable(v, disk0), v.total, owners)
    && i < |owners[v.root]| && FirstSlot(Image(v, disk0, owners[v.root][i]), e) &&
       IsFree(DiskTable(v, disk0), v.total, c)
    && j <= v.perCluster && k <= v.fatSectors && (k > 0 ==> j == v.perCluster)
    && Stored(disk0, disk1, v.Lba(owners[v.root][i]),
       AddEntry(Image(v, disk0, owners[v.root][i]), e, name, stamp, c), j)
    && Stored(disk1, disk, v.fatStart, TableSectors(DiskTable(v, disk0)[c := FAT_EOF], v.fatSectors), k)
  }

  /** The new entry's table entry reaches the disk with sector c / 128; all others are the same throughout. */
  lemma {:induction false} CreatingTable(
    v: Volume, disk0: Disk, disk1: Disk, disk: Disk, owners: Owners, i: nat, e: nat, name: ShortName, stamp: Stamp,
    c: Entry, j: nat, k: nat, x: nat)
    requires Creating(v, disk0, disk1, disk, owners, i, e, name, stamp, c, j, k) && x < 128 * v.fatSectors
    ensures DiskTable(v, disk)[x] == if x == c && c / 128 < k then FAT_EOF else DiskTable(v, disk0)[x]
  {
    TableKept(v, disk0, disk1, v.Lba(owners[v.root][i]),
      AddEntry(Image(v, disk0, owners[v.root][i]), e, name, stamp, c), j);
    assert DiskTable(v, disk1)[x] == DiskTable(v, disk0)[x];
    FlushedEntry(v, disk1, disk, DiskTable(v, disk0)[c := FAT_EOF], k, x);
  }

  /** Every chain that was there is on disk throughout. */
  lemma {:induction false} CreatingChain(
    v: Volume, disk0: Disk, disk1: Disk, disk: Disk, owners: Owners, i: nat, e: nat, name: ShortName, stamp: Stamp,
    c: Entry, j: nat, k: nat, s: nat)
    requires Creating(v, disk0, disk1, disk, owners, i, e, name, stamp, c, j, k) && s in owners
    ensures c !in owners && OnDisk(v, disk, owners[c := [c as nat]], s)
  {
    CreateOwned(DiskTable(v, disk0), v.total, owners, c);
    NotInOtherChain(DiskTable(v, disk0), v.total, owners, c, s);
    forall x | x in owners[s] && InRange(v.total, x) ensures DiskTable(v, disk)[x] == DiskTable(v, disk0)[x] {
      CreatingTable(v, disk0, disk1, disk, owners, i, e, name, stamp, c, j, k, x);
    }
    ChainFrame(DiskTable(v, disk0), DiskTable(v, disk), v.total, owners[s]);
  }

  /** The new file's one-cluster chain is on disk exactly when its table sector is. */
  lemma {:induction false} CreatingOwnChain(
    v: Volume, disk0: Disk, disk1: Disk, disk: Disk, owners: Owners, i: nat, e: nat, name: ShortName, stamp: Stamp,
    c: Entry, j: nat, k: nat)
    requires Creating(v, disk0, disk1, disk, owners, i, e, name, stamp, c, j, k)
    ensures OnDisk(v, disk, owners[c := [c as nat]], c) <==> c / 128 < k
  {
    CreatingTable(v, disk0, disk1, disk, owners, i, e, name, stamp, c, j, k, c);
    OwnChainOnDisk(v, disk, owners[c := [c as nat]], c, DiskTable(v, disk0)[c], c / 128 < k);
  }

  lemma {:induction false} OwnChainOnDisk(v: Volume, disk: Disk, owners: Owners, c: nat, before: Entry, written: bool)
    requires Covers(DiskTable(v, disk), v.total) && InRange(v.total, c) && c in owners && owners[c] == [c]
    requires before % TWO_28 == 0 && DiskTable(v, disk)[c] == if written then FAT_EOF else before
    ensures OnDisk(v, disk, owners, c) <==> written
  {
    SingleChain(DiskTable(v, disk), v.total, c);
    assert FAT_EOF % TWO_28 == FAT_EOF;
  }

  /** The directory's clusters: the flush leaves them alone. */
  lemma {:induction false} CreatingImage(
    v: Volume, disk0: Disk, disk1: Disk, disk: Disk, owners: Owners, i: nat, e: nat, name: ShortName, stamp: Stamp,
    c: Entry, j: nat, k: nat, x: nat)
    requires Creating(v, disk0, disk1, disk, owners, i, e, name, stamp, c, j, k) && x < |owners[v.root]|
    ensures Image(v, disk, owners[v.root][x]) == Image(v, disk1, owners[v.root][x])
    ensures j <= e / PER_SECTOR ==> Image(v, disk1, owners[v.root][x]) == Image(v, disk0, owners[v.root][x])
  {
    var dir := owners[v.root];
    var img := Image(v, disk0, dir[i]);
    ImagesKept(v, disk1, disk, TableSectors(DiskTable(v, disk0)[c := FAT_EOF], v.fatSectors), k, dir[x]);
    EntryStored(v, disk0, disk1, dir[i], e, NewEntry(EntryBytes(img, e), name, stamp, c), j, dir[x]);
  }

  /** Creation, unlike deletion, is not ordered: a crash finds every listed file whole exactly while the new
      entry's directory sector is not written yet, or once its table sector is. */
  lemma {:induction false} CreationSafeIff(
    v: Volume, disk0: Disk, disk1: Disk, disk: Disk, owners: Owners, i: nat, e: nat, name: ShortName, stamp: Stamp,
    c: Entry, j: nat, k: nat)
    requires Creating(v, disk0, disk1, disk, owners, i, e, name, stamp, c, j, k)
    ensures CrashSafe(v, disk, owners[c := [c as nat]]) <==> j <= e / PER_SECTOR || c / 128 < k
  {
    if j <= e / PER_SECTOR {
      CreationUnlisted(v, disk0, disk1, disk, owners, i, e, name, stamp, c, j, k);
    } else {
      CreationListed(v, disk0, disk1, disk, owners, i, e, name, stamp, c, j, k);
    }
  }

  lemma {:induction false} CreationUnlisted(
    v: Volume, disk0: Disk, disk1: Disk, disk: Disk, owners: Owners, i: nat, e: nat, name: ShortName, stamp: Stamp,
    c: Entry, j: nat, k: nat)
    requires Creating(v, disk0, disk1, disk, owners, i, e, name, stamp, c, j, k) && j <= e / PER_SECTOR
    ensures CrashSafe(v, disk, owners[c := [c as nat]])
  {
    var dir, owners' := owners[v.root], owners[c := [c as nat]];
    CreatingChain(v, disk0, disk1, disk, owners, i, e, name, stamp, c, j, k, v.root);
    forall i': nat, e': nat | At(v, disk, dir, i', e') ensures OnDisk(v, disk, owners', Start(v, disk, dir, i', e')) {
      CreatingImage(v, disk0, disk1, disk, owners, i, e, name, stamp, c, j, k, i');
      assert At(v, disk0, dir, i', e');
      var s := Start(v, disk0, dir, i', e');
      assert Fits(owners, v.root, s);
      if s != 0 {
        CreatingChain(v, disk0, disk1, disk, owners, i, e, name, stamp, c, j, k, s);
      }
    }
  }

  lemma {:induction false} CreationListed(
    v: Volume, disk0: Disk, disk1: Disk, disk: Disk, owners: Owners, i: nat, e: nat, name: ShortName, stamp: Stamp,
    c: Entry, j: nat, k: nat)
    requires Creating(v, disk0, disk1, disk, owners, i, e, name, stamp, c, j, k) && j > e / PER_SECTOR
    ensures CrashSafe(v, disk, owners[c := [c as nat]]) <==> c / 128 < k
  {
    var dir, owners' := owners[v.root], owners[c := [c as nat]];
    CreatingChain(v, disk0, disk1, disk, owners, i, e, name, stamp, c, j, k, v.root);
    CreatingOwnChain(v, disk0, disk1, disk, owners, i, e, name, stamp, c, j, k);
    AddedOneMore(v, disk0, disk1, dir, i, e, name, stamp, c, j);
    forall x: nat | x < |dir| ensures Image(v, disk, dir[x]) == Image(v, disk1, dir[x]) {
      CreatingImage(v, disk0, disk1, disk, owners, i, e, name, stamp, c, j, k, x);
    }
    assert SameDir(v, disk1, disk, dir);
    OneMoreKept(v, disk0, disk1, disk, dir, i, e, c);
    assert At(v, disk, dir, i, e);
    if c / 128 < k {
      forall i': nat, e': nat | At(v, disk, dir, i', e') ensures OnDisk(v, disk, owners', Start(v, disk, dir, i', e')) {
        if At(v, disk0, dir, i', e') {
          var s := Start(v, disk0, dir, i', e');
          assert Fits(owners, v.root, s);
          if s != 0 {
            CreatingChain(v, disk0, disk1, disk, owners, i, e, name, stamp, c, j, k, s);
          }
        }
      }
    }
  }
}
