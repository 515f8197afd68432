/**
 The readdir iterator (kernel/VFSAdapters/fat32_vfs.c): over any sequence of calls it delivers every
 listed entry up to the directory's first end mark, each once and in order.
 */
module Listing {
  import opened Words
  import opened FatChains
  import opened FatData
  import opened FatDisk
  import opened FatDirectory
  import opened Fat32
  import opened ShortNames

  const DIRECTORY: nat := 0x10

  datatype DirEntry = DirEntry(name: seq<Byte>, inode: nat, isDir: bool)

  datatype Next = Entry(entry: DirEntry) | End | Error

  predicate IsDirectory(attr: nat)
  {
    attr / DIRECTORY % 2 == 1
  }

  /** Bit 4 of the attributes marks a directory. */
  lemma {:induction false} DirectoryBit(attr: nat, low: nat, d: nat, high: nat)
    requires attr == low + 16 * d + 32 * high && low < 16 && d < 2
    ensures IsDirectory(attr) <==> d == 1
  {
    assert attr / 16 == d + 2 * high;
  }

  ghost predicate Before(i: nat, e: nat, j: nat, x: nat)
  {
    i < j || (i == j && e < x)
  }

  /** No end mark in the clusters before i, nor before entry e of cluster i. */
  ghost predicate Unmarked(v: Volume, disk: Disk, dir: seq<nat>, i: nat, e: nat)
    requires Placed(dir) && i < |dir|
  {
    && (forall j: nat, x: nat :: j < i ==> Used(v, disk, dir, j, x))
    && (forall x: nat :: x < e ==> Used(v, disk, dir, i, x))
  }

  /** Entry x of cluster j, if there is one, is not an end mark. */
  ghost predicate Used(v: Volume, disk: Disk, dir: seq<nat>, j: nat, x: nat)
    requires Placed(dir) && j < |dir|
  {
    x < PER_SECTOR * v.perCluster ==> Field(Image(v, disk, dir[j]), x, 0) != 0
  }

  /** Lookups see entry (i, e), and no end mark comes before it anywhere in the directory. */
  ghost predicate Enumerated(v: Volume, disk: Disk, dir: seq<nat>, i: nat, e: nat)
    requires Placed(dir)
  {
    At(v, disk, dir, i, e) && Unmarked(v, disk, dir, i, e)
  }

  /** `seen` is what is enumerated before (i, e), in order. */
  ghost predicate Complete(v: Volume, disk: Disk, dir: seq<nat>, seen: seq<(nat, nat)>, i: nat, e: nat)
    requires Placed(dir)
  {
    && (forall k {:trigger SeenAt(v, disk, dir, seen, i, e, k)} ::
          0 <= k < |seen| ==> SeenAt(v, disk, dir, seen, i, e, k))
    && (forall j, k {:trigger InOrder(seen, j, k)} :: 0 <= j < k < |seen| ==> InOrder(seen, j, k))
    && (forall a: nat, b: nat :: Enumerated(v, disk, dir, a, b) && Before(a, b, i, e) ==> (a, b) in seen)
  }

  ghost predicate SeenAt(v: Volume, disk: Disk, dir: seq<nat>, seen: seq<(nat, nat)>, i: nat, e: nat, k: nat)
    requires Placed(dir) && k < |seen|
  {
    Enumerated(v, disk, dir, seen[k].0, seen[k].1) && Before(seen[k].0, seen[k].1, i, e)
  }

  ghost predicate InOrder(seen: seq<(nat, nat)>, j: nat, k: nat)
    requires j < k < |seen|
  {
    Before(seen[j].0, seen[j].1, seen[k].0, seen[k].1)
  }

  /** An entry that is passed over is not enumerated. */
  lemma {:induction false} PassOver(v: Volume, disk: Disk, dir: seq<nat>, seen: seq<(nat, nat)>, i: nat, e: nat)
    requires Placed(dir) && Complete(v, disk, dir, seen, i, e) && !Enumerated(v, disk, dir, i, e)
    ensures Complete(v, disk, dir, seen, i, e + 1)
  {
    SeenUpTo(v, disk, dir, seen, i, e, i, e + 1);
  }

  /** What was seen up to one place was seen up to any later one. */
  lemma {:induction false} SeenUpTo(
    v: Volume, disk: Disk, dir: seq<nat>, seen: seq<(nat, nat)>, i: nat, e: nat, j: nat, x: nat)
    requires Placed(dir) && Complete(v, disk, dir, seen, i, e) && (Before(i, e, j, x) || (i, e) == (j, x))
    ensures forall k {:trigger SeenAt(v, disk, dir, seen, j, x, k)} ::
              0 <= k < |seen| ==> SeenAt(v, disk, dir, seen, j, x, k)
  {
    forall k | 0 <= k < |seen| ensures SeenAt(v, disk, dir, seen, j, x, k) {
      assert SeenAt(v, disk, dir, seen, i, e, k);
    }
  }

  /** An entry that is no end mark: the next one is unmarked too, and this one is enumerated unless it
      is deleted or part of a long name. */
  lemma {:induction false} ReadOn(v: Volume, disk: Disk, dir: seq<nat>, i: nat, e: nat)
    requires Placed(dir) && i < |dir| && Unmarked(v, disk, dir, i, e) && e < PER_SECTOR * v.perCluster
    requires Field(Image(v, disk, dir[i]), e, 0) != 0
    ensures Unmarked(v, disk, dir, i, e + 1)
    ensures Enumerated(v, disk, dir, i, e) <==>
            Field(Image(v, disk, dir[i]), e, 0) != DELETED && Field(Image(v, disk, dir[i]), e, 11) != LONG_NAME
  {
    forall x: nat | x <= e ensures Field(Image(v, disk, dir[i]), x, 0) != 0 {
      assert x < e ==> Used(v, disk, dir, i, x);
    }
  }

  lemma {:induction false} Deliver(v: Volume, disk: Disk, dir: seq<nat>, seen: seq<(nat, nat)>, i: nat, e: nat)
    requires Placed(dir) && Complete(v, disk, dir, seen, i, e) && Enumerated(v, disk, dir, i, e)
    ensures Complete(v, disk, dir, seen + [(i, e)], i, e + 1)
  {
    var longer, next := seen + [(i, e)], e + 1;
    forall k | 0 <= k < |longer| ensures SeenAt(v, disk, dir, longer, i, next, k) {
      assert k < |seen| ==> SeenAt(v, disk, dir, seen, i, e, k);
    }
    forall j, k | 0 <= j < k < |longer| ensures InOrder(longer, j, k) {
      assert SeenAt(v, disk, dir, seen, i, e, j);
      assert k < |seen| ==> InOrder(seen, j, k);
    }
    assert longer[|seen|] == (i, e);
    forall a: nat, b: nat | Enumerated(v, disk, dir, a, b) && Before(a, b, i, e + 1) ensures (a, b) in longer {
      assert Before(a, b, i, e) || (a, b) == (i, e);
    }
  }

  /** From the end of one cluster to the start of the next. */
  lemma {:induction false} OverToNext(v: Volume, disk: Disk, dir: seq<nat>, seen: seq<(nat, nat)>, i: nat)
    requires Placed(dir) && i < |dir| && Complete(v, disk, dir, seen, i, PER_SECTOR * v.perCluster)
    ensures Complete(v, disk, dir, seen, i + 1, 0)
  {
    SeenUpTo(v, disk, dir, seen, i, PER_SECTOR * v.perCluster, i + 1, 0);
    forall a: nat, b: nat | Enumerated(v, disk, dir, a, b) && Before(a, b, i + 1, 0) ensures (a, b) in seen {
      assert Before(a, b, i, PER_SECTOR * v.perCluster);
    }
  }

  /** After an end mark, or the last cluster, nothing more is enumerated. */
  lemma {:induction false} NothingLeft(v: Volume, disk: Disk, dir: seq<nat>, seen: seq<(nat, nat)>, i: nat, e: nat)
    requires Placed(dir) && Complete(v, disk, dir, seen, i, e) && i <= |dir|
    requires i < |dir| ==> e < PER_SECTOR * v.perCluster && Field(Image(v, disk, dir[i]), e, 0) == 0
    ensures Complete(v, disk, dir, seen, |dir|, 0)
  {
    forall a: nat, b: nat | Enumerated(v, disk, dir, a, b) && Before(a, b, |dir|, 0) ensures (a, b) in seen {
      assert At(v, disk, dir, a, b) && Unmarked(v, disk, dir, a, b);
      assert i < |dir| ==> !Used(v, disk, dir, i, e);
      assert Before(a, b, i, e);
    }
    forall k | 0 <= k < |seen| ensures SeenAt(v, disk, dir, seen, |dir|, 0, k) {
      assert SeenAt(v, disk, dir, seen, i, e, k);
    }
  }

  /** When the iterator is at the end, what it has delivered is everything enumerated, once each. */
  lemma {:induction false} EverythingOnce(v: Volume, disk: Disk, dir: seq<nat>, seen: seq<(nat, nat)>)
    requires Placed(dir) && Complete(v, disk, dir, seen, |dir|, 0)
    ensures forall a: nat, b: nat :: Enumerated(v, disk, dir, a, b) <==> (a, b) in seen
    ensures forall j, k :: 0 <= j < k < |seen| ==> seen[j] != seen[k]
  {
    forall a: nat, b: nat | Enumerated(v, disk, dir, a, b) ensures (a, b) in seen {
      assert Before(a, b, |dir|, 0);
    }
    forall k | 0 <= k < |seen| ensures Enumerated(v, disk, dir, seen[k].0, seen[k].1) {
      assert SeenAt(v, disk, dir, seen, |dir|, 0, k);
    }
    forall j, k | 0 <= j < k < |seen| ensures seen[j] != seen[k] {
      assert InOrder(seen, j, k);
    }
  }

  class DirectoryCursor {
    const fs: Filesystem
    var cluster: nat
    var entry: nat
    ghost var i: nat  // position of `cluster` in the directory's chain
    ghost var seen: seq<(nat, nat)>  // what has been delivered

    ghost predicate Valid()
      reads this, fs
    {
      && fs.Valid() && fs.v.root in fs.owners && Placed(fs.owners[fs.v.root])
      && i <= |fs.owners[fs.v.root]|
      && Complete(fs.v, fs.disk, fs.owners[fs.v.root], seen, i, if i < |fs.owners[fs.v.root]| then entry else 0)
      && if i < |fs.owners[fs.v.root]| then
           cluster == fs.owners[fs.v.root][i] && 2 <= cluster < FAT_EOF && entry <= PER_SECTOR * fs.v.perCluster &&
           Unmarked(fs.v, fs.disk, fs.owners[fs.v.root], i, entry)
         else cluster >= FAT_EOF
    }

    /** The iterator as the first call makes it. */
    constructor (fs: Filesystem)
      requires fs.Valid() && fs.v.root in fs.owners
      ensures Valid() && this.fs == fs && seen == []
    {
      this.fs, cluster, entry, i, seen := fs, fs.v.root, 0, 0, [];
      new;
      ChainPlaced(fs.fat, fs.v.total, fs.owners[fs.v.root]);
      NextInChain(fs.fat, fs.v.total, fs.owners[fs.v.root], 0);
    }

    /** The rest of one cluster: the next entry in it, the end mark, or neither. */
    method ScanRest(img: seq<Sector>) returns (found: bool, ended: bool)
      requires Valid() && i < |fs.owners[fs.v.root]| && img == Image(fs.v, fs.disk, cluster)
      modifies this`entry, this`seen
      ensures !ended ==> Valid() && entry <= PER_SECTOR * fs.v.perCluster
      ensures found ==>
                !ended && entry > 0 && seen == old(seen) + [(i, entry - 1)] &&
                At(fs.v, fs.disk, fs.owners[fs.v.root], i, entry - 1)
      ensures !found ==> seen == old(seen)
      ensures !found && !ended ==> entry == PER_SECTOR * fs.v.perCluster
      ensures ended ==> Complete(fs.v, fs.disk, fs.owners[fs.v.root], seen, |fs.owners[fs.v.root]|, 0)
    {
      ghost var v, disk, dir := fs.v, fs.disk, fs.owners[fs.v.root];
      found, ended := false, false;
      while entry < PER_SECTOR * |img|
        invariant Valid() && seen == old(seen)
        decreases PER_SECTOR * |img| - entry
      {
        var e := entry;
        entry := entry + 1;
        if Field(img, e, 0) == 0 {
          NothingLeft(v, disk, dir, seen, i, e);
          ended := true;
          return;
        }
        ReadOn(v, disk, dir, i, e);
        if Field(img, e, 0) != DELETED && Field(img, e, 11) != LONG_NAME {
          Deliver(v, disk, dir, seen, i, e);
          seen := seen + [(i, e)];
          found := true;
          return;
        }
        PassOver(v, disk, dir, seen, i, e);
      }
    }

    /** The cluster is exhausted: on to the next one, or to the end. */
    method ToNextCluster() returns (more: bool)
      requires Valid() && i < |fs.owners[fs.v.root]| && entry == PER_SECTOR * fs.v.perCluster
      modifies this`cluster, this`entry, this`i
      ensures Valid() && i == old(i) + 1 && (more <==> i < |fs.owners[fs.v.root]|)
    {
      NextInChain(fs.fat, fs.v.total, fs.owners[fs.v.root], i);
      OverToNext(fs.v, fs.disk, fs.owners[fs.v.root], seen, i);
      var next := NextCluster(fs.fat, fs.v.total, cluster);
      more := next < FAT_EOF;
      if more {
        entry := 0;
      }
      cluster, i := if more then next else FAT_EOF, i + 1;
    }

    /** The name, first cluster and kind of the entry just passed. */
    method Describe(img: seq<Sector>) returns (d: DirEntry)
      requires Valid() && i < |fs.owners[fs.v.root]| && img == Image(fs.v, fs.disk, cluster)
      requires entry > 0 && At(fs.v, fs.disk, fs.owners[fs.v.root], i, entry - 1)
      ensures DeliveredAt(i, entry - 1, d)
    {
      var name := DisplayName(RawName(img, entry - 1));
      d := DirEntry(name, StartOf(img, entry - 1), IsDirectory(Field(img, entry - 1, 11)));
    }

    /** fat32_vfs_readdir. */
    method ReadDir() returns (r: Next)
      requires Valid()
      modifies this
      ensures Valid()
      ensures r.Entry? ==> entry > 0 && seen == old(seen) + [(i, entry - 1)] && DeliveredAt(i, entry - 1, r.entry)
      ensures !r.Entry? ==> seen == old(seen)
      ensures r.End? ==> cluster >= FAT_EOF && i == |fs.owners[fs.v.root]|
    {
      while cluster >= 2 && cluster < FAT_EOF
        invariant Valid() && seen == old(seen)
        decreases |fs.owners[fs.v.root]| - i
      {
        var ok, img := fs.ReadCluster(cluster);
        if !ok {
          return Error;
        }
        var found, ended := ScanRest(img);
        if ended {
          cluster, i := FAT_EOF, |fs.owners[fs.v.root]|;
          return End;
        }
        if found {
          var d := Describe(img);
          return Entry(d);
        }
        var more := ToNextCluster();
        if !more {
          return End;
        }
      }
      return End;
    }

    /** What is delivered for entry (a, b) is its printed name, first cluster and kind. */
    ghost predicate DeliveredAt(a: nat, b: nat, d: DirEntry)
      reads this, fs
    {
      && fs.v.root in fs.owners && Placed(fs.owners[fs.v.root]) && At(fs.v, fs.disk, fs.owners[fs.v.root], a, b)
      && IsDisplay(RawName(Image(fs.v, fs.disk, fs.owners[fs.v.root][a]), b), d.name)
      && d.inode == Start(fs.v, fs.disk, fs.owners[fs.v.root], a, b)
      && (d.isDir <==> IsDirectory(Field(Image(fs.v, fs.disk, fs.owners[fs.v.root][a]), b, 11)))
    }
  }
}
