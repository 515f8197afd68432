/**
 File contents as bytes on an abstract sector disk. The contents of a chain are its clusters'
 bytes one after the other; a position is a chain index and an offset in that cluster.
 */
module FatData {
  import opened Words
  import opened Collections
  import opened FatChains

  const SECTOR: nat := 512

  type Sector = s: seq<Byte> | |s| == SECTOR witness seq(SECTOR, _ => 0)
  type Disk = map<nat, Sector>

  function Blank(): Sector
  {
    seq(SECTOR, _ => 0)
  }

  function Sec(disk: Disk, lba: nat): Sector
  {
    if lba in disk then disk[lba] else Blank()
  }

  // ---------------------------------------------------------------- products

  /** n * k, by repeated addition. */
  function Times(n: nat, k: nat): nat
  {
    if n == 0 then 0 else Times(n - 1, k) + k
  }

  lemma {:induction false} TimesIsProduct(n: nat, k: nat)
    ensures Times(n, k) == n * k
  {
    if n > 0 {
      TimesIsProduct(n - 1, k);
    }
  }

  lemma {:induction false} TimesGap(x: nat, y: nat, k: nat)
    requires x < y
    ensures Times(x, k) + k <= Times(y, k)
    decreases y
  {
    if x < y - 1 {
      TimesGap(x, y - 1, k);
    }
  }

  /** Every number below n * k has a quotient and a remainder. */
  lemma {:induction false} Locate(x: nat, n: nat, k: nat) returns (i: nat, o: nat)
    requires x < Times(n, k)
    ensures i < n && o < k && x == Times(i, k) + o
  {
    if x >= Times(n - 1, k) {
      i, o := n - 1, x - Times(n - 1, k);
    } else {
      i, o := Locate(x, n - 1, k);
    }
  }

  /** Quotient and remainder are unique. */
  lemma {:induction false} SamePlace(i: nat, o: nat, i': nat, o': nat, k: nat)
    requires o < k && o' < k
    ensures Times(i, k) + o == Times(i', k) + o' <==> i == i' && o == o'
  {
    if i < i' {
      TimesGap(i, i', k);
    } else if i' < i {
      TimesGap(i', i, k);
    }
  }

  // ---------------------------------------------------------------- the volume

  /** Where the table and the data area are, how large a cluster is in sectors and in bytes, and
      which cluster the root directory starts at. */
  datatype Volume = Volume(
    total: nat, perCluster: nat, firstData: nat, clusterSize: nat, fatStart: nat, fatSectors: nat, root: nat)
  {
    ghost predicate Ok()
    {
      && perCluster > 0 && clusterSize > 0 && clusterSize == Times(perCluster, SECTOR)
      && fatStart + fatSectors <= firstData
    }

    /** cluster_to_lba. */
    function Lba(c: nat): nat
      requires c >= 2
    {
      firstData + Times(c - 2, perCluster)
    }
  }

  /** Different clusters, and different sectors of one cluster, are different disk sectors. */
  lemma {:induction false} LbaInjective(v: Volume, c: nat, s: nat, c': nat, s': nat)
    requires c >= 2 && c' >= 2 && s < v.perCluster && s' < v.perCluster
    ensures v.Lba(c) + s == v.Lba(c') + s' <==> c == c' && s == s'
  {
    SamePlace(c - 2, s, c' - 2, s', v.perCluster);
  }

  /** A sector that begins inside the cluster lies inside it. */
  lemma {:induction false} SectorInCluster(v: Volume, o: nat)
    requires v.Ok() && o < v.clusterSize
    ensures o / SECTOR < v.perCluster && o - o % SECTOR + SECTOR <= v.clusterSize
  {
    TimesIsProduct(v.perCluster, SECTOR);
  }

  lemma {:induction false} SectorsEnd(v: Volume)
    requires v.Ok()
    ensures v.clusterSize / SECTOR == v.perCluster && v.clusterSize % SECTOR == 0 && v.clusterSize >= SECTOR
  {
    TimesIsProduct(v.perCluster, SECTOR);
  }

  // ---------------------------------------------------------------- contents

  /** Byte o of cluster c. */
  function ByteIn(v: Volume, disk: Disk, c: nat, o: nat): Byte
    requires c >= 2
  {
    Sec(disk, v.Lba(c) + o / SECTOR)[o % SECTOR]
  }

  function ClusterBytes(v: Volume, disk: Disk, c: nat): (data: seq<Byte>)
    requires c >= 2
    ensures |data| == v.clusterSize
  {
    seq(v.clusterSize, o requires 0 <= o < v.clusterSize => ByteIn(v, disk, c, o))
  }

  /** Chains of data clusters. */
  ghost predicate Placed(chain: seq<nat>)
  {
    forall i :: 0 <= i < |chain| ==> chain[i] >= 2
  }

  /** The bytes of a chain, in order. */
  ghost function Contents(v: Volume, disk: Disk, chain: seq<nat>): (data: seq<Byte>)
    requires Placed(chain)
    ensures |data| == Times(|chain|, v.clusterSize)
  {
    if chain == [] then [] else Contents(v, disk, chain[..|chain| - 1]) + ClusterBytes(v, disk, chain[|chain| - 1])
  }

  lemma {:induction false} ContentsAt(v: Volume, disk: Disk, chain: seq<nat>, i: nat, o: nat)
    requires Placed(chain) && i < |chain| && o < v.clusterSize
    ensures Times(i, v.clusterSize) + o < |Contents(v, disk, chain)|
    ensures Contents(v, disk, chain)[Times(i, v.clusterSize) + o] == ByteIn(v, disk, chain[i], o)
  {
    var n := |chain| - 1;
    if i < n {
      ContentsAt(v, disk, chain[..n], i, o);
    }
  }

  /** Where a file's bytes are on the disk: cluster c begins c - 2 clusters into the data area. */
  lemma {:induction false} ContentsOnDisk(v: Volume, disk: Disk, chain: seq<nat>, i: nat, o: nat)
    requires v.Ok() && Placed(chain) && i < |chain| && o < v.clusterSize
    ensures v.clusterSize == 512 * v.perCluster
    ensures i * v.clusterSize + o < |Contents(v, disk, chain)|
    ensures Contents(v, disk, chain)[i * v.clusterSize + o] ==
            Sec(disk, v.firstData + (chain[i] - 2) * v.perCluster + o / 512)[o % 512]
  {
    TimesIsProduct(v.perCluster, SECTOR);
    TimesIsProduct(i, v.clusterSize);
    TimesIsProduct(chain[i] - 2, v.perCluster);
    ByteOnDisk(v, disk, chain, i, o, i * v.clusterSize, (chain[i] - 2) * v.perCluster);
  }

  lemma {:induction false} ByteOnDisk(
    v: Volume, disk: Disk, chain: seq<nat>, i: nat, o: nat, before: nat, sectors: nat)
    requires Placed(chain) && i < |chain| && o < v.clusterSize
    requires before == Times(i, v.clusterSize) && sectors == Times(chain[i] - 2, v.perCluster)
    ensures before + o < |Contents(v, disk, chain)|
    ensures Contents(v, disk, chain)[before + o] == Sec(disk, v.firstData + sectors + o / 512)[o % 512]
  {
    ContentsAt(v, disk, chain, i, o);
  }

  /** Sector s of data cluster c is disk sector lba. */
  ghost predicate IsDataSector(v: Volume, c: nat, s: nat, lba: nat)
  {
    2 <= c < v.total + 2 && s < v.perCluster && lba == v.Lba(c) + s
  }

  /** The sectors of the data clusters are the data area, from its first sector to its last. */
  lemma {:induction false} DataArea(v: Volume, lba: nat)
    ensures (exists c: nat, s: nat :: IsDataSector(v, c, s, lba)) <==>
            v.firstData <= lba < v.firstData + v.total * v.perCluster
  {
    TimesIsProduct(v.total, v.perCluster);
    if v.firstData <= lba < v.firstData + v.total * v.perCluster {
      var i, s := Locate(lba - v.firstData, v.total, v.perCluster);
      assert IsDataSector(v, i + 2, s, lba);
    }
    forall c: nat, s: nat | IsDataSector(v, c, s, lba) ensures lba < v.firstData + Times(v.total, v.perCluster) {
      TimesGap(c - 2, v.total, v.perCluster);
    }
  }

  lemma {:induction false} ContentsLonger(v: Volume, disk: Disk, chain: seq<nat>, longer: seq<nat>)
    requires Placed(longer) && chain <= longer
    ensures Placed(chain) && Contents(v, disk, chain) <= Contents(v, disk, longer)
    decreases |longer|
  {
    if |chain| < |longer| {
      ContentsLonger(v, disk, chain, longer[..|longer| - 1]);
    } else {
      assert chain == longer;
    }
  }

  /** Contents agree when every byte of every cluster does. */
  lemma {:induction false} SameContents(v: Volume, disk: Disk, disk': Disk, chain: seq<nat>)
    requires Placed(chain)
    requires forall i, o ::
               0 <= i < |chain| && 0 <= o < v.clusterSize ==>
                 ByteIn(v, disk', chain[i], o) == ByteIn(v, disk, chain[i], o)
    ensures Contents(v, disk', chain) == Contents(v, disk, chain)
  {
    if chain != [] {
      var n := |chain| - 1;
      SameContents(v, disk, disk', chain[..n]);
      assert ClusterBytes(v, disk', chain[n]) == ClusterBytes(v, disk, chain[n]);
    }
  }

  // ---------------------------------------------------------------- one chunk is written

  /** Sector s with `data` at offset b. */
  function Patch(s: Sector, b: nat, data: seq<Byte>): (r: seq<Byte>)
    requires b + |data| <= SECTOR
    ensures |r| == SECTOR
    ensures forall j :: 0 <= j < SECTOR ==> r[j] == if b <= j < b + |data| then data[j - b] else s[j]
  {
    s[..b] + data + s[b + |data|..]
  }

  /** The disk after the sector holding offset o of cluster c is patched there. */
  function PatchDisk(v: Volume, disk: Disk, c: nat, o: nat, data: seq<Byte>): Disk
    requires c >= 2 && o % SECTOR + |data| <= SECTOR
  {
    var lba := v.Lba(c) + o / SECTOR;
    disk[lba := Patch(Sec(disk, lba), o % SECTOR, data)]
  }

  lemma {:induction false} PatchedByte(v: Volume, disk: Disk, c: nat, o: nat, data: seq<Byte>, c': nat, o': nat)
    requires v.Ok() && c >= 2 && c' >= 2 && o < v.clusterSize && o' < v.clusterSize && o % SECTOR + |data| <= SECTOR
    ensures ByteIn(v, PatchDisk(v, disk, c, o, data), c', o') ==
            if c' == c && o <= o' < o + |data| then data[o' - o] else ByteIn(v, disk, c', o')
  {
    SectorInCluster(v, o);
    SectorInCluster(v, o');
    LbaInjective(v, c', o' / SECTOR, c, o / SECTOR);
    if c' == c && o' / SECTOR == o / SECTOR {
      assert o' % SECTOR - o % SECTOR == o' - o;
    }
  }

  // ---------------------------------------------------------------- a whole write

  lemma {:induction false} MoveChunk(done: seq<Byte>, rest: seq<Byte>, k: nat)
    requires k <= |rest|
    ensures (done + rest[..k]) + rest[k..] == done + rest
  {
  }

  /** `data` at position p of `base`. */
  function Overwrite(base: seq<Byte>, p: nat, data: seq<Byte>): (r: seq<Byte>)
    requires p + |data| <= |base|
    ensures |r| == |base|
    ensures forall k :: 0 <= k < |base| ==> r[k] == if p <= k < p + |data| then data[k - p] else base[k]
  {
    base[..p] + data + base[p + |data|..]
  }

  /** So far `data` has been written at position p of the chain, and nothing else. */
  ghost predicate Written(v: Volume, disk0: Disk, disk: Disk, chain: seq<nat>, p: nat, data: seq<Byte>)
    requires Placed(chain)
  {
    p + |data| <= |Contents(v, disk0, chain)| &&
    Contents(v, disk, chain) == Overwrite(Contents(v, disk0, chain), p, data)
  }

  /** Sector lba belongs to one of the clusters. */
  ghost predicate InClusters(v: Volume, chain: seq<nat>, lba: nat)
    requires Placed(chain)
  {
    exists i: nat, s: nat :: IsSector(v, chain, i, s, lba)
  }

  ghost predicate IsSector(v: Volume, chain: seq<nat>, i: nat, s: nat, lba: nat)
    requires Placed(chain)
  {
    i < |chain| && s < v.perCluster && lba == v.Lba(chain[i]) + s
  }

  /** No sector outside the chain's clusters differs. */
  ghost predicate OutsideKept(v: Volume, disk0: Disk, disk: Disk, chain: seq<nat>)
    requires Placed(chain)
  {
    forall lba: nat :: Sec(disk, lba) == Sec(disk0, lba) || InClusters(v, chain, lba)
  }

  /** The next chunk of a write. */
  lemma {:induction false} ChunkWritten(
    v: Volume, disk0: Disk, disk: Disk, chain: seq<nat>, p: nat, data: seq<Byte>, i: nat, o: nat, chunk: seq<Byte>)
    requires v.Ok() && Placed(chain) && Distinct(chain) && i < |chain| && o < v.clusterSize
    requires p + |data| == Times(i, v.clusterSize) + o && o % SECTOR + |chunk| <= SECTOR
    requires Written(v, disk0, disk, chain, p, data)
    ensures Written(v, disk0, PatchDisk(v, disk, chain[i], o, chunk), chain, p, data + chunk)
  {
    var cs, disk' := v.clusterSize, PatchDisk(v, disk, chain[i], o, chunk);
    var base, now, next := Contents(v, disk0, chain), Contents(v, disk, chain), Contents(v, disk', chain);
    SectorInCluster(v, o);
    TimesGap(i, |chain|, cs);
    var r := Overwrite(base, p, data + chunk);
    forall k | 0 <= k < |base| ensures next[k] == r[k] {
      var i', o' := Locate(k, |chain|, cs);
      ContentsAt(v, disk', chain, i', o');
      ContentsAt(v, disk, chain, i', o');
      PatchedByte(v, disk, chain[i], o, chunk, chain[i'], o');
      ChunkPlace(i, o, i', o', cs, |chunk|);
    }
  }

  lemma {:induction false} ChunkPlace(i: nat, o: nat, i': nat, o': nat, cs: nat, n: nat)
    requires o' < cs && o + n <= cs
    ensures Times(i, cs) + o <= Times(i', cs) + o' < Times(i, cs) + o + n <==> i' == i && o <= o' < o + n
  {
    if i < i' {
      TimesGap(i, i', cs);
    } else if i' < i {
      TimesGap(i', i, cs);
    }
  }

  /** Whatever happens to a sector of the chain, the sectors outside it are kept. */
  lemma {:induction false} ChunkOutside(
    v: Volume, disk0: Disk, disk: Disk, disk': Disk, chain: seq<nat>, i: nat, o: nat)
    requires v.Ok() && Placed(chain) && i < |chain| && o < v.clusterSize
    requires OutsideKept(v, disk0, disk, chain)
    requires forall x: nat :: x != v.Lba(chain[i]) + o / SECTOR ==> Sec(disk', x) == Sec(disk, x)
    ensures OutsideKept(v, disk0, disk', chain)
  {
    SectorInCluster(v, o);
    var lba := v.Lba(chain[i]) + o / SECTOR;
    assert IsSector(v, chain, i, o / SECTOR, lba);
  }

  /** A chain of `before` clusters grew to `after`, by no more than position `end` calls for. */
  ghost predicate NoSurplus(cs: nat, before: nat, after: nat, end: nat)
  {
    before <= after && (before < after ==> Times(after - 1, cs) < end)
  }

  /** ... and by enough: `after` is the least length that holds `end` bytes. */
  ghost predicate Fewest(cs: nat, before: nat, after: nat, end: nat)
  {
    NoSurplus(cs, before, after, end) && end <= Times(after, cs)
  }

  /** No shorter extension would do. */
  lemma {:induction false} FewestIsLeast(cs: nat, before: nat, after: nat, end: nat, n: nat)
    requires Fewest(cs, before, after, end) && before <= n
    ensures end <= Times(n, cs) <==> after <= n
  {
    if after < n {
      TimesGap(after, n, cs);
    } else if n < after - 1 {
      TimesGap(n, after - 1, cs);
    }
  }

  lemma {:induction false} ChainPlaced(fat: Table, total: nat, chain: seq<nat>)
    requires Covers(fat, total) && IsChain(fat, total, chain)
    ensures Placed(chain)
  {
    forall i | 0 <= i < |chain| ensures chain[i] >= 2 {
      assert LinkedAt(fat, total, chain, i);
    }
  }

  /** A cluster outside the chain reads as on the first disk. */
  lemma {:induction false} OutsideByte(v: Volume, disk0: Disk, disk: Disk, chain: seq<nat>, c: nat, o: nat)
    requires v.Ok() && Placed(chain) && c >= 2 && c !in chain && o < v.clusterSize && OutsideKept(v, disk0, disk, chain)
    ensures ByteIn(v, disk, c, o) == ByteIn(v, disk0, c, o)
  {
    SectorInCluster(v, o);
    var lba := v.Lba(c) + o / SECTOR;
    if InClusters(v, chain, lba) {
      var i: nat, s: nat :| IsSector(v, chain, i, s, lba);
      LbaInjective(v, c, o / SECTOR, chain[i], s);
    }
  }

  /** The chain may grow by a cluster it does not contain: what was written stays written. */
  lemma {:induction false} WrittenLonger(
    v: Volume, disk0: Disk, disk: Disk, chain: seq<nat>, next: nat, p: nat, data: seq<Byte>)
    requires v.Ok() && Placed(chain) && next >= 2 && next !in chain
    requires Written(v, disk0, disk, chain, p, data) && OutsideKept(v, disk0, disk, chain)
    ensures Placed(chain + [next]) && Written(v, disk0, disk, chain + [next], p, data)
    ensures OutsideKept(v, disk0, disk, chain + [next])
  {
    var longer := chain + [next];
    assert longer[..|chain|] == chain;
    forall o | 0 <= o < v.clusterSize ensures ByteIn(v, disk, next, o) == ByteIn(v, disk0, next, o) {
      OutsideByte(v, disk0, disk, chain, next, o);
    }
    assert ClusterBytes(v, disk, next) == ClusterBytes(v, disk0, next);
    forall lba: nat ensures Sec(disk, lba) == Sec(disk0, lba) || InClusters(v, longer, lba) {
      if InClusters(v, chain, lba) {
        var i: nat, s: nat :| IsSector(v, chain, i, s, lba);
        assert IsSector(v, longer, i, s, lba);
      }
    }
  }

  /** A write that began at position p of a chain of n0 clusters and is to stop at `end` has put
      `data` there; its cursor is at offset o of cluster i. */
  ghost predicate Writing(
    v: Volume, disk0: Disk, disk: Disk, n0: nat, chain: seq<nat>, p: nat, data: seq<Byte>, i: nat, o: nat, end: nat)
  {
    && v.Ok() && Placed(chain) && Distinct(chain)
    && i < |chain| && o <= v.clusterSize && p + |data| == Times(i, v.clusterSize) + o
    && Written(v, disk0, disk, chain, p, data) && OutsideKept(v, disk0, disk, chain)
    && (|chain| == n0 || |chain| == i + 1) && NoSurplus(v.clusterSize, n0, |chain|, end)
    && (data != [] ==> o > 0)
  }

  lemma {:induction false} WriteStarts(v: Volume, disk: Disk, chain: seq<nat>, i: nat, o: nat, end: nat)
    requires v.Ok() && Placed(chain) && Distinct(chain) && i < |chain| && o <= v.clusterSize
    ensures Writing(v, disk, disk, |chain|, chain, Times(i, v.clusterSize) + o, [], i, o, end)
  {
    TimesGap(i, |chain|, v.clusterSize);
    var base := Contents(v, disk, chain);
    assert Overwrite(base, Times(i, v.clusterSize) + o, []) == base;
  }

  /** The cluster is full: a chunk at the start of the next one. `longer` is the chain, grown if need be. */
  lemma {:induction false} WriteAdvances(
    v: Volume, disk0: Disk, disk: Disk, n0: nat, chain: seq<nat>, longer: seq<nat>, p: nat, data: seq<Byte>, i: nat,
    end: nat)
    requires Writing(v, disk0, disk, n0, chain, p, data, i, v.clusterSize, end) && p + |data| < end
    requires longer == chain ||
             (|longer| == |chain| + 1 && longer[..|chain|] == chain &&
              longer[|chain|] >= 2 && longer[|chain|] !in chain)
    requires i + 1 < |longer| && (longer != chain ==> i + 1 == |chain|)
    ensures Written(v, disk0, disk, longer, p, data) && OutsideKept(v, disk0, disk, longer)
    ensures p + |data| == Times(i + 1, v.clusterSize) && Placed(longer) && Distinct(longer)
    ensures (|longer| == n0 || |longer| == i + 2) && NoSurplus(v.clusterSize, n0, |longer|, end)
  {
    if longer != chain {
      assert longer == chain + [longer[|chain|]];
      WrittenLonger(v, disk0, disk, chain, longer[|chain|], p, data);
    }
  }

  lemma {:induction false} WriteChunks(
    v: Volume, disk0: Disk, disk: Disk, n0: nat, chain: seq<nat>, p: nat, data: seq<Byte>, i: nat, o: nat, end: nat,
    chunk: seq<Byte>)
    requires v.Ok() && Placed(chain) && Distinct(chain) && i < |chain| && o < v.clusterSize
    requires p + |data| == Times(i, v.clusterSize) + o
    requires Written(v, disk0, disk, chain, p, data) && OutsideKept(v, disk0, disk, chain)
    requires (|chain| == n0 || |chain| == i + 1) && NoSurplus(v.clusterSize, n0, |chain|, end)
    requires chunk != [] && o % SECTOR + |chunk| <= SECTOR
    ensures Writing(v, disk0, PatchDisk(v, disk, chain[i], o, chunk), n0, chain, p, data + chunk, i, o + |chunk|, end)
  {
    SectorInCluster(v, o);
    ChunkWritten(v, disk0, disk, chain, p, data, i, o, chunk);
    ChunkOutside(v, disk0, disk, PatchDisk(v, disk, chain[i], o, chunk), chain, i, o);
  }

  lemma {:induction false} WriteEnds(
    v: Volume, disk0: Disk, disk: Disk, n0: nat, chain: seq<nat>, p: nat, data: seq<Byte>, i: nat, o: nat)
    requires Writing(v, disk0, disk, n0, chain, p, data, i, o, p + |data|)
    ensures Written(v, disk0, disk, chain, p, data) && OutsideKept(v, disk0, disk, chain)
    ensures Fewest(v.clusterSize, n0, |chain|, p + |data|)
    ensures o <= v.clusterSize && Times(i, v.clusterSize) + o == p + |data| && (data != [] ==> o > 0)
  {
  }

  /** A file whose clusters are elsewhere reads the same as before. */
  lemma {:induction false} OtherContents(v: Volume, disk0: Disk, disk: Disk, chain: seq<nat>, other: seq<nat>)
    requires v.Ok() && Placed(chain) && Placed(other) && Apart(other, chain) && OutsideKept(v, disk0, disk, chain)
    ensures Contents(v, disk, other) == Contents(v, disk0, other)
  {
    forall i, o | 0 <= i < |other| && 0 <= o < v.clusterSize
      ensures ByteIn(v, disk, other[i], o) == ByteIn(v, disk0, other[i], o)
    {
      assert other[i] in other;
      OutsideByte(v, disk0, disk, chain, other[i], o);
    }
    SameContents(v, disk0, disk, other);
  }

  // ---------------------------------------------------------------- the size after a write

  function Max(a: nat, b: nat): nat
  {
    if a < b then b else a
  }

  /** fat32_write takes the in-cluster offset for the file's end. The size it leaves is the right one
      exactly when the write stays in the file or ends in the first cluster. */
  lemma {:induction false} SizeGrowth(v: Volume, i: nat, o: nat, size: nat)
    requires v.Ok() && o <= v.clusterSize && (i > 0 ==> o > 0)
    ensures var end := Times(i, v.clusterSize) + o;
            Max(size, o) == Max(size, end) <==> end <= size || end <= v.clusterSize
  {
  }
}
