/**
 What fat32_read delivers (kernel/BasicDrivers/fat32.c): the contents of the chain from the cursor
 on, and the one cursor position from which it does not.
 */
module FatReading {
  import opened Words
  import opened Collections
  import opened FatChains
  import opened FatData

  // ---------------------------------------------------------------- reading

  /** At most n bytes of `data` from position p on. */
  function Slice(data: seq<Byte>, p: nat, n: nat): seq<Byte>
  {
    if p >= |data| then [] else if p + n <= |data| then data[p..p + n] else data[p..]
  }

  /** What fat32_read delivers from offset o of cluster i: the contents, except that a cursor left at
      the end of a cluster first yields the sector that follows the cluster on disk. */
  ghost function ReadBytes(v: Volume, disk: Disk, chain: seq<nat>, i: nat, o: nat, n: nat): seq<Byte>
    requires Placed(chain) && i < |chain| && o <= v.clusterSize
  {
    if o < v.clusterSize then Slice(Contents(v, disk, chain), Times(i, v.clusterSize) + o, n)
    else
      var k := if n < SECTOR then n else SECTOR;
      Sec(disk, v.Lba(chain[i]) + v.perCluster)[..k] +
        Slice(Contents(v, disk, chain), Times(i + 1, v.clusterSize), n - k)
  }

  /** `good` is what the contents hold from p up to the cursor (i, o). */
  ghost predicate Reading(v: Volume, disk: Disk, chain: seq<nat>, p: nat, good: seq<Byte>, i: nat, o: nat)
  {
    && v.Ok() && Placed(chain) && i <= |chain| && o < v.clusterSize && (i == |chain| ==> o == 0)
    && p + |good| == Times(i, v.clusterSize) + o && p + |good| <= |Contents(v, disk, chain)|
    && good == Contents(v, disk, chain)[p..p + |good|]
  }

  /** `chunk` is what the sector of offset o of cluster c holds from there on. */
  ghost predicate FromSector(v: Volume, disk: Disk, c: nat, o: nat, chunk: seq<Byte>)
    requires c >= 2
  {
    o % SECTOR + |chunk| <= SECTOR && chunk == Sec(disk, v.Lba(c) + o / SECTOR)[o % SECTOR..o % SECTOR + |chunk|]
  }

  /** The disk sector of a chunk shows the chunk. */
  lemma {:induction false} SectorByte(v: Volume, disk: Disk, chain: seq<nat>, i: nat, o: nat, j: nat)
    requires v.Ok() && Placed(chain) && i < |chain| && o < v.clusterSize && o % SECTOR + j < SECTOR
    ensures Times(i, v.clusterSize) + o + j < |Contents(v, disk, chain)|
    ensures Sec(disk, v.Lba(chain[i]) + o / SECTOR)[o % SECTOR + j] ==
            Contents(v, disk, chain)[Times(i, v.clusterSize) + o + j]
  {
    SectorInCluster(v, o);
    ContentsAt(v, disk, chain, i, o + j);
    assert (o + j) / SECTOR == o / SECTOR && (o + j) % SECTOR == o % SECTOR + j;
  }

  lemma {:induction false} SectorBytes(v: Volume, disk: Disk, chain: seq<nat>, i: nat, o: nat, chunk: seq<Byte>, p: nat)
    requires v.Ok() && Placed(chain) && i < |chain| && o < v.clusterSize && o % SECTOR + |chunk| <= SECTOR
    requires FromSector(v, disk, chain[i], o, chunk) && p == Times(i, v.clusterSize) + o
    ensures o + |chunk| <= v.clusterSize && p + |chunk| <= |Contents(v, disk, chain)|
    ensures chunk == Contents(v, disk, chain)[p..p + |chunk|]
  {
    SectorInCluster(v, o);
    TimesGap(i, |chain|, v.clusterSize);
    var all := Contents(v, disk, chain);
    forall j: nat | j < |chunk| ensures chunk[j] == all[p + j] {
      SectorByte(v, disk, chain, i, o, j);
    }
  }

  /** The part of the cursor's sector that a read takes. */
  lemma {:induction false} ReadChunk(
    v: Volume, disk: Disk, chain: seq<nat>, p: nat, good: seq<Byte>, i: nat, o: nat, chunk: seq<Byte>)
    requires Reading(v, disk, chain, p, good, i, o) && i < |chain| && o % SECTOR + |chunk| <= SECTOR
    requires FromSector(v, disk, chain[i], o, chunk)
    ensures o + |chunk| <= v.clusterSize
    ensures o + |chunk| < v.clusterSize ==> Reading(v, disk, chain, p, good + chunk, i, o + |chunk|)
    ensures o + |chunk| == v.clusterSize ==> Reading(v, disk, chain, p, good + chunk, i + 1, 0)
  {
    SectorBytes(v, disk, chain, i, o, chunk, p + |good|);
    Joined(Contents(v, disk, chain), p, p + |good|, p + |good| + |chunk|);
  }

  lemma {:induction false} Joined(data: seq<Byte>, a: nat, b: nat, c: nat)
    requires a <= b <= c <= |data|
    ensures data[a..b] + data[b..c] == data[a..c]
  {
  }

  lemma {:induction false} ReadEnds(
    v: Volume, disk: Disk, chain: seq<nat>, p: nat, good: seq<Byte>, i: nat, o: nat, n: nat)
    requires Reading(v, disk, chain, p, good, i, o) && |good| <= n && (|good| == n || i == |chain|)
    ensures good == Slice(Contents(v, disk, chain), p, n)
  {
  }

  /** fat32_read for n bytes from (i0, o0) has delivered `out`; its cursor is at (i, o). */
  ghost predicate ReadSoFar(
    v: Volume, disk: Disk, chain: seq<nat>, i0: nat, o0: nat, n: nat, out: seq<Byte>, i: nat, o: nat)
  {
    && v.Ok() && Placed(chain) && i0 < |chain| && o0 <= v.clusterSize && |out| <= n
    && if o0 < v.clusterSize then Reading(v, disk, chain, Times(i0, v.clusterSize) + o0, out, i, o)
       else if out == [] then i == i0 && o == o0
       else ReadPast(v, disk, chain, i0, n, out, i, o)
  }

  /** ... after a start at the end of cluster i0: the stray sector, then the contents. */
  ghost predicate ReadPast(v: Volume, disk: Disk, chain: seq<nat>, i0: nat, n: nat, out: seq<Byte>, i: nat, o: nat)
    requires Placed(chain) && i0 < |chain|
  {
    var k := if n < SECTOR then n else SECTOR;
    && k <= |out| && out[..k] == Sec(disk, v.Lba(chain[i0]) + v.perCluster)[..k]
    && Reading(v, disk, chain, Times(i0 + 1, v.clusterSize), out[k..], i, o)
  }

  lemma {:induction false} ReadStarts(v: Volume, disk: Disk, chain: seq<nat>, i: nat, o: nat, n: nat)
    requires v.Ok() && Placed(chain) && i < |chain| && o <= v.clusterSize
    ensures ReadSoFar(v, disk, chain, i, o, n, [], i, o)
  {
    TimesGap(i, |chain|, v.clusterSize);
  }

  /** The cursor after n more bytes. */
  ghost predicate Moved(v: Volume, i: nat, o: nat, n: nat, i': nat, o': nat)
  {
    if o + n < v.clusterSize then i' == i && o' == o + n else i' == i + 1 && o' == 0
  }

  /** One turn of the loop delivers `data`, the rest of the cursor's sector or all that was asked for. */
  lemma {:induction false} ReadTurn(
    v: Volume, disk: Disk, chain: seq<nat>, i0: nat, o0: nat, n: nat, out: seq<Byte>, i: nat, o: nat,
    data: seq<Byte>, out': seq<Byte>, i': nat, o': nat)
    requires ReadSoFar(v, disk, chain, i0, o0, n, out, i, o) && i < |chain|
    requires 0 < |data| <= n - |out| && o % SECTOR + |data| <= SECTOR
    requires |data| == n - |out| || o % SECTOR + |data| == SECTOR
    requires FromSector(v, disk, chain[i], o, data)
    requires out' == out + data && Moved(v, i, o, |data|, i', o')
    ensures ReadSoFar(v, disk, chain, i0, o0, n, out', i', o')
  {
    if o0 < v.clusterSize {
      ReadChunk(v, disk, chain, Times(i0, v.clusterSize) + o0, out, i, o, data);
      assert Reading(v, disk, chain, Times(i0, v.clusterSize) + o0, out', i', o');
    } else if out == [] {
      SectorsEnd(v);
      assert out' == data;
      ReadStray(v, disk, chain, i0, n, data);
    } else {
      ReadPastTurn(v, disk, chain, i0, n, out, i, o, data, out', i', o');
    }
  }

  lemma {:induction false} ReadStray(v: Volume, disk: Disk, chain: seq<nat>, i0: nat, n: nat, data: seq<Byte>)
    requires v.Ok() && Placed(chain) && i0 < |chain| && |data| == (if n < SECTOR then n else SECTOR)
    requires data == Sec(disk, v.Lba(chain[i0]) + v.perCluster)[..|data|]
    ensures ReadPast(v, disk, chain, i0, n, data, i0 + 1, 0)
  {
    TimesGap(i0, |chain|, v.clusterSize);
  }

  lemma {:induction false} ReadPastTurn(
    v: Volume, disk: Disk, chain: seq<nat>, i0: nat, n: nat, out: seq<Byte>, i: nat, o: nat,
    data: seq<Byte>, out': seq<Byte>, i': nat, o': nat)
    requires v.Ok() && Placed(chain) && i0 < |chain| && ReadPast(v, disk, chain, i0, n, out, i, o) && i < |chain|
    requires o % SECTOR + |data| <= SECTOR
    requires FromSector(v, disk, chain[i], o, data)
    requires out' == out + data && Moved(v, i, o, |data|, i', o')
    ensures ReadPast(v, disk, chain, i0, n, out', i', o')
  {
    var k := if n < SECTOR then n else SECTOR;
    ReadChunk(v, disk, chain, Times(i0 + 1, v.clusterSize), out[k..], i, o, data);
    SplitAfter(out, data, k);
  }

  lemma {:induction false} SplitAfter(a: seq<Byte>, b: seq<Byte>, k: nat)
    requires k <= |a|
    ensures (a + b)[k..] == a[k..] + b && (a + b)[..k] == a[..k]
  {
  }

  lemma {:induction false} ReadDone(
    v: Volume, disk: Disk, chain: seq<nat>, i0: nat, o0: nat, n: nat, out: seq<Byte>, i: nat, o: nat)
    requires ReadSoFar(v, disk, chain, i0, o0, n, out, i, o) && (|out| == n || i == |chain|)
    ensures out == ReadBytes(v, disk, chain, i0, o0, n)
  {
    if o0 < v.clusterSize {
      ReadEnds(v, disk, chain, Times(i0, v.clusterSize) + o0, out, i, o, n);
    } else if out != [] {
      var k := if n < SECTOR then n else SECTOR;
      ReadEnds(v, disk, chain, Times(i0 + 1, v.clusterSize), out[k..], i, o, n - k);
      assert out == out[..k] + out[k..];
    }
  }

  /** A read delivers the contents, whatever the disk holds, exactly when the cursor is inside its
      cluster, nothing is asked for, or one sector is asked for and the next cluster is adjacent. */
  lemma {:induction false} ReadRight(v: Volume, chain: seq<nat>, i: nat, o: nat, n: nat)
    requires v.Ok() && Placed(chain) && Distinct(chain) && i < |chain| && o <= v.clusterSize
    ensures (forall disk ::
               ReadBytes(v, disk, chain, i, o, n) ==
               Slice(Contents(v, disk, chain), Times(i, v.clusterSize) + o, n)) <==>
            o < v.clusterSize || n == 0 || (n <= SECTOR && i + 1 < |chain| && chain[i + 1] == chain[i] + 1)
  {
    if o == v.clusterSize && n > 0 {
      assert Times(i, v.clusterSize) + o == Times(i + 1, v.clusterSize);
      if n <= SECTOR && i + 1 < |chain| && chain[i + 1] == chain[i] + 1 {
        forall disk
          ensures ReadBytes(v, disk, chain, i, o, n) == Slice(Contents(v, disk, chain), Times(i + 1, v.clusterSize), n)
        {
          AdjacentRead(v, disk, chain, i, n);
        }
      } else {
        var disk := StrayRead(v, chain, i, n);
        assert ReadBytes(v, disk, chain, i, o, n) != Slice(Contents(v, disk, chain), Times(i + 1, v.clusterSize), n);
      }
    }
  }

  lemma {:induction false} AdjacentRead(v: Volume, disk: Disk, chain: seq<nat>, i: nat, n: nat)
    requires v.Ok() && Placed(chain) && i + 1 < |chain| && chain[i + 1] == chain[i] + 1 && n <= SECTOR
    ensures ReadBytes(v, disk, chain, i, v.clusterSize, n) ==
            Slice(Contents(v, disk, chain), Times(i + 1, v.clusterSize), n)
  {
    var lba := v.Lba(chain[i]) + v.perCluster;
    assert lba == v.Lba(chain[i + 1]);
    SectorsEnd(v);
    var p := Times(i + 1, v.clusterSize);
    SectorBytes(v, disk, chain, i + 1, 0, Sec(disk, lba)[..n], p);
    AllOfIt(Sec(disk, lba)[..n], Contents(v, disk, chain), p, n);
  }

  lemma {:induction false} AllOfIt(part: seq<Byte>, all: seq<Byte>, p: nat, n: nat)
    requires p + n <= |all| && part == all[p..p + n]
    ensures part + Slice(all, p, 0) == Slice(all, p, n)
  {
  }

  function Ones(): Sector
  {
    seq(SECTOR, _ => 1)
  }

  /** The byte at the start of cluster i of a chain, on a disk with one marked sector. */
  lemma {:induction false} MarkedByte(v: Volume, chain: seq<nat>, i: nat, lba: nat)
    requires v.Ok() && Placed(chain) && i < |chain|
    ensures Times(i, v.clusterSize) < |Contents(v, map[lba := Ones()], chain)|
    ensures Contents(v, map[lba := Ones()], chain)[Times(i, v.clusterSize)] == if lba == v.Lba(chain[i]) then 1 else 0
  {
    ContentsAt(v, map[lba := Ones()], chain, i, 0);
  }

  lemma {:induction false} StrayRead(v: Volume, chain: seq<nat>, i: nat, n: nat) returns (disk: Disk)
    requires v.Ok() && Placed(chain) && Distinct(chain) && i < |chain| && n > 0
    requires !(n <= SECTOR && i + 1 < |chain| && chain[i + 1] == chain[i] + 1)
    ensures ReadBytes(v, disk, chain, i, v.clusterSize, n) !=
            Slice(Contents(v, disk, chain), Times(i + 1, v.clusterSize), n)
  {
    var lba := v.Lba(chain[i]) + v.perCluster;
    disk := map[lba := Ones()];
    assert lba == v.Lba(chain[i] + 1);
    SectorsEnd(v);
    if i + 1 < |chain| {
      LbaInjective(v, chain[i] + 1, 0, chain[i + 1], 0);
      if chain[i + 1] == chain[i] + 1 {
        StrayRepeats(v, chain, i, n, disk, lba);
      } else {
        StrayForeign(v, chain, i, n, disk, lba);
      }
    }
  }

  /** The next cluster is elsewhere: what comes first is not its first byte. */
  lemma {:induction false} StrayForeign(v: Volume, chain: seq<nat>, i: nat, n: nat, disk: Disk, lba: nat)
    requires v.Ok() && Placed(chain) && i + 1 < |chain| && n > 0
    requires lba == v.Lba(chain[i]) + v.perCluster != v.Lba(chain[i + 1]) && disk == map[lba := Ones()]
    ensures ReadBytes(v, disk, chain, i, v.clusterSize, n) !=
            Slice(Contents(v, disk, chain), Times(i + 1, v.clusterSize), n)
  {
    MarkedByte(v, chain, i + 1, lba);
    assert ReadBytes(v, disk, chain, i, v.clusterSize, n)[0] == 1;
  }

  /** The next cluster is adjacent and more than a sector is asked for: its first sector comes twice. */
  lemma {:induction false} StrayRepeats(v: Volume, chain: seq<nat>, i: nat, n: nat, disk: Disk, lba: nat)
    requires v.Ok() && Placed(chain) && Distinct(chain) && i + 1 < |chain| && n > SECTOR
    requires lba == v.Lba(chain[i]) + v.perCluster == v.Lba(chain[i + 1]) && disk == map[lba := Ones()]
    ensures ReadBytes(v, disk, chain, i, v.clusterSize, n) !=
            Slice(Contents(v, disk, chain), Times(i + 1, v.clusterSize), n)
  {
    var got := ReadBytes(v, disk, chain, i, v.clusterSize, n);
    MarkedByte(v, chain, i + 1, lba);
    SectorsEnd(v);
    assert got[SECTOR] == 1;
    SecondSector(v, chain, i + 1, disk, lba);
  }

  /** Only the first sector of cluster i is marked: the byte a sector later is not. */
  lemma {:induction false} SecondSector(v: Volume, chain: seq<nat>, i: nat, disk: Disk, lba: nat)
    requires v.Ok() && Placed(chain) && Distinct(chain) && i < |chain| && lba == v.Lba(chain[i])
    requires disk == map[lba := Ones()]
    ensures Times(i, v.clusterSize) + SECTOR <= |Contents(v, disk, chain)|
    ensures Times(i, v.clusterSize) + SECTOR < |Contents(v, disk, chain)| ==>
              Contents(v, disk, chain)[Times(i, v.clusterSize) + SECTOR] == 0
  {
    SectorsEnd(v);
    TimesGap(i, |chain|, v.clusterSize);
    if SECTOR < v.clusterSize {
      ContentsAt(v, disk, chain, i, SECTOR);
    } else if i + 1 < |chain| {
      MarkedByte(v, chain, i + 1, lba);
      LbaInjective(v, chain[i], 0, chain[i + 1], 0);
    }
  }
}
