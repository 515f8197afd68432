/**
 The FAT32 driver's file operations (kernel/BasicDrivers/fat32.c): cluster allocation, cursor
 reads and writes, seek, and the release of chains. The cached table is the field `fat`; the
 disk may fail on any sector, and a failed write leaves that one sector in an unknown state.
 */
module Fat32 {
  import opened Words
  import opened Collections
  import opened FatChains
  import opened FatData
  import opened FatReading
  import opened FatRelease
  import opened FatDisk
  import opened FatDirectory

  /** An open file: first cluster, and a cursor of cluster and in-cluster offset. */
  class File {
    var start: nat
    var current: nat
    var size: nat
    var offset: nat

    constructor (start: nat, size: nat)
      ensures this.start == start && current == start && this.size == size && offset == 0
    {
      this.start, current, this.size, offset := start, start, size, 0;
    }
  }

  datatype WriteResult = Done | DiskError | VolumeFull

  /** What a write set out from: the disk, the chain's length, and the positions it covers. */
  datatype WriteGoal = WriteGoal(disk0: Disk, n0: nat, p: nat, end: nat)

  datatype Lookup = Found(cluster: nat, entry: nat) | Absent | Failed

  /** Not a cluster that reads go to. */
  predicate NoCluster(c: nat)
  {
    c < 2 || c >= FAT_EOF
  }

  class Filesystem {
    const v: Volume
    var fat: Table
    var disk: Disk
    ghost var owners: Owners
    ghost var log: seq<Disk>  // the disk after each completed sector write

    ghost predicate Valid()
      reads this
    {
      v.Ok() && |fat| == 128 * v.fatSectors && Covers(fat, v.total) && Owned(fat, v.total, owners)
    }

    ghost function Lost(): set<nat>
      requires Valid()
      reads this
    {
      Unowned(fat, v.total, owners)
    }

    constructor (v: Volume, fat: Table, disk: Disk, ghost owners: Owners)
      requires v.Ok() && |fat| == 128 * v.fatSectors && Covers(fat, v.total) && Owned(fat, v.total, owners)
      ensures Valid() && this.v == v && this.fat == fat && this.disk == disk && this.owners == owners && log == []
    {
      this.v, this.fat, this.disk, this.owners, log := v, fat, disk, owners, [];
    }

    // -------------------------------------------------------------- the disk

    method ReadSector(lba: nat) returns (ok: bool, s: Sector)
      ensures ok ==> s == Sec(disk, lba)
    {
      ok, s := *, Sec(disk, lba);
    }

    method WriteSector(lba: nat, s: Sector) returns (ok: bool)
      modifies this`disk, this`log
      ensures ok ==> disk == old(disk)[lba := s] && log == old(log) + [disk]
      ensures !ok ==> log == old(log)
      ensures forall x: nat :: x != lba ==> Sec(disk, x) == Sec(old(disk), x)
    {
      ok := *;
      if ok {
        disk := disk[lba := s];
        log := log + [disk];
      } else {
        var left: Sector := *;
        disk := disk[lba := left];
      }
    }

    // -------------------------------------------------------------- allocation

    /** The first free cluster, 0 when the volume is full. */
    method FindFreeCluster() returns (c: nat)
      requires Covers(fat, v.total)
      ensures c == 0 <==> forall x: nat :: !IsFree(fat, v.total, x)
      ensures c != 0 ==> IsFree(fat, v.total, c) && forall x: nat :: x < c ==> !IsFree(fat, v.total, x)
    {
      var i := 2;
      while i < v.total + 2
        invariant 2 <= i <= v.total + 2
        invariant forall x: nat :: x < i ==> !IsFree(fat, v.total, x)
      {
        if fat[i] % TWO_28 == 0 {
          assert IsFree(fat, v.total, i);
          return i;
        }
        i := i + 1;
      }
      return 0;
    }

    /** The cluster after position i of chain s: the next one of the chain, or a free cluster that
        is appended to it. 0 when the chain is at its end and the volume is full. */
    method NextForWrite(cluster: nat, ghost s: nat, ghost i: nat) returns (next: nat)
      requires Valid() && s in owners && i < |owners[s]| && owners[s][i] == cluster
      modifies this`fat, this`owners
      ensures Valid() && Lost() == old(Lost())
      ensures next == 0 ==>
                fat == old(fat) && owners == old(owners) && FreeClusters(fat, v.total) == {} && i + 1 == |owners[s]|
      ensures next != 0 && i + 1 < |old(owners)[s]| ==>
                fat == old(fat) && owners == old(owners) && owners[s][i + 1] == next
      ensures next != 0 && i + 1 == |old(owners)[s]| ==>
                owners == old(owners)[s := old(owners)[s] + [next]] && next !in old(owners)[s] && next >= 2
    {
      var chain := owners[s];
      assert IsChain(fat, v.total, chain);
      assert LinkedAt(fat, v.total, chain, i);
      assert i + 1 < |chain| ==> LinkedAt(fat, v.total, chain, i + 1);
      next := NextCluster(fat, v.total, cluster);
      if next >= FAT_EOF {
        next := FindFreeCluster();
        if next == 0 {
          return;
        }
        ExtendChain(fat, v.total, chain, next);
        ExtendOwned(fat, v.total, owners, s, next);
        fat := fat[cluster := next];
        fat := fat[next := FAT_EOF];
        owners := owners[s := chain + [next]];
      }
    }

    // -------------------------------------------------------------- writing

    /** Read, patch and write back the sector that holds offset o of a cluster. */
    method WriteChunk(cluster: nat, o: nat, data: seq<Byte>) returns (ok: bool)
      requires cluster >= 2 && o % SECTOR + |data| <= SECTOR
      modifies this`disk, this`log
      ensures ok ==> disk == PatchDisk(v, old(disk), cluster, o, data)
      ensures forall x: nat :: x != v.Lba(cluster) + o / SECTOR ==> Sec(disk, x) == Sec(old(disk), x)
    {
      var lba := v.Lba(cluster) + o / SECTOR;
      var temp: Sector;
      ok, temp := ReadSector(lba);
      if ok {
        ok := WriteSector(lba, Patch(temp, o % SECTOR, data));
      }
    }

    /** The cursor, moved on to the next cluster if it stands at the end of one. */
    method AdvanceForWrite(
      cluster: nat, offset: nat, ghost s: nat, ghost i: nat, ghost w: WriteGoal, ghost data: seq<Byte>)
      returns (c: nat, o: nat, ghost i': nat)
      requires Valid() && s in owners && i < |owners[s]| && owners[s][i] == cluster
      requires Writing(v, w.disk0, disk, w.n0, owners[s], w.p, data, i, offset, w.end) && w.p + |data| < w.end
      modifies this`fat, this`owners
      ensures Valid() && Lost() == old(Lost())
      ensures Grown(old(owners), owners, s)
      ensures c == 0 ==>
                owners == old(owners) && FreeClusters(fat, v.total) == {} &&
                w.p + |data| == Times(|owners[s]|, v.clusterSize)
      ensures c != 0 ==>
                i' < |owners[s]| && owners[s][i'] == c && o < v.clusterSize && c >= 2 && ReadyFor(w, s, data, i', o)
    {
      c, o, i' := cluster, offset, i;
      ghost var chain := owners[s];
      if offset >= v.clusterSize {
        c := NextForWrite(cluster, s, i);
        if c == 0 {
          return;
        }
        o, i' := 0, i + 1;
        WriteAdvances(v, w.disk0, disk, w.n0, chain, owners[s], w.p, data, i, w.end);
      }
      assert owners == old(owners)[s := owners[s]];
    }

    /** The chain of s has a place for the next chunk, at offset o of cluster i. */
    ghost predicate ReadyFor(w: WriteGoal, s: nat, data: seq<Byte>, i: nat, o: nat)
      reads this
    {
      && s in owners && v.Ok() && Placed(owners[s]) && Distinct(owners[s]) && i < |owners[s]| && o < v.clusterSize
      && w.p + |data| == Times(i, v.clusterSize) + o
      && Written(v, w.disk0, disk, owners[s], w.p, data) && OutsideKept(v, w.disk0, disk, owners[s])
      && (|owners[s]| == w.n0 || |owners[s]| == i + 1) && NoSurplus(v.clusterSize, w.n0, |owners[s]|, w.end)
    }

    /** One turn of fat32_write's loop: at most one sector of `rest` is written. */
    method WriteSome(
      cluster: nat, offset: nat, rest: seq<Byte>, ghost s: nat, ghost i: nat, ghost w: WriteGoal,
      ghost data: seq<Byte>)
      returns (r: WriteResult, c: nat, o: nat, n: nat, ghost i': nat)
      requires Valid() && s in owners && i < |owners[s]| && owners[s][i] == cluster
      requires Writing(v, w.disk0, disk, w.n0, owners[s], w.p, data, i, offset, w.end) && rest != []
      requires w.p + |data| + |rest| == w.end
      modifies this
      ensures Valid() && Lost() == old(Lost())
      ensures Grown(old(owners), owners, s) && Placed(owners[s])
      ensures OutsideKept(v, w.disk0, disk, owners[s]) && NoSurplus(v.clusterSize, w.n0, |owners[s]|, w.end)
      ensures r == VolumeFull ==> w.end > Times(|owners[s]|, v.clusterSize) && FreeClusters(fat, v.total) == {}
      ensures r == Done ==> 0 < n <= |rest| && i' < |owners[s]| && owners[s][i'] == c
      ensures r == Done ==> Writing(v, w.disk0, disk, w.n0, owners[s], w.p, data + rest[..n], i', o, w.end)
    {
      n := 0;
      c, o, i' := AdvanceForWrite(cluster, offset, s, i, w, data);
      if c == 0 {
        r := VolumeFull;
        return;
      }
      n := if |rest| > SECTOR - o % SECTOR then SECTOR - o % SECTOR else |rest|;
      ghost var before := disk;
      var ok := WriteChunk(c, o, rest[..n]);
      if !ok {
        ChunkOutside(v, w.disk0, before, disk, owners[s], i', o);
        r := DiskError;
        return;
      }
      WriteChunks(v, w.disk0, before, w.n0, owners[s], w.p, data, i', o, w.end, rest[..n]);
      o, r := o + n, Done;
    }

    /** fat32_write's loop. */
    method WriteAll(current: nat, position: nat, buf: seq<Byte>, ghost s: nat, ghost i0: nat, ghost w: WriteGoal)
      returns (r: WriteResult, cluster: nat, offset: nat, ghost i: nat)
      requires Valid() && s in owners && i0 < |owners[s]| && owners[s][i0] == current && position <= v.clusterSize
      requires w.disk0 == disk && w.n0 == |owners[s]|
      requires w.p == Times(i0, v.clusterSize) + position && w.end == w.p + |buf|
      modifies this
      ensures Valid() && Lost() == old(Lost())
      ensures Grown(old(owners), owners, s) && Placed(owners[s])
      ensures OutsideKept(v, w.disk0, disk, owners[s]) && NoSurplus(v.clusterSize, w.n0, |owners[s]|, w.end)
      ensures r == VolumeFull ==> w.end > Times(|owners[s]|, v.clusterSize) && FreeClusters(fat, v.total) == {}
      ensures r == Done ==> i < |owners[s]| && owners[s][i] == cluster
      ensures r == Done ==> Writing(v, w.disk0, disk, w.n0, owners[s], w.p, buf, i, offset, w.end)
    {
      var rest := buf;
      ghost var done: seq<Byte> := [];
      cluster, offset, i := current, position, i0;
      ChainPlaced(fat, v.total, owners[s]);
      WriteStarts(v, disk, owners[s], i, offset, w.end);
      assert owners == old(owners)[s := owners[s]];
      while rest != []
        invariant Valid() && Lost() == old(Lost())
        invariant Grown(old(owners), owners, s)
        invariant i < |owners[s]| && owners[s][i] == cluster
        invariant Writing(v, w.disk0, disk, w.n0, owners[s], w.p, done, i, offset, w.end)
        invariant done + rest == buf
        decreases |rest|
      {
        var chunk: nat;
        ghost var before := owners;
        r, cluster, offset, chunk, i := WriteSome(cluster, offset, rest, s, i, w, done);
        if r != Done {
          return;
        }
        GrownAgain(old(owners), before, owners, s);
        MoveChunk(done, rest, chunk);
        done, rest := done + rest[..chunk], rest[chunk..];
      }
      assert done == buf;
      r := Done;
    }

    /** fat32_write from position (i0, offset) of the file's chain. */
    method Write(file: File, buf: seq<Byte>, ghost i0: nat) returns (r: WriteResult, ghost i: nat)
      requires Valid() && InChain(file, i0)
      modifies this, file
      ensures Valid() && Lost() == old(Lost()) && file.start == old(file.start)
      ensures Grown(old(owners), owners, file.start) && Placed(owners[file.start])
      ensures OutsideKept(v, old(disk), disk, owners[file.start])
      ensures var end := Times(i0, v.clusterSize) + old(file.offset) + |buf|;
              NoSurplus(v.clusterSize, |old(owners[file.start])|, |owners[file.start]|, end) &&
              (r == Done ==> end <= Times(|owners[file.start]|, v.clusterSize)) &&
              (r == VolumeFull ==> end > Times(|owners[file.start]|, v.clusterSize) && FreeClusters(fat, v.total) == {})
      ensures r == Done ==>
                Written(v, old(disk), disk, owners[file.start], Times(i0, v.clusterSize) + old(file.offset), buf)
      ensures r == Done ==>
                && i < |owners[file.start]| && owners[file.start][i] == file.current && file.offset <= v.clusterSize
                && Times(i, v.clusterSize) + file.offset == Times(i0, v.clusterSize) + old(file.offset) + |buf|
                && file.size == Max(old(file.size), file.offset) && (buf != [] ==> file.offset > 0)
      ensures r != Done ==>
                file.current == old(file.current) && file.offset == old(file.offset) && file.size == old(file.size)
    {
      ghost var p := Times(i0, v.clusterSize) + file.offset;
      var cluster, offset;
      r, cluster, offset, i :=
        WriteAll(file.current, file.offset, buf, file.start, i0, WriteGoal(disk, |owners[file.start]|, p, p + |buf|));
      if r != Done {
        return;
      }
      WriteEnds(v, old(disk), disk, |old(owners[file.start])|, owners[file.start], p, buf, i, offset);
      file.current, file.offset := cluster, offset;
      if file.offset > file.size {
        file.size := file.offset;
      }
    }

    // -------------------------------------------------------------- reading

    /** One turn of fat32_read's loop: at most n bytes of one sector, and the cursor after them. */
    method ReadSome(cluster: nat, offset: nat, n: nat) returns (ok: bool, data: seq<Byte>, next: nat, o: nat)
      requires cluster >= 2 && n > 0 && Covers(fat, v.total)
      ensures ok ==>
                0 < |data| <= n && offset % SECTOR + |data| <= SECTOR &&
                (|data| == n || offset % SECTOR + |data| == SECTOR)
      ensures ok ==> FromSector(v, disk, cluster, offset, data)
      ensures ok && offset + |data| >= v.clusterSize ==> next == NextCluster(fat, v.total, cluster) && o == 0
      ensures ok && offset + |data| < v.clusterSize ==> next == cluster && o == offset + |data|
    {
      var temp: Sector;
      ok, temp := ReadSector(v.Lba(cluster) + offset / SECTOR);
      var byteOff := offset % SECTOR;
      var chunk: nat := if n > SECTOR - byteOff then SECTOR - byteOff else n;
      data, next, o := temp[byteOff..byteOff + chunk], cluster, offset + chunk;
      if o >= v.clusterSize {
        next, o := NextCluster(fat, v.total, cluster), 0;
      }
    }

    /** fat32_read's loop. */
    method ReadAll(current: nat, position: nat, size: nat, ghost chain: seq<nat>, ghost i0: nat)
      returns (ok: bool, out: seq<Byte>, cluster: nat, offset: nat, ghost i: nat)
      requires v.Ok() && Covers(fat, v.total) && IsChain(fat, v.total, chain) && Placed(chain)
      requires i0 < |chain| && chain[i0] == current && position <= v.clusterSize
      ensures ok ==> out == ReadBytes(v, disk, chain, i0, position, size)
      ensures ok ==> ReadSoFar(v, disk, chain, i0, position, size, out, i, offset)
      ensures ok ==> if i < |chain| then cluster == chain[i] else cluster >= FAT_EOF
    {
      ok, out, cluster, offset, i := true, [], current, position, i0;
      NextInChain(fat, v.total, chain, i);
      ReadStarts(v, disk, chain, i, offset, size);
      while |out| < size && cluster < FAT_EOF && cluster >= 2
        invariant i <= |chain|
        invariant if i < |chain| then cluster == chain[i] && 2 <= cluster < FAT_EOF else cluster >= FAT_EOF
        invariant ReadSoFar(v, disk, chain, i0, position, size, out, i, offset)
        decreases size - |out|
      {
        var data, next, o;
        ok, data, next, o := ReadSome(cluster, offset, size - |out|);
        if !ok {
          return;
        }
        NextInChain(fat, v.total, chain, i);
        ghost var i' := if offset + |data| < v.clusterSize then i else i + 1;
        ReadTurn(v, disk, chain, i0, position, size, out, i, offset, data, out + data, i', o);
        out, cluster, offset, i := out + data, next, o, i';
      }
      ReadDone(v, disk, chain, i0, position, size, out, i, offset);
    }

    /** fat32_read from position (i0, offset) of the file's chain. A cursor past the end of its chain, or
        of a file without clusters, delivers nothing. */
    method Read(file: File, size: nat, ghost i0: nat) returns (r: Option<seq<Byte>>, ghost i: nat)
      requires Valid() && (NoCluster(file.current) || InChain(file, i0))
      modifies file
      ensures file.start == old(file.start) && file.size == old(file.size)
      ensures old(NoCluster(file.current)) ==> r == Some([]) && unchanged(file)
      ensures r.None? ==> unchanged(file)
      ensures !old(NoCluster(file.current)) ==> file.start in owners && Placed(owners[file.start])
      ensures r.Some? && !old(NoCluster(file.current)) ==>
                && r.value == ReadBytes(v, disk, owners[file.start], i0, old(file.offset), size)
                && if i < |owners[file.start]| then file.current == owners[file.start][i] else file.current >= FAT_EOF
      ensures r.Some? && !old(NoCluster(file.current)) && old(file.offset) < v.clusterSize ==>
                Times(i, v.clusterSize) + file.offset == Times(i0, v.clusterSize) + old(file.offset) + |r.value| &&
                  file.offset < v.clusterSize
    {
      i := 0;
      if NoCluster(file.current) {
        r := Some([]);
        return;
      }
      ghost var chain := owners[file.start];
      ChainPlaced(fat, v.total, chain);
      var ok, out, cluster, offset;
      ok, out, cluster, offset, i := ReadAll(file.current, file.offset, size, chain, i0);
      if !ok {
        r := None;
        return;
      }
      file.current, file.offset := cluster, offset;
      r := Some(out);
    }

    /** The cursor is at offset `file.offset` of cluster i of the file's chain. */
    ghost predicate InChain(file: File, i: nat)
      reads this, file
    {
      && file.start in owners && i < |owners[file.start]| && owners[file.start][i] == file.current
      && file.offset <= v.clusterSize
    }

    /** fat32_seek: the cursor for a position, which is first clipped to the file's size. */
    method Seek(file: File, position: nat) returns (ghost i: nat)
      requires Valid() && (file.start in owners || NoCluster(file.start))
      modifies file
      ensures file.start == old(file.start) && file.size == old(file.size)
      ensures file.start in owners ==>
                && i < |owners[file.start]| && file.current == owners[file.start][i]
                && Times(i, v.clusterSize) + file.offset == (if position > file.size then file.size else position)
                && (file.offset < v.clusterSize || i + 1 == |owners[file.start]|)
      ensures file.start !in owners ==>
                file.current == file.start && file.offset == if position > file.size then file.size else position
    {
      var offset: nat := if position > file.size then file.size else position;
      var cluster, remaining: nat := file.start, offset;
      i := 0;
      while remaining >= v.clusterSize
        invariant unchanged(file)
        invariant file.start in owners ==> i < |owners[file.start]| && cluster == owners[file.start][i]
        invariant file.start in owners ==> Times(i, v.clusterSize) + remaining == offset
        invariant file.start !in owners ==> cluster == file.start && remaining == offset
        decreases remaining
      {
        if file.start in owners {
          NextInChain(fat, v.total, owners[file.start], i);
        }
        var next := NextCluster(fat, v.total, cluster);
        if next >= FAT_EOF {
          break;
        }
        remaining, cluster, i := remaining - v.clusterSize, next, i + 1;
      }
      file.current, file.offset := cluster, remaining;
    }

    // -------------------------------------------------------------- release

    /** fat32_free_cluster_chain. */
    method FreeClusterChain(start: nat)
      requires StaysInside(fat, start)
      modifies this`fat
      ensures |fat| == |old(fat)|
      ensures forall c: nat :: c < |fat| ==> fat[c] == if Reaches(old(fat), start, c) then 0 else old(fat)[c]
    {
      var cluster: nat := start;
      ghost var fat0, seen: seq<nat>, circled := fat, [], false;
      while cluster >= 2 && cluster < FAT_EOF
        invariant Cleared(fat0, fat, seen) && IsPath(fat0, seen) && Distinct(seen)
        invariant |seen| <= |fat0|
        invariant if circled then !Goes(cluster) && Exhausted(fat0, start, seen)
                  else if seen == [] then cluster == start
                  else seen[0] == start && Link(fat0, seen[|seen| - 1]) == cluster
        invariant !circled ==> Bounded(fat0, cluster)
        decreases |fat0| - |seen|, if circled then 0 else 1
      {
        var next := fat[cluster] % TWO_28;
        ClearOne(fat0, fat, seen, cluster);
        if cluster !in seen {
          PathStep(fat0, start, seen, cluster);
          seen := seen + [cluster];
          AtMost(fat0, seen);
        } else {
          circled := true;
        }
        fat := fat[cluster := 0];
        if next >= FAT_EOF {
          cluster := next;
          break;
        }
        cluster := next;
      }
      forall c: nat ensures c in seen <==> Reaches(fat0, start, c) {
        SeenIsReached(fat0, start, seen, c);
      }
    }

    // -------------------------------------------------------------- several sectors at once

    /** disk_read. */
    method DiskRead(base: nat, count: nat) returns (ok: bool, data: seq<Sector>)
      ensures ok ==> |data| == count && forall k :: 0 <= k < count ==> data[k] == Sec(disk, base + k)
    {
      ok, data := true, [];
      while |data| < count
        invariant |data| <= count && forall k :: 0 <= k < |data| ==> data[k] == Sec(disk, base + k)
      {
        var s: Sector;
        ok, s := ReadSector(base + |data|);
        if !ok {
          return;
        }
        data := data + [s];
      }
    }

    /** disk_write: the log shows the disk after each sector. */
    method DiskWrite(base: nat, data: seq<Sector>) returns (ok: bool)
      modifies this`disk, this`log
      ensures ok ==> Stored(old(disk), disk, base, data, |data|)
      ensures old(log) <= log && |log| <= |old(log)| + |data|
      ensures forall k :: |old(log)| <= k < |log| ==> Stored(old(disk), log[k], base, data, k - |old(log)| + 1)
    {
      ok := true;
      var i := 0;
      while i < |data|
        invariant i <= |data| && ok && Stored(old(disk), disk, base, data, i)
        invariant old(log) <= log && |log| == |old(log)| + i
        invariant forall k :: |old(log)| <= k < |log| ==> Stored(old(disk), log[k], base, data, k - |old(log)| + 1)
      {
        StoreNext(old(disk), disk, base, data, i);
        ok := WriteSector(base + i, data[i]);
        if !ok {
          return;
        }
        i := i + 1;
      }
    }

    /** fat32_flush: the cached table, to the first copy on disk. */
    method Flush() returns (ghost ok: bool)
      requires |fat| == 128 * v.fatSectors
      modifies this`disk, this`log
      ensures ok ==> Stored(old(disk), disk, v.fatStart, TableSectors(fat, v.fatSectors), v.fatSectors)
      ensures old(log) <= log && |log| <= |old(log)| + v.fatSectors
      ensures forall k :: |old(log)| <= k < |log| ==>
                Stored(old(disk), log[k], v.fatStart, TableSectors(fat, v.fatSectors), k - |old(log)| + 1)
    {
      if v.fatSectors == 0 {
        ok := true;
        return;
      }
      var done := DiskWrite(v.fatStart, TableSectors(fat, v.fatSectors));
      ok := done;
    }

    // -------------------------------------------------------------- the root directory

    /** Byte by byte, ignoring case in the entry. */
    method MatchName(img: seq<Sector>, e: nat, name: ShortName) returns (same: bool)
      requires e < PER_SECTOR * |img|
      ensures same <==> Matches(img, e, name)
    {
      var j := 0;
      while j < 11
        invariant j <= 11 && forall f: nat :: f < j ==> Upper(Field(img, e, f)) == name[f]
      {
        if Upper(Field(img, e, j)) != name[j] {
          return false;
        }
        j := j + 1;
      }
      return true;
    }

    /** The first listed entry of one directory cluster that has the name. */
    method ScanCluster(img: seq<Sector>, name: ShortName) returns (found: bool, e: nat)
      ensures found ==> Hit(img, e, name) && forall e': nat :: e' < e ==> !Hit(img, e', name)
      ensures !found ==> forall e': nat :: !Hit(img, e', name)
    {
      found, e := false, 0;
      while e < PER_SECTOR * |img|
        invariant e <= PER_SECTOR * |img|
        invariant forall e': nat :: e' < e ==> Field(img, e', 0) != 0 && !Hit(img, e', name)
      {
        if Field(img, e, 0) == 0 {
          return;
        }
        if Field(img, e, 0) != DELETED && Field(img, e, 11) != LONG_NAME {
          found := MatchName(img, e, name);
          if found {
            return;
          }
        }
        e := e + 1;
      }
    }

    /** The directory's cluster as its scans read it. */
    method ReadCluster(c: nat) returns (ok: bool, img: seq<Sector>)
      requires c >= 2
      ensures ok ==> img == Image(v, disk, c)
    {
      ok, img := DiskRead(v.Lba(c), v.perCluster);
    }

    /** The scan that opens, deletes and updates files: the first listed entry with the name. */
    method FindEntry(name: ShortName) returns (r: Lookup, img: seq<Sector>, ghost i: nat)
      requires Valid() && v.root in owners
      ensures Placed(owners[v.root])
      ensures r.Found? ==> i < |owners[v.root]| && r.cluster == owners[v.root][i] && img == Image(v, disk, r.cluster)
      ensures r.Found? ==> FirstHit(v, disk, owners[v.root], i, r.entry, name)
      ensures r.Absent? ==> NoHit(v, disk, owners[v.root], name)
    {
      ghost var dir := owners[v.root];
      ChainPlaced(fat, v.total, dir);
      var cluster: nat := v.root;
      i, img := 0, [];
      NextInChain(fat, v.total, dir, 0);
      while cluster < FAT_EOF && cluster >= 2
        invariant i <= |dir| && if i < |dir| then cluster == dir[i] && 2 <= cluster < FAT_EOF else cluster >= FAT_EOF
        invariant forall j: nat, e: nat :: j < i ==> !Hit(Image(v, disk, dir[j]), e, name)
        decreases |dir| - i
      {
        var ok;
        ok, img := ReadCluster(cluster);
        if !ok {
          r := Failed;
          return;
        }
        var found, e := ScanCluster(img, name);
        if found {
          r := Found(cluster, e);
          return;
        }
        NextInChain(fat, v.total, dir, i);
        cluster, i := NextCluster(fat, v.total, cluster), i + 1;
      }
      r := Absent;
    }

    /** fat32_open: a cursor at the start of the first listed file with the name. */
    method Open(name: ShortName) returns (r: Lookup, file: File?, ghost i: nat)
      requires Valid() && v.root in owners
      ensures Placed(owners[v.root])
      ensures r.Found? <==> file != null
      ensures r.Found? ==> FirstHit(v, disk, owners[v.root], i, r.entry, name) && r.cluster == owners[v.root][i]
      ensures r.Found? ==> fresh(file) && file.start == StartOf(Image(v, disk, r.cluster), r.entry)
      ensures r.Found? ==> file.current == file.start && file.offset == 0
      ensures r.Found? ==> file.size == SizeOf(Image(v, disk, r.cluster), r.entry)
      ensures r.Absent? ==> NoHit(v, disk, owners[v.root], name)
    {
      var img;
      r, img, i := FindEntry(name);
      file := null;
      if r.Found? {
        file := new File(StartOf(img, r.entry), SizeOf(img, r.entry));
      }
    }

    /** The chain of a deleted file is given back; a file without clusters has none. */
    method Release(s: nat)
      requires Valid() && (s == 0 || s in owners)
      modifies this`fat, this`owners
      ensures Valid() && Lost() == old(Lost())
      ensures owners == Without(old(owners), s) && Cleared(old(fat), fat, Gone(old(owners), s))
    {
      if s != 0 {
        ghost var chain := owners[s];
        ChainStaysInside(fat, v.total, chain);
        FreeClusterChain(s);
        forall c: nat ensures Reaches(old(fat), s, c) <==> c in chain {
          ChainIsReached(old(fat), v.total, chain, c);
        }
        DeleteOwned(old(fat), fat, v.total, owners, s);
        owners := owners - {s};
      }
    }

    /** The second half of fat32_delete: its entry is marked, its chain goes. */
    method ReleaseAndFlush(s: nat) returns (ghost flushed: bool)
      requires Valid() && v.root in owners && Placed(owners[v.root])
      requires (s == 0 || s in owners) && Apart(owners[v.root], Gone(owners, s))
      requires forall i: nat, e: nat ::
                 At(v, disk, owners[v.root], i, e) ==>
                   Spared(owners, Gone(owners, s), Start(v, disk, owners[v.root], i, e))
      requires DiskTable(v, disk) == fat ==> CrashSafe(v, disk, owners)
      modifies this
      ensures Valid() && Lost() == old(Lost()) && owners == Without(old(owners), s)
      ensures old(log) <= log
      ensures old(DiskTable(v, disk) == fat) ==>
                forall k :: |old(log)| <= k < |log| ==> CrashSafe(v, log[k], old(owners))
      ensures flushed ==>
                Stored(old(disk), disk, v.fatStart, TableSectors(fat, v.fatSectors), v.fatSectors) &&
                DiskTable(v, disk) == fat
    {
      ghost var gone, synced := Gone(owners, s), DiskTable(v, disk) == fat;
      Release(s);
      flushed := Flush();
      if synced {
        forall k | |old(log)| <= k < |log| ensures CrashSafe(v, log[k], old(owners)) {
          FlushingIsSafe(v, old(disk), log[k], old(owners), fat, gone, k - |old(log)| + 1);
        }
      }
      if flushed {
        FlushedAll(v, old(disk), disk, fat);
      }
    }

    /** The first half: the entry is marked on disk. */
    method MarkEntry(c: nat, img: seq<Sector>, e: nat, ghost i: nat) returns (ok: bool)
      requires Valid() && DirOk(v, disk, owners) && At(v, disk, owners[v.root], i, e)
      requires c == owners[v.root][i] && img == Image(v, disk, c)
      modifies this`disk, this`log
      ensures old(log) <= log
      ensures old(DiskTable(v, disk) == fat) ==> forall k :: |old(log)| <= k < |log| ==> CrashSafe(v, log[k], owners)
      ensures ok ==> DiskTable(v, disk) == DiskTable(v, old(disk)) && OneLess(v, old(disk), disk, owners[v.root], i, e)
      ensures ok && old(DiskTable(v, disk) == fat) ==> CrashSafe(v, disk, owners)
      ensures ok && DirTidy(v, old(disk), owners[v.root]) ==> DirTidy(v, disk, owners[v.root])
    {
      ok := DiskWrite(v.Lba(c), MarkDeleted(img, e));
      if DiskTable(v, old(disk)) == fat {
        forall k | |old(log)| <= k < |log| ensures CrashSafe(v, log[k], owners) {
          MarkingIsSafe(v, old(disk), log[k], owners, i, e, k - |old(log)| + 1);
        }
      }
      if ok {
        TableKept(v, old(disk), disk, v.Lba(c), MarkDeleted(img, e), v.perCluster);
        if DiskTable(v, old(disk)) == fat {
          MarkingIsSafe(v, old(disk), disk, owners, i, e, v.perCluster);
        }
        MarkedOneLess(v, old(disk), disk, owners[v.root], i, e);
        if DirTidy(v, old(disk), owners[v.root]) {
          MarkedDirTidy(v, old(disk), disk, owners[v.root], i, e);
        }
      }
    }

    /** fat32_delete. If the table on disk is up to date when it starts, then after every sector write
        the directory and each file still listed have their chains on disk. In the end the first listed
        entry with the name is gone, and exactly its chain is free. */
    method Delete(name: ShortName) returns (r: Lookup, ghost i: nat, ghost flushed: bool)
      requires Valid() && DirOk(v, disk, owners)
      modifies this
      ensures Valid() && Lost() == old(Lost()) && v.root in owners && owners[v.root] == old(owners[v.root])
      ensures Placed(owners[v.root])
      ensures old(log) <= log
      ensures old(DiskTable(v, disk) == fat) ==>
                forall k :: |old(log)| <= k < |log| ==> CrashSafe(v, log[k], old(owners))
      ensures !r.Found? ==> fat == old(fat) && owners == old(owners)
      ensures r.Absent? ==> disk == old(disk) && NoHit(v, disk, owners[v.root], name)
      ensures r.Found? ==> FirstHit(v, old(disk), owners[v.root], i, r.entry, name)
      ensures r.Found? ==> owners == Without(old(owners), Start(v, old(disk), owners[v.root], i, r.entry))
      ensures r.Found? && flushed ==>
                OneLess(v, old(disk), disk, owners[v.root], i, r.entry) && DirOk(v, disk, owners) &&
                  DiskTable(v, disk) == fat
      ensures r.Found? && flushed && DirTidy(v, old(disk), owners[v.root]) ==> DirTidy(v, disk, owners[v.root])
    {
      ghost var disk0, dir := disk, owners[v.root];
      flushed := false;
      var img;
      r, img, i := FindEntry(name);
      if !r.Found? {
        return;
      }
      var first, e := StartOf(img, r.entry), r.entry;
      assert At(v, disk0, dir, i, e) && Start(v, disk0, dir, i, e) == first;
      var ok := MarkEntry(r.cluster, img, e, i);
      if !ok {
        r := Failed;
        return;
      }
      ghost var disk1 := disk;
      OthersSpared(v, fat, disk0, disk1, owners, i, e);
      DirOkWithout(v, disk0, disk1, owners, i, e);
      flushed := ReleaseAndFlush(first);
      if flushed {
        OneLessFlushed(v, disk0, disk1, disk, dir, i, e, TableSectors(fat, v.fatSectors), v.fatSectors);
        DirOkWithout(v, disk0, disk, old(owners), i, e);
        FlushKeepsDir(v, disk1, disk, dir, TableSectors(fat, v.fatSectors), v.fatSectors);
      }
    }

    /** The first free entry of the directory. */
    method FindSlot() returns (r: Lookup, img: seq<Sector>, ghost i: nat)
      requires Valid() && v.root in owners
      ensures Placed(owners[v.root])
      ensures r.Found? ==>
                i < |owners[v.root]| && r.cluster == owners[v.root][i] && img == Image(v, disk, r.cluster) &&
                FirstSlot(img, r.entry)
      ensures r.Found? ==> forall j: nat, e: nat :: j < i ==> !IsSlot(Image(v, disk, owners[v.root][j]), e)
      ensures r.Absent? ==>
                forall j: nat, e: nat :: j < |owners[v.root]| ==> !IsSlot(Image(v, disk, owners[v.root][j]), e)
    {
      ghost var dir := owners[v.root];
      ChainPlaced(fat, v.total, dir);
      var cluster: nat := v.root;
      i, img := 0, [];
      NextInChain(fat, v.total, dir, 0);
      while cluster < FAT_EOF && cluster >= 2
        invariant i < |dir| && cluster == dir[i] && 2 <= cluster < FAT_EOF
        invariant forall j: nat, e: nat :: j < i ==> !IsSlot(Image(v, disk, dir[j]), e)
        decreases |dir| - i
      {
        var ok;
        ok, img := ReadCluster(cluster);
        if !ok {
          r := Failed;
          return;
        }
        var e := 0;
        while e < PER_SECTOR * |img|
          invariant e <= PER_SECTOR * |img| && forall x: nat :: x < e ==> !IsSlot(img, x)
        {
          if Field(img, e, 0) == 0 || Field(img, e, 0) == DELETED {
            r := Found(cluster, e);
            return;
          }
          e := e + 1;
        }
        NextInChain(fat, v.total, dir, i);
        var next := NextCluster(fat, v.total, cluster);
        if next >= FAT_EOF {
          break;
        }
        cluster, i := next, i + 1;
      }
      r := Absent;
    }

    /** The lowest free cluster becomes a chain of its own. */
    method ClaimCluster() returns (c: Entry)
      requires Valid()
      modifies this`fat, this`owners
      ensures Valid() && Lost() == old(Lost())
      ensures c == 0 ==> fat == old(fat) && owners == old(owners) && forall x: nat :: !IsFree(fat, v.total, x)
      ensures c != 0 ==> IsFree(old(fat), v.total, c) && forall x: nat :: x < c ==> !IsFree(old(fat), v.total, x)
      ensures c != 0 ==> c !in old(owners) && owners == old(owners)[c as nat := [c as nat]]
    {
      var found := FindFreeCluster();
      c := found;
      if c != 0 {
        CreateOwned(fat, v.total, owners, c);
        fat := fat[c := FAT_EOF];
        owners := owners[c as nat := [c as nat]];
      }
    }

    /** The new entry goes to disk, and then the table; a failure of either goes unnoticed. */
    method StoreEntry(
      c: nat, img: seq<Sector>, e: nat, name: ShortName, stamp: Stamp, first: Entry, ghost owners0: Owners,
      ghost i: nat)
      returns (ghost synced: bool)
      requires Valid() && v.root in owners0 && Placed(owners0[v.root]) && Distinct(owners0[v.root])
      requires first !in owners0 && first != 0
      requires i < |owners0[v.root]| && c == owners0[v.root][i] && img == Image(v, disk, c) && FirstSlot(img, e)
      modifies this`disk, this`log
      ensures synced ==> DiskTable(v, disk) == fat
      ensures synced && Proper(name) && DirOk(v, old(disk), owners0) && DirTidy(v, old(disk), owners0[v.root]) ==>
                && OneMore(v, old(disk), disk, owners0[v.root], i, e, first)
                && Hit(Image(v, disk, c), e, name) && SizeOf(Image(v, disk, c), e) == 0
                && DirOk(v, disk, owners0[first as nat := [first as nat]]) && DirTidy(v, disk, owners0[v.root])
    {
      var ok := DiskWrite(v.Lba(c), AddEntry(img, e, name, stamp, first));
      ghost var disk1 := disk;
      synced := Flush();
      if synced {
        FlushedAll(v, disk1, disk, fat);
      }
      synced := synced && ok;
      if synced && Proper(name) && DirOk(v, old(disk), owners0) && DirTidy(v, old(disk), owners0[v.root]) {
        CreatedDir(v, old(disk), disk1, disk, owners0, i, e, name, stamp, first, TableSectors(fat, v.fatSectors));
      }
    }

    /** fat32_create_file: the first free entry gets the name and the first free cluster. */
    method Create(name: ShortName, stamp: Stamp) returns (r: Lookup, file: File?, ghost i: nat, ghost synced: bool)
      requires Valid() && v.root in owners
      modifies this
      ensures Valid() && Lost() == old(Lost()) && v.root in owners && owners[v.root] == old(owners[v.root])
      ensures Placed(owners[v.root])
      ensures r.Found? <==> file != null
      ensures !r.Found? ==> fat == old(fat) && owners == old(owners) && disk == old(disk)
      ensures r.Found? ==> fresh(file) && file.current == file.start && file.size == 0 && file.offset == 0
      ensures r.Found? ==> IsFree(old(fat), v.total, file.start)
      ensures r.Found? ==> forall x: nat :: x < file.start ==> !IsFree(old(fat), v.total, x)
      ensures r.Found? ==> file.start !in old(owners) && owners == old(owners)[file.start := [file.start]]
      ensures r.Found? ==>
                i < |owners[v.root]| && r.cluster == owners[v.root][i] &&
                FirstSlot(Image(v, old(disk), r.cluster), r.entry)
      ensures r.Found? && synced ==> DiskTable(v, disk) == fat
      ensures r.Found? && synced && Proper(name) && DirOk(v, old(disk), old(owners)) &&
              DirTidy(v, old(disk), owners[v.root]) ==>
                && OneMore(v, old(disk), disk, owners[v.root], i, r.entry, file.start)
                && Hit(Image(v, disk, r.cluster), r.entry, name) && SizeOf(Image(v, disk, r.cluster), r.entry) == 0
                && DirOk(v, disk, owners) && DirTidy(v, disk, owners[v.root])
    {
      ghost var owners0 := owners;
      file, synced := null, false;
      var img;
      r, img, i := FindSlot();
      if !r.Found? {
        return;
      }
      var c := ClaimCluster();
      if c == 0 {
        r := Failed;
        return;
      }
      file := new File(c, 0);
      synced := StoreEntry(r.cluster, img, r.entry, name, stamp, c, owners0, i);
    }
  }
}
