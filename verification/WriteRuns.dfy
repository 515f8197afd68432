/**
 What a sequence of vfs_write calls leaves behind (kernel/InitKernel/vfs.c over
 kernel/VFSAdapters/fat32_vfs.c): each call seeks to the descriptor's position, clipped to the
 recorded size, and records the in-cluster offset as the new size where that is larger.
 */
module WriteRuns {
  import opened Words
  import opened Collections
  import opened FatChains
  import opened FatData

  function Min(a: nat, b: nat): nat
  {
    if a < b then a else b
  }

  /** The recorded size of a file and the position of a descriptor on it. */
  datatype Cursor = Cursor(size: nat, pos: nat)
  {
    /** Where the next write goes. */
    function Start(): nat { Min(pos, size) }
  }

  /** The offset of position `end` in its cluster; the end of a cluster counts as its last offset. */
  function EndOffset(cs: nat, end: nat): (o: nat)
    requires cs > 0
    ensures o <= cs && o <= end && (o == end <==> end <= cs)
    decreases end
  {
    if end <= cs then end else EndOffset(cs, end - cs)
  }

  lemma {:induction false} EndOffsetIs(cs: nat, i: nat, o: nat)
    requires 0 < o <= cs
    ensures EndOffset(cs, Times(i, cs) + o) == o
  {
    if i > 0 {
      EndOffsetIs(cs, i - 1, o);
    }
  }

  /** The cursor after n bytes have been written. */
  function Step(cs: nat, c: Cursor, n: nat): Cursor
    requires cs > 0
  {
    Cursor(if n == 0 then c.size else Max(c.size, EndOffset(cs, c.Start() + n)), c.pos + n)
  }

  function After(cs: nat, c: Cursor, bufs: seq<seq<Byte>>): Cursor
    requires cs > 0
  {
    if bufs == [] then c
    else Step(cs, After(cs, c, bufs[..|bufs| - 1]), |bufs[|bufs| - 1]|)
  }

  /** Every write ends within `length` bytes. */
  ghost predicate Fits(cs: nat, c: Cursor, length: nat, bufs: seq<seq<Byte>>)
    requires cs > 0
  {
    bufs == [] ||
    (var n := |bufs| - 1;
     Fits(cs, c, length, bufs[..n]) && After(cs, c, bufs[..n]).Start() + |bufs[n]| <= length)
  }

  /** The bytes after the writes, each at the place where the code puts it. */
  ghost function Replayed(cs: nat, c: Cursor, base: seq<Byte>, bufs: seq<seq<Byte>>): (data: seq<Byte>)
    requires cs > 0 && Fits(cs, c, |base|, bufs)
    ensures |data| == |base|
  {
    if bufs == [] then base
    else
      var n := |bufs| - 1;
      Overwrite(Replayed(cs, c, base, bufs[..n]), After(cs, c, bufs[..n]).Start(), bufs[n])
  }

  lemma {:induction false} ReplayedLonger(cs: nat, c: Cursor, base: seq<Byte>, tail: seq<Byte>, bufs: seq<seq<Byte>>)
    requires cs > 0 && Fits(cs, c, |base|, bufs)
    ensures Fits(cs, c, |base + tail|, bufs)
    ensures Replayed(cs, c, base + tail, bufs) == Replayed(cs, c, base, bufs) + tail
    decreases |bufs|
  {
    if bufs != [] {
      var n := |bufs| - 1;
      ReplayedLonger(cs, c, base, tail, bufs[..n]);
    }
  }

  // ---------------------------------------------------------------- all the bytes, in order

  function Flat(pieces: seq<seq<Byte>>): seq<Byte>
  {
    if pieces == [] then [] else Flat(pieces[..|pieces| - 1]) + pieces[|pieces| - 1]
  }

  /** Every write starts at the descriptor's position, that is, where the one before it ended. */
  ghost predicate InOrder(cs: nat, c: Cursor, bufs: seq<seq<Byte>>)
    requires cs > 0
  {
    bufs == [] ||
    (var n := |bufs| - 1;
     InOrder(cs, c, bufs[..n]) && After(cs, c, bufs[..n]).Start() == After(cs, c, bufs[..n]).pos)
  }

  lemma {:induction false} PosAfter(cs: nat, c: Cursor, bufs: seq<seq<Byte>>)
    requires cs > 0
    ensures After(cs, c, bufs).pos == c.pos + |Flat(bufs)|
    decreases |bufs|
  {
    if bufs != [] {
      PosAfter(cs, c, bufs[..|bufs| - 1]);
    }
  }

  /** No number of writes makes a file larger than one cluster, or larger than it was. */
  lemma {:induction false} SizeStaysSmall(cs: nat, c: Cursor, bufs: seq<seq<Byte>>)
    requires cs > 0
    ensures c.size <= After(cs, c, bufs).size <= Max(c.size, cs)
    decreases |bufs|
  {
    if bufs != [] {
      SizeStaysSmall(cs, c, bufs[..|bufs| - 1]);
    }
  }

  /** 600 bytes written to an empty file with 512-byte clusters leave a size of 88, and the next write
      goes back to position 88 although the descriptor is at 600. */
  lemma {:induction false} SizeTooSmall(buf: seq<Byte>)
    requires |buf| == 600
    ensures After(512, Cursor(0, 0), [buf]) == Cursor(88, 600)
    ensures After(512, Cursor(0, 0), [buf]).Start() == 88
  {
    assert [buf][..0] == [];
    assert EndOffset(512, 600) == EndOffset(512, 88) == 88;
  }

  /** After writes in order, the next one is in order iff the position is within the first cluster or
      the original size. */
  lemma {:induction false} NextInOrder(cs: nat, c: Cursor, bufs: seq<seq<Byte>>)
    requires cs > 0 && InOrder(cs, c, bufs) && c.pos <= c.size
    ensures After(cs, c, bufs).pos <= After(cs, c, bufs).size <==> c.pos + |Flat(bufs)| <= Max(c.size, cs)
    decreases |bufs|
  {
    PosAfter(cs, c, bufs);
    SizeStaysSmall(cs, c, bufs);
    if bufs != [] {
      var n := |bufs| - 1;
      NextInOrder(cs, c, bufs[..n]);
      PosAfter(cs, c, bufs[..n]);
      SizeStaysSmall(cs, c, bufs[..n]);
    }
  }

  /** Writes land one behind the other exactly when the descriptor starts inside the file and all but
      the last of them end within the first cluster or the original size. */
  lemma {:induction false} InOrderIff(cs: nat, c: Cursor, bufs: seq<seq<Byte>>)
    requires cs > 0 && bufs != []
    ensures InOrder(cs, c, bufs) <==>
            c.pos <= c.size && c.pos + |Flat(bufs[..|bufs| - 1])| <= Max(c.size, cs)
    decreases |bufs|
  {
    var n := |bufs| - 1;
    var front := bufs[..n];
    if n == 0 {
      assert front == [];
    } else {
      InOrderIff(cs, c, front);
      if InOrder(cs, c, front) {
        NextInOrder(cs, c, front);
      } else {
        assert |Flat(front[..n - 1])| <= |Flat(front)|;
      }
    }
  }

  /** Writes in order leave one contiguous stretch. */
  lemma {:induction false} InOrderJoins(cs: nat, c: Cursor, base: seq<Byte>, bufs: seq<seq<Byte>>)
    requires cs > 0 && Fits(cs, c, |base|, bufs) && InOrder(cs, c, bufs) && c.pos <= |base|
    ensures c.pos + |Flat(bufs)| <= |base|
    ensures Replayed(cs, c, base, bufs) == Overwrite(base, c.pos, Flat(bufs))
    decreases |bufs|
  {
    if bufs != [] {
      var n := |bufs| - 1;
      InOrderJoins(cs, c, base, bufs[..n]);
      PosAfter(cs, c, bufs[..n]);
      OverwriteJoins(base, c.pos, Flat(bufs[..n]), bufs[n]);
    }
  }

  lemma {:induction false} OverwriteJoins(base: seq<Byte>, p: nat, data: seq<Byte>, more: seq<Byte>)
    requires p + |data| + |more| <= |base|
    ensures Overwrite(Overwrite(base, p, data), p + |data|, more) == Overwrite(base, p, data + more)
  {
  }

  // ---------------------------------------------------------------- the chain grows between writes

  lemma {:induction false} Appended(v: Volume, disk: Disk, chain: seq<nat>)
    requires Placed(chain) && chain != []
    ensures Contents(v, disk, chain) ==
            Contents(v, disk, chain[..|chain| - 1]) + ClusterBytes(v, disk, chain[|chain| - 1])
  {
  }

  lemma {:induction false} Regroup(all: seq<Byte>, front: seq<Byte>, a: seq<Byte>, b: seq<Byte>, c: seq<Byte>)
    requires all == front + c && front == a + b
    ensures all == a + (b + c)
  {
  }

  lemma {:induction false} NotBefore(chain: seq<nat>, longer: seq<nat>, k: nat)
    requires Distinct(longer) && chain <= longer && |chain| <= k < |longer|
    ensures longer[k] !in chain
  {
    forall i | 0 <= i < |chain| ensures chain[i] != longer[k] {
      assert chain[i] == longer[i];
    }
  }

  lemma {:induction false} ClusterKept(v: Volume, disk0: Disk, disk: Disk, chain: seq<nat>, c: nat)
    requires v.Ok() && Placed(chain) && c >= 2 && c !in chain && OutsideKept(v, disk0, disk, chain)
    ensures ClusterBytes(v, disk, c) == ClusterBytes(v, disk0, c)
  {
    forall o | 0 <= o < v.clusterSize ensures ByteIn(v, disk, c, o) == ByteIn(v, disk0, c, o) {
      OutsideByte(v, disk0, disk, chain, c, o);
    }
  }

  /** Clusters outside the chain still hold what they held. */
  lemma {:induction false} TailKept(v: Volume, disk0: Disk, disk: Disk, chain: seq<nat>, longer: seq<nat>)
      returns (tail: seq<Byte>)
    requires v.Ok() && Placed(longer) && Distinct(longer) && chain <= longer
    requires Placed(chain) && OutsideKept(v, disk0, disk, chain)
    ensures Contents(v, disk, longer) == Contents(v, disk, chain) + tail
    ensures Contents(v, disk0, longer) == Contents(v, disk0, chain) + tail
    decreases |longer|
  {
    if longer == chain {
      tail := [];
    } else {
      var n := |longer| - 1;
      var front, last := longer[..n], longer[n];
      assert chain <= front;
      var t := TailKept(v, disk0, disk, chain, front);
      NotBefore(chain, longer, n);
      ClusterKept(v, disk0, disk, chain, last);
      Appended(v, disk, longer);
      Appended(v, disk0, longer);
      var bytes := ClusterBytes(v, disk, last);
      tail := t + bytes;
      Regroup(Contents(v, disk, longer), Contents(v, disk, front), Contents(v, disk, chain), t, bytes);
      Regroup(Contents(v, disk0, longer), Contents(v, disk0, front), Contents(v, disk0, chain), t, bytes);
    }
  }

  /** The writes so far, seen on the chain as it is now. */
  ghost predicate Wrote(v: Volume, disk0: Disk, disk: Disk, chain: seq<nat>, c: Cursor, bufs: seq<seq<Byte>>)
  {
    && v.Ok() && Placed(chain) && Fits(v.clusterSize, c, |Contents(v, disk0, chain)|, bufs)
    && Contents(v, disk, chain) == Replayed(v.clusterSize, c, Contents(v, disk0, chain), bufs)
    && OutsideKept(v, disk0, disk, chain)
  }

  lemma {:induction false} WroteNothing(v: Volume, disk: Disk, chain: seq<nat>, c: Cursor)
    requires v.Ok() && Placed(chain)
    ensures Wrote(v, disk, disk, chain, c, [])
  {
  }

  lemma {:induction false} WroteLonger(
    v: Volume, disk0: Disk, disk: Disk, chain: seq<nat>, longer: seq<nat>, c: Cursor, bufs: seq<seq<Byte>>)
    requires Wrote(v, disk0, disk, chain, c, bufs) && Placed(longer) && Distinct(longer) && chain <= longer
    ensures Wrote(v, disk0, disk, longer, c, bufs)
  {
    var tail := TailKept(v, disk0, disk, chain, longer);
    ReplayedLonger(v.clusterSize, c, Contents(v, disk0, chain), tail, bufs);
    OutsideLonger(v, disk0, disk, chain, longer);
  }

  lemma {:induction false} OutsideLonger(v: Volume, disk0: Disk, disk: Disk, chain: seq<nat>, longer: seq<nat>)
    requires Placed(chain) && Placed(longer) && chain <= longer && OutsideKept(v, disk0, disk, chain)
    ensures OutsideKept(v, disk0, disk, longer)
  {
    forall lba: nat ensures Sec(disk, lba) == Sec(disk0, lba) || InClusters(v, longer, lba) {
      if InClusters(v, chain, lba) {
        var i: nat, s: nat :| IsSector(v, chain, i, s, lba);
        assert IsSector(v, longer, i, s, lba);
      }
    }
  }

  /** One more write, after which the chain is `longer`. */
  lemma {:induction false} WroteOneMore(
    v: Volume, disk0: Disk, disk: Disk, disk': Disk, chain: seq<nat>, longer: seq<nat>, c: Cursor,
    bufs: seq<seq<Byte>>, buf: seq<Byte>)
    requires Wrote(v, disk0, disk, chain, c, bufs) && Placed(longer) && Distinct(longer) && chain <= longer
    requires Written(v, disk, disk', longer, After(v.clusterSize, c, bufs).Start(), buf)
    requires OutsideKept(v, disk, disk', longer)
    ensures Wrote(v, disk0, disk', longer, c, bufs + [buf])
  {
    WroteLonger(v, disk0, disk, chain, longer, c, bufs);
    assert (bufs + [buf])[..|bufs|] == bufs;
    forall lba: nat ensures Sec(disk', lba) == Sec(disk0, lba) || InClusters(v, longer, lba) {
    }
  }
}
