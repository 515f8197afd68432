/**
 The descriptor layer (kernel/InitKernel/vfs.c) over the FAT32 file operations
 (kernel/VFSAdapters/fat32_vfs.c): every read and write seeks to the descriptor's position first.
 */
module Vfs {
  import opened Words
  import opened FatChains
  import opened FatData
  import opened FatReading
  import opened Fat32
  import opened WriteRuns

  const MAX_FDS: nat := 256

  /** A slot of the descriptor table; a free one has no node. */
  datatype Handle = Handle(node: File?, pos: nat)

  class Descriptors {
    const fs: Filesystem
    const table: array<Handle>

    ghost predicate Valid()
      reads this, fs, table
    {
      fs.Valid() && table.Length == MAX_FDS
    }

    predicate InUse(fd: int)
      reads table
      requires table.Length == MAX_FDS
    {
      0 <= fd < MAX_FDS && table[fd].node != null
    }

    /** The node is a file of the volume whose size fits its chain, or an empty file without one. */
    ghost predicate Backed(file: File)
      reads this, fs, file
      requires fs.Valid()
    {
      HasChain(file) || (file.start == 0 && file.size == 0)
    }

    ghost predicate HasChain(file: File)
      reads this, fs, file
      requires fs.Valid()
    {
      && file.start in fs.owners && Placed(fs.owners[file.start])
      && file.size <= Times(|fs.owners[file.start]|, fs.v.clusterSize)
    }

    /** The bytes of the file's clusters. */
    ghost function Data(file: File): seq<Byte>
      reads this, fs, file
      requires fs.Valid() && Backed(file)
    {
      if HasChain(file) then Contents(fs.v, fs.disk, fs.owners[file.start]) else []
    }

    /** vfs_init. */
    constructor (fs: Filesystem)
      requires fs.Valid()
      ensures Valid() && this.fs == fs && fresh(table) && forall fd :: 0 <= fd < MAX_FDS ==>
                table[fd] == Handle(null, 0)
    {
      this.fs := fs;
      this.table := new Handle[MAX_FDS](_ => Handle(null, 0));
    }

    /** vfs_open, once the path is resolved to a file node or to nothing: the lowest free descriptor, at
        position 0. */
    method Open(node: File?) returns (fd: int)
      requires Valid()
      modifies table
      ensures Valid()
      ensures fd == -1 <==> node == null || forall i :: 0 <= i < 256 ==> old(InUse(i))
      ensures fd != -1 ==> 0 <= fd < 256 && !old(InUse(fd)) && forall i :: 0 <= i < fd ==> old(InUse(i))
      ensures table[..] == if fd == -1 then old(table[..]) else old(table[..])[fd := Handle(node, 0)]
    {
      if node == null {
        return -1;
      }
      fd := 0;
      while fd < MAX_FDS && table[fd].node != null
        invariant 0 <= fd <= MAX_FDS && forall i :: 0 <= i < fd ==> InUse(i)
      {
        fd := fd + 1;
      }
      if fd == MAX_FDS {
        fd := -1;
        return;
      }
      assert !InUse(fd);
      table[fd] := Handle(node, 0);
    }

    /** vfs_close: the descriptor is free again. */
    method Close(fd: int) returns (ok: bool)
      requires Valid()
      modifies table
      ensures Valid() && ok == old(InUse(fd)) && !InUse(fd)
      ensures table[..] == if ok then old(table[..])[fd := Handle(null, old(table[fd].pos))] else old(table[..])
    {
      ok := 0 <= fd < MAX_FDS && table[fd].node != null;
      if ok {
        table[fd] := table[fd].(node := null);
      }
    }

    /** fat32_vfs_read: the bytes at `offset`, clipped to the size; inside the file, its contents. */
    method ReadNode(file: File, count: nat, offset: nat) returns (r: Option<seq<Byte>>, ghost i: nat, ghost o: nat)
      requires fs.Valid() && Backed(file)
      modifies file
      ensures file.start == old(file.start) && file.size == old(file.size)
      ensures Backed(file) && (HasChain(file) <==> old(HasChain(file))) && Data(file) == old(Data(file))
      ensures !HasChain(file) ==> r == Some([])
      ensures HasChain(file) && r.Some? ==>
                && Lands(fs.v, |fs.owners[file.start]|, i, o, Min(offset, file.size))
                && r.value == ReadBytes(fs.v, fs.disk, fs.owners[file.start], i, o, count)
      ensures r.Some? && offset + count <= file.size ==>
                r.value == Slice(Data(file), offset, count) && |r.value| == count
    {
      ghost var chained, chain, p :=
        HasChain(file), if HasChain(file) then fs.owners[file.start] else [], Min(offset, file.size);
      i := fs.Seek(file, offset);
      o := file.offset;
      if chained {
        NextInChain(fs.fat, fs.v.total, chain, i);
        SeekLands(fs.v, |chain|, i, o, p);
        if p + count <= file.size {
          InsideRead(fs.v, fs.disk, chain, i, o, p, count);
        }
      }
      assert chained == HasChain(file) && (offset + count <= file.size ==> offset == p);
      ghost var after;
      r, after := fs.Read(file, count, i);
    }

    /** vfs_read: what the node delivers at the descriptor's position, which moves on by as many bytes. */
    method Read(fd: int, count: nat) returns (r: Option<seq<Byte>>, ghost i: nat, ghost o: nat)
      requires Valid() && (InUse(fd) ==> Backed(table[fd].node))
      modifies table, if InUse(fd) then {table[fd].node} else {}
      ensures Valid()
      ensures !old(InUse(fd)) ==> r.None?
      ensures r.None? ==> table[..] == old(table[..])
      ensures r.Some? ==> table[..] == old(table[..])[fd := Handle(old(table[fd].node), old(table[fd].pos) + |r.value|)]
      ensures old(InUse(fd)) ==>
                var file := old(table[fd].node);
                && file.start == old(table[fd].node.start) && file.size == old(table[fd].node.size)
                && Backed(file) && Data(file) == old(Data(table[fd].node))
                && (!HasChain(file) ==> r == Some([]))
                && (HasChain(file) && r.Some? ==>
                      && Lands(fs.v, |fs.owners[file.start]|, i, o, Min(old(table[fd].pos), file.size))
                      && r.value == ReadBytes(fs.v, fs.disk, fs.owners[file.start], i, o, count))
                && (r.Some? && old(table[fd].pos) + count <= file.size ==>
                      r.value == Slice(Data(file), old(table[fd].pos), count) && |r.value| == count)
    {
      i, o := 0, 0;
      if fd < 0 || fd >= MAX_FDS || table[fd].node == null {
        r := None;
        return;
      }
      var file, pos := table[fd].node, table[fd].pos;
      r, i, o := ReadNode(file, count, pos);
      if r.Some? {
        table[fd] := Handle(file, pos + |r.value|);
      }
    }

    /** Any number of reads from a fresh descriptor, however the bytes asked for are split up: together
        they deliver the beginning of the file. */
    method ReadPieces(fd: int, counts: seq<nat>) returns (ok: bool, pieces: seq<seq<Byte>>)
      requires Valid() && InUse(fd) && Backed(table[fd].node) && table[fd].pos == 0
      requires Sum(counts) <= table[fd].node.size
      modifies table, table[fd].node
      ensures ok ==> Flat(pieces) == Slice(old(Data(table[fd].node)), 0, Sum(counts))
    {
      var file, j := table[fd].node, 0;
      ghost var size, all := file.size, Data(file);
      ok, pieces := true, [];
      while j < |counts|
        invariant j <= |counts| && Valid() && table[fd].node == file && file.size == size <= |all| && Backed(file)
        invariant Data(file) == all
        invariant table[fd].pos == Sum(counts[..j]) <= |all| && Flat(pieces) == Slice(all, 0, Sum(counts[..j]))
      {
        SumGrows(counts, j);
        ghost var p := table[fd].pos;
        var r;
        ghost var i, o;
        r, i, o := Read(fd, counts[j]);
        if r.None? {
          ok := false;
          return;
        }
        FlatAppend(pieces, r.value);
        SliceJoin(all, p, counts[j]);
        pieces, j := pieces + [r.value], j + 1;
      }
      assert counts[..j] == counts;
    }

    /** fat32_vfs_write: the buffer goes to `offset`, clipped to the size the file has. */
    method WriteNode(file: File, buf: seq<Byte>, offset: nat) returns (r: WriteResult, ghost i: nat)
      requires fs.Valid() && HasChain(file)
      modifies fs, file
      ensures fs.Valid() && fs.Lost() == old(fs.Lost()) && file.start == old(file.start)
      ensures Grown(old(fs.owners), fs.owners, file.start) && Placed(fs.owners[file.start])
      ensures OutsideKept(fs.v, old(fs.disk), fs.disk, fs.owners[file.start])
      ensures r == Done ==>
                Written(fs.v, old(fs.disk), fs.disk, fs.owners[file.start], Min(offset, old(file.size)), buf)
      ensures HasChain(file)
      ensures r == Done ==> file.offset <= fs.v.clusterSize && file.size == Max(old(file.size), file.offset)
      ensures r == Done ==> Times(i, fs.v.clusterSize) + file.offset == Min(offset, old(file.size)) + |buf|
      ensures r == Done && buf != [] ==> file.offset > 0
      ensures r == Done ==>
                file.size == Step(fs.v.clusterSize, Cursor(old(file.size), offset), |buf|).size
      ensures r != Done ==> file.size == old(file.size)
    {
      ghost var n, size := |fs.owners[file.start]|, file.size;
      ghost var i0 := fs.Seek(file, offset);
      ghost var p, disk0 := Min(offset, size), fs.disk;
      SeekLands(fs.v, n, i0, file.offset, p);
      assert Times(i0, fs.v.clusterSize) + file.offset == p && disk0 == old(fs.disk);
      r, i := fs.Write(file, buf, i0);
      assert r == Done ==> Written(fs.v, disk0, fs.disk, fs.owners[file.start], p, buf);
      ghost var n' := |fs.owners[file.start]|;
      SizeFits(fs.v, n, n', size, if r == Done then file.offset else 0);
      if r == Done {
        StepSize(fs.v.clusterSize, Cursor(size, offset), |buf|, i, file.offset);
      }
    }

    /** vfs_write: the same at the descriptor's position, which moves on by the bytes written. */
    method Write(fd: int, buf: seq<Byte>) returns (r: Option<WriteResult>, ghost i: nat)
      requires Valid() && (InUse(fd) ==> HasChain(table[fd].node))
      modifies table, fs, if InUse(fd) then {table[fd].node} else {}
      ensures Valid() && fs.Lost() == old(fs.Lost()) && (r.None? <==> !old(InUse(fd)))
      ensures r.Some? ==> old(table[fd].node).start == old(table[fd].node.start) && HasChain(old(table[fd].node))
      ensures r.Some? ==>
                var c := Cursor(old(table[fd].node.size), old(table[fd].pos));
                Cursor(old(table[fd].node).size, table[fd].pos) ==
                if r == Some(Done) then Step(fs.v.clusterSize, c, |buf|) else c
      ensures r.None? ==> fs.fat == old(fs.fat) && fs.disk == old(fs.disk)
      ensures table[..] ==
              if r != Some(Done) then old(table[..])
              else old(table[..])[fd := Handle(old(table[fd].node), old(table[fd].pos) + |buf|)]
      ensures r.Some? ==>
                Grown(old(fs.owners), fs.owners, old(table[fd].node.start)) &&
                Placed(fs.owners[old(table[fd].node.start)])
      ensures r.Some? ==> OutsideKept(fs.v, old(fs.disk), fs.disk, fs.owners[old(table[fd].node.start)])
      ensures r == Some(Done) ==>
                Written(fs.v, old(fs.disk), fs.disk, fs.owners[old(table[fd].node.start)],
                  Min(old(table[fd].pos), old(table[fd].node.size)), buf)
    {
      i := 0;
      if fd < 0 || fd >= MAX_FDS || table[fd].node == null {
        r := None;
        return;
      }
      var file, pos := table[fd].node, table[fd].pos;
      var w;
      w, i := WriteNode(file, buf, pos);
      r := Some(w);
      if w == Done {
        table[fd] := Handle(file, pos + |buf|);
      }
    }

    /** Any number of writes: together they leave what replaying them leaves, and the cursor it
        leaves. When they are in order, that is the buffers one behind the other. */
    method WritePieces(fd: int, bufs: seq<seq<Byte>>) returns (ok: bool)
      requires Valid() && InUse(fd) && HasChain(table[fd].node)
      modifies table, fs, table[fd].node
      ensures Valid() && fs.Lost() == old(fs.Lost())
      ensures table[fd].node == old(table[fd].node) && HasChain(table[fd].node)
      ensures table[fd].node.start == old(table[fd].node.start)
      ensures Grown(old(fs.owners), fs.owners, table[fd].node.start)
      ensures ok ==>
                var c := Cursor(old(table[fd].node.size), old(table[fd].pos));
                && Wrote(fs.v, old(fs.disk), fs.disk, fs.owners[table[fd].node.start], c, bufs)
                && Cursor(table[fd].node.size, table[fd].pos) == After(fs.v.clusterSize, c, bufs)
      ensures ok && old(table[fd].pos <= table[fd].node.size) &&
              InOrder(fs.v.clusterSize, Cursor(old(table[fd].node.size), old(table[fd].pos)), bufs) ==>
                Written(fs.v, old(fs.disk), fs.disk, fs.owners[table[fd].node.start], old(table[fd].pos), Flat(bufs))
    {
      ghost var file, c, disk0, s :=
        table[fd].node, Cursor(table[fd].node.size, table[fd].pos), fs.disk, table[fd].node.start;
      var j := 0;
      ok := true;
      WroteNothing(fs.v, fs.disk, fs.owners[s], c);
      while j < |bufs|
        invariant j <= |bufs| && Valid() && fs.Lost() == old(fs.Lost())
        invariant table[fd].node == file && file.start == s && HasChain(file)
        invariant Grown(old(fs.owners), fs.owners, s)
        invariant Wrote(fs.v, disk0, fs.disk, fs.owners[s], c, bufs[..j])
        invariant Cursor(file.size, table[fd].pos) == After(fs.v.clusterSize, c, bufs[..j])
      {
        ghost var owners, disk := fs.owners, fs.disk;
        var r;
        ghost var i;
        r, i := Write(fd, bufs[j]);
        GrownAgain(old(fs.owners), owners, fs.owners, s);
        if r != Some(Done) {
          ok := false;
          return;
        }
        TakeNext(bufs, j);
        WroteOneMore(fs.v, disk0, disk, fs.disk, owners[s], fs.owners[s], c, bufs[..j], bufs[j]);
        j := j + 1;
      }
      assert bufs[..j] == bufs;
      if c.pos <= c.size && InOrder(fs.v.clusterSize, c, bufs) {
        InOrderWritten(fs.v, disk0, fs.disk, |old(fs.owners[s])|, fs.owners[s], c, bufs);
      }
    }
  }

  lemma {:induction false} TakeNext(bufs: seq<seq<Byte>>, j: nat)
    requires j < |bufs|
    ensures bufs[..j + 1] == bufs[..j] + [bufs[j]] && bufs[..j + 1][..j] == bufs[..j]
  {
  }

  lemma {:induction false} InOrderWritten(
    v: Volume, disk0: Disk, disk: Disk, n: nat, chain: seq<nat>, c: Cursor, bufs: seq<seq<Byte>>)
    requires Wrote(v, disk0, disk, chain, c, bufs) && InOrder(v.clusterSize, c, bufs)
    requires 0 < n <= |chain| && c.pos <= c.size <= Times(n, v.clusterSize)
    ensures Written(v, disk0, disk, chain, c.pos, Flat(bufs))
  {
    SizeFits(v, n, |chain|, c.size, 0);
    InOrderJoins(v.clusterSize, c, Contents(v, disk0, chain), bufs);
  }

  // ---------------------------------------------------------------- sizes

  lemma {:induction false} SizeFits(v: Volume, n: nat, n': nat, size: nat, o: nat)
    requires 0 < n <= n' && size <= Times(n, v.clusterSize) && o <= v.clusterSize
    ensures Max(size, o) <= Times(n', v.clusterSize)
  {
    if n < n' {
      TimesGap(n, n', v.clusterSize);
    }
    TimesGap(0, n', v.clusterSize);
  }

  /** The size that fat32_write leaves when its cursor ends at offset o of cluster i. */
  lemma {:induction false} StepSize(cs: nat, c: Cursor, n: nat, i: nat, o: nat)
    requires 0 < cs && o <= cs && Times(i, cs) + o == c.Start() + n && (n > 0 ==> o > 0)
    ensures Max(c.size, o) == Step(cs, c, n).size
  {
    if n > 0 {
      EndOffsetIs(cs, i, o);
    }
  }

  // ---------------------------------------------------------------- pieces

  function Sum(counts: seq<nat>): nat
  {
    if counts == [] then 0 else Sum(counts[..|counts| - 1]) + counts[|counts| - 1]
  }

  lemma {:induction false} FlatAppend(pieces: seq<seq<Byte>>, piece: seq<Byte>)
    ensures Flat(pieces + [piece]) == Flat(pieces) + piece
  {
  }

  lemma {:induction false} FlatTake(pieces: seq<seq<Byte>>, k: nat)
    requires k < |pieces|
    ensures Flat(pieces[..k + 1]) == Flat(pieces[..k]) + pieces[k]
  {
    assert pieces[..k + 1][..k] == pieces[..k];
  }

  lemma {:induction false} SumGrows(counts: seq<nat>, j: nat)
    requires j < |counts|
    ensures Sum(counts[..j + 1]) == Sum(counts[..j]) + counts[j] <= Sum(counts)
    decreases |counts| - j
  {
    assert counts[..j + 1][..j] == counts[..j];
    if j + 1 < |counts| {
      SumGrows(counts, j + 1);
    } else {
      assert counts[..j + 1] == counts;
    }
  }

  lemma {:induction false} SliceJoin(data: seq<Byte>, p: nat, n: nat)
    requires p + n <= |data|
    ensures Slice(data, 0, p) + Slice(data, p, n) == Slice(data, 0, p + n)
  {
  }

  /** Pieces that each start where the one before ended are together one piece. */
  lemma {:induction false} PiecesJoin(data: seq<Byte>, counts: seq<nat>, pieces: seq<seq<Byte>>, k: nat)
    requires |pieces| == |counts| && k <= |counts| && Sum(counts) <= |data|
    requires forall j: nat :: j < |counts| ==> pieces[j] == Slice(data, Sum(counts[..j]), counts[j])
    ensures Flat(pieces[..k]) == Slice(data, 0, Sum(counts[..k]))
  {
    if k > 0 {
      PiecesJoin(data, counts, pieces, k - 1);
      SumGrows(counts, k - 1);
      FlatTake(pieces, k - 1);
      SliceJoin(data, Sum(counts[..k - 1]), counts[k - 1]);
    } else {
      assert pieces[..0] == [] && counts[..0] == [];
    }
  }

  /** A write that began at or before the size leaves the descriptor where the next write will go exactly
      when it stayed in the file or ended in the first cluster: otherwise the next one goes back. */
  lemma {:induction false} NextWriteFollows(v: Volume, i: nat, o: nat, size: nat)
    requires v.Ok() && o <= v.clusterSize && (i > 0 ==> o > 0)
    ensures var end := Times(i, v.clusterSize) + o;
            Min(end, Max(size, o)) == end <==> end <= size || end <= v.clusterSize
  {
  }

  // ---------------------------------------------------------------- positions

  /** Position p of a chain of n clusters is offset o of cluster i; a full cluster only at the very end. */
  ghost predicate Lands(v: Volume, n: nat, i: nat, o: nat, p: nat)
  {
    i < n && o <= v.clusterSize && Times(i, v.clusterSize) + o == p && (o < v.clusterSize || i + 1 == n)
  }

  lemma {:induction false} SeekLands(v: Volume, n: nat, i: nat, o: nat, p: nat)
    requires v.Ok() && i < n && (o < v.clusterSize || i + 1 == n)
    requires Times(i, v.clusterSize) + o == p <= Times(n, v.clusterSize)
    ensures Lands(v, n, i, o, p)
  {
  }

  lemma {:induction false} InsideRead(v: Volume, disk: Disk, chain: seq<nat>, i: nat, o: nat, p: nat, n: nat)
    requires v.Ok() && Placed(chain) && Lands(v, |chain|, i, o, p) && p + n <= Times(|chain|, v.clusterSize)
    ensures ReadBytes(v, disk, chain, i, o, n) == Slice(Contents(v, disk, chain), p, n)
    ensures |ReadBytes(v, disk, chain, i, o, n)| == n
  {
  }
}
