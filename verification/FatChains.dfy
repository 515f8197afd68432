/**
 The file allocation table of the FAT32 driver (kernel/BasicDrivers/fat32.c) and the cluster
 chains it spells out ("FAT Data Structure" in Microsoft's FAT32 File System Specification).
 */
module FatChains {
  import opened Words
  import opened Collections

  const FAT_EOF: nat := 0x0FFF_FFF8
  const TWO_28: nat := 0x1000_0000
  const TWO_32: nat := 0x1_0000_0000

  type Entry = e: nat | e < 0x1_0000_0000

  type Table = seq<Entry>

  /** The low 28 bits of an entry. */
  function Link(fat: Table, c: nat): nat
    requires c < |fat|
  {
    fat[c] % TWO_28
  }

  /** The top four bits of an entry do not count. */
  lemma {:induction false} LinkIgnoresTop(fat: Table, c: nat, top: nat, low: nat)
    requires c < |fat| && fat[c] == top * 0x1000_0000 + low && low < 0x1000_0000
    ensures Link(fat, c) == low
  {
  }

  /** The data clusters of a volume are 2 .. total + 1. */
  predicate InRange(total: nat, c: nat)
  {
    2 <= c < total + 2
  }

  /** The table covers the volume, and cluster numbers stay below the end markers. */
  predicate Covers(fat: Table, total: nat)
  {
    total + 2 <= |fat| && total + 2 <= 0x0FFF_FFF7
  }

  predicate IsFree(fat: Table, total: nat, c: nat)
    requires Covers(fat, total)
  {
    InRange(total, c) && Link(fat, c) == 0
  }

  /** fat_next_cluster: an out-of-range cluster has no successor. */
  function NextCluster(fat: Table, total: nat, c: nat): (next: nat)
    requires Covers(fat, total)
  {
    if c < 2 || c >= total + 2 then FAT_EOF else Link(fat, c)
  }

  // ---------------------------------------------------------------- chains

  /** What the table says about position i of a chain. */
  ghost predicate LinkedAt(fat: Table, total: nat, chain: seq<nat>, i: nat)
    requires Covers(fat, total) && i < |chain|
  {
    && InRange(total, chain[i])
    && (i + 1 < |chain| ==> Link(fat, chain[i]) == chain[i + 1])
    && (i + 1 == |chain| ==> Link(fat, chain[i]) >= FAT_EOF)
  }

  /** A non-empty sequence of distinct clusters, each linked to the next, the last to an end marker. */
  ghost predicate IsChain(fat: Table, total: nat, chain: seq<nat>)
    requires Covers(fat, total)
  {
    && chain != [] && Distinct(chain)
    && forall i :: 0 <= i < |chain| ==> LinkedAt(fat, total, chain, i)
  }

  /** A chain depends on the entries of its own clusters only. */
  lemma {:induction false} ChainFrame(fat: Table, fat': Table, total: nat, chain: seq<nat>)
    requires Covers(fat, total) && Covers(fat', total) && IsChain(fat, total, chain)
    requires forall c :: c in chain && InRange(total, c) ==> fat'[c] == fat[c]
    ensures IsChain(fat', total, chain)
  {
    forall i | 0 <= i < |chain| ensures LinkedAt(fat', total, chain, i) {
      assert LinkedAt(fat, total, chain, i) && chain[i] in chain;
    }
  }

  /** No cluster of a chain is free. */
  lemma {:induction false} ChainNotFree(fat: Table, total: nat, chain: seq<nat>, c: nat)
    requires Covers(fat, total) && IsChain(fat, total, chain) && c in chain
    ensures InRange(total, c) && Link(fat, c) != 0
  {
    var i :| 0 <= i < |chain| && chain[i] == c;
    assert LinkedAt(fat, total, chain, i);
    if i + 1 < |chain| {
      assert LinkedAt(fat, total, chain, i + 1);
    }
  }

  /** Following the table from position i gives the chain's next cluster, or an end marker. */
  lemma {:induction false} NextInChain(fat: Table, total: nat, chain: seq<nat>, i: nat)
    requires Covers(fat, total) && IsChain(fat, total, chain) && i < |chain|
    ensures i + 1 < |chain| ==> NextCluster(fat, total, chain[i]) == chain[i + 1] && 2 <= chain[i + 1] < FAT_EOF
    ensures i + 1 == |chain| ==> NextCluster(fat, total, chain[i]) >= FAT_EOF
    ensures 2 <= chain[i] < FAT_EOF && FAT_EOF == 0x0FFF_FFF8
  {
    assert LinkedAt(fat, total, chain, i);
    assert i + 1 < |chain| ==> LinkedAt(fat, total, chain, i + 1);
  }

  /** A cluster is a chain by itself exactly when it carries an end marker. */
  lemma {:induction false} SingleChain(fat: Table, total: nat, c: nat)
    requires Covers(fat, total) && InRange(total, c)
    ensures IsChain(fat, total, [c]) <==> Link(fat, c) >= FAT_EOF
  {
    assert LinkedAt(fat, total, [c], 0) <==> Link(fat, c) >= FAT_EOF;
  }

  /** Two chains that start at the same cluster are the same chain. */
  lemma {:induction false} ChainUnique(fat: Table, total: nat, a: seq<nat>, b: seq<nat>, k: nat)
    requires Covers(fat, total) && IsChain(fat, total, a) && IsChain(fat, total, b) && a[0] == b[0]
    requires k < |a|
    ensures k < |b| && a[k] == b[k]
    ensures k + 1 == |a| <==> k + 1 == |b|
  {
    if k > 0 {
      ChainUnique(fat, total, a, b, k - 1);
      assert LinkedAt(fat, total, a, k - 1) && LinkedAt(fat, total, b, k - 1);
    }
    assert LinkedAt(fat, total, a, k);
    assert k < |b| ==> LinkedAt(fat, total, b, k);
    if k + 1 < |a| {
      assert LinkedAt(fat, total, a, k + 1);
    }
    if k < |b| && k + 1 < |b| {
      assert LinkedAt(fat, total, b, k + 1);
    }
  }

  // ---------------------------------------------------------------- allocation

  /** fat32_write's extension: the last cluster is linked to a free one, which ends the chain. */
  function Extend(fat: Table, last: nat, next: nat): Table
    requires last < |fat| && next < |fat| && next < TWO_32
  {
    fat[last := next][next := FAT_EOF]
  }

  lemma {:induction false} ExtendChain(fat: Table, total: nat, chain: seq<nat>, next: nat)
    requires Covers(fat, total) && IsChain(fat, total, chain) && IsFree(fat, total, next)
    ensures next !in chain
    ensures chain[|chain| - 1] < |fat| && next < |fat|
    ensures IsChain(Extend(fat, chain[|chain| - 1], next), total, chain + [next])
  {
    var n := |chain| - 1;
    var last := chain[n];
    assert LinkedAt(fat, total, chain, n);
    if next in chain {
      ChainNotFree(fat, total, chain, next);
    }
    var fat', chain' := Extend(fat, last, next), chain + [next];
    forall i | 0 <= i < |chain'| ensures LinkedAt(fat', total, chain', i) {
      if i <= n {
        assert LinkedAt(fat, total, chain, i) && chain[i] in chain;
      }
    }
  }

  // ---------------------------------------------------------------- ownership

  /** Every file's chain (and the root directory's), by first cluster. */
  type Owners = map<nat, seq<nat>>

  /** Chains are well formed, start at their key, and share no cluster. */
  ghost predicate Owned(fat: Table, total: nat, owners: Owners)
    requires Covers(fat, total)
  {
    && (forall s :: s in owners ==> IsChain(fat, total, owners[s]) && owners[s][0] == s)
    && (forall s, t {:trigger Apart(owners[s], owners[t])} ::
          s in owners && t in owners && s != t ==> Apart(owners[s], owners[t]))
  }

  ghost predicate Apart(a: seq<nat>, b: seq<nat>)
  {
    forall c :: c in a ==> c !in b
  }

  ghost predicate HasOwner(owners: Owners, c: nat)
  {
    exists s :: s in owners && c in owners[s]
  }

  /** Clusters in use that no known chain contains; they were there before. */
  ghost function Unowned(fat: Table, total: nat, owners: Owners): set<nat>
    requires Covers(fat, total)
  {
    set c: nat | c < total + 2 && InRange(total, c) && Link(fat, c) != 0 && !HasOwner(owners, c)
  }

  ghost function FreeClusters(fat: Table, total: nat): set<nat>
    requires Covers(fat, total)
  {
    set c: nat | c < total + 2 && IsFree(fat, total, c)
  }

  ghost function OwnedClusters(total: nat, owners: Owners): set<nat>
  {
    set c: nat | c < total + 2 && InRange(total, c) && HasOwner(owners, c)
  }

  // ---------------------------------------------------------------- the steps of a run

  lemma {:induction false} OwnerNotFree(fat: Table, total: nat, owners: Owners, c: nat)
    requires Covers(fat, total) && Owned(fat, total, owners) && HasOwner(owners, c)
    ensures InRange(total, c) && Link(fat, c) != 0
  {
    var s :| s in owners && c in owners[s];
    ChainNotFree(fat, total, owners[s], c);
  }

  /** A write extends chain s by one free cluster: no other chain changes, nothing leaks. */
  lemma {:induction false} ExtendOwned(fat: Table, total: nat, owners: Owners, s: nat, next: nat)
    requires Covers(fat, total) && Owned(fat, total, owners) && s in owners && IsFree(fat, total, next)
    ensures var last := owners[s][|owners[s]| - 1];
            last < |fat| && next < |fat| && next < TWO_32 && Covers(Extend(fat, last, next), total) &&
            Owned(Extend(fat, last, next), total, owners[s := owners[s] + [next]])
    ensures Unowned(Extend(fat, owners[s][|owners[s]| - 1], next), total, owners[s := owners[s] + [next]]) ==
            Unowned(fat, total, owners)
  {
    var chain := owners[s];
    var last := chain[|chain| - 1];
    ExtendChain(fat, total, chain, next);
    var fat', owners' := Extend(fat, last, next), owners[s := chain + [next]];
    assert last in chain;
    forall t | t in owners' ensures IsChain(fat', total, owners'[t]) && owners'[t][0] == t {
      if t != s {
        assert Apart(owners[t], chain);
        ExtendLeavesChain(fat, total, owners[t], last, next);
      }
    }
    forall t, u | t in owners' && u in owners' && t != u ensures Apart(owners'[t], owners'[u]) {
      NotInOtherChain(fat, total, owners, next, t);
      NotInOtherChain(fat, total, owners, next, u);
      assert Apart(owners[t], owners[u]);
    }
    forall c: nat | c < total + 2 && InRange(total, c)
      ensures Link(fat', c) != 0 && !HasOwner(owners', c) <==> Link(fat, c) != 0 && !HasOwner(owners, c)
    {
      ExtendOwnersAt(owners, s, next, c);
      if c == last {
        assert HasOwner(owners, c);
      }
    }
  }

  /** Only chain s changed, and only by growing at its end. */
  ghost predicate Grown(owners: Owners, owners': Owners, s: nat)
  {
    s in owners && s in owners' && owners' == owners[s := owners'[s]] && owners[s] <= owners'[s]
  }

  lemma {:induction false} GrownAgain(a: Owners, b: Owners, c: Owners, s: nat)
    requires Grown(a, b, s) && Grown(b, c, s)
    ensures Grown(a, c, s)
  {
  }

  lemma {:induction false} NotInOtherChain(fat: Table, total: nat, owners: Owners, next: nat, t: nat)
    requires Covers(fat, total) && Owned(fat, total, owners) && IsFree(fat, total, next) && t in owners
    ensures next !in owners[t]
  {
    if next in owners[t] {
      ChainNotFree(fat, total, owners[t], next);
    }
  }

  lemma {:induction false} ExtendLeavesChain(fat: Table, total: nat, chain: seq<nat>, last: nat, next: nat)
    requires Covers(fat, total) && IsChain(fat, total, chain) && IsFree(fat, total, next)
    requires last !in chain && last < |fat|
    ensures IsChain(Extend(fat, last, next), total, chain)
  {
    if next in chain {
      ChainNotFree(fat, total, chain, next);
    }
    ChainFrame(fat, Extend(fat, last, next), total, chain);
  }

  lemma {:induction false} ExtendOwnersAt(owners: Owners, s: nat, next: nat, c: nat)
    requires s in owners
    ensures HasOwner(owners[s := owners[s] + [next]], c) <==> HasOwner(owners, c) || c == next
  {
    var owners' := owners[s := owners[s] + [next]];
    if HasOwner(owners, c) {
      var t :| t in owners && c in owners[t];
      assert t in owners' && c in owners'[t];
    }
    if c == next {
      assert c in owners'[s];
    }
    if HasOwner(owners', c) {
      var t :| t in owners' && c in owners'[t];
      assert t == s && c != next ==> c in owners[s];
    }
  }

  /** fat32_create_file takes one free cluster as a chain of its own. */
  lemma {:induction false} CreateOwned(fat: Table, total: nat, owners: Owners, next: nat)
    requires Covers(fat, total) && Owned(fat, total, owners) && IsFree(fat, total, next)
    ensures next !in owners && Owned(fat[next := FAT_EOF], total, owners[next := [next]])
    ensures Unowned(fat[next := FAT_EOF], total, owners[next := [next]]) == Unowned(fat, total, owners)
  {
    var fat', owners' := fat[next := FAT_EOF], owners[next := [next]];
    if next in owners {
      assert owners[next][0] in owners[next];
      NotInOtherChain(fat, total, owners, next, next);
    }
    forall t | t in owners' ensures IsChain(fat', total, owners'[t]) && owners'[t][0] == t {
      if t != next {
        NotInOtherChain(fat, total, owners, next, t);
        ChainFrame(fat, fat', total, owners[t]);
      } else {
        assert LinkedAt(fat', total, [next], 0);
      }
    }
    forall t, u | t in owners' && u in owners' && t != u ensures Apart(owners'[t], owners'[u]) {
      if t == next {
        NotInOtherChain(fat, total, owners, next, u);
      } else if u == next {
        NotInOtherChain(fat, total, owners, next, t);
      } else {
        assert Apart(owners[t], owners[u]);
      }
    }
    forall c: nat | c < total + 2 && InRange(total, c)
      ensures Link(fat', c) != 0 && !HasOwner(owners', c) <==> Link(fat, c) != 0 && !HasOwner(owners, c)
    {
      if HasOwner(owners, c) {
        var t :| t in owners && c in owners[t];
        assert t in owners' && c in owners'[t];
      }
      if HasOwner(owners', c) && c != next {
        var t :| t in owners' && c in owners'[t];
        assert t in owners && c in owners[t];
      }
      if c == next {
        assert c in owners'[next];
      }
    }
  }

  /** The table with the entries of `cleared` zeroed. */
  ghost predicate Cleared(fat: Table, fat': Table, cleared: seq<nat>)
  {
    && |fat'| == |fat|
    && forall c: nat :: c < |fat| ==> fat'[c] == if c in cleared then 0 else fat[c]
  }

  /** fat32_delete frees exactly its own chain. */
  lemma {:induction false} DeleteOwned(fat: Table, fat': Table, total: nat, owners: Owners, s: nat)
    requires Covers(fat, total) && Owned(fat, total, owners) && s in owners && Cleared(fat, fat', owners[s])
    ensures Owned(fat', total, owners - {s})
    ensures Unowned(fat', total, owners - {s}) == Unowned(fat, total, owners)
    ensures forall c: nat :: c < total + 2 ==> (IsFree(fat', total, c) <==> IsFree(fat, total, c) || c in owners[s])
  {
    var owners' := owners - {s};
    forall t | t in owners' ensures IsChain(fat', total, owners'[t]) && owners'[t][0] == t {
      assert Apart(owners[t], owners[s]);
      ChainFrame(fat, fat', total, owners[t]);
    }
    forall c: nat | c < total + 2
      ensures IsFree(fat', total, c) <==> IsFree(fat, total, c) || c in owners[s]
      ensures InRange(total, c) ==>
                (Link(fat', c) != 0 && !HasOwner(owners', c) <==> Link(fat, c) != 0 && !HasOwner(owners, c))
    {
      DeleteAt(fat, total, owners, s, c);
    }
  }

  lemma {:induction false} DeleteAt(fat: Table, total: nat, owners: Owners, s: nat, c: nat)
    requires Covers(fat, total) && Owned(fat, total, owners) && s in owners
    ensures HasOwner(owners, c) <==> HasOwner(owners - {s}, c) || c in owners[s]
    ensures c in owners[s] ==> InRange(total, c)
  {
    if c in owners[s] {
      ChainNotFree(fat, total, owners[s], c);
    }
    if HasOwner(owners - {s}, c) {
      var t :| t in owners - {s} && c in (owners - {s})[t];
      assert t in owners && c in owners[t];
    }
    if HasOwner(owners, c) {
      var t :| t in owners && c in owners[t];
      assert t != s ==> t in owners - {s} && c in (owners - {s})[t];
    }
  }

  // ---------------------------------------------------------------- conservation

  ghost function Pick(owners: Owners): nat
    requires owners != map[]
    ensures Pick(owners) in owners
  {
    assert owners.Keys != {};
    var s :| s in owners;
    s
  }

  /** The number of clusters in all chains together. */
  ghost function TotalLength(owners: Owners): nat
    decreases |owners|
  {
    if owners == map[] then 0
    else |owners[Pick(owners)]| + TotalLength(owners - {Pick(owners)})
  }

  ghost function Members(chain: seq<nat>): set<nat>
  {
    set c | c in chain
  }

  lemma {:induction false} MembersSize(chain: seq<nat>)
    requires Distinct(chain)
    ensures |Members(chain)| == |chain|
  {
    if chain != [] {
      var n := |chain| - 1;
      MembersSize(chain[..n]);
      assert chain == chain[..n] + [chain[n]];
      assert chain[n] !in chain[..n];
      assert Members(chain) == Members(chain[..n]) + {chain[n]};
    }
  }

  lemma {:induction false} OwnedCount(fat: Table, total: nat, owners: Owners)
    requires Covers(fat, total) && Owned(fat, total, owners)
    ensures |OwnedClusters(total, owners)| == TotalLength(owners)
    decreases |owners|
  {
    if owners == map[] {
      assert OwnedClusters(total, owners) == {};
    } else {
      var s := Pick(owners);
      var rest := owners - {s};
      OwnedCount(fat, total, rest);
      MembersSize(owners[s]);
      forall c: nat
        ensures c in OwnedClusters(total, owners) <==> c in OwnedClusters(total, rest) || c in Members(owners[s])
      {
        DeleteAt(fat, total, owners, s, c);
      }
      forall c: nat | c in Members(owners[s]) ensures c !in OwnedClusters(total, rest) {
        forall t | t in rest ensures c !in rest[t] {
          assert Apart(owners[t], owners[s]);
        }
      }
      assert OwnedClusters(total, owners) == OwnedClusters(total, rest) + Members(owners[s]);
    }
  }

  ghost function Clusters(total: nat): set<nat>
  {
    set c: nat | c < total + 2 && InRange(total, c)
  }

  lemma {:induction false} ClustersSize(total: nat)
    ensures |Clusters(total)| == total
  {
    if total > 0 {
      ClustersSize(total - 1);
      assert Clusters(total) == Clusters(total - 1) + {total + 1};
    } else {
      assert Clusters(total) == {};
    }
  }

  /** Free clusters, clusters in chains, and clusters nobody owns make up the volume. */
  lemma {:induction false} Conservation(fat: Table, total: nat, owners: Owners)
    requires Covers(fat, total) && Owned(fat, total, owners)
    ensures |FreeClusters(fat, total)| + TotalLength(owners) + |Unowned(fat, total, owners)| == total
  {
    var f, o, u := FreeClusters(fat, total), OwnedClusters(total, owners), Unowned(fat, total, owners);
    ClustersSize(total);
    OwnedCount(fat, total, owners);
    forall c | c in o ensures c !in f && c !in u {
      OwnerNotFree(fat, total, owners, c);
    }
    assert Clusters(total) == f + o + u;
    assert f !! u;
    assert |f + o| == |f| + |o|;
    assert |f + o + u| == |f + o| + |u|;
  }

  // ---------------------------------------------------------------- runs

  /** The cached table and the chains it holds. */
  datatype State = State(fat: Table, owners: Owners)

  ghost predicate StateOk(total: nat, a: State)
  {
    Covers(a.fat, total) && Owned(a.fat, total, a.owners)
  }

  /** A write appends one cluster to chain s. */
  ghost predicate Extends(total: nat, a: State, b: State, s: nat, next: nat)
    requires StateOk(total, a)
  {
    && s in a.owners && IsFree(a.fat, total, next)
    && a.owners[s][|a.owners[s]| - 1] < |a.fat|
    && b == State(Extend(a.fat, a.owners[s][|a.owners[s]| - 1], next), a.owners[s := a.owners[s] + [next]])
  }

  ghost predicate Creates(total: nat, a: State, b: State, next: nat)
    requires StateOk(total, a)
  {
    IsFree(a.fat, total, next) && b == State(a.fat[next := FAT_EOF], a.owners[next := [next]])
  }

  ghost predicate Deletes(a: State, b: State, s: nat)
  {
    s in a.owners && Cleared(a.fat, b.fat, a.owners[s]) && b.owners == a.owners - {s}
  }

  /** One step of a run: a write's extension, a creation or a deletion. */
  ghost predicate FatStep(total: nat, a: State, b: State)
    requires StateOk(total, a)
  {
    (exists s, next :: Extends(total, a, b, s, next)) || (exists next :: Creates(total, a, b, next)) ||
      (exists s :: Deletes(a, b, s))
  }

  ghost predicate IsFatRun(total: nat, run: seq<State>)
  {
    && run != [] && StateOk(total, run[0])
    && forall k :: 0 < k < |run| ==> StateOk(total, run[k - 1]) ==> FatStep(total, run[k - 1], run[k])
  }

  lemma {:induction false} FatStepKeeps(total: nat, a: State, b: State)
    requires StateOk(total, a) && FatStep(total, a, b)
    ensures StateOk(total, b) && Unowned(b.fat, total, b.owners) == Unowned(a.fat, total, a.owners)
  {
    if s, next :| Extends(total, a, b, s, next) {
      ExtendOwned(a.fat, total, a.owners, s, next);
    } else if next :| Creates(total, a, b, next) {
      CreateOwned(a.fat, total, a.owners, next);
    } else {
      var s :| Deletes(a, b, s);
      DeleteOwned(a.fat, b.fat, total, a.owners, s);
    }
  }

  /** Over every run chains stay acyclic and apart, and free clusters, chain lengths and the clusters
      that nobody owned at the start add up to the volume. */
  lemma {:induction false} FatRunConserves(total: nat, run: seq<State>, k: nat)
    requires IsFatRun(total, run) && k < |run|
    ensures StateOk(total, run[k])
    ensures Unowned(run[k].fat, total, run[k].owners) == Unowned(run[0].fat, total, run[0].owners)
    ensures |FreeClusters(run[k].fat, total)| + TotalLength(run[k].owners) +
            |Unowned(run[0].fat, total, run[0].owners)| == total
  {
    if k > 0 {
      FatRunConserves(total, run, k - 1);
      FatStepKeeps(total, run[k - 1], run[k]);
    }
    Conservation(run[k].fat, total, run[k].owners);
  }
}
