/**
 Releasing chains (fat32_free_cluster_chain in kernel/BasicDrivers/fat32.c) on any table, including
 one whose links run in a circle.
 */
module FatRelease {
  import opened Words
  import opened Collections
  import opened FatChains

  /** A cluster number the release loop goes on with. */
  predicate Goes(c: nat)
  {
    2 <= c < FAT_EOF
  }

  /** The clusters of a path are linked one to the next. */
  ghost predicate IsPath(fat: Table, path: seq<nat>)
  {
    && (forall j :: 0 <= j < |path| ==> Goes(path[j]) && path[j] < |fat|)
    && (forall j {:trigger Leads(fat, path, j)} :: Leads(fat, path, j))
  }

  ghost predicate Leads(fat: Table, path: seq<nat>, j: int)
  {
    0 < j < |path| ==> path[j - 1] < |fat| && Link(fat, path[j - 1]) == path[j]
  }

  ghost predicate PathTo(fat: Table, start: nat, path: seq<nat>, c: nat)
  {
    path != [] && IsPath(fat, path) && path[0] == start && path[|path| - 1] == c
  }

  ghost predicate Reaches(fat: Table, start: nat, c: nat)
  {
    exists path :: PathTo(fat, start, path, c)
  }

  /** An entry that is in range or an end marker. */
  predicate Bounded(fat: Table, c: nat)
  {
    c < |fat| || c >= FAT_EOF
  }

  /** Every link that can be followed from `start` is in range or an end marker. */
  ghost predicate StaysInside(fat: Table, start: nat)
  {
    Bounded(fat, start) && forall c: nat :: c < |fat| && Reaches(fat, start, c) ==> Bounded(fat, Link(fat, c))
  }

  /** `seen` is a path from `start`, and nothing leads out of it to a new cluster. */
  ghost predicate Exhausted(fat: Table, start: nat, seen: seq<nat>)
  {
    && IsPath(fat, seen)
    && (if seen == [] then !Goes(start)
        else seen[0] == start && (Goes(Link(fat, seen[|seen| - 1])) ==> Link(fat, seen[|seen| - 1]) in seen))
  }

  lemma {:induction false} PathStep(fat: Table, start: nat, seen: seq<nat>, c: nat)
    requires IsPath(fat, seen) && Goes(c) && c < |fat|
    requires if seen == [] then c == start else seen[0] == start && Link(fat, seen[|seen| - 1]) == c
    ensures IsPath(fat, seen + [c]) && PathTo(fat, start, seen + [c], c) && Reaches(fat, start, c)
  {
    var path := seen + [c];
    forall j ensures Leads(fat, path, j) {
      assert Leads(fat, seen, j);
    }
    assert PathTo(fat, start, path, c);
  }

  /** What has been seen when nothing new is left is what can be reached. */
  lemma {:induction false} SeenIsReached(fat: Table, start: nat, seen: seq<nat>, c: nat)
    requires Exhausted(fat, start, seen)
    ensures c in seen <==> Reaches(fat, start, c)
  {
    if c in seen {
      var k :| 0 <= k < |seen| && seen[k] == c;
      var front := seen[..k + 1];
      forall j ensures Leads(fat, front, j) {
        assert Leads(fat, seen, j);
      }
      assert PathTo(fat, start, front, c);
    }
    if Reaches(fat, start, c) {
      var path :| PathTo(fat, start, path, c);
      PathIsSeen(fat, start, seen, path, |path| - 1);
    }
  }

  lemma {:induction false} PathIsSeen(fat: Table, start: nat, seen: seq<nat>, path: seq<nat>, j: nat)
    requires Exhausted(fat, start, seen) && IsPath(fat, path) && j < |path| && path[0] == start
    ensures path[j] in seen
  {
    if j > 0 {
      PathIsSeen(fat, start, seen, path, j - 1);
      var k :| 0 <= k < |seen| && seen[k] == path[j - 1];
      assert Leads(fat, path, j) && Leads(fat, seen, k + 1);
    }
  }

  /** A path without repetition is no longer than the table. */
  lemma {:induction false} AtMost(fat: Table, seen: seq<nat>)
    requires Distinct(seen) && IsPath(fat, seen)
    ensures |seen| <= |fat|
  {
    MembersSize(seen);
    ClustersSize(|fat|);
    SubsetSize(Members(seen), Clusters(|fat|));
  }

  /** From the first cluster of a chain, exactly the chain can be reached. */
  lemma {:induction false} ChainIsReached(fat: Table, total: nat, chain: seq<nat>, c: nat)
    requires Covers(fat, total) && IsChain(fat, total, chain)
    ensures Reaches(fat, chain[0], c) <==> c in chain
  {
    var n := |chain| - 1;
    forall j | 0 <= j < |chain|
      ensures Goes(chain[j]) && chain[j] < |fat| && (j < n ==> Link(fat, chain[j]) == chain[j + 1])
    {
      assert LinkedAt(fat, total, chain, j);
    }
    forall j ensures Leads(fat, chain, j) {
    }
    assert IsPath(fat, chain);
    assert LinkedAt(fat, total, chain, n);
    SeenIsReached(fat, chain[0], chain, c);
  }

  lemma {:induction false} ChainStaysInside(fat: Table, total: nat, chain: seq<nat>)
    requires Covers(fat, total) && IsChain(fat, total, chain)
    ensures StaysInside(fat, chain[0])
  {
    assert LinkedAt(fat, total, chain, 0);
    forall c: nat | c < |fat| && Reaches(fat, chain[0], c) ensures Bounded(fat, Link(fat, c)) {
      ChainIsReached(fat, total, chain, c);
      var j :| 0 <= j < |chain| && chain[j] == c;
      assert LinkedAt(fat, total, chain, j);
      assert j + 1 < |chain| ==> LinkedAt(fat, total, chain, j + 1);
    }
  }

  /** The table with the entries of `seen` zeroed, and one more. */
  lemma {:induction false} ClearOne(fat: Table, now: Table, seen: seq<nat>, c: nat)
    requires Cleared(fat, now, seen) && c < |fat|
    ensures c !in seen ==> Cleared(fat, now[c := 0], seen + [c])
    ensures c in seen ==> now[c] == 0 && now[c := 0] == now
  {
  }
}
