/**
 The heap's counter of allocated bytes (heap_allocated_bytes in kernel/InitKernel/heap.c) against
 the blocks that are live. kmalloc adds the size it asked for, kfree subtracts the size the block
 has: the two differ when a block is handed out whole although it is larger.
 */
module HeapAccounting {
  import opened Words
  import opened HeapModel
  import opened HeapSteps

  /** Block a becomes live; whatever was live stays as it is. */
  ghost predicate Gained(blocks: Blocks, blocks': Blocks, a: int)
  {
    && LiveAt(blocks', a) && !LiveAt(blocks, a)
    && (forall b :: LiveAt(blocks', b) <==> LiveAt(blocks, b) || b == a)
    && (forall b :: LiveAt(blocks, b) ==> b in blocks' && blocks'[b] == blocks[b])
  }

  /** Block a is no longer live; whatever else was live stays as it is. */
  ghost predicate Gone(blocks: Blocks, blocks': Blocks, a: int)
  {
    && (forall b :: LiveAt(blocks', b) <==> LiveAt(blocks, b) && b != a)
    && (forall b :: LiveAt(blocks', b) ==> b in blocks && blocks'[b] == blocks[b])
  }

  datatype Books = Books(blocks: Blocks, used: Word)

  /** What one call enters: `total` bytes taken at a, the block at a given back, or nothing. */
  datatype Entry = Took(a: int, total: Word) | Gave(a: int) | Nothing

  ghost predicate Entered(s: Books, e: Entry, s': Books)
  {
    match e
    case Took(a, total) => Gained(s.blocks, s'.blocks, a) && s'.used == WrapAdd(s.used, total)
    case Gave(a) =>
      && LiveAt(s.blocks, a) && Gone(s.blocks, s'.blocks, a) && 0 <= s.blocks[a].size < TWO_64
      && s'.used == WrapSub(s.used, s.blocks[a].size)
    case Nothing => SameLive(s.blocks, s'.blocks) && s'.used == s.used
  }

  /** By how much the block is larger than what was entered for it. */
  ghost function Slack(e: Entry, s': Books): int
  {
    if e.Took? && e.a in s'.blocks then s'.blocks[e.a].size - e.total else 0
  }

  // ---------------------------------------------------------------- the sum of live sizes

  /** The bytes of the live blocks that begin below address n. */
  ghost function LiveBytes(blocks: Blocks, n: nat): int
  {
    if n == 0 then 0
    else LiveBytes(blocks, n - 1) + if LiveAt(blocks, n - 1) then blocks[n - 1].size else 0
  }

  lemma {:induction false} GainedBytes(blocks: Blocks, blocks': Blocks, a: int, n: nat)
    requires Gained(blocks, blocks', a) && 0 <= a
    ensures LiveBytes(blocks', n) == LiveBytes(blocks, n) + if a < n then blocks'[a].size else 0
  {
    if n > 0 {
      GainedBytes(blocks, blocks', a, n - 1);
      assert LiveAt(blocks', n - 1) <==> LiveAt(blocks, n - 1) || n - 1 == a;
    }
  }

  lemma {:induction false} GoneBytes(blocks: Blocks, blocks': Blocks, a: int, n: nat)
    requires LiveAt(blocks, a) && Gone(blocks, blocks', a) && 0 <= a < n
    ensures LiveBytes(blocks, n) == LiveBytes(blocks', n) + blocks[a].size
  {
    forall b ensures LiveAt(blocks, b) <==> LiveAt(blocks', b) || b == a {
      assert LiveAt(blocks', b) <==> LiveAt(blocks, b) && b != a;
    }
    GainedBytes(blocks', blocks, a, n);
  }

  lemma {:induction false} SameBytes(blocks: Blocks, blocks': Blocks, n: nat)
    requires SameLive(blocks, blocks')
    ensures LiveBytes(blocks, n) == LiveBytes(blocks', n)
  {
    if n > 0 {
      SameBytes(blocks, blocks', n - 1);
      assert LiveAt(blocks, n - 1) <==> LiveAt(blocks', n - 1);
    }
  }

  lemma {:induction false} NoBytes(blocks: Blocks, n: nat)
    requires forall b :: !LiveAt(blocks, b)
    ensures LiveBytes(blocks, n) == 0
  {
    if n > 0 {
      NoBytes(blocks, n - 1);
    }
  }

  // ---------------------------------------------------------------- the counter over a run

  /** The counter plus the drift is the sum of the live sizes below n, in 64-bit arithmetic. */
  ghost predicate Drifted(s: Books, n: nat, drift: int)
  {
    (s.used + drift - LiveBytes(s.blocks, n)) % TWO_64 == 0
  }

  /** The entry is about a block below n. */
  ghost predicate Below(e: Entry, n: nat)
  {
    e != Nothing ==> 0 <= e.a < n
  }

  lemma {:induction false} WordsApart(x: int, y: int)
    requires x % TWO_64 == 0 && (y == x || y == x + TWO_64 || y == x - TWO_64)
    ensures y % TWO_64 == 0
  {
  }

  /** A call adds its slack to the drift, and nothing else changes it. */
  lemma {:induction false} EntryDrifts(s: Books, e: Entry, s': Books, n: nat, drift: int)
    requires Drifted(s, n, drift) && Entered(s, e, s') && Below(e, n)
    ensures Drifted(s', n, drift + Slack(e, s'))
  {
    match e
    case Took(a, total) => GainedBytes(s.blocks, s'.blocks, a, n);
    case Gave(a) => GoneBytes(s.blocks, s'.blocks, a, n);
    case Nothing => SameBytes(s.blocks, s'.blocks, n);
    WordsApart(s.used + drift - LiveBytes(s.blocks, n), s'.used + drift + Slack(e, s') - LiveBytes(s'.blocks, n));
  }

  ghost function TotalSlack(entries: seq<Entry>, states: seq<Books>): int
    requires |states| == |entries| + 1
    decreases |entries|
  {
    var n := |entries|;
    if n == 0 then 0 else TotalSlack(entries[..n - 1], states[..n]) + Slack(entries[n - 1], states[n])
  }

  ghost predicate BookRun(entries: seq<Entry>, states: seq<Books>, n: nat)
  {
    && |states| == |entries| + 1
    && forall i :: 0 <= i < |entries| ==> Entered(states[i], entries[i], states[i + 1]) && Below(entries[i], n)
  }

  /** Over every run from an empty heap the counter and the live bytes differ by the slack of all
      allocations so far, freed or not. */
  lemma {:induction false} RunDrifts(entries: seq<Entry>, states: seq<Books>, n: nat)
    requires BookRun(entries, states, n)
    requires states[0].used == 0 && forall b :: !LiveAt(states[0].blocks, b)
    ensures Drifted(states[|entries|], n, TotalSlack(entries, states))
    decreases |entries|
  {
    var k := |entries|;
    if k == 0 {
      NoBytes(states[0].blocks, n);
    } else {
      RunDrifts(entries[..k - 1], states[..k], n);
      EntryDrifts(states[k - 1], entries[k - 1], states[k], n, TotalSlack(entries[..k - 1], states[..k]));
    }
  }

  /** A block handed out whole and larger than asked for, then freed, takes the counter below zero:
      it wraps around. */
  lemma {:induction false} CounterWraps(s: Books, s1: Books, s2: Books, a: int, total: Word)
    requires s.used == 0 && Entered(s, Took(a, total), s1) && Entered(s1, Gave(a), s2)
    ensures s2.used == 0 <==> s1.blocks[a].size == total
    ensures s1.blocks[a].size > total ==> s2.used == TWO_64 - (s1.blocks[a].size - total)
  {
  }
}
