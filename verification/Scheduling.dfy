/**
 Round-robin scheduling as a transition system: which process runs, who waits in which order, who has
 exited. One step is a creation, a schedule() call, or an exit, which marks the current process and
 calls schedule() (kernel/InitKernel/proc.c, kernel/EarlyKernel/idt.c).
 */
module Scheduling {
  import opened Collections

  datatype State<T(==)> = State(queue: seq<T>, current: T, idle: T, dead: set<T>)

  datatype Op<T(==)> = Create(process: T) | Schedule | Exit

  /** Everybody is in one place only, and idle waits whenever it does not run. */
  ghost predicate Ok<T>(s: State<T>)
  {
    && Distinct(s.queue) && s.current !in s.queue
    && (s.idle in s.queue <==> s.current != s.idle)
    && s.current !in s.dead && forall p :: p in s.queue ==> p !in s.dead
  }

  /** Creations are of new processes; only processes other than idle exit. */
  ghost predicate Allowed<T>(s: State<T>, op: Op<T>)
  {
    match op
    case Create(p) => p !in s.queue && p != s.current && p != s.idle && p !in s.dead
    case Schedule => true
    case Exit => s.current != s.idle
  }

  /** schedule(): the head of the queue runs, idle if there is none; a process that was still running
      goes to the end of the queue. */
  function Switch<T>(s: State<T>, running: bool): State<T>
  {
    var next := if s.queue == [] then s.idle else s.queue[0];
    var rest := if s.queue == [] then [] else s.queue[1..];
    if next == s.current then s.(queue := rest)
    else s.(queue := if running then rest + [s.current] else rest, current := next)
  }

  function Step<T>(s: State<T>, op: Op<T>): State<T>
  {
    match op
    case Create(p) => s.(queue := s.queue + [p])
    case Schedule => Switch(s, true)
    case Exit => Switch(s.(dead := s.dead + {s.current}), false)
  }

  function Run<T>(s: State<T>, ops: seq<Op<T>>): State<T>
  {
    if ops == [] then s else Step(Run(s, ops[..|ops| - 1]), ops[|ops| - 1])
  }

  ghost predicate Legal<T>(s: State<T>, ops: seq<Op<T>>)
  {
    forall k :: 0 <= k < |ops| ==> Allowed(Run(s, ops[..k]), ops[k])
  }

  lemma {:induction false} StepKeepsOk<T>(s: State<T>, op: Op<T>)
    requires Ok(s) && Allowed(s, op)
    ensures Ok(Step(s, op)) && Step(s, op).idle == s.idle
    ensures s.dead <= Step(s, op).dead && Step(s, op).current !in Step(s, op).dead
  {
  }

  lemma {:induction false} LegalPrefix<T>(s: State<T>, ops: seq<Op<T>>, k: nat)
    requires Legal(s, ops) && k <= |ops|
    ensures Legal(s, ops[..k])
  {
    forall j | 0 <= j < k ensures Allowed(Run(s, ops[..k][..j]), ops[..k][j]) {
      assert ops[..k][..j] == ops[..j];
    }
  }

  /** Over every run the queue has no repetition, excludes the current process, and holds idle exactly
      when idle does not run; whoever has exited never waits or runs again. */
  lemma {:induction false} RunKeepsOk<T>(s: State<T>, ops: seq<Op<T>>, k: nat)
    requires Ok(s) && Legal(s, ops) && k <= |ops|
    ensures Ok(Run(s, ops)) && Run(s, ops).idle == s.idle
    ensures Run(s, ops[..k]).dead <= Run(s, ops).dead
    ensures Run(s, ops).current !in Run(s, ops[..k]).dead
    decreases |ops|
  {
    if ops != [] {
      var n := |ops| - 1;
      LegalPrefix(s, ops, n);
      RunKeepsOk(s, ops[..n], if k <= n then k else n);
      assert k <= n ==> ops[..n][..k] == ops[..k];
      assert k > n ==> ops[..k] == ops;
      assert ops[..n] == ops[..|ops| - 1];
      StepKeepsOk(Run(s, ops[..n]), ops[n]);
    } else {
      assert ops[..k] == ops;
    }
  }

  /** How often schedule() is called. */
  function Calls<T>(ops: seq<Op<T>>): nat
  {
    if ops == [] then 0 else Calls(ops[..|ops| - 1]) + if ops[|ops| - 1].Create? then 0 else 1
  }

  lemma {:induction false} MovesUpOnce<T>(s: State<T>, op: Op<T>, p: T, m: nat)
    requires Ok(s) && m < |s.queue| && s.queue[m] == p
    ensures op.Create? ==> m < |Step(s, op).queue| && Step(s, op).queue[m] == p
    ensures !op.Create? && m > 0 ==> m - 1 < |Step(s, op).queue| && Step(s, op).queue[m - 1] == p
    ensures !op.Create? && m == 0 ==> Step(s, op).current == p
  {
  }

  /** A waiting process moves up one place at every call of schedule(), and no other way. */
  lemma {:induction false} WaitingMovesUp<T>(s: State<T>, ops: seq<Op<T>>, p: T, k: nat)
    requires Ok(s) && Legal(s, ops) && k < |s.queue| && s.queue[k] == p && Calls(ops) <= k
    ensures var t := Run(s, ops); k - Calls(ops) < |t.queue| && t.queue[k - Calls(ops)] == p
    decreases |ops|
  {
    if ops != [] {
      var n := |ops| - 1;
      LegalPrefix(s, ops, n);
      WaitingMovesUp(s, ops[..n], p, k);
      RunKeepsOk(s, ops[..n], 0);
      MovesUpOnce(Run(s, ops[..n]), ops[n], p, k - Calls(ops[..n]));
    }
  }

  /** Bounded waiting: the process at position k runs after the (k+1)-th call of schedule(), and not before. */
  lemma {:induction false} DispatchedInTurn<T>(s: State<T>, ops: seq<Op<T>>, p: T, k: nat)
    requires Ok(s) && Legal(s, ops) && k < |s.queue| && s.queue[k] == p
    requires ops != [] && !ops[|ops| - 1].Create?
    ensures Calls(ops) == k + 1 ==> Run(s, ops).current == p
    ensures Calls(ops) <= k ==> Run(s, ops).current != p
  {
    var n := |ops| - 1;
    LegalPrefix(s, ops, n);
    if Calls(ops) == k + 1 {
      WaitingMovesUp(s, ops[..n], p, k);
      RunKeepsOk(s, ops[..n], 0);
      MovesUpOnce(Run(s, ops[..n]), ops[n], p, 0);
    } else if Calls(ops) <= k {
      WaitingMovesUp(s, ops, p, k);
      RunKeepsOk(s, ops, 0);
      var t := Run(s, ops);
      assert t.queue[k - Calls(ops)] in t.queue;
    }
  }

  // ---------------------------------------------------------------- nobody is lost

  /** Who waits, runs or has exited. */
  ghost function Known<T>(s: State<T>): set<T>
  {
    (set p | p in s.queue) + {s.current} + s.dead
  }

  ghost function Created<T>(ops: seq<Op<T>>): set<T>
  {
    if ops == [] then {} else Created(ops[..|ops| - 1]) + Newcomer(ops[|ops| - 1])
  }

  function Newcomer<T>(op: Op<T>): set<T>
  {
    if op.Create? then {op.process} else {}
  }

  lemma {:induction false} StepLosesNobody<T>(s: State<T>, op: Op<T>)
    requires Ok(s) && Allowed(s, op)
    ensures Known(Step(s, op)) == Known(s) + Newcomer(op)
  {
    var t := Step(s, op);
    forall p ensures p in Known(t) <==> p in Known(s) || p in Newcomer(op) {
      assert s.queue != [] ==> s.queue == [s.queue[0]] + s.queue[1..];
    }
  }

  /** Over every run everyone who was there, or has been created, waits, runs or has exited. */
  lemma {:induction false} NobodyLost<T>(s: State<T>, ops: seq<Op<T>>)
    requires Ok(s) && Legal(s, ops)
    ensures Known(Run(s, ops)) == Known(s) + Created(ops)
    decreases |ops|
  {
    if ops != [] {
      var n := |ops| - 1;
      var front := ops[..n];
      LegalPrefix(s, ops, n);
      NobodyLost(s, front);
      RunKeepsOk(s, front, 0);
      StepLosesNobody(Run(s, front), ops[n]);
      assert Known(s) + Created(front) + Newcomer(ops[n]) == Known(s) + Created(ops);
    }
  }

  /** A process that has to make way waits last. */
  lemma {:induction false} PreemptedWaitsLast<T>(s: State<T>)
    requires Ok(s) && s.queue != []
    ensures Step(s, Schedule).current == s.queue[0]
    ensures Step(s, Schedule).queue == s.queue[1..] + [s.current]
  {
  }

  /** So it runs again after as many more calls as there were waiting, and not before. */
  lemma {:induction false} PreemptedRunsAgain<T>(s: State<T>, ops: seq<Op<T>>)
    requires Ok(s) && s.queue != [] && Legal(Step(s, Schedule), ops) && ops != [] && !ops[|ops| - 1].Create?
    ensures Calls(ops) == |s.queue| ==> Run(Step(s, Schedule), ops).current == s.current
    ensures Calls(ops) < |s.queue| ==> Run(Step(s, Schedule), ops).current != s.current
  {
    var t := Step(s, Schedule);
    StepKeepsOk(s, Schedule);
    PreemptedWaitsLast(s);
    DispatchedInTurn(t, ops, s.current, |s.queue| - 1);
  }

  /** Who runs, and then who waits, in order. */
  function Order<T>(s: State<T>): seq<T>
  {
    [s.current] + s.queue
  }

  function Ticks<T>(n: nat): seq<Op<T>>
  {
    seq(n, _ => Schedule)
  }

  /** k calls in a row turn the order by k places; after a whole round everything is as it was. */
  lemma {:induction false} RoundRobin<T>(s: State<T>, k: nat)
    requires Ok(s) && k <= |Order(s)|
    ensures Ok(Run(s, Ticks(k))) && Run(s, Ticks(k)).dead == s.dead && Run(s, Ticks(k)).idle == s.idle
    ensures Order(Run(s, Ticks(k))) == Order(s)[k..] + Order(s)[..k]
    ensures k == |Order(s)| ==> Run(s, Ticks(k)) == s
  {
    if k == 0 {
      assert Ticks<T>(0) == [];
      assert Order(s)[0..] == Order(s);
    } else {
      RoundRobin(s, k - 1);
      OneMoreTick(s, k);
      var t := Run(s, Ticks(k - 1));
      OneTurn(t);
      Turned(Order(s), k);
    }
    if k == |Order(s)| {
      SameOrder(s, Run(s, Ticks(k)));
    }
  }

  lemma {:induction false} OneMoreTick<T>(s: State<T>, k: nat)
    requires k > 0
    ensures Run(s, Ticks(k)) == Step(Run(s, Ticks(k - 1)), Schedule)
  {
    assert Ticks<T>(k)[..k - 1] == Ticks(k - 1);
  }

  lemma {:induction false} SameOrder<T>(s: State<T>, t: State<T>)
    requires Order(t) == Order(s)[|Order(s)|..] + Order(s)[..|Order(s)|]
    requires t.dead == s.dead && t.idle == s.idle
    ensures t == s
  {
    assert Order(t) == Order(s);
    assert t.queue == Order(t)[1..] == s.queue;
    assert t.current == Order(t)[0] == s.current;
  }

  lemma {:induction false} OneTurn<T>(s: State<T>)
    requires Ok(s)
    ensures Ok(Step(s, Schedule)) && Order(Step(s, Schedule)) == Order(s)[1..] + Order(s)[..1]
    ensures Step(s, Schedule).dead == s.dead && Step(s, Schedule).idle == s.idle
  {
    StepKeepsOk(s, Schedule);
    if s.queue != [] {
      PreemptedWaitsLast(s);
    }
  }

  lemma {:induction false} Turned<T>(order: seq<T>, k: nat)
    requires 0 < k <= |order|
    ensures var was := order[k - 1..] + order[..k - 1]; was[1..] + was[..1] == order[k..] + order[..k]
  {
  }

  /** An exit keeps order exactly when it is not idle that exits: a dead idle would run again. */
  lemma {:induction false} ExitKeepsOkIff<T>(s: State<T>)
    requires Ok(s)
    ensures Ok(Step(s, Exit)) <==> s.current != s.idle
  {
  }

  /** exec queues its new process and makes it current as well, whatever the state. */
  function Exec<T>(s: State<T>, p: T): State<T>
  {
    s.(queue := s.queue + [p], current := p, dead := s.dead + {s.current})
  }

  lemma {:induction false} ExecNeverKeepsOk<T>(s: State<T>, p: T)
    requires Ok(s) && Allowed(s, Create(p))
    ensures !Ok(Exec(s, p))
    ensures Exec(s, p).current == p && p in Exec(s, p).queue && s.current in Exec(s, p).dead
  {
  }
}
