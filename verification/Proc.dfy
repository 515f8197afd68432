/**
 The scheduler's own data (kernel/InitKernel/proc.c): process control blocks linked through their
 `next` fields into a ready queue with a head and a tail, the current process, and the idle process.
 */
module Proc {
  import opened Words
  import opened Collections
  import opened Scheduling

  datatype Status = READY | RUNNING | BLOCKED | ZOMBIE

  class Pcb {
    var pid: Word
    var status: Status
    var next: Pcb?

    constructor (pid: Word, status: Status)
      ensures this.pid == pid && this.status == status && next == null
    {
      this.pid, this.status, this.next := pid, status, null;
    }
  }

  class Scheduler {
    var head: Pcb?
    var tail: Pcb?
    var current: Pcb?
    var nextPid: Word
    var ready: bool
    const idle: Pcb

    ghost var queue: seq<Pcb>  // head to tail
    ghost var dead: set<Pcb>
    ghost var all: set<Pcb>  // every process there has been

    /** The links run through the queue from head to tail. */
    ghost predicate Linked()
      reads this, all
    {
      && (forall i :: 0 <= i < |queue| ==> queue[i] in all)
      && head == (if queue == [] then null else queue[0])
      && tail == (if queue == [] then null else queue[|queue| - 1])
      && (forall i :: 0 <= i < |queue| - 1 ==> queue[i].next == queue[i + 1])
      && (queue != [] ==> queue[|queue| - 1].next == null)
      && Distinct(queue)
    }

    /** Waiting processes are READY, exited ones ZOMBIE. */
    ghost predicate Marked()
      reads this, all
    {
      && (forall p :: p in queue && p in all ==> p.status == READY)
      && (forall p :: p in dead ==> p in all && p.status == ZOMBIE)
    }

    ghost function Abs(): State<Pcb>
      requires current != null
      reads this
    {
      State(queue, current, idle, dead)
    }

    ghost predicate Valid()
      reads this, all
    {
      && idle in all && Linked() && Marked()
      && (if ready then current != null && current in all && current.status == RUNNING && Ok(Abs())
          else current == null && idle !in queue && dead == {})
    }

    /** Before scheduler_init. */
    constructor ()
      ensures Valid() && fresh(all) && !ready && queue == [] && nextPid == 1
    {
      idle := new Pcb(0, READY);
      head, tail, current, nextPid, ready := null, null, null, 1, false;
      queue, dead := [], {};
      new;
      all := {idle};
    }

    method Enqueue(p: Pcb)
      requires p in all && p !in queue && Linked()
      modifies this`head, this`tail, this`queue, all`next, p`status
      ensures Linked() && queue == old(queue) + [p] && p.status == READY
    {
      p.next := null;
      p.status := READY;
      if tail != null {
        tail.next := p;
        tail := p;
      } else {
        head, tail := p, p;
      }
      queue := queue + [p];
    }

    method Dequeue() returns (p: Pcb?)
      requires Linked()
      modifies this`head, this`tail, this`queue
      ensures Linked()
      ensures old(queue) == [] ==> p == null && queue == []
      ensures old(queue) != [] ==> p == old(queue)[0] && queue == old(queue)[1..]
    {
      p := head;
      if head == null {
        return;
      }
      head := head.next;
      if head == null {
        tail := null;
      }
      queue := queue[1..];
    }

    /** scheduler_init: idle is current, and not queued. */
    method Init()
      requires Valid() && !ready
      modifies this`current, this`ready, idle
      ensures Valid() && ready && current == idle && queue == old(queue) && idle.pid == 0
    {
      idle.pid := 0;
      idle.status := RUNNING;
      current := idle;
      ready := true;
    }

    /** proc_create_from_elf's part in scheduling: a new process, or nothing if loading fails. */
    method Create(loaded: bool) returns (p: Pcb?)
      requires Valid()
      modifies this, all`next
      ensures Valid() && ready == old(ready) && current == old(current)
      ensures p == null <==> !loaded
      ensures !loaded ==> queue == old(queue) && nextPid == old(nextPid) && dead == old(dead)
      ensures loaded ==> fresh(p) && p.pid == old(nextPid) && nextPid == WrapAdd(old(nextPid), 1)
      ensures loaded ==> queue == old(queue) + [p] && dead == old(dead) && all == old(all) + {p}
      ensures loaded && ready ==>
                Allowed(old(Abs()), Scheduling.Create(p)) && Abs() == Step(old(Abs()), Scheduling.Create(p))
    {
      if !loaded {
        return null;
      }
      p := new Pcb(nextPid, READY);
      nextPid := WrapAdd(nextPid, 1);
      all := all + {p};
      if ready {
        StepKeepsOk(Abs(), Scheduling.Create(p));
      }
      Enqueue(p);
    }

    /** A process that could go on waits at the end of the queue. */
    method StepAside(prev: Pcb)
      requires prev in all && prev !in queue && Linked() && Marked()
      modifies this`head, this`tail, this`queue, all`next, prev`status
      ensures Linked() && Marked()
      ensures queue == if old(prev.status) == RUNNING then old(queue) + [prev] else old(queue)
    {
      if prev.status == RUNNING {
        Enqueue(prev);
        prev.status := READY;
      }
    }

    method Dispatch(next: Pcb)
      requires next in all && next !in queue && next !in dead && Linked() && Marked()
      modifies this`current, next`status
      ensures Linked() && Marked() && current == next && next.status == RUNNING
    {
      current := next;
      next.status := RUNNING;
    }

    /** schedule(), for the state `was` before the operation it belongs to. */
    method Schedule(ghost was: State<Pcb>, ghost op: Op<Pcb>)
      requires ready ==> idle in all && Linked() && Marked() && current != null && current in all
      requires ready ==>
                Ok(was) && Allowed(was, op) && !op.Create? && was.queue == queue && was.current == current &&
                was.idle == idle
      requires ready ==> dead == (if op.Exit? then was.dead + {current} else was.dead)
      requires ready ==> current.status == (if op.Exit? then ZOMBIE else RUNNING)
      requires !ready ==> Valid()
      modifies this`head, this`tail, this`queue, this`current, all`next, all`status
      ensures Valid() && ready == old(ready) && (!ready ==> queue == old(queue) && current == old(current))
      ensures ready ==> Abs() == Step(was, op)
    {
      if !ready {
        return;
      }
      StepKeepsOk(was, op);
      var prev := current;
      var next := Dequeue();
      if next == null {
        next := idle;
      }
      if prev == next {
        return;
      }
      StepAside(prev);
      Dispatch(next);
      assert Abs() == Step(was, op);
    }

    /** A timer tick's or yield's call. */
    method Tick()
      requires Valid()
      modifies this`head, this`tail, this`queue, this`current, all`next, all`status
      ensures Valid() && ready == old(ready)
      ensures !ready ==> queue == old(queue) && current == old(current)
      ensures ready ==> Abs() == Step(old(Abs()), Op<Pcb>.Schedule)
    {
      ghost var was := if ready then Abs() else State([], idle, idle, {});
      Schedule(was, Op<Pcb>.Schedule);
    }

    /** The exit system call. */
    method Exit()
      requires Valid() && ready && current != idle
      modifies this`head, this`tail, this`queue, this`current, this`dead, all`next, all`status
      ensures Valid() && ready && Abs() == Step(old(Abs()), Op<Pcb>.Exit)
      ensures old(current) in dead && current != old(current)
    {
      ghost var was := Abs();
      current.status := ZOMBIE;
      dead := dead + {current};
      Schedule(was, Op<Pcb>.Exit);
    }
  }
}
