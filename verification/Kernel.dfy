/**
 The semaphore and scheduler calls of os/sem.c and os/sched.c on the intrusive queues of
 TailQueue.  Every method is proved to perform one step of the machine in Semaphores.
 */
module Kernel {
  import opened Options
  import opened Queues
  import opened Errno
  import opened Semaphores
  import opened TailQueue
  import SemRuns

  ghost predicate Apart(a: seq<Proc>, b: seq<Proc>) { forall p :: p in a ==> p !in b }

  class Kernel {
    const runnable: RunQueue
    var current: Proc
    var halted: bool
    ghost var procs: set<Proc>
    ghost var sems: set<Sem>
    /** The run queue and the waiting queues of all semaphores. */
    ghost var queues: set<RunQueue>

    /** The state of the machine that the objects represent. */
    ghost function Abs(): State<Proc, Sem>
      requires SemQueues()
      reads this, procs, sems, queues
    {
      State(runnable.elems, current, halted,
            map p | p in procs :: ProcRec(p.status, p.waitSem, p.ax),
            map s | s in sems :: SemRec(s.value, s.waiters.elems))
    }

    /** Each semaphore has a queue of its own, different from the run queue. */
    ghost predicate SemQueues()
      reads this
    {
      && runnable in queues
      && (forall s :: s in sems ==> s.waiters in queues && s.waiters != runnable)
      && (forall s, t :: s in sems && t in sems && s != t ==> s.waiters != t.waiters)
    }

    /** The queues are well linked, hold known processes and share none. */
    ghost predicate QueuesOk()
      reads this, queues, procs`next, procs`prev
    {
      && (forall q :: q in queues ==> forall p :: p in q.elems ==> p in procs)
      && (forall q :: q in queues ==> q.Valid())
      && (forall q, r :: q in queues && r in queues && q != r ==> Apart(q.elems, r.elems))
    }

    ghost predicate Valid()
      reads this, procs, sems, queues
    {
      SemQueues() && QueuesOk() && Inv(Abs())
    }

    /** On no queue at all: the state in the middle of a move. */
    ghost predicate OffQueues(p: Proc)
      reads this, queues
    {
      p in procs && forall q :: q in queues ==> p !in q.elems
    }

    lemma QueueFacts(q: RunQueue)
      requires QueuesOk() && q in queues
      ensures q.Valid() && NoDup(q.elems) && forall p :: p in q.elems ==> p in procs
    {
    }

    // --- Moves between queues ---------------------------------------------------------

    /** TAILQ_INSERT_TAIL, seen from all queues at once. */
    method Join(q: RunQueue, p: Proc)
      requires QueuesOk() && q in queues && OffQueues(p)
      modifies q, procs`next, procs`prev
      ensures QueuesOk() && q.elems == old(q.elems) + [p]
    {
      hide RunQueue.Valid;
      q.InsertTail(p);
    }

    /** TAILQ_REMOVE, seen from all queues at once. */
    method Leave(q: RunQueue, p: Proc)
      requires QueuesOk() && q in queues && p in q.elems
      modifies q, procs`next, procs`prev
      ensures QueuesOk() && q.elems == Minus(old(q.elems), p) && OffQueues(p)
    {
      assert NoDup(q.elems);
      hide RunQueue.Valid;
      hide Minus;
      hide NoDup;
      MinusFacts(q.elems, p);
      q.Remove(p);
    }

    // --- os/sched.c -----------------------------------------------------------------

    /** sched_init and proc_create: an empty run queue and a first process that is on no queue yet. */
    constructor (first: Proc, sems: set<Sem>)
      requires first.status == Unused && first.waitSem == None && first.ax == 0
      requires forall s :: s in sems ==> s.waiters.Valid() && s.waiters.elems == [] && s.value < BYTE
      requires forall s, t :: s in sems && t in sems && s != t ==> s.waiters != t.waiters
      ensures SemQueues() && QueuesOk() && fresh(runnable) && runnable.elems == []
      ensures procs == {first} && this.sems == sems && current == first && !halted
      ensures queues == {runnable} + set s | s in sems :: s.waiters
    {
      runnable := new RunQueue();
      current := first;
      halted := false;
      procs := {first};
      this.sems := sems;
      new;
      queues := {runnable} + set s | s in sems :: s.waiters;
    }

    /** Apart from the run queue and the links, only the status of `p` has changed. */
    twostate predicate OnlyStatusChanged(p: Proc)
      requires old(SemQueues())
      reads this, procs, sems, queues
    {
      && p in procs && unchanged(this)
      && (forall q :: q in procs ==>
            q.waitSem == old(q.waitSem) && q.ax == old(q.ax) && (q != p ==> q.status == old(q.status)))
      && (forall s :: s in sems ==> s.value == old(s.value) && s.waiters.elems == old(s.waiters.elems))
    }

    twostate lemma AbsAfterSetRunnable(p: Proc)
      requires old(SemQueues()) && OnlyStatusChanged(p) && p.status == Running && old(p.status) != Running
      requires runnable.elems == old(runnable.elems) + [p]
      ensures p in old(Abs()).procs && Abs() == SetRunnable(old(Abs()), p)
    {
      assert Abs().sems == old(Abs()).sems;
      assert Abs().procs == old(Abs()).procs[p := old(Abs()).procs[p].(status := Running)];
    }

    twostate lemma AbsAfterRemoveRunnable(p: Proc)
      requires old(SemQueues()) && OnlyStatusChanged(p) && p.status == NotRunning && old(p.status) == Running
      requires runnable.elems == Minus(old(runnable.elems), p)
      ensures p in old(Abs()).procs && Abs() == RemoveRunnable(old(Abs()), p)
    {
      hide Minus;
      assert Abs().sems == old(Abs()).sems;
      assert Abs().procs == old(Abs()).procs[p := old(Abs()).procs[p].(status := NotRunning)];
    }

    method SchedSetRunnable(p: Proc)
      requires SemQueues() && QueuesOk() && p in procs && (p.status != Running ==> OffQueues(p))
      modifies runnable, procs
      ensures QueuesOk() && Abs() == SetRunnable(old(Abs()), p)
    {
      hide QueuesOk;
      hide OffQueues;
      assert p in Abs().procs && Abs().procs[p].status == p.status;
      if p.status != Running {
        p.status := Running;
        Join(runnable, p);
        AbsAfterSetRunnable(p);
      }
      hide Abs;
    }

    method SchedRemoveRunnable(p: Proc)
      requires SemQueues() && QueuesOk() && p in procs && (p.status == Running <==> p in runnable.elems)
      modifies runnable, procs
      ensures QueuesOk() && Abs() == RemoveRunnable(old(Abs()), p)
      ensures p.status != Running && (old(p.status) == Running ==> OffQueues(p))
    {
      hide QueuesOk;
      hide OffQueues;
      hide Minus;
      assert p in Abs().procs && Abs().procs[p].status == p.status;
      if p.status == Running {
        p.status := NotRunning;
        Leave(runnable, p);
        AbsAfterRemoveRunnable(p);
      }
      hide Abs;
    }

    /** Makes the first process runnable: the machine is in its initial state. */
    method StartFirst()
      requires SemQueues() && QueuesOk() && procs == {current} && !halted && OffQueues(current)
      requires current.status == Unused && current.waitSem == None && current.ax == 0
      requires runnable.elems == [] && forall s :: s in sems ==> s.waiters.elems == [] && s.value < BYTE
      modifies runnable, procs
      ensures Valid() && Abs() == SemRuns.Boot<Proc, Sem>(current, map s | s in sems :: s.value)
    {
      hide QueuesOk;
      hide OffQueues;
      ghost var init := map s | s in sems :: s.value;
      assert SetRunnable(Abs(), current) == SemRuns.Boot<Proc, Sem>(current, init) by {
        assert Abs().sems == map s | s in init :: SemRec(init[s], []);
        assert Abs().procs == map[current := ProcRec(Unused, None, 0)];
      }
      SemRuns.BootInv<Proc, Sem>(current, init);
      hide Abs;
      hide SetRunnable;
      hide Inv;
      SchedSetRunnable(current);
    }

    /** A new process enters the machine and becomes runnable. */
    method StartProcess(p: Proc)
      requires Valid() && !halted && p !in procs && p.status == Unused && p.waitSem == None && p.ax == 0
      modifies this`procs, runnable, procs, p
      ensures Valid() && Enabled(old(Abs()), Start(p)) && Abs() == Apply(old(Abs()), Start(p))
    {
      hide Inv;
      hide QueuesOk;
      hide OffQueues;
      hide Abs;
      hide SetRunnable;
      NotYetKnown(p);
      StartInv(Abs(), p);
      Register(p);
      SchedSetRunnable(p);
    }

    lemma NotYetKnown(p: Proc)
      requires SemQueues() && p !in procs
      ensures p !in Abs().procs && Abs().halted == halted
    {
    }

    /** The process table entry of a new process. */
    method Register(p: Proc)
      requires SemQueues() && QueuesOk() && p !in procs && p.status == Unused && p.waitSem == None && p.ax == 0
      modifies this`procs
      ensures procs == old(procs) + {p} && QueuesOk() && OffQueues(p)
      ensures Abs() == old(Abs()).(procs := old(Abs()).procs[p := ProcRec(Unused, None, 0)])
    {
      hide RunQueue.Valid;
      ghost var st := Abs();
      procs := procs + {p};
      assert Abs().sems == st.sems && Abs().procs == st.procs[p := ProcRec(Unused, None, 0)];
    }

    /** schedule: the caller is switched out for good if nothing can run. */
    method Schedule()
      requires SemQueues() && QueuesOk()
      modifies this`current, this`halted
      ensures QueuesOk() && Abs() == Semaphores.Schedule(old(Abs()))
    {
      QueueFacts(runnable);
      hide QueuesOk;
      hide RunQueue.Valid;
      hide Semaphores.Schedule;
      var p := runnable.First();
      if p == null {
        halted := true;
      } else {
        current := p;
      }
      AbsAfterSwitch();
    }

    /** Nothing but the current process and the halt flag has changed. */
    twostate lemma AbsAfterSwitch()
      requires old(SemQueues()) && procs == old(procs) && sems == old(sems) && queues == old(queues)
      requires unchanged(procs) && unchanged(sems) && unchanged(queues)
      requires if runnable.elems == [] then halted && current == old(current)
               else halted == old(halted) && current == runnable.elems[0]
      ensures Abs() == Semaphores.Schedule(old(Abs()))
    {
      assert Abs().sems == old(Abs()).sems;
      assert Abs().procs == old(Abs()).procs;
    }

    // --- os/sem.c -------------------------------------------------------------------

    /** The first waiter has been taken off the queue of `s` and given its result. */
    twostate lemma AbsAfterUnwait(s: Sem)
      requires old(SemQueues()) && unchanged(this) && s in sems
      requires old(s.waiters.elems) != [] && old(s.waiters.elems)[0] in procs
      requires s.waiters.elems == old(s.waiters.elems)[1..] && s.value == old(s.value)
      requires runnable.elems == old(runnable.elems)
      requires forall t :: t in sems && t != s ==> t.value == old(t.value) && t.waiters.elems == old(t.waiters.elems)
      requires var p := old(s.waiters.elems)[0]; p.status == old(p.status) && p.waitSem == None
      requires forall q :: q in procs && q != old(s.waiters.elems)[0] ==>
                 q.waitSem == old(q.waitSem) && q.ax == old(q.ax) && q.status == old(q.status)
      ensures s in old(Abs()).sems && old(Abs()).sems[s].waiters == old(s.waiters.elems)
      ensures old(s.waiters.elems)[0] in old(Abs()).procs
      ensures Abs() == Unwait(old(Abs()), s, old(s.waiters.elems)[0].ax)
    {
      var st := Unwait(old(Abs()), s, old(s.waiters.elems)[0].ax);
      assert Abs().sems == st.sems;
      assert Abs().procs == st.procs;
    }

    /** The loop body of sem_interrupt, and the first branch of sem_wakeup. */
    method WakeFirst(s: Sem, p: Proc, ax: int)
      requires SemQueues() && QueuesOk() && s in sems && s.waiters.elems != [] && p == s.waiters.elems[0]
      requires p in procs && p.status != Running
      modifies runnable, procs, s.waiters
      ensures s in old(Abs()).sems && old(Abs()).sems[s].waiters == old(s.waiters.elems) && p in old(Abs()).procs
      ensures QueuesOk() && Abs() == Semaphores.WakeFirst(old(Abs()), s, ax)
    {
      hide QueuesOk;
      hide OffQueues;
      hide Minus;
      hide Abs;
      hide Unwait;
      hide SetRunnable;
      QueueFacts(s.waiters);
      TailFacts(s.waiters.elems);
      hide NoDup;
      hide RunQueue.Valid;
      Leave(s.waiters, p);
      p.ax := ax;
      p.waitSem := None;
      AbsAfterUnwait(s);
      SchedSetRunnable(p);
    }

    /** Only the value of `s` has changed. */
    twostate lemma AbsAfterValue(s: Sem)
      requires old(SemQueues()) && unchanged(this) && s in sems
      requires unchanged(procs) && unchanged(queues)
      requires forall t :: t in sems && t != s ==> t.value == old(t.value)
      ensures s in old(Abs()).sems && Abs() == SetValue(old(Abs()), s, s.value)
    {
      assert Abs().sems == SetValue(old(Abs()), s, s.value).sems;
      assert Abs().procs == old(Abs()).procs;
    }

    /** What the machine's invariant says about the objects. */
    lemma SemFacts(s: Sem)
      requires Valid() && s in sems
      ensures s in Abs().sems && Abs().sems[s] == SemRec(s.value, s.waiters.elems)
      ensures s.waiters.elems != [] ==>
                var p := s.waiters.elems[0]; p in procs && p in Abs().procs && p.status == Sleep && s.value == 0
    {
      assert SemOk(Abs(), s);
    }

    method SemWakeup(s: Sem)
      requires Valid() && s in sems
      modifies runnable, procs, s, s.waiters
      ensures s in old(Abs()).sems && (old(s.waiters.elems) != [] ==> old(s.waiters.elems)[0] in old(Abs()).procs)
      ensures old(Abs()).sems[s].waiters == old(s.waiters.elems)
      ensures QueuesOk() && Abs() == Wakeup(old(Abs()), s)
    {
      hide Inv;
      hide QueuesOk;
      hide Abs;
      hide RunQueue.Valid;
      hide NoDup;
      hide Semaphores.WakeFirst;
      hide SetValue;
      SemFacts(s);
      QueueFacts(s.waiters);
      var p := s.waiters.First();
      if p != null {
        WakeFirst(s, p, 0);
      } else {
        s.value := 1;
        AbsAfterValue(s);
      }
    }

    method SemSignal(s: Sem)
      requires Valid() && s in sems
      modifies runnable, procs, s, s.waiters
      ensures Valid() && s in old(Abs()).sems
      ensures old(Abs()).sems[s].waiters != [] ==> old(Abs()).sems[s].waiters[0] in old(Abs()).procs
      ensures Abs() == Signal(old(Abs()), s)
    {
      hide Inv;
      hide QueuesOk;
      hide Abs;
      hide Wakeup;
      hide SetValue;
      SemFacts(s);
      SignalInv(Abs(), s);
      hide SignalMonitor;
      var value := s.value;
      if value == 0 {
        SemWakeup(s);
      } else {
        s.value := (value + 1) % BYTE;
        AbsAfterValue(s);
      }
    }

    method SemSignalMonitor(s: Sem)
      requires Valid() && s in sems
      modifies runnable, procs, s, s.waiters
      ensures Valid() && s in old(Abs()).sems
      ensures old(Abs()).sems[s].waiters != [] ==> old(Abs()).sems[s].waiters[0] in old(Abs()).procs
      ensures Abs() == SignalMonitor(old(Abs()), s)
    {
      hide Inv;
      hide QueuesOk;
      hide Abs;
      hide Wakeup;
      SemFacts(s);
      SignalInv(Abs(), s);
      hide Signal;
      if s.value == 0 {
        SemWakeup(s);
      }
    }

    /** The current process has been put to sleep at the end of the queue of `s`. */
    twostate lemma AbsAfterEnqueue(s: Sem)
      requires old(SemQueues()) && unchanged(this) && s in sems && current in procs
      requires s.waiters.elems == old(s.waiters.elems) + [current] && s.value == old(s.value)
      requires runnable.elems == old(runnable.elems)
      requires forall t :: t in sems && t != s ==> t.value == old(t.value) && t.waiters.elems == old(t.waiters.elems)
      requires current.status == Sleep && current.waitSem == Some(s) && current.ax == old(current.ax)
      requires forall q :: q in procs && q != current ==>
                 q.waitSem == old(q.waitSem) && q.ax == old(q.ax) && q.status == old(q.status)
      ensures s in old(Abs()).sems && current in old(Abs()).procs
      ensures Abs() == Enqueue(old(Abs()), s, current)
    {
      var st := Enqueue(old(Abs()), s, current);
      assert Abs().sems == st.sems;
      assert Abs().procs == st.procs;
    }

    /** The part of sem_wait that puts the process on the waiting list. */
    method EnqueueCurrent(s: Sem)
      requires SemQueues() && QueuesOk() && s in sems && current in procs && OffQueues(current)
      modifies procs, s.waiters
      ensures s in old(Abs()).sems && current in old(Abs()).procs
      ensures QueuesOk() && Abs() == Enqueue(old(Abs()), s, current)
    {
      hide QueuesOk;
      hide OffQueues;
      hide Abs;
      hide Enqueue;
      Join(s.waiters, current);
      current.waitSem := Some(s);
      current.status := Sleep;
      AbsAfterEnqueue(s);
    }

    /** What the machine's invariant says about the running process. */
    lemma CurrentFacts()
      requires Valid() && !halted
      ensures current in procs && current in Abs().procs && Abs().current == current
      ensures current.status == Running && current in runnable.elems
    {
    }

    /** sem_wait.  The result of a wait that blocks is the `ax` of the process when it is
        woken: 0 after a signal, -EINTR after an interrupt. */
    method SemWait(s: Sem) returns (acquired: bool)
      requires Valid() && s in sems && !halted
      modifies this`current, this`halted, runnable, procs, s, s.waiters
      ensures Valid() && s in old(Abs()).sems && old(Abs()).current in old(Abs()).procs
      ensures Abs() == Wait(old(Abs()), s) && (acquired <==> old(s.value) != 0)
    {
      hide Inv;
      hide QueuesOk;
      hide OffQueues;
      hide Abs;
      hide SetValue;
      hide RemoveRunnable;
      hide Enqueue;
      hide Semaphores.Schedule;
      SemFacts(s);
      CurrentFacts();
      assert !Abs().halted by { CurrentIsAbs(); }
      WaitInv(Abs(), s);
      var value := s.value;
      if value != 0 {
        s.value := value - 1;
        AbsAfterValue(s);
        acquired := true;
      } else {
        SchedRemoveRunnable(current);
        EnqueueCurrent(s);
        Schedule();
        acquired := false;
      }
    }

    lemma CurrentIsAbs()
      requires SemQueues()
      ensures Abs().halted == halted && Abs().current == current
    {
    }

    /** sem_interrupt: every waiter becomes runnable, in order, with -EINTR as its result. */
    method SemInterrupt(s: Sem)
      requires Valid() && s in sems
      modifies runnable, procs, s.waiters
      ensures Valid() && s in old(Abs()).sems
      ensures Abs() == InterruptAll(old(Abs()), s) && s.waiters.elems == []
    {
      hide Inv;
      hide QueuesOk;
      hide Abs;
      hide RunQueue.Valid;
      hide NoDup;
      hide InterruptAll;
      hide Semaphores.WakeFirst;
      SemFacts(s);
      InterruptFacts(Abs(), s);
      while true
        invariant Valid() && s in Abs().sems
        invariant InterruptAll(Abs(), s) == InterruptAll(old(Abs()), s)
        decreases |s.waiters.elems|
      {
        SemFacts(s);
        QueueFacts(s.waiters);
        var p := s.waiters.First();
        if p == null {
          break;
        }
        InterruptOne(Abs(), s);
        WakeFirstInv(Abs(), s, -EINTR);
        WakeFirst(s, p, -EINTR);
        SemFacts(s);
      }
      InterruptFacts(Abs(), s);
    }
  }
}
