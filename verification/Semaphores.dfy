/**
 Semaphores and the run queue (os/sem.c, os/sched.c) as a state machine.  Processes and
 semaphores are arbitrary values, so that the Kernel module can use its objects for them.
 The kernel blocks pre-emption while it works on a semaphore, so each call is one step.
 */
module Semaphores {
  import opened Options
  import opened Queues
  import opened Errno

  const BYTE := 256

  /** The process states that the scheduler and the semaphores use. */
  datatype Status = Unused | Running | NotRunning | Sleep

  /** `ax` is the value handed to the process when it continues: the result of its wait. */
  datatype ProcRec<S> = ProcRec(status: Status, waitSem: Option<S>, ax: int)

  datatype SemRec<P> = SemRec(value: nat, waiters: seq<P>)

  /** The current process stays on the run queue while it runs. */
  datatype State<P, S> = State(run: seq<P>, current: P, halted: bool,
                               procs: map<P, ProcRec<S>>, sems: map<S, SemRec<P>>)

  // --- The operations -----------------------------------------------------------

  ghost function SetRunnable<P, S>(st: State<P, S>, p: P): State<P, S>
    requires p in st.procs
  {
    if st.procs[p].status == Running then st
    else st.(procs := st.procs[p := st.procs[p].(status := Running)], run := st.run + [p])
  }

  ghost function RemoveRunnable<P, S>(st: State<P, S>, p: P): State<P, S>
    requires p in st.procs
  {
    if st.procs[p].status != Running then st
    else st.(procs := st.procs[p := st.procs[p].(status := NotRunning)], run := Minus(st.run, p))
  }

  /** schedule: switches to the first process on the run queue, or halts the system. */
  ghost function Schedule<P, S>(st: State<P, S>): State<P, S>
  {
    if st.run == [] then st.(halted := true) else st.(current := st.run[0])
  }

  /** The first waiter of `s` taken off its queue and given its result, not yet runnable. */
  ghost function Unwait<P, S>(st: State<P, S>, s: S, ax: int): State<P, S>
    requires s in st.sems && st.sems[s].waiters != [] && st.sems[s].waiters[0] in st.procs
  {
    var p := st.sems[s].waiters[0];
    st.(sems := st.sems[s := st.sems[s].(waiters := st.sems[s].waiters[1..])],
        procs := st.procs[p := st.procs[p].(ax := ax, waitSem := None)])
  }

  /** Takes the first waiter off the semaphore and makes it runnable with result `ax`. */
  ghost function WakeFirst<P, S>(st: State<P, S>, s: S, ax: int): State<P, S>
    requires s in st.sems && st.sems[s].waiters != [] && st.sems[s].waiters[0] in st.procs
  {
    SetRunnable(Unwait(st, s, ax), st.sems[s].waiters[0])
  }

  ghost function SetValue<P, S>(st: State<P, S>, s: S, value: nat): State<P, S>
    requires s in st.sems
  {
    st.(sems := st.sems[s := st.sems[s].(value := value)])
  }

  ghost function Wakeup<P, S>(st: State<P, S>, s: S): State<P, S>
    requires s in st.sems && (st.sems[s].waiters != [] ==> st.sems[s].waiters[0] in st.procs)
  {
    if st.sems[s].waiters != [] then WakeFirst(st, s, 0)
    else SetValue(st, s, 1)
  }

  ghost function Signal<P, S>(st: State<P, S>, s: S): State<P, S>
    requires s in st.sems && (st.sems[s].waiters != [] ==> st.sems[s].waiters[0] in st.procs)
  {
    if st.sems[s].value == 0 then Wakeup(st, s)
    else SetValue(st, s, (st.sems[s].value + 1) % BYTE)
  }

  ghost function SignalMonitor<P, S>(st: State<P, S>, s: S): State<P, S>
    requires s in st.sems && (st.sems[s].waiters != [] ==> st.sems[s].waiters[0] in st.procs)
  {
    if st.sems[s].value == 0 then Wakeup(st, s) else st
  }

  /** Process `p`, which is on no queue, put to sleep at the end of the semaphore's queue. */
  ghost function Enqueue<P, S>(st: State<P, S>, s: S, p: P): State<P, S>
    requires s in st.sems && p in st.procs
  {
    st.(sems := st.sems[s := st.sems[s].(waiters := st.sems[s].waiters + [p])],
        procs := st.procs[p := st.procs[p].(waitSem := Some(s), status := Sleep)])
  }

  /** Puts the current process to sleep. */
  ghost function Block<P, S>(st: State<P, S>, s: S): State<P, S>
    requires s in st.sems && st.current in st.procs
  {
    Enqueue(RemoveRunnable(st, st.current), s, st.current)
  }

  ghost function Wait<P, S>(st: State<P, S>, s: S): State<P, S>
    requires s in st.sems && st.current in st.procs
  {
    if st.sems[s].value != 0
    then SetValue(st, s, st.sems[s].value - 1)
    else Schedule(Block(st, s))
  }

  /** sem_interrupt: wakes waiters one at a time until there are none. */
  ghost function Interrupt<P, S>(st: State<P, S>, s: S): State<P, S>
    requires s in st.sems && forall i :: 0 <= i < |st.sems[s].waiters| ==> st.sems[s].waiters[i] in st.procs
    decreases |st.sems[s].waiters|
  {
    if st.sems[s].waiters == [] then st else Interrupt(WakeFirst(st, s, -EINTR), s)
  }

  // --- The invariant --------------------------------------------------------------

  /** The run queue holds exactly the running processes, once each. */
  ghost predicate RunOk<P, S>(st: State<P, S>)
  {
    && NoDup(st.run)
    && (forall p :: p in st.run ==> p in st.procs)
    && forall p :: p in st.procs ==> (p in st.run <==> st.procs[p].status == Running)
  }

  /** A semaphore's queue holds exactly the processes that sleep on it, once each, and is
      empty when the value is not zero. */
  ghost predicate SemOk<P, S>(st: State<P, S>, s: S)
    requires s in st.sems
  {
    && NoDup(st.sems[s].waiters)
    && (forall p :: p in st.sems[s].waiters ==> p in st.procs)
    && (forall p :: p in st.procs ==>
          (p in st.sems[s].waiters <==> st.procs[p].status == Sleep && st.procs[p].waitSem == Some(s)))
    && st.sems[s].value < BYTE
    && (st.sems[s].value > 0 ==> st.sems[s].waiters == [])
  }

  /** A process sleeps exactly while it waits for a semaphore, and for one that there is. */
  ghost predicate SleepOk<P, S>(st: State<P, S>)
  {
    forall p :: p in st.procs ==>
      match st.procs[p].waitSem
      case None => st.procs[p].status != Sleep
      case Some(s) => st.procs[p].status == Sleep && s in st.sems
  }

  ghost predicate Inv<P, S>(st: State<P, S>)
  {
    && RunOk(st) && SleepOk(st)
    && (forall s :: s in st.sems ==> SemOk(st, s))
    && st.current in st.procs
    && (!st.halted ==> st.procs[st.current].status == Running)
  }

  /** Each process is on at most one queue, and a process that sleeps is on the queue of the
      semaphore that it waits for. */
  lemma OnOneQueue<P, S>(st: State<P, S>, p: P, s: S, s': S)
    requires Inv(st) && s in st.sems && s' in st.sems
    ensures p in st.run ==> p !in st.sems[s].waiters
    ensures p in st.sems[s].waiters && p in st.sems[s'].waiters ==> s == s'
    ensures p in st.procs && st.procs[p].status == Sleep ==>
              && st.procs[p].waitSem.Some? && st.procs[p].waitSem.value in st.sems
              && p in st.sems[st.procs[p].waitSem.value].waiters
  {
    assert SemOk(st, s) && SemOk(st, s');
    if p in st.procs && st.procs[p].status == Sleep {
      assert SemOk(st, st.procs[p].waitSem.value);
    }
  }

  lemma WakeFirstInv<P, S>(st: State<P, S>, s: S, ax: int)
    requires Inv(st) && s in st.sems && st.sems[s].waiters != []
    ensures st.sems[s].waiters[0] in st.procs && Inv(WakeFirst(st, s, ax))
    ensures WakeFirst(st, s, ax).current == st.current && WakeFirst(st, s, ax).halted == st.halted
    ensures WakeFirst(st, s, ax).run == st.run + [st.sems[s].waiters[0]]
    ensures WakeFirst(st, s, ax).sems == st.sems[s := st.sems[s].(waiters := st.sems[s].waiters[1..])]
    ensures WakeFirst(st, s, ax).procs == st.procs[st.sems[s].waiters[0] := ProcRec(Running, None, ax)]
  {
    WakeFirstIs(st, s, ax);
    assert SemOk(st, s);
    var p := st.sems[s].waiters[0];
    assert p in st.sems[s].waiters;
    var st' := WakeFirst(st, s, ax);
    hide WakeFirst;
    TailFacts(st.sems[s].waiters);
    forall t | t in st'.sems ensures SemOk(st', t) {
      hide RunOk;
      hide SleepOk;
      assert SemOk(st, t);
    }
    assert RunOk(st') by {
      hide SemOk;
      hide SleepOk;
      AppendFacts(st.run, p);
    }
  }

  /** The new state, field by field. */
  lemma WakeFirstIs<P, S>(st: State<P, S>, s: S, ax: int)
    requires Inv(st) && s in st.sems && st.sems[s].waiters != []
    ensures var p := st.sems[s].waiters[0];
            && p in st.procs && st.procs[p].status == Sleep && p !in st.run
            && WakeFirst(st, s, ax) == State(st.run + [p], st.current, st.halted,
                                             st.procs[p := ProcRec(Running, None, ax)],
                                             st.sems[s := st.sems[s].(waiters := st.sems[s].waiters[1..])])
  {
    hide SleepOk;
    assert SemOk(st, s);
    assert st.sems[s].waiters[0] in st.sems[s].waiters;
  }

  lemma SignalInv<P, S>(st: State<P, S>, s: S)
    requires Inv(st) && s in st.sems
    ensures st.sems[s].waiters != [] ==> st.sems[s].waiters[0] in st.procs
    ensures Inv(Signal(st, s)) && Inv(SignalMonitor(st, s))
  {
    assert SemOk(st, s);
    if st.sems[s].waiters != [] {
      WakeFirstInv(st, s, 0);
    } else {
      NewValueInv(st, s, (st.sems[s].value + 1) % BYTE);
      NewValueInv(st, s, 1);
    }
  }

  /** The value of a semaphore that nobody waits for is free to change. */
  lemma NewValueInv<P, S>(st: State<P, S>, s: S, value: nat)
    requires Inv(st) && s in st.sems && st.sems[s].waiters == [] && value < BYTE
    ensures Inv(SetValue(st, s, value))
  {
    var st' := SetValue(st, s, value);
    forall t | t in st.sems ensures SemOk(st', t) { assert SemOk(st, t); }
  }

  lemma BlockInv<P, S>(st: State<P, S>, s: S)
    requires Inv(st) && !st.halted && s in st.sems && st.sems[s].value == 0
    ensures var st' := Block(st, s);
            && RunOk(st') && SleepOk(st') && (forall t :: t in st'.sems ==> SemOk(st', t))
            && st'.run == Minus(st.run, st.current)
            && st'.sems == st.sems[s := st.sems[s].(waiters := st.sems[s].waiters + [st.current])]
  {
    var p := st.current;
    var st' := Block(st, s);
    assert SemOk(st, s);
    MinusFacts(st.run, p);
    assert st'.run == Minus(st.run, p);
    AppendFacts(st.sems[s].waiters, p);
    forall t | t in st'.sems ensures SemOk(st', t) {
      assert SemOk(st, t);
    }
  }

  lemma WaitInv<P, S>(st: State<P, S>, s: S)
    requires Inv(st) && !st.halted && s in st.sems
    ensures Inv(Wait(st, s))
  {
    var st' := Wait(st, s);
    assert SemOk(st, s);
    if st.sems[s].value != 0 {
      forall t | t in st'.sems ensures SemOk(st', t) { assert SemOk(st, t); }
    } else {
      BlockInv(st, s);
      var b := Block(st, s);
      assert b.run != [] ==> b.run[0] in b.run;
      forall t | t in st'.sems ensures SemOk(st', t) { assert SemOk(b, t); }
    }
  }

  /** All waiters of `s` moved to the end of the run queue at once, each with -EINTR as its
      result; no semaphore value changes. */
  ghost function InterruptAll<P, S>(st: State<P, S>, s: S): State<P, S>
    requires s in st.sems
  {
    var w := st.sems[s].waiters;
    st.(run := st.run + w,
        sems := st.sems[s := SemRec(st.sems[s].value, [])],
        procs := map p | p in st.procs :: if p in w then ProcRec(Running, None, -EINTR) else st.procs[p])
  }

  lemma InterruptOne<P, S>(st: State<P, S>, s: S)
    requires Inv(st) && s in st.sems && st.sems[s].waiters != []
    ensures st.sems[s].waiters[0] in st.procs
    ensures InterruptAll(WakeFirst(st, s, -EINTR), s) == InterruptAll(st, s)
  {
    hide WakeFirst;
    hide RunOk;
    hide SleepOk;
    assert SemOk(st, s);
    var w := st.sems[s].waiters;
    WakeFirstIs(st, s, -EINTR);
    hide Inv;
    hide SemOk;
    var st1 := WakeFirst(st, s, -EINTR);
    assert st.run + w == (st.run + [w[0]]) + w[1..];
    WakeRest(st.procs, w);
    assert InterruptAll(st1, s).sems == InterruptAll(st, s).sems;
  }

  /** Waking the first and then the rest is waking all. */
  lemma WakeRest<P, S>(procs: map<P, ProcRec<S>>, w: seq<P>)
    requires w != [] && w[0] in procs
    ensures var woken := ProcRec(Running, None, -EINTR);
            var procs1 := procs[w[0] := woken];
            (map p | p in procs1 :: if p in w[1..] then woken else procs1[p]) ==
            (map p | p in procs :: if p in w then woken else procs[p])
  {
    assert w == [w[0]] + w[1..];
  }

  lemma InterruptNone<P, S>(st: State<P, S>, s: S)
    requires s in st.sems && st.sems[s].waiters == []
    ensures InterruptAll(st, s) == st
  {
    assert st.run + st.sems[s].waiters == st.run;
    assert InterruptAll(st, s).procs == st.procs;
    assert InterruptAll(st, s).sems == st.sems;
  }

  /** The loop of sem_interrupt ends, and does what InterruptAll says. */
  lemma {:induction false} InterruptFacts<P, S>(st: State<P, S>, s: S)
    requires Inv(st) && s in st.sems
    ensures forall i :: 0 <= i < |st.sems[s].waiters| ==> st.sems[s].waiters[i] in st.procs
    ensures Inv(Interrupt(st, s)) && Interrupt(st, s) == InterruptAll(st, s)
    decreases |st.sems[s].waiters|
  {
    hide InterruptAll;
    hide RunOk;
    hide SleepOk;
    assert SemOk(st, s);
    hide SemOk;
    if st.sems[s].waiters == [] {
      InterruptNone(st, s);
    } else {
      WakeFirstInv(st, s, -EINTR);
      InterruptOne(st, s);
      InterruptFacts(WakeFirst(st, s, -EINTR), s);
    }
  }

  // --- Runs -------------------------------------------------------------------------

  /** What can happen next.  Wait and the signals are calls by the current process; Dispatch
      stands for any choice of a runnable process to continue; Start is a new process;
      Suspend takes another process off the run queue. */
  datatype Step<P, S> =
    | DoWait(s: S) | DoSignal(s: S) | DoMonitor(s: S) | DoInterrupt(s: S)
    | Dispatch(p: P) | Start(p: P) | Suspend(p: P)

  ghost predicate Enabled<P, S>(st: State<P, S>, step: Step<P, S>)
  {
    && !st.halted
    && match step
       case DoWait(s) => s in st.sems
       case DoSignal(s) => s in st.sems
       case DoMonitor(s) => s in st.sems
       case DoInterrupt(s) => s in st.sems
       case Dispatch(p) => p in st.run
       case Start(p) => p !in st.procs
       case Suspend(p) => p in st.procs && p != st.current
  }

  ghost function Apply<P, S>(st: State<P, S>, step: Step<P, S>): State<P, S>
    requires Inv(st) && Enabled(st, step)
  {
    match step
    case DoWait(s) => Wait(st, s)
    case DoSignal(s) => SignalInv(st, s); Signal(st, s)
    case DoMonitor(s) => SignalInv(st, s); SignalMonitor(st, s)
    case DoInterrupt(s) => InterruptFacts(st, s); Interrupt(st, s)
    case Dispatch(p) => st.(current := p)
    case Start(p) => SetRunnable(st.(procs := st.procs[p := ProcRec(Unused, None, 0)]), p)
    case Suspend(p) => RemoveRunnable(st, p)
  }

  lemma StartInv<P, S>(st: State<P, S>, p: P)
    requires Inv(st) && p !in st.procs
    ensures Inv(SetRunnable(st.(procs := st.procs[p := ProcRec(Unused, None, 0)]), p))
  {
    hide SemOk;
    var st' := SetRunnable(st.(procs := st.procs[p := ProcRec(Unused, None, 0)]), p);
    forall t | t in st'.sems ensures SemOk(st', t) {
      StartSem(st, p, t);
    }
    AppendFacts(st.run, p);
  }

  lemma StartSem<P, S>(st: State<P, S>, p: P, t: S)
    requires t in st.sems && SemOk(st, t) && p !in st.procs
    ensures SemOk(SetRunnable(st.(procs := st.procs[p := ProcRec(Unused, None, 0)]), p), t)
  {
  }

  lemma SuspendInv<P, S>(st: State<P, S>, p: P)
    requires Inv(st) && p in st.procs && p != st.current
    ensures Inv(RemoveRunnable(st, p))
  {
    var st' := RemoveRunnable(st, p);
    MinusFacts(st.run, p);
    assert st.procs[p].status == Running ==> st'.run == Minus(st.run, p);
    forall t | t in st'.sems ensures SemOk(st', t) { assert SemOk(st, t); }
  }

  lemma DispatchInv<P, S>(st: State<P, S>, p: P)
    requires Inv(st) && p in st.run
    ensures Inv(st.(current := p))
  {
    var st' := st.(current := p);
    forall t | t in st'.sems ensures SemOk(st', t) { assert SemOk(st, t); }
  }

  /** Every step keeps the queue invariant. */
  lemma ApplyInv<P, S>(st: State<P, S>, step: Step<P, S>)
    requires Inv(st) && Enabled(st, step)
    ensures Inv(Apply(st, step))
  {
    match step
    case DoWait(s) => WaitInv(st, s);
    case DoSignal(s) => SignalInv(st, s);
    case DoMonitor(s) => SignalInv(st, s);
    case DoInterrupt(s) => InterruptFacts(st, s);
    case Dispatch(p) => DispatchInv(st, p);
    case Start(p) => StartInv(st, p);
    case Suspend(p) => SuspendInv(st, p);
  }
}
