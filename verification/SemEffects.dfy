/**
 What each call on semaphores and the scheduler does (os/sem.c, os/sched.c), told by the
 queues, values and process records before and after.
 */
module SemEffects {
  import opened Options
  import opened Queues
  import opened Errno
  import opened Semaphores

  /** Only the record of `p` changes. */
  ghost predicate OnlyProc<P, S>(st: State<P, S>, st': State<P, S>, p: P)
  {
    && st'.procs.Keys == st.procs.Keys + {p}
    && forall q :: q in st.procs && q != p ==> st'.procs[q] == st.procs[q]
  }

  /** Only the semaphore `s` changes. */
  ghost predicate OnlySem<P, S>(st: State<P, S>, st': State<P, S>, s: S)
  {
    && st'.sems.Keys == st.sems.Keys
    && forall t :: t in st.sems && t != s ==> st'.sems[t] == st.sems[t]
  }

  /** `now` is `was` without `p`, in the same order. */
  ghost predicate Removed<P>(was: seq<P>, now: seq<P>, p: P)
  {
    exists i :: 0 <= i < |was| && was[i] == p && now == was[..i] + was[i + 1..]
  }

  lemma MinusRemoves<P>(s: seq<P>, p: P)
    requires NoDup(s) && p in s
    ensures Removed(s, Minus(s, p), p)
  {
    var i :| 0 <= i < |s| && s[i] == p;
    MinusAt(s, i);
  }

  // --- Waiting -----------------------------------------------------------------------------

  /** A unit that is there is taken, and the process goes on. */
  lemma WaitTakes<P, S>(st: State<P, S>, s: S)
    requires Inv(st) && Enabled(st, DoWait(s)) && st.sems[s].value > 0
    ensures var st' := Apply(st, DoWait(s));
            && st' == st.(sems := st'.sems) && OnlySem(st, st', s)
            && st'.sems[s].value == st.sems[s].value - 1 && st'.sems[s].waiters == st.sems[s].waiters
  {
    hide RunOk;
    hide SemOk;
    hide SleepOk;
  }

  /** Otherwise the process leaves the run queue, sleeps at the end of the semaphore's queue, and
      the first of the run queue continues; with no one left, the system halts. */
  lemma WaitBlocks<P, S>(st: State<P, S>, s: S)
    requires Inv(st) && Enabled(st, DoWait(s)) && st.sems[s].value == 0
    ensures var st', p := Apply(st, DoWait(s)), st.current;
            && Removed(st.run, st'.run, p) && OnlyProc(st, st', p) && OnlySem(st, st', s)
            && st'.procs[p].status == Sleep && st'.procs[p].waitSem == Some(s) && st'.procs[p].ax == st.procs[p].ax
            && st'.sems[s].value == 0 && st'.sems[s].waiters == st.sems[s].waiters + [p]
            && (st'.run != [] ==> st'.current == st'.run[0] && !st'.halted)
            && (st'.run == [] ==> st'.current == p && st'.halted)
  {
    hide SemOk;
    hide SleepOk;
    MinusRemoves(st.run, st.current);
    hide Removed;
    hide Minus;
    hide NoDup;
  }

  // --- Signalling ---------------------------------------------------------------------------

  /** A signal wakes the first waiter, which gets the unit and result 0 and is last to run; with
      no one waiting it adds a unit, in a byte.  The current process goes on. */
  lemma SignalEffect<P, S>(st: State<P, S>, s: S)
    requires Inv(st) && Enabled(st, DoSignal(s))
    ensures var st', v, w := Apply(st, DoSignal(s)), st.sems[s].value, st.sems[s].waiters;
            && st'.current == st.current && st'.halted == st.halted && OnlySem(st, st', s)
            && (w == [] ==>
                  st' == st.(sems := st'.sems) && st'.sems[s].value == (v + 1) % 256 && st'.sems[s].waiters == [])
            && (w != [] ==>
                  && st'.run == st.run + [w[0]] && OnlyProc(st, st', w[0])
                  && st'.procs[w[0]] == ProcRec(Running, None, 0)
                  && st'.sems[s].value == 0 && st'.sems[s].waiters == w[1..])
  {
    hide Inv;
    hide WakeFirst;
    SemFacts(st, s);
    if st.sems[s].waiters != [] { WakeFirstIs(st, s, 0); }
  }

  lemma SemFacts<P, S>(st: State<P, S>, s: S)
    requires Inv(st) && s in st.sems
    ensures st.sems[s].value < 256
    ensures st.sems[s].waiters != [] ==> st.sems[s].value == 0 && st.sems[s].waiters[0] in st.procs
  {
    hide RunOk;
    hide SleepOk;
    assert SemOk(st, s);
  }

  /** The monitor's signal is the same while the value is 0, and otherwise does nothing. */
  lemma MonitorEffect<P, S>(st: State<P, S>, s: S)
    requires Inv(st) && Enabled(st, DoMonitor(s))
    ensures Apply(st, DoMonitor(s)) == if st.sems[s].value == 0 then Apply(st, DoSignal(s)) else st
  {
    hide RunOk;
    hide SemOk;
    hide SleepOk;
  }

  /** All waiters become last to run, in their order, and are told of the interruption. */
  lemma InterruptEffect<P, S>(st: State<P, S>, s: S)
    requires Inv(st) && Enabled(st, DoInterrupt(s))
    ensures var st', w := Apply(st, DoInterrupt(s)), st.sems[s].waiters;
            && st'.current == st.current && st'.halted == st.halted && st'.run == st.run + w && OnlySem(st, st', s)
            && st'.sems[s].value == st.sems[s].value && st'.sems[s].waiters == []
            && st'.procs.Keys == st.procs.Keys
            && (forall p :: p in w ==> p in st.procs && st'.procs[p] == ProcRec(Running, None, -EINTR))
            && (forall p :: p in st.procs && p !in w ==> st'.procs[p] == st.procs[p])
  {
    InterruptFacts(st, s);
    hide Interrupt;
    hide RunOk;
    hide SemOk;
    hide SleepOk;
  }

  // --- The scheduler ------------------------------------------------------------------------------

  /** A new process is the last to run. */
  lemma StartEffect<P, S>(st: State<P, S>, p: P)
    requires Inv(st) && Enabled(st, Start(p))
    ensures var st' := Apply(st, Start(p));
            && st' == st.(run := st.run + [p], procs := st'.procs) && OnlyProc(st, st', p)
            && st'.procs[p] == ProcRec(Running, None, 0)
  {
    hide Inv;
  }

  /** A process that is suspended leaves the run queue, and one that is not on it stays as it is. */
  lemma SuspendEffect<P, S>(st: State<P, S>, p: P)
    requires Inv(st) && Enabled(st, Suspend(p))
    ensures var st' := Apply(st, Suspend(p));
            if p in st.run then
              && st' == st.(run := st'.run, procs := st'.procs) && Removed(st.run, st'.run, p)
              && OnlyProc(st, st', p) && st'.procs[p] == st.procs[p].(status := NotRunning)
            else st' == st
  {
    RunFacts(st, p);
    hide Inv;
    hide Removed;
    hide Minus;
  }

  lemma RunFacts<P, S>(st: State<P, S>, p: P)
    requires Inv(st) && p in st.procs
    ensures p in st.run <==> st.procs[p].status == Running
    ensures p in st.run ==> Removed(st.run, Minus(st.run, p), p)
  {
    hide SemOk;
    hide SleepOk;
    if p in st.run { MinusRemoves(st.run, p); }
    hide Removed;
  }

  /** Continuing another process changes nothing else. */
  lemma DispatchEffect<P, S>(st: State<P, S>, p: P)
    requires Inv(st) && Enabled(st, Dispatch(p))
    ensures Apply(st, Dispatch(p)) == st.(current := p)
  {
    hide Inv;
  }
}
