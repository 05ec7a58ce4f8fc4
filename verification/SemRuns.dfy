/**
 Whole runs of the semaphore machine: the queue invariant, first-in first-out wake-up with
 no lost wake-up, and conservation of the semaphore's units, which gives mutual exclusion.
 */
module SemRuns {
  import opened Options
  import opened Semaphores

  // --- Runs -------------------------------------------------------------------------

  /** Each step is enabled when its turn comes. */
  ghost predicate Legal<P, S>(st: State<P, S>, steps: seq<Step<P, S>>)
    requires Inv(st)
    decreases |steps|
  {
    steps != [] ==> Enabled(st, steps[0]) && (ApplyInv(st, steps[0]); Legal(Apply(st, steps[0]), steps[1..]))
  }

  /** The state after a run.  Every reachable state satisfies the queue invariant: a process
      is on the run queue exactly when it is running, and on the queue of the semaphore it
      waits for exactly when it sleeps. */
  ghost function Exec<P, S>(st: State<P, S>, steps: seq<Step<P, S>>): (end: State<P, S>)
    requires Inv(st) && Legal(st, steps)
    ensures Inv(end) && end.sems.Keys == st.sems.Keys && st.procs.Keys <= end.procs.Keys
    decreases |steps|
  {
    if steps == [] then st
    else
      ApplyInv(st, steps[0]);
      ApplyKeys(st, steps[0]);
      Exec(Apply(st, steps[0]), steps[1..])
  }

  lemma ApplyKeys<P, S>(st: State<P, S>, step: Step<P, S>)
    requires Inv(st) && Enabled(st, step)
    ensures Apply(st, step).sems.Keys == st.sems.Keys
    ensures st.procs.Keys <= Apply(st, step).procs.Keys
  {
    hide Inv;
    match step
    case DoWait(s) =>
    case DoSignal(s) => SignalInv(st, s);
    case DoMonitor(s) => SignalInv(st, s);
    case DoInterrupt(s) => InterruptFacts(st, s);
    case Dispatch(p) =>
    case Start(p) =>
    case Suspend(p) =>
  }

  /** The machine as it starts: one process running, no one waiting. */
  ghost function Boot<P, S>(first: P, init: map<S, nat>): State<P, S>
  {
    State([first], first, false, map[first := ProcRec(Running, None, 0)], map s | s in init :: SemRec(init[s], []))
  }

  lemma BootInv<P, S>(first: P, init: map<S, nat>)
    requires forall s :: s in init ==> init[s] < BYTE
    ensures Inv(Boot(first, init))
  {
    var st := Boot(first, init);
    forall s | s in st.sems ensures SemOk(st, s) {
    }
  }

  // --- First in, first out ------------------------------------------------------------

  ghost predicate Signals<P, S>(step: Step<P, S>, s: S) { step == DoSignal(s) || step == DoMonitor(s) }

  ghost function SignalCount<P, S>(steps: seq<Step<P, S>>, s: S): nat
  {
    if steps == [] then 0 else (if Signals(steps[0], s) then 1 else 0) + SignalCount(steps[1..], s)
  }

  ghost predicate NoInterrupt<P, S>(steps: seq<Step<P, S>>, s: S) { DoInterrupt(s) !in steps }

  /** A step that is no signal or interrupt of `s` leaves its waiters where they are. */
  lemma OtherStepKeepsWaiters<P, S>(st: State<P, S>, step: Step<P, S>, s: S)
    requires Inv(st) && Enabled(st, step) && s in st.sems
    requires !Signals(step, s) && step != DoInterrupt(s)
    ensures s in Apply(st, step).sems
    ensures st.sems[s].waiters <= Apply(st, step).sems[s].waiters
  {
    hide RunOk;
    hide SleepOk;
    assert SemOk(st, s);
    hide SemOk;
    hide Interrupt;
    match step
    case DoWait(t) => if st.sems[t].value == 0 { BlockInv(st, t); }
    case DoSignal(t) => SignalInv(st, t); if st.sems[t].waiters != [] { WakeFirstInv(st, t, 0); }
    case DoMonitor(t) => SignalInv(st, t); if st.sems[t].waiters != [] { WakeFirstInv(st, t, 0); }
    case DoInterrupt(t) => InterruptFacts(st, t);
    case Dispatch(p) =>
    case Start(p) =>
    case Suspend(p) =>
  }

  /** A signal on a semaphore with waiters wakes the first one, with result 0, and hands the
      unit over: the value stays zero. */
  lemma SignalWakesFirst<P, S>(st: State<P, S>, step: Step<P, S>, s: S)
    requires Inv(st) && Enabled(st, step) && Signals(step, s) && st.sems[s].waiters != []
    ensures var st', p := Apply(st, step), st.sems[s].waiters[0];
            && st'.run == st.run + [p]
            && p in st'.procs && st'.procs[p] == ProcRec(Running, None, 0)
            && s in st'.sems && st'.sems[s] == SemRec(0, st.sems[s].waiters[1..])
  {
    assert SemOk(st, s);
    WakeFirstInv(st, s, 0);
  }

  /** Without interrupts, a waiter with k ahead of it is still asleep after up to k signals,
      and has moved up by exactly that many places. */
  lemma {:induction false} WaiterMovesUp<P, S>(st: State<P, S>, steps: seq<Step<P, S>>, s: S, k: nat)
    requires Inv(st) && Legal(st, steps) && NoInterrupt(steps, s)
    requires s in st.sems && k < |st.sems[s].waiters| && SignalCount(steps, s) <= k
    ensures var w := Exec(st, steps).sems[s].waiters;
            k - SignalCount(steps, s) < |w| && w[k - SignalCount(steps, s)] == st.sems[s].waiters[k]
    decreases |steps|
  {
    hide Inv;
    hide Apply;
    if steps != [] {
      var st1 := Apply(st, steps[0]);
      var k1 := if Signals(steps[0], s) then k - 1 else k;
      assert Inv(st1) by { ApplyInv(st, steps[0]); }
      assert s in st1.sems && k1 < |st1.sems[s].waiters| && st1.sems[s].waiters[k1] == st.sems[s].waiters[k] by {
        if Signals(steps[0], s) {
          SignalWakesFirst(st, steps[0], s);
        } else {
          OtherStepKeepsWaiters(st, steps[0], s);
        }
      }
      WaiterMovesUp(st1, steps[1..], s, k1);
    }
  }

  /** First in, first out and no lost wake-up: absent interrupts, a waiter with k ahead of it
      is woken by exactly the (k+1)-th signal, whatever else happens in between. */
  lemma WokenBySignalNumber<P, S>(st: State<P, S>, before: seq<Step<P, S>>, signal: Step<P, S>, s: S, k: nat)
    requires Inv(st) && Legal(st, before) && NoInterrupt(before, s)
    requires s in st.sems && k < |st.sems[s].waiters| && SignalCount(before, s) == k
    requires Enabled(Exec(st, before), signal) && Signals(signal, s)
    ensures var p, mid := st.sems[s].waiters[k], Exec(st, before);
            var end := Apply(mid, signal);
            && p in mid.procs && mid.procs[p].status == Sleep && mid.procs[p].waitSem == Some(s)
            && p in end.procs && end.procs[p] == ProcRec(Running, None, 0)
            && end.run == mid.run + [p]
  {
    var mid := Exec(st, before);
    WaiterMovesUp(st, before, s, k);
    assert SemOk(mid, s);
    assert mid.sems[s].waiters[0] in mid.sems[s].waiters;
    SignalWakesFirst(mid, signal, s);
  }

  // --- Conservation ---------------------------------------------------------------------

  /** Which process holds how many units of each semaphore. */
  type Held<!P, !S> = map<S, multiset<P>>

  /** A unit is taken by a wait that does not block and by a direct hand-off; an interrupted
      wait takes none; a signal by the current process gives one back. */
  ghost function HeldAfter<P, S>(st: State<P, S>, held: Held<P, S>, step: Step<P, S>): Held<P, S>
    requires st.sems.Keys == held.Keys && Enabled(st, step)
  {
    match step
    case DoWait(s) =>
      if st.sems[s].value != 0 then held[s := held[s] + multiset{st.current}] else held
    case DoSignal(s) => HandOver(st, held, s)
    case DoMonitor(s) => HandOver(st, held, s)
    case _ => held
  }

  ghost function HandOver<P, S>(st: State<P, S>, held: Held<P, S>, s: S): Held<P, S>
    requires s in st.sems && s in held
  {
    var rest := held[s] - multiset{st.current};
    var SemRec(value, waiters) := st.sems[s];
    held[s := if value == 0 && waiters != [] then rest + multiset{waiters[0]} else rest]
  }

  /** Only holders signal, and monitor signals are for semaphores that start at 1. */
  ghost predicate Disciplined<P, S>(st: State<P, S>, held: Held<P, S>, init: map<S, nat>, step: Step<P, S>)
  {
    match step
    case DoSignal(s) => s in held && st.current in held[s]
    case DoMonitor(s) => s in held && st.current in held[s] && s in init && init[s] == 1
    case _ => true
  }

  ghost predicate Conserved<P, S>(st: State<P, S>, held: Held<P, S>, init: map<S, nat>)
  {
    && st.sems.Keys == held.Keys == init.Keys
    && forall s :: s in init ==> st.sems[s].value + |held[s]| == init[s] < BYTE
  }

  /** The value of semaphore `t` after a step. */
  ghost function ValueAfter<P, S>(st: State<P, S>, step: Step<P, S>, t: S): nat
    requires t in st.sems
  {
    var SemRec(value, waiters) := st.sems[t];
    if step == DoWait(t) && value != 0 then value - 1
    else if Signals(step, t) && value == 0 then if waiters == [] then 1 else 0
    else if step == DoSignal(t) then (value + 1) % BYTE
    else value
  }

  lemma WaitValue<P, S>(st: State<P, S>, s: S, t: S)
    requires Inv(st) && Enabled(st, DoWait(s)) && t in st.sems
    ensures t in Wait(st, s).sems && Wait(st, s).sems[t].value == ValueAfter(st, DoWait(s), t)
  {
    if st.sems[s].value == 0 { BlockInv(st, s); }
  }

  lemma WakeupValue<P, S>(st: State<P, S>, s: S, t: S)
    requires Inv(st) && s in st.sems && t in st.sems && st.sems[s].value == 0
    ensures st.sems[s].waiters != [] ==> st.sems[s].waiters[0] in st.procs
    ensures t in Wakeup(st, s).sems
    ensures Wakeup(st, s).sems[t].value == if t == s && st.sems[s].waiters == [] then 1 else st.sems[t].value
  {
    if st.sems[s].waiters != [] { WakeFirstInv(st, s, 0); }
  }

  lemma SignalValue<P, S>(st: State<P, S>, s: S, t: S)
    requires Inv(st) && Enabled(st, DoSignal(s)) && t in st.sems
    ensures st.sems[s].waiters != [] ==> st.sems[s].waiters[0] in st.procs
    ensures t in Signal(st, s).sems && Signal(st, s).sems[t].value == ValueAfter(st, DoSignal(s), t)
    ensures t in SignalMonitor(st, s).sems
    ensures SignalMonitor(st, s).sems[t].value == ValueAfter(st, DoMonitor(s), t)
  {
    assert SemOk(st, s);
    if st.sems[s].value == 0 { WakeupValue(st, s, t); }
    hide Inv;
    hide Wakeup;
  }

  lemma ApplyValue<P, S>(st: State<P, S>, step: Step<P, S>, t: S)
    requires Inv(st) && Enabled(st, step) && t in st.sems
    ensures t in Apply(st, step).sems && Apply(st, step).sems[t].value == ValueAfter(st, step, t)
  {
    hide Inv;
    hide Wait;
    hide Signal;
    hide SignalMonitor;
    hide Interrupt;
    match step
    case DoWait(s) => WaitValue(st, s, t);
    case DoSignal(s) => SignalValue(st, s, t);
    case DoMonitor(s) => SignalValue(st, s, t);
    case DoInterrupt(s) => InterruptFacts(st, s);
    case Dispatch(p) =>
    case Start(p) =>
    case Suspend(p) =>
  }

  lemma TakeOne<P>(m: multiset<P>, p: P)
    requires p in m
    ensures |m| >= 1 && |m - multiset{p}| == |m| - 1
  {
  }

  lemma HeldKeys<P, S>(st: State<P, S>, held: Held<P, S>, step: Step<P, S>)
    requires st.sems.Keys == held.Keys && Enabled(st, step)
    ensures HeldAfter(st, held, step).Keys == held.Keys
  {
  }

  /** Values and units held balance after a step exactly when they did before. */
  lemma UnitsAfter<P, S>(st: State<P, S>, held: Held<P, S>, step: Step<P, S>, t: S)
    requires Enabled(st, step) && st.sems.Keys == held.Keys && t in held
    requires st.sems[t].value > 0 ==> st.sems[t].waiters == []
    requires Signals(step, t) ==> st.current in held[t]
    requires st.sems[t].value + |held[t]| < BYTE
    ensures var v := ValueAfter(st, step, t) + |HeldAfter(st, held, step)[t]|;
            if step == DoMonitor(t) && st.sems[t].value != 0 then v == st.sems[t].value + |held[t]| - 1
            else v == st.sems[t].value + |held[t]|
  {
    hide HeldAfter;
    hide HandOver;
    hide ValueAfter;
    if step == DoWait(t) {
      UnitsAfterWait(st, held, t);
    } else if Signals(step, t) {
      UnitsAfterSignal(st, held, step, t);
    } else {
      UnitsElsewhere(st, held, step, t);
    }
  }

  lemma UnitsAfterWait<P, S>(st: State<P, S>, held: Held<P, S>, t: S)
    requires Enabled(st, DoWait(t)) && st.sems.Keys == held.Keys && t in held
    ensures ValueAfter(st, DoWait(t), t) + |HeldAfter(st, held, DoWait(t))[t]| == st.sems[t].value + |held[t]|
  {
  }

  lemma UnitsAfterSignal<P, S>(st: State<P, S>, held: Held<P, S>, step: Step<P, S>, t: S)
    requires Enabled(st, step) && st.sems.Keys == held.Keys && t in held && Signals(step, t) && st.current in held[t]
    requires st.sems[t].value + |held[t]| < BYTE
    requires st.sems[t].value > 0 ==> st.sems[t].waiters == []
    ensures var v := ValueAfter(st, step, t) + |HeldAfter(st, held, step)[t]|;
            if step == DoMonitor(t) && st.sems[t].value != 0 then v == st.sems[t].value + |held[t]| - 1
            else v == st.sems[t].value + |held[t]|
  {
    TakeOne(held[t], st.current);
    assert HeldAfter(st, held, step) == HandOver(st, held, t);
    HandOverSize(st, held, t);
    hide HandOver;
    hide HeldAfter;
    var value := st.sems[t].value;
    assert value > 0 ==> (value + 1) % BYTE == value + 1;
  }

  lemma HandOverSize<P, S>(st: State<P, S>, held: Held<P, S>, t: S)
    requires t in st.sems && t in held && st.current in held[t]
    ensures t in HandOver(st, held, t)
    ensures |HandOver(st, held, t)[t]| ==
              if st.sems[t].value == 0 && st.sems[t].waiters != [] then |held[t]| else |held[t]| - 1
  {
    TakeOne(held[t], st.current);
  }

  lemma UnitsElsewhere<P, S>(st: State<P, S>, held: Held<P, S>, step: Step<P, S>, t: S)
    requires Enabled(st, step) && st.sems.Keys == held.Keys && t in held && !Signals(step, t) && step != DoWait(t)
    ensures t in HeldAfter(st, held, step) && HeldAfter(st, held, step)[t] == held[t]
    ensures ValueAfter(st, step, t) == st.sems[t].value
  {
  }

  lemma ConservedStep<P, S>(st: State<P, S>, held: Held<P, S>, init: map<S, nat>, step: Step<P, S>)
    requires Inv(st) && Enabled(st, step) && Conserved(st, held, init) && Disciplined(st, held, init, step)
    ensures Conserved(Apply(st, step), HeldAfter(st, held, step), init)
  {
    hide Apply;
    hide HeldAfter;
    var st', held' := Apply(st, step), HeldAfter(st, held, step);
    HeldKeys(st, held, step);
    ApplyKeys(st, step);
    forall t | t in init ensures st'.sems[t].value + |held'[t]| == init[t] {
      assert SemOk(st, t);
      ApplyValue(st, step, t);
      if step == DoMonitor(t) { TakeOne(held[t], st.current); }
      UnitsAfter(st, held, step, t);
    }
  }

  ghost predicate LegalAndDisciplined<P, S>(st: State<P, S>, held: Held<P, S>, init: map<S, nat>,
                                            steps: seq<Step<P, S>>)
    requires Inv(st) && st.sems.Keys == held.Keys
    decreases |steps|
  {
    hide Inv;
    hide Apply;
    hide HeldAfter;
    steps != [] ==>
      && Enabled(st, steps[0]) && Disciplined(st, held, init, steps[0])
      && (ApplyInv(st, steps[0]);
          ApplyKeys(st, steps[0]);
          HeldKeys(st, held, steps[0]);
          LegalAndDisciplined(Apply(st, steps[0]), HeldAfter(st, held, steps[0]), init, steps[1..]))
  }

  /** Who holds what after a run: every wait and every hand-off on the way counts. */
  ghost function HeldExec<P, S>(st: State<P, S>, held: Held<P, S>, steps: seq<Step<P, S>>): Held<P, S>
    requires Inv(st) && Legal(st, steps) && st.sems.Keys == held.Keys
    decreases |steps|
  {
    hide Inv;
    hide Apply;
    hide HeldAfter;
    if steps == [] then held
    else
      ApplyInv(st, steps[0]);
      ApplyKeys(st, steps[0]);
      HeldKeys(st, held, steps[0]);
      HeldExec(Apply(st, steps[0]), HeldAfter(st, held, steps[0]), steps[1..])
  }

  /** Over every run in which only holders signal, the value of a semaphore plus the number
      of units held equals its initial value. */
  lemma {:induction false} EveryRunConserves<P, S>(st: State<P, S>, held: Held<P, S>, init: map<S, nat>,
                                                   steps: seq<Step<P, S>>)
    requires Inv(st) && Conserved(st, held, init) && LegalAndDisciplined(st, held, init, steps)
    ensures Legal(st, steps) && Conserved(Exec(st, steps), HeldExec(st, held, steps), init)
    decreases |steps|
  {
    if steps != [] {
      ApplyInv(st, steps[0]);
      ConservedStep(st, held, init, steps[0]);
      EveryRunConserves(Apply(st, steps[0]), HeldAfter(st, held, steps[0]), init, steps[1..]);
    }
  }

  /** No one holds anything. */
  ghost function NoHolders<P, S>(init: map<S, nat>): Held<P, S> { map s | s in init :: multiset{} }

  /** A run of the machine from its start in which only holders signal. */
  ghost predicate KernelRun<P, S>(first: P, init: map<S, nat>, steps: seq<Step<P, S>>)
  {
    && (forall s :: s in init ==> init[s] < BYTE)
    && (BootInv(first, init); LegalAndDisciplined(Boot(first, init), NoHolders(init), init, steps))
  }

  /** The same, for the runs that start with no one holding anything. */
  lemma KernelRunConserves<P, S>(first: P, init: map<S, nat>, steps: seq<Step<P, S>>)
    requires KernelRun(first, init, steps)
    ensures var st: State<P, S> := Boot(first, init);
            && Inv(st) && Legal(st, steps)
            && Conserved(Exec(st, steps), HeldExec(st, NoHolders(init), steps), init)
  {
    BootInv<P, S>(first, init);
    EveryRunConserves(Boot(first, init), NoHolders(init), init, steps);
  }

  lemma TwoMembers<P>(m: multiset<P>, p: P, q: P)
    requires p in m && q in m && p != q
    ensures |m| >= 2
  {
    TakeOne(m, p);
    TakeOne(m - multiset{p}, q);
  }

  /** After every run, a semaphore that started at 1 has at most one holder, and none while
      its value is not zero. */
  lemma MutualExclusion<P, S>(first: P, init: map<S, nat>, steps: seq<Step<P, S>>, s: S, p: P, q: P)
    requires KernelRun(first, init, steps) && s in init && init[s] == 1
    ensures var st: State<P, S> := Boot(first, init);
            && Inv(st) && Legal(st, steps) && s in Exec(st, steps).sems
            && var held := HeldExec(st, NoHolders(init), steps);
               && s in held
               && (p in held[s] && q in held[s] ==> p == q && Exec(st, steps).sems[s].value == 0)
  {
    KernelRunConserves(first, init, steps);
    var held := HeldExec(Boot(first, init), NoHolders(init), steps);
    if p in held[s] && q in held[s] {
      TakeOne(held[s], p);
      if p != q {
        TwoMembers(held[s], p, q);
      }
    }
  }

  /** After every run, the signal of a holder does not wrap the 8-bit value. */
  lemma SignalDoesNotWrap<P, S>(first: P, init: map<S, nat>, steps: seq<Step<P, S>>, s: S)
    requires KernelRun(first, init, steps) && s in init
    ensures var st: State<P, S> := Boot(first, init);
            && Inv(st) && Legal(st, steps) && s in Exec(st, steps).sems
            && var held := HeldExec(st, NoHolders(init), steps);
               s in held && (Exec(st, steps).current in held[s] ==> Exec(st, steps).sems[s].value + 1 < BYTE)
  {
    KernelRunConserves(first, init, steps);
    var end := Exec(Boot(first, init), steps);
    var held := HeldExec(Boot(first, init), NoHolders(init), steps);
    if end.current in held[s] {
      TakeOne(held[s], end.current);
    }
  }

  /** A holder's monitor signal conserves the units exactly when the value is zero; on a
      semaphore with units left it loses one. */
  lemma MonitorConservesIff<P, S>(st: State<P, S>, held: Held<P, S>, init: map<S, nat>, s: S)
    requires Inv(st) && !st.halted && Conserved(st, held, init) && s in init && st.current in held[s]
    ensures Conserved(Apply(st, DoMonitor(s)), HeldAfter(st, held, DoMonitor(s)), init) <==> st.sems[s].value == 0
  {
    var step: Step<P, S> := DoMonitor(s);
    hide Apply;
    hide HeldAfter;
    var st', held' := Apply(st, step), HeldAfter(st, held, step);
    HeldKeys(st, held, step);
    ApplyKeys(st, step);
    forall t | t in init
      ensures st'.sems[t].value + |held'[t]| == init[t] <==> (t != s || st.sems[s].value == 0)
    {
      assert SemOk(st, t);
      ApplyValue(st, step, t);
      UnitsAfter(st, held, step, t);
    }
  }
}
