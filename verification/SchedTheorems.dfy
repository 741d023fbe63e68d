/** What holds of the scheduler in every run of any number of CPUs. */
module SchedTheorems {
  import opened Options
  import opened Seqs
  import opened SchedState

  /** Any interleaving of steps: each state but the first is one enabled step from the one before. */
  ghost predicate Run(states: seq<State>, events: seq<Event>) {
    && |states| == |events| + 1 && Inv(states[0])
    && forall i {:trigger Step(states, events, i)} :: 0 <= i < |events| ==> Step(states, events, i)
  }

  ghost predicate Step(states: seq<State>, events: seq<Event>, i: nat)
    requires i < |events| && |states| == |events| + 1
  {
    Inv(states[i]) ==> Enabled(states[i], events[i]) && states[i + 1] == Next(states[i], events[i])
  }

  /** The state before any CPU runs. */
  const START: State := State([], map[], map[], map[], map[], [], [])

  lemma StartValid()
    ensures Inv(START)
  {
  }

  lemma {:induction false} RunKeeps(states: seq<State>, events: seq<Event>, i: nat)
    requires Run(states, events) && i <= |events|
    ensures |states| == |events| + 1 && Inv(states[i])
    ensures i < |events| ==> Enabled(states[i], events[i]) && states[i + 1] == Next(states[i], events[i])
  {
    hide Inv, Enabled, Next;
    if i > 0 {
      RunKeeps(states, events, i - 1);
      StepKeeps(states[i - 1], events[i - 1]);
    }
    if i < |events| { assert Step(states, events, i); }
  }

  /** Every state that can be reached from the start, by any interleaving, keeps the invariant; what is proved of runs
      is proved of these. */
  lemma Reachable(states: seq<State>, events: seq<Event>, i: nat)
    requires |states| == |events| + 1 && states[0] == START && i <= |events|
    requires forall k {:trigger Step(states, events, k)} :: 0 <= k < |events| ==> Step(states, events, k)
    ensures Run(states, events) && Inv(states[i])
    ensures i < |events| ==> Enabled(states[i], events[i]) && states[i + 1] == Next(states[i], events[i])
  {
    hide Inv, Enabled, Next;
    StartValid();
    RunKeeps(states, events, i);
  }

  // ----- Ownership

  /** Where the queue and the CPUs themselves put a thread; no proof-only field is read. */
  ghost predicate At(s: State, t: Tid, p: Place) {
    t in s.threads &&
    match p
    case Queued => t in s.queue
    case Current(c) => c in s.cpus && s.cpus[c].gs == t
    case Incoming(c) => c in s.cpus && s.cpus[c].phase == Picked(t)
    case Leaving(c) => c in s.cpus && s.cpus[c].phase in {Adopted(t), Saved(t), Dropping(t)}
    case Parked(c) =>
      && c in s.cpus && s.cpus[c].idle == t && s.cpus[c].gs != t
      && s.cpus[c].phase !in {Picked(t), Adopted(t), Saved(t), Dropping(t)}
    case Detached => t !in s.queue && forall c :: c in s.cpus ==> t !in Own(s.cpus[c])
  }

  lemma AtIsPlace(s: State, t: Tid, p: Place)
    requires Inv(s) && t in s.threads
    ensures At(s, t, p) <==> s.place[t] == p
  {
    hide NoDup, StackOk;
    assert ThreadOk(s, t);
    if p.Detached? || s.place[t].Detached? || p.Queued? || s.place[t].Queued? {
      forall c | c in s.cpus
        ensures t in Own(s.cpus[c]) ==> s.place[t] in {Current(c), Incoming(c), Leaving(c), Parked(c)}
      {
        assert CpuOk(s, c);
      }
    } else {
      assert p.cpu in s.cpus ==> CpuOk(s, p.cpu);
      assert CpuOk(s, s.place[t].cpu);
    }
  }

  /** In every reachable state every thread is in exactly one place: queued, or with exactly one CPU, or not yet
      scheduled. */
  lemma ExactlyOnePlace(states: seq<State>, events: seq<Event>, i: nat, t: Tid)
    requires Run(states, events) && i <= |events| && t in states[i].threads
    ensures exists p :: At(states[i], t, p)
    ensures forall p, q :: At(states[i], t, p) && At(states[i], t, q) ==> p == q
    ensures NoDup(states[i].queue)
  {
    hide Run, Inv, At;
    RunKeeps(states, events, i);
    var s := states[i];
    NoneQueuedTwice(s);
    forall p ensures At(s, t, p) <==> s.place[t] == p { AtIsPlace(s, t, p); }
    assert At(s, t, s.place[t]);
  }

  lemma NoneQueuedTwice(s: State)
    requires Inv(s)
    ensures NoDup(s.queue) && s.threads.Keys == s.place.Keys
  {
  }

  // ----- Stacks

  /** No two CPUs run on one stack, and none on that of a queued thread, whose saved stack pointer is where it
      stopped. */
  lemma StacksApart(states: seq<State>, events: seq<Event>, i: nat, c: CpuId)
    requires Run(states, events) && i <= |events| && c in states[i].cpus
    ensures var s := states[i];
      && StackOf(s.cpus[c]) in s.top && s.top[StackOf(s.cpus[c])] == s.cpus[c].rsp
      && (forall d :: d in s.cpus && d != c ==> StackOf(s.cpus[d]) != StackOf(s.cpus[c]))
      && (forall t :: t in s.queue ==>
            t in s.threads && t in s.top && StackOf(s.cpus[c]) != t && s.top[t] == s.threads[t].rsp)
  {
    hide Run, Inv, NoDup;
    RunKeeps(states, events, i);
    var s := states[i];
    StackPlace(s, c);
    forall d | d in s.cpus && d != c ensures StackOf(s.cpus[d]) != StackOf(s.cpus[c]) { StackPlace(s, d); }
    forall t | t in s.queue
      ensures t in s.threads && t in s.top && StackOf(s.cpus[c]) != t && s.top[t] == s.threads[t].rsp
    {
      QueuedStack(s, t);
    }
  }

  lemma StackPlace(s: State, c: CpuId)
    requires Inv(s) && c in s.cpus
    ensures var t := StackOf(s.cpus[c]);
            && t in s.threads && t in s.top && t in s.place
            && CpuOf(s.place[t]) == {c} && s.top[t] == s.cpus[c].rsp
  {
    hide QueueOk;
    assert CpuOk(s, c);
    assert StackOk(s, StackOf(s.cpus[c]));
  }

  lemma QueuedStack(s: State, t: Tid)
    requires Inv(s) && t in s.queue
    ensures t in s.threads && t in s.top && t in s.place && s.place[t] == Queued && s.top[t] == s.threads[t].rsp
  {
    hide CpuOk, NoDup;
    assert StackOk(s, t);
  }

  /** A context switch resumes the next thread exactly where it stopped. */
  lemma ResumesWhereStopped(s: State, c: CpuId)
    requires Inv(s) && Enabled(s, Load(c))
    ensures var t := s.cpus[c].gs; t in s.threads && Next(s, Load(c)).cpus[c].rsp == s.top[t]
  {
    hide QueueOk;
    assert CpuOk(s, c);
    assert StackOk(s, s.cpus[c].gs);
  }

  /** The stack pointer that a step writes down for a thread. */
  function Stored(s: State, e: Event, t: Tid): Option<nat> {
    match e
    case Create(x, rsp) => if x == t then Some(rsp) else None
    case InitCpu(_, idle, idleRsp, _, _) => if idle == t then Some(idleRsp) else None
    case Save(c) => if c in s.cpus && s.cpus[c].phase == Adopted(t) then Some(s.cpus[c].rsp) else None
    case _ => None
  }

  /** A step that moves the stack pointer on the thread's stack. */
  predicate Moves(s: State, e: Event, t: Tid) {
    e.Move? && e.c in s.cpus && StackOf(s.cpus[e.c]) == t
  }

  /** Step i writes down `rsp` for t, and up to step j no other one does and nothing moves on the stack of t. */
  ghost predicate LastStored(states: seq<State>, events: seq<Event>, i: nat, j: nat, t: Tid, rsp: nat)
    requires j <= |events| < |states|
  {
    && i < j && Stored(states[i], events[i], t) == Some(rsp)
    && forall k {:trigger states[k]} {:trigger events[k]} :: i < k < j ==>
         t in states[k].threads && Stored(states[k], events[k], t).None? && !Moves(states[k], events[k], t)
  }

  /** The thread's last stack pointer is in its descriptor, and no CPU is on its stack but one that just saved it. */
  ghost predicate Resting(s: State, t: Tid) {
    t in s.threads && forall d :: d in s.cpus && StackOf(s.cpus[d]) == t ==> s.cpus[d].phase == Saved(t)
  }

  lemma StepBack(s: State, e: Event, t: Tid)
    requires Inv(s) && Enabled(s, e) && Resting(Next(s, e), t)
    ensures Stored(s, e, t).Some? ==> Stored(s, e, t) == Some(Next(s, e).threads[t].rsp)
    ensures Stored(s, e, t).None? ==>
      Resting(s, t) && s.threads[t].rsp == Next(s, e).threads[t].rsp && !Moves(s, e, t)
  {
    hide ThreadsOk, QueueOk;
    var u := Next(s, e);
    if !e.Create? && !e.Schedule? && e.c in s.cpus { assert CpuOk(s, e.c); }
    if e.InitCpu? { assert e.c in u.cpus && StackOf(u.cpus[e.c]) == e.dummy; }
    forall d | d in s.cpus && StackOf(s.cpus[d]) == t && Stored(s, e, t).None? ensures s.cpus[d].phase == Saved(t) {
      assert CpuOk(s, d);
      assert d in u.cpus;
    }
  }

  lemma {:induction false} FindStored(states: seq<State>, events: seq<Event>, j: nat, t: Tid)
    requires Run(states, events) && states[0] == START && j <= |events| && Resting(states[j], t)
    ensures exists i :: LastStored(states, events, i, j, t, states[j].threads[t].rsp)
    decreases j
  {
    hide Run, Inv, Next, Enabled, Stored, Moves;
    if j > 0 {
      RunKeeps(states, events, j - 1);
      var s, e, rsp := states[j - 1], events[j - 1], states[j].threads[t].rsp;
      StepBack(s, e, t);
      if Stored(s, e, t).Some? {
        assert LastStored(states, events, j - 1, j, t, rsp);
      } else {
        FindStored(states, events, j - 1, t);
        var i :| LastStored(states, events, i, j - 1, t, rsp);
        assert LastStored(states, events, i, j, t, rsp);
      }
    }
  }

  lemma NextRests(s: State, c: CpuId)
    requires Inv(s) && Enabled(s, Load(c))
    ensures Resting(s, s.cpus[c].gs) && Next(s, Load(c)).cpus[c].rsp == s.threads[s.cpus[c].gs].rsp
  {
    hide QueueOk, ThreadsOk;
    assert CpuOk(s, c);
    forall d | d in s.cpus && StackOf(s.cpus[d]) == s.cpus[c].gs ensures s.cpus[d].phase == Saved(s.cpus[c].gs) {
      assert CpuOk(s, d);
    }
  }

  /** The stack pointer that a switch loads for a thread is the one that was in the register of the CPU that last saved
      the thread, whichever CPU that was, or the one the thread was made with; in between nothing ran on its stack. */
  lemma ResumesWhereSaved(states: seq<State>, events: seq<Event>, j: nat, c: CpuId)
    requires Run(states, events) && states[0] == START && j < |events| && events[j] == Load(c)
    ensures c in states[j].cpus && c in states[j + 1].cpus
    ensures var t, rsp := states[j].cpus[c].gs, states[j + 1].cpus[c].rsp;
      exists i :: LastStored(states, events, i, j, t, rsp)
  {
    hide Run, Inv, Next, LastStored, Resting;
    RunKeeps(states, events, j);
    NextRests(states[j], c);
    LoadKeepsCpus(states[j], c);
    FindStored(states, events, j, states[j].cpus[c].gs);
  }

  lemma LoadKeepsCpus(s: State, c: CpuId)
    requires Inv(s) && Enabled(s, Load(c))
    ensures c in s.cpus && c in Next(s, Load(c)).cpus
  {
    assert CpuOk(s, c);
  }

  // ----- A switch runs to its end

  /** The steps of one CPU from picking a thread to dropping the last one. */
  predicate SwitchStep(e: Event, c: CpuId) {
    e in {Pick(c), Adopt(c), Save(c), Load(c), Drop(c)}
  }

  /** How many of them are among steps i to j. */
  function SwitchSteps(events: seq<Event>, c: CpuId, i: nat, j: nat): nat
    requires j <= |events|
    decreases j
  {
    if j <= i then 0 else SwitchSteps(events, c, i, j - 1) + if SwitchStep(events[j - 1], c) then 1 else 0
  }

  /** CPU c has taken k steps of a switch from t, which is marked or not, to `next`. */
  ghost predicate Switching(s: State, c: CpuId, t: Tid, marked: bool, next: Tid, idle: Tid, k: nat) {
    && c in s.cpus && s.cpus[c].idle == idle && t in s.threads && next != t
    && (marked <==> s.threads[t].state == Destroy)
    && s.cpus[c].gs == (if k == 1 then t else next)
    && match k
       case 1 => s.cpus[c].phase == Picked(next)
       case 2 => s.cpus[c].phase == Adopted(t)
       case 3 => s.cpus[c].phase == Saved(t)
       case 4 => s.cpus[c].phase == Dropping(t)
       case _ => false
  }

  /** A pick gives up the CPU to a ready thread other than the current one, the first of the queue or else the idle
      thread, except that the idle thread itself stays while nothing is queued. */
  lemma PickGivesUp(s: State, c: CpuId)
    requires Inv(s) && Enabled(s, Pick(c))
    ensures var u, cpu := Next(s, Pick(c)), s.cpus[c];
      var next := if s.queue != [] then s.queue[0] else cpu.idle;
      && cpu.gs in s.threads && next in s.threads && s.threads[next].state == Ready
      && if s.queue == [] && cpu.gs == cpu.idle then u == s
         else Switching(u, c, cpu.gs, s.threads[cpu.gs].state == Destroy, next, cpu.idle, 1)
  {
    hide StackOk;
    assert CpuOk(s, c);
    if s.queue != [] { assert ThreadOk(s, s.queue[0]); }
  }

  /** What becomes of the thread that was switched from, and where the CPU is. */
  ghost predicate Switched(s: State, c: CpuId, t: Tid, marked: bool, next: Tid, idle: Tid) {
    && c in s.cpus && s.cpus[c].phase == Running && s.cpus[c].gs == next && s.cpus[c].idle == idle
    && if t == idle then At(s, t, Parked(c))
       else if marked then t !in s.threads
       else t in s.threads && s.queue != [] && s.queue[|s.queue| - 1] == t
  }

  lemma SwitchUndisturbed(s: State, e: Event, c: CpuId, t: Tid, marked: bool, next: Tid, idle: Tid, k: nat)
    requires Inv(s) && Enabled(s, e) && Switching(s, c, t, marked, next, idle, k) && !SwitchStep(e, c)
    ensures Switching(Next(s, e), c, t, marked, next, idle, k)
  {
    hide ThreadsOk, QueueOk;
    assert CpuOk(s, c);
    if !e.Create? && !e.Schedule? && e.c in s.cpus { assert CpuOk(s, e.c); }
  }

  /** Steps of other CPUs do not disturb a switch, and its own advance it one by one. */
  lemma SwitchAdvances(s: State, e: Event, c: CpuId, t: Tid, marked: bool, next: Tid, idle: Tid, k: nat)
    requires Inv(s) && Enabled(s, e) && Switching(s, c, t, marked, next, idle, k)
    ensures if !SwitchStep(e, c) then Switching(Next(s, e), c, t, marked, next, idle, k)
            else if k < 4 then Switching(Next(s, e), c, t, marked, next, idle, k + 1)
            else Switched(Next(s, e), c, t, marked, next, idle)
  {
    hide ThreadsOk, QueueOk;
    if SwitchStep(e, c) {
      assert CpuOk(s, c);
    } else {
      hide Switching, Next, Inv, Enabled;
      SwitchUndisturbed(s, e, c, t, marked, next, idle, k);
    }
  }

  lemma {:induction false} SwitchGoesOn(states: seq<State>, events: seq<Event>, i: nat, j: nat, c: CpuId, t: Tid,
                                        marked: bool, next: Tid, idle: Tid, k: nat)
    requires Run(states, events) && i <= j <= |events| && Switching(states[i], c, t, marked, next, idle, k)
    requires k + SwitchSteps(events, c, i, j) <= 4
    ensures Switching(states[j], c, t, marked, next, idle, k + SwitchSteps(events, c, i, j))
    decreases j
  {
    hide Run, Inv, Enabled, Next, Switching, Switched, SwitchStep;
    if i < j {
      SwitchGoesOn(states, events, i, j - 1, c, t, marked, next, idle, k);
      RunKeeps(states, events, j - 1);
      SwitchAdvances(states[j - 1], events[j - 1], c, t, marked, next, idle, k + SwitchSteps(events, c, i, j - 1));
    }
  }

  lemma SwitchEnds(states: seq<State>, events: seq<Event>, i: nat, j: nat, c: CpuId, t: Tid, marked: bool, next: Tid,
                   idle: Tid, k: nat)
    requires Run(states, events) && i < j <= |events| && Switching(states[i], c, t, marked, next, idle, k)
    requires k + SwitchSteps(events, c, i, j) == 5 && SwitchStep(events[j - 1], c)
    ensures Switched(states[j], c, t, marked, next, idle)
  {
    hide Run, Inv, Enabled, Next, Switching, Switched, SwitchStep;
    SwitchGoesOn(states, events, i, j - 1, c, t, marked, next, idle, k);
    RunKeeps(states, events, j - 1);
    SwitchAdvances(states[j - 1], events[j - 1], c, t, marked, next, idle, 4);
  }

  lemma StepsSplit(events: seq<Event>, c: CpuId, i: nat, m: nat, j: nat)
    requires i <= m <= j <= |events|
    ensures SwitchSteps(events, c, i, j) == SwitchSteps(events, c, i, m) + SwitchSteps(events, c, m, j)
    decreases j
  {
    if m < j { StepsSplit(events, c, i, m, j - 1); }
  }

  /** The fifth step of a CPU from a pick on ends the switch, whatever the other CPUs do in between: it runs the first
      queued thread or else its idle thread, and the last one is parked if idle, gone if it had exited, and queued last
      otherwise. */
  lemma SwitchCompletes(states: seq<State>, events: seq<Event>, i: nat, j: nat, c: CpuId)
    requires Run(states, events) && i < j <= |events| && events[i] == Pick(c)
    requires SwitchSteps(events, c, i, j) == 5 && SwitchStep(events[j - 1], c)
    ensures c in states[i].cpus && states[i].cpus[c].gs in states[i].threads
    ensures var s, cpu := states[i], states[i].cpus[c];
      s.queue != [] || cpu.gs != cpu.idle ==>
        Switched(states[j], c, cpu.gs, s.threads[cpu.gs].state == Destroy,
                 if s.queue != [] then s.queue[0] else cpu.idle, cpu.idle)
  {
    hide Run, Inv, Next, Switching, Switched;
    RunKeeps(states, events, i);
    PickGivesUp(states[i], c);
    StepsSplit(events, c, i, i + 1, j);
    var s, cpu := states[i], states[i].cpus[c];
    if s.queue != [] || cpu.gs != cpu.idle {
      SwitchEnds(states, events, i + 1, j, c, cpu.gs, s.threads[cpu.gs].state == Destroy,
                 if s.queue != [] then s.queue[0] else cpu.idle, cpu.idle, 1);
    }
  }

  /** An exited thread that is still current, until its CPU picks. */
  ghost predicate Doomed(s: State, c: CpuId, t: Tid) {
    && c in s.cpus && s.cpus[c].phase == Running && s.cpus[c].gs == t && s.cpus[c].idle != t
    && t in s.threads && s.threads[t].state == Destroy
  }

  lemma ExitDooms(s: State, c: CpuId)
    requires Inv(s) && Enabled(s, Exit(c))
    ensures Doomed(Next(s, Exit(c)), c, s.cpus[c].gs)
  {
    assert CpuOk(s, c);
  }

  lemma DoomedStays(s: State, e: Event, c: CpuId, t: Tid)
    requires Inv(s) && Enabled(s, e) && Doomed(s, c, t)
    ensures SwitchStep(e, c) ==> e == Pick(c)
    ensures !SwitchStep(e, c) ==> Doomed(Next(s, e), c, t)
  {
    hide ThreadsOk, QueueOk;
    assert CpuOk(s, c);
    if !e.Create? && !e.Schedule? && e.c in s.cpus { assert CpuOk(s, e.c); }
  }

  /** The pick with which an exited thread gives up its CPU. */
  lemma {:induction false} DoomedPicks(states: seq<State>, events: seq<Event>, i: nat, j: nat, c: CpuId, t: Tid)
    returns (m: nat)
    requires Run(states, events) && i <= j <= |events| && Doomed(states[i], c, t) && SwitchSteps(events, c, i, j) > 0
    ensures i <= m < j && events[m] == Pick(c) && Doomed(states[m], c, t)
    ensures SwitchSteps(events, c, m, j) == SwitchSteps(events, c, i, j)
    decreases j - i
  {
    hide Run, Inv, Enabled, Next, Doomed, SwitchStep;
    RunKeeps(states, events, i);
    DoomedStays(states[i], events[i], c, t);
    if SwitchStep(events[i], c) { return i; }
    StepsSplit(events, c, i, i + 1, j);
    m := DoomedPicks(states, events, i + 1, j, c, t);
  }

  /** A thread that exits is gone after five more steps of its CPU, whatever the other CPUs do in between. */
  lemma ExitedGone(states: seq<State>, events: seq<Event>, i: nat, j: nat, c: CpuId)
    requires Run(states, events) && i < j <= |events| && events[i] == Exit(c)
    requires SwitchSteps(events, c, i, j) == 5 && SwitchStep(events[j - 1], c)
    ensures c in states[i].cpus && states[i].cpus[c].gs !in states[j].threads
  {
    hide Run, Inv, Next;
    RunKeeps(states, events, i);
    ExitDooms(states[i], c);
    StepsSplit(events, c, i, i + 1, j);
    var t := states[i].cpus[c].gs;
    var m := DoomedPicks(states, events, i + 1, j, c, t);
    SwitchCompletes(states, events, m, j, c);
  }

  /** The boot context of a CPU is gone after its first switch, and the CPU is on its idle thread. */
  lemma BootContextGone(states: seq<State>, events: seq<Event>, i: nat, j: nat, c: CpuId)
    requires Run(states, events) && i < j <= |events| && events[i].InitCpu? && events[i].c == c
    requires SwitchSteps(events, c, i, j) == 4 && SwitchStep(events[j - 1], c)
    ensures events[i].dummy !in states[j].threads
    ensures c in states[j].cpus && states[j].cpus[c].phase == Running && states[j].cpus[c].gs == events[i].idle
  {
    hide Run, Inv;
    RunKeeps(states, events, i);
    StepsSplit(events, c, i, i + 1, j);
    SwitchEnds(states, events, i + 1, j, c, events[i].dummy, true, events[i].idle, events[i].idle, 1);
  }

  // ----- First in, first out

  lemma QueueLog(s: State, e: Event)
    requires Inv(s) && Enabled(s, e)
    ensures Inv(Next(s, e)) && s.pushed <= Next(s, e).pushed && s.popped <= Next(s, e).popped
  {
    StepKeeps(s, e);
    hide ThreadsOk, CpuOk;
  }

  lemma {:induction false} LogsGrow(states: seq<State>, events: seq<Event>, i: nat, j: nat)
    requires Run(states, events) && i <= j <= |events|
    ensures states[i].pushed <= states[j].pushed && states[i].popped <= states[j].popped
    decreases j
  {
    hide Run, Inv, Next, Enabled;
    if i < j {
      LogsGrow(states, events, i, j - 1);
      RunKeeps(states, events, j - 1);
      QueueLog(states[j - 1], events[j - 1]);
    }
  }

  lemma QueueIsLog(s: State)
    requires Inv(s)
    ensures s.pushed == s.popped + s.queue
  {
  }

  /** The thread at position k of the queue is exactly the k-th to be taken from now on, whichever CPUs take: threads
      leave in the order they came, none is overtaken. */
  lemma FirstInFirstOut(states: seq<State>, events: seq<Event>, i: nat, j: nat, k: nat)
    requires Run(states, events) && i <= j <= |events| && k < |states[i].queue|
    ensures |states[i].popped| <= |states[j].popped|
    ensures |states[j].popped| > |states[i].popped| + k ==>
      states[j].popped[|states[i].popped| + k] == states[i].queue[k]
    ensures |states[j].popped| <= |states[i].popped| + k ==>
      && |states[i].popped| + k - |states[j].popped| < |states[j].queue|
      && states[j].queue[|states[i].popped| + k - |states[j].popped|] == states[i].queue[k]
  {
    hide Run, Inv;
    LogsGrow(states, events, i, j);
    RunKeeps(states, events, i);
    RunKeeps(states, events, j);
    QueueIsLog(states[i]);
    QueueIsLog(states[j]);
    assert states[i].pushed[|states[i].popped| + k] == states[i].queue[k];
    assert states[j].pushed[|states[i].popped| + k] == states[i].queue[k];
  }

  // ----- No thread is lost

  /** One step takes a thread away only if it had exited, and marks a thread only if it exits itself. */
  lemma StepLoses(s: State, e: Event, t: Tid)
    requires Inv(s) && Enabled(s, e) && t in s.threads && s.threads[t].state == Ready
    requires !(e.Exit? && s.cpus[e.c].gs == t)
    ensures t in Next(s, e).threads && Next(s, e).threads[t].state == Ready
  {
    hide QueueOk, ThreadsOk;
  }

  /** A thread that does not exit is never destroyed. */
  lemma {:induction false} NeverLost(states: seq<State>, events: seq<Event>, i: nat, j: nat, t: Tid)
    requires Run(states, events) && i <= j <= |events|
    requires t in states[i].threads && states[i].threads[t].state == Ready
    requires forall k {:trigger events[k]} :: i <= k < j && events[k].Exit? ==>
      !(events[k].c in states[k].cpus && states[k].cpus[events[k].c].gs == t)
    ensures t in states[j].threads && states[j].threads[t].state == Ready
    decreases j
  {
    hide Run, Inv, Next;
    if i < j {
      NeverLost(states, events, i, j - 1, t);
      RunKeeps(states, events, j - 1);
      StepLoses(states[j - 1], events[j - 1], t);
    }
  }

  /** An idle thread is never queued and never destroyed. */
  lemma IdleStays(states: seq<State>, events: seq<Event>, i: nat, c: CpuId)
    requires Run(states, events) && i <= |events| && c in states[i].cpus
    ensures var s := states[i]; s.cpus[c].idle in s.threads && s.cpus[c].idle !in s.queue
  {
    hide Run, NoDup;
    RunKeeps(states, events, i);
    assert CpuOk(states[i], c);
  }
}
