/** The scheduler's shared state and what one step of a CPU does to it (kernel/src/sched/sched.c:46-71,
    kernel/src/arch/x86_64/sched.c:83-138, 252-292, kernel/src/arch/x86_64/sched.asm:3-22). CPUs take steps in any
    order; a CPU's own steps are not interrupted by its timer between picking a thread and dropping the last one. */
module SchedState {
  import opened Options
  import opened Seqs

  type Tid = nat
  type CpuId = nat

  datatype RunState = Ready | Destroy

  datatype Thread = Thread(state: RunState, cpu: Option<CpuId>, rsp: nat)

  /** How far a CPU has come in x86_64_sched_next. */
  datatype Phase =
    | Running
    | Picked(next: Tid)    // sched_thread_next has answered
    | Adopted(prev: Tid)   // GS base points to the next thread, the stack is still that of `prev`
    | Saved(prev: Tid)     // the stack pointer of `prev` is in its descriptor
    | Dropping(prev: Tid)  // on the stack of the next thread, `prev` not yet given up

  /** `gs` is the thread the GS base points to, `rsp` the stack pointer register. */
  datatype Cpu = Cpu(idle: Tid, gs: Tid, rsp: nat, phase: Phase)

  /** Where a thread is. */
  datatype Place =
    | Detached
    | Queued
    | Current(cpu: CpuId)
    | Incoming(cpu: CpuId)
    | Leaving(cpu: CpuId)
    | Parked(cpu: CpuId)

  /** `place`, `top` (the stack pointer at which each thread's execution stands) and the two logs of the queue are
      kept for the proofs only. */
  datatype State = State(queue: seq<Tid>, threads: map<Tid, Thread>, cpus: map<CpuId, Cpu>,
                         place: map<Tid, Place>, top: map<Tid, nat>, pushed: seq<Tid>, popped: seq<Tid>)

  // ----- The invariant

  ghost predicate Known(s: State) {
    s.threads.Keys == s.place.Keys && s.threads.Keys == s.top.Keys
  }

  ghost predicate QueueOk(s: State) {
    && NoDup(s.queue) && (forall t :: t in s.queue <==> t in s.place && s.place[t] == Queued)
    && s.pushed == s.popped + s.queue
  }

  ghost predicate CpuOk(s: State, c: CpuId)
    requires c in s.cpus && Known(s)
  {
    var cpu := s.cpus[c];
    && cpu.gs in s.place && s.place[cpu.gs] == Current(c)
    && cpu.idle in s.threads && s.threads[cpu.idle].state == Ready
    && s.place[cpu.idle] in {Current(c), Incoming(c), Leaving(c), Parked(c)}
    && match cpu.phase
       case Running => true
       case Picked(n) => n in s.place && s.place[n] == Incoming(c)
       case Adopted(p) => p in s.place && s.place[p] == Leaving(c)
       case Saved(p) => p in s.place && s.place[p] == Leaving(c)
       case Dropping(p) => p in s.place && s.place[p] == Leaving(c)
  }

  /** A place is what the queue and the CPUs say, and only a current thread points to its CPU. */
  ghost predicate ThreadOk(s: State, t: Tid)
    requires t in s.threads && Known(s)
  {
    && (match s.place[t]
        case Current(c) => c in s.cpus && s.cpus[c].gs == t && s.threads[t].cpu == Some(c)
        case Incoming(c) => c in s.cpus && s.cpus[c].phase == Picked(t) && s.threads[t].state == Ready
        case Leaving(c) => c in s.cpus && s.cpus[c].phase in {Adopted(t), Saved(t), Dropping(t)}
        case Parked(c) => c in s.cpus && s.cpus[c].idle == t
        case _ => s.threads[t].state == Ready)
    && (!s.place[t].Current? ==> s.threads[t].cpu == None)
  }

  /** The thread on whose stack a CPU runs. */
  function StackOf(cpu: Cpu): Tid {
    if cpu.phase.Adopted? || cpu.phase.Saved? then cpu.phase.prev else cpu.gs
  }

  /** A thread stands where the register of the CPU on its stack says, and otherwise where its descriptor says. */
  ghost predicate StackOk(s: State, t: Tid)
    requires t in s.threads && Known(s)
  {
    match s.place[t]
    case Current(c) =>
      c in s.cpus && s.top[t] == if StackOf(s.cpus[c]) == t then s.cpus[c].rsp else s.threads[t].rsp
    case Leaving(c) =>
      && c in s.cpus && s.top[t] == (if StackOf(s.cpus[c]) == t then s.cpus[c].rsp else s.threads[t].rsp)
      && (s.cpus[c].phase.Saved? ==> s.threads[t].rsp == s.top[t])
    case _ => s.top[t] == s.threads[t].rsp
  }

  ghost predicate CpusOk(s: State) {
    Known(s) && forall c {:trigger CpuOk(s, c)} :: c in s.cpus ==> CpuOk(s, c)
  }

  ghost predicate ThreadsOk(s: State) {
    Known(s) && forall t {:trigger ThreadOk(s, t)} {:trigger StackOk(s, t)} :: t in s.threads ==>
      ThreadOk(s, t) && StackOk(s, t)
  }

  ghost predicate Inv(s: State) {
    CpusOk(s) && ThreadsOk(s) && QueueOk(s)
  }

  // ----- Steps

  datatype Event =
    | Create(t: Tid, rsp: nat)
    | Schedule(t: Tid)
    | InitCpu(c: CpuId, idle: Tid, idleRsp: nat, dummy: Tid, rsp: nat)
    | Move(c: CpuId, rsp: nat)
    | Exit(c: CpuId)
    | Pick(c: CpuId)
    | Adopt(c: CpuId)
    | Save(c: CpuId)
    | Load(c: CpuId)
    | Drop(c: CpuId)

  ghost predicate Enabled(s: State, e: Event) {
    match e
    case Create(t, rsp) => t !in s.threads
    case Schedule(t) => t in s.place && s.place[t] == Detached
    case InitCpu(c, idle, idleRsp, dummy, rsp) =>
      c !in s.cpus && idle !in s.threads && dummy !in s.threads && idle != dummy
    case Move(c, rsp) => c in s.cpus && !s.cpus[c].phase.Saved?
    case Exit(c) => c in s.cpus && s.cpus[c].phase.Running? && s.cpus[c].gs != s.cpus[c].idle
    case Pick(c) => c in s.cpus && s.cpus[c].phase.Running?
    case Adopt(c) => c in s.cpus && s.cpus[c].phase.Picked?
    case Save(c) => c in s.cpus && s.cpus[c].phase.Adopted?
    case Load(c) => c in s.cpus && s.cpus[c].phase.Saved?
    case Drop(c) => c in s.cpus && s.cpus[c].phase.Dropping?
  }

  ghost function Next(s: State, e: Event): State
    requires CpusOk(s) && Enabled(s, e)
  {
    match e
    case Create(t, rsp) => Created(s, t, rsp)
    case Schedule(t) => Enqueued(s, t)
    case InitCpu(c, idle, idleRsp, dummy, rsp) => CpuStarted(s, c, idle, idleRsp, dummy, rsp)
    case Move(c, rsp) => Moved(s, c, rsp)
    case Exit(c) => assert CpuOk(s, c); Exited(s, c)
    case Pick(c) => if s.queue == [] then IdlePicked(s, c) else Dequeued(s, c)
    case Adopt(c) => assert CpuOk(s, c); SwitchedGs(s, c)
    case Save(c) => assert CpuOk(s, c); StackSaved(s, c)
    case Load(c) => assert CpuOk(s, c); StackLoaded(s, c)
    case Drop(c) => assert CpuOk(s, c); Dropped(s, c)
  }

  /** A thread fresh from create_thread, its first frame on its stack. */
  ghost function Created(s: State, t: Tid, rsp: nat): State {
    s.(threads := s.threads[t := Thread(Ready, None, rsp)], place := s.place[t := Detached], top := s.top[t := rsp])
  }

  ghost function Enqueued(s: State, t: Tid): State {
    s.(queue := s.queue + [t], place := s.place[t := Queued], pushed := s.pushed + [t])
  }

  /** x86_64_sched_init_cpu up to sched_switch: the boot context counts as a current thread that is to be destroyed. */
  ghost function CpuStarted(s: State, c: CpuId, idle: Tid, idleRsp: nat, dummy: Tid, rsp: nat): State {
    s.(threads := s.threads[idle := Thread(Ready, None, idleRsp)][dummy := Thread(Destroy, Some(c), 0)],
       cpus := s.cpus[c := Cpu(idle, dummy, rsp, Picked(idle))],
       place := s.place[idle := Incoming(c)][dummy := Current(c)],
       top := s.top[idle := idleRsp][dummy := rsp])
  }

  /** Any code that moves the stack pointer of the stack the CPU is on. */
  ghost function Moved(s: State, c: CpuId, rsp: nat): State
    requires c in s.cpus
  {
    s.(cpus := s.cpus[c := s.cpus[c].(rsp := rsp)], top := s.top[StackOf(s.cpus[c]) := rsp])
  }

  ghost function Exited(s: State, c: CpuId): State
    requires c in s.cpus && s.cpus[c].gs in s.threads
  {
    s.(threads := s.threads[s.cpus[c].gs := s.threads[s.cpus[c].gs].(state := Destroy)])
  }

  /** Nothing is queued: the idle thread is next, unless it is current already. */
  ghost function IdlePicked(s: State, c: CpuId): State
    requires c in s.cpus
  {
    var cpu := s.cpus[c];
    if cpu.gs == cpu.idle then s
    else s.(cpus := s.cpus[c := cpu.(phase := Picked(cpu.idle))], place := s.place[cpu.idle := Incoming(c)])
  }

  ghost function Dequeued(s: State, c: CpuId): State
    requires c in s.cpus && s.queue != []
  {
    var t := s.queue[0];
    s.(queue := s.queue[1..], popped := s.popped + [t],
       cpus := s.cpus[c := s.cpus[c].(phase := Picked(t))], place := s.place[t := Incoming(c)])
  }

  ghost function SwitchedGs(s: State, c: CpuId): State
    requires c in s.cpus && s.cpus[c].phase.Picked? && s.cpus[c].gs in s.threads && s.cpus[c].phase.next in s.threads
  {
    var prev, next := s.cpus[c].gs, s.cpus[c].phase.next;
    s.(threads := s.threads[next := s.threads[next].(cpu := Some(c))][prev := s.threads[prev].(cpu := None)],
       cpus := s.cpus[c := s.cpus[c].(gs := next, phase := Adopted(prev))],
       place := s.place[next := Current(c)][prev := Leaving(c)])
  }

  ghost function StackSaved(s: State, c: CpuId): State
    requires c in s.cpus && s.cpus[c].phase.Adopted? && s.cpus[c].phase.prev in s.threads
  {
    var p := s.cpus[c].phase.prev;
    s.(threads := s.threads[p := s.threads[p].(rsp := s.cpus[c].rsp)],
       cpus := s.cpus[c := s.cpus[c].(phase := Saved(p))])
  }

  ghost function StackLoaded(s: State, c: CpuId): State
    requires c in s.cpus && s.cpus[c].phase.Saved? && s.cpus[c].gs in s.threads
  {
    var cpu := s.cpus[c];
    s.(cpus := s.cpus[c := cpu.(rsp := s.threads[cpu.gs].rsp, phase := Dropping(cpu.phase.prev))])
  }

  ghost function Dropped(s: State, c: CpuId): State
    requires c in s.cpus && s.cpus[c].phase.Dropping? && s.cpus[c].phase.prev in s.threads
  {
    var p := s.cpus[c].phase.prev;
    if p == s.cpus[c].idle then Resumed(s, c).(place := s.place[p := Parked(c)])
    else if s.threads[p].state == Destroy then Destroyed(Resumed(s, c), p)
    else Enqueued(Resumed(s, c), p)
  }

  ghost function Resumed(s: State, c: CpuId): State
    requires c in s.cpus
  {
    s.(cpus := s.cpus[c := s.cpus[c].(phase := Running)])
  }

  /** arch_sched_thread_destroy */
  ghost function Destroyed(s: State, t: Tid): State {
    s.(threads := s.threads - {t}, place := s.place - {t}, top := s.top - {t})
  }

  // ----- Every step keeps the invariant

  function CpuOf(p: Place): set<CpuId> {
    match p
    case Detached => {}
    case Queued => {}
    case _ => {p.cpu}
  }

  /** The threads a CPU refers to. */
  function Own(cpu: Cpu): set<Tid> {
    {cpu.gs, cpu.idle} +
    match cpu.phase
    case Running => {}
    case Picked(n) => {n}
    case _ => {cpu.phase.prev}
  }

  lemma OwnThreads(s: State, c: CpuId, t: Tid)
    requires Inv(s) && c in s.cpus
    ensures t in Own(s.cpus[c]) <==> t in s.threads && CpuOf(s.place[t]) == {c}
  {
    hide QueueOk, StackOk;
    assert CpuOk(s, c);
    if t in s.threads { assert ThreadOk(s, t); }
  }

  /** A step changes nothing but CPU c (if any) and the threads xs. */
  ghost predicate Local(s: State, u: State, cs: set<CpuId>, xs: set<Tid>) {
    && Known(s) && Known(u)
    && (forall d :: d !in cs ==> (d in u.cpus <==> d in s.cpus) && (d in s.cpus ==> u.cpus[d] == s.cpus[d]))
    && (forall x :: x !in xs ==> (x in u.threads <==> x in s.threads))
    && (forall x :: x !in xs && x in s.threads ==>
          u.threads[x] == s.threads[x] && u.place[x] == s.place[x] && u.top[x] == s.top[x])
    && (forall x :: x in xs && x in s.threads ==> CpuOf(s.place[x]) <= cs)
    && (forall c :: c in cs && c in s.cpus ==> Own(s.cpus[c]) <= xs)
  }

  lemma OtherCpu(s: State, u: State, cs: set<CpuId>, xs: set<Tid>, d: CpuId)
    requires Inv(s) && Local(s, u, cs, xs) && d in u.cpus && d !in cs
    ensures CpuOk(u, d)
  {
    hide QueueOk, StackOk, ThreadOk;
    assert CpuOk(s, d);
    assert forall x :: x in Own(s.cpus[d]) ==> x !in xs;
  }

  lemma OtherThread(s: State, u: State, cs: set<CpuId>, xs: set<Tid>, x: Tid)
    requires Inv(s) && Local(s, u, cs, xs) && x in u.threads && x !in xs
    ensures ThreadOk(u, x) && StackOk(u, x)
  {
    hide QueueOk, CpuOk;
    assert ThreadOk(s, x) && StackOk(s, x);
    forall c | CpuOf(s.place[x]) == {c} && c in s.cpus ensures c !in cs { OwnThreads(s, c, x); }
  }

  lemma LocalKnown(s: State, u: State, cs: set<CpuId>, xs: set<Tid>)
    requires Local(s, u, cs, xs)
    ensures Known(u)
  {
  }

  /** Only the CPU that steps and the threads it touches need a look. */
  lemma Locally(s: State, u: State, cs: set<CpuId>, xs: set<Tid>)
    requires Inv(s) && Local(s, u, cs, xs) && Known(u) && QueueOk(u)
    requires forall c :: c in cs ==> c in u.cpus && CpuOk(u, c)
    requires forall x :: x in xs && x in u.threads ==> ThreadOk(u, x) && StackOk(u, x)
    ensures Inv(u)
  {
    hide Local, QueueOk, CpuOk, ThreadOk, StackOk;
    LocalKnown(s, u, cs, xs);
    forall d | d in u.cpus ensures CpuOk(u, d) { if d !in cs { OtherCpu(s, u, cs, xs, d); } }
    forall x | x in u.threads ensures ThreadOk(u, x) && StackOk(u, x) { if x !in xs { OtherThread(s, u, cs, xs, x); } }
  }

  /** What a CPU knows of its own threads. */
  lemma OwnView(s: State, c: CpuId)
    requires Inv(s) && c in s.cpus
    ensures Known(s) && CpuOk(s, c) && QueueOk(s)
    ensures forall x :: x in Own(s.cpus[c]) ==>
      x in s.threads && CpuOf(s.place[x]) == {c} && ThreadOk(s, x) && StackOk(s, x)
  {
    hide QueueOk, CpuOk, ThreadOk, StackOk, Own, CpuOf;
    forall x | x in Own(s.cpus[c]) ensures x in s.threads && CpuOf(s.place[x]) == {c} { OwnThreads(s, c, x); }
  }

  lemma OwnCpus(s: State, c: CpuId)
    requires Inv(s) && c in s.cpus
    ensures Known(s) && forall x :: x in Own(s.cpus[c]) ==> x in s.threads && CpuOf(s.place[x]) == {c}
  {
    hide QueueOk, CpuOk, ThreadOk, StackOk, Own, CpuOf;
    forall x | x in Own(s.cpus[c]) ensures x in s.threads && CpuOf(s.place[x]) == {c} { OwnThreads(s, c, x); }
  }

  lemma FirstQueued(s: State)
    requires Inv(s) && s.queue != []
    ensures var t := s.queue[0]; t in s.threads && Known(s) && s.place[t] == Queued && ThreadOk(s, t) && StackOk(s, t)
  {
    hide CpuOk, NoDup;
  }

  lemma InvKnown(s: State)
    requires Inv(s)
    ensures Known(s) && QueueOk(s) && CpusOk(s)
  {
  }

  lemma CreateLocal(s: State, t: Tid, rsp: nat)
    requires Inv(s) && t !in s.threads
    ensures Local(s, Created(s, t, rsp), {}, {t})
  {
    hide Inv, CpuOk, ThreadOk, StackOk, QueueOk;
    InvKnown(s);
  }

  lemma CreateKeeps(s: State, t: Tid, rsp: nat)
    requires Inv(s) && t !in s.threads
    ensures Inv(Created(s, t, rsp))
  {
    hide Inv, Local, CpuOf, NoDup;
    InvKnown(s);
    CreateLocal(s, t, rsp);
    Locally(s, Created(s, t, rsp), {}, {t});
  }

  lemma ScheduleLocal(s: State, t: Tid)
    requires Inv(s) && t in s.place && s.place[t] == Detached
    ensures Local(s, Enqueued(s, t), {}, {t})
  {
    hide Inv, CpuOk, ThreadOk, StackOk, QueueOk;
    InvKnown(s);
  }

  lemma ScheduleKeeps(s: State, t: Tid)
    requires Inv(s) && t in s.place && s.place[t] == Detached
    ensures Inv(Enqueued(s, t))
  {
    hide Inv, Local, CpuOf;
    InvKnown(s);
    DetachedThread(s, t);
    ScheduleLocal(s, t);
    Locally(s, Enqueued(s, t), {}, {t});
  }

  lemma InitCpuLocal(s: State, c: CpuId, idle: Tid, idleRsp: nat, dummy: Tid, rsp: nat)
    requires Inv(s) && c !in s.cpus && idle !in s.threads && dummy !in s.threads && idle != dummy
    ensures Local(s, CpuStarted(s, c, idle, idleRsp, dummy, rsp), {c}, {idle, dummy})
  {
    hide Inv, CpuOk, ThreadOk, StackOk, QueueOk;
    InvKnown(s);
  }

  lemma InitCpuQueue(s: State, c: CpuId, idle: Tid, idleRsp: nat, dummy: Tid, rsp: nat)
    requires Known(s) && QueueOk(s) && idle !in s.threads && dummy !in s.threads
    ensures QueueOk(CpuStarted(s, c, idle, idleRsp, dummy, rsp))
  {
    hide NoDup;
  }

  lemma InitCpuKeeps(s: State, c: CpuId, idle: Tid, idleRsp: nat, dummy: Tid, rsp: nat)
    requires Inv(s) && c !in s.cpus && idle !in s.threads && dummy !in s.threads && idle != dummy
    ensures Inv(CpuStarted(s, c, idle, idleRsp, dummy, rsp))
  {
    hide Inv, Local, CpuOf, NoDup, QueueOk;
    InvKnown(s);
    InitCpuQueue(s, c, idle, idleRsp, dummy, rsp);
    InitCpuLocal(s, c, idle, idleRsp, dummy, rsp);
    Locally(s, CpuStarted(s, c, idle, idleRsp, dummy, rsp), {c}, {idle, dummy});
  }

  lemma MoveLocal(s: State, c: CpuId, rsp: nat)
    requires Inv(s) && Enabled(s, Move(c, rsp))
    ensures Local(s, Moved(s, c, rsp), {c}, Own(s.cpus[c]))
  {
    hide Inv, CpuOk, ThreadOk, StackOk, QueueOk;
    OwnCpus(s, c);
  }

  lemma MoveKeeps(s: State, c: CpuId, rsp: nat)
    requires Inv(s) && Enabled(s, Move(c, rsp))
    ensures Inv(Moved(s, c, rsp))
  {
    hide Inv, Local, CpuOf, NoDup;
    OwnView(s, c);
    MoveLocal(s, c, rsp);
    Locally(s, Moved(s, c, rsp), {c}, Own(s.cpus[c]));
  }

  lemma ExitLocal(s: State, c: CpuId)
    requires Inv(s) && Enabled(s, Exit(c)) && s.cpus[c].gs in s.threads
    ensures Local(s, Exited(s, c), {c}, Own(s.cpus[c]))
  {
    hide Inv, CpuOk, ThreadOk, StackOk, QueueOk;
    OwnCpus(s, c);
  }

  lemma ExitKeeps(s: State, c: CpuId)
    requires Inv(s) && Enabled(s, Exit(c)) && s.cpus[c].gs in s.threads
    ensures Inv(Exited(s, c))
  {
    hide Inv, Local, CpuOf, NoDup;
    OwnView(s, c);
    ExitLocal(s, c);
    Locally(s, Exited(s, c), {c}, Own(s.cpus[c]));
  }

  /** The assertion `current != next` of x86_64_sched_next: what is picked is never the thread that picks. */
  lemma NextIsNotCurrent(s: State, c: CpuId)
    requires Inv(s) && c in s.cpus
    ensures s.cpus[c].gs in s.threads && s.cpus[c].idle in s.threads
    ensures s.queue != [] ==> s.queue[0] in s.threads && s.queue[0] != s.cpus[c].gs && s.queue[0] != s.cpus[c].idle
  {
    hide NoDup;
    assert CpuOk(s, c);
  }

  lemma IdleLocal(s: State, c: CpuId)
    requires Inv(s) && Enabled(s, Pick(c)) && s.queue == []
    ensures Local(s, IdlePicked(s, c), {c}, Own(s.cpus[c]))
  {
    hide Inv, CpuOk, ThreadOk, StackOk, QueueOk;
    OwnCpus(s, c);
  }

  lemma IdleKeeps(s: State, c: CpuId)
    requires Inv(s) && Enabled(s, Pick(c)) && s.queue == []
    ensures Inv(IdlePicked(s, c))
  {
    hide Inv, Local, CpuOf, NoDup;
    OwnView(s, c);
    IdleLocal(s, c);
    Locally(s, IdlePicked(s, c), {c}, Own(s.cpus[c]));
  }

  lemma DequeueLocal(s: State, c: CpuId)
    requires Inv(s) && Enabled(s, Pick(c)) && s.queue != []
    ensures Local(s, Dequeued(s, c), {c}, Own(s.cpus[c]) + {s.queue[0]})
  {
    hide Inv, CpuOk, ThreadOk, StackOk, QueueOk;
    OwnCpus(s, c);
    FirstQueued(s);
  }

  lemma DequeueKeeps(s: State, c: CpuId)
    requires Inv(s) && Enabled(s, Pick(c)) && s.queue != []
    ensures Inv(Dequeued(s, c))
  {
    hide Inv, Local, CpuOf;
    OwnView(s, c);
    FirstQueued(s);
    assert s.queue == [s.queue[0]] + s.queue[1..];
    DequeueLocal(s, c);
    Locally(s, Dequeued(s, c), {c}, Own(s.cpus[c]) + {s.queue[0]});
  }

  lemma AdoptLocal(s: State, c: CpuId)
    requires Inv(s) && Enabled(s, Adopt(c)) && s.cpus[c].gs in s.threads && s.cpus[c].phase.next in s.threads
    ensures Local(s, SwitchedGs(s, c), {c}, Own(s.cpus[c]))
  {
    hide Inv, CpuOk, ThreadOk, StackOk, QueueOk;
    OwnCpus(s, c);
  }

  lemma AdoptKeeps(s: State, c: CpuId)
    requires Inv(s) && Enabled(s, Adopt(c)) && s.cpus[c].gs in s.threads && s.cpus[c].phase.next in s.threads
    ensures Inv(SwitchedGs(s, c))
  {
    hide Inv, Local, CpuOf, NoDup;
    OwnView(s, c);
    AdoptLocal(s, c);
    Locally(s, SwitchedGs(s, c), {c}, Own(s.cpus[c]));
  }

  lemma SaveLocal(s: State, c: CpuId)
    requires Inv(s) && Enabled(s, Save(c)) && s.cpus[c].phase.prev in s.threads
    ensures Local(s, StackSaved(s, c), {c}, Own(s.cpus[c]))
  {
    hide Inv, CpuOk, ThreadOk, StackOk, QueueOk;
    OwnCpus(s, c);
  }

  lemma SaveKeeps(s: State, c: CpuId)
    requires Inv(s) && Enabled(s, Save(c)) && s.cpus[c].phase.prev in s.threads
    ensures Inv(StackSaved(s, c))
  {
    hide Inv, Local, CpuOf, NoDup;
    OwnView(s, c);
    SaveLocal(s, c);
    Locally(s, StackSaved(s, c), {c}, Own(s.cpus[c]));
  }

  lemma LoadLocal(s: State, c: CpuId)
    requires Inv(s) && Enabled(s, Load(c)) && s.cpus[c].gs in s.threads
    ensures Local(s, StackLoaded(s, c), {c}, Own(s.cpus[c]))
  {
    hide Inv, CpuOk, ThreadOk, StackOk, QueueOk;
    OwnCpus(s, c);
  }

  lemma LoadKeeps(s: State, c: CpuId)
    requires Inv(s) && Enabled(s, Load(c)) && s.cpus[c].gs in s.threads
    ensures Inv(StackLoaded(s, c))
  {
    hide Inv, Local, CpuOf, NoDup;
    OwnView(s, c);
    LoadLocal(s, c);
    Locally(s, StackLoaded(s, c), {c}, Own(s.cpus[c]));
  }

  lemma ParkLocal(s: State, c: CpuId)
    requires Inv(s) && Enabled(s, Drop(c)) && s.cpus[c].phase.prev == s.cpus[c].idle
    ensures Local(s, Resumed(s, c).(place := s.place[s.cpus[c].idle := Parked(c)]), {c}, Own(s.cpus[c]))
  {
    hide Inv, CpuOk, ThreadOk, StackOk, QueueOk;
    OwnCpus(s, c);
  }

  lemma ParkKeeps(s: State, c: CpuId)
    requires Inv(s) && Enabled(s, Drop(c)) && s.cpus[c].phase.prev == s.cpus[c].idle
    ensures Inv(Resumed(s, c).(place := s.place[s.cpus[c].idle := Parked(c)]))
  {
    hide Inv, Local, CpuOf, NoDup;
    OwnView(s, c);
    ParkLocal(s, c);
    Locally(s, Resumed(s, c).(place := s.place[s.cpus[c].idle := Parked(c)]), {c}, Own(s.cpus[c]));
  }

  lemma DestroyLocal(s: State, c: CpuId)
    requires Inv(s) && Enabled(s, Drop(c)) && s.cpus[c].phase.prev in s.threads
    requires s.threads[s.cpus[c].phase.prev].state == Destroy
    ensures Local(s, Destroyed(Resumed(s, c), s.cpus[c].phase.prev), {c}, Own(s.cpus[c]))
  {
    hide Inv, CpuOk, ThreadOk, StackOk, QueueOk;
    OwnCpus(s, c);
  }

  lemma DestroyKeeps(s: State, c: CpuId)
    requires Inv(s) && Enabled(s, Drop(c)) && s.cpus[c].phase.prev in s.threads
    requires s.threads[s.cpus[c].phase.prev].state == Destroy
    ensures Inv(Destroyed(Resumed(s, c), s.cpus[c].phase.prev))
  {
    hide Inv, Local, CpuOf, NoDup;
    OwnView(s, c);
    DestroyLocal(s, c);
    Locally(s, Destroyed(Resumed(s, c), s.cpus[c].phase.prev), {c}, Own(s.cpus[c]));
  }

  lemma RequeueLocal(s: State, c: CpuId)
    requires Inv(s) && Enabled(s, Drop(c)) && s.cpus[c].phase.prev in s.threads
    requires s.cpus[c].phase.prev != s.cpus[c].idle
    requires s.threads[s.cpus[c].phase.prev].state == Ready
    ensures Local(s, Enqueued(Resumed(s, c), s.cpus[c].phase.prev), {c}, Own(s.cpus[c]))
  {
    hide Inv, CpuOk, ThreadOk, StackOk, QueueOk;
    OwnCpus(s, c);
  }

  lemma RequeueKeeps(s: State, c: CpuId)
    requires Inv(s) && Enabled(s, Drop(c)) && s.cpus[c].phase.prev in s.threads
    requires s.cpus[c].phase.prev != s.cpus[c].idle
    requires s.threads[s.cpus[c].phase.prev].state == Ready
    ensures Inv(Enqueued(Resumed(s, c), s.cpus[c].phase.prev))
  {
    hide Inv, Local, CpuOf;
    OwnView(s, c);
    RequeueLocal(s, c);
    Locally(s, Enqueued(Resumed(s, c), s.cpus[c].phase.prev), {c}, Own(s.cpus[c]));
  }

  lemma DetachedThread(s: State, t: Tid)
    requires Inv(s) && t in s.place && s.place[t] == Detached
    ensures t in s.threads && Known(s) && ThreadOk(s, t) && StackOk(s, t)
  {
    hide CpuOk, NoDup;
  }

  lemma DropKeeps(s: State, c: CpuId)
    requires Inv(s) && Enabled(s, Drop(c)) && s.cpus[c].phase.prev in s.threads
    ensures Inv(Dropped(s, c))
  {
    hide Inv, Resumed, Destroyed, Enqueued;
    if s.cpus[c].phase.prev == s.cpus[c].idle {
      ParkKeeps(s, c);
    } else if s.threads[s.cpus[c].phase.prev].state == Destroy {
      DestroyKeeps(s, c);
    } else {
      RequeueKeeps(s, c);
    }
  }

  lemma StepKeeps(s: State, e: Event)
    requires Inv(s) && Enabled(s, e)
    ensures Inv(Next(s, e))
  {
    hide Inv, Created, Enqueued, CpuStarted, Moved, Exited, IdlePicked, Dequeued, SwitchedGs, StackSaved,
      StackLoaded, Resumed, Destroyed, StackOf, NoDup;
    InvKnown(s);
    match e
    case Create(t, rsp) => CreateKeeps(s, t, rsp);
    case Schedule(t) => ScheduleKeeps(s, t);
    case InitCpu(c, idle, idleRsp, dummy, rsp) => InitCpuKeeps(s, c, idle, idleRsp, dummy, rsp);
    case Move(c, rsp) => MoveKeeps(s, c, rsp);
    case Exit(c) => assert CpuOk(s, c); ExitKeeps(s, c);
    case Pick(c) => if s.queue == [] { IdleKeeps(s, c); } else { DequeueKeeps(s, c); }
    case Adopt(c) => assert CpuOk(s, c); AdoptKeeps(s, c);
    case Save(c) => assert CpuOk(s, c); SaveKeeps(s, c);
    case Load(c) => assert CpuOk(s, c); LoadKeeps(s, c);
    case Drop(c) => assert CpuOk(s, c); DropKeeps(s, c);
  }
}
