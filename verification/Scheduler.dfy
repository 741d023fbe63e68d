/** The scheduler's methods as steps of one CPU (kernel/src/sched/sched.c:46-71,
    kernel/src/arch/x86_64/sched.c:83-138, 252-292). Each method is one atomic access to the shared state; a CPU
    runs them in the order its phase prescribes. */
module Scheduler {
  import opened Options
  import opened Seqs
  import opened SchedState

  /** cpu_current(): the current thread knows the CPU it runs on. */
  lemma CurrentCpu(s: State, c: CpuId)
    requires Inv(s) && c in s.cpus
    ensures s.cpus[c].gs in s.threads && s.threads[s.cpus[c].gs].cpu == Some(c)
  {
    hide StackOk, QueueOk;
    assert CpuOk(s, c);
    assert ThreadOk(s, s.cpus[c].gs);
  }

  class Scheduler {
    var queue: seq<Tid>
    var threads: map<Tid, Thread>
    var cpus: map<CpuId, Cpu>
    ghost var place: map<Tid, Place>
    ghost var top: map<Tid, nat>
    ghost var pushed: seq<Tid>
    ghost var popped: seq<Tid>

    ghost function Snap(): State
      reads this
    {
      State(queue, threads, cpus, place, top, pushed, popped)
    }

    ghost predicate Valid()
      reads this
    {
      Inv(Snap())
    }

    constructor ()
      ensures Valid() && threads == map[] && cpus == map[]
    {
      queue, threads, cpus, place, top, pushed, popped := [], map[], map[], map[], map[], [], [];
    }

    /** create_thread, for a descriptor address `t` fresh from the heap. */
    method CreateThread(t: Tid, rsp: nat)
      requires Valid() && t !in threads
      modifies this
      ensures Valid() && Snap() == Created(old(Snap()), t, rsp)
    {
      hide Inv;
      CreateKeeps(Snap(), t, rsp);
      threads := threads[t := Thread(Ready, None, rsp)];
      place, top := place[t := Detached], top[t := rsp];
    }

    /** list_prepend before the head of a circular list: the thread becomes the last of the queue. */
    method Prepend(t: Tid)
      modifies this
      ensures Snap() == Enqueued(old(Snap()), t)
    {
      queue := queue + [t];
      place, pushed := place[t := Queued], pushed + [t];
    }

    /** sched_thread_schedule on a thread that was never scheduled */
    method ThreadSchedule(t: Tid)
      requires Valid() && t in place && place[t] == Detached
      modifies this
      ensures Valid() && Snap() == Enqueued(old(Snap()), t)
    {
      hide Inv;
      ScheduleKeeps(Snap(), t);
      Prepend(t);
    }

    /** x86_64_sched_init_cpu up to sched_switch(dummy, idle), for two descriptors fresh from the heap. */
    method InitCpu(c: CpuId, idle: Tid, idleRsp: nat, dummy: Tid, rsp: nat)
      requires Valid() && c !in cpus && idle !in threads && dummy !in threads && idle != dummy
      modifies this
      ensures Valid() && Snap() == CpuStarted(old(Snap()), c, idle, idleRsp, dummy, rsp)
    {
      hide Inv;
      InitCpuKeeps(Snap(), c, idle, idleRsp, dummy, rsp);
      threads := threads[idle := Thread(Ready, None, idleRsp)];
      threads := threads[dummy := Thread(Destroy, Some(c), 0)];
      cpus := cpus[c := Cpu(idle, dummy, rsp, Picked(idle))];
      place, top := place[idle := Incoming(c)][dummy := Current(c)], top[idle := idleRsp][dummy := rsp];
    }

    /** x86_64_syscall_exit, before it calls x86_64_sched_next */
    method Exit(c: CpuId)
      requires Valid() && c in cpus && cpus[c].phase.Running? && cpus[c].gs != cpus[c].idle
      modifies this
      ensures old(cpus[c].gs in threads) && Valid() && Snap() == Exited(old(Snap()), c)
    {
      hide Inv;
      NextIsNotCurrent(Snap(), c);
      ExitKeeps(Snap(), c);
      threads := threads[cpus[c].gs := threads[cpus[c].gs].(state := Destroy)];
    }

    /** x86_64_sched_next up to sched_switch: sched_thread_next, else the idle thread. The assertion is that of the
        source. */
    method Pick(c: CpuId)
      requires Valid() && c in cpus && cpus[c].phase.Running?
      modifies this
      ensures Valid()
      ensures Snap() == if old(queue) == [] then IdlePicked(old(Snap()), c) else Dequeued(old(Snap()), c)
    {
      hide Inv;
      NextIsNotCurrent(Snap(), c);
      if queue == [] { IdleKeeps(Snap(), c); } else { DequeueKeeps(Snap(), c); }
      CurrentCpu(Snap(), c);
      var current := cpus[c].gs;
      var next := cpus[threads[current].cpu.value].idle;
      if queue == [] {
        if current == next { return; }
      } else {
        next := queue[0];
        popped := popped + [next];
        queue := queue[1..];
      }
      assert current != next;
      cpus := cpus[c := cpus[c].(phase := Picked(next))];
      place := place[next := Incoming(c)];
    }

    /** sched_switch up to the context switch: the GS base and the CPU fields move to the next thread. */
    method Adopt(c: CpuId)
      requires Valid() && c in cpus && cpus[c].phase.Picked?
      modifies this
      ensures old(cpus[c].gs in threads) && old(cpus[c].phase.next in threads)
      ensures Valid() && Snap() == SwitchedGs(old(Snap()), c)
    {
      hide Inv;
      OwnView(Snap(), c);
      AdoptKeeps(Snap(), c);
      var prev, next := cpus[c].gs, cpus[c].phase.next;
      threads := threads[next := threads[next].(cpu := threads[prev].cpu)];
      cpus := cpus[c := cpus[c].(gs := next, phase := Adopted(prev))];
      threads := threads[prev := threads[prev].(cpu := None)];
      place := place[next := Current(c)][prev := Leaving(c)];
    }

    /** x86_64_sched_context_switch: mov [rdi + THREAD_RSP_OFFSET], rsp */
    method Save(c: CpuId)
      requires Valid() && c in cpus && cpus[c].phase.Adopted?
      modifies this
      ensures old(cpus[c].phase.prev in threads) && Valid() && Snap() == StackSaved(old(Snap()), c)
    {
      hide Inv;
      OwnView(Snap(), c);
      SaveKeeps(Snap(), c);
      var prev := cpus[c].phase.prev;
      threads := threads[prev := threads[prev].(rsp := cpus[c].rsp)];
      cpus := cpus[c := cpus[c].(phase := Saved(prev))];
    }

    /** x86_64_sched_context_switch: mov rsp, [rsi + THREAD_RSP_OFFSET] */
    method Load(c: CpuId)
      requires Valid() && c in cpus && cpus[c].phase.Saved?
      modifies this
      ensures old(cpus[c].gs in threads) && Valid() && Snap() == StackLoaded(old(Snap()), c)
    {
      hide Inv;
      OwnView(Snap(), c);
      LoadKeeps(Snap(), c);
      cpus := cpus[c := cpus[c].(rsp := threads[cpus[c].gs].rsp, phase := Dropping(cpus[c].phase.prev))];
    }

    /** sched_thread_drop(prev), where cpu_current() is the CPU of the current thread */
    method Drop(c: CpuId)
      requires Valid() && c in cpus && cpus[c].phase.Dropping?
      modifies this
      ensures old(cpus[c].phase.prev in threads) && Valid() && Snap() == Dropped(old(Snap()), c)
    {
      hide Inv, NoDup, QueueOk;
      OwnView(Snap(), c);
      DropKeeps(Snap(), c);
      CurrentCpu(Snap(), c);
      var prev, here := cpus[c].phase.prev, threads[cpus[c].gs].cpu.value;
      cpus := cpus[c := cpus[c].(phase := Running)];
      if prev == cpus[here].idle {
        place := place[prev := Parked(c)];
        return;
      }
      if threads[prev].state == Destroy {
        threads, place, top := threads - {prev}, place - {prev}, top - {prev};
        return;
      }
      Prepend(prev);
    }
  }
}
