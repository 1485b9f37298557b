/**
 kernel/sched.c, kernel/task.c and kernel/signal.c on a mutable task pool and three
 circular run queues. Every method computes the function of SchedulerSpec named after it.
 */
module KernelMachine {
  import opened RunQueues
  import opened SchedulerInvariant
  import Spec = SchedulerSpec
  import opened TaskTypes
  import opened Words

  lemma ExtendRun(ks: seq<Kernel>, es: seq<Spec.Event>, e: Spec.Event)
    requires Spec.IsRun(ks, es) && Spec.Enabled(ks[|es|], e)
    ensures Spec.IsRun(ks + [Spec.Step(ks[|es|], e)], es + [e])
  {
    hide Spec.Step, Spec.Enabled;
    var ks', es' := ks + [Spec.Step(ks[|es|], e)], es + [e];
    forall i | 0 <= i < |es'|
      ensures Spec.Link(ks', es', i)
    {
      assert i < |es| ==> Spec.Link(ks, es, i);
    }
  }

  class Machine {
    const pool: array<Task>
    const rq: seq<RunQueue>
    var cur: Pid
    var at: seq<Point>
    var live: Context
    const kstacks: nat
    ghost const Repr: set<object>

    ghost predicate Valid()
      reads this, Repr
    {
      pool.Length == NR_TASKS && |rq| == 3 && |at| == NR_TASKS &&
      rq[0] != rq[1] && rq[0] != rq[2] && rq[1] != rq[2] &&
      rq[0].tasks != rq[1].tasks && rq[0].tasks != rq[2].tasks && rq[1].tasks != rq[2].tasks &&
      Repr == {this, pool, rq[0], rq[1], rq[2], rq[0].tasks, rq[1].tasks, rq[2].tasks} &&
      pool as object !in {rq[0].tasks, rq[1].tasks, rq[2].tasks} &&
      rq[0].Valid() && rq[1].Valid() && rq[2].Valid()
    }

    // The abstract kernel state.
    ghost function Abs(): (k: Kernel)
      requires Valid()
      reads this, Repr
      ensures WellFormed(k)
    {
      Kernel(pool[..], [rq[0].Contents(), rq[1].Contents(), rq[2].Contents()], cur, at, live, kstacks)
    }

    static lemma InitialIs(tasks: seq<Task>, at: seq<Point>, live: Context, kstacks: nat)
      requires |tasks| == |at| == NR_TASKS && tasks[0] == ZERO_TASK.(state := Running, priority := LOW)
      requires at[0] == Main && forall i :: 0 < i < NR_TASKS ==> tasks[i] == ZERO_TASK && at[i] == Dead
      ensures Kernel(tasks, [[], [], []], 0, at, live, kstacks) == Initial(live, kstacks)
    {
    }

    // task_init()'s loop.
    static method ClearPool(p: array<Task>)
      requires p.Length == NR_TASKS
      modifies p
      ensures forall j :: 0 <= j < NR_TASKS ==> p[j] == ZERO_TASK
    {
      var i := 0;
      while i < NR_TASKS
        invariant 0 <= i <= NR_TASKS
        invariant forall j :: 0 <= j < i ==> p[j] == ZERO_TASK
      {
        p[i] := ZERO_TASK;
        p[i] := p[i].(state := Free);
        i := i + 1;
      }
    }

    // task_init()
    constructor (live: Context, kstacks: nat)
      ensures Valid() && fresh(Repr)
      ensures Abs() == Initial(live, kstacks)
    {
      hide Initial;
      var p := new Task[NR_TASKS](_ => ZERO_TASK);
      ClearPool(p);
      p[0] := p[0].(state := Running, priority := LOW);
      var q0 := new RunQueue();
      var q1 := new RunQueue();
      var q2 := new RunQueue();
      pool := p;
      rq := [q0, q1, q2];
      cur := 0;
      at := seq(NR_TASKS, i => if i == 0 then Main else Dead);
      this.live := live;
      this.kstacks := kstacks;
      Repr := {this, p, q0, q1, q2, q0.tasks, q1.tasks, q2.tasks};
      new;
      InitialIs(pool[..], at, live, kstacks);
    }

    // switch_to: x0 is the previous task, x1 the next one.
    method SwitchTo(prev: Pid, next: Pid)
      requires Valid() && prev == cur
      modifies this, pool
      ensures Valid() && Abs() == Spec.SwitchTo(old(Abs()), next)
    {
      pool[prev] := pool[prev].(ctx := live);
      live := pool[next].ctx;
      cur := next;
    }

    method PushTask(p: Priority, i: Pid)
      requires Valid()
      modifies Repr
      ensures Valid() && Abs() == old(Abs()).(rq := old(Abs()).rq[p := Spec.Push(old(Abs()).rq[p], i)])
    {
      rq[p].Push(i);
    }

    method PopTask(p: Priority) returns (r: Option<Pid>)
      requires Valid()
      modifies Repr
      ensures Valid()
      ensures var q := old(Abs()).rq[p];
              if q == [] then r == None && Abs() == old(Abs())
              else r == Some(q[0]) && Abs() == old(Abs()).(rq := old(Abs()).rq[p := q[1..]])
    {
      r := rq[p].Pop();
    }

    method RequeueCurrent()
      requires Valid()
      modifies Repr
      ensures Valid() && Abs() == Spec.Requeue(old(Abs()))
    {
      if pool[cur].state == Running {
        pool[cur] := pool[cur].(state := Runnable);
        PushTask(pool[cur].priority, cur);
      }
    }

    // schedule()'s queue scan.
    method FirstNonEmpty() returns (pri: nat)
      requires Valid()
      ensures pri == Spec.FirstNonEmpty(Abs().rq)
    {
      pri := 0;
      while pri < 3
        invariant 0 <= pri <= 3
        invariant forall p :: 0 <= p < pri ==> rq[p].Contents() == []
      {
        if !rq[pri].Empty() {
          return;
        }
        pri := pri + 1;
      }
    }

    // schedule()'s pop loop.
    method PopNext(p: Priority) returns (next: Option<Pid>)
      requires Valid()
      modifies Repr
      ensures Valid()
      ensures var m := old(Abs());
              var q := Spec.DropStale(m.tasks, m.rq[p]);
              if q == [] then next == None && Abs() == m.(rq := m.rq[p := []])
              else next == Some(q[0]) && Abs() == m.(rq := m.rq[p := q[1..]])
    {
      ghost var m := Abs();
      ghost var rest := m.rq[p];
      next := PopTask(p);
      while next.Some? && pool[next.value].state != Runnable
        invariant Valid()
        invariant Spec.DropStale(m.tasks, m.rq[p]) == Spec.DropStale(m.tasks, rest)
        invariant if rest == [] then next == None && Abs() == m.(rq := m.rq[p := []])
                  else next == Some(rest[0]) && Abs() == m.(rq := m.rq[p := rest[1..]])
        decreases |rest|
      {
        rest := rest[1..];
        next := PopTask(p);
      }
    }

    // schedule(), in its three parts.
    method Schedule()
      requires Valid()
      modifies Repr
      ensures Valid() && Abs() == Spec.Schedule(old(Abs()))
    {
      RequeueCurrent();
      var pri := FirstNonEmpty();
      if pri == 3 {
        return;
      }
      var next := PopNext(pri);
      if next.None? {
        return;
      }
      pool[next.value] := pool[next.value].(state := Running);
      SwitchTo(cur, next.value);
    }

    method FillSlot(slot: Pid, entry: Point, priority: Priority, pc: nat)
      requires Valid()
      modifies this`at, pool
      ensures Valid()
      ensures Abs() == old(Abs()).(
                at := old(at)[slot := entry],
                tasks := old(pool[..])[slot := old(pool[slot]).(id := slot, state := Runnable, priority := priority,
                           ctx := old(pool[slot]).ctx.(pc := pc, sp := KStackTop(kstacks, slot)))])
    {
      pool[slot] := pool[slot].(id := slot, state := Runnable, priority := priority);
      pool[slot] := pool[slot].(ctx := pool[slot].ctx.(pc := pc, sp := KStackTop(kstacks, slot)));
      at := at[slot := entry];
    }

    method FindFree() returns (pid: nat)
      requires Valid()
      ensures pid == Spec.FirstFree(Abs().tasks, 0)
    {
      pid := 0;
      while pid < NR_TASKS
        invariant 0 <= pid <= NR_TASKS
        invariant Spec.FirstFree(pool[..], 0) == Spec.FirstFree(pool[..], pid)
      {
        if pool[pid].state == Free {
          break;
        }
        pid := pid + 1;
      }
    }

    // privilege_task_create_priority(); entry is the code at the address pc.
    method Create(entry: Point, priority: Priority, pc: nat) returns (pid: int)
      requires Valid()
      modifies Repr
      ensures Valid() && Abs() == Spec.Create(old(Abs()), entry, priority, pc)
      ensures pid == Spec.NewPid(old(Abs()))
    {
      var i := FindFree();
      if i == NR_TASKS {
        return -1;
      }
      FillSlot(i, entry, priority, pc);
      PushTask(priority, i);
      return i;
    }

    // do_fork() up to the copies of the user stack and the trap frame.
    method ForkTask(pc: nat) returns (pid: int)
      requires Valid()
      modifies Repr
      ensures Valid() && Abs() == Spec.ForkTask(old(Abs()), pc)
      ensures pid == Spec.NewPid(old(Abs()))
    {
      pid := Create(ToUser, HIGH, 0);
      if pid < 0 {
        return;
      }
      var slot: Pid := pid;
      pool[slot] := pool[slot].(ctx := pool[slot].ctx.(pc := pc, sp := KStackTop(kstacks, slot) - FRAME_SIZE));
    }

    method Kill(pid: Pid, sig: Signal)
      requires Valid()
      modifies Repr
      ensures Valid() && Abs() == Spec.Kill(old(Abs()), pid, sig)
    {
      pool[pid] := pool[pid].(sigpending := true);
      pool[pid] := pool[pid].(signal := pool[pid].signal + {sig});
    }

    // core_timer_handler()
    method Tick()
      requires Valid()
      modifies Repr
      ensures Valid() && Abs() == Spec.Tick(old(Abs()))
    {
      pool[cur] := pool[cur].(resched := true);
    }

    // zombie_reaper()'s scan.
    method Reap()
      requires Valid()
      modifies Repr
      ensures Valid() && Abs() == Spec.Reap(old(Abs()))
    {
      ghost var start := pool[..];
      var pid := 0;
      while pid < NR_TASKS
        invariant 0 <= pid <= NR_TASKS
        invariant Valid()
        invariant Abs() == old(Abs()).(tasks := pool[..])
        invariant forall i :: 0 <= i < NR_TASKS ==>
          pool[i] == if i < pid && start[i].state == Zombie then ZERO_TASK else start[i]
      {
        if pool[pid].state == Zombie {
          pool[pid] := ZERO_TASK;
        }
        pid := pid + 1;
      }
      assert pool[..] == Spec.Reap(old(Abs())).tasks;
    }

    method NumRunnableTasks() returns (n: nat)
      requires Valid()
      ensures n == Spec.NumRunnable(Abs())
    {
      n := 0;
      var pri := 0;
      while pri < 3
        invariant 0 <= pri <= 3
        invariant n == (if pri > 0 then |rq[0].Contents()| else 0) +
                       (if pri > 1 then |rq[1].Contents()| else 0) +
                       (if pri > 2 then |rq[2].Contents()| else 0)
      {
        n := n + rq[pri].Size();
        pri := pri + 1;
      }
    }

    // ---- kernel paths: each ends in schedule() or at a return to EL0 ----

    method Exit()
      requires Valid()
      modifies Repr
      ensures Valid() && Abs() == Spec.Finish(Spec.Exit(old(Abs())))
    {
      pool[cur] := pool[cur].(state := Zombie);
      at := at[cur := Dead];
      assert Abs() == Spec.Exit(old(Abs())).k;
      Schedule();
    }

    method CheckSignal()
      requires Valid()
      modifies Repr
      ensures Valid() && Abs() == Spec.Finish(Spec.CheckSignal(old(Abs())))
    {
      if !pool[cur].sigpending {
        at := at[cur := User];
        return;
      }
      if SIGKILL in pool[cur].signal {
        Exit();
        return;
      }
      if pool[cur].signal == {} {
        pool[cur] := pool[cur].(sigpending := false);
      }
      at := at[cur := User];
    }

    // check_resched() and check_signal() of kernel_exit 0. The rest of the path, behind
    // check_resched()'s schedule(), belongs to the task that schedule() picks.
    method ExitPath(late: bool)
      requires Valid()
      modifies Repr
      ensures Valid() && Abs() == Spec.Finish(Spec.ExitPath(old(Abs()), late))
    {
      if pool[cur].resched {
        pool[cur] := pool[cur].(resched := late);
        at := at[cur := InResched];
        assert Abs() == Spec.ExitPath(old(Abs()), late).k;
        Schedule();
      } else {
        CheckSignal();
      }
    }

    method Trap(call: Spec.Call, late: bool)
      requires Valid()
      modifies Repr
      ensures Valid() && Abs() == Spec.Finish(Spec.TrapPath(old(Abs()), call, late))
    {
      match call
      case Other => ExitPath(late);
      case Timer =>
        Tick();
        ExitPath(late);
      case Fork(pc) =>
        var pid := ForkTask(pc);
        ExitPath(late);
      case ExitCall => Exit();
      case KillCall(pid, sig) =>
        Kill(pid, sig);
        ExitPath(late);
    }

    method Continue(late: bool)
      requires Valid()
      modifies Repr
      ensures Valid() && Abs() == Spec.Finish(Spec.ContinuePath(old(Abs()), late))
    {
      match at[cur]
      case IdleLoop =>
        var n := NumRunnableTasks();
        if n == 1 {
          at := at[cur := IdleHalt];
        } else {
          Schedule();
        }
      case ReaperLoop =>
        Reap();
        Schedule();
      case ExecEntry => at := at[cur := User];
      case ToUser => ExitPath(late);
      case InResched => CheckSignal();
      case _ =>
    }

    method Step(e: Spec.Event)
      requires Valid()
      modifies Repr
      ensures Valid() && Abs() == Spec.Step(old(Abs()), e)
    {
      match e
      case CreateTask(entry, priority, pc) =>
        var pid := Create(entry, priority, pc);
      case StartIdle => at := at[cur := IdleLoop];
      case KernelTick => Tick();
      case Trap(call, regs, late) =>
        live := regs;
        Trap(call, late);
      case Continue(regs, late) =>
        live := regs;
        Continue(late);
    }

    // Runs events, skipping those that the current task cannot cause: the states form a
    // run of the specification, and the invariant holds at its end.
    method Run(es: seq<Spec.Event>) returns (ghost ks: seq<Kernel>, ghost done: seq<Spec.Event>)
      requires Valid() && Inv(Abs())
      modifies Repr
      ensures Valid() && Inv(Abs())
      ensures Spec.IsRun(ks, done) && ks[0] == old(Abs()) && ks[|done|] == Abs()
    {
      ks, done := [Abs()], [];
      for n := 0 to |es|
        invariant Valid() && Inv(Abs())
        invariant Spec.IsRun(ks, done) && ks[0] == old(Abs()) && ks[|done|] == Abs()
      {
        if Spec.PointEnabled(at[cur], es[n]) {
          StepInv(Abs(), es[n]);
          ExtendRun(ks, done, es[n]);
          Step(es[n]);
          ks, done := ks + [Abs()], done + [es[n]];
        }
      }
    }
  }
}
