/**
 A suspended task resumes with exactly the registers it was suspended (or created) with.
 */
module ContextPreservation {
  import opened SchedulerInvariant
  import opened SchedulerRuns
  import opened SchedulerSpec
  import opened TaskTypes

  // Task t waits with, or has just been given, the registers ctx and continues at point p.
  predicate Suspended(k: Kernel, t: Pid, ctx: Context, p: Point)
    requires WellFormed(k)
  {
    k.at[t] == p && k.tasks[t].ctx == ctx &&
    if k.cur == t then k.live == ctx else k.tasks[t].state == Runnable
  }

  lemma SuspendedStep(k: Kernel, e: Event, t: Pid, ctx: Context, p: Point)
    requires Inv(k) && Enabled(k, e) && k.cur != t && Suspended(k, t, ctx, p)
    ensures Suspended(Step(k, e), t, ctx, p)
    ensures Step(k, e).tasks[t].resched == k.tasks[t].resched
  {
    StepBystander(k, e, t);
  }

  // While a task is suspended its saved context and continuation point do not change,
  // and the step that makes it current again loads exactly that context.
  lemma {:induction false} SuspendedContext(ks: seq<Kernel>, es: seq<Event>, t: Pid, from: nat, n: nat)
    requires IsRun(ks, es) && Inv(ks[0]) && from <= n < |ks|
    requires ks[from].tasks[t].state == Runnable && ks[from].cur != t
    requires forall i :: from <= i < n ==> ks[i].cur != t
    ensures Suspended(ks[n], t, ks[from].tasks[t].ctx, ks[from].at[t])
    ensures ks[n].tasks[t].resched == ks[from].tasks[t].resched
  {
    hide EventPath, Step;
    if from == n {
    } else {
      SuspendedContext(ks, es, t, from, n - 1);
      RunInv(ks, es, n - 1);
      assert Link(ks, es, n - 1);
      SuspendedStep(ks[n - 1], es[n - 1], t, ks[from].tasks[t].ctx, ks[from].at[t]);
    }
  }

  // switch_to's store: the step that suspends a task saves the registers it had then.
  lemma SwitchOutSaves(k: Kernel, e: Event)
    requires Inv(k) && Enabled(k, e)
    ensures var r := Step(k, e);
            r.cur != k.cur ==>
              EventPath(k, e).sched && r.tasks[k.cur].ctx == EventPath(k, e).k.live &&
              r.tasks[k.cur].state in {Runnable, Zombie}
  {
    EventPathOk(k, e);
    PathFrame(k, e, k.cur);
    if EventPath(k, e).sched {
      ScheduleEffects(EventPath(k, e).k);
    }
  }

  // schedule() may pick the task that called it: then no register changes.
  lemma SelfSwitchKeepsRegisters(k: Kernel, e: Event)
    requires Inv(k) && Enabled(k, e) && EventPath(k, e).sched && Step(k, e).cur == k.cur
    ensures Step(k, e).live == EventPath(k, e).k.live
  {
    EventPathOk(k, e);
    PathFrame(k, e, k.cur);
    ScheduleEffects(EventPath(k, e).k);
  }

  // Switched out by event i, next current after event j - 1: the registers loaded there
  // are the ones live at the switch-out, and execution continues where it stopped.
  lemma ResumesWithSavedRegisters(ks: seq<Kernel>, es: seq<Event>, t: Pid, i: nat, j: nat)
    requires IsRun(ks, es) && Inv(ks[0]) && i < j < |ks|
    requires ks[i].cur == t && ks[j].cur == t
    requires forall m :: i < m < j ==> ks[m].cur != t
    requires j > i + 1 ==> ks[i + 1].tasks[t].state != Zombie
    requires EventPath(ks[i], es[i]).sched
    ensures ks[j].live == EventPath(ks[i], es[i]).k.live
    ensures ks[j].at[t] == ks[i + 1].at[t]
  {
    RunInv(ks, es, i);
    assert Link(ks, es, i);
    if j == i + 1 {
      SelfSwitchKeepsRegisters(ks[i], es[i]);
    } else {
      SwitchOutSaves(ks[i], es[i]);
      SuspendedContext(ks, es, t, i + 1, j);
    }
  }

  // A created or forked task starts with zero registers but for the entry point and the
  // stack pointer it was given, at the entry it was given.
  lemma FirstRunRegisters(ks: seq<Kernel>, es: seq<Event>, j: nat)
    requires IsRun(ks, es) && Inv(ks[0]) && es != [] && es[0].CreateTask? && 0 < j < |ks|
    requires NewPid(ks[0]) >= 0 && ks[j].cur == NewPid(ks[0])
    requires forall m :: 0 < m < j ==> ks[m].cur != NewPid(ks[0])
    ensures ks[j].live == ZERO_CONTEXT.(pc := es[0].pc, sp := KStackTop(ks[0].kstacks, NewPid(ks[0])))
    ensures ks[j].at[NewPid(ks[0])] == es[0].entry
  {
    var t: Pid := NewPid(ks[0]);
    var k := ks[0];
    assert SlotOk(t, k.tasks[t]);
    assert Link(ks, es, 0);
    SuspendedContext(ks, es, t, 1, j);
  }

  // The child as do_fork leaves it.
  lemma ChildSlot(k: Kernel, pc: nat)
    requires Inv(k) && NewPid(k) >= 0
    ensures var t: Pid := NewPid(k);
            var m := ForkTask(k, pc);
            t != k.cur && m.cur == k.cur && m.at[t] == ToUser && m.tasks[t].state == Runnable &&
            m.tasks[t].ctx == ZERO_CONTEXT.(pc := pc, sp := KStackTop(k.kstacks, t) - FRAME_SIZE) &&
            !m.tasks[t].resched
  {
  }

  // The child right after the parent's trap: queued, or already dispatched.
  lemma ForkedChild(k: Kernel, e: Event)
    requires Inv(k) && Enabled(k, e) && e.Trap? && e.call.Fork? && NewPid(k) >= 0
    ensures var t: Pid := NewPid(k);
            var start := ZERO_CONTEXT.(pc := e.call.pc, sp := KStackTop(k.kstacks, t) - FRAME_SIZE);
            t != k.cur && Suspended(Step(k, e), t, start, ToUser) && !Step(k, e).tasks[t].resched
  {
    hide ForkTask;
    var m := k.(live := e.live);
    LiveInv(k, e.live);
    ChildSlot(m, e.call.pc);
    ExitPathOnly(ForkTask(m, e.call.pc), e.late);
    EventPathOk(k, e);
    if EventPath(k, e).sched {
      ScheduleEffects(EventPath(k, e).k);
    }
  }

  lemma FirstRunRegistersOfChild(ks: seq<Kernel>, es: seq<Event>, j: nat)
    requires IsRun(ks, es) && Inv(ks[0]) && es != [] && 0 < j < |ks|
    requires es[0].Trap? && es[0].call.Fork?
    requires NewPid(ks[0]) >= 0 && ks[j].cur == NewPid(ks[0])
    requires forall m :: 0 < m < j ==> ks[m].cur != NewPid(ks[0])
    ensures ks[j].live == ZERO_CONTEXT.(pc := es[0].call.pc,
                                        sp := KStackTop(ks[0].kstacks, NewPid(ks[0])) - FRAME_SIZE)
    ensures ks[j].at[NewPid(ks[0])] == ToUser
  {
    var t: Pid := NewPid(ks[0]);
    assert Link(ks, es, 0);
    ForkedChild(ks[0], es[0]);
    if ks[1].cur == t {
      assert j == 1;
    } else {
      SuspendedContext(ks, es, t, 1, j);
    }
  }

  // fork's return value in the parent: -1 exactly when no slot is free, else the pid of
  // a task other than the idle task and the parent, whose slot was free before.
  lemma ForkResult(k: Kernel)
    requires Inv(k)
    ensures NewPid(k) == -1 <==> forall i: Pid :: k.tasks[i].state != Free
    ensures NewPid(k) != -1 ==> NewPid(k) > 0 && NewPid(k) != k.cur && k.tasks[NewPid(k)].state == Free
    ensures forall i: Pid :: i < NewPid(k) ==> k.tasks[i].state != Free
  {
  }
}
