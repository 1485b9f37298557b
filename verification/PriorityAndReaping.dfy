/**
 Strict priority over whole runs, what it means for the boot configuration, and the
 exact point at which the reaper frees the slot of an exited task.
 */
module PriorityAndReaping {
  import opened SchedulerInvariant
  import opened SchedulerRuns
  import opened SchedulerSpec
  import opened TaskTypes

  predicate AliveHigh(k: Kernel, h: Pid)
    requires WellFormed(k)
  {
    k.tasks[h].state in {Runnable, Running} && k.tasks[h].priority == HIGH
  }

  predicate CurrentIsHigh(k: Kernel)
    requires WellFormed(k)
  {
    k.tasks[k.cur].priority == HIGH
  }

  lemma ExitPathKeepsPriority(k: Kernel, late: bool)
    requires WellFormed(k)
    ensures ExitPath(k, late).k.tasks[k.cur].priority == k.tasks[k.cur].priority
  {
  }

  lemma TrapKeepsPriority(k: Kernel, call: Call, late: bool)
    requires WellFormed(k) && k.tasks[k.cur].state == Running
    ensures TrapPath(k, call, late).k.tasks[k.cur].priority == k.tasks[k.cur].priority
  {
    match call
    case Other => ExitPathKeepsPriority(k, late);
    case Timer => ExitPathKeepsPriority(Tick(k), late);
    case Fork(pc) => ExitPathKeepsPriority(ForkTask(k, pc), late);
    case ExitCall =>
    case KillCall(pid, sig) => ExitPathKeepsPriority(Kill(k, pid, sig), late);
  }

  lemma CurrentKeepsPriority(k: Kernel, e: Event)
    requires Inv(k) && Enabled(k, e)
    ensures EventPath(k, e).k.tasks[k.cur].priority == k.tasks[k.cur].priority
  {
    match e
    case Trap(call, live, late) => TrapKeepsPriority(k.(live := live), call, late);
    case Continue(live, late) => ExitPathKeepsPriority(k.(live := live), late);
    case _ =>
  }

  lemma PathKeepsPriority(k: Kernel, e: Event, t: Pid)
    requires Inv(k) && Enabled(k, e) && k.tasks[t].state in {Runnable, Running}
    ensures var p := EventPath(k, e).k;
            p.tasks[t].priority == k.tasks[t].priority && p.tasks[t].state in {k.tasks[t].state, Zombie}
  {
    PathFrame(k, e, t);
    EventPathOk(k, e);
    if t == k.cur {
      CurrentKeepsPriority(k, e);
    }
  }

  lemma ScheduleSelectsHigh(k: Kernel, h: Pid)
    requires MidInv(k) && Suspendable(k) && AliveHigh(k, h)
    ensures CurrentIsHigh(Schedule(k)) && AliveHigh(Schedule(k), h)
  {
    var m := Requeue(k);
    RequeueExact(k);
    ScheduleExact(k);
    DispatchInv(m);
    assert m.tasks[h].state == Runnable;
    assert Queued(m)[h] == 1;
    assert m.rq[0] != [];
    assert m.rq[0][0] in m.rq[0];
  }

  // With a HIGH task that does not exit, every call of schedule() selects a HIGH task.
  lemma HighStep(k: Kernel, e: Event, h: Pid)
    requires Inv(k) && Enabled(k, e) && AliveHigh(k, h)
    ensures Step(k, e).tasks[h].state == Zombie || AliveHigh(Step(k, e), h)
    ensures Step(k, e).tasks[h].state != Zombie && (EventPath(k, e).sched || CurrentIsHigh(k)) ==>
      CurrentIsHigh(Step(k, e))
  {
    PathKeepsPriority(k, e, h);
    PathKeepsPriority(k, e, k.cur);
    EventPathOk(k, e);
    PathFrame(k, e, k.cur);
    var p := EventPath(k, e);
    if p.sched {
      ScheduleEffects(p.k);
      if p.k.tasks[h].state != Zombie {
        ScheduleSelectsHigh(p.k, h);
      }
    }
  }

  lemma {:induction false} HighSurvives(ks: seq<Kernel>, es: seq<Event>, h: Pid, n: nat)
    requires IsRun(ks, es) && Inv(ks[0]) && AliveHigh(ks[0], h) && n < |ks|
    requires forall i :: 0 <= i <= n ==> ks[i].tasks[h].state != Zombie
    ensures AliveHigh(ks[n], h)
  {
    hide EventPath, Step;
    if n == 0 {
    } else {
      HighSurvives(ks, es, h, n - 1);
      RunInv(ks, es, n - 1);
      assert Link(ks, es, n - 1);
      HighStep(ks[n - 1], es[n - 1], h);
    }
  }

  // From the first call of schedule() on, only HIGH tasks run while task h has not exited.
  lemma {:induction false} StrictPriority(ks: seq<Kernel>, es: seq<Event>, h: Pid, first: nat, n: nat)
    requires IsRun(ks, es) && Inv(ks[0]) && AliveHigh(ks[0], h) && first < n < |ks|
    requires forall i :: 0 <= i <= n ==> ks[i].tasks[h].state != Zombie
    requires EventPath(ks[first], es[first]).sched
    ensures CurrentIsHigh(ks[n])
    decreases n
  {
    hide EventPath, Step;
    HighSurvives(ks, es, h, n - 1);
    RunInv(ks, es, n - 1);
    assert Link(ks, es, n - 1);
    if first + 1 == n {
    } else {
      StrictPriority(ks, es, h, first, n - 1);
    }
    HighStep(ks[n - 1], es[n - 1], h);
  }

  // ---- the reaper and the boot configuration ----

  predicate Reaper(k: Kernel, r: Pid)
    requires WellFormed(k)
  {
    AliveHigh(k, r) && k.at[r] == ReaperLoop
  }

  lemma ReaperPath(k: Kernel, e: Event, r: Pid)
    requires Inv(k) && Enabled(k, e) && Reaper(k, r)
    ensures EventPath(k, e).k.at[r] == ReaperLoop
    ensures EventPath(k, e).k.tasks[r].state != Zombie
    ensures k.cur == r && e.Continue? ==> EventPath(k, e) == Path(Reap(k.(live := e.live)), true)
    ensures k.cur == r && !e.Continue? ==> e.KernelTick?
  {
    PathFrame(k, e, r);
  }

  // A reaper never dies, not even of a SIGKILL: it never comes to check_signal().
  lemma ReaperStep(k: Kernel, e: Event, r: Pid)
    requires Inv(k) && Enabled(k, e) && Reaper(k, r)
    ensures Reaper(Step(k, e), r)
  {
    HighStep(k, e, r);
    PathFrame(k, e, r);
    PathKeepsPriority(k, e, r);
    EventPathOk(k, e);
    ReaperPath(k, e, r);
    if EventPath(k, e).sched {
      ScheduleEffects(EventPath(k, e).k);
    }
  }

  // idle() has not scheduled yet and sees more than one queued task, or it has lost the
  // processor.
  predicate IdleWaiting(k: Kernel)
    requires WellFormed(k)
  {
    k.at[0] == IdleLoop && k.tasks[0].priority == LOW && (k.cur == 0 ==> NumRunnable(k) >= 2)
  }

  lemma IdlePath(k: Kernel, e: Event)
    requires Inv(k) && Enabled(k, e) && IdleWaiting(k)
    ensures var p := EventPath(k, e);
            p.k.at[0] == IdleLoop && p.k.tasks[0].priority == LOW &&
            (k.cur == 0 && !p.sched ==> p.k.rq == k.rq)
  {
    var zero: Pid := 0;
    PathFrame(k, e, zero);
    PathKeepsPriority(k, e, zero);
    assert PointOk(zero, k.tasks[zero].state, k.at[zero]);
    if k.cur == 0 && e.Continue? {
      assert NumRunnable(k.(live := e.live)) == NumRunnable(k);
    }
  }

  lemma IdleStep(k: Kernel, e: Event, r: Pid)
    requires Inv(k) && Enabled(k, e) && Reaper(k, r) && IdleWaiting(k)
    requires k.cur != 0 ==> CurrentIsHigh(k)
    ensures IdleWaiting(Step(k, e))
    ensures Step(k, e).cur != 0 ==> CurrentIsHigh(Step(k, e))
    ensures EventPath(k, e).sched || k.cur != 0 ==> Step(k, e).cur != 0
  {
    IdlePath(k, e);
    HighStep(k, e, r);
    ReaperStep(k, e, r);
    EventPathOk(k, e);
    PathFrame(k, e, 0);
    if EventPath(k, e).sched {
      ScheduleEffects(EventPath(k, e).k);
    }
  }

  // With a reaper at work, idle() never takes its "one runnable task" exit, and once any
  // schedule() has been called task 0 is never current again.
  lemma {:induction false} IdleNeverReturns(ks: seq<Kernel>, es: seq<Event>, r: Pid, n: nat)
    requires IsRun(ks, es) && Inv(ks[0]) && Reaper(ks[0], r) && n < |ks|
    requires IdleWaiting(ks[0]) && ks[0].cur == 0
    ensures Reaper(ks[n], r) && IdleWaiting(ks[n]) && (ks[n].cur != 0 ==> CurrentIsHigh(ks[n]))
    ensures forall i :: 0 <= i < n && EventPath(ks[i], es[i]).sched ==> ks[n].cur != 0
  {
    hide EventPath, Step;
    if n == 0 {
    } else {
      IdleNeverReturns(ks, es, r, n - 1);
      RunInv(ks, es, n - 1);
      assert Link(ks, es, n - 1);
      IdleStep(ks[n - 1], es[n - 1], r);
      ReaperStep(ks[n - 1], es[n - 1], r);
    }
  }

  lemma StartsIdle(k: Kernel)
    requires Inv(k) && k.at[k.cur] == Main
    ensures Step(k, StartIdle) == k.(at := k.at[k.cur := IdleLoop]) && Inv(Step(k, StartIdle))
  {
  }

  lemma CreateInFirstFree(k: Kernel, i: Pid, entry: Point, p: Priority, pc: nat)
    requires Inv(k) && k.at[k.cur] == Main && entry in {ExecEntry, ReaperLoop}
    requires k.tasks[i].state == Free && forall j :: 0 <= j < i ==> k.tasks[j].state != Free
    ensures var r := Step(k, CreateTask(entry, p, pc));
            Inv(r) && r.cur == k.cur && r.at == k.at[i := entry] && r.rq == k.rq[p := k.rq[p] + [i]] &&
            r.tasks == k.tasks[i := k.tasks[i].(id := i, state := Runnable, priority := p,
                                                ctx := k.tasks[i].ctx.(pc := pc, sp := KStackTop(k.kstacks, i)))]
  {
    StepInv(k, CreateTask(entry, p, pc));
    assert WellFormed(k);
    hide Inv;
    assert FirstFree(k.tasks, 0) == i;
    EnqueueAppends(k, i, Create(k, entry, p, pc).tasks[i], entry);
  }

  // The number of events among the first n that are not timer ticks.
  function NonTicks(es: seq<Event>, n: nat): nat
    requires n <= |es|
  {
    if n == 0 then 0 else NonTicks(es, n - 1) + if es[n - 1].KernelTick? then 0 else 1
  }

  // The event that main() causes after p others: it creates a task that calls do_exec() and a
  // reaper, both HIGH, and enters idle(); from there on anything may happen.
  predicate BootEvent(p: nat, e: Event) {
    match p
    case 0 => e.CreateTask? && e.entry == ExecEntry && e.priority == HIGH
    case 1 => e.CreateTask? && e.entry == ReaperLoop && e.priority == HIGH
    case 2 => e == StartIdle
    case _ => true
  }

  // Interrupts are on from the first creation on, so ticks may come in anywhere.
  predicate BootOrder(es: seq<Event>) {
    forall i :: 0 <= i < |es| && !es[i].KernelTick? ==> BootEvent(NonTicks(es, i), es[i])
  }

  // The state after p of these events and any ticks.
  predicate BootPhase(k: Kernel, p: nat)
    requires WellFormed(k)
  {
    if p >= 3 then Reaper(k, 2) && IdleWaiting(k) && (k.cur != 0 ==> CurrentIsHigh(k)) else
      k.cur == 0 && k.at[0] == Main && k.tasks[0].priority == LOW && k.tasks[0].state == Running &&
      match p
      case 0 => k.rq == [[], [], []] && k.tasks[1].state == k.tasks[2].state == Free
      case 1 => k.rq == [[1], [], []] && k.tasks[1].state == Runnable && k.tasks[2].state == Free
      case _ => k.rq == [[1, 2], [], []] && Reaper(k, 2)
  }

  lemma BootTick(k: Kernel, p: nat)
    requires Inv(k) && BootPhase(k, p) && p < 3
    ensures BootPhase(Step(k, KernelTick), p) && !EventPath(k, KernelTick).sched
  {
  }

  // The next event of the boot is enabled.
  lemma BootStep(k: Kernel, p: nat, e: Event)
    requires Inv(k) && BootPhase(k, p) && p < 3 && BootEvent(p, e)
    ensures Enabled(k, e) && BootPhase(Step(k, e), p + 1) && !EventPath(k, e).sched
  {
    if p == 0 {
      CreateInFirstFree(k, 1, ExecEntry, HIGH, e.pc);
      assert Step(k, e).rq[0] == [1];
      assert Step(k, e).rq == [[1], [], []];
    } else if p == 1 {
      CreateInFirstFree(k, 2, ReaperLoop, HIGH, e.pc);
      assert Step(k, e).rq[0] == [1, 2];
      assert Step(k, e).rq == [[1, 2], [], []];
    } else {
      StartsIdle(k);
    }
  }

  // One step of a boot: once schedule() has been called task 0 is not current any more.
  lemma BootAdvances(k: Kernel, p: nat, e: Event)
    requires Inv(k) && Enabled(k, e) && BootPhase(k, p) && (e.KernelTick? || BootEvent(p, e))
    ensures BootPhase(Step(k, e), if e.KernelTick? then p else p + 1)
    ensures EventPath(k, e).sched || k.cur != 0 ==> Step(k, e).cur != 0
  {
    hide Step, EventPath, Inv;
    if p >= 3 {
      IdleStep(k, e, 2);
      ReaperStep(k, e, 2);
    } else if e.KernelTick? {
      BootTick(k, p);
    } else {
      BootStep(k, p, e);
    }
  }

  lemma BootAdvancesRun(ks: seq<Kernel>, es: seq<Event>, n: nat)
    requires IsRun(ks, es) && Inv(ks[0]) && n < |es| && BootOrder(es) && BootPhase(ks[n], NonTicks(es, n))
    ensures BootPhase(ks[n + 1], NonTicks(es, n + 1))
    ensures EventPath(ks[n], es[n]).sched || ks[n].cur != 0 ==> ks[n + 1].cur != 0
  {
    hide EventPath, Step, BootPhase, Inv, Enabled, BootEvent;
    RunInv(ks, es, n);
    assert Link(ks, es, n);
    BootAdvances(ks[n], NonTicks(es, n), es[n]);
  }

  lemma BootBegins(live: Context, kstacks: nat, es: seq<Event>)
    ensures NonTicks(es, 0) == 0 && BootPhase(Initial(live, kstacks), 0)
  {
  }

  lemma {:induction false} BootPhases(ks: seq<Kernel>, es: seq<Event>, live: Context, kstacks: nat, n: nat)
    requires IsRun(ks, es) && n < |ks| && ks[0] == Initial(live, kstacks) && BootOrder(es)
    ensures BootPhase(ks[n], NonTicks(es, n))
    ensures forall i :: 0 <= i < n && EventPath(ks[i], es[i]).sched ==> ks[n].cur != 0
  {
    hide EventPath, Step, BootPhase, Initial, Inv, BootOrder, NonTicks;
    InitialInv(live, kstacks);
    if n == 0 {
      BootBegins(live, kstacks, es);
    } else {
      BootPhases(ks, es, live, kstacks, n - 1);
      BootAdvancesRun(ks, es, n - 1);
    }
  }

  // Every run from the initial state that starts the way main() does, with timer ticks at any
  // point: idle() never takes its exit, and from the first call of schedule() on the current
  // task is a HIGH one and never task 0.
  lemma BootNeverHalts(ks: seq<Kernel>, es: seq<Event>, live: Context, kstacks: nat, n: nat)
    requires IsRun(ks, es) && n < |ks| && ks[0] == Initial(live, kstacks) && BootOrder(es)
    ensures ks[n].at[0] == if NonTicks(es, n) < 3 then Main else IdleLoop
    ensures forall i :: 0 <= i < n && EventPath(ks[i], es[i]).sched ==> ks[n].cur != 0 && CurrentIsHigh(ks[n])
  {
    hide EventPath, Step;
    BootPhases(ks, es, live, kstacks, n);
  }

  // ---- slot reclamation ----

  // The reaper becomes current with the j-th next call of schedule(); for j == 0 it is.
  predicate ReaperDue(k: Kernel, r: Pid, j: int)
    requires WellFormed(k)
  {
    Reaper(k, r) && if j == 0 then k.cur == r else WaitsAt(k, j - 1, r)
  }

  lemma ReaperDueStep(k: Kernel, e: Event, r: Pid, j: nat)
    requires Inv(k) && Enabled(k, e) && ReaperDue(k, r, j) && j > 0
    ensures EventPath(k, e).sched ==> ReaperDue(Step(k, e), r, j - 1)
    ensures !EventPath(k, e).sched ==> ReaperDue(Step(k, e), r, j)
  {
    hide EventPath, Step;
    ReaperStep(k, e, r);
    WaitStep(k, e, j - 1, r);
  }

  // The current reaper wipes every zombie before its own schedule().
  lemma ReaperRuns(k: Kernel, e: Event, r: Pid, t: Pid)
    requires Inv(k) && Enabled(k, e) && ReaperDue(k, r, 0) && k.tasks[t].state == Zombie
    ensures if EventPath(k, e).sched then EventPath(k, e).k.tasks[t] == ZERO_TASK && Step(k, e).tasks[t] == ZERO_TASK
            else ReaperDue(Step(k, e), r, 0) && Step(k, e).tasks[t].state == Zombie
  {
  }

  lemma ReclaimStep(k: Kernel, e: Event, r: Pid, t: Pid, j: nat)
    requires Inv(k) && Enabled(k, e) && ReaperDue(k, r, j) && k.tasks[t].state == Zombie
    ensures Step(k, e).tasks[t] == ZERO_TASK ||
            (Step(k, e).tasks[t].state == Zombie &&
             if EventPath(k, e).sched then j > 0 && ReaperDue(Step(k, e), r, j - 1)
             else ReaperDue(Step(k, e), r, j))
  {
    if j == 0 {
      ReaperRuns(k, e, r, t);
    } else {
      ReaperDueStep(k, e, r, j);
      ZombieStep(k, e, t);
    }
  }

  // If the reaper is due with the j-th call of schedule(), a zombie's slot is wiped at the
  // latest by the path that makes the (j + 1)-th, which is the reaper's own.
  lemma {:induction false} ReclaimedInTime(ks: seq<Kernel>, es: seq<Event>, r: Pid, t: Pid, j: nat,
                                           from: nat, n: nat)
    requires IsRun(ks, es) && Inv(ks[0]) && from <= n < |ks|
    requires ReaperDue(ks[from], r, j) && ks[from].tasks[t].state == Zombie
    ensures (exists i :: from < i <= n && ks[i].tasks[t] == ZERO_TASK) ||
            (ReaperDue(ks[n], r, j - ScheduleCalls(ks, es, from, n)) && ks[n].tasks[t].state == Zombie &&
             ScheduleCalls(ks, es, from, n) <= j)
  {
    hide EventPath, Step, Enabled, Inv, Reaper, WaitsAt;
    if from == n {
    } else {
      ReclaimedInTime(ks, es, r, t, j, from, n - 1);
      RunInv(ks, es, n - 1);
      assert Link(ks, es, n - 1);
      if forall i :: from < i < n ==> ks[i].tasks[t] != ZERO_TASK {
        ReclaimStep(ks[n - 1], es[n - 1], r, t, j - ScheduleCalls(ks, es, from, n - 1));
      }
    }
  }

  lemma DyingSchedules(k: Kernel, e: Event)
    requires Inv(k) && Enabled(k, e) && EventPath(k, e).k.tasks[k.cur].state == Zombie
    ensures EventPath(k, e).sched
  {
    EventPathOk(k, e);
    PathFrame(k, e, k.cur);
  }

  lemma DyingStep(k: Kernel, e: Event, r: Pid, j: nat)
    requires Inv(k) && Enabled(k, e) && EventPath(k, e).k.tasks[k.cur].state == Zombie
    requires Reaper(k, r) && WaitsAt(k, j, r)
    ensures Step(k, e).tasks[k.cur].state == Zombie && ReaperDue(Step(k, e), r, j)
  {
    hide EventPath, Step;
    DeathSwitchesAway(k, e);
    DyingSchedules(k, e);
    ReaperDueStep(k, e, r, j + 1);
  }

  lemma {:induction false} CallsFromStart(ks: seq<Kernel>, es: seq<Event>, n: nat)
    requires IsRun(ks, es) && 0 < n < |ks|
    ensures ScheduleCalls(ks, es, 0, n) <= 1 + ScheduleCalls(ks, es, 1, n)
  {
    if n == 1 {
    } else {
      CallsFromStart(ks, es, n - 1);
    }
  }

  // A task that dies with j tasks queued ahead of the reaper: its slot is wiped by the path
  // that makes the (j + 2)-th call of schedule(), counting the call that it dies in, or before.
  lemma ExitedSlotIsReclaimed(ks: seq<Kernel>, es: seq<Event>, r: Pid, j: nat, n: nat)
    requires IsRun(ks, es) && Inv(ks[0]) && 0 < n < |ks|
    requires EventPath(ks[0], es[0]).k.tasks[ks[0].cur].state == Zombie
    requires Reaper(ks[0], r) && WaitsAt(ks[0], j, r)
    requires ScheduleCalls(ks, es, 0, n) >= j + 2
    ensures exists i :: 1 < i <= n && ks[i].tasks[ks[0].cur] == ZERO_TASK
  {
    assert Link(ks, es, 0);
    DyingStep(ks[0], es[0], r, j);
    ReclaimedInTime(ks, es, r, ks[0].cur, j, 1, n);
    CallsFromStart(ks, es, n);
  }
}
