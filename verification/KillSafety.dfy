/**
 SIGKILL: a task that has been killed never executes at EL0 again; when the rule
 applies, and what a signal sent to a free slot does.
 */
module KillSafety {
  import opened SchedulerInvariant
  import opened SchedulerRuns
  import opened SchedulerSpec
  import opened TaskTypes

  // A task marked with SIGKILL whose every continuation passes check_signal() first,
  // or that has died already.
  predicate Condemned(k: Kernel, t: Pid)
    requires WellFormed(k)
  {
    k.tasks[t].state == Zombie ||
    (k.tasks[t].state in {Runnable, Running} && SIGKILL in k.tasks[t].signal &&
     k.at[t] in {ToUser, InResched})
  }

  predicate AtEL0(k: Kernel, t: Pid)
    requires WellFormed(k)
  {
    k.cur == t && k.at[t] == User
  }

  lemma CheckSignalKills(k: Kernel)
    requires Inv(k) && SIGKILL in k.tasks[k.cur].signal
    ensures CheckSignal(k) == Exit(k)
  {
  }

  // The current task's way out to EL0, with SIGKILL pending.
  lemma ExitPathCondemns(k: Kernel, late: bool)
    requires Inv(k) && k.cur != 0 && SIGKILL in k.tasks[k.cur].signal
    ensures var p := ExitPath(k, late);
            p.sched && p.k.cur == k.cur && Condemned(p.k, k.cur) && PathOk(p)
  {
  }

  // Condemned at the end of a path that calls schedule(): condemned after it.
  lemma ScheduleCondemns(k: Kernel, t: Pid)
    requires MidInv(k) && Suspendable(k) && Condemned(k, t)
    ensures Condemned(Schedule(k), t)
  {
    ScheduleEffects(k);
  }

  lemma CondemnedContinues(k: Kernel, late: bool)
    requires Inv(k) && k.cur != 0 && SIGKILL in k.tasks[k.cur].signal && k.at[k.cur] in {ToUser, InResched}
    ensures Condemned(Finish(ContinuePath(k, late)), k.cur)
  {
    hide CheckSignal;
    if k.at[k.cur] == ToUser {
      ExitPathCondemns(k, late);
      ScheduleCondemns(ExitPath(k, late).k, k.cur);
    } else {
      CheckSignalKills(k);
      ExitOk(k);
      ScheduleCondemns(Exit(k).k, k.cur);
    }
  }

  lemma CondemnedRuns(k: Kernel, e: Event)
    requires Inv(k) && Enabled(k, e) && Condemned(k, k.cur)
    ensures Condemned(Step(k, e), k.cur)
  {
    assert PointOk(k.cur, Running, k.at[k.cur]);
    if e.Continue? {
      LiveInv(k, e.live);
      CondemnedContinues(k.(live := e.live), e.late);
    }
  }

  lemma CondemnedStep(k: Kernel, e: Event, t: Pid)
    requires Inv(k) && Enabled(k, e) && Condemned(k, t)
    ensures Condemned(Step(k, e), t) || Step(k, e).tasks[t] == ZERO_TASK
  {
    if k.tasks[t].state == Zombie {
      ZombieStep(k, e, t);
    } else if t != k.cur {
      PathFrame(k, e, t);
      EventPathOk(k, e);
      if EventPath(k, e).sched {
        ScheduleCondemns(EventPath(k, e).k, t);
      }
    } else {
      CondemnedRuns(k, e);
    }
  }

  // Safety over whole runs: until its slot is wiped, a condemned task is not at EL0.
  lemma {:induction false} CondemnedForever(ks: seq<Kernel>, es: seq<Event>, t: Pid, n: nat)
    requires IsRun(ks, es) && Inv(ks[0]) && Condemned(ks[0], t) && n < |ks|
    ensures (exists i :: 0 < i <= n && ks[i].tasks[t] == ZERO_TASK) ||
            (Condemned(ks[n], t) && !AtEL0(ks[n], t))
  {
    hide EventPath, Step;
    if n == 0 {
    } else {
      CondemnedForever(ks, es, t, n - 1);
      RunInv(ks, es, n - 1);
      assert Link(ks, es, n - 1);
      if forall i :: 0 < i < n ==> ks[i].tasks[t] != ZERO_TASK {
        CondemnedStep(ks[n - 1], es[n - 1], t);
      }
    }
    RunInv(ks, es, n);
  }

  // The rest of a kill trap leaves its target as it is.
  lemma KillOther(m: Kernel, late: bool, t: Pid)
    requires Inv(m) && m.cur != 0 && t != m.cur && SIGKILL in m.tasks[t].signal
    ensures Condemned(Finish(ExitPath(m, late)), t) <==>
            m.tasks[t].state != Free && m.at[t] in {ToUser, InResched, Dead}
  {
    assert PointOk(t, m.tasks[t].state, m.at[t]);
    ExitPathOnly(m, late);
    ExitPathOk(m, late);
    if ExitPath(m, late).sched {
      ScheduleEffects(ExitPath(m, late).k);
    }
  }

  // A SIGKILL condemns its target at once, whoever sends it, exactly when the target is a
  // task in use that is not a kernel task: neither idle, nor a reaper, nor a task that
  // has not yet reached its do_exec().
  lemma KillCondemns(k: Kernel, e: Event)
    requires Inv(k) && Enabled(k, e) && e.Trap? && e.call.KillCall? && e.call.sig == SIGKILL
    ensures var t := e.call.pid;
            Condemned(Step(k, e), t) <==>
              k.tasks[t].state != Free && k.at[t] in {User, ToUser, InResched, Dead}
  {
    var t := e.call.pid;
    var k' := k.(live := e.live);
    var m := Kill(k', t, SIGKILL);
    LiveInv(k, e.live);
    KillInv(k', t, SIGKILL);
    assert PointOk(t, k.tasks[t].state, k.at[t]);
    if t == k.cur {
      ExitPathCondemns(m, e.late);
      ScheduleCondemns(ExitPath(m, e.late).k, t);
    } else {
      KillOther(m, e.late, t);
    }
  }

  lemma MarkedTrap(k: Kernel, call: Call, late: bool)
    requires Inv(k) && k.cur != 0 && SIGKILL in k.tasks[k.cur].signal
    ensures var p := TrapPath(k, call, late);
            p.sched && p.k.cur == k.cur && Condemned(p.k, k.cur)
  {
    match call
    case Other => ExitPathCondemns(k, late);
    case Timer =>
      TickInv(k);
      ExitPathCondemns(Tick(k), late);
    case Fork(pc) =>
      ForkInv(k, pc);
      ExitPathCondemns(ForkTask(k, pc), late);
    case ExitCall =>
    case KillCall(pid, sig) =>
      KillInv(k, pid, sig);
      ExitPathCondemns(Kill(k, pid, sig), late);
  }

  // A task marked before its do_exec() does reach EL0 once, and its next trap condemns it.
  lemma MarkedBeforeExec(k: Kernel, e: Event)
    requires Inv(k) && Enabled(k, e) && SIGKILL in k.tasks[k.cur].signal
    requires k.at[k.cur] in {ExecEntry, User}
    ensures e.Continue? ==> AtEL0(Step(k, e), k.cur) && SIGKILL in Step(k, e).tasks[k.cur].signal
    ensures e.Trap? ==> Condemned(Step(k, e), k.cur)
  {
    assert PointOk(k.cur, Running, k.at[k.cur]);
    if e.Trap? {
      LiveInv(k, e.live);
      MarkedTrap(k.(live := e.live), e.call, e.late);
      EventPathOk(k, e);
      ScheduleCondemns(EventPath(k, e).k, k.cur);
    }
  }

  // ---- new tasks ----

  ghost predicate FreeSlotsClean(k: Kernel)
    requires WellFormed(k)
  {
    forall i: Pid :: k.tasks[i].state == Free ==> k.tasks[i] == ZERO_TASK
  }

  predicate KillsFreeSlot(k: Kernel, e: Event)
    requires WellFormed(k)
  {
    e.Trap? && e.call.KillCall? && k.tasks[e.call.pid].state == Free
  }

  // schedule() does nothing to a free slot.
  lemma FreeAcross(k: Kernel, e: Event, i: Pid)
    requires Inv(k) && Enabled(k, e)
    requires Step(k, e).tasks[i].state == Free || EventPath(k, e).k.tasks[i].state == Free
    ensures Step(k, e).tasks[i] == EventPath(k, e).k.tasks[i]
  {
    EventPathOk(k, e);
    if EventPath(k, e).sched {
      ScheduleEffects(EventPath(k, e).k);
    }
  }

  lemma FreeIsNotCurrent(k: Kernel, e: Event, i: Pid)
    requires Inv(k) && Enabled(k, e) && EventPath(k, e).k.tasks[i].state == Free
    ensures i != k.cur
  {
    EventPathOk(k, e);
    PathFrame(k, e, i);
  }

  lemma CleanTrap(k: Kernel, call: Call, late: bool, i: Pid)
    requires Inv(k) && FreeSlotsClean(k) && i != k.cur
    requires call.KillCall? ==> k.tasks[call.pid].state != Free
    requires TrapPath(k, call, late).k.tasks[i].state == Free
    ensures TrapPath(k, call, late).k.tasks[i] == ZERO_TASK
  {
    match call
    case Other => ExitPathOnly(k, late);
    case Timer => ExitPathOnly(Tick(k), late);
    case Fork(pc) => ExitPathOnly(ForkTask(k, pc), late);
    case ExitCall =>
    case KillCall(pid, sig) => ExitPathOnly(Kill(k, pid, sig), late);
  }

  lemma CleanPath(k: Kernel, e: Event, i: Pid)
    requires Inv(k) && Enabled(k, e) && FreeSlotsClean(k) && !KillsFreeSlot(k, e)
    requires EventPath(k, e).k.tasks[i].state == Free
    ensures EventPath(k, e).k.tasks[i] == ZERO_TASK
  {
    FreeIsNotCurrent(k, e, i);
    match e
    case CreateTask(_, _, _) =>
    case StartIdle =>
    case KernelTick =>
    case Trap(call, live, late) => CleanTrap(k.(live := live), call, late, i);
    case Continue(live, late) => ContinueFrame(k.(live := live), late, i);
  }

  // do_kill() does not look at its target's state. Free slots stay clean under an event
  // exactly when the event is not a signal to a free slot.
  lemma CleanStep(k: Kernel, e: Event)
    requires Inv(k) && Enabled(k, e) && FreeSlotsClean(k)
    ensures FreeSlotsClean(Step(k, e)) <==> !KillsFreeSlot(k, e)
  {
    EventPathOk(k, e);
    var p := EventPath(k, e);
    if KillsFreeSlot(k, e) {
      var m := Kill(k.(live := e.live), e.call.pid, e.call.sig);
      ExitPathOnly(m, e.late);
      assert e.call.pid != k.cur;
      assert m.tasks[e.call.pid].sigpending;
      FreeAcross(k, e, e.call.pid);
    } else {
      forall i: Pid | Step(k, e).tasks[i].state == Free
        ensures Step(k, e).tasks[i] == ZERO_TASK
      {
        FreeAcross(k, e, i);
        CleanPath(k, e, i);
      }
    }
  }

  predicate StartsClean(t: Task) {
    !t.sigpending && t.signal == {} && !t.resched
  }

  // In a run whose kills name only slots in use, every slot that is filled starts with no
  // pending signal and no resched flag.
  lemma {:induction false} NewTasksStartClean(ks: seq<Kernel>, es: seq<Event>, n: nat)
    requires IsRun(ks, es) && Inv(ks[0]) && FreeSlotsClean(ks[0]) && n < |ks|
    requires forall i :: 0 <= i < n ==> !KillsFreeSlot(ks[i], es[i])
    ensures FreeSlotsClean(ks[n])
    ensures NewPid(ks[n]) >= 0 ==>
      forall entry, pc, p: Priority :: StartsClean(Create(ks[n], entry, p, pc).tasks[NewPid(ks[n])])
  {
    hide EventPath, Step, KillsFreeSlot, Enabled;
    if n == 0 {
    } else {
      NewTasksStartClean(ks, es, n - 1);
      RunInv(ks, es, n - 1);
      assert Link(ks, es, n - 1);
      CleanStep(ks[n - 1], es[n - 1]);
    }
  }

  // The other case is real: after a SIGKILL to the slot that is filled next, the task
  // created there is marked from the start, and a forked one never reaches EL0.
  lemma StaleSignalIsInherited(k: Kernel, entry: Point, p: Priority, pc: nat)
    requires Inv(k) && NewPid(k) >= 0
    ensures var t: Pid := NewPid(k);
            var r := Create(Kill(k, t, SIGKILL), entry, p, pc);
            SIGKILL in r.tasks[t].signal && (entry == ToUser ==> Condemned(r, t))
  {
  }
}
