/**
 What an event does, told by the fields of the state alone: who dies and who goes back to EL0,
 when schedule() is called, which signals arrive, and where a new task is queued.
 */
module EventOutcomes {
  import opened ContextPreservation
  import opened SchedulerInvariant
  import opened SchedulerRuns
  import opened SchedulerSpec
  import opened TaskTypes

  // Task t's signals with the one that an event may send it.
  function Signals(k: Kernel, e: Event, t: Pid): set<Signal>
    requires WellFormed(k)
  {
    k.tasks[t].signal +
    if e.Trap? && e.call.KillCall? && e.call.pid == t then {e.call.sig} else {}
  }

  // The event comes to check_resched() with a tick pending.
  predicate TickPending(k: Kernel, e: Event)
    requires WellFormed(k)
  {
    (e.Trap? && !e.call.ExitCall? && (k.tasks[k.cur].resched || e.call.Timer?)) ||
    (e.Continue? && k.at[k.cur] == ToUser && k.tasks[k.cur].resched)
  }

  // The event comes to check_signal() without calling schedule() first.
  predicate ReachesCheckSignal(k: Kernel, e: Event)
    requires WellFormed(k)
  {
    (e.Trap? && !e.call.ExitCall? && !e.call.Timer? && !k.tasks[k.cur].resched) ||
    (e.Continue? && (k.at[k.cur] == InResched || (k.at[k.cur] == ToUser && !k.tasks[k.cur].resched)))
  }

  // The current task calls exit, or meets SIGKILL on its way out.
  predicate Dies(k: Kernel, e: Event)
    requires WellFormed(k)
  {
    (e.Trap? && e.call.ExitCall?) || (ReachesCheckSignal(k, e) && SIGKILL in Signals(k, e, k.cur))
  }

  // A task always has an event to go on with, unless idle() has halted: an EL0 task can trap
  // for anything at any time, and a task in the kernel can continue.
  lemma NeverStuck(k: Kernel, call: Call, live: Context, late: bool)
    requires Inv(k)
    ensures Enabled(k, KernelTick)
    ensures k.at[k.cur] == User ==> Enabled(k, Trap(call, live, late))
    ensures k.at[k.cur] == Main ==> Enabled(k, StartIdle)
    ensures k.at[k.cur] !in {User, Main, IdleHalt} ==> Enabled(k, Continue(live, late))
  {
    assert PointOk(k.cur, Running, k.at[k.cur]);
  }

  // ---- the path of the current task ----

  // The way out of the kernel, for a task with these signals.
  lemma ExitPathOutcome(k: Kernel, late: bool)
    requires WellFormed(k) && SlotOk(k.cur, k.tasks[k.cur])
    ensures var p, t := ExitPath(k, late), k.tasks[k.cur];
            p.k.cur == k.cur &&
            if t.resched then p.sched && p.k.at[k.cur] == InResched && p.k.tasks[k.cur] == t.(resched := late)
            else if SIGKILL in t.signal then p.sched && p.k.at[k.cur] == Dead && p.k.tasks[k.cur] == t.(state := Zombie)
            else !p.sched && p.k.at[k.cur] == User && p.k.tasks[k.cur] == t
  {
  }

  lemma CheckSignalOutcome(k: Kernel)
    requires WellFormed(k) && SlotOk(k.cur, k.tasks[k.cur])
    ensures var p, t := CheckSignal(k), k.tasks[k.cur];
            p.k.cur == k.cur &&
            if SIGKILL in t.signal then p.sched && p.k.at[k.cur] == Dead && p.k.tasks[k.cur] == t.(state := Zombie)
            else !p.sched && p.k.at[k.cur] == User && p.k.tasks[k.cur] == t
  {
  }

  // A pending flag without any signal is cleared on the way to EL0. The invariant rules it out.
  lemma EmptySignalCleared(k: Kernel)
    requires WellFormed(k) && k.tasks[k.cur].sigpending && k.tasks[k.cur].signal == {}
    ensures var p := CheckSignal(k);
            !p.sched && p.k.at[k.cur] == User && p.k.tasks[k.cur] == k.tasks[k.cur].(sigpending := false)
  {
  }

  // What the paths through check_resched() and check_signal() do to the current task.
  ghost predicate Outcome(k: Kernel, e: Event, p: Path) {
    WellFormed(k) && WellFormed(p.k) && p.k.cur == k.cur &&
    var t := k.tasks[k.cur].(signal := Signals(k, e, k.cur), sigpending := Signals(k, e, k.cur) != {});
    (Dies(k, e) ==> p.sched && p.k.at[k.cur] == Dead && p.k.tasks[k.cur] == t.(state := Zombie)) &&
    (TickPending(k, e) ==> p.sched && p.k.at[k.cur] == InResched && p.k.tasks[k.cur] == t.(resched := e.late)) &&
    (ReachesCheckSignal(k, e) && !Dies(k, e) ==> !p.sched && p.k.at[k.cur] == User && p.k.tasks[k.cur] == t)
  }

  lemma ForkKeepsCurrent(k: Kernel, pc: nat)
    requires Inv(k)
    ensures ForkTask(k, pc).cur == k.cur && ForkTask(k, pc).tasks[k.cur] == k.tasks[k.cur]
  {
  }

  // From a state m that the call of a trap has left.
  lemma WayOut(k: Kernel, e: Event, m: Kernel)
    requires WellFormed(k) && WellFormed(m) && e.Trap? && !e.call.ExitCall? && m.cur == k.cur
    requires SlotOk(k.cur, k.tasks[k.cur]) && k.tasks[k.cur].state == Running
    requires m.tasks[k.cur] == k.tasks[k.cur].(resched := k.tasks[k.cur].resched || e.call.Timer?,
                                               signal := Signals(k, e, k.cur),
                                               sigpending := Signals(k, e, k.cur) != {})
    ensures Outcome(k, e, ExitPath(m, e.late))
  {
    ExitPathOutcome(m, e.late);
  }

  lemma TrapOutcome(k: Kernel, e: Event)
    requires Inv(k) && e.Trap?
    ensures Outcome(k, e, EventPath(k, e))
  {
    hide ExitPath, ForkTask;
    var m := k.(live := e.live);
    assert SlotOk(k.cur, k.tasks[k.cur]);
    if e.call.ExitCall? {
    } else {
      hide Outcome;
      assert !e.call.KillCall? ==> Signals(k, e, k.cur) == k.tasks[k.cur].signal;
      match e.call
      case Other => WayOut(k, e, m);
      case Timer => WayOut(k, e, Tick(m));
      case Fork(pc) =>
        LiveInv(k, e.live);
        ForkKeepsCurrent(m, pc);
        WayOut(k, e, ForkTask(m, pc));
      case KillCall(pid, sig) => WayOut(k, e, Kill(m, pid, sig));
    }
  }

  lemma EventOutcome(k: Kernel, e: Event)
    requires Inv(k) && Enabled(k, e)
    ensures Outcome(k, e, EventPath(k, e))
  {
    assert SlotOk(k.cur, k.tasks[k.cur]);
    match e
    case Trap(_, _, _) => TrapOutcome(k, e);
    case Continue(live, late) =>
      CheckSignalOutcome(k.(live := live));
      ExitPathOutcome(k.(live := live), late);
    case CreateTask(_, _, _) => PathFrame(k, e, k.cur);
    case _ =>
  }

  // ---- the current task and schedule() ----

  lemma CreateKeepsCurrent(k: Kernel, entry: Point, p: Priority, pc: nat)
    requires Inv(k)
    ensures Create(k, entry, p, pc).cur == k.cur && Create(k, entry, p, pc).tasks[k.cur] == k.tasks[k.cur]
  {
  }

  // The other events leave the current task's record alone, up to the tick.
  lemma QuietOutcome(k: Kernel, e: Event)
    requires Inv(k) && Enabled(k, e) && !e.Trap? && !(e.Continue? && k.at[k.cur] in {ToUser, InResched})
    ensures var p, t := EventPath(k, e), k.tasks[k.cur];
            p.k.cur == k.cur && p.k.tasks[k.cur] == t.(resched := e.KernelTick? || t.resched) &&
            (p.sched <==> e.Continue? && (k.at[k.cur] == ReaperLoop ||
                                          (k.at[k.cur] == IdleLoop && |RunnableSlots(k)| != 1)))
  {
    if e.CreateTask? {
      CreateKeepsCurrent(k, e.entry, e.priority, e.pc);
    } else if e.Continue? && k.at[k.cur] == IdleLoop {
      NumRunnableIsCount(k);
      assert NumRunnable(k.(live := e.live)) == NumRunnable(k);
    }
  }

  // One of the cases applies to a trap or the rest of one.
  lemma Cases(k: Kernel, e: Event)
    requires WellFormed(k)
    requires e.Trap? || (e.Continue? && k.at[k.cur] in {ToUser, InResched})
    ensures Dies(k, e) || TickPending(k, e) || ReachesCheckSignal(k, e)
    ensures !(TickPending(k, e) && (Dies(k, e) || ReachesCheckSignal(k, e)))
  {
  }

  // schedule() is called by a dying task, with a tick pending, by the reaper behind its scan, and
  // by idle unless one task is RUNNABLE; by nothing else.
  lemma SchedulesExactlyWhen(k: Kernel, e: Event)
    requires Inv(k) && Enabled(k, e)
    ensures EventPath(k, e).sched <==>
            Dies(k, e) || TickPending(k, e) ||
            (e.Continue? && (k.at[k.cur] == ReaperLoop || (k.at[k.cur] == IdleLoop && |RunnableSlots(k)| != 1)))
  {
    hide EventPath;
    EventOutcome(k, e);
    if e.Trap? || (e.Continue? && k.at[k.cur] in {ToUser, InResched}) {
      Cases(k, e);
    } else {
      QuietOutcome(k, e);
    }
  }

  lemma PathRecord(k: Kernel, e: Event)
    requires Inv(k) && Enabled(k, e)
    ensures var r, t := EventPath(k, e).k.tasks[k.cur], k.tasks[k.cur];
            EventPath(k, e).k.cur == k.cur &&
            r == t.(state := if Dies(k, e) then Zombie else Running,
                    resched := if TickPending(k, e) then e.late else e.KernelTick? || t.resched,
                    signal := Signals(k, e, k.cur), sigpending := Signals(k, e, k.cur) != {})
  {
    hide EventPath;
    assert SlotOk(k.cur, k.tasks[k.cur]);
    EventOutcome(k, e);
    if e.Trap? || (e.Continue? && k.at[k.cur] in {ToUser, InResched}) {
      Cases(k, e);
    } else {
      QuietOutcome(k, e);
    }
  }

  // The registers the current task has when an event's path ends: those it came into the kernel
  // with.
  function LiveOf(k: Kernel, e: Event): Context {
    if e.Trap? || e.Continue? then e.live else k.live
  }

  lemma CreateRegisters(k: Kernel, entry: Point, p: Priority, pc: nat)
    requires Inv(k)
    ensures var r := Create(k, entry, p, pc);
            r.live == k.live && r.kstacks == k.kstacks && r.tasks[k.cur].ctx == k.tasks[k.cur].ctx
  {
  }

  lemma ExitPathRegisters(k: Kernel, late: bool)
    requires WellFormed(k)
    ensures var r := ExitPath(k, late).k;
            r.live == k.live && r.kstacks == k.kstacks && r.tasks[k.cur].ctx == k.tasks[k.cur].ctx
  {
  }

  lemma ForkRegisters(k: Kernel, pc: nat)
    requires Inv(k)
    ensures var r := ForkTask(k, pc);
            r.cur == k.cur && r.live == k.live && r.kstacks == k.kstacks && r.tasks[k.cur].ctx == k.tasks[k.cur].ctx
  {
  }

  lemma TrapRegisters(k: Kernel, call: Call, late: bool)
    requires Inv(k)
    ensures var r := TrapPath(k, call, late).k;
            r.live == k.live && r.kstacks == k.kstacks && r.tasks[k.cur].ctx == k.tasks[k.cur].ctx
  {
    match call
    case Other => ExitPathRegisters(k, late);
    case Timer => ExitPathRegisters(Tick(k), late);
    case Fork(pc) =>
      ForkRegisters(k, pc);
      ExitPathRegisters(ForkTask(k, pc), late);
    case ExitCall =>
    case KillCall(pid, sig) => ExitPathRegisters(Kill(k, pid, sig), late);
  }

  lemma ContinueRegisters(k: Kernel, late: bool)
    requires Inv(k)
    ensures var r := ContinuePath(k, late).k;
            r.live == k.live && r.kstacks == k.kstacks && r.tasks[k.cur].ctx == k.tasks[k.cur].ctx
  {
    ExitPathRegisters(k, late);
  }

  lemma PathRegisters(k: Kernel, e: Event)
    requires Inv(k) && Enabled(k, e)
    ensures var p := EventPath(k, e).k;
            p.live == LiveOf(k, e) && p.kstacks == k.kstacks && p.tasks[k.cur].ctx == k.tasks[k.cur].ctx
  {
    match e
    case Trap(call, live, late) => TrapRegisters(k.(live := live), call, late);
    case Continue(live, late) => ContinueRegisters(k.(live := live), late);
    case CreateTask(entry, priority, pc) => CreateRegisters(k, entry, priority, pc);
    case _ =>
  }

  // A call of schedule() saves the registers its caller came into the kernel with, and loads
  // those saved for the task it chooses.
  lemma RegistersExactly(k: Kernel, e: Event)
    requires Inv(k) && Enabled(k, e)
    ensures var r := Step(k, e);
            r.tasks[k.cur].ctx == (if EventPath(k, e).sched then LiveOf(k, e) else k.tasks[k.cur].ctx) &&
            (r.cur == k.cur ==> r.live == LiveOf(k, e)) &&
            (r.cur != k.cur ==> r.live == EventPath(k, e).k.tasks[r.cur].ctx)
  {
    hide EventPath;
    PathRegisters(k, e);
    PathFrame(k, e, k.cur);
    EventPathOk(k, e);
    if EventPath(k, e).sched {
      ScheduleEffects(EventPath(k, e).k);
    }
  }

  // The whole record of the current task behind any event, but for the registers: it dies or
  // not, consumes or notes a tick, and has the signals sent to it.
  lemma CurrentTaskExactly(k: Kernel, e: Event)
    requires Inv(k) && Enabled(k, e)
    ensures var r, t := Step(k, e).tasks[k.cur], k.tasks[k.cur];
            r.id == t.id && r.priority == t.priority &&
            r.state == (if Dies(k, e) then Zombie else if Step(k, e).cur == k.cur then Running else Runnable) &&
            r.resched == (if TickPending(k, e) then e.late else e.KernelTick? || t.resched) &&
            r.signal == Signals(k, e, k.cur) && r.sigpending == (r.signal != {})
  {
    hide EventPath;
    PathRecord(k, e);
    EventPathOk(k, e);
    if EventPath(k, e).sched {
      ScheduleEffects(EventPath(k, e).k);
    }
  }

  lemma BystanderLives(k: Kernel, e: Event, t: Pid)
    requires Inv(k) && Enabled(k, e) && k.tasks[t].state != Zombie && t != k.cur
    ensures Step(k, e).tasks[t].state != Zombie
    ensures k.tasks[t].state != Free ==> Step(k, e).tasks[t].state != Free
  {
    hide EventPath, Schedule;
    PathFrame(k, e, t);
    EventPathOk(k, e);
    if EventPath(k, e).sched {
      ScheduleEffects(EventPath(k, e).k);
    }
  }

  // A task dies in an event exactly when it is the current one and calls exit or comes to
  // check_signal() with SIGKILL; so a task without SIGKILL that does not exit lives on.
  lemma DiesExactlyWhen(k: Kernel, e: Event, t: Pid)
    requires Inv(k) && Enabled(k, e) && k.tasks[t].state != Zombie
    ensures Step(k, e).tasks[t].state == Zombie <==> t == k.cur && Dies(k, e)
  {
    hide EventPath, Step;
    if t == k.cur {
      CurrentTaskExactly(k, e);
    } else {
      BystanderLives(k, e, t);
    }
  }

  // A task that comes to check_signal() without SIGKILL goes back to EL0 in that very event, and
  // nobody is scheduled.
  lemma GoesBackToUser(k: Kernel, e: Event)
    requires Inv(k) && Enabled(k, e) && ReachesCheckSignal(k, e) && SIGKILL !in Signals(k, e, k.cur)
    ensures var r := Step(k, e);
            !EventPath(k, e).sched && r.cur == k.cur && r.at[k.cur] == User && r.tasks[k.cur].state == Running
  {
    hide EventPath;
    EventOutcome(k, e);
    PathRecord(k, e);
  }

  // ---- schedule() ----

  // The discard loop, in any state: it drops the longest prefix without a RUNNABLE task.
  lemma {:induction false} DropStaleExactly(tasks: seq<Task>, q: seq<Pid>)
    requires |tasks| == NR_TASKS
    ensures var r := DropStale(tasks, q);
            |r| <= |q| && r == q[|q| - |r|..] && (r != [] ==> tasks[r[0]].state == Runnable) &&
            forall i :: 0 <= i < |q| - |r| ==> tasks[q[i]].state != Runnable
    decreases |q|
  {
    if q == [] || tasks[q[0]].state == Runnable {
    } else {
      DropStaleExactly(tasks, q[1..]);
    }
  }

  lemma DispatchExactly(m: Kernel)
    requires Between(m) && FirstNonEmpty(m.rq) < 3
    ensures var r := Dispatch(m);
            var p := r.tasks[r.cur].priority;
            m.rq[p] != [] && (forall i :: 0 <= i < p ==> m.rq[i] == []) &&
            r.cur == m.rq[p][0] && r.rq == m.rq[p := m.rq[p][1..]] && r.tasks[r.cur].state == Running
  {
    DispatchInv(m);
    var p := FirstNonEmpty(m.rq);
    assert m.rq[p][0] in m.rq[p];
  }

  // schedule() puts a caller that is still alive at the tail of the queue of its priority, and
  // takes the head of the first queue that is not empty; its record says RUNNING, its registers
  // are loaded, and nothing else moves.
  lemma ScheduleExactly(k: Kernel)
    requires MidInv(k) && Suspendable(k)
    ensures var t := k.tasks[k.cur];
            var q := if t.state == Running then k.rq[t.priority := k.rq[t.priority] + [k.cur]] else k.rq;
            var r := Schedule(k);
            var p := r.tasks[r.cur].priority;
            q[p] != [] && (forall i :: 0 <= i < p ==> q[i] == []) &&
            r.cur == q[p][0] && r.rq == q[p := q[p][1..]] && r.tasks[r.cur].state == Running &&
            r.live == (if r.cur == k.cur then k.live else k.tasks[r.cur].ctx)
  {
    hide Schedule, Requeue, Dispatch;
    RequeueExact(k);
    ScheduleExact(k);
    DispatchExactly(Requeue(k));
    ScheduleEffects(k);
  }

  // Strict priority between all three levels: no RUNNABLE task has a higher priority than the one
  // that schedule() has chosen.
  lemma SchedulesTheBest(k: Kernel, t: Pid)
    requires MidInv(k) && Suspendable(k) && Schedule(k).tasks[t].state == Runnable
    ensures Schedule(k).tasks[Schedule(k).cur].priority <= Schedule(k).tasks[t].priority
  {
    hide Schedule;
    ScheduleExactly(k);
    ScheduleExact(k);
    RunnableQueued(Schedule(k), t);
  }

  // ---- signals ----

  lemma ForkKeepsSignals(k: Kernel, pc: nat, t: Pid)
    requires Inv(k)
    ensures ForkTask(k, pc).tasks[t].signal == k.tasks[t].signal && ForkTask(k, pc).cur == k.cur
  {
  }

  lemma TrapSignals(k: Kernel, e: Event, t: Pid)
    requires Inv(k) && e.Trap? && t != k.cur
    ensures EventPath(k, e).k.tasks[t].signal == Signals(k, e, t)
  {
    var m := k.(live := e.live);
    match e.call
    case Other => ExitPathOnly(m, e.late);
    case Timer => ExitPathOnly(Tick(m), e.late);
    case Fork(pc) =>
      ForkKeepsSignals(m, pc, t);
      ExitPathOnly(ForkTask(m, pc), e.late);
    case ExitCall =>
    case KillCall(pid, sig) => ExitPathOnly(Kill(m, pid, sig), e.late);
  }

  lemma PathSignals(k: Kernel, e: Event, t: Pid)
    requires Inv(k) && Enabled(k, e) && t != k.cur
    ensures EventPath(k, e).k.tasks[t].signal == Signals(k, e, t) ||
            (k.tasks[t].state == Zombie && EventPath(k, e).k.tasks[t] == ZERO_TASK)
  {
    match e
    case Trap(call, live, late) => TrapSignals(k, e, t);
    case Continue(live, late) => ContinueFrame(k.(live := live), late, t);
    case CreateTask(entry, priority, pc) =>
    case _ =>
  }

  lemma BystanderSignals(k: Kernel, e: Event, t: Pid)
    requires Inv(k) && Enabled(k, e) && t != k.cur
    ensures Step(k, e).tasks[t].signal == Signals(k, e, t) ||
            (k.tasks[t].state == Zombie && Step(k, e).tasks[t] == ZERO_TASK)
  {
    hide EventPath, Schedule;
    PathFrame(k, e, t);
    PathSignals(k, e, t);
    EventPathOk(k, e);
    if EventPath(k, e).sched {
      ScheduleEffects(EventPath(k, e).k);
    }
  }

  // Every kill arrives at its target, and no signal comes from elsewhere or gets lost before the
  // slot is wiped.
  lemma SignalsExactly(k: Kernel, e: Event, t: Pid)
    requires Inv(k) && Enabled(k, e)
    ensures Step(k, e).tasks[t].signal == Signals(k, e, t) ||
            (k.tasks[t].state == Zombie && Step(k, e).tasks[t] == ZERO_TASK)
  {
    hide EventPath, Step;
    if t == k.cur {
      CurrentTaskExactly(k, e);
    } else {
      BystanderSignals(k, e, t);
    }
  }

  // Neither exit by task t nor SIGKILL for it.
  predicate Spares(k: Kernel, e: Event, t: Pid) {
    e.Trap? ==> !(e.call.ExitCall? && k.cur == t) && !(e.call.KillCall? && e.call.pid == t && e.call.sig == SIGKILL)
  }

  lemma HealthyStep(k: Kernel, e: Event, t: Pid)
    requires Inv(k) && Enabled(k, e) && Spares(k, e, t)
    requires k.tasks[t].state in {Runnable, Running} && SIGKILL !in k.tasks[t].signal
    ensures Step(k, e).tasks[t].state in {Runnable, Running} && SIGKILL !in Step(k, e).tasks[t].signal
  {
    hide EventPath, Step;
    SignalsExactly(k, e, t);
    if t == k.cur {
      CurrentTaskExactly(k, e);
    } else {
      BystanderLives(k, e, t);
    }
  }

  // Over any run: a task that does not exit and is not killed stays alive.
  lemma {:induction false} HealthyLives(ks: seq<Kernel>, es: seq<Event>, t: Pid, n: nat)
    requires IsRun(ks, es) && Inv(ks[0]) && n < |ks|
    requires ks[0].tasks[t].state in {Runnable, Running} && SIGKILL !in ks[0].tasks[t].signal
    requires forall i :: 0 <= i < n ==> Spares(ks[i], es[i], t)
    ensures ks[n].tasks[t].state in {Runnable, Running} && SIGKILL !in ks[n].tasks[t].signal
  {
    hide EventPath, Step;
    if n == 0 {
    } else {
      HealthyLives(ks, es, t, n - 1);
      RunInv(ks, es, n - 1);
      assert Link(ks, es, n - 1);
      HealthyStep(ks[n - 1], es[n - 1], t);
    }
  }

  // ---- new tasks ----

  // The priority an event creates a task with, or 3.
  function NewPriority(e: Event): nat {
    if e.CreateTask? then e.priority else if e.Trap? && e.call.Fork? then HIGH else 3
  }

  lemma CreateQueues(k: Kernel, entry: Point, p: Priority, pc: nat)
    requires Inv(k)
    ensures Create(k, entry, p, pc).rq == if NewPid(k) >= 0 then k.rq[p := k.rq[p] + [NewPid(k)]] else k.rq
  {
    assert WellFormed(k);
    hide Inv;
    var i := FirstFree(k.tasks, 0);
    if i < NR_TASKS {
      EnqueueAppends(k, i, Create(k, entry, p, pc).tasks[i], entry);
    }
  }

  lemma ForkQueues(k: Kernel, pc: nat)
    requires Inv(k)
    ensures ForkTask(k, pc).rq == if NewPid(k) >= 0 then k.rq[0 := k.rq[0] + [NewPid(k)]] else k.rq
  {
    CreateQueues(k, ToUser, HIGH, 0);
  }

  lemma TrapQueues(k: Kernel, call: Call, late: bool)
    requires Inv(k)
    ensures TrapPath(k, call, late).k.rq ==
            if call.Fork? && NewPid(k) >= 0 then k.rq[0 := k.rq[0] + [NewPid(k)]] else k.rq
  {
    match call
    case Other => ExitPathOnly(k, late);
    case Timer => ExitPathOnly(Tick(k), late);
    case Fork(pc) =>
      ForkQueues(k, pc);
      ExitPathOnly(ForkTask(k, pc), late);
    case ExitCall =>
    case KillCall(pid, sig) => ExitPathOnly(Kill(k, pid, sig), late);
  }

  // A path queues the task it creates, if a slot is free, at the tail of the queue of its
  // priority, which for a fork is HIGH; it moves nothing else in the queues.
  lemma QueuesExactly(k: Kernel, e: Event)
    requires Inv(k) && Enabled(k, e)
    ensures var p, t := NewPriority(e), NewPid(k);
            EventPath(k, e).k.rq == if p < 3 && t >= 0 then k.rq[p := k.rq[p] + [t]] else k.rq
  {
    match e
    case CreateTask(entry, priority, pc) => CreateQueues(k, entry, priority, pc);
    case Trap(call, live, late) =>
      LiveInv(k, live);
      TrapQueues(k.(live := live), call, late);
    case Continue(live, late) => ContinueFrame(k.(live := live), late, k.cur);
    case _ =>
  }

  lemma ForkedSlot(k: Kernel, pc: nat)
    requires Inv(k) && NewPid(k) >= 0
    ensures var p, t := ForkTask(k, pc), NewPid(k);
            t != k.cur && p.cur == k.cur && p.at[t] == ToUser && p.tasks[t].id == t &&
            p.tasks[t].state == Runnable && p.tasks[t].priority == HIGH && !p.tasks[t].resched &&
            p.tasks[t].signal == k.tasks[t].signal
  {
  }

  // The record of a forked task: a zeroed one but for these fields.
  lemma ForkedTaskExactly(k: Kernel, e: Event)
    requires Inv(k) && Enabled(k, e) && e.Trap? && e.call.Fork? && NewPid(k) >= 0
    ensures var p, t := EventPath(k, e).k, NewPid(k);
            p.at[t] == ToUser && p.tasks[t].id == t && p.tasks[t].state == Runnable && p.tasks[t].priority == HIGH &&
            !p.tasks[t].resched && p.tasks[t].signal == k.tasks[t].signal
  {
    var m := k.(live := e.live);
    LiveInv(k, e.live);
    ForkedSlot(m, e.call.pc);
    ExitPathOnly(ForkTask(m, e.call.pc), e.late);
  }

  lemma {:induction false} CallsSplit(ks: seq<Kernel>, es: seq<Event>, from: nat, n: nat)
    requires IsRun(ks, es) && from < n <= |es|
    ensures ScheduleCalls(ks, es, from, n) ==
            (if EventPath(ks[from], es[from]).sched then 1 else 0) + ScheduleCalls(ks, es, from + 1, n)
  {
    hide EventPath;
    if n == from + 1 {
    } else {
      CallsSplit(ks, es, from, n - 1);
    }
  }

  lemma WaitingIsNotCurrent(k: Kernel, t: Pid)
    requires Inv(k)
    ensures t in k.rq[0] ==> k.cur != t
  {
    if t in k.rq[0] {
      QueuedIn(k, 0, t);
    }
  }

  // Behind the trap that forks it a task waits in the HIGH queue behind all that were there; if
  // the trap calls schedule() itself, it has moved up by one.
  lemma ForkedWaits(k: Kernel, e: Event)
    requires Inv(k) && Enabled(k, e) && e.Trap? && e.call.Fork? && NewPid(k) >= 0
    ensures var j := |k.rq[0]|;
            if !EventPath(k, e).sched then WaitsAt(Step(k, e), j, NewPid(k))
            else if j == 0 then Step(k, e).cur == NewPid(k)
            else WaitsAt(Step(k, e), j - 1, NewPid(k))
  {
    var t: Pid := NewPid(k);
    var p := EventPath(k, e).k;
    hide EventPath;
    QueuesExactly(k, e);
    ForkResult(k);
    EventPathOk(k, e);
    PathFrame(k, e, k.cur);
    assert p.rq[0][|k.rq[0]|] == t;
    if EventPath(k, e).sched {
      ScheduleShifts(p, |k.rq[0]|, t);
      StepInv(k, e);
      WaitingIsNotCurrent(Step(k, e), t);
    }
  }

  // A forked task is current after exactly one call of schedule() more than there were tasks in
  // the HIGH queue at the fork, counted from the trap, and not before.
  lemma ForkedRunsInTurn(ks: seq<Kernel>, es: seq<Event>, from: nat, n: nat)
    requires IsRun(ks, es) && Inv(ks[0]) && from < n <= |es|
    requires es[from].Trap? && es[from].call.Fork? && NewPid(ks[from]) >= 0
    ensures var j, calls := |ks[from].rq[0]|, ScheduleCalls(ks, es, from, n);
            (calls <= j ==> WaitsAt(ks[n], j - calls, NewPid(ks[from]))) &&
            (calls == j + 1 && EventPath(ks[n - 1], es[n - 1]).sched ==> ks[n].cur == NewPid(ks[from]))
  {
    hide EventPath, Step, WaitsAt, Inv, Enabled;
    var t: Pid := NewPid(ks[from]);
    var j := |ks[from].rq[0]|;
    RunInv(ks, es, from);
    assert Link(ks, es, from);
    ForkedWaits(ks[from], es[from]);
    CallsSplit(ks, es, from, n);
    if !EventPath(ks[from], es[from]).sched {
      BoundedWaiting(ks, es, j, t, from + 1, n);
    } else if j > 0 {
      BoundedWaiting(ks, es, j - 1, t, from + 1, n);
    } else if n > from + 1 && EventPath(ks[n - 1], es[n - 1]).sched {
      assert ScheduleCalls(ks, es, from + 1, n) >= 1;
    }
  }
}
