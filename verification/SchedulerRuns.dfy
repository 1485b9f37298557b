/**
 Properties of whole runs of the scheduler: unreachable code, exact waiting times, and the
 use of timer ticks.
 */
module SchedulerRuns {
  import opened SchedulerInvariant
  import opened SchedulerSpec
  import opened TaskTypes

  // ---- what one schedule() call and one event change ----

  lemma ScheduleEffects(k: Kernel)
    requires MidInv(k) && Suspendable(k)
    ensures var r := Schedule(k);
            r.at == k.at &&
            (r.cur != k.cur ==> k.tasks[r.cur].state == Runnable && r.live == k.tasks[r.cur].ctx &&
                                r.tasks[r.cur] == k.tasks[r.cur].(state := Running)) &&
            (r.cur == k.cur ==> k.tasks[k.cur].state == Running && r.live == k.live &&
                                r.tasks[r.cur] == k.tasks[k.cur].(ctx := k.live)) &&
            (r.cur != k.cur ==>
               r.tasks[k.cur] == k.tasks[k.cur].(ctx := k.live, state :=
                 if k.tasks[k.cur].state == Running then Runnable else Zombie)) &&
            (forall i: Pid :: i != k.cur && i != r.cur ==> r.tasks[i] == k.tasks[i])
  {
    var m := Requeue(k);
    RequeueExact(k);
    ScheduleExact(k);
    DispatchInv(m);
  }

  // Waiting in the HIGH queue: one call of schedule() moves every entry up by one.
  lemma ScheduleShifts(k: Kernel, j: nat, t: Pid)
    requires MidInv(k) && Suspendable(k)
    requires j < |k.rq[0]| && k.rq[0][j] == t
    ensures var r := Schedule(k);
            if j == 0 then r.cur == t else j - 1 < |r.rq[0]| && r.rq[0][j - 1] == t
  {
  }

  // The same task, up to signals that have been sent to it.
  predicate SameTask(a: Task, b: Task) {
    a == b.(sigpending := a.sigpending, signal := a.signal) && b.signal <= a.signal
  }

  // Nothing but the current task differs.
  ghost predicate OnlyCurrent(a: Kernel, b: Kernel) {
    WellFormed(a) && WellFormed(b) && b.cur == a.cur && b.rq == a.rq &&
    forall i: Pid :: i != a.cur ==> b.tasks[i] == a.tasks[i] && b.at[i] == a.at[i]
  }

  lemma ExitPathOnly(k: Kernel, late: bool)
    requires WellFormed(k)
    ensures OnlyCurrent(k, ExitPath(k, late).k) && OnlyCurrent(k, CheckSignal(k).k)
  {
  }

  lemma ContinueFrame(k: Kernel, late: bool, t: Pid)
    requires WellFormed(k)
    ensures var p := ContinuePath(k, late).k;
            p.cur == k.cur && p.rq == k.rq &&
            (t != k.cur ==>
               p.at[t] == k.at[t] &&
               (p.tasks[t] == k.tasks[t] || (k.tasks[t].state == Zombie && p.tasks[t] == ZERO_TASK)))
  {
  }

  // What a creation does to any task.
  ghost predicate CreationFrame(k: Kernel, p: Kernel, t: Pid) {
    WellFormed(k) && WellFormed(p) && p.cur == k.cur &&
    (forall q :: 0 <= q < 3 ==> k.rq[q] <= p.rq[q]) &&
    ((p.at[t] == k.at[t] && p.tasks[t] == k.tasks[t]) ||
     (k.tasks[t].state == Free && p.tasks[t].state == Runnable))
  }

  lemma EnqueueFrame(k: Kernel, i: Pid, u: Task, entry: Point, t: Pid)
    requires Inv(k) && k.tasks[i].state == Free && u.state == Runnable
    ensures CreationFrame(k, Enqueue(k, i, u, entry), t)
  {
  }

  lemma CreateFrame(k: Kernel, entry: Point, priority: Priority, pc: nat, t: Pid)
    requires Inv(k)
    ensures CreationFrame(k, Create(k, entry, priority, pc), t)
  {
    var i := FirstFree(k.tasks, 0);
    if i < NR_TASKS {
      EnqueueFrame(k, i, Create(k, entry, priority, pc).tasks[i], entry, t);
    }
  }

  lemma ForkFrame(k: Kernel, pc: nat, t: Pid)
    requires Inv(k)
    ensures CreationFrame(k, ForkTask(k, pc), t)
  {
  }

  lemma TrapFrame(k: Kernel, call: Call, late: bool, t: Pid)
    requires Inv(k)
    ensures var p := TrapPath(k, call, late).k;
            p.cur == k.cur &&
            (forall q :: 0 <= q < 3 ==> k.rq[q] <= p.rq[q]) &&
            (t != k.cur ==>
               (p.at[t] == k.at[t] && SameTask(p.tasks[t], k.tasks[t])) ||
               (k.tasks[t].state == Free && p.tasks[t].state == Runnable))
  {
    match call
    case Other => ExitPathOnly(k, late);
    case Timer => ExitPathOnly(Tick(k), late);
    case Fork(pc) =>
      ForkFrame(k, pc, t);
      ExitPathOnly(ForkTask(k, pc), late);
    case ExitCall =>
    case KillCall(pid, sig) => ExitPathOnly(Kill(k, pid, sig), late);
  }

  // What a path does to a task that is not current: nothing, or a signal is sent to it,
  // or a free slot is filled, or a zombie is wiped. The queues only grow at their tails.
  lemma PathFrame(k: Kernel, e: Event, t: Pid)
    requires Inv(k) && Enabled(k, e)
    ensures var p := EventPath(k, e).k;
            p.cur == k.cur &&
            (forall q :: 0 <= q < 3 ==> k.rq[q] <= p.rq[q]) &&
            (t != k.cur ==>
               (p.at[t] == k.at[t] && SameTask(p.tasks[t], k.tasks[t])) ||
               (k.tasks[t].state == Free && p.tasks[t].state == Runnable) ||
               (p.at[t] == k.at[t] && k.tasks[t].state == Zombie && p.tasks[t] == ZERO_TASK))
  {
    match e
    case CreateTask(entry, priority, pc) => CreateFrame(k, entry, priority, pc, t);
    case StartIdle =>
    case KernelTick =>
    case Trap(call, live, late) =>
      LiveInv(k, live);
      TrapFrame(k.(live := live), call, late, t);
    case Continue(live, late) => ContinueFrame(k.(live := live), late, t);
  }

  lemma StepBystander(k: Kernel, e: Event, t: Pid)
    requires Inv(k) && Enabled(k, e) && t != k.cur && k.tasks[t].state == Runnable
    ensures var r := Step(k, e);
            r.at[t] == k.at[t] &&
            if r.cur == t then
              SameTask(r.tasks[t], k.tasks[t].(state := Running)) && r.live == k.tasks[t].ctx
            else
              SameTask(r.tasks[t], k.tasks[t])
  {
    PathFrame(k, e, t);
    EventPathOk(k, e);
    if EventPath(k, e).sched {
      ScheduleEffects(EventPath(k, e).k);
    }
  }

  // ---- unreachable code ----

  lemma RoomInQueues(k: Kernel, p: Priority)
    requires MidInv(k)
    ensures |k.rq[p]| < NR_TASKS
  {
    QueuesNeverFull(k);
  }

  lemma PathNeverDrops(k: Kernel, e: Event, p: Priority, i: Pid)
    requires Inv(k) && Enabled(k, e)
    ensures Push(k.rq[p], i) == k.rq[p] + [i]
    ensures var m := EventPath(k, e).k; Push(m.rq[p], i) == m.rq[p] + [i]
  {
    hide EventPath, Enabled;
    EventPathOk(k, e);
    RoomInQueues(k, p);
    RoomInQueues(EventPath(k, e).k, p);
  }

  // runqueue_push never drops, at any push of any path of any run: at the end of the
  // path, where schedule() pushes, and at its start, where a creation does.
  lemma PushNeverDrops(ks: seq<Kernel>, es: seq<Event>, n: nat, p: Priority, i: Pid)
    requires IsRun(ks, es) && Inv(ks[0]) && n < |es|
    ensures Push(ks[n].rq[p], i) == ks[n].rq[p] + [i]
    ensures Push(EventPath(ks[n], es[n]).k.rq[p], i) == EventPath(ks[n], es[n]).k.rq[p] + [i]
  {
    RunInv(ks, es, n);
    assert Link(ks, es, n);
    PathNeverDrops(ks[n], es[n], p, i);
  }

  // schedule()'s discard loop never discards and its early returns are never taken:
  // every call dispatches the head of the first non-empty queue.
  lemma ScheduleNeverFallsThrough(ks: seq<Kernel>, es: seq<Event>, n: nat)
    requires IsRun(ks, es) && Inv(ks[0]) && n < |es| && EventPath(ks[n], es[n]).sched
    ensures var m := Requeue(EventPath(ks[n], es[n]).k);
            var p := FirstNonEmpty(m.rq);
            p < 3 && DropStale(m.tasks, m.rq[p]) == m.rq[p] && ks[n + 1].cur == m.rq[p][0]
  {
    RunInv(ks, es, n);
    assert Link(ks, es, n);
    EventPathOk(ks[n], es[n]);
    var k := EventPath(ks[n], es[n]).k;
    ScheduleExact(k);
    RequeueExact(k);
    DispatchInv(Requeue(k));
  }

  lemma DeathSwitchesAway(k: Kernel, e: Event)
    requires Inv(k) && Enabled(k, e) && EventPath(k, e).k.tasks[k.cur].state == Zombie
    ensures Step(k, e).tasks[k.cur].state == Zombie && Step(k, e).cur != k.cur
  {
    EventPathOk(k, e);
    PathFrame(k, e, k.cur);
    ScheduleEffects(EventPath(k, e).k);
  }

  lemma ZombieStep(k: Kernel, e: Event, t: Pid)
    requires Inv(k) && Enabled(k, e) && k.tasks[t].state == Zombie
    ensures Step(k, e).tasks[t].state == Zombie || Step(k, e).tasks[t] == ZERO_TASK
  {
    hide EventPath, Schedule;
    EventPathOk(k, e);
    var p := EventPath(k, e);
    PathFrame(k, e, t);
    if p.sched {
      ScheduleEffects(p.k);
    }
  }

  lemma {:induction false} ZombieStays(ks: seq<Kernel>, es: seq<Event>, t: Pid, from: nat, n: nat)
    requires IsRun(ks, es) && Inv(ks[0]) && from <= n < |ks| && ks[from].tasks[t].state == Zombie
    requires forall i :: from < i <= n ==> ks[i].tasks[t] != ZERO_TASK
    ensures ks[n].tasks[t].state == Zombie
  {
    hide EventPath, Step;
    if from == n {
    } else {
      ZombieStays(ks, es, t, from, n - 1);
      RunInv(ks, es, n - 1);
      assert Link(ks, es, n - 1);
      ZombieStep(ks[n - 1], es[n - 1], t);
    }
  }

  // do_exit()'s schedule() always switches away, and nothing runs as that task again
  // before its slot has been wiped.
  lemma ExitNeverReturns(ks: seq<Kernel>, es: seq<Event>, t: Pid, n: nat)
    requires IsRun(ks, es) && Inv(ks[0]) && 0 < n < |ks| && ks[0].cur == t
    requires EventPath(ks[0], es[0]).k.tasks[t].state == Zombie
    ensures (exists i :: 1 < i <= n && ks[i].tasks[t] == ZERO_TASK) || ks[n].cur != t
  {
    if forall i :: 1 < i <= n ==> ks[i].tasks[t] != ZERO_TASK {
      assert Link(ks, es, 0);
      DeathSwitchesAway(ks[0], es[0]);
      ZombieStays(ks, es, t, 1, n);
      RunInv(ks, es, n);
    }
  }

  // ---- exact bounded waiting ----

  // Task t is in the HIGH queue behind j others, and not running.
  predicate WaitsAt(k: Kernel, j: int, t: Pid)
    requires WellFormed(k)
  {
    0 <= j < |k.rq[0]| && k.rq[0][j] == t && k.cur != t
  }

  lemma WaitStep(k: Kernel, e: Event, j: nat, t: Pid)
    requires Inv(k) && Enabled(k, e) && WaitsAt(k, j, t)
    ensures var r := Step(k, e);
            if !EventPath(k, e).sched then WaitsAt(r, j, t)
            else if j == 0 then r.cur == t
            else WaitsAt(r, j - 1, t)
  {
    StepInv(k, e);
    var r := Step(k, e);
    if t in r.rq[0] {
      QueuedIn(r, 0, t);
    }
    PathFrame(k, e, t);
    EventPathOk(k, e);
    if EventPath(k, e).sched {
      ScheduleShifts(EventPath(k, e).k, j, t);
    }
  }

  // A task with j entries ahead of it in the HIGH queue moves up by exactly one place
  // with each call of schedule() and is current after exactly the (j + 1)-th, whatever
  // creations, forks, exits, kills and ticks come in between.
  lemma {:induction false} BoundedWaiting(ks: seq<Kernel>, es: seq<Event>, j: nat, t: Pid, from: nat, n: nat)
    requires IsRun(ks, es) && Inv(ks[0]) && from <= n < |ks| && WaitsAt(ks[from], j, t)
    ensures var calls := ScheduleCalls(ks, es, from, n);
            (calls <= j ==> WaitsAt(ks[n], j - calls, t)) &&
            (calls == j + 1 && EventPath(ks[n - 1], es[n - 1]).sched ==> ks[n].cur == t)
    decreases n
  {
    hide EventPath, Step;
    if from == n {
    } else {
      BoundedWaiting(ks, es, j, t, from, n - 1);
      RunInv(ks, es, n - 1);
      assert Link(ks, es, n - 1);
      var before := ScheduleCalls(ks, es, from, n - 1);
      if before <= j {
        WaitStep(ks[n - 1], es[n - 1], j - before, t);
      }
    }
  }

  // The step at which a count of calls is reached.
  lemma {:induction false} CallReached(ks: seq<Kernel>, es: seq<Event>, from: nat, n: nat, c: nat) returns (m: nat)
    requires IsRun(ks, es) && from <= n < |ks| && 0 < c <= ScheduleCalls(ks, es, from, n)
    ensures from < m <= n && ScheduleCalls(ks, es, from, m) == c && EventPath(ks[m - 1], es[m - 1]).sched
    decreases n
  {
    hide EventPath;
    if ScheduleCalls(ks, es, from, n - 1) >= c {
      m := CallReached(ks, es, from, n - 1, c);
    } else {
      m := n;
    }
  }

  lemma QueuePosition(k: Kernel, t: Pid) returns (j: nat)
    requires Inv(k) && k.tasks[t].state == Runnable && k.tasks[t].priority == HIGH
    ensures j < NR_TASKS - 1 && WaitsAt(k, j, t)
  {
    RunnableQueued(k, t);
    QueuesNeverFull(k);
    j :| 0 <= j < |k.rq[0]| && k.rq[0][j] == t;
  }

  // No HIGH task starves: whatever happens, a RUNNABLE HIGH task has run before schedule()
  // has been called 63 times.
  lemma HighNeverStarves(ks: seq<Kernel>, es: seq<Event>, t: Pid, from: nat, n: nat)
    requires IsRun(ks, es) && Inv(ks[0]) && from <= n < |ks|
    requires ks[from].tasks[t].state == Runnable && ks[from].tasks[t].priority == HIGH
    requires ScheduleCalls(ks, es, from, n) >= NR_TASKS - 1
    ensures exists m :: from < m <= n && ks[m].cur == t
  {
    hide EventPath, Step;
    RunInv(ks, es, from);
    var j := QueuePosition(ks[from], t);
    var m := CallReached(ks, es, from, n, j + 1);
    BoundedWaiting(ks, es, j, t, from, m);
  }

  // ---- the timer tick ----

  lemma TrapReschedules(k: Kernel, call: Call, late: bool)
    requires WellFormed(k) && k.tasks[k.cur].state == Running
    requires (k.tasks[k.cur].resched || call.Timer?) && !call.ExitCall?
    ensures var p := TrapPath(k, call, late);
            p.sched && p.k.cur == k.cur && p.k.at[k.cur] == InResched && p.k.tasks[k.cur].resched == late
  {
  }

  // A pending resched flag makes the next trap of an EL0 task call schedule(), and is used
  // up by it: it is set afterwards only if another tick came in on the way.
  lemma TickIsConsumed(k: Kernel, call: Call, live: Context, late: bool)
    requires Inv(k) && k.at[k.cur] == User && (k.tasks[k.cur].resched || call.Timer?) && !call.ExitCall?
    ensures EventPath(k, Trap(call, live, late)).sched
    ensures Step(k, Trap(call, live, late)).tasks[k.cur].resched == late
    ensures Step(k, Trap(call, live, late)).at[k.cur] == InResched
  {
    EventPathOk(k, Trap(call, live, late));
    TrapReschedules(k.(live := live), call, late);
    ScheduleEffects(EventPath(k, Trap(call, live, late)).k);
  }

  // idle() stops exactly when one task is RUNNABLE.
  lemma IdleStopsExactly(k: Kernel, live: Context, late: bool)
    requires Inv(k) && k.at[k.cur] == IdleLoop
    ensures Step(k, Continue(live, late)).at[0] == IdleHalt <==> |RunnableSlots(k)| == 1
  {
    assert PointOk(k.cur, Running, k.at[k.cur]);
    NumRunnableIsCount(k);
    LiveInv(k, live);
    var m := k.(live := live);
    assert NumRunnable(m) == NumRunnable(k);
    if NumRunnable(k) != 1 {
      ScheduleEffects(m);
    }
  }
}
