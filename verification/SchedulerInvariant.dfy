/**
 The global scheduler invariant, its preservation by every event, and the code paths
 it makes unreachable.
 */
module SchedulerInvariant {
  import opened SchedulerSpec
  import opened TaskTypes

  // How often each task occurs in the three queues together.
  function Queued(k: Kernel): multiset<Pid>
    requires WellFormed(k)
  {
    multiset(k.rq[0]) + multiset(k.rq[1]) + multiset(k.rq[2])
  }

  // Every RUNNABLE task is queued exactly once, nothing else is queued.
  ghost predicate QueuesExact(k: Kernel)
    requires WellFormed(k)
  {
    forall i: Pid :: Queued(k)[i] == if k.tasks[i].state == Runnable then 1 else 0
  }

  ghost predicate QueuesByPriority(k: Kernel)
    requires WellFormed(k)
  {
    forall p, i :: 0 <= p < 3 && i in k.rq[p] ==> k.tasks[i].priority == p
  }

  // A free slot is zero up to signals sent to it; a slot in use knows its own index;
  // sigpending says whether the signal set is non-empty.
  predicate SlotOk(i: Pid, t: Task) {
    (t.state == Free ==> t == ZERO_TASK.(sigpending := t.sigpending, signal := t.signal)) &&
    (t.state != Free ==> t.id == i) &&
    (t.sigpending <==> t.signal != {})
  }

  // Where a task in each state can be in the code; task 0 alone runs main() and idle().
  predicate PointOk(i: Pid, state: TaskState, at: Point) {
    match state
    case Free => i != 0
    case Zombie => i != 0 && at == Dead
    case Runnable => at in (if i == 0 then {IdleLoop} else {ReaperLoop, ExecEntry, ToUser, InResched})
    case Running => at in (if i == 0 then {Main, IdleLoop, IdleHalt}
                           else {User, ReaperLoop, ExecEntry, ToUser, InResched})
  }

  // Holds at every point inside a kernel path; the current task may just have died.
  ghost predicate MidInv(k: Kernel) {
    WellFormed(k) &&
    k.tasks[k.cur].state in {Running, Zombie} &&
    (forall i: Pid :: i != k.cur ==> k.tasks[i].state != Running) &&
    QueuesExact(k) &&
    QueuesByPriority(k) &&
    (forall i: Pid :: SlotOk(i, k.tasks[i])) &&
    (forall i: Pid :: PointOk(i, k.tasks[i].state, k.at[i]))
  }

  // The invariant at every event boundary.
  ghost predicate Inv(k: Kernel) {
    MidInv(k) && k.tasks[k.cur].state == Running
  }

  // ---- counting ----

  lemma MultisetBound(s: multiset<Pid>, n: nat)
    requires n <= NR_TASKS
    requires forall i: Pid :: s[i] <= if i < n then 1 else 0
    ensures |s| <= n
    decreases n
  {
    if n == 0 {
      assert s == multiset{};
    } else {
      var last: Pid := n - 1;
      MultisetBound(s[last := 0], n - 1);
    }
  }

  // Pigeonhole: the running or dying task is not queued, so the queues hold at most 63.
  lemma QueuesNeverFull(k: Kernel)
    requires MidInv(k)
    ensures |k.rq[0]| + |k.rq[1]| + |k.rq[2]| < NR_TASKS
  {
    var q := Queued(k);
    var last: Pid := NR_TASKS - 1;
    assert q[k.cur] == 0;
    var s := q[k.cur := q[last]][last := 0];
    MultisetBound(s, NR_TASKS - 1);
    assert |s| == |q|;
  }

  lemma QueuedIn(k: Kernel, p: nat, i: Pid)
    requires MidInv(k) && p < 3 && i in k.rq[p]
    ensures k.tasks[i].state == Runnable
  {
  }

  lemma RunnableQueued(k: Kernel, i: Pid)
    requires MidInv(k) && k.tasks[i].state == Runnable
    ensures i in k.rq[k.tasks[i].priority]
  {
  }

  function RunnableSlots(k: Kernel): set<Pid>
    requires WellFormed(k)
  {
    set i: Pid | 0 <= i < NR_TASKS && k.tasks[i].state == Runnable
  }

  lemma MultisetOfSet(s: multiset<Pid>, t: set<Pid>)
    requires forall i: Pid :: s[i] == if i in t then 1 else 0
    ensures |s| == |t|
    decreases t
  {
    if t == {} {
      assert s == multiset{};
    } else {
      var i :| i in t;
      MultisetOfSet(s[i := 0], t - {i});
    }
  }

  // num_runnable_tasks() is the number of RUNNABLE slots.
  lemma NumRunnableIsCount(k: Kernel)
    requires MidInv(k)
    ensures NumRunnable(k) == |RunnableSlots(k)|
  {
    MultisetOfSet(Queued(k), RunnableSlots(k));
  }

  // ---- schedule() ----

  // The current task has died, or it is at a point where it may be suspended.
  predicate Suspendable(k: Kernel)
    requires WellFormed(k)
  {
    k.tasks[k.cur].state == Running ==> PointOk(k.cur, Runnable, k.at[k.cur])
  }

  // The state between the two halves of schedule(): nobody is RUNNING.
  ghost predicate Between(m: Kernel) {
    WellFormed(m) &&
    m.tasks[m.cur].state in {Runnable, Zombie} &&
    (forall i: Pid :: m.tasks[i].state != Running) &&
    QueuesExact(m) &&
    QueuesByPriority(m) &&
    (forall i: Pid :: SlotOk(i, m.tasks[i])) &&
    (forall i: Pid :: PointOk(i, m.tasks[i].state, m.at[i]))
  }

  // Replacing one queue replaces its share of the queued tasks.
  lemma QueuedUpdate(k: Kernel, p: Priority, q: seq<Pid>)
    requires WellFormed(k)
    ensures Queued(k.(rq := k.rq[p := q])) + multiset(k.rq[p]) == Queued(k) + multiset(q)
  {
  }

  lemma AppendPriorities(k: Kernel, p: Priority, i: Pid, t: Task)
    requires WellFormed(k) && QueuesExact(k) && QueuesByPriority(k)
    requires k.tasks[i].state != Runnable && t.priority == p
    ensures QueuesByPriority(k.(tasks := k.tasks[i := t], rq := k.rq[p := k.rq[p] + [i]]))
  {
  }

  // Appending one unqueued task that has just become RUNNABLE keeps the queues exact.
  lemma AppendExact(k: Kernel, p: Priority, i: Pid, t: Task)
    requires WellFormed(k) && QueuesExact(k) && QueuesByPriority(k)
    requires k.tasks[i].state != Runnable && t.state == Runnable && t.priority == p
    ensures var r := k.(tasks := k.tasks[i := t], rq := k.rq[p := k.rq[p] + [i]]);
            QueuesExact(r) && QueuesByPriority(r)
  {
    var r := k.(tasks := k.tasks[i := t], rq := k.rq[p := k.rq[p] + [i]]);
    QueuedUpdate(k, p, k.rq[p] + [i]);
    assert Queued(r) == Queued(k.(rq := k.rq[p := k.rq[p] + [i]]));
    assert multiset(k.rq[p] + [i]) == multiset(k.rq[p]) + multiset{i};
    assert Queued(r) == Queued(k) + multiset{i};
    AppendPriorities(k, p, i, t);
  }

  lemma PopPriorities(k: Kernel, r: Kernel, p: Priority, i: Pid)
    requires WellFormed(k) && WellFormed(r) && QueuesByPriority(k) && QueuesExact(r)
    requires k.rq[p] != [] && r.rq == k.rq[p := k.rq[p][1..]]
    requires r.tasks[i].state != Runnable && forall j: Pid :: j != i ==> r.tasks[j] == k.tasks[j]
    ensures QueuesByPriority(r)
  {
  }

  lemma PopOnce(q: seq<Pid>)
    requires q != []
    ensures multiset(q) == multiset{q[0]} + multiset(q[1..])
  {
    assert q == [q[0]] + q[1..];
  }

  // Removing the head of a queue and making its task RUNNING keeps them exact too.
  lemma PopExact(k: Kernel, p: Priority, t: Task)
    requires WellFormed(k) && QueuesExact(k) && QueuesByPriority(k)
    requires k.rq[p] != [] && t.state == Running
    ensures k.tasks[k.rq[p][0]].state == Runnable
    ensures var r := k.(tasks := k.tasks[k.rq[p][0] := t], rq := k.rq[p := k.rq[p][1..]]);
            QueuesExact(r) && QueuesByPriority(r)
  {
    var q := k.rq[p];
    var i := q[0];
    var r := k.(tasks := k.tasks[i := t], rq := k.rq[p := q[1..]]);
    PopOnce(q);
    QueuedUpdate(k, p, q[1..]);
    assert Queued(r) == Queued(k.(rq := k.rq[p := q[1..]]));
    assert Queued(r) + multiset{i} == Queued(k);
    assert Queued(k)[i] > 0;
    PopPriorities(k, r, p, i);
  }

  lemma RequeueSlots(k: Kernel)
    requires MidInv(k) && Suspendable(k)
    ensures var m := Requeue(k);
            forall i: Pid ::
              SlotOk(i, m.tasks[i]) && PointOk(i, m.tasks[i].state, m.at[i]) && m.tasks[i].state != Running
  {
  }

  // The first half: a task still RUNNING goes to the tail of its queue, undropped.
  lemma RequeueExact(k: Kernel)
    requires MidInv(k) && Suspendable(k)
    ensures Between(Requeue(k))
    ensures var t := k.tasks[k.cur];
            Requeue(k).rq == if t.state == Running then k.rq[t.priority := k.rq[t.priority] + [k.cur]] else k.rq
  {
    var t := k.tasks[k.cur];
    QueuesNeverFull(k);
    if t.state == Running {
      AppendExact(k, t.priority, k.cur, t.(state := Runnable));
      RequeueSlots(k);
    }
  }

  // Someone is always RUNNABLE there: task 0, if nobody else.
  lemma SomeoneQueued(m: Kernel)
    requires Between(m)
    ensures FirstNonEmpty(m.rq) < 3
  {
    var zero: Pid := 0;
    assert PointOk(zero, m.tasks[zero].state, m.at[zero]);
    assert Queued(m)[zero] == 1;
  }

  // The second half on its own, without a discard loop.
  function Dispatch(m: Kernel): (r: Kernel)
    requires WellFormed(m) && FirstNonEmpty(m.rq) < 3
    ensures WellFormed(r)
  {
    var p := FirstNonEmpty(m.rq);
    var next := m.rq[p][0];
    SwitchTo(m.(rq := m.rq[p := m.rq[p][1..]],
                tasks := m.tasks[next := m.tasks[next].(state := Running)]),
             next)
  }

  // Saving and loading registers touches nothing the invariant speaks of.
  lemma SwitchInv(k: Kernel, next: Pid)
    requires WellFormed(k) && QueuesExact(k) && QueuesByPriority(k)
    requires k.tasks[next].state == Running && k.tasks[k.cur].state != Free
    requires forall i: Pid :: i != next ==> k.tasks[i].state != Running
    requires forall i: Pid :: SlotOk(i, k.tasks[i])
    requires forall i: Pid :: PointOk(i, k.tasks[i].state, k.at[i])
    ensures Inv(SwitchTo(k, next))
  {
  }

  lemma DispatchInv(m: Kernel)
    requires Between(m) && FirstNonEmpty(m.rq) < 3
    ensures m.tasks[m.rq[FirstNonEmpty(m.rq)][0]].state == Runnable
    ensures Inv(Dispatch(m))
  {
    var p := FirstNonEmpty(m.rq);
    var next := m.rq[p][0];
    var t := m.tasks[next].(state := Running);
    PopExact(m, p, t);
    var popped := m.(rq := m.rq[p := m.rq[p][1..]], tasks := m.tasks[next := t]);
    assert PointOk(next, Runnable, m.at[next]);
    SwitchInv(popped, next);
  }

  // Inside the invariant, schedule() requeues without dropping and dispatches the head
  // of the first non-empty queue without discarding; it never falls through.
  lemma ScheduleExact(k: Kernel)
    requires MidInv(k) && Suspendable(k)
    ensures FirstNonEmpty(Requeue(k).rq) < 3
    ensures Schedule(k) == Dispatch(Requeue(k))
    ensures Inv(Schedule(k))
  {
    var m := Requeue(k);
    RequeueExact(k);
    SomeoneQueued(m);
    DispatchInv(m);
    var p := FirstNonEmpty(m.rq);
    assert DropStale(m.tasks, m.rq[p]) == m.rq[p];
  }

  // ---- the kernel paths ----

  // A change to one task's registers, flags or signals.
  lemma TouchTask(k: Kernel, i: Pid, t: Task)
    requires MidInv(k) && SlotOk(i, t)
    requires t.state == k.tasks[i].state && t.priority == k.tasks[i].priority
    ensures MidInv(k.(tasks := k.tasks[i := t]))
  {
  }

  lemma GotoInv(k: Kernel, p: Point)
    requires MidInv(k) && PointOk(k.cur, k.tasks[k.cur].state, p)
    ensures MidInv(Goto(k, p))
  {
  }

  lemma LiveInv(k: Kernel, live: Context)
    requires Inv(k)
    ensures Inv(k.(live := live))
  {
  }

  lemma EnqueueAppends(k: Kernel, i: Pid, t: Task, entry: Point)
    requires Inv(k)
    ensures Enqueue(k, i, t, entry) ==
            k.(tasks := k.tasks[i := t],
               rq := k.rq[t.priority := k.rq[t.priority] + [i]],
               at := k.at[i := entry])
  {
    QueuesNeverFull(k);
  }

  // Filling a free slot and queueing it.
  lemma EnqueueInv(k: Kernel, i: Pid, t: Task, entry: Point)
    requires Inv(k) && k.tasks[i].state == Free
    requires SlotOk(i, t) && t.state == Runnable && PointOk(i, Runnable, entry)
    ensures Inv(Enqueue(k, i, t, entry))
  {
    EnqueueAppends(k, i, t, entry);
    AppendExact(k, t.priority, i, t);
    var m := k.(tasks := k.tasks[i := t], rq := k.rq[t.priority := k.rq[t.priority] + [i]]);
    var r := m.(at := k.at[i := entry]);
    assert Queued(r) == Queued(m);
    assert QueuesByPriority(r);
  }

  lemma CreateInv(k: Kernel, entry: Point, priority: Priority, pc: nat)
    requires Inv(k) && entry in {ReaperLoop, ExecEntry, ToUser}
    ensures Inv(Create(k, entry, priority, pc))
  {
    var i := FirstFree(k.tasks, 0);
    if i < NR_TASKS {
      var t := Create(k, entry, priority, pc).tasks[i];
      assert PointOk(i, Free, k.at[i]) && SlotOk(i, k.tasks[i]);
      EnqueueInv(k, i, t, entry);
    }
  }

  lemma ForkInv(k: Kernel, pc: nat)
    requires Inv(k)
    ensures Inv(ForkTask(k, pc))
  {
    var i := FirstFree(k.tasks, 0);
    if i < NR_TASKS {
      var t := ForkTask(k, pc).tasks[i];
      assert PointOk(i, Free, k.at[i]) && SlotOk(i, k.tasks[i]);
      EnqueueInv(k, i, t, ToUser);
      assert k.tasks[i := Create(k, ToUser, HIGH, 0).tasks[i]][i := t] == k.tasks[i := t];
    }
  }

  lemma ReapInv(k: Kernel)
    requires Inv(k)
    ensures Inv(Reap(k))
  {
  }

  // What a path hands on: to schedule(), or to the next event.
  ghost predicate PathOk(p: Path) {
    MidInv(p.k) &&
    if p.sched then Suspendable(p.k) else p.k.tasks[p.k.cur].state == Running
  }

  lemma ExitOk(k: Kernel)
    requires Inv(k) && k.cur != 0
    ensures PathOk(Exit(k))
  {
  }

  lemma CheckSignalOk(k: Kernel)
    requires Inv(k) && k.cur != 0
    ensures PathOk(CheckSignal(k))
  {
    var t := k.tasks[k.cur];
    assert SlotOk(k.cur, t);
    if t.sigpending && SIGKILL in t.signal {
      ExitOk(k);
    } else {
      GotoInv(k, User);
    }
  }

  lemma ExitPathOk(k: Kernel, late: bool)
    requires Inv(k) && k.cur != 0
    ensures PathOk(ExitPath(k, late))
  {
    var t := k.tasks[k.cur];
    assert SlotOk(k.cur, t);
    if t.resched {
      TouchTask(k, k.cur, t.(resched := late));
      GotoInv(k.(tasks := k.tasks[k.cur := t.(resched := late)]), InResched);
    } else {
      CheckSignalOk(k);
    }
  }

  lemma KillInv(k: Kernel, pid: Pid, sig: Signal)
    requires Inv(k)
    ensures Inv(Kill(k, pid, sig))
  {
  }

  lemma TickInv(k: Kernel)
    requires Inv(k)
    ensures Inv(Tick(k))
  {
  }

  lemma TrapPathOk(k: Kernel, call: Call, late: bool)
    requires Inv(k) && k.at[k.cur] == User
    ensures PathOk(TrapPath(k, call, late))
  {
    assert PointOk(k.cur, Running, k.at[k.cur]);
    match call
    case Other => ExitPathOk(k, late);
    case Timer =>
      TickInv(k);
      ExitPathOk(Tick(k), late);
    case Fork(pc) =>
      ForkInv(k, pc);
      ExitPathOk(ForkTask(k, pc), late);
    case ExitCall => ExitOk(k);
    case KillCall(pid, sig) =>
      KillInv(k, pid, sig);
      ExitPathOk(Kill(k, pid, sig), late);
  }

  lemma ContinuePathOk(k: Kernel, late: bool)
    requires Inv(k) && Enabled(k, Continue(k.live, late))
    ensures PathOk(ContinuePath(k, late))
  {
    assert PointOk(k.cur, Running, k.at[k.cur]);
    match k.at[k.cur]
    case IdleLoop => GotoInv(k, IdleHalt);
    case ReaperLoop => ReapInv(k);
    case ExecEntry => GotoInv(k, User);
    case ToUser => ExitPathOk(k, late);
    case InResched => CheckSignalOk(k);
  }

  lemma EventPathOk(k: Kernel, e: Event)
    requires Inv(k) && Enabled(k, e)
    ensures PathOk(EventPath(k, e))
  {
    assert PointOk(k.cur, Running, k.at[k.cur]);
    match e
    case CreateTask(entry, priority, pc) => CreateInv(k, entry, priority, pc);
    case StartIdle => GotoInv(k, IdleLoop);
    case KernelTick => TickInv(k);
    case Trap(call, live, late) =>
      LiveInv(k, live);
      TrapPathOk(k.(live := live), call, late);
    case Continue(live, late) =>
      LiveInv(k, live);
      ContinuePathOk(k.(live := live), late);
  }

  // Every event keeps the invariant.
  lemma StepInv(k: Kernel, e: Event)
    requires Inv(k) && Enabled(k, e)
    ensures Inv(Step(k, e))
  {
    EventPathOk(k, e);
    if EventPath(k, e).sched {
      ScheduleExact(EventPath(k, e).k);
    }
  }

  lemma InitialInv(live: Context, kstacks: nat)
    ensures Inv(Initial(live, kstacks))
  {
  }

  // The invariant holds in every state of every run.
  lemma {:induction false} RunInv(ks: seq<Kernel>, es: seq<Event>, n: nat)
    requires IsRun(ks, es) && Inv(ks[0]) && n < |ks|
    ensures Inv(ks[n])
  {
    hide EventPath, Step;
    if n == 0 {
    } else {
      RunInv(ks, es, n - 1);
      assert Link(ks, es, n - 1);
      StepInv(ks[n - 1], es[n - 1]);
    }
  }
}
