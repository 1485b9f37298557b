/**
 The scheduler and the task life cycle as functions on the abstract kernel state.
 Kernel code is never preempted, so one event is a whole kernel path: from a trap,
 or from the point where the current task continues, up to the next call of
 schedule() or the next return to EL0. A path calls schedule() at most once, last.
 */
module SchedulerSpec {
  import opened TaskTypes

  // ---- run queues and schedule() ----

  // runqueue_push: a ring of NR_TASKS + 1 slots silently drops when it holds NR_TASKS.
  function Push(q: seq<Pid>, i: Pid): seq<Pid> {
    if |q| >= NR_TASKS then q else q + [i]
  }

  function Requeue(k: Kernel): (r: Kernel)
    requires WellFormed(k)
    ensures WellFormed(r)
  {
    var t := k.tasks[k.cur];
    if t.state != Running then k else
      k.(tasks := k.tasks[k.cur := t.(state := Runnable)],
         rq := k.rq[t.priority := Push(k.rq[t.priority], k.cur)])
  }

  // The first non-empty queue, or 3.
  function FirstNonEmpty(rq: seq<seq<Pid>>): (p: nat)
    requires |rq| == 3
    ensures p <= 3
  {
    if rq[0] != [] then 0 else if rq[1] != [] then 1 else if rq[2] != [] then 2 else 3
  }

  // schedule()'s discard loop: drop entries whose task is not RUNNABLE.
  function DropStale(tasks: seq<Task>, q: seq<Pid>): seq<Pid>
    requires |tasks| == NR_TASKS
  {
    if q == [] || tasks[q[0]].state == Runnable then q else DropStale(tasks, q[1..])
  }

  // switch_to: save the live registers in the previous task, load the next one's.
  function SwitchTo(k: Kernel, next: Pid): (r: Kernel)
    requires WellFormed(k)
    ensures WellFormed(r)
  {
    var saved := k.tasks[k.cur := k.tasks[k.cur].(ctx := k.live)];
    k.(tasks := saved, cur := next, live := saved[next].ctx)
  }

  function Schedule(k: Kernel): (r: Kernel)
    requires WellFormed(k)
    ensures WellFormed(r)
  {
    var m := Requeue(k);
    var p := FirstNonEmpty(m.rq);
    if p == 3 then m else
      var q := DropStale(m.tasks, m.rq[p]);
      if q == [] then m.(rq := m.rq[p := []]) else
        var next := q[0];
        SwitchTo(m.(rq := m.rq[p := q[1..]],
                    tasks := m.tasks[next := m.tasks[next].(state := Running)]),
                 next)
  }

  // ---- creation, fork, kill, reaping ----

  function FirstFree(tasks: seq<Task>, from: nat): (r: nat)
    requires |tasks| == NR_TASKS && from <= NR_TASKS
    ensures from <= r <= NR_TASKS
    ensures r < NR_TASKS ==> tasks[r].state == Free
    ensures forall i :: from <= i < r ==> tasks[i].state != Free
    decreases NR_TASKS - from
  {
    if from == NR_TASKS || tasks[from].state == Free then from else FirstFree(tasks, from + 1)
  }

  // The child pid, or -1 when the pool is full.
  function NewPid(k: Kernel): (r: int)
    requires WellFormed(k)
    ensures -1 <= r < NR_TASKS
  {
    var i := FirstFree(k.tasks, 0);
    if i == NR_TASKS then -1 else i
  }

  function Enqueue(k: Kernel, i: Pid, t: Task, entry: Point): (r: Kernel)
    requires WellFormed(k)
    ensures WellFormed(r)
  {
    k.(tasks := k.tasks[i := t],
       rq := k.rq[t.priority := Push(k.rq[t.priority], i)],
       at := k.at[i := entry])
  }

  // privilege_task_create_priority: every other field of the slot keeps its value.
  function Create(k: Kernel, entry: Point, priority: Priority, pc: nat): (r: Kernel)
    requires WellFormed(k)
    ensures WellFormed(r)
  {
    var i := FirstFree(k.tasks, 0);
    if i == NR_TASKS then k else
      Enqueue(k, i, k.tasks[i].(id := i, state := Runnable, priority := priority,
                                ctx := k.tasks[i].ctx.(pc := pc, sp := KStackTop(k.kstacks, i))),
              entry)
  }

  // do_fork's share of the task pool: a HIGH task that starts at ret_to_user on a trap
  // frame at the top of its kernel stack.
  function ForkTask(k: Kernel, pc: nat): (r: Kernel)
    requires WellFormed(k)
    ensures WellFormed(r)
  {
    var i := FirstFree(k.tasks, 0);
    if i == NR_TASKS then k else
      var c := Create(k, ToUser, HIGH, 0);
      c.(tasks := c.tasks[i := c.tasks[i].(ctx := c.tasks[i].ctx.(pc := pc,
                                sp := KStackTop(k.kstacks, i) - FRAME_SIZE))])
  }

  function Kill(k: Kernel, pid: Pid, sig: Signal): (r: Kernel)
    requires WellFormed(k)
    ensures WellFormed(r)
  {
    var t := k.tasks[pid];
    k.(tasks := k.tasks[pid := t.(sigpending := true, signal := t.signal + {sig})])
  }

  // zombie_reaper()'s scan.
  function Reap(k: Kernel): (r: Kernel)
    requires WellFormed(k)
    ensures WellFormed(r)
  {
    k.(tasks := seq(NR_TASKS, i requires 0 <= i < NR_TASKS =>
                      if k.tasks[i].state == Zombie then ZERO_TASK else k.tasks[i]))
  }

  function NumRunnable(k: Kernel): nat
    requires WellFormed(k)
  {
    |k.rq[0]| + |k.rq[1]| + |k.rq[2]|
  }

  // ---- kernel paths ----

  // The state a path reaches, and whether it then calls schedule().
  datatype Path = Path(k: Kernel, sched: bool)

  function Finish(p: Path): (r: Kernel)
    requires WellFormed(p.k)
    ensures WellFormed(r)
  {
    if p.sched then Schedule(p.k) else p.k
  }

  function Goto(k: Kernel, p: Point): (r: Kernel)
    requires WellFormed(k)
    ensures WellFormed(r)
  {
    k.(at := k.at[k.cur := p])
  }

  function Exit(k: Kernel): (r: Path)
    requires WellFormed(k)
    ensures WellFormed(r.k)
  {
    Path(Goto(k.(tasks := k.tasks[k.cur := k.tasks[k.cur].(state := Zombie)]), Dead), true)
  }

  // check_signal() and the return to EL0 behind it.
  function CheckSignal(k: Kernel): (r: Path)
    requires WellFormed(k)
    ensures WellFormed(r.k)
  {
    var t := k.tasks[k.cur];
    if !t.sigpending then Path(Goto(k, User), false)
    else if SIGKILL in t.signal then Exit(k)
    else if t.signal == {} then
      Path(Goto(k.(tasks := k.tasks[k.cur := t.(sigpending := false)]), User), false)
    else Path(Goto(k, User), false)
  }

  // kernel_exit 0. When late is set a timer tick arrives after check_resched()
  // cleared the flag and before the switch.
  function ExitPath(k: Kernel, late: bool): (r: Path)
    requires WellFormed(k)
    ensures WellFormed(r.k)
  {
    var t := k.tasks[k.cur];
    if t.resched then
      Path(Goto(k.(tasks := k.tasks[k.cur := t.(resched := late)]), InResched), true)
    else CheckSignal(k)
  }

  function Tick(k: Kernel): (r: Kernel)
    requires WellFormed(k)
    ensures WellFormed(r)
  {
    k.(tasks := k.tasks[k.cur := k.tasks[k.cur].(resched := true)])
  }

  // What an EL0 task can trap into the kernel for.
  datatype Call =
    | Other                            // any call without effect on the tasks
    | Timer                            // the core timer interrupt
    | Fork(pc: nat)                    // the address of ret_to_user
    | ExitCall
    | KillCall(pid: Pid, sig: Signal)

  datatype Event =
    | CreateTask(entry: Point, priority: Priority, pc: nat)
    | StartIdle
    | KernelTick
    | Trap(call: Call, live: Context, late: bool)
    | Continue(live: Context, late: bool)

  // The events a task can cause at a point of its code; ticks can come at any point.
  predicate PointEnabled(p: Point, e: Event) {
    match e
    case CreateTask(entry, _, _) => p == Main && entry in {ExecEntry, ReaperLoop}
    case StartIdle => p == Main
    case KernelTick => true
    case Trap(_, _, _) => p == User
    case Continue(_, _) => p in {IdleLoop, ReaperLoop, ExecEntry, ToUser, InResched}
  }

  predicate Enabled(k: Kernel, e: Event)
    requires WellFormed(k)
  {
    PointEnabled(k.at[k.cur], e)
  }

  function TrapPath(k: Kernel, call: Call, late: bool): (r: Path)
    requires WellFormed(k)
    ensures WellFormed(r.k)
  {
    match call
    case Other => ExitPath(k, late)
    case Timer => ExitPath(Tick(k), late)
    case Fork(pc) => ExitPath(ForkTask(k, pc), late)
    case ExitCall => Exit(k)
    case KillCall(pid, sig) => ExitPath(Kill(k, pid, sig), late)
  }

  function ContinuePath(k: Kernel, late: bool): (r: Path)
    requires WellFormed(k)
    ensures WellFormed(r.k)
  {
    match k.at[k.cur]
    case IdleLoop => if NumRunnable(k) == 1 then Path(Goto(k, IdleHalt), false) else Path(k, true)
    case ReaperLoop => Path(Reap(k), true)
    case ExecEntry => Path(Goto(k, User), false)
    case ToUser => ExitPath(k, late)
    case InResched => CheckSignal(k)
    case _ => Path(k, false)
  }

  function EventPath(k: Kernel, e: Event): (r: Path)
    requires WellFormed(k)
    ensures WellFormed(r.k)
  {
    match e
    case CreateTask(entry, priority, pc) => Path(Create(k, entry, priority, pc), false)
    case StartIdle => Path(Goto(k, IdleLoop), false)
    case KernelTick => Path(Tick(k), false)
    case Trap(call, live, late) => TrapPath(k.(live := live), call, late)
    case Continue(live, late) => ContinuePath(k.(live := live), late)
  }

  function Step(k: Kernel, e: Event): (r: Kernel)
    requires WellFormed(k)
    ensures WellFormed(r)
  {
    Finish(EventPath(k, e))
  }

  // ---- runs ----

  // ks[i + 1] is the state after event es[i].
  ghost predicate Link(ks: seq<Kernel>, es: seq<Event>, i: nat) {
    i < |es| < |ks| && WellFormed(ks[i]) && Enabled(ks[i], es[i]) && ks[i + 1] == Step(ks[i], es[i])
  }

  ghost predicate IsRun(ks: seq<Kernel>, es: seq<Event>) {
    |ks| == |es| + 1 &&
    (forall i :: 0 <= i < |ks| ==> WellFormed(ks[i])) &&
    (forall i :: 0 <= i < |es| ==> Link(ks, es, i))
  }

  // The number of calls of schedule() made by the events from, ..., to - 1 of a run.
  ghost function ScheduleCalls(ks: seq<Kernel>, es: seq<Event>, from: nat, to: nat): nat
    requires IsRun(ks, es) && from <= to <= |es|
  {
    if from == to then 0 else
      ScheduleCalls(ks, es, from, to - 1) + if EventPath(ks[to - 1], es[to - 1]).sched then 1 else 0
  }
}
