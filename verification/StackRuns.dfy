/**
 The two stack pools over whole runs. A kernel path writes the current task's stacks, and in a
 fork the new child's; so the registers that kernel_entry saves are the ones that kernel_exit
 loads, however many other tasks have been in the kernel in between.
 */
module StackRuns {
  import opened ContextPreservation
  import opened Fork
  import opened Memory
  import opened SchedulerInvariant
  import opened SchedulerRuns
  import opened SchedulerSpec
  import opened Slices
  import opened TaskTypes
  import opened Words

  // What syscall_handler and sys_exec do to a frame; an interrupt does nothing to it.
  datatype Answer = Keep | Return(x0: U64) | Enter

  // An event with the registers and the user stack of the task at its trap, and what the
  // handler makes of the frame.
  datatype StackEvent = StackEvent(e: Event, regs: Registers, ustack: seq<Byte>, answer: Answer)

  // The kernel with its stack pools; tf is where each task's trap frame lies in its kernel
  // stack, el0 what was last loaded for EL0.
  datatype World = World(k: Kernel, pools: Pools, ustacks: nat, tf: seq<nat>, el0: Registers)

  // Task t is alive and at EL0, or in the kernel on a trap frame.
  predicate OnFrame(k: Kernel, t: Pid)
    requires WellFormed(k)
  {
    k.tasks[t].state in {Runnable, Running} && k.at[t] in {User, ToUser, InResched}
  }

  predicate InKernel(k: Kernel, t: Pid)
    requires WellFormed(k)
  {
    OnFrame(k, t) && k.at[t] != User
  }

  predicate Shaped(w: World) {
    WellFormed(w.k) && Sized(w.pools) && |w.tf| == NR_TASKS
  }

  ghost predicate WorldInv(w: World) {
    Shaped(w) && Inv(w.k) && forall t: Pid :: OnFrame(w.k, t) ==> FrameIn(t, w.tf[t])
  }

  // Task t's trap frame holds these registers.
  ghost predicate Holds(w: World, t: Pid, r: Registers) {
    Shaped(w) && FrameIn(t, w.tf[t]) && w.tf[t] + FRAME_ROOM <= KStackBase(NR_TASKS) &&
    FrameOf(w.pools, w.tf[t]) == r
  }

  // The frame behind a trap's handler.
  function Answered(k: Kernel, s: StackEvent, ustacks: nat): Registers
    requires WellFormed(k) && s.e.Trap? && Complete(s.regs)
  {
    var r := s.regs;
    match s.e.call
    case Timer => r
    case Fork(_) => r.(x := r.x[0 := ResultWord(NewPid(k))])
    case KillCall(_, _) => r.(x := r.x[0 := 0])
    case _ =>
      match s.answer
      case Keep => r
      case Return(x0) => r.(x := r.x[0 := x0])
      case Enter => r.(x := r.x[0 := 0], elr := r.x[0], spEl0 := UStackTop(ustacks, k.cur) % WORD_LIMIT)
  }

  // The child that an event creates by fork, or -1.
  function ChildOf(k: Kernel, e: Event): int
    requires WellFormed(k)
  {
    if e.Trap? && e.call.Fork? then NewPid(k) else -1
  }

  // Task t keeps both its stacks and the place of its frame.
  predicate SameStacks(w: World, v: World, t: Pid)
    requires Shaped(w) && Shaped(v)
  {
    v.tf[t] == w.tf[t] && KernelStack(v.pools, t) == KernelStack(w.pools, t) &&
    UserStack(v.pools, t) == UserStack(w.pools, t)
  }

  // What the path of the current task does to its own stacks: below its frame anything, to the
  // frame itself what the trap's handler does.
  ghost predicate OwnStacks(w: World, s: StackEvent, v: World)
    requires Shaped(w) && Shaped(v)
  {
    var c := w.k.cur;
    if s.e.Trap? then
      v.tf[c] == w.tf[c] && Complete(s.regs) &&
      (!s.e.call.ExitCall? ==> Holds(v, c, Answered(w.k, s, w.ustacks))) &&
      (!s.e.call.Other? ==> UserStack(v.pools, c) == s.ustack)
    else
      UserStack(v.pools, c) == UserStack(w.pools, c) &&
      if s.e.Continue? && w.k.at[c] == ExecEntry then FrameIn(c, v.tf[c]) else
        v.tf[c] == w.tf[c] && (InKernel(w.k, c) ==> forall r :: Holds(w, c, r) ==> Holds(v, c, r))
  }

  // What a fork leaves on its child's stacks.
  ghost predicate ChildStacks(w: World, s: StackEvent, v: World)
    requires Shaped(w) && Shaped(v)
  {
    var t := ChildOf(w.k, s.e);
    t >= 0 ==>
      Complete(s.regs) && v.tf[t] == ChildFrame(t) &&
      Holds(v, t, ChildRegisters(w.ustacks, s.regs, w.k.cur, t)) && UserStack(v.pools, t) == s.ustack
  }

  // The current task returns to EL0 through kernel_exit.
  predicate Returns(k: Kernel, e: Event)
    requires WellFormed(k)
  {
    var p := EventPath(k, e);
    !p.sched && p.k.at[k.cur] == User && (e.Trap? || (e.Continue? && k.at[k.cur] in {ToUser, InResched}))
  }

  ghost predicate Moves(w: World, s: StackEvent, v: World) {
    Shaped(w) && Shaped(v) && Enabled(w.k, s.e) && v.k == Step(w.k, s.e) && v.ustacks == w.ustacks &&
    (forall t: Pid :: t != w.k.cur && t != ChildOf(w.k, s.e) ==> SameStacks(w, v, t)) &&
    OwnStacks(w, s, v) && ChildStacks(w, s, v) &&
    (Returns(w.k, s.e) ==> Holds(v, w.k.cur, v.el0))
  }

  ghost predicate MovesAt(ws: seq<World>, ss: seq<StackEvent>, i: nat) {
    i < |ss| < |ws| && Moves(ws[i], ss[i], ws[i + 1])
  }

  ghost predicate IsStackRun(ws: seq<World>, ss: seq<StackEvent>) {
    |ws| == |ss| + 1 && WorldInv(ws[0]) && forall i :: 0 <= i < |ss| ==> MovesAt(ws, ss, i)
  }

  // ---- one step ----

  // A frame lies in its task's kernel stack, so it is kept where the stack is.
  lemma FrameStays(w: World, v: World, t: Pid, r: Registers)
    requires Holds(w, t, r) && Shaped(v) && SameStacks(w, v, t)
    ensures Holds(v, t, r)
  {
    FrameKept(w.pools, v.pools, w.tf[t], t);
  }

  // ---- tasks that are not current ----

  lemma ForkFillsOne(k: Kernel, pc: nat, t: Pid)
    requires WellFormed(k) && t != NewPid(k)
    ensures ForkTask(k, pc).tasks[t] == k.tasks[t]
  {
  }

  lemma FilledByTrap(k: Kernel, call: Call, late: bool, t: Pid)
    requires WellFormed(k) && t != k.cur
    requires k.tasks[t].state == Free && TrapPath(k, call, late).k.tasks[t].state == Runnable
    ensures call.Fork? && t == NewPid(k)
  {
    match call
    case Other => ExitPathOnly(k, late);
    case Timer => ExitPathOnly(Tick(k), late);
    case Fork(pc) =>
      ExitPathOnly(ForkTask(k, pc), late);
      if t != NewPid(k) {
        ForkFillsOne(k, pc, t);
      }
    case ExitCall =>
    case KillCall(pid, sig) => ExitPathOnly(Kill(k, pid, sig), late);
  }

  // Only a creation or a fork fills a slot.
  lemma FilledSlot(k: Kernel, e: Event, t: Pid)
    requires Inv(k) && Enabled(k, e) && t != k.cur
    requires k.tasks[t].state == Free && EventPath(k, e).k.tasks[t].state == Runnable
    ensures t == ChildOf(k, e) || (e.CreateTask? && EventPath(k, e).k.at[t] == e.entry)
  {
    match e
    case CreateTask(entry, priority, pc) =>
    case StartIdle =>
    case KernelTick =>
    case Trap(call, live, late) => FilledByTrap(k.(live := live), call, late, t);
    case Continue(live, late) => ContinueFrame(k.(live := live), late, t);
  }

  lemma ChildIsFree(k: Kernel, e: Event)
    requires Inv(k) && ChildOf(k, e) >= 0
    ensures k.tasks[ChildOf(k, e)].state == Free && ChildOf(k, e) != k.cur
  {
  }

  // A task that is not current stays on its frame.
  lemma BystanderOnFrame(k: Kernel, e: Event, t: Pid)
    requires Inv(k) && Enabled(k, e) && t != k.cur && OnFrame(k, t)
    ensures t != ChildOf(k, e) && OnFrame(Step(k, e), t) && Step(k, e).at[t] == k.at[t] != User
  {
    hide EventPath, Step;
    assert PointOk(t, k.tasks[t].state, k.at[t]);
    StepBystander(k, e, t);
    if t == ChildOf(k, e) {
      ChildIsFree(k, e);
    }
  }

  // Nobody else gets onto one, but for a forked child.
  lemma BystanderWasOnFrame(k: Kernel, e: Event, t: Pid)
    requires Inv(k) && Enabled(k, e) && t != k.cur && OnFrame(Step(k, e), t) && t != ChildOf(k, e)
    ensures OnFrame(k, t)
  {
    var p := EventPath(k, e).k;
    PathFrame(k, e, t);
    EventPathOk(k, e);
    if EventPath(k, e).sched {
      ScheduleEffects(p);
    }
    if k.tasks[t].state == Free && p.tasks[t].state == Runnable {
      FilledSlot(k, e, t);
    }
  }

  // ---- the current task ----

  lemma CurrentPoint(k: Kernel, e: Event)
    requires Inv(k) && Enabled(k, e)
    ensures Step(k, e).at[k.cur] == EventPath(k, e).k.at[k.cur]
    ensures Step(k, e).tasks[k.cur].state ==
            if EventPath(k, e).k.tasks[k.cur].state == Zombie then Zombie
            else if Step(k, e).cur == k.cur then Running else Runnable
  {
    EventPathOk(k, e);
    PathFrame(k, e, k.cur);
    if EventPath(k, e).sched {
      ScheduleEffects(EventPath(k, e).k);
    }
  }

  lemma ExitPathPoint(k: Kernel, late: bool)
    requires WellFormed(k) && k.tasks[k.cur].state == Running
    ensures var p := ExitPath(k, late);
            p.k.cur == k.cur &&
            if p.sched then p.k.at[k.cur] == InResched || p.k.tasks[k.cur].state == Zombie
            else p.k.at[k.cur] == User && p.k.tasks[k.cur].state == Running
  {
  }

  lemma TrapLeadsTo(k: Kernel, call: Call, late: bool)
    requires WellFormed(k) && k.tasks[k.cur].state == Running
    ensures var p := TrapPath(k, call, late);
            p.k.cur == k.cur &&
            if p.sched then p.k.at[k.cur] == InResched || p.k.tasks[k.cur].state == Zombie
            else p.k.at[k.cur] == User && p.k.tasks[k.cur].state == Running
  {
    match call
    case Other => ExitPathPoint(k, late);
    case Timer => ExitPathPoint(Tick(k), late);
    case Fork(pc) => ExitPathPoint(ForkTask(k, pc), late);
    case ExitCall =>
    case KillCall(pid, sig) => ExitPathPoint(Kill(k, pid, sig), late);
  }

  // Where a trap or the rest of one can lead: back to EL0, into check_resched()'s schedule(), or
  // to the task's end.
  lemma TrapLeads(k: Kernel, e: Event)
    requires Inv(k) && Enabled(k, e)
    requires e.Trap? || (e.Continue? && k.at[k.cur] in {ToUser, InResched})
    ensures var v := Step(k, e);
            v.tasks[k.cur].state == Zombie || InKernel(v, k.cur) ||
            (Returns(k, e) && v.at[k.cur] == User && v.cur == k.cur && OnFrame(v, k.cur))
  {
    CurrentPoint(k, e);
    PathFrame(k, e, k.cur);
    EventPathOk(k, e);
    match e
    case Trap(call, live, late) => TrapLeadsTo(k.(live := live), call, late);
    case Continue(live, late) => ExitPathPoint(k.(live := live), late);
  }

  // ---- frames over one step ----

  lemma CurrentWasOnFrame(k: Kernel, e: Event)
    requires Inv(k) && Enabled(k, e) && OnFrame(Step(k, e), k.cur)
    ensures OnFrame(k, k.cur) || (e.Continue? && k.at[k.cur] == ExecEntry)
  {
  }

  lemma CurrentOnFrame(w: World, s: StackEvent, v: World)
    requires WorldInv(w) && Moves(w, s, v) && OnFrame(v.k, w.k.cur)
    ensures FrameIn(w.k.cur, v.tf[w.k.cur])
  {
    hide EventPath, Step;
    CurrentPoint(w.k, s.e);
    CurrentWasOnFrame(w.k, s.e);
  }

  lemma WorldStep(w: World, s: StackEvent, v: World)
    requires WorldInv(w) && Moves(w, s, v)
    ensures WorldInv(v)
  {
    hide EventPath, Step, Inv;
    StepInv(w.k, s.e);
    forall t: Pid | OnFrame(v.k, t)
      ensures FrameIn(t, v.tf[t])
    {
      if t == w.k.cur {
        CurrentOnFrame(w, s, v);
      } else if t != ChildOf(w.k, s.e) {
        BystanderWasOnFrame(w.k, s.e, t);
        assert SameStacks(w, v, t);
      }
    }
  }

  lemma OnlyTicks(k: Kernel, e: Event)
    requires Inv(k) && Enabled(k, e) && InKernel(k, k.cur) && !e.Continue?
    ensures e.KernelTick? && InKernel(Step(k, e), k.cur)
  {
  }

  // A task in the kernel keeps its frame until it loads it, and its user stack.
  lemma FrameStep(w: World, s: StackEvent, v: World, t: Pid, r: Registers)
    requires WorldInv(w) && Moves(w, s, v) && InKernel(w.k, t) && Holds(w, t, r)
    ensures UserStack(v.pools, t) == UserStack(w.pools, t)
    ensures v.k.tasks[t].state == Zombie || (InKernel(v.k, t) && Holds(v, t, r)) ||
            (v.k.at[t] == User && v.k.cur == t && v.el0 == r && OnFrame(v.k, t))
  {
    hide EventPath, Step, Inv;
    if t != w.k.cur {
      BystanderOnFrame(w.k, s.e, t);
      FrameStays(w, v, t, r);
    } else {
      assert Holds(v, t, r);
      if s.e.Continue? {
        TrapLeads(w.k, s.e);
      } else {
        OnlyTicks(w.k, s.e);
        CurrentPoint(w.k, s.e);
      }
    }
  }

  lemma RunningOrRunnable(k: Kernel, t: Pid)
    requires Inv(k) && (k.cur == t || k.tasks[t].state == Runnable)
    ensures k.tasks[t].state in {Runnable, Running}
  {
  }

  // A forked child has its frame from the start.
  lemma ChildStep(w: World, s: StackEvent, v: World)
    requires WorldInv(w) && Moves(w, s, v) && ChildOf(w.k, s.e) >= 0
    ensures var t := ChildOf(w.k, s.e);
            Complete(s.regs) && InKernel(v.k, t) &&
            Holds(v, t, ChildRegisters(w.ustacks, s.regs, w.k.cur, t)) && UserStack(v.pools, t) == s.ustack
  {
    hide EventPath, Step, Inv, Holds, ChildRegisters;
    ForkedChild(w.k, s.e);
    StepInv(w.k, s.e);
    RunningOrRunnable(v.k, ChildOf(w.k, s.e));
  }

  lemma ReturnsStays(k: Kernel, e: Event)
    requires Inv(k) && Enabled(k, e) && Returns(k, e)
    ensures Step(k, e).cur == k.cur && Step(k, e).at[k.cur] == User
  {
    CurrentPoint(k, e);
    PathFrame(k, e, k.cur);
  }

  lemma ExitDies(k: Kernel, e: Event)
    requires Inv(k) && Enabled(k, e) && e.Trap? && e.call.ExitCall?
    ensures Step(k, e).tasks[k.cur].state == Zombie
  {
  }

  // A trap leaves its frame as the handler answers it, or has loaded it already.
  lemma TrapStep(w: World, s: StackEvent, v: World)
    requires WorldInv(w) && Moves(w, s, v) && s.e.Trap?
    ensures var t := w.k.cur;
            Complete(s.regs) &&
            var r := Answered(w.k, s, w.ustacks);
            v.k.tasks[t].state == Zombie || (InKernel(v.k, t) && Holds(v, t, r)) ||
            (v.k.at[t] == User && v.k.cur == t && v.el0 == r && OnFrame(v.k, t))
    ensures !s.e.call.Other? ==> UserStack(v.pools, w.k.cur) == s.ustack
  {
    hide EventPath, Step, Inv, Answered;
    TrapLeads(w.k, s.e);
    if s.e.call.ExitCall? {
      ExitDies(w.k, s.e);
    }
  }

  // ---- runs ----

  // Runs start from boot: nobody is on a frame yet.
  lemma InitialWorldInv(w: World, live: Context, kstacks: nat)
    requires w.k == Initial(live, kstacks) && Sized(w.pools) && |w.tf| == NR_TASKS
    ensures WorldInv(w)
  {
    InitialInv(live, kstacks);
  }

  lemma {:induction false} RunWorldInv(ws: seq<World>, ss: seq<StackEvent>, n: nat)
    requires IsStackRun(ws, ss) && n < |ws|
    ensures WorldInv(ws[n]) && Shaped(ws[n])
  {
    hide Moves;
    if n == 0 {
    } else {
      RunWorldInv(ws, ss, n - 1);
      assert MovesAt(ws, ss, n - 1);
      WorldStep(ws[n - 1], ss[n - 1], ws[n]);
    }
  }

  // Task t lives through the states from, ..., n and is not at EL0 before the last.
  ghost predicate StaysInKernel(ws: seq<World>, t: Pid, from: nat, n: nat) {
    from <= n < |ws| &&
    (forall m :: from <= m <= n ==> WellFormed(ws[m].k) && ws[m].k.tasks[t].state != Zombie) &&
    (forall m :: from <= m < n ==> ws[m].k.at[t] != User)
  }

  lemma {:induction false} FrameHeld(ws: seq<World>, ss: seq<StackEvent>, t: Pid, r: Registers, from: nat, n: nat)
    requires IsStackRun(ws, ss) && StaysInKernel(ws, t, from, n)
    requires InKernel(ws[from].k, t) && Holds(ws[from], t, r)
    ensures (InKernel(ws[n].k, t) && Holds(ws[n], t, r)) ||
            (ws[n].k.at[t] == User && ws[n].k.cur == t && ws[n].el0 == r)
    ensures Shaped(ws[n]) && UserStack(ws[n].pools, t) == UserStack(ws[from].pools, t)
    decreases n
  {
    hide Moves, WorldInv, Holds;
    RunWorldInv(ws, ss, n);
    if from == n {
    } else {
      FrameHeld(ws, ss, t, r, from, n - 1);
      RunWorldInv(ws, ss, n - 1);
      assert MovesAt(ws, ss, n - 1);
      FrameStep(ws[n - 1], ss[n - 1], ws[n], t, r);
    }
  }

  // Whatever runs in between, a trap returns to EL0 with the registers it was entered with, but
  // for what its handler has answered.
  lemma TrapReturns(ws: seq<World>, ss: seq<StackEvent>, i: nat, n: nat)
    requires IsStackRun(ws, ss) && i < n < |ws| && ss[i].e.Trap?
    requires Shaped(ws[i]) && StaysInKernel(ws, ws[i].k.cur, i + 1, n) && ws[n].k.at[ws[i].k.cur] == User
    ensures ws[n].k.cur == ws[i].k.cur && Complete(ss[i].regs)
    ensures ws[n].el0 == Answered(ws[i].k, ss[i], ws[i].ustacks)
    ensures Shaped(ws[n]) && (!ss[i].e.call.Other? ==> UserStack(ws[n].pools, ws[i].k.cur) == ss[i].ustack)
  {
    hide Moves, WorldInv, Holds, Answered;
    RunWorldInv(ws, ss, i);
    RunWorldInv(ws, ss, n);
    assert MovesAt(ws, ss, i);
    TrapStep(ws[i], ss[i], ws[i + 1]);
    if i + 1 < n {
      FrameHeld(ws, ss, ws[i].k.cur, Answered(ws[i].k, ss[i], ws[i].ustacks), i + 1, n);
    }
  }

  // The child of a fork first returns to EL0 with its parent's registers, but for 0 in x0 and
  // the stack pointer moved to its own stack, and with the user stack its parent had.
  lemma ChildReturns(ws: seq<World>, ss: seq<StackEvent>, i: nat, n: nat, t: Pid)
    requires IsStackRun(ws, ss) && i < n < |ws| && Shaped(ws[i]) && ChildOf(ws[i].k, ss[i].e) == t
    requires StaysInKernel(ws, t, i + 1, n) && ws[n].k.at[t] == User
    ensures ws[n].k.cur == t && Complete(ss[i].regs)
    ensures ws[n].el0 == ChildRegisters(ws[i].ustacks, ss[i].regs, ws[i].k.cur, t) && ws[n].el0.x[0] == 0
    ensures Shaped(ws[n]) && UserStack(ws[n].pools, t) == ss[i].ustack
  {
    hide Moves, WorldInv, Holds;
    RunWorldInv(ws, ss, i);
    assert MovesAt(ws, ss, i);
    ChildStep(ws[i], ss[i], ws[i + 1]);
    FrameHeld(ws, ss, t, ChildRegisters(ws[i].ustacks, ss[i].regs, ws[i].k.cur, t), i + 1, n);
  }
}
