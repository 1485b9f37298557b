/**
 The fork and exec system calls from kernel_entry to kernel_exit, on the mutable kernel and its
 stack pools: each is a step of StackRuns.
 */
module Traps {
  import opened Fork
  import opened KernelMachine
  import opened Memory
  import opened SchedulerInvariant
  import opened SchedulerSpec
  import opened Slices
  import opened StackRuns
  import opened TaskTypes
  import opened Words

  // The world is what the mutable kernel and the pools hold.
  ghost predicate Shows(k: Machine, m: Stacks, w: World)
    requires k.Valid()
    reads k, k.Repr, m.kwords, m.ubytes
  {
    w.k == k.Abs() && w.pools == PoolsOf(m) && w.ustacks == m.ustacks
  }

  // kernel_entry leaves the registers on top of the task's kernel stack.
  ghost predicate Entered(before: Pools, after: Pools, id: Pid, tf: nat, r: Registers) {
    Sized(before) && Sized(after) && FrameIn(id, tf) && tf + FRAME_ROOM <= KStackBase(NR_TASKS) &&
    FrameOf(after, tf) == r && after.ubytes == before.ubytes &&
    forall i: Pid :: i != id ==> KernelStack(after, i) == KernelStack(before, i)
  }

  lemma FrameBounds(id: Pid, tf: nat)
    requires FrameIn(id, tf)
    ensures tf + FRAME_ROOM <= KStackBase(NR_TASKS)
  {
  }

  lemma OthersKept(before: Pools, after: Pools, id: Pid, tf: nat)
    requires Sized(before) && Sized(after) && FrameIn(id, tf)
    requires after.kwords[..tf] == before.kwords[..tf]
    requires after.kwords[tf + FRAME_WORDS..] == before.kwords[tf + FRAME_WORDS..]
    ensures forall i: Pid :: i != id ==> KernelStack(after, i) == KernelStack(before, i)
  {
  }

  method Enter(m: Stacks, id: Pid, sp0: nat, r: Registers) returns (tf: nat)
    requires m.Valid() && Complete(r) && sp0 >= FRAME_ROOM && FrameIn(id, sp0 - FRAME_ROOM)
    modifies m.kwords
    ensures tf == sp0 - FRAME_ROOM && Entered(old(PoolsOf(m)), PoolsOf(m), id, tf, r)
  {
    ghost var before := PoolsOf(m);
    FrameBounds(id, sp0 - FRAME_ROOM);
    tf := KernelEntry(m, sp0, r);
    OthersKept(before, PoolsOf(m), id, tf);
  }

  // kernel_exit's loads, when check_resched() and check_signal() have come back to the task.
  method Leave(k: Machine, m: Stacks, tf: nat, id: Pid, r: Registers) returns (el0: Registers)
    requires Separate(k, m) && FrameIn(id, tf) && tf + FRAME_ROOM <= KStackBase(NR_TASKS)
    ensures el0 == if k.cur == id && k.at[id] == User then FrameOf(PoolsOf(m), tf) else r
  {
    el0 := r;
    if k.cur == id && k.at[id] == User {
      var sp;
      el0, sp := KernelExit(m, tf);
    }
  }

  lemma CurrentHasFrame(w: World)
    requires WorldInv(w) && w.k.at[w.k.cur] == User
    ensures FrameIn(w.k.cur, w.tf[w.k.cur])
  {
  }

  lemma TrapIsStep(k: Kernel, call: Call, late: bool)
    requires WellFormed(k)
    ensures Finish(TrapPath(k, call, late)) == Step(k, Trap(call, k.live, late))
  {
  }

  // kernel_entry leads from the pools of w to mid, the fork from there to those of v.
  ghost predicate ForkTrapped(w: World, mid: Pools, v: World, s: StackEvent) {
    WorldInv(w) && WellFormed(v.k) && s.e.Trap? && s.e.call.Fork? && Complete(s.regs) &&
    v.tf == (if NewPid(w.k) < 0 then w.tf else w.tf[NewPid(w.k) := ChildFrame(NewPid(w.k))]) &&
    Entered(w.pools, mid, w.k.cur, w.tf[w.k.cur], s.regs) && s.ustack == UserStack(w.pools, w.k.cur) &&
    ForkReturned(w.ustacks, mid, v.pools, w.tf[w.k.cur], w.k.cur, NewPid(w.k))
  }

  lemma ForkMovesShape(w: World, mid: Pools, v: World, s: StackEvent)
    requires ForkTrapped(w, mid, v, s)
    ensures Shaped(v)
  {
  }

  lemma ForkMovesOther(w: World, mid: Pools, v: World, s: StackEvent, t: Pid)
    requires ForkTrapped(w, mid, v, s)
    requires Shaped(v) && t != w.k.cur && t != ChildOf(w.k, s.e)
    ensures SameStacks(w, v, t)
  {
    hide Inv, ChildRegisters, KStackBase, UStackBase;
  }

  lemma ForkMovesOwn(w: World, mid: Pools, v: World, s: StackEvent)
    requires ForkTrapped(w, mid, v, s)
    requires Shaped(v) && NewPid(w.k) != w.k.cur && Holds(v, w.k.cur, Answered(w.k, s, w.ustacks))
    ensures OwnStacks(w, s, v)
  {
    hide Inv, ChildRegisters, Answered, Holds, KStackBase, UStackBase;
  }

  lemma ForkMovesChild(w: World, mid: Pools, v: World, s: StackEvent)
    requires ForkTrapped(w, mid, v, s) && Shaped(v)
    ensures ChildStacks(w, s, v)
  {
  }

  // The frame of the trap is answered by the parent's result, and by no other change.
  lemma ForkMoves(w: World, mid: Pools, v: World, s: StackEvent)
    requires ForkTrapped(w, mid, v, s) && Enabled(w.k, s.e)
    requires v.ustacks == w.ustacks && v.k == Step(w.k, s.e)
    requires NewPid(w.k) != w.k.cur && Holds(v, w.k.cur, Answered(w.k, s, w.ustacks))
    requires v.k.cur == w.k.cur && v.k.at[w.k.cur] == User ==> Holds(v, w.k.cur, v.el0)
    ensures Moves(w, s, v)
  {
    hide Inv, EventPath, Step, SameStacks, OwnStacks, ChildStacks, Entered, ForkReturned, Holds, Answered;
    ForkMovesShape(w, mid, v, s);
    forall t: Pid | t != w.k.cur && t != ChildOf(w.k, s.e)
      ensures SameStacks(w, v, t)
    {
      ForkMovesOther(w, mid, v, s, t);
    }
    ForkMovesOwn(w, mid, v, s);
    ForkMovesChild(w, mid, v, s);
    if Returns(w.k, s.e) {
      ReturnsStays(w.k, s.e);
    }
  }

  lemma ForkAnswered(w: World, mid: Pools, v: World, s: StackEvent)
    requires WorldInv(w) && Shaped(v) && s.e.Trap? && s.e.call.Fork? && Complete(s.regs)
    requires Entered(w.pools, mid, w.k.cur, w.tf[w.k.cur], s.regs)
    requires v.tf[w.k.cur] == w.tf[w.k.cur] && FrameIn(w.k.cur, w.tf[w.k.cur])
    requires var f := FrameOf(mid, w.tf[w.k.cur]);
             FrameOf(v.pools, w.tf[w.k.cur]) == f.(x := f.x[0 := ResultWord(NewPid(w.k))])
    ensures Holds(v, w.k.cur, Answered(w.k, s, w.ustacks))
  {
    hide Inv, KStackBase;
  }

  // kernel_entry and the handler of the fork system call.
  method EnterFork(k: Machine, m: Stacks, sp0: nat, r: Registers, retToUser: nat, late: bool, ghost w: World)
    returns (tf: nat, ghost pid: int, ghost mid: Pools)
    requires Separate(k, m) && WorldInv(w) && Shows(k, m, w) && Complete(r)
    requires w.k.at[w.k.cur] == User && sp0 == w.tf[w.k.cur] + FRAME_ROOM
    modifies k.Repr, m.kwords, m.ubytes
    ensures Separate(k, m) && k.Abs() == Step(w.k, Trap(Call.Fork(retToUser), w.k.live, late))
    ensures tf == w.tf[w.k.cur] && FrameIn(w.k.cur, tf) && tf + FRAME_ROOM <= KStackBase(NR_TASKS)
    ensures pid == NewPid(w.k) && (pid == -1 || (0 < pid < NR_TASKS && pid != w.k.cur))
    ensures Entered(w.pools, mid, w.k.cur, tf, r)
    ensures ForkReturned(m.ustacks, mid, PoolsOf(m), tf, w.k.cur, pid)
    ensures var f := FrameOf(mid, tf); FrameOf(PoolsOf(m), tf) == f.(x := f.x[0 := ResultWord(pid)])
  {
    hide Inv, Machine.Valid, EventPath, Step, TrapPath, Finish, ForkReturned, KStackBase, WellFormed;
    CurrentHasFrame(w);
    tf := Enter(m, k.cur, sp0, r);
    mid := PoolsOf(m);
    pid := ForkSyscall(k, m, tf, retToUser, late);
    TrapIsStep(w.k, Call.Fork(retToUser), late);
  }

  // The fork system call of an EL0 task with the given registers.
  method ForkTrap(k: Machine, m: Stacks, sp0: nat, r: Registers, retToUser: nat, late: bool, ghost w: World)
    returns (ghost v: World)
    requires Separate(k, m) && WorldInv(w) && Shows(k, m, w) && Complete(r)
    requires w.k.at[w.k.cur] == User && sp0 == w.tf[w.k.cur] + FRAME_ROOM
    modifies k.Repr, m.kwords, m.ubytes
    ensures Separate(k, m) && Shows(k, m, v)
    ensures Moves(w, StackEvent(Trap(Call.Fork(retToUser), w.k.live, late), r, UserStack(w.pools, w.k.cur), Keep), v)
  {
    hide Inv, Machine.Valid, EventPath, Step, Moves, ForkReturned, Answered, ChildFrame, KStackBase, WellFormed;
    var id := k.cur;
    ghost var s := StackEvent(Trap(Call.Fork(retToUser), w.k.live, late), r, UserStack(w.pools, id), Keep);
    ghost var pid, mid;
    var tf;
    tf, pid, mid := EnterFork(k, m, sp0, r, retToUser, late, w);
    var el0 := Leave(k, m, tf, id, r);
    v := World(k.Abs(), PoolsOf(m), m.ustacks, if pid < 0 then w.tf else w.tf[pid := ChildFrame(pid)], el0);
    ForkAnswered(w, mid, v, s);
    ForkMoves(w, mid, v, s);
  }

  // An exec writes its own frame only.
  lemma ExecMoves(w: World, mid: Pools, v: World, s: StackEvent)
    requires WorldInv(w) && s.e.Trap? && s.e.call.Other? && Complete(s.regs) && Enabled(w.k, s.e)
    requires v.ustacks == w.ustacks && v.k == Step(w.k, s.e) && v.tf == w.tf
    requires Entered(w.pools, mid, w.k.cur, w.tf[w.k.cur], s.regs)
    requires Sized(v.pools) && v.pools.ubytes == mid.ubytes
    requires forall i: Pid :: i != w.k.cur ==> KernelStack(v.pools, i) == KernelStack(mid, i)
    requires Holds(v, w.k.cur, Answered(w.k, s, w.ustacks))
    requires v.k.cur == w.k.cur && v.k.at[w.k.cur] == User ==> Holds(v, w.k.cur, v.el0)
    ensures Moves(w, s, v)
  {
  }

  lemma ExecAnswered(w: World, mid: Pools, v: World, s: StackEvent)
    requires WorldInv(w) && Shaped(v) && s.e.Trap? && s.e.call.Other? && s.answer.Enter? && Complete(s.regs)
    requires Entered(w.pools, mid, w.k.cur, w.tf[w.k.cur], s.regs)
    requires v.tf[w.k.cur] == w.tf[w.k.cur] && FrameIn(w.k.cur, w.tf[w.k.cur])
    requires var f := FrameOf(mid, w.tf[w.k.cur]);
             FrameOf(v.pools, w.tf[w.k.cur]) ==
               f.(x := f.x[0 := 0], elr := f.x[0], spEl0 := (w.ustacks + (w.k.cur + 1) * STACK_SIZE) % WORD_LIMIT)
    ensures Holds(v, w.k.cur, Answered(w.k, s, w.ustacks))
  {
    hide Inv, KStackBase;
  }

  // kernel_entry and the handler of the exec system call.
  method EnterExec(k: Machine, m: Stacks, sp0: nat, r: Registers, late: bool, ghost w: World)
    returns (tf: nat, ghost mid: Pools)
    requires Separate(k, m) && WorldInv(w) && Shows(k, m, w) && Complete(r)
    requires w.k.at[w.k.cur] == User && sp0 == w.tf[w.k.cur] + FRAME_ROOM
    modifies k.Repr, m.kwords
    ensures Separate(k, m) && k.Abs() == Step(w.k, Trap(Call.Other, w.k.live, late))
    ensures tf == w.tf[w.k.cur] && FrameIn(w.k.cur, tf) && tf + FRAME_ROOM <= KStackBase(NR_TASKS)
    ensures Entered(w.pools, mid, w.k.cur, tf, r) && Sized(PoolsOf(m)) && PoolsOf(m).ubytes == mid.ubytes
    ensures forall i: Pid :: i != w.k.cur ==> KernelStack(PoolsOf(m), i) == KernelStack(mid, i)
    ensures var f := FrameOf(mid, tf);
            FrameOf(PoolsOf(m), tf) ==
              f.(x := f.x[0 := 0], elr := f.x[0], spEl0 := (m.ustacks + (w.k.cur + 1) * STACK_SIZE) % WORD_LIMIT)
  {
    hide Inv, Machine.Valid, EventPath, Step, TrapPath, Finish, KStackBase, WellFormed;
    CurrentHasFrame(w);
    tf := Enter(m, k.cur, sp0, r);
    mid := PoolsOf(m);
    ExecSyscall(k, m, tf, late);
    TrapIsStep(w.k, Call.Other, late);
    OthersKept(mid, PoolsOf(m), w.k.cur, tf);
  }

  // The exec system call of an EL0 task.
  method ExecTrap(k: Machine, m: Stacks, sp0: nat, r: Registers, late: bool, ghost w: World)
    returns (ghost v: World)
    requires Separate(k, m) && WorldInv(w) && Shows(k, m, w) && Complete(r)
    requires w.k.at[w.k.cur] == User && sp0 == w.tf[w.k.cur] + FRAME_ROOM
    modifies k.Repr, m.kwords
    ensures Separate(k, m) && Shows(k, m, v)
    ensures Moves(w, StackEvent(Trap(Call.Other, w.k.live, late), r, UserStack(w.pools, w.k.cur), StackRuns.Enter), v)
  {
    hide Inv, Machine.Valid, EventPath, Step, Moves, Answered, KStackBase, WellFormed;
    var id := k.cur;
    ghost var s := StackEvent(Trap(Call.Other, w.k.live, late), r, UserStack(w.pools, id), StackRuns.Enter);
    ghost var mid;
    var tf;
    tf, mid := EnterExec(k, m, sp0, r, late, w);
    var el0 := Leave(k, m, tf, id, r);
    v := World(k.Abs(), PoolsOf(m), m.ustacks, w.tf, el0);
    ExecAnswered(w, mid, v, s);
    ExecMoves(w, mid, v, s);
  }
}
