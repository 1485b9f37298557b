/**
 Trap frames of kernel/entry.S and the fork system call of kernel/task.c and
 kernel/syscall.c on the two stack pools.
 */
module Fork {
  import ContextPreservation
  import opened KernelMachine
  import opened Memory
  import SchedulerInvariant
  import Spec = SchedulerSpec
  import opened Slices
  import opened TaskTypes
  import opened Words

  // The 35 words of struct TrapFrame, and the room kernel_entry reserves for them.
  const FRAME_WORDS: nat := 35
  const FRAME_ROOM: nat := 36

  // The word index at which a task's kernel stack starts: STACK_SIZE / 8 words each.
  function KStackBase(id: nat): nat {
    id * 512
  }

  // The same for user stacks, in bytes.
  function UStackBase(id: nat): nat {
    id * 4096
  }

  // get_ustacktop_by_id
  function UStackTop(ustacks: nat, id: Pid): nat {
    ustacks + UStackBase(id + 1)
  }

  // A frame that lies in a task's kernel stack.
  predicate FrameIn(id: Pid, sp: nat) {
    KStackBase(id) <= sp && sp + FRAME_ROOM <= KStackBase(id + 1)
  }

  // The registers of the interrupted EL0 code.
  datatype Registers = Registers(x: seq<U64>, esr: U64, elr: U64, spsr: U64, spEl0: U64)

  predicate Complete(r: Registers) {
    |r.x| == 31
  }

  // struct TrapFrame as words, and back.
  function Encode(r: Registers): (f: seq<U64>)
    requires Complete(r)
    ensures |f| == FRAME_WORDS
  {
    r.x + [r.esr, r.elr, r.spsr, r.spEl0]
  }

  function Decode(f: seq<U64>): (r: Registers)
    requires |f| == FRAME_WORDS
    ensures Complete(r) && Encode(r) == f
  {
    Registers(f[..31], f[31], f[32], f[33], f[34])
  }

  // kstack_pool as 64-bit words and ustack_pool as bytes, with their addresses.
  class Stacks {
    const kwords: array<U64>
    const ubytes: array<Byte>
    const kstacks: nat
    const ustacks: nat

    ghost predicate Valid() {
      kwords.Length == KStackBase(NR_TASKS) && ubytes.Length == UStackBase(NR_TASKS)
    }

    constructor (kstacks: nat, ustacks: nat)
      ensures Valid() && fresh(kwords) && fresh(ubytes)
      ensures this.kstacks == kstacks && this.ustacks == ustacks
    {
      kwords := new U64[KStackBase(NR_TASKS)](_ => 0);
      ubytes := new Byte[UStackBase(NR_TASKS)](_ => 0);
      this.kstacks := kstacks;
      this.ustacks := ustacks;
    }

    // The saved registers at a frame.
    ghost function FrameAt(sp: nat): Registers
      requires sp + FRAME_WORDS <= kwords.Length
      reads kwords
    {
      Decode(kwords[sp..sp + FRAME_WORDS])
    }
  }

  // The first n words of frame f are at sp, every other word is as before.
  ghost predicate Stored(words: seq<U64>, was: seq<U64>, f: seq<U64>, sp: nat, n: nat) {
    n <= |f| && sp + n <= |was| && words == was[..sp] + f[..n] + was[sp + n..]
  }

  lemma StoredNone(was: seq<U64>, f: seq<U64>, sp: nat)
    requires sp <= |was|
    ensures Stored(was, was, f, sp, 0)
  {
  }

  lemma StoredLast(words: seq<U64>, was: seq<U64>, f: seq<U64>, sp: nat)
    requires |f| == FRAME_WORDS && sp + FRAME_WORDS <= |was| && Stored(words, was, f, sp, 34)
    ensures |words| == |was|
    ensures var last := words[sp + 34 := f[34]];
            last[sp..sp + FRAME_WORDS] == f && last[..sp] == was[..sp] &&
            last[sp + FRAME_WORDS..] == was[sp + FRAME_WORDS..]
  {
  }

  // stp
  method StorePair(words: array<U64>, at: nat, a: U64, b: U64,
                   ghost was: seq<U64>, ghost f: seq<U64>, ghost sp: nat)
    requires sp <= at && sp + |f| <= |was| == words.Length && at - sp + 2 <= |f|
    requires a == f[at - sp] && b == f[at - sp + 1]
    requires Stored(words[..], was, f, sp, at - sp)
    modifies words
    ensures Stored(words[..], was, f, sp, at - sp + 2)
  {
    words[at] := a;
    words[at + 1] := b;
    assert f[..at - sp + 2] == f[..at - sp] + [a, b];
  }

  // kernel_entry below sp0: fifteen pairs of x registers, x30 with esr_el1, elr_el1 with
  // spsr_el1, and sp_el0. Every word outside the frame is kept.
  method KernelEntry(m: Stacks, sp0: nat, r: Registers) returns (sp: nat)
    requires m.Valid() && FRAME_ROOM <= sp0 <= m.kwords.Length && Complete(r)
    modifies m.kwords
    ensures sp == sp0 - FRAME_ROOM && m.FrameAt(sp) == r
    ensures m.kwords[sp..sp + 31] == r.x
    ensures m.kwords[sp + 31] == r.esr && m.kwords[sp + 32] == r.elr && m.kwords[sp + 33] == r.spsr
    ensures m.kwords[sp + 34] == r.spEl0
    ensures m.kwords[..sp] == old(m.kwords[..sp])
    ensures m.kwords[sp + FRAME_WORDS..] == old(m.kwords[sp + FRAME_WORDS..])
  {
    hide Stored;
    sp := sp0 - FRAME_ROOM;
    ghost var was, f := m.kwords[..], Encode(r);
    StoredNone(was, f, sp);
    for i := 0 to 15
      invariant Stored(m.kwords[..], was, f, sp, 2 * i)
    {
      StorePair(m.kwords, sp + 2 * i, r.x[2 * i], r.x[2 * i + 1], was, f, sp);
    }
    StorePair(m.kwords, sp + 30, r.x[30], r.esr, was, f, sp);
    StorePair(m.kwords, sp + 32, r.elr, r.spsr, was, f, sp);
    StoredLast(m.kwords[..], was, f, sp);
    m.kwords[sp + 34] := r.spEl0;
  }

  // kernel_exit's loads.
  method KernelExit(m: Stacks, sp: nat) returns (r: Registers, sp0: nat)
    requires m.Valid() && sp + FRAME_ROOM <= m.kwords.Length
    ensures r == m.FrameAt(sp) && sp0 == sp + FRAME_ROOM
  {
    var x: seq<U64> := [];
    for i := 0 to 15
      invariant x == m.kwords[sp..sp + 2 * i]
    {
      x := x + [m.kwords[sp + 2 * i], m.kwords[sp + 2 * i + 1]];
    }
    x := x + [m.kwords[sp + 30]];
    r := Registers(x, m.kwords[sp + 31], m.kwords[sp + 32], m.kwords[sp + 33], m.kwords[sp + 34]);
    assert Encode(r) == m.kwords[sp..sp + FRAME_WORDS];
    sp0 := sp + FRAME_ROOM;
  }

  // ---- fork ----

  // The registers a child starts with: the parent's, but 0 in x0 and the user stack
  // pointer moved by the distance of the two stacks.
  function ChildRegisters(ustacks: nat, r: Registers, parent: Pid, child: Pid): (c: Registers)
    requires Complete(r)
    ensures Complete(c)
  {
    r.(x := r.x[0 := 0],
       spEl0 := (UStackTop(ustacks, child) + (r.spEl0 - UStackTop(ustacks, parent))) % WORD_LIMIT)
  }

  function ChildFrame(child: Pid): nat {
    KStackBase(child + 1) - FRAME_ROOM
  }

  // *tf_new = *tf
  method CopyFrame(words: array<U64>, dst: nat, src: nat)
    requires dst + FRAME_WORDS <= words.Length && src + FRAME_WORDS <= words.Length
    requires src + FRAME_WORDS <= dst || dst + FRAME_WORDS <= src
    modifies words
    ensures words[dst..dst + FRAME_WORDS] == old(words[src..src + FRAME_WORDS])
    ensures forall i :: 0 <= i < words.Length && !(dst <= i < dst + FRAME_WORDS) ==> words[i] == old(words[i])
  {
    for n := 0 to FRAME_WORDS
      invariant forall i :: dst <= i < dst + n ==> words[i] == old(words[src + (i - dst)])
      invariant forall i :: 0 <= i < words.Length && !(dst <= i < dst + n) ==> words[i] == old(words[i])
    {
      words[dst + n] := words[src + n];
    }
  }

  lemma PatchedFrame(ustacks: nat, f: seq<U64>, g: seq<U64>, parent: Pid, child: Pid)
    requires |f| == |g| == FRAME_WORDS && forall i :: 1 <= i < 34 ==> g[i] == f[i]
    requires g[0] == 0 && g[34] == (UStackTop(ustacks, child) + (f[34] - UStackTop(ustacks, parent))) % WORD_LIMIT
    ensures Decode(g) == ChildRegisters(ustacks, Decode(f), parent, child)
  {
  }

  lemma StacksApart(m: Stacks, tf: nat, parent: Pid, child: Pid)
    requires m.Valid() && FrameIn(parent, tf) && parent != child
    ensures ChildFrame(child) + FRAME_ROOM <= m.kwords.Length && FrameIn(child, ChildFrame(child))
    ensures tf + FRAME_ROOM <= m.kwords.Length
    ensures tf + FRAME_ROOM <= ChildFrame(child) || ChildFrame(child) + FRAME_ROOM <= tf
  {
  }

  method FillChildFrame(m: Stacks, tf: nat, parent: Pid, child: Pid)
    requires m.Valid() && FrameIn(parent, tf) && parent != child
    modifies m.kwords
    ensures m.FrameAt(ChildFrame(child)) == ChildRegisters(m.ustacks, old(m.FrameAt(tf)), parent, child)
    ensures m.FrameAt(tf) == old(m.FrameAt(tf))
    ensures forall i :: 0 <= i < m.kwords.Length && !(ChildFrame(child) <= i < ChildFrame(child) + FRAME_WORDS) ==>
              m.kwords[i] == old(m.kwords[i])
  {
    hide Decode, KStackBase;
    var tfNew := ChildFrame(child);
    StacksApart(m, tf, parent, child);
    CopyFrame(m.kwords, tfNew, tf);
    ghost var copied := m.kwords[..];
    m.kwords[tfNew] := 0;
    m.kwords[tfNew + 34] :=
      (UStackTop(m.ustacks, child) + (m.kwords[tf + 34] - UStackTop(m.ustacks, parent))) % WORD_LIMIT;
    PatchedFrame(m.ustacks, copied[tfNew..tfNew + FRAME_WORDS], m.kwords[tfNew..tfNew + FRAME_WORDS], parent, child);
    assert m.kwords[tf..tf + FRAME_WORDS] == old(m.kwords[tf..tf + FRAME_WORDS]);
  }

  // The contents of the two pools.
  datatype Pools = Pools(kwords: seq<U64>, ubytes: seq<Byte>)

  ghost function PoolsOf(m: Stacks): Pools
    reads m.kwords, m.ubytes
  {
    Pools(m.kwords[..], m.ubytes[..])
  }

  predicate Sized(p: Pools) {
    |p.kwords| == KStackBase(NR_TASKS) && |p.ubytes| == UStackBase(NR_TASKS)
  }

  function UserStack(p: Pools, id: Pid): seq<Byte>
    requires Sized(p)
  {
    p.ubytes[UStackBase(id)..UStackBase(id + 1)]
  }

  function KernelStack(p: Pools, id: Pid): seq<U64>
    requires Sized(p)
  {
    p.kwords[KStackBase(id)..KStackBase(id + 1)]
  }

  // The registers in a frame of a task's kernel stack, at a word index of the pool.
  function FrameOf(p: Pools, sp: nat): Registers
    requires Sized(p) && sp + FRAME_ROOM <= KStackBase(NR_TASKS)
  {
    Decode(p.kwords[sp..sp + FRAME_WORDS])
  }

  // What a fork does to the pools: the child gets a copy of the parent's user stack and the
  // frame of ChildRegisters, and every other task keeps both of its stacks.
  ghost predicate Forked(ustacks: nat, before: Pools, after: Pools, tf: nat, parent: Pid, child: Pid) {
    Sized(before) && Sized(after) && tf + FRAME_ROOM <= KStackBase(NR_TASKS) &&
    FrameOf(after, ChildFrame(child)) == ChildRegisters(ustacks, FrameOf(before, tf), parent, child) &&
    UserStack(after, child) == UserStack(before, parent) &&
    (forall i: Pid :: i != child ==> UserStack(after, i) == UserStack(before, i)) &&
    (forall i: Pid :: i != child ==> KernelStack(after, i) == KernelStack(before, i))
  }

  lemma UserStacksKept(before: Pools, after: Pools, child: Pid)
    requires Sized(before) && Sized(after)
    requires after.ubytes[..UStackBase(child)] == before.ubytes[..UStackBase(child)]
    requires after.ubytes[UStackBase(child + 1)..] == before.ubytes[UStackBase(child + 1)..]
    ensures forall i: Pid :: i != child ==> UserStack(after, i) == UserStack(before, i)
  {
  }

  // do_fork's memcpy of the user stack.
  method CopyUserStack(m: Stacks, parent: Pid, child: Pid)
    requires m.Valid() && parent != child
    modifies m.ubytes
    ensures UserStack(PoolsOf(m), child) == old(UserStack(PoolsOf(m), parent))
    ensures forall i: Pid :: i != child ==> UserStack(PoolsOf(m), i) == old(UserStack(PoolsOf(m), i))
  {
    ghost var before := PoolsOf(m);
    Memmove(m.ubytes, UStackBase(child), UStackBase(parent), STACK_SIZE);
    UserStacksKept(before, PoolsOf(m), child);
  }

  lemma KernelStacksKept(before: Pools, after: Pools, child: Pid)
    requires Sized(before) && Sized(after)
    requires forall i :: 0 <= i < |before.kwords| && !(ChildFrame(child) <= i < ChildFrame(child) + FRAME_WORDS) ==>
               after.kwords[i] == before.kwords[i]
    ensures forall i: Pid :: i != child ==> KernelStack(after, i) == KernelStack(before, i)
  {
  }

  ghost predicate Separate(k: Machine, m: Stacks)
    reads k, k.Repr
  {
    k.Valid() && m.Valid() && m.kstacks == k.kstacks && m.kwords as object !in k.Repr && m.ubytes as object !in k.Repr
  }

  lemma ChildStart(k: Kernel, retToUser: nat)
    requires WellFormed(k) && Spec.NewPid(k) >= 0
    ensures var t := Spec.ForkTask(k, retToUser).tasks[Spec.NewPid(k)];
            t.ctx.pc == retToUser && t.ctx.sp == k.kstacks + ChildFrame(Spec.NewPid(k)) * 8
  {
  }

  // The copies of do_fork.
  method CopyToChild(m: Stacks, tf: nat, parent: Pid, child: Pid)
    requires m.Valid() && FrameIn(parent, tf) && parent != child
    modifies m.kwords, m.ubytes
    ensures Forked(m.ustacks, old(PoolsOf(m)), PoolsOf(m), tf, parent, child)
  {
    ghost var before := PoolsOf(m);
    StacksApart(m, tf, parent, child);
    CopyUserStack(m, parent, child);
    FillChildFrame(m, tf, parent, child);
    KernelStacksKept(before, PoolsOf(m), child);
  }

  // do_fork: the parent's trap frame is at tf.
  method DoFork(k: Machine, m: Stacks, tf: nat, retToUser: nat) returns (pid: int)
    requires Separate(k, m) && SchedulerInvariant.Inv(k.Abs()) && FrameIn(k.cur, tf)
    modifies k.Repr, m.kwords, m.ubytes
    ensures Separate(k, m) && k.Abs() == Spec.ForkTask(old(k.Abs()), retToUser)
    ensures pid == Spec.NewPid(old(k.Abs()))
    ensures pid == -1 || (0 < pid < NR_TASKS && pid != old(k.cur))
    ensures if pid == -1 then PoolsOf(m) == old(PoolsOf(m))
            else Forked(m.ustacks, old(PoolsOf(m)), PoolsOf(m), tf, old(k.cur), pid)
    ensures pid != -1 ==> k.Abs().tasks[pid].ctx.pc == retToUser
    ensures pid != -1 ==> k.Abs().tasks[pid].ctx.sp == m.kstacks + ChildFrame(pid) * 8
  {
    hide SchedulerInvariant.Inv, Forked, Machine.Valid;
    ghost var was := k.Abs();
    var cur := k.cur;
    ContextPreservation.ForkResult(was);
    pid := k.ForkTask(retToUser);
    if pid < 0 {
      return -1;
    }
    ChildStart(was, retToUser);
    CopyToChild(m, tf, cur, pid);
  }

  // The value of x[0] that syscall_handler stores for a result.
  function ResultWord(r: int): U64
    requires -1 <= r < NR_TASKS
  {
    if r < 0 then WORD_LIMIT + r else r
  }

  // As a signed number it is the result itself.
  lemma ResultWordMeans(r: int)
    requires -1 <= r < NR_TASKS
    ensures Int64(ResultWord(r)) == r
  {
  }

  // One word of a task's kernel stack is stored, and nothing else.
  ghost predicate StoredWord(before: Pools, after: Pools, id: Pid, at: nat, word: U64)
    requires Sized(before) && Sized(after) && KStackBase(id) <= at < KStackBase(id + 1)
  {
    after.ubytes == before.ubytes &&
    KernelStack(after, id) == KernelStack(before, id)[at - KStackBase(id) := word] &&
    forall i: Pid :: i != id ==> KernelStack(after, i) == KernelStack(before, i)
  }

  lemma OneWordStored(before: Pools, after: Pools, id: Pid, at: nat, word: U64)
    requires Sized(before) && Sized(after) && KStackBase(id) <= at < KStackBase(id + 1)
    requires after == before.(kwords := before.kwords[at := word])
    ensures StoredWord(before, after, id, at, word)
  {
  }

  // A fork leaves the parent's own frame alone: it lies in the parent's kernel stack.
  lemma FrameKept(before: Pools, after: Pools, tf: nat, parent: Pid)
    requires Sized(before) && Sized(after) && KStackBase(parent) <= tf && tf + FRAME_ROOM <= KStackBase(parent + 1)
    requires KernelStack(after, parent) == KernelStack(before, parent)
    ensures tf + FRAME_ROOM <= KStackBase(NR_TASKS) && FrameOf(after, tf) == FrameOf(before, tf)
  {
    var lo, hi := KStackBase(parent), KStackBase(parent + 1);
    Agree(after.kwords, before.kwords, lo, hi, tf, tf + FRAME_WORDS);
  }

  // What a fork trap leaves of the pools: the child starts on a copy of the parent, the parent
  // finds the result in x0, and no other word of another task's stacks or of the parent's own
  // has changed.
  ghost predicate ForkReturned(ustacks: nat, before: Pools, after: Pools, tf: nat, parent: Pid, pid: int) {
    Sized(before) && Sized(after) && FrameIn(parent, tf) && -1 <= pid < NR_TASKS &&
    KernelStack(after, parent) == KernelStack(before, parent)[tf - KStackBase(parent) := ResultWord(pid)] &&
    (forall i: Pid :: i != pid ==> UserStack(after, i) == UserStack(before, i)) &&
    (forall i: Pid :: i != pid && i != parent ==> KernelStack(after, i) == KernelStack(before, i)) &&
    (pid >= 0 ==> tf + FRAME_ROOM <= KStackBase(NR_TASKS) &&
                  FrameOf(after, ChildFrame(pid)) == ChildRegisters(ustacks, FrameOf(before, tf), parent, pid) &&
                  UserStack(after, pid) == UserStack(before, parent))
  }

  lemma FrameUpdated(before: Pools, after: Pools, tf: nat, word: U64)
    requires Sized(before) && Sized(after) && tf + FRAME_ROOM <= KStackBase(NR_TASKS)
    requires after.kwords == before.kwords[tf := word]
    ensures var f := FrameOf(before, tf); FrameOf(after, tf) == f.(x := f.x[0 := word])
  {
  }

  lemma ForkKeepsParent(ustacks: nat, before: Pools, forked: Pools, tf: nat, parent: Pid, r: int)
    requires FrameIn(parent, tf) && -1 <= r < NR_TASKS && r != parent && Sized(before)
    requires if r == -1 then forked == before else Forked(ustacks, before, forked, tf, parent, r)
    ensures Sized(forked) && tf + FRAME_ROOM <= KStackBase(NR_TASKS) && FrameOf(forked, tf) == FrameOf(before, tf)
  {
    FrameKept(before, forked, tf, parent);
  }

  lemma ChildFrameIn(child: Pid)
    ensures FrameIn(child, ChildFrame(child))
  {
  }

  // Storing the result in the parent's frame touches nothing that the fork has set up.
  lemma ReturnedFrom(ustacks: nat, before: Pools, forked: Pools, after: Pools, tf: nat, parent: Pid, r: int)
    requires FrameIn(parent, tf) && -1 <= r < NR_TASKS && r != parent
    requires Sized(before) && Sized(forked) && Sized(after)
    requires if r == -1 then forked == before else Forked(ustacks, before, forked, tf, parent, r)
    requires StoredWord(forked, after, parent, tf, ResultWord(r))
    ensures ForkReturned(ustacks, before, after, tf, parent, r)
  {
    hide KStackBase, ResultWord, Decode, ChildRegisters;
    if r != -1 {
      ChildFrameIn(r);
      FrameKept(forked, after, ChildFrame(r), r);
    }
  }

  // tf->x[0] = ret
  method StoreResult(m: Stacks, tf: nat, parent: Pid, r: int, ghost before: Pools)
    requires m.Valid() && FrameIn(parent, tf) && -1 <= r < NR_TASKS && r != parent
    requires Sized(before)
    requires if r == -1 then PoolsOf(m) == before else Forked(m.ustacks, before, PoolsOf(m), tf, parent, r)
    modifies m.kwords
    ensures ForkReturned(m.ustacks, before, PoolsOf(m), tf, parent, r)
    ensures tf + FRAME_ROOM <= KStackBase(NR_TASKS)
    ensures var f := FrameOf(before, tf);
            FrameOf(PoolsOf(m), tf) == f.(x := f.x[0 := ResultWord(r)])
  {
    hide Forked, ForkReturned, StoredWord, ResultWord;
    ghost var forked := PoolsOf(m);
    ForkKeepsParent(m.ustacks, before, forked, tf, parent, r);
    m.kwords[tf] := ResultWord(r);
    OneWordStored(forked, PoolsOf(m), parent, tf, ResultWord(r));
    FrameUpdated(forked, PoolsOf(m), tf, ResultWord(r));
    ReturnedFrom(m.ustacks, before, forked, PoolsOf(m), tf, parent, r);
  }

  // The whole fork trap of an EL0 task: do_fork, the result in the parent's frame, and the
  // way out through kernel_exit.
  method ForkSyscall(k: Machine, m: Stacks, tf: nat, retToUser: nat, late: bool) returns (ghost pid: int)
    requires Separate(k, m) && SchedulerInvariant.Inv(k.Abs()) && FrameIn(k.cur, tf)
    modifies k.Repr, m.kwords, m.ubytes
    ensures Separate(k, m)
    ensures k.Abs() == Spec.Finish(Spec.TrapPath(old(k.Abs()), Spec.Fork(retToUser), late))
    ensures pid == Spec.NewPid(old(k.Abs())) && (pid == -1 || (0 < pid < NR_TASKS && pid != old(k.cur)))
    ensures ForkReturned(m.ustacks, old(PoolsOf(m)), PoolsOf(m), tf, old(k.cur), pid)
    ensures tf + FRAME_ROOM <= KStackBase(NR_TASKS)
    ensures var f := old(FrameOf(PoolsOf(m), tf));
            FrameOf(PoolsOf(m), tf) == f.(x := f.x[0 := ResultWord(pid)])
  {
    hide SchedulerInvariant.Inv, Forked, ForkReturned, Machine.Valid, Spec.ForkTask, Spec.ExitPath;
    var parent := k.cur;
    var r := DoFork(k, m, tf, retToUser);
    pid := r;
    StoreResult(m, tf, parent, r, old(PoolsOf(m)));
    k.ExitPath(late);
  }

  method EnterAt(m: Stacks, tf: nat, id: Pid)
    requires m.Valid() && FrameIn(id, tf)
    modifies m.kwords
    ensures tf + FRAME_ROOM <= KStackBase(NR_TASKS)
    ensures var f := old(FrameOf(PoolsOf(m), tf));
            FrameOf(PoolsOf(m), tf) ==
              f.(x := f.x[0 := ResultWord(0)], elr := f.x[0], spEl0 := UStackTop(m.ustacks, id) % WORD_LIMIT)
    ensures forall i :: 0 <= i < m.kwords.Length && !(tf <= i < tf + FRAME_WORDS) ==> m.kwords[i] == old(m.kwords[i])
  {
    ghost var f := m.kwords[tf..tf + FRAME_WORDS];
    var top: U64 := UStackTop(m.ustacks, id) % WORD_LIMIT;
    m.kwords[tf + 32] := m.kwords[tf];
    m.kwords[tf + 34] := top;
    m.kwords[tf] := 0;
    ghost var g := m.kwords[tf..tf + FRAME_WORDS];
    assert g[0] == 0 && g[32] == f[0] && g[34] == top;
    assert forall i :: 1 <= i < 31 ==> g[i] == f[i];
    assert g[..31] == f[..31][0 := ResultWord(0)];
  }

  // The exec trap: sys_exec, the result in the frame, and the way out. The task returns to
  // the address it passed, with an empty user stack; nobody else's frame changes.
  method ExecSyscall(k: Machine, m: Stacks, tf: nat, late: bool)
    requires Separate(k, m) && SchedulerInvariant.Inv(k.Abs()) && FrameIn(k.cur, tf)
    modifies k.Repr, m.kwords
    ensures Separate(k, m) && tf + FRAME_ROOM <= KStackBase(NR_TASKS)
    ensures k.Abs() == Spec.Finish(Spec.TrapPath(old(k.Abs()), Spec.Other, late))
    ensures var f := old(FrameOf(PoolsOf(m), tf));
            FrameOf(PoolsOf(m), tf) ==
              f.(x := f.x[0 := 0], elr := f.x[0],
                 spEl0 := (m.ustacks + (old(k.cur) + 1) * STACK_SIZE) % WORD_LIMIT)
    ensures forall i :: 0 <= i < m.kwords.Length && !(tf <= i < tf + FRAME_WORDS) ==> m.kwords[i] == old(m.kwords[i])
  {
    hide SchedulerInvariant.Inv, Machine.Valid, Spec.ExitPath;
    EnterAt(m, tf, k.cur);
    k.ExitPath(late);
  }

  // A stack pointer inside the parent's user stack becomes the one at the same place of the
  // child's.
  lemma ChildStackPointer(ustacks: nat, r: Registers, parent: Pid, child: Pid)
    requires Complete(r) && ustacks + NR_TASKS * STACK_SIZE < WORD_LIMIT
    requires ustacks + parent * STACK_SIZE <= r.spEl0 <= ustacks + (parent + 1) * STACK_SIZE
    ensures ChildRegisters(ustacks, r, parent, child).spEl0 - (ustacks + child * STACK_SIZE) ==
            r.spEl0 - (ustacks + parent * STACK_SIZE)
  {
  }
}
