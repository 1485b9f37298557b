/**
 The task structures of include/task.h and the abstract state of the scheduler:
 the pool of task structures, the three run queues as sequences, the current-task
 register, the callee-saved registers of the running task, for each task the point of
 kernel code at which it will continue, and the address of kstack_pool.
 */
module TaskTypes {
  const NR_TASKS: nat := 64
  const STACK_SIZE: nat := 4096
  const SIGKILL: nat := 9

  // The 18 register pairs that kernel_entry pushes.
  const FRAME_SIZE: nat := 16 * 18

  // A task_t pointer is an index into task_pool.
  type Pid = n: nat | n < NR_TASKS

  // 0 is HIGH, 1 is MEDIUM, 2 is LOW.
  type Priority = p: nat | p < 3

  const HIGH: Priority := 0
  const LOW: Priority := 2

  // A sigset_t is a set of bit numbers.
  type Signal = n: nat | n < 64

  datatype TaskState = Free | Runnable | Running | Zombie

  // x19..x28, the frame pointer, the stack pointer and the return address.
  datatype Context = Context(x19to28: seq<nat>, fp: nat, sp: nat, pc: nat)

  const ZERO_CONTEXT := Context([0, 0, 0, 0, 0, 0, 0, 0, 0, 0], 0, 0, 0)

  datatype Task = Task(
    ctx: Context,
    id: nat,
    state: TaskState,
    resched: bool,
    sigpending: bool,
    signal: set<Signal>,
    priority: Priority)

  // What memset(&task_pool[i], 0, sizeof(task_t)) leaves behind.
  const ZERO_TASK := Task(ZERO_CONTEXT, 0, Free, false, false, {}, HIGH)

  // Where a task continues when it next has the processor.
  datatype Point =
    | User        // at EL0
    | Main        // task 0 in main(), before idle()
    | IdleLoop    // task 0 at the top of idle()'s loop
    | IdleHalt    // task 0 in the empty loop that ends idle()
    | ReaperLoop  // at the top of zombie_reaper()'s loop
    | ExecEntry   // at the entry of a kernel function that calls do_exec()
    | ToUser      // at ret_to_user, before check_resched()
    | InResched   // inside check_resched()'s schedule(), before check_signal()
    | Dead        // inside do_exit()'s schedule()

  datatype Kernel = Kernel(
    tasks: seq<Task>,
    rq: seq<seq<Pid>>,
    cur: Pid,
    at: seq<Point>,
    live: Context,
    kstacks: nat)

  predicate WellFormed(k: Kernel) {
    |k.tasks| == NR_TASKS && |k.at| == NR_TASKS && |k.rq| == 3
  }

  // get_kstacktop_by_id
  function KStackTop(kstacks: nat, id: Pid): nat {
    kstacks + (id + 1) * STACK_SIZE
  }

  // The state task_init() leaves for main(), whatever the registers hold.
  function Initial(live: Context, kstacks: nat): (k: Kernel)
    ensures WellFormed(k)
  {
    Kernel(
      seq(NR_TASKS, i => if i == 0 then ZERO_TASK.(state := Running, priority := LOW) else ZERO_TASK),
      [[], [], []],
      0,
      seq(NR_TASKS, i => if i == 0 then Main else Dead),
      live,
      kstacks)
  }
}
