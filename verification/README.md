# Verification of the NCTUOS kernel core

A Dafny model of five parts of a small single-core AArch64 kernel, with proofs of what
holds over all inputs and all runs.

**Scheduler and task life cycle.** `TaskTypes` and `SchedulerSpec` describe the task pool,
the three run queues and the kernel paths as functions on a state; `SchedulerInvariant` proves
the global invariant, and `SchedulerRuns`, `ContextPreservation`, `KillSafety` and
`PriorityAndReaping` prove theorems about whole runs; `EventOutcomes` says what each event does by the
fields of the state alone. Kernel code is not preempted
(`check_resched` runs on the way to EL0 only), so an event is one kernel path up to its call of
`schedule()` or its return to EL0; timer ticks are events of their own, and the flag `late`
of an event lets one arrive in the middle of the exit path. Each suspended task has a
continuation point. `RunQueues` and `KernelMachine` are the code on its own data, 65-slot rings
and an array of task structures, each method proved to compute the function of the specification.
`Fork` adds trap frames and the two stack pools, `Memory` the copy routine. `StackRuns` follows frames
and user stacks over whole runs, and `Traps` shows that the fork and exec system calls on the mutable
kernel are steps of such runs.

**UART driver.** `UartSpec` is the protocol between a thread, in micro-steps, and an interrupt
handler that may run to completion between any two of them, with a hardware that decides which
interrupts are raised, which bytes arrive and how much room there is; `UartCalls` proves what a call
of read or write returns and that it ends. `UartMachine` is the driver
on its rings and its mask register.

**Formatter.** `FormatSpec` is the text a format stands for, `Formatter` the goto-driven code and
`Output` its two character sinks; `FormatTheorems` and `NumberParsing` prove what the text means and
that `strtol` reads it back, `Timestamp` joins it to the clock arithmetic.

**Loader.** `Crc` and `Loader` are the checksum, the layout of the loaded image and the copy onto
its final address. `Slices` holds two facts about sequences, `Words` the types that several parts share.

Where comments and code of the repository disagree, the model follows the code: the formatter pads
strings too (`lib/printfmt.c:11-12`), its `-` flag fills numbers on the left with `-`
(`lib/printfmt.c:108-111`), and the print buffer is flushed at 255 characters (`lib/printf.c:5`).

Environment: the results of `uart_write` and `pl011_uart_read` follow an arbitrary finite pattern of
partial transfers, after which everything is transferred; variadic arguments are an arbitrary stream of
64-bit words, pointers among them denoting arbitrary C strings shorter than 2^31.

## Model

| member | source | states |
|---|---|---|
| SchedulerInvariant.InitialInv | kernel/task.c:14-29 | The state left by `task_init` satisfies the global invariant |
| SchedulerInvariant.StepInv | kernel/sched.c:6-27 | Every kernel path (creation, fork, exec, exit, kill, tick, reaper scan, idle iteration, return to EL0) keeps the invariant: the current task is the only RUNNING one, each RUNNABLE task is in exactly one queue slot, that of its priority, nothing else is queued, slot 0 is never FREE or ZOMBIE, free slots are zero up to signals, `sigpending` holds exactly when `signal` is non-empty |
| SchedulerInvariant.RunInv | kernel/task.c:34-206 | The invariant holds in every state of every run |
| SchedulerInvariant.NumRunnableIsCount | kernel/task.c:199-206 | `num_runnable_tasks` is the number of RUNNABLE slots of the pool |
| SchedulerInvariant.QueuesNeverFull | kernel/task.c:79-101 | By pigeonhole over the pool, the three queues together hold at most 63 tasks |
| SchedulerInvariant.ScheduleExact | kernel/sched.c:6-27 | Inside the invariant `schedule` is a requeue without drop followed by a dispatch without discard, and it restores the invariant even when the caller has just died |
| SchedulerRuns.PushNeverDrops | kernel/task.c:79-84 | The silent-drop branch of `runqueue_push` is unreachable at every push of every run |
| SchedulerRuns.ScheduleNeverFallsThrough | kernel/sched.c:13-26 | No early return of `schedule` is taken and its discard loop discards nothing: each call dispatches the head of the first non-empty queue |
| SchedulerRuns.ExitNeverReturns | kernel/task.c:181-185 | After `do_exit`'s `schedule` the dead task is never current again before its slot has been wiped |
| SchedulerRuns.DeathSwitchesAway | kernel/task.c:181-185 | The `schedule` of a dying task always switches to another task |
| SchedulerRuns.BoundedWaiting | kernel/sched.c:13-26 | A task with j entries ahead of it in `rq[HIGH]` moves up by exactly one with each call of `schedule` and is current after exactly the (j+1)-th, whatever is interleaved |
| SchedulerRuns.HighNeverStarves | kernel/sched.c:6-27 | A RUNNABLE HIGH task has run before `schedule` has been called 63 times |
| SchedulerRuns.TickIsConsumed | kernel/task.c:123-129 | A pending resched flag makes the next trap of an EL0 task reschedule and is used up by it |
| SchedulerRuns.IdleStopsExactly | kernel/test_case.c:57-64 | `idle` leaves its loop exactly when one slot is RUNNABLE |
| EventOutcomes.DiesExactlyWhen | kernel/signal.c:5-16 | For every event and every task that is no zombie: it becomes one exactly when it is the current task and calls exit or comes to `check_signal` with SIGKILL among its signals, the one just sent included |
| EventOutcomes.GoesBackToUser | kernel/entry.S:28-57 | A task that comes to `check_signal` without SIGKILL is back at EL0 in that very event, and nobody is scheduled |
| EventOutcomes.HealthyLives | kernel/signal.c:5-16 | Over every run a task that neither exits nor is sent SIGKILL stays alive |
| EventOutcomes.SchedulesExactlyWhen | kernel/task.c:123-129 | `schedule` is called exactly by a dying task, with a tick pending on the way out, by the reaper, and by idle unless one task is RUNNABLE |
| EventOutcomes.CurrentTaskExactly | kernel/signal.c:5-24 | The record of the current task behind any event: its state, its flags and its signals |
| EventOutcomes.SignalsExactly | kernel/signal.c:18-24 | Every signal sent arrives, and none comes from elsewhere or gets lost before the slot is wiped |
| EventOutcomes.EmptySignalCleared | kernel/signal.c:13-15 | In any state, a pending flag without a signal is cleared on the way to EL0 |
| EventOutcomes.RegistersExactly | kernel/switch_to.S:2-21 | A call of `schedule` saves the registers its caller came into the kernel with and loads those saved for the task chosen |
| EventOutcomes.ScheduleExactly | kernel/sched.c:6-27 | A caller that is alive goes to the tail of the queue of its priority, and the head of the first queue that is not empty becomes RUNNING and current; nothing else moves |
| EventOutcomes.SchedulesTheBest | kernel/sched.c:13-19 | No RUNNABLE task has a higher priority than the one `schedule` has chosen, between all three levels |
| EventOutcomes.DropStaleExactly | kernel/sched.c:19-23 | In any state, the discard loop drops the longest prefix without a RUNNABLE task |
| EventOutcomes.QueuesExactly | kernel/task.c:30-56 | A path queues the task it creates, if a slot is free, at the tail of the queue of its priority, HIGH for a fork, and moves nothing else in the queues |
| EventOutcomes.ForkedTaskExactly | kernel/task.c:152-179 | A forked task is RUNNABLE, HIGH and without a resched flag, with its slot as its id |
| EventOutcomes.ForkedRunsInTurn | kernel/task.c:152-179 | Over every run a forked task is current after exactly one call of `schedule` more than there were tasks in `rq[HIGH]` at the fork, counted from the trap, and waits until then |
| EventOutcomes.NeverStuck | kernel/syscall.c:10-46 | Unless idle has halted, the current task always has an event to go on with; at EL0 it can trap for anything |
| ContextPreservation.SuspendedContext | kernel/switch_to.S:2-21 | While a task is suspended nothing writes its saved registers or its continuation point, and the step that resumes it loads exactly those registers |
| ContextPreservation.SwitchOutSaves | kernel/switch_to.S:3-10 | The step that suspends a task stores the registers it had at the call |
| ContextPreservation.SelfSwitchKeepsRegisters | kernel/switch_to.S:2-21 | When `schedule` picks its caller, no register changes |
| ContextPreservation.ResumesWithSavedRegisters | kernel/switch_to.S:2-21 | Over any run: switched out, later switched in again, the registers and the continuation point are the ones of the switch-out |
| ContextPreservation.FirstRunRegisters | kernel/task.c:47-51 | A created task first runs with zero registers but for its entry point and the top of its own kernel stack |
| ContextPreservation.FirstRunRegistersOfChild | kernel/task.c:164-168 | A forked task first runs at `ret_to_user` on the frame at the top of its kernel stack |
| ContextPreservation.ForkResult | kernel/task.c:152-179 | Fork fails exactly when no slot is free; otherwise its result is the lowest free slot, which is never 0 nor the parent |
| KillSafety.KillCondemns | kernel/signal.c:18-24 | SIGKILL condemns its target at once exactly when it is a slot in use that is not inside a kernel task (idle, reaper, or before its `do_exec`) |
| KillSafety.CondemnedStep | kernel/signal.c:5-16 | A condemned task stays condemned until its slot is wiped, through every event and from every continuation point |
| KillSafety.CondemnedForever | kernel/entry.S:28-58 | Over whole runs a condemned task is never at EL0 again before its slot is wiped |
| KillSafety.MarkedBeforeExec | kernel/task.c:111-121 | The exception is real and bounded: a task marked before its `do_exec` reaches EL0, and its next trap condemns it |
| KillSafety.CleanStep | kernel/signal.c:18-24 | Free slots stay clean under an event if and only if the event is not a kill of a free slot |
| KillSafety.NewTasksStartClean | kernel/task.c:34-56 | In runs whose kills name slots in use every new task starts without pending signal and resched flag |
| KillSafety.StaleSignalIsInherited | kernel/signal.c:18-24 | A SIGKILL to a free slot marks the next task created there; a forked one is condemned from the start |
| PriorityAndReaping.HighStep | kernel/sched.c:13-19 | While a HIGH task lives, a call of `schedule` selects a HIGH task |
| PriorityAndReaping.StrictPriority | kernel/sched.c:13-19 | With a HIGH task that does not exit, every state behind the first call of `schedule` has a HIGH current task |
| PriorityAndReaping.ReaperStep | kernel/task.c:187-197 | A reaper never dies, not even of SIGKILL |
| PriorityAndReaping.BootStep | kernel/main.c:20-24 | Each event of the boot is enabled in its turn and leads to the next phase, without a call of `schedule` |
| PriorityAndReaping.BootPhases | kernel/main.c:15-24 | In every run from the state of `task_init` whose events other than timer ticks start like `main`, wherever ticks come in: after the two creations the user task and the reaper are queued in this order, and behind them idle waits with the reaper alive |
| PriorityAndReaping.BootNeverHalts | kernel/main.c:9-25 | In all these runs idle never takes its exit, and from the first call of `schedule` on the current task is HIGH and never task 0 |
| PriorityAndReaping.IdleNeverReturns | kernel/test_case.c:57-67 | With the reaper at work idle never takes its one-runnable-task exit, and task 0 is never current again after any call of `schedule` |
| PriorityAndReaping.ReclaimedInTime | kernel/task.c:187-197 | If the reaper is due with the j-th call of `schedule`, a zombie is wiped at the latest in the path that makes the (j+1)-th |
| PriorityAndReaping.ExitedSlotIsReclaimed | kernel/task.c:181-197 | A task that exits behind j tasks ahead of the reaper has its slot zeroed at the latest in the path making the (j+2)-th call, counting its own |
| RunQueues.RunQueue.Push | kernel/task.c:79-84 | The 65-slot ring appends, or drops silently when it holds 64 tasks |
| RunQueues.RunQueue.Pop | kernel/task.c:86-93 | The ring removes its oldest entry, or reports that there is none |
| RunQueues.RunQueue.Size | kernel/task.c:103-109 | The size computed from head and tail is the number of queued tasks in both wrap cases |
| KernelMachine.Machine.Schedule | kernel/sched.c:6-27 | The imperative `schedule` on pool, rings and registers computes the specified state |
| KernelMachine.Machine.PopNext | kernel/sched.c:19-23 | The pop loop drops exactly the stale prefix of its queue |
| KernelMachine.Machine.SwitchTo | kernel/switch_to.S:2-21 | Save, load and change of the current task, in the self-switch case too |
| KernelMachine.Machine.Create | kernel/task.c:34-56 | The lowest free slot is filled and queued, or -1 is returned and nothing changes |
| KernelMachine.Machine.Reap | kernel/task.c:187-194 | The scan wipes every zombie and nothing else |
| KernelMachine.Machine.ExitPath | kernel/entry.S:28-33 | `check_resched`, then `check_signal`, on the way to EL0 |
| KernelMachine.Machine.CheckSignal | kernel/signal.c:5-16 | All four outcomes of `check_signal` |
| KernelMachine.Machine.Step | kernel/syscall.c:10-46 | Every event on the mutable kernel computes the specified step |
| KernelMachine.Machine.Run | kernel/test_case.c:57-64 | Any sequence of events on the mutable kernel is a run of the specification that keeps the invariant |
| Fork.KernelEntry | kernel/entry.S:3-26 | The 35 words of the frame hold the interrupted registers and no other word of the kernel stacks changes |
| Fork.KernelExit | kernel/entry.S:34-56 | The loads give back exactly the registers the frame holds, and the stack pointer from before the entry |
| Fork.DoFork | kernel/task.c:152-179 | The child gets a byte copy of the parent's user stack and the parent's frame with x0 zero and sp moved to its own stack, at the address in its saved sp; every other task keeps both its stacks; -1 leaves memory alone |
| Fork.ForkSyscall | kernel/syscall.c:33-45 | The whole fork trap: result in the parent's x0, 0 in the child's on a copy of the parent's stack, the scheduler state of the specified trap; no other word of the parent's stacks and no word of another task's changes, and on -1 nothing but that x0 |
| Fork.ResultWordMeans | kernel/syscall.c:45 | The word stored for a result is the pid, or -1, as a signed number |
| Fork.ExecSyscall | kernel/syscall.c:68-74 | The exec trap: the task continues at the given address with an empty user stack, and only its own frame changes |
| Fork.ChildStackPointer | kernel/task.c:175-176 | A user stack pointer inside the parent's stack becomes the one at the same offset of the child's |
| StackRuns.InitialWorldInv | kernel/task.c:14-29 | The boot state with any contents of the stack pools satisfies the invariant of these runs |
| StackRuns.RunWorldInv | kernel/entry.S:60-83 | Over every run a task that is at EL0 or in the kernel on a trap frame has that frame inside its own kernel stack |
| StackRuns.FrameStep | kernel/entry.S:34-56 | While a task is in the kernel no event writes its frame or its user stack, up to the `kernel_exit` that loads the frame |
| StackRuns.TrapReturns | kernel/entry.S:3-57 | Over every run: whatever runs in between, a trap returns to EL0 with the registers it was entered with, but for what its handler stores in the frame |
| StackRuns.ChildReturns | kernel/task.c:164-176 | Over every run: a forked task first returns to EL0 with its parent's registers at the fork, but for 0 in x0 and the moved stack pointer, and with the user stack its parent had |
| Traps.ForkTrap | kernel/syscall.c:33-45 | Fork from `kernel_entry` to `kernel_exit` on the mutable kernel and its pools is a step of these runs |
| Traps.ExecTrap | kernel/syscall.c:68-74 | The same for exec |
| Memory.Memmove | lib/string.c:126-144 | The destination holds the old source bytes and nothing else changes, wherever the regions overlap |
| UartSpec.StepInv | kernel/uart.c:115-249 | Every micro-step and every run of the handler keeps the conservation and wakeup invariants |
| UartSpec.RunInv | kernel/uart.c:115-249 | They hold under every interleaving of the handler with the thread's micro-steps |
| UartSpec.NothingLost | kernel/uart.c:115-133 | From init: bytes taken from the device are those returned to readers followed by inbuf, bytes accepted from writers are those put in the device followed by outbuf, in order |
| UartSpec.NoLostWakeup | kernel/uart.c:180-217 | Between calls, bytes in outbuf have the transmit interrupt enabled, and reception is off only with inbuf full |
| UartSpec.StaleStoreOnlyAdds | kernel/uart.c:180-194 | The non-atomic mask update never loses an enable |
| UartSpec.UndoneDisable | kernel/uart.c:180-217 | It can undo the handler's disable, and the next interrupt makes up for it |
| UartSpec.UndoneDisableByWriter | kernel/uart.c:180-194 | The same race with a writer and the receive interrupt |
| UartSpec.SilentUntilWrite | kernel/uart.c:115-133 | From init, whatever is read and received, the transmit interrupt stays off and nothing is sent until something is written |
| UartSpec.HandlerLeavesWorkEnabled | kernel/uart.c:196-219 | The handler serves exactly the interrupts that are raised and not masked; behind one its mask bit is set exactly when there is more to do, every byte that could move has moved, in order, and nothing else has changed |
| UartSpec.DrainsCompletely | kernel/uart.c:209-217 | From an idle thread, as many transmit interrupts as outbuf has bytes send everything that was accepted |
| UartCalls.ReadReturns | kernel/uart.c:115-123 | Under every interleaving with the handler a read returns at least the bytes that were waiting, up to its count and never more, oldest first, without interrupts exactly so many; it returns after 3 * count + 3 of its own steps, and enables the receive interrupt only |
| UartCalls.WriteReturns | kernel/uart.c:125-133 | A write accepts a prefix of its data, at least what there was room for, without interrupts exactly that; it returns after 3 * length + 3 of its own steps, and enables the transmit interrupt only |
| UartCalls.CallEnds | kernel/uart.c:115-133 | From any point of a call it has returned after the steps left to it, however often it is interrupted |
| UartMachine.RingBuffer.Push | kernel/uart.c:233-238 | A push into a ring that is not full appends one byte to its contents |
| UartMachine.RingBuffer.Pop | kernel/uart.c:242-249 | A pop removes and returns the oldest byte, and leaves the write position alone |
| UartMachine.Pl011.Micro | kernel/uart.c:115-133 | Each micro-step on the concrete rings and the 32-bit mask register computes the specified step |
| UartMachine.Pl011.Interrupt | kernel/uart.c:196-219 | The handler's loops on the concrete rings compute the specified step |
| UartMachine.Pl011.Run | kernel/uart.c:115-249 | Any interleaving on the concrete driver is a run of the specification |
| Formatter.Printnum | lib/printfmt.c:36-51 | The recursive printer emits padding and digits of the number |
| Formatter.PrintString | lib/printfmt.c:176-189 | %s with precision, padding on either side and the # flag; nothing behind the NUL is read |
| Formatter.PrintError | lib/printfmt.c:165-173 | %e through the recursive `printfmt`, which terminates |
| Formatter.Vprintfmt | lib/printfmt.c:83-245 | For every NUL-terminated format the formatter terminates, reads nothing behind the NUL and emits exactly the specified text |
| Formatter.Vsnprintf | lib/printfmt.c:271-286 | Stores the first min(n-1, total) characters and a NUL, writes nothing from index n on, returns the untruncated total; -E_INVAL for a null or empty buffer |
| Formatter.Vprintf | lib/printf.c:26-36 | Whatever parts of its offers `uart_write` accepts, the device gets exactly the formatted characters in order, and their number is returned |
| Output.Sink.Putch | lib/printf.c:16-24 | Both callbacks append one character to what has been handed over |
| Output.Sink.Flush | lib/printf.c:18-22 | The loop over partial writes hands over the whole buffer once |
| FormatTheorems.FormatShift | lib/printfmt.c:92-97 | Formats compose: what is printed from an index on depends on the rest of the format only |
| FormatTheorems.UnknownEscapeVerbatim | lib/printfmt.c:237-242 | An escape that is unknown or cut off by the NUL is printed as it stands |
| FormatTheorems.UnknownCharacter | lib/printfmt.c:103-242 | Behind a percent sign, every character that is neither a flag nor a conversion is printed as it stands, with the sign |
| FormatTheorems.RenderedEscape | lib/printfmt.c:99-157 | Parsing a rendered directive gives back its parts, for every directive made of an optional #, one of the flags 0 and -, a width and a precision that are each absent, a number or a star, any l's, and a conversion |
| FormatTheorems.DirectivePrints | lib/printfmt.c:159-235 | A format that starts with such a directive of any known conversion prints that conversion of the argument behind the stars', then the rest of the format |
| FormatTheorems.NumberPrints | lib/printfmt.c:191-230 | For %d, %u, %x and %p this is the sign or prefix and the number in its field |
| FormatTheorems.ArgumentValues | lib/printfmt.c:53-77 | The numbers printed are the argument modulo 2^32, or modulo 2^64 behind an l, in the unsigned and in the signed range |
| FormatTheorems.StringPrints | lib/printfmt.c:176-189 | For %s it is the string its argument points to, or (null), in its field, and one argument is taken |
| FormatTheorems.CharacterPrints | lib/printfmt.c:160-235 | For %c it is the low byte of its argument; %o and %% print what they print without an argument |
| FormatTheorems.ErrorPrints | lib/printfmt.c:21-31 | For %e it is the text of the error its argument names with either sign, or error and the number, and one argument is taken |
| FormatTheorems.PrintThenParse | lib/string.c:177-223 | Printing with any %d, %u, %x or %p directive and reading the text with `strtol` gives the number back and ends at the NUL without overflow exactly when nothing stands between a sign or prefix and the digits and the magnitude is below 2^63 |
| FormatTheorems.UpperHalfOverflows | lib/string.c:215 | From 2^63 on reading back overflows `long`: unsigned numbers and pointers come back less by 2^64, and -2^63 comes back only because the overflow wraps |
| FormatTheorems.TextField | lib/printfmt.c:176-189 | A %s field holds the first characters of the string, as many as there are up to the precision, its unprintable characters replaced under #, left-justified with the - flag and right-justified without, in at least the given width |
| FormatTheorems.StandardExactlyWhen | lib/printfmt.c:191-230 | For %d, %u and %x with any of these flags, widths and precisions (# with %x only): the field is that of section 7.21.6.1 of ISO/IEC 9899:2018 if and only if a condition on the numbers holds: no prefix is due, no further digits are asked for unless zero padding supplies them, and neither a sign nor left justification meets a wider field |
| NumberParsing.Strtol | lib/string.c:177-223 | Blanks, sign, prefix and the longest run of digits added up in a 64-bit `long`, with the index at which it stops; and whether an addition leaves the range of `long` |
| NumberParsing.NumberLength | lib/printfmt.c:36-51 | A printed number has max(width, digits) characters |
| NumberParsing.DigitsValue | lib/printfmt.c:36-51 | The digits printed denote the number, in every base from 2 to 16 |
| NumberParsing.DigitsAreLowerCase | lib/printfmt.c:36-51 | Letters are printed in lower case |
| NumberParsing.UnsignedRoundTrip | lib/string.c:201-222 | `strtol` returns the number printed and stops at the NUL without overflow, in base 10 and 16 and for each of the three paddings, exactly when no '-' padding is in the way and the number is below 2^63; above, what it returns instead |
| NumberParsing.SignedRoundTrip | lib/string.c:183-222 | The same for %d: a negative number is read back exactly when it is not padded or padded with zeros and lies above -2^63 |
| NumberParsing.PointerRoundTrip | lib/string.c:193-222 | The same for %p: read back exactly when not padded or padded with zeros and below 2^63 |
| NumberParsing.HexPrefix | lib/string.c:193-195 | 0x is skipped in base 16 and chooses it in base 0, for every number |
| NumberParsing.OctalPrefix | lib/string.c:196-197 | A leading 0 alone chooses base 8 in base 0 |
| NumberParsing.DecimalByDefault | lib/string.c:198-199 | Without one base 0 is decimal |
| NumberParsing.UpperCaseParse | lib/string.c:205-210 | Every hexadecimal number in upper case is read like in lower case |
| NumberParsing.LettersCount | lib/string.c:205-214 | Letters of either case are the digits 10 to 35, and nothing but them and 0 to 9 is a digit |
| NumberParsing.BlanksAndPlus | lib/string.c:183-191 | Any blanks and tabs and one plus sign in front of a number change nothing |
| NumberParsing.OverflowsExactly | lib/string.c:201-218 | Adding up digits leaves the range of `long` on the way exactly when the number they denote does |
| Timestamp.SplitExactlyWhen | kernel/printk.c:57-58 | For every counter and frequency: seconds and microseconds together are the counter in whole microseconds exactly when the quotient lost by the wrap of counts * 1000000, carry included, is a multiple of 1000000 |
| Timestamp.SplitIsExact | kernel/printk.c:57-58 | So they are whenever the product does not wrap |
| Timestamp.FirstWrapIsWrong | kernel/printk.c:58 | Throughout the first wrap of the product they are not, at every frequency but those that divide 2^64 into just about a whole number of seconds |
| Timestamp.FirstWrapAtUsualFrequencies | kernel/printk.c:58 | 19.2 MHz and 62.5 MHz are such frequencies |
| Timestamp.StampShowsTime | kernel/printk.c:54-59 | The stamp shows the seconds in decimal and exactly six digits, which together denote the time exactly under the same condition |
| Crc.InstructionIsBytes | user/shell.c:75-105 | A CRC instruction on up to eight little-endian bytes equals the table steps of section 8 of RFC 1952, byte by byte |
| Crc.Crc32 | user/shell.c:72-108 | The 8/4/2/1 split equals the CRC-32 of RFC 1952 for every length |
| Crc.TableEntries | user/shell.c:75-105 | The polynomial: the table entries of the powers of two |
| Crc.TableSum | user/shell.c:75-105 | Every other table entry is the sum of these |
| Crc.CheckValue | user/shell.c:72-108 | The checksum of the digits 1 to 9 is the check value of CRC-32 |
| Loader.BigEndianRoundTrip | scripts/image_uploader.py:12-18 | The loader reads back every 32-bit number the uploader sends |
| Loader.BigEndianBytes | user/shell.c:58-70 | The byte that arrives first is the highest |
| Loader.LayoutFits | user/shell.c:143-166 | With 32-bit parameters no address wraps; the temporary image lies directly behind kernel and image, the code at the next multiple of 8, and the top of its stack at the next multiple of 16 behind 4096 bytes |
| Loader.OverrunExactly | user/shell.c:117-119 | The exact condition under which the rounded-up copy runs into the relocated code; 8-aligned addresses are safe for every size |
| Loader.OverrunHappens | user/shell.c:117-119 | A one-byte image at an odd address behind the kernel does overrun |
| Loader.CopyWords | user/shell.c:117-119 | The ascending word copy delivers the old source words even where source and destination overlap, and writes nothing else |
| Loader.Serial.GetUint32BE | user/shell.c:58-70 | Four bytes in order, through any pattern of partial reads |
| Loader.LoadImage | user/shell.c:138-163 | The loader goes on exactly when the checksum sent is the CRC-32 of the image sent; then image and code are in place and nothing below the temporary image has changed |
| Loader.LoadAndCopy | user/shell.c:124-170 | The received bytes end at the image's address, with relocated code and stack untouched unless the layout overruns |
| Loader.MessageRead | scripts/image_uploader.py:9-21 | The loader takes the uploader's message apart into the length, the address, the checksum and the image that were sent, whatever follows |
| Loader.UploadAndLoad | user/shell.c:124-170 | From the uploader's message to the memory: the image ends up at the address it was sent for exactly when the checksum sent is its CRC-32, and otherwise that memory is left alone |

## Left out

- Memory-mapped registers, mailbox, framebuffer, mini UART and boot assembly: hardware set-up without a property of its own.
- `pl011_uart_write_polling` and the byte written at init: they bypass the transmit ring.
- Shell commands other than `loadimg`, demo user tasks, delay loops, `puts`, `getchar` and the remaining string functions: they would add easy members only.
- Dispatch of interrupts in `kernel/irq.c`: a timer tick and a UART interrupt are events.
- `setpriority` and `getpriority`: never called; the claim that a queued task sits in the queue of its priority would not survive them.
- Kernel stack overflow, floating-point registers and other cores: not part of the model.
- Kernel functions handed to `privilege_task_create` other than ones that call `do_exec` and the reaper: none exist.
- KillSafety.KillCondemns: a pid below 64 and a signal below 64 are assumed; `do_kill` checks neither.
- KernelMachine.Machine.Step: system calls other than fork, exit and kill are one event without arguments and results, for they do not touch the tasks; what they leave in their trap frame is a parameter of StackRuns.
- StackRuns.Moves: EL0 code and the buffers it passes to system calls are assumed to stay inside the task's own user stack, since nothing protects the others; kernel code is assumed not to overrun its stack.
- Fork.KernelEntry: the pair stores of straight-line assembly are written as a loop over pairs, and stack addresses as word indices into 8-aligned pools.
- Formatter.Vprintfmt: widths, precisions and the negation of `%e`'s argument are unbounded integers. The C code's `int` overflows on a number above 2147483599 in a format (`precision * 10 + ch - '0'` adds the character first), on an argument of -2^31 for `%e`, and on a width near -2^31 from a star; the contract speaks of formats and arguments without these.
- FormatTheorems.StandardExactlyWhen: numbers in a directive are written without leading zeros and at most one of the flags 0 and - is given; in `%.0d` the code takes the 0 for the flag, so a precision of 0 is written as a lone point.
- NumberParsing.Strtol: C leaves the overflow of `long` undefined; the value returned behind one is that of a processor that wraps.
- Timestamp.StampShowsTime: freq is positive, and the seconds are below 2^63.
- Timestamp.FirstWrapIsWrong: the frequencies left out, and the wraps behind the first, are decided by Timestamp.SplitExactlyWhen.
- Loader.CopyWords: unaligned 64-bit accesses are taken to work; on the hardware with the MMU off they fault.
- Loader.LoadImage: a message that breaks off is left out; the loader then waits for the rest forever.
- Loader.LoadAndCopy: the bootstrap section is assumed to lie below the kernel's end, and memory to reach the top of the new stack; the jump into the image is not modelled.
- UartSpec.Step: the two loads of a ring test count as one step, because the thread itself owns one of the two positions.
