/**
 The circular run queue of include/task.h: NR_TASKS + 1 slots, head and tail.
 */
module RunQueues {
  import opened TaskTypes
  import opened Words

  // Positions advance by one and wrap.
  lemma Advance(i: nat)
    requires i <= NR_TASKS
    ensures (i + 1) % (NR_TASKS + 1) == if i == NR_TASKS then 0 else i + 1
  {
  }

  class RunQueue {
    const tasks: array<Pid>
    var head: nat
    var tail: nat

    ghost predicate Valid()
      reads this
    {
      tasks.Length == NR_TASKS + 1 && head <= NR_TASKS && tail <= NR_TASKS
    }

    // The queued tasks, first out first.
    ghost function Contents(): (s: seq<Pid>)
      requires Valid()
      reads this, tasks
      ensures |s| <= NR_TASKS
    {
      if head <= tail then tasks[head..tail] else tasks[head..] + tasks[..tail]
    }

    constructor ()
      ensures Valid() && fresh(tasks) && Contents() == []
    {
      tasks := new Pid[NR_TASKS + 1](_ => 0);
      head, tail := 0, 0;
    }

    predicate Empty()
      requires Valid()
      reads this, tasks
      ensures Empty() <==> Contents() == []
    {
      tail == head
    }

    predicate Full()
      requires Valid()
      reads this, tasks
      ensures Full() <==> |Contents()| == NR_TASKS
    {
      Advance(tail);
      (tail + 1) % (NR_TASKS + 1) == head
    }

    function Size(): (n: nat)
      requires Valid()
      reads this, tasks
      ensures n == |Contents()|
    {
      if tail >= head then tail - head else tail + (NR_TASKS + 1) - head
    }

    method Push(ts: Pid)
      requires Valid()
      modifies this, tasks
      ensures Valid()
      ensures Contents() == if |old(Contents())| == NR_TASKS then old(Contents()) else old(Contents()) + [ts]
    {
      Advance(tail);
      if Full() {
        return;
      }
      assert |Contents()| < NR_TASKS;
      tasks[tail] := ts;
      tail := (tail + 1) % (NR_TASKS + 1);
    }

    method Pop() returns (ts: Option<Pid>)
      requires Valid()
      modifies this
      ensures Valid()
      ensures if old(Contents()) == [] then ts == None && Contents() == []
              else ts == Some(old(Contents())[0]) && Contents() == old(Contents())[1..]
    {
      if Empty() {
        return None;
      }
      Advance(head);
      ts := Some(tasks[head]);
      head := (head + 1) % (NR_TASKS + 1);
    }
  }
}
