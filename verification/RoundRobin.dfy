/** The run queues of the round-robin scheduler as linked tasks. A queue is
    circular right after a pop and null-terminated after a push. */
module RoundRobin {
  import opened Sequences
  import opened Rotation

  class Task {
    const id: nat
    var next: Task?
    var empty: bool
    var zombie: bool
    var state: nat  // the saved registers
    var ppid: nat
    var isWaited: bool

    constructor (id: nat, empty: bool)
      ensures this.id == id && next == null && this.empty == empty && !zombie && ppid == 0 && !isWaited
    {
      this.id := id;
      next := null;
      this.empty := empty;
      zombie := false;
      state, ppid, isWaited := 0, 0, false;
    }

    predicate Runnable()
      reads `empty, `zombie
    {
      !empty && !zombie
    }
  }

  class TaskQueue {
    var current: Task?
    var head: Task?
    var last: Task?
    var count: nat
    ghost var tasks: seq<Task>

    ghost predicate Link(i: nat)
      reads this, tasks`next
      requires i + 1 < |tasks|
    {
      tasks[i].next == tasks[i + 1]
    }

    ghost predicate Valid()
      reads this, tasks`next
    {
      && count == |tasks|
      && Distinct(tasks)
      && (forall i: nat :: i + 1 < |tasks| ==> Link(i))
      && (if tasks == [] then head == null && last == null && current == null
          else
            && head == tasks[0] && last == tasks[|tasks| - 1] && current in tasks
            && (last.next == null || last.next == head))
    }

    constructor ()
      ensures Valid() && tasks == []
    {
      current, head, last, count, tasks := null, null, null, 0, [];
    }

    /** task_scheduler_round_robin_push_to_queue, for a task on no queue yet. */
    method Push(task: Task)
      requires Valid() && task !in tasks && task.next == null
      modifies this, tasks`next
      ensures Valid() && tasks == old(tasks) + [task]
      ensures current == (if old(tasks) == [] then task else old(current))
      ensures task.next == null
    {
      if count > 0 {
        last.next := task;
        last := task;
      } else {
        current, head, last := task, task, task;
      }
      count := count + 1;
      tasks := tasks + [task];
      forall i: nat | i + 1 < |tasks| ensures Link(i) {
        assert old(i + 1 < |tasks| ==> Link(i));
      }
    }

    /** task_scheduler_round_robin_pop_from_queue: the head moves to the back. A
        null result stands for the panic on an empty queue. */
    method Pop() returns (task: Task?)
      requires Valid()
      modifies this, tasks`next
      ensures Valid()
      ensures old(tasks) == [] ==> task == null && tasks == []
      ensures old(tasks) != [] ==> task == old(tasks)[0] && tasks == Rotate(old(tasks), 1)
      ensures current == (if |tasks| > 1 then task else old(current))
    {
      task := head;
      if task == null { return; }
      ghost var q := tasks;
      if count > 1 {
        assert Link(0);
        head := head.next;
        last.next := task;
        last := task;
        task.next := head;
        current := task;
        tasks := Rotate(q, 1);
        forall i: nat | i + 1 < |tasks| ensures Link(i) {
          assert old(i + 2 < |tasks| ==> Link(i + 1));
        }
      } else {
        assert Rotate(q, 1) == q;
      }
    }

    /** Pop until a task is neither empty nor a zombie. The loop ends because some
        task, the idle one, is runnable; `j` is the position of the first. */
    method PopRunnable() returns (nextTask: Task, ghost j: nat)
      requires Valid()
      requires exists i: nat :: i < |tasks| && tasks[i].Runnable()
      modifies this, tasks`next
      ensures Valid()
      ensures j < |old(tasks)| && nextTask == old(tasks)[j] && nextTask.Runnable()
      ensures forall i: nat :: i < j ==> !old(tasks)[i].Runnable()
      ensures tasks == Rotate(old(tasks), j + 1) && current == nextTask
    {
      hide Valid, FirstRunnable, Popped;
      ghost var q := tasks;
      j := FirstRunnable(q, set t | t in q && t.Runnable());
      PoppedNone<Task>(q);
      PopNext<Task>(q, tasks, 0);
      var popped := Pop();
      nextTask := popped;
      ghost var k: nat := 1;
      while !nextTask.Runnable()
        invariant Valid() && 1 <= k <= j + 1 && |tasks| == |q|
        invariant Popped<Task>(q, tasks, k) && nextTask == q[k - 1]
        invariant forall i: nat :: i < |tasks| ==> tasks[i] in q
        invariant |q| > 1 ==> current == nextTask
        decreases j + 1 - k
      {
        assert k - 1 != j;
        PopNext<Task>(q, tasks, k);
        popped := Pop();
        nextTask := popped;
        k := k + 1;
      }
      PopsRotate<Task>(q, tasks, k);
      OnlyCurrent();
    }

    lemma OnlyCurrent()
      requires Valid()
      ensures |tasks| == 1 ==> current == tasks[0]
    {
    }

    /** The queue part of task_scheduler_round_robin_reschedule: save the registers
        of the current task, then take the next runnable one. */
    method Reschedule(registers: nat) returns (nextTask: Task, ghost j: nat)
      requires Valid() && current != null
      requires exists i: nat :: i < |tasks| && tasks[i].Runnable()
      modifies this, tasks`next, current`state
      ensures Valid()
      ensures j < |old(tasks)| && nextTask == old(tasks)[j] && nextTask.Runnable()
      ensures forall i: nat :: i < j ==> !old(tasks)[i].Runnable()
      ensures tasks == Rotate(old(tasks), j + 1) && current == nextTask
      ensures old(current).state == registers
    {
      hide Rotate;
      current.state := registers;
      nextTask, j := PopRunnable();
    }
  }
}
