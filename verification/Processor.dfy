/** One processor in place: its linked run queue and its GS registers. An
    interrupt on it is the interrupt of module ContextSwitch, and enabling the
    scheduler puts it in a state from which every run is transparent. */
module Processor {
  import opened Sequences
  import opened Rotation
  import opened RoundRobin
  import T = TaskContext
  import S = ContextSwitch

  function Ids(tasks: seq<Task>): (ids: seq<nat>)
    ensures |ids| == |tasks| && forall i: nat :: i < |tasks| ==> ids[i] == tasks[i].id
  {
    seq(|tasks|, i requires 0 <= i < |tasks| => tasks[i].id)
  }

  /** The ids of the tasks that can run. */
  ghost function RunnableIds(tasks: seq<Task>): set<nat>
    reads tasks`empty, tasks`zombie
  {
    set t <- tasks | t.Runnable() :: t.id
  }

  /** The registers saved in each task. */
  ghost function Saved(tasks: seq<Task>): (m: map<nat, nat>)
    reads tasks`state
    requires Distinct(Ids(tasks))
    ensures forall id: nat :: id in m <==> id in Ids(tasks)
    ensures forall i: nat :: i < |tasks| ==> tasks[i].id in m && m[tasks[i].id] == tasks[i].state
  {
    if tasks == [] then map[]
    else
      var front, last := tasks[..|tasks| - 1], tasks[|tasks| - 1];
      FrontDistinct(tasks);
      Saved(front)[last.id := last.state]
  }

  lemma FrontDistinct(tasks: seq<Task>)
    requires tasks != [] && Distinct(Ids(tasks))
    ensures Ids(tasks) == Ids(tasks[..|tasks| - 1]) + [tasks[|tasks| - 1].id]
    ensures Distinct(Ids(tasks[..|tasks| - 1]))
    ensures forall i: nat :: i < |tasks| - 1 ==> tasks[i].id != tasks[|tasks| - 1].id
  {
    var ids := Ids(tasks);
    forall i: nat | i < |tasks| - 1 ensures tasks[i].id != tasks[|tasks| - 1].id {
      assert ids[i] != ids[|tasks| - 1];
    }
    forall i: nat, j: nat | i < j < |tasks| - 1 ensures tasks[i].id != tasks[j].id {
      assert ids[i] != ids[j];
    }
  }

  lemma SameId(tasks: seq<Task>, i: nat, j: nat)
    requires Distinct(Ids(tasks)) && i < |tasks| && j < |tasks| && tasks[i].id == tasks[j].id
    ensures i == j
  {
    assert Ids(tasks)[i] == Ids(tasks)[j];
  }

  lemma RunnableAt(tasks: seq<Task>, i: nat)
    requires Distinct(Ids(tasks)) && i < |tasks|
    ensures tasks[i].id in RunnableIds(tasks) <==> tasks[i].Runnable()
  {
    if tasks[i].id in RunnableIds(tasks) {
      var t :| t in tasks && t.Runnable() && t.id == tasks[i].id;
      var j: nat :| j < |tasks| && tasks[j] == t;
      SameId(tasks, i, j);
    }
  }

  /** The first runnable task is the one with the first runnable id. */
  lemma ChosenIs(tasks: seq<Task>, j: nat)
    requires Distinct(Ids(tasks)) && j < |tasks| && tasks[j].Runnable()
    requires forall i: nat :: i < j ==> !tasks[i].Runnable()
    ensures FirstRunnable(Ids(tasks), RunnableIds(tasks)) == j
  {
    hide FirstRunnable;
    var k := FirstRunnable(Ids(tasks), RunnableIds(tasks));
    RunnableAt(tasks, j);
    if k < j { RunnableAt(tasks, k); }
  }

  /** The queue part of an interrupt on values. */
  ghost predicate Rotates(c: S.Cpu<nat>, c': S.Cpu<nat>, j: nat) {
    && j == S.Chosen(c) < |c.queue.order|
    && c'.queue == Queue(Rotate(c.queue.order, j + 1), c.queue.runnable) && c'.current == c.queue.order[j]
    && c'.saved == c.saved[c.current := c.regs]
    && c'.current in c'.saved && c'.regs == c'.saved[c'.current] && c'.gs == c.gs
  }

  class Processor {
    const queue: TaskQueue
    const registers: T.Registers

    constructor (queue: TaskQueue, registers: T.Registers)
      ensures this.queue == queue && this.registers == registers
    {
      this.queue, this.registers := queue, registers;
    }

    /** What the processor is to ContextSwitch, with `regs` in its registers. */
    ghost function View(regs: nat): S.Cpu<nat>
      reads queue, registers, queue.tasks`empty, queue.tasks`zombie, queue.tasks`state
      requires queue.current != null && Distinct(Ids(queue.tasks))
    {
      S.Cpu(Queue(Ids(queue.tasks), RunnableIds(queue.tasks)), queue.current.id, Saved(queue.tasks), regs, registers.gs)
    }

    ghost predicate Valid()
      reads queue, registers, queue.tasks`next
    {
      queue.Valid() && queue.tasks != [] && Distinct(Ids(queue.tasks))
    }

    /** The queue part of an interrupt: the ids rotate, the registers go into the
        current task, and nothing else changes. */
    method SwitchQueue(regs: nat) returns (nextTask: Task, ghost j: nat)
      requires Valid() && queue.current != null && 0 in RunnableIds(queue.tasks)
      modifies queue, queue.tasks`next, queue.tasks`state
      ensures Valid() && queue.current == nextTask
      ensures Rotates(old(View(regs)), View(nextTask.state), j)
    {
      hide Rotate, TaskQueue.Valid, Distinct, RunnableIds, Saved, Rotates, SavedBut;
      ghost var c := View(regs);
      ghost var q := queue.tasks;
      SomeoneRuns(q, 0);
      CurrentIn(queue);
      ghost var i: nat :| i < |q| && q[i] == queue.current;
      ghost var saved := Saved(q);
      ghost var states: seq<nat> := seq(|q|, k requires 0 <= k < |q| reads q => q[k].state);
      nextTask, j := queue.Reschedule(regs);
      SavedStays(q, i, saved, states);
      RotatedIds(q, j + 1);
      RotatesBy(c, View(nextTask.state), q, i, j, saved);
    }

    /** task_scheduler_round_robin_reschedule: `regs` are the registers of the
        interrupted task, `restored` those it returns to. */
    method Interrupt(regs: nat) returns (restored: nat)
      requires Valid() && queue.current != null && S.Inv(View(regs), 0)
      modifies queue, registers, queue.tasks`next, queue.tasks`state
      ensures Valid() && queue.current != null
      ensures S.Inv(old(View(regs)), 0) && View(restored) == S.Next(old(View(regs)), 0, S.Interrupt)
    {
      hide TaskQueue.Valid, Distinct, Ids, RunnableIds, Saved, S.Next, S.Inv, Rotates, T.AfterGetCpu, T.AfterGetTask;
      ghost var c := View(regs);
      S.IdleRuns(c, 0);
      var context := registers.GetCpuContext();
      var nextTask, j := SwitchQueue(regs);
      restored := nextTask.state;
      ghost var c' := View(restored);
      registers.InstallTaskContext(nextTask.id);
      NextIs(c, c', j);
    }

    /** sys_exit of the running task. */
    method Exit(ghost regs: nat)
      requires Valid() && queue.current != null && S.Inv(View(regs), 0) && queue.current.id != 0
      modifies queue.current`zombie
      ensures Valid() && queue.current != null
      ensures S.Inv(old(View(regs)), 0) && View(regs) == S.Next(old(View(regs)), 0, S.Quit)
    {
      hide TaskQueue.Valid, Distinct, Saved, RunnableIds, S.Inv;
      ghost var q := queue.tasks;
      CurrentIn(queue);
      ghost var i: nat :| i < |q| && q[i] == queue.current;
      ghost var before, runs := RunnableIds(q), Runs(q);
      RunsAre(q, before);
      queue.current.zombie := true;
      RunnableChange(q, before, runs, i);
    }

    /** A task that was filled in is published. */
    method Publish(task: Task, ghost regs: nat)
      requires Valid() && queue.current != null && S.Inv(View(regs), 0)
      requires task in queue.tasks && !task.zombie && S.Allowed(View(regs), 0, S.Start(task.id))
      modifies task`empty
      ensures Valid() && queue.current != null
      ensures S.Inv(old(View(regs)), 0) && S.Allowed(old(View(regs)), 0, S.Start(task.id))
      ensures View(regs) == S.Next(old(View(regs)), 0, S.Start(task.id))
    {
      hide TaskQueue.Valid, Distinct, Saved, RunnableIds, S.Inv;
      ghost var q := queue.tasks;
      ghost var i: nat :| i < |q| && q[i] == task;
      assert Ids(q)[i] == task.id;
      ghost var before, runs := RunnableIds(q), Runs(q);
      RunsAre(q, before);
      task.empty := false;
      RunnableChange(q, before, runs, i);
    }

    /** task_scheduler_round_robin_enable, on a queue whose idle task was pushed
        first and on which nothing was popped yet: the idle task runs, and from
        here on every run is one that ContextSwitch speaks of. */
    method Enable() returns (restored: nat)
      requires Valid() && queue.tasks[0].id == 0 && queue.tasks[0].Runnable() && queue.current == queue.tasks[0]
      requires forall t <- queue.tasks :: t.id != T.CONTEXT_TYPE_CPU
      requires registers.gs == T.Gs(T.Processor, T.Null)
      modifies queue, registers, queue.tasks`next
      ensures Valid() && queue.current != null && queue.current.id == 0
      ensures S.Inv(View(restored), 0)
      ensures S.Simulates(View(restored), S.Private(Saved(queue.tasks), 0))
    {
      hide TaskQueue.Valid, Distinct, RunnableIds, Saved, Rotate;
      ghost var q := queue.tasks;
      var context := registers.GetCpuContext();
      var task := queue.Pop();
      restored := task.state;
      RotatedIds(q, 1);
      RotatedRest(q, 1);
      RotateMembers(q, 1);
      Enabled(q, queue.tasks, View(restored));
    }
  }

  ghost function Runs(q: seq<Task>): (runs: seq<bool>)
    reads q
    ensures |runs| == |q| && forall k: nat :: k < |q| ==> runs[k] == q[k].Runnable()
  {
    seq(|q|, k requires 0 <= k < |q| reads q => q[k].Runnable())
  }

  lemma RunsAre(q: seq<Task>, ids: set<nat>)
    requires Distinct(Ids(q)) && ids == RunnableIds(q)
    ensures forall id: nat :: id in ids <==> exists k: nat :: k < |q| && q[k].id == id && Runs(q)[k]
  {
    hide Distinct;
    forall id: nat | id in ids ensures exists k: nat :: k < |q| && q[k].id == id && Runs(q)[k] {
      var t :| t in q && t.Runnable() && t.id == id;
      var k: nat :| k < |q| && q[k] == t;
      assert Runs(q)[k];
    }
  }

  /** One task of the queue stops or starts. */
  lemma RunnableChange(q: seq<Task>, before: set<nat>, runs: seq<bool>, i: nat)
    requires Distinct(Ids(q)) && i < |q| && |runs| == |q|
    requires forall id: nat :: id in before <==> exists k: nat :: k < |q| && q[k].id == id && runs[k]
    requires forall k: nat :: k < |q| && q[k] != q[i] ==> runs[k] == q[k].Runnable()
    ensures RunnableIds(q) == if q[i].Runnable() then before + {q[i].id} else before - {q[i].id}
  {
    hide Distinct;
    RunnableAt(q, i);
    forall id: nat | id in before && id != q[i].id ensures id in RunnableIds(q) {
      var k: nat :| k < |q| && q[k].id == id && runs[k];
      RunnableAt(q, k);
    }
    forall id: nat | id in RunnableIds(q) && id != q[i].id ensures id in before {
      var t :| t in q && t.Runnable() && t.id == id;
      var k: nat :| k < |q| && q[k] == t;
      assert runs[k];
    }
  }

  lemma Enabled(q: seq<Task>, r: seq<Task>, c: S.Cpu<nat>)
    requires q != [] && Distinct(Ids(q)) && Distinct(Ids(r)) && forall t: Task :: t in r <==> t in q
    requires q[0].id == 0 && q[0].Runnable() && forall t <- q :: t.id != T.CONTEXT_TYPE_CPU
    requires c == S.Cpu(Queue(Ids(r), RunnableIds(r)), 0, Saved(r), q[0].state, T.Gs(T.Processor, T.Null))
    ensures S.Inv(c, 0) && S.Simulates(c, S.Private(Saved(r), 0))
  {
    hide Distinct, Saved;
    assert q[0] in r;
    var k: nat :| k < |r| && r[k] == q[0];
    assert Ids(r)[k] == 0;
    forall id | id in Ids(r) ensures id in Saved(r) && id != T.CONTEXT_TYPE_CPU {
      var i: nat :| i < |r| && Ids(r)[i] == id;
      assert r[i] in q;
    }
  }

  /** The queue part between the two register accesses is the whole interrupt. */
  lemma NextIs(c: S.Cpu<nat>, c': S.Cpu<nat>, j: nat)
    requires S.Inv(c, 0) && T.AfterGetCpu(c.gs).base != T.Null && Rotates(c.(gs := T.AfterGetCpu(c.gs)), c', j)
    ensures S.Next(c, 0, S.Interrupt) == c'.(gs := T.AfterGetTask(T.AfterGetCpu(c.gs)).(base := T.Task(c'.current)))
  {
    hide Rotate, FirstRunnable, S.Next, T.AfterGetCpu, T.AfterGetTask;
    S.Interrupted(c, 0);
  }

  lemma CurrentIn(queue: TaskQueue)
    requires queue.Valid() && queue.tasks != []
    ensures queue.current != null && queue.current in queue.tasks
  {
  }

  lemma SomeoneRuns(tasks: seq<Task>, id: nat)
    requires id in RunnableIds(tasks)
    ensures exists i: nat :: i < |tasks| && tasks[i].Runnable()
  {
    var t :| t in tasks && t.Runnable() && t.id == id;
    var i: nat :| i < |tasks| && tasks[i] == t;
  }

  /** The order of the tasks does not matter for what is saved in them. */
  lemma SavedSame(q: seq<Task>, r: seq<Task>)
    requires Distinct(Ids(q)) && Distinct(Ids(r)) && forall t: Task :: t in q <==> t in r
    ensures Saved(q) == Saved(r)
  {
    hide Saved, Distinct;
    forall i: nat | i < |q|
      ensures q[i].id in Ids(r) && Saved(r)[q[i].id] == q[i].state
    {
      assert q[i] in r;
      var j: nat :| j < |r| && r[j] == q[i];
      assert Ids(r)[j] == q[i].id;
    }
    forall j: nat | j < |r| ensures r[j].id in Ids(q) {
      assert r[j] in q;
      var i: nat :| i < |q| && q[i] == r[j];
      assert Ids(q)[i] == r[j].id;
    }
  }

  lemma RunnableSame(q: seq<Task>, r: seq<Task>)
    requires forall t: Task :: t in q <==> t in r
    ensures RunnableIds(q) == RunnableIds(r)
  {
    forall id: nat ensures id in RunnableIds(q) <==> id in RunnableIds(r) {
    }
  }

  lemma RotatedIds(q: seq<Task>, k: nat)
    requires k <= |q| && Distinct(Ids(q))
    ensures Ids(Rotate(q, k)) == Rotate(Ids(q), k) && Distinct(Ids(Rotate(q, k)))
  {
    RotateDistinct(Ids(q), k);
    assert Ids(Rotate(q, k)) == Rotate(Ids(q), k);
  }

  /** Rotating a queue keeps who can run and what is saved. */
  lemma RotatedRest(q: seq<Task>, k: nat)
    requires k <= |q| && Distinct(Ids(q)) && Distinct(Ids(Rotate(q, k)))
    ensures RunnableIds(Rotate(q, k)) == RunnableIds(q) && Saved(Rotate(q, k)) == Saved(q)
  {
    hide Rotate, Distinct, Ids, Saved;
    RotateMembers(q, k);
    SavedSame(q, Rotate(q, k));
    RunnableSame(q, Rotate(q, k));
  }

  /** `saved` is what is saved in every task but the `i`-th. */
  ghost predicate SavedBut(q: seq<Task>, i: nat, saved: map<nat, nat>)
    reads q`state
    requires i < |q|
  {
    && (forall id: nat :: id in saved <==> id in Ids(q))
    && (forall k: nat :: k < |q| && q[k] != q[i] ==> q[k].id in saved && saved[q[k].id] == q[k].state)
  }

  /** Saving into one task changes its entry only. */
  lemma SavedInto(q: seq<Task>, i: nat, saved: map<nat, nat>)
    requires Distinct(Ids(q)) && i < |q| && SavedBut(q, i, saved)
    ensures Saved(q) == saved[q[i].id := q[i].state]
  {
    hide Saved, Distinct;
    assert Ids(q)[i] == q[i].id;
    forall k: nat | k < |q| ensures Saved(q)[q[k].id] == saved[q[i].id := q[i].state][q[k].id] {
      if q[k].id == q[i].id { SameId(q, k, i); }
    }
  }

  /** What was saved before and is still there in every other task. */
  lemma SavedStays(q: seq<Task>, i: nat, saved: map<nat, nat>, states: seq<nat>)
    requires i < |q| && |states| == |q| && (forall id: nat :: id in saved <==> id in Ids(q))
    requires forall k: nat :: k < |q| ==> q[k].id in saved && saved[q[k].id] == states[k]
    requires forall k: nat :: k < |q| && q[k] != q[i] ==> q[k].state == states[k]
    ensures SavedBut(q, i, saved)
  {
  }

  lemma RotatesBy(c: S.Cpu<nat>, c': S.Cpu<nat>, q: seq<Task>, i: nat, j: nat, saved: map<nat, nat>)
    requires Distinct(Ids(q)) && i < |q| && j < |q| && q[j].Runnable() && SavedBut(q, i, saved)
    requires forall k: nat :: k < j ==> !q[k].Runnable()
    requires Distinct(Ids(Rotate(q, j + 1)))
    requires c.queue.order == Ids(q) && c.queue.runnable == RunnableIds(q)
    requires c.current == q[i].id && c.saved == saved && c.regs == q[i].state
    requires c'.queue.order == Ids(Rotate(q, j + 1)) && c'.queue.runnable == RunnableIds(Rotate(q, j + 1))
    requires c'.current == q[j].id && c'.saved == Saved(Rotate(q, j + 1)) && c'.regs == q[j].state && c'.gs == c.gs
    ensures Rotates(c, c', j)
  {
    hide Rotate, Distinct, Saved, FirstRunnable, RunnableIds, SavedBut;
    QueueSwitched(q, i, j, saved);
  }

  /** Saving into task `i` and rotating past task `j`, the first runnable one. */
  lemma QueueSwitched(q: seq<Task>, i: nat, j: nat, saved: map<nat, nat>)
    requires Distinct(Ids(q)) && i < |q| && j < |q| && q[j].Runnable() && SavedBut(q, i, saved)
    requires forall k: nat :: k < j ==> !q[k].Runnable()
    ensures j == FirstRunnable(Ids(q), RunnableIds(q))
    ensures Distinct(Ids(Rotate(q, j + 1))) && Ids(Rotate(q, j + 1)) == Rotate(Ids(q), j + 1)
    ensures RunnableIds(Rotate(q, j + 1)) == RunnableIds(q)
    ensures Saved(Rotate(q, j + 1)) == saved[q[i].id := q[i].state]
    ensures q[j].id in Saved(Rotate(q, j + 1)) && Saved(Rotate(q, j + 1))[q[j].id] == q[j].state
  {
    hide Rotate, Distinct, Saved, FirstRunnable, RunnableIds, SavedBut;
    SavedInto(q, i, saved);
    ChosenIs(q, j);
    RotatedIds(q, j + 1);
    RotatedRest(q, j + 1);
  }
}
