/** Loading, forking, exiting and waiting on the scheduler. Every call keeps the
    linked queues, the task ids and the parent links in step with the process
    table of module ProcessTree, so what holds of every run of that table holds
    of the kernel, and the ancestor walk never meets a link it cannot follow. */
module Processes {
  import opened RoundRobin
  import opened TaskScheduler
  import opened ProcessTree
  import opened WaitPid

  /** A task is marked exactly when its id has been claimed. */
  ghost predicate Marked(tasks: set<Task>, claims: seq<nat>)
    reads tasks`isWaited
  {
    forall t <- tasks :: t.id != 0 ==> (t.isWaited <==> t.id in claims)
  }

  /** The tasks are those of the process table. */
  ghost predicate Mirrors(tasks: set<Task>, table: Table)
    reads tasks`ppid, tasks`isWaited
  {
    ProcessTree.Sound(table) && Lists(tasks, table.parents) && Marked(tasks, table.claims)
  }

  class Kernel {
    const scheduler: Scheduler
    ghost var table: Table

    ghost predicate Valid()
      reads this, scheduler, scheduler.contexts, scheduler.queues
      reads scheduler.tasks`next, scheduler.tasks`empty, scheduler.tasks`zombie
      reads scheduler.tasks`ppid, scheduler.tasks`isWaited
    {
      scheduler.Valid() && scheduler.lastId == table.lastId && Mirrors(scheduler.tasks, table)
    }

    /** At boot there are no tasks. */
    constructor ()
      ensures Valid() && fresh(scheduler) && scheduler.contexts == [] && table == Table(map[], 0, [])
    {
      scheduler := new Scheduler();
      table := Table(map[], 0, []);
    }

    /** task_scheduler_round_robin_install_context; idle tasks have no process id. */
    method InstallContext() returns (context: Context)
      requires Valid()
      modifies scheduler
      ensures Valid() && table == old(table)
      ensures scheduler.contexts == old(scheduler.contexts) + [context]
    {
      hide Scheduler.Valid, ProcessTree.Sound;
      var idle;
      context, idle := scheduler.InstallContext();
      IdleListed(old(scheduler.tasks), idle, table);
    }

    /** task_scheduler_create and the parent link that the caller writes. */
    method Add(ppid: nat, ghost call: Call) returns (task: Task)
      requires Valid() && scheduler.contexts != [] && scheduler.lastId < INT_MAX
      requires Legal(table, call) && !call.Wait? && ppid == if call.Fork? then call.parent else 0
      modifies this, scheduler, scheduler.queues, scheduler.tasks`next
      ensures Valid() && fresh(task) && task in scheduler.tasks && task.empty && !task.zombie
      ensures Older(old(table).parents) && table == After(old(table), call) && task.id == table.lastId != 0
      ensures task.ppid == ppid
      ensures scheduler.contexts == old(scheduler.contexts) && fresh(scheduler.tasks - old(scheduler.tasks))
    {
      hide Scheduler.Valid, ProcessTree.Sound, Older, Lists, Marked;
      SoundOlder(table);
      scheduler.IdsBounded();
      task := scheduler.Create();
      task.ppid := ppid;
      TaskListed(old(scheduler.tasks), task, table, call);
      table := After(table, call);
    }

    /** A task that was filled in is made visible to the scheduler. */
    method Publish(task: Task)
      requires Valid() && task in scheduler.tasks && task.id != 0
      modifies task`empty
      ensures Valid() && !task.empty
    {
      hide Scheduler.Valid, ProcessTree.Sound, Lists, Marked;
      task.empty := false;
      scheduler.RunnableChanged(task);
    }

    /** The loader: a new task without a parent, runnable once it is filled in. */
    method Load() returns (task: Task)
      requires Valid() && scheduler.contexts != [] && scheduler.lastId < INT_MAX
      modifies this, scheduler, scheduler.queues, scheduler.tasks`next
      ensures Valid() && fresh(task) && task.Runnable() && task.ppid == 0
      ensures Older(old(table).parents) && table == After(old(table), ProcessTree.Load) && task.id == table.lastId
    {
      hide Valid, Older;
      task := Add(0, ProcessTree.Load);
      Publish(task);
    }

    /** sys_fork: the child gets the id of its parent before it can run. */
    method Fork(parent: Task) returns (child: Task)
      requires Valid() && scheduler.contexts != [] && scheduler.lastId < INT_MAX
      requires parent in scheduler.tasks && parent.id != 0
      modifies this, scheduler, scheduler.queues, scheduler.tasks`next
      ensures Valid() && fresh(child) && child.Runnable() && child.ppid == parent.id
      ensures Older(old(table).parents) && table == After(old(table), ProcessTree.Fork(parent.id)) && child.id == table.lastId
      ensures Descends(table.parents, child.id, parent.id)
    {
      hide Scheduler.Valid, Older, Descends;
      child := Add(parent.id, ProcessTree.Fork(parent.id));
      Publish(child);
      ChildDescends(table.parents, child.id);
    }

    /** sys_exit; idle tasks make no system calls. */
    method Exit(task: Task)
      requires Valid() && task in scheduler.tasks && task.id != 0
      modifies task`zombie
      ensures Valid() && task.zombie
    {
      hide Scheduler.Valid, ProcessTree.Sound, Lists, Marked;
      task.zombie := true;
      scheduler.RunnableChanged(task);
    }

    /** task_scheduler_round_robin_reschedule on processor `at`. */
    method Reschedule(context: Context, ghost at: nat, registers: nat) returns (nextTask: Task)
      requires Valid() && at < |scheduler.contexts| && context == scheduler.contexts[at]
      requires at < |scheduler.contents|
      modifies scheduler`contents, context.running, scheduler.contents[at]`next, scheduler.contents[at]`state
      ensures Valid() && nextTask in scheduler.tasks && nextTask.Runnable() && context.running.current == nextTask
      ensures old(context.running.current) != null && old(context.running.current).state == registers
      ensures forall t <- scheduler.tasks :: t != old(context.running.current) ==> t.state == old(t.state)
    {
      hide Scheduler.Valid, ProcessTree.Sound, Lists, Marked;
      scheduler.ContextAt(at);
      ghost var j;
      nextTask, j := scheduler.Reschedule(context, at, registers);
    }

    /** sys_waitpid by `caller`, up to the point where it starts to wait. */
    method Wait(caller: Task, pid: int, mapped: bool) returns (status: Status)
      requires Valid() && scheduler.contexts != [] && caller in scheduler.tasks && caller.id != 0
      modifies this, scheduler.tasks`isWaited
      ensures Valid() && Older(old(table).parents)
      ensures mapped ==> table == After(old(table), ProcessTree.Wait(caller.id, pid))
      ensures status.Claimed? <==> |table.claims| > |old(table).claims|
      ensures !status.Claimed? ==> table == old(table)
    {
      hide Scheduler.Valid, Descends, ProcessTree.Sound, Older, After, Lists;
      SoundOlder(table);
      WaitOutcome(scheduler.tasks, table, caller.id, pid);
      scheduler.UniqueIds();
      status := Claim(scheduler, caller.id, pid, mapped, table.parents);
      if status.Claimed? {
        assert Claimable(old(scheduler.tasks), table, caller.id, pid);
        table := After(table, ProcessTree.Wait(caller.id, pid));
      }
    }
  }

  lemma SoundOlder(table: Table)
    requires ProcessTree.Sound(table)
    ensures Older(table.parents)
  {
  }

  lemma IdleListed(tasks: set<Task>, idle: Task, table: Table)
    requires Mirrors(tasks, table) && idle.id == 0
    ensures Mirrors(tasks + {idle}, table)
  {
    forall id | id in table.parents ensures HasTask(tasks + {idle}, id) { assert HasTask(tasks, id); }
  }

  /** A new task with the next id and the parent of the call. */
  lemma TaskListed(tasks: set<Task>, task: Task, table: Table, call: Call)
    requires Mirrors(tasks, table) && task.id == table.lastId + 1 && !task.isWaited
    requires Older(table.parents) && Legal(table, call) && !call.Wait?
    requires task.ppid == if call.Fork? then call.parent else 0
    requires forall t <- tasks :: t.id <= table.lastId
    ensures Mirrors(tasks + {task}, After(table, call))
  {
    CallKeeps(table, call);
    var table' := After(table, call);
    forall id | id in table'.parents ensures HasTask(tasks + {task}, id) {
      if id != task.id { assert HasTask(tasks, id); }
    }
  }

  /** Some unclaimed task with this id descends from the caller. */
  ghost predicate Claimable(tasks: set<Task>, table: Table, caller: nat, pid: int) {
    pid > 0 && HasTask(tasks, pid) && pid !in table.claims && Descends(table.parents, pid, caller)
  }

  /** The table claims the pid exactly then. */
  lemma WaitOutcome(tasks: set<Task>, table: Table, caller: nat, pid: int)
    requires Mirrors(tasks, table) && Older(table.parents)
    ensures After(table, ProcessTree.Wait(caller, pid))
         == if Claimable(tasks, table, caller, pid) then table.(claims := table.claims + [pid]) else table
    ensures Claimable(tasks, table, caller, pid) ==> ProcessTree.Sound(table.(claims := table.claims + [pid]))
  {
    hide Descends;
    CallKeeps(table, ProcessTree.Wait(caller, pid));
    if pid > 0 && pid in table.parents {
      WalkIsDescends(table.parents, pid, caller);
      assert HasTask(tasks, pid);
    }
  }

  /** A child descends from its parent. */
  lemma ChildDescends(parents: Parents, child: nat)
    requires child in parents
    ensures Descends(parents, child, parents[child])
  {
    var path := [child, parents[child]];
    assert Line(parents, path) && path[0] == child && path[|path| - 1] == parents[child];
  }
}
