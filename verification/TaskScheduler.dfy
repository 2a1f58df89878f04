/** All processors together: the chain of scheduler contexts, creation of tasks
    on the least busy one, and lookup by pid. */
module TaskScheduler {
  import opened Sequences
  import opened Rotation
  import opened RoundRobin
  import opened LoadBalance

  const UINT64_MAX := 0xFFFF_FFFF_FFFF_FFFF
  const INT_MAX := 0x7FFF_FFFF

  class Context {
    const running: TaskQueue
    var previous: Context?

    constructor (queue: TaskQueue)
      ensures running == queue && previous == null
    {
      running := queue;
      previous := null;
    }
  }

  /** The inner walk of get_pid, over one queue, circular or not. */
  method FindInQueue(queue: TaskQueue, pid: nat) returns (found: Task?)
    requires queue.Valid() && queue.tasks != []
    ensures found != null ==> found in queue.tasks && found.id == pid
    ensures found == null ==> forall t <- queue.tasks :: t.id != pid
  {
    ghost var tasks := queue.tasks;
    var task := queue.head;
    ghost var k: nat := 0;
    found := null;
    var more := true;
    while more
      invariant k <= |tasks| && (more <==> found == null && k < |tasks|)
      invariant more ==> task == tasks[k]
      invariant found != null ==> found in tasks && found.id == pid
      invariant found == null ==> forall i: nat :: i < k ==> tasks[i].id != pid
      decreases |tasks| - k, more
    {
      if task.id == pid {
        found := task;
        more := false;
      } else {
        if k + 1 < |tasks| { assert queue.Link(k); }
        task := task.next;
        k := k + 1;
        more := task != null && task != queue.head;
      }
    }
  }

  /** Every task is on exactly one queue, and no queue is empty. */
  ghost predicate Partition(contents: seq<seq<Task>>, tasks: set<Task>) {
    && (forall i: nat :: i < |contents| ==> contents[i] != [] && Within(contents[i], tasks))
    && (forall i: nat, j: nat :: i < j < |contents| ==> Apart(contents[i], contents[j]))
    && (forall t <- tasks :: Home(contents, t))
  }

  ghost predicate Within(s: seq<Task>, tasks: set<Task>) {
    forall t <- s :: t in tasks
  }

  ghost predicate Apart(s: seq<Task>, u: seq<Task>) {
    forall t <- s :: t !in u
  }

  ghost predicate Home(contents: seq<seq<Task>>, t: Task) {
    exists i: nat :: i < |contents| && t in contents[i]
  }

  /** Ids are handed out once; 0 belongs to the idle tasks. */
  ghost predicate Numbered(tasks: set<Task>, lastId: nat) {
    && (forall t <- tasks :: t.id <= lastId)
    && (forall t <- tasks, u <- tasks :: t.id == u.id && t.id != 0 ==> t == u)
  }

  lemma PartitionGrows(contents: seq<seq<Task>>, tasks: set<Task>, at: nat, task: Task)
    requires Partition(contents, tasks) && at < |contents| && task !in tasks
    ensures Partition(contents[at := contents[at] + [task]], tasks + {task})
  {
    var contents', tasks' := contents[at := contents[at] + [task]], tasks + {task};
    forall i: nat | i < |contents'| ensures contents'[i] != [] && Within(contents'[i], tasks') {
      assert Within(contents[i], tasks);
    }
    forall i: nat, j: nat | i < j < |contents'| ensures Apart(contents'[i], contents'[j]) {
      assert Within(contents[i], tasks) && Within(contents[j], tasks) && Apart(contents[i], contents[j]);
    }
    forall t | t in tasks' ensures Home(contents', t) {
      if t == task {
        assert t in contents'[at];
      } else {
        assert Home(contents, t);
        var i: nat :| i < |contents| && t in contents[i];
        assert t in contents'[i];
      }
    }
  }

  lemma PartitionAppends(contents: seq<seq<Task>>, tasks: set<Task>, idle: Task)
    requires Partition(contents, tasks) && idle !in tasks
    ensures Partition(contents + [[idle]], tasks + {idle})
  {
    var contents', tasks' := contents + [[idle]], tasks + {idle};
    forall i: nat | i < |contents'| ensures contents'[i] != [] && Within(contents'[i], tasks') {
      if i < |contents| { assert Within(contents[i], tasks); }
    }
    forall i: nat, j: nat | i < j < |contents'| ensures Apart(contents'[i], contents'[j]) {
      assert Within(contents[i], tasks);
      if j < |contents| { assert Apart(contents[i], contents[j]); }
    }
    forall t | t in tasks' ensures Home(contents', t) {
      if t == idle {
        assert t in contents'[|contents|];
      } else {
        assert Home(contents, t);
        var i: nat :| i < |contents| && t in contents[i];
        assert t in contents'[i];
      }
    }
  }

  lemma PartitionRotates(contents: seq<seq<Task>>, tasks: set<Task>, at: nat, k: nat)
    requires Partition(contents, tasks) && at < |contents| && k <= |contents[at]|
    ensures Partition(contents[at := Rotate(contents[at], k)], tasks)
    ensures forall t: Task :: t in Rotate(contents[at], k) <==> t in contents[at]
  {
    var q, r := contents[at], Rotate(contents[at], k);
    var contents' := contents[at := r];
    RotateMembers(q, k);
    forall i: nat | i < |contents'| ensures contents'[i] != [] && Within(contents'[i], tasks) {
      assert Within(contents[i], tasks);
    }
    forall i: nat, j: nat | i < j < |contents'| ensures Apart(contents'[i], contents'[j]) {
      assert Apart(contents[i], contents[j]);
    }
    forall t | t in tasks ensures Home(contents', t) {
      assert Home(contents, t);
      var i: nat :| i < |contents| && t in contents[i];
      assert t in contents'[i];
    }
  }

  lemma IdleNumbered(tasks: set<Task>, lastId: nat, idle: Task)
    requires Numbered(tasks, lastId) && idle.id == 0
    ensures Numbered(tasks + {idle}, lastId)
  {
  }

  /** `idle` is the one task with id 0 of a queue, and it can always run. */
  ghost predicate IsIdle(q: seq<Task>, idle: Task)
    reads idle`empty, idle`zombie
  {
    idle in q && idle.id == 0 && idle.Runnable() && forall t <- q :: t.id == 0 ==> t == idle
  }

  ghost predicate HasIdle(q: seq<Task>, tasks: set<Task>)
    reads tasks`empty, tasks`zombie
  {
    exists idle <- tasks :: IsIdle(q, idle)
  }

  lemma IdleAlone(idle: Task, tasks: set<Task>)
    requires idle in tasks && idle.id == 0 && idle.Runnable()
    ensures HasIdle([idle], tasks)
  {
    assert IsIdle([idle], idle);
  }

  lemma IdleMore(q: seq<Task>, tasks: set<Task>, more: set<Task>)
    requires HasIdle(q, tasks) && tasks <= more
    ensures HasIdle(q, more)
  {
  }

  lemma IdleAppended(q: seq<Task>, tasks: set<Task>, task: Task)
    requires HasIdle(q, tasks) && task.id != 0
    ensures HasIdle(q + [task], tasks + {task})
  {
    var idle :| idle in tasks && IsIdle(q, idle);
    assert IsIdle(q + [task], idle);
  }

  lemma IdleSame(q: seq<Task>, r: seq<Task>, tasks: set<Task>)
    requires HasIdle(q, tasks) && forall t: Task :: t in r <==> t in q
    ensures HasIdle(r, tasks)
  {
    var idle :| idle in tasks && IsIdle(q, idle);
    assert IsIdle(r, idle);
  }

  lemma IdleRuns(q: seq<Task>, tasks: set<Task>)
    requires HasIdle(q, tasks)
    ensures exists i: nat :: i < |q| && q[i].Runnable()
  {
    var idle :| idle in tasks && IsIdle(q, idle);
    var i: nat :| i < |q| && q[i] == idle;
  }

  method IdleQueue() returns (queue: TaskQueue, idle: Task)
    ensures fresh(queue) && fresh(idle) && queue.Valid() && queue.tasks == [idle]
    ensures idle.id == 0 && idle.Runnable()
  {
    queue := new TaskQueue();
    idle := new Task(0, false);
    queue.Push(idle);
  }

  class Scheduler {
    var lastContext: Context?
    var lastId: nat
    ghost var contexts: seq<Context>
    ghost var queues: seq<TaskQueue>
    ghost var contents: seq<seq<Task>>
    ghost var tasks: set<Task>

    ghost predicate Previous(i: nat)
      reads this, contexts
      requires i < |contexts|
    {
      contexts[i].previous == if i > 0 then contexts[i - 1] else null
    }

    /** The contexts are chained backwards from the one installed last. */
    ghost predicate Chained()
      reads this, contexts
    {
      && lastContext == (if contexts == [] then null else contexts[|contexts| - 1])
      && |queues| == |contexts| == |contents|
      && (forall i: nat {:trigger Previous(i)} :: i < |contexts| ==> Previous(i))
      && (forall i: nat :: i < |contexts| ==> contexts[i].running == queues[i])
      && (forall i: nat, j: nat :: i < j < |contexts| ==> contexts[i] != contexts[j] && queues[i] != queues[j])
    }

    /** Queue `i` is a sound queue with the tasks `contents[i]`. */
    ghost predicate QueueSound(i: nat)
      reads this, queues, tasks`next
      requires i < |queues| == |contents|
    {
      queues[i].tasks == contents[i] && Within(contents[i], tasks) && queues[i].Valid()
    }

    ghost predicate Sound()
      reads this, queues, tasks`next
    {
      && |queues| == |contents|
      && (forall i: nat {:trigger QueueSound(i)} :: i < |queues| ==> QueueSound(i))
    }

    ghost predicate IdleAt(i: nat)
      reads this, tasks`empty, tasks`zombie
      requires i < |contents|
    {
      HasIdle(contents[i], tasks)
    }

    ghost predicate Idles()
      reads this, tasks`empty, tasks`zombie
    {
      forall i: nat {:trigger IdleAt(i)} :: i < |contents| ==> IdleAt(i)
    }

    ghost predicate Valid()
      reads this, contexts, queues, tasks`next, tasks`empty, tasks`zombie
    {
      Chained() && Sound() && Partition(contents, tasks) && Numbered(tasks, lastId) && Idles()
    }

    ghost function Counts(): (s: seq<nat>)
      reads this
      ensures |s| == |contents|
      ensures forall i: nat :: i < |contents| ==> s[i] == |contents[i]|
    {
      var c := contents;
      seq(|c|, i requires 0 <= i < |c| => |c[i]|)
    }

    constructor ()
      ensures Valid() && contexts == [] && lastId == 0
    {
      lastContext, lastId, contexts, queues, contents, tasks := null, 0, [], [], [], {};
    }

    /** task_scheduler_round_robin_install_context: one more processor, whose queue
        holds its idle task. */
    method InstallContext() returns (context: Context, idle: Task)
      requires Valid()
      modifies this
      ensures Valid() && fresh(context) && fresh(idle) && idle.id == 0 && idle.Runnable()
      ensures contexts == old(contexts) + [context] && contents == old(contents) + [[idle]]
      ensures tasks == old(tasks) + {idle} && lastId == old(lastId)
    {
      hide Valid, TaskQueue.Valid;
      var queue;
      queue, idle := IdleQueue();
      context := new Context(queue);
      context.previous := lastContext;
      NewObjects(context, queue, idle);
      Attach(context, queue, idle);
    }

    /** What is not yet allocated is not part of a scheduler. */
    twostate lemma NewObjects(new context: Context, new queue: TaskQueue, new idle: Task)
      requires old(Valid()) && fresh(context) && fresh(queue) && fresh(idle)
      requires unchanged(this) && unchanged(old(contexts)) && unchanged(old(queues)) && unchanged(old(tasks))
      ensures Valid() && context !in contexts && queue !in queues && idle !in tasks
    {
      hide Numbered, Partition, HasIdle;
      forall i: nat | i < |contexts| ensures Previous(i) { assert old(Previous(i)); }
      forall i: nat | i < |queues| ensures QueueSound(i) { assert old(QueueSound(i)); }
      forall i: nat | i < |contents| ensures IdleAt(i) { assert old(IdleAt(i)); }
    }

    /** The new context goes to the end of the chain. */
    method Attach(context: Context, ghost queue: TaskQueue, ghost idle: Task)
      requires Valid() && context !in contexts && queue !in queues && idle !in tasks
      requires context.running == queue && context.previous == lastContext
      requires queue.Valid() && queue.tasks == [idle] && idle.id == 0 && idle.Runnable()
      modifies this
      ensures Valid()
      ensures contexts == old(contexts) + [context] && contents == old(contents) + [[idle]]
      ensures tasks == old(tasks) + {idle} && lastId == old(lastId)
    {
      hide Numbered, Partition, TaskQueue.Valid, HasIdle;
      PartitionAppends(contents, tasks, idle);
      IdleNumbered(tasks, lastId, idle);
      lastContext := context;
      contexts, queues, contents, tasks := contexts + [context], queues + [queue], contents + [[idle]], tasks + {idle};
      forall i: nat | i < |contexts| ensures Previous(i) {
        if i < |old(contexts)| { assert old(Previous(i)); }
      }
      forall i: nat | i < |queues| ensures QueueSound(i) {
        if i < |old(contexts)| {
          assert old(QueueSound(i));
          WithinMore(contents[i], old(tasks), tasks);
        }
      }
      forall i: nat | i < |contents| ensures IdleAt(i) {
        if i < |old(contents)| {
          assert old(IdleAt(i));
          IdleMore(contents[i], old(tasks), tasks);
        } else {
          IdleAlone(idle, tasks);
        }
      }
    }

    lemma ContextAt(i: nat)
      requires Valid() && i < |contexts|
      ensures |queues| == |contexts| == |contents| && contexts[i].running == queues[i]
      ensures contexts[i].previous == if i > 0 then contexts[i - 1] else null
      ensures queues[i].Valid() && queues[i].tasks == contents[i] != [] && queues[i].count == |contents[i]|
      ensures Within(contents[i], tasks)
    {
      hide Numbered, Home, Apart;
      assert Previous(i) && QueueSound(i);
    }

    lemma LastIsLast()
      requires Valid()
      ensures lastContext == (if contexts == [] then null else contexts[|contexts| - 1])
      ensures |queues| == |contexts| == |contents| && Partition(contents, tasks)
    {
    }

    ghost predicate Absent(j: nat, pid: nat)
      reads this
      requires j < |contents|
    {
      forall t <- contents[j] :: t.id != pid
    }

    /** task_scheduler_round_robin_get_pid: the one task with this id, or null
        exactly when there is none. */
    method GetPid(pid: nat) returns (found: Task?)
      requires Valid() && contexts != []
      ensures found != null ==> pid != 0 && found in tasks && found.id == pid
      ensures found == null && pid != 0 ==> forall t <- tasks :: t.id != pid
    {
      hide Chained, Sound, Partition, Numbered;
      if pid == 0 { return null; }
      LastIsLast();
      var context := lastContext;
      ghost var i := |contexts| - 1;
      found := null;
      while context != null && found == null
        invariant -1 <= i < |contexts| == |contents|
        invariant context == if i >= 0 then contexts[i] else null
        invariant found != null ==> found in tasks && found.id == pid
        invariant found == null ==> forall j: nat :: i < j < |contexts| ==> Absent(j, pid)
        decreases i, found == null
      {
        ContextAt(i);
        found := FindInQueue(context.running, pid);
        if found == null {
          context := context.previous;
          i := i - 1;
        }
      }
      if found == null { NobodyHas(pid); }
    }

    lemma NobodyHas(pid: nat)
      requires Partition(contents, tasks) && forall j: nat :: j < |contents| ==> Absent(j, pid)
      ensures forall t <- tasks :: t.id != pid
    {
      forall t | t in tasks ensures t.id != pid {
        assert Home(contents, t);
        var j: nat :| j < |contents| && t in contents[j];
        assert Absent(j, pid);
      }
    }

    /** Two tasks with the same nonzero id are one task. */
    lemma UniqueIds()
      requires Valid()
      ensures forall t <- tasks, u <- tasks :: t.id == u.id && t.id != 0 ==> t == u
    {
    }

    lemma IdsBounded()
      requires Valid()
      ensures forall t <- tasks :: t.id <= lastId
    {
    }

    /** A queue holds at most one task per id. */
    lemma QueuesAreShort()
      requires Valid()
      ensures forall i: nat :: i < |contents| ==> |contents[i]| <= lastId + 1
    {
      forall i: nat | i < |contents| ensures |contents[i]| <= lastId + 1 {
        assert QueueSound(i) && IdleAt(i);
        var q := contents[i];
        var ids: seq<nat> := seq(|q|, k requires 0 <= k < |q| => q[k].id);
        assert forall k: nat :: k < |q| ==> q[k] in tasks;
        BoundedLength(ids, lastId + 1);
      }
    }

    /** The search for the least busy processor in task_scheduler_round_robin_create. */
    method FindLeastLoaded() returns (free: Context, ghost at: nat)
      requires Valid() && contexts != []
      requires forall i: nat :: i < |contents| ==> |contents[i]| < UINT64_MAX
      ensures at == LeastLoaded(Counts()) && at < |contexts| && free == contexts[at]
    {
      hide Chained, Sound, Partition, Numbered, LeastLoaded;
      LastIsLast();
      var min: nat := UINT64_MAX;
      var context := lastContext;
      ghost var i: int := |contexts| - 1;
      free := lastContext;
      at := |contexts| - 1;
      while context != null
        invariant -1 <= i < |contexts| && context == if i >= 0 then contexts[i] else null
        invariant at < |contexts| && free == contexts[at]
        invariant i == |contexts| - 1 ==> min == UINT64_MAX
        invariant i < |contexts| - 1 ==> i < at && min == |contents[at]|
        invariant forall j: nat :: i < j < |contexts| ==> min <= |contents[j]|
        invariant i < |contexts| - 1 ==> forall j: nat :: at < j < |contexts| ==> min < |contents[j]|
        decreases i + 1
      {
        ContextAt(i);
        if context.running.count < min {
          min := context.running.count;
          free := context;
          at := i;
        }
        context := context.previous;
        i := i - 1;
      }
      LeastLoadedUnique(Counts(), at);
    }

    /** Pushing on queue `at` leaves the other queues and their tasks alone. */
    method PushOn(queue: TaskQueue, ghost at: nat, task: Task)
      requires Valid() && at < |contexts| && queue == queues[at]
      requires task !in tasks && task.next == null
      modifies queue, contents[at]`next
      ensures queue.Valid() && queue.tasks == contents[at] + [task]
      ensures forall i: nat :: i < |queues| && i != at ==> unchanged(queues[i])
      ensures forall t <- tasks :: t !in contents[at] ==> t.next == old(t.next)
    {
      hide Partition, Numbered, Sound;
      ContextAt(at);
      queue.Push(task);
    }

    /** The queues other than `at` are as sound as before. */
    twostate lemma OthersSound(at: nat)
      requires old(Sound()) && old(Partition(contents, tasks)) && queues == old(queues) && contents == old(contents) && tasks == old(tasks)
      requires at < |queues|
      requires forall i: nat :: i < |queues| && i != at ==> unchanged(queues[i])
      requires forall t <- tasks :: t !in contents[at] ==> t.next == old(t.next)
      ensures forall i: nat {:trigger QueueSound(i)} :: i < |queues| && i != at ==> QueueSound(i)
    {
      forall i: nat | i < |queues| && i != at ensures QueueSound(i) {
        assert old(QueueSound(i));
        assert if i < at then Apart(contents[i], contents[at]) else Apart(contents[at], contents[i]);
      }
    }

    /** The new task goes on queue `at`, and the id counter moves on. */
    method Place(context: Context, ghost at: nat, task: Task)
      requires Valid() && at < |contexts| && context == contexts[at]
      requires task !in tasks && task.next == null && task.id == lastId + 1
      modifies this, context.running, contents[at]`next
      ensures contexts == old(contexts) && lastId == old(lastId) + 1 && tasks == old(tasks) + {task}
      ensures contents == old(contents)[at := old(contents)[at] + [task]]
      ensures Valid()
    {
      hide Partition, Numbered, TaskQueue.Valid, HasIdle;
      ContextAt(at);
      PartitionGrows(contents, tasks, at, task);
      NumberedGrows(tasks, lastId, task);
      PushOn(context.running, at, task);
      OthersSound(at);
      label Linked:
      ghost var before := tasks;
      lastId := lastId + 1;
      tasks := tasks + {task};
      contents := contents[at := contents[at] + [task]];
      forall i: nat | i < |contexts| ensures Previous(i) { assert old(Previous(i)); }
      forall i: nat | i < |queues| ensures QueueSound(i) {
        if i != at {
          assert old@Linked(QueueSound(i));
          WithinMore(contents[i], before, tasks);
        } else {
          WithinMore(old(contents[at]), before, tasks);
        }
      }
      forall i: nat | i < |contents| ensures IdleAt(i) {
        assert old(IdleAt(i));
        if i == at { IdleAppended(old(contents[at]), before, task); } else { IdleMore(contents[i], before, tasks); }
      }
    }

    /** task_scheduler_round_robin_create: a new empty task with a new id on the
        least busy processor. */
    method Create() returns (task: Task)
      requires Valid() && contexts != [] && lastId < INT_MAX
      modifies this, queues, tasks`next
      ensures Valid() && fresh(task) && task.empty && !task.zombie && task.ppid == 0 && !task.isWaited && contexts == old(contexts)
      ensures task.id == old(lastId) + 1 == lastId && tasks == old(tasks) + {task}
      ensures var i := LeastLoaded(old(Counts()));
              i < |old(contents)| && contents == old(contents)[i := old(contents)[i] + [task]]
    {
      hide LeastLoaded, Numbered, Sound, Idles;
      QueuesAreShort();
      task := new Task(lastId + 1, true);
      var free, at := FindLeastLoaded();
      ContextAt(at);
      Place(free, at, task);
    }

    /** A task other than an idle one may stop or become runnable at any time. */
    twostate lemma RunnableChanged(task: Task)
      requires old(Valid()) && task.id != 0 && unchanged(this) && unchanged(contexts) && unchanged(queues)
      requires forall t <- tasks :: t.next == old(t.next)
      requires forall t <- tasks :: t != task ==> t.empty == old(t.empty) && t.zombie == old(t.zombie)
      ensures Valid()
    {
      hide Numbered, Partition;
      forall i: nat | i < |contexts| ensures Previous(i) { assert old(Previous(i)); }
      forall i: nat | i < |queues| ensures QueueSound(i) { assert old(QueueSound(i)); }
      forall i: nat | i < |contents| ensures IdleAt(i) {
        assert old(IdleAt(i));
        var idle :| idle in tasks && old(IsIdle(contents[i], idle));
        assert IsIdle(contents[i], idle);
      }
    }

    /** A reschedule on processor `at`, seen from the whole scheduler: its queue
        rotates, the other queues and every id stay as they are. */
    method Reschedule(context: Context, ghost at: nat, registers: nat) returns (nextTask: Task, ghost j: nat)
      requires Valid() && at < |contexts| && context == contexts[at]
      modifies this`contents, context.running, contents[at]`next, contents[at]`state
      ensures Valid()
      ensures j < |old(contents)[at]| && nextTask == old(contents)[at][j] && nextTask.Runnable()
      ensures forall i: nat :: i < j ==> !old(contents)[at][i].Runnable()
      ensures contents == old(contents)[at := Rotate(old(contents)[at], j + 1)]
      ensures context.running.current == nextTask
      ensures old(context.running.current) != null && old(context.running.current).state == registers
      ensures forall t <- tasks :: t != old(context.running.current) ==> t.state == old(t.state)
    {
      hide Partition, Numbered, Within, TaskQueue.Valid, HasIdle;
      ContextAt(at);
      var queue := context.running;
      CurrentKnown(queue);
      assert IdleAt(at);
      IdleRuns(contents[at], tasks);
      nextTask, j := queue.Reschedule(registers);
      PartitionRotates(contents, tasks, at, j + 1);
      OthersSound(at);
      label Rotated:
      contents := contents[at := Rotate(contents[at], j + 1)];
      forall i: nat | i < |contexts| ensures Previous(i) { assert old(Previous(i)); }
      forall i: nat | i < |queues| ensures QueueSound(i) {
        if i != at {
          assert old@Rotated(QueueSound(i));
        } else {
          SameMembers(old(contents[at]), contents[at], tasks);
        }
      }
      forall i: nat | i < |contents| ensures IdleAt(i) {
        assert old(IdleAt(i));
        if i == at { IdleSame(old(contents[at]), contents[at], tasks); }
      }
    }
  }

  /** Different numbers below `n` are at most `n`. */
  lemma {:induction false} BoundedLength(ids: seq<nat>, n: nat)
    requires Distinct(ids) && forall k: nat :: k < |ids| ==> ids[k] < n
    ensures |ids| <= n
  {
    assert |ids| > 0 ==> ids[0] < n;
    if n > 0 {
      if k: nat :| k < |ids| && ids[k] == n - 1 {
        BoundedLength(Without(ids, k), n - 1);
      } else {
        BoundedLength(ids, n - 1);
      }
    }
  }

  lemma CurrentKnown(queue: TaskQueue)
    requires queue.Valid() && queue.tasks != []
    ensures queue.current != null && queue.current in queue.tasks
  {
  }

  lemma SameMembers(q: seq<Task>, r: seq<Task>, tasks: set<Task>)
    requires Within(q, tasks) && forall t: Task :: t in r <==> t in q
    ensures Within(r, tasks)
  {
  }

  lemma NumberedGrows(tasks: set<Task>, lastId: nat, task: Task)
    requires Numbered(tasks, lastId) && task.id == lastId + 1
    ensures Numbered(tasks + {task}, lastId + 1)
  {
  }

  lemma WithinMore(s: seq<Task>, small: set<Task>, tasks: set<Task>)
    requires small <= tasks
    ensures Within(s, small) ==> Within(s, tasks)
  {
  }

  lemma LeastLoadedUnique(counts: seq<nat>, i: nat)
    requires i < |counts|
    requires forall j: nat :: j < |counts| ==> counts[i] <= counts[j]
    requires forall j: nat :: i < j < |counts| ==> counts[i] < counts[j]
    ensures i == LeastLoaded(counts)
  {
    hide LeastLoaded, Min;
    var k := LeastLoaded(counts);
  }
}
