/** The checks and the claim of sys_waitpid, on the linked task queues. */
module WaitPid {
  import opened RoundRobin
  import opened TaskScheduler
  import opened ProcessTree

  datatype Status = NoChild | BadAddress | Claimed(task: Task)

  /** `parents` lists the parent of every task that has an id. */
  ghost predicate Lists(tasks: set<Task>, parents: Parents)
    reads tasks`ppid
  {
    && Older(parents)
    && (forall t <- tasks :: t.id != 0 ==> t.id in parents && parents[t.id] == t.ppid)
    && (forall id <- parents :: HasTask(tasks, id))
  }

  ghost predicate HasTask(tasks: set<Task>, id: nat) {
    exists t <- tasks :: t.id == id
  }

  /** The do-while loop over the ancestors of `target`. */
  method IsDescendant(s: Scheduler, target: Task, caller: nat, ghost parents: Parents) returns (isChild: bool)
    requires s.Valid() && s.contexts != [] && target in s.tasks && target.id != 0
    requires Lists(s.tasks, parents)
    ensures isChild <==> Descends(parents, target.id, caller)
  {
    hide Descends, Scheduler.Valid;
    isChild := false;
    var task: Task? := target;
    WalkIsDescends(parents, target.id, caller);
    while !isChild && task != null
      invariant task != null ==> task in s.tasks && task.id != 0
      invariant isChild ==> Walk(parents, target.id, caller)
      invariant !isChild && task != null ==> Walk(parents, target.id, caller) == Walk(parents, task.id, caller)
      invariant !isChild && task == null ==> !Walk(parents, target.id, caller)
      decreases !isChild, if task == null then 0 else task.id + 1
    {
      if task.ppid == caller {
        isChild := true;
      } else {
        ghost var ppid := task.ppid;
        task := s.GetPid(task.ppid);
        assert task == null && ppid in parents ==> HasTask(s.tasks, ppid);
      }
    }
  }

  /** sys_waitpid up to the point where it starts to wait. `mapped` tells whether
      the address for the status is user memory. */
  method Claim(s: Scheduler, caller: nat, pid: int, mapped: bool, ghost parents: Parents) returns (status: Status)
    requires s.Valid() && s.contexts != [] && Lists(s.tasks, parents)
    modifies s.tasks`isWaited
    ensures status.Claimed? ==>
              && status.task in s.tasks && status.task.id == pid > 0 && !old(status.task.isWaited) && status.task.isWaited
              && mapped && Descends(parents, pid, caller)
              && (forall t <- s.tasks :: t != status.task ==> t.isWaited == old(t.isWaited))
    ensures !status.Claimed? ==> forall t <- s.tasks :: t.isWaited == old(t.isWaited)
    ensures status == BadAddress <==>
              !mapped && pid > 0 && exists t :: t in s.tasks && t.id == pid && !old(t.isWaited)
    ensures status == NoChild && mapped ==>
              forall t <- s.tasks :: t.id == pid && pid > 0 ==> t.isWaited || !Descends(parents, pid, caller)
  {
    hide Descends, Scheduler.Valid;
    if pid < 0 { return NoChild; }
    var referred := s.GetPid(pid);
    if referred == null || referred.isWaited {
      s.UniqueIds();
      return NoChild;
    }
    if !mapped { return BadAddress; }
    var isChild := IsDescendant(s, referred, caller, parents);
    if !isChild || referred.isWaited {
      return NoChild;
    }
    referred.isWaited := true;
    return Claimed(referred);
  }
}
