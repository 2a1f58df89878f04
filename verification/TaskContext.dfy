/** The two GS base registers that hold the processor context and the context
    of the running task. The two kinds are told apart by their first field: the
    magic of a processor context, or the id of a task. */
module TaskContext {
  const CONTEXT_TYPE_CPU := 0x5555_5555

  datatype Pointer = Null | Processor | Task(id: nat)

  /** MSR_GS_BASE and MSR_GS_KERNEL_BASE. */
  datatype Gs = Gs(base: Pointer, kernel: Pointer) {
    function Swap(): Gs {
      Gs(kernel, base)
    }
  }

  /** The `context_type` field, which in a task is its id. */
  function TypeOf(p: Pointer): nat
    requires p != Null
  {
    match p
    case Processor => CONTEXT_TYPE_CPU
    case Task(id) => id
  }

  function AfterGetCpu(g: Gs): Gs {
    if g.base == Null || TypeOf(g.base) != CONTEXT_TYPE_CPU then g.Swap() else g
  }

  function AfterGetTask(g: Gs): Gs
    requires g.base != Null
  {
    if TypeOf(g.base) == CONTEXT_TYPE_CPU then g.Swap() else g
  }

  /** One register holds the processor context, the other the context of `p`. */
  ghost predicate Holds(g: Gs, p: Pointer) {
    g == Gs(Processor, p) || g == Gs(p, Processor)
  }

  /** A pointer that cannot be taken for a processor context. */
  predicate Distinguished(p: Pointer) {
    p == Null || (p.Task? && p.id != CONTEXT_TYPE_CPU)
  }

  class Registers {
    var gs: Gs

    /** arch_context_install */
    constructor ()
      ensures gs == Gs(Processor, Null)
    {
      gs := Gs(Processor, Null);
    }

    /** arch_get_cpu_context: the processor context, in whichever register it was,
        with the other context kept. */
    method GetCpuContext() returns (p: Pointer)
      modifies this
      ensures forall q: Pointer :: Holds(old(gs), q) && Distinguished(q) ==> p == Processor && gs == Gs(Processor, q)
      ensures gs == AfterGetCpu(old(gs)) && p == gs.base
    {
      var context := gs.base;
      if context == Null || TypeOf(context) != CONTEXT_TYPE_CPU {
        gs := gs.Swap();
      }
      p := gs.base;
    }

    /** arch_get_task_context: the other context, whichever register it was in. The
        current context is read, so it must not be null. */
    method GetTaskContext() returns (p: Pointer)
      requires gs.base != Null
      modifies this
      ensures forall q: Pointer :: Holds(old(gs), q) && Distinguished(q) ==> p == q && gs == Gs(q, Processor)
      ensures gs == AfterGetTask(old(gs)) && p == gs.base
    {
      var context := gs.base;
      if TypeOf(context) == CONTEXT_TYPE_CPU {
        gs := gs.Swap();
      }
      p := gs.base;
    }

    /** arch_install_task_context: the new task takes the place of the old one and
        the processor context stays. The next lookup finds the task exactly when
        its id is not the magic. */
    method InstallTaskContext(task: nat)
      requires gs.base != Null
      modifies this
      ensures forall q: Pointer :: Holds(old(gs), q) && Distinguished(q) ==>
                && Holds(gs, Task(task)) && gs.base == Task(task)
                && (AfterGetTask(gs).base == Task(task) <==> task != CONTEXT_TYPE_CPU)
      ensures gs == AfterGetTask(old(gs)).(base := Task(task))
    {
      var ignored := GetTaskContext();
      gs := gs.(base := Task(task));
    }
  }

  /** The registers after a reschedule that switches to `task`: the scheduler
      context is fetched first, then the task context is installed. */
  function AfterSwitch(g: Gs, task: nat): Gs
    requires AfterGetCpu(g).base != Null
  {
    AfterGetTask(AfterGetCpu(g)).(base := Task(task))
  }

  /** Both lookups find their context whatever order they come in, and neither
      reads through a null pointer once a task has been installed. */
  lemma LookupsKeep(g: Gs, p: Pointer)
    requires Holds(g, p) && Distinguished(p)
    ensures AfterGetCpu(g) == Gs(Processor, p)
    ensures g.base != Null ==> AfterGetTask(g) == Gs(p, Processor)
  {
  }

  /** After a switch the task lookup returns the new task, exactly when the id of
      that task is not the magic of a processor context. */
  lemma SwitchInstalls(g: Gs, p: Pointer, task: nat)
    requires Holds(g, p) && Distinguished(p)
    ensures AfterGetCpu(g).base != Null
    ensures AfterSwitch(g, task) == Gs(Task(task), Processor)
    ensures AfterGetTask(AfterSwitch(g, task)).base == Task(task) <==> task != CONTEXT_TYPE_CPU
    ensures task != CONTEXT_TYPE_CPU ==> Holds(AfterSwitch(g, task), Task(task)) && Distinguished(Task(task))
  {
    LookupsKeep(g, p);
  }
}
