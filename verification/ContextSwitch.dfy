/** What the scheduler of one processor does to the registers of its tasks: it
    multiplexes them so that every task sees a processor of its own. */
module ContextSwitch {
  import opened Sequences
  import opened Rotation
  import opened TaskContext

  /** The processor: its run queue, the saved registers of each task, the live
      registers, and the two GS bases. */
  datatype Cpu<R> = Cpu(queue: Queue, current: nat, saved: map<nat, R>, regs: R, gs: Gs)

  /** The reference: each task keeps its registers to itself; `running` is the
      task that executes. */
  datatype Private<R> = Private(states: map<nat, R>, running: nat)

  datatype Happening<R> =
    | Work(regs: R)                  // the running task computes
    | Interrupt                      // task_scheduler_reschedule
    | Create(task: nat, regs: R)     // a new, empty task is pushed
    | Fill(task: nat, regs: R)       // fork or the loader writes its registers
    | Start(task: nat)               // and clears `empty`
    | Quit                           // the running task becomes a zombie
    | AskCpu                         // kernel code looks up the processor context
    | AskTask                        // kernel code looks up the task context

  /** What callers keep to: only tasks that are not runnable are filled in, a task
      id is used once, and the idle task never exits. */
  predicate Allowed<R>(c: Cpu<R>, idle: nat, h: Happening<R>) {
    match h
    case Work(_) => true
    case Interrupt => true
    case Create(t, _) => t !in c.queue.order && t !in c.queue.runnable && t != CONTEXT_TYPE_CPU
    case Fill(t, _) => t in c.queue.order && t !in c.queue.runnable && t != c.current
    case Start(t) => t in c.queue.order
    case Quit => c.current != idle
    case AskCpu => true
    case AskTask => c.gs.base != Null
  }

  /** task_scheduler_round_robin_reschedule: save into `running.current`, pop
      until the task is neither empty nor a zombie, install it, restore it. A pop
      moves `current` along only when there is more than one task. */
  function Switch<R>(c: Cpu<R>, j: nat): Cpu<R>
    requires j < |c.queue.order| && AfterGetCpu(c.gs).base != Null
    requires c.queue.order[j] in c.saved || c.queue.order[j] == c.current
  {
    var saved := c.saved[c.current := c.regs];
    var next := c.queue.order[j];
    Cpu(c.queue.(order := Rotate(c.queue.order, j + 1)),
        if |c.queue.order| > 1 then next else c.current,
        saved, saved[next], AfterSwitch(c.gs, next))
  }

  ghost predicate Inv<R>(c: Cpu<R>, idle: nat) {
    && Distinct(c.queue.order)
    && idle in c.queue.order && idle in c.queue.runnable
    && c.current in c.queue.order
    && (forall t <- c.queue.order :: t in c.saved && t != CONTEXT_TYPE_CPU)
    && (Holds(c.gs, Null) || Holds(c.gs, Task(c.current)))
  }

  /** The live registers belong to the running task, the saved ones to the rest. */
  ghost predicate Simulates<R>(c: Cpu<R>, p: Private<R>) {
    && p.running == c.current
    && (forall t <- c.queue.order :: t in p.states && t in c.saved &&
          (if t == c.current then c.regs else c.saved[t]) == p.states[t])
  }

  function Chosen<R>(c: Cpu<R>): nat {
    FirstRunnable(c.queue.order, c.queue.runnable)
  }

  lemma ChosenExists<R>(c: Cpu<R>, idle: nat)
    requires Inv(c, idle)
    ensures Chosen(c) < |c.queue.order|
    ensures c.queue.order[Chosen(c)] in c.queue.order && c.queue.order[Chosen(c)] in c.queue.runnable
    ensures AfterGetCpu(c.gs).base != Null
  {
    var i: nat :| i < |c.queue.order| && c.queue.order[i] == idle;
    if Holds(c.gs, Null) { LookupsKeep(c.gs, Null); } else { LookupsKeep(c.gs, Task(c.current)); }
  }

  ghost function Next<R>(c: Cpu<R>, idle: nat, h: Happening<R>): Cpu<R>
    requires Inv(c, idle) && Allowed(c, idle, h)
  {
    match h
    case Work(r) => c.(regs := r)
    case Interrupt => ChosenExists(c, idle); Switch(c, Chosen(c))
    case Create(t, r) => c.(queue := c.queue.(order := c.queue.order + [t]), saved := c.saved[t := r])
    case Fill(t, r) => c.(saved := c.saved[t := r])
    case Start(t) => c.(queue := c.queue.(runnable := c.queue.runnable + {t}))
    case Quit => c.(queue := c.queue.(runnable := c.queue.runnable - {c.current}))
    case AskCpu => c.(gs := AfterGetCpu(c.gs))
    case AskTask => c.(gs := AfterGetTask(c.gs))
  }

  /** The same happening on private registers: an interrupt only changes who runs. */
  function PrivateNext<R>(p: Private<R>, chosen: nat, h: Happening<R>): Private<R> {
    match h
    case Work(r) => p.(states := p.states[p.running := r])
    case Interrupt => p.(running := chosen)
    case Create(t, r) => p.(states := p.states[t := r])
    case Fill(t, r) => p.(states := p.states[t := r])
    case _ => p
  }

  /** The task switched to: the first runnable one. */
  function Successor<R>(c: Cpu<R>): nat
    requires Chosen(c) < |c.queue.order|
  {
    c.queue.order[Chosen(c)]
  }

  lemma IdleRuns<R>(c: Cpu<R>, idle: nat)
    requires Inv(c, idle)
    ensures idle in c.queue.runnable && AfterGetCpu(c.gs).base != Null
  {
    ChosenExists(c, idle);
  }

  /** The state after an interrupt, field by field. */
  lemma Interrupted<R>(c: Cpu<R>, idle: nat)
    requires Inv(c, idle)
    ensures Chosen(c) < |c.queue.order|
    ensures var c', next := Next(c, idle, Interrupt), Successor(c);
            && next in c.queue.order && next in c.queue.runnable && next in c.saved
            && c'.current == next && c'.saved == c.saved[c.current := c.regs] && c'.regs == c'.saved[next]
            && c'.queue.runnable == c.queue.runnable
            && c'.queue.order == Rotate(c.queue.order, Chosen(c) + 1)
            && AfterGetCpu(c.gs).base != Null && c'.gs == AfterSwitch(c.gs, next)
  {
    hide FirstRunnable, Rotate, AfterSwitch, Distinct;
    ChosenExists(c, idle);
    assert |c.queue.order| == 1 ==> c.queue.order == [c.current];
  }

  lemma InterruptKeepsInv<R>(c: Cpu<R>, idle: nat)
    requires Inv(c, idle)
    ensures Inv(Next(c, idle, Interrupt), idle)
  {
    hide FirstRunnable, Rotate, AfterSwitch, Next, Distinct;
    Interrupted(c, idle);
    RotateMembers(c.queue.order, Chosen(c) + 1);
    RotateDistinct(c.queue.order, Chosen(c) + 1);
    var next := Successor(c);
    if Holds(c.gs, Null) { SwitchInstalls(c.gs, Null, next); } else { SwitchInstalls(c.gs, Task(c.current), next); }
  }

  lemma InterruptKeeps<R>(c: Cpu<R>, idle: nat, p: Private<R>)
    requires Inv(c, idle) && Simulates(c, p)
    ensures var c' := Next(c, idle, Interrupt);
            && Inv(c', idle)
            && c'.current == c.queue.order[Chosen(c)]
            && Simulates(c', PrivateNext(p, c'.current, Interrupt))
  {
    hide FirstRunnable, Rotate, AfterSwitch, Next, Holds;
    InterruptKeepsInv(c, idle);
    Interrupted(c, idle);
    RotateMembers(c.queue.order, Chosen(c) + 1);
  }

  /** Every step of the scheduler is a step of the reference. */
  lemma StepKeeps<R>(c: Cpu<R>, idle: nat, p: Private<R>, h: Happening<R>)
    requires Inv(c, idle) && Simulates(c, p) && Allowed(c, idle, h)
    ensures Inv(Next(c, idle, h), idle)
    ensures Simulates(Next(c, idle, h), PrivateNext(p, Next(c, idle, h).current, h))
  {
    match h
    case Interrupt => InterruptKeeps(c, idle, p);
    case AskCpu => GsKept(c, idle);
    case AskTask => GsKept(c, idle);
    case _ =>
  }

  lemma GsKept<R>(c: Cpu<R>, idle: nat)
    requires Inv(c, idle)
    ensures Holds(c.gs, Null) ==> Holds(AfterGetCpu(c.gs), Null) && (c.gs.base != Null ==> Holds(AfterGetTask(c.gs), Null))
    ensures Holds(c.gs, Task(c.current)) ==>
              && AfterGetCpu(c.gs) == Gs(Processor, Task(c.current))
              && c.gs.base != Null && AfterGetTask(c.gs) == Gs(Task(c.current), Processor)
  {
    if Holds(c.gs, Null) { LookupsKeep(c.gs, Null); } else { LookupsKeep(c.gs, Task(c.current)); }
  }

  // ------------------------------------------------------------ whole runs

  datatype Pair<R> = Misuse | Reached(cpu: Cpu<R>, private: Private<R>)

  /** A run of the processor beside the reference. */
  ghost function Run<R>(c: Cpu<R>, idle: nat, p: Private<R>, hs: seq<Happening<R>>): Pair<R>
    requires Inv(c, idle) && Simulates(c, p)
    decreases |hs|
  {
    if hs == [] then Reached(c, p)
    else if !Allowed(c, idle, hs[0]) then Misuse
    else
      StepKeeps(c, idle, p, hs[0]);
      var c' := Next(c, idle, hs[0]);
      Run(c', idle, PrivateNext(p, c'.current, hs[0]), hs[1..])
  }

  /** Transparency of context switching over every run: the processor's registers
      are those of the task that runs, and every other task's are saved as it
      left them, so each task resumes exactly where it was interrupted. Once the
      first switch has happened, the task lookup returns the running task. */
  lemma {:induction false} Transparent<R>(c: Cpu<R>, idle: nat, p: Private<R>, hs: seq<Happening<R>>)
    requires Inv(c, idle) && Simulates(c, p)
    ensures var r := Run(c, idle, p, hs);
            r.Reached? ==>
              && Inv(r.cpu, idle) && Simulates(r.cpu, r.private)
              && ((Interrupt in hs || Holds(c.gs, Task(c.current))) ==>
                    r.cpu.gs.base != Null && AfterGetTask(r.cpu.gs).base == Task(r.private.running))
    decreases |hs|
  {
    if hs == [] {
      GsKept(c, idle);
    } else if Allowed(c, idle, hs[0]) {
      StepKeeps(c, idle, p, hs[0]);
      var c' := Next(c, idle, hs[0]);
      if hs[0].Interrupt? { SwitchHolds(c, idle); }
      GsKept(c, idle);
      Transparent(c', idle, PrivateNext(p, c'.current, hs[0]), hs[1..]);
    }
  }

  lemma SwitchHolds<R>(c: Cpu<R>, idle: nat)
    requires Inv(c, idle)
    ensures var c' := Next(c, idle, Interrupt);
            Holds(c'.gs, Task(c'.current)) && c'.current in c.queue.runnable
  {
    hide FirstRunnable, Rotate, AfterSwitch, Next;
    Interrupted(c, idle);
    var next := Successor(c);
    if Holds(c.gs, Null) { SwitchInstalls(c.gs, Null, next); } else { SwitchInstalls(c.gs, Task(c.current), next); }
  }
}
