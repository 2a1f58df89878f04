/** Who runs, over whole runs of one processor: a task that has exited is never
    resumed, a new task does not run before it is published, and a published task
    runs within as many interrupts as there are tasks in front of it. */
module ContextRuns {
  import opened Options
  import opened Sequences
  import opened Rotation
  import opened TaskContext
  import opened ContextSwitch

  lemma NextInv<R>(c: Cpu<R>, idle: nat, h: Happening<R>)
    requires Inv(c, idle) && Allowed(c, idle, h)
    ensures Inv(ContextSwitch.Next(c, idle, h), idle)
  {
    StepKeeps(c, idle, Private(c.saved[c.current := c.regs], c.current), h);
  }

  /** The processor after a run; `None` when a caller does what it must not. */
  ghost function After<R>(c: Cpu<R>, idle: nat, hs: seq<Happening<R>>): (r: Option<Cpu<R>>)
    requires Inv(c, idle)
    ensures r.Some? ==> Inv(r.value, idle)
    decreases |hs|
  {
    if hs == [] then Some(c)
    else if !Allowed(c, idle, hs[0]) then None
    else
      NextInv(c, idle, hs[0]);
      After(ContextSwitch.Next(c, idle, hs[0]), idle, hs[1..])
  }

  /** It is the processor of the run beside the reference. */
  lemma {:induction false} RunIsAfter<R>(c: Cpu<R>, idle: nat, p: Private<R>, hs: seq<Happening<R>>)
    requires Inv(c, idle) && Simulates(c, p)
    ensures Run(c, idle, p, hs).Reached? <==> After(c, idle, hs).Some?
    ensures Run(c, idle, p, hs).Reached? ==> Run(c, idle, p, hs).cpu == After(c, idle, hs).value
    decreases |hs|
  {
    if hs != [] && Allowed(c, idle, hs[0]) {
      StepKeeps(c, idle, p, hs[0]);
      var c' := ContextSwitch.Next(c, idle, hs[0]);
      RunIsAfter(c', idle, PrivateNext(p, c'.current, hs[0]), hs[1..]);
    }
  }

  lemma {:induction false} AfterThen<R>(c: Cpu<R>, idle: nat, hs: seq<Happening<R>>, more: seq<Happening<R>>)
    requires Inv(c, idle)
    ensures After(c, idle, hs + more)
         == if After(c, idle, hs).None? then None else After(After(c, idle, hs).value, idle, more)
    decreases |hs|
  {
    if hs == [] {
      assert hs + more == more;
    } else if Allowed(c, idle, hs[0]) {
      NextInv(c, idle, hs[0]);
      assert (hs + more)[1..] == hs[1..] + more;
      AfterThen(ContextSwitch.Next(c, idle, hs[0]), idle, hs[1..], more);
    }
  }

  // --------------------------------------------------------- who does not run

  lemma InterruptChooses<R>(c: Cpu<R>, idle: nat)
    requires Inv(c, idle)
    ensures var c' := ContextSwitch.Next(c, idle, Interrupt);
      c'.current in c.queue.runnable && c'.queue.runnable == c.queue.runnable
  {
    Interrupted(c, idle);
  }

  /** A task that cannot run and is not published is not switched to. */
  lemma {:induction false} StaysOut<R>(c: Cpu<R>, idle: nat, hs: seq<Happening<R>>, t: nat)
    requires Inv(c, idle) && t !in c.queue.runnable && Start(t) !in hs && After(c, idle, hs).Some?
    ensures var c' := After(c, idle, hs).value;
      t !in c'.queue.runnable && (Interrupt in hs || c.current != t ==> c'.current != t)
    decreases |hs|
  {
    if hs != [] {
      var h, c' := hs[0], ContextSwitch.Next(c, idle, hs[0]);
      NextInv(c, idle, h);
      assert t !in c'.queue.runnable && (h.Interrupt? || c.current != t ==> c'.current != t) by {
        if h.Interrupt? { InterruptChooses(c, idle); }
      }
      hide ContextSwitch.Next;
      assert forall x :: x in hs <==> x == h || x in hs[1..];
      StaysOut(c', idle, hs[1..], t);
    }
  }

  /** A task that has exited is never resumed, unless it is published anew. */
  lemma QuitIsFinal<R>(c: Cpu<R>, idle: nat, hs: seq<Happening<R>>)
    requires Inv(c, idle) && Start(c.current) !in hs && Interrupt in hs
    requires After(c, idle, [Quit] + hs).Some?
    ensures After(c, idle, [Quit] + hs).value.current != c.current
  {
    var c' := ContextSwitch.Next(c, idle, Quit);
    NextInv(c, idle, Quit);
    assert ([Quit] + hs)[1..] == hs;
    StaysOut(c', idle, hs, c.current);
  }

  /** A new task does not run before it is published. */
  lemma NotBeforeStart<R>(c: Cpu<R>, idle: nat, t: nat, regs: R, hs: seq<Happening<R>>)
    requires Inv(c, idle) && Start(t) !in hs && After(c, idle, [Create(t, regs)] + hs).Some?
    ensures After(c, idle, [Create(t, regs)] + hs).value.current != t
  {
    var first := Create(t, regs);
    var c' := ContextSwitch.Next(c, idle, first);
    NextInv(c, idle, first);
    assert ([first] + hs)[1..] == hs;
    StaysOut(c', idle, hs, t);
  }

  // --------------------------------------------------------------- who runs

  function Interrupts<R>(hs: seq<Happening<R>>): nat {
    if hs == [] then 0 else (if hs[0].Interrupt? then 1 else 0) + Interrupts(hs[1..])
  }

  /** The task exits in the course of the run. */
  ghost predicate Exits<R>(c: Cpu<R>, idle: nat, hs: seq<Happening<R>>, t: nat)
    requires Inv(c, idle)
    decreases |hs|
  {
    hs != [] && Allowed(c, idle, hs[0]) &&
    ((hs[0].Quit? && c.current == t)
     || (NextInv(c, idle, hs[0]); Exits(ContextSwitch.Next(c, idle, hs[0]), idle, hs[1..], t)))
  }

  /** The `n`-th happening is an interrupt, at most the `most`-th one, and it
      switches to `t`. */
  ghost predicate SwitchesAt<R>(c: Cpu<R>, idle: nat, hs: seq<Happening<R>>, t: nat, n: nat, most: nat)
    requires Inv(c, idle)
  {
    && n < |hs| && hs[n].Interrupt? && Interrupts(hs[..n + 1]) <= most
    && After(c, idle, hs[..n + 1]).Some? && After(c, idle, hs[..n + 1]).value.current == t
  }

  lemma SwitchesLater<R>(c: Cpu<R>, idle: nat, hs: seq<Happening<R>>, t: nat, n: nat, most: nat)
    requires Inv(c, idle) && hs != [] && Allowed(c, idle, hs[0]) && Inv(ContextSwitch.Next(c, idle, hs[0]), idle)
    requires SwitchesAt(ContextSwitch.Next(c, idle, hs[0]), idle, hs[1..], t, n, most)
    ensures SwitchesAt(c, idle, hs, t, n + 1, most + if hs[0].Interrupt? then 1 else 0)
  {
    assert hs[..n + 2][1..] == hs[1..][..n + 1];
  }

  /** Where a task stands after one happening that is not its turn. */
  lemma MovesUp<R>(c: Cpu<R>, idle: nat, h: Happening<R>, t: nat, k: nat)
    requires Inv(c, idle) && Allowed(c, idle, h) && k < |c.queue.order| && c.queue.order[k] == t && t in c.queue.runnable
    requires !(h.Quit? && c.current == t)
    ensures var c' := ContextSwitch.Next(c, idle, h);
      && t in c'.queue.runnable
      && (!h.Interrupt? ==> k < |c'.queue.order| && c'.queue.order[k] == t)
      && (h.Interrupt? ==> Chosen(c) <= k)
      && (h.Interrupt? && c'.current != t ==>
            Chosen(c) < k && k - Chosen(c) - 1 < |c'.queue.order| && c'.queue.order[k - Chosen(c) - 1] == t)
  {
    if h.Interrupt? {
      Interrupted(c, idle);
      assert Chosen(c) <= k;
    }
  }

  /** A task that can run, at position `k`, and does not exit, is switched to
      within `k + 1` interrupts. */
  lemma {:induction false} Waits<R>(c: Cpu<R>, idle: nat, hs: seq<Happening<R>>, t: nat, k: nat) returns (n: nat)
    requires Inv(c, idle) && k < |c.queue.order| && c.queue.order[k] == t && t in c.queue.runnable
    requires After(c, idle, hs).Some? && !Exits(c, idle, hs, t) && Interrupts(hs) >= k + 1
    ensures SwitchesAt(c, idle, hs, t, n, k + 1)
    decreases |hs|
  {
    hide ContextSwitch.Next, SwitchesAt, Inv, Allowed, Chosen;
    var h, c' := hs[0], ContextSwitch.Next(c, idle, hs[0]);
    NextInv(c, idle, h);
    MovesUp(c, idle, h, t, k);
    if h.Interrupt? && c'.current == t {
      n := 0;
      SwitchesNow(c, idle, hs, t, k + 1);
    } else if h.Interrupt? {
      n := Waits(c', idle, hs[1..], t, k - Chosen(c) - 1);
      SwitchesMore(c', idle, hs[1..], t, n, k - Chosen(c), k);
      SwitchesLater(c, idle, hs, t, n, k);
      n := n + 1;
    } else {
      n := Waits(c', idle, hs[1..], t, k);
      SwitchesLater(c, idle, hs, t, n, k + 1);
      n := n + 1;
    }
  }

  lemma SwitchesNow<R>(c: Cpu<R>, idle: nat, hs: seq<Happening<R>>, t: nat, most: nat)
    requires Inv(c, idle) && hs != [] && hs[0].Interrupt? && most >= 1
    requires ContextSwitch.Next(c, idle, Interrupt).current == t
    ensures SwitchesAt(c, idle, hs, t, 0, most)
  {
    var one := hs[..0 + 1];
    NextInv(c, idle, one[0]);
    assert one[1..] == [] && one[0] == Interrupt;
    assert After(c, idle, one) == After(ContextSwitch.Next(c, idle, one[0]), idle, one[1..]);
    assert Interrupts(one) == 1 + Interrupts(one[1..]);
  }

  lemma SwitchesMore<R>(c: Cpu<R>, idle: nat, hs: seq<Happening<R>>, t: nat, n: nat, most: nat, more: nat)
    requires Inv(c, idle) && SwitchesAt(c, idle, hs, t, n, most) && most <= more
    ensures SwitchesAt(c, idle, hs, t, n, more)
  {
  }

  /** Once published, a task at position `k` that does not exit is switched to
      within `k + 1` interrupts. */
  lemma StartedRuns<R>(c: Cpu<R>, idle: nat, t: nat, k: nat, hs: seq<Happening<R>>) returns (n: nat)
    requires Inv(c, idle) && k < |c.queue.order| && c.queue.order[k] == t
    requires After(c, idle, [Start(t)] + hs).Some? && !Exits(c, idle, [Start(t)] + hs, t) && Interrupts(hs) >= k + 1
    ensures SwitchesAt(c, idle, [Start(t)] + hs, t, n, k + 1)
  {
    var first := Start(t);
    NextInv(c, idle, first);
    assert ([first] + hs)[1..] == hs;
    n := Waits(ContextSwitch.Next(c, idle, first), idle, hs, t, k);
    SwitchesLater(c, idle, [first] + hs, t, n, k + 1);
    n := n + 1;
  }

  /** A task stays on its queue. */
  lemma {:induction false} StaysQueued<R>(c: Cpu<R>, idle: nat, hs: seq<Happening<R>>, t: nat)
    requires Inv(c, idle) && t in c.queue.order && After(c, idle, hs).Some?
    ensures t in After(c, idle, hs).value.queue.order
    decreases |hs|
  {
    if hs != [] {
      NextInv(c, idle, hs[0]);
      if hs[0].Interrupt? {
        Interrupted(c, idle);
        RotateMembers(c.queue.order, Chosen(c) + 1);
      }
      StaysQueued(ContextSwitch.Next(c, idle, hs[0]), idle, hs[1..], t);
    }
  }

  /** A created task runs: whatever happens in between, once it is published it is
      switched to within as many interrupts as the queue then has tasks. */
  lemma CreatedRuns<R>(c: Cpu<R>, idle: nat, t: nat, regs: R, before: seq<Happening<R>>, hs: seq<Happening<R>>)
    returns (c1: Cpu<R>, n: nat)
    requires Inv(c, idle) && After(c, idle, [Create(t, regs)] + before).Some?
    requires var c1 := After(c, idle, [Create(t, regs)] + before).value;
      After(c1, idle, [Start(t)] + hs).Some? && !Exits(c1, idle, [Start(t)] + hs, t) && Interrupts(hs) >= |c1.queue.order|
    ensures After(c, idle, [Create(t, regs)] + before) == Some(c1) && Inv(c1, idle)
    ensures SwitchesAt(c1, idle, [Start(t)] + hs, t, n, |c1.queue.order|)
  {
    var first := Create(t, regs);
    NextInv(c, idle, first);
    assert ([first] + before)[1..] == before;
    c1 := After(c, idle, [first] + before).value;
    var c0 := ContextSwitch.Next(c, idle, first);
    assert c0.queue.order[|c.queue.order|] == t;
    StaysQueued(c0, idle, before, t);
    var k: nat :| k < |c1.queue.order| && c1.queue.order[k] == t;
    n := StartedRuns(c1, idle, t, k, hs);
  }

  // ------------------------------------------------------ with what it resumes

  /** In the course of the run `t` neither runs nor is filled in. */
  ghost predicate Undisturbed<R>(c: Cpu<R>, idle: nat, hs: seq<Happening<R>>, t: nat)
    requires Inv(c, idle)
    decreases |hs|
  {
    c.current != t &&
    (hs == [] || (Allowed(c, idle, hs[0]) && !(hs[0].Fill? && hs[0].task == t) &&
                  (NextInv(c, idle, hs[0]); Undisturbed(ContextSwitch.Next(c, idle, hs[0]), idle, hs[1..], t))))
  }

  /** What is saved for a task stays until it runs or is filled in. */
  lemma {:induction false} WaitingKeeps<R>(c: Cpu<R>, idle: nat, hs: seq<Happening<R>>, t: nat)
    requires Inv(c, idle) && t in c.queue.order && Undisturbed(c, idle, hs, t)
    ensures After(c, idle, hs).Some?
    ensures var c' := After(c, idle, hs).value;
      c'.current != t && t in c'.queue.order && t in c.saved && t in c'.saved && c'.saved[t] == c.saved[t]
    decreases |hs|
  {
    if hs != [] {
      NextInv(c, idle, hs[0]);
      if hs[0].Interrupt? {
        Interrupted(c, idle);
        RotateMembers(c.queue.order, Chosen(c) + 1);
      }
      WaitingKeeps(ContextSwitch.Next(c, idle, hs[0]), idle, hs[1..], t);
    }
  }

  lemma ResumesWithSaved<R>(c: Cpu<R>, idle: nat, t: nat)
    requires Inv(c, idle) && c.current != t && ContextSwitch.Next(c, idle, Interrupt).current == t
    ensures t in c.saved && ContextSwitch.Next(c, idle, Interrupt).regs == c.saved[t]
  {
    Interrupted(c, idle);
  }

  /** A task that was filled in starts with exactly those registers. */
  lemma ResumesAsFilled<R>(c: Cpu<R>, idle: nat, t: nat, regs: R, hs: seq<Happening<R>>)
    requires Inv(c, idle) && Allowed(c, idle, Fill(t, regs)) && Inv(ContextSwitch.Next(c, idle, Fill(t, regs)), idle)
    requires Undisturbed(ContextSwitch.Next(c, idle, Fill(t, regs)), idle, hs, t)
    ensures After(c, idle, [Fill(t, regs)] + hs).Some?
    ensures var c' := After(c, idle, [Fill(t, regs)] + hs).value;
      ContextSwitch.Next(c', idle, Interrupt).current == t ==> ContextSwitch.Next(c', idle, Interrupt).regs == regs
  {
    var first := Fill(t, regs);
    assert ([first] + hs)[1..] == hs;
    var c1 := ContextSwitch.Next(c, idle, first);
    WaitingKeeps(c1, idle, hs, t);
    var c' := After(c1, idle, hs).value;
    if ContextSwitch.Next(c', idle, Interrupt).current == t { ResumesWithSaved(c', idle, t); }
  }

  /** A task that was interrupted resumes with exactly the registers it had. */
  lemma ResumesAsLeft<R>(c: Cpu<R>, idle: nat, hs: seq<Happening<R>>)
    requires Inv(c, idle) && Inv(ContextSwitch.Next(c, idle, Interrupt), idle)
    requires Undisturbed(ContextSwitch.Next(c, idle, Interrupt), idle, hs, c.current)
    ensures After(c, idle, [Interrupt] + hs).Some?
    ensures var c' := After(c, idle, [Interrupt] + hs).value;
      ContextSwitch.Next(c', idle, Interrupt).current == c.current ==> ContextSwitch.Next(c', idle, Interrupt).regs == c.regs
  {
    var first: Happening<R> := Interrupt;
    assert ([first] + hs)[1..] == hs;
    var c1 := ContextSwitch.Next(c, idle, first);
    Interrupted(c, idle);
    RotateMembers(c.queue.order, Chosen(c) + 1);
    WaitingKeeps(c1, idle, hs, c.current);
    var c' := After(c1, idle, hs).value;
    if ContextSwitch.Next(c', idle, Interrupt).current == c.current { ResumesWithSaved(c', idle, c.current); }
  }
}
