/** The test-and-set spinlock, for any number of threads that acquire and
    release it over and over. */
module Spinlock {
  const REPORT_AFTER := 100_000_000

  /** Where a thread is: outside, in the loop of spinlock_acquire with its spin
      counter, or between acquire and release. */
  datatype Thread = Outside | Spinning(count: nat) | Inside

  datatype State = State(flag: bool, threads: seq<Thread>)

  function Start(n: nat): (s: State)
    ensures !s.flag && |s.threads| == n && forall i: nat :: i < n ==> s.threads[i] == Outside
  {
    State(false, seq(n, _ => Outside))
  }

  datatype Action = Enter | TestAndSet | Release

  /** One step of thread `i`. `atomic_flag_test_and_set` sets the flag and
      returns what it was; the counter wraps after each deadlock report. */
  function Step(s: State, i: nat, a: Action): State
    requires i < |s.threads|
  {
    match (a, s.threads[i])
    case (Enter, Outside) => s.(threads := s.threads[i := Spinning(0)])
    case (TestAndSet, Spinning(count)) =>
      State(true, s.threads[i := if s.flag then Spinning(if count + 1 >= REPORT_AFTER then 0 else count + 1) else Inside])
    case (Release, Inside) => State(false, s.threads[i := Outside])
    case _ => s
  }

  function Holders(threads: seq<Thread>): nat {
    if threads == [] then 0 else Holders(threads[..|threads| - 1]) + (if threads[|threads| - 1].Inside? then 1 else 0)
  }

  ghost predicate Excludes(s: State) {
    Holders(s.threads) == if s.flag then 1 else 0
  }

  lemma {:induction false} InsideUpdate(threads: seq<Thread>, i: nat, t: Thread)
    requires i < |threads|
    ensures Holders(threads[i := t]) == Holders(threads) - (if threads[i].Inside? then 1 else 0) + (if t.Inside? then 1 else 0)
    ensures threads[i].Inside? ==> Holders(threads) >= 1
  {
    var n := |threads| - 1;
    if i < n {
      InsideUpdate(threads[..n], i, t);
      assert threads[i := t][..n] == threads[..n][i := t];
    } else {
      assert threads[i := t][..n] == threads[..n];
    }
  }

  lemma StepExcludes(s: State, i: nat, a: Action)
    requires Excludes(s) && i < |s.threads|
    ensures Excludes(Step(s, i, a)) && |Step(s, i, a).threads| == |s.threads|
  {
    InsideUpdate(s.threads, i, Step(s, i, a).threads[i]);
    assert s.threads[i := s.threads[i]] == s.threads;
  }

  function Run(s: State, schedule: seq<(nat, Action)>): State
    requires forall k: nat :: k < |schedule| ==> schedule[k].0 < |s.threads|
    ensures |Run(s, schedule).threads| == |s.threads|
  {
    if schedule == [] then s
    else
      var last := schedule[|schedule| - 1];
      Step(Run(s, schedule[..|schedule| - 1]), last.0, last.1)
  }

  lemma {:induction false} InsideTwice(threads: seq<Thread>, i: nat, j: nat)
    requires i < j < |threads| && threads[i].Inside? && threads[j].Inside?
    ensures Holders(threads) >= 2
  {
    var n := |threads| - 1;
    if j < n {
      InsideTwice(threads[..n], i, j);
    } else {
      InsideUpdate(threads[..n], i, threads[i]);
    }
  }

  lemma {:induction false} RunExcludes(n: nat, schedule: seq<(nat, Action)>)
    requires forall k: nat :: k < |schedule| ==> schedule[k].0 < n
    ensures Excludes(Run(Start(n), schedule))
  {
    if schedule == [] {
      NobodyInside(Start(n).threads);
    } else {
      var last := schedule[|schedule| - 1];
      RunExcludes(n, schedule[..|schedule| - 1]);
      StepExcludes(Run(Start(n), schedule[..|schedule| - 1]), last.0, last.1);
    }
  }

  lemma {:induction false} NobodyInside(threads: seq<Thread>)
    requires forall i: nat :: i < |threads| ==> threads[i] == Outside
    ensures Holders(threads) == 0
  {
    if threads != [] { NobodyInside(threads[..|threads| - 1]); }
  }

  /** Mutual exclusion in every schedule: never two threads between acquire and
      release, and the flag is set exactly while one is. This is what lets each
      body under a lock be taken as one step. */
  lemma {:induction false} MutualExclusion(n: nat, schedule: seq<(nat, Action)>)
    requires forall k: nat :: k < |schedule| ==> schedule[k].0 < n
    ensures var s := Run(Start(n), schedule);
            && (forall i: nat, j: nat :: i < j < n && s.threads[i].Inside? ==> !s.threads[j].Inside?)
            && (s.flag <==> exists i: nat :: i < n && s.threads[i].Inside?)
  {
    RunExcludes(n, schedule);
    var s := Run(Start(n), schedule);
    forall i: nat, j: nat | i < j < n && s.threads[i].Inside? ensures !s.threads[j].Inside? {
      if s.threads[j].Inside? { InsideTwice(s.threads, i, j); }
    }
    SomeInside(s.threads);
  }

  lemma {:induction false} SomeInside(threads: seq<Thread>)
    ensures Holders(threads) > 0 <==> exists i: nat :: i < |threads| && threads[i].Inside?
  {
    if threads != [] {
      var n := |threads| - 1;
      SomeInside(threads[..n]);
      if i: nat :| i < n && threads[i].Inside? { assert threads[..n][i].Inside?; }
      if i: nat :| i < n && threads[..n][i].Inside? { assert threads[i].Inside?; }
    }
  }

  /** In every reachable state, a spinning thread that tests the flag gets in
      exactly when nobody is inside, and no other thread moves. */
  lemma {:induction false} TestDecides(n: nat, schedule: seq<(nat, Action)>, i: nat)
    requires (forall k: nat :: k < |schedule| ==> schedule[k].0 < n) && i < n
    requires Run(Start(n), schedule).threads[i].Spinning?
    ensures var s := Run(Start(n), schedule);
            var s' := Step(s, i, TestAndSet);
            && (s'.threads[i].Inside? <==> forall j: nat :: j < n ==> !s.threads[j].Inside?)
            && (!s'.threads[i].Inside? ==> s'.threads[i].Spinning?)
            && (forall j: nat :: j < n && j != i ==> s'.threads[j] == s.threads[j])
  {
    hide Run;
    MutualExclusion(n, schedule);
  }

  /** No thread can be shut out for good: once whoever is inside releases, one test
      lets it in. */
  lemma {:induction false} ReleaseLetsIn(n: nat, schedule: seq<(nat, Action)>, i: nat, holder: nat)
    requires (forall k: nat :: k < |schedule| ==> schedule[k].0 < n) && i < n && holder < n
    requires Run(Start(n), schedule).threads[i].Spinning? && Run(Start(n), schedule).threads[holder].Inside?
    ensures Step(Step(Run(Start(n), schedule), holder, Release), i, TestAndSet).threads
         == Run(Start(n), schedule).threads[holder := Outside][i := Inside]
  {
  }
}
