/** sys_waitpid when its steps interleave: the test of `is_waited` and the write
    that sets it are two steps, and nothing holds a lock around them. */
module ClaimRace {

  /** Ancestors of one task that wait for it. */
  datatype Waiter =
    | Entering   // before the test
    | Checked    // saw the flag clear, will set it
    | Claimed    // set the flag and waits for the exit
    | Refused    // saw the flag set: ECHILD

  datatype State = State(isWaited: bool, waiters: seq<Waiter>)

  function Step(s: State, i: nat): State
    requires i < |s.waiters|
  {
    match s.waiters[i]
    case Entering => s.(waiters := s.waiters[i := if s.isWaited then Refused else Checked])
    case Checked => State(true, s.waiters[i := Claimed])
    case _ => s
  }

  ghost predicate Start(s: State) {
    !s.isWaited && forall i: nat :: i < |s.waiters| ==> s.waiters[i] == Entering
  }

  ghost predicate Schedule(s: State, schedule: seq<nat>) {
    forall k: nat :: k < |schedule| ==> schedule[k] < |s.waiters|
  }

  function Run(s: State, schedule: seq<nat>): (r: State)
    requires Schedule(s, schedule)
    ensures |r.waiters| == |s.waiters|
  {
    if schedule == [] then s
    else Step(Run(s, schedule[..|schedule| - 1]), schedule[|schedule| - 1])
  }

  /** Two waiters are past the test and before the write at the same time. */
  ghost predicate Overlap(s: State) {
    exists i: nat, j: nat :: i < j < |s.waiters| && s.waiters[i] == Checked && s.waiters[j] == Checked
  }

  ghost predicate SomeOverlap(s: State, schedule: seq<nat>)
    requires Schedule(s, schedule)
  {
    exists k: nat :: k <= |schedule| && Overlap(Run(s, schedule[..k]))
  }

  ghost predicate ClaimedTwice(s: State) {
    exists i: nat, j: nat :: i < j < |s.waiters| && s.waiters[i] == Claimed && s.waiters[j] == Claimed
  }

  ghost predicate Done(s: State) {
    forall i: nat :: i < |s.waiters| ==> s.waiters[i] == Claimed || s.waiters[i] == Refused
  }

  predicate Active(w: Waiter) {
    w == Checked || w == Claimed
  }

  /** Without an overlap only one waiter gets past the test. */
  ghost predicate OneActive(s: State) {
    && (forall i: nat, j: nat :: i < j < |s.waiters| && Active(s.waiters[i]) ==> !Active(s.waiters[j]))
    && (forall i: nat :: i < |s.waiters| && s.waiters[i] == Claimed ==> s.isWaited)
  }

  lemma StepKeepsOne(s: State, i: nat)
    requires OneActive(s) && i < |s.waiters|
    requires s.isWaited ==> exists j: nat :: j < |s.waiters| && s.waiters[j] == Claimed
    ensures OneActive(Step(s, i)) || Overlap(Step(s, i))
    ensures Step(s, i).isWaited ==> exists j: nat :: j < |s.waiters| && Step(s, i).waiters[j] == Claimed
  {
    var s' := Step(s, i);
    if s.waiters[i] == Checked { assert s'.waiters[i] == Claimed; }
    if j: nat :| j < |s.waiters| && s.waiters[j] == Claimed {
      assert s'.waiters[j] == Claimed;
    }
    if s.waiters[i] == Entering && !s.isWaited {
      if j: nat :| j < |s.waiters| && j != i && s.waiters[j] == Checked {
        assert s'.waiters[i] == Checked && s'.waiters[j] == Checked;
        assert if i < j then i < j else j < i;
      }
    }
  }

  lemma {:induction false} NoOverlapOneActive(s: State, schedule: seq<nat>)
    requires Start(s) && Schedule(s, schedule) && !SomeOverlap(s, schedule)
    ensures OneActive(Run(s, schedule))
    ensures Run(s, schedule).isWaited ==> exists j: nat :: j < |s.waiters| && Run(s, schedule).waiters[j] == Claimed
  {
    if schedule != [] {
      var n := |schedule| - 1;
      var before := schedule[..n];
      assert schedule[..|schedule|] == schedule;
      forall k: nat | k <= n ensures !Overlap(Run(s, before[..k])) {
        assert before[..k] == schedule[..k];
      }
      NoOverlapOneActive(s, before);
      StepKeepsOne(Run(s, before), schedule[n]);
    }
  }

  /** A waiter past the test stays past it. */
  lemma {:induction false} ActiveStays(s: State, schedule: seq<nat>, k: nat, i: nat)
    requires Schedule(s, schedule) && k <= |schedule| && i < |s.waiters|
    requires Active(Run(s, schedule[..k]).waiters[i])
    ensures Active(Run(s, schedule).waiters[i])
    decreases |schedule|
  {
    if k < |schedule| {
      var before := schedule[..|schedule| - 1];
      assert before[..k] == schedule[..k];
      ActiveStays(s, before, k, i);
    } else {
      assert schedule[..k] == schedule;
    }
  }

  /** A pid is claimed twice exactly when two waiters were between the test and
      the write at the same time. */
  lemma {:induction false} ClaimedTwiceExactly(s: State, schedule: seq<nat>)
    requires Start(s) && Schedule(s, schedule) && Done(Run(s, schedule))
    ensures ClaimedTwice(Run(s, schedule)) <==> SomeOverlap(s, schedule)
  {
    var r := Run(s, schedule);
    if SomeOverlap(s, schedule) {
      var k: nat :| k <= |schedule| && Overlap(Run(s, schedule[..k]));
      var m := Run(s, schedule[..k]);
      var i: nat, j: nat :| i < j < |m.waiters| && m.waiters[i] == Checked && m.waiters[j] == Checked;
      ActiveStays(s, schedule, k, i);
      ActiveStays(s, schedule, k, j);
      assert r.waiters[i] == Claimed && r.waiters[j] == Claimed;
    } else {
      NoOverlapOneActive(s, schedule);
    }
  }

  /** It does happen: two ancestors of a task both claim it. */
  lemma RaceExists()
    ensures var s := State(false, [Entering, Entering]);
            Run(s, [0, 1, 0, 1]).waiters == [Claimed, Claimed]
  {
    var s := State(false, [Entering, Entering]);
    assert [0, 1, 0, 1][..3] == [0, 1, 0] && [0, 1, 0][..2] == [0, 1] && [0, 1][..1] == [0] && [0][..0] == [];
    assert Run(s, [0]) == State(false, [Checked, Entering]);
    assert Run(s, [0, 1]) == State(false, [Checked, Checked]);
    assert Run(s, [0, 1, 0]) == State(true, [Claimed, Checked]);
  }
}
