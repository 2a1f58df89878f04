/** The bootstrap handshake between the bootstrap processor (BSP) and the
    application processors (APs), as an interleaving of the steps of any number
    of processors. The locks are test-and-set flags: an acquire is one step that
    is enabled while the flag is clear, a wait is a step that only reads it. */
module Smp {

  /** The processor list of the boot protocol and the id of the BSP in it. */
  datatype Machine = Machine(ids: seq<nat>, bspId: nat) {
    predicate IsAp(i: nat) {
      i < |ids| && ids[i] != bspId
    }

    /** Ids are distinct and the BSP is listed. */
    ghost predicate WellFormed() {
      && (forall i: nat, j: nat :: i < j < |ids| ==> ids[i] != ids[j])
      && (exists i: nat :: i < |ids| && ids[i] == bspId)
    }
  }

  /** Where an AP is in arch_bootstrap_entry_limine. */
  datatype Ap =
    | Parked            // not woken yet
    | Woken             // running, has not released the bootstrap lock
    | AtGate            // waits for the scheduler gate to open
    | Installing        // about to install its scheduler context
    | AtCompletion      // acquires the completion lock
    | Loading           // holds it, reads arch_complete
    | Storing(value: nat)  // holds it, writes value + 1
    | Releasing         // holds it, about to release
    | Enabled           // runs its scheduler

  /** Where the BSP is in arch_bootstrap_ap_limine and, later,
      arch_bootstrap_ap_scheduler. */
  datatype Bsp =
    | Locking           // acquires the scheduler gate
    | Loop(next: nat)   // looks at processor `next`
    | Acquiring(cpu: nat)  // acquires the bootstrap lock for it
    | Waking(cpu: nat)  // holds the lock, writes goto_address
    | Waiting(cpu: nat) // waits for the AP to release the lock
    | Online            // all APs are up; the rest of the boot follows
    | Awaiting          // opened the gate, polls arch_complete
    | Returned          // arch_bootstrap_ap_scheduler is done

  datatype State = State(bsp: Bsp, aps: seq<Ap>, boot: bool, gate: bool, completion: bool, complete: nat, installed: set<nat>)

  predicate HoldsCompletion(a: Ap) {
    a.Loading? || a.Storing? || a.Releasing?
  }

  predicate PastGate(a: Ap) {
    !a.Parked? && !a.Woken? && !a.AtGate?
  }

  predicate HasContext(a: Ap) {
    PastGate(a) && !a.Installing?
  }

  predicate Counted(a: Ap) {
    a.Releasing? || a.Enabled?
  }

  function Start(m: Machine): State {
    State(Locking, seq(|m.ids|, _ => Parked), false, false, false, 0, {})
  }

  // ------------------------------------------------------------------ steps

  ghost predicate BspStep(m: Machine, s: State, s': State) {
    match s.bsp
    case Locking => !s.gate && s' == s.(bsp := Loop(0), gate := true)
    case Loop(i) =>
      s' == s.(bsp := if i >= |m.ids| then Online else if m.ids[i] == m.bspId then Loop(i + 1) else Acquiring(i))
    case Acquiring(i) => !s.boot && s' == s.(bsp := Waking(i), boot := true)
    case Waking(i) => i < |s.aps| && s' == s.(bsp := Waiting(i), aps := s.aps[i := Woken])
    case Waiting(i) => !s.boot && s' == s.(bsp := Loop(i + 1))
    case Online => s' == s.(bsp := Awaiting, gate := false)
    case Awaiting => s.complete == |m.ids| - 1 && s' == s.(bsp := Returned)
    case Returned => false
  }

  ghost predicate ApStep(m: Machine, s: State, s': State, i: nat) {
    i < |s.aps| &&
    match s.aps[i]
    case Parked => false
    case Woken => s' == s.(aps := s.aps[i := AtGate], boot := false)
    case AtGate => !s.gate && s' == s.(aps := s.aps[i := Installing])
    case Installing => s' == s.(aps := s.aps[i := AtCompletion], installed := s.installed + {i})
    case AtCompletion => !s.completion && s' == s.(aps := s.aps[i := Loading], completion := true)
    case Loading => s' == s.(aps := s.aps[i := Storing(s.complete)])
    case Storing(v) => s' == s.(aps := s.aps[i := Releasing], complete := v + 1)
    case Releasing => s' == s.(aps := s.aps[i := Enabled], completion := false)
    case Enabled => false
  }

  ghost predicate Step(m: Machine, s: State, s': State) {
    BspStep(m, s, s') || exists i: nat :: ApStep(m, s, s', i)
  }

  // -------------------------------------------------------------- invariant

  /** How far the BSP has got: the APs below the mark have been woken. */
  function Mark(m: Machine, b: Bsp): nat {
    match b
    case Locking => 0
    case Loop(i) => i
    case Acquiring(i) => i
    case Waking(i) => i
    case Waiting(i) => i + 1
    case _ => |m.ids|
  }

  ghost predicate WakeOrder(m: Machine, s: State) {
    && |s.aps| == |m.ids|
    && (forall i: nat :: i < |s.aps| ==> (s.aps[i] != Parked <==> m.IsAp(i) && i < Mark(m, s.bsp)))
    && (match s.bsp
        case Acquiring(i) => m.IsAp(i)
        case Waking(i) => m.IsAp(i)
        case Waiting(i) => m.IsAp(i)
        case _ => true)
  }

  /** The bootstrap lock is handed to the one AP that is coming up. */
  ghost predicate BootLock(m: Machine, s: State) {
    && (forall i: nat :: i < |s.aps| && s.aps[i] == Woken ==> s.bsp == Waiting(i))
    && (s.boot <==> s.bsp.Waking? || (s.bsp.Waiting? && s.bsp.cpu < |s.aps| && s.aps[s.bsp.cpu] == Woken))
  }

  /** Nobody passes the gate before the BSP opens it. */
  ghost predicate Gate(s: State) {
    && (s.gate <==> !s.bsp.Locking? && !s.bsp.Awaiting? && !s.bsp.Returned?)
    && (forall i: nat :: i < |s.aps| && PastGate(s.aps[i]) ==> s.bsp.Awaiting? || s.bsp.Returned?)
  }

  /** The completion lock excludes, and the counter under it loses no update. */
  ghost predicate Completion(s: State) {
    && (forall i: nat, j: nat :: i < j < |s.aps| && HoldsCompletion(s.aps[i]) ==> !HoldsCompletion(s.aps[j]))
    && (s.completion <==> exists i: nat :: i < |s.aps| && HoldsCompletion(s.aps[i]))
    && (forall i: nat :: i < |s.aps| && s.aps[i].Storing? ==> s.aps[i].value == s.complete)
    && s.complete == Count(s.aps)
  }

  function Count(aps: seq<Ap>): nat {
    if aps == [] then 0 else Count(aps[..|aps| - 1]) + (if Counted(aps[|aps| - 1]) then 1 else 0)
  }

  ghost predicate Contexts(s: State) {
    forall i: nat :: i in s.installed <==> i < |s.aps| && HasContext(s.aps[i])
  }

  ghost predicate Inv(m: Machine, s: State) {
    WakeOrder(m, s) && BootLock(m, s) && Gate(s) && Completion(s) && Contexts(s) && (s.bsp.Returned? ==> s.complete == |m.ids| - 1)
  }

  // ---------------------------------------------------------- preservation

  lemma {:induction false} CountUpdate(aps: seq<Ap>, i: nat, a: Ap)
    requires i < |aps|
    ensures Count(aps[i := a]) == Count(aps) - (if Counted(aps[i]) then 1 else 0) + (if Counted(a) then 1 else 0)
    ensures Counted(aps[i]) ==> Count(aps) >= 1
  {
    var n := |aps| - 1;
    if i < n {
      CountUpdate(aps[..n], i, a);
      assert aps[i := a][..n] == aps[..n][i := a];
    } else {
      assert aps[i := a][..n] == aps[..n];
    }
  }

  lemma {:induction false} CountNone(n: nat)
    ensures Count(seq(n, _ => Parked)) == 0
  {
    if n > 0 {
      assert seq(n, _ => Parked)[..n - 1] == seq(n - 1, _ => Parked);
      CountNone(n - 1);
    }
  }

  lemma StartInv(m: Machine)
    ensures Inv(m, Start(m))
  {
    CountNone(|m.ids|);
    var s := Start(m);
    assert forall i: nat :: i < |s.aps| ==> s.aps[i] == Parked;
  }

  lemma BspKeepsWakeAndBoot(m: Machine, s: State, s': State)
    requires WakeOrder(m, s) && BootLock(m, s) && BspStep(m, s, s')
    ensures WakeOrder(m, s') && BootLock(m, s')
  {
    if s.bsp.Loop? && s.bsp.next < |m.ids| && m.ids[s.bsp.next] == m.bspId {
      assert !m.IsAp(s.bsp.next);
    }
  }

  lemma BspKeepsGate(m: Machine, s: State, s': State)
    requires WakeOrder(m, s) && Gate(s) && BspStep(m, s, s')
    ensures Gate(s')
  {
  }

  lemma BspKeepsCompletion(m: Machine, s: State, s': State)
    requires WakeOrder(m, s) && Completion(s) && BspStep(m, s, s')
    ensures Completion(s')
  {
    if s.bsp.Waking? {
      assert s.aps[s.bsp.cpu] == Parked;
      CountUpdate(s.aps, s.bsp.cpu, Woken);
      assert forall i: nat :: i < |s.aps| ==> HoldsCompletion(s'.aps[i]) == HoldsCompletion(s.aps[i]);
    }
  }

  lemma BspKeepsContexts(m: Machine, s: State, s': State)
    requires WakeOrder(m, s) && Contexts(s) && BspStep(m, s, s')
    ensures Contexts(s')
  {
  }

  lemma BspStepInv(m: Machine, s: State, s': State)
    requires Inv(m, s) && BspStep(m, s, s')
    ensures Inv(m, s')
  {
    hide WakeOrder, BootLock, Gate, Completion, Contexts;
    BspKeepsWakeAndBoot(m, s, s');
    BspKeepsGate(m, s, s');
    BspKeepsCompletion(m, s, s');
    BspKeepsContexts(m, s, s');
  }

  lemma ApKeepsWakeAndBoot(m: Machine, s: State, s': State, i: nat)
    requires WakeOrder(m, s) && BootLock(m, s) && ApStep(m, s, s', i)
    ensures WakeOrder(m, s') && BootLock(m, s')
  {
    assert s'.bsp == s.bsp && s.aps[i] != Parked && s'.aps[i] != Parked && s'.aps[i] != Woken;
    assert s'.aps == s.aps[i := s'.aps[i]];
    assert s'.boot == (s.boot && !s.aps[i].Woken?);
  }

  lemma ApKeepsGate(m: Machine, s: State, s': State, i: nat)
    requires Gate(s) && WakeOrder(m, s) && ApStep(m, s, s', i)
    requires s.aps[i].AtGate? ==> !s.bsp.Locking?
    ensures Gate(s')
  {
  }

  lemma ApKeepsExclusion(m: Machine, s: State, s': State, i: nat)
    requires Completion(s) && ApStep(m, s, s', i)
    ensures forall j: nat, k: nat :: j < k < |s'.aps| && HoldsCompletion(s'.aps[j]) ==> !HoldsCompletion(s'.aps[k])
    ensures s'.completion <==> exists j: nat :: j < |s'.aps| && HoldsCompletion(s'.aps[j])
  {
    if HoldsCompletion(s'.aps[i]) {
      assert s'.completion;
    } else if HoldsCompletion(s.aps[i]) {
      assert forall j: nat :: j < |s.aps| && j != i ==> !HoldsCompletion(s.aps[j]);
    } else {
      assert forall j: nat :: j < |s.aps| ==> HoldsCompletion(s'.aps[j]) == HoldsCompletion(s.aps[j]);
    }
  }

  lemma ApKeepsCompletion(m: Machine, s: State, s': State, i: nat)
    requires Completion(s) && ApStep(m, s, s', i)
    ensures Completion(s')
  {
    ApKeepsExclusion(m, s, s', i);
    CountUpdate(s.aps, i, s'.aps[i]);
    assert forall j: nat :: j < |s.aps| && j != i && HoldsCompletion(s.aps[i]) ==> !HoldsCompletion(s.aps[j]);
  }

  lemma ApKeepsContexts(m: Machine, s: State, s': State, i: nat)
    requires Contexts(s) && ApStep(m, s, s', i)
    ensures Contexts(s')
  {
  }

  lemma {:induction false} CountOne(aps: seq<Ap>, i: nat)
    requires i < |aps| && !Counted(aps[i])
    ensures Count(aps) <= |aps| - 1
  {
    var n := |aps| - 1;
    if i < n { CountOne(aps[..n], i); } else { CountAtMost(aps[..n]); }
  }

  lemma {:induction false} CountAtMost(aps: seq<Ap>)
    ensures Count(aps) <= |aps|
  {
    if aps != [] { CountAtMost(aps[..|aps| - 1]); }
  }

  lemma {:induction false} CountTwo(aps: seq<Ap>, i: nat, j: nat)
    requires i < j < |aps| && !Counted(aps[i]) && !Counted(aps[j])
    ensures Count(aps) <= |aps| - 2
  {
    var n := |aps| - 1;
    if j < n { CountTwo(aps[..n], i, j); } else { CountOne(aps[..n], i); }
  }

  /** When the counter has reached the number of APs, every AP is counted. */
  lemma AllCounted(m: Machine, s: State, i: nat)
    requires m.WellFormed() && WakeOrder(m, s) && s.complete == Count(s.aps) && s.complete == |m.ids| - 1
    requires m.IsAp(i)
    ensures Counted(s.aps[i])
  {
    var b: nat :| b < |m.ids| && m.ids[b] == m.bspId;
    assert s.aps[b] == Parked;
    if !Counted(s.aps[i]) {
      if i < b { CountTwo(s.aps, i, b); } else { CountTwo(s.aps, b, i); }
    }
  }

  lemma ApIsUp(m: Machine, s: State, i: nat)
    requires Inv(m, s) && i < |s.aps| && s.aps[i] != Parked
    ensures m.IsAp(i) && !s.bsp.Locking? && |s.aps| == |m.ids|
    ensures s.complete == Count(s.aps)
  {
  }

  lemma ApStepInv(m: Machine, s: State, s': State, i: nat)
    requires m.WellFormed() && Inv(m, s) && ApStep(m, s, s', i)
    ensures Inv(m, s')
  {
    hide WakeOrder, BootLock, Gate, Completion, Contexts;
    ApIsUp(m, s, i);
    ApKeepsWakeAndBoot(m, s, s', i);
    ApKeepsGate(m, s, s', i);
    ApKeepsCompletion(m, s, s', i);
    ApKeepsContexts(m, s, s', i);
    if s.bsp.Returned? { AllCounted(m, s, i); }
  }

  // ------------------------------------------------------------ whole runs

  /** A run: states from the start on, each one step after the one before. */
  ghost predicate Run(m: Machine, states: seq<State>) {
    && |states| > 0 && states[0] == Start(m)
    && (forall k: nat :: k + 1 < |states| ==> Step(m, states[k], states[k + 1]))
  }

  lemma {:induction false} EveryState(m: Machine, states: seq<State>, k: nat)
    requires m.WellFormed() && Run(m, states) && k < |states|
    ensures Inv(m, states[k])
  {
    if k == 0 {
      StartInv(m);
    } else {
      EveryState(m, states, k - 1);
      var s, s' := states[k - 1], states[k];
      assert Step(m, s, s') by { assert Step(m, states[k - 1], states[k - 1 + 1]); }
      if BspStep(m, s, s') {
        BspStepInv(m, s, s');
      } else {
        var i: nat :| ApStep(m, s, s', i);
        ApStepInv(m, s, s', i);
      }
    }
  }

  /** Safety of every interleaving: at most one AP is between its wake-up and
      the release of the bootstrap lock, and holds that lock; no AP has a
      scheduler context before the BSP opens the gate; and when
      arch_bootstrap_ap_scheduler has returned, every AP has one. */
  lemma HandshakeIsSafe(m: Machine, states: seq<State>, k: nat)
    requires m.WellFormed() && Run(m, states) && k < |states|
    ensures var s := states[k];
            && |s.aps| == |m.ids|
            && (forall i: nat, j: nat :: i < j < |s.aps| && s.aps[i].Woken? ==> !s.aps[j].Woken?)
            && (forall i: nat :: i < |s.aps| && s.aps[i].Woken? ==> s.boot)
            && (!s.bsp.Awaiting? && !s.bsp.Returned? ==> s.installed == {})
            && (s.bsp.Returned? ==> forall i: nat :: i in s.installed <==> m.IsAp(i))
  {
    EveryState(m, states, k);
    var s := states[k];
    if s.bsp.Returned? {
      forall i: nat | m.IsAp(i) ensures i in s.installed {
        AllCounted(m, s, i);
      }
    }
  }

  // -------------------------------------------------------------- progress

  function BspRank(m: Machine, b: Bsp): nat {
    var n := |m.ids|;
    match b
    case Locking => 4 * n + 4
    case Loop(i) => 4 * (if i < n then n - i else 0) + 3
    case Acquiring(i) => 4 * (if i < n then n - i else 0) + 2
    case Waking(i) => 4 * (if i < n then n - i else 0) + 1
    case Waiting(i) => 4 * (if i < n then n - i else 0)
    case Online => 2
    case Awaiting => 1
    case Returned => 0
  }

  function ApRank(a: Ap): nat {
    match a
    case Parked => 8
    case Woken => 7
    case AtGate => 6
    case Installing => 5
    case AtCompletion => 4
    case Loading => 3
    case Storing(_) => 2
    case Releasing => 1
    case Enabled => 0
  }

  function Ranks(aps: seq<Ap>): nat {
    if aps == [] then 0 else Ranks(aps[..|aps| - 1]) + ApRank(aps[|aps| - 1])
  }

  /** The steps still to be made, at most. */
  function Remaining(m: Machine, s: State): nat {
    BspRank(m, s.bsp) + Ranks(s.aps)
  }

  lemma {:induction false} RanksUpdate(aps: seq<Ap>, i: nat, a: Ap)
    requires i < |aps|
    ensures Ranks(aps[i := a]) == Ranks(aps) - ApRank(aps[i]) + ApRank(a)
  {
    var n := |aps| - 1;
    if i < n {
      RanksUpdate(aps[..n], i, a);
      assert aps[i := a][..n] == aps[..n][i := a];
    } else {
      assert aps[i := a][..n] == aps[..n];
    }
  }

  lemma BspStepsRunOut(m: Machine, s: State, s': State)
    requires WakeOrder(m, s) && BspStep(m, s, s')
    ensures Remaining(m, s') < Remaining(m, s)
  {
    hide Ranks;
    if s.bsp.Waking? {
      assert s.aps[s.bsp.cpu] == Parked;
      RanksUpdate(s.aps, s.bsp.cpu, Woken);
    }
  }

  lemma ApStepsRunOut(m: Machine, s: State, s': State, i: nat)
    requires ApStep(m, s, s', i)
    ensures Remaining(m, s') < Remaining(m, s)
  {
    hide Ranks;
    RanksUpdate(s.aps, i, s'.aps[i]);
  }

  lemma StepsRunOut(m: Machine, s: State, s': State)
    requires Inv(m, s) && Step(m, s, s')
    ensures Remaining(m, s') < Remaining(m, s)
  {
    hide WakeOrder, BootLock, Gate, Completion, Contexts, Remaining, BspStep, ApStep;
    if BspStep(m, s, s') {
      BspStepsRunOut(m, s, s');
    } else {
      var i: nat :| ApStep(m, s, s', i);
      ApStepsRunOut(m, s, s', i);
    }
  }

  ghost predicate Finished(m: Machine, s: State) {
    s.bsp.Returned? && forall i: nat :: m.IsAp(i) && i < |s.aps| ==> s.aps[i] == Enabled
  }

  ghost predicate CanStep(m: Machine, s: State) {
    exists s' :: Step(m, s, s')
  }

  lemma ApCanStep(m: Machine, s: State, i: nat)
    requires i < |s.aps| && s.aps[i] != Parked && s.aps[i] != Enabled
    requires s.aps[i].AtGate? ==> !s.gate
    requires s.aps[i].AtCompletion? ==> !s.completion
    ensures CanStep(m, s)
  {
    var a := s.aps[i];
    var s' :=
      if a.Woken? then s.(aps := s.aps[i := AtGate], boot := false)
      else if a.AtGate? then s.(aps := s.aps[i := Installing])
      else if a.Installing? then s.(aps := s.aps[i := AtCompletion], installed := s.installed + {i})
      else if a.AtCompletion? then s.(aps := s.aps[i := Loading], completion := true)
      else if a.Loading? then s.(aps := s.aps[i := Storing(s.complete)])
      else if a.Storing? then s.(aps := s.aps[i := Releasing], complete := a.value + 1)
      else s.(aps := s.aps[i := Enabled], completion := false);
    assert ApStep(m, s, s', i);
    assert Step(m, s, s');
  }

  lemma BspCanStep(m: Machine, s: State, s': State)
    requires BspStep(m, s, s')
    ensures CanStep(m, s)
  {
    assert Step(m, s, s');
  }

  /** All but one processor counted: the counter is at its final value. */
  lemma {:induction false} CountAllBut(aps: seq<Ap>, b: nat)
    requires b < |aps| && !Counted(aps[b]) && forall i: nat :: i < |aps| && i != b ==> Counted(aps[i])
    ensures Count(aps) == |aps| - 1
  {
    var n := |aps| - 1;
    if b < n { CountAllBut(aps[..n], b); } else { CountAll(aps[..n]); }
  }

  lemma {:induction false} CountAll(aps: seq<Ap>)
    requires forall i: nat :: i < |aps| ==> Counted(aps[i])
    ensures Count(aps) == |aps|
  {
    if aps != [] { CountAll(aps[..|aps| - 1]); }
  }

  /** While the BSP polls, some AP it waits for is still on its way. */
  lemma SomeUncounted(m: Machine, s: State) returns (i: nat)
    requires m.WellFormed() && WakeOrder(m, s) && Completion(s) && s.complete != |m.ids| - 1
    ensures m.IsAp(i) && i < |s.aps| && !Counted(s.aps[i])
  {
    var b: nat :| b < |m.ids| && m.ids[b] == m.bspId;
    assert s.aps[b] == Parked;
    if forall j: nat :: j < |s.aps| && j != b ==> Counted(s.aps[j]) {
      CountAllBut(s.aps, b);
      assert false;
    }
    i :| i < |s.aps| && i != b && !Counted(s.aps[i]);
    assert m.ids[i] != m.ids[b];
  }

  lemma PollingCanStep(m: Machine, s: State, i: nat)
    requires Inv(m, s) && s.bsp.Awaiting? && m.IsAp(i) && i < |s.aps| && !Counted(s.aps[i])
    ensures CanStep(m, s)
  {
    hide Contexts;
    assert s.aps[i] != Parked;
    if s.aps[i].AtCompletion? && s.completion {
      var j: nat :| j < |s.aps| && HoldsCompletion(s.aps[j]);
      ApCanStep(m, s, j);
    } else {
      ApCanStep(m, s, i);
    }
  }

  /** No interleaving gets stuck: until everything is done, some processor can
      make a step that is not a spin. */
  lemma NeverStuck(m: Machine, s: State)
    requires m.WellFormed() && Inv(m, s) && !Finished(m, s)
    ensures CanStep(m, s)
  {
    match s.bsp
    case Locking => BspCanStep(m, s, s.(bsp := Loop(0), gate := true));
    case Loop(i) =>
      BspCanStep(m, s, s.(bsp := if i >= |m.ids| then Online else if m.ids[i] == m.bspId then Loop(i + 1) else Acquiring(i)));
    case Acquiring(i) => BspCanStep(m, s, s.(bsp := Waking(i), boot := true));
    case Waking(i) => BspCanStep(m, s, s.(bsp := Waiting(i), aps := s.aps[i := Woken]));
    case Waiting(i) =>
      if s.boot { ApCanStep(m, s, i); } else { BspCanStep(m, s, s.(bsp := Loop(i + 1))); }
    case Online => BspCanStep(m, s, s.(bsp := Awaiting, gate := false));
    case Awaiting =>
      if s.complete == |m.ids| - 1 {
        BspCanStep(m, s, s.(bsp := Returned));
      } else {
        var i := SomeUncounted(m, s);
        PollingCanStep(m, s, i);
      }
    case Returned =>
      var i: nat :| m.IsAp(i) && i < |s.aps| && s.aps[i] != Enabled;
      AllCounted(m, s, i);
      ApCanStep(m, s, i);
  }

  /** Liveness: a run makes at most `Remaining(Start)` steps, and one that cannot
      be continued has every AP running its scheduler. */
  lemma HandshakeCompletes(m: Machine, states: seq<State>)
    requires m.WellFormed() && Run(m, states)
    ensures |states| <= Remaining(m, Start(m)) + 1
    ensures !CanStep(m, states[|states| - 1]) ==> Finished(m, states[|states| - 1])
  {
    RunShrinks(m, states, |states| - 1);
    EveryState(m, states, |states| - 1);
    if !Finished(m, states[|states| - 1]) { NeverStuck(m, states[|states| - 1]); }
  }

  lemma {:induction false} RunShrinks(m: Machine, states: seq<State>, k: nat)
    requires m.WellFormed() && Run(m, states) && k < |states|
    ensures Remaining(m, states[k]) + k <= Remaining(m, Start(m))
  {
    if k > 0 {
      RunShrinks(m, states, k - 1);
      EveryState(m, states, k - 1);
      assert Step(m, states[k - 1], states[k]) by { assert Step(m, states[k - 1], states[k - 1 + 1]); }
      StepsRunOut(m, states[k - 1], states[k]);
    }
  }
}
