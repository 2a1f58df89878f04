/** Round robin on values: the order of a run queue under rotation, and why a
    runnable task is never kept waiting. */
module Rotation {
  import opened Sequences

  function Rotate<T>(q: seq<T>, k: nat): (r: seq<T>)
    requires k <= |q|
    ensures |r| == |q|
  {
    q[k..] + q[..k]
  }

  lemma RotateOnce<T>(q: seq<T>, k: nat)
    requires k < |q|
    ensures Rotate(Rotate(q, k), 1) == Rotate(q, k + 1)
  {
    assert Rotate(q, k)[0] == q[k];
    assert Rotate(q, k)[1..] == q[k + 1..] + q[..k];
    assert q[..k + 1] == q[..k] + [q[k]];
  }

  lemma RotateMembers<T>(q: seq<T>, k: nat)
    requires k <= |q|
    ensures forall t :: t in Rotate(q, k) <==> t in q
  {
    assert q == q[..k] + q[k..];
  }

  lemma RotateDistinct<T>(q: seq<T>, k: nat)
    requires k <= |q| && Distinct(q)
    ensures Distinct(Rotate(q, k))
  {
    var r := Rotate(q, k);
    forall i: nat | i < |r| ensures r[i] == q[if i < |q| - k then i + k else i - (|q| - k)] {
    }
  }

  /** `r` is what `k` pops make of `q`. */
  ghost predicate Popped<T>(q: seq<T>, r: seq<T>, k: nat) {
    k <= |q| && r == Rotate(q, k)
  }

  lemma PoppedNone<T>(q: seq<T>)
    ensures Popped(q, q, 0)
  {
  }

  /** One more pop takes the next task of the original queue. */
  lemma PopNext<T>(q: seq<T>, r: seq<T>, k: nat)
    requires Popped(q, r, k) && k < |q|
    ensures |r| == |q| && r[0] == q[k] && Popped(q, Rotate(r, 1), k + 1)
    ensures forall t :: t in Rotate(r, 1) ==> t in q
  {
    RotateOnce(q, k);
    RotateMembers(q, k + 1);
  }

  lemma PopsRotate<T>(q: seq<T>, r: seq<T>, k: nat)
    requires Popped(q, r, k)
    ensures k <= |q| && r == Rotate(q, k)
  {
  }

  /** The position of the first runnable task; |q| when there is none. */
  function FirstRunnable<T(==)>(q: seq<T>, runnable: set<T>): (j: nat)
    ensures j <= |q|
    ensures j < |q| ==> q[j] in runnable
    ensures forall i: nat :: i < j ==> q[i] !in runnable
  {
    if q == [] || q[0] in runnable then 0 else 1 + FirstRunnable(q[1..], runnable)
  }

  // ------------------------------------------------------- bounded waiting

  /** The queue of one processor and the tasks that are neither empty nor
      zombies. */
  datatype Queue = Queue(order: seq<nat>, runnable: set<nat>)

  datatype Event =
    | Reschedule
    | Push(task: nat)      // another processor adds a task
    | Publish(task: nat)   // an empty task is filled in
    | Exit(task: nat)      // a task becomes a zombie

  /** The queue after one event, and the task switched to, if any. */
  function Next(q: Queue, e: Event): (r: (Queue, seq<nat>)) {
    match e
    case Reschedule =>
      var j := FirstRunnable(q.order, q.runnable);
      if j == |q.order| then (q, [])
      else (q.(order := Rotate(q.order, j + 1)), [q.order[j]])
    case Push(t) => (q.(order := q.order + [t]), [])
    case Publish(t) => (q.(runnable := q.runnable + {t}), [])
    case Exit(t) => (q.(runnable := q.runnable - {t}), [])
  }

  /** The tasks switched to in a run, in order. */
  function Switches(q: Queue, events: seq<Event>): seq<nat>
    decreases |events|
  {
    if events == [] then []
    else Next(q, events[0]).1 + Switches(Next(q, events[0]).0, events[1..])
  }

  function Reschedules(events: seq<Event>): nat {
    if events == [] then 0 else (if events[0].Reschedule? then 1 else 0) + Reschedules(events[1..])
  }

  /** A runnable task at position `k` is switched to within `k + 1` reschedules,
      under any interleaving of pushes, publications and exits of other tasks. */
  lemma {:induction false} BoundedWaiting(q: Queue, events: seq<Event>, t: nat, k: nat)
    requires k < |q.order| && q.order[k] == t && t in q.runnable
    requires Exit(t) !in events
    requires Reschedules(events) >= k + 1
    ensures exists i: nat :: i <= k && i < |Switches(q, events)| && Switches(q, events)[i] == t
    decreases |events|
  {
    var e, rest := events[0], events[1..];
    var q', out := Next(q, e).0, Next(q, e).1;
    if e.Reschedule? {
      var j := FirstRunnable(q.order, q.runnable);
      assert j <= k;
      assert out == [q.order[j]];
      if q.order[j] == t {
        assert Switches(q, events)[0] == t;
      } else {
        assert q'.order[k - j - 1] == t;
        BoundedWaiting(q', rest, t, k - j - 1);
        var i: nat :| i <= k - j - 1 && i < |Switches(q', rest)| && Switches(q', rest)[i] == t;
        assert Switches(q, events)[i + 1] == t;
      }
    } else {
      assert out == [] && q'.order[k] == t && t in q'.runnable;
      BoundedWaiting(q', rest, t, k);
      assert Switches(q, events) == Switches(q', rest);
    }
  }

  /** A task that cannot run is not switched to before it is published. */
  lemma {:induction false} NotBeforePublish(q: Queue, events: seq<Event>, t: nat)
    requires t !in q.runnable && Publish(t) !in events
    ensures t !in Switches(q, events)
    decreases |events|
  {
    if events != [] {
      var e, rest := events[0], events[1..];
      assert e in events && forall x :: x in rest ==> x in events;
      NotBeforePublish(Next(q, e).0, rest, t);
    }
  }

  /** A task that has exited is not switched to, unless it is published anew. */
  lemma ExitIsFinal(q: Queue, events: seq<Event>, t: nat)
    requires Publish(t) !in events
    ensures t !in Switches(q, [Exit(t)] + events)
  {
    assert ([Exit(t)] + events)[1..] == events;
    NotBeforePublish(Next(q, Exit(t)).0, events, t);
  }

  /** A task at position `k` that is published is switched to within `k + 1`
      reschedules. */
  lemma PublishedRuns(q: Queue, events: seq<Event>, t: nat, k: nat)
    requires k < |q.order| && q.order[k] == t && Exit(t) !in events && Reschedules(events) >= k + 1
    ensures exists i: nat :: i <= k && i < |Switches(q, [Publish(t)] + events)| && Switches(q, [Publish(t)] + events)[i] == t
  {
    var q' := Next(q, Publish(t)).0;
    assert ([Publish(t)] + events)[1..] == events;
    BoundedWaiting(q', events, t, k);
    assert Switches(q, [Publish(t)] + events) == Switches(q', events);
  }

  /** A task that is pushed and published is switched to after every task that was
      in front of it, at the latest. */
  lemma PushedRuns(q: Queue, events: seq<Event>, t: nat)
    requires Exit(t) !in events && Reschedules(events) >= |q.order| + 1
    ensures t in Switches(q, [Push(t), Publish(t)] + events)
  {
    var q' := Next(q, Push(t)).0;
    assert ([Push(t), Publish(t)] + events)[1..] == [Publish(t)] + events;
    PublishedRuns(q', events, t, |q.order|);
    assert Switches(q, [Push(t), Publish(t)] + events) == Switches(q', [Publish(t)] + events);
  }
}
