/** Placement of new tasks on the least busy processor. */
module LoadBalance {

  function Min(counts: seq<nat>): (m: nat)
    requires counts != []
    ensures m in counts && forall i: nat :: i < |counts| ==> m <= counts[i]
  {
    if |counts| == 1 then counts[0]
    else
      var rest := Min(counts[1..]);
      if counts[0] < rest then counts[0] else rest
  }

  function Max(counts: seq<nat>): (m: nat)
    requires counts != []
    ensures m in counts && forall i: nat :: i < |counts| ==> counts[i] <= m
  {
    if |counts| == 1 then counts[0]
    else
      var rest := Max(counts[1..]);
      if counts[0] > rest then counts[0] else rest
  }

  function Spread(counts: seq<nat>): int
    requires counts != []
  {
    Max(counts) - Min(counts)
  }

  /** The walk starts at the context installed last and keeps the first minimum
      it meets, so the minimum with the highest index. */
  function LeastLoaded(counts: seq<nat>): (i: nat)
    requires counts != []
    ensures i < |counts| && counts[i] == Min(counts)
    ensures forall j: nat :: i < j < |counts| ==> counts[j] > Min(counts)
  {
    LastIndex(counts, Min(counts))
  }

  function LastIndex(counts: seq<nat>, m: nat): (i: nat)
    requires m in counts
    ensures i < |counts| && counts[i] == m
    ensures forall j: nat :: i < j < |counts| ==> counts[j] != m
  {
    var n := |counts| - 1;
    if counts[n] == m then n else LastIndex(counts[..n], m)
  }

  /** The queue lengths after `n` creations. */
  function Placed(counts: seq<nat>, n: nat): (r: seq<nat>)
    requires counts != []
    ensures |r| == |counts|
  {
    if n == 0 then counts
    else
      var c := Placed(counts, n - 1);
      c[LeastLoaded(c) := c[LeastLoaded(c)] + 1]
  }

  lemma OneMore(counts: seq<nat>)
    requires counts != []
    ensures var c := counts[LeastLoaded(counts) := counts[LeastLoaded(counts)] + 1];
            Spread(c) <= 1 || Spread(c) <= Spread(counts)
  {
    hide Min, Max, LeastLoaded;
    var i := LeastLoaded(counts);
    var c := counts[i := counts[i] + 1];
    var hi: nat :| hi < |c| && c[hi] == Max(c);
    var lo: nat :| lo < |c| && c[lo] == Min(c);
    assert c[lo] >= counts[lo] >= Min(counts);
    assert hi != i ==> c[hi] == counts[hi] <= Max(counts);
  }

  /** Any sequence of creations keeps the difference between the longest and the
      shortest queue at most 1, or at most what it was. */
  lemma {:induction false} Balanced(counts: seq<nat>, n: nat)
    requires counts != []
    ensures Spread(Placed(counts, n)) <= (if Spread(counts) > 1 then Spread(counts) else 1)
  {
    hide Spread, LeastLoaded;
    if n > 0 {
      Balanced(counts, n - 1);
      OneMore(Placed(counts, n - 1));
    }
  }
}
