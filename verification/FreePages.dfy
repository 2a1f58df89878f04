/** The page allocator as a set of free pages, the way the page tables see it:
    the pages that single-page requests will return until the allocator panics. */
module FreePages {
  import opened Arithmetic
  import opened Options
  import opened PageAllocation
  import opened PageAllocator

  function Budget(pools: seq<Pool>): int {
    if pools == [] then 0 else Budget(pools[..|pools| - 1]) + pools[|pools| - 1].Available()
  }

  lemma {:induction false} BudgetUpdate(pools: seq<Pool>, i: nat, p: Pool)
    requires i < |pools|
    ensures Budget(pools[i := p]) == Budget(pools) - pools[i].Available() + p.Available()
  {
    var n := |pools| - 1;
    if i == n {
      assert pools[i := p][..n] == pools[..n];
    } else {
      assert pools[i := p][..n] == pools[..n][i := p];
      BudgetUpdate(pools[..n], i, p);
    }
  }

  lemma {:induction false} BudgetPositive(pools: seq<Pool>)
    requires AllSound(pools)
    ensures Budget(pools) >= 0
  {
    if pools != [] {
      var front := pools[..|pools| - 1];
      assert Sound(pools[|pools| - 1]);
      assert forall i: nat :: i < |front| ==> front[i] == pools[i];
      BudgetPositive(front);
    }
  }

  /** The pools after a single-page request to pool `i`. */
  function After(pools: seq<Pool>, i: nat): seq<Pool>
    requires i < |pools| && Sound(pools[i])
  {
    pools[i := Take(pools[i], 1)]
  }

  function PageAt(p: Pool, k: nat): nat {
    p.base + k * PAGE
  }

  lemma AfterSound(pools: seq<Pool>, i: nat)
    requires AllSound(pools) && i < |pools| && PAGE <= pools[i].Available()
    ensures Sound(pools[i]) && AllSound(After(pools, i)) && 0 <= Budget(After(pools, i)) < Budget(pools)
  {
    assert Sound(pools[i]);
    TakeIsSafe(pools[i], 1);
    BudgetUpdate(pools, i, Take(pools[i], 1));
    forall j: nat | j < |pools| ensures Sound(After(pools, i)[j]) { assert Sound(pools[j]); }
    BudgetPositive(After(pools, i));
  }

  /** The pages that single-page requests return from here on. */
  ghost function Future(pools: seq<Pool>): set<nat>
    requires AllSound(pools)
    decreases Budget(pools)
  {
    var i := FirstPool(pools, 1);
    if i == |pools| then {}
    else
      AfterSound(pools, i);
      {PageAt(pools[i], IndexIn(pools[i], 1))} + Future(After(pools, i))
  }

  /** Page `k` of pool `i` is in the pool and not busy. */
  ghost predicate ClearPage(pools: seq<Pool>, i: nat, k: nat)
    requires i < |pools|
  {
    k !in pools[i].pages && (k + 1) * PAGE <= pools[i].total
  }

  ghost predicate IsClear(pools: seq<Pool>, address: nat) {
    exists i: nat, k: nat :: i < |pools| && ClearPage(pools, i, k) && address == PageAt(pools[i], k)
  }

  /** Only clear pages are ever returned. */
  lemma {:induction false} FutureIsClear(pools: seq<Pool>, address: nat)
    requires AllSound(pools) && address in Future(pools)
    ensures IsClear(pools, address)
    decreases Budget(pools)
  {
    var i := FirstPool(pools, 1);
    AfterSound(pools, i);
    TakeIsSafe(pools[i], 1);
    var index := IndexIn(pools[i], 1);
    if address == PageAt(pools[i], index) {
      assert index in Span(index, 1);
      assert ClearPage(pools, i, index);
    } else {
      FutureIsClear(After(pools, i), address);
      var j: nat, k: nat :| j < |pools| && ClearPage(After(pools, i), j, k) && address == PageAt(After(pools, i)[j], k);
      TakeFields(pools[i], 1);
      assert ClearPage(pools, j, k) && PageAt(pools[j], k) == address;
    }
  }

  lemma TakeFields(p: Pool, n: nat)
    requires Sound(p)
    ensures Take(p, n).base == p.base && Take(p, n).total == p.total && p.pages <= Take(p, n).pages
    ensures Span(IndexIn(p, n), n) <= Take(p, n).pages
  {
  }

  /** Different pages have different addresses. */
  lemma OnePlace(pools: seq<Pool>, i: nat, k: nat, j: nat, m: nat)
    requires Separated(pools) && i < |pools| && j < |pools|
    requires (k + 1) * PAGE <= pools[i].total && (m + 1) * PAGE <= pools[j].total
    ensures PageAt(pools[i], k) == PageAt(pools[j], m) ==> i == j && k == m
  {
    var p, q := pools[i], pools[j];
    assert i != j ==> p.base + p.total < q.base || q.base + q.total < p.base;
  }

  /** A single-page request takes one page off the set and fails exactly when the
      set is empty: the contract of the page allocator seen from the tables. */
  lemma SinglePage(pools: seq<Pool>)
    requires AllSound(pools) && Separated(pools)
    ensures var i := FirstPool(pools, 1);
      if i == |pools| then Future(pools) == {}
      else
        && Sound(pools[i]) && AllSound(After(pools, i))
        && var address := PageAt(pools[i], IndexIn(pools[i], 1));
        && address in Future(pools) && Future(After(pools, i)) == Future(pools) - {address}
  {
    var i := FirstPool(pools, 1);
    if i < |pools| {
      AfterSound(pools, i);
      TakenIsGone(pools, i);
    }
  }

  /** A page that was handed out is not returned again. */
  lemma TakenIsGone(pools: seq<Pool>, i: nat)
    requires AllSound(pools) && Separated(pools) && i < |pools| && PAGE <= pools[i].Available()
    ensures Sound(pools[i]) && AllSound(After(pools, i))
    ensures PageAt(pools[i], IndexIn(pools[i], 1)) !in Future(After(pools, i))
  {
    hide Future, IndexIn;
    AfterSound(pools, i);
    var after, index := After(pools, i), IndexIn(pools[i], 1);
    TakeIsSafe(pools[i], 1);
    TakeFields(pools[i], 1);
    assert index in Span(index, 1);
    forall j: nat, k: nat | j < |pools| && ClearPage(after, j, k)
      ensures PageAt(pools[i], index) != PageAt(after[j], k)
    {
      OnePlace(pools, i, index, j, k);
    }
    if PageAt(pools[i], index) in Future(after) { FutureIsClear(after, PageAt(pools[i], index)); }
  }

  /** A page of a live range is not free. */
  lemma LiveIsNotFree(s: State, l: Live, k: nat)
    requires Inv(s) && l in s.live && l.index <= k < l.index + l.count
    ensures AllSound(s.pools) && PageAt(s.pools[l.pool], k) !in Future(s.pools)
  {
    hide Future;
    assert Has(l, l.pool, k);
    forall j: nat, m: nat | j < |s.pools| && ClearPage(s.pools, j, m)
      ensures PageAt(s.pools[l.pool], k) != PageAt(s.pools[j], m)
    {
      OnePlace(s.pools, l.pool, k, j, m);
    }
    if PageAt(s.pools[l.pool], k) in Future(s.pools) { FutureIsClear(s.pools, PageAt(s.pools[l.pool], k)); }
  }

  /** page_allocate(1) in place. */
  method AllocateSingle(allocator: Allocator) returns (address: Option<nat>)
    requires allocator.Valid() && Separated(allocator.Values())
    modifies allocator.pools, allocator.Bitmaps()
    ensures allocator.Valid() && Separated(allocator.Values())
    ensures AllSound(old(allocator.Values())) && AllSound(allocator.Values())
    ensures address == None <==> Future(old(allocator.Values())) == {}
    ensures address != None ==> address.value in Future(old(allocator.Values()))
    ensures Future(allocator.Values()) == Future(old(allocator.Values())) - (if address == None then {} else {address.value})
  {
    hide Future, FirstPool, IndexIn, Take, Sound, Separated, Hands;
    ghost var before := allocator.Values();
    ValuesSound(allocator);
    SinglePage(before);
    SeparatedStays(before);
    address := allocator.Allocate(1);
    ValuesSound(allocator);
  }

  lemma SeparatedStays(pools: seq<Pool>)
    requires AllSound(pools) && Separated(pools)
    ensures var i := FirstPool(pools, 1); i < |pools| ==> Sound(pools[i]) && Separated(After(pools, i))
  {
    var i := FirstPool(pools, 1);
    if i < |pools| {
      assert Sound(pools[i]);
      TakeFields(pools[i], 1);
    }
  }

  lemma ValuesSound(allocator: Allocator)
    requires allocator.Valid()
    ensures AllSound(allocator.Values())
  {
  }
}
