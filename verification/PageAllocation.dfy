/** The physical page allocator as a machine on values: pools with a search
    hint, a running count of pages ever handed out, and a set of busy pages.
    Everything the allocator promises rests on one invariant: no page at or
    above `used / PAGE` is busy. */
module PageAllocation {
  import opened Arithmetic
  import opened Options

  /** A pool of the allocator. `entries` is the page count written down for the
      search, `bits` what the bitmap can hold, `pages` the pages marked busy. */
  datatype Pool = Pool(base: nat, total: nat, entries: nat, bits: nat, used: nat, hint: nat, pages: set<nat>) {
    function Available(): int {
      total - used
    }

    /** The first page number that was never handed out. */
    function Top(): nat {
      used / PAGE
    }
  }

  ghost predicate Sound(p: Pool) {
    && p.used % PAGE == 0 && p.used <= p.total
    && p.total <= p.entries * PAGE
    && p.total / PAGE <= p.bits
    && p.hint <= p.Top()
    && (forall k <- p.pages :: k < p.Top())
  }

  /** The pages index, index + 1, ..., index + n - 1. */
  function Span(index: nat, n: nat): (pages: set<nat>)
    ensures forall k: nat :: k in pages <==> index <= k < index + n
  {
    if n == 0 then {} else Span(index, n - 1) + {index + n - 1}
  }

  predicate Clear(pages: set<nat>, index: nat, n: nat) {
    forall k | index <= k < index + n :: k !in pages
  }

  // ------------------------------------------------------------ one pool

  /** The first index from `from` on where `n` pages are clear. */
  function FirstFit(pages: set<nat>, from: nat, n: nat, top: nat): (index: nat)
    requires from <= top && forall k <- pages :: k < top
    ensures from <= index <= top && Clear(pages, index, n)
    ensures forall j: nat :: from <= j < index ==> !Clear(pages, j, n)
    decreases top - from
  {
    if Clear(pages, from, n) then from else FirstFit(pages, from + 1, n, top)
  }

  lemma FirstFitUnique(pages: set<nat>, from: nat, n: nat, top: nat, index: nat)
    requires from <= top && forall k <- pages :: k < top
    requires from <= index && Clear(pages, index, n)
    requires forall j: nat :: from <= j < index ==> !Clear(pages, j, n)
    ensures index == FirstFit(pages, from, n, top)
  {
    var r := FirstFit(pages, from, n, top);
  }

  function IndexIn(p: Pool, n: nat): nat
    requires Sound(p)
  {
    FirstFit(p.pages, p.hint, n, p.Top())
  }

  /** The pool after handing out `n` pages. */
  function Take(p: Pool, n: nat): Pool
    requires Sound(p)
  {
    p.(used := p.used + n * PAGE, hint := IndexIn(p, n), pages := p.pages + Span(IndexIn(p, n), n))
  }

  /** A pool with the budget always has room at or below its top, so the search
      never fails and never leaves the pool, although `entries` counts more
      pages than the pool can hand out. */
  lemma TakeIsSafe(p: Pool, n: nat)
    requires Sound(p) && n * PAGE <= p.Available()
    ensures Sound(Take(p, n))
    ensures IndexIn(p, n) + n <= Take(p, n).Top() <= p.total / PAGE <= p.entries
    ensures (IndexIn(p, n) + n) * PAGE <= p.total
    ensures Span(IndexIn(p, n), n) !! p.pages
  {
    var q := Take(p, n);
    assert q.Top() == p.Top() + n;
    assert Clear(p.pages, IndexIn(p, n), n);
  }

  function Release(p: Pool, index: nat, n: nat): Pool {
    p.(pages := p.pages - Span(index, n))
  }

  lemma ReleaseKeeps(p: Pool, index: nat, n: nat)
    requires Sound(p)
    ensures Sound(Release(p, index, n))
  {
  }

  // ---------------------------------------------------------- all pools

  /** page_allocate treats a request for no pages as one page. */
  function Wanted(request: nat): (n: nat)
    ensures n >= 1 && (request >= 1 ==> n == request) && (request == 0 ==> n == 1)
  {
    if request == 0 then 1 else request
  }

  /** The first pool with the budget; |pools| when there is none. */
  function FirstPool(pools: seq<Pool>, n: nat): (i: nat)
    ensures i <= |pools|
    ensures i < |pools| ==> n * PAGE <= pools[i].Available()
    ensures forall j: nat :: j < i ==> pools[j].Available() < n * PAGE
  {
    if pools == [] || n * PAGE <= pools[0].Available() then 0 else 1 + FirstPool(pools[1..], n)
  }

  /** page_deallocate accepts an address up to and including the end of a pool. */
  predicate Accepts(p: Pool, address: nat) {
    p.base <= address <= p.base + p.total
  }

  function OwnerOf(pools: seq<Pool>, address: nat): (i: nat)
    ensures i <= |pools|
    ensures i < |pools| ==> Accepts(pools[i], address)
    ensures forall j: nat :: j < i ==> !Accepts(pools[j], address)
  {
    if pools == [] || Accepts(pools[0], address) then 0 else 1 + OwnerOf(pools[1..], address)
  }

  function Deallocate(pools: seq<Pool>, address: nat, n: nat): seq<Pool> {
    var i := OwnerOf(pools, address);
    if i == |pools| then pools
    else pools[i := Release(pools[i], (address - pools[i].base) / PAGE, n)]
  }

  /** Pools lie apart, with at least one address between them: each pool starts
      with its own bitmap, in front of `base`. */
  ghost predicate Separated(pools: seq<Pool>) {
    forall i: nat, j: nat :: i < j < |pools| ==>
      pools[i].base + pools[i].total < pools[j].base || pools[j].base + pools[j].total < pools[i].base
  }

  // ------------------------------------------------------- what a call does

  /** A run of `n` pages at page `k` of pool `i` was handed out: the pool is the
      first with the budget, the run is inside it and the lowest clear one from the
      hint on; these pages become busy, the pool is charged for them, and nothing
      else changes. */
  ghost predicate HandedOut(before: seq<Pool>, after: seq<Pool>, address: nat, n: nat, i: nat, k: nat) {
    && i < |before| && n * PAGE <= before[i].total - before[i].used
    && (forall j: nat :: j < i ==> before[j].total - before[j].used < n * PAGE)
    && address == before[i].base + k * PAGE && (k + n) * PAGE <= before[i].total
    && (forall m: nat :: k <= m < k + n ==> m !in before[i].pages)
    && before[i].hint <= k
    && (forall j: nat :: before[i].hint <= j < k ==> RunBusy(before[i].pages, j, n))
    && |after| == |before| && (forall j: nat :: j < |before| && j != i ==> after[j] == before[j])
    && (forall m: nat :: m in after[i].pages <==> m in before[i].pages || k <= m < k + n)
    && after[i] == before[i].(used := before[i].used + n * PAGE, hint := k, pages := after[i].pages)
  }

  /** Some page of the run is busy. */
  ghost predicate RunBusy(pages: set<nat>, j: nat, n: nat) {
    exists m: nat :: j <= m < j + n && m in pages
  }

  /** What page_allocate promises for `n` pages; `None` is the panic. */
  ghost predicate Hands(before: seq<Pool>, after: seq<Pool>, address: Option<nat>, n: nat) {
    match address
    case None => after == before && forall j: nat :: j < |before| ==> before[j].total - before[j].used < n * PAGE
    case Some(a) => exists i: nat, k: nat :: HandedOut(before, after, a, n, i, k)
  }

  lemma TakeHands(before: seq<Pool>, i: nat, n: nat)
    requires i < |before| && i == FirstPool(before, n) && Sound(before[i]) && n >= 1
    ensures Hands(before, before[i := Take(before[i], n)], Some(before[i].base + IndexIn(before[i], n) * PAGE), n)
  {
    hide FirstPool, FirstFit, Sound, IndexIn;
    var p, k := before[i], IndexIn(before[i], n);
    TakeIsSafe(p, n);
    LowestRun(p, n);
    assert HandedOut(before, before[i := Take(p, n)], p.base + k * PAGE, n, i, k);
  }

  lemma LowestRun(p: Pool, n: nat)
    requires Sound(p)
    ensures p.hint <= IndexIn(p, n)
    ensures forall m: nat :: IndexIn(p, n) <= m < IndexIn(p, n) + n ==> m !in p.pages
    ensures forall j: nat :: p.hint <= j < IndexIn(p, n) ==> RunBusy(p.pages, j, n)
  {
    var k := IndexIn(p, n);
    assert Clear(p.pages, k, n);
    forall j: nat | p.hint <= j < k ensures RunBusy(p.pages, j, n) {
      assert !Clear(p.pages, j, n);
    }
  }

  /** Exactly the `n` pages at `address` are clear afterwards, in the first pool
      that accepts the address; counters and hint stay, and so does all else. */
  ghost predicate GaveBack(before: seq<Pool>, after: seq<Pool>, address: nat, n: nat, i: nat) {
    && i < |before| && before[i].base <= address <= before[i].base + before[i].total
    && (forall j: nat :: j < i ==> !(before[j].base <= address <= before[j].base + before[j].total))
    && |after| == |before| && (forall j: nat :: j < |before| && j != i ==> after[j] == before[j])
    && var k := (address - before[i].base) / PAGE;
    && (forall m: nat :: m in after[i].pages <==> m in before[i].pages && !(k <= m < k + n))
    && after[i] == before[i].(pages := after[i].pages)
  }

  ghost predicate GivesBack(before: seq<Pool>, after: seq<Pool>, address: nat, n: nat) {
    || (after == before && forall j: nat :: j < |before| ==> !(before[j].base <= address <= before[j].base + before[j].total))
    || (exists i: nat :: GaveBack(before, after, address, n, i))
  }

  lemma DeallocateGivesBack(before: seq<Pool>, address: nat, n: nat)
    ensures GivesBack(before, Deallocate(before, address, n), address, n)
  {
    var i := OwnerOf(before, address);
    if i < |before| {
      hide OwnerOf;
      assert Accepts(before[i], address);
      forall j: nat | j < i ensures !(before[j].base <= address <= before[j].base + before[j].total) {
        assert !Accepts(before[j], address);
      }
      assert GaveBack(before, Deallocate(before, address, n), address, n, i);
    } else {
      forall j: nat | j < |before| ensures !(before[j].base <= address <= before[j].base + before[j].total) {
        assert !Accepts(before[j], address);
      }
    }
  }

  // ------------------------------------------------------------ whole runs

  /** A range of pages that was handed out and not given back. */
  datatype Live = Live(pool: nat, index: nat, count: nat)

  datatype State = State(pools: seq<Pool>, live: set<Live>)

  datatype Event = Allocate(request: nat) | Free(address: nat, count: nat)

  function Address(pools: seq<Pool>, l: Live): nat
    requires l.pool < |pools|
  {
    pools[l.pool].base + l.index * PAGE
  }

  predicate Overlap(a: Live, b: Live) {
    a.pool == b.pool && a.index < b.index + b.count && b.index < a.index + a.count
  }

  ghost predicate AllSound(pools: seq<Pool>) {
    forall i: nat :: i < |pools| ==> Sound(pools[i])
  }

  /** Every live range lies inside its pool. */
  ghost predicate Inside(pools: seq<Pool>, live: set<Live>) {
    forall l <- live :: l.pool < |pools| && l.count >= 1 && (l.index + l.count) * PAGE <= pools[l.pool].total
  }

  ghost predicate Apart(live: set<Live>) {
    forall a <- live, b <- live :: a != b ==> !Overlap(a, b)
  }

  predicate Has(l: Live, i: nat, k: nat) {
    l.pool == i && l.index <= k < l.index + l.count
  }

  /** The busy pages are exactly the pages of the live ranges. */
  ghost predicate Exact(pools: seq<Pool>, live: set<Live>) {
    && (forall l <- live, k: nat {:trigger Has(l, l.pool, k)} :: l.pool < |pools| && Has(l, l.pool, k) ==> k in pools[l.pool].pages)
    && (forall i: nat, k: nat {:trigger k in pools[i].pages} :: i < |pools| && k in pools[i].pages ==> Covered(live, i, k))
  }

  ghost predicate Covered(live: set<Live>, i: nat, k: nat) {
    exists l <- live :: Has(l, i, k)
  }

  /** The invariant of every run. */
  ghost predicate Inv(s: State) {
    Separated(s.pools) && AllSound(s.pools) && Inside(s.pools, s.live) && Apart(s.live) && Exact(s.pools, s.live)
  }

  /** The pages that a call of page_deallocate names, when a pool accepts the
      address. They need not be one live range: part of one, several, or pages
      that were given back already. */
  function Named(pools: seq<Pool>, address: nat, count: nat): (h: Live)
    requires OwnerOf(pools, address) < |pools|
    ensures h.pool < |pools|
  {
    var i := OwnerOf(pools, address);
    Live(i, (address - pools[i].base) / PAGE, count)
  }

  /** What callers must not do: name pages that the bitmap cannot describe. */
  ghost predicate Legal(s: State, e: Event) {
    match e
    case Allocate(_) => true
    case Free(address, count) =>
      OwnerOf(s.pools, address) < |s.pools| ==>
        var h := Named(s.pools, address, count);
        h.index + h.count <= s.pools[h.pool].bits
  }

  /** What is left of a live range when the pages of `h` are given back. */
  function Pieces(l: Live, h: Live): set<Live> {
    if h.count == 0 || !Overlap(l, h) then {l}
    else
      (if l.index < h.index then {Live(l.pool, l.index, h.index - l.index)} else {})
      + (if h.index + h.count < l.index + l.count
         then {Live(l.pool, h.index + h.count, l.index + l.count - h.index - h.count)} else {})
  }

  function Carved(live: set<Live>, h: Live): set<Live> {
    set l <- live, p <- Pieces(l, h) :: p
  }

  /** One call. An allocation that no pool can serve panics: `None`. */
  ghost function Step(s: State, e: Event): Option<State>
    requires Inv(s) && Legal(s, e)
  {
    match e
    case Allocate(request) =>
      var n := Wanted(request);
      var i := FirstPool(s.pools, n);
      if i == |s.pools| then None
      else Some(State(s.pools[i := Take(s.pools[i], n)], s.live + {Live(i, IndexIn(s.pools[i], n), n)}))
    case Free(address, count) =>
      var pools := Deallocate(s.pools, address, count);
      Some(State(pools, if OwnerOf(s.pools, address) == |s.pools| then s.live
                        else Carved(s.live, Named(s.pools, address, count))))
  }

  /** page_deallocate picks the pool a live range came from, in spite of the
      inclusive upper bound of its test. */
  lemma OwnerIsPool(pools: seq<Pool>, live: set<Live>, l: Live)
    requires Separated(pools) && Inside(pools, live) && l in live
    ensures OwnerOf(pools, Address(pools, l)) == l.pool
    ensures (Address(pools, l) - pools[l.pool].base) / PAGE == l.index
  {
    var a := Address(pools, l);
    assert Accepts(pools[l.pool], a);
    forall j: nat | j < l.pool ensures !Accepts(pools[j], a) {
      assert pools[j].base + pools[j].total < pools[l.pool].base || pools[l.pool].base + pools[l.pool].total < pools[j].base;
    }
  }

  lemma TakenApart(pools: seq<Pool>, live: set<Live>, taken: Live)
    requires Inside(pools, live) && Exact(pools, live) && Apart(live)
    requires taken.pool < |pools| && taken.count >= 1
    requires Span(taken.index, taken.count) !! pools[taken.pool].pages
    ensures Apart(live + {taken})
  {
    forall l | l in live ensures !Overlap(l, taken) && !Overlap(taken, l) {
      // a page they would share
      var k := if l.index < taken.index then taken.index else l.index;
      assert Has(l, l.pool, k) == (k < l.index + l.count);
      assert (k in Span(taken.index, taken.count)) == (k < taken.index + taken.count);
    }
  }

  lemma TakenExact(pools: seq<Pool>, live: set<Live>, taken: Live, p: Pool)
    requires Exact(pools, live) && taken.pool < |pools|
    requires p.pages == pools[taken.pool].pages + Span(taken.index, taken.count)
    ensures Exact(pools[taken.pool := p], live + {taken})
  {
    var pools', live' := pools[taken.pool := p], live + {taken};
    forall i: nat, k: nat | i < |pools'| && k in pools'[i].pages ensures Covered(live', i, k) {
      if Has(taken, i, k) {
        assert taken in live';
      } else {
        assert k in pools[i].pages;
        var l :| l in live && Has(l, i, k);
        assert l in live';
      }
    }
  }

  lemma AllocateKeepsInv(s: State, request: nat)
    requires Inv(s) && Step(s, Allocate(request)).Some?
    ensures Inv(Step(s, Allocate(request)).value)
  {
    hide FirstPool, FirstFit, Exact, Apart, Sound;
    var n := Wanted(request);
    var i := FirstPool(s.pools, n);
    var p := s.pools[i];
    var taken := Live(i, IndexIn(p, n), n);
    TakeIsSafe(p, n);
    TakenApart(s.pools, s.live, taken);
    TakenExact(s.pools, s.live, taken, Take(p, n));
  }

  /** An allocation adds one live range, of the size asked for. */
  lemma AllocateAddsOne(s: State, request: nat) returns (l: Live)
    requires Inv(s) && Step(s, Allocate(request)).Some?
    ensures l !in s.live && Step(s, Allocate(request)).value.live == s.live + {l}
    ensures request >= 1 ==> l.count == request
    ensures request == 0 ==> l.count == 1
  {
    var n := Wanted(request);
    var i := FirstPool(s.pools, n);
    l := Live(i, IndexIn(s.pools[i], n), n);
    TakeIsSafe(s.pools[i], n);
    assert l.index in Span(l.index, n);
    assert Has(l, i, l.index);
  }

  /** The pieces of a range are inside it and are its pages outside `h`. */
  lemma PieceOf(l: Live, h: Live, p: Live)
    requires l.count >= 1 && p in Pieces(l, h)
    ensures p.pool == l.pool && p.count >= 1 && l.index <= p.index && p.index + p.count <= l.index + l.count
    ensures h.count > 0 ==> !Overlap(p, h)
  {
  }

  lemma PieceWith(l: Live, h: Live, i: nat, k: nat) returns (p: Live)
    requires Has(l, i, k) && !Has(h, i, k)
    ensures p in Pieces(l, h) && Has(p, i, k)
  {
    if h.count == 0 || !Overlap(l, h) {
      p := l;
    } else if k < h.index {
      p := Live(l.pool, l.index, h.index - l.index);
    } else {
      p := Live(l.pool, h.index + h.count, l.index + l.count - h.index - h.count);
    }
  }

  lemma CarvedFrom(live: set<Live>, h: Live, p: Live) returns (l: Live)
    requires p in Carved(live, h)
    ensures l in live && p in Pieces(l, h)
  {
    l :| l in live && p in Pieces(l, h);
  }

  lemma CarvedApart(live: set<Live>, h: Live)
    requires Apart(live) && forall l <- live :: l.count >= 1
    ensures Apart(Carved(live, h))
  {
    hide Carved;
    forall a, b | a in Carved(live, h) && b in Carved(live, h) && a != b ensures !Overlap(a, b) {
      var l := CarvedFrom(live, h, a);
      var m := CarvedFrom(live, h, b);
      PieceOf(l, h, a);
      PieceOf(m, h, b);
      if l != m { assert !Overlap(l, m); }
    }
  }

  lemma CarvedInside(pools: seq<Pool>, live: set<Live>, h: Live)
    requires Inside(pools, live)
    ensures Inside(pools, Carved(live, h))
  {
    hide Carved;
    forall p | p in Carved(live, h)
      ensures p.pool < |pools| && p.count >= 1 && (p.index + p.count) * PAGE <= pools[p.pool].total
    {
      var l := CarvedFrom(live, h, p);
      PieceOf(l, h, p);
    }
  }

  lemma CarvedExact(pools: seq<Pool>, live: set<Live>, h: Live, r: Pool)
    requires Exact(pools, live) && h.pool < |pools| && forall l <- live :: l.count >= 1
    requires r.pages == pools[h.pool].pages - Span(h.index, h.count)
    ensures Exact(pools[h.pool := r], Carved(live, h))
  {
    var pools', live' := pools[h.pool := r], Carved(live, h);
    forall p, k: nat | p in live' && p.pool < |pools'| && Has(p, p.pool, k) ensures k in pools'[p.pool].pages {
      var l := CarvedFrom(live, h, p);
      PieceOf(l, h, p);
      assert Has(l, l.pool, k);
      assert h.count > 0 ==> !Overlap(p, h);
    }
    forall i: nat, k: nat | i < |pools'| && k in pools'[i].pages ensures Covered(live', i, k) {
      assert k in pools[i].pages && !Has(h, i, k);
      assert Covered(live, i, k);
      var l :| l in live && Has(l, i, k);
      var p := PieceWith(l, h, i, k);
      assert p in live';
    }
  }

  lemma FreeKeepsInv(s: State, address: nat, count: nat)
    requires Inv(s) && Legal(s, Free(address, count))
    ensures Inv(Step(s, Free(address, count)).value)
  {
    hide OwnerOf, Exact, Apart, Sound, Inside, Carved;
    if OwnerOf(s.pools, address) < |s.pools| {
      var h := Named(s.pools, address, count);
      var r := Release(s.pools[h.pool], h.index, h.count);
      ReleaseKeeps(s.pools[h.pool], h.index, h.count);
      LivePositive(s.pools, s.live);
      CarvedApart(s.live, h);
      CarvedInside(s.pools, s.live, h);
      CarvedExact(s.pools, s.live, h, r);
      SameSizes(s.pools, Carved(s.live, h), h.pool, r);
    }
  }

  lemma LivePositive(pools: seq<Pool>, live: set<Live>)
    requires Inside(pools, live)
    ensures forall l <- live :: l.count >= 1
  {
  }

  lemma SameSizes(pools: seq<Pool>, live: set<Live>, i: nat, r: Pool)
    requires Inside(pools, live) && i < |pools| && r.total == pools[i].total
    ensures Inside(pools[i := r], live)
  {
  }

  /** Giving back a live range takes that range off the live ones and leaves the
      others whole. */
  lemma FreeLive(s: State, l: Live)
    requires Inv(s) && l in s.live
    ensures Legal(s, Free(Address(s.pools, l), l.count))
    ensures Step(s, Free(Address(s.pools, l), l.count)).value.live == s.live - {l}
  {
    hide OwnerOf, Exact, Sound;
    LiveRangeDescribed(s, l);
    OwnerIsPool(s.pools, s.live, l);
    assert Named(s.pools, Address(s.pools, l), l.count) == l;
    assert forall m <- s.live :: m != l ==> Pieces(m, l) == {m};
    assert Pieces(l, l) == {};
  }

  /** Giving back pages that are all clear changes nothing. */
  lemma FreeTwice(s: State, address: nat, count: nat)
    requires Inv(s) && Legal(s, Free(address, count)) && OwnerOf(s.pools, address) < |s.pools|
    requires var h := Named(s.pools, address, count); Span(h.index, h.count) !! s.pools[h.pool].pages
    ensures Step(s, Free(address, count)) == Some(s)
  {
    hide OwnerOf, Sound;
    var h := Named(s.pools, address, count);
    forall l | l in s.live ensures Pieces(l, h) == {l} {
      // a page they would share
      var k := if l.index < h.index then h.index else l.index;
      assert Has(l, l.pool, k) == (k < l.index + l.count);
      assert (k in Span(h.index, h.count)) == (k < h.index + h.count);
    }
    assert Carved(s.live, h) == s.live by {
      forall l | l in s.live ensures l in Carved(s.live, h) { assert l in Pieces(l, h); }
    }
    assert Release(s.pools[h.pool], h.index, h.count) == s.pools[h.pool];
    assert Deallocate(s.pools, address, count) == s.pools;
  }

  datatype Outcome = Ran(state: State) | Panicked(state: State, request: nat) | Misused

  /** A whole run of calls. */
  ghost function Execute(s: State, events: seq<Event>): Outcome
    requires Inv(s)
    decreases |events|
  {
    if events == [] then Ran(s)
    else if !Legal(s, events[0]) then Misused
    else
      match Step(s, events[0])
      case None => Panicked(s, events[0].request)
      case Some(s') => StepKeepsInv(s, events[0]); Execute(s', events[1..])
  }

  lemma StepKeepsInv(s: State, e: Event)
    requires Inv(s) && Legal(s, e)
    ensures Step(s, e).Some? ==> Inv(Step(s, e).value)
  {
    match e
    case Allocate(request) => if Step(s, e).Some? { AllocateKeepsInv(s, request); }
    case Free(address, count) => FreeKeepsInv(s, address, count);
  }

  /** A pool as it leaves page_allocator_create_pools_limine. */
  ghost predicate Unused(p: Pool) {
    && p.used == 0 && p.hint == 0 && p.pages == {}
    && p.total <= p.entries * PAGE && p.total / PAGE <= p.bits
  }

  /** Safety and completeness of every run from boot: live ranges never overlap
      and never leave their pool, the busy pages are exactly the live ones, and
      the allocator panics only when no pool has the budget left, whatever was
      given back in between. */
  lemma {:induction false} EveryRun(s: State, events: seq<Event>)
    requires Inv(s)
    ensures var r := Execute(s, events);
            && (r.Ran? ==> Inv(r.state))
            && (r.Panicked? ==> Inv(r.state) && forall p <- r.state.pools :: p.Available() < Wanted(r.request) * PAGE)
    decreases |events|
  {
    if events != [] && Legal(s, events[0]) {
      StepKeepsInv(s, events[0]);
      match Step(s, events[0])
      case None =>
        var i := FirstPool(s.pools, Wanted(events[0].request));
        assert forall p <- s.pools :: p.Available() < Wanted(events[0].request) * PAGE;
      case Some(s') => EveryRun(s', events[1..]);
    }
  }

  lemma BootIsSound(pools: seq<Pool>)
    requires Separated(pools) && forall i: nat :: i < |pools| ==> Unused(pools[i])
    ensures Inv(State(pools, {}))
  {
  }

  /** Two live ranges of a run share no byte of physical memory. */
  lemma LiveRangesDisjoint(s: State, a: Live, b: Live)
    requires Inv(s) && a in s.live && b in s.live && a != b
    ensures Address(s.pools, a) + a.count * PAGE <= Address(s.pools, b)
         || Address(s.pools, b) + b.count * PAGE <= Address(s.pools, a)
  {
    assert !Overlap(a, b);
    if a.pool != b.pool {
      var p, q := s.pools[a.pool], s.pools[b.pool];
      assert p.base + p.total < q.base || q.base + q.total < p.base;
    }
  }

  /** Giving back a live range stays inside the bitmap of its pool. */
  lemma LiveRangeDescribed(s: State, l: Live)
    requires Inv(s) && l in s.live
    ensures OwnerOf(s.pools, Address(s.pools, l)) == l.pool
    ensures (Address(s.pools, l) - s.pools[l.pool].base) / PAGE + l.count <= s.pools[l.pool].bits
  {
    OwnerIsPool(s.pools, s.live, l);
    assert Sound(s.pools[l.pool]);
  }

  // ------------------------------------------------------------------ boot

  /** A region of the firmware memory map. */
  datatype Region = Region(base: nat, length: nat, usable: bool)

  /** The bytes set aside for a region's bitmap, rounded up to whole pages. */
  function BitmapBytes(length: nat): (bytes: nat)
    ensures bytes % PAGE == 0
    ensures length > 128 * 1024 ==> bytes >= PAGE && bytes < length
  {
    var bytes := length / PAGE / 8;
    if bytes % PAGE != 0 then bytes + PAGE - bytes % PAGE else bytes
  }

  predicate Eligible(r: Region) {
    r.usable && r.length > 128 * 1024
  }

  function NewPool(r: Region, hhdm: nat): Pool
    requires Eligible(r)
  {
    var bytes := BitmapBytes(r.length);
    Pool(r.base + bytes + hhdm, r.length - bytes, r.length / PAGE, 8 * bytes, 0, 0, {})
  }

  /** The page count divided by 8 is rounded down before it is rounded up to
      pages, so up to 7 pages can miss their bit: exactly when the byte count is
      already a whole number of pages and fewer bitmap pages than left-over
      pages come off the pool. */
  predicate ShortBitmap(length: nat) {
    var bytes := length / PAGE / 8;
    bytes % PAGE == 0 && length / PAGE % 8 > bytes / PAGE
  }

  lemma BitmapCoversExactly(r: Region, hhdm: nat)
    requires Eligible(r)
    ensures Unused(NewPool(r, hhdm)) <==> !ShortBitmap(r.length)
  {
    var n, q := r.length / PAGE, r.length / PAGE / 8;
    var bytes := BitmapBytes(r.length);
    assert n == 8 * q + n % 8;
    assert (r.length - bytes) / PAGE == n - bytes / PAGE;
  }

  /** A region of 128 MiB and two pages gets a bitmap one bit too short. */
  lemma ShortBitmapExists()
    ensures ShortBitmap(32770 * PAGE)
    ensures var p := NewPool(Region(0, 32770 * PAGE, true), 0);
            p.bits == 32768 && p.total / PAGE == 32769
  {
  }

  function CreatePools(regions: seq<Region>, hhdm: nat): seq<Pool> {
    if regions == [] then []
    else if Eligible(regions[0]) then [NewPool(regions[0], hhdm)] + CreatePools(regions[1..], hhdm)
    else CreatePools(regions[1..], hhdm)
  }

  /** Regions as the boot protocol lists them: sorted and not overlapping. */
  ghost predicate Sorted(regions: seq<Region>) {
    forall i: nat, j: nat :: i < j < |regions| ==> regions[i].base + regions[i].length <= regions[j].base
  }

  lemma {:induction false} PoolsFromRegions(regions: seq<Region>, hhdm: nat, low: nat)
    requires Sorted(regions)
    requires forall i: nat :: i < |regions| ==> low <= regions[i].base
    ensures forall i: nat :: i < |CreatePools(regions, hhdm)| ==> low + hhdm < CreatePools(regions, hhdm)[i].base
    ensures Separated(CreatePools(regions, hhdm))
  {
    if regions != [] {
      var first, rest := regions[0], CreatePools(regions[1..], hhdm);
      PoolsFromRegions(regions[1..], hhdm, first.base + first.length);
      if Eligible(first) {
        assert CreatePools(regions, hhdm) == [NewPool(first, hhdm)] + rest;
        forall i: nat | i < |rest| ensures NewPool(first, hhdm).base + NewPool(first, hhdm).total < rest[i].base {
        }
      }
    }
  }

  /** The allocator starts in a sound state when no region has a short bitmap. */
  lemma {:induction false} BootInv(regions: seq<Region>, hhdm: nat)
    requires Sorted(regions)
    requires forall i: nat :: i < |regions| && Eligible(regions[i]) ==> !ShortBitmap(regions[i].length)
    ensures Inv(State(CreatePools(regions, hhdm), {}))
  {
    PoolsFromRegions(regions, hhdm, 0);
    PoolsUnused(regions, hhdm);
    BootIsSound(CreatePools(regions, hhdm));
  }

  lemma {:induction false} PoolsUnused(regions: seq<Region>, hhdm: nat)
    requires forall i: nat :: i < |regions| && Eligible(regions[i]) ==> !ShortBitmap(regions[i].length)
    ensures forall i: nat :: i < |CreatePools(regions, hhdm)| ==> Unused(CreatePools(regions, hhdm)[i])
  {
    if regions != [] {
      PoolsUnused(regions[1..], hhdm);
      if Eligible(regions[0]) { BitmapCoversExactly(regions[0], hhdm); }
    }
  }
  /** The pool lies at the end of the region, behind its own bitmap: whole pages,
      just enough for one bit per eight pages rounded down. It is unused, and its
      search bound counts the pages of the whole region. */
  ghost predicate PoolOf(p: Pool, r: Region, hhdm: nat) {
    && r.usable && r.length > 0x2_0000
    && r.base + hhdm < p.base && p.base + p.total == r.base + r.length + hhdm
    && var gap := p.base - r.base - hhdm;
    && gap % PAGE == 0 && r.length / PAGE / 8 <= gap < r.length / PAGE / 8 + PAGE && p.bits == 8 * gap
    && p.entries == r.length / PAGE && p.used == 0 && p.hint == 0 && p.pages == {}
  }

  lemma NewPoolOf(r: Region, hhdm: nat)
    requires Eligible(r)
    ensures PoolOf(NewPool(r, hhdm), r, hhdm)
  {
    BytesAre(r.length);
    hide BitmapBytes;
  }

  lemma BytesAre(length: nat)
    ensures length / PAGE / 8 <= BitmapBytes(length) < length / PAGE / 8 + PAGE
  {
  }

  /** Every pool is made of usable memory, from a region above 128 KiB. */
  lemma {:induction false} PoolHasRegion(regions: seq<Region>, hhdm: nat, i: nat) returns (j: nat)
    requires i < |CreatePools(regions, hhdm)|
    ensures j < |regions| && PoolOf(CreatePools(regions, hhdm)[i], regions[j], hhdm)
  {
    hide NewPool, PoolOf;
    if Eligible(regions[0]) && i == 0 {
      NewPoolOf(regions[0], hhdm);
      j := 0;
    } else {
      j := PoolHasRegion(regions[1..], hhdm, if Eligible(regions[0]) then i - 1 else i);
      j := j + 1;
    }
  }

  /** And every such region has a pool of its own. */
  lemma {:induction false} RegionHasPool(regions: seq<Region>, hhdm: nat, j: nat) returns (i: nat)
    requires j < |regions| && regions[j].usable && regions[j].length > 0x2_0000
    ensures i < |CreatePools(regions, hhdm)| && PoolOf(CreatePools(regions, hhdm)[i], regions[j], hhdm)
  {
    hide NewPool, PoolOf;
    if j == 0 {
      NewPoolOf(regions[0], hhdm);
      i := 0;
    } else {
      i := RegionHasPool(regions[1..], hhdm, j - 1);
      i := if Eligible(regions[0]) then i + 1 else i;
    }
  }

  function LargeRegions(regions: seq<Region>): nat {
    if regions == [] then 0
    else (if regions[0].usable && regions[0].length > 0x2_0000 then 1 else 0) + LargeRegions(regions[1..])
  }

  lemma {:induction false} OnePoolEach(regions: seq<Region>, hhdm: nat)
    ensures |CreatePools(regions, hhdm)| == LargeRegions(regions)
  {
    if regions != [] { OnePoolEach(regions[1..], hhdm); }
  }
}
