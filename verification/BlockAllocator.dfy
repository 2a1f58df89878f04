/** The block (heap) allocator: first fit over the free list, splitting, and
    growth by whole pages. */
module BlockAllocator {
  import opened Arithmetic
  import opened Sequences
  import opened BlockLists
  import opened BlockArena
  import opened Options

  const WORD := 0x1_0000_0000_0000_0000  // 2^64
  const MAX_REQUEST := WORD - 4144

  // ------------------------------------------------------- request arithmetic

  /** The request after clamping and rounding up to 16, without wrap-around. */
  function Rounded(size: nat): (n: nat)
    ensures n >= size && n >= MINIMUM && n % 16 == 0 && n < size + 32
    ensures size > MINIMUM ==> n < size + 16
    ensures size <= MINIMUM ==> n == MINIMUM
  {
    var clamped := if size < MINIMUM then MINIMUM else size;
    if clamped % 16 != 0 then clamped + (16 - clamped % 16) else clamped
  }

  function PagesFor(n: nat): nat {
    (n + HEADER + PAGE - 1) / PAGE
  }

  /** The least number of pages that holds a header and `n` bytes. */
  lemma PagesForLeast(n: nat)
    ensures PagesFor(n) * PAGE >= n + HEADER && (PagesFor(n) - 1) * PAGE < n + HEADER
  {
    Division(n + HEADER + PAGE - 1, PAGE);
  }

  /** The same two computations in 64-bit arithmetic. */
  function Rounded64(size: nat): nat {
    var clamped := if size < MINIMUM then MINIMUM else size;
    if clamped % 16 != 0 then (clamped + (16 - clamped % 16)) % WORD else clamped
  }

  function PagesFor64(n: nat): nat {
    ((n + HEADER) % WORD + PAGE - 1) % WORD / PAGE
  }

  /** A request is served with enough memory exactly up to MAX_REQUEST; above it
      the rounding or the page count wraps around. */
  lemma RequestArithmetic(size: nat)
    requires size < WORD
    ensures (Rounded64(size) >= size && PagesFor64(Rounded64(size)) * PAGE >= Rounded64(size) + HEADER) <==> size <= MAX_REQUEST
    ensures size <= MAX_REQUEST ==> Rounded64(size) == Rounded(size) && PagesFor64(Rounded(size)) == PagesFor(Rounded(size))
  {
    hide Rounded, Rounded64, PagesFor, PagesFor64;
    Rounding(size);
    PageCount(Rounded64(size));
  }

  /** Rounding up wraps to 0 for the last 15 sizes only. */
  lemma Rounding(size: nat)
    requires size < WORD
    ensures Rounded64(size) == if size <= WORD - 16 then Rounded(size) else 0
    ensures size <= MAX_REQUEST <==> size <= WORD - 16 && Rounded(size) <= MAX_REQUEST
    ensures size <= WORD - 16 ==> Rounded(size) <= WORD - 16
  {
  }

  /** The page count wraps for the last 4128 rounded sizes. */
  lemma PageCount(n: nat)
    requires n < WORD && n % 16 == 0
    ensures n <= MAX_REQUEST ==> PagesFor64(n) == PagesFor(n) && PagesFor(n) * PAGE >= n + HEADER
    ensures n > MAX_REQUEST ==> PagesFor64(n) * PAGE < n + HEADER
  {
    if n <= MAX_REQUEST {
      assert (n + HEADER) % WORD == n + HEADER;
      assert (n + HEADER + PAGE - 1) % WORD == n + HEADER + PAGE - 1;
      Division(n + HEADER + PAGE - 1, PAGE);
    } else {
      FewPages((n + HEADER) % WORD);
    }
  }

  lemma FewPages(need: nat)
    requires need < WORD && (need < 48 || need >= WORD - 4080)
    ensures (need + PAGE - 1) % WORD / PAGE <= 1
  {
    if need < 48 {
      assert (need + PAGE - 1) % WORD == need + PAGE - 1;
    } else {
      assert (need + PAGE - 1) % WORD == need + PAGE - 1 - WORD;
    }
  }

  /** The largest request rounds to 0 bytes. */
  lemma LargestRequestWraps()
    ensures Rounded64(WORD - 1) == 0
  {
  }

  // ----------------------------------------------------------------- memory

  /** The bytes of the arena; `IN_HEADER` marks one that belongs to a header. */
  type Bytes = map<nat, int>

  const IN_HEADER := -1

  ghost predicate InHeader(blocks: set<nat>, x: nat) {
    exists a <- blocks :: a <= x < a + HEADER
  }

  /** Between two states of memory only bytes of headers at `blocks` changed. */
  ghost predicate OnlyHeaders(m0: Bytes, m1: Bytes, blocks: set<nat>) {
    && m0.Keys <= m1.Keys
    && (forall x <- m0 :: m1[x] == m0[x] || InHeader(blocks, x))
  }

  lemma OnlyHeadersTransitive(m0: Bytes, m1: Bytes, m2: Bytes, small: set<nat>, blocks: set<nat>)
    requires OnlyHeaders(m0, m1, small) && OnlyHeaders(m1, m2, blocks) && small <= blocks
    ensures OnlyHeaders(m0, m2, blocks)
  {
    forall x | x in m0 && InHeader(small, x) ensures InHeader(blocks, x) {
      var a :| a in small && a <= x < a + HEADER;
      assert a in blocks;
    }
  }

  ghost predicate Fills(addresses: set<nat>, base: nat, end: nat) {
    forall x: nat :: x in addresses <==> base <= x < end
  }

  function Clobbered(m: Bytes, a: nat): (r: Bytes)
    ensures r.Keys == m.Keys
    ensures forall x <- m :: a <= x < a + HEADER || r[x] == m[x]
  {
    map x | x in m :: if a <= x < a + HEADER then IN_HEADER else m[x]
  }

  lemma ClobberedOnly(m: Bytes, a: nat, blocks: set<nat>)
    requires a in blocks
    ensures OnlyHeaders(m, Clobbered(m, a), blocks)
  {
  }

  /** Fresh pages are zeroed. */
  function Zeroes(start: nat, n: nat): (m: Bytes)
    ensures forall x: nat :: x in m <==> start <= x < start + n
    ensures forall x <- m :: m[x] == 0
  {
    if n == 0 then map[] else Zeroes(start, n - 1)[start + n - 1 := 0]
  }

  lemma FillsMore(m: Bytes, base: nat, end: nat, pages: nat)
    requires Fills(m.Keys, base, end) && base <= end
    ensures Fills((m + Zeroes(end, pages * PAGE)).Keys, base, end + pages * PAGE)
  {
  }

  lemma OnlyHeadersMore(m0: Bytes, m1: Bytes, small: set<nat>, base: nat, end: nat, pages: nat, blocks: set<nat>)
    requires OnlyHeaders(m0, m1, small) && small <= blocks && Fills(m1.Keys, base, end)
    ensures OnlyHeaders(m0, m1 + Zeroes(end, pages * PAGE), blocks)
  {
    forall x | x in m0 && InHeader(small, x) ensures InHeader(blocks, x) {
      var a :| a in small && a <= x < a + HEADER;
      assert a in blocks;
    }
  }

  // ------------------------------------------------------------- the allocator

  class Blocks {
    const base: nat
    var headers: Headers
    var freeStart: nat
    var busyStart: nat
    var current: nat
    var bytes: Bytes
    ghost var free: seq<nat>
    ghost var busy: seq<nat>
    ghost var tiles: seq<nat>

    ghost function Value(): Arena
      reads this
    {
      Arena(headers, freeStart, busyStart, base, current, free, busy, tiles)
    }

    ghost predicate Mapped()
      reads this
    {
      Fills(bytes.Keys, base, current)
    }

    ghost predicate Valid()
      reads this
    {
      Inv(Value()) && Mapped()
    }

    constructor (virtualBase: nat)
      requires 0 < virtualBase && virtualBase % PAGE == 0
      ensures Valid() && Value() == Empty(virtualBase)
    {
      base := virtualBase;
      headers, freeStart, busyStart, current, bytes := map[], 0, 0, virtualBase, map[];
      free, busy, tiles := [], [], [];
      new;
      EmptyInv(virtualBase);
    }

    /** Any write to the header of block `a`; since `m0`, memory changed in the
        headers of `blocks` only. */
    method WriteHeader(a: nat, header: Header, ghost m0: Bytes, ghost blocks: set<nat>)
      requires OnlyHeaders(m0, bytes, blocks) && a in blocks
      modifies this`headers, this`bytes
      ensures headers == old(headers)[a := header] && bytes.Keys == old(bytes).Keys
      ensures OnlyHeaders(m0, bytes, blocks)
    {
      hide OnlyHeaders;
      headers := headers[a := header];
      ClobberedOnly(bytes, a, blocks);
      OnlyHeadersTransitive(m0, bytes, Clobbered(bytes, a), blocks, blocks);
      bytes := Clobbered(bytes, a);
    }

    method SetNext(a: nat, v: nat, ghost m0: Bytes, ghost blocks: set<nat>)
      requires OnlyHeaders(m0, bytes, blocks) && (a != 0 ==> a in headers && a in blocks)
      modifies this`headers, this`bytes
      ensures headers == WithNext(old(headers), a, v) && bytes.Keys == old(bytes).Keys
      ensures OnlyHeaders(m0, bytes, blocks)
    {
      if a != 0 {
        WriteHeader(a, headers[a].(next := v), m0, blocks);
      }
    }

    method SetPrevious(a: nat, v: nat, ghost m0: Bytes, ghost blocks: set<nat>)
      requires OnlyHeaders(m0, bytes, blocks) && (a != 0 ==> a in headers && a in blocks)
      modifies this`headers, this`bytes
      ensures headers == WithPrevious(old(headers), a, v) && bytes.Keys == old(bytes).Keys
      ensures OnlyHeaders(m0, bytes, blocks)
    {
      if a != 0 {
        WriteHeader(a, headers[a].(previous := v), m0, blocks);
      }
    }

    /** The header writes that take a block out of its list. */
    method UnlinkHeader(block: nat, ghost m0: Bytes, ghost blocks: set<nat>)
      requires OnlyHeaders(m0, bytes, blocks) && headers.Keys <= blocks && block in headers
      requires headers[block].previous != 0 ==> headers[block].previous in headers
      requires headers[block].next != 0 ==> headers[block].next in headers
      modifies this`headers, this`bytes
      ensures headers == Removed(old(headers), block) && bytes.Keys == old(bytes).Keys
      ensures OnlyHeaders(m0, bytes, blocks)
    {
      hide OnlyHeaders, Removed, WithNext, WithPrevious;
      RemovedSteps(headers, block);
      var previous, next := headers[block].previous, headers[block].next;
      SetNext(previous, next, m0, blocks);
      SetPrevious(next, previous, m0, blocks);
      WriteHeader(block, headers[block].(next := 0, previous := 0), m0, blocks);
    }

    /** The header writes of a split, in the order the code makes them. */
    method CutHeader(block: nat, size: nat, newBlock: nat, ghost m0: Bytes, ghost blocks: set<nat>)
      requires OnlyHeaders(m0, bytes, blocks) && headers.Keys <= blocks && newBlock in blocks
      requires block in headers && newBlock !in headers && headers[block].size >= size + HEADER
      requires headers[block].next != 0 ==> headers[block].next in headers
      modifies this`headers, this`bytes
      ensures headers == Cut(old(headers), block, size, newBlock, old(headers)[block].size - size - HEADER)
      ensures OnlyHeaders(m0, bytes, blocks) && bytes.Keys == old(bytes).Keys
    {
      hide OnlyHeaders, Cut, WithNext, WithPrevious;
      CutSteps(headers, block, size, newBlock);
      var rest := headers[block].size - size - HEADER;
      WriteHeader(block, headers[block].(size := size), m0, blocks);
      WriteHeader(newBlock, Header(rest, headers[block].next, block), m0, blocks);
      SetPrevious(headers[newBlock].next, newBlock, m0, blocks);
      SetNext(block, newBlock, m0, blocks);
    }

    /** block_allocator_remove_block_from_list */
    method RemoveBlock(block: nat, ghost fromFree: bool, ghost k: nat, ghost m0: Bytes, ghost blocks: set<nat>)
      requires Valid() && k < |if fromFree then free else busy| && block == (if fromFree then free else busy)[k]
      requires OnlyHeaders(m0, bytes, blocks) && headers.Keys <= blocks
      modifies this
      ensures Value() == Unlinked(old(Value()), fromFree, k) && Mapped()
      ensures OnlyHeaders(m0, bytes, blocks) && bytes.Keys == old(bytes).Keys
    {
      hide Fills, OnlyHeaders, Inv, Unlinked, Removed, Without;
      UnlinkedParts(Value(), fromFree, k);
      var next := headers[block].next;
      UnlinkHeader(block, m0, blocks);
      freeStart := if block == freeStart then next else freeStart;
      busyStart := if block == busyStart then next else busyStart;
      free := if fromFree then Without(free, k) else free;
      busy := if fromFree then busy else Without(busy, k);
    }

    /** block_allocator_push_block on the free or the busy list. */
    method PushBlock(toFree: bool, block: nat, ghost m0: Bytes, ghost blocks: set<nat>)
      requires Loose(Value(), block) && Mapped()
      requires OnlyHeaders(m0, bytes, blocks) && headers.Keys <= blocks
      modifies this
      ensures block in old(headers) && block != old(freeStart) && block != old(busyStart)
      ensures (old(freeStart) != 0 ==> old(freeStart) in old(headers)) && (old(busyStart) != 0 ==> old(busyStart) in old(headers))
      ensures Valid() && Value() == Relinked(old(Value()), block, toFree)
      ensures OnlyHeaders(m0, bytes, blocks) && bytes.Keys == old(bytes).Keys
    {
      hide Fills, OnlyHeaders, Inv, Loose;
      RelinkedKeeps(Value(), block, toFree);
      var start := if toFree then freeStart else busyStart;
      WriteHeader(block, headers[block].(next := start, previous := 0), m0, blocks);
      SetPrevious(start, block, m0, blocks);
      if toFree {
        freeStart := block;
        free := [block] + free;
      } else {
        busyStart := block;
        busy := [block] + busy;
      }
    }

    /** block_allocator_create_free_block: `pages` zeroed pages from the page
        allocator, mapped at the end of the arena, become one free block. */
    method CreateFreeBlock(pages: nat, ghost m0: Bytes) returns (block: nat)
      requires Valid() && pages >= 1 && OnlyHeaders(m0, bytes, headers.Keys)
      modifies this
      ensures Valid() && block == old(current)
      ensures GrownFree(old(Value()), Value(), pages)
      ensures OnlyHeaders(m0, bytes, headers.Keys) && bytes.Keys >= old(bytes).Keys
    {
      hide Fills, OnlyHeaders, Inv, Loose, Relinked, GrownFree;
      ghost var a := Value();
      EndIsNew(a);
      FillsMore(bytes, base, current, pages);
      GrownKeeps(a, pages);
      block := (current + PAGE - 1) / PAGE * PAGE;
      PageAligned(a);
      ghost var blocks := headers.Keys + {block};
      OnlyHeadersMore(m0, bytes, headers.Keys, base, current, pages, blocks);
      current := block + pages * PAGE;
      bytes := bytes + Zeroes(block, pages * PAGE);
      WriteHeader(block, Header(pages * PAGE - HEADER, 0, 0), m0, blocks);
      tiles := tiles + [block];
      assert Value() == Grown(a, pages);
      PushBlock(true, block, m0, blocks);
      PushedKeys(a, pages, Value());
    }

    /** Cut a free block down to `size` bytes when what is left can hold a block
        of more than the minimum size. */
    method TrimBlock(block: nat, size: nat, ghost k: nat, ghost m0: Bytes)
      requires Valid() && OnlyHeaders(m0, bytes, headers.Keys)
      requires k < |free| && block == free[k] && block in headers
      requires size % 16 == 0 && size >= MINIMUM && size <= headers[block].size
      modifies this
      ensures Valid() && Trimmed(old(Value()), Value(), k, size)
      ensures OnlyHeaders(m0, bytes, headers.Keys) && bytes.Keys == old(bytes).Keys
    {
      hide Fills, OnlyHeaders, Inv;
      ghost var a := Value();
      if headers[block].size > size + HEADER + MINIMUM {
        ghost var t := TileOf(a, block);
        SplitKeeps(a, k, t, size);
        SplitTrims(a, k, t, size);
        hide Cut, Trimmed;
        var newBlock := block + HEADER + size;
        ghost var blocks := headers.Keys + {newBlock};
        MoreBlocks(m0, bytes, headers.Keys, blocks);
        CutHeader(block, size, newBlock, m0, blocks);
        free := With(free, k + 1, newBlock);
        tiles := With(tiles, t + 1, newBlock);
        assert Value() == Split(a, k, size, t);
      }
    }

    /** block_allocator_move_to_free_list and block_allocator_move_to_busy_list */
    method MoveBlock(toFree: bool, block: nat, ghost fromFree: bool, ghost k: nat, ghost m0: Bytes)
      requires Valid() && OnlyHeaders(m0, bytes, headers.Keys)
      requires k < |if fromFree then free else busy| && block == (if fromFree then free else busy)[k]
      modifies this
      ensures Valid() && Moved(old(Value()), Value(), fromFree, k, toFree)
      ensures OnlyHeaders(m0, bytes, headers.Keys) && bytes.Keys == old(bytes).Keys
    {
      hide Fills, OnlyHeaders, Inv, Loose, Unlinked, Relinked, Moved;
      ghost var a, blocks := Value(), headers.Keys;
      UnlinkedKeeps(a, fromFree, k);
      MovedBy(a, fromFree, k, toFree);
      RemoveBlock(block, fromFree, k, m0, blocks);
      PushBlock(toFree, block, m0, blocks);
    }

    /** The first block of the free list with room for `size` bytes; 0 if none. */
    method FindFit(size: nat) returns (block: nat, ghost k: nat)
      requires Valid()
      ensures k <= |free| && (block == 0 <==> k == |free|)
      ensures forall i: nat :: i < k ==> free[i] in headers && headers[free[i]].size < size
      ensures k < |free| ==> block == free[k] && block in headers && headers[block].size >= size
    {
      hide Fills, Tiled, Partition;
      block, k := freeStart, 0;
      if free != [] { NeighboursKnown(headers, freeStart, free, 0); }
      while block != 0 && headers[block].size < size
        invariant k <= |free| && block == At(free, k)
        invariant k < |free| ==> free[k] in headers && free[k] != 0
        invariant forall i: nat :: i < k ==> free[i] in headers && headers[free[i]].size < size
        decreases |free| - k
      {
        NeighboursKnown(headers, freeStart, free, k);
        if k + 1 < |free| { NeighboursKnown(headers, freeStart, free, k + 1); }
        block := headers[block].next;
        k := k + 1;
      }
    }

    /** memset(contents, 0, size) */
    method Zero(start: nat, size: nat)
      requires forall x: nat :: start <= x < start + size ==> x in bytes
      modifies this`bytes
      ensures bytes.Keys == old(bytes).Keys
      ensures forall x <- bytes :: bytes[x] == if start <= x < start + size then 0 else old(bytes)[x]
    {
      var i: nat := 0;
      while i < size
        invariant i <= size && bytes.Keys == old(bytes).Keys
        invariant forall x <- bytes :: bytes[x] == if start <= x < start + i then 0 else old(bytes)[x]
      {
        bytes := bytes[start + i := 0];
        i := i + 1;
      }
    }

    /** block_allocate. `granted` tells whether the page allocator could provide
        the pages when the arena has to grow; `None` stands for its panic. */
    method Allocate(size: nat, granted: bool) returns (contents: Option<nat>)
      requires Valid() && size <= MAX_REQUEST
      modifies this
      ensures Valid()
      ensures contents == None <==> NoneFits(old(Value()), Rounded(size)) && !granted
      ensures contents == None ==> Value() == old(Value()) && bytes == old(bytes)
      ensures contents != None ==> Served(old(Value()), old(bytes), Value(), bytes, size, contents.value)
    {
      hide Inv, Fills, OnlyHeaders, Trimmed, GrownFree, Moved, Served, NoneFits, FirstFits;
      ghost var a, m0 := Value(), bytes;
      var n := Rounded(size);
      var block, k := FindFit(n);
      OnlyHeadersNone(m0, headers.Keys);
      FitKnown(a, n, k);
      if block == 0 {
        if !granted { return None; }
        block := CreateFreeBlock(PagesFor(n), m0);
        k := 0;
        GrownFits(a, Value(), n);
      }
      ghost var a1 := Value();
      TrimBlock(block, n, k, m0);
      ghost var a2 := Value();
      TrimmedBlock(a1, a2, k, n);
      MoveBlock(false, block, true, k, m0);
      ghost var m1 := bytes;
      BlockServed(a, a1, a2, Value(), m0, m1, n, k);
      PayloadMapped(Value(), m1, block, n);
      Zero(block + HEADER, n);
      ZeroServed(a, Value(), m0, m1, bytes, size, block);
      contents := Some(block + HEADER);
    }

    /** memcpy of a string into a payload. */
    method CopyIn(start: nat, text: string)
      requires forall x: nat :: start <= x < start + |text| ==> x in bytes
      modifies this`bytes
      ensures bytes.Keys == old(bytes).Keys
      ensures forall x <- bytes :: bytes[x] == if start <= x < start + |text| then text[x - start] as int else old(bytes)[x]
    {
      var i: nat := 0;
      while i < |text|
        invariant i <= |text| && bytes.Keys == old(bytes).Keys
        invariant forall x <- bytes :: bytes[x] == if start <= x < start + i then text[x - start] as int else old(bytes)[x]
      {
        bytes := bytes[start + i := text[i] as int];
        i := i + 1;
      }
    }

    /** block_deallocate. An address that no header precedes fails the signature
        test; freeing a block twice moves it to the front of the free list. */
    method Deallocate(contents: nat)
      requires Valid()
      modifies this
      ensures Valid()
      ensures if contents >= HEADER && contents - HEADER in old(headers)
              then Freed(old(Value()), old(bytes), Value(), bytes, contents - HEADER)
              else Value() == old(Value()) && bytes == old(bytes)
    {
      hide Inv, Fills, OnlyHeaders, Moved, Freed;
      if contents == 0 || contents < HEADER || contents - HEADER !in headers { return; }
      var header := contents - HEADER;
      ghost var a, m0 := Value(), bytes;
      ghost var fromFree, k := OnList(a, header);
      OnlyHeadersNone(m0, headers.Keys);
      if base < contents < current {
        MoveBlock(true, header, fromFree, k, m0);
        MovedFreed(a, m0, Value(), bytes, fromFree, k);
      }
    }
  }

  /** Block `b` went from the list it was on to the front of the free list; the
      payloads that are still busy keep their bytes. */
  ghost predicate Freed(a: Arena, m0: Bytes, a': Arena, m1: Bytes, b: nat) {
    && b !in a'.busy
    && (b in a.busy ==> a'.free == [b] + a.free && exists k: nat :: k < |a.busy| && a.busy[k] == b && a'.busy == Without(a.busy, k))
    && (b in a.free ==> a'.busy == a.busy && exists k: nat :: k < |a.free| && a.free[k] == b && a'.free == [b] + Without(a.free, k))
    && a'.tiles == a.tiles && a'.h.Keys == a.h.Keys && (forall x <- a.h :: a'.h[x].size == a.h[x].size)
    && (forall c <- a'.busy, x: nat {:trigger InPayload(a.h, c, x)} :: InPayload(a.h, c, x) ==> x in m0 && x in m1 && m1[x] == m0[x])
  }

  lemma OnList(a: Arena, b: nat) returns (fromFree: bool, k: nat)
    requires Inv(a) && b in a.h
    ensures k < |if fromFree then a.free else a.busy| && (if fromFree then a.free else a.busy)[k] == b
    ensures a.base < b + HEADER < a.end
  {
    var t := TileOf(a, b);
    TileBounds(a.h, a.base, a.end, a.tiles, t);
    fromFree := b in a.free;
    k := MemberIndex(if fromFree then a.free else a.busy, b);
  }

  lemma OnOneList(a: Arena, b: nat)
    requires Inv(a)
    ensures b in a.free ==> b !in a.busy && b in a.h
    ensures b in a.busy ==> b !in a.free && b in a.h
  {
    hide List, Tiled;
    if b in a.free || b in a.busy { assert b in a.tiles; }
  }

  lemma FreedPayload(a: Arena, m0: Bytes, a': Arena, m1: Bytes, c: nat, x: nat)
    requires Inv(a) && Inv(a') && a'.h.Keys == a.h.Keys && (forall y <- a.h :: a'.h[y].size == a.h[y].size)
    requires OnlyHeaders(m0, m1, a'.h.Keys) && Fills(m0.Keys, a.base, a.end)
    requires c in a'.busy && InPayload(a.h, c, x)
    ensures x in m0 && x in m1 && m1[x] == m0[x]
  {
    hide List, Tiled, Partition, OnlyHeaders;
    var t := TileOf(a, c);
    PayloadKept(a', m0, m1, c, x);
  }

  lemma MovedFreed(a: Arena, m0: Bytes, a': Arena, m1: Bytes, fromFree: bool, k: nat)
    requires Inv(a) && Inv(a') && Moved(a, a', fromFree, k, true)
    requires OnlyHeaders(m0, m1, a'.h.Keys) && Fills(m0.Keys, a.base, a.end)
    ensures Freed(a, m0, a', m1, (if fromFree then a.free else a.busy)[k])
  {
    hide Inv, OnlyHeaders, Fills, InPayload;
    var b := (if fromFree then a.free else a.busy)[k];
    assert b in a'.free;
    OnOneList(a, b);
    OnOneList(a', b);
    forall c, x: nat | c in a'.busy && InPayload(a.h, c, x) ensures x in m0 && x in m1 && m1[x] == m0[x] {
      FreedPayload(a, m0, a', m1, c, x);
    }
  }

  ghost predicate NoneFits(a: Arena, n: nat) {
    forall i: nat :: i < |a.free| ==> a.free[i] in a.h && a.h[a.free[i]].size < n
  }

  /** What a served request gets: a 16-byte aligned, zeroed payload of at least
      the requested size and at most one header and one minimal block more, from
      the first free block that fits; the arena grows only when none does, the
      other free blocks stay free and the other busy payloads keep their bytes. */
  ghost predicate Served(a: Arena, m0: Bytes, a': Arena, m1: Bytes, size: nat, contents: nat) {
    && contents >= HEADER && contents % 16 == 0
    && var b := contents - HEADER;
    && b in a'.h && size <= Rounded(size) <= a'.h[b].size <= Rounded(size) + HEADER + MINIMUM
    && a'.busy == [b] + a.busy
    && (forall x: nat :: contents <= x < contents + Rounded(size) ==> x in m1 && m1[x] == 0)
    && (forall c <- a.free :: c != b ==> c in a'.free && c in a.h && c in a'.h && a'.h[c].size == a.h[c].size)
    && (if NoneFits(a, Rounded(size)) then b == a.end && a'.end == a.end + PagesFor(Rounded(size)) * PAGE
        else a'.end == a.end && FirstFits(a, Rounded(size), b))
    && (forall c <- a.busy :: c != b && c in a.h && c in a'.h && a'.h[c].size == a.h[c].size)
    && (forall c <- a.busy, x: nat {:trigger InPayload(a.h, c, x)} :: InPayload(a.h, c, x) ==> x in m0 && x in m1 && m1[x] == m0[x])
  }

  ghost predicate FirstFits(a: Arena, n: nat, b: nat) {
    exists k: nat ::
      && k < |a.free| && a.free[k] == b && b in a.h && a.h[b].size >= n
      && forall i: nat :: i < k ==> a.free[i] in a.h && a.h[a.free[i]].size < n
  }

  lemma FitKnown(a: Arena, n: nat, k: nat)
    requires Inv(a) && k <= |a.free|
    requires forall i: nat :: i < k ==> a.free[i] in a.h && a.h[a.free[i]].size < n
    requires k < |a.free| ==> a.free[k] in a.h && a.h[a.free[k]].size >= n
    ensures NoneFits(a, n) <==> k == |a.free|
    ensures k < |a.free| ==> FirstFits(a, n, a.free[k])
  {
  }

  lemma GrownFits(a: Arena, a1: Arena, n: nat)
    requires GrownFree(a, a1, PagesFor(n))
    ensures |a1.free| > 0 && a1.free[0] == a.end && a.end in a1.h && a1.h[a.end].size >= n
  {
  }

  lemma TrimmedBlock(a1: Arena, a2: Arena, k: nat, n: nat)
    requires Trimmed(a1, a2, k, n)
    ensures k < |a1.free| && k < |a2.free| && a2.free[k] == a1.free[k]
    ensures a1.free[k] in a2.h && n <= a2.h[a1.free[k]].size <= n + HEADER + MINIMUM
  {
  }

  /** The memory of a payload that no header write can reach. */
  lemma PayloadKept(a: Arena, m0: Bytes, m1: Bytes, c: nat, x: nat)
    requires Inv(a) && OnlyHeaders(m0, m1, a.h.Keys) && c in a.h && InPayload(a.h, c, x) && x in m0
    ensures x in m1 && m1[x] == m0[x]
  {
    forall b | b in a.h ensures !(b <= x < b + HEADER) {
      PayloadsApart(a, b, c, x);
    }
  }

  /** The state between the list moves and the final memset. */
  ghost predicate Ready(a: Arena, m0: Bytes, a': Arena, m1: Bytes, n: nat, b: nat) {
    && b in a'.h && b !in a.busy && n <= a'.h[b].size <= n + HEADER + MINIMUM && a'.busy == [b] + a.busy
    && (forall c <- a.free :: c != b ==> c in a'.free && c in a.h && c in a'.h && a'.h[c].size == a.h[c].size)
    && (if NoneFits(a, n) then b == a.end && a'.end == a.end + PagesFor(n) * PAGE
        else a'.end == a.end && FirstFits(a, n, b))
    && (forall c <- a.busy :: c in a.h && c in a'.h && a'.h[c].size == a.h[c].size)
    && OnlyHeaders(m0, m1, a'.h.Keys)
    && Fills(m0.Keys, a.base, a.end)
  }

  lemma BusyKnown(a: Arena, b: nat)
    requires Inv(a)
    ensures forall c <- a.busy :: c in a.h
    ensures forall c <- a.busy :: c !in a.free
    ensures a.end !in a.h && b in a.free ==> b !in a.busy
  {
    forall c | c in a.busy ensures c in a.h && c !in a.free { assert c in a.tiles; }
  }

  lemma BlockServed(a: Arena, a1: Arena, a2: Arena, a3: Arena, m0: Bytes, m1: Bytes, n: nat, k: nat)
    requires Inv(a) && Fills(m0.Keys, a.base, a.end) && OnlyHeaders(m0, m1, a3.h.Keys)
    requires k < |a1.free|
    requires if NoneFits(a, n) then k == 0 && GrownFree(a, a1, PagesFor(n)) else a1 == a && FirstFits(a, n, a.free[k])
    requires Inv(a1) && Inv(a2) && Trimmed(a1, a2, k, n) && Moved(a2, a3, true, k, false)
    ensures Ready(a, m0, a3, m1, n, a1.free[k])
  {
    hide OnlyHeaders, Fills, FirstFits, NoneFits, Inv, Trimmed, Moved;
    TrimmedBlock(a1, a2, k, n);
    FreeKept(a1, a2, a3, k, n);
    BusyKept(a1, a2, a3, k, n);
    BusyKnown(a, a1.free[k]);
    EndIsNew(a);
  }

  /** The other free blocks stay free, with their sizes. */
  lemma FreeKept(a1: Arena, a2: Arena, a3: Arena, k: nat, n: nat)
    requires Inv(a1) && Inv(a2) && Trimmed(a1, a2, k, n) && Moved(a2, a3, true, k, false)
    ensures k < |a1.free|
    ensures forall c <- a1.free :: c != a1.free[k] ==> c in a3.free && c in a1.h && c in a3.h && a3.h[c].size == a1.h[c].size
  {
    TrimmedBlock(a1, a2, k, n);
    FreeDistinct(a2);
    WithoutMembers(a2.free, k);
    WithMembers(a1.free, k + 1, a1.free[k] + HEADER + n);
    forall c | c in a1.free ensures c in a1.h { OnOneList(a1, c); }
    hide Inv, With, Without;
  }

  lemma FreeDistinct(a: Arena)
    requires Inv(a)
    ensures Distinct(a.free)
  {
  }

  /** The block itself goes to the busy list; the busy blocks keep their sizes. */
  lemma BusyKept(a1: Arena, a2: Arena, a3: Arena, k: nat, n: nat)
    requires Inv(a1) && Trimmed(a1, a2, k, n) && Moved(a2, a3, true, k, false)
    ensures k < |a1.free| && a3.busy == [a1.free[k]] + a1.busy && a3.end == a1.end
    ensures a1.free[k] in a3.h && a3.h[a1.free[k]].size == a2.h[a1.free[k]].size
    ensures forall c <- a1.busy :: c in a1.h && c in a3.h && a3.h[c].size == a1.h[c].size
  {
    TrimmedBlock(a1, a2, k, n);
    forall c | c in a1.busy ensures c in a1.h && c != a1.free[k] { OnOneList(a1, c); }
    hide Inv, With, Without;
  }

  lemma PayloadMapped(a: Arena, m: Bytes, b: nat, n: nat)
    requires Inv(a) && Fills(m.Keys, a.base, a.end) && b in a.h && n <= a.h[b].size
    ensures forall x: nat :: b + HEADER <= x < b + HEADER + n ==> x in m
  {
    var t := TileOf(a, b);
  }

  lemma BusyPayloadsKept(a: Arena, a': Arena, m0: Bytes, m1: Bytes, m2: Bytes, n: nat, b: nat, c: nat, x: nat)
    requires Inv(a) && Inv(a') && Ready(a, m0, a', m1, n, b)
    requires m2.Keys == m1.Keys
    requires forall x <- m1 :: m2[x] == if b + HEADER <= x < b + HEADER + n then 0 else m1[x]
    requires c in a.busy && InPayload(a.h, c, x)
    ensures x in m0 && x in m2 && m2[x] == m0[x]
  {
    hide NoneFits, FirstFits, List, Tiled, Partition;
    var u := TileOf(a, c);
    PayloadKept(a', m0, m1, c, x);
    PayloadsApart(a', b, c, x);
  }

  lemma WholePages(x: nat)
    requires x % PAGE == 0
    ensures x % 16 == 0
  {
    Division(x, PAGE);
    AddMultiple(256 * (x / PAGE), 0, 16);
  }

  lemma BlockAligned(a: Arena, b: nat)
    requires Inv(a) && b in a.h
    ensures b % 16 == 0
  {
    hide List, Tiled, Partition;
    var t := TileOf(a, b);
    WholePages(a.base);
    TileAligned(a.h, a.base, a.end, a.tiles, t);
  }

  lemma ZeroServed(a: Arena, a': Arena, m0: Bytes, m1: Bytes, m2: Bytes, size: nat, b: nat)
    requires Inv(a) && Inv(a') && Ready(a, m0, a', m1, Rounded(size), b)
    requires m2.Keys == m1.Keys && Fills(m1.Keys, a'.base, a'.end)
    requires forall x <- m1 :: m2[x] == if b + HEADER <= x < b + HEADER + Rounded(size) then 0 else m1[x]
    ensures Served(a, m0, a', m2, size, b + HEADER)
  {
    hide Inv, NoneFits, FirstFits, OnlyHeaders, Fills, Rounded;
    BlockAligned(a', b);
    PayloadMapped(a', m1, b, Rounded(size));
    forall c, x: nat | c in a.busy && InPayload(a.h, c, x) ensures x in m0 && x in m2 && m2[x] == m0[x] {
      BusyPayloadsKept(a, a', m0, m1, m2, Rounded(size), b, c, x);
    }
  }

  /** One block moved to the front of a list; nothing else changed. */
  ghost predicate Moved(a: Arena, a': Arena, fromFree: bool, k: nat, toFree: bool) {
    && a'.base == a.base && a'.end == a.end && a'.tiles == a.tiles
    && k < |if fromFree then a.free else a.busy|
    && var b := (if fromFree then a.free else a.busy)[k];
    && var free := if fromFree then Without(a.free, k) else a.free;
    && var busy := if fromFree then a.busy else Without(a.busy, k);
    && a'.free == (if toFree then [b] + free else free)
    && a'.busy == (if toFree then busy else [b] + busy)
    && a'.h.Keys == a.h.Keys && (forall x <- a.h :: a'.h[x].size == a.h[x].size)
  }

  lemma MovedBy(a: Arena, fromFree: bool, k: nat, toFree: bool)
    requires Inv(a) && k < |if fromFree then a.free else a.busy|
    requires Loose(Unlinked(a, fromFree, k), (if fromFree then a.free else a.busy)[k])
    ensures var b := (if fromFree then a.free else a.busy)[k];
            var u := Unlinked(a, fromFree, k);
            && u.h.Keys == a.h.Keys
            && b in u.h && b != u.freeStart && b != u.busyStart
            && (u.freeStart != 0 ==> u.freeStart in u.h) && (u.busyStart != 0 ==> u.busyStart in u.h)
            && Moved(a, Relinked(u, b, toFree), fromFree, k, toFree)
            && Relinked(u, b, toFree).h.Keys == a.h.Keys
  {
    hide Removed, Pushed, Loose, Inv, Unlinked;
    var b := (if fromFree then a.free else a.busy)[k];
    var u := Unlinked(a, fromFree, k);
    UnlinkedParts(a, fromFree, k);
    LooseStarts(u, b);
    RelinkSizes(a.h, b, if toFree then u.freeStart else u.busyStart);
  }

  /** Neither unlinking nor pushing changes which blocks there are or their sizes. */
  lemma RelinkSizes(h: Headers, b: nat, start: nat)
    requires b in h && (h[b].previous != 0 ==> h[b].previous in h) && (h[b].next != 0 ==> h[b].next in h)
    requires b in Removed(h, b) && b != start && (start != 0 ==> start in Removed(h, b))
    ensures Removed(h, b).Keys == h.Keys && Pushed(Removed(h, b), start, b).Keys == h.Keys
    ensures forall x <- h :: Pushed(Removed(h, b), start, b)[x].size == h[x].size
  {
    hide Removed, Pushed;
    forall x | x in h
      ensures Removed(h, b).Keys == h.Keys && Pushed(Removed(h, b), start, b).Keys == h.Keys
      ensures Pushed(Removed(h, b), start, b)[x].size == h[x].size
    {
      RemoveFrame(h, b, x);
      PushFrame(Removed(h, b), start, b, x);
    }
  }

  /** The block at position `k` of the free list keeps `size` bytes and the rest
      becomes the next free block; a block that is too small to be cut stays as it
      is. Every other block is as before. */
  ghost predicate Trimmed(a: Arena, a': Arena, k: nat, size: nat) {
    && a'.base == a.base && a'.end == a.end && a'.busy == a.busy
    && k < |a.free| && a.free[k] in a.h && size <= a.h[a.free[k]].size
    && var b := a.free[k];
    && var rest := b + HEADER + size;
    && (if a.h[b].size > size + HEADER + MINIMUM
        then
          && a'.free == With(a.free, k + 1, rest) && a'.h.Keys == a.h.Keys + {rest} && rest !in a.h
          && a'.h[b].size == size && a'.h[rest].size == a.h[b].size - size - HEADER
        else a'.free == a.free && a'.h.Keys == a.h.Keys && a'.h[b].size == a.h[b].size)
    && (forall x <- a.h :: x != b ==> a'.h[x].size == a.h[x].size)
  }

  lemma MoreBlocks(m0: Bytes, m1: Bytes, small: set<nat>, blocks: set<nat>)
    requires OnlyHeaders(m0, m1, small) && small <= blocks
    ensures OnlyHeaders(m0, m1, blocks)
  {
    forall x | x in m0 && InHeader(small, x) ensures InHeader(blocks, x) {
      var a :| a in small && a <= x < a + HEADER;
      assert a in blocks;
    }
  }

  lemma SplitTrims(a: Arena, k: nat, t: nat, size: nat)
    requires Inv(a) && k < |a.free| && t < |a.tiles| && a.tiles[t] == a.free[k] && a.free[k] in a.h
    requires a.h[a.free[k]].next != 0 ==> a.h[a.free[k]].next in a.h
    requires a.h[a.free[k]].size > size + HEADER + MINIMUM && a.free[k] + HEADER + size !in a.h
    ensures Trimmed(a, Split(a, k, size, t), k, size)
    ensures Split(a, k, size, t).h.Keys == a.h.Keys + {a.free[k] + HEADER + size}
  {
    hide Cut, Inv;
    CutSizes(a.h, a.free[k], size, a.free[k] + HEADER + size);
  }

  lemma CutSizes(h: Headers, b: nat, size: nat, x: nat)
    requires b in h && (h[b].next != 0 ==> h[b].next in h) && x !in h && h[b].size >= size + HEADER
    ensures var h' := Cut(h, b, size, x, h[b].size - size - HEADER);
      && h'.Keys == h.Keys + {x} && h'[b].size == size && h'[x].size == h[b].size - size - HEADER
      && (forall y <- h :: y != b ==> h'[y].size == h[y].size)
  {
    hide Cut;
    RestSize(h, b, size, x);
    CutFrame(h, b, size, x, h[b].size - size - HEADER, b);
    forall y | y in h && y != b ensures Cut(h, b, size, x, h[b].size - size - HEADER)[y].size == h[y].size {
      CutFrame(h, b, size, x, h[b].size - size - HEADER, y);
    }
  }

  lemma RestSize(h: Headers, b: nat, size: nat, x: nat)
    requires b in h && (h[b].next != 0 ==> h[b].next in h) && x !in h && x != b && h[b].size >= size + HEADER
    ensures var rest := h[b].size - size - HEADER;
      x in Cut(h, b, size, x, rest) && Cut(h, b, size, x, rest)[x].size == rest
  {
  }

  lemma CutSteps(h: Headers, b: nat, size: nat, x: nat)
    requires b in h && x !in h && b != x && (h[b].next != 0 ==> h[b].next in h) && h[b].size >= size + HEADER
    ensures var h1 := h[b := h[b].(size := size)];
            var rest := h[b].size - size - HEADER;
            var h2 := h1[x := Header(rest, h1[b].next, b)];
            && x in h2 && h2[x].next == h[b].next && (h2[x].next != 0 ==> h2[x].next in h2)
            && var h3 := WithPrevious(h2, h2[x].next, x);
            && (b != 0 ==> b in h3) && Cut(h, b, size, x, rest) == WithNext(h3, b, x)
  {
  }

  lemma RemovedSteps(h: Headers, b: nat)
    requires b in h && (h[b].previous != 0 ==> h[b].previous in h) && (h[b].next != 0 ==> h[b].next in h)
    ensures var p, n := h[b].previous, h[b].next;
            && (n != 0 ==> n in WithNext(h, p, n))
            && var h2 := WithPrevious(WithNext(h, p, n), n, p);
            && b in h2 && Removed(h, b) == h2[b := h2[b].(next := 0, previous := 0)]
  {
  }

  lemma OnlyHeadersNone(m: Bytes, blocks: set<nat>)
    ensures OnlyHeaders(m, m, blocks)
  {
  }

  lemma UnlinkedParts(a: Arena, fromFree: bool, k: nat)
    requires Inv(a) && k < |if fromFree then a.free else a.busy|
    ensures var b := (if fromFree then a.free else a.busy)[k];
            && b in a.h
            && (a.h[b].previous != 0 ==> a.h[b].previous in a.h)
            && (a.h[b].next != 0 ==> a.h[b].next in a.h)
            && b != a.h[b].previous && b != a.h[b].next && (a.h[b].next != 0 ==> a.h[b].next != a.h[b].previous)
            && Unlinked(a, fromFree, k)
               == Arena(Removed(a.h, b), if b == a.freeStart then a.h[b].next else a.freeStart,
                        if b == a.busyStart then a.h[b].next else a.busyStart, a.base, a.end,
                        if fromFree then Without(a.free, k) else a.free,
                        if fromFree then a.busy else Without(a.busy, k), a.tiles)
  {
    NeighboursKnown(a.h, if fromFree then a.freeStart else a.busyStart, if fromFree then a.free else a.busy, k);
  }

  lemma PageAligned(a: Arena)
    requires Inv(a)
    ensures (a.end + PAGE - 1) / PAGE * PAGE == a.end
  {
  }

  /** The arena after growing: one more tile, in front of the free list. */
  ghost predicate GrownFree(a: Arena, a': Arena, pages: nat) {
    && a'.base == a.base && a'.end == a.end + pages * PAGE
    && a'.free == [a.end] + a.free && a'.busy == a.busy && a'.tiles == a.tiles + [a.end]
    && a'.h.Keys == a.h.Keys + {a.end} && a.end !in a.h
    && a'.h[a.end].size == pages * PAGE - HEADER
    && (forall x <- a.h :: a'.h[x].size == a.h[x].size)
  }

  lemma PushedKeys(a: Arena, pages: nat, a': Arena)
    requires pages >= 1 && a.end !in a.h
    requires var g := Grown(a, pages);
             && a.end != g.freeStart && a.end != g.busyStart
             && (g.freeStart != 0 ==> g.freeStart in g.h) && (g.busyStart != 0 ==> g.busyStart in g.h)
             && a' == Relinked(g, a.end, true)
    ensures GrownFree(a, a', pages)
  {
  }
}
