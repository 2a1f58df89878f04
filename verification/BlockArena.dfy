/** The arena of the block allocator: the blocks on its free and busy lists tile
    the virtual range it has claimed, through growth, splitting and moving. */
module BlockArena {
  import opened Arithmetic
  import opened Sequences
  import opened BlockLists

  const HEADER := 48   // sizeof(block_header_t), a multiple of 16
  const MINIMUM := 16  // BLOCK_MINIMUM_ALLOCATION

  // ------------------------------------------------------------------ tiles

  /** Tile `i` ends where the next one starts; the last one ends at `end`. */
  ghost predicate Tile(h: Headers, tiles: seq<nat>, i: nat, end: nat)
    requires i < |tiles|
  {
    && tiles[i] in h
    && tiles[i] + HEADER + h[tiles[i]].size == (if i + 1 < |tiles| then tiles[i + 1] else end)
    && h[tiles[i]].size % 16 == 0 && h[tiles[i]].size >= MINIMUM
  }

  /** The blocks at `tiles` cover [base, end) without gap or overlap. */
  ghost predicate Tiled(h: Headers, base: nat, end: nat, tiles: seq<nat>) {
    && base == (if tiles == [] then end else tiles[0])
    && (forall i: nat :: i < |tiles| ==> Tile(h, tiles, i, end))
  }

  lemma {:induction false} TilesAscend(h: Headers, base: nat, end: nat, tiles: seq<nat>, i: nat, j: nat)
    requires Tiled(h, base, end, tiles) && i < j < |tiles|
    ensures tiles[i] in h && tiles[i] + HEADER + h[tiles[i]].size <= tiles[j]
    decreases j - i
  {
    assert Tile(h, tiles, i, end);
    if i + 1 < j {
      assert Tile(h, tiles, i + 1, end);
      TilesAscend(h, base, end, tiles, i + 1, j);
    }
  }

  lemma TileBounds(h: Headers, base: nat, end: nat, tiles: seq<nat>, i: nat)
    requires Tiled(h, base, end, tiles) && i < |tiles|
    ensures tiles[i] in h && base <= tiles[i] && tiles[i] + HEADER + h[tiles[i]].size <= end
    ensures h[tiles[i]].size % 16 == 0 && h[tiles[i]].size >= MINIMUM
  {
    var last := |tiles| - 1;
    assert Tile(h, tiles, i, end) && Tile(h, tiles, 0, end) && Tile(h, tiles, last, end);
    if i > 0 { TilesAscend(h, base, end, tiles, 0, i); }
    if i < last { TilesAscend(h, base, end, tiles, i, last); }
  }

  /** Every tile is 16-byte aligned. */
  lemma {:induction false} TileAligned(h: Headers, base: nat, end: nat, tiles: seq<nat>, i: nat)
    requires Tiled(h, base, end, tiles) && i < |tiles| && base % 16 == 0
    ensures tiles[i] % 16 == 0
  {
    if i > 0 {
      assert Tile(h, tiles, i - 1, end);
      TileAligned(h, base, end, tiles, i - 1);
    }
  }

  function Total(h: Headers, tiles: seq<nat>): nat {
    if tiles == [] then 0
    else
      var a := tiles[|tiles| - 1];
      Total(h, tiles[..|tiles| - 1]) + HEADER + (if a in h then h[a].size else 0)
  }

  /** Conservation: headers and payloads together fill the arena. */
  lemma TilesFillArena(h: Headers, base: nat, end: nat, tiles: seq<nat>)
    requires Tiled(h, base, end, tiles)
    ensures Total(h, tiles) == end - base
  {
    PrefixTotal(h, base, end, tiles, |tiles|);
    assert tiles[..|tiles|] == tiles;
  }

  lemma {:induction false} PrefixTotal(h: Headers, base: nat, end: nat, tiles: seq<nat>, k: nat)
    requires Tiled(h, base, end, tiles) && k <= |tiles|
    ensures Total(h, tiles[..k]) == (if k < |tiles| then tiles[k] else end) - base
  {
    if k > 0 {
      PrefixTotal(h, base, end, tiles, k - 1);
      assert Tile(h, tiles, k - 1, end);
      assert tiles[..k][..k - 1] == tiles[..k - 1];
    }
  }

  lemma TiledKept(h: Headers, h': Headers, base: nat, end: nat, tiles: seq<nat>)
    requires Tiled(h, base, end, tiles)
    requires forall i: nat :: i < |tiles| ==> tiles[i] in h && tiles[i] in h' && h'[tiles[i]].size == h[tiles[i]].size
    ensures Tiled(h', base, end, tiles)
  {
    forall i: nat | i < |tiles| ensures Tile(h', tiles, i, end) {
      assert Tile(h, tiles, i, end);
    }
  }

  // -------------------------------------------------------------- the arena

  /** The allocator's headers, list heads and virtual range, with the addresses
      on its two lists and the tiles in address order. */
  datatype Arena = Arena(h: Headers, freeStart: nat, busyStart: nat, base: nat, end: nat,
                         free: seq<nat>, busy: seq<nat>, tiles: seq<nat>)

  /** Each tile is on exactly one of the two lists. */
  ghost predicate Partition(h: Headers, free: seq<nat>, busy: seq<nat>, tiles: seq<nat>) {
    && (forall x <- h :: x in tiles)
    && (forall x <- tiles :: x in h && ((x in free) != (x in busy)))
    && (forall x <- free :: x in tiles)
    && (forall x <- busy :: x in tiles)
  }

  ghost predicate Inv(a: Arena) {
    && 0 < a.base && a.base % PAGE == 0 && a.end % PAGE == 0
    && List(a.h, a.freeStart, a.free)
    && List(a.h, a.busyStart, a.busy)
    && Tiled(a.h, a.base, a.end, a.tiles)
    && Partition(a.h, a.free, a.busy, a.tiles)
  }

  function Empty(base: nat): Arena {
    Arena(map[], 0, 0, base, base, [], [], [])
  }

  lemma EmptyInv(base: nat)
    requires 0 < base && base % PAGE == 0
    ensures Inv(Empty(base))
  {
  }

  // ------------------------------------------------------------------ moves

  /** remove_block_from_list for the block at position `k` of one list. */
  function Unlinked(a: Arena, fromFree: bool, k: nat): Arena
    requires Inv(a) && k < |if fromFree then a.free else a.busy|
  {
    var s := if fromFree then a.free else a.busy;
    NeighboursKnown(a.h, if fromFree then a.freeStart else a.busyStart, s, k);
    var b := s[k];
    a.(h := Removed(a.h, b),
       freeStart := if b == a.freeStart then a.h[b].next else a.freeStart,
       busyStart := if b == a.busyStart then a.h[b].next else a.busyStart,
       free := if fromFree then Without(a.free, k) else a.free,
       busy := if fromFree then a.busy else Without(a.busy, k))
  }

  lemma MemberIndex(s: seq<nat>, x: nat) returns (i: nat)
    requires x in s
    ensures i < |s| && s[i] == x
  {
    i :| 0 <= i < |s| && s[i] == x;
  }

  lemma WithoutMembers(s: seq<nat>, k: nat)
    requires Distinct(s) && k < |s|
    ensures forall x: nat :: x in Without(s, k) <==> x in s && x != s[k]
  {
    forall x: nat | x in s && x != s[k] ensures x in Without(s, k) {
      var i := MemberIndex(s, x);
      assert Without(s, k)[if i < k then i else i - 1] == x;
    }
  }

  /** The list the block was not on keeps its links and its head. */
  lemma OtherListKept(h: Headers, start: nat, s: seq<nat>, k: nat, other: nat, o: seq<nat>)
    requires List(h, start, s) && List(h, other, o) && k < |s|
    requires forall x <- o :: x !in s
    ensures s[k] in h && (h[s[k]].previous != 0 ==> h[s[k]].previous in h) && (h[s[k]].next != 0 ==> h[s[k]].next in h)
    ensures List(Removed(h, s[k]), other, o) && s[k] != other
  {
    NeighboursKnown(h, start, s, k);
    assert o != [] ==> o[0] in o;
    forall i: nat | i < |o|
      ensures o[i] in h && o[i] in Removed(h, s[k]) && Removed(h, s[k])[o[i]] == h[o[i]]
    {
      NeighboursKnown(h, other, o, i);
      assert o[i] in o;
      RemoveFrame(h, s[k], o[i]);
    }
    hide Removed;
    ListKept(h, Removed(h, s[k]), other, o);
  }

  /** An arena whose block `b` is on no list for the moment. */
  ghost predicate Loose(a: Arena, b: nat) {
    && 0 < a.base && a.base % PAGE == 0 && a.end % PAGE == 0
    && List(a.h, a.freeStart, a.free)
    && List(a.h, a.busyStart, a.busy)
    && Tiled(a.h, a.base, a.end, a.tiles)
    && b in a.tiles && b != 0 && b in a.h && b !in a.free && b !in a.busy
    && (forall x <- a.h :: x in a.tiles)
    && (forall x <- a.tiles :: x in a.h && (x == b || ((x in a.free) != (x in a.busy))))
    && (forall x <- a.free :: x in a.tiles)
    && (forall x <- a.busy :: x in a.tiles)
  }

  lemma UnlinkedKeeps(a: Arena, fromFree: bool, k: nat)
    requires Inv(a) && k < |if fromFree then a.free else a.busy|
    ensures Loose(Unlinked(a, fromFree, k), if fromFree then a.free[k] else a.busy[k])
  {
    var s := if fromFree then a.free else a.busy;
    var o := if fromFree then a.busy else a.free;
    var start := if fromFree then a.freeStart else a.busyStart;
    var other := if fromFree then a.busyStart else a.freeStart;
    var b := s[k];
    NeighboursKnown(a.h, start, s, k);
    RemoveUnlinks(a.h, start, s, k);
    forall x | x in o ensures x !in s { assert x in a.tiles; }
    OtherListKept(a.h, start, s, k, other, o);
    WithoutMembers(s, k);
    forall x: nat | x in a.h ensures x in Removed(a.h, b) && Removed(a.h, b).Keys == a.h.Keys && Removed(a.h, b)[x].size == a.h[x].size {
      RemoveFrame(a.h, b, x);
    }
    forall i: nat | i < |a.tiles| ensures a.tiles[i] in a.h { assert a.tiles[i] in a.tiles; }
    assert b in s;
    hide Removed;
    TiledKept(a.h, Removed(a.h, b), a.base, a.end, a.tiles);
  }

  /** push_block of a loose block on one of the lists. */
  function Relinked(a: Arena, b: nat, toFree: bool): Arena
    requires b in a.h && b != a.freeStart && b != a.busyStart
    requires (a.freeStart != 0 ==> a.freeStart in a.h) && (a.busyStart != 0 ==> a.busyStart in a.h)
  {
    if toFree then a.(h := Pushed(a.h, a.freeStart, b), freeStart := b, free := [b] + a.free)
    else a.(h := Pushed(a.h, a.busyStart, b), busyStart := b, busy := [b] + a.busy)
  }

  lemma PushFrame(h: Headers, start: nat, block: nat, x: nat)
    requires block in h && block != start && (start != 0 ==> start in h) && x in h
    ensures Pushed(h, start, block).Keys == h.Keys && Pushed(h, start, block)[x].size == h[x].size
    ensures x != block && x != start ==> Pushed(h, start, block)[x] == h[x]
  {
  }

  lemma StartsKnown(h: Headers, start: nat, s: seq<nat>)
    requires List(h, start, s)
    ensures start != 0 ==> start in h && start in s
  {
    if s != [] { NeighboursKnown(h, start, s, 0); }
  }

  /** Pushing on one list leaves the other alone. */
  lemma PushKeepsOther(h: Headers, start: nat, s: seq<nat>, other: nat, o: seq<nat>, b: nat)
    requires List(h, start, s) && List(h, other, o)
    requires b in h && b != start && (start != 0 ==> start in h)
    requires b !in o && forall x <- o :: x !in s
    ensures List(Pushed(h, start, b), other, o)
  {
    StartsKnown(h, start, s);
    forall i: nat | i < |o|
      ensures o[i] in h && o[i] in Pushed(h, start, b) && Pushed(h, start, b)[o[i]] == h[o[i]]
    {
      NeighboursKnown(h, other, o, i);
      assert o[i] in o;
      PushFrame(h, start, b, o[i]);
    }
    hide Pushed;
    ListKept(h, Pushed(h, start, b), other, o);
  }

  lemma LooseStarts(a: Arena, b: nat)
    requires Loose(a, b)
    ensures b in a.h && b != a.freeStart && b != a.busyStart
    ensures (a.freeStart != 0 ==> a.freeStart in a.h) && (a.busyStart != 0 ==> a.busyStart in a.h)
  {
    StartsKnown(a.h, a.freeStart, a.free);
    StartsKnown(a.h, a.busyStart, a.busy);
  }

  lemma RelinkedKeeps(a: Arena, b: nat, toFree: bool)
    requires Loose(a, b)
    ensures b in a.h && b != a.freeStart && b != a.busyStart
    ensures (a.freeStart != 0 ==> a.freeStart in a.h) && (a.busyStart != 0 ==> a.busyStart in a.h)
    ensures Inv(Relinked(a, b, toFree))
  {
    hide Pushed;
    LooseStarts(a, b);
    var s := if toFree then a.free else a.busy;
    var o := if toFree then a.busy else a.free;
    var start := if toFree then a.freeStart else a.busyStart;
    var other := if toFree then a.busyStart else a.freeStart;
    PushExtends(a.h, start, s, b);
    forall x | x in o ensures x !in s { assert x in a.tiles; }
    PushKeepsOther(a.h, start, s, other, o, b);
    forall x: nat | x in a.h
      ensures Pushed(a.h, start, b).Keys == a.h.Keys && Pushed(a.h, start, b)[x].size == a.h[x].size
    {
      PushFrame(a.h, start, b, x);
    }
    forall i: nat | i < |a.tiles| ensures a.tiles[i] in a.h { assert a.tiles[i] in a.tiles; }
    TiledKept(a.h, Pushed(a.h, start, b), a.base, a.end, a.tiles);
  }

  // ------------------------------------------------------------------- grow

  /** A new block of whole pages at the end of the arena, on no list yet. */
  function Grown(a: Arena, pages: nat): Arena
    requires pages >= 1
  {
    a.(h := a.h[a.end := Header(pages * PAGE - HEADER, 0, 0)], end := a.end + pages * PAGE, tiles := a.tiles + [a.end])
  }

  lemma EndIsNew(a: Arena)
    requires Inv(a)
    ensures a.end !in a.h && a.end !in a.tiles && 0 < a.base <= a.end
  {
    hide List;
    forall x | x in a.tiles ensures x < a.end {
      var i := MemberIndex(a.tiles, x);
      TileBounds(a.h, a.base, a.end, a.tiles, i);
    }
    if a.tiles != [] { TileBounds(a.h, a.base, a.end, a.tiles, 0); }
  }

  lemma ListUnderUpdate(h: Headers, start: nat, s: seq<nat>, x: nat, w: Header)
    requires List(h, start, s) && x !in h
    ensures List(h[x := w], start, s)
  {
    forall i: nat | i < |s| ensures s[i] in h && s[i] != x {
      NeighboursKnown(h, start, s, i);
    }
    ListKept(h, h[x := w], start, s);
  }

  lemma GrownTiles(h: Headers, base: nat, end: nat, tiles: seq<nat>, pages: nat, links: Header)
    requires Tiled(h, base, end, tiles) && end !in h && pages >= 1 && links.size == pages * PAGE - HEADER
    ensures Tiled(h[end := links], base, end + pages * PAGE, tiles + [end])
  {
    var h', tiles', end' := h[end := links], tiles + [end], end + pages * PAGE;
    forall i: nat | i < |tiles'| ensures Tile(h', tiles', i, end') {
      if i < |tiles| { assert Tile(h, tiles, i, end); }
    }
  }

  lemma GrownKeeps(a: Arena, pages: nat)
    requires Inv(a) && pages >= 1
    ensures a.end !in a.h && Loose(Grown(a, pages), a.end)
  {
    hide List, Tiled;
    EndIsNew(a);
    var links := Header(pages * PAGE - HEADER, 0, 0);
    ListUnderUpdate(a.h, a.freeStart, a.free, a.end, links);
    ListUnderUpdate(a.h, a.busyStart, a.busy, a.end, links);
    GrownTiles(a.h, a.base, a.end, a.tiles, pages, links);
  }

  // ------------------------------------------------------------------ split

  lemma TileOf(a: Arena, b: nat) returns (t: nat)
    requires Inv(a) && b in a.h
    ensures t < |a.tiles| && a.tiles[t] == b
    ensures b + HEADER + a.h[b].size <= a.end && a.h[b].size % 16 == 0 && a.base <= b
  {
    t := MemberIndex(a.tiles, b);
    TileBounds(a.h, a.base, a.end, a.tiles, t);
  }

  /** The block at position `k` of the free list, cut down to `size` bytes. */
  ghost function Split(a: Arena, k: nat, size: nat, t: nat): Arena
    requires Inv(a) && k < |a.free| && a.free[k] in a.h && t < |a.tiles|
    requires a.h[a.free[k]].next != 0 ==> a.h[a.free[k]].next in a.h
    requires a.h[a.free[k]].size >= size + HEADER
  {
    var b := a.free[k];
    var rest := b + HEADER + size;
    a.(h := Cut(a.h, b, size, rest, a.h[b].size - size - HEADER),
       free := With(a.free, k + 1, rest),
       tiles := With(a.tiles, t + 1, rest))
  }

  /** No header starts inside a block. */
  lemma NoHeaderInside(a: Arena, t: nat, x: nat)
    requires Inv(a) && t < |a.tiles| && a.tiles[t] in a.h
    requires a.tiles[t] < x < a.tiles[t] + HEADER + a.h[a.tiles[t]].size
    ensures x !in a.h
  {
    if x in a.h {
      var j := MemberIndex(a.tiles, x);
      if t < j { TilesAscend(a.h, a.base, a.end, a.tiles, t, j); }
      if j < t { TilesAscend(a.h, a.base, a.end, a.tiles, j, t); }
    }
  }

  lemma CutFrame(h: Headers, block: nat, size: nat, a: nat, rest: nat, x: nat)
    requires block in h && (h[block].next != 0 ==> h[block].next in h) && x in h && a !in h
    ensures Cut(h, block, size, a, rest).Keys == h.Keys + {a}
    ensures Cut(h, block, size, a, rest)[x].size == if x == block then size else h[x].size
    ensures x != block && x != h[block].next ==> Cut(h, block, size, a, rest)[x] == h[x]
  {
  }

  lemma WithMembers(s: seq<nat>, k: nat, a: nat)
    requires k <= |s|
    ensures forall x: nat :: x in With(s, k, a) <==> x == a || x in s
  {
    var t := With(s, k, a);
    assert t[k] == a;
    forall x: nat | x in s ensures x in t {
      var i := MemberIndex(s, x);
      assert t[if i < k then i else i + 1] == x;
    }
  }

  lemma CutTiles(h: Headers, base: nat, end: nat, tiles: seq<nat>, t: nat, size: nat, h': Headers)
    requires Tiled(h, base, end, tiles) && t < |tiles| && tiles[t] in h
    requires size % 16 == 0 && size >= MINIMUM && h[tiles[t]].size > size + HEADER + MINIMUM
    requires var a := tiles[t] + HEADER + size;
             && a in h' && h'[a].size == h[tiles[t]].size - size - HEADER
             && (forall j: nat :: j < |tiles| ==> tiles[j] in h && tiles[j] in h')
             && (forall j: nat :: j < |tiles| ==> h'[tiles[j]].size == if j == t then size else h[tiles[j]].size)
    ensures Tiled(h', base, end, With(tiles, t + 1, tiles[t] + HEADER + size))
  {
    var a := tiles[t] + HEADER + size;
    var tiles' := With(tiles, t + 1, a);
    assert Tile(h, tiles, t, end);
    forall i: nat | i < |tiles'| ensures Tile(h', tiles', i, end) {
      if i <= t {
        assert Tile(h, tiles, i, end) && tiles'[i] == tiles[i];
      } else if i > t + 1 {
        assert Tile(h, tiles, i - 1, end) && tiles'[i] == tiles[i - 1];
      }
    }
  }

  lemma SplitLists(a: Arena, k: nat, t: nat, size: nat, x: nat)
    requires Inv(a) && k < |a.free| && t < |a.tiles| && a.tiles[t] == a.free[k]
    requires a.free[k] in a.h && (a.h[a.free[k]].next != 0 ==> a.h[a.free[k]].next in a.h)
    requires x !in a.h && x != 0 && a.h[a.free[k]].size >= size + HEADER
    ensures var h' := Cut(a.h, a.free[k], size, x, a.h[a.free[k]].size - size - HEADER);
            List(h', a.freeStart, With(a.free, k + 1, x)) && List(h', a.busyStart, a.busy)
  {
    var b, r := a.free[k], a.h[a.free[k]].size - size - HEADER;
    CutInserts(a.h, a.freeStart, a.free, k, size, x, r);
    NeighboursKnown(a.h, a.freeStart, a.free, k);
    var h' := Cut(a.h, b, size, x, r);
    forall i: nat | i < |a.busy| ensures a.busy[i] in a.h && a.busy[i] in h' && h'[a.busy[i]] == a.h[a.busy[i]] {
      NeighboursKnown(a.h, a.busyStart, a.busy, i);
      assert a.busy[i] in a.busy && a.busy[i] in a.tiles;
      assert k + 1 < |a.free| ==> a.free[k + 1] in a.free;
      assert b in a.free;
      CutFrame(a.h, b, size, x, r, a.busy[i]);
    }
    hide Cut;
    ListKept(a.h, h', a.busyStart, a.busy);
  }

  lemma SplitTiles(a: Arena, k: nat, t: nat, size: nat, x: nat, h': Headers)
    requires Inv(a) && k < |a.free| && t < |a.tiles| && a.tiles[t] == a.free[k] && a.free[k] in a.h
    requires size % 16 == 0 && size >= MINIMUM && a.h[a.free[k]].size > size + HEADER + MINIMUM
    requires x == a.free[k] + HEADER + size && x !in a.h
    requires a.h[a.free[k]].next != 0 ==> a.h[a.free[k]].next in a.h
    requires h' == Cut(a.h, a.free[k], size, x, a.h[a.free[k]].size - size - HEADER)
    ensures Tiled(h', a.base, a.end, With(a.tiles, t + 1, x)) && h'.Keys == a.h.Keys + {x}
  {
    hide Cut, List, Partition;
    var b, r := a.free[k], a.h[a.free[k]].size - size - HEADER;
    CutNew(a.h, a.freeStart, a.free, k, size, x, r);
    CutFrame(a.h, b, size, x, r, b);
    forall j: nat | j < |a.tiles|
      ensures a.tiles[j] in a.h && a.tiles[j] in h' && h'[a.tiles[j]].size == if j == t then size else a.h[a.tiles[j]].size
    {
      TileBounds(a.h, a.base, a.end, a.tiles, j);
      if j < t { TilesAscend(a.h, a.base, a.end, a.tiles, j, t); }
      if t < j { TilesAscend(a.h, a.base, a.end, a.tiles, t, j); }
      CutFrame(a.h, b, size, x, r, a.tiles[j]);
    }
    CutTiles(a.h, a.base, a.end, a.tiles, t, size, h');
  }

  lemma SplitPartition(h: Headers, free: seq<nat>, busy: seq<nat>, tiles: seq<nat>, h': Headers, k: nat, t: nat, x: nat)
    requires Partition(h, free, busy, tiles) && k <= |free| && t <= |tiles| && x !in h && h'.Keys == h.Keys + {x}
    ensures Partition(h', With(free, k, x), busy, With(tiles, t, x))
  {
    WithMembers(free, k, x);
    WithMembers(tiles, t, x);
    hide With;
  }

  /** Splitting keeps the tiling, both lists and every other block. */
  lemma SplitKeeps(a: Arena, k: nat, t: nat, size: nat)
    requires Inv(a) && k < |a.free| && t < |a.tiles| && a.tiles[t] == a.free[k] && a.free[k] in a.h
    requires size % 16 == 0 && size >= MINIMUM && a.h[a.free[k]].size > size + HEADER + MINIMUM
    ensures a.h[a.free[k]].next != 0 ==> a.h[a.free[k]].next in a.h
    ensures Inv(Split(a, k, size, t))
    ensures a.free[k] + HEADER + size !in a.h
  {
    hide Cut, List, Partition, Tiled, With;
    var b := a.free[k];
    var x, r := b + HEADER + size, a.h[b].size - size - HEADER;
    NeighboursKnown(a.h, a.freeStart, a.free, k);
    NoHeaderInside(a, t, x);
    SplitLists(a, k, t, size, x);
    SplitTiles(a, k, t, size, x, Cut(a.h, b, size, x, r));
    SplitPartition(a.h, a.free, a.busy, a.tiles, Cut(a.h, b, size, x, r), k + 1, t + 1, x);
  }

  // ---------------------------------------------------------------- payload

  /** Address `x` lies in the payload of block `b`. */
  predicate InPayload(h: Headers, b: nat, x: nat) {
    b in h && b + HEADER <= x < b + HEADER + h[b].size
  }

  /** A header never lies in a payload, and payloads do not overlap. */
  lemma PayloadsApart(a: Arena, b: nat, c: nat, x: nat)
    requires Inv(a) && b in a.h && c in a.h && InPayload(a.h, c, x)
    ensures !(b <= x < b + HEADER)
    ensures b != c ==> !InPayload(a.h, b, x)
  {
    var i := MemberIndex(a.tiles, b);
    var j := MemberIndex(a.tiles, c);
    TileBounds(a.h, a.base, a.end, a.tiles, j);
    if i < j { TilesAscend(a.h, a.base, a.end, a.tiles, i, j); }
    if j < i { TilesAscend(a.h, a.base, a.end, a.tiles, j, i); }
  }
}
