/** The page allocator in place: pools with a packed bitmap, searched from the
    last hit. Each method is proved against the machine of PageAllocation. */
module PageAllocator {
  import opened Arithmetic
  import opened Bitmap
  import opened PageAllocation
  import opened Options

  ghost function Busy(words: seq<bv64>): set<nat> {
    set k: nat | k < 64 * |words| && Bit(words, k)
  }

  lemma BusySet(words: seq<bv64>, index: nat)
    requires index < 64 * |words|
    ensures Busy(WithBit(words, index)) == Busy(words) + {index}
  {
    forall k: nat | k < 64 * |words| ensures Bit(WithBit(words, index), k) == (k == index || Bit(words, k)) {
      SetBit(words, index, k);
    }
  }

  lemma BusyUnset(words: seq<bv64>, index: nat)
    requires index < 64 * |words|
    ensures Busy(WithoutBit(words, index)) == Busy(words) - {index}
  {
    forall k: nat | k < 64 * |words| ensures Bit(WithoutBit(words, index), k) == (k != index && Bit(words, k)) {
      ClearBit(words, index, k);
    }
  }

  class PagePool {
    const allocateBase: nat
    const total: nat
    const bitmapEntries: nat
    const bitmap: array<bv64>
    var used: nat
    var available: nat
    var lastAllocatedPageIndex: nat

    ghost function Value(): Pool
      reads this, bitmap
    {
      Pool(allocateBase, total, bitmapEntries, 64 * bitmap.Length, used, lastAllocatedPageIndex, Busy(bitmap[..]))
    }

    /** `used + available == total` always holds. */
    ghost predicate Valid()
      reads this, bitmap
    {
      Sound(Value()) && used + available == total
    }

    /** A pool over a region. It is sound exactly when its bitmap is long enough. */
    constructor (region: Region, hhdm: nat)
      requires Eligible(region)
      ensures Value() == NewPool(region, hhdm) && fresh(bitmap)
      ensures Valid() <==> !ShortBitmap(region.length)
    {
      hide Busy, Sound, Unused, ShortBitmap, NewPool;
      var bytes := BitmapBytes(region.length);
      allocateBase := region.base + bytes + hhdm;
      total := region.length - bytes;
      bitmapEntries := region.length / PAGE;
      bitmap := new bv64[bytes / 8](_ => 0);
      used := 0;
      available := region.length - bytes;
      lastAllocatedPageIndex := 0;
      new;
      NothingBusy(bitmap[..]);
      NewPoolFields(region, hhdm);
      BitmapCoversExactly(region, hhdm);
      NewIsSound(region, hhdm);
    }

    method BitmapGet(index: nat) returns (bit: bool)
      requires index < 64 * bitmap.Length
      ensures bit == (index in Busy(bitmap[..]))
    {
      hide Mask, Test;
      bit := Test(bitmap[index / 64], Mask(index % 64));
      assert bit == Bit(bitmap[..], index);
    }

    method BitmapSet(index: nat)
      requires index < 64 * bitmap.Length
      modifies bitmap
      ensures Busy(bitmap[..]) == old(Busy(bitmap[..])) + {index}
    {
      BusySet(bitmap[..], index);
      hide Mask, Bit, Set;
      bitmap[index / 64] := Set(bitmap[index / 64], Mask(index % 64));
      assert bitmap[..] == WithBit(old(bitmap[..]), index);
    }

    method BitmapUnset(index: nat)
      requires index < 64 * bitmap.Length
      modifies bitmap
      ensures Busy(bitmap[..]) == old(Busy(bitmap[..])) - {index}
    {
      BusyUnset(bitmap[..], index);
      hide Mask, Bit, Unset;
      bitmap[index / 64] := Unset(bitmap[index / 64], Mask(index % 64));
      assert bitmap[..] == WithoutBit(old(bitmap[..]), index);
    }

    /** The search of the single-page fast path. */
    method TakeSingle() returns (found: Option<nat>)
      requires Valid() && PAGE <= available
      modifies this, bitmap
      ensures Valid() && Value() == Take(old(Value()), 1)
      ensures found == Some(IndexIn(old(Value()), 1))
    {
      hide Busy, FirstFit;
      ghost var p := Value();
      TakeIsSafe(p, 1);
      var index: nat := lastAllocatedPageIndex;
      found := None;
      while found == None && index < bitmapEntries
        invariant found == None ==> Value() == p && Valid() && p.hint <= index <= p.Top()
        invariant found == None ==> forall j: nat :: p.hint <= j < index ==> !Clear(p.pages, j, 1)
        invariant found != None ==> Valid() && Value() == Take(p, 1) && found == Some(IndexIn(p, 1))
        decreases bitmapEntries - index, found == None
      {
        OneClear(p.pages, index);
        var bit := BitmapGet(index);
        if bit {
          index := index + 1;
        } else {
          FirstFitUnique(p.pages, p.hint, 1, p.Top(), index);
          BitmapSet(index);
          used := used + PAGE;
          available := available - PAGE;
          lastAllocatedPageIndex := index;
          found := Some(index);
        }
      }
    }

    /** Is the run of `pages` bits at `index` clear? */
    method RunIsClear(index: nat, pages: nat) returns (clear: bool)
      requires index + pages <= 64 * bitmap.Length
      ensures clear == Clear(Busy(bitmap[..]), index, pages)
    {
      hide Busy;
      clear := true;
      var offset: nat := 0;
      while offset < pages && clear
        invariant offset <= pages
        invariant clear ==> Clear(Busy(bitmap[..]), index, offset)
        invariant !clear ==> !Clear(Busy(bitmap[..]), index, pages)
        decreases pages - offset, clear
      {
        var bit := BitmapGet(offset + index);
        if bit {
          clear := false;
          assert index <= offset + index < index + pages && offset + index in Busy(bitmap[..]);
        } else {
          offset := offset + 1;
        }
      }
    }

    method SetRun(index: nat, pages: nat)
      requires index + pages <= 64 * bitmap.Length
      modifies bitmap
      ensures Busy(bitmap[..]) == old(Busy(bitmap[..])) + Span(index, pages)
    {
      hide Busy;
      var offset: nat := 0;
      while offset < pages
        invariant offset <= pages
        invariant Busy(bitmap[..]) == old(Busy(bitmap[..])) + Span(index, offset)
      {
        BitmapSet(offset + index);
        offset := offset + 1;
      }
    }

    /** The search for `pages` contiguous pages. */
    method TakeRun(pages: nat) returns (found: Option<nat>)
      requires Valid() && 1 <= pages && pages * PAGE <= available
      modifies this, bitmap
      ensures Valid() && Value() == Take(old(Value()), pages)
      ensures found == Some(IndexIn(old(Value()), pages))
    {
      hide Busy, FirstFit, Span;
      ghost var p := Value();
      TakeIsSafe(p, pages);
      var index: nat := lastAllocatedPageIndex;
      found := None;
      while found == None && index < bitmapEntries
        invariant found == None ==> Value() == p && Valid() && p.hint <= index <= p.Top()
        invariant found == None ==> forall j: nat :: p.hint <= j < index ==> !Clear(p.pages, j, pages)
        invariant found != None ==> Valid() && Value() == Take(p, pages) && found == Some(IndexIn(p, pages))
        decreases bitmapEntries - index, found == None
      {
        TopIsClear(p, pages);
        var skip := BitmapGet(index);
        if !skip && index + pages <= bitmapEntries {
          var clear := RunIsClear(index, pages);
          skip := !clear;
        } else {
          skip := true;
        }
        if skip {
          index := index + 1;
        } else {
          FirstFitUnique(p.pages, p.hint, pages, p.Top(), index);
          SetRun(index, pages);
          used := used + pages * PAGE;
          available := available - pages * PAGE;
          lastAllocatedPageIndex := index;
          found := Some(index);
        }
      }
    }

    /** The clearing loop of page_deallocate; a page that is already clear is skipped. */
    method ReleaseRun(index: nat, pages: nat)
      requires Valid() && index + pages <= 64 * bitmap.Length
      modifies bitmap
      ensures Valid() && Value() == Release(old(Value()), index, pages)
    {
      hide Busy;
      ReleaseKeeps(Value(), index, pages);
      var offset: nat := 0;
      while offset < pages
        invariant offset <= pages
        invariant Busy(bitmap[..]) == old(Busy(bitmap[..])) - Span(index, offset)
      {
        var bit := BitmapGet(index + offset);
        if bit {
          BitmapUnset(index + offset);
        }
        offset := offset + 1;
      }
    }
  }

  lemma TopIsClear(p: Pool, n: nat)
    requires Sound(p)
    ensures Clear(p.pages, p.Top(), n)
  {
  }

  lemma OneClear(pages: set<nat>, index: nat)
    ensures Clear(pages, index, 1) <==> index !in pages
  {
  }

  lemma NothingBusy(words: seq<bv64>)
    requires forall i: nat :: i < |words| ==> words[i] == 0
    ensures Busy(words) == {}
  {
    forall k: nat | k < 64 * |words| ensures !Bit(words, k) {
      AndZero(Mask(k % 64));
    }
  }

  lemma AndZero(m: bv64)
    ensures 0 & m == 0
  {
  }

  lemma NewPoolFields(r: Region, hhdm: nat)
    requires Eligible(r)
    ensures var bytes := BitmapBytes(r.length);
            NewPool(r, hhdm) == Pool(r.base + bytes + hhdm, r.length - bytes, r.length / PAGE, 64 * (bytes / 8), 0, 0, {})
  {
    hide BitmapBytes;
    WholeWords(BitmapBytes(r.length));
  }

  lemma WholeWords(bytes: nat)
    requires bytes % PAGE == 0
    ensures 64 * (bytes / 8) == 8 * bytes
  {
    Division(bytes, PAGE);
    AddMultiple(512 * (bytes / PAGE), 0, 8);
  }

  lemma NewIsSound(r: Region, hhdm: nat)
    requires Eligible(r)
    ensures Sound(NewPool(r, hhdm)) <==> Unused(NewPool(r, hhdm))
  {
    hide BitmapBytes;
    Division(r.length, PAGE);
  }

  class Allocator {
    const pools: seq<PagePool>

    constructor (pools: seq<PagePool>)
      requires forall i: nat :: i < |pools| ==> pools[i].Valid()
      requires forall i: nat, j: nat :: i < j < |pools| ==> pools[i] != pools[j] && pools[i].bitmap != pools[j].bitmap
      ensures this.pools == pools && Valid()
    {
      this.pools := pools;
    }

    ghost function Bitmaps(): set<object>
    {
      set p <- pools :: p.bitmap
    }

    ghost predicate Valid()
      reads pools, Bitmaps()
    {
      && (forall i: nat :: i < |pools| ==> pools[i].Valid())
      && (forall i: nat, j: nat :: i < j < |pools| ==> pools[i] != pools[j] && pools[i].bitmap != pools[j].bitmap)
    }

    ghost function Values(): (s: seq<Pool>)
      reads pools, Bitmaps()
      ensures |s| == |pools|
      ensures forall i: nat :: i < |pools| ==> s[i] == pools[i].Value()
    {
      seq(|pools|, i requires 0 <= i < |pools| reads pools, Bitmaps() => pools[i].Value())
    }

    /** page_allocate: the address of the pages, or `None` for a panic, which
        happens exactly when no pool has the budget. */
    method Allocate(request: nat) returns (address: Option<nat>)
      requires Valid()
      modifies pools, Bitmaps()
      ensures Valid()
      ensures request >= 1 ==> Hands(old(Values()), Values(), address, request)
      ensures request == 0 ==> Hands(old(Values()), Values(), address, 1)
      ensures var before, n := old(Values()), Wanted(request);
              var i := FirstPool(before, n);
              if i == |pools| then address == None && Values() == before
              else && Sound(before[i])
                   && Values() == before[i := Take(before[i], n)]
                   && address == Some(before[i].base + IndexIn(before[i], n) * PAGE)
    {
      hide FirstPool, Take, IndexIn, Sound, Busy, HandedOut;
      var pages := if request == 0 then 1 else request;
      ghost var before := Values();
      address := None;
      var i: nat := 0;
      while i < |pools| && address == None
        invariant i <= |pools| && Valid()
        invariant address == None ==> Values() == before && forall j: nat :: j < i ==> before[j].Available() < pages * PAGE
        invariant address != None ==>
                    && i < |pools| && i == FirstPool(before, pages) && Sound(before[i])
                    && Values() == before[i := Take(before[i], pages)]
                    && address == Some(before[i].base + IndexIn(before[i], pages) * PAGE)
        decreases |pools| - i, address == None
      {
        if pools[i].available < pages * PAGE {
          i := i + 1;
        } else {
          FirstPoolUnique(before, pages, i);
          address := AllocateFrom(i, pages);
        }
      }
      FirstPoolUnique(before, pages, i);
      if address != None { TakeHands(before, i, pages); }
    }

    /** page_deallocate. A caller that names an address inside a pool must not
        run past the pages its bitmap can describe. */
    method Deallocate(address: nat, pages: nat)
      requires Valid()
      requires var i := OwnerOf(Values(), address);
               i < |pools| ==> (address - pools[i].allocateBase) / PAGE + pages <= 64 * pools[i].bitmap.Length
      modifies Bitmaps()
      ensures Valid() && GivesBack(old(Values()), Values(), address, pages)
      ensures Values() == PageAllocation.Deallocate(old(Values()), address, pages)
    {
      hide OwnerOf, Sound, Busy, Release, GivesBack;
      DeallocateGivesBack(Values(), address, pages);
      ghost var before := Values();
      ghost var owner := OwnerOf(before, address);
      var i: nat := 0;
      while i < |pools| && !(pools[i].allocateBase <= address <= pools[i].allocateBase + pools[i].total)
        invariant i <= |pools| && Valid() && Values() == before
        invariant forall j: nat :: j < i ==> !Accepts(before[j], address)
      {
        i := i + 1;
      }
      OwnerUnique(before, address, i);
      if i < |pools| {
        var index := (address - pools[i].allocateBase) / PAGE;
        ReleaseFrom(i, index, pages);
      }
    }

    method ReleaseFrom(i: nat, index: nat, pages: nat)
      requires Valid() && i < |pools| && index + pages <= 64 * pools[i].bitmap.Length
      modifies pools[i].bitmap
      ensures Valid() && Values() == old(Values())[i := Release(old(Values())[i], index, pages)]
    {
      hide Sound, Busy, Release;
      pools[i].ReleaseRun(index, pages);
    }

    /** What page_allocate does with the pool it found. */
    method AllocateFrom(i: nat, pages: nat) returns (address: Option<nat>)
      requires Valid() && i < |pools| && 1 <= pages && pages * PAGE <= pools[i].available
      modifies pools[i], pools[i].bitmap
      ensures Valid() && Sound(old(Values())[i])
      ensures Values() == old(Values())[i := Take(old(Values())[i], pages)]
      ensures address == Some(old(Values())[i].base + IndexIn(old(Values())[i], pages) * PAGE)
    {
      hide IndexIn, Sound, Take;
      var found;
      if pages == 1 {
        found := pools[i].TakeSingle();
      } else {
        found := pools[i].TakeRun(pages);
      }
      address := Some(pools[i].allocateBase + found.value * PAGE);
    }
  }

  lemma {:induction false} FirstPoolUnique(pools: seq<Pool>, n: nat, i: nat)
    requires i <= |pools| && (i < |pools| ==> n * PAGE <= pools[i].Available())
    requires forall j: nat :: j < i ==> pools[j].Available() < n * PAGE
    ensures FirstPool(pools, n) == i
  {
    if i > 0 { FirstPoolUnique(pools[1..], n, i - 1); }
  }

  lemma {:induction false} OwnerUnique(pools: seq<Pool>, address: nat, i: nat)
    requires i <= |pools| && (i < |pools| ==> Accepts(pools[i], address))
    requires forall j: nat :: j < i ==> !Accepts(pools[j], address)
    ensures OwnerOf(pools, address) == i
  {
    if i > 0 { OwnerUnique(pools[1..], address, i - 1); }
  }
}
