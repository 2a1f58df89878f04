/** The address-space clone of sys_fork: every present page of the parent's
    lower half is copied to a fresh frame and mapped in a new table. */
module Fork {
  import opened Arithmetic
  import opened EntryWords
  import opened PageTables
  import opened LayerFlags
  import opened TableManager
  import opened Options

  const USER_SLOTS := 256

  // ------------------------------------------------- the clone, as a relation

  /** The parent's table is a tree and its present leaf entries point at
      allocated memory. */
  ghost predicate Parent(s: Store, parent: Table) {
    && parent.slots == USER_SLOTS
    && Tree(s, parent)
    && (forall v: nat {:trigger Leaf(s.ram, parent.root, v)} :: v < parent.Pages() && Present(Leaf(s.ram, parent.root, v)) ==>
          Leaf(s.ram, parent.root, v).frame in s.ram && Leaf(s.ram, parent.root, v).frame !in s.free)
  }

  /** Leaf entry `c` of the child is a private copy of leaf entry `e` of the
      parent: same flag bits, same page contents, a frame of its own. */
  ghost predicate Copy(ram: Ram, e: Word, c: Word, pages: set<Frame>) {
    if Present(e) then
      && Present(c) && c.low == e.low && c.high == e.high
      && c.frame in pages && c.frame in ram && e.frame in ram
      && ram[c.frame] == ram[e.frame]
    else c == ZERO
  }

  /** Frame `f` is the frame of a page the table maps. */
  ghost predicate IsPage(ram: Ram, t: Table, f: Frame) {
    exists v: nat {:trigger Leaf(ram, t.root, v)} :: v < t.Pages() && Maps(Leaf(ram, t.root, v), f)
  }

  predicate Maps(w: Word, f: Frame) {
    Present(w) && w.frame == f
  }

  /** The child table is fresh: its layers were all free in `s0`, `pages` holds
      the data frames taken so far, no other frame was taken, nothing allocated
      before has changed, and the upper half of its root repeats `upper`. */
  ghost predicate FreshTable(s0: Store, s: Store, child: Table, pages: set<Frame>, upper: Page) {
    && child.slots == USER_SLOTS
    && Tree(s, child)
    && s.ram.Keys == s0.ram.Keys && s.free <= s0.free && 0 !in s.free && s0.free <= s0.ram.Keys
    && (forall f <- s0.ram :: f !in s0.free ==> s.ram[f] == s0.ram[f])
    && (forall p: Path {:trigger Layer(s.ram, child.root, p)} :: p.In(child) && Layer(s.ram, child.root, p).Some? ==>
          Layer(s.ram, child.root, p).value in s0.free && Layer(s.ram, child.root, p).value !in pages)
    && pages <= s0.free && pages !! s.free
    && (forall f <- s0.free :: f in s.free || f in pages || IsLayer(s.ram, child, f))
    && child.root in s.ram && SameAbove(upper, s.ram[child.root], USER_SLOTS)
  }

  /** The pages below `k` are cloned and the others are still unmapped. */
  ghost predicate ClonedUpTo(s0: Store, s: Store, parent: Table, child: Table, pages: set<Frame>, upper: Page, k: nat) {
    && FreshTable(s0, s, child, pages, upper)
    && (forall v: nat {:trigger Leaf(s.ram, child.root, v)} :: v < k && v < child.Pages() ==>
          Copy(s.ram, Leaf(s0.ram, parent.root, v), Leaf(s.ram, child.root, v), pages))
    && (forall v: nat, w: nat {:trigger Leaf(s.ram, child.root, v), Leaf(s.ram, child.root, w)} ::
          v < w < k && w < child.Pages() && Present(Leaf(s.ram, child.root, v)) && Present(Leaf(s.ram, child.root, w)) ==>
          Leaf(s.ram, child.root, v).frame != Leaf(s.ram, child.root, w).frame)
    && (forall v: nat {:trigger Leaf(s.ram, child.root, v)} :: k <= v < child.Pages() ==> Leaf(s.ram, child.root, v) == ZERO)
    && (forall f <- pages :: IsPage(s.ram, child, f))
    && LinksUpTo(s0, s, parent, child, k)
  }

  /** The low flags of the link `q` of a table that maps the first `k` pages of the
      parent: the low bytes of the flags of the present pages below it. */
  ghost function LinkBits(ram: Ram, root: Frame, q: Path, k: nat): bv12 {
    if k == 0 then 0
    else
      var bits, e := LinkBits(ram, root, q, k - 1), Leaf(ram, root, k - 1);
      if Present(e) && q in Ancestors(PathOf(k - 1)) then GrantLow(bits, LayerBits(FlagsOf(e))) else bits
  }

  /** The links of the child carry exactly those bits, and no high flag. */
  ghost predicate LinksUpTo(s0: Store, s: Store, parent: Table, child: Table, k: nat) {
    forall q: Path {:trigger Entry(s.ram, child.root, q)} :: q.In(child) && q.Child? ==>
      LinkIs(Entry(s.ram, child.root, q), LinkBits(s0.ram, parent.root, q, k))
  }

  predicate LinkIs(w: Word, bits: bv12) {
    w.low == bits && w.high == 0
  }

  // ------------------------------------------------------------ small steps

  /** Memory that agrees on the layers of a table shows the same table. */
  lemma {:induction false} SameLayers(s0: Store, ram: Ram, t: Table, p: Path)
    requires Tree(s0, t) && p.In(t)
    requires ram.Keys == s0.ram.Keys
    requires forall f <- s0.ram :: f !in s0.free ==> ram[f] == s0.ram[f]
    ensures Layer(ram, t.root, p) == Layer(s0.ram, t.root, p)
  {
    if p.Child? {
      SameLayers(s0, ram, t, p.parent);
    }
  }

  /** Filling a free frame and taking it off the free set disturbs no table. */
  lemma {:induction false} TakenFrameKeepsLayers(s: Store, t: Table, f: Frame, page: Page, p: Path)
    requires Tree(s, t) && p.In(t) && f in s.free
    ensures Layer(s.ram[f := page], t.root, p) == Layer(s.ram, t.root, p)
  {
    if p.Child? {
      TakenFrameKeepsLayers(s, t, f, page, p.parent);
    }
  }

  lemma TakenFrameKeepsTable(s: Store, s': Store, t: Table, f: Frame, page: Page)
    requires Tree(s, t) && f in s.free
    requires s' == Store(s.ram[f := page], s.free - {f})
    ensures Tree(s', t) && Space(s'.ram, t) == Space(s.ram, t)
  {
    forall p: Path | p.In(t) ensures Layer(s'.ram, t.root, p) == Layer(s.ram, t.root, p) {
      TakenFrameKeepsLayers(s, t, f, page, p);
    }
    forall v: nat | v < t.Pages() ensures Leaf(s'.ram, t.root, v) == Leaf(s.ram, t.root, v) {
      PathOfIn(v, t);
    }
  }

  lemma LayersStay(ram: Ram, ram': Ram, t: Table)
    requires forall p: Path {:trigger Layer(ram', t.root, p)} ::
               p.In(t) && Layer(ram, t.root, p).Some? ==> Layer(ram', t.root, p) == Layer(ram, t.root, p)
    ensures forall g: Frame :: IsLayer(ram, t, g) ==> IsLayer(ram', t, g)
  {
    hide Layer;
    forall g: Frame | IsLayer(ram, t, g) ensures IsLayer(ram', t, g) {
      var p: Path :| p.In(t) && Layer(ram, t.root, p) == Some(g);
      assert Layer(ram', t.root, p) == Some(g);
    }
  }

  /** Taking a frame for a page copy keeps the child fresh. */
  lemma TakenFrameKeepsFresh(s0: Store, s: Store, s': Store, child: Table, pages: set<Frame>, upper: Page, f: Frame, page: Page)
    requires FreshTable(s0, s, child, pages, upper) && f in s.free
    requires s' == Store(s.ram[f := page], s.free - {f})
    ensures FreshTable(s0, s', child, pages + {f}, upper)
    ensures Space(s'.ram, child) == Space(s.ram, child)
  {
    TakenFrameKeepsTable(s, s', child, f, page);
    assert Layer(s.ram, child.root, Root) == Some(child.root) && Root.In(child);
    forall p: Path | p.In(child) ensures Layer(s'.ram, child.root, p) == Layer(s.ram, child.root, p) {
      TakenFrameKeepsLayers(s, child, f, page, p);
    }
    LayersStay(s.ram, s'.ram, child);
  }

  /** Editing the child takes frames for its layers only. */
  lemma EditTakesLayers(s0: Store, s: Store, s': Store, child: Table, pages: set<Frame>, upper: Page)
    requires FreshTable(s0, s, child, pages, upper) && Edits(s, s', child)
    ensures forall f <- s0.free :: f in s'.free || f in pages || IsLayer(s'.ram, child, f)
  {
    hide Tree, Covers, IsLayer, SameAbove;
    LayersStay(s.ram, s'.ram, child);
  }

  /** Editing the child keeps it fresh and keeps the contents of its pages. */
  lemma EditKeepsFresh(s0: Store, s: Store, s': Store, child: Table, pages: set<Frame>, upper: Page)
    requires FreshTable(s0, s, child, pages, upper)
    requires Edits(s, s', child) && Tree(s', child)
    ensures FreshTable(s0, s', child, pages, upper)
    ensures forall f <- pages :: f in s'.ram && s'.ram[f] == s.ram[f]
  {
    hide Tree, Covers;
    forall f | f in s.ram && (f !in s0.free || f in pages) ensures s'.ram[f] == s.ram[f] {
      assert forall p: Path :: p.In(child) ==> Layer(s.ram, child.root, p) != Some(f);
    }
    assert Layer(s.ram, child.root, Root) == Some(child.root) && Root.In(child);
    EditTakesLayers(s0, s, s', child, pages, upper);
  }

  /** The flag bits fork passes on: all of an entry but its address field. */
  function FlagsOf(e: Word): Flags {
    Flags(e.low, e.high)
  }

  lemma MappedCopy(f: Frame, e: Word)
    requires Present(e)
    ensures Mapped(ZERO, f, FlagsOf(e)) == Word(e.low, f, e.high)
  {
    OrPresent(e.low);
    OrZero(e.low);
    OrZero(e.high);
  }

  /** One page: a frame is taken and filled, then mapped in the child. */
  lemma CloneStep(s0: Store, s: Store, s2: Store, s3: Store, parent: Table, child: Table,
                  pages: set<Frame>, upper: Page, k: nat, f: Frame, e: Word)
    requires Parent(s0, parent) && ClonedUpTo(s0, s, parent, child, pages, upper, k)
    requires k < child.Pages() && e == Leaf(s0.ram, parent.root, k) && Present(e)
    requires f in s.free && e.frame in s.ram
    requires s2 == Store(s.ram[f := s.ram[e.frame]], s.free - {f})
    requires Edits(s2, s3, child) && Tree(s3, child)
    requires Space(s3.ram, child) == MapPage(Space(s2.ram, child), k, f, FlagsOf(e))
    requires Grants(s2.ram, s3.ram, child, LayerBits(FlagsOf(e)), Ancestors(PathOf(k)))
    ensures ClonedUpTo(s0, s3, parent, child, pages + {f}, upper, k + 1)
  {
    hide Tree, Edits, Present, Mapped, FlagsOf, LinksUpTo, Grants, LayerBits, Ancestors, IsPage, IsLayer, PathOf, SameAbove;
    var pages' := pages + {f};
    LinksGranted(s0, s, s2, s3, parent, child, k, f, s.ram[e.frame], e);
    TakenFrameKeepsFresh(s0, s, s2, child, pages, upper, f, s.ram[e.frame]);
    EditKeepsFresh(s0, s2, s3, child, pages', upper);
    MappedCopy(f, e);
    ParentFrames(s0, parent, k);
    assert Space(s.ram, child)[k] == Leaf(s.ram, child.root, k) == ZERO;
    forall v: nat | v < child.Pages()
      ensures Leaf(s3.ram, child.root, v) == if v == k then Word(e.low, f, e.high) else Leaf(s.ram, child.root, v)
    {
      assert Space(s3.ram, child)[v] == Leaf(s3.ram, child.root, v);
      assert Space(s.ram, child)[v] == Leaf(s.ram, child.root, v);
    }
    PresentDependsOnLow(e, Word(e.low, f, e.high));
    forall v: nat | v < k + 1 && v < child.Pages()
      ensures Copy(s3.ram, Leaf(s0.ram, parent.root, v), Leaf(s3.ram, child.root, v), pages')
    {
      if v < k {
        assert Copy(s.ram, Leaf(s0.ram, parent.root, v), Leaf(s.ram, child.root, v), pages);
        if Present(Leaf(s0.ram, parent.root, v)) { ParentFrames(s0, parent, v); }
      }
    }
    PagesKept(s.ram, s3.ram, child, pages, k, Word(e.low, f, e.high));
  }

  /** The links of the child after one more page. */
  lemma LinksGranted(s0: Store, s: Store, s2: Store, s3: Store, parent: Table, child: Table, k: nat, f: Frame, page: Page, e: Word)
    requires Tree(s, child) && f in s.free && s2 == Store(s.ram[f := page], s.free - {f})
    requires LinksUpTo(s0, s, parent, child, k) && e == Leaf(s0.ram, parent.root, k) && Present(e)
    requires Grants(s2.ram, s3.ram, child, LayerBits(FlagsOf(e)), Ancestors(PathOf(k)))
    ensures LinksUpTo(s0, s3, parent, child, k + 1)
  {
    forall q: Path | q.In(child) && q.Child?
      ensures LinkIs(Entry(s3.ram, child.root, q), LinkBits(s0.ram, parent.root, q, k + 1))
    {
      TakenFrameKeepsEntry(s, child, f, page, q);
      hide Tree, Entry, GrantLow, LayerBits, Ancestors, PathOf, Present, FlagsOf;
      assert LinkIs(Entry(s.ram, child.root, q), LinkBits(s0.ram, parent.root, q, k));
      assert GrantsAt(s2.ram, s3.ram, child, LayerBits(FlagsOf(e)), Ancestors(PathOf(k)), q);
    }
  }

  lemma TakenFrameKeepsEntry(s: Store, t: Table, f: Frame, page: Page, q: Path)
    requires Tree(s, t) && q.In(t) && f in s.free
    ensures Entry(s.ram[f := page], t.root, q) == Entry(s.ram, t.root, q)
  {
    if q.Child? { TakenFrameKeepsLayers(s, t, f, page, q.parent); }
  }

  /** Pages the parent does not map add nothing. */
  lemma {:induction false} LinkBitsSkip(ram: Ram, root: Frame, q: Path, k: nat, k': nat)
    requires k <= k' && forall v: nat {:trigger Leaf(ram, root, v)} :: k <= v < k' ==> !Present(Leaf(ram, root, v))
    ensures LinkBits(ram, root, q, k') == LinkBits(ram, root, q, k)
    decreases k'
  {
    if k < k' {
      assert !Present(Leaf(ram, root, k' - 1));
      LinkBitsSkip(ram, root, q, k, k' - 1);
    }
  }

  lemma GrantLowCovers(bits: bv12, low: bv12)
    ensures Covers(GrantLow(bits, low), low) && Covers(GrantLow(bits, low), bits)
  {
  }

  /** Every link on the way to a present page carries the low byte of its flags. */
  lemma {:induction false} LinkBitsCover(ram: Ram, root: Frame, q: Path, k: nat, v: nat)
    requires v < k && Present(Leaf(ram, root, v)) && q in Ancestors(PathOf(v))
    ensures Covers(LinkBits(ram, root, q, k), LayerBits(FlagsOf(Leaf(ram, root, v))))
    decreases k
  {
    hide Covers, GrantLow, LayerBits, Leaf, Ancestors, PathOf, Present, FlagsOf;
    var e := Leaf(ram, root, k - 1);
    var bits := LinkBits(ram, root, q, k - 1);
    GrantLowCovers(bits, LayerBits(FlagsOf(e)));
    if v < k - 1 {
      LinkBitsCover(ram, root, q, k - 1, v);
      if Present(e) && q in Ancestors(PathOf(k - 1)) {
        CoversTransitive(LinkBits(ram, root, q, k), bits, LayerBits(FlagsOf(Leaf(ram, root, v))));
      }
    }
  }

  /** The pages found before are still there, and the new one is. */
  lemma PagesKept(ram: Ram, ram': Ram, child: Table, pages: set<Frame>, k: nat, w: Word)
    requires k < child.Pages() && Leaf(ram, child.root, k) == ZERO && Present(w)
    requires forall v: nat {:trigger Leaf(ram', child.root, v)} :: v < child.Pages() ==>
               Leaf(ram', child.root, v) == if v == k then w else Leaf(ram, child.root, v)
    requires forall f <- pages :: IsPage(ram, child, f)
    ensures forall f <- pages + {w.frame} :: IsPage(ram', child, f)
  {
    hide Present, Leaf;
    ZeroAbsent();
    forall f | f in pages + {w.frame} ensures IsPage(ram', child, f) {
      if f == w.frame {
        assert Maps(Leaf(ram', child.root, k), f);
      } else {
        var v: nat :| v < child.Pages() && Maps(Leaf(ram, child.root, v), f);
        assert Maps(Leaf(ram', child.root, v), f);
      }
    }
  }

  lemma ParentSlots(s0: Store, parent: Table)
    requires Parent(s0, parent)
    ensures parent.slots == USER_SLOTS
  {
  }

  lemma ParentFrames(s0: Store, parent: Table, v: nat)
    requires Parent(s0, parent) && v < parent.Pages() && Present(Leaf(s0.ram, parent.root, v))
    ensures Leaf(s0.ram, parent.root, v).frame in s0.ram && Leaf(s0.ram, parent.root, v).frame !in s0.free
  {
  }

  lemma PresentDependsOnLow(e: Word, c: Word)
    requires e.low == c.low
    ensures Present(e) == Present(c)
  {
  }

  /** Pages the parent does not map are skipped. */
  lemma SkipAbsent(s0: Store, s: Store, parent: Table, child: Table, pages: set<Frame>, upper: Page, k: nat, k': nat)
    requires ClonedUpTo(s0, s, parent, child, pages, upper, k) && k <= k'
    requires forall v: nat {:trigger Leaf(s0.ram, parent.root, v)} :: k <= v < k' ==> !Present(Leaf(s0.ram, parent.root, v))
    ensures ClonedUpTo(s0, s, parent, child, pages, upper, k')
  {
    assert !Present(ZERO);
    LinksSkip(s0, s, parent, child, k, k');
    hide FreshTable, LinksUpTo;
  }

  lemma LinksSkip(s0: Store, s: Store, parent: Table, child: Table, k: nat, k': nat)
    requires LinksUpTo(s0, s, parent, child, k) && k <= k'
    requires forall v: nat {:trigger Leaf(s0.ram, parent.root, v)} :: k <= v < k' ==> !Present(Leaf(s0.ram, parent.root, v))
    ensures LinksUpTo(s0, s, parent, child, k')
  {
    hide Leaf, Present, Entry;
    forall q: Path | q.In(child) && q.Child?
      ensures LinkIs(Entry(s.ram, child.root, q), LinkBits(s0.ram, parent.root, q, k'))
    {
      LinkBitsSkip(s0.ram, parent.root, q, k, k');
    }
  }

  // ------------------------------------------------------- reading the parent

  /** What the clone reads from the parent is what it was when fork began. */
  lemma ParentUnchanged(s0: Store, s: Store, parent: Table, child: Table, pages: set<Frame>, upper: Page, p: Path)
    requires Parent(s0, parent) && FreshTable(s0, s, child, pages, upper) && p.In(parent)
    ensures Layer(s.ram, parent.root, p) == Layer(s0.ram, parent.root, p)
    ensures Layer(s.ram, parent.root, p).Some? ==>
              var f := Layer(s.ram, parent.root, p).value;
              f in s.ram && f in s0.ram && s.ram[f] == s0.ram[f]
  {
    SameLayers(s0, s.ram, parent, p);
  }

  /** No layer at `Path3(a)`, `Path2(a, b)` or `Path1(a, b, c)`: no page below it. */
  lemma AbsentSlot(ram: Ram, root: Frame, a: nat, v: nat)
    requires a < 512 && Layer(ram, root, Path3(a)).None?
    requires PageAt(a, 0, 0) <= v < PageAt(a + 1, 0, 0)
    ensures !Present(Leaf(ram, root, v))
  {
    assert v / SLOT_PAGES == a;
    assert Layer(ram, root, PathOf(v).parent.parent) == None;
    assert Layer(ram, root, PathOf(v).parent) == None;
    assert Layer(ram, root, PathOf(v)) == None;
  }

  lemma AbsentDirectory(ram: Ram, root: Frame, a: nat, b: nat, v: nat)
    requires a < 512 && b < 512 && Layer(ram, root, Path2(a, b)).None?
    requires PageAt(a, b, 0) <= v < PageAt(a, b + 1, 0)
    ensures !Present(Leaf(ram, root, v))
  {
    assert v / 0x4_0000 == a * 512 + b;
    assert v / SLOT_PAGES == a;
    assert Layer(ram, root, PathOf(v).parent) == None;
    assert Layer(ram, root, PathOf(v)) == None;
  }

  lemma AbsentTable(ram: Ram, root: Frame, a: nat, b: nat, c: nat, v: nat)
    requires a < 512 && b < 512 && c < 512 && Layer(ram, root, Path1(a, b, c)).None?
    requires PageAt(a, b, c) <= v < PageAt(a, b, c + 1)
    ensures !Present(Leaf(ram, root, v))
  {
    PathFromIndices(a, b, c, v - PageAt(a, b, c));
  }

  lemma UserPath(a: nat, b: nat, c: nat, d: nat, t: Table)
    requires t.slots == USER_SLOTS && a < USER_SLOTS && b < 512 && c < 512 && d < 512
    ensures Path3(a).In(t) && Path2(a, b).In(t) && Path1(a, b, c).In(t)
    ensures PageAt(a, b, c) + d < t.Pages()
    ensures PathOf(PageAt(a, b, c) + d) == Path1(a, b, c) && (PageAt(a, b, c) + d) % 512 == d
    ensures PageNumber(PAGE * (PageAt(a, b, c) + d)) == PageAt(a, b, c) + d
  {
    PathFromIndices(a, b, c, d);
    assert Root.In(t) && Root.Depth() == 0;
    assert Path3(a).In(t) && Path3(a).Depth() == 1;
    assert Path2(a, b).In(t) && Path2(a, b).Depth() == 2;
  }

  // ------------------------------------------------------------- the loops

  /** The body of the innermost loop for a present entry `e4`. */
  method ClonePage(m: Machine, childRoot: Frame, virtualAddress: nat, e4: Word,
                   ghost s0: Store, ghost parent: Table, ghost pages: set<Frame>, ghost upper: Page, ghost k: nat)
    returns (ok: bool, ghost pages': set<Frame>)
    requires m.Valid() && Parent(s0, parent) && k < parent.Pages()
    requires ClonedUpTo(s0, m.Now(), parent, Table(childRoot, USER_SLOTS), pages, upper, k)
    requires e4 == Leaf(s0.ram, parent.root, k) && Present(e4) && PageNumber(virtualAddress) == k
    modifies m
    ensures m.Valid()
    ensures ok ==> ClonedUpTo(s0, m.Now(), parent, Table(childRoot, USER_SLOTS), pages', upper, k + 1)
    ensures !ok ==> m.free == {}
  {
    hide ClonedUpTo, Parent, Leaf, PageNumber, Edits, MapPage, Present, Grants, Ancestors, LayerBits;
    ghost var child := Table(childRoot, USER_SLOTS);
    ghost var s := m.Now();
    CloneReads(s0, s, parent, child, pages, upper, k);
    pages' := pages;
    var f: Frame;
    ok, f := m.AllocatePage();
    if !ok { return; }
    m.ram := m.ram[f := m.ram[e4.frame]];
    ghost var s2 := m.Now();
    assert s2.ram == s.ram[f := s.ram[e4.frame]];
    TakenFrameKeepsTable(s, s2, child, f, s.ram[e4.frame]);
    ok := m.Map(childRoot, virtualAddress, f, FlagsOf(e4), child);
    if !ok { return; }
    pages' := pages + {f};
    CloneStep(s0, s, s2, m.Now(), parent, child, pages, upper, k, f, e4);
  }

  lemma CloneReads(s0: Store, s: Store, parent: Table, child: Table, pages: set<Frame>, upper: Page, k: nat)
    requires Parent(s0, parent) && ClonedUpTo(s0, s, parent, child, pages, upper, k)
    requires k < parent.Pages() && Present(Leaf(s0.ram, parent.root, k))
    ensures Leaf(s0.ram, parent.root, k).frame in s.ram && Leaf(s0.ram, parent.root, k).frame !in s.free
    ensures Tree(s, child) && FreshTable(s0, s, child, pages, upper) && parent.slots == child.slots
  {
    ParentFrames(s0, parent, k);
  }

  /** The loop over one last-level layer `l3` of the parent. */
  method CloneTable(m: Machine, childRoot: Frame, l3: Frame, i1: nat, i2: nat, i3: nat,
                    ghost s0: Store, ghost parent: Table, ghost pages: set<Frame>, ghost upper: Page)
    returns (ok: bool, ghost pages': set<Frame>)
    requires m.Valid() && Parent(s0, parent) && i1 < USER_SLOTS && i2 < 512 && i3 < 512
    requires ClonedUpTo(s0, m.Now(), parent, Table(childRoot, USER_SLOTS), pages, upper, PageAt(i1, i2, i3))
    requires Layer(s0.ram, parent.root, Path1(i1, i2, i3)) == Some(l3)
    modifies m
    ensures m.Valid()
    ensures ok ==> ClonedUpTo(s0, m.Now(), parent, Table(childRoot, USER_SLOTS), pages', upper, PageAt(i1, i2, i3 + 1))
    ensures !ok ==> m.free == {}
  {
    hide ClonedUpTo, Parent, Leaf, PageNumber, PathOf, Layer, Path1;
    ParentSlots(s0, parent);
    ok, pages' := true, pages;
    var i4: nat := 0;
    while i4 < 512
      invariant i4 <= 512 && m.Valid()
      invariant ClonedUpTo(s0, m.Now(), parent, Table(childRoot, USER_SLOTS), pages', upper, PageAt(i1, i2, i3) + i4)
    {
      ghost var k := PageAt(i1, i2, i3) + i4;
      UserPath(i1, i2, i3, i4, parent);
      TableReads(s0, m.Now(), parent, Table(childRoot, USER_SLOTS), pages', upper, k, i1, i2, i3, i4, l3);
      var e4 := m.ram[l3][i4];
      if e4.low & PRESENT != 0 {
        var virtualAddress := PAGE * (i4 + 512 * i3 + 0x4_0000 * i2 + SLOT_PAGES * i1);
        ok, pages' := ClonePage(m, childRoot, virtualAddress, e4, s0, parent, pages', upper, k);
        if !ok { return; }
      } else {
        SkipAbsent(s0, m.Now(), parent, Table(childRoot, USER_SLOTS), pages', upper, k, k + 1);
      }
      i4 := i4 + 1;
    }
  }

  lemma TableReads(s0: Store, s: Store, parent: Table, child: Table, pages: set<Frame>, upper: Page, k: nat,
                   a: nat, b: nat, c: nat, d: nat, l3: Frame)
    requires Parent(s0, parent) && ClonedUpTo(s0, s, parent, child, pages, upper, k)
    requires a < USER_SLOTS && b < 512 && c < 512 && d < 512
    requires Layer(s0.ram, parent.root, Path1(a, b, c)) == Some(l3)
    ensures l3 in s.ram && s.ram[l3][d] == Leaf(s0.ram, parent.root, PageAt(a, b, c) + d)
  {
    UserPath(a, b, c, d, parent);
    ParentUnchanged(s0, s, parent, child, pages, upper, Path1(a, b, c));
  }

  lemma LayerReads(s0: Store, s: Store, parent: Table, child: Table, pages: set<Frame>, upper: Page, k: nat,
                   p: Path, i: nat, l: Frame)
    requires Parent(s0, parent) && ClonedUpTo(s0, s, parent, child, pages, upper, k)
    requires p.In(parent) && i < 512 && Layer(s0.ram, parent.root, p) == Some(l)
    ensures l in s.ram
    ensures Layer(s0.ram, parent.root, Child(p, i)) == if Present(s.ram[l][i]) then Some(s.ram[l][i].frame) else None
  {
    ParentUnchanged(s0, s, parent, child, pages, upper, p);
  }

  lemma SkipTable(s0: Store, s: Store, parent: Table, child: Table, pages: set<Frame>, upper: Page, a: nat, b: nat, c: nat)
    requires ClonedUpTo(s0, s, parent, child, pages, upper, PageAt(a, b, c))
    requires a < 512 && b < 512 && c < 512 && Layer(s0.ram, parent.root, Path1(a, b, c)).None?
    ensures ClonedUpTo(s0, s, parent, child, pages, upper, PageAt(a, b, c + 1))
  {
    hide ClonedUpTo, Leaf, Layer;
    forall v: nat | PageAt(a, b, c) <= v < PageAt(a, b, c + 1) ensures !Present(Leaf(s0.ram, parent.root, v)) {
      AbsentTable(s0.ram, parent.root, a, b, c, v);
    }
    SkipAbsent(s0, s, parent, child, pages, upper, PageAt(a, b, c), PageAt(a, b, c + 1));
  }

  lemma SkipDirectory(s0: Store, s: Store, parent: Table, child: Table, pages: set<Frame>, upper: Page, a: nat, b: nat)
    requires ClonedUpTo(s0, s, parent, child, pages, upper, PageAt(a, b, 0))
    requires a < 512 && b < 512 && Layer(s0.ram, parent.root, Path2(a, b)).None?
    ensures ClonedUpTo(s0, s, parent, child, pages, upper, PageAt(a, b + 1, 0))
  {
    hide ClonedUpTo, Leaf, Layer;
    forall v: nat | PageAt(a, b, 0) <= v < PageAt(a, b + 1, 0) ensures !Present(Leaf(s0.ram, parent.root, v)) {
      AbsentDirectory(s0.ram, parent.root, a, b, v);
    }
    SkipAbsent(s0, s, parent, child, pages, upper, PageAt(a, b, 0), PageAt(a, b + 1, 0));
  }

  lemma SkipSlot(s0: Store, s: Store, parent: Table, child: Table, pages: set<Frame>, upper: Page, a: nat)
    requires ClonedUpTo(s0, s, parent, child, pages, upper, PageAt(a, 0, 0))
    requires a < 512 && Layer(s0.ram, parent.root, Path3(a)).None?
    ensures ClonedUpTo(s0, s, parent, child, pages, upper, PageAt(a + 1, 0, 0))
  {
    hide ClonedUpTo, Leaf, Layer;
    forall v: nat | PageAt(a, 0, 0) <= v < PageAt(a + 1, 0, 0) ensures !Present(Leaf(s0.ram, parent.root, v)) {
      AbsentSlot(s0.ram, parent.root, a, v);
    }
    SkipAbsent(s0, s, parent, child, pages, upper, PageAt(a, 0, 0), PageAt(a + 1, 0, 0));
  }

  /** The loop over one second-level layer `l2` of the parent. */
  method CloneDirectory(m: Machine, childRoot: Frame, l2: Frame, i1: nat, i2: nat,
                        ghost s0: Store, ghost parent: Table, ghost pages: set<Frame>, ghost upper: Page)
    returns (ok: bool, ghost pages': set<Frame>)
    requires m.Valid() && Parent(s0, parent) && i1 < USER_SLOTS && i2 < 512
    requires ClonedUpTo(s0, m.Now(), parent, Table(childRoot, USER_SLOTS), pages, upper, PageAt(i1, i2, 0))
    requires Layer(s0.ram, parent.root, Path2(i1, i2)) == Some(l2)
    modifies m
    ensures m.Valid()
    ensures ok ==> ClonedUpTo(s0, m.Now(), parent, Table(childRoot, USER_SLOTS), pages', upper, PageAt(i1, i2 + 1, 0))
    ensures !ok ==> m.free == {}
  {
    hide ClonedUpTo, Parent, Layer;
    ParentSlots(s0, parent);
    ok, pages' := true, pages;
    var i3: nat := 0;
    while i3 < 512
      invariant i3 <= 512 && m.Valid()
      invariant ClonedUpTo(s0, m.Now(), parent, Table(childRoot, USER_SLOTS), pages', upper, PageAt(i1, i2, i3))
    {
      UserPath(i1, i2, i3, 0, parent);
      LayerReads(s0, m.Now(), parent, Table(childRoot, USER_SLOTS), pages', upper, PageAt(i1, i2, i3), Path2(i1, i2), i3, l2);
      var e3 := m.ram[l2][i3];
      if e3.low & PRESENT != 0 {
        ok, pages' := CloneTable(m, childRoot, e3.frame, i1, i2, i3, s0, parent, pages', upper);
        if !ok { return; }
      } else {
        SkipTable(s0, m.Now(), parent, Table(childRoot, USER_SLOTS), pages', upper, i1, i2, i3);
      }
      i3 := i3 + 1;
    }
  }

  /** The loop over one third-level layer `l1` of the parent. */
  method CloneSlot(m: Machine, childRoot: Frame, l1: Frame, i1: nat,
                   ghost s0: Store, ghost parent: Table, ghost pages: set<Frame>, ghost upper: Page)
    returns (ok: bool, ghost pages': set<Frame>)
    requires m.Valid() && Parent(s0, parent) && i1 < USER_SLOTS
    requires ClonedUpTo(s0, m.Now(), parent, Table(childRoot, USER_SLOTS), pages, upper, PageAt(i1, 0, 0))
    requires Layer(s0.ram, parent.root, Path3(i1)) == Some(l1)
    modifies m
    ensures m.Valid()
    ensures ok ==> ClonedUpTo(s0, m.Now(), parent, Table(childRoot, USER_SLOTS), pages', upper, PageAt(i1 + 1, 0, 0))
    ensures !ok ==> m.free == {}
  {
    hide ClonedUpTo, Parent, Layer;
    ParentSlots(s0, parent);
    ok, pages' := true, pages;
    var i2: nat := 0;
    while i2 < 512
      invariant i2 <= 512 && m.Valid()
      invariant ClonedUpTo(s0, m.Now(), parent, Table(childRoot, USER_SLOTS), pages', upper, PageAt(i1, i2, 0))
    {
      UserPath(i1, i2, 0, 0, parent);
      LayerReads(s0, m.Now(), parent, Table(childRoot, USER_SLOTS), pages', upper, PageAt(i1, i2, 0), Path3(i1), i2, l1);
      var e2 := m.ram[l1][i2];
      if e2.low & PRESENT != 0 {
        ok, pages' := CloneDirectory(m, childRoot, e2.frame, i1, i2, s0, parent, pages', upper);
        if !ok { return; }
      } else {
        SkipDirectory(s0, m.Now(), parent, Table(childRoot, USER_SLOTS), pages', upper, i1, i2);
      }
      i2 := i2 + 1;
    }
  }

  // ------------------------------------------------------- the whole clone

  /** What sys_fork promises about the child's address space, with `upper` the
      root layer of the bootstrap table. */
  ghost predicate Forked(s0: Store, s: Store, parent: Table, child: Table, upper: Page) {
    && child.slots == USER_SLOTS && child.root in s0.free
    && Tree(s, child)
    && s.ram.Keys == s0.ram.Keys && s.free <= s0.free
    // nothing that was allocated before has changed
    && (forall f <- s0.ram :: f !in s0.free ==> s.ram[f] == s0.ram[f])
    // the upper half of the root repeats the bootstrap table
    && child.root in s.ram && SameAbove(upper, s.ram[child.root], USER_SLOTS)
    // a page is present in the child iff it is in the parent, with the same
    // flags and contents, in a frame that was free
    && (forall v: nat {:trigger Leaf(s.ram, child.root, v)} :: v < child.Pages() ==>
          Copy(s.ram, Leaf(s0.ram, parent.root, v), Leaf(s.ram, child.root, v), s0.free - s.free))
    // no two pages share a frame, and no page sits on a layer of the child
    && (forall v: nat, w: nat {:trigger Leaf(s.ram, child.root, v), Leaf(s.ram, child.root, w)} ::
          v < w < child.Pages() && Present(Leaf(s.ram, child.root, v)) && Present(Leaf(s.ram, child.root, w)) ==>
          Leaf(s.ram, child.root, v).frame != Leaf(s.ram, child.root, w).frame)
    && (forall v: nat {:trigger Leaf(s.ram, child.root, v)} :: v < child.Pages() && Present(Leaf(s.ram, child.root, v)) ==>
          !IsLayer(s.ram, child, Leaf(s.ram, child.root, v).frame))
    // every link carries exactly the low bytes of the flags of the pages below it,
    // so every page can be used as its own flags say
    && LinksUpTo(s0, s, parent, child, child.Pages())
    && (forall v: nat {:trigger Leaf(s.ram, child.root, v)} :: v < child.Pages() && Present(Leaf(s.ram, child.root, v)) ==>
          PathAllows(s.ram, child.root, PathOf(v), LayerBits(FlagsOf(Leaf(s0.ram, parent.root, v)))))
    // every frame taken is a layer or a page of the child
    && (forall f <- s0.free :: f in s.free || IsLayer(s.ram, child, f) || IsPage(s.ram, child, f))
    // the parent's address space is what it was
    && Tree(s, parent) && Space(s.ram, parent) == Space(s0.ram, parent)
  }

  lemma ClonedAll(s0: Store, s: Store, parent: Table, child: Table, pages: set<Frame>, upper: Page, k: nat)
    requires Parent(s0, parent) && child.slots == USER_SLOTS && k == child.Pages()
    requires ClonedUpTo(s0, s, parent, child, pages, upper, k)
    ensures Forked(s0, s, parent, child, upper)
  {
    assert Layer(s.ram, child.root, Root) == Some(child.root) && Root.In(child);
    ParentKept(s0, s, parent);
    hide Tree, Space, LinksUpTo, PathAllows, LayerBits, FlagsOf;
    forall v: nat | v < child.Pages()
      ensures Copy(s.ram, Leaf(s0.ram, parent.root, v), Leaf(s.ram, child.root, v), s0.free - s.free)
      ensures Present(Leaf(s.ram, child.root, v)) ==>
                && !IsLayer(s.ram, child, Leaf(s.ram, child.root, v).frame)
                && PathAllows(s.ram, child.root, PathOf(v), LayerBits(FlagsOf(Leaf(s0.ram, parent.root, v))))
    {
      var c := Leaf(s.ram, child.root, v);
      assert Copy(s.ram, Leaf(s0.ram, parent.root, v), c, pages);
      ZeroAbsent();
      if Present(c) { PageUsable(s0, s, parent, child, v); }
    }
  }

  /** A page of the child can be used as its flags say. */
  lemma PageUsable(s0: Store, s: Store, parent: Table, child: Table, v: nat)
    requires v < child.Pages() && child.slots <= 512 && LinksUpTo(s0, s, parent, child, child.Pages())
    requires Present(Leaf(s0.ram, parent.root, v)) && Present(Leaf(s.ram, child.root, v))
    ensures PathAllows(s.ram, child.root, PathOf(v), LayerBits(FlagsOf(Leaf(s0.ram, parent.root, v))))
  {
    PathOfIn(v, child);
    ZeroAbsent();
    var low := LayerBits(FlagsOf(Leaf(s0.ram, parent.root, v)));
    assert Layer(s.ram, child.root, PathOf(v)).Some?;
    hide Covers, Present, LayerBits, FlagsOf, LinkBits, Leaf;
    forall q: Path | q in Ancestors(PathOf(v)) ensures Covers(Entry(s.ram, child.root, q).low, low) {
      AncestorIn(PathOf(v), q, child);
      LinkBitsCover(s0.ram, parent.root, q, child.Pages(), v);
      assert LinkIs(Entry(s.ram, child.root, q), LinkBits(s0.ram, parent.root, q, child.Pages()));
    }
    AllowedByEntries(s.ram, child.root, PathOf(v), low);
  }

  lemma {:induction false} AncestorIn(p: Path, q: Path, t: Table)
    requires p.In(t) && q in Ancestors(p)
    ensures q.In(t) && q.Child?
  {
    if q != p { AncestorIn(p.parent, q, t); }
  }

  lemma {:induction false} AllowedByEntries(ram: Ram, root: Frame, p: Path, low: bv12)
    requires Layer(ram, root, p).Some? && forall q: Path :: q in Ancestors(p) ==> Covers(Entry(ram, root, q).low, low)
    ensures PathAllows(ram, root, p, low)
  {
    hide Covers;
    if p.Child? {
      AllowedByEntries(ram, root, p.parent, low);
      assert p in Ancestors(p);
    }
  }

  lemma ZeroAbsent()
    ensures !Present(ZERO)
  {
  }

  lemma ParentKept(s0: Store, s: Store, parent: Table)
    requires Tree(s0, parent) && s.ram.Keys == s0.ram.Keys && s.free <= s0.free
    requires forall f <- s0.ram :: f !in s0.free ==> s.ram[f] == s0.ram[f]
    ensures Tree(s, parent) && Space(s.ram, parent) == Space(s0.ram, parent)
  {
    forall p: Path | p.In(parent) ensures Layer(s.ram, parent.root, p) == Layer(s0.ram, parent.root, p) {
      SameLayers(s0, s.ram, parent, p);
    }
    forall v: nat | v < parent.Pages() ensures Leaf(s.ram, parent.root, v) == Leaf(s0.ram, parent.root, v) {
      PathOfIn(v, parent);
    }
  }

  /** A new root layer whose lower half is still zero. */
  lemma EmptyTable(s0: Store, s: Store, parent: Table, child: Table, upper: Page)
    requires child.slots == USER_SLOTS && child.root in s0.free && child.root != 0
    requires s0.free <= s0.ram.Keys && 0 !in s0.free
    requires s.free == s0.free - {child.root} && s.ram.Keys == s0.ram.Keys
    requires forall f <- s0.ram :: f != child.root ==> s.ram[f] == s0.ram[f]
    requires forall i: nat :: i < USER_SLOTS ==> s.ram[child.root][i] == ZERO
    requires SameAbove(upper, s.ram[child.root], USER_SLOTS)
    ensures ClonedUpTo(s0, s, parent, child, {}, upper, 0)
  {
    forall p: Path | p.In(child) ensures Layer(s.ram, child.root, p) == if p == Root then Some(child.root) else None {
      OnlyRoot(s.ram, child, p);
    }
    assert Layer(s.ram, child.root, Root) == Some(child.root) && Root.In(child);
    forall v: nat | v < child.Pages() ensures Leaf(s.ram, child.root, v) == ZERO {
      PathOfIn(v, child);
    }
    forall q: Path | q.In(child) && q.Child? ensures Entry(s.ram, child.root, q) == ZERO {
      assert Layer(s.ram, child.root, q.parent) == if q.parent == Root then Some(child.root) else None;
    }
  }

  lemma {:induction false} OnlyRoot(ram: Ram, t: Table, p: Path)
    requires t.root in ram && t.slots <= 512 && p.In(t)
    requires forall i: nat :: i < t.slots ==> ram[t.root][i] == ZERO
    ensures Layer(ram, t.root, p) == if p == Root then Some(t.root) else None
  {
    ZeroAbsent();
    if p.Child? { OnlyRoot(ram, t, p.parent); }
  }

  /** sys_fork, from the allocation of the child's table to its last page. */
  method CloneAddressSpace(m: Machine, parentRoot: Frame, bootstrapRoot: Frame, ghost parent: Table)
    returns (ok: bool, childRoot: Frame)
    requires m.Valid() && parent == Table(parentRoot, USER_SLOTS) && Parent(m.Now(), parent)
    requires bootstrapRoot in m.ram && bootstrapRoot !in m.free
    modifies m
    ensures m.Valid()
    ensures ok ==> Forked(old(m.Now()), m.Now(), parent, Table(childRoot, USER_SLOTS), old(m.ram)[bootstrapRoot])
    ensures !ok ==> m.free == {}
  {
    hide ClonedUpTo, Parent, Layer, Forked;
    ghost var s0 := m.Now();
    ghost var upper := m.ram[bootstrapRoot];
    ok, childRoot := m.AllocatePage();
    if !ok { return; }
    ghost var child := Table(childRoot, USER_SLOTS);
    var i: nat := 256;
    while i <= 511
      invariant 256 <= i <= 512 && m.Valid() && m.free == s0.free - {childRoot} && m.ram.Keys == s0.ram.Keys
      invariant forall f <- s0.ram :: f != childRoot ==> m.ram[f] == s0.ram[f]
      invariant forall j: nat :: j < 256 ==> m.ram[childRoot][j] == ZERO
      invariant forall j: nat :: 256 <= j < i ==> m.ram[childRoot][j] == upper[j]
    {
      m.SetEntry(childRoot, i, m.ram[bootstrapRoot][i]);
      i := i + 1;
    }
    EmptyTable(s0, m.Now(), parent, child, upper);
    RootLayer(s0, parent);
    ok := CloneSlots(m, childRoot, parentRoot, s0, parent, upper);
  }

  lemma RootLayer(s0: Store, parent: Table)
    ensures Layer(s0.ram, parent.root, Root) == Some(parent.root)
  {
  }

  /** The outermost loop, over the lower half of the parent's root. */
  method CloneSlots(m: Machine, childRoot: Frame, parentRoot: Frame,
                    ghost s0: Store, ghost parent: Table, ghost upper: Page)
    returns (ok: bool)
    requires m.Valid() && parent == Table(parentRoot, USER_SLOTS) && Parent(s0, parent)
    requires ClonedUpTo(s0, m.Now(), parent, Table(childRoot, USER_SLOTS), {}, upper, 0)
    modifies m
    ensures m.Valid()
    ensures ok ==> Forked(s0, m.Now(), parent, Table(childRoot, USER_SLOTS), upper)
    ensures !ok ==> m.free == {}
  {
    hide ClonedUpTo, Parent, Layer, Forked;
    ok := true;
    ghost var pages: set<Frame> := {};
    var i1: nat := 0;
    while i1 < 256
      invariant i1 <= 256 && m.Valid()
      invariant ClonedUpTo(s0, m.Now(), parent, Table(childRoot, USER_SLOTS), pages, upper, PageAt(i1, 0, 0))
    {
      UserPath(i1, 0, 0, 0, parent);
      RootLayer(s0, parent);
      LayerReads(s0, m.Now(), parent, Table(childRoot, USER_SLOTS), pages, upper, PageAt(i1, 0, 0), Root, i1, parentRoot);
      var e1 := m.ram[parentRoot][i1];
      if e1.low & PRESENT != 0 {
        ok, pages := CloneSlot(m, childRoot, e1.frame, i1, s0, parent, pages, upper);
        if !ok { return; }
      } else {
        SkipSlot(s0, m.Now(), parent, Table(childRoot, USER_SLOTS), pages, upper, i1);
      }
      i1 := i1 + 1;
    }
    ClonedAll(s0, m.Now(), parent, Table(childRoot, USER_SLOTS), pages, upper, PageAt(256, 0, 0));
  }
}
