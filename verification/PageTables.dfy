/** The 4-level page tables of the kernel, held in simulated physical memory.

    Physical memory maps a frame number to the 512 words of that frame, so a
    frame serves as a table layer and as a data page alike. `Layer` and `Leaf`
    are the reference walk over that memory; this module proves how one write
    to an entry moves the tree of layers and the leaf entries. */
module PageTables {
  import opened Arithmetic
  import opened EntryWords
  import opened Options

  const SPACE_PAGES := 0x10_0000_0000  // 2^36 pages in the 48-bit space
  const SLOT_PAGES := 0x800_0000       // 2^27 pages under one root entry

  type Page = s: seq<Word> | |s| == 512 witness seq(512, _ => ZERO)
  type Ram = map<Frame, Page>

  const ZERO_PAGE: Page := seq(512, _ => ZERO)

  /** Physical memory and the frames the page allocator can still hand out. */
  datatype Store = Store(ram: Ram, free: set<Frame>)

  /** A page table: its root layer, and how many root slots it owns. The
      bootstrap table owns all 512. A user table owns the lower 256; its upper
      half repeats the entries of the bootstrap table. */
  datatype Table = Table(root: Frame, slots: nat) {
    function Pages(): nat {
      slots * SLOT_PAGES
    }
  }

  // ---------------------------------------------------------------- paths

  /** A position in the radix tree: the root layer, or child `index` of a layer. */
  datatype Path = Root | Child(parent: Path, index: nat) {
    function Depth(): nat {
      if Root? then 0 else 1 + parent.Depth()
    }

    /** The paths a table owns: at most three levels below its root. */
    predicate In(t: Table) {
      Root? || (parent.In(t) && parent.Depth() < 3 && index < 512 && (parent.Root? ==> index < t.slots))
    }
  }

  /** The path of the last-level layer that holds page `v`. */
  function PathOf(v: nat): Path {
    Child(Child(Child(Root, v / SLOT_PAGES), v / 0x4_0000 % 512), v / 512 % 512)
  }

  lemma PathOfIn(v: nat, t: Table)
    requires v < t.Pages() && t.slots <= 512
    ensures PathOf(v).In(t) && PathOf(v).Depth() == 3
    ensures PathOf(v).parent.In(t) && PathOf(v).parent.Depth() == 2
    ensures PathOf(v).parent.parent.In(t) && PathOf(v).parent.parent.Depth() == 1
  {
    assert v / SLOT_PAGES < t.slots;
    var p3 := Child(Root, v / SLOT_PAGES);
    assert Root.In(t) && Root.Depth() == 0;
    assert p3.In(t) && p3.Depth() == 1;
    var p2 := Child(p3, v / 0x4_0000 % 512);
    assert p2.In(t) && p2.Depth() == 2;
  }

  lemma PathOfInjective(v: nat, w: nat)
    requires PathOf(v) == PathOf(w) && v % 512 == w % 512
    ensures v == w
  {
    assert v / 512 / 512 == v / 0x4_0000 && w / 512 / 512 == w / 0x4_0000;
    assert v / 0x4_0000 / 512 == v / SLOT_PAGES && w / 0x4_0000 / 512 == w / SLOT_PAGES;
  }

  // ------------------------------------------------------- reference walk

  /** The frame of the layer at `p`, when every entry on the way is present. */
  ghost function Layer(ram: Ram, root: Frame, p: Path): Option<Frame> {
    match p
    case Root => Some(root)
    case Child(q, i) =>
      var up := Layer(ram, root, q);
      if up.Some? && up.value in ram && i < 512 && Present(ram[up.value][i])
      then Some(ram[up.value][i].frame) else None
  }

  /** The leaf entry of page `v`; the zero word when a layer is missing. */
  ghost function Leaf(ram: Ram, root: Frame, v: nat): Word {
    var l := Layer(ram, root, PathOf(v));
    if l.Some? && l.value in ram then ram[l.value][v % 512] else ZERO
  }

  /** The leaf entries of all the pages a table owns, in page order. */
  ghost function Space(ram: Ram, t: Table): (s: seq<Word>)
    ensures |s| == t.Pages()
    ensures forall v: nat {:trigger s[v]} {:trigger Leaf(ram, t.root, v)} :: v < t.Pages() ==> s[v] == Leaf(ram, t.root, v)
  {
    seq(t.Pages(), v => if v >= 0 then Leaf(ram, t.root, v) else ZERO)
  }

  ghost predicate IsLayer(ram: Ram, t: Table, f: Frame) {
    exists p: Path :: p.In(t) && Layer(ram, t.root, p) == Some(f)
  }

  /** The layers of a table form a tree of allocated frames: none is shared,
      none is still free, and an entry that is not present is zero. */
  ghost predicate Tree(s: Store, t: Table) {
    && 0 < t.slots <= 512
    && (forall p: Path {:trigger Layer(s.ram, t.root, p)} :: p.In(t) && Layer(s.ram, t.root, p).Some? ==>
          var f := Layer(s.ram, t.root, p).value;
          f != 0 && f in s.ram && f !in s.free)
    && (forall p: Path, q: Path {:trigger Layer(s.ram, t.root, p), Layer(s.ram, t.root, q)} ::
          p.In(t) && q.In(t) && Layer(s.ram, t.root, p).Some? && Layer(s.ram, t.root, p) == Layer(s.ram, t.root, q) ==> p == q)
    && (forall p: Path, i: nat {:trigger p.In(t), s.ram[Layer(s.ram, t.root, p).value][i]} ::
          p.In(t) && Layer(s.ram, t.root, p).Some? && i < 512 && (p.Root? ==> i < t.slots) &&
          Layer(s.ram, t.root, p).value in s.ram && !Present(s.ram[Layer(s.ram, t.root, p).value][i]) ==>
          s.ram[Layer(s.ram, t.root, p).value][i] == ZERO)
  }

  // ------------------------------------------- how one write moves the tree

  function Put(ram: Ram, f: Frame, i: nat, w: Word): Ram
    requires f in ram && i < 512
  {
    ram[f := ram[f][i := w]]
  }

  lemma PutTwice(ram: Ram, f: Frame, i: nat, w1: Word, w2: Word)
    requires f in ram && i < 512
    ensures Put(Put(ram, f, i, w1), f, i, w2) == Put(ram, f, i, w2)
  {
    assert ram[f][i := w1][i := w2] == ram[f][i := w2];
  }

  /** Rewriting a present entry without touching what it points to leaves every
      layer where it was. */
  lemma {:induction false} SameFrameKeepsLayers(ram: Ram, root: Frame, f: Frame, i: nat, w: Word, q: Path)
    requires f in ram && i < 512
    requires Present(ram[f][i]) && Present(w) && w.frame == ram[f][i].frame
    ensures Layer(Put(ram, f, i, w), root, q) == Layer(ram, root, q)
  {
    if q.Child? {
      SameFrameKeepsLayers(ram, root, f, i, w, q.parent);
    }
  }

  /** Hanging a fresh zeroed layer `g` under a non-present entry adds exactly
      one layer, at the path of that entry. */
  lemma {:induction false} FreshLayerAddsOne(s: Store, t: Table, p: Path, i: nat, g: Frame, w: Word, q: Path)
    requires Tree(s, t)
    requires p.Depth() < 3 && Child(p, i).In(t)
    requires Layer(s.ram, t.root, p).Some?
    requires g in s.free && g in s.ram
    requires !Present(s.ram[Layer(s.ram, t.root, p).value][i])
    requires Present(w) && w.frame == g
    requires q.In(t)
    ensures Layer(Put(s.ram[g := ZERO_PAGE], Layer(s.ram, t.root, p).value, i, w), t.root, q)
            == if q == Child(p, i) then Some(g) else Layer(s.ram, t.root, q)
  {
    var f := Layer(s.ram, t.root, p).value;
    assert f != g;
    if q.Child? {
      FreshLayerAddsOne(s, t, p, i, g, w, q.parent);
      var up := Layer(s.ram, t.root, q.parent);
      if q.parent == Child(p, i) {
        assert Layer(s.ram, t.root, q.parent) == None;
      } else if up.Some? && up.value == f {
        assert q.parent == p;
      }
    }
  }

  lemma SameFrameKeepsTree(s: Store, t: Table, p: Path, i: nat, w: Word)
    requires Tree(s, t)
    requires p.Depth() < 3 && Child(p, i).In(t)
    requires Layer(s.ram, t.root, p).Some?
    requires Layer(s.ram, t.root, p).value in s.ram
    requires Present(s.ram[Layer(s.ram, t.root, p).value][i])
    requires Present(w) && w.frame == s.ram[Layer(s.ram, t.root, p).value][i].frame
    ensures var ram' := Put(s.ram, Layer(s.ram, t.root, p).value, i, w);
            Tree(s.(ram := ram'), t) && Space(ram', t) == Space(s.ram, t)
  {
    var f := Layer(s.ram, t.root, p).value;
    var ram' := Put(s.ram, f, i, w);
    forall q: Path ensures Layer(ram', t.root, q) == Layer(s.ram, t.root, q) {
      SameFrameKeepsLayers(s.ram, t.root, f, i, w, q);
    }
    forall v: nat | v < t.Pages() ensures Leaf(ram', t.root, v) == Leaf(s.ram, t.root, v) {
      PathOfIn(v, t);
    }
  }

  lemma FreshLayerKeepsTree(s: Store, t: Table, p: Path, i: nat, g: Frame, w: Word)
    requires Tree(s, t)
    requires p.Depth() < 3 && Child(p, i).In(t)
    requires Layer(s.ram, t.root, p).Some?
    requires g in s.free && g in s.ram && g != 0
    requires !Present(s.ram[Layer(s.ram, t.root, p).value][i])
    requires Present(w) && w.frame == g
    ensures var ram' := Put(s.ram[g := ZERO_PAGE], Layer(s.ram, t.root, p).value, i, w);
            Tree(Store(ram', s.free - {g}), t) && Space(ram', t) == Space(s.ram, t)
  {
    var f := Layer(s.ram, t.root, p).value;
    var ram' := Put(s.ram[g := ZERO_PAGE], f, i, w);
    forall q: Path | q.In(t)
      ensures Layer(ram', t.root, q) == if q == Child(p, i) then Some(g) else Layer(s.ram, t.root, q)
    {
      FreshLayerAddsOne(s, t, p, i, g, w, q);
    }
    assert Layer(s.ram, t.root, Child(p, i)) == None;
    forall v: nat | v < t.Pages() ensures Leaf(ram', t.root, v) == Leaf(s.ram, t.root, v) {
      PathOfIn(v, t);
    }
  }

  /** Writing the leaf entry of page `v` in its last-level layer changes that
      page and no other. */
  lemma {:induction false} LeafWriteKeepsLayers(s: Store, t: Table, v: nat, w: Word, q: Path)
    requires Tree(s, t)
    requires v < t.Pages()
    requires Layer(s.ram, t.root, PathOf(v)).Some?
    requires Layer(s.ram, t.root, PathOf(v)).value in s.ram
    requires q.In(t)
    ensures Layer(Put(s.ram, Layer(s.ram, t.root, PathOf(v)).value, v % 512, w), t.root, q) == Layer(s.ram, t.root, q)
  {
    if q.Child? {
      PathOfIn(v, t);
      LeafWriteKeepsLayers(s, t, v, w, q.parent);
      var up := Layer(s.ram, t.root, q.parent);
    }
  }

  lemma LeafWriteAt(s: Store, t: Table, v: nat, w: Word, u: nat)
    requires Tree(s, t)
    requires v < t.Pages() && u < t.Pages()
    requires Layer(s.ram, t.root, PathOf(v)).Some?
    requires Layer(s.ram, t.root, PathOf(v)).value in s.ram
    ensures Leaf(Put(s.ram, Layer(s.ram, t.root, PathOf(v)).value, v % 512, w), t.root, u)
            == if u == v then w else Leaf(s.ram, t.root, u)
  {
    PathOfIn(v, t);
    PathOfIn(u, t);
    LeafWriteKeepsLayers(s, t, v, w, PathOf(u));
    var l := Layer(s.ram, t.root, PathOf(u));
    if u != v && l == Layer(s.ram, t.root, PathOf(v)) {
      assert u % 512 != v % 512 by { if u % 512 == v % 512 { PathOfInjective(u, v); } }
    }
  }

  lemma LeafWriteUpdatesSpace(s: Store, t: Table, v: nat, w: Word)
    requires Tree(s, t)
    requires v < t.Pages()
    requires Layer(s.ram, t.root, PathOf(v)).Some?
    requires Layer(s.ram, t.root, PathOf(v)).value in s.ram
    requires Present(w)
    ensures var ram' := Put(s.ram, Layer(s.ram, t.root, PathOf(v)).value, v % 512, w);
            Tree(s.(ram := ram'), t) && Space(ram', t) == Space(s.ram, t)[v := w]
  {
    var ram' := Put(s.ram, Layer(s.ram, t.root, PathOf(v)).value, v % 512, w);
    assert Space(ram', t) == Space(s.ram, t)[v := w] by {
      forall u: nat | u < t.Pages() ensures Leaf(ram', t.root, u) == if u == v then w else Leaf(s.ram, t.root, u) {
        LeafWriteAt(s, t, v, w, u);
      }
    }
    hide Leaf;
    forall q: Path | q.In(t) ensures Layer(ram', t.root, q) == Layer(s.ram, t.root, q) {
      LeafWriteKeepsLayers(s, t, v, w, q);
    }
  }

  // ------------------------------------------------ what a table edit keeps

  /** An edit of one table touches only the layers it had and frames it took
      from the free set, and every frame it took is now a layer of the table;
      layers stay in place and flag bits only accumulate. */
  ghost predicate Edits(s0: Store, s1: Store, t: Table) {
    && s1.ram.Keys == s0.ram.Keys
    && s1.free <= s0.free
    && (forall f <- s0.free :: f in s1.free || IsLayer(s1.ram, t, f))
    && (forall f <- s0.ram :: f !in s0.free && !IsLayer(s0.ram, t, f) ==> s1.ram[f] == s0.ram[f])
    && (forall q: Path {:trigger Layer(s1.ram, t.root, q)} {:trigger Layer(s0.ram, t.root, q)} ::
          q.In(t) && Layer(s0.ram, t.root, q).Some? ==> Layer(s1.ram, t.root, q) == Layer(s0.ram, t.root, q))
    && (forall q: Path {:trigger Layer(s1.ram, t.root, q)} ::
          q.In(t) && Layer(s0.ram, t.root, q).None? && Layer(s1.ram, t.root, q).Some? ==>
          Layer(s1.ram, t.root, q).value in s0.free && Layer(s1.ram, t.root, q).value !in s1.free)
    && (forall f <- s0.ram, i: nat {:trigger s1.ram[f][i]} :: f !in s0.free && i < 512 ==>
          Covers(s1.ram[f][i].low, s0.ram[f][i].low))
    && (t.root in s0.ram ==> SameAbove(s0.ram[t.root], s1.ram[t.root], t.slots))
  }

  /** The root entries from slot `n` up, which a table does not own. */
  ghost predicate SameAbove(a: Page, b: Page, n: nat) {
    forall i: nat :: n <= i < 512 ==> a[i] == b[i]
  }

  lemma EditsNothing(s: Store, t: Table)
    ensures Edits(s, s, t)
  {
    forall f, i: nat | f in s.ram && i < 512 ensures Covers(s.ram[f][i].low, s.ram[f][i].low) {
      CoversItself(s.ram[f][i].low);
    }
  }

  lemma EditsTransitive(s0: Store, s1: Store, s2: Store, t: Table)
    requires Edits(s0, s1, t) && Edits(s1, s2, t)
    ensures Edits(s0, s2, t)
  {
    forall f | f in s0.free && f !in s2.free ensures IsLayer(s2.ram, t, f) {
      if f !in s1.free {
        var q: Path :| q.In(t) && Layer(s1.ram, t.root, q) == Some(f);
        assert Layer(s2.ram, t.root, q) == Some(f);
      }
    }
    forall f | f in s0.ram && f !in s0.free && !IsLayer(s0.ram, t, f) ensures s2.ram[f] == s0.ram[f] {
      assert forall q: Path :: q.In(t) ==> Layer(s1.ram, t.root, q) != Some(f);
    }
    forall f, i: nat | f in s0.ram && f !in s0.free && i < 512 ensures Covers(s2.ram[f][i].low, s0.ram[f][i].low) {
      CoversTransitive(s2.ram[f][i].low, s1.ram[f][i].low, s0.ram[f][i].low);
    }
  }

  /** One entry written in a layer of the table, with every layer left in place. */
  lemma EntryWriteEdits(s: Store, t: Table, f: Frame, i: nat, w: Word)
    requires f in s.ram && i < 512 && IsLayer(s.ram, t, f) && (f == t.root ==> i < t.slots)
    requires forall q: Path :: q.In(t) ==> Layer(Put(s.ram, f, i, w), t.root, q) == Layer(s.ram, t.root, q)
    requires Covers(w.low, s.ram[f][i].low)
    ensures Edits(s, s.(ram := Put(s.ram, f, i, w)), t)
  {
    var ram' := Put(s.ram, f, i, w);
    forall g, j: nat | g in s.ram && j < 512 ensures Covers(ram'[g][j].low, s.ram[g][j].low) {
      CoversItself(s.ram[g][j].low);
    }
  }

  lemma SameFrameEdits(s: Store, t: Table, p: Path, i: nat, w: Word)
    requires Tree(s, t) && Child(p, i).In(t) && Layer(s.ram, t.root, p).Some?
    requires Layer(s.ram, t.root, p).value in s.ram && i < 512
    requires Present(s.ram[Layer(s.ram, t.root, p).value][i])
    requires Present(w) && w.frame == s.ram[Layer(s.ram, t.root, p).value][i].frame
    requires Covers(w.low, s.ram[Layer(s.ram, t.root, p).value][i].low)
    ensures Edits(s, s.(ram := Put(s.ram, Layer(s.ram, t.root, p).value, i, w)), t)
  {
    var f := Layer(s.ram, t.root, p).value;
    hide Edits, Covers;
    forall q: Path ensures Layer(Put(s.ram, f, i, w), t.root, q) == Layer(s.ram, t.root, q) {
      SameFrameKeepsLayers(s.ram, t.root, f, i, w, q);
    }
    assert IsLayer(s.ram, t, f);
    assert Layer(s.ram, t.root, Root) == Some(t.root);
    EntryWriteEdits(s, t, f, i, w);
  }

  lemma LeafWriteEdits(s: Store, t: Table, v: nat, w: Word)
    requires Tree(s, t)
    requires v < t.Pages()
    requires Layer(s.ram, t.root, PathOf(v)).Some?
    requires Layer(s.ram, t.root, PathOf(v)).value in s.ram
    requires Covers(w.low, s.ram[Layer(s.ram, t.root, PathOf(v)).value][v % 512].low)
    ensures Edits(s, s.(ram := Put(s.ram, Layer(s.ram, t.root, PathOf(v)).value, v % 512, w)), t)
  {
    var f := Layer(s.ram, t.root, PathOf(v)).value;
    PathOfIn(v, t);
    forall q: Path | q.In(t) ensures Layer(Put(s.ram, f, v % 512, w), t.root, q) == Layer(s.ram, t.root, q) {
      LeafWriteKeepsLayers(s, t, v, w, q);
    }
    assert Layer(s.ram, t.root, Root) == Some(t.root);
    EntryWriteEdits(s, t, f, v % 512, w);
  }

  lemma FreshLayerEdits(s: Store, t: Table, p: Path, i: nat, g: Frame, w: Word)
    requires Tree(s, t)
    requires p.Depth() < 3 && Child(p, i).In(t)
    requires Layer(s.ram, t.root, p).Some?
    requires g in s.free && g in s.ram && g != 0
    requires !Present(s.ram[Layer(s.ram, t.root, p).value][i])
    requires Present(w) && w.frame == g
    ensures var f := Layer(s.ram, t.root, p).value;
            Edits(s, Store(Put(s.ram[g := ZERO_PAGE], f, i, w), s.free - {g}), t)
  {
    var f := Layer(s.ram, t.root, p).value;
    assert f in s.ram && s.ram[f][i] == ZERO && f !in s.free;
    forall q: Path | q.In(t)
      ensures Layer(Put(s.ram[g := ZERO_PAGE], f, i, w), t.root, q) == if q == Child(p, i) then Some(g) else Layer(s.ram, t.root, q)
    {
      FreshLayerAddsOne(s, t, p, i, g, w, q);
    }
    assert IsLayer(s.ram, t, f);
    assert Layer(s.ram, t.root, Root) == Some(t.root);
    assert f == t.root ==> p == Root;
    AddedLayerEdits(s, t, Child(p, i), f, i, g, w);
  }

  /** One more layer, in place of a zero entry of a layer, is an edit. */
  lemma AddedLayerEdits(s: Store, t: Table, at: Path, f: Frame, i: nat, g: Frame, w: Word)
    requires f in s.ram && f !in s.free && i < 512 && s.ram[f][i] == ZERO && g in s.free && g in s.ram
    requires IsLayer(s.ram, t, f) && (f == t.root ==> i < t.slots) && g != t.root
    requires at.In(t) && Layer(s.ram, t.root, at).None?
    requires forall q: Path {:trigger Layer(Put(s.ram[g := ZERO_PAGE], f, i, w), t.root, q)} :: q.In(t) ==>
               Layer(Put(s.ram[g := ZERO_PAGE], f, i, w), t.root, q) == if q == at then Some(g) else Layer(s.ram, t.root, q)
    ensures Edits(s, Store(Put(s.ram[g := ZERO_PAGE], f, i, w), s.free - {g}), t)
  {
    hide Layer, Covers;
    var ram' := Put(s.ram[g := ZERO_PAGE], f, i, w);
    assert Layer(ram', t.root, at) == Some(g);
    forall h, j: nat | h in s.ram && h !in s.free && j < 512 ensures Covers(ram'[h][j].low, s.ram[h][j].low) {
      CoversItself(s.ram[h][j].low);
      CoversZero(w.low);
    }
  }

  /** Every entry on the way to the layer at `p` carries the bits `low`. */
  ghost predicate PathAllows(ram: Ram, root: Frame, p: Path, low: bv12) {
    p.Root? ||
    (var up := Layer(ram, root, p.parent);
     && PathAllows(ram, root, p.parent, low)
     && up.Some? && up.value in ram && p.index < 512
     && Covers(ram[up.value][p.index].low, low))
  }

  lemma {:induction false} EditsKeepPathAllows(s0: Store, s1: Store, t: Table, p: Path, low: bv12)
    requires Tree(s0, t) && Edits(s0, s1, t)
    requires p.In(t) && PathAllows(s0.ram, t.root, p, low)
    ensures PathAllows(s1.ram, t.root, p, low)
  {
    if p.Child? {
      EditsKeepPathAllows(s0, s1, t, p.parent, low);
      var f := Layer(s0.ram, t.root, p.parent).value;
      CoversTransitive(s1.ram[f][p.index].low, s0.ram[f][p.index].low, low);
    }
  }
}
