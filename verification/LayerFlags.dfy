/** The flag bits of the entries that link layers. What the processor allows on a
    page is decided by every entry on the way to it, so these bits matter as much
    as those of the leaf. */
module LayerFlags {
  import opened EntryWords
  import opened PageTables
  import opened Options

  /** The entry that links the layer at `q`; the zero word when there is none. */
  ghost function Entry(ram: Ram, root: Frame, q: Path): Word {
    match q
    case Root => ZERO
    case Child(p, i) =>
      var up := Layer(ram, root, p);
      if up.Some? && up.value in ram && i < 512 then ram[up.value][i] else ZERO
  }

  function GrantLow(bits: bv12, low: bv12): bv12 {
    bits | low | PRESENT
  }

  /** `w1` is `w0` with the bits `low` and the present bit added to its low flags,
      and no other flag. */
  ghost predicate Granted(w0: Word, w1: Word, low: bv12) {
    w1.high == w0.high && w1.low == GrantLow(w0.low, low) && (Present(w0) ==> w1.frame == w0.frame)
  }

  /** The entries that link the layers `on` were granted `low`; every other entry
      between layers is what it was. */
  ghost predicate Grants(ram0: Ram, ram1: Ram, t: Table, low: bv12, on: set<Path>) {
    forall q: Path {:trigger Entry(ram1, t.root, q)} {:trigger Entry(ram0, t.root, q)} :: q.In(t) ==>
      GrantsAt(ram0, ram1, t, low, on, q)
  }

  ghost predicate GrantsAt(ram0: Ram, ram1: Ram, t: Table, low: bv12, on: set<Path>, q: Path) {
    if q in on && q.Child? then Granted(Entry(ram0, t.root, q), Entry(ram1, t.root, q), low)
    else Entry(ram1, t.root, q) == Entry(ram0, t.root, q)
  }

  /** Only the low byte of the flags reaches a link: the no-execute bit and the
      available bits never do. */
  lemma OnlyLowByte(flags: Flags)
    ensures LayerBits(flags) & 0xF00 == 0 && Covers(flags.low, LayerBits(flags)) && LayerBits(flags) == LayerBits(flags.(high := 0))
  {
  }

  lemma GrantLowTwice(a: bv12, low: bv12)
    ensures GrantLow(GrantLow(a, low), low) == GrantLow(a, low)
  {
  }

  lemma GrantLowPresent(a: bv12, low: bv12)
    ensures GrantLow(a, low) & PRESENT != 0
  {
  }

  lemma GrantedTwice(w0: Word, w1: Word, w2: Word, low: bv12)
    requires Granted(w0, w1, low) && Granted(w1, w2, low)
    ensures Granted(w0, w2, low)
  {
    GrantLowTwice(w0.low, low);
    GrantLowPresent(w0.low, low);
    hide GrantLow;
  }

  lemma GrantsNothing(ram: Ram, t: Table, low: bv12)
    ensures Grants(ram, ram, t, low, {})
  {
    forall q: Path | q.In(t) ensures GrantsAt(ram, ram, t, low, {}, q) {
    }
  }

  /** Grants of the same bits compose. */
  lemma GrantsThen(ram0: Ram, ram1: Ram, ram2: Ram, t: Table, low: bv12, on: set<Path>, more: set<Path>)
    requires Grants(ram0, ram1, t, low, on) && Grants(ram1, ram2, t, low, more)
    ensures Grants(ram0, ram2, t, low, on + more)
  {
    hide Granted, Entry;
    forall q: Path | q.In(t) ensures GrantsAt(ram0, ram2, t, low, on + more, q) {
      assert GrantsAt(ram0, ram1, t, low, on, q) && GrantsAt(ram1, ram2, t, low, more, q);
      if q.Child? && q in on && q in more {
        GrantedTwice(Entry(ram0, t.root, q), Entry(ram1, t.root, q), Entry(ram2, t.root, q), low);
      }
    }
  }

  lemma GrantsStay(ram0: Ram, ram1: Ram, ram2: Ram, t: Table, low: bv12, on: set<Path>)
    requires Grants(ram0, ram1, t, low, on) && Grants(ram1, ram2, t, low, {})
    ensures Grants(ram0, ram2, t, low, on)
  {
    GrantsThen(ram0, ram1, ram2, t, low, on, {});
    assert on + {} == on;
  }

  // ------------------------------------------------------------ single writes

  /** Linking a fresh layer grants its entry and touches no other. */
  lemma FreshLayerGrants(s: Store, t: Table, p: Path, i: nat, g: Frame, w: Word, low: bv12)
    requires Tree(s, t)
    requires p.Depth() < 3 && Child(p, i).In(t)
    requires Layer(s.ram, t.root, p).Some?
    requires g in s.free && g in s.ram
    requires !Present(s.ram[Layer(s.ram, t.root, p).value][i])
    requires Present(w) && w.frame == g && Granted(ZERO, w, low)
    ensures Grants(s.ram, Put(s.ram[g := ZERO_PAGE], Layer(s.ram, t.root, p).value, i, w), t, low, {Child(p, i)})
  {
    var f := Layer(s.ram, t.root, p).value;
    var ram' := Put(s.ram[g := ZERO_PAGE], f, i, w);
    assert f in s.ram && f != g && s.ram[f][i] == ZERO;
    forall q: Path | q.In(t) ensures GrantsAt(s.ram, ram', t, low, {Child(p, i)}, q) {
      if q.Child? {
        FreshLayerAddsOne(s, t, p, i, g, w, q.parent);
        var up := Layer(s.ram, t.root, q.parent);
        if q.parent == Child(p, i) {
          assert up == None;
        } else if up == Some(f) {
          assert q.parent == p;
        }
      }
    }
  }

  /** Adding bits to a present entry grants that entry and touches no other. */
  lemma SameFrameGrants(s: Store, t: Table, p: Path, i: nat, w: Word, low: bv12)
    requires Tree(s, t)
    requires p.Depth() < 3 && Child(p, i).In(t)
    requires Layer(s.ram, t.root, p).Some?
    requires Layer(s.ram, t.root, p).value in s.ram
    requires Present(s.ram[Layer(s.ram, t.root, p).value][i])
    requires Present(w) && Granted(s.ram[Layer(s.ram, t.root, p).value][i], w, low)
    ensures Grants(s.ram, Put(s.ram, Layer(s.ram, t.root, p).value, i, w), t, low, {Child(p, i)})
  {
    var f := Layer(s.ram, t.root, p).value;
    var ram' := Put(s.ram, f, i, w);
    forall q: Path | q.In(t) ensures GrantsAt(s.ram, ram', t, low, {Child(p, i)}, q) {
      if q.Child? {
        SameFrameKeepsLayers(s.ram, t.root, f, i, w, q.parent);
        if Layer(s.ram, t.root, q.parent) == Some(f) {
          assert q.parent == p;
        }
      }
    }
  }

  /** Writing a leaf touches no entry between layers. */
  lemma LeafWriteGrants(s: Store, t: Table, v: nat, w: Word, low: bv12)
    requires Tree(s, t)
    requires v < t.Pages()
    requires Layer(s.ram, t.root, PathOf(v)).Some?
    requires Layer(s.ram, t.root, PathOf(v)).value in s.ram
    ensures Grants(s.ram, Put(s.ram, Layer(s.ram, t.root, PathOf(v)).value, v % 512, w), t, low, {})
  {
    var f := Layer(s.ram, t.root, PathOf(v)).value;
    var ram' := Put(s.ram, f, v % 512, w);
    PathOfIn(v, t);
    forall q: Path | q.In(t) ensures GrantsAt(s.ram, ram', t, low, {}, q) {
      if q.Child? {
        LeafWriteKeepsLayers(s, t, v, w, q.parent);
        assert q.parent != PathOf(v);
      }
    }
  }

  lemma OrLowGranted(w: Word, low: bv12)
    requires Present(w)
    ensures Granted(w, OrLow(w, low), low)
  {
    OrLowPresent(w.low, low);
  }

  lemma OrLowPresent(a: bv12, low: bv12)
    requires a & PRESENT != 0
    ensures a | low == GrantLow(a, low)
  {
  }

  lemma ZeroGranted(g: Frame, low: bv12)
    ensures Granted(ZERO, Word(low | PRESENT, g, 0), low)
  {
    assert (0 as bv12) | low == low;
    assert !Present(ZERO);
  }

  // ------------------------------------------------------------ whole walks

  /** The links that lead to the last-level layer `p`. */
  function Ancestors(p: Path): set<Path> {
    if p.Root? then {} else {p} + Ancestors(p.parent)
  }

  lemma ThreeAncestors(p: Path)
    requires p.Child? && p.parent.Child? && p.parent.parent.Child? && p.parent.parent.parent.Root?
    ensures Ancestors(p) == {p.parent.parent, p.parent, p}
  {
    assert Ancestors(p.parent.parent.parent) == {};
    assert Ancestors(p.parent.parent) == {p.parent.parent};
    assert Ancestors(p.parent) == {p.parent, p.parent.parent};
  }

  /** The links on the way to the layers of page `v` and of the pages 512, 1024,
      ..., 512 * n after it. */
  function Ways(v: nat, n: nat): set<Path> {
    if n == 0 then Ancestors(PathOf(v)) else Ways(v, n - 1) + Ancestors(PathOf(v + 512 * n))
  }

  lemma WaysLast(v: nat, n: nat)
    ensures Ancestors(PathOf(v + 512 * n)) <= Ways(v, n)
  {
  }

  /** So a link is on the way exactly when it leads to one of those pages. */
  lemma {:induction false} WaysLead(v: nat, n: nat, q: Path)
    ensures q in Ways(v, n) <==> exists k: nat :: k <= n && q in Ancestors(PathOf(v + 512 * k))
  {
    if n == 0 {
      assert PathOf(v + 512 * 0) == PathOf(v);
      if q in Ways(v, 0) { assert q in Ancestors(PathOf(v + 512 * 0)); }
    } else {
      WaysLead(v, n - 1, q);
      if q in Ancestors(PathOf(v + 512 * n)) { assert n <= n; }
    }
  }
}
