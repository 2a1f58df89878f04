/** The page-table manager: `map`, `map_range` and `translate_to_physical`. */
module TableManager {
  import opened EntryWords
  import opened PageTables
  import opened LayerFlags
  import opened Arithmetic
  import opened Options

  // -------------------------------------------------- reference semantics

  /** What mapping a page does to its leaf entry: the address field is replaced,
      the flag bits are added to the ones already there. */
  function Mapped(w: Word, frame: Frame, flags: Flags): (r: Word)
    ensures Present(r)
  {
    PresentAfterOr(w.low | flags.low);
    Word(w.low | flags.low | PRESENT, frame, w.high | flags.high)
  }

  /** The meaning of `map` on the leaf entries of an address space. */
  function MapPage(space: seq<Word>, v: nat, frame: Frame, flags: Flags): seq<Word>
    requires v < |space|
  {
    space[v := Mapped(space[v], frame, flags)]
  }

  /** `n` successive calls of `map` on consecutive pages and frames. */
  function MapPages(space: seq<Word>, v: nat, frame: nat, flags: Flags, n: nat): (r: seq<Word>)
    requires v + n <= |space| && frame + n <= FRAMES
    ensures |r| == |space|
  {
    if n == 0 then space else MapPage(MapPages(space, v, frame, flags, n - 1), v + n - 1, frame + n - 1, flags)
  }

  /** Mapping a range page by page adds the flags to each page of the range,
      points it at its own frame, and leaves the pages outside alone. */
  lemma {:induction false} MapPagesAt(space: seq<Word>, v: nat, frame: nat, flags: Flags, n: nat, u: nat)
    requires v + n <= |space| && frame + n <= FRAMES && u < |space|
    ensures MapPages(space, v, frame, flags, n)[u]
            == if v <= u < v + n then Mapped(space[u], frame + (u - v), flags) else space[u]
  {
    if n > 0 {
      hide Mapped;
      MapPagesAt(space, v, frame, flags, n - 1, u);
    }
  }

  /** The physical address a translation yields: 0 when the page is absent. */
  function Translated(w: Word): nat {
    if Present(w) then w.frame * PAGE else 0
  }

  datatype MapCall = MapCall(page: nat, frame: Frame, flags: Flags)

  ghost predicate InSpace(calls: seq<MapCall>, space: seq<Word>) {
    forall c <- calls :: c.page < |space|
  }

  function RunMaps(space: seq<Word>, calls: seq<MapCall>): (r: seq<Word>)
    requires InSpace(calls, space)
    ensures |r| == |space|
  {
    if calls == [] then space
    else
      var c := calls[|calls| - 1];
      MapPage(RunMaps(space, calls[..|calls| - 1]), c.page, c.frame, c.flags)
  }

  lemma RunMapsStep(space: seq<Word>, calls: seq<MapCall>, k: nat)
    requires k < |calls| && InSpace(calls, space)
    ensures InSpace(calls[..k], space) && InSpace(calls[..k + 1], space)
    ensures RunMaps(space, calls[..k + 1])
         == MapPage(RunMaps(space, calls[..k]), calls[k].page, calls[k].frame, calls[k].flags)
  {
    assert calls[..k + 1][..k] == calls[..k];
  }

  /** The last call in `calls` that maps page `u`. */
  function LastCall(calls: seq<MapCall>, u: nat): Option<MapCall> {
    if calls == [] then None
    else if calls[|calls| - 1].page == u then Some(calls[|calls| - 1])
    else LastCall(calls[..|calls| - 1], u)
  }

  /** Read over write, for any sequence of maps: a page translates to the frame
      of the last call that mapped it, and as before when no call did. */
  lemma {:induction false} ReadOverWrite(space: seq<Word>, calls: seq<MapCall>, u: nat)
    requires InSpace(calls, space) && u < |space|
    ensures Translated(RunMaps(space, calls)[u])
            == match LastCall(calls, u)
               case Some(c) => c.frame * PAGE
               case None => Translated(space[u])
  {
    if calls != [] {
      ReadOverWrite(space, calls[..|calls| - 1], u);
    }
  }

  // ------------------------------------------------------- address fields

  function PageNumber(virtualAddress: nat): (v: nat)
    ensures v < SPACE_PAGES
  {
    virtualAddress / PAGE % SPACE_PAGES
  }

  /** Dropping the bits above the space keeps the fields below. */
  lemma TopField(n: nat)
    ensures n % SPACE_PAGES / SLOT_PAGES == n / SLOT_PAGES % 512
  {
    var q, v := n / SPACE_PAGES, n % SPACE_PAGES;
    assert n == 512 * q * SLOT_PAGES + v;
    AddMultiple(512 * q, v, SLOT_PAGES);
    AddMultiple(q, v / SLOT_PAGES, 512);
  }

  lemma MiddleField(n: nat)
    ensures n % SPACE_PAGES / 0x4_0000 % 512 == n / 0x4_0000 % 512
  {
    var q, v := n / SPACE_PAGES, n % SPACE_PAGES;
    assert n == 0x4_0000 * q * 0x4_0000 + v;
    AddMultiple(0x4_0000 * q, v, 0x4_0000);
    AddMultiple(512 * q, v / 0x4_0000, 512);
  }

  lemma LowField(n: nat)
    ensures n % SPACE_PAGES / 512 % 512 == n / 512 % 512
  {
    var q, v := n / SPACE_PAGES, n % SPACE_PAGES;
    assert n == SLOT_PAGES * q * 512 + v;
    AddMultiple(SLOT_PAGES * q, v, 512);
    AddMultiple(0x4_0000 * q, v / 512, 512);
  }

  lemma PageField(n: nat)
    ensures n % SPACE_PAGES % 512 == n % 512
  {
    var q, v := n / SPACE_PAGES, n % SPACE_PAGES;
    assert n == SLOT_PAGES * q * 512 + v;
    AddMultiple(SLOT_PAGES * q, v, 512);
  }

  lemma NestedDivision(a: nat)
    ensures a / PAGE / SLOT_PAGES == a / 0x80_0000_0000
    ensures a / PAGE / 0x4_0000 == a / 0x4000_0000
    ensures a / PAGE / 512 == a / 0x20_0000
  {
  }

  lemma TreeSlots(s: Store, t: Table)
    requires Tree(s, t)
    ensures t.slots <= 512
  {
  }

  lemma PageAddress(v: nat, t: Table)
    requires v < t.Pages() && t.slots <= 512
    ensures PageNumber(v * PAGE) == v
  {
  }

  /** The four index fields of an address are the path of its page. */
  lemma IndexFields(virtualAddress: nat)
    ensures PathOf(PageNumber(virtualAddress))
            == Child(Child(Child(Root, virtualAddress / 0x80_0000_0000 % 512),
                           virtualAddress / 0x4000_0000 % 512),
                     virtualAddress / 0x20_0000 % 512)
    ensures PageNumber(virtualAddress) % 512 == virtualAddress / 0x1000 % 512
  {
    var n := virtualAddress / PAGE;
    var v := PageNumber(virtualAddress);
    assert v == n % SPACE_PAGES;
    NestedDivision(virtualAddress);
    assert v / SLOT_PAGES == virtualAddress / 0x80_0000_0000 % 512 by { TopField(n); }
    assert v / 0x4_0000 % 512 == virtualAddress / 0x4000_0000 % 512 by { MiddleField(n); }
    assert v / 512 % 512 == virtualAddress / 0x20_0000 % 512 by { LowField(n); }
    assert v % 512 == n % 512 by { PageField(n); }
  }

  // -------------------------------------------- one step down, as a lemma

  /** While an operation that started in `s0` walks down: the table is still a
      tree with leaf entries `space`, only its own layers were edited, and
      `layer` sits at `p` behind entries that carry the bits `low`. */
  ghost predicate Walk(s0: Store, s: Store, t: Table, space: seq<Word>, p: Path, low: bv12, layer: Frame) {
    && Tree(s, t)
    && Edits(s0, s, t)
    && Space(s.ram, t) == space
    && p.In(t)
    && Layer(s.ram, t.root, p) == Some(layer)
    && PathAllows(s.ram, t.root, p, low)
  }

  lemma WalkStarts(s: Store, t: Table, low: bv12)
    requires Tree(s, t)
    ensures Walk(s, s, t, Space(s.ram, t), Root, low, t.root)
  {
    EditsNothing(s, t);
  }

  lemma WalkLayer(s0: Store, s: Store, t: Table, space: seq<Word>, p: Path, low: bv12, layer: Frame)
    requires Walk(s0, s, t, space, p, low, layer)
    ensures layer in s.ram && layer != 0 && layer !in s.free
  {
  }

  /** The entry that links a newly allocated layer. */
  function NewLayerWord(g: Frame, low: bv12): Word {
    Word(low | PRESENT, g, 0)
  }

  lemma NewLayerWordLinks(g: Frame, low: bv12)
    ensures Present(NewLayerWord(g, low)) && NewLayerWord(g, low).frame == g
    ensures Covers(NewLayerWord(g, low).low, low)
    ensures OrLow(OrAddress(ZERO, g), low | PRESENT) == NewLayerWord(g, low)
  {
    PresentAfterOr(low);
    OrCovers(low, PRESENT);
    OrZero(low | PRESENT);
  }

  lemma FreshStep(s0: Store, s: Store, t: Table, space: seq<Word>, p: Path, low: bv12, layer: Frame, i: nat, g: Frame)
    requires Walk(s0, s, t, space, p, low, layer)
    requires p.Depth() < 3 && Child(p, i).In(t)
    requires layer in s.ram && i < 512 && !Present(s.ram[layer][i])
    requires g in s.free && g in s.ram && g != 0
    ensures layer != g && s.ram[layer][i] == ZERO
    ensures var s' := Store(Put(s.ram[g := ZERO_PAGE], layer, i, NewLayerWord(g, low)), s.free - {g});
            Walk(s0, s', t, space, Child(p, i), low, g) && Edits(s, s', t) && Grants(s.ram, s'.ram, t, low, {Child(p, i)})
  {
    assert layer != g && s.ram[layer][i] == ZERO;
    FreshGrants(s, t, p, i, g, low);
    hide Covers, Present, NewLayerWord;
    var w := NewLayerWord(g, low);
    var s' := Store(Put(s.ram[g := ZERO_PAGE], layer, i, w), s.free - {g});
    NewLayerWordLinks(g, low);
    FreshLayerEdits(s, t, p, i, g, w);
    EditsKeepPathAllows(s, s', t, p, low);
    hide Edits, Space;
    EditsTransitive(s0, s, s', t);
    FreshLayerKeepsTree(s, t, p, i, g, w);
    hide Tree;
    FreshLayerAddsOne(s, t, p, i, g, w, Child(p, i));
    FreshLayerAddsOne(s, t, p, i, g, w, p);
  }

  lemma FreshGrants(s: Store, t: Table, p: Path, i: nat, g: Frame, low: bv12)
    requires Tree(s, t) && p.Depth() < 3 && Child(p, i).In(t) && Layer(s.ram, t.root, p).Some?
    requires g in s.free && g in s.ram && !Present(s.ram[Layer(s.ram, t.root, p).value][i])
    ensures Grants(s.ram, Put(s.ram[g := ZERO_PAGE], Layer(s.ram, t.root, p).value, i, NewLayerWord(g, low)), t, low, {Child(p, i)})
  {
    ZeroGranted(g, low);
    NewLayerWordLinks(g, low);
    hide Granted, Grants, Present, Tree;
    FreshLayerGrants(s, t, p, i, g, NewLayerWord(g, low), low);
  }

  lemma SameStep(s0: Store, s: Store, s': Store, t: Table, space: seq<Word>, p: Path, low: bv12, layer: Frame, i: nat)
    requires Walk(s0, s, t, space, p, low, layer)
    requires p.Depth() < 3 && Child(p, i).In(t)
    requires layer in s.ram && i < 512 && Present(s.ram[layer][i])
    requires s' == s.(ram := Put(s.ram, layer, i, OrLow(s.ram[layer][i], low)))
    ensures Walk(s0, s', t, space, Child(p, i), low, s.ram[layer][i].frame)
    ensures Edits(s, s', t) && Grants(s.ram, s'.ram, t, low, {Child(p, i)})
  {
    hide Edits, Space, Tree, Covers, Present, OrLow, Granted, Grants;
    var w := OrLow(s.ram[layer][i], low);
    OrLowKeeps(s.ram[layer][i], low);
    OrLowGranted(s.ram[layer][i], low);
    SameFrameGrants(s, t, p, i, w, low);
    SameFrameEdits(s, t, p, i, w);
    EditsTransitive(s0, s, s', t);
    EditsKeepPathAllows(s, s', t, p, low);
    SameFrameKeepsTree(s, t, p, i, w);
    SameFrameKeepsLayers(s.ram, t.root, layer, i, w, p);
    SameFrameKeepsLayers(s.ram, t.root, layer, i, w, Child(p, i));
  }

  lemma MappedKeeps(w: Word, frame: Frame, flags: Flags)
    ensures Covers(Mapped(w, frame, flags).low, w.low)
    ensures SetAddress(OrFlags(w, flags.(low := flags.low | PRESENT)), frame) == Mapped(w, frame, flags)
  {
    hide Covers, Present;
    OrOrCovers(w.low, flags.low, PRESENT);
    WrittenFlags(w, flags);
  }

  lemma WrittenFlags(w: Word, flags: Flags)
    ensures OrFlags(w, flags.(low := flags.low | PRESENT)) == Word(w.low | flags.low | PRESENT, w.frame, w.high | flags.high)
  {
    OrAssociates(w.low, flags.low, PRESENT);
  }

  /** The leaf write at the end of a walk. */
  lemma LeafStep(s0: Store, s: Store, s': Store, t: Table, space: seq<Word>, v: nat, low: bv12, layer: Frame, frame: Frame, flags: Flags)
    requires v < t.Pages() && |space| == t.Pages()
    requires Walk(s0, s, t, space, PathOf(v), low, layer)
    requires layer in s.ram
    requires s' == s.(ram := Put(s.ram, layer, v % 512, Mapped(s.ram[layer][v % 512], frame, flags)))
    ensures Walk(s0, s', t, MapPage(space, v, frame, flags), PathOf(v), low, layer)
    ensures Edits(s, s', t) && Grants(s.ram, s'.ram, t, low, {})
  {
    hide Edits, Tree, Covers, Present, Mapped, PathOf, Grants;
    LeafWriteGrants(s, t, v, Mapped(s.ram[layer][v % 512], frame, flags), low);
    var w := Mapped(s.ram[layer][v % 512], frame, flags);
    MappedKeeps(s.ram[layer][v % 512], frame, flags);
    LeafWriteEdits(s, t, v, w);
    EditsTransitive(s0, s, s', t);
    EditsKeepPathAllows(s, s', t, PathOf(v), low);
    LeafWriteUpdatesSpace(s, t, v, w);
    LeafWriteKeepsLayers(s, t, v, w, PathOf(v));
    assert space[v] == Leaf(s.ram, t.root, v);
  }

  /** The pages of one last-level layer share its path. */
  lemma SameLayer(v: nat, i: nat)
    requires v % 512 + i < 512
    ensures PathOf(v + i) == PathOf(v) && (v + i) % 512 == v % 512 + i
  {
    assert (v + i) / 512 == v / 512;
    assert v / 0x4_0000 == v / 512 / 512 && (v + i) / 0x4_0000 == (v + i) / 512 / 512;
    assert v / SLOT_PAGES == v / 512 / 0x4_0000 && (v + i) / SLOT_PAGES == (v + i) / 512 / 0x4_0000;
  }

  // ---------------------------------------------- chunks of a mapped range

  datatype RangeStatus = Complete | OutOfMemory | Overrun

  /** The range touches the last 2 MiB (512 pages) of the address space, or runs
      beyond it. */
  predicate ReachesEnd(v: nat, pages: nat) {
    pages > 0 && v + pages > SPACE_PAGES - 512
  }

  /** The last page of the space is such a range. */
  lemma LastPageReachesEnd()
    ensures PageNumber(0xFFFF_FFFF_F000) == SPACE_PAGES - 1 && ReachesEnd(SPACE_PAGES - 1, 1)
  {
  }

  /** Last-level layers that `pages` pages from slot `d` on touch. */
  function Rounds(d: nat, pages: nat): nat {
    (d + pages + 511) / 512
  }

  lemma RoundsLeft(d: nat, pages: nat, rounds: nat)
    requires 512 * rounds < d + pages
    ensures rounds + 1 <= Rounds(d, pages)
  {
  }

  /** How many more last-level layers `map_range` goes to after the first. */
  function Visits(d: nat, pages: nat): nat {
    if pages == 0 then 0 else Rounds(d, pages)
  }

  lemma VisitsAre(d: nat, pages: nat, rounds: nat)
    requires rounds <= Rounds(d, pages) && (pages == 0 ==> rounds == 0) && (pages > 0 ==> d + pages <= 512 * rounds)
    ensures rounds == Visits(d, pages)
  {
  }

  /** Frames that are always enough for `map_range`: three for the first page and
      three for each round. */
  function Budget(virtualAddress: nat, pages: nat): nat {
    3 + 3 * Rounds(virtualAddress / PAGE % 512, pages)
  }

  function Path3(a: nat): Path { Child(Root, a) }
  function Path2(a: nat, b: nat): Path { Child(Path3(a), b) }
  function Path1(a: nat, b: nat, c: nat): Path { Child(Path2(a, b), c) }

  lemma PathsIn(a: nat, b: nat, c: nat, t: Table)
    requires t.slots == 512 && a < 512 && b < 512 && c < 512
    ensures Path3(a).In(t) && Path3(a).Depth() == 1
    ensures Path2(a, b).In(t) && Path2(a, b).Depth() == 2
    ensures Path1(a, b, c).In(t)
  {
    assert Root.In(t) && Root.Depth() == 0;
  }

  /** The first page of the last-level layer with these indices. */
  function PageAt(a: nat, b: nat, c: nat): nat {
    a * SLOT_PAGES + b * 0x4_0000 + c * 512
  }

  lemma PathFromIndices(a: nat, b: nat, c: nat, d: nat)
    requires a < 512 && b < 512 && c < 512 && d < 512
    ensures PathOf(PageAt(a, b, c) + d) == Path1(a, b, c)
    ensures (PageAt(a, b, c) + d) % 512 == d
    ensures PageAt(a, b, c) + 512 <= SPACE_PAGES
  {
    var v := PageAt(a, b, c) + d;
    assert v / 512 == a * 0x4_0000 + b * 512 + c;
    assert v / 0x4_0000 == a * 512 + b;
    assert v / SLOT_PAGES == a;
  }

  lemma PageFromIndices(v: nat)
    requires v < SPACE_PAGES
    ensures PathOf(v) == Path1(v / SLOT_PAGES, v / 0x4_0000 % 512, v / 512 % 512)
    ensures PageAt(v / SLOT_PAGES, v / 0x4_0000 % 512, v / 512 % 512) + v % 512 == v
  {
    assert v / 0x4_0000 == v / 512 / 512;
    assert v / SLOT_PAGES == v / 0x4_0000 / 512;
  }

  lemma MapNoPages(space: seq<Word>, v: nat, frame: nat, flags: Flags)
    requires v <= |space| && frame <= FRAMES
    ensures MapPages(space, v, frame, flags, 0) == space
  {
  }

  lemma {:induction false} MapPagesSplit(space: seq<Word>, v: nat, frame: nat, flags: Flags, n: nat, m: nat)
    requires v + n + m <= |space| && frame + n + m <= FRAMES
    ensures MapPages(MapPages(space, v, frame, flags, n), v + n, frame + n, flags, m) == MapPages(space, v, frame, flags, n + m)
  {
    if m > 0 {
      hide MapPage;
      MapPagesSplit(space, v, frame, flags, n, m - 1);
    }
  }

  /** The three links of a walk and the leaf below them. */
  lemma GrantsDown(ram0: Ram, ram3: Ram, ram2: Ram, ram1: Ram, ram': Ram, t: Table, low: bv12, p: Path)
    requires p.Child? && p.parent.Child? && p.parent.parent.Child? && p.parent.parent.parent.Root?
    requires Grants(ram0, ram3, t, low, {p.parent.parent}) && Grants(ram3, ram2, t, low, {p.parent})
    requires Grants(ram2, ram1, t, low, {p}) && Grants(ram1, ram', t, low, {})
    ensures Grants(ram0, ram', t, low, Ancestors(p))
  {
    hide Grants;
    GrantsThen(ram0, ram3, ram2, t, low, {p.parent.parent}, {p.parent});
    GrantsThen(ram0, ram2, ram1, t, low, {p.parent.parent} + {p.parent}, {p});
    GrantsStay(ram0, ram1, ram', t, low, {p.parent.parent} + {p.parent} + {p});
    ThreeAncestors(p);
    assert Ancestors(p) == {p.parent.parent} + {p.parent} + {p};
  }

  lemma WaysNone(v: nat)
    ensures Ways(v, 0) == Ancestors(PathOf(v))
  {
  }

  /** One round of `map_range`: leaves first, then the links to the next layer. */
  lemma GrantsRound(ram0: Ram, ram1: Ram, ram2: Ram, ram3: Ram, t: Table, low: bv12, v: nat, n: nat)
    requires Grants(ram0, ram1, t, low, Ways(v, n)) && Grants(ram1, ram2, t, low, {})
    requires Grants(ram2, ram3, t, low, Ancestors(PathOf(v + 512 * (n + 1))) - Ancestors(PathOf(v + 512 * n)))
    ensures Grants(ram0, ram3, t, low, Ways(v, n + 1))
  {
    hide Grants, Ancestors, PathOf;
    var old', new' := Ancestors(PathOf(v + 512 * n)), Ancestors(PathOf(v + 512 * (n + 1)));
    GrantsStay(ram0, ram1, ram2, t, low, Ways(v, n));
    GrantsThen(ram0, ram2, ram3, t, low, Ways(v, n), new' - old');
    WaysLast(v, n);
    assert Ways(v, n + 1) == Ways(v, n) + new';
    assert Ways(v, n) + (new' - old') == Ways(v, n + 1);
  }

  lemma AncestorsAt(a: nat, b: nat, c: nat)
    ensures Ancestors(Path1(a, b, c)) == {Path3(a), Path2(a, b), Path1(a, b, c)}
  {
    ThreeAncestors(Path1(a, b, c));
  }

  /** `map_range` holds on to three layers at once. */
  ghost predicate Chain(s0: Store, s: Store, t: Table, space: seq<Word>, a: nat, b: nat, c: nat, low: bv12,
                        pml3: Frame, pml2: Frame, pml1: Frame) {
    && Walk(s0, s, t, space, Path3(a), low, pml3)
    && Walk(s0, s, t, space, Path2(a, b), low, pml2)
    && Walk(s0, s, t, space, Path1(a, b, c), low, pml1)
  }

  lemma WalkKept(s0: Store, s: Store, s': Store, t: Table, space: seq<Word>, p: Path, layer: Frame,
                 space': seq<Word>, q: Path, layer': Frame, low: bv12)
    requires Walk(s0, s, t, space, p, low, layer)
    requires Edits(s, s', t)
    requires Walk(s0, s', t, space', q, low, layer')
    ensures Walk(s0, s', t, space', p, low, layer)
  {
    EditsKeepPathAllows(s, s', t, p, low);
  }

  lemma ChainKept(s0: Store, s: Store, s': Store, t: Table, space: seq<Word>, space': seq<Word>,
                  a: nat, b: nat, c: nat, low: bv12, pml3: Frame, pml2: Frame, pml1: Frame)
    requires Chain(s0, s, t, space, a, b, c, low, pml3, pml2, pml1)
    requires Edits(s, s', t)
    requires Walk(s0, s', t, space', Path1(a, b, c), low, pml1)
    ensures Chain(s0, s', t, space', a, b, c, low, pml3, pml2, pml1)
  {
    hide Walk, Edits;
    WalkKept(s0, s, s', t, space, Path3(a), pml3, space', Path1(a, b, c), pml1, low);
    WalkKept(s0, s, s', t, space, Path2(a, b), pml2, space', Path1(a, b, c), pml1, low);
  }

  lemma RootWalk(s0: Store, s: Store, t: Table, space: seq<Word>, a: nat, b: nat, c: nat, low: bv12,
                 pml3: Frame, pml2: Frame, pml1: Frame)
    requires Chain(s0, s, t, space, a, b, c, low, pml3, pml2, pml1)
    ensures Walk(s0, s, t, space, Root, low, t.root)
  {
  }

  lemma ChainFacts(s0: Store, s: Store, t: Table, space: seq<Word>, a: nat, b: nat, c: nat, low: bv12,
                   pml3: Frame, pml2: Frame, pml1: Frame)
    requires Chain(s0, s, t, space, a, b, c, low, pml3, pml2, pml1)
    ensures Tree(s, t) && Edits(s0, s, t) && Space(s.ram, t) == space
  {
  }

  // ----------------------------------------------- flags of many calls

  /** The low flags of the link `q` after `calls`: each call adds the low byte of
      its flags to the links on its way, and nothing else. */
  function CallBits(bits: bv12, calls: seq<MapCall>, q: Path): bv12 {
    if calls == [] then bits
    else
      var c, before := calls[|calls| - 1], CallBits(bits, calls[..|calls| - 1], q);
      if q in Ancestors(PathOf(c.page)) then GrantLow(before, LayerBits(c.flags)) else before
  }

  ghost predicate CallsGrant(ram0: Ram, ram1: Ram, t: Table, calls: seq<MapCall>) {
    forall q: Path {:trigger Entry(ram1, t.root, q)} :: q.In(t) && q.Child? ==>
      && Entry(ram1, t.root, q).high == Entry(ram0, t.root, q).high
      && Entry(ram1, t.root, q).low == CallBits(Entry(ram0, t.root, q).low, calls, q)
  }

  lemma NoCallsGrant(ram: Ram, t: Table)
    ensures CallsGrant(ram, ram, t, [])
  {
  }

  lemma CallGrants(ram0: Ram, ram1: Ram, ram2: Ram, t: Table, calls: seq<MapCall>, k: nat)
    requires k < |calls| && CallsGrant(ram0, ram1, t, calls[..k])
    requires Grants(ram1, ram2, t, LayerBits(calls[k].flags), Ancestors(PathOf(calls[k].page)))
    ensures CallsGrant(ram0, ram2, t, calls[..k + 1])
  {
    hide Entry, GrantLow, LayerBits, Ancestors, PathOf, Present;
    assert calls[..k + 1][..k] == calls[..k];
    forall q: Path | q.In(t) && q.Child?
      ensures Entry(ram2, t.root, q).high == Entry(ram0, t.root, q).high
      ensures Entry(ram2, t.root, q).low == CallBits(Entry(ram0, t.root, q).low, calls[..k + 1], q)
    {
      assert GrantsAt(ram1, ram2, t, LayerBits(calls[k].flags), Ancestors(PathOf(calls[k].page)), q);
    }
  }

  // ----------------------------------------------------------- the machine

  class Machine {
    var ram: Ram
    var free: set<Frame>

    ghost predicate Valid()
      reads this
    {
      0 !in free && free <= ram.Keys
    }

    ghost function Now(): Store
      reads this
    {
      Store(ram, free)
    }

    constructor (ram: Ram, free: set<Frame>)
      requires 0 !in free && free <= ram.Keys
      ensures Valid() && Now() == Store(ram, free)
    {
      this.ram := ram;
      this.free := free;
    }

    /** page_allocate(1): some free frame, zeroed; `ok` is false on a panic. */
    method AllocatePage() returns (ok: bool, f: Frame)
      requires Valid()
      modifies this
      ensures Valid()
      ensures ok == (old(free) != {})
      ensures ok ==> f in old(free) && free == old(free) - {f} && ram == old(ram)[f := ZERO_PAGE]
      ensures !ok ==> Now() == old(Now())
    {
      ok, f := free != {}, 0;
      if ok {
        f :| f in free;
        free := free - {f};
        ram := ram[f := ZERO_PAGE];
      }
    }

    /** `layer->entries[index] = w` */
    method SetEntry(layer: Frame, index: nat, w: Word)
      requires Valid() && layer in ram && index < 512
      modifies this`ram
      ensures Valid() && ram == Put(old(ram), layer, index, w)
    {
      ram := ram[layer := ram[layer][index := w]];
    }

    /** arch_table_manager_allocate_next_layer, as one step of a walk. */
    method AllocateNextLayer(layer: Frame, index: nat, flags: Flags,
                             ghost s0: Store, ghost t: Table, ghost space: seq<Word>, ghost p: Path)
      returns (ok: bool, next: Frame)
      requires Valid() && Walk(s0, Now(), t, space, p, LayerBits(flags), layer)
      requires p.Depth() < 3 && Child(p, index).In(t)
      modifies this
      ensures Valid()
      ensures ok ==> Walk(s0, Now(), t, space, Child(p, index), LayerBits(flags), next)
      ensures ok ==> Edits(old(Now()), Now(), t)
      ensures ok ==> Grants(old(ram), ram, t, LayerBits(flags), {Child(p, index)})
      ensures !ok ==> free == old(free) == {}
      ensures |free| <= |old(free)| <= |free| + 1
    {
      hide Walk, Edits, Grants, LayerBits, NewLayerWord, OrAddress;
      ok := true;
      var low := LayerBits(flags);
      WalkLayer(s0, Now(), t, space, p, low, layer);
      if ram[layer][index].low & PRESENT == 0 {
        var g: Frame;
        ok, g := AllocatePage();
        if !ok { return ok, 0; }
        FreshStep(s0, old(Now()), t, space, p, low, layer, index, g);
        NewLayerWordLinks(g, low);
        ghost var ram1 := ram;
        SetEntry(layer, index, OrAddress(ram[layer][index], g));
        SetEntry(layer, index, OrLow(ram[layer][index], low | PRESENT));
        PutTwice(ram1, layer, index, OrAddress(ZERO, g), NewLayerWord(g, low));
      } else {
        SetEntry(layer, index, OrLow(ram[layer][index], low));
        SameStep(s0, old(Now()), Now(), t, space, p, low, layer, index);
      }
      next := ram[layer][index].frame;
    }

    /** The last step of `map`: add the flags, then replace the address. */
    method WriteLeaf(layer: Frame, index: nat, frame: Frame, flags: Flags,
                     ghost s0: Store, ghost t: Table, ghost space: seq<Word>, ghost v: nat)
      requires Valid() && v < t.Pages() && |space| == t.Pages() && index == v % 512
      requires Walk(s0, Now(), t, space, PathOf(v), LayerBits(flags), layer)
      modifies this`ram
      ensures Valid()
      ensures Walk(s0, Now(), t, MapPage(space, v, frame, flags), PathOf(v), LayerBits(flags), layer)
      ensures Edits(old(Now()), Now(), t) && Grants(old(ram), ram, t, LayerBits(flags), {})
    {
      hide Walk, Edits, Grants, MapPage, PathOf, LayerBits, SetAddress, OrFlags, Mapped, Covers;
      WalkLayer(s0, Now(), t, space, PathOf(v), LayerBits(flags), layer);
      ghost var before := ram[layer][index];
      MappedKeeps(before, frame, flags);
      SetEntry(layer, index, OrFlags(ram[layer][index], flags.(low := flags.low | PRESENT)));
      SetEntry(layer, index, SetAddress(ram[layer][index], frame));
      PutTwice(old(ram), layer, index, OrFlags(before, flags.(low := flags.low | PRESENT)), Mapped(before, frame, flags));
      LeafStep(s0, old(Now()), Now(), t, space, v, LayerBits(flags), layer, frame, flags);
    }

    /** arch_table_manager_map */
    method Map(root: Frame, virtualAddress: nat, frame: Frame, flags: Flags, ghost t: Table) returns (ok: bool)
      requires Valid() && t.root == root && Tree(Now(), t)
      requires PageNumber(virtualAddress) < t.Pages()
      modifies this
      ensures Valid()
      ensures ok ==> Tree(Now(), t)
      ensures ok ==> Space(ram, t) == MapPage(old(Space(ram, t)), PageNumber(virtualAddress), frame, flags)
      ensures ok ==> Edits(old(Now()), Now(), t)
      ensures ok ==> PathAllows(ram, root, PathOf(PageNumber(virtualAddress)), LayerBits(flags))
      ensures ok ==> Grants(old(ram), ram, t, LayerBits(flags), Ancestors(PathOf(PageNumber(virtualAddress))))
      ensures !ok ==> free == {}
      ensures |old(free)| >= 3 ==> ok
      ensures |free| <= |old(free)| <= |free| + 3
    {
      hide PageNumber, PathOf, Space, Edits, Grants, LayerBits, MapPage;
      ghost var s0, space, v := Now(), Space(ram, t), PageNumber(virtualAddress);
      IndexFields(virtualAddress);
      PathOfIn(v, t);
      WalkStarts(s0, t, LayerBits(flags));
      var pml3Index := virtualAddress / 0x80_0000_0000 % 512;
      var pml2Index := virtualAddress / 0x4000_0000 % 512;
      var pml1Index := virtualAddress / 0x20_0000 % 512;
      var pIndex := virtualAddress / 0x1000 % 512;
      ghost var p := PathOf(v);

      var pml3, pml2, pml1;
      ok, pml3 := AllocateNextLayer(root, pml3Index, flags, s0, t, space, Root);
      if !ok { return; }
      ghost var ram3 := ram;
      ok, pml2 := AllocateNextLayer(pml3, pml2Index, flags, s0, t, space, p.parent.parent);
      if !ok { return; }
      ghost var ram2 := ram;
      ok, pml1 := AllocateNextLayer(pml2, pml1Index, flags, s0, t, space, p.parent);
      if !ok { return; }
      ghost var ram1 := ram;
      WriteLeaf(pml1, pIndex, frame, flags, s0, t, space, v);
      GrantsDown(s0.ram, ram3, ram2, ram1, ram, t, LayerBits(flags), p);
    }

    /** arch_table_manager_get_next_layer: one step of the reference walk, on
        every path that leads to `layer`. Only entry 0 of a layer at physical
        address 0 counts as an invalid pointer. */
    method GetNextLayer(layer: Frame, index: nat) returns (next: Option<Frame>)
      requires layer in ram && index < 512
      ensures layer != 0 || index != 0 ==>
                forall root: Frame, p: Path {:trigger Layer(ram, root, p)} ::
                  Layer(ram, root, p) == Some(layer) ==> next == Layer(ram, root, Child(p, index))
      ensures layer == 0 && index == 0 ==> next == None
    {
      if layer == 0 && index == 0 { return None; }
      if ram[layer][index].low & PRESENT == 0 { return None; }
      return Some(ram[layer][index].frame);
    }

    /** arch_table_manager_translate_to_physical */
    method TranslateToPhysical(root: Frame, virtualAddress: nat, ghost t: Table) returns (physical: nat)
      requires t.root == root && Tree(Now(), t)
      requires PageNumber(virtualAddress) < t.Pages()
      ensures physical == Translated(Space(ram, t)[PageNumber(virtualAddress)])
      ensures var leaf := Space(ram, t)[PageNumber(virtualAddress)];
              physical == 0 <==> !Present(leaf) || leaf.frame == 0
    {
      hide PageNumber, PathOf, Space;
      ghost var v := PageNumber(virtualAddress);
      IndexFields(virtualAddress);
      PathOfIn(v, t);
      var pml3Index := virtualAddress / 0x80_0000_0000 % 512;
      var pml2Index := virtualAddress / 0x4000_0000 % 512;
      var pml1Index := virtualAddress / 0x20_0000 % 512;
      var pIndex := virtualAddress / 0x1000 % 512;
      ghost var p := PathOf(v);
      assert Layer(ram, root, Root) == Some(root);
      assert Translated(ZERO) == 0;

      var pml3 := GetNextLayer(root, pml3Index);
      assert pml3 == Layer(ram, root, p.parent.parent);
      assert Space(ram, t)[v] == Leaf(ram, root, v);
      if pml3 == None { assert Layer(ram, root, p.parent) == None && Layer(ram, root, p) == None; return 0; }
      var pml2 := GetNextLayer(pml3.value, pml2Index);
      assert pml2 == Layer(ram, root, p.parent);
      if pml2 == None { assert Layer(ram, root, p) == None; return 0; }
      var pml1 := GetNextLayer(pml2.value, pml1Index);
      assert pml1 == Layer(ram, root, p);
      if pml1 == None { return 0; }
      var entry := ram[pml1.value][pIndex];
      if entry.low & PRESENT != 0 {
        return entry.frame * PAGE;
      } else {
        return 0;
      }
    }

    // ------------------------------------------------------- map_range

    /** The inner loop of `map_range`: `n` consecutive entries of one layer. */
    method MapChunk(pml1: Frame, pIndex: nat, frame: nat, flags: Flags, n: nat,
                    ghost s0: Store, ghost t: Table, ghost space: seq<Word>, ghost v: nat)
      requires Valid() && pIndex == v % 512 && pIndex + n <= 512
      requires v + n <= t.Pages() == |space| && frame + n <= FRAMES
      requires v < t.Pages() && Walk(s0, Now(), t, space, PathOf(v), LayerBits(flags), pml1)
      modifies this`ram
      ensures Valid()
      ensures Walk(s0, Now(), t, MapPages(space, v, frame, flags, n), PathOf(v), LayerBits(flags), pml1)
      ensures Edits(old(Now()), Now(), t) && Grants(old(ram), ram, t, LayerBits(flags), {})
    {
      hide Walk, Edits, Grants, MapPage, PathOf, LayerBits;
      EditsNothing(Now(), t);
      GrantsNothing(ram, t, LayerBits(flags));
      var i := 0;
      while i < n
        invariant 0 <= i <= n && Valid()
        invariant Walk(s0, Now(), t, MapPages(space, v, frame, flags, i), PathOf(v), LayerBits(flags), pml1)
        invariant Edits(old(Now()), Now(), t) && Grants(old(ram), ram, t, LayerBits(flags), {})
      {
        SameLayer(v, i);
        ghost var before := Now();
        WriteLeaf(pml1, pIndex + i, frame + i, flags, s0, t, MapPages(space, v, frame, flags, i), v + i);
        EditsTransitive(old(Now()), before, Now(), t);
        GrantsStay(old(ram), before.ram, ram, t, LayerBits(flags), {});
        i := i + 1;
      }
    }

    /** The three ways `map_range` (re)allocates layers: from the last-level
        parent, from its parent, and from the root. */
    method ChainFromPml2(pml2: Frame, c: nat, flags: Flags, ghost pml3: Frame, ghost a: nat, ghost b: nat,
                         ghost s0: Store, ghost t: Table, ghost space: seq<Word>)
      returns (ok: bool, pml1: Frame)
      requires Valid() && t.slots == 512 && a < 512 && b < 512 && c < 512
      requires Walk(s0, Now(), t, space, Path3(a), LayerBits(flags), pml3)
      requires Walk(s0, Now(), t, space, Path2(a, b), LayerBits(flags), pml2)
      modifies this
      ensures Valid()
      ensures ok ==> Chain(s0, Now(), t, space, a, b, c, LayerBits(flags), pml3, pml2, pml1)
      ensures ok ==> Grants(old(ram), ram, t, LayerBits(flags), {Path1(a, b, c)})
      ensures !ok ==> free == {} && |old(free)| < 1
      ensures |free| <= |old(free)| <= |free| + 1
    {
      hide Walk, Edits, Grants, LayerBits;
      PathsIn(a, b, c, t);
      ghost var before := Now();
      ok, pml1 := AllocateNextLayer(pml2, c, flags, s0, t, space, Path2(a, b));
      if !ok { return; }
      WalkKept(s0, before, Now(), t, space, Path3(a), pml3, space, Path1(a, b, c), pml1, LayerBits(flags));
      WalkKept(s0, before, Now(), t, space, Path2(a, b), pml2, space, Path1(a, b, c), pml1, LayerBits(flags));
    }

    method ChainFromPml3(pml3: Frame, b: nat, c: nat, flags: Flags, ghost a: nat,
                         ghost s0: Store, ghost t: Table, ghost space: seq<Word>)
      returns (ok: bool, pml2: Frame, pml1: Frame)
      requires Valid() && t.slots == 512 && a < 512 && b < 512 && c < 512
      requires Walk(s0, Now(), t, space, Path3(a), LayerBits(flags), pml3)
      modifies this
      ensures Valid()
      ensures ok ==> Chain(s0, Now(), t, space, a, b, c, LayerBits(flags), pml3, pml2, pml1)
      ensures ok ==> Grants(old(ram), ram, t, LayerBits(flags), {Path2(a, b)} + {Path1(a, b, c)})
      ensures !ok ==> free == {} && |old(free)| < 2
      ensures |free| <= |old(free)| <= |free| + 2
    {
      hide Walk, Edits, Grants, LayerBits;
      PathsIn(a, b, c, t);
      pml1 := 0;
      ghost var before := Now();
      ok, pml2 := AllocateNextLayer(pml3, b, flags, s0, t, space, Path3(a));
      if !ok { return; }
      WalkKept(s0, before, Now(), t, space, Path3(a), pml3, space, Path2(a, b), pml2, LayerBits(flags));
      ghost var middle := ram;
      ok, pml1 := ChainFromPml2(pml2, c, flags, pml3, a, b, s0, t, space);
      if ok { GrantsThen(before.ram, middle, ram, t, LayerBits(flags), {Path2(a, b)}, {Path1(a, b, c)}); }
    }

    method ChainFromRoot(root: Frame, a: nat, b: nat, c: nat, flags: Flags,
                         ghost s0: Store, ghost t: Table, ghost space: seq<Word>)
      returns (ok: bool, pml3: Frame, pml2: Frame, pml1: Frame)
      requires Valid() && t.slots == 512 && a < 512 && b < 512 && c < 512
      requires Walk(s0, Now(), t, space, Root, LayerBits(flags), root)
      modifies this
      ensures Valid()
      ensures ok ==> Chain(s0, Now(), t, space, a, b, c, LayerBits(flags), pml3, pml2, pml1)
      ensures ok ==> Grants(old(ram), ram, t, LayerBits(flags), Ancestors(Path1(a, b, c)))
      ensures !ok ==> free == {} && |old(free)| < 3
      ensures |free| <= |old(free)| <= |free| + 3
    {
      hide Walk, Edits, Grants, LayerBits;
      PathsIn(a, b, c, t);
      pml2, pml1 := 0, 0;
      ok, pml3 := AllocateNextLayer(root, a, flags, s0, t, space, Root);
      if !ok { return; }
      ghost var middle := ram;
      ok, pml2, pml1 := ChainFromPml3(pml3, b, c, flags, a, s0, t, space);
      if ok {
        GrantsThen(old(ram), middle, ram, t, LayerBits(flags), {Path3(a)}, {Path2(a, b)} + {Path1(a, b, c)});
        AncestorsAt(a, b, c);
        assert {Path3(a)} + ({Path2(a, b)} + {Path1(a, b, c)}) == Ancestors(Path1(a, b, c));
      }
    }

    /** The end of one round of `map_range`: advance to the next last-level layer,
        carrying into the two index levels above it. */
    method NextLayers(root: Frame, a: nat, b: nat, c: nat, flags: Flags, pml3: Frame, pml2: Frame, ghost pml1: Frame,
                      ghost s0: Store, ghost t: Table, ghost space: seq<Word>)
      returns (status: RangeStatus, a': nat, b': nat, c': nat, pml3': Frame, pml2': Frame, pml1': Frame)
      requires Valid() && t == Table(root, 512) && a < 512 && b < 512 && c < 512
      requires Chain(s0, Now(), t, space, a, b, c, LayerBits(flags), pml3, pml2, pml1)
      modifies this
      ensures Valid()
      ensures status.Complete? ==>
                && a' < 512 && b' < 512 && c' < 512
                && PageAt(a', b', c') == PageAt(a, b, c) + 512
                && Chain(s0, Now(), t, space, a', b', c', LayerBits(flags), pml3', pml2', pml1')
      ensures status.Complete? ==> PageAt(a, b, c) + 512 <= SPACE_PAGES - 512
      ensures status.Complete? ==>
                Grants(old(ram), ram, t, LayerBits(flags), Ancestors(Path1(a', b', c')) - Ancestors(Path1(a, b, c)))
      ensures status.Overrun? ==> PageAt(a, b, c) + 512 == SPACE_PAGES
      ensures status.OutOfMemory? ==> free == {} && |old(free)| < 3
      ensures |free| <= |old(free)| <= |free| + 3
    {
      hide Walk, LayerBits, Grants;
      RootWalk(s0, Now(), t, space, a, b, c, LayerBits(flags), pml3, pml2, pml1);
      var ok;
      a', b', c', pml3', pml2', pml1' := a, b, c + 1, pml3, pml2, 0;
      if c' >= 512 {
        c' := 0;
        b' := b' + 1;
        if b' >= 512 {
          b' := 0;
          a' := a' + 1;
          if a' >= 512 { return Overrun, a', b', c', pml3', pml2', pml1'; }
          ok, pml3', pml2', pml1' := ChainFromRoot(root, a', b', c', flags, s0, t, space);
        } else {
          ok, pml2', pml1' := ChainFromPml3(pml3, b', c', flags, a', s0, t, space);
        }
      } else {
        ok, pml1' := ChainFromPml2(pml2, c', flags, pml3, a', b', s0, t, space);
      }
      AncestorsAt(a, b, c);
      AncestorsAt(a', b', c');
      assert c + 1 < 512 ==> Ancestors(Path1(a', b', c')) - Ancestors(Path1(a, b, c)) == {Path1(a', b', c')};
      assert c + 1 == 512 && b + 1 < 512 ==>
          Ancestors(Path1(a', b', c')) - Ancestors(Path1(a, b, c)) == {Path2(a', b')} + {Path1(a', b', c')};
      assert c + 1 == 512 && b + 1 == 512 ==>
          Ancestors(Path1(a', b', c')) - Ancestors(Path1(a, b, c)) == Ancestors(Path1(a', b', c'));
      status := if ok then Complete else OutOfMemory;
    }

    /** The middle of one round: fill `n` entries of the current last-level layer. */
    method FillLayer(pIndex: nat, frame: nat, flags: Flags, n: nat, pml1: Frame,
                     ghost a: nat, ghost b: nat, ghost c: nat, ghost pml3: Frame, ghost pml2: Frame,
                     ghost s0: Store, ghost t: Table, ghost space: seq<Word>)
      requires Valid() && t.slots == 512 && a < 512 && b < 512 && c < 512
      requires pIndex < 512 && pIndex + n <= 512 && |space| == SPACE_PAGES && frame + n <= FRAMES
      requires Chain(s0, Now(), t, space, a, b, c, LayerBits(flags), pml3, pml2, pml1)
      modifies this`ram
      ensures Valid()
      ensures PageAt(a, b, c) + pIndex + n <= SPACE_PAGES
      ensures Chain(s0, Now(), t, MapPages(space, PageAt(a, b, c) + pIndex, frame, flags, n), a, b, c, LayerBits(flags), pml3, pml2, pml1)
      ensures Grants(old(ram), ram, t, LayerBits(flags), {})
    {
      hide Walk, Edits, Grants, PathOf, PageAt, MapPages, LayerBits;
      PathFromIndices(a, b, c, pIndex);
      ghost var v := PageAt(a, b, c) + pIndex;
      ghost var before := Now();
      MapChunk(pml1, pIndex, frame, flags, n, s0, t, space, v);
      ChainKept(s0, before, Now(), t, space, MapPages(space, v, frame, flags, n), a, b, c, LayerBits(flags), pml3, pml2, pml1);
    }

    /** The loop of `map_range`, from the layers of its first page on. */
    method MapRounds(root: Frame, a0: nat, b0: nat, c0: nat, d0: nat, firstFrame: nat, flags: Flags, pages: nat,
                     pml30: Frame, pml20: Frame, pml10: Frame, ghost s0: Store, ghost t: Table, ghost space: seq<Word>)
      returns (status: RangeStatus)
      requires Valid() && t == Table(root, 512) && a0 < 512 && b0 < 512 && c0 < 512 && d0 < 512
      requires firstFrame + pages <= FRAMES && |space| == SPACE_PAGES
      requires Chain(s0, Now(), t, space, a0, b0, c0, LayerBits(flags), pml30, pml20, pml10)
      requires Grants(s0.ram, ram, t, LayerBits(flags), Ancestors(Path1(a0, b0, c0)))
      modifies this
      ensures Valid()
      ensures status.Complete? ==>
                && PageAt(a0, b0, c0) + d0 + pages <= SPACE_PAGES
                && Tree(Now(), t) && Edits(s0, Now(), t)
                && Space(ram, t) == MapPages(space, PageAt(a0, b0, c0) + d0, firstFrame, flags, pages)
      ensures status.Complete? ==>
                Grants(s0.ram, ram, t, LayerBits(flags), Ways(PageAt(a0, b0, c0) + d0, Visits(d0, pages)))
      ensures status.Complete? ==> !ReachesEnd(PageAt(a0, b0, c0) + d0, pages)
      ensures status.Overrun? ==> ReachesEnd(PageAt(a0, b0, c0) + d0, pages)
      ensures status.OutOfMemory? ==> free == {} && |old(free)| < 3 * Rounds(d0, pages)
      ensures |free| <= |old(free)| <= |free| + 3 * Rounds(d0, pages)
    {
      hide Tree, Edits, Grants, Ways, Space, Chain, PathOf, MapPages, LayerBits, PageAt, Ancestors;
      ghost var v, low := PageAt(a0, b0, c0) + d0, LayerBits(flags);
      var a, b, c, d, pml3, pml2, pml1 := a0, b0, c0, d0, pml30, pml20, pml10;
      var count: nat, frame: nat := pages, firstFrame;
      ghost var done: nat, rounds: nat := 0, 0;
      PathFromIndices(a, b, c, d);
      MapNoPages(space, v, firstFrame, flags);
      WaysNone(v);
      while count > 0
        invariant Valid() && done + count == pages && frame == firstFrame + done
        invariant a < 512 && b < 512 && c < 512 && d < 512
        invariant count > 0 ==> PageAt(a, b, c) + d == v + done
        invariant v + done <= PageAt(a, b, c) + d
        invariant done > 0 ==> d == 0 && PageAt(a, b, c) <= SPACE_PAGES - 512
        invariant v + done <= SPACE_PAGES
        invariant PageAt(a, b, c) == PageAt(a0, b0, c0) + 512 * rounds && rounds <= Rounds(d0, pages)
        invariant |free| <= |old(free)| <= |free| + 3 * rounds
        invariant pages == 0 ==> rounds == 0
        invariant Grants(s0.ram, ram, t, low, Ways(v, rounds))
        invariant Chain(s0, Now(), t, MapPages(space, v, firstFrame, flags, done), a, b, c, low, pml3, pml2, pml1)
      {
        var remaining := 512 - d;
        var toMap := if count < remaining then count else remaining;
        ghost var ram1 := ram;
        FillLayer(d, frame, flags, toMap, pml1, a, b, c, pml3, pml2, s0, t, MapPages(space, v, firstFrame, flags, done));
        MapPagesSplit(space, v, firstFrame, flags, done, toMap);
        ghost var ram2, a1, b1, c1 := ram, a, b, c;
        done := done + toMap;
        frame := frame + toMap;
        count := count - toMap;
        d := 0;
        status, a, b, c, pml3, pml2, pml1 :=
          NextLayers(root, a, b, c, flags, pml3, pml2, pml1, s0, t, MapPages(space, v, firstFrame, flags, done));
        RoundsLeft(d0, pages, rounds);
        rounds := rounds + 1;
        if !status.Complete? { return; }
        PathFromIndices(a1, b1, c1, d0);
        PathFromIndices(a, b, c, d0);
        GrantsRound(s0.ram, ram1, ram2, ram, t, low, v, rounds - 1);
      }
      VisitsAre(d0, pages, rounds);
      ChainFacts(s0, Now(), t, MapPages(space, v, firstFrame, flags, done), a, b, c, low, pml3, pml2, pml1);
      return Complete;
    }

    /** arch_table_manager_map_range. The layers for the page after the range are
        allocated too, so a range that reaches the last 2 MiB of the 48-bit
        space indexes entry 512 of the root: `Overrun`. */
    method MapRange(root: Frame, virtualAddress: nat, firstFrame: nat, flags: Flags, pages: nat, ghost t: Table)
      returns (status: RangeStatus)
      requires Valid() && t == Table(root, 512) && Tree(Now(), t)
      requires firstFrame + pages <= FRAMES
      modifies this
      ensures Valid()
      ensures status.Complete? ==>
                && PageNumber(virtualAddress) + pages <= SPACE_PAGES
                && Tree(Now(), t) && Edits(old(Now()), Now(), t)
                && Space(ram, t) == MapPages(old(Space(ram, t)), PageNumber(virtualAddress), firstFrame, flags, pages)
      ensures status.Complete? ==>
                Grants(old(ram), ram, t, LayerBits(flags),
                       Ways(PageNumber(virtualAddress), Visits(PageNumber(virtualAddress) % 512, pages)))
      ensures status.Complete? ==> !ReachesEnd(PageNumber(virtualAddress), pages)
      ensures status.Overrun? ==> ReachesEnd(PageNumber(virtualAddress), pages)
      ensures status.OutOfMemory? ==> free == {} && |old(free)| < Budget(virtualAddress, pages)
      ensures |free| <= |old(free)| <= |free| + Budget(virtualAddress, pages)
      ensures |old(free)| >= Budget(virtualAddress, pages) ==>
                status == if ReachesEnd(PageNumber(virtualAddress), pages) then Overrun else Complete
    {
      hide Tree, Edits, Grants, Ways, Ancestors, Space, Walk, Chain, PageNumber, PathOf, MapPages, LayerBits, PageAt;
      ghost var s0, space, v := Now(), Space(ram, t), PageNumber(virtualAddress);
      IndexFields(virtualAddress);
      PageFromIndices(v);
      WalkStarts(s0, t, LayerBits(flags));
      var pml3Index := virtualAddress / 0x80_0000_0000 % 512;
      var pml2Index := virtualAddress / 0x4000_0000 % 512;
      var pml1Index := virtualAddress / 0x20_0000 % 512;
      var pIndex := virtualAddress / 0x1000 % 512;
      var ok, pml3, pml2, pml1 := ChainFromRoot(root, pml3Index, pml2Index, pml1Index, flags, s0, t, space);
      if !ok { return OutOfMemory; }
      status := MapRounds(root, pml3Index, pml2Index, pml1Index, pIndex, firstFrame, flags, pages, pml3, pml2, pml1, s0, t, space);
    }

    /** Mapping the last page of the 48-bit space alone overruns the root. */
    method MapLastPage(root: Frame, firstFrame: Frame, flags: Flags, ghost t: Table) returns (status: RangeStatus)
      requires Valid() && t == Table(root, 512) && Tree(Now(), t) && |free| >= 6
      modifies this
      ensures Valid() && status == Overrun
    {
      LastPageReachesEnd();
      status := MapRange(root, 0xFFFF_FFFF_F000, firstFrame, flags, 1, t);
    }

    /** Any sequence of calls of `map`, up to the first one that runs out of
        frames: `done` of them were carried out. */
    method RunCalls(root: Frame, calls: seq<MapCall>, ghost t: Table) returns (done: nat)
      requires Valid() && t.root == root && Tree(Now(), t)
      requires forall c <- calls :: c.page < t.Pages()
      modifies this
      ensures Valid() && done <= |calls|
      ensures InSpace(calls, old(Space(ram, t)))
      ensures done == |calls| ==> Tree(Now(), t) && Edits(old(Now()), Now(), t)
      ensures done == |calls| ==> Space(ram, t) == RunMaps(old(Space(ram, t)), calls)
      ensures done == |calls| ==> CallsGrant(old(ram), ram, t, calls)
      ensures done < |calls| ==> free == {} && |old(free)| < 3 * |calls|
    {
      hide Tree, Edits, Space, MapPage, PageNumber, PathOf, Grants, CallsGrant, LayerBits;
      ghost var s0, space := Now(), Space(ram, t);
      EditsNothing(s0, t);
      NoCallsGrant(ram, t);
      TreeSlots(s0, t);
      done := 0;
      while done < |calls|
        invariant done <= |calls| && Valid() && Tree(Now(), t) && Edits(s0, Now(), t)
        invariant InSpace(calls[..done], space) && Space(ram, t) == RunMaps(space, calls[..done])
        invariant |old(free)| <= |free| + 3 * done && CallsGrant(s0.ram, ram, t, calls[..done])
      {
        var c := calls[done];
        ghost var before := Now();
        PageAddress(c.page, t);
        var ok := Map(root, c.page * PAGE, c.frame, c.flags, t);
        if !ok { return; }
        EditsTransitive(s0, before, Now(), t);
        RunMapsStep(space, calls, done);
        CallGrants(s0.ram, before.ram, ram, t, calls, done);
        done := done + 1;
      }
      assert calls[..done] == calls;
    }
  }
}
