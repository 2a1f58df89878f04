/** The device tree as a value: nodes linked by `next` into sibling lists, each
    list headed by a dummy called ".", and a device pointing to the list of its
    children. Addresses are numbers and 0 is the null pointer. */
module DeviceTree {
  import opened Options
  import opened CStrings

  datatype Device = Device(name: string, kind: nat, readable: bool, writable: bool,
                           parent: nat, child: nat, next: nat)

  /** The nodes, and beside them the shape they are meant to have: the sibling
      list of every directory (0 is the root directory), the directory each
      node lives in, and the names leading to it. */
  datatype Tree = Tree(nodes: map<nat, Device>, dirs: map<nat, seq<nat>>,
                       home: map<nat, nat>, place: map<nat, seq<string>>)

  const DOT := "."

  function Dummy(parent: nat): Device {
    Device(DOT, 1, false, false, parent, 0, 0)
  }

  // -------------------------------------------------------------- invariant

  ghost predicate CleanName(name: string) {
    name != [] && '/' !in name && NUL !in name
  }

  /** A sibling list: linked in order, no node twice, headed by a dummy. */
  ghost predicate Listed(nodes: map<nat, Device>, list: seq<nat>) {
    && list != []
    && (forall i: nat {:trigger Linked(nodes, list, i)} :: i < |list| ==> Linked(nodes, list, i))
    && (forall i: nat, j: nat :: i < j < |list| ==> list[i] != list[j])
  }

  ghost predicate Linked(nodes: map<nat, Device>, list: seq<nat>, i: nat)
    requires i < |list|
  {
    list[i] in nodes && nodes[list[i]].next == if i + 1 < |list| then list[i + 1] else 0
  }

  /** A dummy whose parent was never written: its list is still empty, and so
      is what is below it. */
  ghost predicate Unvisited(t: Tree, x: nat)
    requires x in t.nodes && x in t.home && t.home[x] in t.dirs
  {
    t.nodes[x].parent == 0 && t.dirs[t.home[x]] == [x] && x !in t.dirs
  }

  /** How one node hangs in the tree. */
  ghost predicate Placed(t: Tree, x: nat)
    requires x in t.nodes
  {
    && x in t.home && t.home[x] in t.dirs && x in t.dirs[t.home[x]]
    && (t.nodes[x].parent == t.home[x] || Unvisited(t, x))
    && x in t.place && t.home[x] in t.place
    && t.place[x] == t.place[t.home[x]] + [t.nodes[x].name]
    && CleanName(t.nodes[x].name)
    && (if x in t.dirs then t.dirs[x] != [] && t.nodes[x].child == t.dirs[x][0] else t.nodes[x].child == 0)
  }

  /** How one directory hangs in the tree. */
  ghost predicate Directory(t: Tree, d: nat)
    requires d in t.dirs
  {
    && (d == 0 || d in t.nodes)
    && Listed(t.nodes, t.dirs[d])
    && t.dirs[d][0] in t.nodes && t.nodes[t.dirs[d][0]].name == DOT
    && forall i: nat :: i < |t.dirs[d]| ==> t.dirs[d][i] in t.home && t.home[t.dirs[d][i]] == d
  }

  ghost predicate Valid(t: Tree) {
    && 0 !in t.nodes && 0 in t.dirs && 0 in t.place && t.place[0] == []
    && (forall x {:trigger Placed(t, x)} :: x in t.nodes ==> Placed(t, x))
    && (forall d {:trigger Directory(t, d)} :: d in t.dirs ==> Directory(t, d))
  }

  // ----------------------------------------------------------------- lookup

  /** The first node of a list with the given name. */
  ghost function First(nodes: map<nat, Device>, list: seq<nat>, name: string): (x: Option<nat>)
    ensures x.Some? ==> x.value in list && x.value in nodes && nodes[x.value].name == name
  {
    if list == [] then None
    else if list[0] in nodes && nodes[list[0]].name == name then Some(list[0])
    else First(nodes, list[1..], name)
  }

  lemma FirstHere(nodes: map<nat, Device>, list: seq<nat>, i: nat, name: string)
    requires i <= |list|
    ensures First(nodes, list[i..], name)
         == if i == |list| then None
            else if list[i] in nodes && nodes[list[i]].name == name then Some(list[i])
            else First(nodes, list[i + 1..], name)
  {
    if i < |list| {
      assert list[i..][0] == list[i] && list[i..][1..] == list[i + 1..];
    }
  }

  /** One step down. */
  ghost function Step(t: Tree, d: nat, name: string): (x: Option<nat>)
    ensures x.Some? ==> x.value in t.nodes && t.nodes[x.value].name == name && d in t.dirs && x.value in t.dirs[d]
  {
    if d in t.dirs then First(t.nodes, t.dirs[d], name) else None
  }

  /** Where a list of names leads to, from the root directory. */
  ghost function Resolve(t: Tree, names: seq<string>): Option<nat> {
    if names == [] then Some(0)
    else
      var up := Resolve(t, names[..|names| - 1]);
      if up.None? then None else Step(t, up.value, names[|names| - 1])
  }

  /** Some sibling below `names` begins with `name`. */
  ghost predicate Clash(t: Tree, names: seq<string>, name: string) {
    var d := Resolve(t, names);
    d.Some? && d.value in t.dirs && ClashIn(t.nodes, t.dirs[d.value], name)
  }

  ghost predicate ClashIn(nodes: map<nat, Device>, list: seq<nat>, name: string) {
    exists x :: x in list && x in nodes && name <= nodes[x].name
  }

  lemma Member(t: Tree, d: nat, x: nat)
    requires Valid(t) && d in t.dirs && x in t.dirs[d]
    ensures d == 0 || d in t.nodes
    ensures x in t.nodes && x in t.home && t.home[x] == d
    ensures d in t.place && x in t.place && t.place[x] == t.place[d] + [t.nodes[x].name]
    ensures CleanName(t.nodes[x].name)
  {
    assert Directory(t, d);
    var i :| 0 <= i < |t.dirs[d]| && t.dirs[d][i] == x;
    assert Linked(t.nodes, t.dirs[d], i);
    assert Placed(t, x);
  }

  lemma RootPlace(t: Tree)
    requires Valid(t)
    ensures 0 !in t.nodes && 0 in t.dirs && 0 in t.place && t.place[0] == []
  {
  }

  /** A lookup tells where its result lives. */
  lemma {:induction false} ResolvePlace(t: Tree, names: seq<string>)
    requires Valid(t) && Resolve(t, names).Some?
    ensures var x := Resolve(t, names).value;
      (x == 0 || x in t.nodes) && x in t.place && t.place[x] == names && (x == 0 <==> names == [])
  {
    hide Valid;
    if names == [] {
      RootPlace(t);
    } else {
      ResolvePlace(t, names[..|names| - 1]);
      var d := Resolve(t, names[..|names| - 1]).value;
      var x := Resolve(t, names).value;
      RootPlace(t);
      Member(t, d, x);
      assert names == names[..|names| - 1] + [names[|names| - 1]];
    }
  }

  /** What leads somewhere leads through every directory on the way. */
  lemma {:induction false} ResolvePrefix(t: Tree, names: seq<string>, k: nat)
    requires k <= |names| && Resolve(t, names).Some?
    ensures Resolve(t, names[..k]).Some?
  {
    if k < |names| {
      assert names[..|names| - 1][..k] == names[..k];
      ResolvePrefix(t, names[..|names| - 1], k);
    } else {
      assert names[..k] == names;
    }
  }

  lemma ResolveStep(t: Tree, names: seq<string>, name: string)
    ensures Resolve(t, names + [name])
         == if Resolve(t, names).None? then None else Step(t, Resolve(t, names).value, name)
  {
    assert (names + [name])[..|names|] == names;
  }

  // ----------------------------------------------------------------- growth

  /** Every new node lies on the way to `names`, or is the dummy of a new list;
      nothing old is renamed, moved or hidden. */
  ghost predicate Along(t: Tree, u: Tree, names: seq<string>) {
    && (forall x :: x in t.nodes ==> SameNode(t, u, x))
    && (forall d :: d in t.dirs ==> d in u.dirs && t.dirs[d] <= u.dirs[d])
    && (forall x :: x in u.nodes && x !in t.nodes ==> New(t, u, x, names))
  }

  ghost predicate SameNode(t: Tree, u: Tree, x: nat)
    requires x in t.nodes
  {
    && x in u.nodes && u.nodes[x].name == t.nodes[x].name
    && u.nodes[x].kind == t.nodes[x].kind
    && u.nodes[x].readable == t.nodes[x].readable && u.nodes[x].writable == t.nodes[x].writable
    && (t.nodes[x].parent != 0 ==> u.nodes[x].parent == t.nodes[x].parent)
  }

  ghost predicate New(t: Tree, u: Tree, x: nat, names: seq<string>)
    requires x in u.nodes
  {
    || (x in u.place && u.place[x] != [] && u.place[x] <= names)
    || (u.nodes[x].name == DOT && x in u.home && HeadsNewList(t, u, u.home[x], x))
  }

  /** `x` is the dummy of a list that was not there before. */
  ghost predicate HeadsNewList(t: Tree, u: Tree, d: nat, x: nat) {
    d !in t.dirs && d in u.dirs && u.dirs[d] != [] && u.dirs[d][0] == x
  }

  /** A node that stands for a directory: reserved, and closed to reads and
      writes. */
  ghost predicate PlainNode(d: Device) {
    d.kind == 1 && !d.readable && !d.writable
  }

  /** Every new node but one is of that sort. */
  ghost predicate Plain(t: Tree, u: Tree, but: nat) {
    forall x :: x in u.nodes && x !in t.nodes && x != but ==> PlainNode(u.nodes[x])
  }

  lemma PlainAll(t: Tree, u: Tree, x: nat)
    requires Plain(t, u, x) && x in u.nodes && PlainNode(u.nodes[x])
    ensures Plain(t, u, 0)
  {
  }

  /** Of two steps one may add the exception. */
  lemma PlainThen(t: Tree, u: Tree, v: Tree, names: seq<string>, a: nat, b: nat, but: nat)
    requires Valid(u) && Valid(v) && Along(u, v, names) && Plain(t, u, a) && Plain(u, v, b)
    requires (a == 0 || a == but) && (b == 0 || b == but)
    ensures Plain(t, v, but)
  {
    forall x | x in v.nodes && x !in t.nodes && x != but ensures PlainNode(v.nodes[x]) {
      if x in u.nodes { assert SameNode(u, v, x) && PlainNode(u.nodes[x]); }
    }
  }

  lemma AlongItself(t: Tree, names: seq<string>)
    ensures Along(t, t, names)
  {
  }

  /** The place of a node never changes. */
  lemma {:induction false} PlaceKept(t: Tree, u: Tree, names: seq<string>, x: nat)
    requires Valid(t) && Valid(u) && Along(t, u, names) && x in t.nodes
    ensures x in u.home && x in t.home && u.home[x] == t.home[x]
    ensures x in t.place && x in u.place && u.place[x] == t.place[x]
    decreases if x in t.place then |t.place[x]| else 0
  {
    assert Placed(t, x) && SameNode(t, u, x) && Placed(u, x);
    var d := t.home[x];
    assert Directory(t, d) && Directory(u, d);
    assert t.dirs[d] <= u.dirs[d];
    if d != 0 { PlaceKept(t, u, names, d); }
  }

  lemma AllPlacesKept(t: Tree, u: Tree, names: seq<string>)
    requires Valid(t) && Valid(u) && Along(t, u, names)
    ensures forall x :: x in t.nodes ==> x in t.place && x in u.place && u.place[x] == t.place[x]
    ensures forall x :: x in t.nodes ==> x in t.home && x in u.home && u.home[x] == t.home[x]
  {
    forall x | x in t.nodes
      ensures x in t.place && x in u.place && u.place[x] == t.place[x]
      ensures x in t.home && x in u.home && u.home[x] == t.home[x]
    {
      assert Placed(t, x);
      PlaceKept(t, u, names, x);
    }
  }

  lemma AlongTransitive(t: Tree, u: Tree, v: Tree, names: seq<string>, longer: seq<string>)
    requires Valid(u) && Valid(v) && Along(t, u, names) && Along(u, v, longer) && names <= longer
    ensures Along(t, v, longer)
  {
    AllPlacesKept(u, v, longer);
    AlongChain(t, u, v, names, longer);
  }

  lemma AlongChain(t: Tree, u: Tree, v: Tree, names: seq<string>, longer: seq<string>)
    requires Along(t, u, names) && Along(u, v, longer) && names <= longer
    requires forall x :: x in u.nodes ==> x in u.place && x in v.place && v.place[x] == u.place[x]
    requires forall x :: x in u.nodes ==> x in u.home && x in v.home && v.home[x] == u.home[x]
    ensures Along(t, v, longer)
  {
    forall x | x in t.nodes ensures SameNode(t, v, x) {
      assert SameNode(t, u, x) && SameNode(u, v, x);
    }
    forall x | x in v.nodes && x !in t.nodes ensures New(t, v, x, longer) {
      if x in u.nodes {
        assert New(t, u, x, names) && SameNode(u, v, x);
        if HeadsNewList(t, u, u.home[x], x) { assert u.dirs[u.home[x]] <= v.dirs[u.home[x]]; }
      } else {
        assert New(u, v, x, longer);
      }
    }
    forall d | d in t.dirs ensures d in v.dirs && t.dirs[d] <= v.dirs[d] {
      assert t.dirs[d] <= u.dirs[d] <= v.dirs[d];
    }
  }

  // ------------------------------------------------- growth and the lookups

  /** The first match of a list stays the first when the list is extended. */
  lemma {:induction false} FirstExtended(nodes: map<nat, Device>, list: seq<nat>,
                                         later: map<nat, Device>, longer: seq<nat>, name: string)
    requires list <= longer
    requires forall x :: x in list ==> x in nodes && x in later && later[x].name == nodes[x].name
    ensures First(nodes, list, name).Some? ==> First(later, longer, name) == First(nodes, list, name)
    ensures First(nodes, list, name).None? ==> First(later, longer, name) == First(later, longer[|list|..], name)
  {
    if list != [] {
      assert list[0] in list && longer[0] == list[0];
      assert longer[1..][|list[1..]|..] == longer[|list|..];
      FirstExtended(nodes, list[1..], later, longer[1..], name);
    }
  }

  lemma OldMember(t: Tree, u: Tree, names: seq<string>, d: nat, x: nat)
    requires Valid(t) && Along(t, u, names) && d in t.dirs && x in t.dirs[d]
    ensures x in t.nodes && x in u.nodes && u.nodes[x].name == t.nodes[x].name
  {
    Member(t, d, x);
    assert SameNode(t, u, x);
  }

  lemma StepKept(t: Tree, u: Tree, names: seq<string>, d: nat, name: string)
    requires Valid(t) && Along(t, u, names) && Step(t, d, name).Some?
    ensures Step(u, d, name) == Step(t, d, name)
  {
    forall x | x in t.dirs[d] ensures x in t.nodes && x in u.nodes && u.nodes[x].name == t.nodes[x].name {
      OldMember(t, u, names, d, x);
    }
    FirstExtended(t.nodes, t.dirs[d], u.nodes, u.dirs[d], name);
  }

  /** Every lookup that succeeded still gives the same device. */
  lemma {:induction false} LookupKept(t: Tree, u: Tree, names: seq<string>, path: seq<string>)
    requires Valid(t) && Along(t, u, names) && Resolve(t, path).Some?
    ensures Resolve(u, path) == Resolve(t, path)
  {
    hide Valid, Along;
    if path != [] {
      LookupKept(t, u, names, path[..|path| - 1]);
      StepKept(t, u, names, Resolve(t, path[..|path| - 1]).value, path[|path| - 1]);
    }
  }

  /** An old node has the siblings' list it had before. */
  lemma OldSibling(t: Tree, u: Tree, names: seq<string>, d: nat, x: nat)
    requires Valid(t) && Valid(u) && Along(t, u, names)
    requires d in u.dirs && x in u.dirs[d] && x in t.nodes
    ensures (d == 0 || d in t.nodes) && d in t.dirs && x in t.dirs[d]
    ensures x in u.nodes && u.nodes[x].name == t.nodes[x].name
  {
    Member(u, d, x);
    PlaceKept(t, u, names, x);
    assert Placed(t, x) && Directory(t, d) && SameNode(t, u, x);
  }

  lemma NewSibling(t: Tree, u: Tree, names: seq<string>, d: nat, x: nat)
    requires Valid(u) && Along(t, u, names)
    requires d in u.dirs && x in u.dirs[d] && x !in t.nodes
    ensures x in u.nodes && d in u.place
    ensures u.nodes[x].name == DOT || u.place[d] + [u.nodes[x].name] <= names
  {
    Member(u, d, x);
    assert New(t, u, x, names);
  }

  lemma StepOld(t: Tree, u: Tree, names: seq<string>, d: nat, name: string)
    requires Valid(t) && Valid(u) && Along(t, u, names)
    requires Step(u, d, name).Some? && Step(u, d, name).value in t.nodes
    ensures (d == 0 || d in t.nodes) && Step(t, d, name) == Step(u, d, name)
  {
    hide Valid, Along;
    var x := Step(u, d, name).value;
    OldSibling(t, u, names, d, x);
    if Step(t, d, name).Some? {
      StepKept(t, u, names, d, name);
    } else {
      NoneMatches(t.nodes, t.dirs[d], name, x);
    }
  }

  lemma {:induction false} NoneMatches(nodes: map<nat, Device>, list: seq<nat>, name: string, x: nat)
    requires First(nodes, list, name).None? && x in list && x in nodes
    ensures nodes[x].name != name
  {
    if x != list[0] { NoneMatches(nodes, list[1..], name, x); }
  }

  /** A lookup that gives an old device gave it before. */
  lemma {:induction false} LookupOld(t: Tree, u: Tree, names: seq<string>, path: seq<string>)
    requires Valid(t) && Valid(u) && Along(t, u, names) && Resolve(u, path).Some?
    requires Resolve(u, path).value == 0 || Resolve(u, path).value in t.nodes
    ensures Resolve(t, path) == Resolve(u, path)
  {
    hide Valid, Along;
    ResolvePlace(u, path);
    if path != [] {
      var d := Resolve(u, path[..|path| - 1]).value;
      StepOld(t, u, names, d, path[|path| - 1]);
      LookupOld(t, u, names, path[..|path| - 1]);
    }
  }

  /** What becomes visible lies on the way to `names`. */
  lemma NewlyVisible(t: Tree, u: Tree, names: seq<string>, path: seq<string>)
    requires Valid(t) && Valid(u) && Along(t, u, names) && DOT !in path
    requires Resolve(u, path).Some? && Resolve(t, path).None?
    ensures path != [] && path <= names && Resolve(u, path).value !in t.nodes
  {
    hide Valid;
    ResolvePlace(u, path);
    var x := Resolve(u, path).value;
    if x == 0 || x in t.nodes { LookupOld(t, u, names, path); }
    assert New(t, u, x, names);
    assert u.nodes[x].name == path[|path| - 1];
  }

  /** The same for the names that a new device must avoid. */
  lemma ClashNew(t: Tree, u: Tree, names: seq<string>, path: seq<string>, name: string)
    requires Valid(t) && Valid(u) && Along(t, u, names) && DOT !in path
    requires name != [] && name != DOT && Clash(u, path, name) && !Clash(t, path, name)
    ensures path < names
  {
    hide Valid, Along, Resolve;
    ResolvePlace(u, path);
    var d := Resolve(u, path).value;
    var x :| x in u.dirs[d] && x in u.nodes && name <= u.nodes[x].name;
    if x in t.nodes {
      ClashOld(t, u, names, path, name, x);
    } else {
      NewSibling(t, u, names, d, x);
      if name <= DOT { DotPrefix(name); }
    }
  }

  lemma ClashOld(t: Tree, u: Tree, names: seq<string>, path: seq<string>, name: string, x: nat)
    requires Valid(t) && Valid(u) && Along(t, u, names) && Resolve(u, path).Some?
    requires Resolve(u, path).value in u.dirs && x in u.dirs[Resolve(u, path).value]
    requires x in t.nodes && x in u.nodes && name <= u.nodes[x].name
    ensures Clash(t, path, name)
  {
    OldSibling(t, u, names, Resolve(u, path).value, x);
    LookupOld(t, u, names, path);
  }

  lemma DotPrefix(name: string)
    requires name <= DOT
    ensures name == [] || name == DOT
  {
    assert name == DOT[..|name|];
  }

  lemma ClashKept(t: Tree, u: Tree, names: seq<string>, path: seq<string>, name: string)
    requires Valid(t) && Along(t, u, names) && Clash(t, path, name)
    ensures Clash(u, path, name)
  {
    hide Valid, Resolve;
    LookupKept(t, u, names, path);
    var d := Resolve(t, path).value;
    ClashInKept(t, u, names, d, name);
  }

  lemma ClashInKept(t: Tree, u: Tree, names: seq<string>, d: nat, name: string)
    requires Valid(t) && Along(t, u, names) && d in t.dirs && ClashIn(t.nodes, t.dirs[d], name)
    ensures d in u.dirs && ClashIn(u.nodes, u.dirs[d], name)
  {
    var x :| x in t.dirs[d] && x in t.nodes && name <= t.nodes[x].name;
    assert SameNode(t, u, x);
    var i :| 0 <= i < |t.dirs[d]| && t.dirs[d][i] == x;
    assert u.dirs[d][i] == x;
  }

  // ---------------------------------------------------------------- updates

  /** Once the dummy knows its parent, the whole list does. */
  lemma VisitedMember(t: Tree, d: nat, x: nat)
    requires Valid(t) && d in t.dirs && t.dirs[d] != [] && t.dirs[d][0] in t.nodes
    requires t.nodes[t.dirs[d][0]].parent == d && x in t.dirs[d]
    ensures x in t.nodes && x in t.home && t.home[x] == d && t.nodes[x].parent == d
  {
    Member(t, d, x);
    assert Placed(t, x);
  }

  /** `d` gets a list of children: a dummy alone. */
  ghost function Opened(t: Tree, d: nat, h: nat, parent: nat): Tree
    requires d in t.nodes && d in t.place
  {
    Tree(t.nodes[d := t.nodes[d].(child := h)][h := Dummy(parent)],
         t.dirs[d := [h]], t.home[h := d], t.place[h := t.place[d] + [DOT]])
  }

  ghost predicate CanOpen(t: Tree, d: nat, h: nat, parent: nat) {
    && Valid(t) && d in t.nodes && d !in t.dirs && d in t.place && d in t.home
    && t.nodes[d].parent == t.home[d]
    && h != 0 && h !in t.nodes && (parent == 0 || parent == d)
  }

  lemma NoStrayDirectory(t: Tree, h: nat)
    requires Valid(t) && h != 0 && h !in t.nodes
    ensures h !in t.dirs
  {
    if h in t.dirs && Directory(t, h) { }
  }

  lemma OpenedPlaced(t: Tree, d: nat, h: nat, parent: nat, x: nat)
    requires CanOpen(t, d, h, parent) && (x in t.nodes || x == h)
    ensures Placed(Opened(t, d, h, parent), x)
  {
    var u := Opened(t, d, h, parent);
    NoStrayDirectory(t, h);
    assert Placed(t, d);
    if x != h {
      assert Placed(t, x);
      assert t.home[x] != d;
      assert Directory(t, t.home[x]);
    }
  }

  lemma OpenedDirectory(t: Tree, d: nat, h: nat, parent: nat, e: nat)
    requires CanOpen(t, d, h, parent) && (e in t.dirs || e == d)
    ensures Directory(Opened(t, d, h, parent), e)
  {
    var u := Opened(t, d, h, parent);
    if e == d {
      assert Linked(u.nodes, [h], 0);
    } else {
      assert Directory(t, e);
      forall i: nat | i < |u.dirs[e]| ensures Linked(u.nodes, u.dirs[e], i) && u.dirs[e][i] != h {
        assert Linked(t.nodes, t.dirs[e], i);
      }
    }
  }

  lemma OpenedKeeps(t: Tree, d: nat, h: nat, parent: nat, names: seq<string>)
    requires CanOpen(t, d, h, parent)
    ensures Valid(Opened(t, d, h, parent)) && Along(t, Opened(t, d, h, parent), names)
  {
    hide Placed, Directory;
    var u := Opened(t, d, h, parent);
    forall x | x in u.nodes ensures Placed(u, x) { OpenedPlaced(t, d, h, parent, x); }
    forall e | e in u.dirs ensures Directory(u, e) { OpenedDirectory(t, d, h, parent, e); }
  }

  /** The dummy of `d` learns its parent. */
  ghost function Marked(t: Tree, d: nat): Tree
    requires d in t.dirs && t.dirs[d] != [] && t.dirs[d][0] in t.nodes
  {
    var h := t.dirs[d][0];
    t.(nodes := t.nodes[h := t.nodes[h].(parent := d)])
  }

  lemma MarkedPlaced(t: Tree, d: nat, x: nat)
    requires Valid(t) && d in t.dirs && d != 0 && t.dirs[d] != [] && t.dirs[d][0] in t.nodes && x in t.nodes
    ensures Placed(Marked(t, d), x)
  {
    assert t.dirs[d][0] in t.dirs[d];
    Member(t, d, t.dirs[d][0]);
    assert Placed(t, x);
  }

  lemma MarkedDirectory(t: Tree, d: nat, e: nat)
    requires Valid(t) && d in t.dirs && t.dirs[d] != [] && t.dirs[d][0] in t.nodes && e in t.dirs
    ensures Directory(Marked(t, d), e)
  {
    var u := Marked(t, d);
    assert Directory(t, e);
    forall i: nat | i < |u.dirs[e]| ensures Linked(u.nodes, u.dirs[e], i) {
      assert Linked(t.nodes, t.dirs[e], i);
    }
  }

  lemma MarkedKeeps(t: Tree, d: nat, names: seq<string>)
    requires Valid(t) && d in t.dirs && d != 0
    ensures t.dirs[d] != [] && t.dirs[d][0] in t.nodes
    ensures Valid(Marked(t, d)) && Along(t, Marked(t, d), names)
  {
    hide Placed;
    assert Directory(t, d);
    var h, u := t.dirs[d][0], Marked(t, d);
    assert t.nodes[h].parent == 0 || t.nodes[h].parent == d by {
      assert h in t.dirs[d];
      Member(t, d, h);
      ParentIsHome(t, h);
    }
    forall x | x in u.nodes ensures Placed(u, x) { MarkedPlaced(t, d, x); }
    forall e | e in u.dirs ensures Directory(u, e) { MarkedDirectory(t, d, e); }
  }

  lemma ParentIsHome(t: Tree, x: nat)
    requires Valid(t) && x in t.nodes
    ensures x in t.home && (t.nodes[x].parent == 0 || t.nodes[x].parent == t.home[x])
  {
    assert Placed(t, x);
  }

  /** A new device at the end of the list of `d`. */
  ghost function Appended(t: Tree, d: nat, x: nat, device: Device): Tree
    requires d in t.dirs && d in t.place && t.dirs[d] != [] && t.dirs[d][|t.dirs[d]| - 1] in t.nodes
  {
    var last := t.dirs[d][|t.dirs[d]| - 1];
    Tree(t.nodes[last := t.nodes[last].(next := x)][x := device],
         t.dirs[d := t.dirs[d] + [x]], t.home[x := d], t.place[x := t.place[d] + [device.name]])
  }

  ghost predicate CanAppend(t: Tree, d: nat, x: nat, device: Device) {
    && Valid(t) && d in t.dirs && d in t.place && t.dirs[d] != [] && t.dirs[d][|t.dirs[d]| - 1] in t.nodes
    && t.dirs[d][0] in t.nodes && t.nodes[t.dirs[d][0]].parent == d
    && x != 0 && x !in t.nodes
    && CleanName(device.name) && device.parent == d && device.child == 0 && device.next == 0
  }

  lemma AppendedPlaced(t: Tree, d: nat, x: nat, device: Device, y: nat)
    requires CanAppend(t, d, x, device) && (y in t.nodes || y == x)
    ensures Placed(Appended(t, d, x, device), y)
  {
    var u := Appended(t, d, x, device);
    NoStrayDirectory(t, x);
    assert Directory(t, d);
    if y == x {
      assert u.dirs[d][|t.dirs[d]|] == x;
    } else {
      assert Placed(t, y);
      var e := t.home[y];
      assert Directory(t, e);
      var i :| 0 <= i < |t.dirs[e]| && t.dirs[e][i] == y;
      assert u.dirs[e][i] == y;
    }
  }

  lemma LastOnly(t: Tree, d: nat, e: nat, i: nat)
    requires Valid(t) && d in t.dirs && t.dirs[d] != [] && e in t.dirs && i < |t.dirs[e]|
    requires t.dirs[e][i] == t.dirs[d][|t.dirs[d]| - 1]
    ensures e == d && i == |t.dirs[d]| - 1
  {
    assert Directory(t, d) && Directory(t, e);
  }

  lemma AppendedDirectory(t: Tree, d: nat, x: nat, device: Device, e: nat)
    requires CanAppend(t, d, x, device) && e in t.dirs
    ensures Directory(Appended(t, d, x, device), e)
  {
    var u := Appended(t, d, x, device);
    assert Directory(t, e);
    forall i: nat | i < |u.dirs[e]| ensures Linked(u.nodes, u.dirs[e], i) {
      if i < |t.dirs[e]| {
        assert Linked(t.nodes, t.dirs[e], i);
        if t.dirs[e][i] == t.dirs[d][|t.dirs[d]| - 1] { LastOnly(t, d, e, i); }
      }
    }
    forall i: nat | i < |t.dirs[e]| ensures t.dirs[e][i] != x {
      assert Linked(t.nodes, t.dirs[e], i);
    }
  }

  lemma AppendedKeeps(t: Tree, d: nat, x: nat, device: Device)
    requires CanAppend(t, d, x, device)
    ensures Valid(Appended(t, d, x, device))
    ensures Along(t, Appended(t, d, x, device), t.place[d] + [device.name])
  {
    hide Placed, Directory;
    var u := Appended(t, d, x, device);
    forall y | y in u.nodes ensures Placed(u, y) { AppendedPlaced(t, d, x, device, y); }
    forall e | e in u.dirs ensures Directory(u, e) { AppendedDirectory(t, d, x, device, e); }
  }

  /** A name that was free now leads to the new device. */
  lemma AppendedFound(t: Tree, d: nat, x: nat, device: Device)
    requires CanAppend(t, d, x, device) && Step(t, d, device.name).None?
    ensures Step(Appended(t, d, x, device), d, device.name) == Some(x)
  {
    var u := Appended(t, d, x, device);
    AppendedKeeps(t, d, x, device);
    forall y | y in t.dirs[d] ensures y in t.nodes && y in u.nodes && u.nodes[y].name == t.nodes[y].name {
      OldMember(t, u, t.place[d] + [device.name], d, y);
    }
    FirstExtended(t.nodes, t.dirs[d], u.nodes, u.dirs[d], device.name);
    assert u.dirs[d][|t.dirs[d]|..] == [x];
    FirstAlone(u.nodes, x);
  }

  lemma FirstAlone(nodes: map<nat, Device>, x: nat)
    requires x in nodes
    ensures First(nodes, [x], nodes[x].name) == Some(x)
  {
  }
}
