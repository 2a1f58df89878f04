/** The device manager: creating a device at a path, opening it through the
    device file system, and printing the path of a device. */
module DeviceManager {
  import opened Options
  import opened CStrings
  import opened Paths
  import opened DevicePaths
  import opened DeviceTree
  import opened DeviceCreation

  const RESERVED := 1

  datatype Opening = Opened(device: nat) | Denied | Missing

  /** Some address is not in use. */
  lemma {:induction false} FreshAddress(used: set<nat>)
    ensures exists p: nat :: p != 0 && p !in used
  {
    var bound := Above(used);
    assert bound + 1 !in used;
  }

  ghost function Above(used: set<nat>): (bound: nat)
    ensures forall p :: p in used ==> p <= bound
  {
    if used == {} then 0
    else
      var q :| q in used;
      var rest := Above(used - {q});
      assert forall p :: p in used ==> p == q || p in used - {q};
      if q < rest then rest else q
  }

  lemma Known(t: Tree, x: nat)
    requires Valid(t) && x in t.nodes
    ensures x in t.home && x in t.place
    ensures if x in t.dirs then t.dirs[x] != [] && t.nodes[x].child == t.dirs[x][0] else t.nodes[x].child == 0
    ensures x in t.dirs ==> t.dirs[x][0] in t.nodes && t.nodes[x].child != 0
  {
    assert Placed(t, x);
    if x in t.dirs { assert Directory(t, x); }
  }

  lemma RootVisited(t: Tree)
    requires Valid(t)
    ensures 0 in t.dirs && t.dirs[0] != [] && t.dirs[0][0] in t.nodes && t.nodes[t.dirs[0][0]].parent == 0
  {
    assert Directory(t, 0);
    assert t.dirs[0][0] in t.dirs[0];
    Member(t, 0, t.dirs[0][0]);
    assert Placed(t, t.dirs[0][0]);
  }

  lemma ResolveRoot(t: Tree)
    ensures Resolve(t, []) == Some(0)
  {
  }

  lemma SlashLast(name: string, slash: bool)
    requires CleanName(name)
    ensures name + Ending(slash) != []
    ensures (name + Ending(slash))[|name + Ending(slash)| - 1] == '/' <==> slash
    ensures slash ==> (name + Ending(slash))[..|name + Ending(slash)| - 1] == name
    ensures !slash ==> name + Ending(slash) == name
  {
  }

  /** The device a path leads to; a doubled delimiter at its end leads nowhere. */
  ghost function Target(t: Tree, path: string): Option<nat> {
    if Names(path) == [] || EndsDouble(path) then None else Resolve(t, Names(path))
  }

  /** The answer to an open request for a target. */
  ghost function Answer(t: Tree, target: Option<nat>, read: bool, write: bool): Opening {
    if target.None? || target.value !in t.nodes then Missing
    else if (read && !t.nodes[target.value].readable) || (write && !t.nodes[target.value].writable) then Denied
    else Opened(target.value)
  }

  /** What an open request gets: nothing for a path that leads nowhere, the device
      if it can be read and written as asked, and a refusal otherwise. */
  ghost predicate Answers(t: Tree, target: Option<nat>, read: bool, write: bool, r: Opening) {
    match r
    case Missing => target == None
    case Opened(x) =>
      target == Some(x) && x in t.nodes && (read ==> t.nodes[x].readable) && (write ==> t.nodes[x].writable)
    case Denied =>
      target != None && target.value in t.nodes
      && ((read && !t.nodes[target.value].readable) || (write && !t.nodes[target.value].writable))
  }

  lemma AnswerMeans(t: Tree, path: string, read: bool, write: bool)
    requires Valid(t)
    ensures Answers(t, Target(t, path), read, write, Answer(t, Target(t, path), read, write))
  {
    hide Valid, Components;
    if Target(t, path).Some? { ResolvePlace(t, Names(path)); }
  }

  lemma PlainItself(t: Tree)
    ensures Plain(t, t, 0)
  {
  }

  /** The lookup has found directory `d` for the first `i` names. */
  ghost predicate Found(t: Tree, u: Tree, names: seq<string>, i: nat, d: nat) {
    && i <= |names| && Valid(t) && Valid(u) && Along(t, u, []) && Plain(t, u, 0)
    && (DOT !in names ==> Resolve(t, names[..i]) == Some(d))
  }

  /** One step of the lookup gives what it gave in the tree it started from. */
  lemma FoundStep(t: Tree, u: Tree, names: seq<string>, i: nat, d: nat)
    requires Found(t, u, names, i, d) && i < |names| && DOT !in names
    ensures Resolve(t, names[..i + 1]) == Step(u, d, names[i])
  {
    hide Valid, Along, Resolve;
    Prefixes(names, i);
    LookupKept(t, u, [], names[..i]);
    ResolveStep(u, names[..i], names[i]);
    if Resolve(t, names[..i + 1]).Some? {
      LookupKept(t, u, [], names[..i + 1]);
    } else if Resolve(u, names[..i + 1]).Some? {
      NewlyVisible(t, u, [], names[..i + 1]);
    }
  }

  lemma FoundEnter(t: Tree, u: Tree, v: Tree, names: seq<string>, i: nat, d: nat, x: nat)
    requires Found(t, u, names, i, d) && i < |names| && Step(u, d, names[i]) == Some(x)
    requires Valid(v) && Along(u, v, []) && Plain(u, v, 0)
    ensures Found(t, v, names, i + 1, x)
  {
    hide Valid, Along, Resolve, Plain;
    PlainThen(t, u, v, [], 0, 0, 0);
    AlongTransitive(t, u, v, [], []);
    if DOT !in names { FoundStep(t, u, names, i, d); }
  }

  /** A name that is not found ends the lookup. */
  lemma FoundNothing(t: Tree, u: Tree, names: seq<string>, i: nat, d: nat)
    requires Found(t, u, names, i, d) && i < |names| && Step(u, d, names[i]).None?
    ensures DOT !in names ==> Resolve(t, names).None?
  {
    hide Valid, Along, Resolve;
    if DOT !in names {
      FoundStep(t, u, names, i, d);
      if Resolve(t, names).Some? { ResolvePrefix(t, names, i + 1); }
    }
  }

  lemma FoundDevice(t: Tree, u: Tree, names: seq<string>, i: nat, d: nat, x: nat, read: bool, write: bool)
    requires Found(t, u, names, i, d) && |names| == i + 1 && Step(u, d, names[i]) == Some(x)
    ensures x in u.nodes
    ensures DOT !in names ==> Resolve(t, names) == Some(x) && Answer(t, Some(x), read, write) == Answer(u, Some(x), read, write)
  {
    hide Valid, Resolve;
    if DOT !in names {
      FoundStep(t, u, names, i, d);
      assert names[..i + 1] == names;
      ResolvePlace(t, names);
      assert SameNode(t, u, x);
    }
  }

  /** One round of the printing loop: the delimiter and what fits of the name.
      The offset moves on by the whole name. */
  method PrintName(buffer: array<char>, offset: nat, name: string, room: nat) returns (next: nat, stop: bool)
    requires offset + Fits(name, offset, room) <= buffer.Length
    modifies buffer
    ensures stop <==> room <= offset + 1
    ensures next == if room <= offset then offset else if stop then room else offset + 1 + |name|
    ensures buffer[..] == old(buffer[..offset]) + ("/" + name)[..Fits(name, offset, room)]
                          + old(buffer[offset + Fits(name, offset, room)..])
  {
    if room <= offset { return offset, true; }
    ghost var was := buffer[..];
    buffer[offset] := '/';
    next := offset + 1;
    assert buffer[..] == was[offset := '/'];
    var n := if room <= next then 0 else Min(|name|, room - next);
    assert Fits(name, offset, room) == 1 + n;
    CopyName(buffer, next, name, n);
    NamePrinted(was, offset, name, n);
    stop := room <= next;
    if !stop { next := next + |name|; }
  }

  lemma NamePrinted(was: string, offset: nat, name: string, n: nat)
    requires n <= |name| && offset + 1 + n <= |was|
    ensures was[offset := '/'][..offset + 1] + name[..n] + was[offset := '/'][offset + 1 + n..]
         == was[..offset] + ("/" + name)[..1 + n] + was[offset + 1 + n..]
  {
    assert ("/" + name)[..1 + n] == "/" + name[..n];
  }

  /** memcpy from a name. */
  method CopyName(buffer: array<char>, at: nat, name: string, n: nat)
    requires n <= |name| && at + n <= buffer.Length
    modifies buffer
    ensures buffer[..] == old(buffer[..at]) + name[..n] + old(buffer[at + n..])
  {
    var i: nat := 0;
    while i < n
      invariant i <= n
      invariant forall p: nat :: at <= p < at + i ==> buffer[p] == name[p - at]
      invariant forall p: nat :: p < at || at + i <= p < buffer.Length ==> p >= buffer.Length || buffer[p] == old(buffer[p])
    {
      buffer[at + i] := name[i];
      i := i + 1;
    }
  }

  /** The directory above a node. */
  lemma UpwardsOf(t: Tree, x: nat)
    requires Valid(t) && x in t.nodes && x in t.home && t.nodes[x].parent == t.home[x]
    ensures var p := t.nodes[x].parent;
      p in t.place && x in t.place && t.place[x] == t.place[p] + [t.nodes[x].name]
      && (p == 0 || (p in t.nodes && p in t.home && t.nodes[p].parent == t.home[p]))
  {
    assert Placed(t, x);
    assert Directory(t, t.home[x]);
    if t.home[x] != 0 { assert Placed(t, t.home[x]); }
  }

  // -------------------------------------------------- create, open and print

  /** Without a trailing delimiter, a name that is in use is always refused. */
  lemma FreshWhenAllowed(t: Tree, names: seq<string>)
    requires Valid(t) && names != [] && !Refused(t, names, false)
    ensures Resolve(t, names).None?
  {
    var i := |names| - 1;
    assert names[..i + 1] == names;
    RefusedHere(t, names, i);
  }

  /** With one, nothing is refused: no name holds a delimiter. */
  lemma NeverRefused(t: Tree, names: seq<string>)
    requires Valid(t) && names != []
    ensures !Refused(t, names, true)
  {
    hide Valid;
    var front, name := names[..|names| - 1], names[|names| - 1] + "/";
    if Clash(t, front, name) {
      var d := Resolve(t, front).value;
      var x :| x in t.dirs[d] && x in t.nodes && name <= t.nodes[x].name;
      Member(t, d, x);
      DelimiterInside(name, t.nodes[x].name);
    }
  }

  lemma DelimiterInside(name: string, longer: string)
    requires name != [] && name[|name| - 1] == '/' && name <= longer
    ensures '/' in longer
  {
    assert longer[|name| - 1] == '/';
  }

  /** The tree of a single device called "ab". */
  ghost function SingleDevice(): (t: Tree)
    ensures Valid(t) && t.dirs == map[0 := [1, 2]] && t.nodes.Keys == {1, 2}
    ensures t.nodes[1].name == DOT && t.nodes[2].name == "ab"
  {
    var t := Tree(map[1 := Dummy(0).(next := 2), 2 := Device("ab", 0, true, true, 0, 0, 0)],
                  map[0 := [1, 2]], map[1 := 0, 2 := 0], map[0 := [], 1 := [DOT], 2 := ["ab"]]);
    assert Linked(t.nodes, [1, 2], 0) && Linked(t.nodes, [1, 2], 1);
    assert Directory(t, 0) && Placed(t, 1) && Placed(t, 2);
    t
  }

  /** With "ab" present, creating "/a/b" uses a null device and creating "/a" is
      refused, although nothing is called "a". */
  lemma PrefixInTheWay()
    ensures Names("/a/b") == ["a", "b"] && Blocked(SingleDevice(), ["a", "b"])
    ensures Refused(SingleDevice(), ["a"], false) && Resolve(SingleDevice(), ["a"]).None?
  {
    var t, names := SingleDevice(), ["a", "b"];
    assert "/a/b" == "/a" + "/" + "b" && "/a" == [] + "/" + "a";
    NamesJoin("/a", "b", []);
    NamesJoin([], "a", []);
    NameAlone("a");
    NameAlone("b");
    ResolveStep(t, [], "a");
    FirstHere(t.nodes, t.dirs[0], 0, "a");
    FirstHere(t.nodes, t.dirs[0], 1, "a");
    FirstHere(t.nodes, t.dirs[0], 2, "a");
    assert t.dirs[0][0..] == t.dirs[0];
    assert "a" <= "ab" && 2 in t.dirs[0];
    assert ClashIn(t.nodes, t.dirs[0], "a");
    assert names[..0] == [] && names[..1] == [] + ["a"];
    IsBlockedAt(t, names, 0);
    assert ["a"][..0] == [] && "a" + Ending(false) == "a";
  }

  /** Opening the path afterwards gives the new device exactly when no missing
      directory is blocked, the name is not refused and the path led nowhere
      before; and the device prints as the path it was created at. */
  lemma RoundTrip(t: Tree, u: Tree, path: string, r: Creation)
    requires Valid(t) && Valid(u) && NoDouble(path) && DOT !in Names(path)
    requires Promise(t, u, Names(path), HasSlash(path), r)
    ensures r.Created? && Target(u, path) == Some(r.device)
       <==> Names(path) != [] && !Blocked(t, Names(path)) && !Refused(t, Names(path), HasSlash(path))
            && Resolve(t, Names(path)).None?
    ensures r.Created? && Absolute(path) ==> Joined(u.place[r.device]) == path
  {
    hide Valid, Along, Resolve, Blocked, Refused, NoDouble;
    var names := Names(path);
    assert !EndsDouble(path) by { NotDoubleAtEnd(path); }
    if r.Created? {
      if Resolve(t, names).Some? {
        LookupKept(t, u, names, names);
        ResolvePlace(t, names);
      }
      if Absolute(path) { NamesJoined(path); }
    }
  }

  lemma NotDoubleAtEnd(path: string)
    requires NoDouble(path)
    ensures !EndsDouble(path)
  {
    if |path| >= 2 {
      var i := |path| - 2;
      assert path[i + 1] == path[|path| - 1];
    }
  }

  /** A device that was created readable or not, writable or not, is opened for
      exactly that. */
  lemma CreatedOpens(t: Tree, u: Tree, path: string, r: Creation, readable: bool, writable: bool, read: bool, write: bool)
    requires Promise(t, u, Names(path), HasSlash(path), r) && r.Created? && Target(u, path) == Some(r.device)
    requires u.nodes[r.device].readable == readable && u.nodes[r.device].writable == writable
    ensures Answer(u, Target(u, path), read, write)
         == if (read ==> readable) && (write ==> writable) then Opened(r.device) else Denied
  {
  }

  /** The directories that had to be made on the way can be entered, but neither
      read nor written. */
  lemma ParentsAreClosed(t: Tree, u: Tree, names: seq<string>, slash: bool, r: Creation, k: nat, read: bool, write: bool)
    requires Valid(t) && Valid(u) && Promise(t, u, names, slash, r) && r.Created? && DOT !in names
    requires 0 < k < |names| && Resolve(t, names[..k]).None?
    ensures Resolve(u, names[..k]).Some?
    ensures Answer(u, Resolve(u, names[..k]), read, write)
         == if read || write then Denied else Opened(Resolve(u, names[..k]).value)
  {
    hide Valid, Along, Resolve, Blocked, Refused;
    if Resolve(t, names).Some? { ResolvePrefix(t, names, k); }
    ResolvePrefix(u, names, k);
    ResolvePlace(u, names[..k]);
    Prefixes(names, k - 1);
    NewlyVisible(t, u, names, names[..k]);
    var x := Resolve(u, names[..k]).value;
    assert x != r.device;
    assert PlainNode(u.nodes[x]);
  }

  /** Every path that opened a device still opens the same one. */
  lemma OpenedBefore(t: Tree, u: Tree, names: seq<string>, path: string)
    requires Valid(t) && Along(t, u, names) && Target(t, path).Some?
    ensures Target(u, path) == Target(t, path)
    ensures forall read, write :: Answer(u, Target(u, path), read, write) == Answer(t, Target(t, path), read, write)
  {
    LookupKept(t, u, names, Names(path));
    ResolvePlace(t, Names(path));
    assert SameNode(t, u, Target(t, path).value);
  }

  /** And no path without "." opens anything new, unless it names a device on
      the way to the one created. */
  lemma OpenedAfter(t: Tree, u: Tree, names: seq<string>, path: string)
    requires Valid(t) && Valid(u) && Along(t, u, names) && DOT !in Names(path)
    requires Target(u, path).Some? && Target(t, path).None?
    ensures Names(path) <= names && Target(u, path).value !in t.nodes
  {
    NewlyVisible(t, u, names, Names(path));
  }

  /** The sanitised copy that a path is replaced by. */
  method Sanitised(path: string) returns (s: string)
    requires NUL !in path
    ensures s == Collapse(path)
  {
    var copy := new char[|path| + 1](i requires 0 <= i <= |path| => if i < |path| then path[i] else NUL);
    assert copy[..|path|] == path;
    assert forall i: nat :: i < |path| ==> copy[i] in path;
    var n := Sanitise(copy, |path|);
    s := copy[..n];
  }

  /** The loop that measures the name at `p`. */
  method NameLength(path: string, p: nat) returns (n: nat)
    requires p <= |path|
    ensures p + n <= |path| && '/' !in path[p..p + n] && (p + n == |path| || path[p + n] == '/')
  {
    n := 0;
    while p + n < |path| && path[p + n] != '/'
      invariant p + n <= |path| && '/' !in path[p..p + n]
    {
      assert path[p..p + n + 1] == path[p..p + n] + [path[p + n]];
      n := n + 1;
    }
  }

  class Devices {
    var nodes: map<nat, Device>
    const root: nat
    ghost var dirs: map<nat, seq<nat>>
    ghost var home: map<nat, nat>
    ghost var place: map<nat, seq<string>>

    ghost function Shape(): Tree
      reads this
    {
      Tree(nodes, dirs, home, place)
    }

    ghost predicate Ok()
      reads this
    {
      Valid(Shape()) && 0 in dirs && dirs[0] != [] && dirs[0][0] == root
    }

    /** The start of device_manager_init: a dummy alone. */
    constructor (address: nat)
      requires address != 0
      ensures Ok() && nodes == map[address := Dummy(0)]
      ensures forall names :: names != [] && DOT !in names ==> Resolve(Shape(), names).None?
    {
      root := address;
      nodes := map[address := Dummy(0)];
      dirs := map[0 := [address]];
      home := map[address := 0];
      place := map[0 := [], address := [DOT]];
      new;
      var t := Shape();
      assert Linked(t.nodes, [address], 0);
      assert Directory(t, 0);
      assert Placed(t, address);
    }

    /** `list` is the head of the list of `d`, and knows its parent. */
    ghost predicate Visiting(list: nat, d: nat)
      reads this
    {
      d in dirs && dirs[d] != [] && dirs[d][0] == list && list in nodes && nodes[list].parent == d
    }

    /** The search loop. */
    method FindIn(list: nat, name: string, ghost d: nat) returns (dev: nat)
      requires Ok() && Visiting(list, d) && NUL !in name
      ensures Step(Shape(), d, name) == if dev == 0 then None else Some(dev)
    {
      hide First;
      ghost var l := dirs[d];
      ghost var i: nat := 0;
      assert Directory(Shape(), d);
      assert l[0..] == l;
      dev := list;
      var found := false;
      while dev != 0 && !found
        invariant i <= |l| && dev == (if i < |l| then l[i] else 0)
        invariant First(nodes, l, name) == First(nodes, l[i..], name)
        invariant found ==> dev in nodes && nodes[dev].name == name
        decreases |l| - i, !found
      {
        assert Linked(nodes, l, i);
        FirstHere(nodes, l, i, name);
        assert Placed(Shape(), dev);
        if |name| == |nodes[dev].name| {
          var c := StrNCmp(name, nodes[dev].name, |name|);
          EqualWhenFull(name, nodes[dev].name);
          found := c == 0;
        }
        if !found {
          dev := nodes[dev].next;
          i := i + 1;
        }
      }
      assert i < |l| ==> Linked(nodes, l, i);
      FirstHere(nodes, l, i, name);
    }

    method Allocate() returns (p: nat)
      ensures p != 0 && p !in nodes
    {
      FreshAddress(nodes.Keys);
      p :| p != 0 && p !in nodes;
    }

    /** The children of `dev` become a dummy alone. */
    method GiveList(dev: nat, parent: nat) returns (h: nat)
      requires Ok() && dev in nodes && dev in home && nodes[dev].parent == home[dev] && dev !in dirs
      requires parent == 0 || parent == dev
      modifies this
      ensures Ok() && Along(old(Shape()), Shape(), []) && Plain(old(Shape()), Shape(), 0)
      ensures dev in dirs && dirs[dev] == [h] && h in nodes && nodes[h].parent == parent
      ensures dev in nodes && nodes[dev] == old(nodes[dev]).(child := h)
    {
      hide Valid, Along;
      ghost var t := Shape();
      h := Allocate();
      assert dev in place by { Known(t, dev); }
      RootPlace(t);
      nodes := nodes[dev := nodes[dev].(child := h)][h := Dummy(parent)];
      dirs := dirs[dev := [h]];
      home := home[h := dev];
      place := place[h := place[dev] + [DOT]];
      OpenedKeeps(t, dev, h, parent, []);
    }

    /** Going down into the children of a device that was found; a device
        without children gets an empty list first. */
    method EnterChild(dev: nat) returns (list: nat)
      requires Ok() && dev in nodes && dev in home && nodes[dev].parent == home[dev]
      modifies this
      ensures Ok() && Along(old(Shape()), Shape(), []) && Plain(old(Shape()), Shape(), 0)
      ensures Visiting(list, dev)
    {
      hide Valid, Along;
      ghost var t := Shape();
      AlongItself(t, []);
      Known(t, dev);
      RootPlace(t);
      if nodes[dev].child == 0 {
        var h := GiveList(dev, 0);
      }
      ghost var u := Shape();
      Known(u, dev);
      MarkedKeeps(u, dev, []);
      list := nodes[dev].child;
      nodes := nodes[list := nodes[list].(parent := dev)];
      AlongTransitive(t, u, Shape(), [], []);
      PlainThen(t, u, Shape(), [], 0, 0, 0);
    }

    /** The loop over the last list that looks for a name in the way. */
    method FindLast(list: nat, rest: string, ghost d: nat) returns (last: Option<nat>)
      requires Ok() && Visiting(list, d) && NUL !in rest
      ensures last.None? <==> ClashIn(nodes, dirs[d], rest)
      ensures last.Some? ==> last.value == dirs[d][|dirs[d]| - 1]
    {
      ghost var l := dirs[d];
      ghost var i: nat := 0;
      assert Directory(Shape(), d);
      var current: nat := list;
      last := Some(list);
      var clash := false;
      while current != 0 && !clash
        invariant i <= |l| && current == (if i < |l| then l[i] else 0)
        invariant last == Some(if i == 0 then list else l[i - 1])
        invariant forall j: nat :: j < i ==> l[j] in nodes && !(rest <= nodes[l[j]].name)
        invariant clash ==> current in nodes && rest <= nodes[current].name
        decreases |l| - i, !clash
      {
        assert Linked(nodes, l, i);
        assert Placed(Shape(), current);
        var c := StrNCmp(nodes[current].name, rest, |rest|);
        PrefixWhenShort(nodes[current].name, rest);
        clash := c == 0;
        if !clash {
          last := Some(current);
          current := nodes[current].next;
          i := i + 1;
        }
      }
      assert i < |l| ==> Linked(nodes, l, i);
      if clash {
        assert current in l;
        last := None;
      }
    }

    /** A new device behind `last`. */
    method Link(last: nat, name: string, kind: nat, readable: bool, writable: bool, ghost d: nat) returns (x: nat)
      requires Ok() && d in dirs && dirs[d] != [] && Visiting(dirs[d][0], d) && last == dirs[d][|dirs[d]| - 1]
      requires CleanName(name)
      modifies this
      ensures Ok() && d in old(place) && Along(old(Shape()), Shape(), old(place)[d] + [name])
      ensures Hangs(old(Shape()), Shape(), old(place)[d] + [name], false, x) && Plain(old(Shape()), Shape(), x)
      ensures Step(old(Shape()), d, name).None? ==> Step(Shape(), d, name) == Some(x)
      ensures nodes[x].kind == kind && nodes[x].readable == readable && nodes[x].writable == writable
    {
      hide Valid, Along, First, CleanName;
      ghost var t := Shape();
      VisitedMember(t, d, last);
      Member(t, d, last);
      RootPlace(t);
      x := Allocate();
      NoStrayDirectory(t, x);
      ghost var device := Device(name, kind, readable, writable, d, 0, 0);
      nodes := nodes[last := nodes[last].(next := x)][x := Device(name, kind, readable, writable, nodes[last].parent, 0, 0)];
      dirs := dirs[d := dirs[d] + [x]];
      home := home[x := d];
      place := place[x := place[d] + [name]];
      AppendedKeeps(t, d, x, device);
      if Step(t, d, name).None? { AppendedFound(t, d, x, device); }
    }

    /** Appending a device called `rest`, whose trailing delimiter, if any, asks
        for a directory and is cut off. */
    method Append(last: nat, rest: string, kind: nat, readable: bool, writable: bool,
                  ghost d: nat, ghost name: string, ghost slash: bool) returns (x: nat)
      requires Ok() && d in dirs && dirs[d] != [] && Visiting(dirs[d][0], d) && last == dirs[d][|dirs[d]| - 1]
      requires CleanName(name) && rest == name + Ending(slash)
      modifies this
      ensures Ok() && d in old(place) && Along(old(Shape()), Shape(), old(place)[d] + [name])
      ensures Hangs(old(Shape()), Shape(), old(place)[d] + [name], slash, x) && Plain(old(Shape()), Shape(), x)
      ensures Step(old(Shape()), d, name).None? ==> Step(Shape(), d, name) == Some(x)
      ensures nodes[x].kind == kind && nodes[x].readable == readable && nodes[x].writable == writable
    {
      hide Valid, Along, First, Step;
      ghost var t := Shape();
      SlashLast(name, slash);
      var directory := rest[|rest| - 1] == '/';
      x := Link(last, if directory then rest[..|rest| - 1] else rest, kind, readable, writable, d);
      if directory {
        ghost var u := Shape();
        var h := GiveList(x, 0);
        ghost var v := Shape();
        PlainThen(t, u, v, [], x, 0, x);
        AlongWiden(u, v, [], t.place[d] + [name]);
        AlongTransitive(t, u, v, t.place[d] + [name], t.place[d] + [name]);
        PlaceKept(u, v, [], x);
        if Step(u, d, name).Some? { StepKept(u, v, [], d, name); }
      }
    }

    /** device_create_at. Parents that are missing are created by calling itself
        on the path up to their name. */
    method Create(path: string, kind: nat, readable: bool, writable: bool) returns (r: Creation)
      requires Ok() && NUL !in path
      modifies this
      ensures Ok() && Promise(old(Shape()), Shape(), Names(path), HasSlash(path), r)
      ensures r.Created? ==> nodes[r.device].kind == kind
                             && nodes[r.device].readable == readable && nodes[r.device].writable == writable
      decreases |path|
    {
      hide Valid, Along, Collapse, Components, NoDouble, First, Reached, Promise, WalkAt, Hangs, ClashIn;
      ghost var t, names, slash := Shape(), Names(path), HasSlash(path);
      var s := Sanitised(path);
      CollapseEnds(path);
      CollapseIsClean(path);
      CollapseKeepsComponents(path, []);
      NamesClean(path, []);
      var p: nat := if s != [] && s[0] == '/' then 1 else 0;
      WalkBegin(s, p);
      Begin(t, names);
      var list := root;
      ghost var d: nat, i: nat := 0, 0;
      RootVisited(t);
      while p < |s|
        invariant p <= |s| && WalkAt(s, names, p, i)
        invariant Ok() && Visiting(list, d) && Reached(t, Shape(), names, i, d)
        decreases |s| - p
      {
        ghost var u := Shape();
        var n := NameLength(s, p);
        WalkName(s, names, p, i, n);
        if p + n < |s| && p + n + 1 < |s| {
          var dev := FindIn(list, s[p..p + n], d);
          if dev != 0 {
            VisitedMember(u, d, dev);
            list := EnterChild(dev);
            Enter(t, u, Shape(), names, i, d, dev);
          } else {
            var made := Create(s[..p + n], RESERVED, false, false);
            ghost var v := Shape();
            if !made.Created? {
              Stuck(t, u, v, names, i, d, made);
              return NullDereference;
            }
            dev := made.device;
            MadeHangs(u, v, names[..i + 1], dev);
            list := GiveList(dev, dev);
            Grow(t, u, v, Shape(), names, i, d, dev);
          }
          d, i := dev, i + 1;
          p := p + n + 1;
        } else {
          var last := FindLast(list, s[p..], d);
          assert s[p..] == names[i] + Ending(slash);
          if last.None? {
            Refuse(t, u, names, i, d, slash);
            return AlreadyExists;
          }
          var x := Append(last.value, s[p..], kind, readable, writable, d, names[i], slash);
          ReachedPlace(t, u, names, i, d);
          Finish(t, u, Shape(), names, i, d, slash, x);
          return Created(x);
        }
      }
      WalkEnd(s, names, p, i);
      NoName(t, Shape(), names, slash, d);
      return Nameless;
    }

    /** devfs_open */
    method Open(path: string, read: bool, write: bool) returns (r: Opening)
      requires Ok() && NUL !in path
      modifies this
      ensures Ok() && Along(old(Shape()), Shape(), []) && Plain(old(Shape()), Shape(), 0)
      ensures DOT !in Names(path) ==> r == Answer(old(Shape()), Target(old(Shape()), path), read, write)
      ensures DOT !in Names(path) ==> Answers(old(Shape()), Target(old(Shape()), path), read, write, r)
    {
      hide Valid, Along, Plain, Components, First, SkipAt, Resolve, Answers;
      AnswerMeans(Shape(), path, read, write);
      ghost var t, names := Shape(), Names(path);
      var p: nat := if path != [] && path[0] == '/' then 1 else 0;
      SkipBegin(path, p);
      var list := root;
      ghost var d: nat, i: nat := 0, 0;
      RootVisited(t);
      AlongItself(t, []);
      PlainItself(t);
      ResolveRoot(t);
      while p < |path|
        invariant p <= |path| && SkipAt(path, names, p, i)
        invariant Ok() && Visiting(list, d) && Found(t, Shape(), names, i, d)
        decreases |path| - p
      {
        ghost var u := Shape();
        var n := NameLength(path, p);
        if n == 0 {
          SkipDelimiter(path, names, p, i);
          p := p + 1;
        } else {
          SkipName(path, names, p, i, n);
          var dev := FindIn(list, path[p..p + n], d);
          if dev == 0 {
            FoundNothing(t, u, names, i, d);
            return Missing;
          }
          if p + n < |path| && p + n + 1 < |path| {
            VisitedMember(u, d, dev);
            list := EnterChild(dev);
            FoundEnter(t, u, Shape(), names, i, d, dev);
            d, i := dev, i + 1;
            p := p + n + 1;
          } else {
            FoundDevice(t, u, names, i, d, dev, read, write);
            if read && !nodes[dev].readable { return Denied; }
            if write && !nodes[dev].writable { return Denied; }
            return Opened(dev);
          }
        }
      }
      SkipEnd(path, names, p, i);
      return Missing;
    }

    /** An ancestor `up` of a device whose names are `names`: the root directory
        or a node that knows its parent, `k` names down. */
    ghost predicate Ancestor(names: seq<string>, k: nat, up: nat)
      reads this
    {
      && k <= |names| && up in place && place[up] == names[..k]
      && (up == 0 <==> k == 0)
      && (up == 0 || (up in nodes && up in home && nodes[up].parent == home[up]))
    }

    lemma IsAncestor(device: nat)
      requires Ok() && device in nodes && device in place && device in home && nodes[device].parent == home[device]
      ensures Ancestor(place[device], |place[device]|, device)
    {
      UpwardsOf(Shape(), device);
      assert place[device][..|place[device]|] == place[device];
    }

    lemma Climb(names: seq<string>, k: nat, up: nat)
      requires Ok() && Ancestor(names, k, up) && up != 0
      ensures Ancestor(names, k - 1, nodes[up].parent) && nodes[up].name == names[k - 1]
    {
      hide Valid;
      UpwardsOf(Shape(), up);
      RootPlace(Shape());
      var p := nodes[up].parent;
      assert names[..k] == names[..k - 1] + [names[k - 1]];
      assert p != 0 ==> k > 1 by {
        if p != 0 { UpwardsOf(Shape(), p); }
      }
    }

    /** The two loops that climb to the root: a device per name, deepest first. */
    method Hierarchy(device: nat, ghost names: seq<string>) returns (line: array<nat>)
      requires Ok() && Ancestor(names, |names|, device)
      ensures fresh(line) && line.Length == |names|
      ensures forall i: nat :: i < |names| ==> line[i] in nodes && nodes[line[i]].name == names[|names| - 1 - i]
    {
      hide Valid;
      var depth: nat := 0;
      var current := device;
      while current != 0
        invariant depth <= |names| && Ancestor(names, |names| - depth, current)
        decreases |names| - depth
      {
        Climb(names, |names| - depth, current);
        current := nodes[current].parent;
        depth := depth + 1;
      }
      line := new nat[depth];
      current := device;
      var i: nat := 0;
      while current != 0
        invariant i <= |names| && Ancestor(names, |names| - i, current)
        invariant forall j: nat :: j < i ==> line[j] in nodes && nodes[line[j]].name == names[|names| - 1 - j]
        decreases |names| - i
      {
        Climb(names, |names| - i, current);
        line[i] := current;
        current := nodes[current].parent;
        i := i + 1;
      }
    }

    /** device_generate_path_of. `bytes` is the size the caller claims. */
    method GeneratePath(device: nat, buffer: array<char>, bytes: nat)
      requires Ok() && device in nodes && device in place && device in home && nodes[device].parent == home[device]
      requires End(place[device], 0, Reserved(bytes)) < buffer.Length
      modifies buffer
      ensures buffer[..] == PrintedPath(place[device], old(buffer[..]), Reserved(bytes))
    {
      hide Valid, End, Joined, Fits, Shows, Offset, PrintedPath, Reserved;
      ghost var was, names := buffer[..], place[device];
      IsAncestor(device);
      var line := Hierarchy(device, names);
      var room := Reserved(bytes);
      var offset: nat, stop := 0, false;
      var i := line.Length - 1;
      ShowsNothing(names, was, room);
      while i >= 0 && !stop
        invariant -1 <= i < |names| == line.Length
        invariant Shows(names, was, buffer[..], offset, room)
        invariant !stop ==> offset == Offset(names, |names| - 1 - i)
        invariant !stop ==> End(names, |names| - 1 - i, room) == End(names, 0, room)
        invariant stop ==> offset == End(names, 0, room)
        invariant forall j: nat :: j < |names| ==> line[j] in nodes && nodes[line[j]].name == names[|names| - 1 - j]
        decreases i + 1, !stop
      {
        ghost var k := |names| - 1 - i;
        PrintRound(names, k, was, buffer[..], room);
        offset, stop := PrintName(buffer, offset, nodes[line[i]].name, room);
        i := i - 1;
      }
      PrintEnd(names, room);
      ShowsPrinted(names, was, buffer[..], room);
      buffer[offset] := NUL;
    }
  }
}
