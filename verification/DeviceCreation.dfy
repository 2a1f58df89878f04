/** What creating a device promises, in terms of the lookups before and after,
    and how the promise is built up while the path is walked. */
module DeviceCreation {
  import opened Options
  import opened DeviceTree

  datatype Creation = Created(device: nat) | AlreadyExists | Nameless | NullDereference

  /** A directory on the way is missing and some sibling begins with its name:
      creating it is refused, and the refusal is used as a device. */
  ghost predicate Blocked(t: Tree, names: seq<string>) {
    exists j: nat :: j + 1 < |names| && BlockedAt(t, names, j)
  }

  ghost predicate BlockedAt(t: Tree, names: seq<string>, j: nat)
    requires j < |names|
  {
    Resolve(t, names[..j + 1]).None? && Clash(t, names[..j], names[j])
  }

  function Ending(slash: bool): string {
    if slash then "/" else ""
  }

  /** Some sibling begins with the last name and the delimiter after it. */
  ghost predicate Refused(t: Tree, names: seq<string>, slash: bool) {
    names != [] && Clash(t, names[..|names| - 1], names[|names| - 1] + Ending(slash))
  }

  /** The node of the new device. */
  ghost predicate Hangs(t: Tree, u: Tree, names: seq<string>, slash: bool, device: nat) {
    && device != 0 && device !in t.nodes && device in u.nodes
    && device in u.place && u.place[device] == names
    && device in u.home && u.nodes[device].parent == u.home[device]
    && (device in u.dirs <==> slash)
  }

  /** The outcome of a creation, for every path without "." among its names. */
  ghost predicate Outcome(t: Tree, u: Tree, names: seq<string>, slash: bool, r: Creation) {
    match r
    case Nameless => names == []
    case NullDereference => Blocked(t, names)
    case AlreadyExists => names != [] && !Blocked(t, names) && Refused(t, names, slash)
    case Created(device) => names != [] && !Blocked(t, names) && !Refused(t, names, slash)
                            && (Resolve(t, names).None? ==> Resolve(u, names) == Some(device))
  }

  ghost predicate Promise(t: Tree, u: Tree, names: seq<string>, slash: bool, r: Creation) {
    && Along(t, u, names) && Plain(t, u, if r.Created? then r.device else 0)
    && (r.Created? ==> names != [] && Hangs(t, u, names, slash, r.device))
    && (DOT !in names ==> Outcome(t, u, names, slash, r))
  }

  // ------------------------------------------------------- one name further

  /** No directory among the first `i` names is blocked. */
  ghost predicate WayClear(t: Tree, names: seq<string>, i: nat)
    requires i <= |names|
  {
    forall j: nat :: j < i ==> !BlockedAt(t, names, j)
  }

  /** The walk has reached directory `d` after `i` names. */
  ghost predicate Reached(t: Tree, u: Tree, names: seq<string>, i: nat, d: nat) {
    && i <= |names| && Valid(t) && Valid(u) && Along(t, u, names[..i]) && Plain(t, u, 0)
    && d in u.dirs && d in u.place && u.place[d] == names[..i]
    && (DOT !in names ==> Resolve(u, names[..i]) == Some(d) && WayClear(t, names, i))
  }

  lemma Begin(t: Tree, names: seq<string>)
    requires Valid(t)
    ensures Reached(t, t, names, 0, 0)
  {
    RootPlace(t);
  }

  lemma Prefixes(names: seq<string>, i: nat)
    requires i < |names|
    ensures names[..i + 1] == names[..i] + [names[i]] && names[..i + 1][..i] == names[..i]
    ensures names[..i] < names[..i + 1] <= names
    ensures DOT !in names ==> DOT !in names[..i] && DOT !in names[..i + 1] && names[i] != DOT
    ensures !(names[..i + 1] <= names[..i])
  {
  }

  lemma AlongWiden(t: Tree, u: Tree, names: seq<string>, longer: seq<string>)
    requires Along(t, u, names) && names <= longer
    ensures Along(t, u, longer)
  {
    forall x | x in u.nodes && x !in t.nodes ensures New(t, u, x, longer) {
      assert New(t, u, x, names);
    }
  }

  /** The name was found and its list of children entered. */
  lemma Enter(t: Tree, u: Tree, v: Tree, names: seq<string>, i: nat, d: nat, x: nat)
    requires Reached(t, u, names, i, d) && i < |names| && Step(u, d, names[i]) == Some(x)
    requires Valid(v) && Along(u, v, []) && Plain(u, v, 0) && x in v.dirs
    ensures Reached(t, v, names, i + 1, x)
  {
    hide Valid, Along, Plain, Resolve, BlockedAt, Clash;
    PlainThen(t, u, v, [], 0, 0, 0);
    Prefixes(names, i);
    AlongWiden(u, v, [], names[..i + 1]);
    AlongTransitive(t, u, v, names[..i], names[..i + 1]);
    Member(u, d, x);
    PlaceKept(u, v, [], x);
    if DOT !in names {
      ResolveStep(u, names[..i], names[i]);
      LookupKept(u, v, [], names[..i + 1]);
      if Resolve(t, names[..i + 1]).None? { NewlyVisible(t, u, names[..i], names[..i + 1]); }
      NotBlockedAt(t, names, i);
    }
  }

  lemma NotBlockedAt(t: Tree, names: seq<string>, i: nat)
    requires i < |names| && (Resolve(t, names[..i + 1]).Some? || !Clash(t, names[..i], names[i]))
    ensures !BlockedAt(t, names, i)
  {
  }

  lemma IsBlockedAt(t: Tree, names: seq<string>, i: nat)
    requires i + 1 < |names| && Resolve(t, names[..i + 1]).None? && Clash(t, names[..i], names[i])
    ensures Blocked(t, names)
  {
    assert BlockedAt(t, names, i);
  }

  /** With the directory above reached, only the last name can be in the way. */
  lemma NotBlocked(u: Tree, names: seq<string>, i: nat)
    requires i < |names| && Resolve(u, names[..i]).Some?
    ensures !Blocked(u, names[..i + 1])
  {
    var front := names[..i + 1];
    forall j: nat | j + 1 < |front| ensures !BlockedAt(u, front, j) {
      assert front[..j + 1] == names[..i][..j + 1];
      ResolvePrefix(u, names[..i], j + 1);
    }
  }

  lemma ClashBack(t: Tree, u: Tree, names: seq<string>, i: nat, name: string)
    requires Valid(t) && Valid(u) && i < |names| && Along(t, u, names[..i]) && DOT !in names
    requires name != [] && name != DOT
    ensures Clash(t, names[..i], name) <==> Clash(u, names[..i], name)
  {
    hide Valid, Along, Clash;
    if Clash(t, names[..i], name) { ClashKept(t, u, names[..i], names[..i], name); }
    if Clash(u, names[..i], name) && !Clash(t, names[..i], name) {
      Prefixes(names, i);
      ClashNew(t, u, names[..i], names[..i], name);
    }
  }

  lemma RefusedHere(u: Tree, names: seq<string>, i: nat)
    requires i < |names|
    ensures Refused(u, names[..i + 1], false) <==> Clash(u, names[..i], names[i])
  {
    Prefixes(names, i);
    assert names[i] + Ending(false) == names[i];
  }

  /** The missing directory could not be created: the path was blocked. */
  lemma Stuck(t: Tree, u: Tree, v: Tree, names: seq<string>, i: nat, d: nat, r: Creation)
    requires Reached(t, u, names, i, d) && i + 1 < |names| && names[i] != []
    requires Step(u, d, names[i]).None?
    requires Valid(v) && Promise(u, v, names[..i + 1], false, r) && !r.Created?
    ensures Promise(t, v, names, false, NullDereference) && Promise(t, v, names, true, NullDereference)
  {
    hide Valid, Along, Plain, Resolve, BlockedAt, Clash, Blocked, Refused, Step;
    PlainThen(t, u, v, names[..i + 1], 0, 0, 0);
    Prefixes(names, i);
    AlongTransitive(t, u, v, names[..i], names[..i + 1]);
    AlongWiden(t, v, names[..i + 1], names);
    if DOT !in names {
      NotBlocked(u, names, i);
      RefusedHere(u, names, i);
      ClashBack(t, u, names, i, names[i]);
      ResolveStep(u, names[..i], names[i]);
      if Resolve(t, names[..i + 1]).Some? { LookupKept(t, u, names[..i], names[..i + 1]); }
      IsBlockedAt(t, names, i);
    }
  }

  /** The missing directory was created and given a list of children. */
  lemma Grow(t: Tree, u: Tree, v: Tree, w: Tree, names: seq<string>, i: nat, d: nat, x: nat)
    requires Reached(t, u, names, i, d) && i < |names| && names[i] != []
    requires Step(u, d, names[i]).None?
    requires Valid(v) && Promise(u, v, names[..i + 1], false, Created(x))
    requires x in v.nodes && PlainNode(v.nodes[x])
    requires Valid(w) && Along(v, w, []) && Plain(v, w, 0) && x in w.dirs
    ensures Reached(t, w, names, i + 1, x)
  {
    hide Valid, Along, Plain, Resolve, BlockedAt, Clash, Blocked, Refused, Step;
    PlainAll(u, v, x);
    PlainThen(t, u, v, names[..i + 1], 0, 0, 0);
    PlainThen(t, v, w, [], 0, 0, 0);
    Prefixes(names, i);
    AlongWiden(v, w, [], names[..i + 1]);
    AlongTransitive(u, v, w, names[..i + 1], names[..i + 1]);
    AlongTransitive(t, u, w, names[..i], names[..i + 1]);
    PlaceKept(v, w, [], x);
    if DOT !in names {
      RefusedHere(u, names, i);
      ClashBack(t, u, names, i, names[i]);
      ResolveStep(u, names[..i], names[i]);
      LookupKept(v, w, [], names[..i + 1]);
      NotBlockedAt(t, names, i);
    }
  }

  lemma WayIsClear(t: Tree, names: seq<string>, i: nat)
    requires |names| == i + 1 && WayClear(t, names, i)
    ensures !Blocked(t, names)
  {
  }

  /** The last name was refused. */
  lemma Refuse(t: Tree, u: Tree, names: seq<string>, i: nat, d: nat, slash: bool)
    requires Reached(t, u, names, i, d) && |names| == i + 1 && names[i] != []
    requires ClashIn(u.nodes, u.dirs[d], names[i] + Ending(slash))
    ensures Promise(t, u, names, slash, AlreadyExists)
  {
    hide Valid, Along, Resolve, BlockedAt, Blocked, ClashIn;
    Prefixes(names, i);
    AlongWiden(t, u, names[..i], names);
    if DOT !in names {
      WayIsClear(t, names, i);
      NotDot(names[i], slash);
      assert Clash(u, names[..i], names[i] + Ending(slash));
      ClashBack(t, u, names, i, names[i] + Ending(slash));
    }
  }

  lemma NotDot(name: string, slash: bool)
    requires name != [] && name != DOT
    ensures name + Ending(slash) != [] && name + Ending(slash) != DOT
  {
  }

  /** The device was appended. */
  lemma Finish(t: Tree, u: Tree, v: Tree, names: seq<string>, i: nat, d: nat, slash: bool, x: nat)
    requires Reached(t, u, names, i, d) && |names| == i + 1 && names[i] != []
    requires !ClashIn(u.nodes, u.dirs[d], names[i] + Ending(slash))
    requires Valid(v) && Along(u, v, names) && Plain(u, v, x) && Hangs(u, v, names, slash, x)
    requires Step(u, d, names[i]).None? ==> Step(v, d, names[i]) == Some(x)
    ensures Promise(t, v, names, slash, Created(x))
  {
    hide Valid, Along, Plain, Resolve, BlockedAt, Blocked, ClashIn, Step;
    PlainThen(t, u, v, names, 0, x, x);
    Prefixes(names, i);
    assert names[..i + 1] == names;
    AlongTransitive(t, u, v, names[..i], names);
    assert x !in t.nodes by { OldStays(t, u, names[..i], x); }
    if DOT !in names {
      WayIsClear(t, names, i);
      NotDot(names[i], slash);
      assert !Clash(u, names[..i], names[i] + Ending(slash));
      ClashBack(t, u, names, i, names[i] + Ending(slash));
      ResolveStep(u, names[..i], names[i]);
      ResolveStep(v, names[..i], names[i]);
      LookupKept(u, v, names, names[..i]);
      if Resolve(t, names).None? && Resolve(u, names).Some? {
        NewlyVisible(t, u, names[..i], names);
      }
    }
  }

  lemma OldStays(t: Tree, u: Tree, names: seq<string>, x: nat)
    requires Along(t, u, names)
    ensures x in t.nodes ==> x in u.nodes
  {
    if x in t.nodes { assert SameNode(t, u, x); }
  }

  /** A created device hangs where its names say. */
  lemma MadeHangs(u: Tree, v: Tree, names: seq<string>, x: nat)
    requires Promise(u, v, names, false, Created(x))
    ensures Hangs(u, v, names, false, x)
    ensures x in v.nodes && x in v.home && v.nodes[x].parent == v.home[x] && x !in v.dirs
  {
  }

  lemma ReachedPlace(t: Tree, u: Tree, names: seq<string>, i: nat, d: nat)
    requires Reached(t, u, names, i, d) && |names| == i + 1
    ensures d in u.place && u.place[d] + [names[i]] == names
  {
  }

  /** A path of delimiters only names nothing. */
  lemma NoName(t: Tree, u: Tree, names: seq<string>, slash: bool, d: nat)
    requires Reached(t, u, names, 0, d) && names == []
    ensures Promise(t, u, names, slash, Nameless)
  {
  }
}
