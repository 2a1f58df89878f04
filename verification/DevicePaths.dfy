/** Path strings of the device tree: reading names off a path one by one, and
    joining names back into a path. */
module DevicePaths {
  import opened CStrings
  import opened Paths

  function Names(path: string): seq<string> {
    Components(path, [])
  }

  // ------------------------------------------------------------ reading names

  lemma {:induction false} NameFirst(s: string, name: string, n: nat)
    requires n <= |s| && '/' !in s[..n] && (n == |s| || s[n] == '/') && name + s[..n] != []
    ensures Components(s, name) == [name + s[..n]] + Components(s[n..], [])
  {
    if n == 0 {
      assert name + s[..0] == name && s[0..] == s;
    } else {
      assert s[0] in s[..n];
      assert s[1..][..n - 1] == s[..n][1..] && s[1..][n - 1..] == s[n..];
      assert name + [s[0]] + s[1..][..n - 1] == name + s[..n];
      NameFirst(s[1..], name + [s[0]], n - 1);
    }
  }

  lemma {:induction false} NamesJoin(s: string, t: string, name: string)
    ensures Components(s + "/" + t, name) == Components(s, name) + Components(t, [])
  {
    var whole := s + "/" + t;
    if s == [] {
      assert whole[1..] == t;
    } else {
      assert whole[0] == s[0] && whole[1..] == s[1..] + "/" + t;
      NamesJoin(s[1..], t, []);
      NamesJoin(s[1..], t, name + [s[0]]);
    }
  }

  /** A path can be cut after any delimiter. */
  lemma NamesCut(s: string, p: nat)
    requires 0 < p <= |s| && s[p - 1] == '/'
    ensures Names(s) == Names(s[..p]) + Names(s[p..])
    ensures Names(s[..p]) == Names(s[..p - 1])
  {
    assert s == s[..p - 1] + "/" + s[p..];
    NamesJoin(s[..p - 1], s[p..], []);
    assert s[..p] == s[..p - 1] + "/" + [];
    NamesJoin(s[..p - 1], [], []);
  }

  ghost predicate Clean(names: seq<string>) {
    forall k: nat :: k < |names| ==> names[k] != [] && '/' !in names[k] && NUL !in names[k]
  }

  lemma {:induction false} NamesClean(s: string, name: string)
    requires NUL !in s && NUL !in name && '/' !in name
    ensures Clean(Components(s, name))
  {
    if s != [] {
      assert s[0] in s;
      NamesClean(s[1..], []);
      if s[0] != '/' { NamesClean(s[1..], name + [s[0]]); }
    }
  }

  lemma {:induction false} NoNames(s: string, name: string)
    requires Components(s, name) == []
    ensures name == [] && forall k: nat :: k < |s| ==> s[k] == '/'
  {
    if s != [] {
      if s[0] == '/' {
        NoNames(s[1..], []);
        assert forall k: nat :: 0 < k < |s| ==> s[k] == s[1..][k - 1];
      } else {
        NoNames(s[1..], name + [s[0]]);
      }
    }
  }

  lemma NameAlone(name: string)
    requires name != [] && '/' !in name
    ensures Names(name) == [name]
  {
    assert name[..|name|] == name && name[|name|..] == [] && [] + name == name;
    NameFirst(name, [], |name|);
  }

  /** What a scan of the name at `p` finds: the names before, the name, and the
      names after. */
  lemma ScanName(s: string, p: nat, n: nat)
    requires p + n <= |s| && 0 < n && '/' !in s[p..p + n] && (p + n == |s| || s[p + n] == '/')
    requires p == 0 || s[p - 1] == '/'
    ensures Names(s[..p + n]) == Names(s[..p]) + [s[p..p + n]]
    ensures Names(s[p..]) == [s[p..p + n]] + Names(s[p + n..])
    ensures p + n < |s| ==> Names(s[p + n..]) == Names(s[p + n + 1..])
    ensures p + n < |s| ==> Names(s[..p + n + 1]) == Names(s[..p + n])
  {
    var name := s[p..p + n];
    assert s[p..][..n] == name && s[p..][n..] == s[p + n..];
    assert [] + name == name;
    NameFirst(s[p..], [], n);
    var front := s[..p + n];
    assert front[p..] == name && front[..p] == s[..p];
    NameAlone(name);
    if p > 0 {
      NamesCut(front, p);
    } else {
      assert front == name;
    }
    if p + n < |s| {
      assert s[p + n..][0] == '/' && s[p + n..][1..] == s[p + n + 1..];
      assert s[..p + n + 1][..p + n] == s[..p + n];
      NamesCut(s[..p + n + 1], p + n + 1);
    }
  }

  /** Walking a sanitised path: `i` names are read and the next begins at `p`. */
  ghost predicate WalkAt(s: string, names: seq<string>, p: nat, i: nat) {
    && p <= |s| && i <= |names| && (p == 0 || s[p - 1] == '/') && (p < |s| ==> s[p] != '/')
    && names[..i] == Names(s[..p]) && names[i..] == Names(s[p..])
    && (p == |s| ==> i == 0)
  }

  lemma WalkBegin(s: string, p: nat)
    requires NoDouble(s) && p == if s != [] && s[0] == '/' then 1 else 0
    ensures WalkAt(s, Names(s), p, 0)
  {
    NamesEmpty();
    if p == 1 {
      NamesCut(s, 1);
      assert s[..1] == "/" && s[..0] == [];
      assert |s| > 1 ==> !(s[0] == '/' && s[0 + 1] == '/');
    } else {
      assert s[..0] == [] && s[0..] == s;
    }
  }

  lemma WalkName(s: string, names: seq<string>, p: nat, i: nat, n: nat)
    requires NoDouble(s) && NUL !in s && WalkAt(s, names, p, i) && p < |s|
    requires p + n <= |s| && '/' !in s[p..p + n] && (p + n == |s| || s[p + n] == '/')
    ensures 0 < n && i < |names| && names[i] == s[p..p + n] && NUL !in names[i]
    ensures p + n + 1 < |s| ==> WalkAt(s, names, p + n + 1, i + 1)
    ensures Names(s[..p + n]) == names[..i + 1] && !HasSlash(s[..p + n])
    ensures p + n + 1 >= |s| ==> |names| == i + 1 && s[p..] == names[i] + (if HasSlash(s) then "/" else "")
    ensures p + n + 1 < |s| ==> i + 1 < |names|
  {
    hide Components, NoDouble;
    ScanName(s, p, n);
    assert names[i..][0] == names[i] && names[i..][1..] == names[i + 1..];
    assert names[..i + 1] == names[..i] + [names[i]];
    NamesEmpty();
    if p + n == |s| {
      assert s[p + n..] == [] && s[p..] == s[p..p + n];
    } else if p + n + 1 == |s| {
      assert s[p + n + 1..] == [] && s[p..] == s[p..p + n] + "/";
    } else {
      NextIsName(s, p + n);
      SomeName(s[p + n + 1..]);
    }
  }

  lemma SomeName(s: string)
    requires s != [] && s[0] != '/'
    ensures Names(s) != []
  {
    if Names(s) == [] { NoNames(s, []); }
  }

  lemma WalkEnd(s: string, names: seq<string>, p: nat, i: nat)
    requires WalkAt(s, names, p, i) && p == |s|
    ensures i == 0 && names == []
  {
    NamesEmpty();
    assert s[p..] == [] && names[0..] == names;
  }

  lemma NextIsName(s: string, k: nat)
    requires NoDouble(s) && k + 1 < |s| && s[k] == '/'
    ensures s[k + 1] != '/'
  {
  }

  ghost predicate EndsDouble(path: string) {
    |path| >= 2 && path[|path| - 1] == '/' && path[|path| - 2] == '/'
  }

  /** Walking any path, with doubled delimiters skipped on the way: the walk
      runs off the end only behind a doubled delimiter. */
  ghost predicate SkipAt(s: string, names: seq<string>, p: nat, i: nat) {
    && p <= |s| && i <= |names| && (p == 0 || s[p - 1] == '/')
    && names[i..] == Names(s[p..]) && (i > 0 && i == |names| ==> EndsDouble(s))
  }

  lemma SkipBegin(s: string, p: nat)
    requires p == if s != [] && s[0] == '/' then 1 else 0
    ensures SkipAt(s, Names(s), p, 0)
  {
    if p == 1 {
      assert Names(s) == Names(s[1..]);
    } else {
      assert s[0..] == s;
    }
  }

  lemma SkipDelimiter(s: string, names: seq<string>, p: nat, i: nat)
    requires SkipAt(s, names, p, i) && p < |s| && s[p] == '/'
    ensures SkipAt(s, names, p + 1, i)
  {
    assert s[p..][1..] == s[p + 1..];
  }

  lemma SkipName(s: string, names: seq<string>, p: nat, i: nat, n: nat)
    requires NUL !in s && SkipAt(s, names, p, i) && 0 < n
    requires p + n <= |s| && '/' !in s[p..p + n] && (p + n == |s| || s[p + n] == '/')
    ensures i < |names| && names[i] == s[p..p + n] && NUL !in names[i]
    ensures p + n + 1 < |s| ==> SkipAt(s, names, p + n + 1, i + 1)
    ensures p + n + 1 >= |s| ==> |names| == i + 1 && !EndsDouble(s)
  {
    hide Components;
    ScanName(s, p, n);
    assert names[i..][0] == names[i] && names[i..][1..] == names[i + 1..];
    NamesEmpty();
    assert s[p + n - 1] == s[p..p + n][n - 1];
    if p + n == |s| {
      assert s[p + n..] == [];
    } else if p + n + 1 == |s| {
      assert s[p + n + 1..] == [];
    } else if i + 1 == |names| {
      OnlyDelimiters(s, p + n);
    }
  }

  lemma OnlyDelimiters(s: string, k: nat)
    requires k + 1 < |s| && s[k] == '/' && Names(s[k + 1..]) == []
    ensures EndsDouble(s)
  {
    NoNames(s[k + 1..], []);
    var rest := s[k + 1..];
    assert rest[|rest| - 1] == s[|s| - 1];
    assert |rest| >= 2 ==> rest[|rest| - 2] == s[|s| - 2];
  }

  lemma SkipEnd(s: string, names: seq<string>, p: nat, i: nat)
    requires SkipAt(s, names, p, i) && p == |s|
    ensures names == [] || EndsDouble(s)
  {
    NamesEmpty();
    assert s[p..] == [];
  }

  // ------------------------------------------------------------ joining names

  function Joined(names: seq<string>): string {
    if names == [] then [] else Joined(names[..|names| - 1]) + "/" + names[|names| - 1]
  }

  /** Joining is undone by reading the names. */
  lemma {:induction false} JoinedNames(names: seq<string>)
    requires Clean(names)
    ensures Names(Joined(names)) == names
  {
    if names != [] {
      var front, last := names[..|names| - 1], names[|names| - 1];
      JoinedNames(front);
      NamesJoin(Joined(front), last, []);
      NameAlone(last);
      assert names == front + [last];
    }
  }

  ghost predicate Absolute(path: string) {
    path == [] || (path[0] == '/' && path[|path| - 1] != '/')
  }

  /** The directory part of such a path is such a path. */
  lemma DirectoryPart(path: string)
    requires NoDouble(path) && Absolute(path) && path != []
    ensures '/' in path && NoDouble(DirectoryOf(path)) && Absolute(DirectoryOf(path))
    ensures |DirectoryOf(path)| < |path| && BaseOf(path) != [] && '/' !in BaseOf(path)
    ensures path == DirectoryOf(path) + "/" + BaseOf(path)
  {
    var directory := DirectoryOf(path);
    SplitRebuilds(path, directory, BaseOf(path));
    var d := |directory|;
    assert directory == path[..d] && path[d] == '/';
    assert forall i: nat {:trigger directory[i]} :: i + 1 < d ==> !(path[i] == '/' && path[i + 1] == '/');
    assert d > 0 ==> path[d - 1 + 1] == '/' && path[d - 1] != '/';
  }

  /** Reading the names of a sanitised path is undone by joining them. */
  lemma {:induction false} NamesJoined(path: string)
    requires NoDouble(path) && Absolute(path)
    ensures Joined(Names(path)) == path
    decreases |path|
  {
    hide NoDouble, Absolute, DirectoryOf, BaseOf, Components;
    if path == [] {
      NamesEmpty();
    } else {
      DirectoryPart(path);
      NamesJoined(DirectoryOf(path));
      NamesJoin(DirectoryOf(path), BaseOf(path), []);
      NameAlone(BaseOf(path));
      assert Names(path)[..|Names(path)| - 1] == Names(DirectoryOf(path));
    }
  }

  lemma NamesEmpty()
    ensures Names([]) == []
  {
  }

  // --------------------------------------------------------- bounded printing

  /** Length of the first `k` names, joined. */
  function Offset(names: seq<string>, k: nat): nat
    requires k <= |names|
  {
    |Joined(names[..k])|
  }

  lemma OffsetStep(names: seq<string>, k: nat)
    requires k < |names|
    ensures Offset(names, k + 1) == Offset(names, k) + 1 + |names[k]|
    ensures Joined(names[..k + 1]) == Joined(names[..k]) + "/" + names[k]
  {
    assert names[..k + 1][..k] == names[..k];
  }

  lemma {:induction false} JoinedPrefix(names: seq<string>, k: nat)
    requires k <= |names|
    ensures Offset(names, k) <= |Joined(names)| && Joined(names)[..Offset(names, k)] == Joined(names[..k])
    decreases |names| - k
  {
    if k == |names| {
      assert names[..k] == names;
    } else {
      OffsetStep(names, k);
      JoinedPrefix(names, k + 1);
      assert Joined(names)[..Offset(names, k)] == Joined(names)[..Offset(names, k + 1)][..Offset(names, k)];
    }
  }

  /** Where the terminator goes when printing starts at name `k` with `room`
      bytes: the bound is looked at before and after each delimiter, but a name
      that is cut short still counts in full. */
  function End(names: seq<string>, k: nat, room: nat): (offset: nat)
    requires k <= |names|
    decreases |names| - k
  {
    if k == |names| || room <= Offset(names, k) then Offset(names, k)
    else if room == Offset(names, k) + 1 then room
    else End(names, k + 1, room)
  }

  lemma {:induction false} EndFits(names: seq<string>, k: nat, room: nat)
    requires Clean(names) && k <= |names| && |Joined(names)| <= room
    ensures End(names, k, room) == |Joined(names)|
    decreases |names| - k
  {
    if k == |names| {
      assert names[..k] == names;
    } else {
      JoinedPrefix(names, k + 1);
      OffsetStep(names, k);
      EndFits(names, k + 1, room);
    }
  }

  /** The cut falls on a delimiter, just before it or just after it. */
  ghost predicate CutAtDelimiter(names: seq<string>, k: nat, room: nat) {
    exists j: nat :: k <= j < |names| && CutAt(names, j, room)
  }

  ghost predicate CutAt(names: seq<string>, j: nat, room: nat)
    requires j < |names|
  {
    Offset(names, j) == room || Offset(names, j) + 1 == room
  }

  lemma {:induction false} OffsetGrows(names: seq<string>, k: nat, j: nat)
    requires k <= j <= |names|
    ensures Offset(names, k) <= Offset(names, j)
    decreases j - k
  {
    if k < j {
      OffsetStep(names, k);
      OffsetGrows(names, k + 1, j);
    }
  }

  /** The terminator stays inside the buffer exactly when the path fits or is
      cut at a delimiter; cut inside a name, it is written past the end. */
  lemma {:induction false} EndInside(names: seq<string>, k: nat, room: nat)
    requires Clean(names) && k <= |names|
    ensures End(names, k, room) <= room <==> |Joined(names)| <= room || CutAtDelimiter(names, k, room)
    decreases |names| - k
  {
    hide Joined, CutAt;
    if k == |names| {
      assert names[..k] == names;
    } else if room < Offset(names, k) {
      JoinedPrefix(names, k);
      forall j: nat | k <= j < |names| ensures !CutAt(names, j, room) {
        OffsetGrows(names, k, j);
        NotCut(names, j, room);
      }
    } else if room <= Offset(names, k) + 1 {
      IsCut(names, k, room);
    } else {
      OffsetStep(names, k);
      EndInside(names, k + 1, room);
      NotCut(names, k, room);
    }
  }

  lemma NotCut(names: seq<string>, j: nat, room: nat)
    requires j < |names| && (room < Offset(names, j) || room > Offset(names, j) + 1)
    ensures !CutAt(names, j, room)
  {
  }

  lemma IsCut(names: seq<string>, j: nat, room: nat)
    requires j < |names| && Offset(names, j) <= room <= Offset(names, j) + 1
    ensures CutAt(names, j, room)
  {
  }

  /** A two-letter name and a buffer of three bytes: the terminator is the
      fourth byte. */
  lemma CutInsideName()
    ensures Clean(["ab"]) && End(["ab"], 0, 2) == 3
  {
    var names := ["ab"];
    assert names[..0] == [] && names[..1] == names;
    OffsetStep(names, 0);
    assert End(names, 1, 2) == Offset(names, 1);
  }

  lemma {:induction false} EndAtLeast(names: seq<string>, k: nat, room: nat)
    requires k <= |names|
    ensures Offset(names, k) <= End(names, k, room)
    decreases |names| - k
  {
    if k < |names| && room > Offset(names, k) + 1 {
      OffsetStep(names, k);
      EndAtLeast(names, k + 1, room);
    }
  }

  /** Bytes of a name and its delimiter that still fit behind `offset`. */
  function Fits(name: string, offset: nat, room: nat): nat {
    if room <= offset then 0 else Min(1 + |name|, room - offset)
  }

  /** A buffer after printing up to `offset`, cut off at `room`. */
  ghost predicate Shows(names: seq<string>, was: string, now: string, offset: nat, room: nat) {
    var m := Min(offset, room);
    m <= |was| && m <= |Joined(names)| && now == Joined(names)[..m] + was[m..]
  }

  lemma ShowsMore(names: seq<string>, k: nat, was: string, before: string, room: nat, next: nat)
    requires k < |names| && Offset(names, k) < room && Shows(names, was, before, Offset(names, k), room)
    requires Offset(names, k) + Fits(names[k], Offset(names, k), room) <= |was|
    requires Min(next, room) == Offset(names, k) + Fits(names[k], Offset(names, k), room)
    ensures var offset := Offset(names, k);
      var n := Fits(names[k], offset, room);
      |before| == |was| && n <= 1 + |names[k]|
      && Shows(names, was, before[..offset] + ("/" + names[k])[..n] + before[offset + n..], next, room)
  {
    var offset := Offset(names, k);
    var n := Fits(names[k], offset, room);
    var joined := Joined(names);
    OffsetStep(names, k);
    JoinedPrefix(names, k + 1);
    JoinedPrefix(names, k);
    assert joined[..offset + 1 + |names[k]|] == joined[..offset] + ("/" + names[k]);
    assert joined[..offset + n] == joined[..offset + 1 + |names[k]|][..offset + n];
    assert joined[..offset + n] == before[..offset] + ("/" + names[k])[..n];
    assert before[offset + n..] == was[offset + n..];
  }

  lemma ShowsNothing(names: seq<string>, was: string, room: nat)
    ensures Shows(names, was, was, 0, room) && Offset(names, 0) == 0
  {
    assert names[..0] == [];
  }

  /** One round of printing: there is room in the buffer, the text grows by what
      fits, and the end stays where it was going to be. */
  lemma PrintRound(names: seq<string>, k: nat, was: string, before: string, room: nat)
    requires k < |names| && Shows(names, was, before, Offset(names, k), room) && End(names, k, room) < |was|
    ensures var offset := Offset(names, k);
      var n := Fits(names[k], offset, room);
      var next := if room <= offset then offset else if room == offset + 1 then room else offset + 1 + |names[k]|;
      && offset + n <= |was| == |before| && n <= 1 + |names[k]|
      && Shows(names, was, before[..offset] + ("/" + names[k])[..n] + before[offset + n..], next, room)
      && (room <= offset + 1 ==> next == End(names, k, room))
      && (room > offset + 1 ==> next == Offset(names, k + 1) && End(names, k, room) == End(names, k + 1, room))
  {
    hide Joined, Shows;
    var offset := Offset(names, k);
    OffsetStep(names, k);
    EndAtLeast(names, k, room);
    assert |before| == |was| by { ShowsLength(names, was, before, offset, room); }
    if room <= offset {
      assert before[..offset] + ("/" + names[k])[..0] + before[offset..] == before;
    } else {
      if room > offset + 1 { EndAtLeast(names, k + 1, room); }
      ShowsMore(names, k, was, before, room, if room == offset + 1 then room else offset + 1 + |names[k]|);
    }
  }

  lemma ShowsLength(names: seq<string>, was: string, now: string, offset: nat, room: nat)
    requires Shows(names, was, now, offset, room)
    ensures |now| == |was|
  {
  }

  lemma PrintEnd(names: seq<string>, room: nat)
    ensures End(names, |names|, room) == Offset(names, |names|)
  {
  }

  /** The buffer after printing and terminating. */
  function PrintedPath(names: seq<string>, was: string, room: nat): string
    requires End(names, 0, room) < |was|
  {
    var end := End(names, 0, room);
    var m := Min(end, room);
    Take(Joined(names), m) + was[m..end] + [NUL] + was[end + 1..]
  }

  lemma ShowsPrinted(names: seq<string>, was: string, now: string, room: nat)
    requires End(names, 0, room) < |was| && Shows(names, was, now, End(names, 0, room), room)
    ensures |now| == |was| && now[End(names, 0, room) := NUL] == PrintedPath(names, was, room)
  {
  }

  /** A path that fits is printed whole, followed by the terminator. */
  lemma PrintedWhole(names: seq<string>, was: string, room: nat)
    requires Clean(names) && |Joined(names)| <= room && |Joined(names)| < |was|
    ensures End(names, 0, room) == |Joined(names)|
    ensures PrintedPath(names, was, room) == Joined(names) + [NUL] + was[|Joined(names)| + 1..]
  {
    EndFits(names, 0, room);
  }
}
