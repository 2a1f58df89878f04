/** Parent links, the ancestor walk of sys_waitpid, and claiming a pid. */
module ProcessTree {

  /** The parent id of each task that has an id of its own; 0 means no parent. */
  type Parents = map<nat, nat>

  /** A task is older than its children: a child gets its id after its parent. */
  ghost predicate Older(p: Parents) {
    forall id <- p :: p[id] < id
  }

  // ------------------------------------------------------- descendants

  /** A line of parents: each id is followed by that of its parent. */
  ghost predicate Line(p: Parents, path: seq<nat>) {
    |path| >= 2 && forall i: nat :: i + 1 < |path| ==> path[i] in p && path[i + 1] == p[path[i]]
  }

  /** `a` is a proper ancestor of `d`. */
  ghost predicate Descends(p: Parents, d: nat, a: nat) {
    exists path: seq<nat> :: Line(p, path) && path[0] == d && path[|path| - 1] == a
  }

  /** The walk up the parents, one lookup at a time; a lookup of 0 or of an id
      that no task has ends it. */
  function Walk(p: Parents, d: nat, a: nat): bool
    requires d in p
    requires Older(p)
    decreases d
  {
    p[d] == a || (p[d] != 0 && p[d] in p && Walk(p, p[d], a))
  }

  /** The walk accepts exactly the proper descendants of the caller. */
  lemma {:induction false} WalkIsDescends(p: Parents, d: nat, a: nat)
    requires Older(p) && d in p
    ensures Walk(p, d, a) <==> Descends(p, d, a)
    decreases d
  {
    if p[d] == a {
      assert Line(p, [d, a]);
      assert [d, a][0] == d;
    } else if p[d] in p {
      assert p[d] != 0;
      WalkIsDescends(p, p[d], a);
      if Descends(p, p[d], a) {
        var path :| Line(p, path) && path[0] == p[d] && path[|path| - 1] == a;
        LineExtends(p, d, path);
      }
      if Descends(p, d, a) {
        var path :| Line(p, path) && path[0] == d && path[|path| - 1] == a;
        LineShrinks(p, path);
      }
    } else if Descends(p, d, a) {
      var path :| Line(p, path) && path[0] == d && path[|path| - 1] == a;
      LineEnds(p, path);
      assert false;
    }
  }

  lemma LineExtends(p: Parents, d: nat, path: seq<nat>)
    requires Line(p, path) && d in p && path[0] == p[d]
    ensures Line(p, [d] + path)
    ensures Descends(p, d, path[|path| - 1])
  {
    var longer := [d] + path;
    forall i: nat | i + 1 < |longer| ensures longer[i] in p && longer[i + 1] == p[longer[i]] {
      if i > 0 { assert longer[i] == path[i - 1] && longer[i + 1] == path[i - 1 + 1]; }
    }
    assert longer[0] == d && longer[|longer| - 1] == path[|path| - 1];
  }

  lemma LineShrinks(p: Parents, path: seq<nat>)
    requires Line(p, path) && path[1] != path[|path| - 1]
    ensures Line(p, path[1..])
    ensures Descends(p, p[path[0]], path[|path| - 1])
  {
    var shorter := path[1..];
    assert path[0 + 1] == p[path[0]];
    forall i: nat | i + 1 < |shorter| ensures shorter[i] in p && shorter[i + 1] == p[shorter[i]] {
      assert shorter[i] == path[i + 1] && shorter[i + 1] == path[i + 1 + 1];
    }
    assert shorter[0] == p[path[0]] && shorter[|shorter| - 1] == path[|path| - 1];
  }

  lemma LineEnds(p: Parents, path: seq<nat>)
    requires Line(p, path)
    ensures p[path[0]] == path[1] && (|path| > 2 ==> path[1] in p)
  {
    assert path[0 + 1] == p[path[0]];
    if |path| > 2 { assert path[1] in p && path[1 + 1] == p[path[1]]; }
  }

  // ---------------------------------------------------------- whole runs

  /** The task table: parents, the last id handed out, and the pids that a
      waitpid has claimed, in order. */
  datatype Table = Table(parents: Parents, lastId: nat, claims: seq<nat>)

  datatype Call =
    | Load                           // a task without a parent
    | Fork(parent: nat)
    | Wait(caller: nat, pid: int)

  ghost predicate Sound(t: Table) {
    && Older(t.parents)
    && (forall id <- t.parents :: 0 < id <= t.lastId)
    && (forall pid <- t.claims :: pid in t.parents)
    && (forall i: nat, j: nat :: i < j < |t.claims| ==> t.claims[i] != t.claims[j])
  }

  /** A fork is made by an existing task. */
  predicate Legal(t: Table, c: Call) {
    c.Fork? ==> c.parent in t.parents
  }

  /** One call, taken as a whole. waitpid claims the pid or fails with ECHILD. */
  function After(t: Table, c: Call): Table
    requires Older(t.parents)
  {
    match c
    case Load => t.(parents := t.parents[t.lastId + 1 := 0], lastId := t.lastId + 1)
    case Fork(parent) => t.(parents := t.parents[t.lastId + 1 := parent], lastId := t.lastId + 1)
    case Wait(caller, pid) =>
      if pid <= 0 || pid !in t.parents || pid in t.claims then t
      else if Walk(t.parents, pid, caller) then t.(claims := t.claims + [pid])
      else t
  }

  /** In every run ids are new and nonzero, a task is younger than its parent,
      and no pid is claimed twice. */
  lemma CallKeeps(t: Table, c: Call)
    requires Sound(t) && Legal(t, c)
    ensures Sound(After(t, c))
    ensures !c.Wait? ==> After(t, c).lastId !in t.parents && After(t, c).lastId in After(t, c).parents
  {
  }

  lemma {:induction false} WalkKept(p: Parents, p': Parents, id: nat, d: nat, a: nat)
    requires Older(p) && Older(p') && d in p && d < id && id !in p && id in p' && p' == p[id := p'[id]]
    ensures Walk(p', d, a) == Walk(p, d, a)
    decreases d
  {
    if p[d] != 0 && p[d] in p { WalkKept(p, p', id, p[d], a); }
  }

  /** New tasks change nobody's ancestors. */
  lemma AncestorsStay(t: Table, c: Call, d: nat, a: nat)
    requires Sound(t) && Legal(t, c) && d in t.parents
    ensures Descends(After(t, c).parents, d, a) <==> Descends(t.parents, d, a)
  {
    hide Descends;
    CallKeeps(t, c);
    var p, p' := t.parents, After(t, c).parents;
    WalkIsDescends(p, d, a);
    WalkIsDescends(p', d, a);
    if !c.Wait? { WalkKept(p, p', t.lastId + 1, d, a); }
  }

  /** A forked task descends from its parent and from the ancestors of that one,
      and from no other task. */
  lemma ForkedDescends(t: Table, parent: nat, a: nat)
    requires Sound(t) && parent in t.parents
    ensures Descends(After(t, Fork(parent)).parents, t.lastId + 1, a) <==> a == parent || Descends(t.parents, parent, a)
  {
    hide Descends;
    CallKeeps(t, Fork(parent));
    var p' := After(t, Fork(parent)).parents;
    WalkIsDescends(p', t.lastId + 1, a);
    WalkIsDescends(p', parent, a);
    AncestorsStay(t, Fork(parent), parent, a);
  }

  /** A claim goes to a proper ancestor only. */
  lemma ClaimIsByAncestor(t: Table, caller: nat, pid: int)
    requires Sound(t) && |After(t, Wait(caller, pid)).claims| > |t.claims|
    ensures pid > 0 && pid in t.parents && pid !in t.claims && Descends(t.parents, pid, caller)
  {
    WalkIsDescends(t.parents, pid, caller);
  }

  /** A run of calls; calls that are not legal are skipped. */
  ghost function Run(t: Table, calls: seq<Call>): Table
    requires Sound(t)
    decreases |calls|
  {
    if calls == [] then t
    else if !Legal(t, calls[0]) then Run(t, calls[1..])
    else
      CallKeeps(t, calls[0]);
      Run(After(t, calls[0]), calls[1..])
  }

  lemma {:induction false} RunKeeps(t: Table, calls: seq<Call>)
    requires Sound(t)
    ensures Sound(Run(t, calls)) && t.claims <= Run(t, calls).claims && t.lastId <= Run(t, calls).lastId
    decreases |calls|
  {
    if calls != [] {
      if Legal(t, calls[0]) {
        CallKeeps(t, calls[0]);
        RunKeeps(After(t, calls[0]), calls[1..]);
      } else {
        RunKeeps(t, calls[1..]);
      }
    }
  }
}
