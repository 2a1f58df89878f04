/** The intrusive doubly-linked lists of the block allocator. A header is kept
    under its address; address 0 is the null pointer. */
module BlockLists {
  import opened Sequences

  datatype Header = Header(size: nat, next: nat, previous: nat)

  type Headers = map<nat, Header>

  /** The address at position `i` of `s`; null outside of it. */
  function At(s: seq<nat>, i: int): nat {
    if 0 <= i < |s| then s[i] else 0
  }

  /** The block at position `i` is linked to its neighbours in `s`. */
  ghost predicate Node(h: Headers, s: seq<nat>, i: nat)
    requires i < |s|
  {
    s[i] != 0 && s[i] in h && h[s[i]].next == At(s, i + 1) && h[s[i]].previous == At(s, i - 1)
  }

  /** `s` is the doubly-linked, acyclic, null-terminated list that starts at `start`. */
  ghost predicate List(h: Headers, start: nat, s: seq<nat>) {
    && start == At(s, 0)
    && Distinct(s)
    && (forall i: nat :: i < |s| ==> Node(h, s, i))
  }

  /** The links of a list depend on its own headers only. */
  lemma ListKept(h: Headers, h': Headers, start: nat, s: seq<nat>)
    requires List(h, start, s)
    requires forall i: nat :: i < |s| ==> s[i] in h && s[i] in h' && h'[s[i]].next == h[s[i]].next && h'[s[i]].previous == h[s[i]].previous
    ensures List(h', start, s)
  {
    forall i: nat | i < |s| ensures Node(h', s, i) {
      assert Node(h, s, i);
    }
  }

  // ------------------------------------------------------------------ push

  function Linked(h: Headers, a: nat, next: nat, previous: nat): Headers
    requires a in h
  {
    h[a := Header(h[a].size, next, previous)]
  }

  /** `if (a) a->next = v`, and the same for `previous`. */
  function WithNext(h: Headers, a: nat, v: nat): Headers
    requires a != 0 ==> a in h
  {
    if a != 0 then h[a := h[a].(next := v)] else h
  }

  function WithPrevious(h: Headers, a: nat, v: nat): Headers
    requires a != 0 ==> a in h
  {
    if a != 0 then h[a := h[a].(previous := v)] else h
  }

  /** The headers after a block is put in front of the list at `start`. */
  function Pushed(h: Headers, start: nat, block: nat): Headers
    requires block in h && block != start && (start != 0 ==> start in h)
  {
    WithPrevious(Linked(h, block, start, 0), start, block)
  }

  lemma PushExtends(h: Headers, start: nat, s: seq<nat>, block: nat)
    requires List(h, start, s) && block in h && block != 0 && block !in s
    ensures block != start && (start != 0 ==> start in h)
    ensures List(Pushed(h, start, block), block, [block] + s)
  {
    assert s != [] ==> Node(h, s, 0);
    var h', t := Pushed(h, start, block), [block] + s;
    forall i: nat | i < |t| ensures Node(h', t, i) {
      if i > 0 {
        assert Node(h, s, i - 1);
        assert t[i] == s[i - 1] && At(t, i + 1) == At(s, i);
      }
    }
  }

  // ---------------------------------------------------------------- remove

  /** The headers after a block is unlinked from whatever list it is on. */
  function Removed(h: Headers, block: nat): Headers
    requires block in h
    requires h[block].previous != 0 ==> h[block].previous in h
    requires h[block].next != 0 ==> h[block].next in h
  {
    var p, n := h[block].previous, h[block].next;
    Linked(WithPrevious(WithNext(h, p, n), n, p), block, 0, 0)
  }

  lemma NeighboursKnown(h: Headers, start: nat, s: seq<nat>, k: nat)
    requires List(h, start, s) && k < |s|
    ensures s[k] in h && s[k] != 0 && h[s[k]].previous == At(s, k - 1) && h[s[k]].next == At(s, k + 1)
    ensures h[s[k]].previous != 0 ==> h[s[k]].previous in h
    ensures h[s[k]].next != 0 ==> h[s[k]].next in h
  {
    assert Node(h, s, k);
    if k > 0 { assert Node(h, s, k - 1); }
    if k + 1 < |s| { assert Node(h, s, k + 1); }
  }

  /** The two neighbours now link to each other; the others are untouched. */
  lemma RemovedAt(h: Headers, start: nat, s: seq<nat>, k: nat, j: nat)
    requires List(h, start, s) && k < |s| && j < |s| && j != k
    requires s[k] in h
    requires h[s[k]].previous != 0 ==> h[s[k]].previous in h
    requires h[s[k]].next != 0 ==> h[s[k]].next in h
    ensures s[j] in Removed(h, s[k])
    ensures Removed(h, s[k])[s[j]].next == if j == k - 1 then At(s, k + 1) else At(s, j + 1)
    ensures Removed(h, s[k])[s[j]].previous == if j == k + 1 then At(s, k - 1) else At(s, j - 1)
  {
    NeighboursKnown(h, start, s, k);
    NeighboursKnown(h, start, s, j);
    assert j != k - 1 ==> s[j] != At(s, k - 1);
    assert j != k + 1 ==> s[j] != At(s, k + 1);
  }

  lemma RemoveUnlinks(h: Headers, start: nat, s: seq<nat>, k: nat)
    requires List(h, start, s) && k < |s|
    ensures var b := s[k];
            && b in h && (h[b].previous != 0 ==> h[b].previous in h) && (h[b].next != 0 ==> h[b].next in h)
            && List(Removed(h, b), if b == start then h[b].next else start, Without(s, k))
  {
    hide Removed;
    NeighboursKnown(h, start, s, k);
    var h', t := Removed(h, s[k]), Without(s, k);
    forall i: nat | i < |t| ensures Node(h', t, i) {
      var j := if i < k then i else i + 1;
      assert t[i] == s[j];
      assert Node(h, s, j);
      RemovedAt(h, start, s, k, j);
    }
    assert Distinct(t) by {
      forall i: nat, j: nat | i < j < |t| ensures t[i] != t[j] {
        assert t[i] == s[if i < k then i else i + 1] && t[j] == s[if j < k then j else j + 1];
      }
    }
  }

  /** Unlinking touches the block and its two neighbours only. */
  lemma RemoveFrame(h: Headers, block: nat, a: nat)
    requires block in h && a in h
    requires h[block].previous != 0 ==> h[block].previous in h
    requires h[block].next != 0 ==> h[block].next in h
    ensures a in Removed(h, block) && Removed(h, block).Keys == h.Keys
    ensures Removed(h, block)[a].size == h[a].size
    ensures a != block && a != h[block].previous && a != h[block].next ==> Removed(h, block)[a] == h[a]
  {
  }

  // ---------------------------------------------------------------- insert

  function With(s: seq<nat>, k: nat, a: nat): seq<nat>
    requires k <= |s|
  {
    s[..k] + [a] + s[k..]
  }

  /** The headers after `block` is cut down to `size` and the rest of it, a new
      block of `rest` bytes at `a`, is linked in behind it. */
  function Cut(h: Headers, block: nat, size: nat, a: nat, rest: nat): Headers
    requires block in h && (h[block].next != 0 ==> h[block].next in h)
  {
    var n := h[block].next;
    var h1: Headers := h[block := h[block].(size := size)][a := Header(rest, n, block)];
    WithNext(WithPrevious(h1, n, a), block, a)
  }

  lemma CutAt(h: Headers, start: nat, s: seq<nat>, k: nat, size: nat, a: nat, rest: nat, j: nat)
    requires List(h, start, s) && k < |s| && j < |s| && a !in h
    requires s[k] in h && (h[s[k]].next != 0 ==> h[s[k]].next in h)
    ensures s[j] in h && s[j] in Cut(h, s[k], size, a, rest)
    ensures Cut(h, s[k], size, a, rest)[s[j]].next == if j == k then a else h[s[j]].next
    ensures Cut(h, s[k], size, a, rest)[s[j]].previous == if j == k + 1 then a else h[s[j]].previous
  {
    NeighboursKnown(h, start, s, k);
    NeighboursKnown(h, start, s, j);
    assert j != k + 1 ==> s[j] != At(s, k + 1);
  }

  lemma CutNew(h: Headers, start: nat, s: seq<nat>, k: nat, size: nat, a: nat, rest: nat)
    requires List(h, start, s) && k < |s| && a !in h && a != 0
    ensures s[k] in h && (h[s[k]].next != 0 ==> h[s[k]].next in h)
    ensures a in Cut(h, s[k], size, a, rest) && Cut(h, s[k], size, a, rest)[a] == Header(rest, At(s, k + 1), s[k])
  {
    NeighboursKnown(h, start, s, k);
  }

  lemma DistinctWith(s: seq<nat>, k: nat, a: nat)
    requires Distinct(s) && k <= |s| && forall i: nat :: i < |s| ==> s[i] != a
    ensures Distinct(With(s, k, a))
  {
    var t := With(s, k, a);
    forall i: nat, j: nat | i < j < |t| ensures t[i] != t[j] {
      assert i != k ==> t[i] == s[if i < k then i else i - 1];
      assert j != k ==> t[j] == s[if j < k then j else j - 1];
    }
  }

  lemma CutInserts(h: Headers, start: nat, s: seq<nat>, k: nat, size: nat, a: nat, rest: nat)
    requires List(h, start, s) && k < |s| && a !in h && a != 0
    ensures s[k] in h && (h[s[k]].next != 0 ==> h[s[k]].next in h)
    ensures List(Cut(h, s[k], size, a, rest), start, With(s, k + 1, a))
  {
    hide Cut;
    CutNew(h, start, s, k, size, a, rest);
    var h', t := Cut(h, s[k], size, a, rest), With(s, k + 1, a);
    forall i: nat | i < |t| ensures Node(h', t, i) {
      if i != k + 1 {
        var j := if i <= k then i else i - 1;
        assert t[i] == s[j];
        NeighboursKnown(h, start, s, j);
        CutAt(h, start, s, k, size, a, rest, j);
      }
    }
    forall i: nat | i < |s| ensures s[i] != a {
      NeighboursKnown(h, start, s, i);
    }
    DistinctWith(s, k + 1, a);
  }
}
