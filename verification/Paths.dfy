/** Path handling of the virtual file system: in-place removal of doubled
    delimiters, and the split into directory and base name. */
module Paths {
  import opened CStrings
  import opened Sequences

  // ------------------------------------------------------------- collapsing

  /** The string with every run of '/' reduced to one. */
  function Collapse(s: string): string {
    if |s| < 2 then s
    else if s[0] == '/' && s[1] == '/' then Collapse(s[1..])
    else [s[0]] + Collapse(s[1..])
  }

  ghost predicate NoDouble(s: string) {
    forall i: nat :: i + 1 < |s| ==> !(s[i] == '/' && s[i + 1] == '/')
  }

  lemma {:induction false} CollapseKeepsClean(s: string)
    requires NoDouble(s)
    ensures Collapse(s) == s
  {
    if |s| >= 2 {
      assert !(s[0] == '/' && s[0 + 1] == '/');
      forall i: nat | i + 1 < |s[1..]| ensures !(s[1..][i] == '/' && s[1..][i + 1] == '/') {
        assert s[1..][i] == s[i + 1] && s[1..][i + 1] == s[i + 1 + 1];
      }
      CollapseKeepsClean(s[1..]);
    }
  }

  lemma {:induction false} CollapseHead(s: string)
    requires s != []
    ensures Collapse(s) != [] && Collapse(s)[0] == s[0]
  {
    if |s| >= 2 && s[0] == '/' && s[1] == '/' { CollapseHead(s[1..]); }
  }

  lemma {:induction false} CollapseIsClean(s: string)
    ensures NoDouble(Collapse(s))
  {
    if |s| >= 2 {
      CollapseIsClean(s[1..]);
      CollapseHead(s[1..]);
    }
  }

  /** Sanitising twice is sanitising once. */
  lemma {:induction false} CollapseIdempotent(s: string)
    ensures Collapse(Collapse(s)) == Collapse(s)
  {
    CollapseIsClean(s);
    CollapseKeepsClean(Collapse(s));
  }

  function HasSlash(path: string): bool {
    path != [] && path[|path| - 1] == '/'
  }

  /** Sanitising adds nothing and keeps the last character. */
  lemma {:induction false} CollapseEnds(s: string)
    ensures |Collapse(s)| <= |s| && HasSlash(Collapse(s)) == HasSlash(s)
    ensures forall c :: c in Collapse(s) ==> c in s
  {
    if |s| >= 2 {
      CollapseEnds(s[1..]);
      CollapseHead(s[1..]);
    }
  }

  /** Dropping one of two adjacent delimiters does not change the outcome. */
  lemma {:induction false} CollapseDrops(s: string, k: nat)
    requires 0 < k < |s| && s[k - 1] == '/' && s[k] == '/'
    ensures Collapse(Without(s, k)) == Collapse(s)
  {
    if k == 1 {
      assert Without(s, k) == s[1..];
    } else {
      CollapseDrops(s[1..], k - 1);
      assert Without(s, k)[1..] == Without(s[1..], k - 1);
      assert Without(s, k)[0] == s[0] && Without(s, k)[1] == s[1];
    }
  }

  // ------------------------------------------------------------- components

  /** The names between the delimiters; `name` is the one being read. */
  function Components(s: string, name: string): seq<string> {
    if s == [] then (if name == [] then [] else [name])
    else if s[0] == '/' then (if name == [] then [] else [name]) + Components(s[1..], [])
    else Components(s[1..], name + [s[0]])
  }

  /** Sanitising keeps the names of a path. */
  lemma {:induction false} CollapseKeepsComponents(s: string, name: string)
    ensures Components(Collapse(s), name) == Components(s, name)
  {
    if |s| >= 2 {
      var t := s[1..];
      if s[0] == '/' && s[1] == '/' {
        CollapseKeepsComponents(t, name);
        SlashFirst(t, name);
        assert Components(t, []) == Components(t[1..], []);
      } else {
        assert Collapse(s)[1..] == Collapse(t);
        CollapseKeepsComponents(t, []);
        CollapseKeepsComponents(t, name + [s[0]]);
      }
    }
  }

  lemma SlashFirst(t: string, name: string)
    requires t != [] && t[0] == '/'
    ensures Components(t, name) == (if name == [] then [] else [name]) + Components(t[1..], [])
  {
  }

  // ---------------------------------------------------------------- in place

  /** The null-terminated string of length `len` at the start of a buffer. */
  ghost predicate Holds(a: array<char>, len: nat)
    reads a
  {
    len < a.Length && a[len] == NUL && forall i: nat :: i < len ==> a[i] != NUL
  }

  /** The inner loop: shift the string left over position `index`. */
  method ShiftLeft(path: array<char>, index: nat, ghost len: nat)
    requires Holds(path, len) && index < len
    modifies path
    ensures Holds(path, len - 1)
    ensures path[..len - 1] == Without(old(path[..len]), index)
  {
    var i: nat := index;
    while path[i] != NUL
      invariant index <= i <= len
      invariant forall j: nat :: j < index || i <= j < path.Length ==> j >= path.Length || path[j] == old(path[j])
      invariant forall j: nat :: index <= j < i ==> path[j] == old(path[j + 1])
      decreases len - i
    {
      path[i] := path[i + 1];
      i := i + 1;
    }
    assert i == len;
  }

  /** vfs_sanatise_path */
  method Sanitise(path: array<char>, ghost len: nat) returns (length: nat)
    requires Holds(path, len)
    modifies path
    ensures length == |Collapse(old(path[..len]))|
    ensures Holds(path, length) && path[..length] == Collapse(old(path[..len]))
  {
    hide Collapse;
    if path[0] == NUL {
      CollapseKeepsClean(path[..len]);
      return 0;
    }
    ghost var m := len;
    var index: nat := 1;
    while path[index] != NUL
      invariant 1 <= index <= m && Holds(path, m)
      invariant Collapse(path[..m]) == Collapse(old(path[..len]))
      invariant NoDouble(path[..index])
      decreases 2 * m - index
    {
      if path[index - 1] == '/' && path[index] == '/' {
        CollapseDrops(path[..m], index);
        ghost var before := path[..m];
        ShiftLeft(path, index, m);
        m := m - 1;
        assert path[..index] == before[..index];
      } else {
        index := index + 1;
      }
    }
    CollapseKeepsClean(path[..index]);
    return index;
  }

  // ------------------------------------------- directory name and base name

  /** Position of the last delimiter, 0 when there is none. */
  function LastDelimiter(s: string): (k: nat)
    ensures k < |s| || k == |s| == 0
    ensures forall j: nat :: k < j < |s| ==> s[j] != '/'
    ensures s != [] && s[k] != '/' ==> '/' !in s
  {
    if s == [] then 0
    else if |s| == 1 || s[|s| - 1] == '/' then |s| - 1
    else LastDelimiter(s[..|s| - 1])
  }

  function DirectoryOf(path: string): string {
    path[..LastDelimiter(path)]
  }

  function BaseOf(path: string): string {
    if '/' in path then path[LastDelimiter(path) + 1..] else path
  }

  /** A path with a delimiter is its directory, the delimiter and its base
      name, and these are the only two parts with no delimiter in the second. */
  lemma SplitRebuilds(path: string, directory: string, base: string)
    requires '/' in path
    ensures path == directory + "/" + base && '/' !in base
       <==> directory == DirectoryOf(path) && base == BaseOf(path)
  {
    assert path == DirectoryOf(path) + "/" + BaseOf(path);
    if path == directory + "/" + base && '/' !in base {
      LastBefore(directory, base);
    }
  }

  lemma LastBefore(directory: string, base: string)
    requires '/' !in base
    ensures LastDelimiter(directory + "/" + base) == |directory|
    ensures BaseOf(directory + "/" + base) == base
  {
    var s := directory + "/" + base;
    assert s[|directory|] == '/';
    assert forall j: nat :: |directory| < j < |s| ==> s[j] in base;
    LastIs(s, |directory|);
  }

  /** The directory that vfs_dirname sets out to give: the delimiter at the end
      of a folder's path is skipped before the search. */
  function IntendedDirectory(path: string): string {
    if HasSlash(path) then DirectoryOf(path[..|path| - 1]) else DirectoryOf(path)
  }

  /** A delimiter at the end is the split point: everything before it is taken
      for the directory and the base name is empty. */
  lemma TrailingDelimiter(path: string)
    requires HasSlash(path)
    ensures DirectoryOf(path) == path[..|path| - 1] && BaseOf(path) == []
  {
    LastIs(path, |path| - 1);
  }

  /** The code gives the intended directory exactly for paths that do not end in
      a delimiter, and for "/" alone. */
  lemma DirectoryAsIntended(path: string)
    ensures DirectoryOf(path) == IntendedDirectory(path) <==> !HasSlash(path) || |path| == 1
  {
    if HasSlash(path) { TrailingDelimiter(path); }
  }

  /** "/a/b/" shows it: the folder itself comes back, not the one above. */
  lemma FolderIsNotSkipped()
    ensures DirectoryOf("/a/b/") == "/a/b" && IntendedDirectory("/a/b/") == "/a"
  {
    TrailingDelimiter("/a/b/");
    assert "/a/b/"[..4] == "/a/b";
    LastIs("/a/b", 2);
    assert "/a/b"[..2] == "/a";
  }

  /** A path with no delimiter is all base name. */
  lemma NoDirectory(path: string)
    requires '/' !in path
    ensures DirectoryOf(path) == [] && BaseOf(path) == path
  {
    assert path != [] ==> LastDelimiter(path) == 0 by {
      LastWithout(path);
    }
  }

  lemma {:induction false} LastWithout(s: string)
    requires '/' !in s
    ensures LastDelimiter(s) == 0
  {
    if |s| > 1 { LastWithout(s[..|s| - 1]); }
  }

  /** strlen */
  method Length(path: array<char>, ghost len: nat) returns (n: nat)
    requires Holds(path, len)
    ensures n == len
  {
    n := 0;
    while path[n] != NUL
      invariant n <= len
      decreases len - n
    {
      n := n + 1;
    }
  }

  /** memcpy between two buffers. */
  method CopyBytes(target: array<char>, source: array<char>, from: nat, n: nat)
    requires target != source && n <= target.Length && from + n <= source.Length
    modifies target
    ensures target[..] == source[from..from + n] + old(target[n..])
  {
    var i: nat := 0;
    while i < n
      invariant i <= n
      invariant forall j: nat :: j < i ==> target[j] == source[from + j]
      invariant forall j: nat :: i <= j < target.Length ==> target[j] == old(target[j])
    {
      target[i] := source[from + i];
      i := i + 1;
    }
  }

  function Min(a: nat, b: nat): nat { if a < b then a else b }

  /** The part of `s` that fits a buffer of `room` bytes. */
  function Clipped(s: string, room: nat): (r: string)
    ensures r <= s && |r| <= room && (|s| <= room ==> r == s) && (|s| > room ==> |r| == room)
  {
    s[..Min(room, |s|)]
  }

  /** vfs_dirname. The first test looks at the terminator, so it never fires
      and a trailing delimiter is kept as the split point. No terminator is
      written. */
  method Dirname(path: array<char>, ghost len: nat, dirname: array<char>, maxLen: nat)
    requires Holds(path, len) && path != dirname && maxLen <= dirname.Length
    modifies dirname
    ensures dirname[..] == Clipped(DirectoryOf(path[..len]), maxLen)
                           + old(dirname[|Clipped(DirectoryOf(path[..len]), maxLen)|..])
  {
    ghost var s := path[..len];
    var offset := Length(path, len);
    while path[offset] != '/' && offset != 0
      invariant offset <= len
      invariant forall j: nat :: offset < j < len ==> s[j] != '/'
      decreases offset
    {
      offset := offset - 1;
    }
    LastIs(s, offset);
    CopyBytes(dirname, path, 0, Min(maxLen, offset));
    assert path[0..0 + Min(maxLen, offset)] == Clipped(DirectoryOf(s), maxLen);
  }

  /** vfs_basename. No terminator is written. */
  method Basename(path: array<char>, ghost len: nat, basename: array<char>, maxLen: nat)
    requires Holds(path, len) && path != basename && maxLen <= basename.Length
    modifies basename
    ensures basename[..] == Clipped(BaseOf(path[..len]), maxLen)
                            + old(basename[|Clipped(BaseOf(path[..len]), maxLen)|..])
  {
    hide BaseOf, LastDelimiter, Clipped;
    ghost var s := path[..len];
    var end := Length(path, len);
    var offset := end;
    while offset != 0 && path[offset] != '/'
      invariant offset <= len
      invariant forall j: nat :: offset < j < len ==> s[j] != '/'
      decreases offset
    {
      offset := offset - 1;
    }
    BaseAt(s, offset);
    if path[offset] == '/' { offset := offset + 1; }
    ClippedSlice(path, len, offset, maxLen);
    CopyBytes(basename, path, offset, Min(maxLen, end - offset));
  }

  lemma BaseAt(s: string, k: nat)
    requires k < |s| || k == |s| == 0
    requires forall j: nat :: k < j < |s| ==> s[j] != '/'
    requires k == 0 || s[k] == '/'
    ensures BaseOf(s) == if k < |s| && s[k] == '/' then s[k + 1..] else s[k..]
  {
    LastIs(s, k);
  }

  lemma ClippedSlice(path: array<char>, len: nat, from: nat, room: nat)
    requires from <= len <= path.Length
    ensures path[from..from + Min(room, len - from)] == Clipped(path[..len][from..], room)
    ensures |Clipped(path[..len][from..], room)| == Min(room, len - from)
  {
  }

  lemma LastIs(s: string, k: nat)
    requires k < |s| || k == |s| == 0
    requires forall j: nat :: k < j < |s| ==> s[j] != '/'
    requires k == 0 || s[k] == '/'
    ensures LastDelimiter(s) == k
    ensures '/' in s <==> s != [] && s[k] == '/'
  {
    if '/' !in s { LastWithout(s); }
  }
}
