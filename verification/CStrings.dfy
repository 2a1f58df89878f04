/** Comparing null-terminated strings: strncmp. A string is its bytes before
    the terminator. */
module CStrings {
  const NUL := '\0'

  /** The byte at a position, reading 0 at the terminator. */
  function ByteAt(s: string, k: nat): int {
    if k < |s| then s[k] as int else 0
  }

  function Take(s: string, n: nat): string {
    if n < |s| then s[..n] else s
  }

  /** strncmp: 0 exactly when the two agree up to `n` bytes, otherwise the
      difference of the first bytes that differ. */
  method StrNCmp(a: string, b: string, n: nat) returns (r: int)
    requires NUL !in a && NUL !in b
    ensures r == 0 <==> Take(a, n) == Take(b, n)
    ensures r != 0 ==> exists k: nat :: k < n && Take(a, k) == Take(b, k) && r == ByteAt(a, k) - ByteAt(b, k)
  {
    assert forall j: nat :: j < |b| ==> b[j] != NUL;
    var i: nat, left := 0, n;
    while left > 0 && i < |a| && ByteAt(a, i) == ByteAt(b, i)
      invariant i + left == n && i <= |a| && i <= |b| && a[..i] == b[..i]
    {
      assert a[i] != NUL;
      i, left := i + 1, left - 1;
    }
    assert Take(a, i) == Take(b, i) == a[..i];
    if left == 0 { return 0; }
    r := ByteAt(a, i) - ByteAt(b, i);
    if r != 0 {
      assert i < |a| && i < |b| ==> Take(a, n)[i] != Take(b, n)[i];
    }
  }

  /** A bounded comparison of strings of the bound's length is equality. */
  lemma EqualWhenFull(a: string, b: string)
    requires |a| == |b|
    ensures Take(a, |a|) == Take(b, |a|) <==> a == b
  {
  }

  /** A comparison bounded by the second string asks for a prefix. */
  lemma PrefixWhenShort(a: string, b: string)
    ensures Take(a, |b|) == Take(b, |b|) <==> b <= a
  {
  }

  /** The bytes left for characters in a buffer of `bytes` once one is reserved
      for the terminator; the 64-bit subtraction wraps around for 0. */
  function Reserved(bytes: nat): nat {
    if bytes == 0 then 0xFFFF_FFFF_FFFF_FFFF else bytes - 1
  }

  /** It is the 64-bit decrement. */
  lemma ReservedWraps(bytes: nat)
    requires bytes < 0x1_0000_0000_0000_0000
    ensures Reserved(bytes) == (bytes + 0xFFFF_FFFF_FFFF_FFFF) % 0x1_0000_0000_0000_0000
  {
  }
}
