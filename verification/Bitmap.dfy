/** The allocation bitmap: one bit per page, packed in 64-bit words. */
module Bitmap {

  /** `1UL << bit`, one shift at a time. */
  function Mask(bit: nat): bv64 {
    if bit == 0 then 1 else Mask(bit - 1) << 1
  }

  lemma TopMask()
    ensures Mask(63) == 0x8000_0000_0000_0000
  {
    assert Mask(8) == 0x100;
    assert Mask(16) == 0x1_0000;
    assert Mask(24) == 0x100_0000;
    assert Mask(32) == 0x1_0000_0000;
    assert Mask(40) == 0x100_0000_0000;
    assert Mask(48) == 0x1_0000_0000_0000;
    assert Mask(56) == 0x100_0000_0000_0000;
  }

  lemma {:induction false} MaskNonZero(bit: nat)
    requires bit < 64
    ensures Mask(bit) != 0
    decreases 64 - bit
  {
    if bit == 63 {
      TopMask();
    } else {
      MaskNonZero(bit + 1);
      ShiftZero(Mask(bit));
    }
  }

  lemma ShiftZero(w: bv64)
    ensures w == 0 ==> w << 1 == 0
  {
  }

  lemma {:induction false} MasksDisjoint(a: nat, b: nat)
    requires a < b
    ensures Disjoint(Mask(a), Mask(b)) && Disjoint(Mask(b), Mask(a))
  {
    if a == 0 {
      OddEven(Mask(b - 1));
    } else {
      MasksDisjoint(a - 1, b - 1);
      ShiftBoth(Mask(a - 1), Mask(b - 1));
    }
  }

  lemma OddEven(w: bv64)
    ensures 1 & (w << 1) == 0 && (w << 1) & 1 == 0
  {
  }

  lemma ShiftBoth(v: bv64, w: bv64)
    ensures (v << 1) & (w << 1) == (v & w) << 1
    ensures (w << 1) & (v << 1) == (v & w) << 1
    ensures (0 as bv64) << 1 == 0
  {
  }

  predicate Test(w: bv64, m: bv64) {
    w & m != 0
  }

  predicate Disjoint(m: bv64, n: bv64) {
    m & n == 0
  }

  function Set(w: bv64, m: bv64): bv64 {
    w | m
  }

  function Unset(w: bv64, m: bv64): bv64 {
    w & !m
  }

  lemma OrSets(w: bv64, m: bv64)
    requires m != 0
    ensures Test(Set(w, m), m)
  {
    assert (w | m) & m == m;
  }

  lemma OrKeeps(w: bv64, m: bv64, n: bv64)
    requires Disjoint(m, n)
    ensures Test(Set(w, m), n) == Test(w, n)
  {
    hide Set, Disjoint;
    OrSame(w, m, n);
  }

  lemma OrSame(w: bv64, m: bv64, n: bv64)
    requires Disjoint(m, n)
    ensures Set(w, m) & n == w & n
  {
  }

  lemma ClearClears(w: bv64, m: bv64)
    ensures !Test(Unset(w, m), m)
  {
    assert (w & !m) & m == 0;
  }

  lemma ClearKeeps(w: bv64, m: bv64, n: bv64)
    requires Disjoint(m, n)
    ensures Test(Unset(w, m), n) == Test(w, n)
  {
    hide Unset, Disjoint;
    ClearSame(w, m, n);
  }

  lemma ClearSame(w: bv64, m: bv64, n: bv64)
    requires Disjoint(m, n)
    ensures Unset(w, m) & n == w & n
  {
  }

  /** bitmap_get */
  predicate Bit(words: seq<bv64>, index: nat)
    requires index < 64 * |words|
  {
    Test(words[index / 64], Mask(index % 64))
  }

  /** bitmap_set */
  function WithBit(words: seq<bv64>, index: nat): seq<bv64>
    requires index < 64 * |words|
  {
    words[index / 64 := Set(words[index / 64], Mask(index % 64))]
  }

  /** bitmap_unset */
  function WithoutBit(words: seq<bv64>, index: nat): seq<bv64>
    requires index < 64 * |words|
  {
    words[index / 64 := Unset(words[index / 64], Mask(index % 64))]
  }

  /** Setting a bit sets that bit and leaves the others. */
  lemma SetBit(words: seq<bv64>, index: nat, j: nat)
    requires index < 64 * |words| && j < 64 * |words|
    ensures Bit(WithBit(words, index), j) == (j == index || Bit(words, j))
  {
    hide Test, Mask, Set, Unset, Disjoint;
    if j == index {
      MaskNonZero(index % 64);
      OrSets(words[index / 64], Mask(index % 64));
    } else if j / 64 == index / 64 {
      DifferentBits(index, j);
      OrKeeps(words[index / 64], Mask(index % 64), Mask(j % 64));
    }
  }

  lemma ClearBit(words: seq<bv64>, index: nat, j: nat)
    requires index < 64 * |words| && j < 64 * |words|
    ensures Bit(WithoutBit(words, index), j) == (j != index && Bit(words, j))
  {
    hide Test, Mask, Set, Unset, Disjoint;
    if j == index {
      ClearClears(words[index / 64], Mask(index % 64));
    } else if j / 64 == index / 64 {
      DifferentBits(index, j);
      ClearKeeps(words[index / 64], Mask(index % 64), Mask(j % 64));
    }
  }

  lemma DifferentBits(i: nat, j: nat)
    requires i != j && i / 64 == j / 64
    ensures Disjoint(Mask(i % 64), Mask(j % 64))
  {
    hide Mask, Disjoint;
    if i % 64 < j % 64 { MasksDisjoint(i % 64, j % 64); } else { MasksDisjoint(j % 64, i % 64); }
  }
}
