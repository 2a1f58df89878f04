/** Page-table entries. A 64-bit entry is kept as its three bit fields: the low
    flag bits 0-11, the frame number in bits 12-51 and the high flag bits 52-63. */
module EntryWords {
  const FRAMES := 0x100_0000_0000  // 2^40 frame numbers

  type Frame = n: nat | n < FRAMES

  datatype Word = Word(low: bv12, frame: Frame, high: bv12)

  const ZERO := Word(0, 0, 0)

  /** The flag bits an entry keeps besides its address field. */
  datatype Flags = Flags(low: bv12, high: bv12)

  const PRESENT: bv12 := 1

  /** The flags a layer entry gets: the low byte, without the nx bit. */
  function LayerBits(flags: Flags): bv12 {
    flags.low & 0xFF
  }

  predicate Present(w: Word) {
    w.low & PRESENT != 0
  }

  /** Every bit of `b` is set in `a`. */
  predicate Covers(a: bv12, b: bv12) {
    a & b == b
  }

  lemma CoversTransitive(a: bv12, b: bv12, c: bv12)
    requires Covers(a, b) && Covers(b, c)
    ensures Covers(a, c)
  {
  }

  lemma PresentAfterOr(a: bv12)
    ensures (a | PRESENT) & PRESENT != 0
  {
  }

  lemma OrOrCovers(a: bv12, b: bv12, c: bv12)
    ensures Covers(a | b | c, a)
  {
  }

  lemma PresentKept(a: bv12, b: bv12)
    requires a & PRESENT != 0
    ensures (a | b) & PRESENT != 0
  {
  }

  lemma OrPresent(a: bv12)
    requires a & PRESENT != 0
    ensures a | PRESENT == a
  {
  }

  lemma OrZero(a: bv12)
    ensures 0 | a == a && a | 0 == a
  {
  }

  lemma CoversZero(a: bv12)
    ensures Covers(a, 0)
  {
  }

  lemma OrAssociates(a: bv12, b: bv12, c: bv12)
    ensures a | (b | c) == a | b | c
  {
  }

  lemma CoversItself(a: bv12)
    ensures Covers(a, a)
  {
  }

  lemma OrCovers(a: bv12, b: bv12)
    ensures Covers(a | b, a) && Covers(a | b, b)
  {
  }

  function Pow2(n: nat): nat {
    if n == 0 then 1 else 2 * Pow2(n - 1)
  }

  /** Bitwise or of two `n`-bit numbers. */
  function Or(a: nat, b: nat, n: nat): (r: nat)
    requires a < Pow2(n) && b < Pow2(n)
    ensures r < Pow2(n)
    ensures a == 0 ==> r == b
  {
    if n == 0 then 0
    else 2 * Or(a / 2, b / 2, n - 1) + (if a % 2 == 1 || b % 2 == 1 then 1 else 0)
  }

  lemma FrameBits()
    ensures Pow2(40) == FRAMES
  {
    assert Pow2(10) == 1024;
    assert Pow2(20) == 1024 * 1024;
    assert Pow2(30) == 1024 * 1024 * 1024;
  }

  /** `*entry |= address` for a page-aligned address. */
  function OrAddress(w: Word, frame: Frame): (r: Word)
    ensures w.frame == 0 ==> r == w.(frame := frame)
  {
    FrameBits();
    w.(frame := Or(w.frame, frame, 40))
  }

  /** `*entry |= bits` for bits of the low flag field. */
  function OrLow(w: Word, bits: bv12): Word {
    w.(low := w.low | bits)
  }

  /** `*entry |= flags`. */
  function OrFlags(w: Word, flags: Flags): Word {
    Word(w.low | flags.low, w.frame, w.high | flags.high)
  }

  /** arch_table_manager_set_address for a page-aligned address. */
  function SetAddress(w: Word, frame: Frame): (r: Word)
    ensures r == w.(frame := frame)
  {
    OrAddress(w.(frame := 0), frame)
  }

  lemma OrLowKeeps(w: Word, low: bv12)
    ensures OrLow(w, low).frame == w.frame && OrLow(w, low).high == w.high
    ensures Covers(OrLow(w, low).low, w.low) && Covers(OrLow(w, low).low, low)
    ensures Present(w) ==> Present(OrLow(w, low))
  {
    OrCovers(w.low, low);
    if Present(w) { PresentKept(w.low, low); }
  }
}
