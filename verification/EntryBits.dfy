/** The 64-bit form of a page-table entry. `Fields` reads a 64-bit entry as the
    three bit fields of module EntryWords, and every operation on the entry
    commutes with it, so working on the fields is working on the word itself. */
module EntryBits {
  import W = EntryWords
  import M = TableManager

  // -------------------------------------------------------------- bit fields

  function Low(w: bv64): bv12 { (w & 0xFFF) as bv12 }
  function Address(w: bv64): bv40 { ((w >> 12) & 0xFF_FFFF_FFFF) as bv40 }
  function High(w: bv64): bv12 { (w >> 52) as bv12 }

  predicate Odd(b: bv40) { b & 1 == 1 }
  function Half(b: bv40): bv40 { b >> 1 }

  /** The number written by the lowest `n` bits. */
  function Value(b: bv40, n: nat): (v: nat)
    ensures v < W.Pow2(n)
  {
    if n == 0 then 0 else 2 * Value(Half(b), n - 1) + (if Odd(b) then 1 else 0)
  }

  function FrameOf(w: bv64): W.Frame {
    W.FrameBits();
    Value(Address(w), 40)
  }

  function FlagsOf(w: bv64): W.Flags {
    W.Flags(Low(w), High(w))
  }

  function Fields(w: bv64): W.Word {
    W.Word(Low(w), FrameOf(w), High(w))
  }

  // ------------------------------------------------------------ frame numbers

  function Both(a: bv40, b: bv40): bv40 { a | b }

  lemma HalfOr(a: bv40, b: bv40)
    ensures Half(Both(a, b)) == Both(Half(a), Half(b)) && (Odd(Both(a, b)) <==> Odd(a) || Odd(b))
  {
  }

  lemma {:induction false} OrOfValues(a: bv40, b: bv40, n: nat)
    ensures Value(Both(a, b), n) == W.Or(Value(a, n), Value(b, n), n)
    decreases n
  {
    hide Half, Odd, Both, W.Or;
    if n == 0 {
      OrNone();
    } else {
      HalfOr(a, b);
      OrOfValues(Half(a), Half(b), n - 1);
      OrStep(Value(Half(a), n - 1), Value(Half(b), n - 1), Odd(a), Odd(b), n);
    }
  }

  lemma OrNone()
    ensures W.Or(0, 0, 0) == 0
  {
  }

  lemma OrStep(a: nat, b: nat, oddA: bool, oddB: bool, n: nat)
    requires n > 0 && a < W.Pow2(n - 1) && b < W.Pow2(n - 1)
    ensures var v, w := 2 * a + (if oddA then 1 else 0), 2 * b + (if oddB then 1 else 0);
      v < W.Pow2(n) && w < W.Pow2(n)
      && W.Or(v, w, n) == 2 * W.Or(a, b, n - 1) + (if oddA || oddB then 1 else 0)
  {
    var v, w := 2 * a + (if oddA then 1 else 0), 2 * b + (if oddB then 1 else 0);
    assert v / 2 == a && w / 2 == b;
  }

  function Shifted(b: bv40, n: nat): bv40 {
    if n == 0 then b else Shifted(Half(b), n - 1)
  }

  lemma {:induction false} ShiftedTwice(b: bv40, m: nat, n: nat)
    ensures Shifted(b, m + n) == Shifted(Shifted(b, m), n)
    decreases m
  {
    hide Half;
    if m > 0 { ShiftedTwice(Half(b), m - 1, n); }
  }

  function Byte(b: bv40): bv40 { b >> 8 }

  lemma HalvesMakeByte(b: bv40)
    ensures Half(Half(Half(Half(Half(Half(Half(Half(b)))))))) == Byte(b)
  {
  }

  lemma ShiftedByte(b: bv40)
    ensures Shifted(b, 8) == Byte(b)
  {
    hide Half, Byte;
    HalvesMakeByte(b);
    var b1 := Half(b);
    var b2 := Half(b1);
    var b3 := Half(b2);
    var b4 := Half(b3);
    var b5 := Half(b4);
    var b6 := Half(b5);
    var b7 := Half(b6);
    assert Shifted(b6, 2) == Shifted(b7, 1) == Half(b7);
    assert Shifted(b4, 4) == Shifted(b5, 3) == Shifted(b6, 2);
    assert Shifted(b2, 6) == Shifted(b3, 5) == Shifted(b4, 4);
    assert Shifted(b, 8) == Shifted(b1, 7) == Shifted(b2, 6);
  }

  /** Forty bits are all there is. */
  lemma NothingAbove(b: bv40)
    ensures Shifted(b, 40) == 0
  {
    hide Shifted, Byte;
    var b1 := Byte(b);
    var b2 := Byte(b1);
    var b3 := Byte(b2);
    var b4 := Byte(b3);
    ShiftedByte(b);
    ShiftedByte(b1);
    ShiftedByte(b2);
    ShiftedByte(b3);
    ShiftedByte(b4);
    ShiftedTwice(b, 8, 32);
    ShiftedTwice(b1, 8, 24);
    ShiftedTwice(b2, 8, 16);
    ShiftedTwice(b3, 8, 8);
    FiveBytes(b);
  }

  lemma FiveBytes(b: bv40)
    ensures Byte(Byte(Byte(Byte(Byte(b))))) == 0
  {
  }

  lemma FromHalf(a: bv40, b: bv40)
    requires Half(a) == Half(b) && (Odd(a) <==> Odd(b))
    ensures a == b
  {
  }

  lemma {:induction false} ValueDetermines(a: bv40, b: bv40, n: nat)
    requires Value(a, n) == Value(b, n) && Shifted(a, n) == 0 && Shifted(b, n) == 0
    ensures a == b
    decreases n
  {
    hide Half, Odd;
    if n > 0 {
      ValueDetermines(Half(a), Half(b), n - 1);
      FromHalf(a, b);
    }
  }

  lemma PartsDetermine(v: bv64, w: bv64)
    requires Low(v) == Low(w) && Address(v) == Address(w) && High(v) == High(w)
    ensures v == w
  {
  }

  /** Nothing of an entry is lost in its fields. */
  lemma FieldsDetermine(v: bv64, w: bv64)
    requires Fields(v) == Fields(w)
    ensures v == w
  {
    hide Value, Shifted, Address, Low, High;
    NothingAbove(Address(v));
    NothingAbove(Address(w));
    ValueDetermines(Address(v), Address(w), 40);
    PartsDetermine(v, w);
  }

  // ------------------------------------------------------------- the accesses

  /** `*entry & TABLE_ENTRY_PRESENT` */
  lemma PresentField(w: bv64)
    ensures w & 1 != 0 <==> W.Present(Fields(w))
  {
    hide FrameOf;
  }

  lemma OrByParts(v: bv64, w: bv64)
    ensures Low(v | w) == Low(v) | Low(w)
    ensures Address(v | w) == Address(v) | Address(w)
    ensures High(v | w) == High(v) | High(w)
  {
  }

  lemma OrNothing(a: bv12, b: bv40)
    ensures a | 0 == a && b | 0 == b
  {
  }

  /** `*entry |= flags`, for bits outside the address field. */
  lemma OrFlagsField(w: bv64, flags: bv64)
    requires Address(flags) == 0
    ensures Fields(w | flags) == W.OrFlags(Fields(w), FlagsOf(flags))
  {
    hide Low, High, Address, Value;
    OrByParts(w, flags);
    OrNothing(0, Address(w));
  }

  /** The same for bits of the low field only. */
  lemma OrLowField(w: bv64, flags: bv64)
    requires Address(flags) == 0 && High(flags) == 0
    ensures Fields(w | flags) == W.OrLow(Fields(w), Low(flags))
  {
    hide Low, High, Address, Value;
    OrByParts(w, flags);
    OrNothing(High(w), Address(w));
  }

  /** A page-aligned address below 2^52. */
  predicate Aligned(address: bv64) {
    Low(address) == 0 && High(address) == 0
  }

  /** `*entry |= address` */
  lemma OrAddressField(w: bv64, address: bv64)
    requires Aligned(address)
    ensures Fields(w | address) == W.OrAddress(Fields(w), FrameOf(address))
  {
    hide Low, High, Address, Value, W.Or;
    W.FrameBits();
    OrByParts(w, address);
    OrNothing(Low(w), 0);
    OrNothing(High(w), 0);
    OrOfValues(Address(w), Address(address), 40);
  }

  /** arch_table_manager_get_address; the mask is ~0xFFF0000000000FFF. */
  function GetAddress(entry: bv64): bv64 { entry & 0x000F_FFFF_FFFF_F000 }

  lemma AddressPart(w: bv64)
    ensures Low(GetAddress(w)) == 0 && High(GetAddress(w)) == 0 && Address(GetAddress(w)) == Address(w)
  {
  }

  /** The address read from an entry is that of its frame. */
  lemma GetAddressField(w: bv64)
    ensures Aligned(GetAddress(w)) && FrameOf(GetAddress(w)) == FrameOf(w)
  {
    hide Low, High, Address, Value;
    AddressPart(w);
  }

  /** arch_table_manager_set_address */
  function SetAddress(entry: bv64, address: bv64): bv64 { Cleared(entry) | address }

  function Cleared(entry: bv64): bv64 { entry & 0xFFF0_0000_0000_0FFF }

  lemma ClearedParts(w: bv64)
    ensures Low(Cleared(w)) == Low(w) && High(Cleared(w)) == High(w) && Address(Cleared(w)) == 0
  {
  }

  lemma SetAddressParts(w: bv64, address: bv64)
    requires Aligned(address)
    ensures Low(SetAddress(w, address)) == Low(w) && High(SetAddress(w, address)) == High(w)
    ensures Address(SetAddress(w, address)) == Address(address)
  {
    hide FrameOf;
  }

  lemma SetAddressField(w: bv64, address: bv64)
    requires Aligned(address)
    ensures Fields(SetAddress(w, address)) == W.SetAddress(Fields(w), FrameOf(address))
  {
    hide Low, High, Address, Value, SetAddress, W.OrAddress, W.SetAddress;
    SetAddressParts(w, address);
  }

  // ---------------------------------------------------- whole lines of the code

  /** The flags `map` or-s into a leaf. */
  lemma PresentFlag(flags: bv64)
    ensures Low(flags | 1) == Low(flags) | W.PRESENT && High(flags | 1) == High(flags)
    ensures Address(flags) == 0 ==> Address(flags | 1) == 0
  {
  }

  /** The two statements that write a leaf, on the 64-bit entry: the fields of the
      result are the mapped entry. */
  lemma LeafWriteField(w: bv64, flags: bv64, address: bv64)
    requires Address(flags) == 0 && Aligned(address)
    ensures Fields(SetAddress(w | (flags | 1), address)) == M.Mapped(Fields(w), FrameOf(address), FlagsOf(flags))
  {
    hide Low, High, Address, Value, SetAddress, W.OrFlags, W.SetAddress, FrameOf;
    PresentFlag(flags);
    OrFlagsField(w, flags | 1);
    SetAddressField(w | (flags | 1), address);
    M.MappedKeeps(Fields(w), FrameOf(address), FlagsOf(flags));
  }

  lemma LayerFlag(flags: bv64)
    ensures Low((flags & 0xFF) | 1) == W.LayerBits(FlagsOf(flags)) | W.PRESENT
    ensures High((flags & 0xFF) | 1) == 0 && Address((flags & 0xFF) | 1) == 0
  {
    hide FrameOf;
  }

  lemma ZeroField()
    ensures Fields(0) == W.ZERO
  {
    hide Value;
    NoBits(40);
  }

  lemma {:induction false} NoBits(n: nat)
    ensures Value(0, n) == 0
  {
    if n > 0 { NoBits(n - 1); }
  }

  /** The two statements that link a new layer into an entry that was zero. */
  lemma NewLayerField(flags: bv64, address: bv64)
    requires Aligned(address)
    ensures Fields(0 | address | ((flags & 0xFF) | 1)) == M.NewLayerWord(FrameOf(address), W.LayerBits(FlagsOf(flags)))
  {
    hide Low, High, Address, Value, W.OrLow, W.OrAddress, W.LayerBits, M.NewLayerWord, FrameOf;
    ZeroField();
    OrAddressField(0, address);
    LayerFlag(flags);
    OrLowField(0 | address, (flags & 0xFF) | 1);
    M.NewLayerWordLinks(FrameOf(address), W.LayerBits(FlagsOf(flags)));
  }

  /** The flags that fork passes on are those of the entry. */
  lemma ForkFlags(entry: bv64)
    ensures FlagsOf(Cleared(entry)) == FlagsOf(entry) && Address(Cleared(entry)) == 0
  {
    hide Low, High, Address, Cleared;
    ClearedParts(entry);
  }
}
