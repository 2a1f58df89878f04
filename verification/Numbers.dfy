/** Printing numbers: num_to_string, which fills a bounded buffer with the
    digits of a 64-bit value in a given base. */
module Numbers {
  import opened CStrings
  import opened Arithmetic

  // ------------------------------------------------------ reading a numeral

  function DigitChar(d: nat): char
    requires d < 16
  {
    "0123456789ABCDEF"[d]
  }

  function DigitValue(c: char): (d: nat)
    ensures d < 16
  {
    if '0' <= c <= '9' then c as nat - '0' as nat
    else if 'A' <= c <= 'F' then c as nat - 'A' as nat + 10
    else 0
  }

  lemma DigitRoundTrip(d: nat)
    requires d < 16
    ensures DigitValue(DigitChar(d)) == d && DigitChar(d) != NUL
  {
    var digits := "0123456789ABCDEF";
    assert digits[0] == '0' && digits[1] == '1' && digits[2] == '2' && digits[3] == '3';
    assert digits[4] == '4' && digits[5] == '5' && digits[6] == '6' && digits[7] == '7';
    assert digits[8] == '8' && digits[9] == '9' && digits[10] == 'A' && digits[11] == 'B';
    assert digits[12] == 'C' && digits[13] == 'D' && digits[14] == 'E' && digits[15] == 'F';
  }

  /** The value of a numeral, most significant digit first. */
  function Decode(s: string, base: nat): nat {
    if s == [] then 0
    else Decode(s[..|s| - 1], base) * base + DigitValue(s[|s| - 1])
  }

  function Power(base: nat, k: nat): nat {
    if k == 0 then 1 else Power(base, k - 1) * base
  }

  // ------------------------------------------------------------ the numeral

  function Digit(value: nat, base: nat): (d: nat)
    requires 2 <= base <= 16
    ensures d < 16
  {
    value % base
  }

  function Rest(value: nat, base: nat): (q: nat)
    requires 2 <= base <= 16
    ensures value > 0 ==> q < value
  {
    value / base
  }

  /** The digits, least significant first, at most `room` of them. */
  function LowDigits(value: nat, base: nat, room: nat): (s: string)
    requires 2 <= base <= 16
    ensures |s| <= room
    ensures value > 0 && room > 0 ==> |s| > 0
    decreases room
  {
    if value == 0 || room == 0 then []
    else [DigitChar(Digit(value, base))] + LowDigits(Rest(value, base), base, room - 1)
  }

  function Reversed(s: string): (r: string)
    ensures |r| == |s|
  {
    if s == [] then [] else Reversed(s[1..]) + [s[0]]
  }

  /** The room for digits: one is written before the bound is looked at. */
  function Room(bytes: nat): nat {
    if Reserved(bytes) == 0 then 1 else Reserved(bytes)
  }

  function Printed(value: nat, base: nat, bytes: nat): string
    requires 2 <= base <= 16
  {
    if value == 0 then "0" else Reversed(LowDigits(value, base, Room(bytes)))
  }

  // ------------------------------------------------- what the numeral means

  lemma {:induction false} PowerPositive(base: nat, k: nat)
    requires base > 0
    ensures Power(base, k) > 0
  {
    if k > 0 { PowerPositive(base, k - 1); }
  }

  /** Splitting off the last digit of a remainder. */
  lemma RemainderStep(v: nat, base: nat, power: nat)
    requires base > 0 && power > 0
    ensures power * base > 0
    ensures v % (power * base) == ((v / base) % power) * base + v % base
  {
    var m, s, d := v / base / power, v / base % power, v % base;
    Division(v, base);
    Division(v / base, power);
    Regroup(m, power, s, base, d);
    DivisionUnique(v, power * base, m, s * base + d);
  }

  /** (m * power + s) * base + d, sorted by multiples of power * base. */
  lemma Regroup(m: nat, power: nat, s: nat, base: nat, d: nat)
    requires s < power && d < base
    ensures (m * power + s) * base + d == m * (power * base) + (s * base + d)
    ensures s * base + d < power * base
  {
    Distribute(m * power, s, base);
    Associate(m, power, base);
    Gap(power, s, base);
  }

  lemma DecodeEmpty(base: nat)
    ensures Decode([], base) == 0
  {
  }

  lemma DecodeAppend(s: string, d: nat, base: nat)
    requires d < 16
    ensures Decode(s + [DigitChar(d)], base) == Decode(s, base) * base + d
  {
    DigitRoundTrip(d);
    assert (s + [DigitChar(d)])[..|s|] == s;
  }

  lemma {:induction false} DigitsDecode(value: nat, base: nat, room: nat)
    requires 2 <= base <= 16
    ensures Power(base, room) > 0
    ensures Decode(Reversed(LowDigits(value, base, room)), base) == value % Power(base, room)
    decreases room
  {
    hide Decode, DigitChar;
    PowerPositive(base, room);
    if value == 0 {
      DivisionUnique(0, Power(base, room), 0, 0);
      DecodeEmpty(base);
    } else if room > 0 {
      var rest := LowDigits(Rest(value, base), base, room - 1);
      DigitsDecode(Rest(value, base), base, room - 1);
      var s := LowDigits(value, base, room);
      assert s[1..] == rest;
      DecodeAppend(Reversed(rest), Digit(value, base), base);
      RemainderStep(value, base, Power(base, room - 1));
    } else {
      DecodeEmpty(base);
    }
  }

  /** The printed digits decode to the value modulo base^room: the high
      digits are the ones that are lost. */
  lemma PrintedDecodes(value: nat, base: nat, bytes: nat)
    requires 2 <= base <= 16
    ensures Power(base, Room(bytes)) > 0
    ensures Decode(Printed(value, base, bytes), base) == value % Power(base, Room(bytes))
  {
    if value == 0 {
      PowerPositive(base, Room(bytes));
      DivisionUnique(0, Power(base, Room(bytes)), 0, 0);
      assert Decode("0", base) == Decode([], base) * base + 0;
    } else {
      DigitsDecode(value, base, Room(bytes));
    }
  }

  /** The number survives printing if and only if it has few enough digits. */
  lemma PrintedExactly(value: nat, base: nat, bytes: nat)
    requires 2 <= base <= 16
    ensures Decode(Printed(value, base, bytes), base) == value <==> value < Power(base, Room(bytes))
  {
    PrintedDecodes(value, base, bytes);
    if value < Power(base, Room(bytes)) { DivisionUnique(value, Power(base, Room(bytes)), 0, value); }
  }

  /** Digits and terminator stay inside the claimed size, whatever the value, if
      and only if that size is two bytes or more. */
  lemma NeverPastTheEnd(value: nat, base: nat, bytes: nat)
    requires 2 <= base <= 16
    ensures |Printed(value, base, bytes)| + 1 <= bytes <==> bytes >= 2
  {
  }

  lemma {:induction false} TopDigit(value: nat, base: nat, room: nat)
    requires 2 <= base <= 16 && 0 < value < Power(base, room)
    ensures LowDigits(value, base, room) != []
    ensures var s := LowDigits(value, base, room); DigitValue(s[|s| - 1]) != 0
    decreases room
  {
    var d, rest := Digit(value, base), Rest(value, base);
    DigitRoundTrip(d);
    Division(value, base);
    if rest == 0 {
      assert LowDigits(rest, base, room - 1) == [];
    } else {
      if rest >= Power(base, room - 1) { AtLeast(rest, Power(base, room - 1), base); }
      TopDigit(rest, base, room - 1);
      var s, tail := LowDigits(value, base, room), LowDigits(rest, base, room - 1);
      assert s[|s| - 1] == tail[|tail| - 1];
    }
  }

  lemma AtLeast(a: nat, b: nat, m: nat)
    requires a >= b
    ensures a * m >= b * m
  {
    if a > b { Gap(a, b, m); }
  }

  /** A number that fits is printed without leading zeroes. */
  lemma NoLeadingZero(value: nat, base: nat, bytes: nat)
    requires 2 <= base <= 16 && 0 < value < Power(base, Room(bytes))
    ensures Printed(value, base, bytes) != [] && DigitValue(Printed(value, base, bytes)[0]) != 0
  {
    TopDigit(value, base, Room(bytes));
    ReversedAt(LowDigits(value, base, Room(bytes)), 0);
  }

  /** The digits are those of the usual notation. */
  lemma PrintsHexadecimal()
    ensures Printed(0xCAFE, 16, 8) == "CAFE" && Printed(0, 2, 8) == "0"
  {
    assert LowDigits(0xC, 16, 4) == "C" + LowDigits(0, 16, 3);
    assert LowDigits(0xCA, 16, 5) == "A" + LowDigits(0xC, 16, 4);
    assert LowDigits(0xCAF, 16, 6) == "F" + LowDigits(0xCA, 16, 5);
    assert LowDigits(0xCAFE, 16, 7) == "E" + LowDigits(0xCAF, 16, 6);
    hide LowDigits, Reversed;
    FourReversed("EFAC");
  }

  lemma FourReversed(s: string)
    requires |s| == 4
    ensures Reversed(s) == [s[3], s[2], s[1], s[0]]
  {
    forall k: nat | k < 4 ensures Reversed(s)[k] == [s[3], s[2], s[1], s[0]][k] { ReversedAt(s, k); }
  }

  lemma {:induction false} ReversedMembers(s: string)
    ensures forall c :: c in Reversed(s) <==> c in s
  {
    if s != [] { ReversedMembers(s[1..]); }
  }

  lemma {:induction false} DigitsPrintable(value: nat, base: nat, room: nat)
    requires 2 <= base <= 16
    ensures NUL !in LowDigits(value, base, room)
    decreases room
  {
    if value > 0 && room > 0 {
      DigitRoundTrip(Digit(value, base));
      DigitsPrintable(Rest(value, base), base, room - 1);
    }
  }

  /** The terminator is the only zero byte written. */
  lemma PrintedIsString(value: nat, base: nat, bytes: nat)
    requires 2 <= base <= 16
    ensures NUL !in Printed(value, base, bytes) && Printed(value, base, bytes) != []
  {
    DigitsPrintable(value, base, Room(bytes));
    ReversedMembers(LowDigits(value, base, Room(bytes)));
  }

  // ---------------------------------------------------------------- in place

  lemma {:induction false} ReversedAt(s: string, k: nat)
    requires k < |s|
    ensures Reversed(s)[k] == s[|s| - 1 - k]
  {
    if k < |s| - 1 { ReversedAt(s[1..], k); }
  }

  lemma IsReversed(s: string, r: string)
    requires |r| == |s| && forall k: nat :: k < |s| ==> r[k] == s[|s| - 1 - k]
    ensures r == Reversed(s)
  {
    forall k: nat | k < |s| ensures r[k] == Reversed(s)[k] { ReversedAt(s, k); }
  }

  /** The swapping loop, over the first `count` bytes. */
  method ReverseFront(buffer: array<char>, count: nat)
    requires count <= buffer.Length
    modifies buffer
    ensures buffer[..count] == Reversed(old(buffer[..count]))
    ensures buffer[count..] == old(buffer[count..])
  {
    var i, j := 0, count - 1;
    while i < j
      invariant 0 <= i && i + j == count - 1 && i <= j + 2
      invariant forall k: nat :: k < i ==> buffer[k] == old(buffer[count - 1 - k])
      invariant forall k: nat :: j < k < count ==> buffer[k] == old(buffer[count - 1 - k])
      invariant forall k: nat :: i <= k <= j ==> buffer[k] == old(buffer[k])
      invariant forall k: nat :: count <= k < buffer.Length ==> buffer[k] == old(buffer[k])
    {
      buffer[i], buffer[j] := buffer[j], buffer[i];
      i, j := i + 1, j - 1;
    }
    IsReversed(old(buffer[..count]), buffer[..count]);
  }

  /** One more digit. */
  lemma {:induction false} DigitsExtend(value: nat, base: nat, room: nat, done: string, k: nat)
    requires 2 <= base <= 16 && k < room
    requires value > 0
    ensures done + LowDigits(value, base, room - k)
         == done + [DigitChar(Digit(value, base))] + LowDigits(Rest(value, base), base, room - k - 1)
  {
  }

  lemma DigitsEnd(value: nat, base: nat, room: nat)
    requires 2 <= base <= 16 && (value == 0 || room == 0)
    ensures LowDigits(value, base, room) == []
  {
  }

  /** The dividing loop. */
  method WriteDigits(value: nat, buffer: array<char>, bytes: nat, base: nat) returns (index: nat)
    requires 0 < value && 2 <= base <= 16
    requires |LowDigits(value, base, Room(bytes))| < buffer.Length
    modifies buffer
    ensures index == |LowDigits(value, base, Room(bytes))|
    ensures buffer[..] == LowDigits(value, base, Room(bytes)) + old(buffer[index..])
  {
    hide LowDigits, DigitChar, Digit, Rest, Reversed;
    ghost var numeral := LowDigits(value, base, Room(bytes));
    ghost var was := buffer[..];
    var room := Reserved(bytes);
    index := 0;
    var left: nat := value;
    var full := false;
    while left > 0 && !full
      invariant index <= Room(bytes) && index <= |numeral|
      invariant full <==> index > 0 && index >= room
      invariant full ==> index == Room(bytes)
      invariant index == 0 ==> left == value
      invariant was[..0] == []
      invariant buffer[..index] + LowDigits(left, base, Room(bytes) - index) == numeral
      invariant buffer[index..] == was[index..]
      decreases left
    {
      ghost var front := buffer[..index];
      DigitsExtend(left, base, Room(bytes), front, index);
      buffer[index] := DigitChar(Digit(left, base));
      left := Rest(left, base);
      index := index + 1;
      assert buffer[..index] == front + [buffer[index - 1]];
      full := index >= room;
    }
    DigitsEnd(left, base, Room(bytes) - index);
    assert buffer[..] == buffer[..index] + buffer[index..];
  }

  /** num_to_string. `bytes` is the size the caller claims for the buffer. */
  method NumToString(value: nat, buffer: array<char>, bytes: nat, base: nat)
    requires value < 0x1_0000_0000_0000_0000 && 2 <= base <= 16
    requires |Printed(value, base, bytes)| < buffer.Length
    modifies buffer
    ensures buffer[..] == Printed(value, base, bytes) + [NUL]
                          + old(buffer[|Printed(value, base, bytes)| + 1..])
  {
    hide LowDigits, Reversed;
    if value == 0 {
      buffer[0] := '0';
      buffer[1] := NUL;
    } else {
      var index := WriteDigits(value, buffer, bytes, base);
      assert buffer[..index] == LowDigits(value, base, Room(bytes));
      ReverseFront(buffer, index);
      buffer[index] := NUL;
    }
  }
}
