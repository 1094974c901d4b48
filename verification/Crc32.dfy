/** The checksum of scan_evtx.cpp: a 256-entry table and one look-up per byte.  The
    reference is the bit-at-a-time CRC of section 8 of RFC 1952. */
module Crc32 {

  const POLYNOMIAL: bv32 := 0xEDB8_8320

  // The machine operations, named so that proofs can treat them as symbols.

  function Xor(a: bv32, b: bv32): bv32 { a ^ b }

  predicate Odd(c: bv32) { c & 1 == 1 }

  function Half(c: bv32): bv32 { c >> 1 }

  function LowByte(c: bv32): bv32 { c & 0xFF }

  function DropByte(c: bv32): bv32 { c >> 8 }

  function Wide(b: bv8): bv32 { b as bv32 }

  function Not(c: bv32): bv32 { c ^ 0xFFFF_FFFF }

  lemma XorCommutes(a: bv32, b: bv32)
    ensures Xor(a, b) == Xor(b, a)
  {
  }

  lemma XorAssociates(a: bv32, b: bv32, c: bv32)
    ensures Xor(Xor(a, b), c) == Xor(a, Xor(b, c))
  {
  }

  lemma XorCancels(a: bv32, b: bv32)
    ensures Xor(Xor(a, b), b) == a
  {
  }

  lemma XorLaws(a: bv32, b: bv32, c: bv32)
    ensures Xor(a, b) == Xor(b, a) && Xor(Xor(a, b), c) == Xor(a, Xor(b, c))
    ensures Xor(Xor(a, b), b) == a && Xor(a, Xor(a, b)) == b
  {
    hide Xor;
    XorCommutes(a, b);
    XorCommutes(Xor(a, b), a);
    XorCommutes(b, a);
    XorAssociates(a, b, c);
    XorCancels(a, b);
    XorCancels(b, a);
  }

  // The reference

  /** One bit of the reference CRC. */
  function Shift1(c: bv32): bv32 { if Odd(c) then Xor(POLYNOMIAL, Half(c)) else Half(c) }

  function Shift(c: bv32, n: nat): bv32
    decreases n
  {
    if n == 0 then c else Shift(Shift1(c), n - 1)
  }

  /** One byte of the reference CRC: exclusive-or it in, then eight bits. */
  function Feed(c: bv32, b: bv8): bv32 { Shift(Xor(c, Wide(b)), 8) }

  function FeedAll(c: bv32, s: seq<bv8>): bv32
    decreases |s|
  {
    if s == [] then c else FeedAll(Feed(c, s[0]), s[1..])
  }

  /** The reference CRC, with the inversions before and after. */
  function Crc(initial: bv32, s: seq<bv8>): bv32 { Not(FeedAll(Not(initial), s)) }

  // ---------------------------------------------------------------------------
  // Linearity over GF(2)

  lemma HalfLinear(a: bv32, b: bv32)
    ensures Half(Xor(a, b)) == Xor(Half(a), Half(b)) && Odd(Xor(a, b)) == (Odd(a) != Odd(b))
  {
    assert (a ^ b) & 1 == (a & 1) ^ (b & 1);
  }

  lemma Shift1Linear(a: bv32, b: bv32)
    ensures Shift1(Xor(a, b)) == Xor(Shift1(a), Shift1(b))
  {
    hide Xor, Odd, Half;
    HalfLinear(a, b);
    var p, x, y := POLYNOMIAL, Half(a), Half(b);
    XorLaws(p, x, y);
    XorLaws(x, p, y);
    XorLaws(p, x, Xor(p, y));
    XorLaws(x, p, Xor(p, y));
    XorLaws(p, y, y);
  }

  lemma {:induction false} ShiftLinear(a: bv32, b: bv32, n: nat)
    ensures Shift(Xor(a, b), n) == Xor(Shift(a, n), Shift(b, n))
    decreases n
  {
    hide Xor, Shift1;
    if n > 0 {
      Shift1Linear(a, b);
      ShiftLinear(Shift1(a), Shift1(b), n - 1);
    }
  }

  /** Zero bits at the bottom just fall off. */
  lemma ShiftZeros(c: bv32)
    requires LowByte(c) == 0
    ensures Shift(c, 8) == DropByte(c)
  {
    FallsOff(c);
    hide Odd, Half, Xor, DropByte, LowByte, Shift;
    var c1 := Half(c);
    var c2 := Half(c1);
    var c3 := Half(c2);
    var c4 := Half(c3);
    var c5 := Half(c4);
    var c6 := Half(c5);
    var c7 := Half(c6);
    ShiftMore(c, 8); ShiftMore(c1, 7); ShiftMore(c2, 6); ShiftMore(c3, 5);
    ShiftMore(c4, 4); ShiftMore(c5, 3); ShiftMore(c6, 2); ShiftMore(c7, 1);
    ShiftNone(Half(c7));
  }

  lemma ShiftMore(c: bv32, n: nat)
    requires n > 0
    ensures Shift(c, n) == Shift(Shift1(c), n - 1)
  {
  }

  lemma ShiftNone(c: bv32)
    ensures Shift(c, 0) == c
  {
  }

  lemma FallsOff(c: bv32)
    requires LowByte(c) == 0
    ensures !Odd(c) && !Odd(Half(c)) && !Odd(Half(Half(c))) && !Odd(Half(Half(Half(c)))) && !Odd(Half(Half(Half(Half(c)))))
    ensures var c5 := Half(Half(Half(Half(Half(c)))));
            !Odd(c5) && !Odd(Half(c5)) && !Odd(Half(Half(c5))) && Half(Half(Half(c5))) == DropByte(c)
  {
    HalvesAreShifts(c);
    BitsOfZero(c);
  }

  lemma HalvesAreShifts(c: bv32)
    ensures Half(Half(c)) == c >> 2 && Half(c >> 2) == c >> 3 && Half(c >> 3) == c >> 4 && Half(c >> 4) == c >> 5
    ensures Half(c >> 5) == c >> 6 && Half(c >> 6) == c >> 7 && Half(c >> 7) == c >> 8
  {
  }

  lemma BitsOfZero(c: bv32)
    requires c & 0xFF == 0
    ensures c & 1 == 0 && (c >> 1) & 1 == 0 && (c >> 2) & 1 == 0 && (c >> 3) & 1 == 0
    ensures (c >> 4) & 1 == 0 && (c >> 5) & 1 == 0 && (c >> 6) & 1 == 0 && (c >> 7) & 1 == 0
  {
  }

  function HighBytes(c: bv32): bv32 { c & 0xFFFF_FF00 }

  lemma LowAndHigh(x: bv32)
    ensures x == Xor(LowByte(x), HighBytes(x)) && LowByte(HighBytes(x)) == 0 && DropByte(HighBytes(x)) == DropByte(x)
  {
  }

  lemma DropByteXor(c: bv32, b: bv8)
    ensures DropByte(Xor(c, Wide(b))) == DropByte(c)
  {
    ShiftsApart(c, Wide(b));
    WideIsLow(b);
  }

  lemma ShiftsApart(c: bv32, w: bv32)
    ensures DropByte(Xor(c, w)) == Xor(DropByte(c), DropByte(w)) && Xor(c, 0) == c
  {
  }

  lemma WideIsLow(b: bv8)
    ensures DropByte(Wide(b)) == 0
  {
  }

  lemma SplitByte(c: bv32, b: bv8) returns (hi: bv32)
    ensures Xor(c, Wide(b)) == Xor(LowByte(Xor(c, Wide(b))), hi)
    ensures LowByte(hi) == 0 && DropByte(hi) == DropByte(c)
  {
    hide Xor, LowByte, DropByte, Wide, HighBytes;
    hi := HighBytes(Xor(c, Wide(b)));
    LowAndHigh(Xor(c, Wide(b)));
    DropByteXor(c, b);
  }

  /** The identity behind the table. */
  lemma TableStep(c: bv32, b: bv8)
    ensures Feed(c, b) == Xor(Shift(LowByte(Xor(c, Wide(b))), 8), DropByte(c))
  {
    hide Xor, LowByte, DropByte, Wide, Shift;
    var hi := SplitByte(c, b);
    ShiftLinear(LowByte(Xor(c, Wide(b))), hi, 8);
    ShiftZeros(hi);
  }

  // ---------------------------------------------------------------------------
  // The code

  /** The table holds the eight-bit shift of each index. */
  ghost predicate IsTable(t: seq<bv32>) {
    |t| == 256 && forall i :: 0 <= i < 256 ==> t[i] == Shift(i as bv32, 8)
  }

  method GenerateTable(table: array<bv32>)
    requires table.Length == 256
    modifies table
    ensures IsTable(table[..])
  {
    hide Xor, Half, Odd;
    var i := 0;
    while i < 256
      invariant 0 <= i <= 256
      invariant forall k :: 0 <= k < i ==> table[k] == Shift(k as bv32, 8)
    {
      var c := i as bv32;
      var j: nat := 0;
      while j < 8
        invariant j <= 8 && Shift(c, 8 - j) == Shift(i as bv32, 8)
      {
        if Odd(c) {
          c := Xor(POLYNOMIAL, Half(c));
        } else {
          c := Half(c);
        }
        j := j + 1;
      }
      table[i] := c;
      i := i + 1;
    }
  }

  /** The table index is the low byte as a number. */
  lemma IndexOfLowByte(x: bv32)
    ensures LowByte(x) as int < 256 && LowByte(x) as int as bv32 == LowByte(x)
  {
  }

  /** The table-driven loop computes the reference CRC, from any initial value. */
  method Update(table: array<bv32>, initial: bv32, buf: seq<bv8>) returns (crc: bv32)
    requires IsTable(table[..])
    ensures crc == Crc(initial, buf)
  {
    hide Xor, LowByte, DropByte, Wide, Shift, Not;
    var c := Not(initial);
    var i := 0;
    while i < |buf|
      invariant 0 <= i <= |buf|
      invariant FeedAll(c, buf[i..]) == FeedAll(Not(initial), buf)
    {
      TableStep(c, buf[i]);
      IndexOfLowByte(Xor(c, Wide(buf[i])));
      var index := LowByte(Xor(c, Wide(buf[i]))) as int;
      assert table[index] == table[..][index];
      c := Xor(table[index], DropByte(c));
      i := i + 1;
    }
    return Not(c);
  }

  // ---------------------------------------------------------------------------
  // What the checksum promises

  lemma {:induction false} FeedConcat(c: bv32, a: seq<bv8>, b: seq<bv8>)
    ensures FeedAll(c, a + b) == FeedAll(FeedAll(c, a), b)
    decreases |a|
  {
    hide Feed;
    if a == [] {
      assert a + b == b;
    } else {
      assert (a + b)[1..] == a[1..] + b;
      FeedConcat(Feed(c, a[0]), a[1..], b);
    }
  }

  lemma NotNot(c: bv32)
    ensures Not(Not(c)) == c
  {
  }

  /** Two pieces, the first result handed on as the second initial value, give the
      checksum of the whole. */
  lemma CrcConcat(initial: bv32, a: seq<bv8>, b: seq<bv8>)
    ensures Crc(Crc(initial, a), b) == Crc(initial, a + b)
  {
    hide Not, Feed;
    FeedConcat(Not(initial), a, b);
    NotNot(FeedAll(Not(initial), a));
  }

  lemma Shift1Injective(a: bv32, b: bv32)
    requires Shift1(a) == Shift1(b)
    ensures a == b
  {
    assert Odd(a) != Odd(b) ==> false by {
      assert (a >> 1) & 0x8000_0000 == 0 && (b >> 1) & 0x8000_0000 == 0;
    }
  }

  lemma {:induction false} ShiftInjective(a: bv32, b: bv32, n: nat)
    requires Shift(a, n) == Shift(b, n)
    ensures a == b
    decreases n
  {
    hide Shift1;
    if n > 0 {
      ShiftInjective(Shift1(a), Shift1(b), n - 1);
      Shift1Injective(a, b);
    }
  }

  lemma {:induction false} FeedAllInjective(a: bv32, b: bv32, s: seq<bv8>)
    requires FeedAll(a, s) == FeedAll(b, s)
    ensures a == b
    decreases |s|
  {
    hide Xor, Wide, Shift;
    if s != [] {
      FeedAllInjective(Feed(a, s[0]), Feed(b, s[0]), s[1..]);
      ShiftInjective(Xor(a, Wide(s[0])), Xor(b, Wide(s[0])), 8);
      XorLaws(a, Wide(s[0]), 0);
      XorLaws(b, Wide(s[0]), 0);
    }
  }

  function Up(c: bv32): bv32 { c << 8 }

  /** Up to four bytes as one word, first byte lowest. */
  function Word(w: seq<bv8>): bv32
    requires |w| <= 4
    decreases |w|
  {
    if w == [] then 0 else Xor(Wide(w[0]), Up(Word(w[1..])))
  }

  /** Does the word use only its `n` lowest bytes? */
  predicate Narrow(c: bv32, n: nat) {
    (n == 0 ==> c == 0) && (n == 1 ==> c & 0xFFFF_FF00 == 0) && (n == 2 ==> c & 0xFFFF_0000 == 0)
    && (n == 3 ==> c & 0xFF00_0000 == 0)
  }

  lemma PushLow(b: bv8, x: bv32)
    ensures LowByte(Xor(Wide(b), Up(x))) == Wide(b) && LowByte(Up(x)) == 0
  {
  }

  lemma PushHigh(b: bv8, x: bv32)
    requires x & 0xFF00_0000 == 0
    ensures DropByte(Xor(Wide(b), Up(x))) == x && DropByte(Up(x)) == x
  {
  }

  lemma PushNarrow(b: bv8, x: bv32)
    ensures x == 0 ==> Xor(Wide(b), Up(x)) & 0xFFFF_FF00 == 0
    ensures x & 0xFFFF_FF00 == 0 ==> Xor(Wide(b), Up(x)) & 0xFFFF_0000 == 0
    ensures x & 0xFFFF_0000 == 0 ==> Xor(Wide(b), Up(x)) & 0xFF00_0000 == 0
  {
  }

  lemma NarrowTop(x: bv32)
    ensures x & 0xFFFF_FF00 == 0 ==> x & 0xFF00_0000 == 0
    ensures x & 0xFFFF_0000 == 0 ==> x & 0xFF00_0000 == 0
  {
  }

  lemma PushByte(b: bv8, x: bv32, n: nat)
    requires n <= 3 && Narrow(x, n)
    ensures var y := Xor(Wide(b), Up(x));
            LowByte(y) == Wide(b) && DropByte(y) == x && LowByte(Up(x)) == 0 && DropByte(Up(x)) == x && Narrow(y, n + 1)
  {
    NarrowTop(x);
    assert n == 0 ==> x & 0xFF00_0000 == 0;
    hide Xor, Wide, Up, LowByte, DropByte;
    PushLow(b, x);
    PushHigh(b, x);
    PushNarrow(b, x);
  }

  lemma {:induction false} WordParts(w: seq<bv8>)
    requires |w| <= 4
    ensures Narrow(Word(w), |w|)
    ensures w != [] ==> LowByte(Word(w)) == Wide(w[0]) && DropByte(Word(w)) == Word(w[1..])
    ensures w != [] ==> LowByte(Up(Word(w[1..]))) == 0 && DropByte(Up(Word(w[1..]))) == Word(w[1..])
    decreases |w|
  {
    if w != [] {
      WordParts(w[1..]);
      hide Narrow, Up, Xor, LowByte, DropByte, Wide;
      PushByte(w[0], Word(w[1..]), |w| - 1);
    }
  }

  lemma WideInjective(a: bv8, b: bv8)
    requires Wide(a) == Wide(b)
    ensures a == b
  {
  }

  lemma {:induction false} WordInjective(a: seq<bv8>, b: seq<bv8>)
    requires |a| == |b| <= 4 && Word(a) == Word(b)
    ensures a == b
    decreases |a|
  {
    if a != [] {
      hide Up, Xor, LowByte, DropByte, Wide, Word, Narrow;
      WordParts(a);
      WordParts(b);
      WideInjective(a[0], b[0]);
      WordInjective(a[1..], b[1..]);
      assert a == [a[0]] + a[1..] && b == [b[0]] + b[1..];
    }
  }

  lemma {:induction false} ShiftAdd(c: bv32, m: nat, n: nat)
    ensures Shift(c, m + n) == Shift(Shift(c, m), n)
    decreases m
  {
    hide Shift1;
    if m > 0 { ShiftAdd(Shift1(c), m - 1, n); }
  }

  lemma XorZero(c: bv32)
    ensures Xor(c, 0) == c
  {
  }

  /** Feeding up to four bytes is exclusive-oring their word in and then shifting. */
  lemma {:induction false} FeedWord(c: bv32, w: seq<bv8>)
    requires |w| <= 4
    ensures FeedAll(c, w) == Shift(Xor(c, Word(w)), 8 * |w|)
    decreases |w|
  {
    hide Xor, Wide, Shift1, Up, LowByte, DropByte, Narrow;
    if w == [] {
      XorZero(c);
    } else {
      var rest := Word(w[1..]);
      FeedWord(Feed(c, w[0]), w[1..]);
      WordParts(w);
      ShiftZeros(Up(rest));
      ShiftLinear(Xor(c, Wide(w[0])), Up(rest), 8);
      XorLaws(c, Wide(w[0]), Up(rest));
      ShiftAdd(Xor(c, Word(w)), 8, 8 * (|w| - 1));
    }
  }

  /** Damage confined to four consecutive bytes always changes the checksum: the
      table-driven code, whatever its initial value, cannot miss it. */
  lemma BurstIsDetected(initial: bv32, before: seq<bv8>, good: seq<bv8>, bad: seq<bv8>, after: seq<bv8>)
    requires |good| == |bad| <= 4 && good != bad
    ensures Crc(initial, before + good + after) != Crc(initial, before + bad + after)
  {
    hide Not, Xor, Word, FeedAll, Shift;
    var c := FeedAll(Not(initial), before);
    FeedConcat(Not(initial), before + good, after);
    FeedConcat(Not(initial), before, good);
    FeedConcat(Not(initial), before + bad, after);
    FeedConcat(Not(initial), before, bad);
    if Crc(initial, before + good + after) == Crc(initial, before + bad + after) {
      NotNot(FeedAll(Not(initial), before + good + after));
      NotNot(FeedAll(Not(initial), before + bad + after));
      FeedAllInjective(FeedAll(c, good), FeedAll(c, bad), after);
      FeedWord(c, good);
      FeedWord(c, bad);
      ShiftInjective(Xor(c, Word(good)), Xor(c, Word(bad)), 8 * |good|);
      XorLaws(c, Word(good), 0);
      XorLaws(c, Word(bad), 0);
      WordInjective(good, bad);
    }
  }

  // ---------------------------------------------------------------------------
  // The check value

  const DIGITS: seq<bv8> := [0x31, 0x32, 0x33, 0x34, 0x35, 0x36, 0x37, 0x38, 0x39]

  lemma FedDigits()
    ensures Feed(0xFFFF_FFFF, 0x31) == 0x7C23_1048
    ensures Feed(0x7C23_1048, 0x32) == 0xB0AC_BB32
    ensures Feed(0xB0AC_BB32, 0x33) == 0x77B7_9C2D
    ensures Feed(0x77B7_9C2D, 0x34) == 0x641C_1F5C
    ensures Feed(0x641C_1F5C, 0x35) == 0x340A_C5E3
    ensures Feed(0x340A_C5E3, 0x36) == 0xF68D_2C9E
    ensures Feed(0xF68D_2C9E, 0x37) == 0xAFFC_9660
    ensures Feed(0xAFFC_9660, 0x38) == 0x651F_2550
    ensures Feed(0x651F_2550, 0x39) == 0x340B_C6D9
  {
  }

  /** The checksum of the digits 1 to 9, which every CRC-32 of this kind has. */
  lemma CheckValue()
    ensures Crc(0, DIGITS) == 0xCBF4_3926
  {
    FedDigits();
    hide Feed;
    var d := DIGITS;
    assert d[1..][1..] == d[2..] && d[2..][1..] == d[3..] && d[3..][1..] == d[4..] && d[4..][1..] == d[5..];
    assert d[5..][1..] == d[6..] && d[6..][1..] == d[7..] && d[7..][1..] == d[8..] && d[8..][1..] == [];
  }
}
