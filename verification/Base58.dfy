/** The base-58 reader of scan_ccns2.cpp: a string into a 25-byte big-endian number. */
module Base58 {
  import opened Basics

  const SIZE: nat := 25

  /** The alphabet in order: digits from 1, capitals without I and O, small letters without l. */
  function CharOf(i: nat): byte
    requires i < 58
  {
    if i < 9 then 49 + i
    else if i < 17 then 65 + (i - 9)
    else if i < 22 then 74 + (i - 17)
    else if i < 33 then 80 + (i - 22)
    else if i < 44 then 97 + (i - 33)
    else 109 + (i - 44)
  }

  /** A character's place in the alphabet, or -1. */
  function DigitOf(c: byte): (d: int)
    ensures -1 <= d < 58
  {
    if 49 <= c <= 57 then c - 49
    else if 65 <= c <= 72 then c - 65 + 9
    else if 74 <= c <= 78 then c - 74 + 17
    else if 80 <= c <= 90 then c - 80 + 22
    else if 97 <= c <= 107 then c - 97 + 33
    else if 109 <= c <= 122 then c - 109 + 44
    else -1
  }

  lemma DigitOfIffChar(c: byte, i: nat)
    requires i < 58
    ensures DigitOf(c) == i <==> c == CharOf(i)
  {
  }

  /** `base58_vals`. */
  ghost predicate IsTable(vals: seq<int>) {
    |vals| == 256 && forall c: byte :: vals[c] == DigitOf(c)
  }

  method BuildTable(vals: array<int>)
    requires vals.Length == 256
    modifies vals
    ensures IsTable(vals[..])
  {
    var k := 0;
    while k < 256
      invariant 0 <= k <= 256 && forall c :: 0 <= c < k ==> vals[c] == -1
    {
      vals[k] := -1;
      k := k + 1;
    }
    var i := 0;
    while i < 58
      invariant 0 <= i <= 58
      invariant forall c: byte :: vals[c] == if DigitOf(c) < i then DigitOf(c) else -1
    {
      forall c: byte ensures DigitOf(c) == i <==> c == CharOf(i) { DigitOfIffChar(c, i); }
      vals[CharOf(i)] := i;
      i := i + 1;
    }
  }

  // ---------------------------------------------------------------------------
  // Numbers

  function Pow256(n: nat): (p: nat)
    ensures p >= 1
  {
    if n == 0 then 1 else 256 * Pow256(n - 1)
  }

  /** A big-endian number. */
  function Number(s: seq<byte>): nat
    decreases |s|
  {
    if s == [] then 0 else 256 * Number(s[..|s| - 1]) + s[|s| - 1]
  }

  predicate InAlphabet(s: seq<byte>) { forall i :: 0 <= i < |s| ==> DigitOf(s[i]) != -1 }

  /** The base-58 value of a string of alphabet characters. */
  function Value(s: seq<byte>): nat
    requires InAlphabet(s)
    decreases |s|
  {
    if s == [] then 0 else 58 * Value(s[..|s| - 1]) + DigitOf(s[|s| - 1])
  }

  lemma {:induction false} NumberBound(s: seq<byte>)
    ensures Number(s) < Pow256(|s|)
    decreases |s|
  {
    if s != [] { NumberBound(s[..|s| - 1]); }
  }

  /** The first byte is the highest. */
  lemma {:induction false} NumberCons(s: seq<byte>)
    requires s != []
    ensures Number(s) == s[0] * Pow256(|s| - 1) + Number(s[1..])
    decreases |s|
  {
    if |s| > 1 {
      var n := |s| - 1;
      NumberCons(s[..n]);
      assert s[..n][1..] == s[1..][..n - 1];
      calc {
        Number(s);
        256 * (s[0] * Pow256(n - 1) + Number(s[1..][..n - 1])) + s[n];
        { Rescale(s[0], Pow256(n - 1), Number(s[1..][..n - 1])); }
        s[0] * Pow256(n) + (256 * Number(s[1..][..n - 1]) + s[n]);
      }
    }
  }

  lemma Rescale(a: int, p: int, n: int)
    ensures 256 * (a * p + n) == a * (256 * p) + 256 * n
  {
  }

  /** A longer text has no smaller value: what justifies giving up at the first carry. */
  lemma {:induction false} ValueMonotone(s: seq<byte>, k: nat)
    requires k <= |s| && InAlphabet(s)
    ensures Value(s[..k]) <= Value(s)
    decreases |s|
  {
    if k < |s| {
      ValueMonotone(s[..|s| - 1], k);
      assert s[..|s| - 1][..k] == s[..k];
    } else {
      assert s[..k] == s;
    }
  }

  // ---------------------------------------------------------------------------
  // The code

  /** One position of the carry loop. */
  lemma CarryStep(d: int, o: int, c: int, p: int, low: int, was: int)
    requires low + c * p == 58 * was + d
    ensures var e := c + 58 * o;
            ((e % 256) * p + low) + (e / 256) * (256 * p) == 58 * (o * p + was) + d
  {
    var e := c + 58 * o;
    assert e == 256 * (e / 256) + e % 256;
    assert e * p == (256 * (e / 256) + e % 256) * p == (e / 256) * (256 * p) + (e % 256) * p;
    assert e * p == c * p + 58 * (o * p);
  }

  lemma PowerLaws(k: nat)
    ensures Pow256(k + 1) == 256 * Pow256(k) && Pow256(0) == 1 && Number([]) == 0
  {
  }

  /** `out = 58 * out + digit`, least significant byte first; returns the carry out of
      the 25 bytes. */
  method MultiplyAdd(out: array<byte>, digit: nat) returns (c: nat)
    requires out.Length >= SIZE && digit < 58
    modifies out
    ensures Number(out[..SIZE]) + c * Pow256(SIZE) == 58 * old(Number(out[..SIZE])) + digit
    ensures out[SIZE..] == old(out[SIZE..])
  {
    hide Pow256, Number;
    PowerLaws(0);
    c := digit;
    var j: nat := SIZE;
    ghost var was := out[..SIZE];
    assert out[SIZE..SIZE] == [] && was[SIZE..] == [];
    while j > 0
      invariant j <= SIZE && c < 58 && out[..j] == was[..j]
      invariant Number(out[j..SIZE]) + c * Pow256(SIZE - j) == 58 * Number(was[j..]) + digit
      invariant out[SIZE..] == old(out[SIZE..])
    {
      j := j - 1;
      PowerLaws(SIZE - j - 1);
      ghost var low := out[j + 1..SIZE];
      assert out[j] == was[j] by { assert out[..j + 1][j] == was[..j + 1][j]; }
      CarryStep(digit, was[j], c, Pow256(SIZE - j - 1), Number(low), Number(was[j + 1..]));
      NumberCons(was[j..]);
      assert was[j..][1..] == was[j + 1..];
      c := c + 58 * (out[j] as int);
      out[j] := c % 256;
      c := c / 256;
      assert out[j + 1..SIZE] == low;
      NumberCons(out[j..SIZE]);
      assert out[j..SIZE][1..] == low;
      assert out[..j] == was[..j];
    }
    assert was[0..] == was && out[0..SIZE] == out[..SIZE];
  }

  /** The characters that are read: up to the first NUL, at most `len`. */
  function Text(s: seq<byte>, len: nat): (t: seq<byte>)
    ensures t <= s && |t| <= len
    decreases len
  {
    if len == 0 || s == [] || s[0] == 0 then [] else [s[0]] + Text(s[1..], len - 1)
  }

  lemma {:induction false} TextStops(s: seq<byte>, len: nat)
    ensures forall i :: 0 <= i < |Text(s, len)| ==> s[i] != 0
    ensures |Text(s, len)| == len || |Text(s, len)| == |s| || s[|Text(s, len)|] == 0
    decreases len
  {
    if !(len == 0 || s == [] || s[0] == 0) { TextStops(s[1..], len - 1); }
  }

  /** `unbase58`: true exactly when every character read is in the alphabet and the
      value is below 256 to the 25; then the 25 bytes are that value.  The string has
      a NUL, or more than `len` characters, since the loop looks at `s[len]`. */
  method Unbase58(vals: array<int>, s: seq<byte>, out: array<byte>, len: nat) returns (ok: bool)
    requires IsTable(vals[..]) && out.Length >= SIZE && vals as object != out
    requires 0 in s || |s| > len
    modifies out
    ensures ok <==> InAlphabet(Text(s, len)) && Value(Text(s, len)) < Pow256(25)
    ensures ok ==> Number(out[..25]) == Value(Text(s, len))
    ensures out[25..] == old(out[25..])
  {
    hide Pow256, Number, Text, DigitOf;
    ghost var text := Text(s, len);
    TextStops(s, len);
    ClearOut(out);
    var i := 0;
    while s[i] != 0 && i < len
      invariant 0 <= i <= |text| && InAlphabet(text[..i])
      invariant Number(out[..SIZE]) == Value(text[..i])
      invariant out[SIZE..] == old(out[SIZE..])
      decreases len - i
    {
      var digit := vals[s[i]];
      assert digit == vals[..][s[i]] == DigitOf(text[i]);
      if digit == -1 { return false; }
      assert text[..i + 1][..i] == text[..i];
      var c := MultiplyAdd(out, digit);
      if c != 0 {
        CarryMeansTooBig(text, i + 1, Number(out[..SIZE]), c);
        return false;
      }
      i := i + 1;
    }
    assert text[..i] == text;
    NumberBound(out[..SIZE]);
    return true;
  }

  lemma CarryMeansTooBig(text: seq<byte>, k: nat, low: nat, c: nat)
    requires k <= |text| && InAlphabet(text[..k]) && c > 0 && low + c * Pow256(SIZE) == Value(text[..k])
    ensures !(InAlphabet(text) && Value(text) < Pow256(SIZE))
  {
    hide Pow256, DigitOf, Value;
    MulLe(1, c, Pow256(SIZE));
    if InAlphabet(text) { ValueMonotone(text, k); }
  }

  method ClearOut(out: array<byte>)
    requires out.Length >= SIZE
    modifies out
    ensures Number(out[..SIZE]) == 0 && out[SIZE..] == old(out[SIZE..])
  {
    var k := 0;
    while k < SIZE
      invariant 0 <= k <= SIZE && Number(out[..k]) == 0 && out[SIZE..] == old(out[SIZE..])
    {
      out[k] := 0;
      assert out[..k + 1][..k] == out[..k];
      k := k + 1;
    }
  }

  // ---------------------------------------------------------------------------
  // Writing in base 58

  /** The alphabet of Bitcoin: no zero, no capital I or O, no small l. */
  lemma AlphabetIs()
    ensures CharOf(0) == '1' as int && CharOf(8) == '9' as int && CharOf(9) == 'A' as int && CharOf(16) == 'H' as int
    ensures CharOf(17) == 'J' as int && CharOf(21) == 'N' as int && CharOf(22) == 'P' as int && CharOf(32) == 'Z' as int
    ensures CharOf(33) == 'a' as int && CharOf(43) == 'k' as int && CharOf(44) == 'm' as int && CharOf(57) == 'z' as int
    ensures forall i: nat :: i < 57 && i !in {8, 16, 21, 32, 43} ==> CharOf(i + 1) == CharOf(i) + 1
  {
  }

  function Written(n: nat): seq<byte> { if n < 58 then [CharOf(n)] else Written(n / 58) + [CharOf(n % 58)] }

  /** What is written is read. */
  lemma {:induction false} WrittenIsRead(n: nat)
    ensures InAlphabet(Written(n)) && Value(Written(n)) == n
    decreases n
  {
    DigitOfIffChar(CharOf(n % 58), n % 58);
    if n < 58 {
      assert Written(n) == [CharOf(n)] && [CharOf(n)][..0] == [];
      assert Value([]) == 0;
    } else {
      WrittenIsRead(n / 58);
      assert Written(n)[..|Written(n)| - 1] == Written(n / 58);
    }
    hide DigitOf, CharOf;
  }
}
