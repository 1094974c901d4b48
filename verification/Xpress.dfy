/** The LZ77 decoder of pyxpress.c.  `Decode` is what the C loop computes, with
    every early exit; `Decompress` is the loop itself over an output buffer. */
module Xpress {
  import opened Basics

  /** 32-bit addition and subtraction wrap. */
  function Add32(a: nat, b: nat): nat { (a + b) % UINT32 }

  function Sub32(a: nat, b: nat): nat
    requires b <= UINT32
  {
    (a + UINT32 - b) % UINT32
  }

  function Word16(input: seq<byte>, i: nat): nat
    requires i + 1 < |input|
  {
    input[i + 1] as int * 256 + input[i] as int
  }

  function Word32(input: seq<byte>, i: nat): nat
    requires i + 3 < |input|
  {
    input[i + 3] as int * 0x100_0000 + input[i + 2] as int * 0x1_0000 + input[i + 1] as int * 256 + input[i] as int
  }

  /** `x >> b`. */
  function Shr(x: nat, b: nat): nat
    decreases b
  {
    if b == 0 then x else Shr(x / 2, b - 1)
  }

  /** The variables of the loop: output so far, next input byte, flag word, unused
      flags in it, and where the half-used length byte is (0 for none). */
  datatype St = St(out: seq<byte>, inp: nat, flags: nat, bit: nat, nib: nat)

  /** One turn of the loop either ends the decoding with an output or goes on. */
  datatype Turn = Stop(out: seq<byte>) | Go(st: St)

  /** The outcome of reading the length of a match; `Cut` is a `break` at the end of the input. */
  datatype LengthRead = Cut | Length(len: nat, inp: nat, nib: nat)

  /** The part of the length after a 15 in the half byte: one byte, or 255 and two bytes. */
  function ReadLong(input: seq<byte>, inp: nat, nib: nat): (r: LengthRead) {
    if inp >= |input| then Cut
    else if inp + 1 >= |input| then Cut
    else if input[inp] == 255 then
      if inp + 3 >= |input| then Cut
      else Length(Add32(Sub32(Word16(input, inp + 1), 15 + 7), 15), inp + 3, nib)
    else Length(Add32(input[inp], 15), inp + 1, nib)
  }

  /** Whatever the two bytes after a 255 say, even less than 22, the wrapping
      subtraction and the three additions leave their value plus 3. */
  lemma LongFormIsPlusThree(w: nat)
    requires w < 0x1_0000
    ensures Add32(Add32(Add32(Sub32(w, 15 + 7), 15), 7), 3) == w + 3
  {
    assert w < 22 ==> Sub32(w, 22) == UINT32 + w - 22;
  }

  /** The length when the low three bits are 7: a half byte first. */
  function ReadHalf(input: seq<byte>, inp: nat, nib: nat): (r: LengthRead)
    requires inp < |input| && nib < |input|
  {
    if nib == 0 then
      if inp + 1 >= |input| then Cut
      else if input[inp] % 16 == 15 then ReadLong(input, inp + 1, inp)
      else Length(input[inp] % 16, inp + 1, inp)
    else if input[nib] / 16 == 15 then ReadLong(input, inp, 0)
    else Length(input[nib] / 16, inp, 0)
  }

  function ReadLength(input: seq<byte>, low: nat, inp: nat, nib: nat): (r: LengthRead)
    requires inp < |input| && nib < |input|
  {
    if low != 7 then Length(Add32(low, 3), inp, nib)
    else
      var h := ReadHalf(input, inp, nib);
      if h.Cut? then Cut else Length(Add32(Add32(h.len, 7), 3), h.inp, h.nib)
  }

  /** The copy loop: stops at the capacity, and at once if the source would reach
      the first output byte. */
  function Copy(out: seq<byte>, dist: nat, len: nat, cap: nat): (r: seq<byte>)
    requires dist >= 1
    ensures out <= r && |r| <= |out| + len && (|r| <= cap || r == out)
    decreases len
  {
    if len == 0 || |out| >= cap || dist >= |out| then out
    else Copy(out + [out[|out| - dist]], dist, len - 1, cap)
  }

  predicate Fits(input: seq<byte>, st: St) { st.nib < |input| && st.bit <= 32 }

  /** One symbol, once the flag for it is known to be `st.flags >> st.bit`. */
  function Symbol(input: seq<byte>, cap: nat, st: St): Turn
    requires Fits(input, st) && st.inp < |input| && |st.out| < cap
  {
    if Shr(st.flags, st.bit) % 2 == 0 then
      var out := st.out + [input[st.inp]];
      if st.inp + 1 >= |input| then Stop(out)
      else if |out| >= cap then Stop(st.out)
      else Go(st.(out := out, inp := st.inp + 1))
    else if st.inp + 1 >= |input| then Stop(st.out)
    else if st.inp + 2 >= |input| then Stop(st.out)
    else
      var word := Word16(input, st.inp);
      var r := ReadLength(input, word % 8, st.inp + 2, st.nib);
      if r.Cut? then Stop(st.out)
      else Go(st.(out := Copy(st.out, word / 8 + 1, r.len, cap), inp := r.inp, nib := r.nib))
  }

  function Turn1(input: seq<byte>, cap: nat, st: St): (t: Turn)
    requires Fits(input, st) && st.inp < |input| && |st.out| < cap
    ensures t.Go? ==> Fits(input, t.st) && t.st.inp > st.inp
  {
    if st.bit == 0 then
      if st.inp + 3 >= |input| then Stop(st.out)
      else if st.inp + 4 >= |input| then Stop(st.out)
      else Symbol(input, cap, st.(flags := Word32(input, st.inp), inp := st.inp + 4, bit := 31))
    else Symbol(input, cap, st.(bit := st.bit - 1))
  }

  function Loop(input: seq<byte>, cap: nat, st: St): seq<byte>
    requires Fits(input, st) || st.inp >= |input|
    decreases |input| - st.inp
  {
    if |st.out| >= cap || st.inp >= |input| then st.out
    else
      var t := Turn1(input, cap, st);
      if t.Stop? then t.out else Loop(input, cap, t.st)
  }

  const INIT := St([], 0, 0, 0, 0)

  /** The bytes the decoder reports for `input` with room for `cap` bytes. */
  function Decode(input: seq<byte>, cap: nat): seq<byte> { Loop(input, cap, INIT) }

  // ---------------------------------------------------------------------------

  lemma CopyTurn(out: seq<byte>, dist: nat, len: nat, cap: nat)
    requires dist >= 1
    ensures Copy(out, dist, len, cap) == if len == 0 || |out| >= cap || dist >= |out| then out
                                         else Copy(out + [out[|out| - dist]], dist, len - 1, cap)
  {
  }

  /** The copy loop in place. */
  method CopyInPlace(output: array<byte>, at: nat, offset: nat, len: nat) returns (end: nat)
    requires at < output.Length
    modifies output
    ensures at <= end <= output.Length
    ensures output[..end] == Copy(old(output[..at]), offset + 1, len, output.Length)
    ensures forall i :: end <= i < output.Length ==> output[i] == old(output[i])
  {
    hide Copy;
    var length: nat := len;
    end := at;
    while length != 0
      invariant at <= end <= output.Length && length <= len
      invariant Copy(output[..end], offset + 1, length, output.Length) == Copy(old(output[..at]), offset + 1, len, output.Length)
      invariant forall i :: end <= i < output.Length ==> output[i] == old(output[i])
    {
      CopyTurn(output[..end], offset + 1, length, output.Length);
      if end >= output.Length || offset + 1 >= end { break; }
      var b := output[end - offset - 1];
      ghost var was := output[..end];
      output[end] := b;
      end := end + 1;
      assert output[..end] == was + [b];
      length := length - 1;
      if end >= output.Length { break; }
    }
    CopyTurn(output[..end], offset + 1, length, output.Length);
  }

  /** A literal byte, with the two ways it can end the decoding. */
  method LiteralInPlace(input: seq<byte>, output: array<byte>, at: nat, inp: nat) returns (end: nat, stop: bool)
    requires at < output.Length && inp < |input|
    modifies output
    ensures stop == (inp + 1 >= |input| || at + 1 >= output.Length)
    ensures end == if inp + 1 < |input| && at + 1 >= output.Length then at else at + 1
    ensures output[..at + 1] == old(output[..at]) + [input[inp]] && output[..at] == old(output[..at])
    ensures forall i :: at < i < output.Length ==> output[i] == old(output[i])
  {
    output[at] := input[inp];
    end := at + 1;
    if inp + 1 >= |input| { return end, true; }
    if end >= output.Length {
      end := end - 1;
      return end, true;
    }
    return end, false;
  }

  /** A match: word, length, copy. */
  method MatchInPlace(input: seq<byte>, output: array<byte>, at: nat, inp: nat, nib: nat)
    returns (end: nat, inp': nat, nib': nat, stop: bool)
    requires at < output.Length && inp < |input| && nib < |input|
    modifies output
    ensures at <= end <= output.Length && forall i :: end <= i < output.Length ==> output[i] == old(output[i])
    ensures stop ==> end == at && output[..] == old(output[..])
    ensures stop <==> (inp + 2 >= |input| || ReadLength(input, Word16(input, inp) % 8, inp + 2, nib).Cut?)
    ensures !stop ==> var word := Word16(input, inp); var r := ReadLength(input, word % 8, inp + 2, nib);
                      output[..end] == Copy(old(output[..at]), word / 8 + 1, r.len, output.Length) && inp' == r.inp && nib' == r.nib
  {
    if inp + 1 >= |input| { return at, inp, nib, true; }
    var word := Word16(input, inp);
    if inp + 2 >= |input| { return at, inp, nib, true; }
    var r := ReadLength(input, word % 8, inp + 2, nib);
    if r.Cut? { return at, inp, nib, true; }
    end := CopyInPlace(output, at, word / 8, r.len);
    return end, r.inp, r.nib, false;
  }

  /** One turn of the loop, after the flag word has been fetched if need be. */
  method SymbolInPlace(input: seq<byte>, output: array<byte>, at: nat, inp: nat, flags: nat, bit: nat, nib: nat)
    returns (end: nat, inp': nat, nib': nat, stop: bool)
    requires at < output.Length && inp < |input| && nib < |input| && bit <= 32
    modifies output
    ensures at <= end <= output.Length
    ensures forall i :: end <= i < output.Length && (stop ==> i != end) ==> output[i] == old(output[i])
    ensures Symbol(input, output.Length, St(old(output[..at]), inp, flags, bit, nib))
         == if stop then Stop(output[..end]) else Go(St(output[..end], inp', flags, bit, nib'))
  {
    hide Copy, ReadLength, Word16, Shr;
    inp', nib' := inp + 1, nib;
    if Shr(flags, bit) % 2 == 0 {
      end, stop := LiteralInPlace(input, output, at, inp);
    } else {
      end, inp', nib', stop := MatchInPlace(input, output, at, inp, nib);
    }
  }

  /** `Xpress_Decompress`: returns the number of bytes decoded; they are at the
      front of the output buffer, and nothing after the next byte is touched. */
  method Decompress(input: seq<byte>, output: array<byte>) returns (n: nat)
    requires |input| <= UINT32 - 4 && output.Length < UINT32
    modifies output
    ensures n <= output.Length && output[..n] == Decode(input, output.Length)
    ensures forall i :: n < i < output.Length ==> output[i] == old(output[i])
  {
    hide Symbol, Word32;
    var outIndex: nat, inIndex: nat, indicator: nat, bit: nat, nibble: nat := 0, 0, 0, 0, 0;
    assert output[..0] == [];
    while outIndex < output.Length && inIndex < |input|
      invariant outIndex <= output.Length && (inIndex < |input| ==> nibble < |input| && bit <= 32)
      invariant Loop(input, output.Length, St(output[..outIndex], inIndex, indicator, bit, nibble)) == Decode(input, output.Length)
      invariant forall i :: outIndex <= i < output.Length ==> output[i] == old(output[i])
      decreases |input| - inIndex
    {
      ghost var st := St(output[..outIndex], inIndex, indicator, bit, nibble);
      LoopTurn(input, output.Length, st);
      hide Loop;
      if bit == 0 {
        if inIndex + 3 >= |input| { return outIndex; }
        indicator := Word32(input, inIndex);
        inIndex := inIndex + 4;
        bit := 32;
        if inIndex >= |input| { return outIndex; }
      }
      bit := bit - 1;
      var stop;
      outIndex, inIndex, nibble, stop := SymbolInPlace(input, output, outIndex, inIndex, indicator, bit, nibble);
      if stop { return outIndex; }
    }
    n := outIndex;
  }

  /** `Loop`, one turn unfolded. */
  lemma LoopTurn(input: seq<byte>, cap: nat, st: St)
    requires Fits(input, st) || st.inp >= |input|
    ensures |st.out| >= cap || st.inp >= |input| ==> Loop(input, cap, st) == st.out
    ensures |st.out| < cap && st.inp < |input| ==>
              var t := Turn1(input, cap, st);
              Loop(input, cap, st) == if t.Stop? then t.out else Loop(input, cap, t.st)
  {
  }
}
