/** The compressed format (sections 2.3 and 2.4 of [MS-XCA]) and what the decoder
    of module Xpress makes of it: for every list of literals and matches, whether
    decoding its encoding gives its expansion. */
module XpressRoundTrip {
  import opened Basics
  import opened Xpress

  datatype Token = Lit(b: byte) | Match(dist: nat, len: nat)

  /** A match repeats `len` bytes from `dist` back; the limits are those of the
      13-bit offset and of the 16-bit length form. */
  predicate ValidToken(t: Token, written: nat) {
    t.Match? ==> 1 <= t.dist <= 8192 && t.dist <= written && 3 <= t.len <= 65538
  }

  function Size(t: Token): (n: nat)
  {
    if t.Lit? then 1 else t.len
  }

  /** Every match refers to bytes already written. */
  predicate ValidTokens(ts: seq<Token>, written: nat)
    decreases |ts|
  {
    ts == [] || (ValidToken(ts[0], written) && ValidTokens(ts[1..], written + Size(ts[0])))
  }

  function TotalSize(ts: seq<Token>): nat
    decreases |ts|
  {
    if ts == [] then 0 else Size(ts[0]) + TotalSize(ts[1..])
  }

  /** LZ77: `len` bytes, each copied from `dist` bytes back. */
  function Repeat(out: seq<byte>, dist: nat, len: nat): (r: seq<byte>)
    requires 1 <= dist <= |out|
    ensures |r| == |out| + len && out <= r
    decreases len
  {
    if len == 0 then out else Repeat(out + [out[|out| - dist]], dist, len - 1)
  }

  /** The text that a token list stands for, after `out`. */
  function Expand(out: seq<byte>, ts: seq<Token>): (r: seq<byte>)
    requires ValidTokens(ts, |out|)
    ensures |r| == |out| + TotalSize(ts)
    decreases |ts|
  {
    if ts == [] then out
    else if ts[0].Lit? then Expand(out + [ts[0].b], ts[1..])
    else Expand(Repeat(out, ts[0].dist, ts[0].len), ts[1..])
  }

  // ---------------------------------------------------------------------------
  // The encoder

  function Low(x: nat): byte { x % 256 }

  function Bytes16(x: nat): seq<byte>
    requires x < 0x1_0000
  {
    [Low(x), x / 256]
  }

  function Bytes32(x: nat): seq<byte>
    requires x < UINT32
  {
    [Low(x), Low(x / 256), Low(x / 0x1_0000), x / 0x100_0000]
  }

  /** Does the token need a half byte of length? */
  predicate Long(t: Token) { t.Match? && t.len >= 10 }

  function HalfOf(t: Token): (h: nat)
    requires Long(t)
    ensures h <= 15
  {
    if t.len - 10 < 15 then t.len - 10 else 15
  }

  /** What goes into the high half of a length byte opened before `ts`. */
  function NextHalf(ts: seq<Token>): (h: nat)
    ensures h <= 15
    decreases |ts|
  {
    if ts == [] then 0 else if Long(ts[0]) then HalfOf(ts[0]) else NextHalf(ts[1..])
  }

  function ExtraBytes(t: Token): seq<byte>
    requires Long(t) && t.len <= 65538
  {
    if t.len - 10 < 15 then []
    else if t.len - 25 < 255 then [t.len - 25]
    else [255] + Bytes16(t.len - 3)
  }

  /** The bytes of the first token; `half` says that a half-used length byte is waiting. */
  function TokenBytes(ts: seq<Token>, half: bool): (s: seq<byte>)
    requires ts != [] && ValidToken(ts[0], 8192)
    ensures s != []
  {
    var t := ts[0];
    if t.Lit? then [t.b]
    else if !Long(t) then Bytes16((t.dist - 1) * 8 + (t.len - 3))
    else Bytes16((t.dist - 1) * 8 + 7)
         + (if half then [] else [HalfOf(t) + 16 * NextHalf(ts[1..])])
         + ExtraBytes(t)
  }

  function HalfAfter(t: Token, half: bool): bool { if Long(t) then !half else half }

  /** The flags of the next `n` tokens, one bit each, first token highest; bits
      without a token are 1. */
  function FlagWord(ts: seq<Token>, n: nat): (w: nat)
    decreases n
  {
    if n == 0 then 0
    else FlagWord(ts, n - 1) * 2 + (if n - 1 < |ts| && ts[n - 1].Lit? then 0 else 1)
  }

  lemma FlagWordBound(ts: seq<Token>)
    ensures FlagWord(ts, 32) < UINT32
  {
    hide FlagWord, Pow2;
    var n := 32;
    FlagWordPow(ts, n);
    PowThirtyTwo(n);
  }

  /** Eight doublings at a time. */
  lemma PowEight(n: nat)
    requires n >= 8
    ensures Pow2(n) == 256 * Pow2(n - 8)
  {
    assert Pow2(n - 4) == 2 * Pow2(n - 5) == 4 * Pow2(n - 6) == 8 * Pow2(n - 7) == 16 * Pow2(n - 8);
    assert Pow2(n) == 2 * Pow2(n - 1) == 4 * Pow2(n - 2) == 8 * Pow2(n - 3) == 16 * Pow2(n - 4);
  }

  lemma PowThirtyTwo(n: nat)
    requires n == 32
    ensures Pow2(n) == UINT32
  {
    hide Pow2;
    PowEight(n);
    PowEight(n - 8);
    PowEight(n - 16);
    PowEight(n - 24);
    PowZero(n - 32);
  }

  lemma PowZero(n: nat)
    requires n == 0
    ensures Pow2(n) == 1
  {
  }

  lemma {:induction false} FlagWordPow(ts: seq<Token>, n: nat)
    ensures FlagWord(ts, n) < Pow2(n)
  {
    if n > 0 { FlagWordPow(ts, n - 1); }
  }

  predicate Encodable(ts: seq<Token>) { forall i :: 0 <= i < |ts| ==> ValidToken(ts[i], 8192) }

  /** The stream from a point where `left` flags of the current word are unused. */
  function Stream(ts: seq<Token>, left: nat, half: bool): seq<byte>
    requires Encodable(ts)
    decreases |ts|, left == 0
  {
    if left == 0 then
      FlagWordBound(ts);
      Bytes32(FlagWord(ts, 32)) + Stream(ts, 32, half)
    else if ts == [] then []
    else TokenBytes(ts, half) + Stream(ts[1..], left - 1, HalfAfter(ts[0], half))
  }

  function Encode(ts: seq<Token>): seq<byte>
    requires Encodable(ts)
  {
    Stream(ts, 0, false)
  }

  // ---------------------------------------------------------------------------
  // The decoder on an encoding

  lemma {:induction false} FlagShr(ts: seq<Token>, n: nat, b: nat)
    requires b <= n
    ensures Shr(FlagWord(ts, n), b) == FlagWord(ts, n - b)
    decreases b
  {
    if b > 0 {
      assert FlagWord(ts, n) / 2 == FlagWord(ts, n - 1);
      FlagShr(ts, n - 1, b - 1);
    }
  }

  /** The decoder stands in front of `ts` in the encoding, `left` flags of the word
      for `base` unused, and remembers a half-used length byte iff `half`. */
  ghost predicate Sync(input: seq<byte>, st: St, base: seq<Token>, ts: seq<Token>, left: nat, half: bool, trail: seq<byte>) {
    && Encodable(ts) && left <= 32 && st.bit == left && st.inp <= |input|
    && input[st.inp..] == Stream(ts, left, half) + trail
    && (left > 0 ==> st.flags == FlagWord(base, 32) && 32 - left <= |base| && ts == base[32 - left..])
    && (half <==> st.nib != 0)
    && (half ==> st.nib < st.inp && input[st.nib] as int / 16 == NextHalf(ts))
  }

  lemma SyncTokens(input: seq<byte>, st: St, base: seq<Token>, ts: seq<Token>, left: nat, half: bool, trail: seq<byte>)
    requires Sync(input, st, base, ts, left, half, trail)
    ensures Encodable(ts) && left <= 32
  {
  }

  lemma SyncFits(input: seq<byte>, st: St, base: seq<Token>, ts: seq<Token>, left: nat, half: bool, trail: seq<byte>)
    requires Sync(input, st, base, ts, left, half, trail)
    ensures Fits(input, st) || st.inp >= |input|
  {
  }

  lemma BytesOfWord(w: nat)
    requires w < UINT32
    ensures |Bytes32(w)| == 4
    ensures Bytes32(w)[3] as int * 0x100_0000 + Bytes32(w)[2] as int * 0x1_0000 + Bytes32(w)[1] as int * 256 + Bytes32(w)[0] as int == w
  {
  }

  lemma ReadFlags(input: seq<byte>, inp: nat, w: nat, rest: seq<byte>)
    requires inp <= |input| && w < UINT32 && input[inp..] == Bytes32(w) + rest
    ensures inp + 4 <= |input| && Word32(input, inp) == w && input[inp + 4..] == rest
  {
    hide Bytes32;
    BytesOfWord(w);
    var t := input[inp..];
    assert t[0] == input[inp] && t[1] == input[inp + 1] && t[2] == input[inp + 2] && t[3] == input[inp + 3];
    assert t[4..] == rest;
  }

  /** Fetching a flag word changes nothing else. */
  lemma LoopFetch(input: seq<byte>, cap: nat, st: St, base: seq<Token>, ts: seq<Token>, half: bool, trail: seq<byte>) returns (st': St)
    requires Sync(input, st, base, ts, 0, half, trail)
    ensures Sync(input, st', ts, ts, 32, half, trail) && st'.out == st.out
    ensures Loop(input, cap, st) == Loop(input, cap, st')
  {
    hide Word32, Symbol, FlagWord, Loop;
    FlagWordBound(ts);
    var w := FlagWord(ts, 32);
    assert Stream(ts, 0, half) + trail == Bytes32(w) + (Stream(ts, 32, half) + trail);
    ReadFlags(input, st.inp, w, Stream(ts, 32, half) + trail);
    st' := st.(flags := w, inp := st.inp + 4, bit := 32);
    assert ts[0..] == ts;
    LoopTurn(input, cap, st);
    LoopTurn(input, cap, st');
  }

  /** The flag in front of `ts`. */
  lemma FlagOf(st: St, base: seq<Token>, ts: seq<Token>, left: nat)
    requires 1 <= left <= 32 && st.flags == FlagWord(base, 32) && 32 - left <= |base| && ts == base[32 - left..]
    ensures Shr(st.flags, left - 1) % 2 == if ts != [] && ts[0].Lit? then 0 else 1
  {
    hide Shr, FlagWord;
    var n := 32;
    FlagShr(base, n, left - 1);
    FlagParity(base, n - (left - 1));
  }

  lemma FlagParity(ts: seq<Token>, n: nat)
    requires n > 0
    ensures FlagWord(ts, n) % 2 == if n - 1 < |ts| && ts[n - 1].Lit? then 0 else 1
  {
  }

  /** What follows the first token of a stream. */
  function Rest(ts: seq<Token>, left: nat, half: bool, trail: seq<byte>): seq<byte>
    requires Encodable(ts) && ts != [] && left > 0
  {
    Stream(ts[1..], left - 1, HalfAfter(ts[0], half)) + trail
  }

  /** The distance and the low bits of the length, read back from the first two bytes. */
  lemma ReadBackWord(input: seq<byte>, inp: nat, ts: seq<Token>, half: bool, rest: seq<byte>)
    requires ts != [] && ts[0].Match? && ValidToken(ts[0], 8192) && inp <= |input| && input[inp..] == TokenBytes(ts, half) + rest
    ensures inp + 2 <= |input| && Word16(input, inp) / 8 + 1 == ts[0].dist
    ensures Word16(input, inp) % 8 == if Long(ts[0]) then 7 else ts[0].len - 3
    ensures !Long(ts[0]) ==> |TokenBytes(ts, half)| == 2
    ensures |input| == inp + |TokenBytes(ts, half)| + |rest|
  {
    hide ExtraBytes, HalfOf, NextHalf;
    var t, s := ts[0], input[inp..];
    var low := if Long(t) then 7 else t.len - 3;
    var word := (t.dist - 1) * 8 + low;
    assert s[0] == input[inp] && s[1] == input[inp + 1];
    assert s[0] == Low(word) && s[1] as int == word / 256;
    assert Word16(input, inp) == word;
    assert word % 8 == low && word / 8 == t.dist - 1;
  }

  /** The length of a match, read back from its encoding when a byte follows. */
  lemma ReadBack(input: seq<byte>, inp: nat, nib: nat, ts: seq<Token>, half: bool, rest: seq<byte>)
    requires ts != [] && ts[0].Match? && ValidToken(ts[0], 8192) && inp <= |input| && input[inp..] == TokenBytes(ts, half) + rest
    requires half <==> nib != 0
    requires half ==> nib < inp && input[nib] as int / 16 == NextHalf(ts)
    ensures inp + 2 <= |input| && Word16(input, inp) / 8 + 1 == ts[0].dist
    ensures rest == [] ==> inp + 2 >= |input| || ReadLength(input, Word16(input, inp) % 8, inp + 2, nib).Cut?
    ensures rest != [] ==> inp + 2 < |input| && inp + |TokenBytes(ts, half)| < |input|
    ensures rest != [] ==>
              ReadLength(input, Word16(input, inp) % 8, inp + 2, nib) == Length(ts[0].len, inp + |TokenBytes(ts, half)|, if Long(ts[0]) then if half then 0 else inp + 2 else nib)
  {
    hide TokenBytes, Word16, ReadHalf, NextHalf;
    ReadBackWord(input, inp, ts, half, rest);
    if Long(ts[0]) { ReadBackLong(input, inp, nib, ts, half, rest); }
  }

  /** The bytes of a long match, one by one. */
  lemma LongBytes(input: seq<byte>, inp: nat, ts: seq<Token>, half: bool, rest: seq<byte>)
    requires ts != [] && ValidToken(ts[0], 8192) && Long(ts[0]) && inp <= |input| && input[inp..] == TokenBytes(ts, half) + rest
    ensures !half ==> inp + 2 < |input| && input[inp + 2] as int == HalfOf(ts[0]) + 16 * NextHalf(ts[1..])
    ensures var at := inp + if half then 2 else 3;
            at <= |input| && input[at..] == ExtraBytes(ts[0]) + rest && |TokenBytes(ts, half)| == at - inp + |ExtraBytes(ts[0])|
  {
    hide HalfOf, NextHalf, ExtraBytes;
    var t, s := ts[0], input[inp..];
    var mid := if half then [] else [HalfOf(t) + 16 * NextHalf(ts[1..])];
    var head: seq<byte> := Bytes16((t.dist - 1) * 8 + 7) + mid;
    assert s == head + (ExtraBytes(t) + rest);
    assert s[|head|..] == ExtraBytes(t) + rest;
    assert !half ==> s[2] == head[2] == mid[0];
  }

  lemma ReadBackLong(input: seq<byte>, inp: nat, nib: nat, ts: seq<Token>, half: bool, rest: seq<byte>)
    requires ts != [] && ValidToken(ts[0], 8192) && Long(ts[0]) && inp <= |input| && input[inp..] == TokenBytes(ts, half) + rest
    requires half <==> nib != 0
    requires half ==> nib < inp && input[nib] as int / 16 == NextHalf(ts)
    ensures inp + 2 <= |input|
    ensures rest == [] ==> inp + 2 >= |input| || ReadLength(input, 7, inp + 2, nib).Cut?
    ensures rest != [] ==> inp + 2 < |input|
    ensures rest != [] ==>
              ReadLength(input, 7, inp + 2, nib) == Length(ts[0].len, inp + |TokenBytes(ts, half)|, if half then 0 else inp + 2)
  {
    hide TokenBytes, ReadLength, ExtraBytes, HalfOf;
    LongBytes(input, inp, ts, half, rest);
    var at := inp + if half then 2 else 3;
    ReadBackHalf(input, inp + 2, nib, ts[0], half, at, rest);
  }

  lemma ReadBackHalf(input: seq<byte>, inp: nat, nib: nat, t: Token, half: bool, at: nat, rest: seq<byte>)
    requires ValidToken(t, 8192) && Long(t) && (half <==> nib != 0) && at <= |input| && input[at..] == ExtraBytes(t) + rest
    requires if half then at == inp && nib < inp && input[nib] as int / 16 == HalfOf(t)
             else at == inp + 1 && inp < |input| && input[inp] as int % 16 == HalfOf(t)
    ensures rest == [] ==> inp >= |input| || ReadLength(input, 7, inp, nib).Cut?
    ensures rest != [] ==> inp < |input|
    ensures rest != [] ==> ReadLength(input, 7, inp, nib) == Length(t.len, at + |ExtraBytes(t)|, if half then 0 else inp)
  {
    hide ReadLong;
    assert |input| == at + |ExtraBytes(t)| + |rest|;
    if HalfOf(t) == 15 { ReadBackExtra(input, at, if half then 0 else inp, t, rest); }
  }

  lemma ReadBackExtra(input: seq<byte>, at: nat, nib: nat, t: Token, rest: seq<byte>)
    requires ValidToken(t, 8192) && Long(t) && HalfOf(t) == 15 && at <= |input| && input[at..] == ExtraBytes(t) + rest
    ensures rest == [] ==> ReadLong(input, at, nib).Cut?
    ensures rest != [] ==> var r := ReadLong(input, at, nib);
              r.Length? && Add32(Add32(r.len, 7), 3) == t.len && r.inp == at + |ExtraBytes(t)| && r.nib == nib
  {
    hide ReadLong, Add32, Sub32;
    if t.len - 25 < 255 {
      ReadsByte(input, at, nib, t.len - 25, rest);
      SmallSums(t.len - 25);
    } else {
      ReadsWord(input, at, nib, t.len - 3, rest);
      LongFormIsPlusThree(t.len - 3);
    }
  }

  lemma ReadsByte(input: seq<byte>, at: nat, nib: nat, b: byte, rest: seq<byte>)
    requires at <= |input| && input[at..] == [b] + rest && b != 255
    ensures ReadLong(input, at, nib) == if rest == [] then Cut else Length(Add32(b, 15), at + 1, nib)
  {
    assert input[at] == input[at..][0] && |input| == at + 1 + |rest|;
  }

  lemma ReadsWord(input: seq<byte>, at: nat, nib: nat, w: nat, rest: seq<byte>)
    requires w < 0x1_0000 && at <= |input| && input[at..] == [255] + Bytes16(w) + rest
    ensures ReadLong(input, at, nib) == if rest == [] then Cut else Length(Add32(Sub32(w, 15 + 7), 15), at + 3, nib)
  {
    hide Add32, Sub32;
    var s := input[at..];
    assert s[0] == input[at] && s[1] == input[at + 1] && s[2] == input[at + 2] && |input| == at + 3 + |rest|;
    assert w / 256 * 256 + w % 256 == w;
  }

  /** Section 2.4 of MS-XCA writes a match of more than 65538 bytes as 255, a zero word and
      32 bits of length: the decoder takes it for one of three bytes and goes on in
      front of the length. */
  lemma LongMatchIsMisread(input: seq<byte>, at: nat, nib: nat, len: nat, rest: seq<byte>)
    requires 65538 < len && len - 3 < UINT32
    requires at <= |input| && input[at..] == [255] + Bytes16(0) + (Bytes32(len - 3) + rest)
    ensures var r := ReadLong(input, at, nib);
            && r.Length? && Add32(Add32(r.len, 7), 3) == 3
            && r.inp == at + 3 && input[r.inp..] == Bytes32(len - 3) + rest
  {
    hide ReadLong, Bytes32, Add32, Sub32;
    ReadsWord(input, at, nib, 0, Bytes32(len - 3) + rest);
    BytesOfWord(len - 3);
    LongFormIsPlusThree(0);
    assert input[at..][3..] == Bytes32(len - 3) + rest;
  }

  lemma SmallSums(n: nat)
    requires n < 0x1_0000
    ensures Add32(Add32(Add32(n, 15), 7), 3) == n + 25
  {
  }

  /** The stream splits after its first token, and the next token keeps its place. */
  lemma StreamSplit(input: seq<byte>, st: St, base: seq<Token>, ts: seq<Token>, left: nat, half: bool, trail: seq<byte>)
    requires Sync(input, st, base, ts, left, half, trail) && ts != [] && left > 0
    ensures var bytes, rest := TokenBytes(ts, half), Rest(ts, left, half, trail);
            && input[st.inp..] == bytes + rest && |input| == st.inp + |bytes| + |rest|
            && input[st.inp + |bytes|..] == rest
    ensures Encodable(ts[1..]) && (left > 1 ==> 32 - (left - 1) <= |base| && ts[1..] == base[32 - (left - 1)..])
  {
    hide FlagWord, TokenBytes;
    var bytes, rest := TokenBytes(ts, half), Rest(ts, left, half, trail);
    assert Stream(ts, left, half) + trail == bytes + rest;
    assert input[st.inp..][|bytes|..] == rest;
  }

  /** One token: the decoder reads it whole, copies what it can, and is in front of
      the next one; only the ends of the buffers stop it. */
  lemma SymbolSync(input: seq<byte>, cap: nat, st: St, base: seq<Token>, ts: seq<Token>, left: nat, half: bool, trail: seq<byte>)
    returns (st': St)
    requires Sync(input, st, base, ts, left, half, trail) && ts != [] && left > 0 && |st.out| < cap
    ensures st.inp < |input| && Fits(input, st)
    ensures st'.out == if ts[0].Lit? then st.out + [ts[0].b] else Copy(st.out, ts[0].dist, ts[0].len, cap)
    ensures var rest := Rest(ts, left, half, trail);
            Turn1(input, cap, st) == if rest == [] then Stop(if ts[0].Lit? then st'.out else st.out)
                                     else if ts[0].Lit? && |st'.out| >= cap then Stop(st.out)
                                     else Go(st')
    ensures Rest(ts, left, half, trail) != [] ==> Sync(input, st', base, ts[1..], left - 1, HalfAfter(ts[0], half), trail)
  {
    hide Shr, Stream, FlagWord, ReadLength, Copy, TokenBytes, Word16;
    StreamSplit(input, st, base, ts, left, half, trail);
    FlagOf(st, base, ts, left);
    if ts[0].Lit? {
      st' := LiteralSync(input, st, ts, left, half, trail);
    } else {
      st' := MatchSync(input, cap, st, ts, left, half, trail);
    }
  }

  lemma LiteralSync(input: seq<byte>, st: St, ts: seq<Token>, left: nat, half: bool, trail: seq<byte>) returns (st': St)
    requires Encodable(ts) && ts != [] && ts[0].Lit? && left > 0 && st.inp <= |input|
    requires input[st.inp..] == TokenBytes(ts, half) + Rest(ts, left, half, trail)
    requires half ==> st.nib < st.inp && input[st.nib] as int / 16 == NextHalf(ts)
    ensures st.inp + |TokenBytes(ts, half)| == st.inp + 1 <= |input| && input[st.inp] == ts[0].b
    ensures st' == St(st.out + [ts[0].b], st.inp + 1, st.flags, left - 1, st.nib)
    ensures half ==> input[st.nib] as int / 16 == NextHalf(ts[1..])
  {
    assert input[st.inp] == input[st.inp..][0];
    st' := St(st.out + [ts[0].b], st.inp + 1, st.flags, left - 1, st.nib);
  }

  lemma MatchSync(input: seq<byte>, cap: nat, st: St, ts: seq<Token>, left: nat, half: bool, trail: seq<byte>) returns (st': St)
    requires Encodable(ts) && ts != [] && ts[0].Match? && left > 0 && st.inp <= |input|
    requires input[st.inp..] == TokenBytes(ts, half) + Rest(ts, left, half, trail)
    requires half <==> st.nib != 0
    requires half ==> st.nib < st.inp && input[st.nib] as int / 16 == NextHalf(ts)
    ensures st.inp + 2 <= |input| && Word16(input, st.inp) / 8 + 1 == ts[0].dist
    ensures Rest(ts, left, half, trail) == [] ==>
              st.inp + 2 >= |input| || ReadLength(input, Word16(input, st.inp) % 8, st.inp + 2, st.nib).Cut?
    ensures Rest(ts, left, half, trail) != [] ==>
              && st.inp + 2 < |input|
              && ReadLength(input, Word16(input, st.inp) % 8, st.inp + 2, st.nib) == Length(ts[0].len, st'.inp, st'.nib)
    ensures st'.inp == st.inp + |TokenBytes(ts, half)| && st'.flags == st.flags && st'.bit == left - 1
    ensures st'.out == Copy(st.out, ts[0].dist, ts[0].len, cap)
    ensures var half' := HalfAfter(ts[0], half);
            (half' <==> st'.nib != 0) && (half' ==> st'.nib < st'.inp <= |input| && input[st'.nib] as int / 16 == NextHalf(ts[1..]))
  {
    hide ReadLength, Copy, Stream, Word16;
    var t, rest := ts[0], Rest(ts, left, half, trail);
    ReadBack(input, st.inp, st.nib, ts, half, rest);
    var nib := if Long(t) then if half then 0 else st.inp + 2 else st.nib;
    if Long(t) && !half { LongBytes(input, st.inp, ts, half, rest); }
    st' := St(Copy(st.out, t.dist, t.len, cap), st.inp + |TokenBytes(ts, half)|, st.flags, left - 1, nib);
  }

  // ---------------------------------------------------------------------------
  // When the decoder inverts the encoder

  /** Some match reaches back to the very first output byte. */
  predicate TouchesFirst(ts: seq<Token>, written: nat)
    decreases |ts|
  {
    ts != [] && ((ts[0].Match? && ts[0].dist == written) || TouchesFirst(ts[1..], written + Size(ts[0])))
  }

  /** Something follows the last token: a trailing byte or another flag word. */
  predicate Followed(ts: seq<Token>, left: nat, trail: seq<byte>) {
    trail != [] || |ts| % 32 == left % 32
  }

  /** A match is last and nothing follows it. */
  predicate DropsLast(ts: seq<Token>, left: nat, trail: seq<byte>) {
    ts != [] && ts[|ts| - 1].Match? && !Followed(ts, left, trail)
  }

  /** The output has room for `n` more bytes and needs it all, or more. */
  predicate EnoughRoom(ts: seq<Token>, left: nat, trail: seq<byte>, room: int) {
    room > TotalSize(ts)
    || (room == TotalSize(ts) && (ts == [] || ts[|ts| - 1].Match? || !Followed(ts, left, trail)))
  }

  predicate WillInvert(ts: seq<Token>, left: nat, trail: seq<byte>, written: nat, cap: nat) {
    !TouchesFirst(ts, written) && !DropsLast(ts, left, trail) && EnoughRoom(ts, left, trail, cap - written)
  }

  lemma {:induction false} CopyIsRepeat(out: seq<byte>, dist: nat, len: nat, cap: nat)
    requires 1 <= dist < |out| && |out| + len <= cap
    ensures Copy(out, dist, len, cap) == Repeat(out, dist, len)
    decreases len
  {
    if len > 0 { CopyIsRepeat(out + [out[|out| - dist]], dist, len - 1, cap); }
  }

  /** After the last token the decoder reports what it has. */
  lemma LoopAtEnd(input: seq<byte>, cap: nat, st: St, base: seq<Token>, left: nat, half: bool, trail: seq<byte>)
    requires Sync(input, st, base, [], left, half, trail) && |trail| <= 1 && left > 0
    ensures Loop(input, cap, st) == st.out
  {
    hide Shr, FlagWord, ReadLength, Copy, Word16, Loop;
    assert input[st.inp..] == trail;
    FlagOf(st, base, [], left);
    LoopTurn(input, cap, st);
  }

  /** Nothing follows the first token iff it is the last one and not `Followed`. */
  lemma RestEmpty(ts: seq<Token>, left: nat, half: bool, trail: seq<byte>)
    requires Encodable(ts) && ts != [] && 1 <= left <= 32
    ensures Rest(ts, left, half, trail) == [] <==> |ts| == 1 && !Followed(ts, left, trail)
  {
    var half' := HalfAfter(ts[0], half);
    if left > 1 && |ts| > 1 {
      assert Stream(ts[1..], left - 1, half') == TokenBytes(ts[1..], half') + Stream(ts[1..][1..], left - 2, HalfAfter(ts[1], half'));
    }
  }

  /** Whatever the output so far, a token list adds no more than its size. */
  lemma {:induction false} LoopBound(input: seq<byte>, cap: nat, st: St, base: seq<Token>, ts: seq<Token>, left: nat, half: bool, trail: seq<byte>)
    requires Sync(input, st, base, ts, left, half, trail) && |trail| <= 1
    ensures |Loop(input, cap, st)| <= |st.out| + TotalSize(ts)
    decreases |ts|, left == 0
  {
    hide Sync, Rest, Loop, Turn1, Copy, Symbol, Stream, TokenBytes, FlagWord;
    SyncTokens(input, st, base, ts, left, half, trail);
    SyncFits(input, st, base, ts, left, half, trail);
    LoopTurn(input, cap, st);
    if left == 0 {
      var st' := LoopFetch(input, cap, st, base, ts, half, trail);
      LoopBound(input, cap, st', ts, ts, 32, half, trail);
    } else if ts == [] {
      LoopAtEnd(input, cap, st, base, left, half, trail);
    } else if |st.out| < cap {
      var st' := SymbolSync(input, cap, st, base, ts, left, half, trail);
      if Rest(ts, left, half, trail) != [] {
        LoopBound(input, cap, st', base, ts[1..], left - 1, HalfAfter(ts[0], half), trail);
      }
    }
  }

  lemma {:induction false} LoopInverts(input: seq<byte>, cap: nat, st: St, base: seq<Token>, ts: seq<Token>, left: nat, half: bool, trail: seq<byte>)
    requires Sync(input, st, base, ts, left, half, trail) && |trail| <= 1
    requires ValidTokens(ts, |st.out|) && |st.out| <= cap
    ensures if WillInvert(ts, left, trail, |st.out|, cap) then Loop(input, cap, st) == Expand(st.out, ts)
            else |Loop(input, cap, st)| < |st.out| + TotalSize(ts)
    decreases |ts|, left == 0, 1
  {
    hide Loop, Turn1, Sync;
    if left == 0 {
      var st' := LoopFetch(input, cap, st, base, ts, half, trail);
      LoopInverts(input, cap, st', ts, ts, 32, half, trail);
      assert WillInvert(ts, 32, trail, |st.out|, cap) == WillInvert(ts, 0, trail, |st.out|, cap);
    } else if ts == [] {
      LoopAtEnd(input, cap, st, base, left, half, trail);
    } else if |st.out| >= cap {
      assert Fits(input, st) || st.inp >= |input| by { SyncFits(input, st, base, ts, left, half, trail); }
      LoopTurn(input, cap, st);
      SyncTokens(input, st, base, ts, left, half, trail);
      TotalSizeAtLeast(ts);
    } else {
      LoopInvertsStep(input, cap, st, base, ts, left, half, trail);
    }
  }

  lemma {:induction false} LoopInvertsStep(input: seq<byte>, cap: nat, st: St, base: seq<Token>, ts: seq<Token>, left: nat, half: bool, trail: seq<byte>)
    requires Sync(input, st, base, ts, left, half, trail) && |trail| <= 1 && ts != [] && left > 0
    requires ValidTokens(ts, |st.out|) && |st.out| < cap
    ensures if WillInvert(ts, left, trail, |st.out|, cap) then Loop(input, cap, st) == Expand(st.out, ts)
            else |Loop(input, cap, st)| < |st.out| + TotalSize(ts)
    decreases |ts|, false, 0
  {
    hide Turn1, Sync, Loop, Rest;
    SyncTokens(input, st, base, ts, left, half, trail);
    var t, rest, out := ts[0], Rest(ts, left, half, trail), st.out;
    var half' := HalfAfter(t, half);
    var st' := SymbolSync(input, cap, st, base, ts, left, half, trail);
    LoopTurn(input, cap, st);
    RestEmpty(ts, left, half, trail);
    if rest == [] || (t.Lit? && |st'.out| >= cap) {
      StopCase(ts, left, half, trail, out, cap);
    } else if t.Lit? || (t.dist < |out| && |out| + t.len <= cap) {
      if t.Match? { CopyIsRepeat(out, t.dist, t.len, cap); }
      LoopInverts(input, cap, st', base, ts[1..], left - 1, half', trail);
      WillInvertStep(ts, left, half, trail, |out|, cap);
    } else {
      LoopBound(input, cap, st', base, ts[1..], left - 1, half', trail);
    }
  }

  /** The decoder stops inside or right after the first token. */
  lemma StopCase(ts: seq<Token>, left: nat, half: bool, trail: seq<byte>, out: seq<byte>, cap: nat)
    requires Encodable(ts) && ValidTokens(ts, |out|) && ts != [] && 1 <= left <= 32 && |out| < cap
    requires Rest(ts, left, half, trail) == [] || (ts[0].Lit? && |out| + 1 >= cap)
    ensures TotalSize(ts) >= 1 && (ts[0].Lit? && Rest(ts, left, half, trail) != [] ==> !WillInvert(ts, left, trail, |out|, cap))
    ensures ts[0].Match? ==> !WillInvert(ts, left, trail, |out|, cap)
    ensures ts[0].Lit? && Rest(ts, left, half, trail) == [] ==>
              WillInvert(ts, left, trail, |out|, cap) && Expand(out, ts) == out + [ts[0].b]
  {
    RestEmpty(ts, left, half, trail);
    hide Rest;
    TotalSizeAtLeast(ts);
    if |ts| == 1 {
      assert ts[1..] == [] && ts[|ts| - 1] == ts[0];
      TotalSizeNil();
      assert !TouchesFirst(ts[1..], |out| + Size(ts[0]));
    }
  }

  lemma {:induction false} TotalSizeAtLeast(ts: seq<Token>)
    requires Encodable(ts)
    ensures TotalSize(ts) >= |ts|
    decreases |ts|
  {
    if ts != [] { TotalSizeAtLeast(ts[1..]); }
  }

  lemma WillInvertStep(ts: seq<Token>, left: nat, half: bool, trail: seq<byte>, written: nat, cap: nat)
    requires Encodable(ts) && ts != [] && 1 <= left <= 32 && Rest(ts, left, half, trail) != []
    requires written + Size(ts[0]) <= cap && (ts[0].Match? ==> ts[0].dist < written)
    requires ts[0].Lit? ==> written + 1 < cap
    ensures WillInvert(ts, left, trail, written, cap) == WillInvert(ts[1..], left - 1, trail, written + Size(ts[0]), cap)
  {
    hide Rest, Followed, TouchesFirst, TotalSize, Size;
    RestEmpty(ts, left, half, trail);
    StepParts(ts, left, trail, written);
    if |ts| > 1 {
      assert ts[1..][|ts| - 2] == ts[|ts| - 1];
    } else {
      TotalSizeNil();
    }
  }

  lemma StepParts(ts: seq<Token>, left: nat, trail: seq<byte>, written: nat)
    requires ts != [] && 1 <= left && (ts[0].Match? ==> ts[0].dist < written)
    ensures Followed(ts[1..], left - 1, trail) == Followed(ts, left, trail)
    ensures TouchesFirst(ts, written) == TouchesFirst(ts[1..], written + Size(ts[0]))
    ensures TotalSize(ts) == Size(ts[0]) + TotalSize(ts[1..]) && (ts[0].Lit? ==> Size(ts[0]) == 1)
  {
    assert |ts[1..]| == |ts| - 1;
    SameResidue(|ts|, left);
  }

  lemma SameResidue(a: nat, b: nat)
    requires a > 0 && b > 0
    ensures (a - 1) % 32 == (b - 1) % 32 <==> a % 32 == b % 32
  {
  }

  lemma TotalSizeNil()
    ensures TotalSize([]) == 0
  {
  }

  lemma {:induction false} ValidIsEncodable(ts: seq<Token>, written: nat)
    requires ValidTokens(ts, written)
    ensures Encodable(ts)
    decreases |ts|
  {
    if ts != [] {
      ValidIsEncodable(ts[1..], written + Size(ts[0]));
      assert forall i :: 0 < i < |ts| ==> ts[i] == ts[1..][i - 1];
    }
  }

  /** For every token list, with or without one trailing byte, and every capacity:
      decoding gives the expansion exactly when no match reaches the first output
      byte, a final match is followed by something, and the room is more than the
      expansion (or is filled by a match, or by a literal that ends the input). */
  lemma DecodeInvertsEncodeIff(ts: seq<Token>, trail: seq<byte>, cap: nat)
    requires ValidTokens(ts, 0) && |trail| <= 1
    ensures Encodable(ts)
    ensures Decode(Encode(ts) + trail, cap) == Expand([], ts) <==> WillInvert(ts, 0, trail, 0, cap)
  {
    ValidIsEncodable(ts, 0);
    var input := Encode(ts) + trail;
    assert input[0..] == input;
    LoopInverts(input, cap, INIT, [], ts, 0, false, trail);
  }

  /** In particular with one trailing byte and one spare byte of room. */
  lemma DecodeInvertsEncode(ts: seq<Token>, b: byte, cap: nat)
    requires ValidTokens(ts, 0) && !TouchesFirst(ts, 0) && cap > TotalSize(ts)
    ensures Encodable(ts)
    ensures Decode(Encode(ts) + [b], cap) == Expand([], ts)
  {
    DecodeInvertsEncodeIff(ts, [b], cap);
  }
}
