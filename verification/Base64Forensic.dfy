/** The forgiving base64 decoder of base64_forensic.cpp, and the encoder of
    sections 4 and 5 of RFC 4648 that it undoes. */
module Base64Forensic {
  import opened Basics

  /** A six-bit value. */
  type sextet = bv6

  const PAD: int := 0x3D

  /** `isspace` in the C locale. */
  predicate IsSpace(c: int) { c == 0x20 || 9 <= c <= 13 }

  /** The position of a character in the alphabet, after `-` and `_` have been
      read as `+` and `/`. */
  function Index(c: int): Option<sextet> {
    if 0x41 <= c <= 0x5A then Some((c - 0x41) as sextet)
    else if 0x61 <= c <= 0x7A then Some((c - 0x61 + 26) as sextet)
    else if 0x30 <= c <= 0x39 then Some((c - 0x30 + 52) as sextet)
    else if c == 0x2B || c == 0x2D then Some(62)
    else if c == 0x2F || c == 0x5F then Some(63)
    else None
  }

  /** The values of the alphabet characters, white space skipped, before the first
      NUL, `=` or other character. */
  function Sextets(src: seq<byte>): seq<sextet>
    decreases |src|
  {
    if src == [] || src[0] == 0 then []
    else if IsSpace(src[0]) then Sextets(src[1..])
    else if src[0] == PAD || Index(src[0]).None? then []
    else [Index(src[0]).value] + Sextets(src[1..])
  }

  // ---------------------------------------------------------------------------
  // Bits

  predicate Bit8(b: bv8, mask: bv8) { b & mask != 0 }

  predicate Bit6(v: sextet, mask: sextet) { v & mask != 0 }

  function Bits8(b: bv8): (s: seq<bool>)
    ensures |s| == 8
  {
    [Bit8(b, 128), Bit8(b, 64), Bit8(b, 32), Bit8(b, 16), Bit8(b, 8), Bit8(b, 4), Bit8(b, 2), Bit8(b, 1)]
  }

  function Bits6(v: sextet): (s: seq<bool>)
    ensures |s| == 6
  {
    [Bit6(v, 32), Bit6(v, 16), Bit6(v, 8), Bit6(v, 4), Bit6(v, 2), Bit6(v, 1)]
  }

  /** The bits of a byte string, most significant first. */
  function ByteBits(s: seq<bv8>): seq<bool>
    decreases |s|
  {
    if s == [] then [] else Bits8(s[0]) + ByteBits(s[1..])
  }

  function SextetBits(s: seq<sextet>): (r: seq<bool>)
    ensures |r| == 6 * |s|
    decreases |s|
  {
    if s == [] then [] else Bits6(s[0]) + SextetBits(s[1..])
  }

  lemma Bits8Injective(a: bv8, b: bv8)
    requires Bits8(a) == Bits8(b)
    ensures a == b
  {
    Bits8At(a);
    Bits8At(b);
  }

  lemma {:induction false} ByteBitsInjective(a: seq<bv8>, b: seq<bv8>)
    requires ByteBits(a) == ByteBits(b)
    ensures a == b
    decreases |a|
  {
    hide Bits8;
    if a != [] {
      assert ByteBits(a)[..8] == Bits8(a[0]) && ByteBits(b)[..8] == Bits8(b[0]);
      assert ByteBits(a)[8..] == ByteBits(a[1..]) && ByteBits(b)[8..] == ByteBits(b[1..]);
      Bits8Injective(a[0], b[0]);
      ByteBitsInjective(a[1..], b[1..]);
    }
  }

  // ---------------------------------------------------------------------------
  // Packing six-bit values into bytes

  function Shl(v: sextet, n: bv3): bv8 { (v as bv8) << n }

  function Shr(v: sextet, n: bv3): bv8 { (v as bv8) >> n }

  function Or(a: bv8, b: bv8): bv8 { a | b }

  function Byte0(v: sextet, w: sextet): bv8 { Or(Shl(v, 2), Shr(w, 4)) }

  function Byte1(v: sextet, w: sextet): bv8 { Or(Shl(v & 0x0F, 4), Shr(w, 2)) }

  function Byte2(v: sextet, w: sextet): bv8 { Or(Shl(v & 0x03, 6), Shr(w, 0)) }

  /** The byte that the value `v` completes after `u`, the `n`-th value being `v`;
      the first value of a group of four completes none. */
  function Completed(n: nat, u: sextet, v: sextet): (r: seq<bv8>)
    ensures |r| == if n % 4 == 0 then 0 else 1
  {
    if n % 4 == 0 then [] else if n % 4 == 1 then [Byte0(u, v)] else if n % 4 == 2 then [Byte1(u, v)] else [Byte2(u, v)]
  }

  function LastOr0(s: seq<sextet>): sextet { if s == [] then 0 else s[|s| - 1] }

  /** The whole bytes of a string of six-bit values. */
  function Pack(s: seq<sextet>): (r: seq<bv8>)
    decreases |s|
  {
    if s == [] then []
    else
      var t := s[..|s| - 1];
      Pack(t) + Completed(|t|, LastOr0(t), s[|s| - 1])
  }

  lemma {:induction false} PackLength(s: seq<sextet>)
    ensures |Pack(s)| == 3 * |s| / 4
    decreases |s|
  {
    if s != [] {
      PackLength(s[..|s| - 1]);
      Quarters(|s| - 1);
    }
  }

  lemma PackSnoc(s: seq<sextet>, v: sextet)
    ensures Pack(s + [v]) == Pack(s) + Completed(|s|, LastOr0(s), v)
  {
    assert (s + [v])[..|s|] == s;
  }

  lemma Bits8At(b: bv8)
    ensures var s := Bits8(b);
            && s[0] == Bit8(b, 128) && s[1] == Bit8(b, 64) && s[2] == Bit8(b, 32) && s[3] == Bit8(b, 16)
            && s[4] == Bit8(b, 8) && s[5] == Bit8(b, 4) && s[6] == Bit8(b, 2) && s[7] == Bit8(b, 1)
  {
    hide Bit8;
  }

  lemma Bits6At(v: sextet)
    ensures var s := Bits6(v);
            && s[0] == Bit6(v, 32) && s[1] == Bit6(v, 16) && s[2] == Bit6(v, 8)
            && s[3] == Bit6(v, 4) && s[4] == Bit6(v, 2) && s[5] == Bit6(v, 1)
  {
    hide Bit6;
  }

  /** Strings of bits that agree one by one. */
  lemma SameBits(a: seq<bool>, b: seq<bool>)
    requires |a| == |b| <= 8 && forall i :: 0 <= i < |a| ==> a[i] == b[i]
    ensures a == b
  {
  }

  lemma Byte0Bits(v: sextet, w: sextet)
    ensures Bits8(Byte0(v, w)) == Bits6(v) + Bits6(w)[..2]
  {
  }

  lemma Byte1Each(v: sextet, w: sextet)
    ensures Bit8(Byte1(v, w), 128) == Bit6(v, 8)
    ensures Bit8(Byte1(v, w), 64) == Bit6(v, 4)
    ensures Bit8(Byte1(v, w), 32) == Bit6(v, 2)
    ensures Bit8(Byte1(v, w), 16) == Bit6(v, 1)
    ensures Bit8(Byte1(v, w), 8) == Bit6(w, 32)
    ensures Bit8(Byte1(v, w), 4) == Bit6(w, 16)
    ensures Bit8(Byte1(v, w), 2) == Bit6(w, 8)
    ensures Bit8(Byte1(v, w), 1) == Bit6(w, 4)
  {
  }

  lemma Byte1Bits(v: sextet, w: sextet)
    ensures Bits8(Byte1(v, w)) == Bits6(v)[2..] + Bits6(w)[..4]
  {
    hide *;
    Byte1Each(v, w);
    Bits8At(Byte1(v, w));
    Bits6At(v);
    Bits6At(w);
    SameBits(Bits8(Byte1(v, w)), Bits6(v)[2..] + Bits6(w)[..4]);
  }

  lemma Byte2Each(v: sextet, w: sextet)
    ensures Bit8(Byte2(v, w), 128) == Bit6(v, 2)
    ensures Bit8(Byte2(v, w), 64) == Bit6(v, 1)
    ensures Bit8(Byte2(v, w), 32) == Bit6(w, 32)
    ensures Bit8(Byte2(v, w), 16) == Bit6(w, 16)
    ensures Bit8(Byte2(v, w), 8) == Bit6(w, 8)
    ensures Bit8(Byte2(v, w), 4) == Bit6(w, 4)
    ensures Bit8(Byte2(v, w), 2) == Bit6(w, 2)
    ensures Bit8(Byte2(v, w), 1) == Bit6(w, 1)
  {
  }

  lemma Byte2Bits(v: sextet, w: sextet)
    ensures Bits8(Byte2(v, w)) == Bits6(v)[4..] + Bits6(w)
  {
    hide *;
    Byte2Each(v, w);
    Bits8At(Byte2(v, w));
    Bits6At(v);
    Bits6At(w);
    SameBits(Bits8(Byte2(v, w)), Bits6(v)[4..] + Bits6(w));
  }

  lemma {:induction false} SextetBitsConcat(a: seq<sextet>, b: seq<sextet>)
    ensures SextetBits(a + b) == SextetBits(a) + SextetBits(b)
    decreases |a|
  {
    if a == [] {
      assert a + b == b;
    } else {
      assert (a + b)[1..] == a[1..] + b;
      SextetBitsConcat(a[1..], b);
    }
  }

  lemma {:induction false} ByteBitsConcat(a: seq<bv8>, b: seq<bv8>)
    ensures ByteBits(a + b) == ByteBits(a) + ByteBits(b)
    decreases |a|
  {
    hide Bits8;
    if a == [] {
      assert a + b == b;
    } else {
      assert (a + b)[1..] == a[1..] + b;
      ByteBitsConcat(a[1..], b);
    }
  }

  /** Packing keeps the bits: the bytes are the first 6n bits, as far as they fill
      whole bytes. */
  lemma {:induction false} PackKeepsBits(s: seq<sextet>)
    ensures |Pack(s)| == 3 * |s| / 4 && ByteBits(Pack(s)) == SextetBits(s)[..8 * |Pack(s)|]
    decreases |s|
  {
    hide Bits8, Bits6, Completed;
    PackLength(s);
    if s != [] {
      var n := |s| - 1;
      assert s == s[..n] + [s[n]];
      PackKeepsBits(s[..n]);
      PackBitsStep(s[..n], s[n]);
    }
  }

  /** The packed bytes are the first bits. */
  predicate KeepsBits(t: seq<sextet>) {
    8 * |Pack(t)| <= |SextetBits(t)| && ByteBits(Pack(t)) == SextetBits(t)[..8 * |Pack(t)|]
  }

  lemma PackBitsStep(t: seq<sextet>, v: sextet)
    requires |Pack(t)| == 3 * |t| / 4 && KeepsBits(t)
    ensures |Pack(t + [v])| == 3 * (|t| + 1) / 4 && KeepsBits(t + [v])
  {
    hide Pack, SextetBits, ByteBits, Bits6;
    PackLength(t + [v]);
    SextetBitsConcat(t, [v]);
    SextetBitsOne(v);
    if |t| % 4 == 0 {
      NothingCompleted(t, v);
      Quarters(|t|);
    } else {
      ByteCompleted(t, v);
    }
  }

  lemma Quarters(n: nat)
    ensures if n % 4 == 0 then 3 * (n + 1) / 4 == 3 * n / 4 && 8 * (3 * n / 4) == 6 * n
            else 3 * (n + 1) / 4 == 3 * n / 4 + 1
                 && 8 * (3 * n / 4) == 6 * n - 6 + (if n % 4 == 1 then 0 else if n % 4 == 2 then 2 else 4)
  {
    var q := n / 4;
    assert n == 4 * q + n % 4;
    match n % 4
    case 0 => assert 3 * n / 4 == 3 * q && 3 * (n + 1) / 4 == 3 * q;
    case 1 => assert 3 * n / 4 == 3 * q && 3 * (n + 1) / 4 == 3 * q + 1;
    case 2 => assert 3 * n / 4 == 3 * q + 1 && 3 * (n + 1) / 4 == 3 * q + 2;
    case _ => assert 3 * n / 4 == 3 * q + 2 && 3 * (n + 1) / 4 == 3 * q + 3;
  }

  lemma NothingCompleted(t: seq<sextet>, v: sextet)
    requires |t| % 4 == 0
    ensures Pack(t + [v]) == Pack(t)
  {
    PackSnoc(t, v);
  }

  lemma ByteCompleted(t: seq<sextet>, v: sextet)
    requires |t| % 4 != 0 && |Pack(t)| == 3 * |t| / 4 && KeepsBits(t)
    ensures |Pack(t + [v])| == |Pack(t)| + 1
    ensures |SextetBits(t)| == 6 * |t|
    ensures 8 * |Pack(t)| + 8 <= |SextetBits(t) + Bits6(v)|
    ensures ByteBits(Pack(t + [v])) == (SextetBits(t) + Bits6(v))[..8 * |Pack(t)| + 8]
  {
    hide Pack, SextetBits, ByteBits, Bits6, Completed, LastOr0;
    var c, u := Completed(|t|, LastOr0(t), v), LastOr0(t);
    Quarters(|t|);
    PackSnoc(t, v);
    PackLength(t + [v]);
    ByteBitsConcat(Pack(t), c);
    LastBits(t);
    CompletedBits(|t|, u, v);
    Window(SextetBits(t), Bits6(u), Bits6(v), 8 * |Pack(t)|);
  }

  /** Eight bits across the end of a string. */
  lemma Window(bits: seq<bool>, last: seq<bool>, next: seq<bool>, k: nat)
    requires |last| == |next| == 6 && |bits| >= 6 && bits[|bits| - 6..] == last
    requires |bits| - 6 <= k <= |bits| - 2
    ensures var from := k - (|bits| - 6);
            (bits + next)[..k + 8] == bits[..k] + (last + next)[from..from + 8]
  {
    assert bits == bits[..|bits| - 6] + last;
  }

  lemma LastBits(t: seq<sextet>)
    requires t != []
    ensures SextetBits(t)[6 * (|t| - 1)..] == Bits6(LastOr0(t))
  {
    hide Bits6, SextetBits;
    var n := |t| - 1;
    assert t == t[..n] + [t[n]];
    SextetBitsConcat(t[..n], [t[n]]);
    SextetBitsOne(t[n]);
  }

  lemma SextetBitsOne(v: sextet)
    ensures SextetBits([v]) == Bits6(v)
  {
    hide Bits6;
    assert [v][1..] == [];
  }

  lemma CompletedBits(n: nat, u: sextet, v: sextet)
    requires n % 4 != 0
    ensures var k := if n % 4 == 1 then 0 else if n % 4 == 2 then 2 else 4;
            ByteBits(Completed(n, u, v)) == (Bits6(u) + Bits6(v))[k..k + 8]
  {
    hide Bits8, Bits6, Byte0, Byte1, Byte2;
    Byte0Bits(u, v);
    Byte1Bits(u, v);
    Byte2Bits(u, v);
    assert Completed(n, u, v)[1..] == [];
  }

  // ---------------------------------------------------------------------------
  // The code

  /** The room that `n` values need: while a byte is half done it needs its own place. */
  function RoomFor(n: nat): nat { 3 * n / 4 + (if n % 4 >= 2 then 1 else 0) }

  /** The bits of a value that are left over for the next byte, in place. */
  function Carry(v: sextet, state: nat): bv8 {
    if state == 1 then Shl(v, 2) else if state == 2 then Shl(v & 0x0F, 4) else Shl(v & 0x03, 6)
  }

  /** The target during decoding: whole bytes, and the begun one. */
  ghost predicate Holds(t: seq<bv8>, sx: seq<sextet>) {
    var n := 3 * |sx| / 4;
    && RoomFor(|sx|) <= |t| && t[..n] == Pack(sx)
    && (|sx| % 4 != 0 ==> n < |t| && t[n] == Carry(sx[|sx| - 1], |sx| % 4))
  }

  /** Is there room for one more value? */
  predicate Room(size: nat, at: nat, state: nat) {
    if state == 0 || state == 3 then at < size else at + 1 < size
  }

  /** The target after one more value. */
  function Put(t: seq<bv8>, at: nat, state: nat, v: sextet): (r: seq<bv8>)
    requires Room(|t|, at, state)
    ensures |r| == |t| && forall i :: 0 <= i < |t| && i != at && i != at + 1 ==> r[i] == t[i]
  {
    if state == 0 then t[at := Shl(v, 2)]
    else if state == 1 then t[at := Or(t[at], Shr(v, 4))][at + 1 := Shl(v & 0x0F, 4)]
    else if state == 2 then t[at := Or(t[at], Shr(v, 2))][at + 1 := Shl(v & 0x03, 6)]
    else t[at := Or(t[at], Shr(v, 0))]
  }

  /** The `switch` on the state, for one value; false if the target is too short. */
  method PutInPlace(target: array<bv8>, at: nat, state: nat, v: sextet) returns (ok: bool)
    requires state < 4
    modifies target
    ensures ok == Room(target.Length, at, state)
    ensures target[..] == if ok then Put(old(target[..]), at, state, v) else old(target[..])
  {
    hide Or, Shl, Shr;
    match state {
      case 0 =>
        if at >= target.Length { return false; }
        target[at] := Shl(v, 2);
      case 1 =>
        if at + 1 >= target.Length { return false; }
        target[at] := Or(target[at], Shr(v, 4));
        target[at + 1] := Shl(v & 0x0F, 4);
      case 2 =>
        if at + 1 >= target.Length { return false; }
        target[at] := Or(target[at], Shr(v, 2));
        target[at + 1] := Shl(v & 0x03, 6);
      case _ =>
        if at >= target.Length { return false; }
        target[at] := Or(target[at], Shr(v, 0));
    }
    ok := true;
  }

  lemma PutCompletes(t: seq<bv8>, at: nat, state: nat, w: sextet, v: sextet)
    requires state < 4 && Room(|t|, at, state) && (state != 0 ==> t[at] == Carry(w, state))
    ensures var r := Put(t, at, state, v);
            && (state == 0 ==> r[at] == Carry(v, 1))
            && (state == 1 ==> r[at] == Byte0(w, v) && r[at + 1] == Carry(v, 2))
            && (state == 2 ==> r[at] == Byte1(w, v) && r[at + 1] == Carry(v, 3))
            && (state == 3 ==> r[at] == Byte2(w, v))
  {
  }

  lemma PutKeepsHolds(t: seq<bv8>, sx: seq<sextet>, v: sextet)
    requires Holds(t, sx) && Room(|t|, 3 * |sx| / 4, |sx| % 4)
    ensures Holds(Put(t, 3 * |sx| / 4, |sx| % 4, v), sx + [v])
  {
    hide Put, Carry, Pack, Byte0, Byte1, Byte2, LastOr0, Completed;
    var at, state := 3 * |sx| / 4, |sx| % 4;
    var r := Put(t, at, state, v);
    var u := LastOr0(sx);
    LastIs(sx, v);
    PackSnoc(sx, v);
    PutCompletes(t, at, state, u, v);
    CompletedIs(|sx|, u, v);
    Quarters(|sx|);
    NextQuarter(|sx|);
    TakeMore(t, r, at);
  }

  lemma NextQuarter(n: nat)
    ensures (n + 1) % 4 == if n % 4 == 3 then 0 else n % 4 + 1
    ensures RoomFor(n + 1) == 3 * n / 4 + (if n % 4 == 0 then 0 else if n % 4 == 3 then 1 else 2)
  {
    Quarters(n);
    Remainders(n);
  }

  lemma Remainders(n: nat)
    ensures (n + 1) % 4 == if n % 4 == 3 then 0 else n % 4 + 1
  {
  }

  lemma TakeMore(t: seq<bv8>, r: seq<bv8>, at: nat)
    requires at <= |t| == |r| && r[..at] == t[..at]
    ensures at < |r| ==> r[..at + 1] == t[..at] + [r[at]]
  {
  }

  lemma LastIs(sx: seq<sextet>, v: sextet)
    ensures (sx != [] ==> sx[|sx| - 1] == LastOr0(sx)) && (sx + [v])[|sx + [v]| - 1] == v
  {
  }

  lemma CompletedIs(n: nat, u: sextet, v: sextet)
    ensures Completed(n, u, v) == if n % 4 == 0 then [] else if n % 4 == 1 then [Byte0(u, v)] else if n % 4 == 2 then [Byte1(u, v)] else [Byte2(u, v)]
  {
  }

  /** What one character does to the rest of the input. */
  lemma SextetsStep(src: seq<byte>, i: nat)
    requires i < |src| && src[i] != 0
    ensures IsSpace(src[i]) ==> Sextets(src[i..]) == Sextets(src[i + 1..])
    ensures !IsSpace(src[i]) && (src[i] == PAD || Index(src[i]).None?) ==> Sextets(src[i..]) == []
    ensures !IsSpace(src[i]) && src[i] != PAD && Index(src[i]).Some? ==>
              Sextets(src[i..]) == [Index(src[i]).value] + Sextets(src[i + 1..])
  {
    assert src[i..][1..] == src[i + 1..];
  }

  lemma SextetsEnd(src: seq<byte>, i: nat)
    requires i <= |src| && (i == |src| || src[i] == 0)
    ensures Sextets(src[i..]) == []
  {
  }

  /** The values of the first `i` characters are `sx`. */
  ghost predicate Upto(src: seq<byte>, i: nat, sx: seq<sextet>)
    requires i <= |src|
  {
    Sextets(src) == sx + Sextets(src[i..])
  }

  lemma UptoStart(src: seq<byte>)
    ensures Upto(src, 0, [])
  {
    hide Sextets;
    assert src[0..] == src && [] + Sextets(src) == Sextets(src);
  }

  lemma UptoStep(src: seq<byte>, i: nat, sx: seq<sextet>)
    requires i < |src| && src[i] != 0 && Upto(src, i, sx)
    ensures IsSpace(src[i]) ==> Upto(src, i + 1, sx)
    ensures !IsSpace(src[i]) && (src[i] == PAD || Index(src[i]).None?) ==> Sextets(src) == sx
    ensures !IsSpace(src[i]) && src[i] != PAD && Index(src[i]).Some? ==>
              Upto(src, i + 1, sx + [Index(src[i]).value]) && sx < Sextets(src)
  {
    hide Sextets, Index, IsSpace;
    SextetsStep(src, i);
    if !IsSpace(src[i]) && src[i] != PAD && Index(src[i]).Some? { Assoc(sx, [Index(src[i]).value], Sextets(src[i + 1..])); }
  }

  lemma UptoEnd(src: seq<byte>, i: nat, sx: seq<sextet>)
    requires i <= |src| && (i == |src| || src[i] == 0) && Upto(src, i, sx)
    ensures Sextets(src) == sx
  {
    SextetsEnd(src, i);
    hide Sextets;
  }

  /** `out` of `size` bytes, decoded as far as `r`. */
  ghost predicate Decoded(out: seq<bv8>, r: nat, all: seq<sextet>) {
    && r <= |out| && r <= |Pack(all)|
    && out[..r] == Pack(all)[..r]
    && (r == |Pack(all)| <==> |out| >= RoomFor(|all|))
  }

  lemma DecodedWhole(out: seq<bv8>, sx: seq<sextet>)
    requires Holds(out, sx)
    ensures Decoded(out, 3 * |sx| / 4, sx)
  {
    PackLength(sx);
  }

  lemma DecodedShort(out: seq<bv8>, sx: seq<sextet>, all: seq<sextet>)
    requires Holds(out, sx) && !Room(|out|, 3 * |sx| / 4, |sx| % 4) && sx < all
    ensures Decoded(out, 3 * |sx| / 4, all)
  {
    hide Pack, RoomFor;
    var more := all[|sx|..];
    assert all == sx + more;
    PackLength(sx);
    PackLength(sx + more);
    PackPrefix(sx, more);
    Quarters(|sx|);
    NextQuarter(|sx|);
    MoreRoom(|sx| + 1, |sx + more|);
    RoomAt(|sx|);
    RoomAt(|sx + more|);
  }

  lemma RoomAt(n: nat)
    ensures RoomFor(n) == 3 * n / 4 + (if n % 4 >= 2 then 1 else 0)
  {
  }

  lemma {:induction false} MoreRoom(a: nat, b: nat)
    requires a <= b
    ensures RoomFor(a) <= RoomFor(b) && 3 * a / 4 <= 3 * b / 4 && (3 * a / 4 == 3 * b / 4 ==> RoomFor(a) == RoomFor(b))
    decreases b
  {
    if a < b {
      MoreRoom(a, b - 1);
      Quarters(b - 1);
      NextQuarter(b - 1);
    }
  }

  /** One more value in the target that holds `sx`, if there is room. */
  method Store(target: array<bv8>, at: nat, state: nat, v: sextet, ghost sx: seq<sextet>) returns (ok: bool)
    requires Holds(target[..], sx) && at == 3 * |sx| / 4 && state == |sx| % 4
    modifies target
    ensures ok == Room(target.Length, at, state)
    ensures if ok then Holds(target[..], sx + [v]) else target[..] == old(target[..])
    ensures forall k :: at + (if state == 0 then 0 else 1) < k < target.Length ==> target[k] == old(target[k])
  {
    hide Put, Holds, Carry, Pack;
    ok := PutInPlace(target, at, state, v);
    ghost var was, now := old(target[..]), target[..];
    if ok {
      PutKeepsHolds(was, sx, v);
      PutLeavesRest(was, at, state, v);
    }
    forall k | at + (if state == 0 then 0 else 1) < k < target.Length ensures target[k] == old(target[k]) {
      assert now[k] == was[k];
    }
  }

  /** What the target, if there is one, holds after the values `sx`; the rest of it is
      as it was. */
  ghost predicate Filled(target: array?<bv8>, was: seq<bv8>, sx: seq<sextet>)
    reads if target == null then {} else {target}
  {
    target != null ==>
      Holds(target[..], sx) && |was| == target.Length && forall k :: 3 * |sx| / 4 < k < target.Length ==> target[k] == was[k]
  }

  /** Store one more value, if there is a target. */
  method StoreIfAny(target: array?<bv8>, at: nat, state: nat, v: sextet, ghost sx: seq<sextet>, ghost was: seq<bv8>) returns (ok: bool)
    requires Filled(target, was, sx) && at == 3 * |sx| / 4 && state == |sx| % 4
    modifies if target == null then {} else {target}
    ensures ok == (target == null || Room(target.Length, at, state))
    ensures if ok then Filled(target, was, sx + [v]) else Filled(target, was, sx)
  {
    hide Holds;
    if target == null { return true; }
    NextQuarter(|sx|);
    Quarters(|sx|);
    ok := Store(target, at, state, v, sx);
    assert ok || forall k :: 0 <= k < target.Length ==> target[k] == target[..][k] == old(target[..])[k];
  }

  /** `b64_pton_forensic`, for a target of any length or none.  The bytes written are
      a prefix of the packed input, all of it exactly when the target has room. */
  method Decode(src: seq<byte>, target: array?<bv8>) returns (r: nat)
    modifies if target == null then {} else {target}
    ensures target == null ==> r == |Pack(Sextets(src))|
    ensures target != null ==> Decoded(target[..], r, Sextets(src))
    ensures target != null ==> forall i :: r < i < target.Length ==> target[i] == old(target[i])
  {
    hide Sextets, Upto, Index, IsSpace, Put, Pack, Decoded, Holds, Filled, Room;
    var tarindex: nat, state: nat, i: nat := 0, 0, 0;
    ghost var sx: seq<sextet> := [];
    ghost var was: seq<bv8> := if target == null then [] else target[..];
    UptoStart(src);
    FilledNothing(target, was);
    while i < |src| && src[i] != 0
      invariant i <= |src| && state == |sx| % 4 && tarindex == 3 * |sx| / 4
      invariant Upto(src, i, sx) && Filled(target, was, sx)
    {
      UptoStep(src, i, sx);
      var ch := src[i];
      if IsSpace(ch) { i := i + 1; continue; }
      if ch == PAD { break; }
      if Index(ch).None? { break; }
      var v := Index(ch).value;
      var ok := StoreIfAny(target, tarindex, state, v, sx, was);
      if !ok {
        FilledFacts(target, was, sx);
        DecodedShort(target[..], sx, Sextets(src));
        return tarindex;
      }
      Quarters(|sx|);
      sx := sx + [v];
      if state != 0 { tarindex := tarindex + 1; }
      state := (state + 1) % 4;
      i := i + 1;
    }
    if i == |src| || src[i] == 0 { UptoEnd(src, i, sx); }
    FilledFacts(target, was, sx);
    if target != null { DecodedWhole(target[..], sx); }
    PackLength(sx);
    r := tarindex;
  }

  lemma FilledNothing(target: array?<bv8>, was: seq<bv8>)
    requires target != null ==> was == target[..]
    ensures Filled(target, was, [])
  {
    if target != null { HoldsNothing(target[..]); }
  }

  lemma FilledFacts(target: array?<bv8>, was: seq<bv8>, sx: seq<sextet>)
    requires Filled(target, was, sx)
    ensures target != null ==> Holds(target[..], sx) && |was| == target.Length
    ensures target != null ==> forall k :: 3 * |sx| / 4 < k < target.Length ==> target[k] == was[k]
  {
  }

  lemma HoldsNothing(out: seq<bv8>)
    ensures Holds(out, [])
  {
  }

  lemma PutLeavesRest(t: seq<bv8>, at: nat, state: nat, v: sextet)
    requires state < 4 && Room(|t|, at, state)
    ensures forall k :: at + (if state == 0 then 0 else 1) < k < |t| ==> Put(t, at, state, v)[k] == t[k]
  {
  }

  lemma {:induction false} PackPrefix(a: seq<sextet>, b: seq<sextet>)
    ensures Pack(a) <= Pack(a + b)
    decreases |b|
  {
    if b == [] {
      assert a + b == a;
    } else {
      hide Pack, Completed, LastOr0;
      PackSnoc(a, b[0]);
      PackPrefix(a + [b[0]], b[1..]);
      assert a + [b[0]] + b[1..] == a + b;
    }
  }

  // ---------------------------------------------------------------------------
  // The encoder of RFC 4648

  /** The character for a value: the standard alphabet, or the URL-safe one. */
  function CharOf(v: sextet, url: bool): byte {
    var n := v as int;
    if n < 26 then n + 0x41 else if n < 52 then n - 26 + 0x61 else if n < 62 then n - 52 + 0x30
    else if n == 62 then if url then 0x2D else 0x2B
    else if url then 0x5F else 0x2F
  }

  /** Groups of three bytes become four values; a last group of one or two bytes is
      filled up with zero bits to two or three values. */
  function Values(b: seq<bv8>): (s: seq<sextet>)
    decreases |b|
  {
    if b == [] then []
    else if |b| == 1 then [Top(b[0]), Mid(b[0], 0)]
    else if |b| == 2 then [Top(b[0]), Mid(b[0], b[1]), Low(b[1], 0)]
    else [Top(b[0]), Mid(b[0], b[1]), Low(b[1], b[2]), Bottom(b[2])] + Values(b[3..])
  }

  function Top(x: bv8): sextet { (x >> 2) as sextet }

  function Mid(x: bv8, y: bv8): sextet { (((x & 3) << 4) | (y >> 4)) as sextet }

  function Low(x: bv8, y: bv8): sextet { (((x & 15) << 2) | (y >> 6)) as sextet }

  function Bottom(x: bv8): sextet { (x & 63) as sextet }

  function Chars(s: seq<sextet>, url: bool): seq<byte>
    decreases |s|
  {
    if s == [] then [] else [CharOf(s[0], url)] + Chars(s[1..], url)
  }

  function Padding(n: nat): seq<byte> {
    if n % 3 == 1 then [PAD, PAD] else if n % 3 == 2 then [PAD] else []
  }

  function Encode(b: seq<bv8>, url: bool): seq<byte> { Chars(Values(b), url) + Padding(|b|) }

  /** The text without its white space. */
  function Strip(t: seq<byte>): seq<byte>
    decreases |t|
  {
    if t == [] then [] else (if IsSpace(t[0]) then [] else [t[0]]) + Strip(t[1..])
  }

  /** Decoding stops here: the end, or a character outside the alphabet. */
  predicate Stops(t: seq<byte>) { t == [] || t[0] == 0 || t[0] == PAD || Index(t[0]).None? }

  lemma IndexOfChar(v: sextet, url: bool)
    ensures Index(CharOf(v, url)) == Some(v) && CharOf(v, url) != 0 && CharOf(v, url) != PAD && !IsSpace(CharOf(v, url))
  {
  }

  lemma {:induction false} SextetsOfChars(t: seq<byte>, s: seq<sextet>, url: bool, tail: seq<byte>)
    requires Strip(t) == Chars(s, url) + tail && Stops(tail)
    ensures Sextets(t) == s
    decreases |t|
  {
    hide Index, IsSpace, CharOf, Stops, Strip, Chars, Sextets;
    StopsMeans(tail);
    CharsCons(s, url, tail);
    StripCons(t);
    if t != [] {
      SextetsCons(t);
      if IsSpace(t[0]) {
        SextetsOfChars(t[1..], s, url, tail);
      } else if s != [] {
        IndexOfChar(s[0], url);
        SameCons(t[0], Strip(t[1..]), CharOf(s[0], url), Chars(s[1..], url) + tail);
        SextetsOfChars(t[1..], s[1..], url, tail);
        assert s == [s[0]] + s[1..];
      }
    }
  }

  lemma CharsCons(s: seq<sextet>, url: bool, tail: seq<byte>)
    ensures Chars(s, url) + tail == if s == [] then tail else [CharOf(s[0], url)] + (Chars(s[1..], url) + tail)
  {
    hide CharOf;
    if s != [] { Assoc([CharOf(s[0], url)], Chars(s[1..], url), tail); }
  }

  lemma StripCons(t: seq<byte>)
    ensures Strip(t) == if t == [] then [] else if IsSpace(t[0]) then Strip(t[1..]) else [t[0]] + Strip(t[1..])
    ensures t == [] ==> Sextets(t) == []
  {
  }

  lemma SextetsCons(t: seq<byte>)
    requires t != []
    ensures Sextets(t) == if IsSpace(t[0]) then Sextets(t[1..]) else if t[0] == 0 || t[0] == PAD || Index(t[0]).None? then []
                          else [Index(t[0]).value] + Sextets(t[1..])
  {
    SpaceIsNotNul(t[0]);
    hide Index, IsSpace;
  }

  lemma SameCons(a: int, r: seq<int>, b: int, q: seq<int>)
    requires [a] + r == [b] + q
    ensures a == b && r == q
  {
    assert ([a] + r)[0] == ([b] + q)[0] && ([a] + r)[1..] == ([b] + q)[1..];
  }

  lemma StopsMeans(t: seq<byte>)
    requires Stops(t)
    ensures t == [] || t[0] == 0 || t[0] == PAD || Index(t[0]).None?
  {
  }

  lemma SpaceIsNotNul(c: int)
    ensures IsSpace(c) ==> c != 0
  {
  }

  lemma ValueBits(x: bv8, y: bv8, z: bv8)
    ensures Bits6(Top(x)) + Bits6(Mid(x, y)) + Bits6(Low(y, z)) + Bits6(Bottom(z)) == Bits8(x) + Bits8(y) + Bits8(z)
  {
    hide Bits6, Bits8, Top, Mid, Low, Bottom;
    TopBits(x);
    MidBits(x, y);
    LowBits(y, z);
    BottomBits(z);
    Regroup(Bits8(x), Bits8(y), Bits8(z));
  }

  lemma Regroup(a: seq<bool>, b: seq<bool>, c: seq<bool>)
    requires |a| == |b| == |c| == 8
    ensures a[..6] + (a[6..] + b[..4]) + (b[4..] + c[..2]) + c[2..] == a + b + c
  {
  }

  lemma TopBits(x: bv8)
    ensures Bits6(Top(x)) == Bits8(x)[..6]
  {
  }

  lemma MidEach(x: bv8, y: bv8)
    ensures Bit6(Mid(x, y), 32) == Bit8(x, 2)
    ensures Bit6(Mid(x, y), 16) == Bit8(x, 1)
    ensures Bit6(Mid(x, y), 8) == Bit8(y, 128)
    ensures Bit6(Mid(x, y), 4) == Bit8(y, 64)
    ensures Bit6(Mid(x, y), 2) == Bit8(y, 32)
    ensures Bit6(Mid(x, y), 1) == Bit8(y, 16)
  {
  }

  lemma MidBits(x: bv8, y: bv8)
    ensures Bits6(Mid(x, y)) == Bits8(x)[6..] + Bits8(y)[..4]
  {
    hide *;
    MidEach(x, y);
    Bits6At(Mid(x, y));
    Bits8At(x);
    Bits8At(y);
    SameBits(Bits6(Mid(x, y)), Bits8(x)[6..] + Bits8(y)[..4]);
  }

  lemma LowBits(x: bv8, y: bv8)
    ensures Bits6(Low(x, y)) == Bits8(x)[4..] + Bits8(y)[..2]
  {
  }

  lemma BottomBits(x: bv8)
    ensures Bits6(Bottom(x)) == Bits8(x)[2..]
  {
  }

  lemma {:induction false} ValuesKeepBits(b: seq<bv8>)
    ensures 3 * |Values(b)| / 4 == |b| && ByteBits(b) == SextetBits(Values(b))[..8 * |b|]
    decreases |b|
  {
    hide Bits6, Bits8, Top, Mid, Low, Bottom;
    if b != [] {
      var x := b[0];
      var y := if |b| > 1 then b[1] else 0;
      var z := if |b| > 2 then b[2] else 0;
      ValueBits(x, y, z);
      var g := [Top(x), Mid(x, y), Low(y, z), Bottom(z)];
      FourBits(g[0], g[1], g[2], g[3]);
      if |b| >= 3 {
        ValuesKeepBits(b[3..]);
        SextetBitsConcat(g, Values(b[3..]));
        ThreeBytes(x, y, z);
        ByteBitsConcat([x, y, z], b[3..]);
        assert b == [x, y, z] + b[3..];
      } else if |b| == 2 {
        TwoBytes(x, y);
        assert b == [x, y];
        assert Values(b) == [g[0], g[1], g[2]];
        SextetBitsConcat(Values(b), [g[3]]);
        assert Values(b) + [g[3]] == g;
        assert ByteBits(b) == SextetBits(g)[..16];
      } else {
        OneByte(x);
        assert b == [x];
        assert Values(b) == [g[0], g[1]];
        SextetBitsConcat(Values(b), [g[2], g[3]]);
        assert Values(b) + [g[2], g[3]] == g;
        assert ByteBits(b) == SextetBits(g)[..8];
      }
    }
  }

  lemma FourBits(a: sextet, b: sextet, c: sextet, d: sextet)
    ensures SextetBits([a, b, c, d]) == Bits6(a) + Bits6(b) + Bits6(c) + Bits6(d)
  {
    hide Bits6;
    SextetBitsOne(a); SextetBitsOne(b); SextetBitsOne(c); SextetBitsOne(d);
    SextetBitsConcat([a], [b]);
    SextetBitsConcat([a] + [b], [c]);
    SextetBitsConcat([a] + [b] + [c], [d]);
    assert [a] + [b] + [c] + [d] == [a, b, c, d];
  }

  lemma OneByte(x: bv8)
    ensures ByteBits([x]) == Bits8(x)
  {
    hide Bits8;
    assert [x][1..] == [];
  }

  lemma TwoBytes(x: bv8, y: bv8)
    ensures ByteBits([x, y]) == Bits8(x) + Bits8(y)
  {
    hide Bits8;
    OneByte(x);
    OneByte(y);
    ByteBitsConcat([x], [y]);
    assert [x] + [y] == [x, y];
  }

  lemma ThreeBytes(x: bv8, y: bv8, z: bv8)
    ensures ByteBits([x, y, z]) == Bits8(x) + Bits8(y) + Bits8(z)
  {
    hide Bits8;
    TwoBytes(x, y);
    OneByte(z);
    ByteBitsConcat([x, y], [z]);
    assert [x, y] + [z] == [x, y, z];
  }

  /** The decoder undoes the encoder: in either alphabet, with white space put in
      anywhere, whatever follows a padded text, and anything that stops the decoder
      following an unpadded one. */
  lemma DecodeUndoesEncode(b: seq<bv8>, url: bool, text: seq<byte>, tail: seq<byte>)
    requires Strip(text) == Encode(b, url) + tail && (|b| % 3 == 0 ==> Stops(tail))
    ensures Pack(Sextets(text)) == b
  {
    hide Index, IsSpace, CharOf, Values, Pack, Chars, Sextets;
    var s := Values(b);
    assert Chars(s, url) + (Padding(|b|) + tail) == Encode(b, url) + tail;
    SextetsOfChars(text, s, url, Padding(|b|) + tail) by {
      assert |b| % 3 == 0 ==> Padding(|b|) + tail == tail;
    }
    ValuesKeepBits(b);
    PackKeepsBits(s);
    ByteBitsInjective(Pack(s), b);
  }

  /** A target 64 bytes longer than the source always has room for everything. */
  lemma {:induction false} SourceLengthIsEnough(src: seq<byte>)
    ensures |Sextets(src)| <= |src| && RoomFor(|Sextets(src)|) <= |src| + 64
    decreases |src|
  {
    hide Index, IsSpace;
    if src != [] { SourceLengthIsEnough(src[1..]); }
  }

  /** `decode_base64` of the scanner: the stretch of the buffer, cut at its end, decoded
      in a buffer that is always large enough; nothing if there is nothing. */
  method DecodeBase64(buf: seq<byte>, start: nat, srcLen: nat) returns (r: Option<seq<bv8>>)
    requires start <= |buf|
    ensures var src := if start + srcLen > |buf| then buf[start..] else buf[start..start + srcLen];
            r == if Pack(Sextets(src)) == [] then None else Some(Pack(Sextets(src)))
  {
    hide Pack, Sextets;
    var len := srcLen;
    if start + len > |buf| { len := |buf| - start; }
    var src := buf[start..start + len];
    var dst := new bv8[len + 64];
    var convLen := Decode(src, dst);
    SourceLengthIsEnough(src);
    assert src == if start + srcLen > |buf| then buf[start..] else buf[start..start + srcLen];
    assert dst[..convLen] == dst[..][..convLen] == Pack(Sextets(src));
    if convLen > 0 { return Some(dst[..convLen]); }
    return None;
  }

  // ---------------------------------------------------------------------------
  // The characters, and the vectors of RFC 4648

  /** Table 1 of RFC 4648: capitals, small letters, digits, `+` and `/`; table 2 has `-`
      and `_` for the last two. */
  lemma Alphabets(url: bool)
    ensures CharOf(0, url) == 'A' as int && CharOf(25, url) == 'Z' as int
    ensures CharOf(26, url) == 'a' as int && CharOf(51, url) == 'z' as int
    ensures CharOf(52, url) == '0' as int && CharOf(61, url) == '9' as int
    ensures CharOf(62, false) == '+' as int && CharOf(63, false) == '/' as int
    ensures CharOf(62, true) == '-' as int && CharOf(63, true) == '_' as int
    ensures forall v: sextet :: v < 61 && v != 25 && v != 51 ==> CharOf(v + 1, url) == CharOf(v, url) + 1
  {
  }

  /** Read are the characters of both alphabets, and no others; the white space that is
      skipped is what C counts as such. */
  lemma CharactersAre(c: byte)
    ensures Index(c).Some? <==> 'A' <= c as char <= 'Z' || 'a' <= c as char <= 'z' || '0' <= c as char <= '9' || c as char in "+/-_"
    ensures IsSpace(c) <==> c as char in " \t\n\r" || c == 0x0B || c == 0x0C
  {
  }

  /** Section 10 of RFC 4648: `fo` is `Zm8=` and `f` is `Zg==`. */
  lemma TestVectors()
    ensures Encode([0x66], false) == [0x5A, 0x67, 0x3D, 0x3D]
    ensures Encode([0x66, 0x6F], false) == [0x5A, 0x6D, 0x38, 0x3D]
    ensures Encode([0x66, 0x6F, 0x6F], false) == [0x5A, 0x6D, 0x39, 0x76]
  {
    var f: seq<bv8>, fo: seq<bv8>, foo: seq<bv8> := [0x66], [0x66, 0x6F], [0x66, 0x6F, 0x6F];
    assert foo[3..] == [];
    assert Values(f) == [25, 32] && Values(fo) == [25, 38, 60] && Values(foo) == [25, 38, 61, 47];
    CharsOf([25, 32]);
    CharsOf([25, 38, 60]);
    CharsOf([25, 38, 61, 47]);
  }

  lemma {:induction false} CharsOf(s: seq<sextet>)
    ensures |Chars(s, false)| == |s| && forall i :: 0 <= i < |s| ==> Chars(s, false)[i] == CharOf(s[i], false)
    decreases |s|
  {
    hide CharOf;
    if s != [] { CharsOf(s[1..]); }
  }
}
