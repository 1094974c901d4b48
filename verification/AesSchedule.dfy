/** The key-schedule recogniser of scan_aes.cpp against the key expansion of
    section 5.2 of FIPS 197. */
module AesSchedule {
  import opened AesField

  // ---------------------------------------------------------------------------
  // Round constants

  /** FIPS 197: Rcon[i] is the (i-1)-st power of two. */
  function Rcon(i: nat): bv8
    requires i >= 1
  {
    if i == 1 then 1 else Double(Rcon(i - 1))
  }

  /** What the program's table has for Rcon: also a value at 0. */
  function RoundConstant(i: nat): bv8 { if i == 0 then 0 else Rcon(i) }

  /** `rcon_function` with its loop. */
  method RconFunction(n: nat) returns (c: bv8)
    ensures c == RoundConstant(n)
  {
    hide Mul, Double;
    c := 1;
    var i: nat := n;
    if i == 0 { return 0; }
    ghost var k: nat := 1;
    while i != 1
      invariant 1 <= i && k + i == n + 1 && k >= 1 && c == Rcon(k)
    {
      TimesTwo(c);
      c := Gmul(c, 2);
      k := k + 1;
      i := i - 1;
    }
  }

  /** The ten round constants a schedule uses, as FIPS 197 lists them. */
  lemma RconValues()
    ensures Rcon(1) == 0x01 && Rcon(2) == 0x02 && Rcon(3) == 0x04 && Rcon(4) == 0x08 && Rcon(5) == 0x10
    ensures Rcon(6) == 0x20 && Rcon(7) == 0x40 && Rcon(8) == 0x80 && Rcon(9) == 0x1b && Rcon(10) == 0x36
  {
    assert Rcon(2) == Double(Rcon(1)) && Rcon(3) == Double(Rcon(2)) && Rcon(4) == Double(Rcon(3));
    assert Rcon(5) == Double(Rcon(4)) && Rcon(6) == Double(Rcon(5)) && Rcon(7) == Double(Rcon(6));
    assert Rcon(8) == Double(Rcon(7)) && Rcon(9) == Double(Rcon(8)) && Rcon(10) == Double(Rcon(9));
  }

  // ---------------------------------------------------------------------------
  // FIPS 197, section 5.2

  datatype Word = Word(b0: bv8, b1: bv8, b2: bv8, b3: bv8)

  function XorWord(a: Word, b: Word): Word {
    Word(Xor(a.b0, b.b0), Xor(a.b1, b.b1), Xor(a.b2, b.b2), Xor(a.b3, b.b3))
  }

  function RotWord(a: Word): Word { Word(a.b1, a.b2, a.b3, a.b0) }

  function SubWord(sbox: Table, a: Word): Word {
    Word(sbox[a.b0 as int], sbox[a.b1 as int], sbox[a.b2 as int], sbox[a.b3 as int])
  }

  /** The word that is combined with the one `nk` places back to give word `i`. */
  function Temp(sbox: Table, nk: nat, i: nat, prev: Word): Word
    requires nk >= 1 && i >= nk
  {
    if i % nk == 0 then XorWord(SubWord(sbox, RotWord(prev)), Word(Rcon(i / nk), 0, 0, 0))
    else if nk > 6 && i % nk == 4 then SubWord(sbox, prev)
    else prev
  }

  /** Does word `i` follow from the words before it? */
  ghost predicate Follows(sbox: Table, nk: nat, w: seq<Word>, i: nat)
    requires 1 <= nk <= i < |w|
  {
    w[i] == XorWord(w[i - nk], Temp(sbox, nk, i, w[i - 1]))
  }

  /** Is `w` an expansion of its first `nk` words? */
  ghost predicate IsExpansion(sbox: Table, nk: nat, w: seq<Word>)
    requires nk >= 1
  {
    forall i :: nk <= i < |w| ==> Follows(sbox, nk, w, i)
  }

  /** The round constant that a recogniser starts with: the one for 192 bits starts too low. */
  function FirstRound(nk: nat): nat { if nk == 6 then 0 else 1 }

  /** The temporary word as the recognisers compute it. */
  function CodeTemp(sbox: Table, nk: nat, i: nat, prev: Word): Word
    requires nk >= 1 && i >= nk
  {
    if i % nk == 0 then XorWord(SubWord(sbox, RotWord(prev)), Word(RoundConstant(i / nk - 1 + FirstRound(nk)), 0, 0, 0))
    else if nk > 6 && i % nk == 4 then SubWord(sbox, prev)
    else prev
  }

  ghost predicate CodeFollows(sbox: Table, nk: nat, w: seq<Word>, i: nat)
    requires 1 <= nk <= i < |w|
  {
    w[i] == XorWord(w[i - nk], CodeTemp(sbox, nk, i, w[i - 1]))
  }

  /** What a recogniser accepts. */
  ghost predicate Recognised(sbox: Table, nk: nat, w: seq<Word>)
    requires nk >= 1
  {
    forall i :: nk <= i < |w| ==> CodeFollows(sbox, nk, w, i)
  }

  lemma CodeTempIs(sbox: Table, nk: nat, i: nat, prev: Word)
    requires nk >= 1 && i >= nk && nk != 6
    ensures CodeTemp(sbox, nk, i, prev) == Temp(sbox, nk, i, prev)
  {
    AtLeastOne(i, nk);
    hide Rcon, XorWord, RotWord, SubWord;
  }

  lemma AtLeastOne(i: nat, nk: nat)
    requires 1 <= nk <= i
    ensures i / nk >= 1
  {
  }

  /** Except for 192 bits the recognised schedules are the expansions; for 192 bits no
      expansion is recognised, because its first round constant is 1 and not 0. */
  lemma RecognisedIff(sbox: Table, nk: nat, w: seq<Word>)
    requires nk >= 1
    ensures nk != 6 ==> (Recognised(sbox, nk, w) <==> IsExpansion(sbox, nk, w))
    ensures nk == 6 && |w| > 6 && IsExpansion(sbox, 6, w) ==> !Recognised(sbox, 6, w)
  {
    hide Rcon, XorWord, RotWord, SubWord;
    if nk != 6 {
      forall i | nk <= i < |w|
        ensures CodeFollows(sbox, nk, w, i) <==> Follows(sbox, nk, w, i)
      {
        CodeTempIs(sbox, nk, i, w[i - 1]);
      }
    } else if |w| > 6 {
      FirstConstants();
      OtherWord(w[0], SubWord(sbox, RotWord(w[5])));
      assert Follows(sbox, 6, w, 6) ==> !CodeFollows(sbox, 6, w, 6);
    }
  }

  lemma FirstConstants()
    ensures Rcon(1) == 1 && RoundConstant(0) == 0
  {
  }

  lemma OtherWord(a: Word, b: Word)
    ensures XorWord(a, XorWord(b, Word(1, 0, 0, 0))) != XorWord(a, XorWord(b, Word(0, 0, 0, 0)))
  {
    OtherByte(a.b0, b.b0);
    hide Xor;
  }

  lemma OtherByte(a: bv8, b: bv8)
    ensures Xor(a, Xor(b, 1)) != Xor(a, Xor(b, 0))
  {
  }

  /** Key expansion to `n` words. */
  function KeyExpansion(sbox: Table, key: seq<Word>, n: nat): (w: seq<Word>)
    requires 1 <= |key| <= n
    ensures |w| == n
    decreases n
  {
    if n == |key| then key
    else
      var w := KeyExpansion(sbox, key, n - 1);
      w + [XorWord(w[n - 1 - |key|], Temp(sbox, |key|, n - 1, w[n - 2]))]
  }

  lemma {:induction false} KeyExpansionExpands(sbox: Table, key: seq<Word>, n: nat)
    requires 1 <= |key| <= n
    ensures KeyExpansion(sbox, key, n)[..|key|] == key && IsExpansion(sbox, |key|, KeyExpansion(sbox, key, n))
    decreases n
  {
    hide Temp, XorWord;
    if n > |key| {
      KeyExpansionExpands(sbox, key, n - 1);
      var v, w := KeyExpansion(sbox, key, n - 1), KeyExpansion(sbox, key, n);
      assert w[..n - 1] == v;
      assert w[..|key|] == v[..|key|];
      forall i | |key| <= i < n
        ensures Follows(sbox, |key|, w, i)
      {
        if i < n - 1 { assert Follows(sbox, |key|, v, i); }
      }
    }
  }

  lemma {:induction false} ExpansionUnique(sbox: Table, nk: nat, v: seq<Word>, w: seq<Word>, n: nat)
    requires nk >= 1 && nk <= n <= |v| && n <= |w| && v[..nk] == w[..nk]
    requires IsExpansion(sbox, nk, v) && IsExpansion(sbox, nk, w)
    ensures v[..n] == w[..n]
    decreases n
  {
    if n > nk {
      ExpansionUnique(sbox, nk, v, w, n - 1);
      assert Follows(sbox, nk, v, n - 1) && Follows(sbox, nk, w, n - 1);
      assert v[n - 1 - nk] == v[..n - 1][n - 1 - nk] && v[n - 2] == v[..n - 1][n - 2];
      assert v[..n] == v[..n - 1] + [v[n - 1]] && w[..n] == w[..n - 1] + [w[n - 1]];
    }
  }

  // ---------------------------------------------------------------------------
  // The code

  ghost predicate IsRconTable(rcon: seq<bv8>) {
    |rcon| == 256 && forall i :: 0 <= i < 256 ==> rcon[i] == RoundConstant(i)
  }

  method RconSetup(rcon: array<bv8>)
    requires rcon.Length == 256
    modifies rcon
    ensures IsRconTable(rcon[..])
    ensures rcon[1..11] == [0x01, 0x02, 0x04, 0x08, 0x10, 0x20, 0x40, 0x80, 0x1b, 0x36]
  {
    hide Rcon;
    RconValues();
    var i := 0;
    while i < 256
      invariant 0 <= i <= 256 && forall k :: 0 <= k < i ==> rcon[k] == RoundConstant(k)
    {
      rcon[i] := RconFunction(i);
      i := i + 1;
    }
  }

  /** The `i`-th four bytes. */
  function WordAt(b: seq<bv8>, i: nat): Word
    requires 4 * i + 4 <= |b|
  {
    Word(b[4 * i], b[4 * i + 1], b[4 * i + 2], b[4 * i + 3])
  }

  function Words(b: seq<bv8>, n: nat): seq<Word>
    requires 4 * n <= |b|
  {
    seq(n, i requires 0 <= i < n => WordAt(b, i))
  }

  function Four(t: array<bv8>): Word
    requires t.Length == 4
    reads t
  {
    Word(t[0], t[1], t[2], t[3])
  }

  /** Rotate, substitute, and add the round constant, in place. */
  method ScheduleCore(t: array<bv8>, i: nat, sbox: Table, rcon: seq<bv8>)
    requires t.Length == 4 && i < 256 && IsRconTable(rcon)
    modifies t
    ensures Four(t) == XorWord(SubWord(sbox, RotWord(old(Four(t)))), Word(RoundConstant(i), 0, 0, 0))
    ensures forall k :: 0 <= k < 4 ==>
              var s := sbox[old(t[(k + 1) % 4]) as int]; t[k] == if k == 0 then Xor(s, RoundConstant(i)) else s
  {
    var t0 := t[0];
    t[0] := t[1];
    t[1] := t[2];
    t[2] := t[3];
    t[3] := t0;
    SubstituteAll(t, sbox);
    t[0] := Xor(t[0], rcon[i]);
    XorWithZero(t[1]);
    XorWithZero(t[2]);
    XorWithZero(t[3]);
    hide Xor, Rcon;
  }

  lemma XorWithZero(a: bv8)
    ensures Xor(a, 0) == a
  {
  }

  method SubstituteAll(t: array<bv8>, sbox: Table)
    requires t.Length == 4
    modifies t
    ensures Four(t) == SubWord(sbox, old(Four(t)))
  {
    var a := 0;
    while a < 4
      invariant 0 <= a <= 4
      invariant forall k :: 0 <= k < a ==> t[k] == sbox[old(t[k]) as int]
      invariant forall k :: a <= k < 4 ==> t[k] == old(t[k])
    {
      t[a] := sbox[t[a] as int];
      a := a + 1;
    }
  }

  /** The temporary word for position `pos`: the last word, changed where the key
      schedule says so. */
  method MakeTemp(prev: Word, pos: nat, keySize: nat, sbox: Table, rcon: seq<bv8>) returns (t: array<bv8>)
    requires keySize == 16 || keySize == 24 || keySize == 32
    requires pos % 4 == 0 && keySize <= pos < 256 && IsRconTable(rcon)
    ensures fresh(t) && t.Length == 4 && Four(t) == CodeTemp(sbox, keySize / 4, pos / 4, prev)
  {
    hide RoundConstant, XorWord, RotWord, SubWord, CodeTemp;
    t := new bv8[4];
    t[0], t[1], t[2], t[3] := prev.b0, prev.b1, prev.b2, prev.b3;
    TempAt(sbox, keySize, pos, prev);
    if pos % keySize == 0 {
      ScheduleCore(t, pos / keySize - 1 + FirstRound(keySize / 4), sbox, rcon);
    }
    if keySize == 32 && pos % keySize == 16 {
      SubstituteAll(t, sbox);
    }
  }

  /** `CodeTemp` by byte positions. */
  lemma TempAt(sbox: Table, keySize: nat, pos: nat, prev: Word)
    requires keySize == 16 || keySize == 24 || keySize == 32
    requires pos % 4 == 0 && keySize <= pos
    ensures pos / keySize >= 1
    ensures CodeTemp(sbox, keySize / 4, pos / 4, prev) ==
            if pos % keySize == 0
            then XorWord(SubWord(sbox, RotWord(prev)), Word(RoundConstant(pos / keySize - 1 + FirstRound(keySize / 4)), 0, 0, 0))
            else if keySize == 32 && pos % keySize == 16 then SubWord(sbox, prev) else prev
  {
    hide RoundConstant, XorWord, RotWord, SubWord;
    if keySize == 16 { PositionIn16(pos); } else if keySize == 24 { PositionIn24(pos); } else { PositionIn32(pos); }
  }

  lemma PositionIn24(pos: nat)
    requires pos % 4 == 0
    ensures pos % 24 == 4 * (pos / 4 % 6) && pos / 24 == pos / 4 / 6
  {
  }

  lemma PositionIn16(pos: nat)
    requires pos % 4 == 0
    ensures pos % 16 == 4 * (pos / 4 % 4) && pos / 16 == pos / 4 / 4
  {
  }

  lemma PositionIn32(pos: nat)
    requires pos % 4 == 0
    ensures pos % 32 == 4 * (pos / 4 % 8) && pos / 32 == pos / 4 / 8
  {
  }

  function ByteOf(w: Word, k: nat): bv8
    requires k < 4
  {
    match k case 0 => w.b0 case 1 => w.b1 case 2 => w.b2 case _ => w.b3
  }

  lemma WordBytes(b: seq<bv8>, pos: nat)
    requires pos % 4 == 0 && pos + 4 <= |b|
    ensures forall k :: 0 <= k < 4 ==> ByteOf(WordAt(b, pos / 4), k) == b[pos + k]
  {
    assert 4 * (pos / 4) == pos;
  }

  lemma XorBytes(a: Word, b: Word, w: Word)
    ensures a == XorWord(b, w) <==> forall k :: 0 <= k < 4 ==> ByteOf(a, k) == Xor(ByteOf(b, k), ByteOf(w, k))
  {
    hide Xor;
    if forall k :: 0 <= k < 4 ==> ByteOf(a, k) == Xor(ByteOf(b, k), ByteOf(w, k)) {
      assert ByteOf(a, 0) == a.b0 && ByteOf(a, 1) == a.b1 && ByteOf(a, 2) == a.b2 && ByteOf(a, 3) == a.b3;
    }
  }

  /** Byte `k` of the word at `pos` is what `w` makes of the one `keySize` back. */
  predicate ByteIs(b: seq<bv8>, pos: nat, keySize: nat, w: Word, k: nat)
    requires keySize <= pos && pos + 4 <= |b| && k < 4
  {
    b[pos + k] == Xor(b[pos + k - keySize], ByteOf(w, k))
  }

  /** Word by word or byte by byte. */
  lemma WordCheck(candidate: seq<bv8>, pos: nat, keySize: nat, w: Word)
    requires pos % 4 == 0 && keySize % 4 == 0 && 4 <= keySize <= pos && pos + 4 <= |candidate|
    ensures WordAt(candidate, pos / 4) == XorWord(WordAt(candidate, pos / 4 - keySize / 4), w)
       <==> forall k :: 0 <= k < 4 ==> ByteIs(candidate, pos, keySize, w, k)
  {
    hide Xor, WordAt, XorWord, ByteOf;
    assert (pos - keySize) / 4 == pos / 4 - keySize / 4;
    var a, b := WordAt(candidate, pos / 4), WordAt(candidate, (pos - keySize) / 4);
    WordBytes(candidate, pos);
    WordBytes(candidate, pos - keySize);
    XorBytes(a, b, w);
    assert forall k :: 0 <= k < 4 ==> (ByteIs(candidate, pos, keySize, w, k) <==> ByteOf(a, k) == Xor(ByteOf(b, k), ByteOf(w, k)));
  }

  /** The inner loop of the recogniser: compute four bytes from the computed ones
      `keySize` back and compare them with the candidate. */
  method CheckWord(candidate: seq<bv8>, computed: array<bv8>, pos: nat, keySize: nat, t: array<bv8>) returns (same: bool)
    requires t.Length == 4 && t != computed && pos % 4 == 0 && keySize % 4 == 0 && 4 <= keySize <= pos
    requires pos + 4 <= |candidate| == computed.Length && computed[..pos] == candidate[..pos]
    modifies computed
    ensures same <==> WordAt(candidate, pos / 4) == XorWord(WordAt(candidate, pos / 4 - keySize / 4), Four(t))
    ensures same ==> computed[..pos + 4] == candidate[..pos + 4]
    ensures Four(t) == old(Four(t))
  {
    hide Xor, WordAt, XorWord;
    var a := 0;
    WordCheck(candidate, pos, keySize, Four(t));
    assert forall k :: 0 <= k < pos ==> computed[k] == computed[..pos][k] == candidate[k];
    while a < 4
      invariant 0 <= a <= 4
      invariant forall k :: 0 <= k < pos + a ==> computed[k] == candidate[k]
      invariant forall k :: 0 <= k < a ==> ByteIs(candidate, pos, keySize, Four(t), k)
      invariant Four(t) == old(Four(t))
    {
      computed[pos + a] := Xor(computed[pos + a - keySize], t[a]);
      assert t[a] == ByteOf(Four(t), a);
      assert ByteIs(candidate, pos, keySize, Four(t), a) <==> computed[pos + a] == candidate[pos + a];
      if computed[pos + a] != candidate[pos + a] {
        return false;
      }
      a := a + 1;
    }
    return true;
  }

  /** The key sizes and the lengths of their schedules. */
  predicate Sizes(keySize: nat, size: nat) {
    (keySize == 16 && size == 176) || (keySize == 24 && size == 208) || (keySize == 32 && size == 240)
  }

  /** `valid_aes128_schedule`, `valid_aes192_schedule` and `valid_aes256_schedule`.  The
      temporary word is taken from the candidate, not from the computed bytes; for 128
      and 256 bits the verdict is exactly FIPS 197 all the same, for 192 bits it is
      false on every schedule of FIPS 197. */
  method ValidSchedule(candidate: seq<bv8>, keySize: nat, sbox: Table, rcon: seq<bv8>) returns (valid: bool)
    requires Sizes(keySize, |candidate|) && IsRconTable(rcon)
    ensures valid <==> Recognised(sbox, keySize / 4, Words(candidate, |candidate| / 4))
    ensures keySize != 24 ==> (valid <==> IsExpansion(sbox, keySize / 4, Words(candidate, |candidate| / 4)))
    ensures keySize == 24 && IsExpansion(sbox, 6, Words(candidate, 52)) ==> !valid
  {
    hide XorWord, CodeTemp, Temp, IsRconTable, WordAt, CodeFollows, IsExpansion;
    var size, nk := |candidate|, keySize / 4;
    ghost var w := Words(candidate, size / 4);
    var computed := CopyKey(candidate, keySize);
    var pos := keySize;
    while pos < size
      invariant keySize <= pos <= size && pos % 4 == 0
      invariant computed[..pos] == candidate[..pos]
      invariant forall i :: nk <= i < pos / 4 ==> CodeFollows(sbox, nk, w, i)
    {
      var i := pos / 4;
      assert WordAt(candidate, i - 1) == w[i - 1];
      var t := MakeTemp(WordAt(candidate, i - 1), pos, keySize, sbox, rcon);
      var same := CheckWord(candidate, computed, pos, keySize, t);
      CodeFollowsIs(sbox, nk, w, i);
      assert w[i] == WordAt(candidate, i) && w[i - nk] == WordAt(candidate, i - nk);
      if !same {
        RecognisedIff(sbox, nk, w);
        return false;
      }
      pos := pos + 4;
    }
    RecognisedIff(sbox, nk, w);
    return true;
  }

  /** The setup and the recogniser together: exactly the expansions of FIPS 197, but
      none of them for 192 bits. */
  method IsAesSchedule(candidate: seq<bv8>, keySize: nat) returns (valid: bool)
    requires Sizes(keySize, |candidate|)
    ensures forall sbox: Table :: IsSbox(sbox) ==>
              var w := Words(candidate, |candidate| / 4);
              if keySize == 24 then IsExpansion(sbox, 6, w) ==> !valid else valid <==> IsExpansion(sbox, keySize / 4, w)
  {
    hide IsSbox, IsExpansion, IsRconTable, Recognised;
    var rcon, sbox := new bv8[256], new bv8[256];
    RconSetup(rcon);
    SboxSetup(sbox);
    valid := ValidSchedule(candidate, keySize, sbox[..], rcon[..]);
  }

  lemma FollowsIs(sbox: Table, nk: nat, w: seq<Word>, i: nat)
    requires 1 <= nk <= i < |w|
    ensures Follows(sbox, nk, w, i) <==> w[i] == XorWord(w[i - nk], Temp(sbox, nk, i, w[i - 1]))
  {
  }

  lemma CodeFollowsIs(sbox: Table, nk: nat, w: seq<Word>, i: nat)
    requires 1 <= nk <= i < |w|
    ensures CodeFollows(sbox, nk, w, i) <==> w[i] == XorWord(w[i - nk], CodeTemp(sbox, nk, i, w[i - 1]))
  {
  }

  method CopyKey(from: seq<bv8>, keySize: nat) returns (computed: array<bv8>)
    requires keySize <= |from|
    ensures fresh(computed) && computed.Length == |from| && computed[..keySize] == from[..keySize]
  {
    computed := new bv8[|from|];
    var k := 0;
    while k < keySize
      invariant 0 <= k <= keySize && computed[..k] == from[..k]
    {
      computed[k] := from[k];
      k := k + 1;
    }
  }

  /** `create_aes128_schedule`: the expansion of a 16-byte key. */
  method CreateSchedule128(key: seq<bv8>, sbox: Table, rcon: seq<bv8>, computed: array<bv8>)
    requires |key| == 16 && computed.Length == 176 && IsRconTable(rcon)
    modifies computed
    ensures Words(computed[..], 44) == KeyExpansion(sbox, Words(key, 4), 44)
  {
    hide Xor, Temp, IsRconTable, KeyExpansion, XorWord, Follows, WordAt;
    FillKey(key, computed);
    ghost var e := KeyExpansion(sbox, Words(key, 4), 44);
    KeyExpansionExpands(sbox, Words(key, 4), 44);
    assert forall i :: 0 <= i < 4 ==> e[i] == e[..4][i] == WordAt(key, i);
    var pos := 16;
    while pos < 176
      invariant 16 <= pos <= 176 && pos % 4 == 0
      invariant forall i :: 0 <= i < pos / 4 ==> e[i] == WordAt(computed[..], i)
    {
      NextWord(computed, pos, sbox, rcon);
      FollowsIs(sbox, 4, e, pos / 4);
      assert Follows(sbox, 4, e, pos / 4);
      pos := pos + 4;
    }
  }

  /** The first loop of the generator. */
  method FillKey(key: seq<bv8>, computed: array<bv8>)
    requires |key| == 16 && computed.Length == 176
    modifies computed
    ensures forall i :: 0 <= i < 4 ==> WordAt(computed[..], i) == WordAt(key, i)
  {
    var k := 0;
    while k < 16
      invariant 0 <= k <= 16 && forall j :: 0 <= j < k ==> computed[j] == key[j]
    {
      computed[k] := key[k];
      k := k + 1;
    }
  }

  /** One turn of the outer loop of the generator. */
  method NextWord(computed: array<bv8>, pos: nat, sbox: Table, rcon: seq<bv8>)
    requires computed.Length == 176 && pos % 4 == 0 && 16 <= pos < 176 && IsRconTable(rcon)
    modifies computed
    ensures WordAt(computed[..], pos / 4)
         == XorWord(old(WordAt(computed[..], pos / 4 - 4)), Temp(sbox, 4, pos / 4, old(WordAt(computed[..], pos / 4 - 1))))
    ensures forall j :: 0 <= j < pos / 4 ==> WordAt(computed[..], j) == old(WordAt(computed[..], j))
  {
    hide Xor, Temp, CodeTemp, IsRconTable, XorWord;
    CodeTempIs(sbox, 4, pos / 4, WordAt(computed[..], pos / 4 - 1));
    var t := MakeTemp(WordAt(computed[..], pos / 4 - 1), pos, 16, sbox, rcon);
    ComputeWord(computed, pos, t);
  }

  /** The inner loop of the generator. */
  method ComputeWord(computed: array<bv8>, pos: nat, t: array<bv8>)
    requires t.Length == 4 && t != computed && pos % 4 == 0 && 16 <= pos && pos + 4 <= computed.Length
    modifies computed
    ensures forall j :: 0 <= j < pos ==> computed[j] == old(computed[j])
    ensures WordAt(computed[..], pos / 4) == XorWord(old(WordAt(computed[..], pos / 4 - 4)), Four(t))
  {
    hide Xor;
    assert 4 * (pos / 4) == pos && 4 * (pos / 4 - 4) == pos - 16;
    var a := 0;
    while a < 4
      invariant 0 <= a <= 4 && Four(t) == old(Four(t))
      invariant forall j :: 0 <= j < pos ==> computed[j] == old(computed[j])
      invariant forall j :: 0 <= j < a ==> computed[pos + j] == Xor(old(computed[pos + j - 16]), t[j])
    {
      computed[pos + a] := Xor(computed[pos + a - 16], t[a]);
      a := a + 1;
    }
  }

  // ---------------------------------------------------------------------------
  // What recognition means

  /** A candidate is valid exactly when it is the expansion of its own first bytes. */
  lemma ValidIffExpansionOfItsKey(sbox: Table, nk: nat, w: seq<Word>)
    requires 1 <= nk <= |w|
    ensures IsExpansion(sbox, nk, w) <==> w == KeyExpansion(sbox, w[..nk], |w|)
  {
    var e := KeyExpansion(sbox, w[..nk], |w|);
    KeyExpansionExpands(sbox, w[..nk], |w|);
    if IsExpansion(sbox, nk, w) {
      ExpansionUnique(sbox, nk, w, e, |w|);
      assert w[..|w|] == w && e[..|w|] == e;
    }
  }

  lemma XorWordCancels(a: Word, b: Word)
    ensures XorWord(XorWord(a, b), b) == a
  {
  }

  /** Any `nk` neighbouring words of a schedule, a round key for instance, determine
      all of it: two valid schedules that agree on them are equal. */
  lemma {:induction false} RoundKeyDeterminesSchedule(sbox: Table, nk: nat, v: seq<Word>, w: seq<Word>, k: nat)
    requires nk >= 2 && |v| == |w| && k + nk <= |v| && v[k..k + nk] == w[k..k + nk]
    requires IsExpansion(sbox, nk, v) && IsExpansion(sbox, nk, w)
    ensures v == w
    decreases k
  {
    hide Temp, XorWord, Follows;
    assert forall i :: k <= i < k + nk ==> v[i] == v[k..k + nk][i - k] == w[i];
    if k == 0 {
      assert v[..nk] == v[0..nk] && w[..nk] == w[0..nk];
      ExpansionUnique(sbox, nk, v, w, |v|);
      assert v[..|v|] == v && w[..|w|] == w;
    } else {
      var i := k + nk - 1;
      XorWordCancels(v[k - 1], Temp(sbox, nk, i, v[i - 1]));
      XorWordCancels(w[k - 1], Temp(sbox, nk, i, w[i - 1]));
      FollowsIs(sbox, nk, v, i);
      FollowsIs(sbox, nk, w, i);
      assert Follows(sbox, nk, v, i) && Follows(sbox, nk, w, i);
      assert v[i - nk] == v[k - 1] && w[i - nk] == w[k - 1];
      RoundKeyDeterminesSchedule(sbox, nk, v, w, k - 1);
    }
  }
}
