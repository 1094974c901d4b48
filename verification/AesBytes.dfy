/** The key schedule byte by byte, and the examples of FIPS 197. */
module AesBytes {
  import opened AesField
  import opened AesSchedule

  /** What is added to the byte `keySize` places back to give byte `j`: at the start of
      every round the last four bytes, turned left by one, substituted, and the round
      constant on the first; for 256 bits also in the middle of it, substituted only;
      and elsewhere the byte four places back. */
  function Added(sbox: Table, keySize: nat, b: seq<bv8>, j: nat): bv8
    requires 4 <= keySize <= j < |b|
  {
    AddedIn(sbox, keySize, b, j - j % 4, j % 4)
  }

  /** The same for byte `k` of the four at `p`. */
  function AddedIn(sbox: Table, keySize: nat, b: seq<bv8>, p: nat, k: nat): bv8
    requires k < 4 <= keySize && 4 <= p && p + k < |b|
  {
    if p % keySize == 0 then
      var s := sbox[b[p - 4 + (k + 1) % 4] as int];
      if k == 0 then Xor(s, Rcon(p / keySize)) else s
    else if keySize > 24 && p % keySize == 16 then sbox[b[p - 4 + k] as int]
    else b[p - 4 + k]
  }

  ghost predicate ByteFollows(sbox: Table, keySize: nat, b: seq<bv8>, j: nat)
    requires 4 <= keySize <= j < |b|
  {
    b[j] == Xor(b[j - keySize], Added(sbox, keySize, b, j))
  }

  lemma BytesOfWords(sbox: Table, a: Word, c: bv8)
    ensures forall k :: 0 <= k < 4 ==> ByteOf(RotWord(a), k) == ByteOf(a, (k + 1) % 4)
    ensures forall k :: 0 <= k < 4 ==> ByteOf(SubWord(sbox, a), k) == sbox[ByteOf(a, k) as int]
    ensures forall k :: 0 <= k < 4 ==> ByteOf(XorWord(a, Word(c, 0, 0, 0)), k) == if k == 0 then Xor(ByteOf(a, 0), c) else ByteOf(a, k)
  {
    XorWithZero(a.b1);
    XorWithZero(a.b2);
    XorWithZero(a.b3);
    hide Xor;
  }

  /** `Added` by word and place. */
  lemma AddedAt(sbox: Table, nk: nat, b: seq<bv8>, i: nat, k: nat)
    requires 1 <= nk <= i && 4 * i + 4 <= |b| && k < 4
    ensures Added(sbox, 4 * nk, b, 4 * i + k) ==
            if i % nk == 0 then
              var s := sbox[b[4 * i - 4 + (k + 1) % 4] as int]; if k == 0 then Xor(s, Rcon(i / nk)) else s
            else if nk > 6 && i % nk == 4 then sbox[b[4 * i - 4 + k] as int]
            else b[4 * i - 4 + k]
  {
    hide Rcon, Xor;
    Fourfold(i, nk);
    assert Added(sbox, 4 * nk, b, 4 * i + k) == AddedIn(sbox, 4 * nk, b, 4 * i, k) by { hide AddedIn; }
  }

  lemma TempOf(sbox: Table, nk: nat, i: nat, prev: Word, k: nat)
    requires 1 <= nk <= i && k < 4
    ensures ByteOf(Temp(sbox, nk, i, prev), k) ==
            if i % nk == 0 then
              var s := sbox[ByteOf(prev, (k + 1) % 4) as int]; if k == 0 then Xor(s, Rcon(i / nk)) else s
            else if nk > 6 && i % nk == 4 then sbox[ByteOf(prev, k) as int]
            else ByteOf(prev, k)
  {
    hide Rcon, Xor, XorWord, SubWord, RotWord, ByteOf;
    var rot := RotWord(prev);
    BytesOfWords(sbox, prev, 0);
    BytesOfWords(sbox, rot, 0);
    BytesOfWords(sbox, SubWord(sbox, rot), Rcon(i / nk));
  }

  lemma TempByte(sbox: Table, nk: nat, b: seq<bv8>, i: nat, k: nat)
    requires 1 <= nk <= i && 4 * i + 4 <= |b| && k < 4
    ensures ByteOf(Temp(sbox, nk, i, WordAt(b, i - 1)), k) == Added(sbox, 4 * nk, b, 4 * i + k)
  {
    hide *;
    AddedAt(sbox, nk, b, i, k);
    TempOf(sbox, nk, i, WordAt(b, i - 1), k);
    assert 4 * (i - 1) / 4 == i - 1;
    WordBytes(b, 4 * (i - 1));
  }

  lemma Fourfold(i: nat, nk: nat)
    requires nk >= 1
    ensures (4 * i) % (4 * nk) == 4 * (i % nk) && (4 * i) / (4 * nk) == i / nk
  {
    var q, r := i / nk, i % nk;
    assert 4 * i == (4 * nk) * q + 4 * r && 0 <= 4 * r < 4 * nk;
    Quotient(4 * i, 4 * nk, q, 4 * r);
  }

  lemma Quotient(a: nat, d: nat, q: nat, r: nat)
    requires a == d * q + r && r < d
    ensures a / d == q && a % d == r
  {
    var e := a / d - q;
    assert d * e == r - a % d;
  }

  ghost predicate FourFollow(sbox: Table, nk: nat, b: seq<bv8>, i: nat)
    requires 1 <= nk <= i && 4 * i + 4 <= |b|
  {
    && ByteFollows(sbox, 4 * nk, b, 4 * i + 0) && ByteFollows(sbox, 4 * nk, b, 4 * i + 1)
    && ByteFollows(sbox, 4 * nk, b, 4 * i + 2) && ByteFollows(sbox, 4 * nk, b, 4 * i + 3)
  }

  lemma WordFollows(sbox: Table, nk: nat, b: seq<bv8>, i: nat)
    requires 1 <= nk <= i && 4 * i + 4 <= |b| && |b| % 4 == 0
    ensures Follows(sbox, nk, Words(b, |b| / 4), i) <==> FourFollow(sbox, nk, b, i)
  {
    hide Temp, XorWord, WordAt, ByteFollows, ByteIs;
    var w, t := Words(b, |b| / 4), Temp(sbox, nk, i, WordAt(b, i - 1));
    assert w[i] == WordAt(b, i) && w[i - nk] == WordAt(b, i - nk) && w[i - 1] == WordAt(b, i - 1);
    assert 4 * i / 4 == i && 4 * nk / 4 == nk;
    WordCheck(b, 4 * i, 4 * nk, t);
    ByteFollowsIs(sbox, nk, b, i, 0);
    ByteFollowsIs(sbox, nk, b, i, 1);
    ByteFollowsIs(sbox, nk, b, i, 2);
    ByteFollowsIs(sbox, nk, b, i, 3);
  }

  lemma ByteFollowsIs(sbox: Table, nk: nat, b: seq<bv8>, i: nat, k: nat)
    requires 1 <= nk <= i && 4 * i + 4 <= |b| && k < 4
    ensures ByteFollows(sbox, 4 * nk, b, 4 * i + k) <==> ByteIs(b, 4 * i, 4 * nk, Temp(sbox, nk, i, WordAt(b, i - 1)), k)
  {
    hide Temp, Xor, WordAt, Added, ByteOf;
    TempByte(sbox, nk, b, i, k);
  }

  /** The expansions are the byte strings in which every byte behind the key follows. */
  lemma ExpansionByBytes(sbox: Table, nk: nat, b: seq<bv8>)
    requires nk >= 1 && |b| % 4 == 0
    ensures IsExpansion(sbox, nk, Words(b, |b| / 4)) <==> forall j :: 4 * nk <= j < |b| ==> ByteFollows(sbox, 4 * nk, b, j)
  {
    hide Follows, ByteFollows, FourFollow;
    var w := Words(b, |b| / 4);
    forall i | nk <= i < |w| ensures Follows(sbox, nk, w, i) <==> FourFollow(sbox, nk, b, i) { WordFollows(sbox, nk, b, i); }
    if IsExpansion(sbox, nk, w) {
      forall j | 4 * nk <= j < |b| ensures ByteFollows(sbox, 4 * nk, b, j) {
        assert Follows(sbox, nk, w, j / 4);
        OneOfFour(sbox, nk, b, j);
      }
    }
    if forall j :: 4 * nk <= j < |b| ==> ByteFollows(sbox, 4 * nk, b, j) {
      forall i | nk <= i < |w| ensures Follows(sbox, nk, w, i) { AllFour(sbox, nk, b, i); }
    }
  }

  lemma OneOfFour(sbox: Table, nk: nat, b: seq<bv8>, j: nat)
    requires 1 <= nk <= j / 4 && j < |b| && |b| % 4 == 0 && FourFollow(sbox, nk, b, j / 4)
    ensures ByteFollows(sbox, 4 * nk, b, j)
  {
    hide ByteFollows;
    var i, k := j / 4, j % 4;
    if k == 0 { assert j == 4 * i + 0; } else if k == 1 { assert j == 4 * i + 1; } else if k == 2 { assert j == 4 * i + 2; } else { assert j == 4 * i + 3; }
  }

  lemma AllFour(sbox: Table, nk: nat, b: seq<bv8>, i: nat)
    requires 1 <= nk <= i && 4 * i + 4 <= |b| && forall j :: 4 * nk <= j < |b| ==> ByteFollows(sbox, 4 * nk, b, j)
    ensures FourFollow(sbox, nk, b, i)
  {
    hide ByteFollows;
  }

  // ---------------------------------------------------------------------------
  // Examples of FIPS 197

  lemma Entry(sbox: Table, x: bv8, s: bv8)
    requires IsSbox(sbox) && s == Affine(GmulInverse(x))
    ensures sbox[x as int] == s
  {
    hide IsSubByte, Affine, GmulInverse;
    SubByteIs(x);
    assert IsSubByte((x as int) as bv8, sbox[x as int]);
  }

  /** Entries of figure 7. */
  lemma Figure7(sbox: Table)
    requires IsSbox(sbox)
    ensures sbox[0x00] == 0x63 && sbox[0x53] == 0xed
    ensures sbox[0xcf] == 0x8a && sbox[0x4f] == 0x84 && sbox[0x3c] == 0xeb && sbox[0x09] == 0x01
    ensures sbox[0x14] == 0xfa && sbox[0xdf] == 0x9e && sbox[0xf4] == 0xbf
    ensures sbox[0x20] == 0xb7 && sbox[0x67] == 0x85 && sbox[0xfc] == 0xb0 && sbox[0xde] == 0x1d
  {
    hide IsSbox;
    LowEntries(sbox);
    HighEntries(sbox);
  }

  lemma LowEntries(sbox: Table)
    requires IsSbox(sbox)
    ensures sbox[0x00] == 0x63 && sbox[0x53] == 0xed
    ensures sbox[0x4f] == 0x84 && sbox[0x3c] == 0xeb && sbox[0x09] == 0x01
    ensures sbox[0x14] == 0xfa && sbox[0x20] == 0xb7 && sbox[0x67] == 0x85
  {
    Entry(sbox, 0x00, 0x63);
    Entry(sbox, 0x53, 0xed);
    Entry(sbox, 0x4f, 0x84);
    Entry(sbox, 0x3c, 0xeb);
    Entry(sbox, 0x09, 0x01);
    Entry(sbox, 0x14, 0xfa);
    Entry(sbox, 0x20, 0xb7);
    Entry(sbox, 0x67, 0x85);
    hide IsSbox;
  }

  lemma HighEntries(sbox: Table)
    requires IsSbox(sbox)
    ensures sbox[0xcf] == 0x8a && sbox[0xdf] == 0x9e && sbox[0xf4] == 0xbf && sbox[0xfc] == 0xb0 && sbox[0xde] == 0x1d
  {
    Entry(sbox, 0xcf, 0x8a);
    Entry(sbox, 0xdf, 0x9e);
    Entry(sbox, 0xf4, 0xbf);
    Entry(sbox, 0xfc, 0xb0);
    Entry(sbox, 0xde, 0x1d);
    hide IsSbox;
  }

  /** Appendix A.1: any expansion of the example's key goes on with `a0fafe17`. */
  lemma AppendixA1(sbox: Table, w: seq<Word>)
    requires IsSbox(sbox) && |w| >= 5 && IsExpansion(sbox, 4, w)
    requires w[0] == Word(0x2b, 0x7e, 0x15, 0x16) && w[3] == Word(0x09, 0xcf, 0x4f, 0x3c)
    ensures w[4] == Word(0xa0, 0xfa, 0xfe, 0x17)
  {
    Figure7(sbox);
    assert Follows(sbox, 4, w, 4);
    hide IsSbox, IsExpansion;
    assert Rcon(1) == 1;
  }

  /** Appendix A.3: with 256 bits, word 8 is turned and word 12 only substituted. */
  lemma AppendixA3(sbox: Table, w: seq<Word>)
    requires IsSbox(sbox) && |w| >= 13 && IsExpansion(sbox, 8, w)
    requires w[0] == Word(0x60, 0x3d, 0xeb, 0x10) && w[1] == Word(0x15, 0xca, 0x71, 0xbe) && w[2] == Word(0x2b, 0x73, 0xae, 0xf0)
    requires w[3] == Word(0x85, 0x7d, 0x77, 0x81) && w[4] == Word(0x1f, 0x35, 0x2c, 0x07) && w[7] == Word(0x09, 0x14, 0xdf, 0xf4)
    ensures w[8] == Word(0x9b, 0xa3, 0x54, 0x11) && w[12] == Word(0xa8, 0xb0, 0x9c, 0x1a)
  {
    hide IsSbox, IsExpansion, XorWord, SubWord, RotWord;
    Turned8(sbox, w);
    Plain8(sbox, w, 9);
    Plain8(sbox, w, 10);
    Plain8(sbox, w, 11);
    Substituted12(sbox, w);
    Sums(sbox);
  }

  lemma Sums(sbox: Table)
    requires IsSbox(sbox)
    ensures XorWord(Word(0x60, 0x3d, 0xeb, 0x10), XorWord(SubWord(sbox, RotWord(Word(0x09, 0x14, 0xdf, 0xf4))), Word(1, 0, 0, 0)))
         == Word(0x9b, 0xa3, 0x54, 0x11)
    ensures XorWord(Word(0x15, 0xca, 0x71, 0xbe), Word(0x9b, 0xa3, 0x54, 0x11)) == Word(0x8e, 0x69, 0x25, 0xaf)
    ensures XorWord(Word(0x2b, 0x73, 0xae, 0xf0), Word(0x8e, 0x69, 0x25, 0xaf)) == Word(0xa5, 0x1a, 0x8b, 0x5f)
    ensures XorWord(Word(0x85, 0x7d, 0x77, 0x81), Word(0xa5, 0x1a, 0x8b, 0x5f)) == Word(0x20, 0x67, 0xfc, 0xde)
    ensures XorWord(Word(0x1f, 0x35, 0x2c, 0x07), SubWord(sbox, Word(0x20, 0x67, 0xfc, 0xde))) == Word(0xa8, 0xb0, 0x9c, 0x1a)
  {
    Figure7(sbox);
    hide IsSbox;
  }

  lemma Turned8(sbox: Table, w: seq<Word>)
    requires IsExpansion(sbox, 8, w) && |w| > 8
    ensures w[8] == XorWord(w[0], XorWord(SubWord(sbox, RotWord(w[7])), Word(1, 0, 0, 0)))
  {
    hide XorWord, SubWord, RotWord;
    assert Follows(sbox, 8, w, 8) && Rcon(1) == 1;
  }

  lemma Substituted12(sbox: Table, w: seq<Word>)
    requires IsExpansion(sbox, 8, w) && |w| > 12
    ensures w[12] == XorWord(w[4], SubWord(sbox, w[11]))
  {
    hide XorWord, SubWord, RotWord;
    assert Follows(sbox, 8, w, 12);
  }

  lemma Plain8(sbox: Table, w: seq<Word>, i: nat)
    requires IsExpansion(sbox, 8, w) && 8 < i < |w| && i % 8 != 0 && i % 8 != 4
    ensures w[i] == XorWord(w[i - 8], w[i - 1])
  {
    hide XorWord, SubWord, RotWord, Rcon;
    assert Follows(sbox, 8, w, i);
  }
}
