/** The field GF(2^8) as scan_aes.cpp computes in it and the S-box that it builds,
    against sections 4.2 and 5.1.1 of FIPS 197. */
module AesField {

  type Table = s: seq<bv8> | |s| == 256 witness seq(256, _ => 0 as bv8)

  function Xor(a: bv8, b: bv8): bv8 { a ^ b }

  /** Multiplication by two. */
  function Double(c: bv8): bv8 { if c & 0x80 == 0x80 then (c << 1) ^ 0x1b else c << 1 }

  /** Multiplication by the last bit of `b`. */
  function Term(a: bv8, b: bv8): bv8 { if b & 1 == 1 then a else 0 }

  /** Section 4.2.1 of FIPS 197: the product is the sum of the doublings of `a` that
      the bits of `b` select. */
  function Mul(a: bv8, b: bv8): bv8 {
    var a1 := Double(a); var a2 := Double(a1); var a3 := Double(a2); var a4 := Double(a3);
    var a5 := Double(a4); var a6 := Double(a5); var a7 := Double(a6);
    var b1 := b >> 1; var b2 := b1 >> 1; var b3 := b2 >> 1; var b4 := b3 >> 1;
    var b5 := b4 >> 1; var b6 := b5 >> 1; var b7 := b6 >> 1;
    Xor(Term(a, b), Xor(Term(a1, b1), Xor(Term(a2, b2), Xor(Term(a3, b3),
    Xor(Term(a4, b4), Xor(Term(a5, b5), Xor(Term(a6, b6), Xor(Term(a7, b7), 0))))))))
  }

  /** One of sixteen bytes, by the low half of `x`. */
  function Row(x: bv8, v0: bv8, v1: bv8, v2: bv8, v3: bv8, v4: bv8, v5: bv8, v6: bv8, v7: bv8,
               v8: bv8, v9: bv8, va: bv8, vb: bv8, vc: bv8, vd: bv8, ve: bv8, vf: bv8): bv8
  {
    if x & 0x08 != 0 then
      if x & 0x04 != 0 then
        if x & 0x02 != 0 then
          if x & 0x01 != 0 then vf else ve
        else
          if x & 0x01 != 0 then vd else vc
      else
        if x & 0x02 != 0 then
          if x & 0x01 != 0 then vb else va
        else
          if x & 0x01 != 0 then v9 else v8
    else
      if x & 0x04 != 0 then
        if x & 0x02 != 0 then
          if x & 0x01 != 0 then v7 else v6
        else
          if x & 0x01 != 0 then v5 else v4
      else
        if x & 0x02 != 0 then
          if x & 0x01 != 0 then v3 else v2
        else
          if x & 0x01 != 0 then v1 else v0
  }

  /** `ltable`: logarithms to the base e5. */
  function Log(x: bv8): bv8 {
    if x & 0x80 != 0 then
      if x & 0x40 != 0 then
        if x & 0x20 != 0 then
          if x & 0x10 != 0 then
            Row(x, 0x3b, 0x52, 0x6f, 0xf6, 0x2e, 0x89, 0xf7, 0xc0, 0x68, 0x1b, 0x64, 0x04, 0x06, 0xbf, 0x83, 0x38)
          else
            Row(x, 0x22, 0x88, 0x94, 0xce, 0x19, 0x01, 0x71, 0x4c, 0xa5, 0xe3, 0xc5, 0x31, 0xbb, 0xcc, 0x1f, 0x2d)
        else
          if x & 0x10 != 0 then
            Row(x, 0x9a, 0xc9, 0x24, 0xe1, 0x0a, 0x15, 0x6b, 0x3a, 0xa0, 0x51, 0xf4, 0xea, 0xb2, 0x97, 0x9e, 0x5d)
          else
            Row(x, 0xbc, 0x95, 0x3c, 0x84, 0x0b, 0xf5, 0xe6, 0xe7, 0xe5, 0xac, 0x7e, 0x6e, 0xb9, 0xf9, 0xda, 0x8e)
      else
        if x & 0x20 != 0 then
          if x & 0x10 != 0 then
            Row(x, 0x66, 0xdd, 0xf1, 0xd2, 0xdf, 0x03, 0x8d, 0x34, 0xd9, 0x92, 0x0d, 0x63, 0x55, 0xaa, 0x49, 0xec)
          else
            Row(x, 0xfb, 0x60, 0xb7, 0x7b, 0xb8, 0x26, 0x4a, 0x67, 0xc6, 0x1a, 0xf8, 0x69, 0x25, 0xb3, 0xdb, 0xbd)
        else
          if x & 0x10 != 0 then
            Row(x, 0x61, 0xbe, 0xab, 0xd3, 0x5f, 0xb0, 0x58, 0xaf, 0xca, 0x5e, 0xfa, 0x85, 0xe4, 0x4d, 0x8a, 0x05)
          else
            Row(x, 0x7d, 0xc2, 0x45, 0x82, 0xa7, 0x57, 0xb6, 0xa3, 0x7a, 0x75, 0x4f, 0xae, 0x3f, 0x37, 0x6d, 0x47)
    else
      if x & 0x40 != 0 then
        if x & 0x20 != 0 then
          if x & 0x10 != 0 then
            Row(x, 0x59, 0xcb, 0x50, 0xa8, 0xdc, 0xfc, 0xf2, 0x56, 0x72, 0xa6, 0x65, 0x2f, 0x9f, 0x9b, 0x3d, 0xba)
          else
            Row(x, 0xf3, 0x73, 0x42, 0x1e, 0x1d, 0xb5, 0xf0, 0x12, 0xd1, 0x5b, 0x41, 0xa2, 0xd7, 0x2c, 0xe9, 0xd5)
        else
          if x & 0x10 != 0 then
            Row(x, 0x33, 0xee, 0xef, 0x81, 0xfd, 0x30, 0x5c, 0x13, 0x9d, 0x29, 0x17, 0xc4, 0x11, 0x44, 0x8c, 0x80)
          else
            Row(x, 0xb4, 0x7c, 0xde, 0xed, 0xb1, 0x86, 0x76, 0xa4, 0x98, 0xe2, 0x96, 0x8f, 0x02, 0x32, 0x1c, 0xc1)
      else
        if x & 0x20 != 0 then
          if x & 0x10 != 0 then
            Row(x, 0x2b, 0x79, 0x54, 0x28, 0x09, 0x78, 0x0f, 0x21, 0x90, 0x87, 0x14, 0x2a, 0xa9, 0x9c, 0xd6, 0x74)
          else
            Row(x, 0xeb, 0x16, 0xe8, 0xad, 0xcf, 0xcd, 0x39, 0x53, 0x6a, 0x27, 0x35, 0x93, 0xd4, 0x4e, 0x48, 0xc3)
        else
          if x & 0x10 != 0 then
            Row(x, 0x23, 0x20, 0x07, 0x70, 0xa1, 0x6c, 0x0c, 0x7f, 0x62, 0x8b, 0x40, 0x46, 0xc7, 0x4b, 0xe0, 0x0e)
          else
            Row(x, 0x00, 0xff, 0xc8, 0x08, 0x91, 0x10, 0xd0, 0x36, 0x5a, 0x3e, 0xd8, 0x43, 0x99, 0x77, 0xfe, 0x18)
  }

  /** `atable`: the powers of e5. */
  function Antilog(x: bv8): bv8 {
    if x & 0x80 != 0 then
      if x & 0x40 != 0 then
        if x & 0x20 != 0 then
          if x & 0x10 != 0 then
            Row(x, 0x66, 0xb2, 0x76, 0x60, 0xda, 0xc5, 0xf3, 0xf6, 0xaa, 0xcd, 0x9a, 0xa0, 0x75, 0x54, 0x0e, 0x01)
          else
            Row(x, 0x1e, 0xd3, 0x49, 0xe9, 0x9c, 0xc8, 0xc6, 0xc7, 0x22, 0x6e, 0xdb, 0x20, 0xbf, 0x43, 0x51, 0x52)
        else
          if x & 0x10 != 0 then
            Row(x, 0x06, 0x68, 0xb3, 0x93, 0x2c, 0x6f, 0x3e, 0x6c, 0x0a, 0xb8, 0xce, 0xae, 0x74, 0xb1, 0x42, 0xb4)
          else
            Row(x, 0xf7, 0x4f, 0x81, 0x2f, 0x5b, 0xea, 0xa8, 0x1c, 0x02, 0xd1, 0x98, 0x71, 0xed, 0x25, 0xe3, 0x24)
      else
        if x & 0x20 != 0 then
          if x & 0x10 != 0 then
            Row(x, 0x95, 0x44, 0xdc, 0xad, 0x40, 0x65, 0x86, 0xa2, 0xa4, 0xcc, 0x7f, 0xec, 0xc0, 0xaf, 0x91, 0xfd)
          else
            Row(x, 0xd8, 0x14, 0x6b, 0x87, 0x47, 0xe8, 0x79, 0x84, 0x73, 0x3c, 0xbd, 0x92, 0xc9, 0x23, 0x8b, 0x97)
        else
          if x & 0x10 != 0 then
            Row(x, 0x38, 0x04, 0xb9, 0x2b, 0xe2, 0xc1, 0x4a, 0xdd, 0x48, 0x0c, 0xd0, 0x7d, 0x3d, 0x58, 0xde, 0x7c)
          else
            Row(x, 0x5f, 0x53, 0x83, 0xfe, 0xc3, 0x9b, 0x45, 0x39, 0xe1, 0xf5, 0x9e, 0x19, 0x5e, 0xb6, 0xcf, 0x4b)
    else
      if x & 0x40 != 0 then
        if x & 0x20 != 0 then
          if x & 0x10 != 0 then
            Row(x, 0x13, 0xe6, 0x78, 0x61, 0x3f, 0x89, 0x46, 0x0d, 0x35, 0x31, 0x88, 0xa3, 0x41, 0x80, 0xca, 0x17)
          else
            Row(x, 0xa1, 0x90, 0x18, 0xbb, 0xfa, 0x7a, 0xb0, 0xa7, 0xf8, 0xab, 0x28, 0xd6, 0x15, 0x8e, 0xcb, 0xf2)
        else
          if x & 0x10 != 0 then
            Row(x, 0x72, 0xd9, 0xf1, 0x27, 0x32, 0xbc, 0x77, 0x85, 0x96, 0x70, 0x08, 0x69, 0x56, 0xdf, 0x99, 0x94)
          else
            Row(x, 0x1a, 0x6a, 0x62, 0x0b, 0x5d, 0x82, 0x1b, 0x8f, 0x2e, 0xbe, 0xa6, 0x1d, 0xe7, 0x9d, 0x2d, 0x8a)
      else
        if x & 0x20 != 0 then
          if x & 0x10 != 0 then
            Row(x, 0x55, 0xeb, 0x4d, 0x50, 0xb7, 0x2a, 0x07, 0x8d, 0xff, 0x26, 0xd7, 0xf0, 0xc2, 0x7e, 0x09, 0x8c)
          else
            Row(x, 0x11, 0x37, 0xe0, 0x10, 0xd2, 0xac, 0xa5, 0x29, 0x33, 0x59, 0x3b, 0x30, 0x6d, 0xef, 0xf4, 0x7b)
        else
          if x & 0x10 != 0 then
            Row(x, 0x05, 0x5c, 0x67, 0x57, 0x3a, 0xd5, 0x21, 0x5a, 0x0f, 0xe4, 0xa9, 0xf9, 0x4e, 0x64, 0x63, 0xee)
          else
            Row(x, 0x01, 0xe5, 0x4c, 0xb5, 0xfb, 0x9f, 0xfc, 0x12, 0x03, 0x34, 0xd4, 0xc4, 0x16, 0xba, 0x1f, 0x36)
  }

  /** `gmul_inverse`. */
  function GmulInverse(x: bv8): bv8 { if x == 0 then 0 else Antilog(255 - Log(x)) }

  lemma InverseOfLow(x: bv8)
    requires x & 0x80 == 0x00 && x != 0
    ensures Mul(x, GmulInverse(x)) == 1
  {
  }

  lemma InverseOfHigh(x: bv8)
    requires x & 0x80 == 0x80 && x != 0
    ensures Mul(x, GmulInverse(x)) == 1
  {
  }

  // ---------------------------------------------------------------------------
  // The code multiplies

  /** What `n` turns of the loop of `gmul` add up. */
  function Product(a: bv8, b: bv8, n: nat): bv8
    decreases n
  {
    if n == 0 then 0 else Xor(Term(a, b), Product(Double(a), b >> 1, n - 1))
  }

  lemma MulIsProduct(a: bv8, b: bv8)
    ensures Product(a, b, 8) == Mul(a, b)
  {
    hide Double, Term, Xor;
  }

  lemma XorLaws(a: bv8, b: bv8, c: bv8)
    ensures Xor(Xor(a, b), c) == Xor(a, Xor(b, c)) && Xor(a, 0) == a && Xor(0, a) == a
  {
  }

  /** `gmul`. */
  method Gmul(x: bv8, y: bv8) returns (p: bv8)
    ensures p == Mul(x, y)
  {
    hide Xor, Double, Mul;
    var a, b := x, y;
    p := 0;
    var counter := 0;
    MulIsProduct(x, y);
    XorLaws(Mul(x, y), 0, 0);
    while counter < 8
      invariant 0 <= counter <= 8
      invariant Xor(p, Product(a, b, 8 - counter)) == Mul(x, y)
    {
      XorLaws(p, Term(a, b), Product(Double(a), b >> 1, 7 - counter));
      XorLaws(p, 0, 0);
      if b & 1 == 1 { p := Xor(p, a); }
      a := Double(a);
      b := b >> 1;
      counter := counter + 1;
    }
    XorLaws(p, 0, 0);
  }

  lemma TimesTwo(x: bv8)
    ensures Mul(x, 2) == Double(x)
  {
  }

  // ---------------------------------------------------------------------------
  // The product is associative

  lemma TermAdds(a: bv8, b: bv8, c: bv8)
    ensures Term(a, Xor(b, c)) == Xor(Term(a, b), Term(a, c)) && Xor(b, c) >> 1 == Xor(b >> 1, c >> 1)
  {
  }

  lemma XorCommutes(a: bv8, b: bv8)
    ensures Xor(a, b) == Xor(b, a)
  {
  }

  lemma FourAdd(a: bv8, b: bv8, c: bv8, d: bv8)
    ensures Xor(Xor(a, b), Xor(c, d)) == Xor(Xor(a, c), Xor(b, d))
  {
    hide Xor;
    XorLaws(a, b, Xor(c, d));
    XorLaws(b, c, d);
    XorLaws(c, b, d);
    XorLaws(a, c, Xor(b, d));
    XorCommutes(b, c);
  }

  lemma {:induction false} ProductAdds(a: bv8, b: bv8, c: bv8, n: nat)
    ensures Product(a, Xor(b, c), n) == Xor(Product(a, b, n), Product(a, c, n))
    decreases n
  {
    hide Xor, Term, Double;
    if n == 0 {
      XorLaws(0, 0, 0);
    } else {
      ProductAdds(Double(a), b >> 1, c >> 1, n - 1);
      TermAdds(a, b, c);
      FourAdd(Term(a, b), Term(a, c), Product(Double(a), b >> 1, n - 1), Product(Double(a), c >> 1, n - 1));
    }
  }

  lemma MulAdds(a: bv8, b: bv8, c: bv8)
    ensures Mul(a, Xor(b, c)) == Xor(Mul(a, b), Mul(a, c))
  {
    hide Mul, Xor;
    MulIsProduct(a, b);
    MulIsProduct(a, c);
    MulIsProduct(a, Xor(b, c));
    ProductAdds(a, b, c, 8);
  }

  lemma DoubleAdds(a: bv8, b: bv8)
    ensures Double(Xor(a, b)) == Xor(Double(a), Double(b))
  {
    hide Xor, Double, Carry;
    CarryAdds(a, b);
    DoubleIs(a);
    DoubleIs(b);
    DoubleIs(Xor(a, b));
    FourAdd(a << 1, b << 1, Carry(a), Carry(b));
  }

  function Carry(c: bv8): bv8 { if c & 0x80 == 0x80 then 0x1b else 0 }

  lemma DoubleIs(c: bv8)
    ensures Double(c) == Xor(c << 1, Carry(c))
  {
  }

  lemma CarryAdds(a: bv8, b: bv8)
    ensures Xor(a, b) << 1 == Xor(a << 1, b << 1) && Carry(Xor(a, b)) == Xor(Carry(a), Carry(b))
  {
  }

  lemma DoubleTerm(a: bv8, b: bv8)
    ensures Double(Term(a, b)) == Term(Double(a), b) && Double(0) == 0
  {
  }

  lemma {:induction false} ProductDoubles(a: bv8, b: bv8, n: nat)
    ensures Product(Double(a), b, n) == Double(Product(a, b, n))
    decreases n
  {
    hide Xor, Term, Double;
    DoubleTerm(a, b);
    if n > 0 {
      ProductDoubles(Double(a), b >> 1, n - 1);
      DoubleAdds(Term(a, b), Product(Double(a), b >> 1, n - 1));
    }
  }

  lemma ShiftFacts(v: bv8, x: bv8)
    requires x & 0x80 == 0
    ensures Double(x) == x << 1 && (x << 1) >> 1 == x && Term(v, x << 1) == 0
    ensures ((((((x >> 1) >> 1) >> 1) >> 1) >> 1) >> 1) >> 1 == 0 && Term(v, 0) == 0
  {
  }

  /** A factor of two can change sides, if nothing overflows ... */
  lemma MoveDoubleLow(v: bv8, x: bv8)
    requires x & 0x80 == 0
    ensures Mul(v, Double(x)) == Mul(Double(v), x)
  {
    hide Xor, Double, Term;
    ShiftFacts(v, x);
    ShiftFacts(Double(Double(Double(Double(Double(Double(Double(Double(v)))))))), x);
    XorLaws(Mul(Double(v), x), 0, 0);
    XorLaws(0, 0, 0);
  }

  lemma OverflowFacts(v: bv8, x: bv8)
    requires x & 0x80 == 0x80
    ensures Double(x) == Xor(Double(x & 0x7f), 0x1b) && x == Xor(x & 0x7f, 0x80) && (x & 0x7f) & 0x80 == 0
  {
  }

  /** What the reduction of two to the eighth is made of. */
  lemma ReducesRight(v: bv8)
    ensures Mul(v, 0x1b) == Mul(Double(v), 0x80)
  {
    hide Mul, Double;
    EightDoubles(v);
    TimesReduction(v);
    TimesTop(Double(v));
  }

  lemma EightDoubles(v: bv8)
    ensures var d := Double(v); var d3 := Double(Double(d)); var d4 := Double(d3);
            Double(Double(Double(Double(d4)))) == v ^ d ^ d3 ^ d4
  {
  }

  lemma TimesReduction(v: bv8)
    ensures var d := Double(v); var d3 := Double(Double(d)); Mul(v, 0x1b) == v ^ d ^ d3 ^ Double(d3)
  {
    hide Double;
  }

  lemma TimesTop(d: bv8)
    ensures Mul(d, 0x80) == Double(Double(Double(Double(Double(Double(Double(d)))))))
  {
    hide Double;
  }

  /** ... and also if something does. */
  lemma MoveDouble(v: bv8, x: bv8)
    ensures Mul(v, Double(x)) == Mul(Double(v), x)
  {
    hide Mul, Xor, Double;
    HighOrLow(x);
    if x & 0x80 == 0x80 {
      OverflowFacts(v, x);
      MoveDoubleLow(v, x & 0x7f);
      MulAdds(v, Double(x & 0x7f), 0x1b);
      MulAdds(Double(v), x & 0x7f, 0x80);
      ReducesRight(v);
    } else {
      MoveDoubleLow(v, x);
    }
  }

  lemma MulTerm(v: bv8, x: bv8, d: bv8)
    ensures Mul(v, Term(x, d)) == Term(Mul(v, x), d) && Mul(v, 0) == 0
  {
    hide Mul;
    TimesZero(v);
  }

  lemma {:induction false} ProductZero(v: bv8, n: nat)
    ensures Product(v, 0, n) == 0
    decreases n
  {
    hide Double;
    if n > 0 { ProductZero(Double(v), n - 1); }
  }

  lemma TimesZero(v: bv8)
    ensures Mul(v, 0) == 0 && Mul(v, 1) == v
  {
    hide Mul, Double;
    MulIsProduct(v, 0);
    MulIsProduct(v, 1);
    ProductZero(v, 8);
    ProductZero(Double(v), 7);
    ProductStep(v, 1, 8);
    XorLaws(v, 0, 0);
  }

  lemma ProductStep(a: bv8, b: bv8, n: nat)
    requires n > 0
    ensures Product(a, b, n) == Xor(Term(a, b), Product(Double(a), b >> 1, n - 1))
  {
  }

  lemma OneTimes(v: bv8)
    ensures Mul(1, v) == v
  {
  }

  lemma {:induction false} MulProduct(v: bv8, x: bv8, d: bv8, n: nat)
    ensures Mul(v, Product(x, d, n)) == Product(Mul(v, x), d, n)
    decreases n
  {
    hide Mul, Xor, Double, Term;
    MulTerm(v, x, d);
    if n > 0 {
      var rest := Product(Double(x), d >> 1, n - 1);
      MulAdds(v, Term(x, d), rest);
      MulProduct(v, Double(x), d >> 1, n - 1);
      MoveDouble(v, x);
      MulIsProduct(v, x);
      MulIsProduct(Double(v), x);
      ProductDoubles(v, x, 8);
    }
  }

  lemma MulAssociates(v: bv8, x: bv8, d: bv8)
    ensures Mul(v, Mul(x, d)) == Mul(Mul(v, x), d)
  {
    hide Mul;
    MulIsProduct(x, d);
    MulIsProduct(Mul(v, x), d);
    MulProduct(v, x, d, 8);
  }

  // ---------------------------------------------------------------------------
  // Inverses are unique

  predicate IsInverse(x: bv8, v: bv8) { if x == 0 then v == 0 else Mul(x, v) == 1 }

  /** What `gmul_inverse` finds in its tables is the inverse, and there is no other. */
  lemma InverseIs(x: bv8, v: bv8)
    ensures IsInverse(x, v) <==> v == GmulInverse(x)
  {
    hide Mul, Log, Antilog;
    var w := GmulInverse(x);
    if x != 0 {
      HighOrLow(x);
      if x & 0x80 == 0x80 { InverseOfHigh(x); } else { InverseOfLow(x); }
      TimesZero(x);
      HighOrLow(w);
      if w & 0x80 == 0x80 { InverseOfHigh(w); } else { InverseOfLow(w); }
      MulAssociates(x, w, GmulInverse(w));
      MulAssociates(w, x, v);
      TimesZero(GmulInverse(w));
      OneTimes(GmulInverse(w));
      OneTimes(v);
      TimesZero(v);
      TimesZero(w);
    }
  }

  lemma HighOrLow(x: bv8)
    ensures x & 0x80 == 0x80 || x & 0x80 == 0x00
  {
  }

  // ---------------------------------------------------------------------------
  // The S-box

  function Mask(i: nat): bv8
    requires i < 8
  {
    match i case 0 => 0x01 case 1 => 0x02 case 2 => 0x04 case 3 => 0x08
            case 4 => 0x10 case 5 => 0x20 case 6 => 0x40 case _ => 0x80
  }

  predicate Bit(b: bv8, i: nat)
    requires i < 8
  {
    b & Mask(i) != 0
  }

  /** Section 5.1.1 of FIPS 197, equation 5.2, for bit `i`; the constant is 63. */
  predicate AffineBit(b: bv8, s: bv8, i: nat)
    requires i < 8
  {
    Bit(s, i) == (Bit(b, i) != (Bit(b, (i + 4) % 8) != (Bit(b, (i + 5) % 8) != (Bit(b, (i + 6) % 8) != (Bit(b, (i + 7) % 8) != Bit(0x63, i))))))
  }

  /** The S-box of FIPS 197: the affine transformation of the inverse. */
  ghost predicate IsSubByte(x: bv8, s: bv8) {
    exists b: bv8 :: IsInverse(x, b) && forall i :: 0 <= i < 8 ==> AffineBit(b, s, i)
  }

  ghost predicate IsSbox(t: seq<bv8>) { |t| == 256 && forall i :: 0 <= i < 256 ==> IsSubByte(i as bv8, t[i]) }

  /** One bit circular rotate to the left. */
  function Rotate(s: bv8): bv8 { (s << 1) | (s >> 7) }

  function Rotated(b: bv8, c: nat): bv8
    decreases c
  {
    if c == 0 then b else Rotate(Rotated(b, c - 1))
  }

  /** The sum that the loop of `sbox_function` has after `c` turns. */
  function Sum(b: bv8, c: nat): bv8
    decreases c
  {
    if c == 0 then b else Xor(Sum(b, c - 1), Rotated(b, c))
  }

  function Affine(b: bv8): bv8 {
    var r1 := Rotate(b); var r2 := Rotate(r1); var r3 := Rotate(r2); var r4 := Rotate(r3);
    b ^ r1 ^ r2 ^ r3 ^ r4 ^ 99
  }

  lemma AffineIsSum(b: bv8)
    ensures Xor(Sum(b, 4), 99) == Affine(b)
  {
    hide Rotate;
  }

  lemma AffineLowBits(b: bv8)
    ensures forall i :: 0 <= i < 4 ==> AffineBit(b, Affine(b), i)
  {
  }

  lemma AffineHighBits(b: bv8)
    ensures forall i :: 4 <= i < 8 ==> AffineBit(b, Affine(b), i)
  {
  }

  lemma SameBits(s: bv8, t: bv8)
    requires forall i :: 0 <= i < 8 ==> Bit(s, i) == Bit(t, i)
    ensures s == t
  {
    assert Bit(s, 0) == Bit(t, 0) && Bit(s, 1) == Bit(t, 1) && Bit(s, 2) == Bit(t, 2) && Bit(s, 3) == Bit(t, 3);
    assert Bit(s, 4) == Bit(t, 4) && Bit(s, 5) == Bit(t, 5) && Bit(s, 6) == Bit(t, 6) && Bit(s, 7) == Bit(t, 7);
  }

  /** `sbox_function` computes the S-box of FIPS 197, which has one value at each byte. */
  method SboxFunction(x: bv8) returns (r: bv8)
    ensures forall s: bv8 :: IsSubByte(x, s) <==> s == r
  {
    hide Xor, Rotate, GmulInverse, Affine, IsSubByte;
    var s := GmulInverse(x);
    r := s;
    var c := 0;
    while c < 4
      invariant 0 <= c <= 4 && s == Rotated(GmulInverse(x), c) && r == Sum(GmulInverse(x), c)
    {
      s := Rotate(s);
      r := Xor(r, s);
      c := c + 1;
    }
    r := Xor(r, 99);
    AffineIsSum(GmulInverse(x));
    SubByteIs(x);
  }

  lemma SubByteIs(x: bv8)
    ensures forall s: bv8 :: IsSubByte(x, s) <==> s == Affine(GmulInverse(x))
  {
    hide IsInverse, GmulInverse, Affine, Bit, Mask;
    var b := GmulInverse(x);
    InverseIs(x, b);
    AffineLowBits(b);
    AffineHighBits(b);
    forall s: bv8 | IsSubByte(x, s)
      ensures s == Affine(b)
    {
      var b' :| IsInverse(x, b') && forall i :: 0 <= i < 8 ==> AffineBit(b', s, i);
      InverseIs(x, b');
      SameAffine(b, s, Affine(b));
    }
  }

  lemma SameAffine(b: bv8, s: bv8, t: bv8)
    requires forall i :: 0 <= i < 8 ==> AffineBit(b, s, i) && AffineBit(b, t, i)
    ensures s == t
  {
    hide Bit;
    forall i | 0 <= i < 8 ensures Bit(s, i) == Bit(t, i) {
      assert AffineBit(b, s, i) && AffineBit(b, t, i);
    }
    SameBits(s, t);
  }

  ghost predicate OnlySubByte(x: bv8, r: bv8) { forall s: bv8 :: IsSubByte(x, s) <==> s == r }

  /** `sbox_setup`: afterwards the table is the S-box, and no other table is. */
  method SboxSetup(sbox: array<bv8>)
    requires sbox.Length == 256
    modifies sbox
    ensures forall t: seq<bv8> :: IsSbox(t) <==> t == sbox[..]
  {
    hide IsSubByte, IsSbox, OnlySubByte;
    var i := 0;
    while i < 256
      invariant 0 <= i <= 256 && forall k :: 0 <= k < i ==> OnlySubByte(k as bv8, sbox[k])
    {
      sbox[i] := SboxFunction(i as bv8);
      assert OnlySubByte(i as bv8, sbox[i]) by { Only(i as bv8, sbox[i]); }
      i := i + 1;
    }
    OnlySbox(sbox[..]);
  }

  lemma Only(x: bv8, r: bv8)
    requires forall s: bv8 :: IsSubByte(x, s) <==> s == r
    ensures OnlySubByte(x, r)
  {
  }

  lemma OnlySbox(t: seq<bv8>)
    requires |t| == 256 && forall k :: 0 <= k < 256 ==> OnlySubByte(k as bv8, t[k])
    ensures forall u: seq<bv8> :: IsSbox(u) <==> u == t
  {
    hide IsSubByte;
    forall u: seq<bv8> | IsSbox(u)
      ensures u == t
    {
      forall k | 0 <= k < 256 ensures u[k] == t[k] { assert OnlySubByte(k as bv8, t[k]); }
    }
    forall k | 0 <= k < 256 ensures IsSubByte(k as bv8, t[k]) { assert OnlySubByte(k as bv8, t[k]); }
  }
}
