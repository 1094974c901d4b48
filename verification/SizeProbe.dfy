/** `process_raw::get_filesize`: the size of a device found by reading single bytes. */
module SizeProbe {
  import opened Basics

  datatype Error = SeekError

  /** Is bit `i` of `x` set? */
  predicate Bit(x: nat, i: nat) { (x / Pow2(i)) % 2 == 1 }

  /** `x | (1 << i)` and `x & ~(1 << i)`. */
  function SetBit(x: nat, i: nat): nat { if Bit(x, i) then x else x + Pow2(i) }

  function ClearBit(x: nat, i: nat): nat { if Bit(x, i) && x >= Pow2(i) then x - Pow2(i) else x }

  lemma MultipleHasNoBit(k: nat, i: nat)
    ensures !Bit(k * Pow2(i + 1), i)
  {
    var p := Pow2(i);
    assert k * Pow2(i + 1) == (2 * k) * p;
    DivExact(2 * k, p);
  }

  lemma OddMultipleHasBit(k: nat, i: nat)
    ensures Bit(k * Pow2(i + 1) + Pow2(i), i)
  {
    var p := Pow2(i);
    assert k * Pow2(i + 1) + p == (2 * k + 1) * p by { Distribute(k, p); }
    DivExact(2 * k + 1, p);
  }

  lemma Distribute(k: nat, p: nat)
    ensures k * (2 * p) + p == (2 * k + 1) * p
  {
  }

  lemma DivExact(q: nat, p: nat)
    requires p > 0
    ensures (q * p) / p == q
  {
    var d := (q * p) / p;
    assert q * p == d * p + (q * p) % p;
    if d < q { MulLe(d + 1, q, p); }
    if d > q { MulLe(q + 1, d, p); }
  }

  lemma {:induction false} PowMonotone(i: nat, j: nat)
    requires i <= j
    ensures Pow2(i) <= Pow2(j)
    decreases j - i
  {
    if i < j { PowMonotone(i, j - 1); }
  }

  lemma PowStep(i: nat)
    ensures Pow2(i + 1) == 2 * Pow2(i) && Pow2(0) == 1
  {
  }

  /** The second phase: from the top bit down, keep a bit if the offset with it can be
      read.  `bits` is the first power of two that cannot. */
  method BlankBits(bits: nat, size: nat) returns (filesize: nat)
    requires size <= Pow2(bits)
    ensures filesize == if size == 0 then 0 else size - 1
  {
    hide Pow2, Bit;
    filesize := Pow2(bits);
    var i: int := bits;
    ghost var k: nat := 0;
    while i >= 0
      invariant -1 <= i <= bits
      invariant i == bits ==> filesize == Pow2(bits) && k == 0
      invariant i < bits ==> filesize == k * Pow2(i + 1) && size <= filesize + Pow2(i + 1)
      invariant i < bits ==> if size == 0 then filesize == 0 else filesize < size
    {
      PowStep(i);
      MultipleHasNoBit(k, i);
      OddMultipleHasBit(k, i);
      var testFilesize := SetBit(filesize, i);
      Halve(k, Pow2(i));
      if testFilesize < size {
        filesize := SetBit(filesize, i);
        k := 2 * k + 1;
      } else {
        filesize := ClearBit(filesize, i);
        k := if i == bits then 0 else 2 * k;
      }
      i := i - 1;
    }
    PowStep(0);
  }

  lemma Halve(k: nat, p: nat)
    ensures k * (2 * p) == (2 * k) * p && k * (2 * p) + p == (2 * k + 1) * p && 0 * p == 0 && 0 * (2 * p) == 0
  {
  }

  /** The probe of a device whose readable offsets are those below `size`.  `statSize`
      is what fstat reports.  For every size: right from 2 to 2 to the 59th, and for
      an empty device; a one-byte device is taken for empty; anything larger fails. */
  method GetFilesize(statSize: int, size: nat) returns (r: Result<nat, Error>)
    ensures statSize > 0 ==> r == Ok(statSize)
    ensures statSize <= 0 && size > Pow2(59) ==> r == Err(SeekError)
    ensures statSize <= 0 && size <= Pow2(59) ==> r == Ok(if size == 1 then 0 else size)
  {
    hide Pow2;
    if statSize > 0 { return Ok(statSize); }
    var bits := 0;
    while bits < 60
      invariant 0 <= bits <= 60
      invariant bits > 0 ==> Pow2(bits - 1) < size
    {
      if !(Pow2(bits) < size) { break; }
      bits := bits + 1;
    }
    if bits == 60 { return Err(SeekError); }
    PowMonotone(bits, 59);
    var filesize := BlankBits(bits, size);
    if filesize > 0 { filesize := filesize + 1; }
    return Ok(filesize);
  }
}
