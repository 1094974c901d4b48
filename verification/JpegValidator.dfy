/** The marker walk of jpeg_validator.h: `Validate` is the loop as written, and the
    functions say what it computes. */
module JpegValidator {
  import opened Basics

  datatype How = Unknown | Complete | Truncated | Corrupt

  /** The part of `results_t` that describes the image: tables, Exif, JFIF and SOI
      seen, and the frame size. */
  datatype Facts = Facts(c4: bool, cc: bool, db: bool, e1: bool, jfif: bool, soi: bool, height: nat, width: nat)

  /** `results_t`; `len` doubles as the cursor during the walk. */
  datatype Results = Results(len: nat, how: How, eoi: bool, sos: bool, facts: Facts)

  const NOTHING := Facts(false, false, false, false, false, false, 0, 0)

  const INIT := Results(0, Unknown, false, false, NOTHING)

  /** Reading past the buffer throws. */
  datatype Error = RangeException

  function Be16(hi: byte, lo: byte): nat { hi as int * 256 + lo as int }

  predicate Standalone(m: byte) { m == 0xFF || m == 0xD8 || m == 0x01 || 0xD0 <= m <= 0xD7 || m == 0xD9 || m == 0xDA }

  /** What a variable-length segment says about the image. */
  function Note(r: Facts, m: byte, length: nat, d: seq<byte>): Facts
    requires length > 8 ==> |d| >= 5
  {
    r.(c4 := r.c4 || m == 0xC4, cc := r.cc || m == 0xCC, db := r.db || m == 0xDB, e1 := r.e1 || m == 0xE1,
       jfif := r.jfif || (m == 0xE0 && length > 8 && d[0] == 0x4A && d[1] == 0x46 && d[2] == 0x49 && d[3] == 0x46),
       height := if m == 0xC0 && length > 8 then Be16(d[1], d[2]) else r.height,
       width := if m == 0xC0 && length > 8 then Be16(d[3], d[4]) else r.width)
  }

  predicate HasTable(r: Facts) { r.c4 || r.cc || r.db }

  /** The search for the end of the entropy-coded data. */
  function Scan(buf: seq<byte>, i: nat): (r: (How, nat))
    decreases |buf| - i
  {
    if i + 1 >= |buf| then (Unknown, i)
    else if buf[i] != 0xFF then Scan(buf, i + 1)
    else if buf[i + 1] == 0x00 then Scan(buf, i + 1)
    else if buf[i + 1] == 0xDE || buf[i + 1] == 0xD9 then (Complete, i + 2)
    else if 0xC0 <= buf[i + 1] <= 0xDF then Scan(buf, i + 1)
    else (Corrupt, i)
  }

  /** The checks after the walk. */
  function Finish(r: Results): Results {
    var f := r.facts;
    if !f.jfif || !f.soi then r.(how := Corrupt, len := 0)
    else if f.e1 then r.(how := Truncated)
    else if !HasTable(f) then r.(how := Corrupt, len := 0)
    else if !r.sos || f.width == 0 || f.height == 0 then r.(how := Corrupt, len := 0)
    else r
  }

  /** The SOS branch. */
  function AtScan(buf: seq<byte>, r: Results): Result<Results, Error>
    requires r.len + 1 < |buf|
  {
    var r1 := r.(sos := true);
    if !HasTable(r.facts) || !r.facts.jfif || r.facts.width == 0 || r.facts.height == 0 then Ok(r1.(how := Corrupt, len := 0))
    else if r.len + 2 >= |buf| then Ok(Finish(r1.(len := r.len + 2)))
    else if r.len + 3 >= |buf| then Err(RangeException)
    else
      var s := Scan(buf, r.len + 2 + Be16(buf[r.len + 2], buf[r.len + 3]));
      Ok(Finish(r1.(how := s.0, len := s.1)))
  }

  /** A variable-length segment. */
  function PassSegment(buf: seq<byte>, r: Results): Results
    requires r.len + 1 < |buf|
  {
    var i := r.len;
    if i + 8 >= |buf| then r.(len := i + 8)
    else
      var length := Be16(buf[i + 2], buf[i + 3]);
      r.(facts := Note(r.facts, buf[i + 1], length, buf[i + 4..]), len := i + 2 + length)
  }

  /** A marker other than SOS and the cursor's way past it. */
  function Pass(buf: seq<byte>, r: Results): Results
    requires r.len + 1 < |buf| && buf[r.len] == 0xFF && buf[r.len + 1] != 0xDA
  {
    var i, m := r.len, buf[r.len + 1];
    if m == 0xFF then r.(how := Corrupt)
    else if m == 0xD8 then r.(facts := r.facts.(soi := true), len := i + 2)
    else if m == 0x01 then r.(how := Complete, len := i + 2)
    else if 0xD0 <= m <= 0xD7 then r.(len := i + 2)
    else if m == 0xD9 then r.(eoi := true, how := Complete, len := i + 2)
    else PassSegment(buf, r)
  }

  predicate Walking(buf: seq<byte>, r: Results) { r.len + 1 < |buf| && !r.eoi && r.how == Unknown }

  function Walk(buf: seq<byte>, r: Results): Result<Results, Error>
    decreases |buf| - r.len, r.how == Unknown
  {
    if !Walking(buf, r) then Ok(Finish(r))
    else if buf[r.len] != 0xFF then Ok(Finish(r.(how := Corrupt)))
    else if buf[r.len + 1] == 0xDA then AtScan(buf, r)
    else Walk(buf, Pass(buf, r))
  }

  // ---------------------------------------------------------------------------
  // The code

  method ScanEntropy(buf: seq<byte>, from: nat) returns (how: How, i: nat)
    ensures (how, i) == Scan(buf, from)
  {
    how, i := Unknown, from;
    while i + 1 < |buf|
      invariant how == Unknown && Scan(buf, i) == Scan(buf, from)
      decreases |buf| - i
    {
      if buf[i] != 0xFF || buf[i + 1] == 0x00 { i := i + 1; continue; }
      if buf[i + 1] == 0xDE || buf[i + 1] == 0xD9 {
        return Complete, i + 2;
      }
      if 0xC0 <= buf[i + 1] <= 0xDF { i := i + 1; continue; }
      return Corrupt, i;
    }
  }

  method Validate(buf: seq<byte>) returns (res: Result<Results, Error>)
    ensures res == Walk(buf, INIT)
  {
    var r := INIT;
    while Walking(buf, r)
      invariant Walk(buf, r) == Walk(buf, INIT)
      decreases |buf| - r.len, r.how == Unknown
    {
      var i := r.len;
      if buf[i] != 0xFF {
        r := r.(how := Corrupt);
        break;
      }
      ghost var was := r;
      match buf[i + 1] {
        case 0xFF => r := r.(how := Corrupt);
        case 0xD8 => r := r.(facts := r.facts.(soi := true), len := i + 2);
        case 0x01 => r := r.(how := Complete, len := i + 2);
        case 0xD9 => r := r.(eoi := true, how := Complete, len := i + 2);
        case 0xDA =>
          r := r.(sos := true);
          if !HasTable(r.facts) { return Ok(r.(how := Corrupt, len := 0)); }
          if !r.facts.jfif || r.facts.width == 0 || r.facts.height == 0 { return Ok(r.(how := Corrupt, len := 0)); }
          if i + 2 >= |buf| { r := r.(len := i + 2); return Ok(Finish(r)); }
          if i + 3 >= |buf| { return Err(RangeException); }
          var how, at := ScanEntropy(buf, i + 2 + Be16(buf[i + 2], buf[i + 3]));
          return Ok(Finish(r.(how := how, len := at)));
        case m =>
          if 0xD0 <= m <= 0xD7 {
            r := r.(len := i + 2);
          } else if i + 8 >= |buf| {
            r := r.(len := i + 8);
          } else {
            var length := Be16(buf[i + 2], buf[i + 3]);
            r := r.(facts := Note(r.facts, m, length, buf[i + 4..]), len := i + 2 + length);
          }
      }
      assert r == Pass(buf, was);
    }
    res := Ok(Finish(r));
  }
}
