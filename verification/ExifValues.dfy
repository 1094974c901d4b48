/** What one EXIF record holds: its numbers, where its data is looked for, and the text
    made of it, as the readers of exif_entry.cpp do it. */
module ExifValues {
  import opened Basics

  // ---------------------------------------------------------------------------
  // Reading the buffer

  datatype Order = LittleEndian | BigEndian

  /** The buffer and its byte order.  `texts` are what the buffer library of be20_api
      makes of characters, by the offset of the record that asks for them; where there
      is no text, cutting the buffer at the data offset has raised the range exception. */
  datatype Tiff = Tiff(buf: seq<byte>, order: Order, texts: map<nat, string>)

  /** None is the range exception. */
  function Get8u(t: Tiff, i: nat): Option<nat> { if i + 1 > |t.buf| then None else Some(t.buf[i] as nat) }

  function Get16u(t: Tiff, i: nat): Option<nat>
  {
    if i + 2 > |t.buf| then None
    else Some(if t.order.LittleEndian? then t.buf[i] as nat + 256 * t.buf[i + 1] as nat
              else 256 * t.buf[i] as nat + t.buf[i + 1] as nat)
  }

  function Get32u(t: Tiff, i: nat): (r: Option<nat>)
    ensures r.Some? <==> i + 4 <= |t.buf|
    ensures r.Some? ==> r.value < UINT32
  {
    if i + 4 > |t.buf| then None
    else
      var a, b := Get16u(t, i).value, Get16u(t, i + 2).value;
      Some(if t.order.LittleEndian? then a + 0x10000 * b else 0x10000 * a + b)
  }

  function Or(o: Option<nat>, default: nat): nat { if o.Some? then o.value else default }

  // ---------------------------------------------------------------------------
  // The fields of a record

  function GetEntryTag(t: Tiff, o: nat): nat { Or(Get16u(t, o), 0) }

  function GetEntryType(t: Tiff, o: nat): nat { Or(Get16u(t, o + 2), 0) }

  function GetEntryCount(t: Tiff, o: nat): nat { Or(Get32u(t, o + 4), 0) }

  function GetIfdOffset(t: Tiff, o: nat): nat { Or(Get32u(t, o + 8), o + 12) }

  /** 16 bits of where the data is: in the record itself if the size, a 32-bit product,
      is at most 4, else where the record points. */
  function GetDataOffset(t: Tiff, o: nat): nat {
    var w := ByteWidth(GetEntryType(t, o));
    if w == 0 then 0
    else if GetEntryCount(t, o) * w % UINT32 <= 4 then (o + 8) % 0x10000
    else Or(Get32u(t, o + 8), o + 12) % 0x10000
  }

  /** The width `get_data_offset` works with; 0 for types it does not know. */
  function ByteWidth(entryType: nat): nat {
    match entryType
    case 1 => 1
    case 2 => 1
    case 3 => 2
    case 4 => 4
    case 5 => 8
    case 7 => 1
    case 9 => 4
    case 10 => 8
    case _ => 0
  }

  /** The width of a unit of the value that is read: unknown types are read as bytes. */
  function UnitWidth(entryType: nat): nat { if ByteWidth(entryType) == 0 then 1 else ByteWidth(entryType) }

  /** The count from which on a reader gives up. */
  function CountLimit(entryType: nat): nat {
    match UnitWidth(entryType)
    case 1 => 0x10000
    case 2 => 0x8000
    case 4 => 0x4000
    case _ => 0x2000
  }

  // ---------------------------------------------------------------------------
  // The text of a value

  function Digit(d: nat): char
    requires d < 10
  {
    ('0' as int + d) as char
  }

  /** How a stream writes an unsigned number. */
  function Decimal(n: nat): (s: string)
    ensures s != "" && IsDigit(s[0])
  {
    if n < 10 then [Digit(n)] else Decimal(n / 10) + [Digit(n % 10)]
  }

  /** 32 bits in two's complement. */
  function Signed(w: nat): int { if w < 0x8000_0000 then w else w - UINT32 }

  function SignedDecimal(v: int): string { if v < 0 then "-" + Decimal(-v) else Decimal(v) }

  function Number(w: nat, signed: bool): string { if signed then SignedDecimal(Signed(w)) else Decimal(w) }

  function NumberOrNothing(o: Option<nat>): string { if o.Some? then Decimal(o.value) else "" }

  /** The signed numbers from `i` on, up to the end of the buffer. */
  function Longs(t: Tiff, off: nat, i: nat, count: nat): string
    decreases count - i
  {
    if i >= count || Get32u(t, off + 4 * i).None? then ""
    else Number(Get32u(t, off + 4 * i).value, true) + (if i + 1 < count then " " else "") + Longs(t, off, i + 1, count)
  }

  /** The fractions from `i` on, up to the end of the buffer, even if that comes after
      a stroke. */
  function Rationals(t: Tiff, off: nat, i: nat, count: nat, signed: bool): string
    decreases count - i
  {
    var at := off + 8 * i;
    if i >= count || Get32u(t, at).None? then ""
    else if Get32u(t, at + 4).None? then Number(Get32u(t, at).value, signed) + "/"
    else Number(Get32u(t, at).value, signed) + "/" + Number(Get32u(t, at + 4).value, signed)
         + (if i + 1 < count then " " else "") + Rationals(t, off, i + 1, count, signed)
  }

  function LibraryText(t: Tiff, o: nat): Option<string> { if o in t.texts then Some(t.texts[o]) else None }

  /** The text of the value at record `o`; None is the range exception, which only
      texts made of characters can raise. */
  function ValueText(t: Tiff, o: nat): Option<string> {
    var off, count := GetDataOffset(t, o), GetEntryCount(t, o);
    match GetEntryType(t, o)
    case 2 => LibraryText(t, o)
    case 3 => if count == 1 then Some(NumberOrNothing(Get16u(t, off))) else LibraryText(t, o)
    case 4 => if count == 1 then Some(NumberOrNothing(Get32u(t, off))) else LibraryText(t, o)
    case 5 => Some(Rationals(t, off, 0, count, false))
    case 9 => Some(Longs(t, off, 0, count))
    case 10 => Some(Rationals(t, off, 0, count, true))
    case _ => if count == 1 then Some(NumberOrNothing(Get8u(t, off))) else LibraryText(t, o)
  }

  // The code

  method LongsText(t: Tiff, off: nat, count: nat) returns (s: string)
    ensures s == Longs(t, off, 0, count)
  {
    hide Number;
    s := "";
    var i := 0;
    while i < count
      invariant 0 <= i <= count && s + Longs(t, off, i, count) == Longs(t, off, 0, count)
    {
      var v := Get32u(t, off + 4 * i);
      if v.None? { break; }
      ghost var sep := if i + 1 < count then " " else "";
      LongsTurn(s, Number(v.value, true), sep, Longs(t, off, i + 1, count));
      s := s + Number(v.value, true);
      if i + 1 < count { s := s + " "; }
      i := i + 1;
    }
    assert s + "" == s;
  }

  lemma LongsTurn(s: string, n: string, sep: string, rest: string)
    ensures s + (n + sep + rest) == s + n + sep + rest && s + n + "" == s + n
  {
  }

  method RationalsText(t: Tiff, off: nat, count: nat, signed: bool) returns (s: string)
    ensures s == Rationals(t, off, 0, count, signed)
  {
    hide Number;
    s := "";
    var i := 0;
    while i < count
      invariant 0 <= i <= count && s + Rationals(t, off, i, count, signed) == Rationals(t, off, 0, count, signed)
    {
      var at := off + 8 * i;
      var v, w := Get32u(t, at), Get32u(t, at + 4);
      if v.None? { break; }
      ghost var was := s;
      s := s + Number(v.value, signed) + "/";
      if w.None? {
        assert was + (Number(v.value, signed) + "/") == s;
        return;
      }
      ghost var sep := if i + 1 < count then " " else "";
      RationalsTurn(was, Number(v.value, signed), Number(w.value, signed), sep, Rationals(t, off, i + 1, count, signed));
      s := s + Number(w.value, signed);
      if i + 1 < count { s := s + " "; }
      i := i + 1;
    }
    assert s + "" == s;
  }

  lemma RationalsTurn(s: string, n: string, m: string, sep: string, rest: string)
    ensures s + (n + "/" + m + sep + rest) == s + n + "/" + m + sep + rest && s + n + "/" + m + "" == s + n + "/" + m
  {
  }

  /** The readers' texts, after the budget test. */
  method GetText(t: Tiff, o: nat) returns (text: Option<string>)
    ensures text == ValueText(t, o)
  {
    hide Get8u, Get16u, Get32u, GetDataOffset, GetEntryCount, Longs, Rationals;
    var off, count, entryType := GetDataOffset(t, o), GetEntryCount(t, o), GetEntryType(t, o);
    if entryType == 5 || entryType == 10 {
      var s := RationalsText(t, off, count, entryType == 10);
      return Some(s);
    }
    if entryType == 9 {
      var s := LongsText(t, off, count);
      return Some(s);
    }
    if entryType == 2 || count != 1 { return LibraryText(t, o); }
    return Some(NumberOrNothing(if entryType == 3 then Get16u(t, off) else if entryType == 4 then Get32u(t, off) else Get8u(t, off)));
  }

  // ---------------------------------------------------------------------------
  // atol

  predicate IsDigit(c: char) { '0' <= c <= '9' }

  predicate IsSpace(c: char) { c == ' ' || 9 <= c as int <= 13 }

  function SkipSpace(s: string): string { if s != "" && IsSpace(s[0]) then SkipSpace(s[1..]) else s }

  /** The digits at the front, behind the value `n` of those before. */
  function DigitsValue(s: string, n: nat): nat {
    if s == "" || !IsDigit(s[0]) then n else DigitsValue(s[1..], 10 * n + (s[0] as int - '0' as int))
  }

  const LONG_MAX := 0x7FFF_FFFF_FFFF_FFFF

  /** `atol` with 64 bits: the number at the front, 0 if there is none, and the nearest
      that fits if it is too large. */
  function Atol(s: string): int {
    var u := SkipSpace(s);
    if u != "" && u[0] == '-' then 0 - Lower(DigitsValue(u[1..], 0), LONG_MAX + 1)
    else Lower(DigitsValue(if u != "" && u[0] == '+' then u[1..] else u, 0), LONG_MAX)
  }

  function Lower(a: nat, b: nat): nat { if a < b then a else b }

  const MAX_IMAGE_SIZE := 65535

  /** The size that a text gives, cut to 32 bits, is too large. */
  predicate Oversized(text: string) { Atol(text) % UINT32 > MAX_IMAGE_SIZE }

  lemma {:induction false} DecimalReads(n: nat, rest: string)
    ensures DigitsValue(Decimal(n) + rest, 0) == DigitsValue(rest, n)
    decreases n
  {
    if n < 10 {
      assert (Decimal(n) + rest)[1..] == rest;
    } else {
      var last := [Digit(n % 10)];
      assert Decimal(n) + rest == Decimal(n / 10) + (last + rest);
      DecimalReads(n / 10, last + rest);
      assert (last + rest)[1..] == rest;
    }
  }

  /** Reading back a number that was written, whatever follows it but a digit. */
  lemma AtolReadsNumber(w: nat, signed: bool, rest: string)
    requires w < UINT32 && (rest == "" || !IsDigit(rest[0]))
    ensures Atol(Number(w, signed) + rest) % UINT32 == w
  {
    hide Decimal;
    var v := if signed then Signed(w) else w;
    if v < 0 {
      assert ("-" + Decimal(-v) + rest)[1..] == Decimal(-v) + rest;
      DecimalReads(-v, rest);
    } else {
      DecimalReads(v, rest);
      assert (Decimal(v) + rest)[0] == Decimal(v)[0];
    }
  }

  /** The types whose values are written as numbers, given the count. */
  predicate Numeric(entryType: nat, count: nat) {
    if entryType == 5 || entryType == 9 || entryType == 10 then true else entryType != 2 && count == 1
  }

  /** The first number of the value, as its type reads it; 0 where there is none. */
  function FirstNumber(t: Tiff, o: nat): nat {
    var off := GetDataOffset(t, o);
    match GetEntryType(t, o)
    case 3 => Or(Get16u(t, off), 0)
    case 4 => Or(Get32u(t, off), 0)
    case 5 => if GetEntryCount(t, o) == 0 then 0 else Or(Get32u(t, off), 0)
    case 9 => if GetEntryCount(t, o) == 0 then 0 else Or(Get32u(t, off), 0)
    case 10 => if GetEntryCount(t, o) == 0 then 0 else Or(Get32u(t, off), 0)
    case _ => Or(Get8u(t, off), 0)
  }

  /** The size that the text of a numeric value gives is its first number, without sign. */
  lemma SizeOfNumeric(t: Tiff, o: nat)
    requires Numeric(GetEntryType(t, o), GetEntryCount(t, o))
    ensures ValueText(t, o).Some? && Atol(ValueText(t, o).value) % UINT32 == FirstNumber(t, o)
    ensures GetEntryType(t, o) !in {4, 5, 9, 10} ==> FirstNumber(t, o) <= MAX_IMAGE_SIZE
  {
    hide GetDataOffset, GetEntryCount, Atol, Number;
    var off, count := GetDataOffset(t, o), GetEntryCount(t, o);
    AtolOfNothing();
    match GetEntryType(t, o)
    case 5 => FirstRational(t, off, count, false);
    case 10 => FirstRational(t, off, count, true);
    case 9 => FirstLong(t, off, count);
    case 3 => WrittenNumber(Get16u(t, off));
    case 4 => WrittenNumber(Get32u(t, off));
    case _ => WrittenNumber(Get8u(t, off));
  }

  lemma AtolOfNothing()
    ensures Atol("") == 0
  {
  }

  lemma WrittenNumber(o: Option<nat>)
    requires o.Some? ==> o.value < UINT32
    ensures Atol(NumberOrNothing(o)) % UINT32 == Or(o, 0)
  {
    hide Atol, Decimal;
    AtolOfNothing();
    if o.Some? {
      AtolReadsNumber(o.value, false, "");
      assert Decimal(o.value) + "" == Decimal(o.value);
    }
  }

  lemma FirstRational(t: Tiff, off: nat, count: nat, signed: bool)
    ensures Atol(Rationals(t, off, 0, count, signed)) % UINT32 == if count == 0 then 0 else Or(Get32u(t, off), 0)
  {
    hide Atol, Number;
    AtolOfNothing();
    var first := Get32u(t, off);
    if count > 0 && first.Some? {
      var n := Number(first.value, signed);
      var rest := if Get32u(t, off + 4).None? then "/"
                  else "/" + Number(Get32u(t, off + 4).value, signed) + (if 1 < count then " " else "") + Rationals(t, off, 1, count, signed);
      assert Rationals(t, off, 0, count, signed) == n + rest;
      AtolReadsNumber(first.value, signed, rest);
    }
  }

  lemma FirstLong(t: Tiff, off: nat, count: nat)
    ensures Atol(Longs(t, off, 0, count)) % UINT32 == if count == 0 then 0 else Or(Get32u(t, off), 0)
  {
    hide Atol, Number;
    AtolOfNothing();
    var first := Get32u(t, off);
    if count > 0 && first.Some? {
      var rest := (if 1 < count then " " else "") + Longs(t, off, 1, count);
      assert Longs(t, off, 1, 1) == "";
      assert Longs(t, off, 0, count) == Number(first.value, true) + rest;
      AtolReadsNumber(first.value, true, rest);
    }
  }

  /** A number written in characters counts as what 32 bits keep of it, so two to the
      32 is not too large. */
  lemma OversizedDecimal(n: nat)
    ensures Oversized(Decimal(n)) <==> Lower(n, LONG_MAX) % UINT32 > MAX_IMAGE_SIZE
    ensures !Oversized(Decimal(UINT32))
  {
    AtolOfDecimal(n);
    AtolOfDecimal(UINT32);
    hide Atol, Decimal;
  }

  lemma AtolOfDecimal(n: nat)
    ensures Atol(Decimal(n)) == Lower(n, LONG_MAX)
  {
    hide Decimal;
    DecimalReads(n, "");
    assert Decimal(n) + "" == Decimal(n);
  }

  /** C's white space. */
  lemma SpacesAre(c: char)
    ensures IsSpace(c) <==> c in " \t\n\r" || c as int == 0x0B || c as int == 0x0C
  {
  }

  lemma {:induction false} SkipSpaces(spaces: string, s: string)
    requires (forall i :: 0 <= i < |spaces| ==> IsSpace(spaces[i])) && (s == "" || !IsSpace(s[0]))
    ensures SkipSpace(spaces + s) == s
    decreases |spaces|
  {
    hide IsSpace;
    if spaces == "" {
      assert spaces + s == s;
    } else {
      assert (spaces + s)[1..] == spaces[1..] + s;
      SkipSpaces(spaces[1..], s);
    }
  }

  /** `atol` as C has it: white space, a sign or none, digits, and anything but a digit
      behind them; too large a number is the nearest of 64 bits. */
  lemma AtolReads(spaces: string, sign: string, n: nat, rest: string)
    requires (forall i :: 0 <= i < |spaces| ==> IsSpace(spaces[i])) && sign in {"", "+", "-"} && (rest == "" || !IsDigit(rest[0]))
    ensures var v := Atol(spaces + (sign + (Decimal(n) + rest)));
            if sign == "-" then v == if n <= 0x8000_0000_0000_0000 then 0 - n as int else 0 - 0x8000_0000_0000_0000 as int
            else v == if n <= 0x7FFF_FFFF_FFFF_FFFF then n else 0x7FFF_FFFF_FFFF_FFFF
  {
    hide Decimal, SkipSpace, DigitsValue;
    var digits := Decimal(n) + rest;
    var s := sign + digits;
    assert digits[0] == Decimal(n)[0];
    if sign == "" { assert s == digits; } else { assert s[1..] == digits; }
    SkipSpaces(spaces, s);
    DecimalReads(n, rest);
    DigitsEnd(rest, n);
  }

  lemma DigitsEnd(rest: string, n: nat)
    requires rest == "" || !IsDigit(rest[0])
    ensures DigitsValue(rest, n) == n
  {
  }

  /** Decimal numbers have no leading zeros and nothing but digits. */
  lemma {:induction false} DecimalIsPlain(n: nat)
    ensures forall i :: 0 <= i < |Decimal(n)| ==> '0' <= Decimal(n)[i] <= '9'
    ensures n > 0 ==> Decimal(n)[0] != '0'
    ensures n == 0 ==> Decimal(n) == "0"
    decreases n
  {
    if n >= 10 { DecimalIsPlain(n / 10); }
  }
}
