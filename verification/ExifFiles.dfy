/** EXIF files as they are written, byte by byte, and what reading gives for them. */
module ExifFiles {
  import opened Basics
  import opened ExifValues
  import opened Exif

  // ---------------------------------------------------------------------------
  // What a file says

  /** A record: numbers of one type, with the place of their data if it does not fit the
      record, or another directory, with its place. */
  datatype Record =
    | Values(tag: nat, entryType: nat, numbers: seq<nat>, place: nat)
    | Sub(kind: Kind, place: nat, directory: Directory)

  datatype Directory = Directory(records: seq<Record>)

  /** The directories IFD0 and IFD1 and their places; 0 means there is none. */
  datatype File = File(order: Order, place0: nat, ifd0: Directory, place1: nat, ifd1: Directory)

  /** How many bytes a number of the type takes: the types of section 4.6.2 of Exif 2.3. */
  function NumberWidth(entryType: nat): nat {
    if entryType == 3 then 2 else if entryType in {4, 5, 9, 10} then 4 else 1
  }

  /** Fractions are two numbers. */
  predicate IsFraction(entryType: nat) { entryType == 5 || entryType == 10 }

  function Count(r: Record): nat
    requires r.Values?
  {
    if IsFraction(r.entryType) then |r.numbers| / 2 else |r.numbers|
  }

  predicate ValidRecord(r: Record)
    requires r.Values?
  {
    && r.tag < 0x10000 && r.entryType in {1, 2, 3, 4, 5, 7, 9, 10}
    && (IsFraction(r.entryType) ==> |r.numbers| % 2 == 0)
    && forall k :: 0 <= k < |r.numbers| ==> FitsIn(r.numbers[k], NumberWidth(r.entryType))
  }

  predicate FitsIn(v: nat, width: nat) { if width == 1 then v < 0x100 else if width == 2 then v < 0x10000 else v < UINT32 }

  predicate Valid(r: Record)
    decreases r, 0
  {
    match r
    case Values(_, _, _, _) => ValidRecord(r)
    case Sub(_, _, directory) => ValidDirectory(directory)
  }

  predicate ValidDirectory(d: Directory)
    decreases d, 1
  {
    forall i :: 0 <= i < |d.records| ==> Valid(d.records[i])
  }

  // ---------------------------------------------------------------------------
  // Its bytes

  function Bytes16(order: Order, v: nat): (b: seq<byte>)
    requires v < 0x10000
    ensures |b| == 2
  {
    if order.BigEndian? then [v / 0x100, v % 0x100] else [v % 0x100, v / 0x100]
  }

  function Bytes32(order: Order, v: nat): (b: seq<byte>)
    requires v < UINT32
    ensures |b| == 4
  {
    if order.BigEndian? then [v / 0x1000000, v / 0x10000 % 0x100, v / 0x100 % 0x100, v % 0x100]
    else [v % 0x100, v / 0x100 % 0x100, v / 0x10000 % 0x100, v / 0x1000000]
  }

  function NumberBytes(order: Order, v: nat, width: nat): (b: seq<byte>)
    requires FitsIn(v, width) && width in {1, 2, 4}
    ensures |b| == width
  {
    if width == 1 then [v] else if width == 2 then Bytes16(order, v) else Bytes32(order, v)
  }

  function NumbersBytes(order: Order, numbers: seq<nat>, width: nat): (b: seq<byte>)
    requires width in {1, 2, 4} && forall k :: 0 <= k < |numbers| ==> FitsIn(numbers[k], width)
    ensures |b| == width * |numbers|
  {
    if numbers == [] then [] else NumberBytes(order, numbers[0], width) + NumbersBytes(order, numbers[1..], width)
  }

  /** The tag of a record that holds a directory. */
  function TagOf(kind: Kind): nat {
    match kind
    case EXIF => 0x8769
    case GPS => 0x8825
    case INTEROPERABILITY => 0xA005
    case TIFF => 0
  }

  /** Which directories a directory may hold. */
  predicate MayHold(outer: Kind, inner: Kind) {
    (outer == TIFF && (inner == EXIF || inner == GPS)) || (outer == EXIF && inner == INTEROPERABILITY)
  }

  predicate At(buf: seq<byte>, i: nat, b: seq<byte>) { i + |b| <= |buf| && buf[i..i + |b|] == b }

  /** The record of values is written at `o`: tag, type and count, and then the data or
      the place where it is. */
  predicate ValuesAt(buf: seq<byte>, order: Order, o: nat, r: Record)
    requires r.Values?
  {
    && ValidRecord(r) && Count(r) < UINT32 && o + 12 <= |buf|
    && At(buf, o, Bytes16(order, r.tag) + Bytes16(order, r.entryType) + Bytes32(order, Count(r)))
    && var data := NumbersBytes(order, r.numbers, NumberWidth(r.entryType));
       if |data| <= 4 then o + 8 < 0x10000 && At(buf, o + 8, data)
       else r.place < 0x10000 && At(buf, o + 8, Bytes32(order, r.place)) && At(buf, r.place, data)
  }

  predicate RecordAt(buf: seq<byte>, order: Order, kind: Kind, o: nat, r: Record)
    decreases r, 0
  {
    match r
    case Values(tag, _, _, _) =>
      ValuesAt(buf, order, o, r) && forall inner :: MayHold(kind, inner) ==> tag != TagOf(inner)
    case Sub(inner, place, directory) =>
      && MayHold(kind, inner) && place < UINT32 && o + 12 <= |buf|
      && At(buf, o, Bytes16(order, TagOf(inner))) && At(buf, o + 8, Bytes32(order, place))
      && DirectoryAt(buf, order, inner, place, directory)
  }

  /** The directory is written at `at`: the number of records and the records. */
  predicate DirectoryAt(buf: seq<byte>, order: Order, kind: Kind, at: nat, d: Directory)
    decreases d, 1
  {
    && |d.records| <= 1000 && At(buf, at, Bytes16(order, |d.records|)) && at + 2 + 12 * |d.records| <= |buf|
    && forall i :: 0 <= i < |d.records| ==> RecordAt(buf, order, kind, at + 2 + 12 * i, d.records[i])
  }

  /** The whole file: mark, magic number, the place of IFD0, the directories, and behind
      the records of IFD0 the place of IFD1. */
  predicate FileAt(buf: seq<byte>, f: File) {
    && |buf| < UINT32
    && At(buf, 0, if f.order.BigEndian? then [0x4D, 0x4D, 0x00, 0x2A] else [0x49, 0x49, 0x2A, 0x00])
    && 0 < f.place0 < UINT32 && f.place1 < UINT32
    && At(buf, 4, Bytes32(f.order, f.place0)) && DirectoryAt(buf, f.order, TIFF, f.place0, f.ifd0)
    && At(buf, f.place0 + 2 + 12 * |f.ifd0.records|, Bytes32(f.order, f.place1))
    && (f.place1 != 0 ==> DirectoryAt(buf, f.order, TIFF, f.place1, f.ifd1))
  }

  // ---------------------------------------------------------------------------
  // What reading should give

  function Join(words: seq<string>, separator: string): string {
    if words == [] then "" else if |words| == 1 then words[0] else words[0] + separator + Join(words[1..], separator)
  }

  /** Two's complement for the signed types. */
  function NumberText(entryType: nat, v: nat): string
    requires v < UINT32
  {
    if entryType in {9, 10} && v >= 0x8000_0000 then "-" + Decimal(UINT32 - v) else Decimal(v)
  }

  function FractionTexts(entryType: nat, numbers: seq<nat>): seq<string>
    requires forall k :: 0 <= k < |numbers| ==> numbers[k] < UINT32
  {
    if |numbers| < 2 then []
    else [NumberText(entryType, numbers[0]) + "/" + NumberText(entryType, numbers[1])] + FractionTexts(entryType, numbers[2..])
  }

  function NumberTexts(entryType: nat, numbers: seq<nat>): seq<string>
    requires forall k :: 0 <= k < |numbers| ==> numbers[k] < UINT32
  {
    if numbers == [] then [] else [NumberText(entryType, numbers[0])] + NumberTexts(entryType, numbers[1..])
  }

  /** Fractions and signed numbers of any count, and single numbers of the other types
      except ASCII, are written as numbers. */
  predicate WrittenAsNumbers(r: Record)
    requires r.Values?
  {
    r.entryType in {5, 9, 10} || (r.entryType in {1, 3, 4, 7} && |r.numbers| == 1)
  }

  function TextOf(r: Record): string
    requires r.Values? && ValidRecord(r)
  {
    if IsFraction(r.entryType) then Join(FractionTexts(r.entryType, r.numbers), " ")
    else Join(NumberTexts(r.entryType, r.numbers), " ")
  }

  function DataPlace(o: nat, r: Record): nat
    requires r.Values?
  {
    if NumberWidth(r.entryType) * |r.numbers| <= 4 then o + 8 else r.place
  }

  /** The value of a record at `o`; the text of characters is given. */
  function Wanted(texts: map<nat, string>, ifd: IfdType, o: nat, r: Record): Entry
    requires r.Values? && ValidRecord(r)
  {
    Entry(ifd, r.tag, r.entryType, Count(r), DataPlace(o, r),
          if WrittenAsNumbers(r) then TextOf(r) else if o in texts then texts[o] else "")
  }

  /** A width or height of an image that is too large. */
  predicate TooLarge(e: Entry, r: Record)
    requires r.Values? && ValidRecord(r)
  {
    if WrittenAsNumbers(r) then r.numbers != [] && r.numbers[0] > 65535 else Oversized(e.text)
  }

  function WantedOfRecord(texts: map<nat, string>, ifd: IfdType, o: nat, r: Record): seq<Event>
    requires Valid(r)
    decreases r, 0
  {
    match r
    case Values(tag, _, _, _) =>
      var e := Wanted(texts, ifd, o, r);
      var size := ifd.kind == EXIF && (tag == 0xA002 || tag == 0xA003);
      if !Known(ifd.kind, tag) then []
      else if !WrittenAsNumbers(r) && o !in texts then [Escapes(e)]
      else if size && TooLarge(e, r) then [Rejected(e)]
      else [Met(e)]
    case Sub(inner, place, directory) => WantedOf(texts, ifd.(kind := inner), place, directory)
  }

  /** The tags whose values are reported. */
  predicate Known(kind: Kind, tag: nat) { ActionFor(kind, tag) == Value || ActionFor(kind, tag) == Dimension }

  function WantedOf(texts: map<nat, string>, ifd: IfdType, at: nat, d: Directory): seq<Event>
    requires ValidDirectory(d)
    decreases d, 2
  {
    WantedUpTo(texts, ifd, at, d, |d.records|)
  }

  function WantedUpTo(texts: map<nat, string>, ifd: IfdType, at: nat, d: Directory, n: nat): seq<Event>
    requires ValidDirectory(d) && n <= |d.records|
    decreases d, 1, n
  {
    if n == 0 then []
    else WantedUpTo(texts, ifd, at, d, n - 1) + WantedOfRecord(texts, ifd, at + 2 + 12 * (n - 1), d.records[n - 1])
  }

  function WantedOfFile(texts: map<nat, string>, f: File): seq<Event>
    requires ValidDirectory(f.ifd0) && ValidDirectory(f.ifd1)
  {
    WantedOf(texts, IfdType(0, TIFF), f.place0, f.ifd0)
    + if f.place1 == 0 then [] else WantedOf(texts, IfdType(1, TIFF), f.place1, f.ifd1)
  }

  // ---------------------------------------------------------------------------
  // Numbers are read back

  lemma Part(buf: seq<byte>, i: nat, a: seq<byte>, b: seq<byte>)
    requires At(buf, i, a + b)
    ensures At(buf, i, a) && At(buf, i + |a|, b)
  {
    var w := buf[i..i + |a + b|];
    assert w[..|a|] == a && w[|a|..] == b;
  }

  lemma ByteAt(buf: seq<byte>, i: nat, b: seq<byte>, k: nat)
    requires At(buf, i, b) && k < |b|
    ensures buf[i + k] == b[k]
  {
    assert buf[i..i + |b|][k] == buf[i + k];
  }

  lemma Read16(t: Tiff, i: nat, v: nat)
    requires v < 0x10000 && At(t.buf, i, Bytes16(t.order, v))
    ensures Get16u(t, i) == Some(v)
  {
    var b := Bytes16(t.order, v);
    ByteAt(t.buf, i, b, 0);
    ByteAt(t.buf, i, b, 1);
  }

  lemma Halves(order: Order, v: nat)
    requires v < UINT32
    ensures Bytes32(order, v) == if order.BigEndian? then Bytes16(order, v / 0x10000) + Bytes16(order, v % 0x10000)
                                 else Bytes16(order, v % 0x10000) + Bytes16(order, v / 0x10000)
  {
    Quarters(v);
    var hi, lo := Bytes16(order, v / 0x10000), Bytes16(order, v % 0x10000);
    if order.BigEndian? {
      assert hi + lo == [hi[0], hi[1], lo[0], lo[1]];
    } else {
      assert lo + hi == [lo[0], lo[1], hi[0], hi[1]];
    }
  }

  lemma Quarters(v: nat)
    ensures v / 0x10000 / 0x100 == v / 0x1000000
    ensures v % 0x10000 / 0x100 == v / 0x100 % 0x100 && v % 0x10000 % 0x100 == v % 0x100
  {
    var a, l := v / 0x100, v % 0x100;
    var h, m := a / 0x100, a % 0x100;
    var k, n := h / 0x100, h % 0x100;
    Parts(0x10000, h, 0x100 * m + l);
    Parts(0x100, m, l);
    Parts(0x1000000, k, 0x10000 * n + (0x100 * m + l));
  }

  lemma Parts(d: nat, q: nat, r: nat)
    requires r < d
    ensures (d * q + r) / d == q && (d * q + r) % d == r
  {
    var e := (d * q + r) / d - q;
    assert d * e == r - (d * q + r) % d;
  }

  lemma Read32(t: Tiff, i: nat, v: nat)
    requires v < UINT32 && At(t.buf, i, Bytes32(t.order, v))
    ensures Get32u(t, i) == Some(v)
  {
    hide Get16u, Bytes16, Bytes32, At;
    Halves(t.order, v);
    var hi, lo := v / 0x10000, v % 0x10000;
    var a, b := if t.order.BigEndian? then hi else lo, if t.order.BigEndian? then lo else hi;
    Part(t.buf, i, Bytes16(t.order, a), Bytes16(t.order, b));
    Read16(t, i, a);
    Read16(t, i + 2, b);
  }

  lemma {:induction false} NumberIsAt(buf: seq<byte>, order: Order, p: nat, numbers: seq<nat>, width: nat, k: nat)
    requires width in {1, 2, 4} && (forall j :: 0 <= j < |numbers| ==> FitsIn(numbers[j], width)) && k < |numbers|
    requires At(buf, p, NumbersBytes(order, numbers, width))
    ensures At(buf, p + width * k, NumberBytes(order, numbers[k], width))
    decreases k
  {
    hide At, NumberBytes;
    Part(buf, p, NumberBytes(order, numbers[0], width), NumbersBytes(order, numbers[1..], width));
    if k > 0 {
      NumberIsAt(buf, order, p + width, numbers[1..], width, k - 1);
      assert p + width + width * (k - 1) == p + width * k;
    }
  }

  /** The numbers that are written at `p`, as the readers see them. */
  predicate NumbersAt(t: Tiff, p: nat, numbers: seq<nat>, width: nat)
    requires width in {1, 2, 4}
  {
    forall k :: 0 <= k < |numbers| ==> Seen(t, p, numbers[k], width, k)
  }

  predicate Seen(t: Tiff, p: nat, v: nat, width: nat, k: nat) {
    (if width == 1 then Get8u(t, p + k) else if width == 2 then Get16u(t, p + 2 * k) else Get32u(t, p + 4 * k)) == Some(v)
  }

  lemma ReadNumbers(t: Tiff, p: nat, numbers: seq<nat>, width: nat)
    requires width in {1, 2, 4} && (forall j :: 0 <= j < |numbers| ==> FitsIn(numbers[j], width))
    requires At(t.buf, p, NumbersBytes(t.order, numbers, width))
    ensures NumbersAt(t, p, numbers, width)
  {
    hide *;
    forall k | 0 <= k < |numbers| ensures Seen(t, p, numbers[k], width, k) {
      NumberIsAt(t.buf, t.order, p, numbers, width, k);
      ReadNumber(t, p, numbers[k], width, k);
    }
    assert NumbersAt(t, p, numbers, width) by { ShowNumbers(t, p, numbers, width); }
  }

  lemma ShowNumbers(t: Tiff, p: nat, numbers: seq<nat>, width: nat)
    requires width in {1, 2, 4} && forall k :: 0 <= k < |numbers| ==> Seen(t, p, numbers[k], width, k)
    ensures NumbersAt(t, p, numbers, width)
  {
  }

  lemma ReadNumber(t: Tiff, p: nat, v: nat, width: nat, k: nat)
    requires width in {1, 2, 4} && FitsIn(v, width) && At(t.buf, p + width * k, NumberBytes(t.order, v, width))
    ensures Seen(t, p, v, width, k)
  {
    hide Bytes16, Bytes32, Get16u, Get32u;
    if width == 1 { ByteAt(t.buf, p + k, [v], 0); }
    else if width == 2 { Read16(t, p + 2 * k, v); }
    else { Read32(t, p + 4 * k, v); }
  }

  lemma TextIsNumber(entryType: nat, v: nat)
    requires v < UINT32
    ensures Number(v, entryType in {9, 10}) == NumberText(entryType, v)
  {
  }

  lemma {:induction false} LongsRead(t: Tiff, p: nat, numbers: seq<nat>, i: nat)
    requires i <= |numbers| && NumbersAt(t, p, numbers, 4) && forall j :: 0 <= j < |numbers| ==> numbers[j] < UINT32
    ensures Longs(t, p, i, |numbers|) == Join(NumberTexts(9, numbers[i..]), " ")
    decreases |numbers| - i
  {
    if i < |numbers| {
      LongsRead(t, p, numbers, i + 1);
      hide Get32u, Number, NumberText;
      TextIsNumber(9, numbers[i]);
      var rest := NumberTexts(9, numbers[i + 1..]);
      assert Get32u(t, p + 4 * i) == Some(numbers[i]);
      assert numbers[i..][0] == numbers[i] && numbers[i..][1..] == numbers[i + 1..];
      JoinCons(NumberText(9, numbers[i]), rest);
      TextsLength(9, numbers[i + 1..]);
    }
  }

  lemma {:induction false} TextsLength(entryType: nat, numbers: seq<nat>)
    requires forall k :: 0 <= k < |numbers| ==> numbers[k] < UINT32
    ensures |NumberTexts(entryType, numbers)| == |numbers|
    ensures |FractionTexts(entryType, numbers)| == |numbers| / 2
  {
    if |numbers| >= 1 { TextsLength(entryType, numbers[1..]); }
    if |numbers| >= 2 { TextsLength(entryType, numbers[2..]); }
  }

  lemma JoinCons(w: string, rest: seq<string>)
    ensures Join([w] + rest, " ") == w + (if rest != [] then " " else "") + Join(rest, " ")
  {
    assert ([w] + rest)[1..] == rest;
  }

  lemma OneFraction(t: Tiff, p: nat, i: nat, count: nat, entryType: nat, n: nat, d: nat)
    requires IsFraction(entryType) && i < count && n < UINT32 && d < UINT32
    requires Get32u(t, p + 8 * i) == Some(n) && Get32u(t, p + 8 * i + 4) == Some(d)
    ensures Rationals(t, p, i, count, entryType == 10)
         == (NumberText(entryType, n) + "/" + NumberText(entryType, d)) + (if i + 1 < count then " " else "")
            + Rationals(t, p, i + 1, count, entryType == 10)
  {
    hide Get32u, Number, NumberText;
    TextIsNumber(entryType, n);
    TextIsNumber(entryType, d);
  }

  lemma FractionsCons(entryType: nat, numbers: seq<nat>, i: nat)
    requires i + 2 <= |numbers| && forall j :: 0 <= j < |numbers| ==> numbers[j] < UINT32
    ensures FractionTexts(entryType, numbers[i..])
         == [NumberText(entryType, numbers[i]) + "/" + NumberText(entryType, numbers[i + 1])] + FractionTexts(entryType, numbers[i + 2..])
  {
    hide NumberText;
    assert numbers[i..][2..] == numbers[i + 2..];
  }

  lemma NoFractions(t: Tiff, p: nat, count: nat, entryType: nat)
    ensures Rationals(t, p, count, count, entryType == 10) == "" == Join(FractionTexts(entryType, []), " ")
  {
  }

  lemma LongIsAt(t: Tiff, p: nat, numbers: seq<nat>, k: nat)
    requires k < |numbers| && NumbersAt(t, p, numbers, 4)
    ensures Get32u(t, p + 4 * k) == Some(numbers[k])
  {
  }

  lemma {:induction false} RationalsRead(t: Tiff, p: nat, numbers: seq<nat>, entryType: nat, i: nat)
    requires IsFraction(entryType) && |numbers| % 2 == 0 && 2 * i <= |numbers|
    requires NumbersAt(t, p, numbers, 4) && forall j :: 0 <= j < |numbers| ==> numbers[j] < UINT32
    ensures Rationals(t, p, i, |numbers| / 2, entryType == 10) == Join(FractionTexts(entryType, numbers[2 * i..]), " ")
    decreases |numbers| - 2 * i
  {
    hide *;
    var count := |numbers| / 2;
    if 2 * i == |numbers| {
      NoFractions(t, p, count, entryType);
      assert numbers[2 * i..] == [];
    } else {
      var n, d := numbers[2 * i], numbers[2 * i + 1];
      RationalsRead(t, p, numbers, entryType, i + 1);
      LongIsAt(t, p, numbers, 2 * i);
      LongIsAt(t, p, numbers, 2 * i + 1);
      OneFraction(t, p, i, count, entryType, n, d);
      FractionsCons(entryType, numbers, 2 * i);
      TextsLength(entryType, numbers[2 * (i + 1)..]);
      JoinCons(NumberText(entryType, n) + "/" + NumberText(entryType, d), FractionTexts(entryType, numbers[2 * (i + 1)..]));
    }
  }

  // ---------------------------------------------------------------------------
  // Records are read back

  lemma ReadFields(t: Tiff, o: nat, r: Record)
    requires r.Values? && ValuesAt(t.buf, t.order, o, r)
    ensures GetEntryTag(t, o) == r.tag && GetEntryType(t, o) == r.entryType && GetEntryCount(t, o) == Count(r)
  {
    hide Bytes16, Bytes32, At, Get16u, Get32u, NumbersBytes;
    var tag, entryType, count := Bytes16(t.order, r.tag), Bytes16(t.order, r.entryType), Bytes32(t.order, Count(r));
    Part(t.buf, o, tag + entryType, count);
    Part(t.buf, o, tag, entryType);
    Read16(t, o, r.tag);
    Read16(t, o + 2, r.entryType);
    Read32(t, o + 4, Count(r));
  }

  /** The data is looked for where it is. */
  lemma ReadPlace(t: Tiff, o: nat, r: Record)
    requires r.Values? && ValuesAt(t.buf, t.order, o, r) && |t.buf| < UINT32
    ensures GetDataOffset(t, o) == DataPlace(o, r)
    ensures At(t.buf, DataPlace(o, r), NumbersBytes(t.order, r.numbers, NumberWidth(r.entryType)))
  {
    hide Bytes16, Bytes32, Get16u, Get32u, GetEntryType, GetEntryCount, ByteWidth, NumberWidth, NumbersBytes, GetDataOffset, ValidRecord;
    ReadFields(t, o, r);
    SizeOfData(r);
    PlaceOfData(t, o);
    if NumberWidth(r.entryType) * |r.numbers| > 4 { Read32(t, o + 8, r.place); }
  }

  lemma SizeOfData(r: Record)
    requires r.Values? && ValidRecord(r)
    ensures Count(r) * ByteWidth(r.entryType) == NumberWidth(r.entryType) * |r.numbers| && ByteWidth(r.entryType) != 0
  {
  }

  lemma PlaceOfData(t: Tiff, o: nat)
    requires ByteWidth(GetEntryType(t, o)) != 0 && GetEntryCount(t, o) * ByteWidth(GetEntryType(t, o)) < UINT32
    ensures GetDataOffset(t, o) == (if GetEntryCount(t, o) * ByteWidth(GetEntryType(t, o)) <= 4 then o + 8 else Or(Get32u(t, o + 8), o + 12)) % 0x10000
  {
    hide GetEntryType, GetEntryCount, ByteWidth, Get32u;
  }

  lemma ReadText(t: Tiff, o: nat, r: Record)
    requires r.Values? && ValuesAt(t.buf, t.order, o, r) && |t.buf| < UINT32
    ensures ValueText(t, o) == if WrittenAsNumbers(r) then Some(TextOf(r)) else LibraryText(t, o)
  {
    ReadFields(t, o, r);
    ReadPlace(t, o, r);
    hide Bytes16, Bytes32, GetEntryType, GetEntryCount, GetDataOffset, NumberText, Decimal, NumbersBytes, Rationals, Longs, Get16u, Get32u, ValuesAt;
    var p := DataPlace(o, r);
    ReadNumbers(t, p, r.numbers, NumberWidth(r.entryType));
    if IsFraction(r.entryType) {
      RationalsRead(t, p, r.numbers, r.entryType, 0);
      assert r.numbers[2 * 0..] == r.numbers;
    } else if r.entryType == 9 {
      LongsRead(t, p, r.numbers, 0);
      assert r.numbers[0..] == r.numbers;
    } else if WrittenAsNumbers(r) {
      OneNumber(r);
    }
  }

  lemma OneNumber(r: Record)
    requires r.Values? && ValidRecord(r) && |r.numbers| == 1 && r.entryType in {1, 3, 4, 7}
    ensures TextOf(r) == Decimal(r.numbers[0])
  {
    hide Decimal;
    assert NumberTexts(r.entryType, r.numbers) == [NumberText(r.entryType, r.numbers[0])];
  }

  lemma ReadEntry(t: Tiff, ifd: IfdType, o: nat, r: Record)
    requires r.Values? && ValuesAt(t.buf, t.order, o, r) && |t.buf| < UINT32
    ensures EntryAt(t, ifd, o) == Wanted(t.texts, ifd, o, r)
  {
    hide GetEntryTag, GetEntryType, GetEntryCount, GetDataOffset, ValueText, ValuesAt, TextOf, WrittenAsNumbers;
    ReadFields(t, o, r);
    ReadPlace(t, o, r);
    ReadText(t, o, r);
  }

  /** The size of an image that the text gives is the number that was written. */
  lemma ReadSize(t: Tiff, o: nat, r: Record)
    requires r.Values? && ValuesAt(t.buf, t.order, o, r) && |t.buf| < UINT32 && WrittenAsNumbers(r)
    ensures Oversized(TextOf(r)) <==> r.numbers != [] && r.numbers[0] > 65535
  {
    hide GetDataOffset, Get16u, Get32u, NumbersBytes, TextOf, ValueText, Atol;
    ReadFields(t, o, r);
    ReadPlace(t, o, r);
    ReadText(t, o, r);
    var p := DataPlace(o, r);
    ReadNumbers(t, p, r.numbers, NumberWidth(r.entryType));
    SizeOfNumeric(t, o);
    if r.numbers != [] { FirstIsAt(t, p, r.numbers, NumberWidth(r.entryType)); }
    hide GetEntryType, GetEntryCount, ValuesAt;
  }

  lemma FirstIsAt(t: Tiff, p: nat, numbers: seq<nat>, width: nat)
    requires width in {1, 2, 4} && numbers != [] && NumbersAt(t, p, numbers, width)
    ensures (if width == 1 then Get8u(t, p) else if width == 2 then Get16u(t, p) else Get32u(t, p)) == Some(numbers[0])
  {
    assert p + 2 * 0 == p;
  }

  lemma ReadValues(t: Tiff, ifd: IfdType, o: nat, r: Record)
    requires r.Values? && RecordAt(t.buf, t.order, ifd.kind, o, r) && |t.buf| < UINT32
    ensures Valid(r) && WalkEntry(t, ifd, o) == WantedOfRecord(t.texts, ifd, o, r)
  {
    hide GetEntryTag, EntryAt, ValueText, Wanted, TextOf, WrittenAsNumbers, Oversized, WalkIfd, GetIfdOffset, ActionFor;
    ReadFields(t, o, r);
    ReadText(t, o, r);
    ReadEntry(t, ifd, o, r);
    if WrittenAsNumbers(r) {
      WantedText(t.texts, ifd, o, r);
      ReadSize(t, o, r);
    }
    ActionsKnown(ifd.kind, r.tag);
  }

  lemma WantedText(texts: map<nat, string>, ifd: IfdType, o: nat, r: Record)
    requires r.Values? && ValidRecord(r) && WrittenAsNumbers(r)
    ensures Wanted(texts, ifd, o, r).text == TextOf(r)
  {
  }

  /** Tags of values: reported, but for the size of an image with a check, or ignored. */
  lemma ActionsKnown(kind: Kind, tag: nat)
    requires forall inner :: MayHold(kind, inner) ==> tag != TagOf(inner)
    ensures !ActionFor(kind, tag).Pointer? && (Known(kind, tag) <==> !ActionFor(kind, tag).Ignore?)
    ensures ActionFor(kind, tag).Dimension? <==> kind == EXIF && (tag == 0xA002 || tag == 0xA003)
  {
    assert MayHold(kind, EXIF) ==> tag != TagOf(EXIF);
    assert MayHold(kind, GPS) ==> tag != TagOf(GPS);
    assert MayHold(kind, INTEROPERABILITY) ==> tag != TagOf(INTEROPERABILITY);
  }

  /** Walking a directory that was written gives its values, those of the directories in
      it included, in the order of the records. */
  lemma {:induction false} ReadDirectory(t: Tiff, ifd: IfdType, at: nat, d: Directory)
    requires DirectoryAt(t.buf, t.order, ifd.kind, at, d) && |t.buf| < UINT32
    ensures ValidDirectory(d) && WalkIfd(t, ifd, at) == WantedOf(t.texts, ifd, at, d)
    decreases d, 2
  {
    hide WalkEntry, RecordAt, WantedOfRecord, Get16u, Valid;
    var n := |d.records|;
    forall i | 0 <= i < n ensures Valid(d.records[i]) { ReadRecord(t, ifd, at + 2 + 12 * i, d.records[i]); }
    Read16(t, at, n);
    ReadRecords(t, ifd, at, d, 0);
    assert [] + WalkEntries(t, ifd, at, 0, n) == WalkEntries(t, ifd, at, 0, n);
  }

  lemma {:induction false} ReadRecords(t: Tiff, ifd: IfdType, at: nat, d: Directory, i: nat)
    requires DirectoryAt(t.buf, t.order, ifd.kind, at, d) && |t.buf| < UINT32 && ValidDirectory(d) && i <= |d.records|
    ensures WantedUpTo(t.texts, ifd, at, d, i) + WalkEntries(t, ifd, at, i, |d.records|) == WantedOf(t.texts, ifd, at, d)
    decreases d, 1, |d.records| - i
  {
    hide *;
    var n := |d.records|;
    WantedStep(t.texts, ifd, at, d, i);
    if i < n {
      var o := at + 2 + 12 * i;
      RecordOf(t, ifd.kind, at, d, i);
      ReadRecord(t, ifd, o, d.records[i]);
      ReadRecords(t, ifd, at, d, i + 1);
      NextEntry(t, ifd, at, i, n);
      Assoc(WantedUpTo(t.texts, ifd, at, d, i), WalkEntry(t, ifd, o), WalkEntries(t, ifd, at, i + 1, n));
    } else {
      WalkedAll(t, ifd, at, n, WantedOf(t.texts, ifd, at, d));
    }
  }

  lemma WantedStep(texts: map<nat, string>, ifd: IfdType, at: nat, d: Directory, i: nat)
    requires ValidDirectory(d) && i <= |d.records|
    ensures WantedUpTo(texts, ifd, at, d, |d.records|) == WantedOf(texts, ifd, at, d)
    ensures i < |d.records| ==>
              Valid(d.records[i]) &&
              WantedUpTo(texts, ifd, at, d, i + 1) == WantedUpTo(texts, ifd, at, d, i) + WantedOfRecord(texts, ifd, at + 2 + 12 * i, d.records[i])
  {
    hide WantedOfRecord;
  }

  lemma RecordOf(t: Tiff, kind: Kind, at: nat, d: Directory, i: nat)
    requires DirectoryAt(t.buf, t.order, kind, at, d) && |t.buf| < UINT32 && i < |d.records|
    ensures RecordAt(t.buf, t.order, kind, at + 2 + 12 * i, d.records[i])
    ensures EntryOffset(at, i) == at + 2 + 12 * i && (EntryOffset(at, i) + 12) % UINT32 <= |t.buf|
  {
    hide RecordAt;
    Inside(t.buf, t.order, kind, at + 2 + 12 * i, d.records[i]);
  }

  lemma Inside(buf: seq<byte>, order: Order, kind: Kind, o: nat, r: Record)
    requires RecordAt(buf, order, kind, o, r)
    ensures o + 12 <= |buf|
  {
    hide DirectoryAt;
  }

  lemma {:induction false} ReadRecord(t: Tiff, ifd: IfdType, o: nat, r: Record)
    requires RecordAt(t.buf, t.order, ifd.kind, o, r) && |t.buf| < UINT32
    ensures Valid(r) && WalkEntry(t, ifd, o) == WantedOfRecord(t.texts, ifd, o, r)
    decreases r, 0
  {
    match r
    case Values(_, _, _, _) =>
      ReadValues(t, ifd, o, r);
    case Sub(inner, place, directory) =>
      ReadDirectory(t, ifd.(kind := inner), place, directory);
      ReadSub(t, ifd, o, r);
  }

  lemma ReadSub(t: Tiff, ifd: IfdType, o: nat, r: Record)
    requires r.Sub? && RecordAt(t.buf, t.order, ifd.kind, o, r)
    ensures WalkEntry(t, ifd, o) == WalkIfd(t, ifd.(kind := r.kind), r.place)
  {
    hide Get16u, Get32u, WalkIfd, WantedOf, DirectoryAt, At, Bytes16, Bytes32;
    Read16(t, o, TagOf(r.kind));
    Read32(t, o + 8, r.place);
  }

  /** Whatever the byte order and wherever the parts are: reading meets the values that
      the file says, and nothing else. */
  lemma ReadFile(buf: seq<byte>, texts: map<nat, string>, f: File)
    requires FileAt(buf, f) && ValidDirectory(f.ifd1)
    ensures ValidDirectory(f.ifd0) && GetTiffByteOrder(buf) == f.order
    ensures WalkTiff(Tiff(buf, GetTiffByteOrder(buf), texts)) == WantedOfFile(texts, f)
  {
    hide WalkIfd, WantedOf, DirectoryAt, Get16u, Get32u, Bytes32, ValidDirectory;
    MarkSaysOrder(buf, f.order);
    var t := Tiff(buf, f.order, texts);
    Read32(t, 4, f.place0);
    ReadDirectory(t, IfdType(0, TIFF), f.place0, f.ifd0);
    ReadCount(t, f.place0, f.ifd0);
    Read32(t, f.place0 + 2 + 12 * |f.ifd0.records|, f.place1);
    if f.place1 != 0 { ReadDirectory(t, IfdType(1, TIFF), f.place1, f.ifd1); }
  }

  /** A file that ends before it says where IFD1 is has no IFD1. */
  lemma ReadFirstOnly(buf: seq<byte>, texts: map<nat, string>, order: Order, place: nat, d: Directory)
    requires |buf| < UINT32 && 0 < place < UINT32 && At(buf, 4, Bytes32(order, place)) && DirectoryAt(buf, order, TIFF, place, d)
    requires |buf| < place + 6 + 12 * |d.records|
    ensures ValidDirectory(d) && WalkTiff(Tiff(buf, order, texts)) == WantedOf(texts, IfdType(0, TIFF), place, d)
  {
    hide WalkIfd, WantedOf, RecordAt, Get16u, Bytes32, ValidDirectory;
    var t := Tiff(buf, order, texts);
    Read32(t, 4, place);
    ReadDirectory(t, IfdType(0, TIFF), place, d);
    ReadCount(t, place, d);
    assert WalkIfd(t, IfdType(0, TIFF), place) + [] == WalkIfd(t, IfdType(0, TIFF), place);
  }

  /** A directory outside the buffer is empty, and so is a file of fewer than eight bytes. */
  lemma ReadOutside(t: Tiff, ifd: IfdType, at: nat)
    ensures at + 2 > |t.buf| ==> WalkIfd(t, ifd, at) == []
    ensures |t.buf| < 8 ==> WalkTiff(t) == []
  {
    hide Get32u, GetNextIfdOffset;
  }

  /** Data of an unknown type counts as bytes and is looked for at the start of the buffer. */
  lemma ReadUnknown(t: Tiff, ifd: IfdType, o: nat)
    requires GetEntryType(t, o) !in {1, 2, 3, 4, 5, 7, 9, 10}
    ensures EntryAt(t, ifd, o).Size() == GetEntryCount(t, o) && GetDataOffset(t, o) == 0
    ensures GetEntryCount(t, o) == 1 && t.buf != [] ==> ValueText(t, o) == Some(Decimal(t.buf[0]))
  {
    hide GetEntryCount, GetEntryType, Decimal;
  }

  /** Every byte of the data is charged, and nothing else. */
  lemma WantedSize(texts: map<nat, string>, ifd: IfdType, o: nat, order: Order, r: Record)
    requires r.Values? && ValidRecord(r)
    ensures Wanted(texts, ifd, o, r).Size() == |NumbersBytes(order, r.numbers, NumberWidth(r.entryType))|
  {
    hide WrittenAsNumbers, TextOf;
    SizeOfData(r);
  }

  lemma ReadCount(t: Tiff, at: nat, d: Directory)
    requires DirectoryAt(t.buf, t.order, TIFF, at, d)
    ensures GetNumEntries(t, at) == |d.records|
  {
    hide RecordAt;
    Read16(t, at, |d.records|);
  }

  lemma MarkSaysOrder(buf: seq<byte>, order: Order)
    requires At(buf, 0, if order.BigEndian? then [0x4D, 0x4D, 0x00, 0x2A] else [0x49, 0x49, 0x2A, 0x00])
    ensures GetTiffByteOrder(buf) == order && (INTEL <= buf || MOTOROLA <= buf) && |buf| >= 4
  {
    assert buf[0..4] == buf[..4] && buf[0] == buf[0..4][0];
  }

  /** If all of the values can be read and fit the budget, they are what is reported, and
      reading succeeds. */
  lemma ReadAll(buf: seq<byte>, texts: map<nat, string>, f: File)
    requires FileAt(buf, f) && ValidDirectory(f.ifd0) && ValidDirectory(f.ifd1)
    requires forall ev :: ev in WantedOfFile(texts, f) ==> ev.Met?
    requires Total(Readable(WantedOfFile(texts, f))) < OPT_MAX_EXIF_BYTES
    ensures var g := Glean(WalkTiff(Tiff(buf, GetTiffByteOrder(buf), texts)), 0);
            && g.how == Done && |g.entries| == |WantedOfFile(texts, f)|
            && forall i :: 0 <= i < |g.entries| ==> WantedOfFile(texts, f)[i] == Met(g.entries[i])
  {
    hide FileAt, WalkTiff, WantedOfFile, Readable, Glean, ValidDirectory;
    ReadFile(buf, texts, f);
    var evs := WantedOfFile(texts, f);
    SuccessIff(evs, 0);
    GleanedIsWhatFits(evs, 0);
    AllReadable(evs);
    ReadableAre(evs);
  }

  lemma {:induction false} ReadableAre(evs: seq<Event>)
    ensures forall i :: 0 <= i < |Readable(evs)| ==> evs[i] == Met(Readable(evs)[i])
    decreases |evs|
  {
    if evs != [] && evs[0].Met? {
      ReadableAre(evs[1..]);
      assert forall i :: 0 < i < |Readable(evs)| ==> Readable(evs)[i] == Readable(evs[1..])[i - 1] && evs[i] == evs[1..][i - 1];
    }
  }

  // ---------------------------------------------------------------------------
  // The tags of Exif 2.3

  /** Section 4.6.4: tags relating to image data structure, to recording offset, to
      image data characteristics, and others. */
  predicate TiffAttribute(tag: nat) {
    || tag in {0x100, 0x101, 0x102, 0x103, 0x106, 0x112, 0x115, 0x11C, 0x212, 0x213, 0x11A, 0x11B, 0x128}
    || tag in {0x111, 0x116, 0x117, 0x201, 0x202}
    || tag in {0x12D, 0x13E, 0x13F, 0x211, 0x214}
    || tag in {0x132, 0x10E, 0x10F, 0x110, 0x131, 0x13B, 0x8298}
  }

  /** Section 4.6.5: version, characteristics and configuration, user information, related
      file and date, picture-taking conditions (in two halves), and others. */
  predicate ExifAttribute(tag: nat) {
    || tag in {0x9000, 0xA000, 0xA001, 0xA500, 0x9101, 0x9102, 0xA002, 0xA003}
    || tag in {0x927C, 0x9286, 0xA004, 0x9003, 0x9004, 0x9290, 0x9291, 0x9292}
    || tag in {0x829A, 0x829D, 0x8822, 0x8824, 0x8827, 0x8828, 0x8830, 0x8831, 0x8832, 0x8833, 0x8834, 0x8835}
    || tag in {0x9201, 0x9202, 0x9203, 0x9204, 0x9205, 0x9206, 0x9207, 0x9208, 0x9209, 0x920A, 0x9214}
    || tag in {0xA20B, 0xA20C, 0xA20E, 0xA20F, 0xA210, 0xA214, 0xA215, 0xA217, 0xA300, 0xA301, 0xA302}
    || tag in {0xA401, 0xA402, 0xA403, 0xA404, 0xA405, 0xA406, 0xA407, 0xA408, 0xA409, 0xA40A, 0xA40B, 0xA40C}
    || tag in {0xA420, 0xA430, 0xA431, 0xA432, 0xA433, 0xA434, 0xA435}
  }

  /** Reported are all the standard's attributes but two: ImageLength (0x101), which the
      code does not know, and MakerNote (0x927C), which it skips; of GPS the tags up to
      0x1F, of interoperability the index. */
  lemma ReportedTags(tag: nat)
    ensures Known(TIFF, tag) <==> TiffAttribute(tag) && tag != 0x101
    ensures Known(EXIF, tag) <==> ExifAttribute(tag) && tag != 0x927C
    ensures Known(GPS, tag) <==> tag < 32
    ensures Known(INTEROPERABILITY, tag) <==> tag == 1
  {
    hide TiffAttribute, ExifAttribute, TiffTag, ExifTag;
    TiffTags(tag);
    ExifTags(tag);
  }

  lemma TiffTags(tag: nat)
    ensures TiffTag(tag) <==> TiffAttribute(tag) && tag != 0x101
    ensures TiffTag(tag) ==> tag != 0x8769 && tag != 0x8825
  {
  }

  lemma ExifTags(tag: nat)
    ensures ExifTag(tag) || tag == 0xA002 || tag == 0xA003 <==> ExifAttribute(tag) && tag != 0x927C
    ensures ExifTag(tag) ==> tag != 0xA005 && tag != 0xA002 && tag != 0xA003
  {
  }
}
