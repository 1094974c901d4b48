/** A writer of EXIF files: header, directories, data, byte by byte.  What it writes is
    read back. */
module ExifWriter {
  import opened Basics
  import opened ExifValues
  import opened Exif
  import opened ExifFiles

  /** What can be written: allowed directories of at most 1000 records, numbers that fit
      their types, no pointer tags but for directories. */
  predicate Writable(kind: Kind, d: Directory)
    decreases d, 1
  {
    |d.records| <= 1000 && AllWritable(kind, d.records)
  }

  predicate AllWritable(kind: Kind, rs: seq<Record>)
    decreases rs
  {
    forall i :: 0 <= i < |rs| ==> WritableRecord(kind, rs[i])
  }

  predicate WritableRecord(kind: Kind, r: Record)
    decreases r, 0
  {
    match r
    case Values(tag, _, _, _) =>
      ValidRecord(r) && Count(r) < UINT32 && forall inner :: MayHold(kind, inner) ==> tag != TagOf(inner)
    case Sub(inner, _, directory) =>
      MayHold(kind, inner) && Writable(inner, directory)
  }

  // ---------------------------------------------------------------------------
  // The layout

  /** How many bytes a record has behind its directory. */
  function Behind(r: Record): nat
    decreases r, 0
  {
    match r
    case Values(_, entryType, numbers, _) =>
      var n := NumberWidth(entryType) * |numbers|;
      if n <= 4 then 0 else n
    case Sub(_, _, directory) => SizeOf(directory)
  }

  function BehindAll(rs: seq<Record>): nat
    decreases rs
  {
    if rs == [] then 0 else Behind(rs[0]) + BehindAll(rs[1..])
  }

  function SizeOf(d: Directory): nat
    decreases d, 1
  {
    6 + 12 * |d.records| + BehindAll(d.records)
  }

  /** The parts are laid out one behind the other, the first at `p`. */
  predicate Packed(rs: seq<Record>, p: nat)
    decreases rs
  {
    rs == [] || (PackedOne(rs[0], p) && Packed(rs[1..], p + Behind(rs[0])))
  }

  predicate PackedOne(r: Record, p: nat)
    decreases r, 0
  {
    r.place == p && (r.Sub? ==> Packed(r.directory.records, p + 6 + 12 * |r.directory.records|))
  }

  function Pack(rs: seq<Record>, p: nat): seq<Record>
    decreases rs
  {
    if rs == [] then [] else [PackOne(rs[0], p)] + Pack(rs[1..], p + Behind(rs[0]))
  }

  function PackOne(r: Record, p: nat): Record
    decreases r, 0
  {
    match r
    case Values(tag, entryType, numbers, _) => Values(tag, entryType, numbers, p)
    case Sub(kind, _, directory) => Sub(kind, p, Directory(Pack(directory.records, p + 6 + 12 * |directory.records|)))
  }

  function PackFile(f: File): File {
    var place1 := if f.place1 == 0 then 0 else 8 + SizeOf(f.ifd0);
    File(f.order, 8, Directory(Pack(f.ifd0.records, 14 + 12 * |f.ifd0.records|)),
         place1, Directory(Pack(f.ifd1.records, place1 + 6 + 12 * |f.ifd1.records|)))
  }

  /** The same but for the places. */
  predicate SameValues(r: Record, u: Record)
    decreases r, 0
  {
    match r
    case Values(tag, entryType, numbers, _) => u.Values? && u.tag == tag && u.entryType == entryType && u.numbers == numbers
    case Sub(kind, _, directory) => u.Sub? && u.kind == kind && AllSameValues(directory.records, u.directory.records)
  }

  predicate AllSameValues(rs: seq<Record>, us: seq<Record>)
    decreases rs
  {
    |rs| == |us| && forall i :: 0 <= i < |rs| ==> SameValues(rs[i], us[i])
  }

  lemma {:induction false} PackIsPacked(kind: Kind, rs: seq<Record>, p: nat)
    requires AllWritable(kind, rs)
    ensures var us := Pack(rs, p);
            Packed(us, p) && AllSameValues(rs, us) && BehindAll(us) == BehindAll(rs) && AllWritable(kind, us)
    decreases rs
  {
    if rs != [] {
      var r, more := rs[0], rs[1..];
      PackOneIsPacked(kind, r, p);
      PackIsPacked(kind, more, p + Behind(r));
      var u, us := PackOne(r, p), Pack(more, p + Behind(r));
      assert ([u] + us)[1..] == us;
      hide PackedOne, PackOne, SameValues, Behind, WritableRecord;
    }
  }

  lemma {:induction false} PackOneIsPacked(kind: Kind, r: Record, p: nat)
    requires WritableRecord(kind, r)
    ensures var u := PackOne(r, p); PackedOne(u, p) && SameValues(r, u) && Behind(u) == Behind(r) && WritableRecord(kind, u)
    decreases r, 0
  {
    hide Pack, Packed, BehindAll, AllWritable, AllSameValues;
    match r
    case Values(_, _, _, _) =>
    case Sub(inner, _, directory) =>
      var n := |directory.records|;
      PackIsPacked(inner, directory.records, p + 6 + 12 * n);
      assert |Pack(directory.records, p + 6 + 12 * n)| == n by { SameLength(directory.records, Pack(directory.records, p + 6 + 12 * n)); }
  }

  lemma SameLength(rs: seq<Record>, us: seq<Record>)
    requires AllSameValues(rs, us)
    ensures |rs| == |us|
  {
  }

  // ---------------------------------------------------------------------------
  // The bytes

  /** The data of a record, padded, or the place where it is. */
  function FieldBytes(order: Order, r: Record): (b: seq<byte>)
    requires r.Values? && ValidRecord(r)
    ensures |b| == 4
  {
    var data := NumbersBytes(order, r.numbers, NumberWidth(r.entryType));
    if |data| <= 4 then data + seq(4 - |data|, _ => 0) else Bytes32(order, r.place % UINT32)
  }

  /** The twelve bytes of a record. */
  function RecordBytes(order: Order, kind: Kind, r: Record): (b: seq<byte>)
    requires WritableRecord(kind, r)
    ensures |b| == 12
  {
    match r
    case Values(tag, entryType, _, _) =>
      (Bytes16(order, tag) + Bytes16(order, entryType) + Bytes32(order, Count(r))) + FieldBytes(order, r)
    case Sub(inner, place, _) =>
      (Bytes16(order, TagOf(inner)) + (Bytes16(order, 4) + Bytes32(order, 1))) + Bytes32(order, place % UINT32)
  }

  function RecordsBytes(order: Order, kind: Kind, rs: seq<Record>): (b: seq<byte>)
    requires AllWritable(kind, rs)
    ensures |b| == 12 * |rs|
    decreases |rs|
  {
    if rs == [] then [] else RecordBytes(order, kind, rs[0]) + RecordsBytes(order, kind, rs[1..])
  }

  /** What a record has behind its directory: data or another directory. */
  function BehindBytes(order: Order, kind: Kind, r: Record): (b: seq<byte>)
    requires WritableRecord(kind, r)
    ensures |b| == Behind(r)
    decreases r, 0
  {
    match r
    case Values(_, entryType, numbers, _) =>
      if NumberWidth(entryType) * |numbers| <= 4 then [] else NumbersBytes(order, numbers, NumberWidth(entryType))
    case Sub(inner, _, directory) => DirectoryBytes(order, inner, directory, 0)
  }

  function BehindAllBytes(order: Order, kind: Kind, rs: seq<Record>): (b: seq<byte>)
    requires AllWritable(kind, rs)
    ensures |b| == BehindAll(rs)
    decreases rs
  {
    if rs == [] then [] else BehindBytes(order, kind, rs[0]) + BehindAllBytes(order, kind, rs[1..])
  }

  /** Number of records, records, the place of the next directory, and what is behind. */
  function DirectoryBytes(order: Order, kind: Kind, d: Directory, next: nat): (b: seq<byte>)
    requires Writable(kind, d) && next < UINT32
    ensures |b| == SizeOf(d)
    decreases d, 1
  {
    (Bytes16(order, |d.records|) + RecordsBytes(order, kind, d.records))
    + (Bytes32(order, next) + BehindAllBytes(order, kind, d.records))
  }

  function Mark(order: Order): seq<byte> { if order.BigEndian? then [0x4D, 0x4D, 0x00, 0x2A] else [0x49, 0x49, 0x2A, 0x00] }

  function FileBytes(f: File): seq<byte>
    requires Writable(TIFF, f.ifd0) && Writable(TIFF, f.ifd1) && f.place0 < UINT32 && f.place1 < UINT32
  {
    (Mark(f.order) + Bytes32(f.order, f.place0))
    + (DirectoryBytes(f.order, TIFF, f.ifd0, f.place1) + if f.place1 == 0 then [] else DirectoryBytes(f.order, TIFF, f.ifd1, 0))
  }

  // ---------------------------------------------------------------------------
  // What is written is there

  lemma ValuesWritten(buf: seq<byte>, order: Order, kind: Kind, o: nat, p: nat, r: Record)
    requires r.Values? && WritableRecord(kind, r) && PackedOne(r, p) && |buf| <= 0x10000
    requires At(buf, o, RecordBytes(order, kind, r)) && At(buf, p, BehindBytes(order, kind, r))
    ensures RecordAt(buf, order, kind, o, r)
  {
    hide Bytes16, Bytes32, NumbersBytes, At;
    var head := Bytes16(order, r.tag) + Bytes16(order, r.entryType) + Bytes32(order, Count(r));
    Part(buf, o, head, FieldBytes(order, r));
    InBuffer(buf, o, RecordBytes(order, kind, r));
    InBuffer(buf, p, BehindBytes(order, kind, r));
    var data := NumbersBytes(order, r.numbers, NumberWidth(r.entryType));
    if |data| <= 4 { Part(buf, o + 8, data, seq(4 - |data|, _ => 0)); }
  }

  lemma InBuffer(buf: seq<byte>, i: nat, b: seq<byte>)
    requires At(buf, i, b)
    ensures i + |b| <= |buf|
  {
  }

  lemma {:induction false} RecordWritten(buf: seq<byte>, order: Order, kind: Kind, o: nat, p: nat, r: Record)
    requires WritableRecord(kind, r) && PackedOne(r, p) && |buf| <= 0x10000
    requires At(buf, o, RecordBytes(order, kind, r)) && At(buf, p, BehindBytes(order, kind, r))
    ensures RecordAt(buf, order, kind, o, r)
    decreases r, 0
  {
    if r.Values? {
      ValuesWritten(buf, order, kind, o, p, r);
    } else {
      DirectoryWritten(buf, order, r.kind, p, r.directory, 0);
      SubWritten(buf, order, kind, o, p, r);
    }
  }

  lemma SubWritten(buf: seq<byte>, order: Order, kind: Kind, o: nat, p: nat, r: Record)
    requires r.Sub? && WritableRecord(kind, r) && PackedOne(r, p) && |buf| <= 0x10000 && DirectoryAt(buf, order, r.kind, p, r.directory)
    requires At(buf, o, RecordBytes(order, kind, r))
    ensures RecordAt(buf, order, kind, o, r)
  {
    hide Bytes16, Bytes32, At, DirectoryAt, Writable, Packed;
    var tag, more := Bytes16(order, TagOf(r.kind)), Bytes16(order, 4) + Bytes32(order, 1);
    assert p < UINT32 by { CountThere(buf, order, r.kind, p, r.directory); }
    Part(buf, o, tag + more, Bytes32(order, p));
    Part(buf, o, tag, more);
    InBuffer(buf, o, RecordBytes(order, kind, r));
  }

  lemma CountThere(buf: seq<byte>, order: Order, kind: Kind, at: nat, d: Directory)
    requires DirectoryAt(buf, order, kind, at, d)
    ensures at + 2 <= |buf|
  {
    hide RecordAt;
  }

  lemma {:induction false} RecordsWritten(buf: seq<byte>, order: Order, kind: Kind, o: nat, p: nat, rs: seq<Record>)
    requires AllWritable(kind, rs) && Packed(rs, p) && |buf| <= 0x10000
    requires At(buf, o, RecordsBytes(order, kind, rs)) && At(buf, p, BehindAllBytes(order, kind, rs))
    ensures forall i :: 0 <= i < |rs| ==> RecordAt(buf, order, kind, o + 12 * i, rs[i])
    decreases rs
  {
    hide At, RecordAt, RecordBytes, BehindBytes, PackedOne, Behind, WritableRecord;
    if rs != [] {
      var r, more := rs[0], rs[1..];
      Part(buf, o, RecordBytes(order, kind, r), RecordsBytes(order, kind, more));
      Part(buf, p, BehindBytes(order, kind, r), BehindAllBytes(order, kind, more));
      RecordWritten(buf, order, kind, o, p, r);
      RecordsWritten(buf, order, kind, o + 12, p + Behind(r), more);
      forall i | 0 <= i < |rs| ensures RecordAt(buf, order, kind, o + 12 * i, rs[i]) {
        if i > 0 { assert rs[i] == more[i - 1] && o + 12 + 12 * (i - 1) == o + 12 * i; }
      }
    }
  }

  lemma {:induction false} DirectoryWritten(buf: seq<byte>, order: Order, kind: Kind, at: nat, d: Directory, next: nat)
    requires Writable(kind, d) && next < UINT32 && Packed(d.records, at + 6 + 12 * |d.records|) && |buf| <= 0x10000
    requires At(buf, at, DirectoryBytes(order, kind, d, next))
    ensures DirectoryAt(buf, order, kind, at, d) && At(buf, at + 2 + 12 * |d.records|, Bytes32(order, next))
    decreases d, 1
  {
    hide At, RecordAt, Packed, RecordsBytes, BehindAllBytes, AllWritable, Bytes16, Bytes32;
    var rs, n := d.records, |d.records|;
    var count, records, then', behind := Bytes16(order, n), RecordsBytes(order, kind, rs), Bytes32(order, next), BehindAllBytes(order, kind, rs);
    Part(buf, at, count + records, then' + behind);
    Part(buf, at, count, records);
    Part(buf, at + 2 + 12 * n, then', behind);
    InBuffer(buf, at, count + records);
    RecordsWritten(buf, order, kind, at + 2, at + 6 + 12 * n, rs);
  }

  lemma {:induction false} WritableIsValid(kind: Kind, d: Directory)
    requires Writable(kind, d)
    ensures ValidDirectory(d)
    decreases d, 1
  {
    forall i | 0 <= i < |d.records| ensures Valid(d.records[i]) { WritableRecordIsValid(kind, d.records[i]); }
  }

  lemma {:induction false} WritableRecordIsValid(kind: Kind, r: Record)
    requires WritableRecord(kind, r)
    ensures Valid(r)
    decreases r, 0
  {
    hide ValidRecord;
    if r.Sub? { WritableIsValid(r.kind, r.directory); }
  }

  /** The parts of a file are where they should be. */
  predicate PackedFile(f: File) {
    && f.place0 == 8 && (f.place1 == 0 || f.place1 == 8 + SizeOf(f.ifd0))
    && Packed(f.ifd0.records, 14 + 12 * |f.ifd0.records|) && Packed(f.ifd1.records, f.place1 + 6 + 12 * |f.ifd1.records|)
  }

  predicate WritableFile(f: File) {
    Writable(TIFF, f.ifd0) && Writable(TIFF, f.ifd1) && 8 + SizeOf(f.ifd0) + SizeOf(f.ifd1) <= 0x10000
  }

  lemma FileWritten(f: File)
    requires WritableFile(f) && PackedFile(f)
    ensures FileAt(FileBytes(f), f)
  {
    hide Writable, DirectoryBytes, SizeOf, Packed, Bytes32, DirectoryAt;
    var buf := FileBytes(f);
    var first := DirectoryBytes(f.order, TIFF, f.ifd0, f.place1);
    var second := if f.place1 == 0 then [] else DirectoryBytes(f.order, TIFF, f.ifd1, 0);
    assert At(buf, 0, buf);
    Part(buf, 0, Mark(f.order) + Bytes32(f.order, f.place0), first + second);
    Part(buf, 0, Mark(f.order), Bytes32(f.order, f.place0));
    Part(buf, 8, first, second);
    hide At;
    DirectoryWritten(buf, f.order, TIFF, 8, f.ifd0, f.place1);
    if f.place1 != 0 { DirectoryWritten(buf, f.order, TIFF, f.place1, f.ifd1, 0); }
  }

  /** Laying out changes nothing but the places. */
  lemma PackingKeepsValues(f: File)
    requires WritableFile(f)
    ensures var g := PackFile(f);
            && PackedFile(g) && WritableFile(g) && g.order == f.order && (g.place1 == 0 <==> f.place1 == 0)
            && AllSameValues(f.ifd0.records, g.ifd0.records) && AllSameValues(f.ifd1.records, g.ifd1.records)
  {
    hide AllWritable, AllSameValues, Pack, Packed, BehindAll;
    var g := PackFile(f);
    PackIsPacked(TIFF, f.ifd0.records, 14 + 12 * |f.ifd0.records|);
    PackIsPacked(TIFF, f.ifd1.records, g.place1 + 6 + 12 * |f.ifd1.records|);
    SameLength(f.ifd0.records, g.ifd0.records);
    SameLength(f.ifd1.records, g.ifd1.records);
  }

  /** What is written is read: any directories, nested as they may be, in either byte
      order, in a file of up to 64K. */
  lemma WriteThenRead(f: File, texts: map<nat, string>)
    requires WritableFile(f) && PackedFile(f)
    ensures var buf := FileBytes(f);
            && (|buf| >= 4 ==> INTEL <= buf || MOTOROLA <= buf) && ValidDirectory(f.ifd0) && ValidDirectory(f.ifd1)
            && WalkTiff(Tiff(buf, GetTiffByteOrder(buf), texts)) == WantedOfFile(texts, f)
  {
    hide FileAt, WalkTiff, WantedOfFile, ValidDirectory, Writable, Packed;
    var buf := FileBytes(f);
    FileWritten(f);
    WritableIsValid(TIFF, f.ifd1);
    ReadFile(buf, texts, f);
    assert At(buf, 0, Mark(f.order));
    MarkSaysOrder(buf, f.order);
  }

  /** A Motorola file with nothing but an orientation. */
  const MOTOROLA_HEADER: seq<byte> := [0x4D, 0x4D, 0x00, 0x2A, 0x00, 0x00, 0x00, 0x08]

  const ORIENTATION_6: seq<byte> := [
    0x00, 0x01,
    0x01, 0x12, 0x00, 0x03, 0x00, 0x00, 0x00, 0x01, 0x00, 0x06, 0x00, 0x00,
    0x00, 0x00, 0x00, 0x00]

  lemma OrientationIsRead()
    ensures var buf := MOTOROLA_HEADER + ORIENTATION_6;
            Glean(WalkTiff(Tiff(buf, GetTiffByteOrder(buf), map[])), 0) ==
            Gleaned([Entry(IfdType(0, TIFF), 0x0112, 3, 1, 18, "6")], Done)
  {
    var r := Values(0x0112, 3, [6], 26);
    var f := File(BigEndian, 8, Directory([r]), 0, Directory([]));
    var e := Entry(IfdType(0, TIFF), 0x0112, 3, 1, 18, "6");
    assert FileBytes(f) == MOTOROLA_HEADER + ORIENTATION_6 by { OrientationBytes(f); }
    WriteThenRead(f, map[]);
    assert WantedOfFile(map[], f) == [Met(e)] by { OrientationWanted(f); }
    GleanOne(Met(e), 0);
  }

  lemma OrientationBytes(f: File)
    requires f == File(BigEndian, 8, Directory([Values(0x0112, 3, [6], 26)]), 0, Directory([]))
    ensures WritableFile(f) && PackedFile(f) && FileBytes(f) == MOTOROLA_HEADER + ORIENTATION_6
  {
    var r := f.ifd0.records[0];
    assert f.ifd0.records == [r] && [r][1..] == [];
    assert PackedFile(f) && WritableFile(f);
    hide PackedFile, WritableFile, Packed, DirectoryBytes;
    OrientationDirectory(f.ifd0, r);
    hide ORIENTATION_6, Writable;
    assert Mark(BigEndian) + Bytes32(BigEndian, 8) == MOTOROLA_HEADER;
    assert ORIENTATION_6 + [] == ORIENTATION_6;
  }

  lemma OrientationDirectory(d: Directory, r: Record)
    requires r == Values(0x0112, 3, [6], 26) && d == Directory([r])
    ensures Writable(TIFF, d)
    ensures DirectoryBytes(BigEndian, TIFF, d, 0) == ORIENTATION_6
  {
    OrientationRecord(r);
    assert [r][1..] == [];
    hide RecordBytes;
    assert RecordsBytes(BigEndian, TIFF, [r]) == RecordBytes(BigEndian, TIFF, r);
    assert BehindAllBytes(BigEndian, TIFF, [r]) == [];
    assert Bytes16(BigEndian, 1) == [0, 1] && Bytes32(BigEndian, 0) == [0, 0, 0, 0];
    hide *;
  }

  lemma OrientationRecord(r: Record)
    requires r == Values(0x0112, 3, [6], 26)
    ensures WritableRecord(TIFF, r) && RecordBytes(BigEndian, TIFF, r) == [0x01, 0x12, 0x00, 0x03, 0x00, 0x00, 0x00, 0x01, 0x00, 0x06, 0x00, 0x00]
  {
    assert [6][1..] == [];
    assert NumbersBytes(BigEndian, [6], 2) == [0, 6];
    assert FieldBytes(BigEndian, r) == [0, 6, 0, 0];
  }

  lemma OrientationWanted(f: File)
    requires f == File(BigEndian, 8, Directory([Values(0x0112, 3, [6], 26)]), 0, Directory([]))
    ensures WritableFile(f) && WantedOfFile(map[], f) == [Met(Entry(IfdType(0, TIFF), 0x0112, 3, 1, 18, "6"))]
  {
    var r := f.ifd0.records[0];
    OneNumber(r);
  }
}
