/** Which buffers the walk of module JpegValidator calls complete. */
module JpegFiles {
  import opened Basics
  import opened JpegValidator

  /** What may stand before the scan: SOI, a restart marker, or a segment whose
      length word counts itself and the payload. */
  datatype Item = Soi | Rst(m: byte) | Seg(m: byte, payload: seq<byte>)

  /** Items, then SOS: `header` is as many bytes as the length word at its start
      says, then the entropy-coded data and an end marker. */
  datatype File = File(items: seq<Item>, header: seq<byte>, entropy: seq<byte>, end: byte)

  predicate ValidItem(it: Item) {
    match it
    case Soi => true
    case Rst(m) => 0xD0 <= m <= 0xD7
    case Seg(m, payload) => !Standalone(m) && |payload| + 2 < 0x1_0000
  }

  function ItemBytes(it: Item): seq<byte>
    requires ValidItem(it)
  {
    match it
    case Soi => [0xFF, 0xD8]
    case Rst(m) => [0xFF, m]
    case Seg(m, payload) => [0xFF, m, (|payload| + 2) / 256, (|payload| + 2) % 256] + payload
  }

  predicate ValidItems(items: seq<Item>) { forall i :: 0 <= i < |items| ==> ValidItem(items[i]) }

  function ItemsBytes(items: seq<Item>): seq<byte>
    requires ValidItems(items)
    decreases |items|
  {
    if items == [] then [] else ItemBytes(items[0]) + ItemsBytes(items[1..])
  }

  /** What the items say about the image. */
  function NoteItem(r: Facts, it: Item): Facts {
    match it
    case Soi => r.(soi := true)
    case Rst(_) => r
    case Seg(m, payload) => Note(r, m, |payload| + 2, payload)
  }

  function NoteItems(r: Facts, items: seq<Item>): Facts
    decreases |items|
  {
    if items == [] then r else NoteItems(NoteItem(r, items[0]), items[1..])
  }

  /** Stuffed data: every FF is followed by 00 or by a marker that does not end it.
      The FF of the end marker follows the last byte. */
  predicate Stuffed(entropy: seq<byte>) {
    forall k :: 0 <= k < |entropy| && entropy[k] == 0xFF ==>
      k + 1 < |entropy| && Continues(entropy[k + 1])
  }

  predicate Continues(m: byte) { m == 0 || (0xC0 <= m <= 0xDF && m != 0xD9 && m != 0xDE) }

  function ScanBytes(f: File): seq<byte>
  {
    f.header + (f.entropy + [0xFF, f.end])
  }

  function FileBytes(f: File): seq<byte>
    requires ValidItems(f.items)
  {
    ItemsBytes(f.items) + ([0xFF, 0xDA] + ScanBytes(f))
  }

  /** SOI, JFIF, a table and a non-zero frame size seen, and no Exif. */
  predicate GoodImage(r: Facts) {
    r.soi && r.jfif && HasTable(r) && !r.e1 && r.width != 0 && r.height != 0
  }

  predicate ValidFile(f: File) {
    && ValidItems(f.items)
    && Be16(ScanBytes(f)[0], ScanBytes(f)[1]) == |f.header|
    && Stuffed(f.entropy) && (f.end == 0xD9 || f.end == 0xDE)
    && GoodImage(NoteItems(NOTHING, f.items))
  }

  // ---------------------------------------------------------------------------
  // Every such file is complete, whatever follows it

  lemma {:induction false} ScanToEnd(buf: seq<byte>, i: nat, entropy: seq<byte>, end: byte, rest: seq<byte>)
    requires i <= |buf| && buf[i..] == entropy + [0xFF, end] + rest && Stuffed(entropy) && (end == 0xD9 || end == 0xDE)
    ensures Scan(buf, i) == (Complete, i + |entropy| + 2)
    decreases |entropy|
  {
    var t := entropy + [0xFF, end] + rest;
    assert buf[i] == t[0] && buf[i + 1] == t[1];
    if entropy != [] {
      assert buf[i + 1..] == entropy[1..] + [0xFF, end] + rest by { assert buf[i..][1..] == t[1..]; }
      ScanToEnd(buf, i + 1, entropy[1..], end, rest);
    }
  }

  /** The payload in the buffer and the payload alone are noted alike. */
  lemma NoteFromBuffer(r: Facts, m: byte, d: seq<byte>, payload: seq<byte>)
    requires payload <= d
    ensures |payload| + 2 > 8 ==> |d| >= 5 && |payload| >= 5
    ensures Note(r, m, |payload| + 2, if |payload| + 2 > 8 then d else payload) == Note(r, m, |payload| + 2, payload)
  {
    if |payload| + 2 > 8 { assert d[..|payload|] == payload; }
  }

  lemma ItemPrefix(buf: seq<byte>, i: nat, it: Item, tail: seq<byte>)
    requires i <= |buf| && ValidItem(it) && buf[i..] == ItemBytes(it) + tail
    ensures |buf| == i + |ItemBytes(it)| + |tail| && buf[i + |ItemBytes(it)|..] == tail
    ensures buf[i] == 0xFF && buf[i + 1] == ItemBytes(it)[1] && buf[i + 1] != 0xDA
    ensures it.Seg? ==> buf[i + 2] == ItemBytes(it)[2] && buf[i + 3] == ItemBytes(it)[3] && buf[i + 4..i + 4 + |it.payload|] == it.payload
  {
    var b := ItemBytes(it);
    ItemShape(it);
    PrefixAt(buf, i, b, tail);
    if it.Seg? { assert b[4..] == it.payload; }
  }

  lemma ItemShape(it: Item)
    requires ValidItem(it)
    ensures var b := ItemBytes(it);
            && |b| >= 2 && b[0] == 0xFF && b[1] != 0xDA
            && (it.Seg? ==> |b| == 4 + |it.payload| && b[4..] == it.payload)
  {
  }

  lemma PrefixAt(buf: seq<byte>, i: nat, b: seq<byte>, tail: seq<byte>)
    requires i <= |buf| && buf[i..] == b + tail
    ensures |buf| == i + |b| + |tail| && buf[i + |b|..] == tail
    ensures forall k :: 0 <= k < |b| ==> buf[i + k] == b[k]
    ensures forall k, m :: 0 <= k <= m <= |b| ==> buf[i + k..i + m] == b[k..m]
  {
    assert buf[i..][|b|..] == tail && buf[i..][..|b|] == b;
    forall k | 0 <= k < |b| ensures buf[i + k] == b[k] { assert buf[i..][k] == b[k]; }
  }

  /** A segment is looked at if nine bytes or more are left, counting from its marker. */
  predicate HasRoom(it: Item, after: nat)
    requires ValidItem(it)
  {
    it.Seg? ==> |ItemBytes(it)| + after >= 9
  }

  predicate AllHaveRoom(items: seq<Item>, after: nat)
    requires ValidItems(items)
    decreases |items|
  {
    items == [] || (HasRoom(items[0], |ItemsBytes(items[1..])| + after) && AllHaveRoom(items[1..], after))
  }

  lemma {:induction false} FiveMakeRoom(items: seq<Item>, after: nat)
    requires ValidItems(items) && after >= 5
    ensures AllHaveRoom(items, after)
    decreases |items|
  {
    hide ItemsBytes;
    if items != [] {
      ItemShape(items[0]);
      FiveMakeRoom(items[1..], after);
    }
  }

  lemma PassItem(buf: seq<byte>, r: Results, it: Item, tail: seq<byte>)
    requires Walking(buf, r) && ValidItem(it) && HasRoom(it, |tail|) && buf[r.len..] == ItemBytes(it) + tail
    ensures buf[r.len] == 0xFF && buf[r.len + 1] != 0xDA
    ensures Pass(buf, r) == r.(facts := NoteItem(r.facts, it), len := r.len + |ItemBytes(it)|)
    ensures buf[r.len + |ItemBytes(it)|..] == tail
  {
    ItemPrefix(buf, r.len, it, tail);
    if it.Seg? {
      SegmentPass(buf, r, |it.payload| + 2);
    }
    hide Note, PassSegment;
  }

  /** Short segments are noted without looking at their payload. */
  lemma NoteShort(r: Facts, m: byte, length: nat, d: seq<byte>, d': seq<byte>)
    ensures length <= 8 ==> Note(r, m, length, d) == Note(r, m, length, d')
  {
  }

  lemma WalkOne(buf: seq<byte>, r: Results)
    requires Walking(buf, r) && buf[r.len] == 0xFF && buf[r.len + 1] != 0xDA
    ensures Walk(buf, r) == Walk(buf, Pass(buf, r))
  {
    hide Pass;
  }

  lemma {:induction false} WalkItems(buf: seq<byte>, r: Results, items: seq<Item>, tail: seq<byte>)
    requires r.len <= |buf| && r.how == Unknown && !r.eoi && ValidItems(items) && AllHaveRoom(items, |tail|)
    requires buf[r.len..] == ItemsBytes(items) + tail
    ensures var r' := r.(facts := NoteItems(r.facts, items), len := r.len + |ItemsBytes(items)|);
            Walk(buf, r) == Walk(buf, r') && r'.len <= |buf| && buf[r'.len..] == tail
    decreases |items|
  {
    hide NoteItem, Pass, Walk, ItemBytes;
    if items == [] {
      assert ItemsBytes(items) + tail == tail;
    } else {
      var it := items[0];
      var rest := ItemsBytes(items[1..]) + tail;
      ItemShape(it);
      assert buf[r.len..] == ItemBytes(it) + rest;
      PassItem(buf, r, it, rest);
      var n := r.len + |ItemBytes(it)|;
      WalkOne(buf, r);
      WalkItems(buf, r.(facts := NoteItem(r.facts, it), len := n), items[1..], tail);
    }
  }

  /** The SOS marker with what follows it. */
  lemma ScanIsComplete(buf: seq<byte>, r: Results, f: File, rest: seq<byte>)
    requires Walking(buf, r) && buf[r.len..] == [0xFF, 0xDA] + ScanBytes(f) + rest && GoodImage(r.facts)
    requires Be16(ScanBytes(f)[0], ScanBytes(f)[1]) == |f.header| && Stuffed(f.entropy) && (f.end == 0xD9 || f.end == 0xDE)
    ensures Walk(buf, r) == Ok(r.(sos := true, how := Complete, len := r.len + 2 + |ScanBytes(f)|))
  {
    hide Stuffed;
    var tail, i := [0xFF, 0xDA] + ScanBytes(f) + rest, r.len;
    assert buf[i] == tail[0] && buf[i + 1] == tail[1] && buf[i + 2] == tail[2] && buf[i + 3] == tail[3];
    var at := i + 2 + |f.header|;
    assert buf[at..] == f.entropy + [0xFF, f.end] + rest by {
      assert buf[i..][2 + |f.header|..] == f.entropy + [0xFF, f.end] + rest;
    }
    ScanToEnd(buf, at, f.entropy, f.end, rest);
    hide Scan, Be16;
    assert AtScan(buf, r) == Ok(r.(sos := true, how := Complete, len := at + |f.entropy| + 2));
    WalkAtScan(buf, r);
  }

  lemma WalkAtScan(buf: seq<byte>, r: Results)
    requires Walking(buf, r) && buf[r.len] == 0xFF && buf[r.len + 1] == 0xDA
    ensures Walk(buf, r) == AtScan(buf, r)
  {
  }

  /** The whole file, then anything. */
  lemma FileIsComplete(f: File, rest: seq<byte>)
    requires ValidFile(f)
    ensures Walk(FileBytes(f) + rest, INIT)
         == Ok(Results(|FileBytes(f)|, Complete, false, true, NoteItems(NOTHING, f.items)))
  {
    hide NoteItems, ItemsBytes, Note, Walk, Stuffed;
    var buf := FileBytes(f) + rest;
    var tail := [0xFF, 0xDA] + ScanBytes(f) + rest;
    assert buf[0..] == ItemsBytes(f.items) + tail;
    ScanBytesLength(f);
    FiveMakeRoom(f.items, |tail|);
    WalkItems(buf, INIT, f.items, tail);
    ScanIsComplete(buf, INIT.(facts := NoteItems(NOTHING, f.items), len := |ItemsBytes(f.items)|), f, rest);
  }

  /** The length word is read from the scan itself, so the scan has three bytes or more. */
  lemma ScanBytesLength(f: File)
    requires Be16(ScanBytes(f)[0], ScanBytes(f)[1]) == |f.header|
    ensures |ScanBytes(f)| >= 3
  {
  }

  // ---------------------------------------------------------------------------
  // And nothing else is

  lemma {:induction false} ScanSound(buf: seq<byte>, i: nat) returns (entropy: seq<byte>, end: byte)
    requires Scan(buf, i).0 == Complete
    ensures var n := Scan(buf, i).1;
            && i + 2 <= n <= |buf| && buf[i..n] == entropy + [0xFF, end]
            && Stuffed(entropy) && (end == 0xD9 || end == 0xDE)
    decreases |buf| - i
  {
    if buf[i] == 0xFF && (buf[i + 1] == 0xDE || buf[i + 1] == 0xD9) {
      entropy, end := [], buf[i + 1];
    } else {
      var e;
      e, end := ScanSound(buf, i + 1);
      entropy := [buf[i]] + e;
      var n := Scan(buf, i).1;
      assert buf[i..n] == [buf[i]] + buf[i + 1..n];
      assert (e + [0xFF, end])[0] == buf[i + 1];
    }
  }

  /** A pass that can still lead to a complete file passes one item. */
  lemma PassSound(buf: seq<byte>, r: Results) returns (it: Item)
    requires Walking(buf, r) && buf[r.len] == 0xFF && buf[r.len + 1] != 0xDA
    requires Walking(buf, Pass(buf, r)) && buf[Pass(buf, r).len] == 0xFF
    ensures ValidItem(it) && Pass(buf, r).len == r.len + |ItemBytes(it)|
    ensures buf[r.len..Pass(buf, r).len] == ItemBytes(it) && Pass(buf, r) == r.(facts := NoteItem(r.facts, it), len := Pass(buf, r).len)
  {
    hide Note, Be16, NoteItem, ItemBytes, Pass;
    if !Standalone(buf[r.len + 1]) {
      it := SegmentSound(buf, r);
    } else {
      it := MarkerSound(buf, r);
    }
  }

  /** A marker by itself, as an item. */
  function MarkerItem(m: byte): Item { if m == 0xD8 then Soi else Rst(m) }

  lemma MarkerPass(buf: seq<byte>, r: Results)
    requires Walking(buf, r) && buf[r.len] == 0xFF && buf[r.len + 1] != 0xDA && Standalone(buf[r.len + 1])
    requires Walking(buf, Pass(buf, r))
    ensures ValidItem(MarkerItem(buf[r.len + 1]))
    ensures Pass(buf, r) == r.(facts := NoteItem(r.facts, MarkerItem(buf[r.len + 1])), len := r.len + 2)
  {
    hide Note, PassSegment;
  }

  lemma MarkerBytes(buf: seq<byte>, i: nat)
    requires i + 1 < |buf| && buf[i] == 0xFF && ValidItem(MarkerItem(buf[i + 1]))
    ensures buf[i..i + 2] == ItemBytes(MarkerItem(buf[i + 1]))
  {
  }

  lemma MarkerSound(buf: seq<byte>, r: Results) returns (it: Item)
    requires Walking(buf, r) && buf[r.len] == 0xFF && buf[r.len + 1] != 0xDA && Standalone(buf[r.len + 1])
    requires Walking(buf, Pass(buf, r))
    ensures ValidItem(it) && Pass(buf, r).len == r.len + |ItemBytes(it)|
    ensures buf[r.len..Pass(buf, r).len] == ItemBytes(it) && Pass(buf, r) == r.(facts := NoteItem(r.facts, it), len := Pass(buf, r).len)
  {
    hide Pass, NoteItem, ItemBytes, MarkerItem;
    it := MarkerItem(buf[r.len + 1]);
    MarkerPass(buf, r);
    MarkerBytes(buf, r.len);
  }

  lemma SegmentBytes(buf: seq<byte>, i: nat, length: nat)
    requires i + 3 < |buf| && buf[i] == 0xFF && length == Be16(buf[i + 2], buf[i + 3]) && 2 <= length
    requires i + 2 + length <= |buf| && !Standalone(buf[i + 1])
    ensures var it := Seg(buf[i + 1], buf[i + 4..i + 2 + length]);
            ValidItem(it) && ItemBytes(it) == buf[i..i + 2 + length]
  {
    hide Be16;
    LengthParts(buf[i + 2], buf[i + 3]);
    FourAndRest(buf, i, i + 2 + length);
  }

  lemma FourAndRest(buf: seq<byte>, i: nat, end: nat)
    requires i + 4 <= end <= |buf|
    ensures buf[i..end] == [buf[i], buf[i + 1], buf[i + 2], buf[i + 3]] + buf[i + 4..end]
  {
  }

  lemma LengthParts(hi: byte, lo: byte)
    ensures Be16(hi, lo) / 256 == hi && Be16(hi, lo) % 256 == lo && Be16(hi, lo) < 0x1_0000
  {
  }

  lemma SegmentPass(buf: seq<byte>, r: Results, length: nat)
    requires Walking(buf, r) && buf[r.len] == 0xFF && !Standalone(buf[r.len + 1])
    requires r.len + 8 < |buf| && length == Be16(buf[r.len + 2], buf[r.len + 3])
    ensures Pass(buf, r) == PassSegment(buf, r) && Pass(buf, r).len == r.len + 2 + length
    ensures 2 <= length && r.len + 2 + length <= |buf| ==>
              Pass(buf, r) == r.(facts := NoteItem(r.facts, Seg(buf[r.len + 1], buf[r.len + 4..r.len + 2 + length])), len := r.len + 2 + length)
  {
    hide Note, Be16;
    var i, m := r.len, buf[r.len + 1];
    var d := buf[i + 4..];
    if 2 <= length && i + 2 + length <= |buf| {
      var payload := buf[i + 4..i + 2 + length];
      assert payload <= d;
      NoteFromBuffer(r.facts, m, d, payload);
      NoteShort(r.facts, m, length, d, payload);
    }
  }

  lemma SegmentSound(buf: seq<byte>, r: Results) returns (it: Item)
    requires Walking(buf, r) && buf[r.len] == 0xFF && !Standalone(buf[r.len + 1])
    requires Walking(buf, Pass(buf, r)) && buf[Pass(buf, r).len] == 0xFF
    ensures ValidItem(it) && Pass(buf, r).len == r.len + |ItemBytes(it)|
    ensures buf[r.len..Pass(buf, r).len] == ItemBytes(it) && Pass(buf, r) == r.(facts := NoteItem(r.facts, it), len := Pass(buf, r).len)
  {
    hide NoteItem, ItemBytes, Note;
    var i := r.len;
    SegmentRoom(buf, r);
    hide Pass, PassSegment;
    var length := Be16(buf[i + 2], buf[i + 3]);
    SegmentPass(buf, r, length);
    LengthWord(buf, i, length);
    SegmentBytes(buf, i, length);
    it := Seg(buf[i + 1], buf[i + 4..i + 2 + length]);
  }

  lemma SegmentRoom(buf: seq<byte>, r: Results)
    requires Walking(buf, r) && buf[r.len] == 0xFF && !Standalone(buf[r.len + 1]) && Walking(buf, Pass(buf, r))
    ensures r.len + 8 < |buf|
  {
    hide Note;
  }

  /** A length below two leads into the length word, which does not start with FF. */
  lemma LengthWord(buf: seq<byte>, i: nat, length: nat)
    requires i + 4 <= |buf| && length == Be16(buf[i + 2], buf[i + 3])
    requires i + 2 + length < |buf| && buf[i + 2 + length] == 0xFF
    ensures length >= 2
  {
  }

  /** Without an SOS the walk ends incomplete. */
  lemma WalkStops(buf: seq<byte>, r: Results)
    requires !r.sos && (!Walking(buf, r) || buf[r.len] != 0xFF)
    ensures Walk(buf, r).Ok? && Walk(buf, r).value.how != Complete
  {
  }

  /** `f`, but for the facts, is what lies between `from` and `to`. */
  ghost predicate IsFileAt(buf: seq<byte>, from: nat, to: nat, f: File) {
    && ValidItems(f.items) && from <= to <= |buf| && buf[from..to] == FileBytes(f)
    && Be16(ScanBytes(f)[0], ScanBytes(f)[1]) == |f.header| && Stuffed(f.entropy) && (f.end == 0xD9 || f.end == 0xDE)
  }

  /** From wherever the walk stands before the scan, what it calls complete is a file. */
  lemma {:induction false} WalkSound(buf: seq<byte>, r: Results, w: Result<Results, Error>) returns (f: File)
    requires r.len <= |buf| && !r.sos && w == Walk(buf, r) && w.Ok? && w.value.how == Complete
    ensures IsFileAt(buf, r.len, w.value.len, f) && GoodImage(NoteItems(r.facts, f.items))
    decreases |buf| - r.len
  {
    hide Walk, Pass, NoteItem, IsFileAt;
    if !Walking(buf, r) || buf[r.len] != 0xFF {
      WalkStops(buf, r);
    } else if buf[r.len + 1] == 0xDA {
      WalkAtScan(buf, r);
      f := AtScanSound(buf, r);
    } else {
      var r' := Pass(buf, r);
      WalkOne(buf, r);
      assert r'.sos == r.sos by { PassKeepsSos(buf, r); }
      if !Walking(buf, r') || buf[r'.len] != 0xFF { WalkStops(buf, r'); }
      var it := PassSound(buf, r);
      var g := WalkSound(buf, r', w);
      f := g.(items := [it] + g.items);
      NoteCons(r.facts, it, g.items);
      ConsFile(buf, r.len, r'.len, w.value.len, it, g);
    }
  }

  lemma ConsFile(buf: seq<byte>, from: nat, mid: nat, to: nat, it: Item, g: File)
    requires IsFileAt(buf, mid, to, g) && from <= mid && ValidItem(it) && buf[from..mid] == ItemBytes(it)
    ensures IsFileAt(buf, from, to, g.(items := [it] + g.items))
  {
    hide Stuffed, Be16, ItemBytes;
    ConsItem(it, g);
    assert buf[from..to] == buf[from..mid] + buf[mid..to];
  }

  lemma PassKeepsSos(buf: seq<byte>, r: Results)
    requires Walking(buf, r) && buf[r.len] == 0xFF && buf[r.len + 1] != 0xDA
    ensures Pass(buf, r).sos == r.sos
  {
    hide Note;
  }

  lemma ConsItem(it: Item, g: File)
    requires ValidItem(it) && ValidItems(g.items)
    ensures var f := g.(items := [it] + g.items);
            ValidItems(f.items) && FileBytes(f) == ItemBytes(it) + FileBytes(g) && ScanBytes(f) == ScanBytes(g)
  {
    assert ([it] + g.items)[1..] == g.items;
  }

  lemma NoteCons(r: Facts, it: Item, items: seq<Item>)
    ensures NoteItems(r, [it] + items) == NoteItems(NoteItem(r, it), items)
  {
    assert ([it] + items)[1..] == items;
  }

  lemma AtScanSound(buf: seq<byte>, r: Results) returns (f: File)
    requires Walking(buf, r) && buf[r.len] == 0xFF && buf[r.len + 1] == 0xDA
    requires AtScan(buf, r).Ok? && AtScan(buf, r).value.how == Complete
    ensures f.items == [] && IsFileAt(buf, r.len, AtScan(buf, r).value.len, f) && GoodImage(r.facts)
  {
    hide Stuffed, Scan, Be16, IsFileAt, FileBytes, ScanBytes;
    var i, n := r.len, AtScan(buf, r).value.len;
    AtScanGood(buf, r);
    var at := i + 2 + Be16(buf[i + 2], buf[i + 3]);
    var entropy, end := ScanSound(buf, at);
    f := File([], buf[i + 2..at], entropy, end);
    ScanSlices(buf, i, at, n);
    ScanIsFile(buf, i, at, n, f);
  }

  lemma AtScanGood(buf: seq<byte>, r: Results)
    requires Walking(buf, r) && buf[r.len] == 0xFF && buf[r.len + 1] == 0xDA
    requires AtScan(buf, r).Ok? && AtScan(buf, r).value.how == Complete
    ensures GoodImage(r.facts) && r.len + 3 < |buf|
    ensures Scan(buf, r.len + 2 + Be16(buf[r.len + 2], buf[r.len + 3])) == (Complete, AtScan(buf, r).value.len)
  {
    hide Scan, Be16;
  }

  lemma ScanIsFile(buf: seq<byte>, i: nat, at: nat, n: nat, f: File)
    requires f.items == [] && i + 2 <= at && at + 2 <= n <= |buf| && i + 4 <= n && f.header == buf[i + 2..at] && f.entropy + [0xFF, f.end] == buf[at..n]
    requires Be16(buf[i + 2], buf[i + 3]) == |f.header| && Stuffed(f.entropy) && (f.end == 0xD9 || f.end == 0xDE)
    requires buf[i..n] == [0xFF, 0xDA] + (buf[i + 2..at] + buf[at..n])
    ensures IsFileAt(buf, i, n, f)
  {
    hide Stuffed, Be16;
    assert FileBytes(f) == [0xFF, 0xDA] + ScanBytes(f);
    ScanSlices(buf, i, at, n);
  }

  lemma ScanSlices(buf: seq<byte>, i: nat, at: nat, n: nat)
    requires i + 2 <= at && at + 2 <= n <= |buf| && i + 4 <= n
    ensures buf[i..n] == [buf[i], buf[i + 1]] + (buf[i + 2..at] + buf[at..n])
    ensures var s := buf[i + 2..at] + buf[at..n]; s[0] == buf[i + 2] && s[1] == buf[i + 3]
  {
    assert buf[i + 2..at] + buf[at..n] == buf[i + 2..n];
  }

  /** The validator calls a buffer complete, with length `n`, exactly when its first
      `n` bytes are a file: nothing after them matters, and `n` runs through the end
      marker. */
  lemma CompleteIffFile(buf: seq<byte>, n: nat)
    ensures (Walk(buf, INIT).Ok? && Walk(buf, INIT).value.how == Complete && Walk(buf, INIT).value.len == n)
       <==> (n <= |buf| && exists f: File :: ValidFile(f) && FileBytes(f) == buf[..n])
  {
    hide Walk, NoteItems;
    if Walk(buf, INIT).Ok? && Walk(buf, INIT).value.how == Complete && Walk(buf, INIT).value.len == n {
      var f := WalkSound(buf, INIT, Walk(buf, INIT));
      assert buf[0..n] == buf[..n];
      assert ValidFile(f);
    }
    if n <= |buf| && exists f: File :: ValidFile(f) && FileBytes(f) == buf[..n] {
      var f: File :| ValidFile(f) && FileBytes(f) == buf[..n];
      FileIsComplete(f, buf[n..]);
      assert buf == FileBytes(f) + buf[n..];
    }
  }

  // ---------------------------------------------------------------------------
  // What Annex B allows besides

  /** After the items the walk stands in front of the rest. */
  lemma WalkTo(items: seq<Item>, tail: seq<byte>)
    requires ValidItems(items) && |tail| >= 5
    ensures var buf, n := ItemsBytes(items) + tail, |ItemsBytes(items)|;
            var r := INIT.(facts := NoteItems(NOTHING, items), len := n);
            Walk(buf, INIT) == Walk(buf, r) && Walking(buf, r) && buf[n..] == tail && buf[n] == tail[0] && buf[n + 1] == tail[1]
  {
    hide NoteItems, ItemsBytes, Walk;
    var buf := ItemsBytes(items) + tail;
    assert buf[0..] == buf;
    FiveMakeRoom(items, |tail|);
    WalkItems(buf, INIT, items, tail);
  }

  /** A fill byte in front of a marker: not complete. */
  lemma FillByteIsRefused(items: seq<Item>, rest: seq<byte>)
    requires ValidItems(items) && |rest| >= 3
    ensures var w := Walk(ItemsBytes(items) + ([0xFF, 0xFF] + rest), INIT); w.Ok? && w.value.how != Complete
  {
    hide NoteItems, ItemsBytes;
    WalkTo(items, [0xFF, 0xFF] + rest);
  }

  /** A scan without a baseline frame, a table or JFIF before it, or with Exif: not complete. */
  lemma NoImageIsRefused(items: seq<Item>, rest: seq<byte>)
    requires ValidItems(items) && |rest| >= 3 && !GoodImage(NoteItems(NOTHING, items))
    ensures var w := Walk(ItemsBytes(items) + ([0xFF, 0xDA] + rest), INIT); w.Ok? ==> w.value.how != Complete
  {
    hide NoteItems, ItemsBytes, Walk, AtScan;
    var buf, n := ItemsBytes(items) + ([0xFF, 0xDA] + rest), |ItemsBytes(items)|;
    WalkTo(items, [0xFF, 0xDA] + rest);
    var r := INIT.(facts := NoteItems(NOTHING, items), len := n);
    WalkAtScan(buf, r);
    if AtScan(buf, r).Ok? && AtScan(buf, r).value.how == Complete { AtScanGood(buf, r); }
  }

  /** Only a baseline frame (FFC0) sets a size. */
  lemma {:induction false} OnlyBaselineHasSize(r: Facts, items: seq<Item>)
    requires forall i :: 0 <= i < |items| ==> items[i].Seg? ==> items[i].m != 0xC0
    ensures NoteItems(r, items).width == r.width && NoteItems(r, items).height == r.height
    decreases |items|
  {
    if items != [] {
      assert forall i :: 0 <= i < |items[1..]| ==> items[1..][i] == items[i + 1];
      OnlyBaselineHasSize(NoteItem(r, items[0]), items[1..]);
    }
  }

  /** A marker that neither continues nor ends the entropy-coded data. */
  predicate BreaksOff(m: byte) { !Continues(m) && m != 0xD9 && m != 0xDE }

  lemma {:induction false} ScanToBreak(buf: seq<byte>, i: nat, entropy: seq<byte>, m: byte, rest: seq<byte>)
    requires i <= |buf| && buf[i..] == entropy + [0xFF, m] + rest && Stuffed(entropy) && BreaksOff(m)
    ensures Scan(buf, i) == (Corrupt, i + |entropy|)
    decreases |entropy|
  {
    var t := entropy + [0xFF, m] + rest;
    assert buf[i] == t[0] && buf[i + 1] == t[1];
    if entropy != [] {
      assert buf[i + 1..] == entropy[1..] + [0xFF, m] + rest by { assert buf[i..][1..] == t[1..]; }
      ScanToBreak(buf, i + 1, entropy[1..], m, rest);
    }
  }

  /** An application or comment segment after a scan, as before a second one: not complete. */
  lemma SegmentAfterScanIsRefused(items: seq<Item>, header: seq<byte>, entropy: seq<byte>, m: byte, rest: seq<byte>)
    requires ValidItems(items) && |header| >= 2 && Be16(header[0], header[1]) == |header| && Stuffed(entropy) && BreaksOff(m)
    requires |header| + |entropy| + |rest| >= 1
    ensures var w := Walk(ItemsBytes(items) + ([0xFF, 0xDA] + (header + (entropy + [0xFF, m] + rest))), INIT);
            w.Ok? && w.value.how != Complete
  {
    hide NoteItems, ItemsBytes, Walk, Stuffed, AtScan, ValidItems, Be16;
    BreakBehind(items, header, entropy + [0xFF, m] + rest, entropy, m, rest);
  }

  lemma BreakBehind(items: seq<Item>, header: seq<byte>, data: seq<byte>, entropy: seq<byte>, m: byte, rest: seq<byte>)
    requires ValidItems(items) && |header| >= 2 && Be16(header[0], header[1]) == |header| && Stuffed(entropy) && BreaksOff(m)
    requires data == entropy + [0xFF, m] + rest && |header| + |data| >= 3
    ensures var w := Walk(ItemsBytes(items) + ([0xFF, 0xDA] + (header + data)), INIT); w.Ok? && w.value.how != Complete
  {
    hide NoteItems, ItemsBytes, Walk, Stuffed, AtScan, ValidItems, Be16, Scan, BreaksOff;
    var tail := [0xFF, 0xDA] + (header + data);
    var buf, n := ItemsBytes(items) + tail, |ItemsBytes(items)|;
    WalkTo(items, tail);
    var r := INIT.(facts := NoteItems(NOTHING, items), len := n);
    WalkAtScan(buf, r);
    HeaderAt(buf, n, header, data);
    ScanToBreak(buf, n + 2 + |header|, entropy, m, rest);
    BreakIsCorrupt(buf, r, |header|);
  }

  lemma HeaderAt(buf: seq<byte>, n: nat, header: seq<byte>, data: seq<byte>)
    requires n <= |buf| && |header| >= 2 && buf[n..] == [0xFF, 0xDA] + (header + data)
    ensures |buf| == n + 2 + |header| + |data| && buf[n + 2] == header[0] && buf[n + 3] == header[1]
    ensures buf[n + 2 + |header|..] == data
  {
    var tail := buf[n..];
    assert tail[2] == header[0] && tail[3] == header[1] && tail[2 + |header|..] == data;
  }

  lemma BreakIsCorrupt(buf: seq<byte>, r: Results, length: nat)
    requires Walking(buf, r) && r.len + 3 < |buf| && Be16(buf[r.len + 2], buf[r.len + 3]) == length
    requires Scan(buf, r.len + 2 + length).0 == Corrupt
    ensures AtScan(buf, r).Ok? && AtScan(buf, r).value.how != Complete
  {
    hide Scan, Be16;
  }
}
