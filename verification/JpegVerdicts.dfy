/** What the walk of module JpegValidator says of buffers that are no complete file, and
    how far it says it got: the carver takes that as the length of the file. */
module JpegVerdicts {
  import opened Basics
  import opened JpegValidator
  import opened JpegFiles

  // ---------------------------------------------------------------------------
  // What the items say, from the items

  predicate IsSegment(it: Item, m: byte) { it.Seg? && it.m == m }

  predicate IsJfif(it: Item) { IsSegment(it, 0xE0) && |it.payload| >= 7 && it.payload[..4] == [0x4A, 0x46, 0x49, 0x46] }

  predicate IsFrame(it: Item) { IsSegment(it, 0xC0) && |it.payload| >= 7 }

  ghost predicate Has(items: seq<Item>, m: byte) { exists it :: it in items && IsSegment(it, m) }

  ghost predicate HasJfif(items: seq<Item>) { exists it :: it in items && IsJfif(it) }

  ghost predicate HasATable(items: seq<Item>) { Has(items, 0xC4) || Has(items, 0xCC) || Has(items, 0xDB) }

  function HeightOf(it: Item): nat
    requires IsFrame(it)
  {
    it.payload[1] as nat * 256 + it.payload[2] as nat
  }

  function WidthOf(it: Item): nat
    requires IsFrame(it)
  {
    it.payload[3] as nat * 256 + it.payload[4] as nat
  }

  /** Item `i` is the last frame. */
  predicate LastFrame(items: seq<Item>, i: nat) {
    i < |items| && IsFrame(items[i]) && forall j :: i < j < |items| ==> !IsFrame(items[j])
  }

  /** The last frame, if there is one, is not empty. */
  ghost predicate HasSize(items: seq<Item>) {
    exists i: nat :: LastFrame(items, i) && WidthOf(items[i]) != 0 && HeightOf(items[i]) != 0
  }

  /** JFIF with an Exif segment: worth carving even if it is cut short. */
  ghost predicate ExifPhoto(items: seq<Item>) { Soi in items && HasJfif(items) && Has(items, 0xE1) }

  /** What a scan must have before it. */
  ghost predicate MayScan(items: seq<Item>) { HasJfif(items) && HasATable(items) && HasSize(items) }

  lemma {:induction false} FlagsFrom(r: Facts, items: seq<Item>)
    ensures var f := NoteItems(r, items);
            && (f.soi <==> r.soi || Soi in items) && (f.jfif <==> r.jfif || HasJfif(items))
            && (f.e1 <==> r.e1 || Has(items, 0xE1)) && (f.c4 <==> r.c4 || Has(items, 0xC4))
            && (f.cc <==> r.cc || Has(items, 0xCC)) && (f.db <==> r.db || Has(items, 0xDB))
    decreases |items|
  {
    if items != [] {
      var it, more := items[0], items[1..];
      FlagsFrom(NoteItem(r, it), more);
      assert forall x :: x in items <==> x == it || x in more;
      FlagsOfOne(r, it);
      hide NoteItem, IsSegment, IsJfif;
    }
  }

  lemma FlagsOfOne(r: Facts, it: Item)
    ensures var f := NoteItem(r, it);
            && (f.soi <==> r.soi || it == Soi) && (f.jfif <==> r.jfif || IsJfif(it)) && (f.e1 <==> r.e1 || IsSegment(it, 0xE1))
            && (f.c4 <==> r.c4 || IsSegment(it, 0xC4)) && (f.cc <==> r.cc || IsSegment(it, 0xCC)) && (f.db <==> r.db || IsSegment(it, 0xDB))
            && f.height == (if IsFrame(it) then HeightOf(it) else r.height)
            && f.width == (if IsFrame(it) then WidthOf(it) else r.width)
  {
  }

  lemma {:induction false} SizeFrom(r: Facts, items: seq<Item>)
    ensures var f := NoteItems(r, items);
            && (forall i: nat :: LastFrame(items, i) ==> f.height == HeightOf(items[i]) && f.width == WidthOf(items[i]))
            && ((forall it :: it in items ==> !IsFrame(it)) ==> f.height == r.height && f.width == r.width)
    decreases |items|
  {
    if items != [] {
      var it, more := items[0], items[1..];
      SizeFrom(NoteItem(r, it), more);
      FlagsOfOne(r, it);
      hide NoteItem, IsFrame, HeightOf, WidthOf;
      assert forall i :: 0 < i < |items| ==> items[i] == more[i - 1];
      assert forall i: nat :: 0 < i && LastFrame(items, i) ==> LastFrame(more, i - 1);
      assert LastFrame(items, 0) ==> forall x :: x in more ==> !IsFrame(x);
      assert forall x :: x in more ==> x in items;
    }
  }

  lemma {:induction false} SomeFrameIsLast(items: seq<Item>)
    ensures (exists it :: it in items && IsFrame(it)) ==> exists i: nat :: LastFrame(items, i)
    decreases |items|
  {
    if items != [] {
      var n := |items| - 1;
      if IsFrame(items[n]) {
        assert LastFrame(items, n);
      } else {
        SomeFrameIsLast(items[..n]);
        assert forall i: nat :: LastFrame(items[..n], i) ==> LastFrame(items, i);
      }
    }
  }

  /** The walk's notes are what the items say. */
  lemma FactsOf(items: seq<Item>)
    ensures var f := NoteItems(NOTHING, items);
            && (f.soi <==> Soi in items) && (f.jfif <==> HasJfif(items)) && (f.e1 <==> Has(items, 0xE1))
            && (HasTable(f) <==> HasATable(items)) && (f.width != 0 && f.height != 0 <==> HasSize(items))
            && (forall i: nat :: LastFrame(items, i) ==> f.height == HeightOf(items[i]) && f.width == WidthOf(items[i]))
  {
    FlagsFrom(NOTHING, items);
    SizeFrom(NOTHING, items);
    SomeFrameIsLast(items);
    hide NoteItems, IsFrame, HeightOf, WidthOf;
  }

  // ---------------------------------------------------------------------------
  // Buffers without a scan

  /** Truncated after `n` bytes, if the items are those of a photo with Exif, and
      otherwise corrupt, with nothing worth keeping. */
  ghost predicate ExifOrNothing(w: Result<Results, Error>, items: seq<Item>, n: nat) {
    w.Ok? && if ExifPhoto(items) then w.value.how == Truncated && w.value.len == n
             else w.value.how == Corrupt && w.value.len == 0
  }

  /** The checks after a walk that met no scan. */
  lemma FinishWithoutScan(r: Results, items: seq<Item>)
    requires r.facts == NoteItems(NOTHING, items) && !r.sos
    ensures ExifOrNothing(Ok(Finish(r)), items, r.len)
  {
    hide NoteItems, HasSize, HasATable, HasJfif, Has;
    FactsOf(items);
  }

  /** After the items the walk stands in front of the rest, however short. */
  lemma WalkToTail(items: seq<Item>, tail: seq<byte>) returns (r: Results)
    requires ValidItems(items) && AllHaveRoom(items, |tail|)
    ensures var buf, n := ItemsBytes(items) + tail, |ItemsBytes(items)|;
            && r == INIT.(facts := NoteItems(NOTHING, items), len := n) && Walk(buf, INIT) == Walk(buf, r)
            && |buf| == n + |tail| && buf[n..] == tail
            && (|tail| >= 2 ==> buf[n] == tail[0] && buf[n + 1] == tail[1])
            && (|tail| >= 4 ==> buf[n + 2] == tail[2] && buf[n + 3] == tail[3])
  {
    hide NoteItems, ItemsBytes, Walk;
    var buf, n := ItemsBytes(items) + tail, |ItemsBytes(items)|;
    assert buf[0..] == buf;
    WalkItems(buf, INIT, items, tail);
    r := INIT.(facts := NoteItems(NOTHING, items), len := n);
  }

  /** Items at the end of the buffer, or in front of something that is no marker. */
  lemma ItemsAlone(items: seq<Item>, tail: seq<byte>)
    requires ValidItems(items) && AllHaveRoom(items, |tail|)
    requires |tail| <= 1 || tail[0] != 0xFF || tail[1] == 0xFF
    ensures ExifOrNothing(Walk(ItemsBytes(items) + tail, INIT), items, |ItemsBytes(items)|)
  {
    hide NoteItems, ItemsBytes, ExifOrNothing, Finish;
    var r := WalkToTail(items, tail);
    FinishWithoutScan(r, items);
    FinishWithoutScan(r.(how := Corrupt), items);
    WalkEnds(ItemsBytes(items) + tail, r);
  }

  lemma WalkEnds(buf: seq<byte>, r: Results)
    requires r.how == Unknown && !r.eoi
    requires r.len + 1 < |buf| ==> buf[r.len] != 0xFF || buf[r.len + 1] == 0xFF
    ensures Walk(buf, r) == Ok(Finish(if r.len + 1 < |buf| then r.(how := Corrupt) else r))
  {
    hide Finish, Note;
  }

  /** An end marker in front of the scan. */
  lemma EndBeforeScan(items: seq<Item>, m: byte, rest: seq<byte>)
    requires ValidItems(items) && AllHaveRoom(items, 2 + |rest|) && (m == 0x01 || m == 0xD9)
    ensures ExifOrNothing(Walk(ItemsBytes(items) + ([0xFF, m] + rest), INIT), items, |ItemsBytes(items)| + 2)
  {
    hide NoteItems, ItemsBytes, ExifOrNothing, Finish, Walk;
    var tail := [0xFF, m] + rest;
    var buf := ItemsBytes(items) + tail;
    var r := WalkToTail(items, tail);
    WalkOne(buf, r);
    WalkEnded(buf, Pass(buf, r));
    FinishWithoutScan(Pass(buf, r), items);
  }

  lemma WalkEnded(buf: seq<byte>, r: Results)
    requires !Walking(buf, r)
    ensures Walk(buf, r) == Ok(Finish(r))
  {
  }

  /** A segment of which eight bytes or fewer are left is not looked at, and the walk is
      said to have got eight bytes further, be they there or not. */
  lemma StubOfSegment(items: seq<Item>, tail: seq<byte>)
    requires ValidItems(items) && AllHaveRoom(items, |tail|)
    requires 2 <= |tail| <= 8 && tail[0] == 0xFF && !Standalone(tail[1])
    ensures ExifOrNothing(Walk(ItemsBytes(items) + tail, INIT), items, |ItemsBytes(items)| + 8)
  {
    hide NoteItems, ItemsBytes, ExifOrNothing, Finish, Walk;
    var buf := ItemsBytes(items) + tail;
    var r := WalkToTail(items, tail);
    WalkOne(buf, r);
    WalkEnded(buf, Pass(buf, r));
    FinishWithoutScan(Pass(buf, r), items);
  }

  /** A segment that runs on past the end of the buffer counts like the whole, its
      length included, so the length can be that of a larger buffer. */
  lemma CutSegment(items: seq<Item>, it: Item, k: nat)
    requires ValidItems(items) && ValidItem(it) && it.Seg? && 9 <= k <= |ItemBytes(it)| && AllHaveRoom(items, k)
    ensures ExifOrNothing(Walk(ItemsBytes(items) + ItemBytes(it)[..k], INIT), items + [it], |ItemsBytes(items)| + |ItemBytes(it)|)
  {
    hide NoteItems, ItemsBytes, ExifOrNothing, Finish, Walk, NoteItem, Pass;
    var tail := ItemBytes(it)[..k];
    var buf := ItemsBytes(items) + tail;
    var r := WalkToTail(items, tail);
    CutPass(buf, r, it, k);
    WalkOne(buf, r);
    WalkEnded(buf, Pass(buf, r));
    NoteSnoc(NOTHING, items, it);
    FinishWithoutScan(Pass(buf, r), items + [it]);
  }

  lemma {:induction false} NoteSnoc(r: Facts, items: seq<Item>, it: Item)
    ensures NoteItems(r, items + [it]) == NoteItem(NoteItems(r, items), it)
    decreases |items|
  {
    hide NoteItem;
    if items == [] {
      assert [] + [it] == [it] && [it][1..] == [];
    } else {
      assert (items + [it])[1..] == items[1..] + [it];
      NoteSnoc(NoteItem(r, items[0]), items[1..], it);
    }
  }

  lemma CutPass(buf: seq<byte>, r: Results, it: Item, k: nat)
    requires ValidItem(it) && it.Seg? && 9 <= k <= |ItemBytes(it)| && |buf| == r.len + k && buf[r.len..] == ItemBytes(it)[..k]
    ensures Walking(buf, r) ==>
              && buf[r.len] == 0xFF && buf[r.len + 1] != 0xDA
              && Pass(buf, r) == r.(facts := NoteItem(r.facts, it), len := r.len + |ItemBytes(it)|)
  {
    var i, length := r.len, |it.payload| + 2;
    var b := buf[i..];
    assert b[0] == buf[i] && b[1] == buf[i + 1] && b[2] == buf[i + 2] && b[3] == buf[i + 3];
    assert Be16(b[2], b[3]) == length;
    NoteCut(r.facts, it.m, it.payload, buf[i + 4..]) by {
      assert b[4..] == it.payload[..k - 4] && b[4..] == buf[i + 4..];
    }
    hide Note, Be16;
  }

  /** Only the first five bytes of a payload are looked at. */
  lemma NoteCut(r: Facts, m: byte, payload: seq<byte>, d: seq<byte>)
    requires 5 <= |d| <= |payload| && d == payload[..|d|]
    ensures Note(r, m, |payload| + 2, d) == Note(r, m, |payload| + 2, payload)
  {
  }

  /** A length word below two sends the walk into the length word, where it ends. */
  lemma LengthBelowTwo(items: seq<Item>, m: byte, length: byte, rest: seq<byte>)
    requires ValidItems(items) && AllHaveRoom(items, 4 + |rest|) && !Standalone(m) && length < 2 && |rest| >= 5
    ensures ExifOrNothing(Walk(ItemsBytes(items) + ([0xFF, m, 0, length] + rest), INIT), items + [Seg(m, [])], |ItemsBytes(items)| + 2 + length)
  {
    hide NoteItems, ItemsBytes, ExifOrNothing, Finish, Walk, Pass, NoteItem, AllHaveRoom, ValidItems;
    var tail := [0xFF, m, 0, length] + rest;
    var buf := ItemsBytes(items) + tail;
    assert tail[0] == 0xFF && tail[1] == m && tail[2] == 0 && tail[3] == length && |tail| >= 9;
    var r := WalkToTail(items, tail);
    PassBelowTwo(buf, r, m, length);
    EndBelowTwo(buf, r, items, m, length);
  }

  lemma EndBelowTwo(buf: seq<byte>, r: Results, items: seq<Item>, m: byte, length: byte)
    requires Walking(buf, r) && buf[r.len] == 0xFF && buf[r.len + 1] != 0xDA && !r.sos && r.facts == NoteItems(NOTHING, items)
    requires Pass(buf, r) == r.(facts := NoteItem(r.facts, Seg(m, [])), len := r.len + 2 + length)
    requires r.len + 8 < |buf| && length < 2 && buf[r.len + 2 + length] != 0xFF
    ensures ExifOrNothing(Walk(buf, r), items + [Seg(m, [])], r.len + 2 + length)
  {
    hide NoteItems, ExifOrNothing, Finish, Walk, Pass, NoteItem;
    WalkOne(buf, r);
    NoteSnoc(NOTHING, items, Seg(m, []));
    var r' := Pass(buf, r);
    WalkEnds(buf, r');
    FinishWithoutScan(r'.(how := Corrupt), items + [Seg(m, [])]);
  }

  lemma PassBelowTwo(buf: seq<byte>, r: Results, m: byte, length: byte)
    requires r.len + 8 < |buf| && buf[r.len] == 0xFF && buf[r.len + 1] == m && buf[r.len + 2] == 0 && buf[r.len + 3] == length
    requires !Standalone(m) && length < 2
    ensures Pass(buf, r) == r.(facts := NoteItem(r.facts, Seg(m, [])), len := r.len + 2 + length)
    ensures buf[r.len + 2 + length] != 0xFF
  {
    NoteShort(r.facts, m, length, buf[r.len + 4..], []);
    LengthIrrelevant(r.facts, m, length);
    hide Note;
  }

  lemma LengthIrrelevant(r: Facts, m: byte, length: nat)
    requires length <= 8
    ensures Note(r, m, length, []) == Note(r, m, 2, [])
  {
  }

  // ---------------------------------------------------------------------------
  // Buffers with a scan

  /** A scan with too little before it: corrupt, Exif or not. */
  lemma ScanTooEarly(items: seq<Item>, rest: seq<byte>)
    requires ValidItems(items) && AllHaveRoom(items, 2 + |rest|) && !MayScan(items)
    ensures var w := Walk(ItemsBytes(items) + ([0xFF, 0xDA] + rest), INIT); w.Ok? && w.value.how == Corrupt && w.value.len == 0
  {
    hide NoteItems, ItemsBytes, Walk, AtScan, HasJfif, HasATable, HasSize, Has;
    var tail := [0xFF, 0xDA] + rest;
    var buf := ItemsBytes(items) + tail;
    var r := WalkToTail(items, tail);
    FactsOf(items);
    WalkAtScan(buf, r);
    AtScanTooEarly(buf, r);
  }

  lemma AtScanTooEarly(buf: seq<byte>, r: Results)
    requires r.len + 1 < |buf|
    requires !(HasTable(r.facts) && r.facts.jfif && r.facts.width != 0 && r.facts.height != 0)
    ensures AtScan(buf, r).Ok? && AtScan(buf, r).value.how == Corrupt && AtScan(buf, r).value.len == 0
  {
    hide Scan, Finish, Be16;
  }

  /** What a scan that ends with `how` at `n` comes to. */
  ghost predicate Scanned(w: Result<Results, Error>, items: seq<Item>, how: How, n: nat) {
    && w.Ok?
    && if Soi !in items then w.value.how == Corrupt && w.value.len == 0
       else if Has(items, 0xE1) then w.value.how == Truncated && w.value.len == n
       else w.value.how == how && w.value.len == n
  }

  lemma FinishWithScan(r: Results, items: seq<Item>)
    requires r.facts == NoteItems(NOTHING, items) && r.sos && MayScan(items)
    ensures Scanned(Ok(Finish(r)), items, r.how, r.len)
  {
    hide NoteItems, HasSize, HasATable, HasJfif, Has;
    FactsOf(items);
  }

  /** The length word of the scan header is not there. */
  lemma ScanWithoutLength(items: seq<Item>, rest: seq<byte>)
    requires ValidItems(items) && AllHaveRoom(items, 2 + |rest|) && MayScan(items) && |rest| < 2
    ensures var buf := ItemsBytes(items) + ([0xFF, 0xDA] + rest);
            if rest == [] then Scanned(Walk(buf, INIT), items, Unknown, |buf|) else Walk(buf, INIT) == Err(RangeException)
  {
    hide NoteItems, ItemsBytes, Walk, HasSize, HasATable, HasJfif, Has, Finish, Scanned;
    var tail := [0xFF, 0xDA] + rest;
    var buf := ItemsBytes(items) + tail;
    var r := WalkToTail(items, tail);
    FactsOf(items);
    WalkAtScan(buf, r);
    FinishWithScan(r.(sos := true, len := r.len + 2), items);
  }

  /** The scan and what follows its header, up to the end of the buffer. */
  lemma ScanFollows(items: seq<Item>, s: seq<byte>)
    requires ValidItems(items) && AllHaveRoom(items, 2 + |s|) && MayScan(items) && |s| >= 2
    ensures var buf := ItemsBytes(items) + ([0xFF, 0xDA] + s);
            var e := Scan(buf, |ItemsBytes(items)| + 2 + Be16(s[0], s[1]));
            Scanned(Walk(buf, INIT), items, e.0, e.1)
  {
    hide NoteItems, ItemsBytes, Walk, HasSize, HasATable, HasJfif, Has, Finish, Scanned, Scan, Be16;
    var tail := [0xFF, 0xDA] + s;
    var buf := ItemsBytes(items) + tail;
    var r := WalkToTail(items, tail);
    FactsOf(items);
    WalkAtScan(buf, r);
    assert tail[2] == s[0] && tail[3] == s[1];
    var e := Scan(buf, r.len + 2 + Be16(s[0], s[1]));
    FinishWithScan(r.(sos := true, how := e.0, len := e.1), items);
  }

  /** Entropy-coded data that the end of the buffer cuts off: its last byte may be the
      first of a pair. */
  predicate Unended(data: seq<byte>) {
    forall k :: 0 <= k < |data| - 1 && data[k] == 0xFF ==> Continues(data[k + 1])
  }

  lemma {:induction false} ScanRunsOut(buf: seq<byte>, i: nat)
    requires i < |buf| && Unended(buf[i..])
    ensures Scan(buf, i) == (Unknown, |buf| - 1)
    decreases |buf| - i
  {
    if i + 1 < |buf| {
      assert buf[i..][0] == buf[i] && buf[i..][1] == buf[i + 1];
      var d := buf[i + 1..];
      forall k | 0 <= k < |d| - 1 && d[k] == 0xFF ensures Continues(d[k + 1]) {
        assert buf[i..][k + 1] == 0xFF;
      }
      ScanRunsOut(buf, i + 1);
    }
  }

  /** The length word at the start says `n`. */
  predicate HeaderLength(s: seq<byte>, n: nat) { |s| >= 2 && Be16(s[0], s[1]) == n }

  /** The scan header and the place of the data behind it. */
  lemma ScanPlace(items: seq<Item>, header: seq<byte>, data: seq<byte>)
    requires ValidItems(items) && AllHaveRoom(items, 2 + |header| + |data|) && MayScan(items)
    requires HeaderLength(header + data, |header|)
    ensures var buf, at := ItemsBytes(items) + ([0xFF, 0xDA] + (header + data)), |ItemsBytes(items)| + 2 + |header|;
            && |buf| == at + |data| && buf[at..] == data
            && Scanned(Walk(buf, INIT), items, Scan(buf, at).0, Scan(buf, at).1)
  {
    hide ItemsBytes, Walk, Scanned, Be16, MayScan, AllHaveRoom, ValidItems, Scan, Has;
    var tail := [0xFF, 0xDA] + (header + data);
    var buf, n := ItemsBytes(items) + tail, |ItemsBytes(items)|;
    ScanFollows(items, header + data);
    assert buf[n..] == tail;
    assert tail[2 + |header|..] == data;
  }

  /** A scan whose data is cut off by the end of the buffer: without Exif unknown, up to
      the last byte. */
  lemma ScanCut(items: seq<Item>, header: seq<byte>, data: seq<byte>)
    requires ValidItems(items) && AllHaveRoom(items, 2 + |header| + |data|) && MayScan(items) && Unended(data)
    requires HeaderLength(header + data, |header|)
    ensures var buf := ItemsBytes(items) + ([0xFF, 0xDA] + (header + data));
            Scanned(Walk(buf, INIT), items, Unknown, if data == [] then |buf| else |buf| - 1)
  {
    hide *;
    var buf, at := ItemsBytes(items) + ([0xFF, 0xDA] + (header + data)), |ItemsBytes(items)| + 2 + |header|;
    ScanPlace(items, header, data);
    if data == [] { ScanBeyond(buf, at); } else { ScanRunsOut(buf, at); }
  }

  lemma ScanBeyond(buf: seq<byte>, i: nat)
    requires i >= |buf|
    ensures Scan(buf, i) == (Unknown, i)
  {
  }

  /** A scan header that is longer than what is left: its length counts. */
  lemma ScanHeaderCut(items: seq<Item>, s: seq<byte>)
    requires ValidItems(items) && AllHaveRoom(items, 2 + |s|) && MayScan(items) && |s| >= 2 && Be16(s[0], s[1]) > |s|
    ensures Scanned(Walk(ItemsBytes(items) + ([0xFF, 0xDA] + s), INIT), items, Unknown, |ItemsBytes(items)| + 2 + Be16(s[0], s[1]))
  {
    hide ItemsBytes, Walk, Scanned, MayScan, AllHaveRoom, ValidItems, Scan, Be16;
    ScanFollows(items, s);
    ScanBeyond(ItemsBytes(items) + ([0xFF, 0xDA] + s), |ItemsBytes(items)| + 2 + Be16(s[0], s[1]));
  }

  /** A scan whose data is broken off by a marker: without Exif corrupt, up to that
      marker. */
  lemma ScanBroken(items: seq<Item>, header: seq<byte>, data: seq<byte>, entropy: seq<byte>, m: byte, rest: seq<byte>)
    requires ValidItems(items) && AllHaveRoom(items, 2 + |header| + |data|) && MayScan(items)
    requires data == entropy + [0xFF, m] + rest && HeaderLength(header + data, |header|) && Stuffed(entropy) && BreaksOff(m)
    ensures Scanned(Walk(ItemsBytes(items) + ([0xFF, 0xDA] + (header + data)), INIT), items, Corrupt,
                    |ItemsBytes(items)| + 2 + |header| + |entropy|)
  {
    hide *;
    ScanPlace(items, header, data);
    ScanToBreak(ItemsBytes(items) + ([0xFF, 0xDA] + (header + data)), |ItemsBytes(items)| + 2 + |header|, entropy, m, rest);
  }

  /** A scan with an end marker: without Exif complete, through that marker. */
  lemma ScanEnded(items: seq<Item>, header: seq<byte>, data: seq<byte>, entropy: seq<byte>, end: byte, rest: seq<byte>)
    requires ValidItems(items) && AllHaveRoom(items, 2 + |header| + |data|) && MayScan(items)
    requires data == entropy + [0xFF, end] + rest && HeaderLength(header + data, |header|) && Stuffed(entropy) && (end == 0xD9 || end == 0xDE)
    ensures Scanned(Walk(ItemsBytes(items) + ([0xFF, 0xDA] + (header + data)), INIT), items, Complete,
                    |ItemsBytes(items)| + 2 + |header| + |entropy| + 2)
  {
    hide *;
    ScanPlace(items, header, data);
    ScanToEnd(ItemsBytes(items) + ([0xFF, 0xDA] + (header + data)), |ItemsBytes(items)| + 2 + |header|, entropy, end, rest);
  }

  // ---------------------------------------------------------------------------
  // No other buffers

  /** What cannot be passed as an item: one of the cases above. */
  predicate Stops(tail: seq<byte>) {
    || (|tail| <= 8 && !(|tail| >= 2 && tail[0] == 0xFF && (tail[1] == 0xD8 || 0xD0 <= tail[1] <= 0xD7)))
    || tail[0] != 0xFF || tail[1] == 0xFF || tail[1] == 0x01 || tail[1] == 0xD9 || tail[1] == 0xDA
    || (!Standalone(tail[1]) && (Be16(tail[2], tail[3]) < 2 || Be16(tail[2], tail[3]) + 2 > |tail|))
  }

  /** Every buffer is items and then one of these. */
  lemma {:induction false} EveryBuffer(buf: seq<byte>) returns (items: seq<Item>, tail: seq<byte>)
    ensures ValidItems(items) && AllHaveRoom(items, |tail|) && buf == ItemsBytes(items) + tail && Stops(tail)
    decreases |buf|
  {
    if Stops(buf) {
      items, tail := [], buf;
    } else {
      var it, rest := FirstItem(buf);
      var more;
      more, tail := EveryBuffer(rest);
      items := [it] + more;
      hide ItemBytes, Stops;
      assert items[1..] == more;
      Assoc(ItemBytes(it), ItemsBytes(more), tail);
    }
  }

  lemma FirstItem(buf: seq<byte>) returns (it: Item, rest: seq<byte>)
    requires !Stops(buf)
    ensures ValidItem(it) && HasRoom(it, |rest|) && buf == ItemBytes(it) + rest && |rest| < |buf|
  {
    if Standalone(buf[1]) {
      it, rest := MarkerItem(buf[1]), buf[2..];
    } else {
      var length := Be16(buf[2], buf[3]);
      it, rest := Seg(buf[1], buf[4..2 + length]), buf[2 + length..];
      SegmentBytes(buf, 0, length);
      hide ItemBytes;
      assert buf[0..2 + length] == buf[..2 + length];
    }
  }

  /** And every scan is cut off, broken off or ended. */
  lemma {:induction false} EveryScan(data: seq<byte>) returns (entropy: seq<byte>, rest: seq<byte>)
    ensures Unended(data) || exists m: byte :: (BreaksOff(m) || m == 0xD9 || m == 0xDE) && Stuffed(entropy) && data == entropy + [0xFF, m] + rest
    decreases |data|
  {
    if |data| <= 1 {
      entropy, rest := [], [];
    } else if data[0] == 0xFF && !Continues(data[1]) {
      entropy, rest := [], data[2..];
      assert data == [] + [0xFF, data[1]] + rest;
    } else {
      entropy, rest := EveryScan(data[1..]);
      if Unended(data[1..]) {
        forall k | 0 <= k < |data| - 1 && data[k] == 0xFF ensures Continues(data[k + 1]) {
          if k > 0 { assert data[1..][k - 1] == 0xFF; }
        }
      } else {
        var m: byte :| (BreaksOff(m) || m == 0xD9 || m == 0xDE) && Stuffed(entropy) && data[1..] == entropy + [0xFF, m] + rest;
        assert (entropy + [0xFF, m] + rest)[0] == data[1];
        entropy := [data[0]] + entropy;
        assert data == [data[0]] + data[1..];
        assert data == entropy + [0xFF, m] + rest;
      }
    }
  }
}
