/** The EXIF/TIFF directory walk of exif_entry.cpp and exif_reader.cpp: nested
    directories at offsets the file chooses, under one budget of bytes. */
module Exif {
  import opened Basics
  import opened ExifValues

  const OPT_MAX_IFD_ENTRIES := 1000
  const OPT_MAX_EXIF_BYTES := 64 * 1024

  // ---------------------------------------------------------------------------
  // The records

  datatype Kind = TIFF | EXIF | GPS | INTEROPERABILITY

  datatype IfdType = IfdType(index: nat, kind: Kind)

  /** What parse_entry does with a tag. */
  datatype Action = Value | Dimension | Pointer(to: Kind) | Ignore

  /** The tags whose values are reported, in the first kind of directory ... */
  predicate TiffTag(tag: nat) {
    || tag == 0x0100 || tag == 0x0102 || tag == 0x0103 || tag == 0x0106 || 0x010e <= tag <= 0x0112
    || 0x0115 <= tag <= 0x0117 || 0x011a <= tag <= 0x011c || tag == 0x0128 || tag == 0x012d || tag == 0x0131
    || tag == 0x0132 || tag == 0x013b || tag == 0x013e || tag == 0x013f || tag == 0x0201 || tag == 0x0202
    || 0x0211 <= tag <= 0x0214 || tag == 0x8298
  }

  /** ... and in the second.  PixelXDimension and PixelYDimension (0xa002, 0xa003) and
      MakerNote (0x927c) are not among them: the first two are read with a check, the
      last is skipped. */
  predicate ExifTag(tag: nat) {
    || tag == 0x829a || tag == 0x829d || tag == 0x8822 || tag == 0x8824 || tag == 0x8827 || tag == 0x8828
    || 0x8830 <= tag <= 0x8835 || tag == 0x9000 || tag == 0x9003 || tag == 0x9004 || tag == 0x9101
    || tag == 0x9102 || 0x9201 <= tag <= 0x920a || tag == 0x9214 || tag == 0x9286 || 0x9290 <= tag <= 0x9292
    || tag == 0xa000 || tag == 0xa001 || tag == 0xa004 || tag == 0xa20b || tag == 0xa20c
    || 0xa20e <= tag <= 0xa210 || tag == 0xa214 || tag == 0xa215 || tag == 0xa217 || 0xa300 <= tag <= 0xa302
    || 0xa401 <= tag <= 0xa40c || tag == 0xa420 || 0xa430 <= tag <= 0xa435 || tag == 0xa500
  }

  function ActionFor(k: Kind, tag: nat): Action {
    match k
    case TIFF => if tag == 0x8769 then Pointer(EXIF) else if tag == 0x8825 then Pointer(GPS)
                 else if TiffTag(tag) then Value else Ignore
    case EXIF => if tag == 0xa005 then Pointer(INTEROPERABILITY) else if tag == 0xa002 || tag == 0xa003 then Dimension
                 else if ExifTag(tag) then Value else Ignore
    case GPS => if tag <= 0x1f then Value else Ignore
    case INTEROPERABILITY => if tag == 1 then Value else Ignore
  }

  /** A directory only points to directories of lower rank. */
  function Rank(k: Kind): nat {
    match k
    case TIFF => 3
    case EXIF => 2
    case GPS => 1
    case INTEROPERABILITY => 1
  }

  /** A value that was read: its tag, type and count, where its bytes were looked for,
      and the text made of them. */
  datatype Entry = Entry(ifd: IfdType, tag: nat, entryType: nat, count: nat, offset: nat, text: string) {
    function Size(): nat { count * UnitWidth(entryType) }
  }

  function GetNumEntries(t: Tiff, ifdOffset: nat): nat { Or(Get16u(t, ifdOffset), 0) }

  function GetFirstIfdOffset(t: Tiff): nat { Or(Get32u(t, 4), 0) }

  function GetNextIfdOffset(t: Tiff, ifdOffset: nat): nat {
    if ifdOffset == 0 then 0 else Or(Get32u(t, (ifdOffset + 2 + 12 * GetNumEntries(t, ifdOffset)) % UINT32), 0)
  }

  /** Where record `i` is, in 32 bits. */
  function EntryOffset(ifdOffset: nat, i: nat): nat { (ifdOffset + 2 + 12 * i) % UINT32 }

  function EntryAt(t: Tiff, ifd: IfdType, o: nat): Entry {
    var text := ValueText(t, o);
    Entry(ifd, GetEntryTag(t, o), GetEntryType(t, o), GetEntryCount(t, o), GetDataOffset(t, o),
          if text.Some? then text.value else "")
  }

  // ---------------------------------------------------------------------------
  // The walk without the budget

  /** How reading ends: normally, with exif_failure_exception_t, or with the range
      exception that nobody here catches. */
  datatype Outcome = Done | Failure | RangeException

  /** What is met on the way: a value to report, one that is read and then rejected, one
      whose text cannot be made, or a directory or record that is no good. */
  datatype Event = Met(e: Entry) | Rejected(e: Entry) | Escapes(e: Entry) | Bad

  /** A record that holds a value; the size of an image must not be too large. */
  function ValueEvent(t: Tiff, ifd: IfdType, o: nat, dimension: bool): Event {
    var e := EntryAt(t, ifd, o);
    if ValueText(t, o).None? then Escapes(e) else if dimension && Oversized(e.text) then Rejected(e) else Met(e)
  }

  function WalkIfd(t: Tiff, ifd: IfdType, ifdOffset: nat): seq<Event>
    decreases Rank(ifd.kind), 2, 0
  {
    var n := GetNumEntries(t, ifdOffset);
    if n > OPT_MAX_IFD_ENTRIES then [Bad] else WalkEntries(t, ifd, ifdOffset, 0, n)
  }

  function WalkEntries(t: Tiff, ifd: IfdType, ifdOffset: nat, i: nat, n: nat): seq<Event>
    requires i <= n
    decreases Rank(ifd.kind), 1, n - i
  {
    if i == n then []
    else if (EntryOffset(ifdOffset, i) + 12) % UINT32 > |t.buf| then [Bad]
    else WalkEntry(t, ifd, EntryOffset(ifdOffset, i)) + WalkEntries(t, ifd, ifdOffset, i + 1, n)
  }

  function WalkEntry(t: Tiff, ifd: IfdType, o: nat): seq<Event>
    decreases Rank(ifd.kind), 0, 0
  {
    if o + 12 > |t.buf| then []
    else
      match ActionFor(ifd.kind, GetEntryTag(t, o))
      case Value => [ValueEvent(t, ifd, o, false)]
      case Dimension => [ValueEvent(t, ifd, o, true)]
      case Pointer(k) => WalkIfd(t, ifd.(kind := k), GetIfdOffset(t, o))
      case Ignore => []
  }

  /** Both directories of a file. */
  function WalkTiff(t: Tiff): seq<Event> {
    var off0 := GetFirstIfdOffset(t);
    if off0 == 0 then []
    else
      var off1 := GetNextIfdOffset(t, off0);
      WalkIfd(t, IfdType(0, TIFF), off0) + (if off1 == 0 then [] else WalkIfd(t, IfdType(1, TIFF), off1))
  }

  // ---------------------------------------------------------------------------
  // What fits the budget

  function Total(es: seq<Entry>): nat
    decreases |es|
  {
    if es == [] then 0 else es[0].Size() + Total(es[1..])
  }

  datatype Gleaned = Gleaned(entries: seq<Entry>, how: Outcome)

  /** The values up to the first event of another kind, or the first that exceeds the
      budget when `spent` is used already.  Values are charged before they are made. */
  function Glean(evs: seq<Event>, spent: nat): Gleaned
    decreases |evs|
  {
    if evs == [] then Gleaned([], Done)
    else if evs[0].Bad? || evs[0].Rejected? || spent + evs[0].e.Size() >= OPT_MAX_EXIF_BYTES then Gleaned([], Failure)
    else if evs[0].Escapes? then Gleaned([], RangeException)
    else
      var rest := Glean(evs[1..], spent + evs[0].e.Size());
      Gleaned([evs[0].e] + rest.entries, rest.how)
  }

  lemma {:induction false} TotalConcat(a: seq<Entry>, b: seq<Entry>)
    ensures Total(a + b) == Total(a) + Total(b)
    decreases |a|
  {
    if a == [] {
      assert a + b == b;
    } else {
      assert (a + b)[1..] == a[1..] + b;
      TotalConcat(a[1..], b);
    }
  }

  function Then(g: Gleaned, h: Gleaned): Gleaned { Gleaned(g.entries + h.entries, h.how) }

  lemma GleanCons(e: Entry, rest: seq<Event>, spent: nat)
    ensures Glean([Met(e)] + rest, spent) ==
            if spent + e.Size() >= OPT_MAX_EXIF_BYTES then Gleaned([], Failure)
            else Then(Gleaned([e], Done), Glean(rest, spent + e.Size()))
  {
    assert ([Met(e)] + rest)[1..] == rest;
  }

  /** Behind an event that is no value nothing is read. */
  lemma GleanStops(ev: Event, rest: seq<Event>, more: seq<Event>, spent: nat)
    requires !ev.Met?
    ensures Glean([ev] + rest, spent) == Glean([ev] + more, spent) && Glean([ev] + rest, spent).how != Done
  {
  }

  lemma GleanNothing(spent: nat)
    ensures forall g: Gleaned :: Then(Glean([], spent), g) == g
  {
    forall g: Gleaned ensures Then(Glean([], spent), g) == g { assert [] + g.entries == g.entries; }
  }

  lemma ThenIsAssociative(f: Gleaned, g: Gleaned, h: Gleaned)
    ensures Then(Then(f, g), h) == Then(f, Then(g, h))
    ensures Total(Then(f, g).entries) == Total(f.entries) + Total(g.entries)
  {
    assert (f.entries + g.entries) + h.entries == f.entries + (g.entries + h.entries);
    TotalConcat(f.entries, g.entries);
  }

  lemma TotalOne(e: Entry)
    ensures Total([e]) == e.Size() && Total([]) == 0
  {
    assert [e][1..] == [];
  }

  /** Gleaning the one part after the other is gleaning the whole. */
  lemma {:induction false} GleanConcat(a: seq<Event>, b: seq<Event>, spent: nat)
    ensures var g := Glean(a, spent);
            Glean(a + b, spent) == if g.how != Done then g else Then(g, Glean(b, spent + Total(g.entries)))
    decreases |a|
  {
    if a == [] {
      GleanNothing(spent);
      assert a + b == b;
    } else {
      var rest := a[1..];
      assert a == [a[0]] + rest && a + b == [a[0]] + (rest + b);
      hide *;
      match a[0]
      case Met(e) =>
        if spent + e.Size() < OPT_MAX_EXIF_BYTES { GleanConcat(rest, b, spent + e.Size()); }
        GleanConcatMet(e, rest, b, spent);
      case _ =>
        GleanStops(a[0], rest, rest + b, spent);
    }
  }

  lemma GleanConcatMet(e: Entry, rest: seq<Event>, b: seq<Event>, spent: nat)
    requires var next := spent + e.Size();
             next < OPT_MAX_EXIF_BYTES ==>
               var r := Glean(rest, next);
               Glean(rest + b, next) == if r.how != Done then r else Then(r, Glean(b, next + Total(r.entries)))
    ensures var g := Glean([Met(e)] + rest, spent);
            Glean([Met(e)] + (rest + b), spent) == if g.how != Done then g else Then(g, Glean(b, spent + Total(g.entries)))
  {
    hide *;
    var next := spent + e.Size();
    GleanCons(e, rest, spent);
    GleanCons(e, rest + b, spent);
    if next < OPT_MAX_EXIF_BYTES {
      var one, r := Gleaned([e], Done), Glean(rest, next);
      ThenIsAssociative(one, r, Glean(b, next + Total(r.entries)));
      TotalOne(e);
      ThenEnds(one, r);
    }
  }

  lemma ThenEnds(g: Gleaned, h: Gleaned)
    ensures Then(g, h).how == h.how
  {
  }

  /** The byte counter and the list of entries. */
  datatype State = State(bytesRead: nat, entries: seq<Entry>)

  /** From one state to another the list grew by what was gleaned of the events and, if
      nothing was thrown, the counter by its exact size. */
  predicate Grew(evs: seq<Event>, s: State, how: Outcome, u: State) {
    var g := Glean(evs, s.bytesRead);
    && u.entries == s.entries + g.entries && how == g.how
    && (how.Done? ==> u.bytesRead == s.bytesRead + Total(g.entries) < OPT_MAX_EXIF_BYTES)
  }

  lemma GrewNothing(s: State)
    requires s.bytesRead < OPT_MAX_EXIF_BYTES
    ensures Grew([], s, Done, s)
  {
  }

  lemma GrewBad(s: State)
    ensures Grew([Bad], s, Failure, s)
  {
  }

  /** One record with a value, as the budget test and the check of its size have it. */
  lemma GrewOne(ev: Event, s: State, how: Outcome, u: State)
    requires !ev.Bad? && u.entries == (if how.Done? then s.entries + [ev.e] else s.entries)
    requires how == if s.bytesRead + ev.e.Size() >= OPT_MAX_EXIF_BYTES || ev.Rejected? then Failure
                    else if ev.Escapes? then RangeException else Done
    requires how.Done? ==> u.bytesRead == s.bytesRead + ev.e.Size()
    ensures Grew([ev], s, how, u)
  {
    GleanOne(ev, s.bytesRead);
    if how.Done? { TotalOne(ev.e); }
  }

  lemma GleanOne(ev: Event, spent: nat)
    requires !ev.Bad?
    ensures Glean([ev], spent) ==
            if spent + ev.e.Size() >= OPT_MAX_EXIF_BYTES || ev.Rejected? then Gleaned([], Failure)
            else if ev.Escapes? then Gleaned([], RangeException) else Gleaned([ev.e], Done)
  {
    assert [ev][1..] == [] && [ev.e] + [] == [ev.e];
  }

  lemma GrewThen(a: seq<Event>, b: seq<Event>, s: State, u: State, how: Outcome, v: State)
    requires Grew(a, s, Done, u) && Grew(b, u, how, v)
    ensures Grew(a + b, s, how, v)
  {
    GleanConcat(a, b, s.bytesRead);
    var g, h := Glean(a, s.bytesRead), Glean(b, u.bytesRead);
    hide Glean, Total;
    ThenIsAssociative(Gleaned(s.entries, Done), g, h);
    ThenIsAssociative(g, h, h);
  }

  lemma GrewFails(a: seq<Event>, b: seq<Event>, s: State, how: Outcome, u: State)
    requires Grew(a, s, how, u) && how != Done
    ensures Grew(a + b, s, how, u)
  {
    GleanConcat(a, b, s.bytesRead);
  }

  /** One more record of a directory. */
  lemma GrewOneMore(all: seq<Event>, done: seq<Event>, one: seq<Event>, rest: seq<Event>, s: State, u: State, how: Outcome, v: State)
    requires all == done + (one + rest) && Grew(done, s, Done, u) && Grew(one, u, how, v)
    ensures all == (done + one) + rest
    ensures if how.Done? then Grew(done + one, s, how, v) else Grew(all, s, how, v)
  {
    hide Grew;
    assert all == (done + one) + rest;
    GrewThen(done, one, s, u, how, v);
    if how != Done { GrewFails(done + one, rest, s, how, v); }
  }

  // ---------------------------------------------------------------------------
  // The code

  /** The budget test of the value readers is exact although sums and products wrap at
      32 bits. */
  lemma BudgetIsExact(bytesRead: nat, count: nat, entryType: nat)
    requires bytesRead < OPT_MAX_EXIF_BYTES
    ensures var next := (bytesRead + count * UnitWidth(entryType) % UINT32) % UINT32;
            && (count < CountLimit(entryType) && next < OPT_MAX_EXIF_BYTES
                <==> bytesRead + count * UnitWidth(entryType) < OPT_MAX_EXIF_BYTES)
            && (count < CountLimit(entryType) ==> next == bytesRead + count * UnitWidth(entryType))
  {
    var w := UnitWidth(entryType);
    if count < CountLimit(entryType) { assert count * w < OPT_MAX_EXIF_BYTES; } else { assert count * w >= OPT_MAX_EXIF_BYTES; }
  }

  /** `tiff_handle_t`, with the list that the entries are pushed onto.  A method that
      returns another outcome than Done has thrown. */
  class Reader {
    const tiff: Tiff
    var bytesRead: nat
    var entries: seq<Entry>

    constructor (tiff: Tiff)
      ensures this.tiff == tiff && Now() == State(0, [])
    {
      this.tiff := tiff;
      bytesRead, entries := 0, [];
    }

    function Now(): State
      reads this
    {
      State(bytesRead, entries)
    }

    /** The value readers: charge, test the budget, make the text. */
    method GetValue(o: nat) returns (how: Outcome, text: string)
      requires bytesRead < OPT_MAX_EXIF_BYTES
      modifies this`bytesRead
      ensures var total := old(bytesRead) + GetEntryCount(tiff, o) * UnitWidth(GetEntryType(tiff, o));
              && (how.Failure? <==> total >= OPT_MAX_EXIF_BYTES) && (!how.Failure? ==> bytesRead == total)
      ensures !how.Failure? ==> (how.Done? <==> ValueText(tiff, o).Some?)
      ensures how.Done? ==> ValueText(tiff, o) == Some(text)
    {
      var entryType, count := GetEntryType(tiff, o), GetEntryCount(tiff, o);
      BudgetIsExact(bytesRead, count, entryType);
      hide GetEntryCount, GetEntryType, UnitWidth, CountLimit, ValueText;
      bytesRead := (bytesRead + count * UnitWidth(entryType) % UINT32) % UINT32;
      if count >= CountLimit(entryType) || bytesRead >= 0x10000 { return Failure, ""; }
      var s := GetText(tiff, o);
      if s.None? { return RangeException, ""; }
      return Done, s.value;
    }

    method ParseIfdEntries(ifd: IfdType, ifdOffset: nat) returns (how: Outcome)
      requires bytesRead < OPT_MAX_EXIF_BYTES
      modifies this
      ensures Grew(WalkIfd(tiff, ifd, ifdOffset), old(Now()), how, Now())
      ensures how.Done? ==> bytesRead < OPT_MAX_EXIF_BYTES
      decreases Rank(ifd.kind), 1
    {
      hide Grew, WalkIfd, WalkEntries, WalkEntry, GetNumEntries, EntryOffset;
      var numEntries := GetNumEntries(tiff, ifdOffset);
      WalkStart(tiff, ifd, ifdOffset);
      GrewNothing(Now());
      GrewBad(Now());
      if numEntries == 0 { return Done; }
      if numEntries > OPT_MAX_IFD_ENTRIES { return Failure; }
      ghost var all := WalkIfd(tiff, ifd, ifdOffset);
      ghost var start, done := Now(), [];
      var i := 0;
      how := Done;
      while i < numEntries
        invariant 0 <= i <= numEntries && how.Done? && bytesRead < OPT_MAX_EXIF_BYTES
        invariant all == done + WalkEntries(tiff, ifd, ifdOffset, i, numEntries) && Grew(done, start, Done, Now())
      {
        if bytesRead >= OPT_MAX_EXIF_BYTES { assert false; }
        var o := EntryOffset(ifdOffset, i);
        NextEntry(tiff, ifd, ifdOffset, i, numEntries);
        ghost var before, one := Now(), WalkEntry(tiff, ifd, o);
        if (o + 12) % UINT32 > |tiff.buf| {
          GrewBad(before);
          GrewThen(done, [Bad], start, before, Failure, before);
          return Failure;
        }
        how := ParseEntry(ifd, o);
        GrewOneMore(all, done, one, WalkEntries(tiff, ifd, ifdOffset, i + 1, numEntries), start, before, how, Now());
        if how != Done { return; }
        done, i := done + one, i + 1;
      }
      WalkedAll(tiff, ifd, ifdOffset, numEntries, done);
    }

    method ParseEntry(ifd: IfdType, o: nat) returns (how: Outcome)
      requires bytesRead < OPT_MAX_EXIF_BYTES
      modifies this
      ensures Grew(WalkEntry(tiff, ifd, o), old(Now()), how, Now())
      ensures how.Done? ==> bytesRead < OPT_MAX_EXIF_BYTES
      decreases Rank(ifd.kind), 0
    {
      hide Grew, WalkIfd, Get16u, Get32u, ValueText, Oversized;
      GrewNothing(Now());
      if o + 12 > |tiff.buf| { return Done; }
      ghost var before := Now();
      var text;
      match ActionFor(ifd.kind, GetEntryTag(tiff, o))
      case Value =>
        how, text := GetValue(o);
        if how.Done? { AddEntry(ifd, o, text); }
        GrewOne(ValueEvent(tiff, ifd, o, false), before, how, Now());
      case Dimension =>
        how, text := GetValue(o);
        if how.Done? {
          if Oversized(text) { how := Failure; } else { AddEntry(ifd, o, text); }
        }
        GrewOne(ValueEvent(tiff, ifd, o, true), before, how, Now());
      case Pointer(k) =>
        how := ParseIfdEntries(ifd.(kind := k), GetIfdOffset(tiff, o));
      case Ignore =>
        how := Done;
    }

    method AddEntry(ifd: IfdType, o: nat, text: string)
      requires ValueText(tiff, o) == Some(text)
      modifies this`entries
      ensures entries == old(entries) + [EntryAt(tiff, ifd, o)]
    {
      hide ValueText;
      var tag, entryType, count, offset := GetEntryTag(tiff, o), GetEntryType(tiff, o), GetEntryCount(tiff, o), GetDataOffset(tiff, o);
      entries := entries + [Entry(ifd, tag, entryType, count, offset, text)];
    }

    /** Both directories of a file. */
    method ReadDirectories() returns (how: Outcome)
      requires Now() == State(0, [])
      modifies this
      ensures Grew(WalkTiff(tiff), State(0, []), how, Now())
    {
      hide Grew, WalkIfd, Get16u, Get32u;
      var off0 := GetFirstIfdOffset(tiff);
      GrewNothing(Now());
      if off0 == 0 { return Done; }
      ghost var start := Now();
      ghost var first := WalkIfd(tiff, IfdType(0, TIFF), off0);
      how := ParseIfdEntries(IfdType(0, TIFF), off0);
      var off1 := GetNextIfdOffset(tiff, off0);
      ghost var second := if off1 == 0 then [] else WalkIfd(tiff, IfdType(1, TIFF), off1);
      ghost var between := Now();
      if how != Done {
        GrewFails(first, second, start, how, between);
        return;
      }
      if off1 == 0 {
        assert first + [] == first;
        return;
      }
      how := ParseIfdEntries(IfdType(1, TIFF), off1);
      GrewThen(first, second, start, between, how, Now());
    }
  }

  const INTEL: seq<byte> := [0x49, 0x49, 42, 0]
  const MOTOROLA: seq<byte> := [0x4d, 0x4d, 0, 42]

  function GetTiffByteOrder(buf: seq<byte>): Order { if INTEL <= buf then LittleEndian else BigEndian }

  /** Callers make sure of the byte order mark.  The list holds what was gleaned from
      both directories, also after an exception. */
  method ReadTiffData(buf: seq<byte>, texts: map<nat, string>) returns (how: Outcome, entries: seq<Entry>)
    requires |buf| >= 4 ==> INTEL <= buf || MOTOROLA <= buf
    ensures Gleaned(entries, how) ==
            if |buf| < 4 then Gleaned([], Done) else Glean(WalkTiff(Tiff(buf, GetTiffByteOrder(buf), texts)), 0)
  {
    hide Glean, WalkTiff;
    if |buf| < 4 { return Done, []; }
    var r := new Reader(Tiff(buf, GetTiffByteOrder(buf), texts));
    how := r.ReadDirectories();
    entries := r.entries;
    assert [] + Glean(WalkTiff(r.tiff), 0).entries == Glean(WalkTiff(r.tiff), 0).entries;
  }

  lemma NextEntry(t: Tiff, ifd: IfdType, ifdOffset: nat, i: nat, n: nat)
    requires i < n
    ensures WalkEntries(t, ifd, ifdOffset, i, n) ==
            if (EntryOffset(ifdOffset, i) + 12) % UINT32 > |t.buf| then [Bad]
            else WalkEntry(t, ifd, EntryOffset(ifdOffset, i)) + WalkEntries(t, ifd, ifdOffset, i + 1, n)
  {
  }

  lemma WalkStart(t: Tiff, ifd: IfdType, ifdOffset: nat)
    ensures var n := GetNumEntries(t, ifdOffset);
            WalkIfd(t, ifd, ifdOffset) ==
            if n == 0 then [] else if n > OPT_MAX_IFD_ENTRIES then [Bad]
            else [] + WalkEntries(t, ifd, ifdOffset, 0, n)
  {
  }

  lemma WalkedAll(t: Tiff, ifd: IfdType, ifdOffset: nat, n: nat, done: seq<Event>)
    ensures done + WalkEntries(t, ifd, ifdOffset, n, n) == done
  {
  }

  // ---------------------------------------------------------------------------
  // What gleaning means

  /** The values before the first event of another kind. */
  function Readable(evs: seq<Event>): (es: seq<Entry>)
    ensures |es| <= |evs|
    decreases |evs|
  {
    if evs == [] || !evs[0].Met? then [] else [evs[0].e] + Readable(evs[1..])
  }

  /** How reading ends when all the values before were read: at the end, or at the first
      event that is no value. */
  function EndsAt(evs: seq<Event>, spent: nat): Outcome {
    var n := |Readable(evs)|;
    if n == |evs| then Done
    else if evs[n].Escapes? && spent + Total(Readable(evs)) + evs[n].e.Size() < OPT_MAX_EXIF_BYTES then RangeException
    else Failure
  }

  /** The entries gleaned are the values before the first event of another kind, as many
      as fit: below the budget, and either all of them or up to one that does not fit,
      which is a failure.  If all fit, the event behind them decides. */
  lemma {:induction false} GleanedIsWhatFits(evs: seq<Event>, spent: nat)
    requires spent < OPT_MAX_EXIF_BYTES
    ensures var g, all := Glean(evs, spent), Readable(evs);
            && g.entries <= all && spent + Total(g.entries) < OPT_MAX_EXIF_BYTES
            && (|g.entries| < |all| ==> spent + Total(all[..|g.entries| + 1]) >= OPT_MAX_EXIF_BYTES && g.how == Failure)
            && (g.entries == all ==> g.how == EndsAt(evs, spent))
    decreases |evs|
  {
    hide EndsAt, Glean, Readable, Total;
    GleanEvents(evs, spent);
    ReadableEvents(evs, spent);
    if evs != [] && evs[0].Met? {
      var e, all, more := evs[0].e, Readable(evs), Readable(evs[1..]);
      if spent + e.Size() < OPT_MAX_EXIF_BYTES {
        GleanedIsWhatFits(evs[1..], spent + e.Size());
        var r := Glean(evs[1..], spent + e.Size()).entries;
        TotalCons(e, r);
        assert ([e] + r)[1..] == r && all[1..] == more;
        if |r| < |more| {
          TotalCons(e, more[..|r| + 1]);
          assert all[..|r| + 2] == [e] + more[..|r| + 1];
        }
      } else {
        TotalOne(e);
        assert all[..1] == [e];
      }
    } else {
      TotalNone();
    }
  }

  lemma GleanEvents(evs: seq<Event>, spent: nat)
    ensures evs == [] ==> Glean(evs, spent) == Gleaned([], Done)
    ensures evs != [] && !evs[0].Met? ==> Glean(evs, spent) == Gleaned([], EndsAt(evs, spent))
    ensures evs != [] && evs[0].Met? ==>
              Glean(evs, spent) == if spent + evs[0].e.Size() >= OPT_MAX_EXIF_BYTES then Gleaned([], Failure)
                                   else Then(Gleaned([evs[0].e], Done), Glean(evs[1..], spent + evs[0].e.Size()))
  {
  }

  lemma ReadableEvents(evs: seq<Event>, spent: nat)
    ensures evs == [] ==> Readable(evs) == [] && EndsAt(evs, spent) == Done
    ensures evs != [] && !evs[0].Met? ==> Readable(evs) == []
    ensures evs != [] && evs[0].Met? ==>
              Readable(evs) == [evs[0].e] + Readable(evs[1..]) && EndsAt(evs, spent) == EndsAt(evs[1..], spent + evs[0].e.Size())
  {
    if evs != [] && evs[0].Met? { TotalCons(evs[0].e, Readable(evs[1..])); }
    hide Total;
  }

  lemma TotalCons(e: Entry, es: seq<Entry>)
    ensures Total([e] + es) == e.Size() + Total(es)
  {
    assert ([e] + es)[1..] == es;
  }

  lemma TotalNone()
    ensures Total([]) == 0
  {
  }

  /** Success means: nothing but values, and all of them fit. */
  lemma SuccessIff(evs: seq<Event>, spent: nat)
    requires spent < OPT_MAX_EXIF_BYTES
    ensures Glean(evs, spent).how == Done <==>
            (forall i :: 0 <= i < |evs| ==> evs[i].Met?) && spent + Total(Readable(evs)) < OPT_MAX_EXIF_BYTES
  {
    GleanedIsWhatFits(evs, spent);
    AllReadable(evs);
    hide Glean, Readable;
    var g, all := Glean(evs, spent), Readable(evs);
    if |g.entries| < |all| {
      TotalGrows(all, |g.entries| + 1);
    }
  }

  lemma {:induction false} AllReadable(evs: seq<Event>)
    ensures |Readable(evs)| == |evs| <==> forall i :: 0 <= i < |evs| ==> evs[i].Met?
    decreases |evs|
  {
    if evs != [] && evs[0].Met? {
      AllReadable(evs[1..]);
      assert forall i :: 0 <= i < |evs[1..]| ==> evs[1..][i] == evs[i + 1];
      assert forall i :: 0 < i < |evs| ==> evs[i] == evs[1..][i - 1];
    }
  }

  lemma TotalGrows(es: seq<Entry>, n: nat)
    requires n <= |es|
    ensures Total(es[..n]) <= Total(es)
  {
    TotalConcat(es[..n], es[n..]);
    assert es == es[..n] + es[n..];
  }

  // ---------------------------------------------------------------------------
  // Two special tags

  /** A MakerNote is skipped, whatever its count: nothing is charged, nothing reported. */
  lemma MakerNoteIsSkipped(t: Tiff, ifd: IfdType, o: nat, s: State, how: Outcome, u: State)
    requires ifd.kind == EXIF && GetEntryTag(t, o) == 0x927c && s.bytesRead < OPT_MAX_EXIF_BYTES
    requires Grew(WalkEntry(t, ifd, o), s, how, u)
    ensures how == Done && u == s
  {
    hide GetEntryTag, ValueEvent, WalkIfd, GetIfdOffset, ActionFor;
    ActionsOfThree();
    assert WalkEntry(t, ifd, o) == [] && Glean([], s.bytesRead) == Gleaned([], Done) && Total([]) == 0;
    assert u.bytesRead == s.bytesRead;
    assert u.entries == s.entries + [] == s.entries;
  }

  lemma ActionsOfThree()
    ensures ActionFor(EXIF, 0x927c) == Ignore && ActionFor(EXIF, 0xa002) == ActionFor(EXIF, 0xa003) == Dimension
  {
  }

  /** The dimensions of an image whose value is numeric, and within the budget, are a
      failure exactly if the first number is above 65535, which only four types can
      hold; nothing is reported then.  Otherwise they are reported. */
  lemma DimensionFailsIff(t: Tiff, ifd: IfdType, o: nat, s: State, how: Outcome, u: State)
    requires ifd.kind == EXIF && o + 12 <= |t.buf| && (GetEntryTag(t, o) == 0xa002 || GetEntryTag(t, o) == 0xa003)
    requires Numeric(GetEntryType(t, o), GetEntryCount(t, o))
    requires s.bytesRead + EntryAt(t, ifd, o).Size() < OPT_MAX_EXIF_BYTES
    requires Grew(WalkEntry(t, ifd, o), s, how, u)
    ensures how == if FirstNumber(t, o) > MAX_IMAGE_SIZE then Failure else Done
    ensures u.entries == if how.Done? then s.entries + [EntryAt(t, ifd, o)] else s.entries
    ensures how.Failure? ==> GetEntryType(t, o) in {4, 5, 9, 10}
  {
    hide GetEntryTag, GetEntryType, GetEntryCount, GetDataOffset, ValueText, FirstNumber, Numeric, WalkIfd, GetIfdOffset, Atol, ActionFor, Glean, Total;
    ActionsOfThree();
    SizeOfNumeric(t, o);
    var ev := ValueEvent(t, ifd, o, true);
    GleanOne(ev, s.bytesRead);
    assert WalkEntry(t, ifd, o) == [ev];
  }

  // ---------------------------------------------------------------------------
  // Which values are met

  /** A tag that the kind of directory knows; and no image size is too large. */
  predicate Reported(e: Entry) {
    var action := ActionFor(e.ifd.kind, e.tag);
    action == Value || (action == Dimension && !Oversized(e.text))
  }

  /** The content of a record of the buffer. */
  ghost predicate FromRecord(t: Tiff, e: Entry) {
    exists o: nat :: o + 12 <= |t.buf| && e == EntryAt(t, e.ifd, o) && ValueText(t, o) == Some(e.text)
  }

  /** Values of directory `index` only, each under a tag that its kind of directory
      knows, and read from a record of the buffer. */
  ghost predicate Genuine(t: Tiff, index: nat, ev: Event) {
    ev.Met? ==> ev.e.ifd.index == index && Reported(ev.e) && FromRecord(t, ev.e)
  }

  ghost predicate AllGenuine(t: Tiff, index: nat, evs: seq<Event>) { forall i :: 0 <= i < |evs| ==> Genuine(t, index, evs[i]) }

  lemma {:induction false} IfdGenuine(t: Tiff, ifd: IfdType, ifdOffset: nat)
    ensures AllGenuine(t, ifd.index, WalkIfd(t, ifd, ifdOffset))
    decreases Rank(ifd.kind), 2, 0
  {
    var n := GetNumEntries(t, ifdOffset);
    if n <= OPT_MAX_IFD_ENTRIES { EntriesGenuine(t, ifd, ifdOffset, 0, n); }
  }

  lemma {:induction false} EntriesGenuine(t: Tiff, ifd: IfdType, ifdOffset: nat, i: nat, n: nat)
    requires i <= n
    ensures AllGenuine(t, ifd.index, WalkEntries(t, ifd, ifdOffset, i, n))
    decreases Rank(ifd.kind), 1, n - i
  {
    hide Genuine, WalkEntry;
    if i < n && (EntryOffset(ifdOffset, i) + 12) % UINT32 <= |t.buf| {
      EntryGenuine(t, ifd, EntryOffset(ifdOffset, i));
      EntriesGenuine(t, ifd, ifdOffset, i + 1, n);
    } else {
      assert Genuine(t, ifd.index, Bad) by { BadIsGenuine(t, ifd.index); }
    }
  }

  lemma BadIsGenuine(t: Tiff, index: nat)
    ensures Genuine(t, index, Bad)
  {
  }

  lemma {:induction false} EntryGenuine(t: Tiff, ifd: IfdType, o: nat)
    ensures AllGenuine(t, ifd.index, WalkEntry(t, ifd, o))
    decreases Rank(ifd.kind), 0, 0
  {
    hide WalkIfd, GetEntryTag, GetEntryType, GetEntryCount, GetDataOffset, GetIfdOffset, ValueText, Oversized, Genuine;
    if o + 12 <= |t.buf| {
      match ActionFor(ifd.kind, GetEntryTag(t, o))
      case Pointer(k) => IfdGenuine(t, ifd.(kind := k), GetIfdOffset(t, o));
      case Value => EventGenuine(t, ifd, o, false);
      case Dimension => EventGenuine(t, ifd, o, true);
      case Ignore =>
    }
  }

  lemma EventGenuine(t: Tiff, ifd: IfdType, o: nat, dimension: bool)
    requires o + 12 <= |t.buf| && ActionFor(ifd.kind, GetEntryTag(t, o)) == if dimension then Dimension else Value
    ensures Genuine(t, ifd.index, ValueEvent(t, ifd, o, dimension))
  {
    hide GetEntryTag, GetEntryType, GetEntryCount, GetDataOffset, ValueText, Oversized, ActionFor;
    var e := EntryAt(t, ifd, o);
    assert e.tag == GetEntryTag(t, o) && e.ifd == ifd;
    assert ValueText(t, o).Some? ==> FromRecord(t, e);
  }

  lemma {:induction false} GleanedWereMet(evs: seq<Event>, spent: nat)
    ensures forall e :: e in Glean(evs, spent).entries ==> Met(e) in evs
    decreases |evs|
  {
    if evs != [] && evs[0].Met? && spent + evs[0].e.Size() < OPT_MAX_EXIF_BYTES {
      GleanedWereMet(evs[1..], spent + evs[0].e.Size());
    }
  }

  /** Nothing is reported but the contents of records of the buffer under tags that are
      known for the kind of directory the record was read as, no image size above 65535
      among them; all others are suppressed. */
  lemma OnlyKnownTags(t: Tiff)
    ensures forall e :: e in Glean(WalkTiff(t), 0).entries ==> e.ifd.index < 2 && Reported(e) && FromRecord(t, e)
  {
    hide WalkIfd, Glean, EntryAt, ActionFor, Reported, FromRecord;
    var off0 := GetFirstIfdOffset(t);
    var off1 := GetNextIfdOffset(t, off0);
    IfdGenuine(t, IfdType(0, TIFF), off0);
    IfdGenuine(t, IfdType(1, TIFF), off1);
    GleanedWereMet(WalkTiff(t), 0);
    var evs := WalkTiff(t);
    forall e | e in Glean(evs, 0).entries
      ensures e.ifd.index < 2 && Reported(e) && FromRecord(t, e)
    {
      var i :| 0 <= i < |evs| && evs[i] == Met(e);
      assert Genuine(t, 0, evs[i]) || Genuine(t, 1, evs[i]);
    }
  }

  // ---------------------------------------------------------------------------
  // How large a walk can get

  function Cap(k: Kind): nat {
    match k
    case TIFF => 1000 * 1000 * 1000
    case EXIF => 1000 * 1000
    case GPS => 1000
    case INTEROPERABILITY => 1000
  }

  /** How deep the walk of a directory nests, itself included. */
  function IfdDepth(t: Tiff, ifd: IfdType, ifdOffset: nat): nat
    decreases Rank(ifd.kind), 2, 0
  {
    var n := GetNumEntries(t, ifdOffset);
    1 + if n > OPT_MAX_IFD_ENTRIES then 0 else EntriesDepth(t, ifd, ifdOffset, 0, n)
  }

  /** How deep the walks of the directories nest that records `i` to `n` lead to. */
  function EntriesDepth(t: Tiff, ifd: IfdType, ifdOffset: nat, i: nat, n: nat): nat
    requires i <= n
    decreases Rank(ifd.kind), 1, n - i
  {
    var o := EntryOffset(ifdOffset, i);
    if i == n || (o + 12) % UINT32 > |t.buf| then 0
    else Max(EntryDepth(t, ifd, o), EntriesDepth(t, ifd, ifdOffset, i + 1, n))
  }

  function EntryDepth(t: Tiff, ifd: IfdType, o: nat): nat
    decreases Rank(ifd.kind), 0, 0
  {
    if o + 12 > |t.buf| then 0
    else
      match ActionFor(ifd.kind, GetEntryTag(t, o))
      case Pointer(k) => IfdDepth(t, ifd.(kind := k), GetIfdOffset(t, o))
      case _ => 0
  }

  lemma {:induction false} WalkIfdBound(t: Tiff, ifd: IfdType, ifdOffset: nat)
    ensures |WalkIfd(t, ifd, ifdOffset)| <= Cap(ifd.kind) && IfdDepth(t, ifd, ifdOffset) <= Rank(ifd.kind)
    decreases Rank(ifd.kind), 2, 0
  {
    var n := GetNumEntries(t, ifdOffset);
    if n <= OPT_MAX_IFD_ENTRIES { WalkEntriesBound(t, ifd, ifdOffset, 0, n); }
  }

  lemma {:induction false} WalkEntriesBound(t: Tiff, ifd: IfdType, ifdOffset: nat, i: nat, n: nat)
    requires i <= n <= OPT_MAX_IFD_ENTRIES
    ensures |WalkEntries(t, ifd, ifdOffset, i, n)| <= (n - i) * (Cap(ifd.kind) / 1000)
    ensures EntriesDepth(t, ifd, ifdOffset, i, n) < Rank(ifd.kind)
    decreases Rank(ifd.kind), 1, n - i
  {
    hide WalkEntry, EntryDepth;
    if i < n {
      WalkEntryBound(t, ifd, EntryOffset(ifdOffset, i));
      WalkEntriesBound(t, ifd, ifdOffset, i + 1, n);
    }
  }

  lemma {:induction false} WalkEntryBound(t: Tiff, ifd: IfdType, o: nat)
    ensures |WalkEntry(t, ifd, o)| <= Cap(ifd.kind) / 1000 && EntryDepth(t, ifd, o) < Rank(ifd.kind)
    decreases Rank(ifd.kind), 0, 0
  {
    hide WalkIfd, IfdDepth, GetEntryTag, GetIfdOffset;
    if o + 12 <= |t.buf| {
      match ActionFor(ifd.kind, GetEntryTag(t, o))
      case Pointer(k) => WalkIfdBound(t, ifd.(kind := k), GetIfdOffset(t, o));
      case _ =>
    }
  }

  /** Whatever the offsets, even if directories point at themselves, the walk ends, nests
      at most three deep from any directory, and its size does not depend on the
      buffer's. */
  lemma WalkIsBounded(t: Tiff)
    ensures |WalkTiff(t)| <= 2 * Cap(TIFF)
    ensures forall ifd, ifdOffset: nat :: IfdDepth(t, ifd, ifdOffset) <= 3
  {
    hide WalkIfd, IfdDepth;
    var off0 := GetFirstIfdOffset(t);
    WalkIfdBound(t, IfdType(0, TIFF), off0);
    WalkIfdBound(t, IfdType(1, TIFF), GetNextIfdOffset(t, off0));
    forall ifd, ifdOffset: nat ensures IfdDepth(t, ifd, ifdOffset) <= 3 { WalkIfdBound(t, ifd, ifdOffset); }
  }

  // ---------------------------------------------------------------------------
  // Where a value is looked for

  /** Where the format puts the data of a value: in the record if it fits four bytes,
      otherwise at the offset the record holds. */
  function TrueDataOffset(t: Tiff, o: nat): nat
    requires o + 12 <= |t.buf|
  {
    if GetEntryCount(t, o) * ByteWidth(GetEntryType(t, o)) <= 4 then o + 8 else Get32u(t, o + 8).value
  }

  /** For values that were read, with a known type, the place is the right one exactly
      if it is below 64K: only 16 bits of it are kept. */
  lemma DataOffsetRightIff(t: Tiff, o: nat)
    requires o + 12 <= |t.buf| && ByteWidth(GetEntryType(t, o)) != 0
    requires GetEntryCount(t, o) * ByteWidth(GetEntryType(t, o)) < OPT_MAX_EXIF_BYTES
    ensures GetDataOffset(t, o) == TrueDataOffset(t, o) <==> TrueDataOffset(t, o) < 0x10000
  {
    hide GetEntryCount, GetEntryType, Get32u, ByteWidth;
  }

  /** Two numbers of four bytes at 64K, say: they are looked for at 0. */
  lemma DataOffsetWrong()
    ensures var t := Tiff([0x00, 0x01, 4, 0, 2, 0, 0, 0, 0, 0, 1, 0], LittleEndian, map[]);
            GetDataOffset(t, 0) == 0 && TrueDataOffset(t, 0) == 0x10000
  {
    var t := Tiff([0x00, 0x01, 4, 0, 2, 0, 0, 0, 0, 0, 1, 0], LittleEndian, map[]);
    assert GetEntryType(t, 0) == 4 && GetEntryCount(t, 0) == 2 && Get32u(t, 8) == Some(0x10000);
    hide GetEntryType, GetEntryCount, Get32u;
  }
}
