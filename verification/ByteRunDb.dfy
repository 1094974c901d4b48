/** The byte run database of identify_filenames.py: extents sorted when first needed and
    looked up by bisection. */
module ByteRunDb {
  import opened Basics

  /** An entry `(start, end, fileinfo)`.  File information only matters by its place in
      Python's order of tuples, so a number stands for it. */
  datatype Extent = Extent(start: int, end: int, info: int) {
    predicate Contains(pos: int) { start <= pos < end }
  }

  /** Python's order of the tuples. */
  predicate Leq(a: Extent, b: Extent) {
    a.start < b.start || (a.start == b.start && (a.end < b.end || (a.end == b.end && a.info <= b.info)))
  }

  predicate Ordered(s: seq<Extent>) { forall i, j :: 0 <= i < j < |s| ==> Leq(s[i], s[j]) }

  // ---------------------------------------------------------------------------
  // list.sort

  function Insert(s: seq<Extent>, e: Extent): seq<Extent>
    decreases |s|
  {
    if s == [] || Leq(e, s[0]) then [e] + s else [s[0]] + Insert(s[1..], e)
  }

  function Sorted(s: seq<Extent>): seq<Extent>
    decreases |s|
  {
    if s == [] then [] else Insert(Sorted(s[1..]), s[0])
  }

  lemma OrderedCons(e: Extent, s: seq<Extent>)
    ensures Ordered([e] + s) <==> Ordered(s) && forall x :: x in s ==> Leq(e, x)
  {
    var t := [e] + s;
    if Ordered(t) {
      forall i, j | 0 <= i < j < |s| ensures Leq(s[i], s[j]) { assert Leq(t[i + 1], t[j + 1]); }
      forall x | x in s ensures Leq(e, x) {
        var i :| 0 <= i < |s| && s[i] == x;
        assert Leq(t[0], t[i + 1]);
      }
    }
  }

  lemma {:induction false} InsertAdds(s: seq<Extent>, e: Extent)
    ensures multiset(Insert(s, e)) == multiset(s) + multiset{e}
    decreases |s|
  {
    if s != [] && !Leq(e, s[0]) {
      assert s == [s[0]] + s[1..];
      InsertAdds(s[1..], e);
    }
  }

  lemma InsertMembers(s: seq<Extent>, e: Extent)
    ensures forall x :: x in Insert(s, e) <==> x in s || x == e
  {
    InsertAdds(s, e);
    hide Insert, Leq;
    forall x ensures x in Insert(s, e) <==> x in s || x == e {
      assert x in Insert(s, e) <==> x in multiset(Insert(s, e));
      assert x in s <==> x in multiset(s);
    }
  }

  lemma {:induction false} InsertSorts(s: seq<Extent>, e: Extent)
    requires Ordered(s)
    ensures Ordered(Insert(s, e))
    decreases |s|
  {
    OrderedCons(e, s);
    if s != [] {
      var h, t := s[0], s[1..];
      assert s == [h] + t && Insert(s, e) == if Leq(e, h) then [e] + s else [h] + Insert(t, e);
      hide Ordered, Insert;
      OrderedCons(h, t);
      if Leq(e, h) {
        assert forall x :: x in s ==> x == h || x in t;
      } else {
        InsertSorts(t, e);
        InsertMembers(t, e);
        OrderedCons(h, Insert(t, e));
      }
    }
  }

  lemma {:induction false} SortedSorts(s: seq<Extent>)
    ensures multiset(Sorted(s)) == multiset(s) && Ordered(Sorted(s))
    decreases |s|
  {
    if s != [] {
      SortedSorts(s[1..]);
      InsertSorts(Sorted(s[1..]), s[0]);
      InsertAdds(Sorted(s[1..]), s[0]);
      assert s == [s[0]] + s[1..];
    }
  }

  lemma HeadIsLeast(s: seq<Extent>, e: Extent)
    requires Ordered(s) && e in s
    ensures Leq(s[0], e)
  {
  }

  /** There is only one way to put the same entries in order. */
  lemma {:induction false} OrderIsUnique(a: seq<Extent>, b: seq<Extent>)
    requires multiset(a) == multiset(b) && Ordered(a) && Ordered(b)
    ensures a == b
    decreases |a|
  {
    assert |multiset(a)| == |a| && |multiset(b)| == |b|;
    if a != [] {
      assert a[0] in multiset(b);
      assert b[0] in multiset(a);
      HeadIsLeast(a, b[0]);
      HeadIsLeast(b, a[0]);
      assert a == [a[0]] + a[1..] && b == [b[0]] + b[1..];
      assert multiset(a[1..]) == multiset(a) - multiset{a[0]} == multiset(b[1..]);
      OrderIsUnique(a[1..], b[1..]);
    }
  }

  // ---------------------------------------------------------------------------
  // The lookup

  /** The entry comes before the key `(pos, 0, "")`. */
  predicate Before(e: Extent, pos: int) { e.start < pos || (e.start == pos && e.end < 0) }

  /** Only the third components are left to compare, a tuple and a string: TypeError. */
  predicate Incomparable(e: Extent, pos: int) { e.start == pos && e.end == 0 }

  function CountBefore(s: seq<Extent>, pos: int): (n: nat)
    ensures n <= |s|
    decreases |s|
  {
    if s == [] || !Before(s[0], pos) then 0 else 1 + CountBefore(s[1..], pos)
  }

  lemma {:induction false} CountSplits(s: seq<Extent>, pos: int, p: nat)
    requires p <= |s|
    requires (forall i :: 0 <= i < p ==> Before(s[i], pos)) && (forall i :: p <= i < |s| ==> !Before(s[i], pos))
    ensures p == CountBefore(s, pos)
    decreases |s|
  {
    if p > 0 { CountSplits(s[1..], pos, p - 1); }
  }

  lemma {:induction false} CountIs(s: seq<Extent>, pos: int)
    requires Ordered(s)
    ensures var p := CountBefore(s, pos);
            (forall i :: 0 <= i < p ==> Before(s[i], pos)) && (forall i :: p <= i < |s| ==> !Before(s[i], pos))
    decreases |s|
  {
    if s != [] && Before(s[0], pos) { CountIs(s[1..], pos); }
  }

  datatype TypeError = TypeError

  /** What a lookup in the ordered list answers. */
  function Lookup(s: seq<Extent>, pos: int): Result<Option<Extent>, TypeError> {
    if exists i :: 0 <= i < |s| && Incomparable(s[i], pos) then Err(TypeError)
    else
      var p := CountBefore(s, pos);
      Ok(if p < |s| && s[p].start == pos then Some(s[p])
         else if p > 0 && s[p - 1].Contains(pos) then Some(s[p - 1])
         else None)
  }

  /** The bisection raises exactly if an entry it cannot compare is anywhere in the list. */
  method BisectLeft(s: seq<Extent>, pos: int) returns (r: Result<nat, TypeError>)
    requires Ordered(s)
    ensures r.Err? <==> exists i :: 0 <= i < |s| && Incomparable(s[i], pos)
    ensures r.Ok? ==> r.value == CountBefore(s, pos)
  {
    var lo, hi := 0, |s|;
    while lo < hi
      invariant 0 <= lo <= hi <= |s|
      invariant forall i :: 0 <= i < lo ==> Before(s[i], pos) && !Incomparable(s[i], pos)
      invariant forall i :: hi <= i < |s| ==> !Before(s[i], pos) && !Incomparable(s[i], pos)
    {
      var mid := (lo + hi) / 2;
      if Incomparable(s[mid], pos) { return Err(TypeError); }
      assert forall i :: 0 <= i < mid ==> Leq(s[i], s[mid]);
      assert forall i :: mid < i < |s| ==> Leq(s[mid], s[i]);
      if Before(s[mid], pos) { lo := mid + 1; } else { hi := mid; }
    }
    CountSplits(s, pos, lo);
    r := Ok(lo);
  }

  // ---------------------------------------------------------------------------
  // The databases

  datatype State = State(rary: seq<Extent>, sorted: bool)

  function Added(s: State, offset: Option<int>, length: Option<int>, info: int): State {
    if offset.None? || length.None? then s
    else State(s.rary + [Extent(offset.value, offset.value + length.value, info)], false)
  }

  function Searched(s: State): State { if s.sorted then s else State(Sorted(s.rary), true) }

  class Database {
    var rary: seq<Extent>
    var sorted: bool

    constructor ()
      ensures Valid() && Now() == State([], true)
    {
      rary, sorted := [], true;
    }

    predicate Valid()
      reads this
    {
      sorted ==> Ordered(rary)
    }

    function Now(): State
      reads this
    {
      State(rary, sorted)
    }

    /** Offsets and lengths that are not integers are given as None, and ignored. */
    method AddExtent(offset: Option<int>, length: Option<int>, info: int)
      requires Valid()
      modifies this
      ensures Valid() && Now() == Added(old(Now()), offset, length, info)
    {
      if offset.None? || length.None? { return; }
      rary := rary + [Extent(offset.value, offset.value + length.value, info)];
      sorted := false;
    }

    method SearchOffset(pos: int) returns (r: Result<Option<Extent>, TypeError>)
      requires Valid()
      modifies this
      ensures Valid() && Now() == Searched(old(Now()))
      ensures r == Lookup(rary, pos)
    {
      hide Sorted, Ordered, CountBefore, Leq, Incomparable;
      if !sorted {
        SortedSorts(rary);
        rary := Sorted(rary);
        sorted := true;
      }
      var q := BisectLeft(rary, pos);
      match q
      case Err(_) => return Err(TypeError);
      case Ok(p) =>
        if p < |rary| && rary[p].start == pos { return Ok(Some(rary[p])); }
        if p == 0 { return Ok(None); }
        if rary[p - 1].start <= pos < rary[p - 1].end { return Ok(Some(rary[p - 1])); }
        return Ok(None);
    }
  }

  class TwoDatabases {
    const allocatedDb: Database
    const unallocatedDb: Database

    constructor ()
      ensures Valid() && fresh(allocatedDb) && fresh(unallocatedDb)
      ensures allocatedDb.Now() == State([], true) == unallocatedDb.Now()
    {
      allocatedDb := new Database();
      unallocatedDb := new Database();
    }

    predicate Valid()
      reads allocatedDb, unallocatedDb
    {
      allocatedDb != unallocatedDb && allocatedDb.Valid() && unallocatedDb.Valid()
    }

    /** Allocated files first. */
    method SearchOffset(offset: int) returns (r: Result<Option<Extent>, TypeError>)
      requires Valid()
      modifies allocatedDb, unallocatedDb
      ensures Valid() && allocatedDb.Now() == Searched(old(allocatedDb.Now()))
      ensures unallocatedDb.Now() == if Lookup(allocatedDb.rary, offset) == Ok(None) then Searched(old(unallocatedDb.Now()))
                                     else old(unallocatedDb.Now())
      ensures r == LookupTwo(Searched(old(allocatedDb.Now())).rary, Searched(old(unallocatedDb.Now())).rary, offset)
    {
      hide Ordered, Lookup;
      r := allocatedDb.SearchOffset(offset);
      if r == Ok(None) { r := unallocatedDb.SearchOffset(offset); }
    }
  }

  function LookupTwo(a: seq<Extent>, b: seq<Extent>, pos: int): Result<Option<Extent>, TypeError> {
    if Lookup(a, pos) == Ok(None) then Lookup(b, pos) else Lookup(a, pos)
  }

  // ---------------------------------------------------------------------------
  // Any interleaving

  datatype Op = Add(offset: Option<int>, length: Option<int>, info: int) | Search(pos: int)

  function Run(s: State, ops: seq<Op>): State
    decreases |ops|
  {
    if ops == [] then s
    else
      var next := match ops[0] case Add(o, l, i) => Added(s, o, l, i) case Search(_) => Searched(s);
      Run(next, ops[1..])
  }

  /** The extents that were added, in the order of the calls. */
  function Extents(ops: seq<Op>): seq<Extent>
    decreases |ops|
  {
    if ops == [] then []
    else (if ops[0].Add? then Added(State([], true), ops[0].offset, ops[0].length, ops[0].info).rary else [])
         + Extents(ops[1..])
  }

  lemma {:induction false} RunKeeps(s: State, ops: seq<Op>)
    requires s.sorted ==> Ordered(s.rary)
    ensures var t := Run(s, ops);
            && (t.sorted ==> Ordered(t.rary))
            && multiset(t.rary) == multiset(s.rary) + multiset(Extents(ops))
    decreases |ops|
  {
    hide Ordered;
    if ops != [] {
      SortedSorts(s.rary);
      var next := match ops[0] case Add(o, l, i) => Added(s, o, l, i) case Search(_) => Searched(s);
      RunKeeps(next, ops[1..]);
    }
  }

  /** When lookups happened in between makes no difference: a lookup answers as if the
      extents added so far had been sorted once. */
  lemma InterleavingIsIrrelevant(ops: seq<Op>, pos: int)
    ensures Lookup(Searched(Run(State([], true), ops)).rary, pos) == Lookup(Sorted(Extents(ops)), pos)
  {
    RunKeeps(State([], true), ops);
    var t := Run(State([], true), ops);
    SortedSorts(t.rary);
    SortedSorts(Extents(ops));
    OrderIsUnique(Searched(t).rary, Sorted(Extents(ops)));
  }

  // ---------------------------------------------------------------------------
  // When is the answer right?

  /** Some extent that contains the position if there is one. */
  predicate Right(s: seq<Extent>, pos: int) {
    var r := Lookup(s, pos);
    r.Ok? && match r.value
             case Some(e) => e in s && e.Contains(pos)
             case None => forall i :: 0 <= i < |s| ==> !s[i].Contains(pos)
  }

  /** The first position behind the extent where a lookup would look at it in vain. */
  function GapStart(e: Extent): int {
    if e.start < e.end then e.end else if e.end < 0 then e.start else e.start + 1
  }

  /** The gap between extent `i` and the next start is not covered from further left. */
  predicate GapClear(s: seq<Extent>, i: int)
    requires 0 <= i < |s|
  {
    || (i + 1 < |s| && s[i + 1].start <= GapStart(s[i]))
    || forall j :: 0 <= j < i ==> s[j].end <= GapStart(s[i])
  }

  /** Of the extents with one start the lookup answers with the first that does not end
      below 0; that one must not be empty. */
  predicate FirstIsNonempty(s: seq<Extent>, i: int)
    requires 0 <= i < |s|
  {
    s[i].end > 0 && (i > 0 ==> s[i - 1].start < s[i].start || s[i - 1].end < 0) ==> s[i].start < s[i].end
  }

  predicate Clear(s: seq<Extent>) {
    forall i :: 0 <= i < |s| ==> GapClear(s, i) && FirstIsNonempty(s, i) && s[i].end != 0
  }

  /** Where an extent starts, one is found. */
  lemma RightAtStart(s: seq<Extent>, pos: int, p: nat)
    requires Ordered(s) && Clear(s) && p == CountBefore(s, pos) < |s| && s[p].start == pos
    requires (p > 0 ==> Before(s[p - 1], pos)) && !Before(s[p], pos)
    requires forall i :: 0 <= i < |s| ==> !Incomparable(s[i], pos)
    ensures Right(s, pos)
  {
    hide CountBefore, Ordered, GapClear;
    assert FirstIsNonempty(s, p);
    assert s[p].Contains(pos);
  }

  lemma RightPastStart(s: seq<Extent>, pos: int, p: nat)
    requires p == CountBefore(s, pos) <= |s|
    requires forall i :: 0 <= i < |s| ==> !Incomparable(s[i], pos)
    requires forall i :: p <= i < |s| ==> s[i].start > pos
    requires p > 0 ==> s[p - 1].Contains(pos) || forall j :: 0 <= j < p ==> s[j].end <= pos
    ensures Right(s, pos)
  {
    hide CountBefore;
  }

  lemma LeftOfGap(s: seq<Extent>, pos: int, p: nat)
    requires 0 < p <= |s| && Clear(s) && Before(s[p - 1], pos) && !s[p - 1].Contains(pos)
    requires forall i :: p <= i < |s| ==> s[i].start > pos
    ensures forall j :: 0 <= j < p ==> s[j].end <= pos
  {
    assert GapClear(s, p - 1);
  }

  lemma ClearIsRight(s: seq<Extent>, pos: int)
    requires Ordered(s) && Clear(s)
    ensures Right(s, pos)
  {
    CountIs(s, pos);
    var p := CountBefore(s, pos);
    forall i | 0 <= i < |s| ensures !Incomparable(s[i], pos) { assert s[i].end != 0; }
    if p < |s| && s[p].start == pos {
      RightAtStart(s, pos, p);
    } else {
      StartsAfter(s, pos, p);
      hide Right, Clear, CountBefore, Ordered, Incomparable;
      if p > 0 && !s[p - 1].Contains(pos) { LeftOfGap(s, pos, p); }
      RightPastStart(s, pos, p);
    }
  }

  lemma StartsAfter(s: seq<Extent>, pos: int, p: nat)
    requires Ordered(s) && p <= |s| && (forall i :: p <= i < |s| ==> !Before(s[i], pos))
    requires p < |s| ==> s[p].start != pos
    ensures forall i :: p <= i < |s| ==> s[i].start > pos
  {
    forall i | p <= i < |s| ensures s[i].start > pos { assert i > p ==> Leq(s[p], s[i]); }
  }

  /** Between extent `i` and the next one the answer is None, covered or not. */
  lemma NoneInGap(s: seq<Extent>, i: nat)
    requires Ordered(s) && i < |s| && (i + 1 < |s| ==> GapStart(s[i]) < s[i + 1].start)
    ensures Lookup(s, GapStart(s[i])) in {Ok(None), Err(TypeError)}
  {
    var pos := GapStart(s[i]);
    assert forall j :: i + 1 < j < |s| ==> Leq(s[i + 1], s[j]);
    assert forall j :: 0 <= j < i ==> Leq(s[j], s[i]);
    CountSplits(s, pos, i + 1);
  }

  lemma ZeroIsWrong(s: seq<Extent>, i: nat)
    requires i < |s| && s[i].end == 0
    ensures !Right(s, s[i].start)
  {
    assert Incomparable(s[i], s[i].start);
  }

  lemma EmptyFirstIsWrong(s: seq<Extent>, i: nat)
    requires Ordered(s) && i < |s| && !FirstIsNonempty(s, i)
    ensures !Right(s, s[i].start)
  {
    assert forall j :: i < j < |s| ==> Leq(s[i], s[j]);
    assert forall j :: 0 <= j < i - 1 ==> Leq(s[j], s[i - 1]);
    assert i > 0 ==> Leq(s[i - 1], s[i]);
    CountSplits(s, s[i].start, i);
  }

  lemma CoveredGapIsWrong(s: seq<Extent>, i: nat)
    requires Ordered(s) && i < |s| && !GapClear(s, i)
    ensures !Right(s, GapStart(s[i]))
  {
    NoneInGap(s, i);
    var j :| 0 <= j < i && s[j].end > GapStart(s[i]);
    assert Leq(s[j], s[i]) && s[j].Contains(GapStart(s[i]));
  }

  /** The bisection is right at every position if and only if no gap between
      neighbours in the order is covered by an extent further left, the first extent
      that counts at each start is not empty, and no extent ends at 0. */
  lemma RightEverywhereIffClear(s: seq<Extent>)
    requires Ordered(s)
    ensures (forall pos :: Right(s, pos)) <==> Clear(s)
  {
    hide Right, GapClear, FirstIsNonempty;
    if Clear(s) {
      forall pos ensures Right(s, pos) { ClearIsRight(s, pos); }
    }
    if forall pos :: Right(s, pos) {
      forall i | 0 <= i < |s| ensures GapClear(s, i) && FirstIsNonempty(s, i) && s[i].end != 0 {
        if s[i].end == 0 { ZeroIsWrong(s, i); }
        if !FirstIsNonempty(s, i) { EmptyFirstIsWrong(s, i); }
        if !GapClear(s, i) { CoveredGapIsWrong(s, i); }
      }
    }
  }

  /** One extent inside another: the outer one is lost behind the inner one.  And an
      empty one is found where it has no byte. */
  lemma NestedIsMissed()
    ensures Lookup(Sorted([Extent(0, 100, 0), Extent(10, 20, 1)]), 50) == Ok(None)
    ensures Lookup(Sorted([Extent(5, 5, 0)]), 5) == Ok(Some(Extent(5, 5, 0)))
  {
    var e := Extent(5, 5, 0);
    assert [e][1..] == [] && Sorted([e]) == [e] && Lookup([e], 5) == Ok(Some(e));
    var a, b := Extent(0, 100, 0), Extent(10, 20, 1);
    assert [a, b][1..] == [b] && [b][1..] == [];
    assert Sorted([b]) == [b] && Sorted([a, b]) == [a, b];
    CountSplits([a, b], 50, 2);
  }

  // ---------------------------------------------------------------------------
  // Disjoint extents: the answer is the linear scan's

  predicate Apart(a: Extent, b: Extent) { a.end <= b.start || b.end <= a.start }

  predicate Disjoint(s: seq<Extent>) { forall i, j :: 0 <= i < j < |s| ==> Apart(s[i], s[j]) }

  /** The first extent in the list that contains the position. */
  function Scan(s: seq<Extent>, pos: int): Option<Extent>
    decreases |s|
  {
    if s == [] then None else if s[0].Contains(pos) then Some(s[0]) else Scan(s[1..], pos)
  }

  lemma {:induction false} ScanFinds(s: seq<Extent>, pos: int)
    ensures Scan(s, pos).Some? ==> Scan(s, pos).value in s && Scan(s, pos).value.Contains(pos)
    ensures Scan(s, pos).None? ==> forall i :: 0 <= i < |s| ==> !s[i].Contains(pos)
    decreases |s|
  {
    if s != [] && !s[0].Contains(pos) { ScanFinds(s[1..], pos); }
  }

  /** Nonempty extents at or after offset 0. */
  predicate Proper(s: seq<Extent>) { forall e :: e in s ==> 0 <= e.start < e.end }

  lemma DisjointCons(e: Extent, s: seq<Extent>)
    ensures Disjoint([e] + s) <==> Disjoint(s) && forall x :: x in s ==> Apart(e, x)
  {
    var t := [e] + s;
    if Disjoint(t) {
      forall i, j | 0 <= i < j < |s| ensures Apart(s[i], s[j]) { assert Apart(t[i + 1], t[j + 1]); }
      forall x | x in s ensures Apart(e, x) {
        var i :| 0 <= i < |s| && s[i] == x;
        assert Apart(t[0], t[i + 1]);
      }
    }
  }

  lemma {:induction false} InsertDisjoint(s: seq<Extent>, e: Extent)
    ensures Disjoint(Insert(s, e)) <==> Disjoint([e] + s)
    decreases |s|
  {
    if s != [] && !Leq(e, s[0]) {
      var h, t := s[0], s[1..];
      assert Insert(s, e) == [h] + Insert(t, e) && s == [h] + t;
      InsertMembers(t, e);
      assert e in Insert(t, e) && h in s && forall x :: x in t ==> x in s;
      InsertDisjoint(t, e);
      hide Disjoint, Insert, Leq;
      DisjointCons(h, Insert(t, e));
      DisjointCons(e, t);
      DisjointCons(e, s);
      DisjointCons(h, t);
      assert (forall x :: x in Insert(t, e) ==> Apart(h, x)) <==> Apart(h, e) && forall x :: x in t ==> Apart(h, x);
      assert (forall x :: x in s ==> Apart(e, x)) <==> Apart(e, h) && forall x :: x in t ==> Apart(e, x);
    }
  }

  lemma {:induction false} SortedDisjoint(s: seq<Extent>)
    ensures Disjoint(Sorted(s)) <==> Disjoint(s)
    decreases |s|
  {
    if s != [] {
      var h, t := s[0], s[1..];
      assert s == [h] + t && Sorted(s) == Insert(Sorted(t), h);
      SortedDisjoint(t);
      InsertDisjoint(Sorted(t), h);
      SortedSorts(t);
      assert forall x :: x in Sorted(t) <==> x in multiset(Sorted(t));
      assert forall x :: x in t <==> x in multiset(t);
      hide Disjoint, Insert, Sorted;
      DisjointCons(h, Sorted(t));
      DisjointCons(h, t);
    }
  }

  lemma SameProper(a: seq<Extent>, b: seq<Extent>)
    requires Proper(a) && multiset(a) == multiset(b)
    ensures Proper(b)
  {
    forall e | e in b ensures e in a { assert e in multiset(b); }
  }

  /** After any interleaving: a lookup among disjoint nonempty extents answers what a
      scan of them, in the order they were added, answers. */
  lemma SearchIsScan(ops: seq<Op>, pos: int)
    requires Proper(Extents(ops)) && Disjoint(Extents(ops))
    ensures Lookup(Searched(Run(State([], true), ops)).rary, pos) == Ok(Scan(Extents(ops), pos))
  {
    InterleavingIsIrrelevant(ops, pos);
    var a := Extents(ops);
    var s := Sorted(a);
    SortedSorts(a);
    SameProper(a, s);
    SortedDisjoint(a);
    DisjointIsClear(s);
    ClearIsRight(s, pos);
    ScanFinds(a, pos);
    hide Sorted, Lookup, Scan, Ordered, Extents;
    OneAnswer(a, s, pos);
  }

  lemma {:induction false} ExtentsOfAdds(ops: seq<Op>)
    ensures forall e :: e in Extents(ops) <==> Add(Some(e.start), Some(e.end - e.start), e.info) in ops
    decreases |ops|
  {
    if ops != [] {
      ExtentsOfAdds(ops[1..]);
      assert forall op :: op in ops <==> op == ops[0] || op in ops[1..];
      var first := if ops[0].Add? then Added(State([], true), ops[0].offset, ops[0].length, ops[0].info).rary else [];
      assert forall e :: e in first <==> ops[0] == Add(Some(e.start), Some(e.end - e.start), e.info);
      assert forall e :: e in Extents(ops) <==> e in first || e in Extents(ops[1..]);
    }
  }

  /** In terms of the calls: what is found was added and contains the position, and where
      nothing is found nothing that was added contains it. */
  lemma AnswerWasAdded(ops: seq<Op>, pos: int)
    requires Proper(Extents(ops)) && Disjoint(Extents(ops))
    ensures var r := Lookup(Searched(Run(State([], true), ops)).rary, pos);
            && r.Ok?
            && match r.value
               case Some(e) => Add(Some(e.start), Some(e.end - e.start), e.info) in ops && e.start <= pos < e.end
               case None => forall start, length, info :: Add(Some(start), Some(length), info) in ops ==> !(start <= pos < start + length)
  {
    hide Lookup, Searched, Run, Proper, Disjoint, Scan, Extents;
    SearchIsScan(ops, pos);
    ScanFinds(Extents(ops), pos);
    ExtentsOfAdds(ops);
    if Scan(Extents(ops), pos).None? {
      forall start, length, info | Add(Some(start), Some(length), info) in ops ensures !(start <= pos < start + length) {
        assert Extent(start, start + length, info) in Extents(ops);
      }
    }
  }

  lemma DisjointIsClear(s: seq<Extent>)
    requires Proper(s) && Disjoint(s) && Ordered(s)
    ensures Clear(s)
  {
    forall i | 0 <= i < |s| ensures 0 <= s[i].start < s[i].end { assert s[i] in s; }
  }

  lemma OneAnswer(a: seq<Extent>, s: seq<Extent>, pos: int)
    requires multiset(a) == multiset(s) && Disjoint(s) && Right(s, pos)
    requires Scan(a, pos).Some? ==> Scan(a, pos).value in a && Scan(a, pos).value.Contains(pos)
    requires Scan(a, pos).None? ==> forall i :: 0 <= i < |a| ==> !a[i].Contains(pos)
    ensures Lookup(s, pos) == Ok(Scan(a, pos))
  {
    hide Lookup, Scan;
    var r := Lookup(s, pos).value;
    assert forall e :: e in a <==> e in multiset(a);
    assert forall e :: e in s <==> e in multiset(s);
    if Scan(a, pos).Some? {
      var e := Scan(a, pos).value;
      assert e in s;
      var i :| 0 <= i < |s| && s[i] == e;
      var j :| 0 <= j < |s| && s[j] == r.value;
    } else {
      assert forall e :: e in a ==> !e.Contains(pos);
    }
  }

  /** Two databases: an allocated extent wins, and an unallocated one is found where
      there is none. */
  lemma AllocatedFirst(ops: seq<Op>, others: seq<Op>, pos: int)
    requires Proper(Extents(ops)) && Disjoint(Extents(ops)) && Proper(Extents(others)) && Disjoint(Extents(others))
    ensures LookupTwo(Searched(Run(State([], true), ops)).rary, Searched(Run(State([], true), others)).rary, pos)
         == Ok(Scan(Extents(ops) + Extents(others), pos))
  {
    SearchIsScan(ops, pos);
    SearchIsScan(others, pos);
    ScanConcat(Extents(ops), Extents(others), pos);
  }

  lemma {:induction false} ScanConcat(a: seq<Extent>, b: seq<Extent>, pos: int)
    ensures Scan(a + b, pos) == if Scan(a, pos).Some? then Scan(a, pos) else Scan(b, pos)
    decreases |a|
  {
    if a == [] {
      assert a + b == b;
    } else {
      assert (a + b)[1..] == a[1..] + b;
      ScanConcat(a[1..], b, pos);
    }
  }
}
