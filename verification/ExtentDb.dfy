/** The extent database of dfxml.py: byte runs that may not collide, and the merging of
    runs that touch. */
module ExtentDb {
  import opened Basics

  /** The two attributes of a byte run that the database looks at. */
  datatype ByteRun = ByteRun(imgOffset: int, len: int) {
    function End(): int { imgOffset + len }
  }

  /** The bytes of a run, in order; a run of no or negative length has none. */
  function Bytes(r: ByteRun): seq<int> {
    if r.len <= 0 then [] else seq(r.len, i => r.imgOffset + i)
  }

  function AllBytes(rs: seq<ByteRun>): seq<int>
    decreases |rs|
  {
    if rs == [] then [] else AllBytes(rs[..|rs| - 1]) + Bytes(rs[|rs| - 1])
  }

  /** The two runs have a byte in common. */
  ghost predicate Share(a: ByteRun, b: ByteRun) { exists x :: x in Bytes(a) && x in Bytes(b) }

  ghost predicate ShareAny(db: seq<ByteRun>, e: ByteRun) { exists i :: 0 <= i < |db| && Share(db[i], e) }

  /** Nonempty extents, no two with a byte in common. */
  ghost predicate Good(db: seq<ByteRun>) {
    && Positive(db)
    && forall i, j :: 0 <= i < j < |db| ==> !Share(db[i], db[j])
  }

  predicate Positive(rs: seq<ByteRun>) { forall i :: 0 <= i < |rs| ==> rs[i].len > 0 }

  // ---------------------------------------------------------------------------
  // The collision test

  /** The three questions the code asks about a stored extent `d`. */
  predicate Collides(d: ByteRun, e: ByteRun) {
    || d.imgOffset <= e.imgOffset < d.End()
    || d.imgOffset < e.End() < d.End()
    || (e.imgOffset < d.imgOffset && d.End() <= e.End())
  }

  lemma InBytes(r: ByteRun, x: int)
    ensures x in Bytes(r) <==> r.imgOffset <= x < r.End()
  {
    if r.imgOffset <= x < r.End() { assert Bytes(r)[x - r.imgOffset] == x; }
  }

  /** They find a shared byte whenever there is one. */
  lemma CollidesIffShare(d: ByteRun, e: ByteRun)
    requires d.len > 0 && e.len > 0
    ensures Collides(d, e) <==> Share(d, e)
  {
    if Share(d, e) {
      var x :| x in Bytes(d) && x in Bytes(e);
      InBytes(d, x);
      InBytes(e, x);
    }
    if Collides(d, e) {
      var x := if d.imgOffset <= e.imgOffset then e.imgOffset else d.imgOffset;
      InBytes(d, x);
      InBytes(e, x);
    }
  }

  /** What `intersects` hands back: True for an empty extent, a stored extent, or None. */
  datatype Hit = Everything | Stored(d: ByteRun) | Nothing

  datatype ValueError = NegativeLength | Collision

  /** An extent that could be added. */
  ghost predicate Addable(db: seq<ByteRun>, e: ByteRun) { e.len > 0 && !ShareAny(db, e) }

  lemma AddableIffGood(db: seq<ByteRun>, e: ByteRun)
    requires Good(db)
    ensures Addable(db, e) <==> Good(db + [e])
  {
    var all := db + [e];
    if Good(all) {
      assert all[|db|] == e;
      forall i | 0 <= i < |db| ensures !Share(db[i], e) { assert !Share(all[i], all[|db|]); }
    }
  }

  /** An extent that cannot be added cannot be part of a larger good list either. */
  lemma Blocked(db: seq<ByteRun>, e: ByteRun, all: seq<ByteRun>)
    requires Good(db) && !Addable(db, e) && db + [e] <= all
    ensures !Good(all)
  {
    AddableIffGood(db, e);
    assert all[..|db| + 1] == db + [e];
    if Good(all) { PrefixGood(all, |db| + 1); }
  }

  lemma PrefixGood(db: seq<ByteRun>, n: nat)
    requires Good(db) && n <= |db|
    ensures Good(db[..n])
  {
  }

  class ExtentDatabase {
    var db: seq<ByteRun>
    const sectorsize := 512

    /** The size that is given is ignored. */
    constructor (given: int)
      ensures db == [] && Good(db) && sectorsize == 512
    {
      db := [];
    }

    /** The first stored extent with a byte of `extent`, if there is one. */
    method Intersects(extent: ByteRun) returns (r: Result<Hit, ValueError>)
      requires Good(db)
      ensures r == Err(NegativeLength) <==> extent.len < 0
      ensures r.Ok? <==> extent.len >= 0
      ensures r == Ok(Everything) <==> extent.len == 0
      ensures r == Ok(Nothing) <==> extent.len > 0 && !ShareAny(db, extent)
      ensures r.Ok? && r.value.Stored? ==>
                exists i :: 0 <= i < |db| && db[i] == r.value.d && Share(db[i], extent) && !ShareAny(db[..i], extent)
    {
      if extent.len == 0 { return Ok(Everything); }
      if extent.len < 0 { return Err(NegativeLength); }
      hide Share, Bytes;
      var start, stop, i := extent.imgOffset, extent.End(), 0;
      while i < |db|
        invariant 0 <= i <= |db| && !ShareAny(db[..i], extent)
      {
        var d := db[i];
        CollidesIffShare(d, extent);
        if d.imgOffset <= start < d.End() { return Ok(Stored(d)); }
        if d.imgOffset < stop < d.End() { return Ok(Stored(d)); }
        if start < d.imgOffset && d.End() <= stop { return Ok(Stored(d)); }
        i := i + 1;
      }
      assert db[..|db|] == db;
      return Ok(Nothing);
    }

    /** Raises, and leaves the database alone, unless the extent can be added. */
    method Add(extent: ByteRun) returns (r: Result<(), ValueError>)
      requires Good(db)
      modifies this
      ensures Good(db)
      ensures r.Ok? <==> Addable(old(db), extent)
      ensures r.Err? ==> r.error == if extent.len < 0 then NegativeLength else Collision
      ensures db == if r.Ok? then old(db) + [extent] else old(db)
    {
      hide Share, Bytes;
      var v := Intersects(extent);
      match v
      case Err(e) => return Err(e);
      case Ok(Nothing) =>
        AddableIffGood(db, extent);
        db := db + [extent];
        return Ok(());
      case Ok(_) => return Err(Collision);
    }

    /** The runs before the first that cannot be added stay in the database. */
    method AddRuns(runs: seq<ByteRun>) returns (r: Result<(), ValueError>, ghost n: nat)
      requires Good(db)
      modifies this
      ensures Good(db) && n <= |runs| && db == old(db) + runs[..n]
      ensures r.Ok? <==> n == |runs|
      ensures r.Err? ==> !Addable(db, runs[n])
      ensures r.Ok? <==> Good(old(db) + runs)
    {
      hide Share, Bytes;
      n := 0;
      var i := 0;
      assert old(db) + runs[..0] == db;
      while i < |runs|
        invariant 0 <= i == n <= |runs| && Good(db) && db == old(db) + runs[..i]
      {
        ghost var was, all := db, old(db) + runs;
        assert was + [runs[i]] <= all;
        r := Add(runs[i]);
        if r.Err? {
          Blocked(was, runs[i], all);
          return;
        }
        i, n := i + 1, n + 1;
      }
      assert runs[..|runs|] == runs;
      r := Ok(());
    }

    /** The byte run of each sector, touching ones merged. */
    method RunsForSectors(sectors: seq<int>) returns (runs: seq<ByteRun>)
      ensures runs == Combine(SectorRuns(sectors, sectorsize))
    {
      runs := CombineRuns(SectorRuns(sectors, sectorsize));
    }

    /** Succeeds exactly when no sector is given twice and none has a byte in the
        database already; merging touching sectors makes no difference to that. */
    method AddSectors(sectors: seq<int>) returns (r: Result<(), ValueError>)
      requires Good(db)
      modifies this
      ensures Good(db)
      ensures var runs := Combine(SectorRuns(sectors, sectorsize));
              exists n :: 0 <= n <= |runs| && db == old(db) + runs[..n] && (r.Ok? <==> n == |runs|)
      ensures r.Ok? <==> Good(old(db) + SectorRuns(sectors, sectorsize))
      ensures r.Ok? ==> AllBytes(db) == AllBytes(old(db)) + AllBytes(SectorRuns(sectors, sectorsize))
    {
      hide Share, Bytes, AllBytes, Combine;
      var runs := RunsForSectors(sectors);
      MergingKeepsGood(db, SectorRuns(sectors, sectorsize));
      ghost var n;
      r, n := AddRuns(runs);
      if r.Ok? {
        assert runs[..n] == runs;
        AllBytesConcat(old(db), runs);
        CombineKeepsBytes(SectorRuns(sectors, sectorsize));
      }
    }
  }

  function SectorRuns(sectors: seq<int>, sectorsize: int): seq<ByteRun>
  {
    seq(|sectors|, i requires 0 <= i < |sectors| => ByteRun(sectors[i] * sectorsize, sectorsize))
  }

  /** The bytes of the sectors are those whose number divided by 512 is among them, each
      as often as the sector is given. */
  lemma {:induction false} SectorBytes(sectors: seq<int>, x: int)
    ensures multiset(AllBytes(SectorRuns(sectors, 512)))[x] == multiset(sectors)[x / 512]
    decreases |sectors|
  {
    var rs, n := SectorRuns(sectors, 512), |sectors| - 1;
    if sectors != [] {
      SectorBytes(sectors[..n], x);
      assert rs[..n] == SectorRuns(sectors[..n], 512);
      assert AllBytes(rs) == AllBytes(rs[..n]) + Bytes(rs[n]);
      assert sectors == sectors[..n] + [sectors[n]];
      OneSector(sectors[n], x);
    }
  }

  lemma OneSector(sector: int, x: int)
    ensures multiset(Bytes(ByteRun(sector * 512, 512)))[x] == if x / 512 == sector then 1 else 0
  {
    InSequence(sector * 512, 512, x);
    assert sector * 512 <= x < sector * 512 + 512 <==> x / 512 == sector;
  }

  lemma {:induction false} InSequence(start: int, n: nat, x: int)
    ensures multiset(seq(n, i => start + i))[x] == if start <= x < start + n then 1 else 0
    decreases n
  {
    if n > 0 {
      InSequence(start, n - 1, x);
      assert seq(n, i => start + i) == seq(n - 1, i => start + i) + [start + n - 1];
    }
  }

  // ---------------------------------------------------------------------------
  // Merging

  /** Extends the last run if the new one starts where it ends, otherwise appends. */
  function Extend(rs: seq<ByteRun>, r: ByteRun): seq<ByteRun> {
    if rs != [] && rs[|rs| - 1].End() == r.imgOffset
    then rs[..|rs| - 1] + [ByteRun(rs[|rs| - 1].imgOffset, rs[|rs| - 1].len + r.len)]
    else rs + [r]
  }

  function Combine(runs: seq<ByteRun>): seq<ByteRun>
    decreases |runs|
  {
    if runs == [] then [] else Extend(Combine(runs[..|runs| - 1]), runs[|runs| - 1])
  }

  method CombineRuns(runs: seq<ByteRun>) returns (ret: seq<ByteRun>)
    ensures ret == Combine(runs)
  {
    if runs == [] { return []; }
    ret := [runs[0]];
    var i := 1;
    assert runs[..1][..0] == [] && Combine(runs[..1]) == [runs[0]];
    while i < |runs|
      invariant 1 <= i <= |runs| && ret != [] && ret == Combine(runs[..i])
    {
      var run := runs[i];
      var last := ret[|ret| - 1];
      assert runs[..i + 1][..i] == runs[..i];
      if last.imgOffset + last.len == run.imgOffset {
        ret := ret[|ret| - 1 := ByteRun(last.imgOffset, last.len + run.len)];
        assert ret == Extend(ret[..|ret| - 1] + [last], run);
      } else {
        ret := ret + [run];
      }
      i := i + 1;
    }
    assert runs[..|runs|] == runs;
  }

  lemma ConcatStep(a: seq<ByteRun>, b: seq<ByteRun>, r: ByteRun)
    requires AllBytes(a + b) == AllBytes(a) + AllBytes(b)
    ensures AllBytes(a + (b + [r])) == AllBytes(a) + AllBytes(b + [r])
  {
    AllBytesSnoc(b, r);
    AllBytesSnoc(a + b, r);
    hide *;
    assert (a + b) + [r] == a + (b + [r]);
    Assoc(AllBytes(a), AllBytes(b), Bytes(r));
  }

  lemma {:induction false} AllBytesConcat(a: seq<ByteRun>, b: seq<ByteRun>)
    ensures AllBytes(a + b) == AllBytes(a) + AllBytes(b)
    decreases |b|
  {
    if b == [] {
      assert a + b == a;
    } else {
      hide *;
      AllBytesConcat(a, b[..|b| - 1]);
      ConcatStep(a, b[..|b| - 1], b[|b| - 1]);
      SplitLast(b);
    }
  }

  /** One length is positive and the other negative. */
  predicate Opposed(a: int, b: int) { (a > 0 && b < 0) || (a < 0 && b > 0) }

  lemma MergeBytes(a: ByteRun, b: ByteRun)
    requires a.End() == b.imgOffset
    ensures var all := Bytes(ByteRun(a.imgOffset, a.len + b.len));
            if Opposed(a.len, b.len) then |all| < |Bytes(a)| + |Bytes(b)| else all == Bytes(a) + Bytes(b)
  {
  }

  lemma AllBytesSnoc(rs: seq<ByteRun>, r: ByteRun)
    ensures AllBytes(rs + [r]) == AllBytes(rs) + Bytes(r)
  {
    assert (rs + [r])[..|rs|] == rs;
  }

  lemma ReplaceLast(init: seq<ByteRun>, last: ByteRun, r: ByteRun)
    requires last.End() == r.imgOffset
    ensures var all, sum := AllBytes(init + [ByteRun(last.imgOffset, last.len + r.len)]), AllBytes(init + [last]) + Bytes(r);
            if Opposed(last.len, r.len) then |all| < |sum| else all == sum
  {
    AllBytesSnoc(init, last);
    AllBytesSnoc(init, ByteRun(last.imgOffset, last.len + r.len));
    MergeBytes(last, r);
    hide *;
    Assoc(AllBytes(init), Bytes(last), Bytes(r));
  }

  lemma SplitLast(rs: seq<ByteRun>)
    requires rs != []
    ensures rs == rs[..|rs| - 1] + [rs[|rs| - 1]]
  {
  }

  /** The run is merged into the last one, and bytes are lost by it. */
  predicate Loses(rs: seq<ByteRun>, r: ByteRun) {
    rs != [] && rs[|rs| - 1].End() == r.imgOffset && Opposed(rs[|rs| - 1].len, r.len)
  }

  lemma MergeKeepsBytes(rs: seq<ByteRun>, r: ByteRun)
    requires rs != [] && rs[|rs| - 1].End() == r.imgOffset
    ensures var all, sum := AllBytes(Extend(rs, r)), AllBytes(rs) + Bytes(r);
            if Opposed(rs[|rs| - 1].len, r.len) then |all| < |sum| else all == sum
  {
    hide Bytes, AllBytes, Opposed;
    SplitLast(rs);
    ReplaceLast(rs[..|rs| - 1], rs[|rs| - 1], r);
  }

  lemma ExtendKeepsBytes(rs: seq<ByteRun>, r: ByteRun)
    ensures var all, sum := AllBytes(Extend(rs, r)), AllBytes(rs) + Bytes(r);
            if Loses(rs, r) then |all| < |sum| else all == sum
  {
    if rs != [] && rs[|rs| - 1].End() == r.imgOffset {
      hide Bytes, AllBytes, Opposed, Extend;
      MergeKeepsBytes(rs, r);
    } else {
      assert Extend(rs, r) == rs + [r];
      hide Bytes, AllBytes, Extend;
      AllBytesSnoc(rs, r);
    }
  }

  lemma {:induction false} CombineKeepsLengths(runs: seq<ByteRun>)
    ensures (forall i :: 0 <= i < |runs| ==> runs[i].len >= 0) ==>
              forall i :: 0 <= i < |Combine(runs)| ==> Combine(runs)[i].len >= 0
    ensures Positive(runs) ==> Positive(Combine(runs))
    decreases |runs|
  {
    if runs != [] { CombineKeepsLengths(runs[..|runs| - 1]); }
  }

  /** Run `i` begins where the one before it ends. */
  predicate Touches(runs: seq<ByteRun>, i: nat)
    requires 0 < i < |runs|
  {
    runs[i - 1].End() == runs[i].imgOffset
  }

  /** The lengths of run `i` and of those before it that touch one another, added up. */
  function ChainLen(runs: seq<ByteRun>, i: nat): int
    requires i < |runs|
  {
    if i == 0 || !Touches(runs, i) then runs[i].len else ChainLen(runs, i - 1) + runs[i].len
  }

  /** Run `i` does not touch a chain whose length has the other sign. */
  predicate AgreesAt(runs: seq<ByteRun>, i: nat)
    requires 0 < i < |runs|
  {
    Touches(runs, i) ==> !Opposed(ChainLen(runs, i - 1), runs[i].len)
  }

  predicate SignsAgree(runs: seq<ByteRun>) { forall i :: 0 < i < |runs| ==> AgreesAt(runs, i) }

  lemma {:induction false} ChainOfPrefix(runs: seq<ByteRun>, n: nat, i: nat)
    requires i < n <= |runs|
    ensures ChainLen(runs[..n], i) == ChainLen(runs, i)
    decreases i
  {
    if i > 0 { ChainOfPrefix(runs, n, i - 1); }
  }

  lemma AgreesInPrefix(runs: seq<ByteRun>, n: nat, i: nat)
    requires 0 < i < n <= |runs|
    ensures AgreesAt(runs[..n], i) == AgreesAt(runs, i)
  {
    hide ChainLen, Opposed;
    ChainOfPrefix(runs, n, i - 1);
  }

  lemma SignsOfPrefix(runs: seq<ByteRun>)
    requires runs != []
    ensures var n := |runs| - 1;
            SignsAgree(runs) <==> SignsAgree(runs[..n]) && (n > 0 ==> AgreesAt(runs, n))
  {
    hide AgreesAt;
    var n := |runs| - 1;
    forall i | 0 < i < n ensures AgreesAt(runs[..n], i) == AgreesAt(runs, i) { AgreesInPrefix(runs, n, i); }
  }

  lemma ExtendLast(rs: seq<ByteRun>, r: ByteRun)
    ensures var all := Extend(rs, r);
            && all != [] && all[|all| - 1].End() == r.End()
            && all[|all| - 1].len == if rs != [] && rs[|rs| - 1].End() == r.imgOffset then rs[|rs| - 1].len + r.len else r.len
  {
  }

  /** The last merged run ends where the last run ends and is as long as its chain. */
  lemma {:induction false} LastMerged(runs: seq<ByteRun>)
    requires runs != []
    ensures var rs := Combine(runs);
            rs != [] && rs[|rs| - 1].End() == runs[|runs| - 1].End() && rs[|rs| - 1].len == ChainLen(runs, |runs| - 1)
    decreases |runs|
  {
    var n := |runs| - 1;
    ExtendLast(Combine(runs[..n]), runs[n]);
    hide Extend;
    if n > 0 {
      LastMerged(runs[..n]);
      ChainOfPrefix(runs, n, n - 1);
    } else {
      assert runs[..n] == [];
    }
  }

  lemma {:induction false} CombineBytes(runs: seq<ByteRun>)
    ensures if SignsAgree(runs) then AllBytes(Combine(runs)) == AllBytes(runs) else |AllBytes(Combine(runs))| < |AllBytes(runs)|
    decreases |runs|
  {
    if runs != [] {
      var init, r := runs[..|runs| - 1], runs[|runs| - 1];
      assert runs == init + [r] && Combine(runs) == Extend(Combine(init), r);
      LossAtLast(runs);
      hide AllBytes, Bytes, Extend, Combine, Loses, SignsAgree;
      CombineBytes(init);
      ExtendKeepsBytes(Combine(init), r);
      AllBytesSnoc(init, r);
    } else {
      assert Combine(runs) == runs;
    }
  }

  lemma LossAtLast(runs: seq<ByteRun>)
    requires runs != []
    ensures SignsAgree(runs) <==>
              SignsAgree(runs[..|runs| - 1]) && !Loses(Combine(runs[..|runs| - 1]), runs[|runs| - 1])
  {
    hide SignsAgree, ChainLen, Opposed, Combine;
    var n := |runs| - 1;
    SignsOfPrefix(runs);
    CombineNothing();
    if n > 0 {
      LastMerged(runs[..n]);
      ChainOfPrefix(runs, n, n - 1);
    }
  }

  lemma CombineNothing()
    ensures Combine([]) == []
  {
  }

  /** The merged runs cover the same bytes in the same order if and only if no run
      touches a chain of runs whose length has the other sign; otherwise bytes are
      missing. */
  lemma CombineKeepsBytes(runs: seq<ByteRun>)
    ensures AllBytes(Combine(runs)) == AllBytes(runs) <==> SignsAgree(runs)
    ensures (forall i :: 0 <= i < |runs| ==> runs[i].len >= 0) ==> SignsAgree(runs)
  {
    CombineBytes(runs);
    if forall i :: 0 <= i < |runs| ==> runs[i].len >= 0 {
      forall i | 0 <= i < |runs| ensures ChainLen(runs, i) >= 0 { NonnegativeChain(runs, i); }
    }
  }

  lemma {:induction false} NonnegativeChain(runs: seq<ByteRun>, i: nat)
    requires i < |runs| && forall j :: 0 <= j < |runs| ==> runs[j].len >= 0
    ensures ChainLen(runs, i) >= 0
    decreases i
  {
    if i > 0 { NonnegativeChain(runs, i - 1); }
  }

  /** Four bytes and then minus two: two of the four are lost. */
  lemma MergeLosesBytes()
    ensures var runs := [ByteRun(0, 4), ByteRun(4, -2)];
            |AllBytes(runs)| == 4 && |AllBytes(Combine(runs))| == 2
  {
    hide Bytes, Combine, AllBytes;
    var a, b, c := ByteRun(0, 4), ByteRun(4, -2), ByteRun(0, 2);
    CombineTwo(a, b);
    BytesOfOne(a);
    BytesOfOne(c);
    HowManyBytes(a);
    HowManyBytes(b);
    HowManyBytes(c);
    AllBytesSnoc([a], b);
    assert [a] + [b] == [a, b];
  }

  lemma HowManyBytes(r: ByteRun)
    ensures |Bytes(r)| == if r.len < 0 then 0 else r.len
  {
  }

  lemma CombineTwo(a: ByteRun, b: ByteRun)
    requires a.End() == b.imgOffset
    ensures Combine([a, b]) == [ByteRun(a.imgOffset, a.len + b.len)]
  {
    assert [a][..0] == [] && [a, b][..1] == [a];
    assert Combine([a]) == [a];
  }

  lemma BytesOfOne(r: ByteRun)
    ensures AllBytes([r]) == Bytes(r)
  {
    hide Bytes;
    assert [r][..0] == [] && [] + Bytes(r) == Bytes(r);
  }

  /** No run ends where the next one starts. */
  predicate NoneAbut(rs: seq<ByteRun>) { forall i :: 0 <= i < |rs| - 1 ==> rs[i].End() != rs[i + 1].imgOffset }

  /** Nothing is left to merge, whatever the runs. */
  lemma {:induction false} CombineLeavesNoneAbutting(runs: seq<ByteRun>)
    ensures NoneAbut(Combine(runs))
    decreases |runs|
  {
    if runs != [] { CombineLeavesNoneAbutting(runs[..|runs| - 1]); }
  }

  /** The byte before those of the last run is not the one that would extend it. */
  lemma BeforeLast(a: seq<ByteRun>, x: ByteRun)
    requires a != [] && Positive(a) && NoneAbut(a) && a[|a| - 1] == x && |AllBytes(a)| > x.len
    ensures AllBytes(a)[|AllBytes(a)| - 1 - x.len] != x.imgOffset - 1
  {
    var init := a[..|a| - 1];
    var w := init[|init| - 1];
    assert AllBytes(a)[|AllBytes(a)| - 1 - x.len] == AllBytes(init)[|AllBytes(init)| - 1] == w.End() - 1;
    assert w == a[|a| - 2];
  }

  lemma FromTheBack(b: seq<ByteRun>, j: nat)
    requires b != [] && j < b[|b| - 1].len
    ensures |AllBytes(b)| >= b[|b| - 1].len && AllBytes(b)[|AllBytes(b)| - 1 - j] == b[|b| - 1].End() - 1 - j
  {
  }

  /** Byte by byte from the back, the last runs of two such lists are the same. */
  lemma LastRunsAgree(a: seq<ByteRun>, b: seq<ByteRun>)
    requires a != [] && b != [] && Positive(a) && Positive(b) && AllBytes(a) == AllBytes(b) && NoneAbut(a)
    ensures a[|a| - 1].End() == b[|b| - 1].End() && a[|a| - 1].len >= b[|b| - 1].len
  {
    hide AllBytes;
    var x, y := a[|a| - 1], b[|b| - 1];
    FromTheBack(a, 0);
    FromTheBack(b, 0);
    if x.len < y.len {
      FromTheBack(b, x.len);
      BeforeLast(a, x);
      assert false;
    }
  }

  lemma DropLast(a: seq<ByteRun>)
    requires a != [] && Positive(a) && NoneAbut(a)
    ensures var init := a[..|a| - 1];
            && Positive(init) && NoneAbut(init)
            && |AllBytes(a)| >= a[|a| - 1].len && AllBytes(init) == AllBytes(a)[..|AllBytes(a)| - a[|a| - 1].len]
  {
  }

  /** Lists of nonempty runs with nothing left to merge are told apart by their bytes. */
  lemma {:induction false} MergedIsUnique(a: seq<ByteRun>, b: seq<ByteRun>)
    requires Positive(a) && Positive(b) && AllBytes(a) == AllBytes(b) && NoneAbut(a) && NoneAbut(b)
    ensures a == b
    decreases |a|
  {
    NonemptyBytes(a);
    NonemptyBytes(b);
    assert AllBytes([]) == [];
    hide AllBytes, NoneAbut, Positive;
    if a != [] && b != [] {
      LastRunsAgree(a, b);
      LastRunsAgree(b, a);
      DropLast(a);
      DropLast(b);
      MergedIsUnique(a[..|a| - 1], b[..|b| - 1]);
      hide *;
      SplitLast(a);
      SplitLast(b);
    }
  }

  lemma NonemptyBytes(a: seq<ByteRun>)
    requires Positive(a)
    ensures a != [] ==> AllBytes(a) != []
  {
    if a != [] { assert |Bytes(a[|a| - 1])| > 0; }
  }

  /** The runs that have bytes. */
  function Nonempty(rs: seq<ByteRun>): seq<ByteRun>
    decreases |rs|
  {
    if rs == [] then [] else Nonempty(rs[..|rs| - 1]) + if rs[|rs| - 1].len > 0 then [rs[|rs| - 1]] else []
  }

  lemma {:induction false} NonemptyKeepsBytes(rs: seq<ByteRun>)
    ensures Positive(Nonempty(rs)) && AllBytes(Nonempty(rs)) == AllBytes(rs) && (Positive(rs) ==> Nonempty(rs) == rs)
    decreases |rs|
  {
    hide Bytes;
    if rs != [] {
      var init, r := rs[..|rs| - 1], rs[|rs| - 1];
      NonemptyKeepsBytes(init);
      SplitLast(rs);
      if r.len > 0 {
        AllBytesSnoc(Nonempty(init), r);
      } else {
        NoBytes(r);
        assert Nonempty(rs) == Nonempty(init);
      }
    }
  }

  lemma NoBytes(r: ByteRun)
    requires r.len <= 0
    ensures Bytes(r) == []
  {
  }

  /** Merging is a normal form: without the empty ones, two lists of runs merge to the
      same list exactly when they cover the same bytes in the same order. */
  lemma SameMergeIffSameBytes(a: seq<ByteRun>, b: seq<ByteRun>)
    ensures Combine(Nonempty(a)) == Combine(Nonempty(b)) <==> AllBytes(a) == AllBytes(b)
    ensures Positive(a) ==> Nonempty(a) == a
  {
    hide Combine, AllBytes, Bytes, Nonempty, SignsAgree;
    NonemptyKeepsBytes(a);
    NonemptyKeepsBytes(b);
    var x, y := Nonempty(a), Nonempty(b);
    CombineKeepsBytes(x);
    CombineKeepsBytes(y);
    CombineKeepsLengths(x);
    CombineKeepsLengths(y);
    CombineLeavesNoneAbutting(x);
    CombineLeavesNoneAbutting(y);
    if AllBytes(a) == AllBytes(b) { MergedIsUnique(Combine(x), Combine(y)); }
  }

  // ---------------------------------------------------------------------------
  // The database as the bytes it covers

  lemma {:induction false} ByteOwner(db: seq<ByteRun>, x: int)
    ensures x in AllBytes(db) <==> exists i :: 0 <= i < |db| && x in Bytes(db[i])
    decreases |db|
  {
    if db != [] {
      hide Bytes;
      var init := db[..|db| - 1];
      ByteOwner(init, x);
      if x in AllBytes(init) {
        var i :| 0 <= i < |init| && x in Bytes(init[i]);
        assert x in Bytes(db[i]);
      }
      if i :| 0 <= i < |db| && x in Bytes(db[i]) {
        if i < |init| { assert x in Bytes(init[i]); }
      }
    }
  }

  lemma NoRepeatsConcat(a: seq<int>, b: seq<int>)
    ensures NoRepeats(a + b) <==> NoRepeats(a) && NoRepeats(b) && forall x :: x in a ==> x !in b
  {
    var c := a + b;
    if NoRepeats(c) {
      forall i, j | 0 <= i < j < |a| ensures a[i] != a[j] { assert c[i] != c[j]; }
      forall i, j | 0 <= i < j < |b| ensures b[i] != b[j] { assert c[|a| + i] != c[|a| + j]; }
      forall x | x in a ensures x !in b {
        var i :| 0 <= i < |a| && a[i] == x;
        forall j | 0 <= j < |b| ensures b[j] != x { assert c[i] != c[|a| + j]; }
      }
    }
    if NoRepeats(a) && NoRepeats(b) && forall x :: x in a ==> x !in b {
      forall i, j | 0 <= i < j < |c| ensures c[i] != c[j] {
        if i < |a| <= j { assert a[i] in a && b[j - |a|] in b; }
      }
    }
  }

  lemma SharesIffInAll(db: seq<ByteRun>, e: ByteRun)
    ensures ShareAny(db, e) <==> exists x :: x in AllBytes(db) && x in Bytes(e)
  {
    hide Bytes, AllBytes;
    if ShareAny(db, e) {
      var i :| 0 <= i < |db| && Share(db[i], e);
      var x :| x in Bytes(db[i]) && x in Bytes(e);
      ByteOwner(db, x);
    }
    if x :| x in AllBytes(db) && x in Bytes(e) {
      ByteOwner(db, x);
      var i :| 0 <= i < |db| && x in Bytes(db[i]);
      assert Share(db[i], e);
    }
  }

  /** A database of nonempty extents is free of collisions exactly when no byte is
      covered twice. */
  lemma {:induction false} GoodIffNoByteTwice(db: seq<ByteRun>)
    requires Positive(db)
    ensures Good(db) <==> NoRepeats(AllBytes(db))
    decreases |db|
  {
    if db != [] {
      var init, e := db[..|db| - 1], db[|db| - 1];
      assert db == init + [e];
      GoodIffNoByteTwice(init);
      NoRepeatsConcat(AllBytes(init), Bytes(e));
      SharesIffInAll(init, e);
      assert NoRepeats(Bytes(e));
      hide Bytes, Share, NoRepeats;
      if Good(db) { PrefixGood(db, |init|); }
      if Good(init) { AddableIffGood(init, e); }
    }
  }

  /** So runs can be merged before they are added. */
  lemma MergingKeepsGood(db: seq<ByteRun>, runs: seq<ByteRun>)
    requires Positive(db) && Positive(runs)
    ensures Good(db + Combine(runs)) <==> Good(db + runs)
  {
    hide AllBytes, Combine, Good, SignsAgree, NoRepeats;
    CombineKeepsBytes(runs);
    CombineKeepsLengths(runs);
    AllBytesConcat(db, runs);
    AllBytesConcat(db, Combine(runs));
    GoodIffNoByteTwice(db + runs);
    GoodIffNoByteTwice(db + Combine(runs));
  }
}
