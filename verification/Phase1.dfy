/** The producer loop of phase1.cpp: which pages one run schedules, how far it runs
    ahead of the workers, and what the image hash is a hash of. */
module Phase1 {
  import opened Basics
  import opened ProcessRaw

  /** The settings the loop reads.  Page ids are the decimal strings of offsets; the
      offsets stand for them.  `sample` are the blocks that were drawn, in the order of
      the set, if the run only samples. */
  datatype Config = Config(pageStart: nat, scanStart: nat, scanEnd: nat, seen: set<nat>, sample: Option<seq<nat>>)

  // ---------------------------------------------------------------------------
  // What a run does

  /** The end of the scan range. */
  predicate TooFar(cfg: Config, off: nat) { cfg.scanEnd != 0 && cfg.scanEnd <= off }

  /** The loop is over at this offset. */
  predicate Over(cfg: Config, size: nat, off: nat) { off == size || TooFar(cfg, off) }

  /** A bound on the turns left. */
  function Distance(size: nat, off: nat): nat { if off > size then size + 1 else size - off }

  /** The offsets the iterator goes through. */
  function Visits(cfg: Config, size: nat, pagesize: nat, off: nat): seq<nat>
    requires pagesize > 0
    decreases Distance(size, off)
  {
    if Over(cfg, size, off) then [] else [off] + Visits(cfg, size, pagesize, NextOffset(size, off, pagesize))
  }

  /** Is the page at a visited offset scheduled?  The iterator's page number stays 0,
      so a positive `page_start` rules out every page. */
  predicate Wanted(cfg: Config, size: nat, unreadable: set<nat>, off: nat) {
    cfg.pageStart <= 0 && cfg.scanStart <= off && off !in cfg.seen && off < size && off !in unreadable
  }

  function Select(cfg: Config, size: nat, unreadable: set<nat>, offs: seq<nat>): (s: seq<nat>)
    ensures forall i :: 0 <= i < |s| ==> s[i] in offs && Wanted(cfg, size, unreadable, s[i])
    decreases |offs|
  {
    if offs == [] then []
    else (if Wanted(cfg, size, unreadable, offs[0]) then [offs[0]] else []) + Select(cfg, size, unreadable, offs[1..])
  }

  /** The offsets a sampling run goes through, when the iterator is at `off` and
      `blocks` are left. */
  function SampleVisits(cfg: Config, size: nat, pagesize: nat, off: nat, blocks: seq<nat>): seq<nat>
    requires pagesize > 0
    decreases |blocks|
  {
    if off == size || blocks == [] then []
    else
      var o := SeekOffset(size, pagesize, blocks[0]);
      if TooFar(cfg, o) then [] else [o] + SampleVisits(cfg, size, pagesize, NextOffset(size, o, pagesize), blocks[1..])
  }

  predicate Sampling(cfg: Config) { cfg.sample.Some? }

  /** How many blocks of the sample can have been dealt with. */
  predicate IsPlace(cfg: Config, si: nat) { if Sampling(cfg) then si <= |cfg.sample.value| else si == 0 }

  /** The offsets the loop still goes through. */
  function Ahead(cfg: Config, size: nat, pagesize: nat, off: nat, si: nat): seq<nat>
    requires pagesize > 0 && IsPlace(cfg, si)
  {
    if Sampling(cfg) then SampleVisits(cfg, size, pagesize, off, cfg.sample.value[si..])
    else Visits(cfg, size, pagesize, off)
  }

  /** The offsets of the pages one undisturbed run schedules, in order. */
  function Todo(cfg: Config, size: nat, pagesize: nat, unreadable: set<nat>): seq<nat>
    requires pagesize > 0
  {
    Select(cfg, size, unreadable, Ahead(cfg, size, pagesize, cfg.scanStart, 0))
  }

  function Pages(image: seq<byte>, pagesize: nat, margin: nat, offs: seq<nat>): (s: seq<Sbuf>)
    requires forall i :: 0 <= i < |offs| ==> offs[i] <= |image|
    ensures |s| == |offs| && forall i :: 0 <= i < |s| ==> s[i] == PageAt(image, offs[i], pagesize, margin)
  {
    seq(|offs|, i requires 0 <= i < |offs| => PageAt(image, offs[i], pagesize, margin))
  }

  // ---------------------------------------------------------------------------
  // The hash generator

  /** `sha1g` (live or deleted), the bytes fed to it, and `hash_next`. */
  datatype Hash = Hash(live: bool, fed: seq<byte>, next: nat)

  const FRESH := Hash(true, [], 0)

  /** A sampling run has no generator. */
  function StartHash(cfg: Config): Hash { Hash(!Sampling(cfg), [], 0) }

  function HashPage(h: Hash, s: Sbuf): Hash {
    if !h.live then h
    else if s.pos0 == h.next && s.pagesize <= |s.buf| then Hash(true, h.fed + s.buf[..s.pagesize], h.next + s.pagesize)
    else h.(live := false)
  }

  function HashAll(h: Hash, ss: seq<Sbuf>): Hash
    decreases |ss|
  {
    if ss == [] then h else HashAll(HashPage(h, ss[0]), ss[1..])
  }

  function TotalBytes(ss: seq<Sbuf>): nat
    decreases |ss|
  {
    if ss == [] then 0 else ss[0].pagesize + TotalBytes(ss[1..])
  }

  lemma {:induction false} HashSnoc(h: Hash, ss: seq<Sbuf>, s: Sbuf)
    ensures HashAll(h, ss + [s]) == HashPage(HashAll(h, ss), s) && TotalBytes(ss + [s]) == TotalBytes(ss) + s.pagesize
    decreases |ss|
  {
    hide HashPage;
    if ss == [] {
      assert [s][1..] == [];
    } else {
      assert (ss + [s])[1..] == ss[1..] + [s];
      HashSnoc(HashPage(h, ss[0]), ss[1..], s);
    }
  }

  // ---------------------------------------------------------------------------
  // The code

  /** The part of the scanner set that the producer touches.  Workers finish buffers
      whenever they like. */
  class ScannerSet {
    const workers: nat
    var depth0SbufsInQueue: nat
    var diskWriteErrors: nat
    ghost var scheduled: seq<Sbuf>
    ghost var peak: nat

    constructor (workers: nat)
      ensures this.workers == workers && depth0SbufsInQueue == 0 && scheduled == [] && peak == 0
    {
      this.workers := workers;
      depth0SbufsInQueue, diskWriteErrors, scheduled, peak := 0, 0, [], 0;
    }

    /** Any number of buffers may be finished between two steps of the producer, and
        any number of write errors may come up. */
    method WorkersRun()
      modifies this`depth0SbufsInQueue, this`diskWriteErrors
      ensures depth0SbufsInQueue <= old(depth0SbufsInQueue)
    {
      var k, errors :| 0 <= k <= depth0SbufsInQueue && 0 <= errors;
      depth0SbufsInQueue, diskWriteErrors := k, diskWriteErrors + errors;
    }

    /** Waits for the workers; at least one buffer is finished. */
    method MainThreadWait()
      requires depth0SbufsInQueue > 0
      modifies this`depth0SbufsInQueue, this`diskWriteErrors
      ensures depth0SbufsInQueue < old(depth0SbufsInQueue)
    {
      depth0SbufsInQueue := depth0SbufsInQueue - 1;
      WorkersRun();
    }

    method ScheduleSbuf(s: Sbuf)
      modifies this
      ensures depth0SbufsInQueue == old(depth0SbufsInQueue) + 1 && scheduled == old(scheduled) + [s]
      ensures peak == if old(peak) < depth0SbufsInQueue then depth0SbufsInQueue else old(peak)
    {
      depth0SbufsInQueue := depth0SbufsInQueue + 1;
      scheduled := scheduled + [s];
      if peak < depth0SbufsInQueue { peak := depth0SbufsInQueue; }
    }
  }

  class Producer {
    const cfg: Config
    const p: RawImage
    const ss: ScannerSet
    var totalBytes: nat
    var sha1g: bool
    ghost var fed: seq<byte>
    var hashNext: nat
    var depth0Sleep: nat

    constructor (cfg: Config, p: RawImage, ss: ScannerSet)
      ensures this.cfg == cfg && this.p == p && this.ss == ss
      ensures totalBytes == 0 && HashState() == Hash(false, [], 0)
    {
      this.cfg, this.p, this.ss := cfg, p, ss;
      totalBytes, sha1g, fed, hashNext, depth0Sleep := 0, false, [], 0, 0;
    }

    ghost function HashState(): Hash
      reads `sha1g, `fed, `hashNext
    {
      Hash(sha1g, fed, hashNext)
    }

    /** Feed the page to the hash if it follows logically; on a gap stop hashing. */
    method Process(s: Sbuf)
      requires s.pagesize <= |s.buf|
      modifies this, ss
      ensures HashState() == HashPage(old(HashState()), s) && totalBytes == old(totalBytes) + s.pagesize
      ensures ss.scheduled == old(ss.scheduled) + [s]
      ensures ss.depth0SbufsInQueue == old(ss.depth0SbufsInQueue) + 1
      ensures ss.peak == if old(ss.peak) < ss.depth0SbufsInQueue then ss.depth0SbufsInQueue else old(ss.peak)
    {
      if sha1g {
        if s.pos0 == hashNext {
          fed := fed + s.buf[..s.pagesize];
          hashNext := hashNext + s.pagesize;
        } else {
          sha1g := false;
        }
      }
      totalBytes := totalBytes + s.pagesize;
      ss.ScheduleSbuf(s);
    }

    /** What the run so far has to do with the pages `done`. */
    ghost predicate HasDone(done: seq<nat>)
      reads `totalBytes, `sha1g, `fed, `hashNext, p, ss`scheduled
    {
      && (forall i :: 0 <= i < |done| ==> done[i] <= |p.Image()|)
      && ss.scheduled == Pages(p.Image(), p.pagesize, p.margin, done)
      && HashState() == HashAll(StartHash(cfg), ss.scheduled) && totalBytes == TotalBytes(ss.scheduled)
    }

    /** The page under the iterator: read, hash and schedule it if it is wanted.
        `unreadable` are the pages whose read keeps failing; the exception is caught
        and the page skipped. */
    method Visit(it: Iterator, unreadable: set<nat>, ghost done: seq<nat>) returns (ghost done': seq<nat>)
      requires p.Valid() && p.pagesize > 0 && HasDone(done) && it.pageNumber == 0
      requires ss.depth0SbufsInQueue <= ss.workers && ss.peak <= ss.workers + 1
      modifies this, ss, it`eof
      ensures p.Valid() && HasDone(done') && (it.eof ==> old(it.eof) || it.rawOffset == |p.Image()|)
      ensures done' == done + (if Wanted(cfg, |p.Image()|, unreadable, it.rawOffset) then [it.rawOffset] else [])
      ensures ss.peak <= ss.workers + 1
    {
      hide Flat, Tiles, PageAt, HashAll, TotalBytes, HashPage;
      done' := done;
      if cfg.pageStart <= it.pageNumber && cfg.scanStart <= it.rawOffset {
        if it.rawOffset !in cfg.seen && it.rawOffset !in unreadable {
          var r := p.SbufAlloc(it);
          if r.Ok? {
            PageFits(p.Image(), it.rawOffset, p.pagesize, p.margin);
            HashSnoc(StartHash(cfg), ss.scheduled, r.value);
            Process(r.value);
            done' := done + [it.rawOffset];
          }
        }
      }
    }

    /** One turn of the loop inside the scan range: wait if the queue is too long,
        otherwise deal with the page. */
    method Turn(it: Iterator, unreadable: set<nat>, ghost done: seq<nat>) returns (waited: bool, ghost done': seq<nat>)
      requires p.Valid() && p.pagesize > 0 && HasDone(done) && it.pageNumber == 0
      requires ss.peak <= ss.workers + 1
      modifies this, ss, it`eof
      ensures p.Valid() && HasDone(done') && (it.eof ==> old(it.eof) || it.rawOffset == |p.Image()|)
      ensures waited ==> done' == done && ss.depth0SbufsInQueue < old(ss.depth0SbufsInQueue) && it.eof == old(it.eof)
      ensures !waited ==> done' == done + (if Wanted(cfg, |p.Image()|, unreadable, it.rawOffset) then [it.rawOffset] else [])
      ensures ss.peak <= ss.workers + 1
    {
      hide Flat, Tiles, HashAll, TotalBytes, Pages, Wanted, HasDone;
      ss.WorkersRun();
      waited, done' := ss.depth0SbufsInQueue > ss.workers, done;
      if waited {
        ss.MainThreadWait();
        depth0Sleep := depth0Sleep + 1;
      } else {
        done' := Visit(it, unreadable, done);
      }
    }

    /** The next block of the sample, if the run samples; false at its end. */
    method SeekSample(it: Iterator, si: nat) returns (more: bool)
      requires p.Valid() && p.pagesize > 0 && IsPlace(cfg, si)
      modifies it`rawOffset
      ensures more <==> !Sampling(cfg) || si < |cfg.sample.value|
      ensures it.rawOffset == if more then Sought(cfg, |p.Image()|, p.pagesize, old(it.rawOffset), si) else old(it.rawOffset)
    {
      if cfg.sample.None? { return true; }
      if si == |cfg.sample.value| { return false; }
      p.SeekBlock(it, cfg.sample.value[si]);
      return true;
    }

    /** One turn of the loop: over, waited, or one page further. */
    method OneTurn(it: Iterator, si: nat, unreadable: set<nat>, ghost done: seq<nat>)
      returns (over: bool, si': nat, ghost done': seq<nat>)
      requires p.Valid() && p.pagesize > 0 && HasDone(done) && it.pageNumber == 0 && it.fileNumber == 0
      requires it.rawOffset != |p.Image()| && !it.eof && IsPlace(cfg, si) && ss.peak <= ss.workers + 1
      modifies this, ss, it`eof, it`rawOffset
      ensures p.Valid() && HasDone(done') && IsPlace(cfg, si') && ss.peak <= ss.workers + 1
      ensures it.eof ==> it.rawOffset == |p.Image()|
      ensures over ==> done' == done && Left(unreadable, old(it.rawOffset), si) == []
      ensures !over ==> done' + Left(unreadable, it.rawOffset, si') == done + Left(unreadable, old(it.rawOffset), si)
      ensures !over ==> var n := TurnsLeft(cfg, |p.Image()|, it.rawOffset, si');
                        var was := TurnsLeft(cfg, |p.Image()|, old(it.rawOffset), si);
                        n < was || (n == was && ss.depth0SbufsInQueue < old(ss.depth0SbufsInQueue))
    {
      hide Flat, Tiles, HashAll, Ahead, Select, TotalBytes, Pages, Wanted, HasDone, Sought, TurnsLeft, p.Valid;
      ghost var size, ps, off := |p.Image()|, p.pagesize, it.rawOffset;
      over, si', done' := false, si, done;
      var seeks := SeekSample(it, si);
      if !seeks || (cfg.scanEnd != 0 && cfg.scanEnd <= it.rawOffset) {
        AheadOver(cfg, size, ps, unreadable, off, si);
        over := true;
        return;
      }
      AheadOne(cfg, size, ps, unreadable, off, si);
      var waited;
      waited, done' := Turn(it, unreadable, done);
      if waited { return; }
      if cfg.sample.Some? { si' := si + 1; }
      p.IncrementIterator(it);
    }

    /** What is left to be scheduled. */
    ghost function Left(unreadable: set<nat>, off: nat, si: nat): seq<nat>
      requires p.pagesize > 0 && IsPlace(cfg, si)
      reads p
    {
      Select(cfg, |p.Image()|, unreadable, Ahead(cfg, |p.Image()|, p.pagesize, off, si))
    }

    /** The loop.  It schedules the pages of `Todo`; a disk write error ends the program
        after the first of them. */
    method ReadProcessSbufs(unreadable: set<nat>) returns (exited: bool, ghost done: seq<nat>)
      requires p.Valid() && p.pagesize > 0
      requires totalBytes == 0 && HashState() == Hash(false, [], 0)
      requires ss.scheduled == [] && ss.peak <= ss.workers + 1
      modifies this, ss
      ensures p.Valid() && ss.peak <= ss.workers + 1
      ensures done <= Todo(cfg, |p.Image()|, p.pagesize, unreadable)
      ensures if exited then ss.diskWriteErrors > 0 else done == Todo(cfg, |p.Image()|, p.pagesize, unreadable)
      ensures (forall i :: 0 <= i < |done| ==> done[i] <= |p.Image()|) && ss.scheduled == Pages(p.Image(), p.pagesize, p.margin, done)
      ensures HashState() == HashAll(StartHash(cfg), ss.scheduled) && totalBytes == TotalBytes(ss.scheduled)
    {
      hide Flat, Tiles, HashAll, Ahead, Select, TotalBytes, Pages, HasDone, TurnsLeft, p.Valid;
      ghost var size := |p.Image()|;
      exited, done := false, [];
      var si := 0;
      var it := new Iterator();
      if cfg.scanStart != 0 { it.rawOffset := cfg.scanStart; }
      sha1g := cfg.sample.None?;
      NothingDone();
      var more := p.NotAtEnd(it);
      while more
        invariant it.pageNumber == 0 && it.fileNumber == 0 && IsPlace(cfg, si)
        invariant p.Valid() && |p.Image()| == size && more == (it.rawOffset != size) && (it.eof ==> !more)
        invariant Todo(cfg, size, p.pagesize, unreadable) == done + Left(unreadable, it.rawOffset, si)
        invariant HasDone(done) && ss.peak <= ss.workers + 1
        decreases TurnsLeft(cfg, size, it.rawOffset, si), ss.depth0SbufsInQueue
      {
        if ss.diskWriteErrors > 0 {
          AllDone(done);
          return true, done;
        }
        var over;
        over, si, done := OneTurn(it, si, unreadable, done);
        if over {
          assert done + [] == done;
          AllDone(done);
          return false, done;
        }
        more := p.NotAtEnd(it);
      }
      AheadOver(cfg, size, p.pagesize, unreadable, it.rawOffset, si);
      assert done + [] == done;
      AllDone(done);
    }

    lemma NothingDone()
      requires totalBytes == 0 && HashState() == StartHash(cfg) && ss.scheduled == []
      ensures HasDone([])
    {
    }

    lemma AllDone(done: seq<nat>)
      requires HasDone(done)
      ensures (forall i :: 0 <= i < |done| ==> done[i] <= |p.Image()|)
      ensures ss.scheduled == Pages(p.Image(), p.pagesize, p.margin, done)
      ensures HashState() == HashAll(StartHash(cfg), ss.scheduled) && totalBytes == TotalBytes(ss.scheduled)
    {
    }
  }

  lemma PageFits(image: seq<byte>, off: nat, pagesize: nat, margin: nat)
    requires off <= |image|
    ensures var s := PageAt(image, off, pagesize, margin); s.pagesize <= |s.buf| && s.pos0 == off
  {
  }

  lemma VisitOne(cfg: Config, size: nat, pagesize: nat, unreadable: set<nat>, off: nat)
    requires pagesize > 0 && !Over(cfg, size, off)
    ensures Select(cfg, size, unreadable, Visits(cfg, size, pagesize, off))
         == (if Wanted(cfg, size, unreadable, off) then [off] else [])
            + Select(cfg, size, unreadable, Visits(cfg, size, pagesize, NextOffset(size, off, pagesize)))
  {
  }

  lemma VisitsOver(cfg: Config, size: nat, pagesize: nat, unreadable: set<nat>, off: nat)
    requires pagesize > 0 && Over(cfg, size, off)
    ensures Select(cfg, size, unreadable, Visits(cfg, size, pagesize, off)) == []
  {
  }

  /** The offset dealt with next: the iterator's, or that of the next block drawn. */
  function Sought(cfg: Config, size: nat, pagesize: nat, off: nat, si: nat): nat
    requires pagesize > 0 && IsPlace(cfg, si) && (Sampling(cfg) ==> si < |cfg.sample.value|)
  {
    if Sampling(cfg) then SeekOffset(size, pagesize, cfg.sample.value[si]) else off
  }

  function TurnsLeft(cfg: Config, size: nat, off: nat, si: nat): nat
    requires IsPlace(cfg, si)
  {
    if Sampling(cfg) then |cfg.sample.value| - si else Distance(size, off)
  }

  /** One turn, and what a turn that only waits has done to the iterator. */
  lemma AheadOne(cfg: Config, size: nat, pagesize: nat, unreadable: set<nat>, off: nat, si: nat)
    requires pagesize > 0 && IsPlace(cfg, si) && (Sampling(cfg) ==> si < |cfg.sample.value|) && off != size
    requires !TooFar(cfg, Sought(cfg, size, pagesize, off, si))
    ensures var o, si' := Sought(cfg, size, pagesize, off, si), if Sampling(cfg) then si + 1 else si;
            var next := NextOffset(size, o, pagesize);
            && Select(cfg, size, unreadable, Ahead(cfg, size, pagesize, off, si))
            == (if Wanted(cfg, size, unreadable, o) then [o] else [])
               + Select(cfg, size, unreadable, Ahead(cfg, size, pagesize, next, si'))
            && Select(cfg, size, unreadable, Ahead(cfg, size, pagesize, o, si))
            == Select(cfg, size, unreadable, Ahead(cfg, size, pagesize, off, si))
            && TurnsLeft(cfg, size, next, si') < TurnsLeft(cfg, size, off, si)
            && TurnsLeft(cfg, size, o, si) == TurnsLeft(cfg, size, off, si)
  {
    if Sampling(cfg) {
      var blocks := cfg.sample.value[si..];
      assert blocks[1..] == cfg.sample.value[si + 1..];
    } else {
      VisitOne(cfg, size, pagesize, unreadable, off);
    }
  }

  lemma AheadOver(cfg: Config, size: nat, pagesize: nat, unreadable: set<nat>, off: nat, si: nat)
    requires pagesize > 0 && IsPlace(cfg, si)
    requires off == size || (Sampling(cfg) && si == |cfg.sample.value|) || TooFar(cfg, Sought(cfg, size, pagesize, off, si))
    ensures Select(cfg, size, unreadable, Ahead(cfg, size, pagesize, off, si)) == []
  {
  }

  // ---------------------------------------------------------------------------
  // What a run covers

  lemma {:induction false} SelectAll(cfg: Config, size: nat, offs: seq<nat>)
    requires cfg.pageStart == 0 && cfg.seen == {} && forall i :: 0 <= i < |offs| ==> cfg.scanStart <= offs[i] < size
    ensures Select(cfg, size, {}, offs) == offs
    decreases |offs|
  {
    if offs != [] {
      assert forall i :: 0 <= i < |offs[1..]| ==> offs[1..][i] == offs[i + 1];
      SelectAll(cfg, size, offs[1..]);
    }
  }

  lemma {:induction false} VisitsAreOffsets(cfg: Config, size: nat, pagesize: nat, off: nat)
    requires pagesize > 0 && off <= size && cfg.scanEnd == 0
    ensures Visits(cfg, size, pagesize, off) == Offsets(size, off, pagesize)
    ensures forall i :: 0 <= i < |Offsets(size, off, pagesize)| ==> off <= Offsets(size, off, pagesize)[i] < size
    decreases size - off
  {
    if off < size { VisitsAreOffsets(cfg, size, pagesize, NextOffset(size, off, pagesize)); }
  }

  /** A fresh run over a whole readable image schedules every page, once and in order. */
  lemma FreshRunCoversImage(size: nat, pagesize: nat)
    requires pagesize > 0
    ensures Todo(Config(0, 0, 0, {}, None), size, pagesize, {}) == Offsets(size, 0, pagesize)
  {
    VisitsAreOffsets(Config(0, 0, 0, {}, None), size, pagesize, 0);
    SelectAll(Config(0, 0, 0, {}, None), size, Offsets(size, 0, pagesize));
  }

  lemma {:induction false} SelectNone(cfg: Config, size: nat, unreadable: set<nat>, offs: seq<nat>)
    requires cfg.pageStart > 0
    ensures Select(cfg, size, unreadable, offs) == []
    decreases |offs|
  {
    if offs != [] { SelectNone(cfg, size, unreadable, offs[1..]); }
  }

  /** A positive page_start makes the run do nothing at all: the page number it is
      compared with never moves. */
  lemma PageStartSkipsEverything(cfg: Config, size: nat, pagesize: nat, unreadable: set<nat>)
    requires pagesize > 0 && cfg.pageStart > 0
    ensures Todo(cfg, size, pagesize, unreadable) == []
  {
    SelectNone(cfg, size, unreadable, Ahead(cfg, size, pagesize, cfg.scanStart, 0));
  }

  // ---------------------------------------------------------------------------
  // What the hash is a hash of

  /** The offsets follow each other page by page, from `next` on. */
  predicate Chained(size: nat, pagesize: nat, next: nat, offs: seq<nat>)
    decreases |offs|
  {
    offs == [] || (offs[0] == next && Chained(size, pagesize, NextOffset(size, next, pagesize), offs[1..]))
  }

  function After(size: nat, pagesize: nat, next: nat, offs: seq<nat>): nat
    decreases |offs|
  {
    if offs == [] then next else After(size, pagesize, NextOffset(size, next, pagesize), offs[1..])
  }

  lemma {:induction false} DeadStaysDead(h: Hash, ss: seq<Sbuf>)
    requires !h.live
    ensures HashAll(h, ss) == h
    decreases |ss|
  {
    if ss != [] { DeadStaysDead(h, ss[1..]); }
  }

  lemma {:induction false} HashOfPages(image: seq<byte>, pagesize: nat, margin: nat, next: nat, offs: seq<nat>)
    requires pagesize > 0 && next <= |image| && forall i :: 0 <= i < |offs| ==> offs[i] < |image|
    ensures var h := HashAll(Hash(true, image[..next], next), Pages(image, pagesize, margin, offs));
            && (h.live <==> Chained(|image|, pagesize, next, offs))
            && (h.live ==> h.next == After(|image|, pagesize, next, offs) <= |image| && h.fed == image[..h.next])
    decreases |offs|
  {
    if offs != [] {
      var size := |image|;
      var all := Pages(image, pagesize, margin, offs);
      assert all[1..] == Pages(image, pagesize, margin, offs[1..]);
      var h := Hash(true, image[..next], next);
      PageFits(image, offs[0], pagesize, margin);
      if offs[0] == next {
        var to := NextOffset(size, next, pagesize);
        assert image[..next] + image[next..to] == image[..to];
        assert all[0].buf[..all[0].pagesize] == image[next..to];
        assert HashPage(h, all[0]) == Hash(true, image[..to], to);
        HashOfPages(image, pagesize, margin, to, offs[1..]);
      } else {
        DeadStaysDead(HashPage(h, all[0]), all[1..]);
      }
    }
  }

  lemma {:induction false} ChainedToEnd(size: nat, pagesize: nat, next: nat, offs: seq<nat>)
    requires pagesize > 0 && next <= size && forall i :: 0 <= i < |offs| ==> offs[i] < size
    ensures Chained(size, pagesize, next, offs) && After(size, pagesize, next, offs) == size
       <==> offs == Offsets(size, next, pagesize)
    decreases |offs|
  {
    if offs != [] {
      assert forall i :: 0 <= i < |offs[1..]| ==> offs[1..][i] == offs[i + 1];
      ChainedToEnd(size, pagesize, NextOffset(size, next, pagesize), offs[1..]);
      if next == size {
        assert offs[0] != next;
      } else {
        var all := Offsets(size, next, pagesize);
        assert all == [next] + Offsets(size, NextOffset(size, next, pagesize), pagesize);
        if offs[0] == next && offs[1..] == all[1..] { assert offs == [offs[0]] + offs[1..]; }
      }
    }
  }

  /** A page that a run from offset 0 schedules, unless it is to start at a later page. */
  predicate Taken(cfg: Config, unreadable: set<nat>, off: nat) {
    off !in cfg.seen && off !in unreadable && (cfg.scanEnd == 0 || off < cfg.scanEnd)
  }

  /** No page that is taken comes after one that is not. */
  predicate TakenFirst(cfg: Config, unreadable: set<nat>, offs: seq<nat>) {
    forall i, j :: 0 <= i < j < |offs| && Taken(cfg, unreadable, offs[j]) ==> Taken(cfg, unreadable, offs[i])
  }

  /** The settings schedule all pages of the image. */
  predicate TakesAll(cfg: Config, size: nat, pagesize: nat, unreadable: set<nat>)
    requires pagesize > 0
  {
    !Sampling(cfg)
    && (size == 0
        || (cfg.pageStart == 0 && cfg.scanStart == 0
            && forall off :: off in Offsets(size, 0, pagesize) ==> Taken(cfg, unreadable, off)))
  }

  /** The settings schedule a first part of the image's pages, or all, or nothing. */
  predicate TakesPrefix(cfg: Config, size: nat, pagesize: nat, unreadable: set<nat>)
    requires pagesize > 0
  {
    !Sampling(cfg)
    && (cfg.pageStart > 0
        || (if cfg.scanStart == 0 then TakenFirst(cfg, unreadable, Offsets(size, 0, pagesize))
            else forall off :: off in Visits(cfg, size, pagesize, cfg.scanStart) ==> !Wanted(cfg, size, unreadable, off)))
  }

  lemma {:induction false} SelectsNothingIff(cfg: Config, size: nat, unreadable: set<nat>, offs: seq<nat>)
    ensures Select(cfg, size, unreadable, offs) == [] <==> forall off :: off in offs ==> !Wanted(cfg, size, unreadable, off)
    decreases |offs|
  {
    if offs != [] {
      assert offs == [offs[0]] + offs[1..];
      SelectsNothingIff(cfg, size, unreadable, offs[1..]);
    }
  }

  lemma {:induction false} OffsetsFrom(size: nat, off: nat, pagesize: nat)
    requires pagesize > 0 && off <= size
    ensures forall o :: o in Offsets(size, off, pagesize) ==> off <= o < size
    decreases size - off
  {
    if off < size { OffsetsFrom(size, NextOffset(size, off, pagesize), pagesize); }
  }

  /** What a run from offset 0 selects from `off` on: nothing, or everything. */
  lemma {:induction false} SelectedFrom(cfg: Config, size: nat, pagesize: nat, unreadable: set<nat>, off: nat)
    requires pagesize > 0 && cfg.pageStart == 0 && cfg.scanStart == 0 && off <= size
    ensures var sel := Select(cfg, size, unreadable, Visits(cfg, size, pagesize, off));
            var all := Offsets(size, off, pagesize);
            && (sel == [] <==> forall o :: o in all ==> !Taken(cfg, unreadable, o))
            && (sel == all <==> forall o :: o in all ==> Taken(cfg, unreadable, o))
    decreases size - off
  {
    OffsetsFrom(size, off, pagesize);
    if Over(cfg, size, off) {
      VisitsOver(cfg, size, pagesize, unreadable, off);
      if off < size { assert off in Offsets(size, off, pagesize); }
    } else {
      var next := NextOffset(size, off, pagesize);
      SelectedFrom(cfg, size, pagesize, unreadable, next);
      VisitOne(cfg, size, pagesize, unreadable, off);
      var rest := Offsets(size, next, pagesize);
      SelectOneMore(cfg, size, unreadable, off, Visits(cfg, size, pagesize, next), rest);
      assert Offsets(size, off, pagesize) == [off] + rest;
      assert forall o :: o in [off] + rest <==> o == off || o in rest;
      assert Wanted(cfg, size, unreadable, off) <==> Taken(cfg, unreadable, off);
    }
  }

  lemma SelectOneMore(cfg: Config, size: nat, unreadable: set<nat>, off: nat, offs: seq<nat>, rest: seq<nat>)
    ensures var sel := Select(cfg, size, unreadable, offs);
            var more := (if Wanted(cfg, size, unreadable, off) then [off] else []) + sel;
            more == [off] + rest <==> Wanted(cfg, size, unreadable, off) && sel == rest
  {
    var sel := Select(cfg, size, unreadable, offs);
    if Wanted(cfg, size, unreadable, off) {
      assert ([off] + sel)[1..] == sel && ([off] + rest)[1..] == rest;
    } else {
      assert off !in sel && off in [off] + rest;
    }
  }

  /** Chained means: what is selected comes first. */
  lemma {:induction false} ChainedIff(cfg: Config, size: nat, pagesize: nat, unreadable: set<nat>, off: nat)
    requires pagesize > 0 && cfg.pageStart == 0 && cfg.scanStart == 0 && off <= size
    ensures Chained(size, pagesize, off, Select(cfg, size, unreadable, Visits(cfg, size, pagesize, off)))
       <==> TakenFirst(cfg, unreadable, Offsets(size, off, pagesize))
    decreases size - off
  {
    var all := Offsets(size, off, pagesize);
    if Over(cfg, size, off) {
      OffsetsFrom(size, off, pagesize);
      VisitsOver(cfg, size, pagesize, unreadable, off);
      assert forall j :: 0 <= j < |all| ==> all[j] in all;
    } else {
      var next := NextOffset(size, off, pagesize);
      var sel, rest := Select(cfg, size, unreadable, Visits(cfg, size, pagesize, next)), Offsets(size, next, pagesize);
      VisitOne(cfg, size, pagesize, unreadable, off);
      SelectedFrom(cfg, size, pagesize, unreadable, next);
      ChainedIff(cfg, size, pagesize, unreadable, next);
      TakenFirstCons(cfg, unreadable, off, rest);
      hide Visits, Select, TakenFirst;
      assert ([off] + sel)[1..] == sel;
      assert sel != [] ==> Wanted(cfg, size, unreadable, sel[0]);
    }
  }

  lemma TakenFirstCons(cfg: Config, unreadable: set<nat>, off: nat, rest: seq<nat>)
    ensures TakenFirst(cfg, unreadable, [off] + rest)
       <==> if Taken(cfg, unreadable, off) then TakenFirst(cfg, unreadable, rest)
            else forall o :: o in rest ==> !Taken(cfg, unreadable, o)
  {
    hide Taken;
    var all := [off] + rest;
    if TakenFirst(cfg, unreadable, all) {
      forall i, j | 0 <= i < j < |rest| && Taken(cfg, unreadable, rest[j])
        ensures Taken(cfg, unreadable, rest[i])
      {
        assert rest[i] == all[i + 1] && rest[j] == all[j + 1];
      }
      forall o | o in rest && Taken(cfg, unreadable, o)
        ensures Taken(cfg, unreadable, off)
      {
        var j :| 0 <= j < |rest| && rest[j] == o;
        assert all[0] == off && all[j + 1] == o;
      }
    }
  }

  /** Which settings keep the generator alive, and which hash the whole image. */
  lemma TodoBySettings(cfg: Config, size: nat, pagesize: nat, unreadable: set<nat>)
    requires pagesize > 0 && !Sampling(cfg)
    ensures var todo := Todo(cfg, size, pagesize, unreadable);
            && (Chained(size, pagesize, 0, todo) <==> TakesPrefix(cfg, size, pagesize, unreadable))
            && (todo == Offsets(size, 0, pagesize) <==> TakesAll(cfg, size, pagesize, unreadable))
  {
    var todo := Todo(cfg, size, pagesize, unreadable);
    if cfg.pageStart > 0 {
      PageStartSkipsEverything(cfg, size, pagesize, unreadable);
    } else if cfg.scanStart == 0 {
      ChainedIff(cfg, size, pagesize, unreadable, 0);
      SelectedFrom(cfg, size, pagesize, unreadable, 0);
    } else {
      SelectsNothingIff(cfg, size, unreadable, Visits(cfg, size, pagesize, cfg.scanStart));
      assert todo != [] ==> Wanted(cfg, size, unreadable, todo[0]);
    }
  }

  /** The generator survives a run exactly when there was one, which is unless it only
      samples, and the scheduled pages follow each other from offset 0, that is when no
      page the settings take comes after one they do not; what was fed is then the
      image up to `hash_next`.  It is the whole image exactly when every page was
      scheduled, that is when the settings take all pages. */
  lemma HashOfRun(image: seq<byte>, pagesize: nat, margin: nat, cfg: Config, unreadable: set<nat>)
    requires pagesize > 0
    ensures var todo := Todo(cfg, |image|, pagesize, unreadable);
            var h := HashAll(StartHash(cfg), Pages(image, pagesize, margin, todo));
            && (h.live <==> !Sampling(cfg) && Chained(|image|, pagesize, 0, todo))
            && (h.live <==> TakesPrefix(cfg, |image|, pagesize, unreadable))
            && (h.live ==> h.next <= |image| && h.fed == image[..h.next])
            && (h.live && h.fed == image <==> !Sampling(cfg) && todo == Offsets(|image|, 0, pagesize))
            && (h.live && h.fed == image <==> TakesAll(cfg, |image|, pagesize, unreadable))
  {
    var todo := Todo(cfg, |image|, pagesize, unreadable);
    if Sampling(cfg) {
      DeadStaysDead(StartHash(cfg), Pages(image, pagesize, margin, todo));
    } else {
      assert image[..0] == [];
      TodoBySettings(cfg, |image|, pagesize, unreadable);
      HashOfPages(image, pagesize, margin, 0, todo);
      ChainedToEnd(|image|, pagesize, 0, todo);
      var h := HashAll(StartHash(cfg), Pages(image, pagesize, margin, todo));
      hide HashAll, Pages, Todo, Offsets, Chained, TakesAll, TakesPrefix;
      if h.live {
        assert h.fed == image[..h.next];
        if h.next == |image| { assert image[..h.next] == image; }
      }
    }
  }

  /** A live generator is no proof of a whole image: a run that stops early ends with
      one too, over a proper prefix. */
  lemma EarlyStopHashesPrefix()
    ensures var image: seq<byte> := [7, 8];
            var h := HashAll(FRESH, Pages(image, 1, 0, Todo(Config(0, 0, 1, {}, None), 2, 1, {})));
            h.live && h.fed == [7]
  {
    var image: seq<byte> := [7, 8];
    var cfg := Config(0, 0, 1, {}, None);
    assert Visits(cfg, 2, 1, 1) == [];
    assert Visits(cfg, 2, 1, 0) == [0];
    assert Select(cfg, 2, {}, [0]) == [0] by { assert Select(cfg, 2, {}, [0][1..]) == []; }
    HashOfPages(image, 1, 0, 0, [0]);
    assert image[..0] == [] && [0][1..] == [];
    assert Pages(image, 1, 0, Todo(cfg, 2, 1, {})) == Pages(image, 1, 0, [0]);
    assert Chained(2, 1, 0, [0]) by { assert Chained(2, 1, 1, [0][1..]); }
    assert After(2, 1, 0, [0]) == 1 by { assert After(2, 1, 1, [0][1..]) == 1; }
    assert image[..1] == [7];
  }
}
