/** What a run covers that only samples: the pages of the blocks that were drawn. */
module Phase1Sampling {
  import opened Basics
  import opened ProcessRaw
  import opened Phase1

  /** The block that `seek_block` goes to. */
  function SeekNumber(size: nat, pagesize: nat, block: nat): nat
    requires pagesize > 0
  {
    if block * pagesize > size then size / pagesize else block
  }

  lemma DivLe(k: nat, d: nat, n: nat)
    requires d > 0 && k * d <= n
    ensures k <= n / d
  {
    assert n == n / d * d + n % d;
    if n / d < k { MulLe(n / d + 1, k, d); }
  }

  lemma MulLess(a: nat, b: nat, d: nat)
    requires d > 0 && a * d < b * d
    ensures a < b
  {
    if b <= a { MulLe(b, a, d); }
  }

  lemma SeekMonotone(size: nat, pagesize: nat, a: nat, b: nat)
    requires pagesize > 0 && a <= b
    ensures SeekNumber(size, pagesize, a) <= SeekNumber(size, pagesize, b)
  {
    MulLe(a, b, pagesize);
    if a * pagesize <= size { DivLe(a, pagesize, size); }
  }

  /** A later block is at least a page further on, if there is one. */
  lemma SeekFurther(size: nat, pagesize: nat, a: nat, b: nat)
    requires pagesize > 0 && a < b && (SeekNumber(size, pagesize, a) + 1) * pagesize < size
    ensures SeekNumber(size, pagesize, a) < SeekNumber(size, pagesize, b)
  {
    var k := SeekNumber(size, pagesize, a);
    DivLe(k + 1, pagesize, size);
    if b * pagesize <= size { MulLe(a + 1, b, pagesize); }
  }

  /** A block beyond the end: the last page, if that is a short one, and otherwise the
      end of the image, where there is nothing to schedule. */
  lemma BeyondTheEnd(cfg: Config, size: nat, pagesize: nat, unreadable: set<nat>, block: nat)
    requires pagesize > 0 && block * pagesize > size
    ensures var o := SeekOffset(size, pagesize, block);
            if size % pagesize == 0 then o == size && !Wanted(cfg, size, unreadable, o) else o < size < o + pagesize
  {
    assert size == size / pagesize * pagesize + size % pagesize;
  }

  lemma SoughtIs(size: nat, pagesize: nat, block: nat)
    requires pagesize > 0
    ensures var k := SeekNumber(size, pagesize, block);
            && SeekOffset(size, pagesize, block) == k * pagesize
            && k * pagesize + pagesize == (k + 1) * pagesize
  {
  }

  /** The visits of a sampling run move forward, from the first block on. */
  lemma {:induction false} VisitsIncrease(cfg: Config, size: nat, pagesize: nat, off: nat, blocks: seq<nat>)
    requires pagesize > 0 && Increasing(blocks)
    ensures var vis := SampleVisits(cfg, size, pagesize, off, blocks);
            Increasing(vis) && (vis != [] ==> blocks != [] && vis[0] == SeekOffset(size, pagesize, blocks[0]))
    decreases |blocks|
  {
    hide SeekOffset, SeekNumber;
    if off != size && blocks != [] {
      var o, rest := SeekOffset(size, pagesize, blocks[0]), blocks[1..];
      var next := NextOffset(size, o, pagesize);
      VisitsIncrease(cfg, size, pagesize, next, rest);
      SoughtIs(size, pagesize, blocks[0]);
      if next != size && rest != [] {
        SoughtIs(size, pagesize, rest[0]);
        SeekFurther(size, pagesize, blocks[0], rest[0]);
        MulLe(SeekNumber(size, pagesize, blocks[0]) + 1, SeekNumber(size, pagesize, rest[0]), pagesize);
      }
    }
  }

  /** They are the offsets of blocks that were drawn, and no such offset inside the
      image and the scan range is left out. */
  lemma {:induction false} VisitsAreDrawn(cfg: Config, size: nat, pagesize: nat, off: nat, blocks: seq<nat>, o: nat)
    requires pagesize > 0 && Increasing(blocks) && off != size && o < size && !TooFar(cfg, o)
    ensures o in SampleVisits(cfg, size, pagesize, off, blocks) <==> exists b :: b in blocks && SeekOffset(size, pagesize, b) == o
    decreases |blocks|
  {
    hide SeekOffset, SeekNumber;
    if blocks != [] {
      var b0, rest := blocks[0], blocks[1..];
      var o0 := SeekOffset(size, pagesize, b0);
      assert blocks == [b0] + rest;
      NoneBefore(size, pagesize, b0, rest, o);
      if !TooFar(cfg, o0) && o != o0 {
        var next := NextOffset(size, o0, pagesize);
        if next == size {
          LastPage(size, pagesize, b0, rest, o);
        } else {
          VisitsAreDrawn(cfg, size, pagesize, next, rest, o);
        }
      }
    }
  }

  lemma NoneBefore(size: nat, pagesize: nat, b0: nat, rest: seq<nat>, o: nat)
    requires pagesize > 0 && Increasing([b0] + rest)
    ensures forall b :: b in rest ==> SeekOffset(size, pagesize, b0) <= SeekOffset(size, pagesize, b)
  {
    hide SeekOffset, SeekNumber;
    forall b | b in rest
      ensures SeekOffset(size, pagesize, b0) <= SeekOffset(size, pagesize, b)
    {
      LaterIsLarger(b0, rest, b);
      SoughtIs(size, pagesize, b0);
      SoughtIs(size, pagesize, b);
      SeekMonotone(size, pagesize, b0, b);
      MulLe(SeekNumber(size, pagesize, b0), SeekNumber(size, pagesize, b), pagesize);
    }
  }

  lemma LaterIsLarger(b0: nat, rest: seq<nat>, b: nat)
    requires Increasing([b0] + rest) && b in rest
    ensures b0 < b && Increasing(rest)
  {
    var all := [b0] + rest;
    assert forall i :: 0 <= i < |rest| ==> rest[i] == all[i + 1];
    var i :| 0 <= i < |rest| && rest[i] == b;
    assert all[0] < all[i + 1];
  }

  /** Behind the page that reaches the end of the image there is no other. */
  lemma LastPage(size: nat, pagesize: nat, b0: nat, rest: seq<nat>, o: nat)
    requires pagesize > 0 && Increasing([b0] + rest) && SeekOffset(size, pagesize, b0) + pagesize >= size
    requires o < size && o != SeekOffset(size, pagesize, b0)
    ensures forall b :: b in rest ==> SeekOffset(size, pagesize, b) != o
  {
    hide SeekOffset, SeekNumber;
    forall b | b in rest
      ensures SeekOffset(size, pagesize, b) != o
    {
      LaterIsLarger(b0, rest, b);
      SoughtIs(size, pagesize, b0);
      SoughtIs(size, pagesize, b);
      SeekMonotone(size, pagesize, b0, b);
      if SeekOffset(size, pagesize, b) == o {
        MulLess(SeekNumber(size, pagesize, b), SeekNumber(size, pagesize, b0) + 1, pagesize);
      }
    }
  }

  lemma {:induction false} SelectIncreases(cfg: Config, size: nat, unreadable: set<nat>, offs: seq<nat>)
    requires Increasing(offs)
    ensures Increasing(Select(cfg, size, unreadable, offs))
    ensures forall o :: o in Select(cfg, size, unreadable, offs) <==> o in offs && Wanted(cfg, size, unreadable, o)
    decreases |offs|
  {
    hide Wanted;
    if offs != [] {
      var rest := offs[1..];
      assert offs == [offs[0]] + rest;
      SelectIncreases(cfg, size, unreadable, rest);
      var sel := Select(cfg, size, unreadable, rest);
      forall i | 0 <= i < |sel| ensures offs[0] < sel[i] { LaterIsLarger(offs[0], rest, sel[i]); }
    }
  }

  lemma {:induction false} VisitsInRange(cfg: Config, size: nat, pagesize: nat, off: nat, blocks: seq<nat>)
    requires pagesize > 0
    ensures forall o :: o in SampleVisits(cfg, size, pagesize, off, blocks) ==> !TooFar(cfg, o)
    decreases |blocks|
  {
    hide SeekOffset;
    if off != size && blocks != [] {
      var o := SeekOffset(size, pagesize, blocks[0]);
      VisitsInRange(cfg, size, pagesize, NextOffset(size, o, pagesize), blocks[1..]);
    }
  }

  /** A sampling run schedules exactly the wanted pages of the blocks that were drawn,
      each once and in order, a drawn block being the one that `seek_block` goes to. */
  lemma SampledPages(cfg: Config, size: nat, pagesize: nat, unreadable: set<nat>)
    requires pagesize > 0 && Sampling(cfg) && Increasing(cfg.sample.value)
    ensures var todo := Todo(cfg, size, pagesize, unreadable);
            && Increasing(todo)
            && forall o :: o in todo <==>
                 Wanted(cfg, size, unreadable, o) && !TooFar(cfg, o)
                 && exists b :: b in cfg.sample.value && SeekOffset(size, pagesize, b) == o
  {
    hide SampleVisits, SeekOffset, Select;
    var blocks := cfg.sample.value;
    var vis := SampleVisits(cfg, size, pagesize, cfg.scanStart, blocks);
    assert blocks[0..] == blocks;
    VisitsIncrease(cfg, size, pagesize, cfg.scanStart, blocks);
    VisitsInRange(cfg, size, pagesize, cfg.scanStart, blocks);
    SelectIncreases(cfg, size, unreadable, vis);
    forall o | Wanted(cfg, size, unreadable, o) && !TooFar(cfg, o)
      ensures o in vis <==> exists b :: b in blocks && SeekOffset(size, pagesize, b) == o
    {
      VisitsAreDrawn(cfg, size, pagesize, cfg.scanStart, blocks, o);
    }
  }
}
