/** The decoder with too little room, or with more input behind the encoding: what it
    gives is cut at the room, and it begins with the expansion. */
module XpressCut {
  import opened Basics
  import opened Xpress
  import opened XpressRoundTrip

  /** Is the byte at `k` of the expansion a literal? */
  predicate LiteralAt(ts: seq<Token>, k: nat)
    decreases |ts|
  {
    ts != [] && if k < Size(ts[0]) then ts[0].Lit? else LiteralAt(ts[1..], k - Size(ts[0]))
  }

  /** How much a decoder keeps that has room for `room` bytes, which is no more than it
      needs: a literal that fills the room is given up again. */
  function Kept(ts: seq<Token>, room: nat): nat { if room > 0 && LiteralAt(ts, room - 1) then room - 1 else room }

  lemma {:induction false} ExpandExtends(out: seq<byte>, ts: seq<Token>)
    requires ValidTokens(ts, |out|)
    ensures out <= Expand(out, ts)
    decreases |ts|
  {
    if ts != [] {
      if ts[0].Lit? {
        ExpandExtends(out + [ts[0].b], ts[1..]);
      } else {
        ExpandExtends(Repeat(out, ts[0].dist, ts[0].len), ts[1..]);
      }
    }
  }

  lemma PrefixTrans(a: seq<byte>, b: seq<byte>, c: seq<byte>)
    requires a <= b && b <= c
    ensures a <= c
  {
  }

  lemma {:induction false} CopyIsCut(out: seq<byte>, dist: nat, len: nat, cap: nat)
    requires 1 <= dist < |out| <= cap <= |out| + len
    ensures Copy(out, dist, len, cap) == Repeat(out, dist, len)[..cap]
    decreases len
  {
    if len > 0 && |out| < cap {
      CopyIsCut(out + [out[|out| - dist]], dist, len - 1, cap);
    } else {
      assert Repeat(out, dist, len)[..|out|] == out;
    }
  }

  /** One turn never takes anything back. */
  lemma TurnGrows(input: seq<byte>, cap: nat, st: St)
    requires Fits(input, st) && st.inp < |input| && |st.out| < cap
    ensures var t := Turn1(input, cap, st); st.out <= (if t.Stop? then t.out else t.st.out)
  {
    hide Shr, Word16, Word32, ReadLength, Copy;
  }

  lemma {:induction false} LoopGrows(input: seq<byte>, cap: nat, st: St)
    requires Fits(input, st) || st.inp >= |input|
    ensures st.out <= Loop(input, cap, st)
    decreases |input| - st.inp
  {
    hide Turn1, Loop;
    LoopTurn(input, cap, st);
    if |st.out| < cap && st.inp < |input| {
      TurnGrows(input, cap, st);
      var t := Turn1(input, cap, st);
      if t.Go? {
        LoopGrows(input, cap, t.st);
        PrefixTrans(st.out, t.st.out, Loop(input, cap, t.st));
      }
    }
  }

  /** One token with more input to come: what the loop gives is decided by the rest. */
  lemma LoopToken(input: seq<byte>, cap: nat, st: St, base: seq<Token>, ts: seq<Token>, left: nat, half: bool, trail: seq<byte>)
    returns (st': St)
    requires Sync(input, st, base, ts, left, half, trail) && trail != [] && ts != [] && left > 0 && |st.out| < cap
    ensures st'.out == if ts[0].Lit? then st.out + [ts[0].b] else Copy(st.out, ts[0].dist, ts[0].len, cap)
    ensures Sync(input, st', base, ts[1..], left - 1, HalfAfter(ts[0], half), trail)
    ensures (Fits(input, st) || st.inp >= |input|) && (Fits(input, st') || st'.inp >= |input|)
    ensures Loop(input, cap, st) == if ts[0].Lit? && |st'.out| >= cap then st.out else Loop(input, cap, st')
  {
    hide Turn1, Loop, Copy, Sync, Rest, HalfAfter;
    SyncTokens(input, st, base, ts, left, half, trail);
    RestEmpty(ts, left, half, trail);
    st' := SymbolSync(input, cap, st, base, ts, left, half, trail);
    SyncFits(input, st', base, ts[1..], left - 1, HalfAfter(ts[0], half), trail);
    LoopTurn(input, cap, st);
  }

  lemma LoopFull(input: seq<byte>, cap: nat, st: St)
    requires (Fits(input, st) || st.inp >= |input|) && |st.out| >= cap
    ensures Loop(input, cap, st) == st.out
  {
    LoopTurn(input, cap, st);
  }

  /** Too little room: the expansion, cut. */
  lemma {:induction false} LoopCuts(input: seq<byte>, cap: nat, st: St, base: seq<Token>, ts: seq<Token>, left: nat, half: bool, trail: seq<byte>)
    requires Sync(input, st, base, ts, left, half, trail) && trail != []
    requires ValidTokens(ts, |st.out|) && !TouchesFirst(ts, |st.out|) && |st.out| <= cap <= |st.out| + TotalSize(ts)
    ensures Fits(input, st) || st.inp >= |input|
    ensures Loop(input, cap, st) == Expand(st.out, ts)[..|st.out| + Kept(ts, cap - |st.out|)]
    decreases |ts|, left == 0
  {
    hide Loop, Sync, Copy, Repeat, HalfAfter, Turn1;
    SyncFits(input, st, base, ts, left, half, trail);
    ExpandExtends(st.out, ts);
    if |st.out| == cap {
      LoopFull(input, cap, st);
    } else if left == 0 {
      var st' := LoopFetch(input, cap, st, base, ts, half, trail);
      LoopCuts(input, cap, st', ts, ts, 32, half, trail);
    } else {
      var st' := LoopToken(input, cap, st, base, ts, left, half, trail);
      var out, t := st.out, ts[0];
      if t.Lit? {
        ExpandExtends(out + [t.b], ts[1..]);
        if |out| + 1 < cap { LoopCuts(input, cap, st', base, ts[1..], left - 1, HalfAfter(t, half), trail); }
      } else if |out| + t.len >= cap {
        CopyIsCut(out, t.dist, t.len, cap);
        LoopFull(input, cap, st');
        ExpandExtends(Repeat(out, t.dist, t.len), ts[1..]);
        PrefixCut(Repeat(out, t.dist, t.len), Expand(out, ts), cap);
      } else {
        CopyIsRepeat(out, t.dist, t.len, cap);
        LoopCuts(input, cap, st', base, ts[1..], left - 1, HalfAfter(t, half), trail);
      }
    }
  }

  lemma PrefixCut(a: seq<byte>, b: seq<byte>, n: nat)
    requires a <= b && n <= |a|
    ensures a[..n] == b[..n]
  {
  }

  /** Room enough: the expansion comes first, whatever the rest is taken for. */
  lemma {:induction false} LoopBegins(input: seq<byte>, cap: nat, st: St, base: seq<Token>, ts: seq<Token>, left: nat, half: bool, trail: seq<byte>)
    requires Sync(input, st, base, ts, left, half, trail) && trail != []
    requires ValidTokens(ts, |st.out|) && !TouchesFirst(ts, |st.out|) && cap > |st.out| + TotalSize(ts)
    ensures Fits(input, st) || st.inp >= |input|
    ensures Expand(st.out, ts) <= Loop(input, cap, st)
    decreases |ts|, left == 0
  {
    hide Loop, Sync, Copy, Repeat, HalfAfter, Turn1;
    SyncFits(input, st, base, ts, left, half, trail);
    if ts == [] {
      LoopGrows(input, cap, st);
    } else if left == 0 {
      var st' := LoopFetch(input, cap, st, base, ts, half, trail);
      LoopBegins(input, cap, st', ts, ts, 32, half, trail);
    } else {
      var st' := LoopToken(input, cap, st, base, ts, left, half, trail);
      if ts[0].Match? { CopyIsRepeat(st.out, ts[0].dist, ts[0].len, cap); }
      LoopBegins(input, cap, st', base, ts[1..], left - 1, HalfAfter(ts[0], half), trail);
    }
  }

  /** An encoding with any bytes behind it, and any room: if the room is more than the
      expansion, the result begins with the expansion; if not, it is the expansion up
      to the room, less the last byte if that is a literal. */
  lemma DecodeCuts(ts: seq<Token>, trail: seq<byte>, cap: nat)
    requires ValidTokens(ts, 0) && !TouchesFirst(ts, 0) && trail != []
    ensures Encodable(ts)
    ensures cap > TotalSize(ts) ==> Expand([], ts) <= Decode(Encode(ts) + trail, cap)
    ensures cap <= TotalSize(ts) ==> Decode(Encode(ts) + trail, cap) == Expand([], ts)[..Kept(ts, cap)]
  {
    ValidIsEncodable(ts, 0);
    var input := Encode(ts) + trail;
    assert input[0..] == input;
    hide Loop, Kept;
    if cap > TotalSize(ts) {
      LoopBegins(input, cap, INIT, [], ts, 0, false, trail);
    } else {
      LoopCuts(input, cap, INIT, [], ts, 0, false, trail);
    }
  }
}
