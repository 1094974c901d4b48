/** Two more facts about the protocol of phase 1: its runs come to an end, and they are
    the runs of the producer loop. */
module Phase1Progress {
  import opened Basics
  import opened Phase1Protocol
  import P1 = Phase1
  import PR = ProcessRaw

  // ---------------------------------------------------------------------------
  // Every undisturbed run finishes

  /** What an undisturbed run still has to do at most. */
  function ToDo(pages: seq<nat>, s: State): nat {
    s.queue +
    match s.phase
    case Recording(left) => |left| + 2 * |pages| + 3
    case Reading(at) => if at <= |pages| then 2 * (|pages| - at) + 2 else 2
    case Joining => 1
    case Finished => 0
  }

  /** Every step other than an interruption brings the end nearer ... */
  lemma StepsComeToAnEnd(pages: seq<nat>, workers: nat, s: State, step: Step)
    requires !step.Interrupt?
    ensures var t := Apply(pages, workers, s, step); t.Some? ==> ToDo(pages, t.value) < ToDo(pages, s)
  {
    if step.Record? && s.phase.Recording? { assert step.page in s.phase.left ==> |s.phase.left - {step.page}| < |s.phase.left|; }
  }

  /** ... and until it is reached there is always one: the back-pressure cannot deadlock. */
  lemma AlwaysAStep(pages: seq<nat>, workers: nat, s: State) returns (step: Step)
    requires Inv(pages, workers, s) && !s.phase.Finished?
    ensures !step.Interrupt? && Apply(pages, workers, s, step).Some?
  {
    match s.phase
    case Recording(left) =>
      if left == {} { step := Begin; } else { var p :| p in left; step := Record(p); }
    case Reading(at) =>
      step := if at == |pages| then Drain else if s.queue > workers then Work else Read;
    case Joining => step := if s.queue > 0 then Work else Join;
  }

  /** From wherever a history is, one more undisturbed run completes it. */
  lemma {:induction false} CanAlwaysFinish(pages: seq<nat>, workers: nat, s: State) returns (steps: seq<Step>)
    requires Inv(pages, workers, s)
    ensures Interrupt !in steps && |steps| <= ToDo(pages, s)
    ensures var t := Run(pages, workers, s, steps); t.Some? && t.value.phase.Finished?
    decreases ToDo(pages, s)
  {
    if s.phase.Finished? {
      steps := [];
    } else {
      var step := AlwaysAStep(pages, workers, s);
      StepsComeToAnEnd(pages, workers, s, step);
      InvStep(pages, workers, s, step);
      var rest := CanAlwaysFinish(pages, workers, Apply(pages, workers, s, step).value);
      steps := [step] + rest;
      assert steps[1..] == rest;
    }
  }

  // ---------------------------------------------------------------------------
  // The protocol's run is the producer's

  lemma {:induction false} FreshCons(p: nat, s: seq<nat>, seen: set<nat>)
    ensures Fresh([p] + s, seen) == (if p in seen then [] else [p]) + Fresh(s, seen)
    decreases |s|
  {
    var all := [p] + s;
    if s == [] {
      assert all[..0] == [];
    } else {
      var init := s[..|s| - 1];
      assert all[..|all| - 1] == [p] + init;
      FreshCons(p, init, seen);
    }
  }

  lemma SelectCons(cfg: P1.Config, size: nat, off: nat, offs: seq<nat>)
    requires cfg.pageStart == 0 && cfg.scanStart <= off < size
    ensures P1.Select(cfg, size, {}, [off] + offs) == (if off in cfg.seen then [] else [off]) + P1.Select(cfg, size, {}, offs)
    ensures P1.Select(cfg, size, {}, []) == Fresh([], cfg.seen)
  {
    assert ([off] + offs)[1..] == offs;
  }

  lemma {:induction false} SelectIsFresh(cfg: P1.Config, size: nat, offs: seq<nat>)
    requires cfg.pageStart == 0 && forall i :: 0 <= i < |offs| ==> cfg.scanStart <= offs[i] < size
    ensures P1.Select(cfg, size, {}, offs) == Fresh(offs, cfg.seen)
    decreases |offs|
  {
    if offs != [] {
      hide Fresh, P1.Select;
      var rest := offs[1..];
      assert forall i :: 0 <= i < |rest| ==> rest[i] == offs[i + 1];
      SelectIsFresh(cfg, size, rest);
      FreshCons(offs[0], rest, cfg.seen);
      SelectCons(cfg, size, offs[0], rest);
      assert offs == [offs[0]] + rest;
    }
  }

  lemma {:induction false} OffsetsIncrease(size: nat, off: nat, pagesize: nat)
    requires pagesize > 0 && off <= size
    ensures Increasing(PR.Offsets(size, off, pagesize))
    ensures forall i :: 0 <= i < |PR.Offsets(size, off, pagesize)| ==> off <= PR.Offsets(size, off, pagesize)[i] < size
    decreases size - off
  {
    if off < size { OffsetsIncrease(size, PR.NextOffset(size, off, pagesize), pagesize); }
  }

  /** With the pages of an image, a run that got through its loop scheduled just what
      the producer's loop schedules with those pages seen. */
  lemma RunIsTheProducers(size: nat, pagesize: nat, workers: nat, steps: seq<Step>)
    requires pagesize > 0
    ensures Increasing(PR.Offsets(size, 0, pagesize))
    ensures var t := Run(PR.Offsets(size, 0, pagesize), workers, START, steps);
            t.Some? && (t.value.phase.Joining? || t.value.phase.Finished?) ==>
              t.value.run == P1.Todo(P1.Config(0, 0, 0, t.value.seen, None), size, pagesize, {})
  {
    var pages := PR.Offsets(size, 0, pagesize);
    OffsetsIncrease(size, 0, pagesize);
    AlwaysBoundedAndOrdered(pages, workers, steps);
    var t := Run(pages, workers, START, steps);
    if t.Some? && (t.value.phase.Joining? || t.value.phase.Finished?) {
      var cfg := P1.Config(0, 0, 0, t.value.seen, None);
      assert pages[..|pages|] == pages;
      P1.VisitsAreOffsets(cfg, size, pagesize, 0);
      SelectIsFresh(cfg, size, pages);
    }
  }
}
