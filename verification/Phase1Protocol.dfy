/** Phase 1 as a protocol: the producer, the workers that take buffers off the queue,
    the report that remembers the pages started, and interruptions after which the same
    command is given again.  Any interleaving, any number of restarts. */
module Phase1Protocol {
  import opened Basics

  /** Where one run is: copying the pages of the old report into the new one (in any
      order, the set is a hash table), reading page number `at`, waiting for the
      workers, or done. */
  datatype Phase = Recording(left: set<nat>) | Reading(at: nat) | Joining | Finished

  /** `seen` came from the report of the run before; `report` is this run's.  `run` are
      the pages this run scheduled, `log` those of all runs. */
  datatype State = State(phase: Phase, seen: set<nat>, report: set<nat>, queue: nat, run: seq<nat>, log: seq<nat>)

  datatype Step = Record(page: nat) | Begin | Read | Work | Drain | Join | Interrupt

  const START := State(Recording({}), {}, {}, 0, [], [])

  /** One step, if the state allows it. */
  function Apply(pages: seq<nat>, workers: nat, s: State, step: Step): Option<State> {
    match step
    case Record(p) =>
      if s.phase.Recording? && p in s.phase.left
      then Some(s.(phase := Recording(s.phase.left - {p}), report := s.report + {p})) else None
    case Begin => if s.phase == Recording({}) then Some(s.(phase := Reading(0))) else None
    case Read =>
      if s.phase.Reading? && s.phase.at < |pages| && s.queue <= workers then
        var p, next := pages[s.phase.at], Reading(s.phase.at + 1);
        Some(if p in s.seen then s.(phase := next)
             else s.(phase := next, report := s.report + {p}, queue := s.queue + 1,
                     run := s.run + [p], log := s.log + [p]))
      else None
    case Work => if s.queue > 0 then Some(s.(queue := s.queue - 1)) else None
    case Drain => if s.phase.Reading? && s.phase.at >= |pages| then Some(s.(phase := Joining)) else None
    case Join => if s.phase.Joining? && s.queue == 0 then Some(s.(phase := Finished)) else None
    case Interrupt => Some(State(Recording(s.report), s.report, {}, 0, [], s.log))
  }

  function Run(pages: seq<nat>, workers: nat, s: State, steps: seq<Step>): Option<State>
    decreases |steps|
  {
    if steps == [] then Some(s)
    else
      var next := Apply(pages, workers, s, steps[0]);
      if next.None? then None else Run(pages, workers, next.value, steps[1..])
  }

  /** The step interrupts a run that has not yet copied the whole old report. */
  predicate Tears(s: State, step: Step) { step.Interrupt? && s.phase.Recording? && s.phase.left != {} }

  predicate Torn(pages: seq<nat>, workers: nat, s: State, steps: seq<Step>)
    decreases |steps|
  {
    steps != [] && (
      Tears(s, steps[0]) ||
      var next := Apply(pages, workers, s, steps[0]);
      next.Some? && Torn(pages, workers, next.value, steps[1..]))
  }

  // ---------------------------------------------------------------------------
  // Sequences

  /** The pages of `s` not in `seen`, in order. */
  function Fresh(s: seq<nat>, seen: set<nat>): seq<nat>
    decreases |s|
  {
    if s == [] then [] else
      var last := s[|s| - 1];
      Fresh(s[..|s| - 1], seen) + (if last in seen then [] else [last])
  }

  lemma {:induction false} FreshMembers(s: seq<nat>, seen: set<nat>)
    ensures forall p :: p in Fresh(s, seen) <==> p in s && p !in seen
    decreases |s|
  {
    if s != [] {
      FreshMembers(s[..|s| - 1], seen);
      assert s == s[..|s| - 1] + [s[|s| - 1]];
    }
  }

  lemma {:induction false} FreshIncreasing(s: seq<nat>, seen: set<nat>)
    requires Increasing(s)
    ensures Increasing(Fresh(s, seen))
    decreases |s|
  {
    if s != [] {
      var init := s[..|s| - 1];
      FreshIncreasing(init, seen);
      FreshMembers(init, seen);
      var f := Fresh(init, seen);
      assert forall i :: 0 <= i < |f| ==> f[i] in f && f[i] in init;
    }
  }

  lemma FreshSnoc(s: seq<nat>, at: nat, seen: set<nat>)
    requires at < |s|
    ensures Fresh(s[..at + 1], seen) == Fresh(s[..at], seen) + (if s[at] in seen then [] else [s[at]])
  {
    assert s[..at + 1][..at] == s[..at];
  }

  // ---------------------------------------------------------------------------
  // The invariant

  function Upto(pages: seq<nat>, s: State): nat {
    if s.phase.Recording? then 0
    else if s.phase.Reading? && s.phase.at <= |pages| then s.phase.at else |pages|
  }

  /** What holds whatever was interrupted. */
  ghost predicate Inv(pages: seq<nat>, workers: nat, s: State) {
    && s.queue <= workers + 1
    && (s.phase.Reading? ==> s.phase.at <= |pages|)
    && (s.phase.Finished? ==> s.queue == 0)
    && s.run == Fresh(pages[..Upto(pages, s)], s.seen)
    && (forall p :: p in s.log ==> p in pages)
    && (forall p :: p in s.seen || p in s.run ==> p in s.log)
    && (if s.phase.Recording? then s.phase.left <= s.seen && s.report == s.seen - s.phase.left
        else forall p :: p in s.report <==> p in s.seen || p in s.run)
  }

  /** The reports know every page ever scheduled. */
  predicate Known(s: State) { forall p :: p in s.log ==> p in s.seen || p in s.run }

  lemma InvRead(pages: seq<nat>, workers: nat, s: State)
    requires Inv(pages, workers, s)
    ensures var t := Apply(pages, workers, s, Read); t.Some? ==> Inv(pages, workers, t.value)
  {
    if s.phase.Reading? && s.phase.at < |pages| {
      FreshSnoc(pages, s.phase.at, s.seen);
      assert pages[s.phase.at] in pages;
    }
  }

  lemma InvInterrupt(pages: seq<nat>, workers: nat, s: State)
    requires Inv(pages, workers, s)
    ensures var t := Apply(pages, workers, s, Interrupt); t.Some? ==> Inv(pages, workers, t.value)
  {
    assert pages[..0] == [];
    assert Fresh([], s.report) == [];
    hide Fresh;
  }

  lemma InvStep(pages: seq<nat>, workers: nat, s: State, step: Step)
    requires Inv(pages, workers, s)
    ensures var t := Apply(pages, workers, s, step); t.Some? ==> Inv(pages, workers, t.value)
  {
    assert Fresh(pages[..0], s.seen) == [];
    hide Fresh;
    match step
    case Read => InvRead(pages, workers, s);
    case Interrupt => InvInterrupt(pages, workers, s);
    case _ => assert pages[..|pages|] == pages;
  }

  /** As long as nothing is torn the reports know everything and nothing repeats. */
  lemma KnownStep(pages: seq<nat>, workers: nat, s: State, step: Step)
    requires Increasing(pages) && Inv(pages, workers, s) && Known(s) && NoRepeats(s.log) && !Tears(s, step)
    ensures var t := Apply(pages, workers, s, step); t.Some? ==> Known(t.value) && NoRepeats(t.value.log)
  {
    if step.Read? && s.phase.Reading? && s.phase.at < |pages| {
      FreshMembers(pages[..s.phase.at], s.seen);
      assert pages[s.phase.at] !in pages[..s.phase.at];
    }
  }

  /** A tear makes the next run forget a page that was scheduled. */
  lemma TearForgets(pages: seq<nat>, workers: nat, s: State)
    requires Inv(pages, workers, s) && Tears(s, Interrupt)
    ensures !Known(Apply(pages, workers, s, Interrupt).value)
  {
    var p :| p in s.phase.left;
    assert p in s.seen && p in s.log && p !in s.report;
  }

  /** What is forgotten stays forgotten until it is scheduled again. */
  lemma ForgottenStep(pages: seq<nat>, workers: nat, s: State, step: Step)
    requires Inv(pages, workers, s) && (!Known(s) || !NoRepeats(s.log))
    ensures var t := Apply(pages, workers, s, step); t.Some? ==> !Known(t.value) || !NoRepeats(t.value.log)
  {
    var t := Apply(pages, workers, s, step);
    if t.Some? {
      if !NoRepeats(s.log) {
        var i, j :| 0 <= i < j < |s.log| && s.log[i] == s.log[j];
        assert t.value.log[i] == t.value.log[j];
      } else {
        var p :| p in s.log && p !in s.seen && p !in s.run;
        assert p !in s.report;
        if p in t.value.run {
          var i :| 0 <= i < |s.log| && s.log[i] == p;
          assert t.value.log[i] == t.value.log[|s.log|];
        } else {
          assert p in t.value.log && p !in t.value.seen;
        }
      }
    }
  }

  lemma {:induction false} RunInv(pages: seq<nat>, workers: nat, s: State, steps: seq<Step>)
    requires Inv(pages, workers, s)
    ensures var t := Run(pages, workers, s, steps); t.Some? ==> Inv(pages, workers, t.value)
    decreases |steps|
  {
    hide Inv;
    if steps != [] {
      InvStep(pages, workers, s, steps[0]);
      var next := Apply(pages, workers, s, steps[0]);
      if next.Some? { RunInv(pages, workers, next.value, steps[1..]); }
    }
  }

  lemma {:induction false} RunForgets(pages: seq<nat>, workers: nat, s: State, steps: seq<Step>)
    requires Inv(pages, workers, s) && (!Known(s) || !NoRepeats(s.log))
    ensures var t := Run(pages, workers, s, steps); t.Some? ==> !Known(t.value) || !NoRepeats(t.value.log)
    decreases |steps|
  {
    hide Inv, Known, NoRepeats;
    if steps != [] {
      InvStep(pages, workers, s, steps[0]);
      ForgottenStep(pages, workers, s, steps[0]);
      var next := Apply(pages, workers, s, steps[0]);
      if next.Some? { RunForgets(pages, workers, next.value, steps[1..]); }
    }
  }

  lemma {:induction false} RunKnown(pages: seq<nat>, workers: nat, s: State, steps: seq<Step>)
    requires Increasing(pages) && Inv(pages, workers, s) && Known(s) && NoRepeats(s.log)
    ensures var t := Run(pages, workers, s, steps);
            t.Some? ==> (Known(t.value) && NoRepeats(t.value.log) <==> !Torn(pages, workers, s, steps))
    decreases |steps|
  {
    hide Inv, Known, NoRepeats, Increasing;
    if steps != [] {
      InvStep(pages, workers, s, steps[0]);
      var next := Apply(pages, workers, s, steps[0]);
      if next.Some? {
        if Tears(s, steps[0]) {
          TearForgets(pages, workers, s);
          RunForgets(pages, workers, next.value, steps[1..]);
        } else {
          KnownStep(pages, workers, s, steps[0]);
          RunKnown(pages, workers, next.value, steps[1..]);
        }
      }
    }
  }

  lemma StartInv(pages: seq<nat>, workers: nat)
    ensures Inv(pages, workers, START) && Known(START) && NoRepeats(START.log)
  {
    assert pages[..0] == [];
  }

  // ---------------------------------------------------------------------------
  // The theorems

  /** The buffers that workers finished in the current run, `done` of them before `steps`. */
  function Worked(done: nat, steps: seq<Step>): nat
    decreases |steps|
  {
    if steps == [] then done
    else Worked(if steps[0].Interrupt? then 0 else if steps[0].Work? then done + 1 else done, steps[1..])
  }

  /** No buffer is lost and none is worked twice: what the current run scheduled is what
      workers finished and what waits. */
  lemma {:induction false} QueueBalances(pages: seq<nat>, workers: nat, s: State, done: nat, steps: seq<Step>)
    requires s.queue + done == |s.run|
    ensures var t := Run(pages, workers, s, steps); t.Some? ==> t.value.queue + Worked(done, steps) == |t.value.run|
    decreases |steps|
  {
    if steps != [] {
      var next := Apply(pages, workers, s, steps[0]);
      if next.Some? {
        QueueBalances(pages, workers, next.value, if steps[0].Interrupt? then 0 else if steps[0].Work? then done + 1 else done, steps[1..]);
      }
    }
  }

  /** Whatever the interleaving and the restarts: the producer is never more than one
      buffer ahead of the workers' number, and what the current run scheduled are the
      unseen ones of the pages it went through, in offset order. */
  lemma AlwaysBoundedAndOrdered(pages: seq<nat>, workers: nat, steps: seq<Step>)
    requires Increasing(pages)
    ensures var t := Run(pages, workers, START, steps);
            t.Some? ==>
              && t.value.queue <= workers + 1 && Increasing(t.value.run)
              && (t.value.phase.Finished? ==> t.value.queue == 0)
              && t.value.run == Fresh(pages[..Upto(pages, t.value)], t.value.seen)
  {
    StartInv(pages, workers);
    RunInv(pages, workers, START, steps);
    var t := Run(pages, workers, START, steps);
    if t.Some? { FreshIncreasing(pages[..Upto(pages, t.value)], t.value.seen); }
  }

  /** A finished history scheduled every page.  It scheduled each exactly once if and
      only if no run was interrupted while still copying the report of the one before. */
  lemma ExactlyOnceIffNotTorn(pages: seq<nat>, workers: nat, steps: seq<Step>)
    requires Increasing(pages)
    ensures var t := Run(pages, workers, START, steps);
            t.Some? && t.value.phase.Finished? ==>
              && (forall p :: p in t.value.log <==> p in pages)
              && (NoRepeats(t.value.log) <==> !Torn(pages, workers, START, steps))
  {
    StartInv(pages, workers);
    RunInv(pages, workers, START, steps);
    RunKnown(pages, workers, START, steps);
    var t := Run(pages, workers, START, steps);
    if t.Some? && t.value.phase.Finished? {
      assert pages[..|pages|] == pages;
      FreshMembers(pages, t.value.seen);
    }
  }

  lemma RunCons(pages: seq<nat>, workers: nat, s: State, step: Step, t: State, rest: seq<Step>)
    requires Apply(pages, workers, s, step) == Some(t)
    ensures Run(pages, workers, s, [step] + rest) == Run(pages, workers, t, rest)
  {
    assert ([step] + rest)[1..] == rest;
  }

  /** Three runs over two pages: the first is stopped after both, the second before it
      has copied either into its report, and the third does both again. */
  lemma TornHistoryRepeats()
    ensures var steps := [Begin, Read, Read] + ([Interrupt] + ([Interrupt] + ([Begin, Read, Read] + [Drain, Work, Work, Join])));
            var t := Run([0, 4], 1, START, steps);
            t.Some? && t.value.phase.Finished? && t.value.log == [0, 4, 0, 4]
  {
    var last := [Drain, Work, Work, Join];
    var third := [Begin, Read, Read] + last;
    var s1 := BothRead([], [Interrupt] + ([Interrupt] + third));
    var s2 := State(Recording({0, 4}), {0, 4}, {}, 0, [], s1.log);
    RunCons([0, 4], 1, s1, Interrupt, s2, [Interrupt] + third);
    RunCons([0, 4], 1, s2, Interrupt, State(Recording({}), {}, {}, 0, [], s1.log), third);
    var s3 := BothRead(s1.log, last);
    assert [] + [0, 4] + [0, 4] == [0, 4, 0, 4];
    TailRuns(s3);
  }

  lemma BothRead(log: seq<nat>, rest: seq<Step>) returns (t: State)
    ensures t == State(Reading(2), {}, {0, 4}, 2, [0, 4], log + [0, 4])
    ensures Run([0, 4], 1, State(Recording({}), {}, {}, 0, [], log), [Begin, Read, Read] + rest) == Run([0, 4], 1, t, rest)
  {
    hide Run;
    var pages: seq<nat> := [0, 4];
    var s := State(Reading(0), {}, {}, 0, [], log);
    var a := State(Reading(1), {}, {0}, 1, [0], log + [0]);
    t := State(Reading(2), {}, {0, 4}, 2, [0, 4], log + [0, 4]);
    assert {} + {0} == {0} && {0} + {4} == {0, 4} && log + [0] + [4] == log + [0, 4];
    assert s.run + [0] == [0] && [0] + [4] == [0, 4];
    RunCons(pages, 1, State(Recording({}), {}, {}, 0, [], log), Begin, s, [Read] + ([Read] + rest));
    RunCons(pages, 1, s, Read, a, [Read] + rest);
    RunCons(pages, 1, a, Read, t, rest);
    assert [Begin, Read, Read] + rest == [Begin] + ([Read] + ([Read] + rest));
  }

  lemma TailRuns(s: State)
    requires s.phase == Reading(2) && s.queue == 2
    ensures Run([0, 4], 1, s, [Drain, Work, Work, Join]) == Some(s.(phase := Finished, queue := 0))
  {
    var tail := [Drain, Work, Work, Join];
    assert tail[1..] == [Work, Work, Join] && tail[1..][1..] == [Work, Join] && tail[1..][1..][1..] == [Join];
  }
}
