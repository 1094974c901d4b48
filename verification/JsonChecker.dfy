/** The checker object and the page scan of scan_json.cpp, tied to the automaton
    of JsonMachine and through it to the grammar. */
module JsonChecker {
  import opened Basics
  import opened JsonGrammar
  import opened JsonMachine
  import opened JsonSoundness
  import opened JsonCompleteness

  class Checker {
    var state: State
    var maxtop: int
    var top: int
    var stack: array<Mode>
    var reject: bool
    var commaCount: nat

    /** The commas counted so far, before the counter wraps. */
    ghost var commas: nat

    /** The last configuration before a rejection, if there was one. */
    ghost var last: Config

    ghost predicate Valid()
      reads this, stack
    {
      && stack.Length == STACK_SIZE
      && commaCount == commas % UINT32
      && (!reject ==> 0 <= top < STACK_SIZE && Inv(Config()) && last == Config())
      && (reject ==> -1 <= top <= STACK_SIZE && (top == STACK_SIZE ==> state != OK))
      && (reject && 0 <= top < STACK_SIZE ==> (stack[top] == ModeDone <==> top == 0))
      && (Done(last) <==> state == OK && top == 0)
    }

    /** The automaton's view of the object. */
    ghost function Config(): Config
      reads this, stack
    {
      if reject || !(0 <= top < stack.Length) then Rejected else Live(state, stack[..top + 1], commas)
    }

    constructor ()
      ensures Valid() && fresh(stack) && Config() == START
    {
      state, maxtop, top := GO, 0, -1;
      stack := new Mode[STACK_SIZE](_ => ModeArray);
      reject, commaCount, commas, last := false, 0, 0, START;
      new;
      var pushed := Push(ModeDone);
      assert stack[..1] == [ModeDone];
    }

    /** Push a mode, or report overflow; `top` moves either way. */
    method Push(mode: Mode) returns (ok: bool)
      requires stack.Length == STACK_SIZE && -1 <= top < STACK_SIZE
      modifies this`top, this`maxtop, stack
      ensures top == old(top) + 1 && ok == (top < STACK_SIZE)
      ensures ok ==> stack[..top + 1] == old(stack[..top + 1]) + [mode]
      ensures !ok ==> stack[..] == old(stack[..])
    {
      top := top + 1;
      if top >= STACK_SIZE {
        return false;
      }
      stack[top] := mode;
      if top > maxtop { maxtop := top; }
      return true;
    }

    /** Pop the mode on top if it is the expected one. */
    method Pop(mode: Mode) returns (ok: bool)
      requires -1 <= top < stack.Length
      modifies this`top
      ensures ok == (old(top) >= 0 && stack[old(top)] == mode)
      ensures top == if ok then old(top) - 1 else old(top)
    {
      if top < 0 || stack[top] != mode {
        return false;
      }
      top := top - 1;
      return true;
    }

    /** Pop one mode and push another, as `,` and `:` do. */
    method Flip(from: Mode, to: Mode) returns (ok: bool)
      requires stack.Length == STACK_SIZE && 0 <= top < STACK_SIZE
      modifies this`top, this`maxtop, stack
      ensures ok == (old(stack[top]) == from)
      ensures ok ==> top == old(top) && stack[..top + 1] == old(stack[..top]) + [to]
      ensures !ok ==> top == old(top) && stack[..] == old(stack[..])
    {
      ok := Pop(from);
      if ok { ok := Push(to); }
    }

    /** One character: 0 if all is well so far, -1 from the first bad character on.
        Either way the object does what one step of the automaton does. */
    method CheckChar(nextChar: int) returns (r: int)
      requires Valid()
      modifies this, stack
      ensures Valid() && stack == old(stack)
      ensures Config() == Step(old(Config()), nextChar)
      ensures r == if Config().Rejected? then -1 else 0
      ensures last == if Config().Rejected? then old(last) else Config()
    {
      hide Table, ClassOf, Inv, Act;
      if reject { return -1; }
      EntryInContext(Config(), nextChar);
      if nextChar < 0 || ClassOf(nextChar).None? {
        reject := true;
        return -1;
      }
      ghost var was := Config();
      var entry := Table(state, ClassOf(nextChar).value);
      LastAndPopped(was.modes, stack[..], top);
      var ok := Perform(entry);
      StepKeepsInvIfLive(was, nextChar);
      if !ok {
        reject := true;
        return -1;
      }
      last := Config();
      return 0;
    }

    /** Between two characters, as far as one table entry needs it. */
    ghost predicate Ready()
      reads this, stack
    {
      && stack.Length == STACK_SIZE && 0 <= top < STACK_SIZE && commaCount == commas % UINT32 && !reject
      && (stack[top] == ModeDone <==> top == 0)
    }

    /** `pop`, and the next state if that succeeds. */
    method PopThen(mode: Mode, to: State) returns (ok: bool)
      requires Ready() && mode != ModeDone
      modifies this`top, this`state
      ensures ok ==> 0 <= top < STACK_SIZE && Config() == PopTo(old(Config()), mode, to)
      ensures !ok ==> PopTo(old(Config()), mode, to).Rejected? && state == old(state) && top == old(top)
    {
      LastAndPopped(stack[..top + 1], stack[..], top);
      ok := Pop(mode);
      if ok { state := to; }
    }

    /** `push`, and the next state if that succeeds. */
    method PushThen(mode: Mode, to: State) returns (ok: bool)
      requires Ready() && state != OK
      modifies this`top, this`maxtop, this`state, stack
      ensures ok ==> 0 <= top < STACK_SIZE && Config() == PushTo(old(Config()), mode, to)
      ensures !ok ==> PushTo(old(Config()), mode, to).Rejected? && state == old(state) != OK && stack[..] == old(stack[..])
      ensures !ok ==> top == STACK_SIZE && old(top) > 0
    {
      ok := Push(mode);
      if ok { state := to; }
    }

    /** A comma counts even where it is rejected. */
    method PerformComma() returns (ok: bool)
      requires Ready()
      modifies this, stack
      ensures stack == old(stack) && commaCount == commas % UINT32 && !reject && last == old(last) && top == old(top)
      ensures ok ==> Config() == Act(old(Config()), Comma)
      ensures !ok ==> Act(old(Config()), Comma).Rejected? && state == old(state) && stack[..] == old(stack[..])
    {
      LastAndPopped(stack[..top + 1], stack[..], top);
      commaCount, commas := (commaCount + 1) % UINT32, commas + 1;
      if stack[top] == ModeObject {
        ok := Flip(ModeObject, ModeKey);
        if ok { state := KE; }
      } else {
        ok := stack[top] == ModeArray;
        if ok { state := VA; }
      }
    }

    /** The effect of one table entry; false stands for the paths that reject. */
    method Perform(entry: Entry) returns (ok: bool)
      requires Ready() && (entry.OpenObj? || entry.OpenArr? ==> state != OK)
      modifies this, stack
      ensures stack == old(stack) && commaCount == commas % UINT32 && !reject && last == old(last)
      ensures ok ==> 0 <= top < STACK_SIZE && Config() == Act(old(Config()), entry)
      ensures !ok ==> Act(old(Config()), entry).Rejected? && state == old(state) && stack[..] == old(stack[..])
      ensures !ok ==> top == old(top) || (top == STACK_SIZE && state != OK && old(top) > 0)
    {
      hide PopTo, PushTo;
      LastAndPopped(stack[..top + 1], stack[..], top);
      match entry {
        case Goto(st) => state := st; ok := true;
        case CloseEmptyObj => ok := PopThen(ModeKey, OK);
        case CloseObj => ok := PopThen(ModeObject, OK);
        case CloseArr => ok := PopThen(ModeArray, OK);
        case OpenObj => ok := PushThen(ModeKey, OB);
        case OpenArr => ok := PushThen(ModeArray, AR);
        case Quote =>
          ok := stack[top] != ModeDone;
          if ok { state := if stack[top] == ModeKey then CO else OK; }
        case Comma => ok := PerformComma();
        case Colon => ok := Flip(ModeKey, ModeObject); if ok { state := VA; }
        case Error => ok := false;
      }
    }

    /** Is a whole text behind us?  After a rejection: was one, just before it? */
    method CheckIfDone() returns (done: bool)
      requires Valid()
      ensures done == Done(last)
    {
      done := state == OK && top == 0;
    }

    /** The final verdict, `done` in the source: the same question, but the object
        rejects everything afterwards and says no if asked again. */
    method Finish() returns (accepted: bool)
      requires Valid()
      modifies this
      ensures Valid() && stack == old(stack)
      ensures accepted == old(Done(last)) && Config().Rejected? && !Done(last)
    {
      accepted := state == OK;
      if accepted { accepted := Pop(ModeDone); }
      reject := true;
      last := Rejected;
    }
  }

  /** What `Inv` says about the entry for the next character. */
  lemma EntryInContext(cfg: Config, c: int)
    requires Inv(cfg)
    ensures c < 0 ==> ClassOf(c).None?
    ensures ClassOf(c).Some? ==> var e := Table(cfg.state, ClassOf(c).value); e.OpenObj? || e.OpenArr? ==> cfg.state != OK
    ensures Last(cfg.modes) == ModeDone <==> |cfg.modes| == 1
  {
    if ClassOf(c).Some? { TableFits(cfg.state, ClassOf(c).value, Last(cfg.modes)); }
    hide Table, StateMatchesTop;
  }

  lemma LastAndPopped(modes: seq<Mode>, stack: seq<Mode>, top: nat)
    requires top < |stack| && modes == stack[..top + 1]
    ensures Last(modes) == stack[top] && Popped(modes) == stack[..top]
  {
  }

  lemma StepKeepsInvIfLive(cfg: Config, c: int)
    requires Inv(cfg)
    ensures Step(cfg, c).Live? ==> Inv(Step(cfg, c))
  {
    if Step(cfg, c).Live? { StepKeepsInv(cfg, c); }
  }

  // ---------------------------------------------------------------------------
  // The scan of one page

  /** The characters that may come second: ten digits, `.`, `-`, `{`, `[`, white space, `"`. */
  predicate SecondChar(c: int) {
    IsDigit(c) || c == 0x2E || c == 0x2D || c == 0x7B || c == 0x5B || IsWs(c) || c == 0x22
  }

  /** A reported feature: where it starts and how long it is. */
  datatype Found = Found(pos: nat, len: nat)

  ghost predicate GoodFind(buf: seq<byte>, f: Found) {
    && f.len > 0 && f.pos + f.len <= |buf|
    && exists k: nat :: k % UINT32 >= 2 && IsJson(buf[f.pos..f.pos + f.len], STACK_SIZE - 1, k)
  }

  predicate Closer(c: int) { c == 0x5D || c == 0x7D }

  /** Where the scan starts a checker, unless it skips the place. */
  predicate Begins(buf: seq<byte>, pos: nat) {
    pos + 1 < |buf| && (buf[pos] == 0x7B || buf[pos] == 0x5B) && SecondChar(buf[pos + 1])
  }

  /** Does a checker started at `pos` stop at the character at `i`: a bad one, or a
      bracket that completes a document? */
  ghost predicate StopsAt(buf: seq<byte>, pos: nat, i: nat)
    requires pos <= i < |buf|
  {
    var cfg := After(buf, pos, i + 1);
    cfg.Rejected? || (Closer(buf[i]) && Done(cfg))
  }

  /** Where a checker started at `pos` stops, from `i` on; the end of the buffer if nowhere. */
  ghost function StopFrom(buf: seq<byte>, pos: nat, i: nat): (end: nat)
    requires pos <= i <= |buf|
    ensures i <= end <= |buf|
    decreases |buf| - i
  {
    if i == |buf| || StopsAt(buf, pos, i) then i else StopFrom(buf, pos, i + 1)
  }

  /** The place the scan goes to from `pos`: behind what a checker got through, unless
      none was started or it was still undecided at the end of the buffer. */
  ghost function NextPlace(buf: seq<byte>, pos: nat): (next: nat)
    requires pos <= |buf|
    ensures next > pos
  {
    if Begins(buf, pos) && StopFrom(buf, pos, pos) < |buf| then StopFrom(buf, pos, pos) + 1 else pos + 1
  }

  /** Does the scan that is at `pos` come to `place`? */
  ghost predicate Visits(buf: seq<byte>, pos: nat, place: nat)
    decreases if pos <= place then place - pos else 0
  {
    pos == place || (pos < place <= |buf| && Visits(buf, NextPlace(buf, pos), place))
  }

  /** A document with at least two commas, from bracket to bracket, that starts in the
      page at a place the scan comes to, with a second character it looks for. */
  ghost predicate Due(buf: seq<byte>, pagesize: nat, f: Found) {
    && GoodFind(buf, f) && Closer(buf[f.pos + f.len - 1]) && f.pos + 1 < pagesize
    && Begins(buf, f.pos) && Visits(buf, 0, f.pos)
  }

  /** An array whose first element is a literal, directly behind the bracket. */
  predicate StartsWithLiteral(v: Value) { v.Arr? && v.elems.pre == [] && v.elems.v.Lit? }

  /** The array or object `v` is written at `f`. */
  predicate WrittenAt(buf: seq<byte>, f: Found, v: Value) {
    && f.pos + f.len <= |buf| && buf[f.pos..f.pos + f.len] == ValueText(v)
    && ValidValue(v) && !v.Str? && !v.Num? && !v.Lit?
  }

  /** What the scan is after, by the tree: two commas or more as 32 bits count them, at
      most 255 deep, no literal directly behind the first bracket, at a place the scan
      comes to. */
  ghost predicate IsWanted(buf: seq<byte>, pagesize: nat, f: Found) {
    && f.pos + 1 < pagesize && Visits(buf, 0, f.pos)
    && exists v: Value :: WrittenAt(buf, f, v) && Depth(v) <= 255 && Commas(v) % UINT32 >= 2 && !StartsWithLiteral(v)
  }

  /** Reports exactly the JSON documents that are due, with at least two separating
      commas as the 32-bit counter sees them, in order and without overlap. */
  method ScanPage(buf: seq<byte>, pagesize: nat) returns (found: seq<Found>)
    requires pagesize <= |buf|
    ensures forall f :: f in found <==> Due(buf, pagesize, f)
    ensures forall f :: f in found <==> IsWanted(buf, pagesize, f)
    ensures forall i, j :: 0 <= i < j < |found| ==> found[i].pos + found[i].len <= found[j].pos
  {
    hide GoodFind, StopFrom, Begins, Due, Visits;
    found := [];
    var pos := 0;
    while pos + 1 < pagesize
      invariant pos <= |buf| && SameAhead(buf, pos)
      invariant forall f :: f in found <==> Due(buf, pagesize, f) && f.pos < pos
      invariant forall i :: 0 <= i < |found| ==> found[i].pos + found[i].len <= pos
      invariant forall i, j :: 0 <= i < j < |found| ==> found[i].pos + found[i].len <= found[j].pos
      decreases |buf| - pos
    {
      OneTurn(buf, pagesize, pos);
      if Begins(buf, pos) {
        var end, hit := CheckFrom(buf, pos);
        if hit { found := found + [Found(pos, end - pos + 1)]; }
        if end < |buf| { pos := end; }
      }
      pos := pos + 1;
    }
    DueInPage(buf, pagesize);
    forall f ensures Due(buf, pagesize, f) <==> IsWanted(buf, pagesize, f) { DueIffWanted(buf, pagesize, f); }
  }

  /** From `pos` on, the scan comes where it comes to from the start. */
  ghost predicate SameAhead(buf: seq<byte>, pos: nat) {
    forall place: nat :: pos <= place ==> (Visits(buf, 0, place) <==> Visits(buf, pos, place))
  }

  lemma DueInPage(buf: seq<byte>, pagesize: nat)
    ensures forall f :: Due(buf, pagesize, f) ==> f.pos + 1 < pagesize
  {
  }

  lemma NextVisit(buf: seq<byte>, pos: nat, place: nat)
    requires pos < place <= |buf|
    ensures Visits(buf, pos, place) <==> NextPlace(buf, pos) <= place && Visits(buf, NextPlace(buf, pos), place)
  {
  }

  lemma SameAheadNext(buf: seq<byte>, pos: nat)
    requires pos < |buf| && SameAhead(buf, pos)
    ensures SameAhead(buf, NextPlace(buf, pos)) && NextPlace(buf, pos) <= |buf| && Visits(buf, 0, pos)
    ensures forall place: nat :: pos < place < NextPlace(buf, pos) ==> !Visits(buf, 0, place)
  {
    hide StopFrom, Begins;
    assert Visits(buf, pos, pos);
    forall place: nat | pos < place
      ensures Visits(buf, 0, place) <==> NextPlace(buf, pos) <= place && Visits(buf, NextPlace(buf, pos), place)
    {
      assert Visits(buf, 0, place) <==> Visits(buf, pos, place);
      if place <= |buf| { NextVisit(buf, pos, place); }
    }
  }

  /** Between `pos` and the next place the scan comes to, only a document at `pos`
      itself can be due, and it ends where the checker started there stops. */
  lemma OneTurn(buf: seq<byte>, pagesize: nat, pos: nat)
    requires pos + 1 < pagesize <= |buf| && SameAhead(buf, pos)
    ensures SameAhead(buf, NextPlace(buf, pos)) && NextPlace(buf, pos) <= |buf|
    ensures forall f :: Due(buf, pagesize, f) && pos <= f.pos < NextPlace(buf, pos) <==>
                        Begins(buf, pos) && Hit(buf, pos) && f == Found(pos, StopFrom(buf, pos, pos) - pos + 1)
  {
    hide IsJson, StopFrom, Begins, NextPlace, Visits, SameAhead;
    SameAheadNext(buf, pos);
    forall f | Due(buf, pagesize, f) && pos <= f.pos < NextPlace(buf, pos)
      ensures f.pos == pos && f == Found(pos, StopFrom(buf, pos, pos) - pos + 1) && Hit(buf, pos)
    {
      DocumentStops(buf, f);
    }
  }

  /** Does a checker started at `pos` stop at the end of a document to be reported? */
  ghost predicate Hit(buf: seq<byte>, pos: nat)
    requires pos <= |buf|
  {
    var end := StopFrom(buf, pos, pos);
    end < |buf| && Closer(buf[end]) && GoodFind(buf, Found(pos, end - pos + 1))
  }

  lemma DocumentStops(buf: seq<byte>, f: Found)
    requires GoodFind(buf, f) && Closer(buf[f.pos + f.len - 1])
    ensures f.pos < |buf| && StopFrom(buf, f.pos, f.pos) == f.pos + f.len - 1
  {
    hide Run, Step, After, IsJson, StopFrom;
    GoodFindIff(buf, f);
    var at := f.pos + f.len - 1;
    forall i | f.pos <= i < at
      ensures !StopsAt(buf, f.pos, i)
    {
      LiveBefore(buf, f.pos, i + 1, at + 1);
      NotDoneBefore(buf, f.pos, i + 1, at + 1);
    }
    FirstStop(buf, f.pos, f.pos, at);
  }

  lemma {:induction false} FirstStop(buf: seq<byte>, pos: nat, i: nat, at: nat)
    requires pos <= i <= at < |buf| && StopsAt(buf, pos, at) && forall j :: i <= j < at ==> !StopsAt(buf, pos, j)
    ensures StopFrom(buf, pos, i) == at
    decreases at - i
  {
    if i < at { FirstStop(buf, pos, i + 1, at); }
  }

  /** A checker at the end of a document is done, and has counted its commas. */
  lemma GoodFindIff(buf: seq<byte>, f: Found)
    requires f.len > 0 && f.pos + f.len <= |buf|
    ensures var cfg := After(buf, f.pos, f.pos + f.len);
            GoodFind(buf, f) <==> Done(cfg) && cfg.commas % UINT32 >= 2
  {
    hide Run, IsJson;
    var text, depth := buf[f.pos..f.pos + f.len], STACK_SIZE - 1;
    forall k: nat
      ensures IsJson(text, depth, k) <==> Accepts(text) && Run(START, text).commas == k
    {
      AcceptsIffJson(text, k);
    }
  }

  lemma AfterSplit(buf: seq<byte>, pos: nat, mid: nat, end: nat)
    requires pos <= mid <= end <= |buf|
    ensures After(buf, pos, end) == Run(After(buf, pos, mid), buf[mid..end])
  {
    hide Run;
    RunConcat(START, buf[pos..mid], buf[mid..end]);
    assert buf[pos..end] == buf[pos..mid] + buf[mid..end];
  }

  lemma LiveBefore(buf: seq<byte>, pos: nat, mid: nat, end: nat)
    requires pos <= mid <= end <= |buf| && After(buf, pos, end).Live?
    ensures After(buf, pos, mid).Live?
  {
    hide Run;
    AfterSplit(buf, pos, mid, end);
    RunRejected(buf[mid..end]);
  }

  /** Nothing but white space follows a complete document, so no bracket does. */
  lemma NotDoneBefore(buf: seq<byte>, pos: nat, mid: nat, end: nat)
    requires pos <= mid < end <= |buf| && Done(After(buf, pos, end)) && Closer(buf[end - 1])
    ensures !Done(After(buf, pos, mid))
  {
    hide Run, Step;
    var cfg := After(buf, pos, mid);
    AfterSplit(buf, pos, mid, end);
    assert buf[mid..end][end - mid - 1] == buf[end - 1];
    if Done(cfg) {
      DoneIsOk(buf[pos..mid]);
      TailIsWs(cfg.commas, buf[mid..end]);
    }
  }

  lemma DoneIsOk(s: seq<int>)
    requires Done(Run(START, s))
    ensures Run(START, s) == Live(OK, [ModeDone], Run(START, s).commas)
  {
    hide Run, Step;
    RunKeepsInv(START, s);
  }

  /** The checker after the characters from `pos` up to, not including, `end`. */
  ghost function After(buf: seq<byte>, pos: nat, end: nat): Config
    requires pos <= end <= |buf|
  {
    Run(START, buf[pos..end])
  }

  lemma AfterNext(buf: seq<byte>, pos: nat, end: nat)
    requires pos <= end < |buf|
    ensures After(buf, pos, end + 1) == Step(After(buf, pos, end), buf[end])
  {
    hide Run, Step;
    RunSnoc(START, buf[pos..end], buf[end]);
    assert buf[pos..end + 1] == buf[pos..end] + [buf[end]];
  }

  /** The inner loop: runs a checker from `pos` to the first bad character, to the
      first bracket that completes a document, or off the end (`end == |buf|`). */
  method CheckFrom(buf: seq<byte>, pos: nat) returns (end: nat, hit: bool)
    requires pos < |buf|
    ensures end == StopFrom(buf, pos, pos) && hit == Hit(buf, pos)
  {
    hide Run, Step, GoodFind;
    var jc := new Checker();
    var i := pos;
    RunNothing(START);
    assert buf[pos..pos] == [];
    while i < |buf|
      invariant pos <= i <= |buf| && jc.Valid() && fresh(jc) && fresh(jc.stack) && !jc.reject
      invariant jc.Config() == After(buf, pos, i)
      invariant StopFrom(buf, pos, pos) == StopFrom(buf, pos, i)
    {
      AfterNext(buf, pos, i);
      GoodFindIff(buf, Found(pos, i - pos + 1));
      var bad := jc.CheckChar(buf[i]);
      if bad != 0 {
        return i, false;
      }
      if Closer(buf[i]) {
        var finished := jc.CheckIfDone();
        if finished {
          return i, jc.commaCount >= 2;
        }
      }
      i := i + 1;
    }
    return i, false;
  }

  lemma RunSnoc(cfg: Config, s: seq<int>, c: int)
    ensures Run(cfg, s + [c]) == Step(Run(cfg, s), c)
  {
    RunConcat(cfg, s, [c]);
    RunOne(Run(cfg, s), c);
  }

  // ---------------------------------------------------------------------------
  // What is due, by the grammar

  /** The first two characters of an array or object with a comma in it. */
  lemma FirstTwo(v: Value)
    requires ValidValue(v) && !v.Str? && !v.Num? && !v.Lit? && Commas(v) > 0
    ensures var t := ValueText(v);
            |t| >= 3 && (t[0] == 0x7B || t[0] == 0x5B) && Closer(t[|t| - 1]) && (SecondChar(t[1]) <==> !StartsWithLiteral(v))
  {
    match v {
      case Arr(es) =>
        if es.pre == [] { ValueBegins(es.v); }
        assert ValueText(v)[1..|ValueText(v)| - 1] == ElemsText(es);
        hide ValueText, ElemsText;
        ElemsBegin(es);
      case Obj(ms) =>
        assert ValueText(v)[1..|ValueText(v)| - 1] == MembersText(ms);
        hide ValueText, MembersText;
        MembersBegin(ms);
    }
  }

  lemma ElemsBegin(es: Elems)
    requires ValidElems(es)
    ensures var t := ElemsText(es);
            t != [] && if es.pre == [] then ValueText(es.v) != [] && t[0] == ValueText(es.v)[0] else IsWs(t[0])
  {
    ValueStarts(es.v);
    hide ValueText;
    if es.pre != [] { assert ElemsText(es)[0] == es.pre[0]; }
  }

  lemma MembersBegin(ms: Members)
    requires ValidMembers(ms)
    ensures var t := MembersText(ms); t != [] && if ms.pre == [] then t[0] == 0x22 else IsWs(t[0])
  {
    hide ValueText;
    if ms.pre != [] { assert MembersText(ms)[0] == ms.pre[0]; }
  }

  /** The characters a value begins with: a quote, a digit or minus, a letter, a bracket. */
  lemma ValueBegins(v: Value)
    requires ValidValue(v)
    ensures ValueText(v) != [] && (SecondChar(ValueText(v)[0]) <==> !v.Lit?)
  {
    match v {
      case Num(minus, whole, frac, exp) =>
        assert ValueText(v)[0] == if minus then 0x2D else whole[0];
      case _ =>
    }
  }

  lemma DueIffWanted(buf: seq<byte>, pagesize: nat, f: Found)
    requires pagesize <= |buf|
    ensures Due(buf, pagesize, f) <==> IsWanted(buf, pagesize, f)
  {
    hide Visits, ValueText, ValidValue, Depth, Commas, StartsWithLiteral;
    if Due(buf, pagesize, f) {
      var v := TreeOf(buf, f);
      BeginsIff(buf, f, v);
    }
    if IsWanted(buf, pagesize, f) {
      var v: Value :| WrittenAt(buf, f, v) && Depth(v) <= 255 && Commas(v) % UINT32 >= 2 && !StartsWithLiteral(v);
      BeginsIff(buf, f, v);
      assert DocText(Doc([], v, [])) == ValueText(v);
      assert ValidDoc(Doc([], v, []));
    }
  }

  lemma DocOf(buf: seq<byte>, f: Found) returns (d: Doc)
    requires GoodFind(buf, f)
    ensures f.len > 0 && f.pos + f.len <= |buf| && DocText(d) == buf[f.pos..f.pos + f.len]
    ensures ValidDoc(d) && Depth(d.v) <= 255 && Commas(d.v) % UINT32 >= 2
  {
    hide DocText, ValidDoc, Depth, Commas;
    var t := buf[f.pos..f.pos + f.len];
    var k: nat :| k % UINT32 >= 2 && IsJson(t, STACK_SIZE - 1, k);
    d :| ValidDoc(d) && DocText(d) == t && Depth(d.v) <= STACK_SIZE - 1 && Commas(d.v) == k;
  }

  /** Between brackets, a document has no white space around it. */
  lemma TreeOf(buf: seq<byte>, f: Found) returns (v: Value)
    requires GoodFind(buf, f) && Closer(buf[f.pos + f.len - 1]) && Begins(buf, f.pos)
    ensures WrittenAt(buf, f, v) && Depth(v) <= 255 && Commas(v) % UINT32 >= 2
  {
    hide ValueText, ValidValue, Depth, Commas, SecondChar, GoodFind;
    var d := DocOf(buf, f);
    var t := buf[f.pos..f.pos + f.len];
    v := d.v;
    assert t[0] == buf[f.pos] && t[f.len - 1] == buf[f.pos + f.len - 1];
    WsAtTheEnds(d);
    assert [] + ValueText(v) + [] == ValueText(v);
  }

  lemma WsAtTheEnds(d: Doc)
    requires ValidDoc(d)
    ensures var t := DocText(d);
            (d.pre != [] ==> t != [] && IsWs(t[0])) && (d.post != [] ==> t != [] && IsWs(t[|t| - 1]))
  {
    hide ValueText, ValidValue;
    if d.pre != [] { assert DocText(d)[0] == d.pre[0]; }
  }

  /** The scan starts a checker at a document with a comma, unless a literal stands
      directly behind the bracket. */
  lemma BeginsIff(buf: seq<byte>, f: Found, v: Value)
    requires WrittenAt(buf, f, v) && Commas(v) > 0
    ensures f.len > 0 && Closer(buf[f.pos + f.len - 1]) && (Begins(buf, f.pos) <==> !StartsWithLiteral(v))
  {
    hide ValueText, ValidValue, Commas, SecondChar, StartsWithLiteral;
    FirstTwo(v);
    var t := buf[f.pos..f.pos + f.len];
    assert t[0] == buf[f.pos] && t[1] == buf[f.pos + 1] && t[f.len - 1] == buf[f.pos + f.len - 1];
  }

  // ---------------------------------------------------------------------------
  // Which places the scan comes to

  lemma {:induction false} VisitsOn(buf: seq<byte>, pos: nat, mid: nat, place: nat)
    requires Visits(buf, pos, mid) && Visits(buf, mid, place) && place <= |buf|
    ensures Visits(buf, pos, place)
    decreases if pos <= mid then mid - pos else 0
  {
    hide NextPlace;
    if pos != mid {
      VisitsOn(buf, NextPlace(buf, pos), mid, place);
      VisitsForward(buf, mid, place);
    }
  }

  lemma VisitsForward(buf: seq<byte>, pos: nat, place: nat)
    requires Visits(buf, pos, place) && place <= |buf|
    ensures pos <= place
  {
  }

  /** No bracket on the way: the scan comes to the next place. */
  lemma {:induction false} VisitsPastPlain(buf: seq<byte>, pos: nat, place: nat)
    requires pos <= place <= |buf| && forall i :: pos <= i < place ==> buf[i] != 0x7B && buf[i] != 0x5B
    ensures Visits(buf, pos, place)
    decreases place - pos
  {
    hide StopFrom;
    if pos < place { VisitsPastPlain(buf, pos + 1, place); }
  }

  /** Behind a document that was looked at, the scan goes on. */
  lemma VisitsPastDocument(buf: seq<byte>, f: Found)
    requires GoodFind(buf, f) && Closer(buf[f.pos + f.len - 1]) && Begins(buf, f.pos)
    ensures Visits(buf, f.pos, f.pos + f.len)
  {
    hide IsJson, Begins, StopFrom;
    DocumentStops(buf, f);
    assert NextPlace(buf, f.pos) == f.pos + f.len;
  }

  /** What can still become a document stops no checker. */
  lemma NoStopBefore(buf: seq<byte>, pos: nat, i: nat, more: seq<byte>)
    requires pos <= i <= |buf| && more != [] && Closer(more[|more| - 1]) && Accepts(buf[pos..i] + more)
    ensures forall j :: pos <= j < i ==> !StopsAt(buf, pos, j)
  {
    hide Run, Step;
    var whole := buf[..i] + more;
    assert whole[pos..|whole|] == buf[pos..i] + more;
    forall j | pos <= j < i ensures !StopsAt(buf, pos, j) {
      assert whole[pos..j + 1] == buf[pos..j + 1];
      LiveBefore(whole, pos, j + 1, |whole|);
      NotDoneBefore(whole, pos, j + 1, |whole|);
    }
  }

  /** A document that the end of the buffer cuts off hides nothing inside it. */
  lemma VisitsPastUnclosed(buf: seq<byte>, pos: nat, more: seq<byte>)
    requires pos < |buf| && more != [] && Closer(more[|more| - 1]) && Accepts(buf[pos..] + more)
    ensures Visits(buf, pos, pos + 1)
  {
    hide StopsAt, Accepts, Begins;
    assert buf[pos..|buf|] == buf[pos..];
    NoStopBefore(buf, pos, |buf|, more);
    NoStop(buf, pos, pos);
  }

  lemma {:induction false} NoStop(buf: seq<byte>, pos: nat, i: nat)
    requires pos <= i <= |buf| && forall j :: i <= j < |buf| ==> !StopsAt(buf, pos, j)
    ensures StopFrom(buf, pos, i) == |buf|
    decreases |buf| - i
  {
    hide StopsAt;
    if i < |buf| { NoStop(buf, pos, i + 1); }
  }

  ghost predicate Hopeless(s: seq<int>) { !exists t: seq<int> :: Accepts(s + t) }

  /** What begins like a document up to a character at `i` with which it cannot go on is
      skipped, with that character: a document that starts at any place in it, be it `i`
      itself, is not looked for. */
  lemma VisitsPastBad(buf: seq<byte>, pos: nat, i: nat, more: seq<byte>)
    requires Begins(buf, pos) && pos <= i < |buf| && more != [] && Closer(more[|more| - 1]) && Accepts(buf[pos..i] + more)
    requires Hopeless(buf[pos..i + 1])
    ensures forall place: nat :: pos < place <= i ==> !Visits(buf, pos, place)
    ensures Visits(buf, pos, i + 1)
  {
    hide Run, Step, Accepts, Begins;
    NoStopBefore(buf, pos, i, more);
    RejectsExactlyTheHopeless(buf[pos..i + 1]);
    FirstStop(buf, pos, pos, i);
  }
}
