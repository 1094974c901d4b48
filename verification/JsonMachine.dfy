/** The pushdown automaton of scan_json.cpp as a function on configurations. */
module JsonMachine {

  import opened Basics

  datatype Class =
    | CSpace | CWhite | CLCurb | CRCurb | CLSqrb | CRSqrb | CColon | CComma | CQuote | CBacks | CSlash
    | CPlus | CMinus | CPoint | CZero | CDigit
    | CLowA | CLowB | CLowC | CLowD | CLowE | CLowF | CLowL | CLowN | CLowR | CLowS | CLowT | CLowU
    | CAbcdf | CE | CEtc

  datatype State =
    | GO | OK | OB | KE | CO | VA | AR | ST | ES | U1 | U2 | U3 | U4 | MI | ZE | IN | FR | E1 | E2 | E3
    | T1 | T2 | T3 | F1 | F2 | F3 | F4 | N1 | N2 | N3

  datatype Mode = ModeArray | ModeDone | ModeKey | ModeObject

  /** A table entry: the next state, one of the eight actions (-2 to -9), or the error code. */
  datatype Entry =
    | Goto(to: State)
    | Colon | Comma | Quote | OpenArr | OpenObj | CloseArr | CloseObj | CloseEmptyObj
    | Error

  const STACK_SIZE := 256

  /** `ascii_class`, and C_ETC from 128 up; None is the error class. */
  function ClassOf(c: int): Option<Class> {
    if c < 0 then None
    else if c >= 128 then Some(CEtc)
    else if c == 9 || c == 10 || c == 13 then Some(CWhite)
    else if c < 32 then None
    else if c == 0x20 then Some(CSpace)
    else if c == 0x22 then Some(CQuote)
    else if c == 0x2B then Some(CPlus)
    else if c == 0x2C then Some(CComma)
    else if c == 0x2D then Some(CMinus)
    else if c == 0x2E then Some(CPoint)
    else if c == 0x2F then Some(CSlash)
    else if c == 0x30 then Some(CZero)
    else if 0x31 <= c <= 0x39 then Some(CDigit)
    else if c == 0x3A then Some(CColon)
    else if c == 0x45 then Some(CE)
    else if 0x41 <= c <= 0x46 then Some(CAbcdf)
    else if c == 0x5B then Some(CLSqrb)
    else if c == 0x5C then Some(CBacks)
    else if c == 0x5D then Some(CRSqrb)
    else if c == 0x61 then Some(CLowA)
    else if c == 0x62 then Some(CLowB)
    else if c == 0x63 then Some(CLowC)
    else if c == 0x64 then Some(CLowD)
    else if c == 0x65 then Some(CLowE)
    else if c == 0x66 then Some(CLowF)
    else if c == 0x6C then Some(CLowL)
    else if c == 0x6E then Some(CLowN)
    else if c == 0x72 then Some(CLowR)
    else if c == 0x73 then Some(CLowS)
    else if c == 0x74 then Some(CLowT)
    else if c == 0x75 then Some(CLowU)
    else if c == 0x7B then Some(CLCurb)
    else if c == 0x7D then Some(CRCurb)
    else Some(CEtc)
  }

  /** Which characters are alone in their class, and which share one. */
  lemma ClassChars(c: int)
    ensures ClassOf(c) == Some(CSpace) <==> c == 0x20
    ensures ClassOf(c) == Some(CQuote) <==> c == 0x22
    ensures ClassOf(c) == Some(CPlus) <==> c == 0x2B
    ensures ClassOf(c) == Some(CComma) <==> c == 0x2C
    ensures ClassOf(c) == Some(CMinus) <==> c == 0x2D
    ensures ClassOf(c) == Some(CPoint) <==> c == 0x2E
    ensures ClassOf(c) == Some(CSlash) <==> c == 0x2F
    ensures ClassOf(c) == Some(CZero) <==> c == 0x30
    ensures ClassOf(c) == Some(CColon) <==> c == 0x3A
    ensures ClassOf(c) == Some(CE) <==> c == 0x45
    ensures ClassOf(c) == Some(CLSqrb) <==> c == 0x5B
    ensures ClassOf(c) == Some(CBacks) <==> c == 0x5C
    ensures ClassOf(c) == Some(CRSqrb) <==> c == 0x5D
    ensures ClassOf(c) == Some(CLowA) <==> c == 0x61
    ensures ClassOf(c) == Some(CLowB) <==> c == 0x62
    ensures ClassOf(c) == Some(CLowC) <==> c == 0x63
    ensures ClassOf(c) == Some(CLowD) <==> c == 0x64
    ensures ClassOf(c) == Some(CLowE) <==> c == 0x65
    ensures ClassOf(c) == Some(CLowF) <==> c == 0x66
    ensures ClassOf(c) == Some(CLowL) <==> c == 0x6C
    ensures ClassOf(c) == Some(CLowN) <==> c == 0x6E
    ensures ClassOf(c) == Some(CLowR) <==> c == 0x72
    ensures ClassOf(c) == Some(CLowS) <==> c == 0x73
    ensures ClassOf(c) == Some(CLowT) <==> c == 0x74
    ensures ClassOf(c) == Some(CLowU) <==> c == 0x75
    ensures ClassOf(c) == Some(CLCurb) <==> c == 0x7B
    ensures ClassOf(c) == Some(CRCurb) <==> c == 0x7D
    ensures ClassOf(c) == Some(CWhite) <==> c == 9 || c == 10 || c == 13
    ensures ClassOf(c) == Some(CDigit) <==> 0x31 <= c <= 0x39
    ensures ClassOf(c) == Some(CAbcdf) <==> 0x41 <= c <= 0x46 && c != 0x45
  {
  }

  predicate BlankClass(k: Class) { k.CSpace? || k.CWhite? }

  predicate DigitClass(k: Class) { k.CZero? || k.CDigit? }

  predicate HexClass(k: Class) {
    DigitClass(k) || k.CLowA? || k.CLowB? || k.CLowC? || k.CLowD? || k.CLowE? || k.CLowF? || k.CAbcdf? || k.CE?
  }

  /** The columns shared by the four states that may end a number, and by OK. */
  function AfterValue(k: Class): Entry {
    if BlankClass(k) then Goto(OK)
    else if k.CRCurb? then CloseObj
    else if k.CRSqrb? then CloseArr
    else if k.CComma? then Comma
    else Error
  }

  /** The columns shared by the states that expect a value. */
  function BeforeValue(k: Class): Entry {
    match k
    case CLCurb => OpenObj
    case CLSqrb => OpenArr
    case CQuote => Goto(ST)
    case CMinus => Goto(MI)
    case CZero => Goto(ZE)
    case CDigit => Goto(IN)
    case CLowF => Goto(F1)
    case CLowN => Goto(N1)
    case CLowT => Goto(T1)
    case _ => Error
  }

  function Only(k: Class, want: Class, to: State): Entry { if k == want then Goto(to) else Error }

  /** The rows of `state_transition_table` between values. */
  function StructureRow(st: State, k: Class): Entry {
    match st
    case GO => if BlankClass(k) then Goto(GO) else if k.CLCurb? then OpenObj else if k.CLSqrb? then OpenArr else Error
    case OB => if BlankClass(k) then Goto(OB) else if k.CRCurb? then CloseEmptyObj else Only(k, CQuote, ST)
    case KE => if BlankClass(k) then Goto(KE) else Only(k, CQuote, ST)
    case CO => if BlankClass(k) then Goto(CO) else if k.CColon? then Colon else Error
    case VA => if BlankClass(k) then Goto(VA) else BeforeValue(k)
    case AR => if BlankClass(k) then Goto(AR) else if k.CRSqrb? then CloseArr else BeforeValue(k)
    case _ => AfterValue(k)
  }

  /** The rows inside a string. */
  function StringRow(st: State, k: Class): Entry {
    match st
    case ST => if k.CWhite? then Error else if k.CQuote? then Quote else if k.CBacks? then Goto(ES) else Goto(ST)
    case ES =>
      if k.CQuote? || k.CBacks? || k.CSlash? || k.CLowB? || k.CLowF? || k.CLowN? || k.CLowR? || k.CLowT? then Goto(ST)
      else Only(k, CLowU, U1)
    case U1 => if HexClass(k) then Goto(U2) else Error
    case U2 => if HexClass(k) then Goto(U3) else Error
    case U3 => if HexClass(k) then Goto(U4) else Error
    case _ => if HexClass(k) then Goto(ST) else Error
  }

  /** The rows inside a number. */
  function NumberRow(st: State, k: Class): Entry {
    match st
    case MI => if k.CZero? then Goto(ZE) else Only(k, CDigit, IN)
    case ZE => if k.CPoint? then Goto(FR) else AfterValue(k)
    case IN =>
      if DigitClass(k) then Goto(IN) else if k.CPoint? then Goto(FR)
      else if k.CLowE? || k.CE? then Goto(E1) else AfterValue(k)
    case FR => if DigitClass(k) then Goto(FR) else if k.CLowE? || k.CE? then Goto(E1) else AfterValue(k)
    case E1 => if k.CPlus? || k.CMinus? then Goto(E2) else if DigitClass(k) then Goto(E3) else Error
    case E2 => if DigitClass(k) then Goto(E3) else Error
    case _ => if DigitClass(k) then Goto(E3) else AfterValue(k)
  }

  /** The rows inside `true`, `false` and `null`. */
  function WordRow(st: State, k: Class): Entry {
    match st
    case T1 => Only(k, CLowR, T2)
    case T2 => Only(k, CLowU, T3)
    case T3 => Only(k, CLowE, OK)
    case F1 => Only(k, CLowA, F2)
    case F2 => Only(k, CLowL, F3)
    case F3 => Only(k, CLowS, F4)
    case F4 => Only(k, CLowE, OK)
    case N1 => Only(k, CLowU, N2)
    case N2 => Only(k, CLowL, N3)
    case _ => Only(k, CLowL, OK)
  }

  function Table(st: State, k: Class): Entry {
    match st
    case GO | OK | OB | KE | CO | VA | AR => StructureRow(st, k)
    case ST | ES | U1 | U2 | U3 | U4 => StringRow(st, k)
    case MI | ZE | IN | FR | E1 | E2 | E3 => NumberRow(st, k)
    case _ => WordRow(st, k)
  }

  /** What the checker knows between two characters: its state, the mode stack up
      to `top`, and the commas so far; or that it has rejected. */
  datatype Config = Live(state: State, modes: seq<Mode>, commas: nat) | Rejected

  const START := Live(GO, [ModeDone], 0)

  function Last(m: seq<Mode>): Mode
    requires m != []
  {
    m[|m| - 1]
  }

  function Popped(m: seq<Mode>): seq<Mode>
    requires m != []
  {
    m[..|m| - 1]
  }

  /** `pop` then move to `st`. */
  function PopTo(cfg: Config, want: Mode, st: State): Config
    requires cfg.Live?
  {
    if cfg.modes != [] && Last(cfg.modes) == want then Live(st, Popped(cfg.modes), cfg.commas) else Rejected
  }

  /** `push` then move to `st`. */
  function PushTo(cfg: Config, mode: Mode, st: State): Config
    requires cfg.Live?
  {
    if |cfg.modes| < STACK_SIZE then Live(st, cfg.modes + [mode], cfg.commas) else Rejected
  }

  function Act(cfg: Config, e: Entry): Config
    requires cfg.Live? && cfg.modes != []
  {
    match e
    case Goto(st) => cfg.(state := st)
    case CloseEmptyObj => PopTo(cfg, ModeKey, OK)
    case CloseObj => PopTo(cfg, ModeObject, OK)
    case CloseArr => PopTo(cfg, ModeArray, OK)
    case OpenObj => PushTo(cfg, ModeKey, OB)
    case OpenArr => PushTo(cfg, ModeArray, AR)
    case Quote =>
      if Last(cfg.modes) == ModeKey then cfg.(state := CO)
      else if Last(cfg.modes) == ModeDone then Rejected
      else cfg.(state := OK)
    case Comma =>
      if Last(cfg.modes) == ModeObject then Live(KE, Popped(cfg.modes) + [ModeKey], cfg.commas + 1)
      else if Last(cfg.modes) == ModeArray then Live(VA, cfg.modes, cfg.commas + 1)
      else Rejected
    case Colon =>
      if Last(cfg.modes) == ModeKey then Live(VA, Popped(cfg.modes) + [ModeObject], cfg.commas)
      else Rejected
    case Error => Rejected
  }

  function Step(cfg: Config, c: int): Config {
    if cfg.Rejected? || cfg.modes == [] || ClassOf(c).None? then Rejected
    else Act(cfg, Table(cfg.state, ClassOf(c).value))
  }

  function Run(cfg: Config, s: seq<int>): Config
    decreases |s|
  {
    if s == [] then cfg else Run(Step(cfg, s[0]), s[1..])
  }

  /** `check_if_done` on an unrejected checker. */
  predicate Done(cfg: Config) { cfg.Live? && cfg.state == OK && |cfg.modes| == 1 }

  predicate Accepts(s: seq<int>) { Done(Run(START, s)) }

  lemma {:induction false} RunConcat(cfg: Config, a: seq<int>, b: seq<int>)
    ensures Run(cfg, a + b) == Run(Run(cfg, a), b)
    decreases |a|
  {
    if a == [] {
      assert a + b == b;
    } else {
      assert (a + b)[1..] == a[1..] + b;
      RunConcat(Step(cfg, a[0]), a[1..], b);
    }
  }

  lemma {:induction false} RunRejected(s: seq<int>)
    ensures Run(Rejected, s) == Rejected
    decreases |s|
  {
    if s != [] {
      RunRejected(s[1..]);
    }
  }

  // ---------------------------------------------------------------------------
  // Earliest rejection

  /** Which modes can be on top of the stack in each state. */
  predicate StateMatchesTop(st: State, top: Mode) {
    match st
    case GO => top == ModeDone
    case OK => top != ModeKey
    case OB | KE | CO => top == ModeKey
    case AR => top == ModeArray
    case ST | ES | U1 | U2 | U3 | U4 => top != ModeDone
    case _ => top == ModeArray || top == ModeObject
  }

  /** What every reachable live configuration keeps. */
  ghost predicate Inv(cfg: Config) {
    && cfg.Live?
    && 1 <= |cfg.modes| <= STACK_SIZE
    && (forall i :: 0 <= i < |cfg.modes| ==> (cfg.modes[i] == ModeDone <==> i == 0))
    && (forall i :: 0 <= i < |cfg.modes| - 1 ==> cfg.modes[i] != ModeKey)
    && (cfg.state == GO ==> |cfg.modes| == 1)
    && StateMatchesTop(cfg.state, Last(cfg.modes))
  }

  /** An entry that keeps the state in step with the top of the stack. */
  predicate EntryFits(st: State, e: Entry, top: Mode) {
    && (e.Goto? ==> StateMatchesTop(e.to, top) && (e.to == GO ==> st == GO))
    && (e.OpenObj? || e.OpenArr? ==> st == GO || st == VA || st == AR)
  }

  lemma AfterAndBefore(k: Class)
    ensures var e := AfterValue(k); (e.Goto? ==> e.to == OK) && !e.OpenObj? && !e.OpenArr?
    ensures var e := BeforeValue(k); e.Goto? ==> e.to in {ST, MI, ZE, IN, F1, N1, T1}
  {
  }

  lemma StructureFits(st: State, k: Class, top: Mode)
    requires StateMatchesTop(st, top) && st in {GO, OK, OB, KE, CO, VA, AR}
    ensures EntryFits(st, StructureRow(st, k), top)
  {
    hide AfterValue, BeforeValue, BlankClass;
    AfterAndBefore(k);
  }

  lemma StringFits(st: State, k: Class, top: Mode)
    requires StateMatchesTop(st, top) && st in {ST, ES, U1, U2, U3, U4}
    ensures EntryFits(st, StringRow(st, k), top)
  {
  }

  lemma NumberGoesTo(st: State, k: Class)
    ensures var e := NumberRow(st, k);
            (e.Goto? ==> e.to in {ZE, IN, FR, E1, E2, E3, OK}) && !e.OpenObj? && !e.OpenArr?
  {
    hide AfterValue, DigitClass;
    AfterAndBefore(k);
  }

  lemma NumberFits(st: State, k: Class, top: Mode)
    requires StateMatchesTop(st, top) && st in {MI, ZE, IN, FR, E1, E2, E3}
    ensures EntryFits(st, NumberRow(st, k), top)
  {
    hide NumberRow;
    NumberGoesTo(st, k);
  }

  lemma WordFits(st: State, k: Class, top: Mode)
    requires StateMatchesTop(st, top) && st in {T1, T2, T3, F1, F2, F3, F4, N1, N2, N3}
    ensures EntryFits(st, WordRow(st, k), top)
  {
  }

  lemma TableFits(st: State, k: Class, top: Mode)
    requires StateMatchesTop(st, top)
    ensures EntryFits(st, Table(st, k), top)
  {
    hide StructureRow, StringRow, NumberRow, WordRow, EntryFits, StateMatchesTop;
    match st
    case GO | OK | OB | KE | CO | VA | AR => StructureFits(st, k, top);
    case ST | ES | U1 | U2 | U3 | U4 => StringFits(st, k, top);
    case MI | ZE | IN | FR | E1 | E2 | E3 => NumberFits(st, k, top);
    case _ => WordFits(st, k, top);
  }

  lemma ActKeepsInv(cfg: Config, e: Entry)
    requires Inv(cfg) && Act(cfg, e).Live?
    requires e.Goto? ==> StateMatchesTop(e.to, Last(cfg.modes)) && (e.to == GO ==> cfg.state == GO)
    requires e.OpenObj? || e.OpenArr? ==> cfg.state == GO || cfg.state == VA || cfg.state == AR
    ensures Inv(Act(cfg, e))
  {
  }

  lemma StepKeepsInv(cfg: Config, c: int)
    requires Inv(cfg) && Step(cfg, c).Live?
    ensures Inv(Step(cfg, c))
  {
    TableFits(cfg.state, ClassOf(c).value, Last(cfg.modes));
    hide Table, ClassOf;
    ActKeepsInv(cfg, Table(cfg.state, ClassOf(c).value));
  }

  lemma {:induction false} RunKeepsInv(cfg: Config, s: seq<int>)
    requires Inv(cfg) && Run(cfg, s).Live?
    ensures Inv(Run(cfg, s))
    decreases |s|
  {
    if s != [] {
      if Step(cfg, s[0]).Rejected? {
        RunRejected(s[1..]);
      } else {
        StepKeepsInv(cfg, s[0]);
        RunKeepsInv(Step(cfg, s[0]), s[1..]);
      }
    }
  }

  /** A character that leads from a live configuration towards acceptance. */
  function Helpful(st: State, top: Mode): int {
    match st
    case GO => 0x5B
    case OK | ZE | IN | FR | E3 => if top == ModeArray then 0x5D else 0x7D
    case OB => 0x7D
    case AR => 0x5D
    case KE | ST | ES => 0x22
    case CO => 0x3A
    case VA | MI | E1 | E2 | U1 | U2 | U3 | U4 => 0x30
    case T1 => 0x72
    case T2 | N1 => 0x75
    case T3 | F4 => 0x65
    case F1 => 0x61
    case F2 | N2 | N3 => 0x6C
    case F3 => 0x73
  }

  /** How many helpful characters it takes until one closes a bracket. */
  function Rank(st: State): nat {
    match st
    case GO | OK | OB | AR | ZE | IN | FR | E3 => 0
    case VA | MI | E1 | E2 | T3 | F4 | N3 => 1
    case CO | T2 | F3 | N2 => 2
    case ST | T1 | F2 | N1 => 3
    case KE | ES | U4 | F1 => 4
    case U3 => 5
    case U2 => 6
    case U1 => 7
  }

  /** The class of the helpful character, where it is not a bracket. */
  function HelpfulClass(st: State): Class {
    match st
    case KE | ST | ES => CQuote
    case CO => CColon
    case T1 => CLowR
    case T2 | N1 => CLowU
    case T3 | F4 => CLowE
    case F1 => CLowA
    case F2 | N2 | N3 => CLowL
    case F3 => CLowS
    case _ => CZero
  }

  lemma HelpfulClassIs(st: State, top: Mode)
    requires Rank(st) > 0
    ensures ClassOf(Helpful(st, top)) == Some(HelpfulClass(st))
  {
    hide Table;
  }

  /** An entry that leads on from `st`. */
  predicate LeadsOn(st: State, e: Entry) {
    if st == ST then e == Quote else if st == CO then e == Colon else e.Goto? && e.to != GO && Rank(e.to) < Rank(st)
  }

  lemma HelpfulEntry(st: State)
    requires Rank(st) > 0
    ensures LeadsOn(st, Table(st, HelpfulClass(st)))
  {
    hide StructureRow, StringRow, NumberRow, WordRow, LeadsOn;
    HelpfulStructure(st);
    HelpfulString(st);
    HelpfulNumber(st);
    HelpfulWord(st);
  }

  lemma HelpfulStructure(st: State)
    ensures st == KE || st == CO || st == VA ==> LeadsOn(st, StructureRow(st, HelpfulClass(st)))
  {
  }

  lemma HelpfulString(st: State)
    ensures st == ST || st == ES || st == U1 || st == U2 || st == U3 || st == U4 ==> LeadsOn(st, StringRow(st, HelpfulClass(st)))
  {
  }

  lemma HelpfulNumber(st: State)
    ensures st == MI || st == E1 || st == E2 ==> LeadsOn(st, NumberRow(st, HelpfulClass(st)))
  {
  }

  lemma HelpfulWord(st: State)
    ensures st.T1? || st.T2? || st.T3? || st.F1? || st.F2? || st.F3? || st.F4? || st.N1? || st.N2? || st.N3? ==>
              LeadsOn(st, WordRow(st, HelpfulClass(st)))
  {
  }

  /** The helpful character is accepted and brings the end nearer: the stack gets
      shorter, or stays and the rank drops (or GO is left for good). */
  lemma HelpfulHelps(cfg: Config)
    requires Inv(cfg) && !Done(cfg)
    ensures var next := Step(cfg, Helpful(cfg.state, Last(cfg.modes)));
            && Inv(next) && next.state != GO
            && (cfg.state == GO || |next.modes| < |cfg.modes|
                || (|next.modes| == |cfg.modes| && Rank(next.state) < Rank(cfg.state)))
  {
    var top := Last(cfg.modes);
    if Rank(cfg.state) == 0 {
      HelpfulCloses(cfg);
    } else {
      HelpfulClassIs(cfg.state, top);
      HelpfulEntry(cfg.state);
      hide Table, ClassOf, Helpful;
      assert Step(cfg, Helpful(cfg.state, top)).Live?;
    }
    hide *;
    StepKeepsInv(cfg, Helpful(cfg.state, top));
  }

  /** The closing bracket, its class, and what it does to the stack. */
  lemma ClosingEntry(st: State, top: Mode)
    requires Rank(st) == 0 && st != GO && StateMatchesTop(st, top) && top != ModeDone
    ensures var k := ClassOf(Helpful(st, top));
            k.Some? && Table(st, k.value) == if st == OB then CloseEmptyObj else if top == ModeArray then CloseArr else CloseObj
  {
    hide StringRow, WordRow;
  }

  lemma HelpfulCloses(cfg: Config)
    requires Inv(cfg) && !Done(cfg) && Rank(cfg.state) == 0
    ensures var next := Step(cfg, Helpful(cfg.state, Last(cfg.modes)));
            next.Live? && next.state != GO && (cfg.state == GO || |next.modes| < |cfg.modes|)
  {
    hide Table, ClassOf, Helpful;
    if cfg.state == GO {
      OpeningEntry();
    } else {
      NotDoneHasBracket(cfg);
      ClosingEntry(cfg.state, Last(cfg.modes));
    }
  }

  lemma OpeningEntry()
    ensures var k := ClassOf(Helpful(GO, ModeDone)); k.Some? && Table(GO, k.value) == OpenArr
  {
    hide StringRow, NumberRow, WordRow;
  }

  lemma NotDoneHasBracket(cfg: Config)
    requires Inv(cfg) && !Done(cfg) && Rank(cfg.state) == 0 && cfg.state != GO
    ensures |cfg.modes| > 1 && Last(cfg.modes) != ModeDone && StateMatchesTop(cfg.state, Last(cfg.modes))
  {
  }

  /** The completion that always takes the helpful character. */
  function Completion(cfg: Config): seq<int>
    requires Inv(cfg)
    decreases cfg.state == GO, |cfg.modes|, Rank(cfg.state)
  {
    if Done(cfg) then []
    else
      HelpfulHelps(cfg);
      var c := Helpful(cfg.state, Last(cfg.modes));
      [c] + Completion(Step(cfg, c))
  }

  lemma {:induction false} CompletionAccepted(cfg: Config)
    requires Inv(cfg)
    ensures Done(Run(cfg, Completion(cfg)))
    decreases cfg.state == GO, |cfg.modes|, Rank(cfg.state)
  {
    if !Done(cfg) {
      HelpfulHelps(cfg);
      var next := Step(cfg, Helpful(cfg.state, Last(cfg.modes)));
      CompletionAccepted(next);
      assert Completion(cfg)[1..] == Completion(next);
    }
  }

  /** Rejection comes at the earliest possible character, and only when it must:
      a prefix is rejected exactly when no continuation of it is accepted. */
  lemma RejectsExactlyTheHopeless(s: seq<int>)
    ensures Run(START, s).Rejected? <==> !exists t: seq<int> :: Accepts(s + t)
  {
    if Run(START, s).Rejected? {
      forall t: seq<int>
        ensures !Accepts(s + t)
      {
        RunConcat(START, s, t);
        RunRejected(t);
      }
    } else {
      RunKeepsInv(START, s);
      var t := Completion(Run(START, s));
      CompletionAccepted(Run(START, s));
      RunConcat(START, s, t);
      assert Accepts(s + t);
    }
  }
}
