/** Every text the automaton accepts is in the grammar: the tree is read off the
    run, one recursive-descent step per lemma. */
module JsonSoundness {
  import opened Basics
  import opened JsonGrammar
  import opened JsonMachine

  predicate SkipsWs(st: State) {
    st == GO || st == OK || st == OB || st == KE || st == CO || st == VA || st == AR
  }

  /** States in which a value may be followed by what comes after it. */
  predicate EndsValue(st: State) { st == OK || st == ZE || st == IN || st == FR || st == E3 }

  predicate InValue(modes: seq<Mode>) {
    2 <= |modes| <= STACK_SIZE && (Last(modes) == ModeArray || Last(modes) == ModeObject)
  }

  /** The run from `cfg` over `s` ends where the run from `next` over `rest` does. */
  ghost predicate Reaches(cfg: Config, s: seq<int>, next: Config, rest: seq<int>) {
    Run(cfg, s) == Run(next, rest)
  }

  lemma FirstStepLive(cfg: Config, s: seq<int>)
    requires Done(Run(cfg, s)) && !Done(cfg)
    ensures s != [] && Step(cfg, s[0]).Live? && Reaches(cfg, s, Step(cfg, s[0]), s[1..])
  {
    if Step(cfg, s[0]).Rejected? {
      RunRejected(s[1..]);
    }
  }

  lemma SameFirstStep(cfg: Config, cfg': Config, s: seq<int>)
    requires s != [] && Step(cfg, s[0]) == Step(cfg', s[0])
    ensures Reaches(cfg, s, cfg', s)
  {
  }

  lemma RunNothing(cfg: Config)
    ensures Run(cfg, []) == cfg
  {
  }

  lemma FirstStepDies(cfg: Config, s: seq<int>)
    requires s != [] && Step(cfg, s[0]).Rejected?
    ensures Run(cfg, s).Rejected?
  {
    RunRejected(s[1..]);
  }

  /** The single way on from a state inside a word. */
  function WordNext(st: State): (int, State) {
    match st
    case T1 => (0x72, T2) case T2 => (0x75, T3) case T3 => (0x65, OK)
    case F1 => (0x61, F2) case F2 => (0x6C, F3) case F3 => (0x73, F4) case F4 => (0x65, OK)
    case N1 => (0x75, N2) case N2 => (0x6C, N3) case N3 => (0x6C, OK)
    case _ => (0, st)
  }

  function WordClass(st: State): Class {
    match st
    case T1 => CLowR case T2 => CLowU case T3 => CLowE
    case F1 => CLowA case F2 => CLowL case F3 => CLowS case F4 => CLowE
    case N1 => CLowU case N2 => CLowL case _ => CLowL
  }

  lemma WordEntry(st: State, k: Class)
    requires WordNext(st).0 != 0
    ensures st != OK && Table(st, k) == if k == WordClass(st) then Goto(WordNext(st).1) else Error
  {
    hide StructureRow, StringRow, NumberRow;
  }

  lemma WordChar(st: State, c: int)
    requires WordNext(st).0 != 0
    ensures ClassOf(c) == Some(WordClass(st)) <==> c == WordNext(st).0
  {
    hide ClassOf;
    ClassChars(c);
  }

  lemma WordStep(st: State, modes: seq<Mode>, k: nat, s: seq<int>)
    requires modes != [] && WordNext(st).0 != 0 && Done(Run(Live(st, modes, k), s))
    ensures s != [] && s[0] == WordNext(st).0
    ensures Reaches(Live(st, modes, k), s, Live(WordNext(st).1, modes, k), s[1..])
  {
    hide Run, Table, ClassOf, WordNext, WordClass;
    WordEntry(st, CLowR);
    FirstStepLive(Live(st, modes, k), s);
    WordEntry(st, ClassOf(s[0]).value);
    WordChar(st, s[0]);
  }

  function HexNext(st: State): State {
    match st
    case U1 => U2 case U2 => U3 case U3 => U4 case _ => ST
  }

  lemma HexEntry(st: State, k: Class)
    requires st == U1 || st == U2 || st == U3 || st == U4
    ensures Table(st, k) == if HexClass(k) then Goto(HexNext(st)) else Error
  {
    hide StructureRow, WordRow, NumberRow;
  }

  lemma HexChar(c: int)
    ensures ClassOf(c).Some? && HexClass(ClassOf(c).value) <==> IsHex(c)
  {
    hide ClassOf;
    ClassChars(c);
  }

  lemma HexStep(st: State, modes: seq<Mode>, k: nat, s: seq<int>)
    requires modes != [] && (st == U1 || st == U2 || st == U3 || st == U4) && Done(Run(Live(st, modes, k), s))
    ensures s != [] && IsHex(s[0]) && Reaches(Live(st, modes, k), s, Live(HexNext(st), modes, k), s[1..])
  {
    hide Run, Table, ClassOf, HexNext, HexClass;
    FirstStepLive(Live(st, modes, k), s);
    HexEntry(st, ClassOf(s[0]).value);
    HexChar(s[0]);
  }

  lemma EscapeEntry(k: Class)
    ensures Table(ST, CBacks) == Goto(ES)
    ensures Table(ES, k) ==
            if k.CQuote? || k.CBacks? || k.CSlash? || k.CLowB? || k.CLowF? || k.CLowN? || k.CLowR? || k.CLowT? then Goto(ST)
            else if k.CLowU? then Goto(U1) else Error
  {
    hide StructureRow, WordRow, NumberRow;
  }

  lemma EscapeStep(modes: seq<Mode>, k: nat, s: seq<int>)
    requires modes != [] && s != [] && s[0] == 0x5C && Done(Run(Live(ST, modes, k), s))
    ensures |s| >= 2 && (s[1] == 0x75 || IsEscape(s[1]))
    ensures Reaches(Live(ST, modes, k), s, Live(if s[1] == 0x75 then U1 else ST, modes, k), s[2..])
  {
    hide Run, Table, ClassOf;
    EscapeEntry(CBacks);
    ClassChars(s[0]);
    FirstStepLive(Live(ST, modes, k), s);
    assert Step(Live(ST, modes, k), s[0]) == Live(ES, modes, k);
    FirstStepLive(Live(ES, modes, k), s[1..]);
    EscapeEntry(ClassOf(s[1]).value);
    ClassChars(s[1]);
    assert s[1..][1..] == s[2..];
  }

  /** The step that starts a number or a word. */
  lemma StartStep(modes: seq<Mode>, k: nat, s: seq<int>)
    requires modes != [] && Done(Run(Live(VA, modes, k), s))
    requires s != [] && (s[0] == 0x2D || IsDigit(s[0]) || s[0] == 0x74 || s[0] == 0x66 || s[0] == 0x6E)
    ensures var st := if s[0] == 0x2D then MI else if s[0] == 0x30 then ZE else if IsDigit(s[0]) then IN
                      else if s[0] == 0x74 then T1 else if s[0] == 0x66 then F1 else N1;
            Reaches(Live(VA, modes, k), s, Live(st, modes, k), s[1..])
  {
    hide Run;
    FirstStepLive(Live(VA, modes, k), s);
  }

  lemma MinusStep(modes: seq<Mode>, k: nat, s: seq<int>)
    requires modes != [] && Done(Run(Live(MI, modes, k), s))
    ensures s != [] && IsDigit(s[0])
    ensures Reaches(Live(MI, modes, k), s, Live(if s[0] == 0x30 then ZE else IN, modes, k), s[1..])
  {
    hide Run;
    FirstStepLive(Live(MI, modes, k), s);
  }

  lemma BlankEntry(st: State, k: Class)
    requires SkipsWs(st) && BlankClass(k)
    ensures Table(st, k) == Goto(st)
  {
    hide StringRow, NumberRow, WordRow;
  }

  lemma BlankStep(cfg: Config, c: int)
    requires cfg.Live? && cfg.modes != [] && SkipsWs(cfg.state) && IsWs(c)
    ensures Step(cfg, c) == cfg
  {
    hide Table, ClassOf;
    ClassChars(c);
    BlankEntry(cfg.state, ClassOf(c).value);
  }

  lemma {:induction false} SkipWs(cfg: Config, s: seq<int>) returns (ws: seq<int>, rest: seq<int>)
    requires cfg.Live? && cfg.modes != [] && SkipsWs(cfg.state)
    ensures s == ws + rest && AllWs(ws) && (rest == [] || !IsWs(rest[0]))
    ensures Reaches(cfg, s, cfg, rest)
    decreases |s|
  {
    hide Step;
    if s != [] && IsWs(s[0]) {
      BlankStep(cfg, s[0]);
      var w, r := SkipWs(cfg, s[1..]);
      ws, rest := [s[0]] + w, r;
    } else {
      ws, rest := [], s;
    }
  }

  lemma {:induction false} StringSound(modes: seq<Mode>, k: nat, s: seq<int>) returns (body: seq<int>, rest: seq<int>)
    requires modes != [] && Last(modes) != ModeDone && Done(Run(Live(ST, modes, k), s))
    ensures s == body + [0x22] + rest && IsBody(body)
    ensures Reaches(Live(ST, modes, k), s, Live(if Last(modes) == ModeKey then CO else OK, modes, k), rest)
    decreases |s|
  {
    hide Run;
    var cfg := Live(ST, modes, k);
    FirstStepLive(cfg, s);
    if s[0] == 0x22 {
      body, rest := [], s[1..];
    } else if s[0] == 0x5C {
      var n := EscapeSound(modes, k, s);
      var b, r := StringSound(modes, k, s[n..]);
      body, rest := s[..n] + b, r;
      assert body[n..] == b;
    } else {
      var b, r := StringSound(modes, k, s[1..]);
      body, rest := [s[0]] + b, r;
      assert body[1..] == b;
    }
  }

  lemma EscapeSound(modes: seq<Mode>, k: nat, s: seq<int>) returns (n: nat)
    requires modes != [] && s != [] && s[0] == 0x5C && Done(Run(Live(ST, modes, k), s))
    ensures 2 <= n <= |s|
    ensures (n == 2 && IsEscape(s[1])) || (n == 6 && s[1] == 0x75 && IsHex(s[2]) && IsHex(s[3]) && IsHex(s[4]) && IsHex(s[5]))
    ensures Reaches(Live(ST, modes, k), s, Live(ST, modes, k), s[n..])
  {
    hide Run, Step;
    EscapeStep(modes, k, s);
    if s[1] == 0x75 {
      HexStep(U1, modes, k, s[2..]);
      HexStep(U2, modes, k, s[3..]);
      HexStep(U3, modes, k, s[4..]);
      HexStep(U4, modes, k, s[5..]);
      n := 6;
    } else {
      n := 2;
    }
  }

  lemma DigitEntry(st: State, k: Class)
    requires (st == IN || st == FR || st == E3) && DigitClass(k)
    ensures Table(st, k) == Goto(st)
  {
    hide StructureRow, StringRow, WordRow;
  }

  lemma DigitStep(cfg: Config, c: int)
    requires cfg.Live? && cfg.modes != [] && (cfg.state == IN || cfg.state == FR || cfg.state == E3) && IsDigit(c)
    ensures Step(cfg, c) == cfg
  {
    hide Table, ClassOf;
    ClassChars(c);
    DigitEntry(cfg.state, ClassOf(c).value);
  }

  lemma {:induction false} DigitsSound(cfg: Config, s: seq<int>) returns (ds: seq<int>, rest: seq<int>)
    requires cfg.Live? && cfg.modes != [] && (cfg.state == IN || cfg.state == FR || cfg.state == E3)
    ensures s == ds + rest && AllDigits(ds) && (rest == [] || !IsDigit(rest[0]))
    ensures Reaches(cfg, s, cfg, rest)
    decreases |s|
  {
    hide Step;
    if s != [] && IsDigit(s[0]) {
      DigitStep(cfg, s[0]);
      var d, r := DigitsSound(cfg, s[1..]);
      ds, rest := [s[0]] + d, r;
    } else {
      ds, rest := [], s;
    }
  }

  lemma NumberRowEnds(st: State, k: Class)
    requires EndsValue(st) && (DigitClass(k) ==> st == ZE) && (k.CPoint? ==> st != ZE && st != IN)
    requires k.CLowE? || k.CE? ==> st != IN && st != FR
    ensures Table(st, k) == Table(OK, k)
  {
    hide StringRow, WordRow, NumberRow, AfterValue;
    NumberRowIs(st, k);
  }

  lemma NumberRowIs(st: State, k: Class)
    requires (DigitClass(k) ==> st == ZE) && (k.CPoint? ==> st != ZE && st != IN)
    requires k.CLowE? || k.CE? ==> st != IN && st != FR
    ensures st == ZE || st == IN || st == FR || st == E3 ==> NumberRow(st, k) == AfterValue(k)
  {
    hide AfterValue;
  }

  /** Where a number has ended, the automaton goes on as from OK. */
  lemma NumberEnds(st: State, modes: seq<Mode>, k: nat, s: seq<int>)
    requires modes != [] && EndsValue(st) && st != OK && Done(Run(Live(st, modes, k), s))
    requires s != [] ==> (IsDigit(s[0]) ==> st == ZE) && (s[0] == 0x2E ==> st != ZE && st != IN)
    requires s != [] ==> (s[0] == 0x65 || s[0] == 0x45) ==> st == ZE || st == E3
    ensures Reaches(Live(st, modes, k), s, Live(OK, modes, k), s)
  {
    hide Run, Table, ClassOf;
    FirstStepLive(Live(st, modes, k), s);
    ClassChars(s[0]);
    NumberRowEnds(st, ClassOf(s[0]).value);
    SameFirstStep(Live(st, modes, k), Live(OK, modes, k), s);
  }

  lemma ExponentEntry(k: Class)
    ensures Table(E1, k) == if k.CPlus? || k.CMinus? then Goto(E2) else if DigitClass(k) then Goto(E3) else Error
    ensures Table(E2, k) == if DigitClass(k) then Goto(E3) else Error
  {
    hide StructureRow, StringRow, WordRow;
  }

  /** The mark, the sign if there is one, and the first digit. */
  lemma ExponentStart(modes: seq<Mode>, k: nat, s: seq<int>) returns (n: nat)
    requires modes != [] && Done(Run(Live(E1, modes, k), s))
    ensures n < |s| && IsDigit(s[n]) && (n == 0 || (n == 1 && (s[0] == 0x2B || s[0] == 0x2D)))
    ensures Reaches(Live(E1, modes, k), s, Live(E3, modes, k), s[n + 1..])
  {
    hide Run, Table, ClassOf;
    FirstStepLive(Live(E1, modes, k), s);
    ClassChars(s[0]);
    ExponentEntry(ClassOf(s[0]).value);
    n := 0;
    if s[0] == 0x2B || s[0] == 0x2D {
      FirstStepLive(Live(E2, modes, k), s[1..]);
      ClassChars(s[1]);
      ExponentEntry(ClassOf(s[1]).value);
      assert s[1..][1..] == s[2..];
      n := 1;
    }
  }

  lemma ExponentSound(modes: seq<Mode>, k: nat, s: seq<int>) returns (e: Exponent, rest: seq<int>)
    requires modes != [] && s != [] && (s[0] == 0x65 || s[0] == 0x45) && Done(Run(Live(E1, modes, k), s[1..]))
    ensures ValidExponent(e) && s == ExponentText(Some(e)) + rest
    ensures Reaches(Live(E1, modes, k), s[1..], Live(OK, modes, k), rest)
  {
    hide Run, Step, ExponentText;
    var t := s[1..];
    var n := ExponentStart(modes, k, t);
    var ds, r := DigitsSound(Live(E3, modes, k), t[n + 1..]);
    NumberEnds(E3, modes, k, r);
    e, rest := Exponent(s[0], if n == 1 then Some(t[0]) else None, [t[n]] + ds), r;
    ExponentParts(s, n, ds, r);
  }

  lemma ExponentParts(s: seq<int>, n: nat, ds: seq<int>, rest: seq<int>)
    requires n <= 1 && n + 1 < |s| && s[n + 2..] == ds + rest
    ensures var e := Exponent(s[0], if n == 1 then Some(s[1]) else None, [s[n + 1]] + ds);
            s == ExponentText(Some(e)) + rest
  {
    var sign, digits := if n == 1 then [s[1]] else [], [s[n + 1]] + ds;
    assert s == [s[0]] + s[1..] && s[1..] == sign + s[n + 1..];
    assert s[n + 1..] == [s[n + 1]] + (ds + rest);
    Assoc([s[n + 1]], ds, rest);
    Assoc([s[0]], sign, digits + rest);
    Assoc([s[0]] + sign, digits, rest);
  }

  lemma PointStep(st: State, modes: seq<Mode>, k: nat, s: seq<int>)
    requires modes != [] && (st == ZE || st == IN) && s != [] && s[0] == 0x2E
    ensures Reaches(Live(st, modes, k), s, Live(FR, modes, k), s[1..])
  {
    assert Step(Live(st, modes, k), s[0]) == Live(FR, modes, k);
  }

  lemma MarkStep(st: State, modes: seq<Mode>, k: nat, s: seq<int>)
    requires modes != [] && (st == IN || st == FR) && s != [] && (s[0] == 0x65 || s[0] == 0x45)
    ensures Reaches(Live(st, modes, k), s, Live(E1, modes, k), s[1..])
  {
    assert Step(Live(st, modes, k), s[0]) == Live(E1, modes, k);
  }

  /** After the whole part and the fraction: an exponent, or the end of the number. */
  lemma TailSound(st: State, modes: seq<Mode>, k: nat, s: seq<int>) returns (exp: Option<Exponent>, rest: seq<int>)
    requires modes != [] && (st == ZE || st == IN || st == FR) && Done(Run(Live(st, modes, k), s))
    requires s != [] ==> (IsDigit(s[0]) ==> st == ZE) && (s[0] == 0x2E ==> st == FR)
    ensures s == ExponentText(exp) + rest && (exp.Some? ==> ValidExponent(exp.value) && st != ZE)
    ensures Reaches(Live(st, modes, k), s, Live(OK, modes, k), rest)
  {
    hide Run, Step;
    if s != [] && (s[0] == 0x65 || s[0] == 0x45) && st != ZE {
      MarkStep(st, modes, k, s);
      var e, r := ExponentSound(modes, k, s);
      exp, rest := Some(e), r;
    } else {
      NumberEnds(st, modes, k, s);
      exp, rest := None, s;
    }
  }

  /** After the whole part, in state ZE or IN. */
  lemma FractionSound(st: State, modes: seq<Mode>, k: nat, s: seq<int>)
    returns (frac: Option<seq<int>>, exp: Option<Exponent>, rest: seq<int>)
    requires modes != [] && (st == ZE || st == IN) && Done(Run(Live(st, modes, k), s))
    requires st == IN ==> s == [] || !IsDigit(s[0])
    ensures s == (FracText(frac) + ExponentText(exp)) + rest
    ensures frac.Some? ==> AllDigits(frac.value)
    ensures exp.Some? ==> ValidExponent(exp.value) && (st == ZE ==> frac.Some?)
    ensures Reaches(Live(st, modes, k), s, Live(OK, modes, k), rest)
  {
    hide Run, Step, ExponentText, ValidExponent, FracText;
    if s != [] && s[0] == 0x2E {
      PointStep(st, modes, k, s);
      var ds, r := DigitsSound(Live(FR, modes, k), s[1..]);
      exp, rest := TailSound(FR, modes, k, r);
      frac := Some(ds);
      FractionParts(s, frac, ExponentText(exp), rest);
    } else {
      exp, rest := TailSound(st, modes, k, s);
      frac := None;
      FractionParts(s, frac, ExponentText(exp), rest);
    }
  }

  lemma FractionParts(s: seq<int>, frac: Option<seq<int>>, exp: seq<int>, rest: seq<int>)
    requires if frac.None? then s == exp + rest else s != [] && s[0] == 0x2E && s[1..] == frac.value + (exp + rest)
    ensures s == (FracText(frac) + exp) + rest
  {
    if frac.Some? { assert s == [0x2E] + s[1..]; }
  }

  /** A number without its sign, after the first digit `d`. */
  lemma UnsignedSound(modes: seq<Mode>, k: nat, d: int, s: seq<int>)
    returns (whole: seq<int>, frac: Option<seq<int>>, exp: Option<Exponent>, rest: seq<int>)
    requires modes != [] && IsDigit(d) && Done(Run(Live(if d == 0x30 then ZE else IN, modes, k), s))
    ensures ValidNumber(whole, frac, exp)
    ensures [d] + s == (whole + (FracText(frac) + ExponentText(exp))) + rest
    ensures Reaches(Live(if d == 0x30 then ZE else IN, modes, k), s, Live(OK, modes, k), rest)
  {
    hide Run, Step, ExponentText, FracText, ValidExponent;
    if d == 0x30 {
      frac, exp, rest := FractionSound(ZE, modes, k, s);
      whole := [d];
    } else {
      var ds, r := DigitsSound(Live(IN, modes, k), s);
      frac, exp, rest := FractionSound(IN, modes, k, r);
      whole := [d] + ds;
      assert whole[0] == d;
    }
  }

  lemma NumberSound(modes: seq<Mode>, k: nat, s: seq<int>) returns (v: Value, rest: seq<int>)
    requires modes != [] && Done(Run(Live(VA, modes, k), s))
    requires s != [] && (s[0] == 0x2D || IsDigit(s[0]))
    ensures v.Num? && ValidValue(v) && s == ValueText(v) + rest
    ensures Reaches(Live(VA, modes, k), s, Live(OK, modes, k), rest)
  {
    hide Run, Step, ExponentText, FracText, ValidNumber;
    StartStep(modes, k, s);
    var minus := s[0] == 0x2D;
    var t := if minus then s[1..] else s;
    if minus {
      MinusStep(modes, k, t);
    }
    var whole, frac, exp, r := UnsignedSound(modes, k, t[0], t[1..]);
    v, rest := Num(minus, whole, frac, exp), r;
    NumberParts(s, minus, whole, FracText(frac) + ExponentText(exp), r);
  }

  lemma NumberParts(s: seq<int>, minus: bool, whole: seq<int>, tail: seq<int>, rest: seq<int>)
    requires s != [] && (minus ==> s[0] == 0x2D && |s| > 1)
    requires var t := if minus then s[1..] else s; [t[0]] + t[1..] == (whole + tail) + rest
    ensures s == ((if minus then [0x2D] else []) + (whole + tail)) + rest
  {
    var t := if minus then s[1..] else s;
    assert t == [t[0]] + t[1..];
    assert s == (if minus then [0x2D] else []) + t;
  }

  /** The rest of a word, letter by letter. */
  lemma {:induction false} WordSound(st: State, modes: seq<Mode>, k: nat, s: seq<int>, word: seq<int>) returns (rest: seq<int>)
    requires modes != [] && Done(Run(Live(st, modes, k), s)) && Spells(st, word)
    ensures s == word + rest && Reaches(Live(st, modes, k), s, Live(OK, modes, k), rest)
    decreases |word|
  {
    hide Run, Step, WordNext;
    if word == [] {
      rest := s;
    } else {
      WordStep(st, modes, k, s);
      rest := WordSound(WordNext(st).1, modes, k, s[1..], word[1..]);
    }
  }

  /** The word leads from the state to OK. */
  predicate Spells(st: State, word: seq<int>)
    decreases |word|
  {
    if word == [] then st == OK
    else WordNext(st).0 != 0 && WordNext(st).0 == word[0] && Spells(WordNext(st).1, word[1..])
  }

  lemma SpellOne(st: State, c: int, word: seq<int>)
    requires c != 0 && WordNext(st).0 == c && Spells(WordNext(st).1, word)
    ensures Spells(st, [c] + word)
  {
    assert ([c] + word)[1..] == word;
  }

  lemma SpellNothing()
    ensures Spells(OK, [])
  {
  }

  lemma SpellTrue()
    ensures Spells(T1, LiteralText(True)[1..])
  {
    hide Spells;
    SpellNothing();
    SpellOne(T3, 0x65, []);
    SpellOne(T2, 0x75, [0x65] + []);
    SpellOne(T1, 0x72, [0x75] + ([0x65] + []));
    assert LiteralText(True)[1..] == [0x72] + ([0x75] + ([0x65] + []));
  }

  lemma SpellFalse()
    ensures Spells(F1, LiteralText(False)[1..])
  {
    hide Spells;
    SpellNothing();
    SpellOne(F4, 0x65, []);
    SpellOne(F3, 0x73, [0x65] + []);
    SpellOne(F2, 0x6C, [0x73] + ([0x65] + []));
    SpellOne(F1, 0x61, [0x6C] + ([0x73] + ([0x65] + [])));
    assert LiteralText(False)[1..] == [0x61] + ([0x6C] + ([0x73] + ([0x65] + [])));
  }

  lemma SpellNull()
    ensures Spells(N1, LiteralText(Null)[1..])
  {
    hide Spells;
    SpellNothing();
    SpellOne(N3, 0x6C, []);
    SpellOne(N2, 0x6C, [0x6C] + []);
    SpellOne(N1, 0x75, [0x6C] + ([0x6C] + []));
    assert LiteralText(Null)[1..] == [0x75] + ([0x6C] + ([0x6C] + []));
  }

  lemma LiteralSound(modes: seq<Mode>, k: nat, s: seq<int>) returns (l: Literal, rest: seq<int>)
    requires modes != [] && Done(Run(Live(VA, modes, k), s))
    requires s != [] && (s[0] == 0x74 || s[0] == 0x66 || s[0] == 0x6E)
    ensures s == LiteralText(l) + rest
    ensures Reaches(Live(VA, modes, k), s, Live(OK, modes, k), rest)
  {
    hide Run, Step, Spells;
    SpellTrue();
    SpellFalse();
    SpellNull();
    StartStep(modes, k, s);
    l := if s[0] == 0x74 then True else if s[0] == 0x66 then False else Null;
    rest := WordSound(if l == True then T1 else if l == False then F1 else N1, modes, k, s[1..], LiteralText(l)[1..]);
    LiteralParts(l, s, rest);
  }

  lemma LiteralParts(l: Literal, s: seq<int>, rest: seq<int>)
    requires s != [] && s[0] == LiteralText(l)[0] && s[1..] == LiteralText(l)[1..] + rest
    ensures s == LiteralText(l) + rest
  {
    var text := LiteralText(l);
    assert text == [text[0]] + text[1..] && s == [s[0]] + s[1..];
  }

  lemma VaEntry(k: Class)
    ensures Table(VA, k) == if BlankClass(k) then Goto(VA) else BeforeValue(k)
    ensures Table(AR, k) == if BlankClass(k) then Goto(AR) else if k.CRSqrb? then CloseArr else BeforeValue(k)
  {
    hide StringRow, NumberRow, WordRow;
  }

  lemma ObEntry(k: Class)
    ensures Table(OB, k) == if BlankClass(k) then Goto(OB) else if k.CRCurb? then CloseEmptyObj else Only(k, CQuote, ST)
    ensures Table(KE, k) == if BlankClass(k) then Goto(KE) else Only(k, CQuote, ST)
  {
    hide StringRow, NumberRow, WordRow;
  }

  /** How a value can start. */
  lemma ValueStart(modes: seq<Mode>, k: nat, s: seq<int>)
    requires modes != [] && Done(Run(Live(VA, modes, k), s)) && (s == [] || !IsWs(s[0]))
    ensures s != []
    ensures s[0] == 0x22 || s[0] == 0x2D || IsDigit(s[0]) || s[0] == 0x5B || s[0] == 0x7B
            || s[0] == 0x74 || s[0] == 0x66 || s[0] == 0x6E
    ensures s[0] == 0x22 ==> Reaches(Live(VA, modes, k), s, Live(ST, modes, k), s[1..])
    ensures s[0] == 0x5B ==> |modes| < STACK_SIZE && Reaches(Live(VA, modes, k), s, Live(AR, modes + [ModeArray], k), s[1..])
    ensures s[0] == 0x7B ==> |modes| < STACK_SIZE && Reaches(Live(VA, modes, k), s, Live(OB, modes + [ModeKey], k), s[1..])
  {
    hide Run, Table, ClassOf;
    FirstStepLive(Live(VA, modes, k), s);
    ClassChars(s[0]);
    VaEntry(ClassOf(s[0]).value);
  }

  /** Just inside an array: its end, or as from VA. */
  lemma InArray(modes: seq<Mode>, k: nat, s: seq<int>)
    requires modes != [] && Done(Run(Live(AR, modes + [ModeArray], k), s)) && (s == [] || !IsWs(s[0]))
    ensures s != []
    ensures if s[0] == 0x5D then Reaches(Live(AR, modes + [ModeArray], k), s, Live(OK, modes, k), s[1..])
            else Reaches(Live(AR, modes + [ModeArray], k), s, Live(VA, modes + [ModeArray], k), s)
  {
    hide Run, Table, ClassOf;
    var inner := modes + [ModeArray];
    assert Popped(inner) == modes;
    FirstStepLive(Live(AR, inner, k), s);
    ClassChars(s[0]);
    VaEntry(ClassOf(s[0]).value);
    if s[0] != 0x5D { SameFirstStep(Live(AR, inner, k), Live(VA, inner, k), s); }
  }

  /** Just inside an object: its end, or as from KE. */
  lemma InObject(modes: seq<Mode>, k: nat, s: seq<int>)
    requires modes != [] && Done(Run(Live(OB, modes + [ModeKey], k), s)) && (s == [] || !IsWs(s[0]))
    ensures s != []
    ensures if s[0] == 0x7D then Reaches(Live(OB, modes + [ModeKey], k), s, Live(OK, modes, k), s[1..])
            else Reaches(Live(OB, modes + [ModeKey], k), s, Live(KE, modes + [ModeKey], k), s)
  {
    hide Run, Table, ClassOf;
    var inner := modes + [ModeKey];
    assert Popped(inner) == modes;
    FirstStepLive(Live(OB, inner, k), s);
    ClassChars(s[0]);
    ObEntry(ClassOf(s[0]).value);
    if s[0] != 0x7D { SameFirstStep(Live(OB, inner, k), Live(KE, inner, k), s); }
  }

  /** A run that goes on from VA at a character that is not white space reads one value. */
  lemma {:induction false} ValueSound(modes: seq<Mode>, k: nat, s: seq<int>) returns (v: Value, rest: seq<int>)
    requires InValue(modes) && Done(Run(Live(VA, modes, k), s)) && (s == [] || !IsWs(s[0]))
    ensures ValidValue(v) && s == ValueText(v) + rest && |rest| < |s|
    ensures Depth(v) + |modes| <= STACK_SIZE
    ensures Reaches(Live(VA, modes, k), s, Live(OK, modes, k + Commas(v)), rest)
    decreases |s|, 1
  {
    hide Run, Step;
    ValueStart(modes, k, s);
    if s[0] == 0x22 {
      var body, r := StringSound(modes, k, s[1..]);
      v, rest := Str(body), r;
    } else if s[0] == 0x2D || IsDigit(s[0]) {
      v, rest := NumberSound(modes, k, s);
    } else if s[0] == 0x5B {
      v, rest := ArraySound(modes, k, s);
    } else if s[0] == 0x7B {
      v, rest := ObjectSound(modes, k, s);
    } else {
      var l, r := LiteralSound(modes, k, s);
      v, rest := Lit(l), r;
    }
  }

  /** From any state that opens an array at `[`. */
  lemma {:induction false} ArraySound(modes: seq<Mode>, k: nat, s: seq<int>) returns (v: Value, rest: seq<int>)
    requires 1 <= |modes| < STACK_SIZE && s != [] && s[0] == 0x5B
    requires Done(Run(Live(AR, modes + [ModeArray], k), s[1..]))
    ensures (v.Arr? || v.EmptyArr?) && ValidValue(v) && s == ValueText(v) + rest && |rest| < |s|
    ensures Depth(v) + |modes| <= STACK_SIZE
    ensures Reaches(Live(AR, modes + [ModeArray], k), s[1..], Live(OK, modes, k + Commas(v)), rest)
    decreases |s|, 0
  {
    hide Run, Step, ElemsText, ValidElems;
    var ws, r := SkipWs(Live(AR, modes + [ModeArray], k), s[1..]);
    InArray(modes, k, r);
    if r[0] == 0x5D {
      v, rest := EmptyArr(ws), r[1..];
      assert r == [0x5D] + rest;
      Assoc(ws, [0x5D], rest);
      Bracketed(s, 0x5B, ws, 0x5D, rest);
    } else {
      var es, r' := ElemsSound(modes, k, ws, r);
      v, rest := Arr(es), r';
      Bracketed(s, 0x5B, ElemsText(es), 0x5D, rest);
    }
  }

  lemma Bracketed(s: seq<int>, open: int, inner: seq<int>, close: int, rest: seq<int>)
    requires s != [] && s[0] == open && s[1..] == inner + [close] + rest
    ensures s == ([open] + inner + [close]) + rest
  {
    assert s == [open] + s[1..];
    Assoc([open], inner + [close], rest);
    Assoc([open], inner, [close]);
  }

  lemma OkEntry(k: Class)
    ensures Table(OK, k) == if BlankClass(k) then Goto(OK) else if k.CRCurb? then CloseObj
                            else if k.CRSqrb? then CloseArr else if k.CComma? then Comma else Error
  {
    hide StringRow, NumberRow, WordRow;
  }

  /** After an element: the end of the array or a comma. */
  lemma AfterElem(modes: seq<Mode>, k: nat, s: seq<int>)
    requires (s == [] || !IsWs(s[0])) && modes != [] && Done(Run(Live(OK, modes + [ModeArray], k), s))
    ensures s != [] && (s[0] == 0x5D || s[0] == 0x2C)
    ensures Reaches(Live(OK, modes + [ModeArray], k), s,
                    if s[0] == 0x5D then Live(OK, modes, k) else Live(VA, modes + [ModeArray], k + 1), s[1..])
  {
    hide Run, Table, ClassOf;
    var inner := modes + [ModeArray];
    assert Popped(inner) == modes;
    FirstStepLive(Live(OK, inner, k), s);
    ClassChars(s[0]);
    OkEntry(ClassOf(s[0]).value);
  }

  /** After a member: the end of the object or a comma. */
  lemma AfterMember(modes: seq<Mode>, k: nat, s: seq<int>)
    requires (s == [] || !IsWs(s[0])) && modes != [] && Done(Run(Live(OK, modes + [ModeObject], k), s))
    ensures s != [] && (s[0] == 0x7D || s[0] == 0x2C)
    ensures Reaches(Live(OK, modes + [ModeObject], k), s,
                    if s[0] == 0x7D then Live(OK, modes, k) else Live(KE, modes + [ModeKey], k + 1), s[1..])
  {
    hide Run, Table, ClassOf;
    var inner := modes + [ModeObject];
    assert Popped(inner) == modes;
    FirstStepLive(Live(OK, inner, k), s);
    ClassChars(s[0]);
    OkEntry(ClassOf(s[0]).value);
  }

  lemma {:induction false} ElemsSound(modes: seq<Mode>, k: nat, pre: seq<int>, s: seq<int>) returns (es: Elems, rest: seq<int>)
    requires 1 <= |modes| < STACK_SIZE && AllWs(pre) && (s == [] || !IsWs(s[0]))
    requires Done(Run(Live(VA, modes + [ModeArray], k), s))
    ensures ValidElems(es) && pre + s == ElemsText(es) + [0x5D] + rest && |rest| < |s|
    ensures ElemsDepth(es) + |modes| < STACK_SIZE
    ensures Reaches(Live(VA, modes + [ModeArray], k), s, Live(OK, modes, k + ElemsCommas(es)), rest)
    decreases |s|, 2
  {
    hide Run, Step;
    var inner := modes + [ModeArray];
    var v, r := ValueSound(inner, k, s);
    var k' := k + Commas(v);
    var post, r1 := SkipWs(Live(OK, inner, k'), r);
    AfterElem(modes, k', r1);
    if r1[0] == 0x5D {
      es, rest := LastElem(pre, v, post), r1[1..];
      LastElemText(pre, v, post, s, r1);
    } else {
      var pre', r2 := SkipWs(Live(VA, inner, k' + 1), r1[1..]);
      var es', r3 := ElemsSound(modes, k' + 1, pre', r2);
      es, rest := MoreElems(pre, v, post, es'), r3;
      MoreElemsText(pre, v, post, es', s, r1, r3);
    }
  }

  lemma LastElemText(pre: seq<int>, v: Value, post: seq<int>, s: seq<int>, r: seq<int>)
    requires s == ValueText(v) + (post + r) && r != [] && r[0] == 0x5D
    ensures pre + s == ElemsText(LastElem(pre, v, post)) + [0x5D] + r[1..]
  {
    hide ValueText;
    assert r == [0x5D] + r[1..];
  }

  lemma MoreElemsText(pre: seq<int>, v: Value, post: seq<int>, es: Elems, s: seq<int>, r: seq<int>, rest: seq<int>)
    requires s == ValueText(v) + (post + r) && r != [] && r[0] == 0x2C && r[1..] == ElemsText(es) + [0x5D] + rest
    ensures pre + s == ElemsText(MoreElems(pre, v, post, es)) + [0x5D] + rest
  {
    hide ValueText;
    assert r == [0x2C] + r[1..];
    assert ElemsText(MoreElems(pre, v, post, es)) == pre + ValueText(v) + post + ([0x2C] + ElemsText(es));
  }

  lemma {:induction false} ObjectSound(modes: seq<Mode>, k: nat, s: seq<int>) returns (v: Value, rest: seq<int>)
    requires 1 <= |modes| < STACK_SIZE && s != [] && s[0] == 0x7B
    requires Done(Run(Live(OB, modes + [ModeKey], k), s[1..]))
    ensures (v.Obj? || v.EmptyObj?) && ValidValue(v) && s == ValueText(v) + rest && |rest| < |s|
    ensures Depth(v) + |modes| <= STACK_SIZE
    ensures Reaches(Live(OB, modes + [ModeKey], k), s[1..], Live(OK, modes, k + Commas(v)), rest)
    decreases |s|, 0
  {
    hide Run, Step, MembersText, ValidMembers;
    var ws, r := SkipWs(Live(OB, modes + [ModeKey], k), s[1..]);
    InObject(modes, k, r);
    if r[0] == 0x7D {
      v, rest := EmptyObj(ws), r[1..];
      assert r == [0x7D] + rest;
      Assoc(ws, [0x7D], rest);
      Bracketed(s, 0x7B, ws, 0x7D, rest);
    } else {
      var ms, r' := MembersSound(modes, k, ws, r);
      v, rest := Obj(ms), r';
      Bracketed(s, 0x7B, MembersText(ms), 0x7D, rest);
    }
  }

  /** `"key" ws : ws`, from KE up to the value. */
  lemma KeySound(modes: seq<Mode>, k: nat, s: seq<int>)
    returns (key: seq<int>, mid: seq<int>, pre2: seq<int>, rest: seq<int>)
    requires 1 <= |modes| < STACK_SIZE && (s == [] || !IsWs(s[0]))
    requires Done(Run(Live(KE, modes + [ModeKey], k), s))
    ensures IsBody(key) && AllWs(mid) && AllWs(pre2) && (rest == [] || !IsWs(rest[0])) && |rest| < |s|
    ensures s == Quoted(key) + mid + [0x3A] + pre2 + rest
    ensures Reaches(Live(KE, modes + [ModeKey], k), s, Live(VA, modes + [ModeObject], k), rest)
  {
    hide Run;
    var inner := modes + [ModeKey];
    KeyStep(inner, k, s);
    var body, r := StringSound(inner, k, s[1..]);
    key := body;
    var r1;
    mid, r1 := SkipWs(Live(CO, inner, k), r);
    ColonStep(modes, k, r1);
    pre2, rest := SkipWs(Live(VA, modes + [ModeObject], k), r1[1..]);
    assert r1 == [0x3A] + (pre2 + rest);
  }

  lemma KeyStep(inner: seq<Mode>, k: nat, s: seq<int>)
    requires inner != [] && (s == [] || !IsWs(s[0])) && Done(Run(Live(KE, inner, k), s))
    ensures s != [] && s[0] == 0x22 && Reaches(Live(KE, inner, k), s, Live(ST, inner, k), s[1..])
  {
    hide Run;
    FirstStepLive(Live(KE, inner, k), s);
  }

  lemma ColonStep(modes: seq<Mode>, k: nat, s: seq<int>)
    requires (s == [] || !IsWs(s[0])) && Done(Run(Live(CO, modes + [ModeKey], k), s))
    ensures s != [] && s[0] == 0x3A
    ensures Reaches(Live(CO, modes + [ModeKey], k), s, Live(VA, modes + [ModeObject], k), s[1..])
  {
    hide Run;
    assert Popped(modes + [ModeKey]) == modes;
    FirstStepLive(Live(CO, modes + [ModeKey], k), s);
  }

  lemma {:induction false} MembersSound(modes: seq<Mode>, k: nat, pre: seq<int>, s: seq<int>) returns (ms: Members, rest: seq<int>)
    requires 1 <= |modes| < STACK_SIZE && AllWs(pre) && (s == [] || !IsWs(s[0]))
    requires Done(Run(Live(KE, modes + [ModeKey], k), s))
    ensures ValidMembers(ms) && pre + s == MembersText(ms) + [0x7D] + rest && |rest| < |s|
    ensures MembersDepth(ms) + |modes| < STACK_SIZE
    ensures Reaches(Live(KE, modes + [ModeKey], k), s, Live(OK, modes, k + MembersCommas(ms)), rest)
    decreases |s|, 2
  {
    hide Run, Step, ValueText, MembersText, ValidValue, IsBody;
    var inner := modes + [ModeObject];
    var key, mid, pre2, r0 := KeySound(modes, k, s);
    var v, r := ValueSound(inner, k, r0);
    var k' := k + Commas(v);
    var post, r1 := SkipWs(Live(OK, inner, k'), r);
    AfterMember(modes, k', r1);
    if r1[0] == 0x7D {
      ms, rest := LastMember(pre, key, mid, pre2, v, post), r1[1..];
      LastMemberText(pre, key, mid, pre2, v, post, s, r1);
    } else {
      var pre', r2 := SkipWs(Live(KE, modes + [ModeKey], k' + 1), r1[1..]);
      var ms', r3 := MembersSound(modes, k' + 1, pre', r2);
      ms, rest := MoreMembers(pre, key, mid, pre2, v, post, ms'), r3;
      MoreMembersText(pre, key, mid, pre2, v, post, ms', s, r1, r3);
    }
  }

  lemma LastMemberText(pre: seq<int>, key: seq<int>, mid: seq<int>, pre2: seq<int>, v: Value, post: seq<int>, s: seq<int>, r: seq<int>)
    requires s == Quoted(key) + mid + [0x3A] + pre2 + (ValueText(v) + (post + r)) && r != [] && r[0] == 0x7D
    ensures pre + s == MembersText(LastMember(pre, key, mid, pre2, v, post)) + [0x7D] + r[1..]
  {
    hide ValueText, Quoted;
    assert r == [0x7D] + r[1..];
  }

  lemma MoreMembersText(pre: seq<int>, key: seq<int>, mid: seq<int>, pre2: seq<int>, v: Value, post: seq<int>, ms: Members,
                        s: seq<int>, r: seq<int>, rest: seq<int>)
    requires s == Quoted(key) + mid + [0x3A] + pre2 + (ValueText(v) + (post + r))
    requires r != [] && r[0] == 0x2C && r[1..] == MembersText(ms) + [0x7D] + rest
    ensures pre + s == MembersText(MoreMembers(pre, key, mid, pre2, v, post, ms)) + [0x7D] + rest
  {
    hide ValueText, Quoted;
    assert r == [0x2C] + r[1..];
    var head := pre + Quoted(key) + mid + [0x3A] + pre2 + ValueText(v) + post;
    assert pre + s == head + r;
    assert MembersText(MoreMembers(pre, key, mid, pre2, v, post, ms)) == head + ([0x2C] + MembersText(ms));
  }

  /** After the outermost array or object only white space is left. */
  lemma TailIsWs(k: nat, s: seq<int>)
    requires Done(Run(Live(OK, [ModeDone], k), s))
    ensures AllWs(s) && Run(Live(OK, [ModeDone], k), s).commas == k
  {
    hide Run;
    var post, rest := SkipWs(Live(OK, [ModeDone], k), s);
    if rest != [] {
      FirstStepDies(Live(OK, [ModeDone], k), rest);
    }
    RunNothing(Live(OK, [ModeDone], k));
  }

  lemma RootSound(s: seq<int>) returns (v: Value, rest: seq<int>)
    requires Done(Run(START, s)) && (s == [] || !IsWs(s[0]))
    ensures s == ValueText(v) + rest && ValidDoc(Doc([], v, [])) && Depth(v) < STACK_SIZE
    ensures Reaches(START, s, Live(OK, [ModeDone], Commas(v)), rest)
  {
    hide Run;
    FirstStepLive(START, s);
    if s[0] == 0x5B {
      v, rest := ArraySound([ModeDone], 0, s);
    } else {
      v, rest := ObjectSound([ModeDone], 0, s);
    }
  }

  /** An accepted text is a document of the grammar, nested at most 255 deep, with
      as many separating commas as the checker counted. */
  lemma AcceptedIsJson(s: seq<int>)
    requires Accepts(s)
    ensures IsJson(s, STACK_SIZE - 1, Run(START, s).commas)
  {
    hide Run, Step, ValueText, ValidValue, Depth, Commas;
    var pre, r := SkipWs(START, s);
    var v, post := RootSound(r);
    TailIsWs(Commas(v), post);
    assert ValidDoc(Doc(pre, v, post)) && DocText(Doc(pre, v, post)) == s;
  }
}
