/** Every document of the grammar is accepted; with JsonSoundness this makes the
    automaton and the grammar agree. */
module JsonCompleteness {
  import opened Basics
  import opened JsonGrammar
  import opened JsonMachine
  import opened JsonSoundness

  lemma {:induction false} RunWs(cfg: Config, ws: seq<int>)
    requires cfg.Live? && cfg.modes != [] && SkipsWs(cfg.state) && AllWs(ws)
    ensures Run(cfg, ws) == cfg
    decreases |ws|
  {
    hide Step;
    if ws != [] {
      BlankStep(cfg, ws[0]);
      RunWs(cfg, ws[1..]);
    }
  }

  lemma {:induction false} RunDigits(cfg: Config, ds: seq<int>)
    requires cfg.Live? && cfg.modes != [] && (cfg.state == IN || cfg.state == FR || cfg.state == E3) && AllDigits(ds)
    ensures Run(cfg, ds) == cfg
    decreases |ds|
  {
    hide Step;
    if ds != [] {
      DigitStep(cfg, ds[0]);
      RunDigits(cfg, ds[1..]);
    }
  }

  lemma RunOne(cfg: Config, c: int)
    ensures Run(cfg, [c]) == Step(cfg, c)
  {
    RunNothing(Step(cfg, c));
  }

  /** `Run` over a text in two parts, by what each part does. */
  lemma Chain(a: Config, s: seq<int>, b: Config, t: seq<int>, c: Config)
    requires Run(a, s) == b && Run(b, t) == c
    ensures Run(a, s + t) == c
  {
    RunConcat(a, s, t);
  }

  lemma EscapeBegins(cfg: Config, c: int)
    requires cfg.Live? && cfg.modes != [] && cfg.state == ST && (IsEscape(c) || c == 0x75)
    ensures Run(cfg, [0x5C] + [c]) == if c == 0x75 then cfg.(state := U1) else cfg
  {
    hide Table, ClassOf, Run;
    var es, next := cfg.(state := ES), if c == 0x75 then cfg.(state := U1) else cfg;
    ClassChars(0x5C);
    ClassChars(c);
    EscapeEntry(ClassOf(c).value);
    RunOne(cfg, 0x5C);
    RunOne(es, c);
    Chain(cfg, [0x5C], es, [c], next);
  }

  lemma RunEscape(cfg: Config, s: seq<int>)
    requires cfg.Live? && cfg.modes != [] && cfg.state == ST
    requires |s| >= 2 && s[0] == 0x5C && IsEscape(s[1])
    ensures Run(cfg, s[..2]) == cfg
  {
    hide Run;
    EscapeBegins(cfg, s[1]);
    assert s[..2] == [0x5C] + [s[1]];
  }

  lemma HexKeepsOn(cfg: Config, c: int)
    requires cfg.Live? && cfg.modes != [] && (cfg.state == U1 || cfg.state == U2 || cfg.state == U3 || cfg.state == U4) && IsHex(c)
    ensures Run(cfg, [c]) == cfg.(state := HexNext(cfg.state))
  {
    hide Table, ClassOf, Run, HexNext, IsHex, HexClass;
    HexChar(c);
    HexEntry(cfg.state, ClassOf(c).value);
    RunOne(cfg, c);
  }

  lemma FourHex(cfg: Config, a: int, b: int, c: int, d: int)
    requires cfg.Live? && cfg.modes != [] && cfg.state == U1 && IsHex(a) && IsHex(b) && IsHex(c) && IsHex(d)
    ensures Run(cfg, [a] + [b] + [c] + [d]) == cfg.(state := ST)
  {
    hide Run, IsHex;
    var u2, u3, u4 := cfg.(state := U2), cfg.(state := U3), cfg.(state := U4);
    HexKeepsOn(cfg, a);
    HexKeepsOn(u2, b);
    HexKeepsOn(u3, c);
    HexKeepsOn(u4, d);
    Chain(cfg, [a], u2, [b], u3);
    Chain(cfg, [a] + [b], u3, [c], u4);
    Chain(cfg, [a] + [b] + [c], u4, [d], cfg.(state := ST));
  }

  lemma RunUnicode(cfg: Config, s: seq<int>)
    requires cfg.Live? && cfg.modes != [] && cfg.state == ST
    requires |s| >= 6 && s[0] == 0x5C && s[1] == 0x75 && IsHex(s[2]) && IsHex(s[3]) && IsHex(s[4]) && IsHex(s[5])
    ensures Run(cfg, s[..6]) == cfg
  {
    hide Run, IsHex;
    var u1 := cfg.(state := U1);
    EscapeBegins(cfg, 0x75);
    FourHex(u1, s[2], s[3], s[4], s[5]);
    Chain(cfg, [0x5C] + [0x75], u1, [s[2]] + [s[3]] + [s[4]] + [s[5]], cfg);
    assert s[..6] == [0x5C] + [0x75] + ([s[2]] + [s[3]] + [s[4]] + [s[5]]);
  }

  lemma PlainEntry(c: int)
    requires IsPlain(c)
    ensures ClassOf(c).Some? && Table(ST, ClassOf(c).value) == Goto(ST)
  {
    hide StructureRow, NumberRow, WordRow;
  }

  lemma RunPlain(cfg: Config, s: seq<int>)
    requires cfg.Live? && cfg.modes != [] && cfg.state == ST && s != [] && IsPlain(s[0])
    ensures Run(cfg, s[..1]) == cfg
  {
    hide Run, ClassOf, Table;
    PlainEntry(s[0]);
    RunOne(cfg, s[0]);
    assert s[..1] == [s[0]];
  }

  lemma {:induction false} RunBody(cfg: Config, body: seq<int>)
    requires cfg.Live? && cfg.modes != [] && cfg.state == ST && IsBody(body)
    ensures Run(cfg, body) == cfg
    decreases |body|
  {
    hide Run, Step;
    if body == [] {
      RunNothing(cfg);
    } else {
      var n := if body[0] != 0x5C then 1 else if body[1] == 0x75 then 6 else 2;
      if n == 1 { RunPlain(cfg, body); } else if n == 6 { RunUnicode(cfg, body); } else { RunEscape(cfg, body); }
      RunBody(cfg, body[n..]);
      Chain(cfg, body[..n], cfg, body[n..], cfg);
      assert body == body[..n] + body[n..];
    }
  }

  lemma RunQuoted(cfg: Config, body: seq<int>)
    requires cfg.Live? && cfg.modes != [] && cfg.state in {VA, AR, OB, KE} && Last(cfg.modes) != ModeDone && IsBody(body)
    ensures Run(cfg, Quoted(body)) == cfg.(state := if Last(cfg.modes) == ModeKey then CO else OK)
  {
    var inside := cfg.(state := ST);
    var after := cfg.(state := if Last(cfg.modes) == ModeKey then CO else OK);
    assert Step(cfg, 0x22) == inside;
    assert Step(inside, 0x22) == after;
    hide Step;
    RunOne(cfg, 0x22);
    RunOne(inside, 0x22);
    hide Run;
    RunBody(inside, body);
    Chain(cfg, [0x22], inside, body, inside);
    Chain(cfg, [0x22] + body, inside, [0x22], after);
  }

  lemma MarkAndSign(cfg: Config, mark: int, sign: Option<int>) returns (next: Config)
    requires cfg.Live? && cfg.modes != [] && (cfg.state == IN || cfg.state == FR) && (mark == 0x65 || mark == 0x45)
    requires sign.Some? ==> sign.value == 0x2B || sign.value == 0x2D
    ensures next == cfg.(state := if sign.Some? then E2 else E1)
    ensures Run(cfg, [mark] + (if sign.Some? then [sign.value] else [])) == next
  {
    var c1, c2 := cfg.(state := E1), cfg.(state := E2);
    assert Step(cfg, mark) == c1;
    assert sign.Some? ==> Step(c1, sign.value) == c2;
    hide Step;
    RunOne(cfg, mark);
    if sign.Some? {
      RunOne(c1, sign.value);
      Chain(cfg, [mark], c1, [sign.value], c2);
    }
    next := if sign.Some? then c2 else c1;
    assert [mark] + [] == [mark];
  }

  lemma ExponentDigits(cfg: Config, ds: seq<int>)
    requires cfg.Live? && cfg.modes != [] && (cfg.state == E1 || cfg.state == E2) && ds != [] && AllDigits(ds)
    ensures Run(cfg, ds) == cfg.(state := E3)
  {
    var c3 := cfg.(state := E3);
    assert Step(cfg, ds[0]) == c3;
    hide Step;
    RunOne(cfg, ds[0]);
    RunDigits(c3, ds[1..]);
    hide Run;
    Chain(cfg, [ds[0]], c3, ds[1..], c3);
    assert ds == [ds[0]] + ds[1..];
  }

  lemma RunExponent(cfg: Config, e: Option<Exponent>) returns (st: State)
    requires cfg.Live? && cfg.modes != [] && cfg.state in {ZE, IN, FR}
    requires e.Some? ==> ValidExponent(e.value) && cfg.state != ZE
    ensures EndsValue(st) && Run(cfg, ExponentText(e)) == cfg.(state := st)
  {
    hide Run, Step;
    if e.None? {
      RunNothing(cfg);
      return cfg.state;
    }
    var next := MarkAndSign(cfg, e.value.mark, e.value.sign);
    ExponentDigits(next, e.value.digits);
    Chain(cfg, [e.value.mark] + (if e.value.sign.Some? then [e.value.sign.value] else []), next, e.value.digits, cfg.(state := E3));
    st := E3;
  }

  lemma RunWhole(cfg: Config, whole: seq<int>)
    requires cfg.Live? && cfg.modes != [] && (cfg.state == VA || cfg.state == MI) && IsWhole(whole)
    ensures Run(cfg, whole) == cfg.(state := if whole[0] == 0x30 then ZE else IN)
  {
    var st := if whole[0] == 0x30 then ZE else IN;
    assert Step(cfg, whole[0]) == cfg.(state := st);
    hide Step;
    RunOne(cfg, whole[0]);
    if st == IN {
      RunDigits(cfg.(state := IN), whole[1..]);
    } else {
      RunNothing(cfg.(state := ZE));
      assert whole[1..] == [];
    }
    hide Run;
    Chain(cfg, [whole[0]], cfg.(state := st), whole[1..], cfg.(state := st));
    assert whole == [whole[0]] + whole[1..];
  }

  lemma RunFraction(cfg: Config, frac: Option<seq<int>>)
    requires cfg.Live? && cfg.modes != [] && (cfg.state == ZE || cfg.state == IN)
    requires frac.Some? ==> AllDigits(frac.value)
    ensures Run(cfg, FracText(frac)) == if frac.Some? then cfg.(state := FR) else cfg
  {
    if frac.None? {
      RunNothing(cfg);
    } else {
      assert Step(cfg, 0x2E) == cfg.(state := FR);
      hide Step;
      RunOne(cfg, 0x2E);
      RunDigits(cfg.(state := FR), frac.value);
      hide Run;
      Chain(cfg, [0x2E], cfg.(state := FR), frac.value, cfg.(state := FR));
    }
  }

  lemma RunNumber(cfg: Config, v: Value) returns (st: State)
    requires cfg.Live? && cfg.modes != [] && cfg.state == VA && v.Num? && ValidValue(v)
    ensures EndsValue(st) && Run(cfg, ValueText(v)) == cfg.(state := st)
  {
    assert Step(cfg, 0x2D) == cfg.(state := MI);
    hide Step;
    var sign := if v.minus then [0x2D] else [];
    var c1 := if v.minus then cfg.(state := MI) else cfg;
    if v.minus { RunOne(cfg, 0x2D); } else { RunNothing(cfg); }
    hide Run, ExponentText, FracText, ValidExponent;
    var c2 := cfg.(state := if v.whole[0] == 0x30 then ZE else IN);
    RunWhole(c1, v.whole);
    RunFraction(c2, v.frac);
    var c3 := if v.frac.Some? then cfg.(state := FR) else c2;
    st := RunExponent(c3, v.exp);
    Chain(c2, FracText(v.frac), c3, ExponentText(v.exp), cfg.(state := st));
    Chain(c1, v.whole, c2, FracText(v.frac) + ExponentText(v.exp), cfg.(state := st));
    Chain(cfg, sign, c1, v.whole + (FracText(v.frac) + ExponentText(v.exp)), cfg.(state := st));
  }

  /** Over the letters of a word the automaton gets to OK. */
  lemma {:induction false} RunWord(cfg: Config, word: seq<int>)
    requires cfg.Live? && cfg.modes != [] && Spells(cfg.state, word)
    ensures Run(cfg, word) == cfg.(state := OK)
    decreases |word|
  {
    hide Table, ClassOf, WordNext, WordClass;
    if word != [] {
      var next := cfg.(state := WordNext(cfg.state).1);
      WordChar(cfg.state, word[0]);
      WordEntry(cfg.state, WordClass(cfg.state));
      assert Step(cfg, word[0]) == next;
      RunWord(next, word[1..]);
    }
  }

  lemma LiteralStart(cfg: Config, l: Literal)
    requires cfg.Live? && cfg.modes != [] && cfg.state == VA
    ensures Step(cfg, LiteralText(l)[0]) == cfg.(state := match l case True => T1 case False => F1 case Null => N1)
  {
  }

  lemma RunLiteral(cfg: Config, l: Literal)
    requires cfg.Live? && cfg.modes != [] && cfg.state == VA
    ensures Run(cfg, LiteralText(l)) == cfg.(state := OK)
  {
    hide Step, Run, Spells;
    var text := LiteralText(l);
    var begun := cfg.(state := match l case True => T1 case False => F1 case Null => N1);
    SpellTrue();
    SpellFalse();
    SpellNull();
    LiteralStart(cfg, l);
    RunOne(cfg, text[0]);
    RunWord(begun, text[1..]);
    Chain(cfg, [text[0]], begun, text[1..], cfg.(state := OK));
    assert text == [text[0]] + text[1..];
  }

  /** What may follow a value: white space, a comma or a closing bracket. */
  predicate Follows(c: int) { IsWs(c) || c == 0x2C || c == 0x5D || c == 0x7D }

  lemma EndsLikeOk(st: State, modes: seq<Mode>, k: nat, t: seq<int>)
    requires EndsValue(st) && t != [] && Follows(t[0])
    ensures Run(Live(st, modes, k), t) == Run(Live(OK, modes, k), t)
  {
    hide Table, ClassOf;
    ClassChars(t[0]);
    NumberRowEnds(st, ClassOf(t[0]).value);
    assert Step(Live(st, modes, k), t[0]) == Step(Live(OK, modes, k), t[0]);
  }

  /** Over the text of a valid value the automaton goes from VA to the end of a
      value, with the stack it started from. */
  lemma {:induction false} ValueComplete(v: Value, modes: seq<Mode>, k: nat) returns (st: State)
    requires InValue(modes) && ValidValue(v) && Depth(v) + |modes| <= STACK_SIZE
    ensures EndsValue(st) && Run(Live(VA, modes, k), ValueText(v)) == Live(st, modes, k + Commas(v))
    ensures !v.Num? ==> st == OK
    decreases v, 1
  {
    hide Step, Run;
    var cfg := Live(VA, modes, k);
    match v {
      case Str(body) => RunQuoted(cfg, body); st := OK;
      case Num(_, _, _, _) => st := RunNumber(cfg, v);
      case Lit(l) => RunLiteral(cfg, l); st := OK;
      case _ => BracketsComplete(cfg, v); st := OK;
    }
  }

  lemma OpenEntry(st: State, arr: bool)
    requires st == GO || st == VA || st == AR
    ensures var k := ClassOf(if arr then 0x5B else 0x7B);
            k.Some? && Table(st, k.value) == if arr then OpenArr else OpenObj
  {
  }

  lemma OpenStep(cfg: Config, arr: bool)
    requires cfg.Live? && 1 <= |cfg.modes| < STACK_SIZE && (cfg.state == GO || cfg.state == VA || cfg.state == AR)
    ensures Run(cfg, [if arr then 0x5B else 0x7B])
         == Live(if arr then AR else OB, cfg.modes + [if arr then ModeArray else ModeKey], cfg.commas)
  {
    OpenEntry(cfg.state, arr);
    hide Table, ClassOf;
    RunOne(cfg, if arr then 0x5B else 0x7B);
  }

  lemma CloseStep(arr: bool, modes: seq<Mode>, k: nat)
    ensures Run(Live(if arr then AR else OB, modes + [if arr then ModeArray else ModeKey], k), [if arr then 0x5D else 0x7D])
         == Live(OK, modes, k)
  {
    var begun := Live(if arr then AR else OB, modes + [if arr then ModeArray else ModeKey], k);
    assert Popped(begun.modes) == modes;
    assert Step(begun, if arr then 0x5D else 0x7D) == Live(OK, modes, k);
    hide Step;
    RunOne(begun, if arr then 0x5D else 0x7D);
  }

  /** An array or object, from any state that can open it. */
  lemma {:induction false} BracketsComplete(cfg: Config, v: Value)
    requires cfg.Live? && cfg.modes != [] && (cfg.state == GO || cfg.state == VA || cfg.state == AR)
    requires ValidValue(v) && Depth(v) + |cfg.modes| <= STACK_SIZE && !v.Str? && !v.Num? && !v.Lit?
    ensures Run(cfg, ValueText(v)) == Live(OK, cfg.modes, cfg.commas + Commas(v))
    decreases v, 0
  {
    hide Step, Run, ElemsText, MembersText, ValidElems, ValidMembers, ElemsDepth, MembersDepth;
    var arr := v.Arr? || v.EmptyArr?;
    OpenStep(cfg, arr);
    CloseStep(arr, cfg.modes, cfg.commas);
    var begun := Live(if arr then AR else OB, cfg.modes + [if arr then ModeArray else ModeKey], cfg.commas);
    var closed := Live(OK, cfg.modes, cfg.commas + Commas(v));
    match v {
      case EmptyArr(ws) =>
        RunWs(begun, ws);
        Chain(cfg, [0x5B], begun, ws, begun);
        Chain(cfg, [0x5B] + ws, begun, [0x5D], closed);
      case EmptyObj(ws) =>
        RunWs(begun, ws);
        Chain(cfg, [0x7B], begun, ws, begun);
        Chain(cfg, [0x7B] + ws, begun, [0x7D], closed);
      case Arr(es) =>
        ElemsComplete(es, cfg.modes, cfg.commas, AR);
        Chain(cfg, [0x5B], begun, ElemsText(es) + [0x5D], closed);
        Assoc([0x5B], ElemsText(es), [0x5D]);
      case Obj(ms) =>
        MembersComplete(ms, cfg.modes, cfg.commas, OB);
        Chain(cfg, [0x7B], begun, MembersText(ms) + [0x7D], closed);
        Assoc([0x7B], MembersText(ms), [0x7D]);
    }
  }

  lemma ValueStarts(v: Value)
    requires ValidValue(v)
    ensures var t := ValueText(v); t != [] && !IsWs(t[0]) && t[0] != 0x5D
  {
  }

  /** White space, then a value: AR behaves as VA. */
  lemma {:induction false} SpacedValue(v: Value, pre: seq<int>, post: seq<int>, t: seq<int>, modes: seq<Mode>, k: nat, from: State)
    requires InValue(modes) && ValidValue(v) && Depth(v) + |modes| <= STACK_SIZE
    requires from == VA || from == AR
    requires AllWs(pre) && AllWs(post) && t != [] && Follows(t[0])
    ensures Run(Live(from, modes, k), pre + ValueText(v) + post + t) == Run(Live(OK, modes, k + Commas(v)), t)
    decreases v, 2
  {
    hide Step, Run, ValueText, ValidValue, Depth, Commas;
    var cfg, va, ok := Live(from, modes, k), Live(VA, modes, k), Live(OK, modes, k + Commas(v));
    var text := ValueText(v);
    var tail := text + (post + t);
    RunWs(cfg, pre);
    ValueStarts(v);
    assert Step(cfg, text[0]) == Step(va, text[0]) by { SameStart(from, modes, k, text[0]); }
    SameFirstStep(cfg, va, tail);
    var st := ValueComplete(v, modes, k);
    EndsLikeOk(st, modes, k + Commas(v), post + t);
    RunWs(ok, post);
    Chain(ok, post, ok, t, Run(ok, t));
    Chain(va, text, Live(st, modes, k + Commas(v)), post + t, Run(ok, t));
    Chain(cfg, pre, cfg, tail, Run(ok, t));
    Assoc(text, post, t);
    Assoc(pre, text + post, t);
    Assoc(pre, text, post);
  }

  lemma SameStart(from: State, modes: seq<Mode>, k: nat, c: int)
    requires (from == VA || from == AR) && c != 0x5D && !IsWs(c)
    ensures Step(Live(from, modes, k), c) == Step(Live(VA, modes, k), c)
  {
  }

  /** What ends an element, as steps. */
  lemma ElementSteps(modes: seq<Mode>, k: nat)
    ensures Run(Live(OK, modes + [ModeArray], k), [0x5D]) == Live(OK, modes, k)
    ensures Run(Live(OK, modes + [ModeArray], k), [0x2C]) == Live(VA, modes + [ModeArray], k + 1)
  {
    hide Run, Table, ClassOf;
    var cfg := Live(OK, modes + [ModeArray], k);
    assert Popped(cfg.modes) == modes;
    ClassChars(0x5D);
    ClassChars(0x2C);
    OkEntry(CRSqrb);
    OkEntry(CComma);
    RunOne(cfg, 0x5D);
    RunOne(cfg, 0x2C);
  }

  lemma {:induction false} ElemsComplete(es: Elems, modes: seq<Mode>, k: nat, from: State)
    requires 1 <= |modes| < STACK_SIZE && ValidElems(es) && ElemsDepth(es) + |modes| < STACK_SIZE
    requires from == VA || from == AR
    ensures Run(Live(from, modes + [ModeArray], k), ElemsText(es) + [0x5D]) == Live(OK, modes, k + ElemsCommas(es))
    decreases es, 3
  {
    hide Run, Step;
    var inner := modes + [ModeArray];
    var k' := k + Commas(es.v);
    ElementSteps(modes, k');
    var t := if es.LastElem? then [0x5D] else [0x2C] + (ElemsText(es.rest) + [0x5D]);
    SpacedValue(es.v, es.pre, es.post, t, inner, k, from);
    if es.MoreElems? {
      ElemsComplete(es.rest, modes, k' + 1, VA);
      Chain(Live(OK, inner, k'), [0x2C], Live(VA, inner, k' + 1), ElemsText(es.rest) + [0x5D], Live(OK, modes, k + ElemsCommas(es)));
    }
    assert ElemsText(es) + [0x5D] == es.pre + ValueText(es.v) + es.post + t;
  }

  /** `ws "key" ws :` from KE or OB. */
  lemma RunKey(from: State, modes: seq<Mode>, k: nat, pre: seq<int>, key: seq<int>, mid: seq<int>)
    requires (from == KE || from == OB) && AllWs(pre) && IsBody(key) && AllWs(mid)
    ensures Run(Live(from, modes + [ModeKey], k), pre + Quoted(key) + mid + [0x3A]) == Live(VA, modes + [ModeObject], k)
  {
    var inner := modes + [ModeKey];
    assert Popped(inner) == modes;
    var cfg, co := Live(from, inner, k), Live(CO, inner, k);
    assert Step(co, 0x3A) == Live(VA, modes + [ModeObject], k);
    hide Step;
    RunOne(co, 0x3A);
    hide Run;
    RunWs(cfg, pre);
    RunQuoted(cfg, key);
    RunWs(co, mid);
    Chain(cfg, pre, cfg, Quoted(key), co);
    Chain(cfg, pre + Quoted(key), co, mid, co);
    Chain(cfg, pre + Quoted(key) + mid, co, [0x3A], Live(VA, modes + [ModeObject], k));
  }

  /** What ends a member, as steps. */
  lemma SeparatorSteps(modes: seq<Mode>, k: nat)
    ensures Run(Live(OK, modes + [ModeObject], k), [0x7D]) == Live(OK, modes, k)
    ensures Run(Live(OK, modes + [ModeObject], k), [0x2C]) == Live(KE, modes + [ModeKey], k + 1)
  {
    hide Run, Table, ClassOf;
    var cfg := Live(OK, modes + [ModeObject], k);
    assert Popped(cfg.modes) == modes;
    ClassChars(0x7D);
    ClassChars(0x2C);
    OkEntry(CRCurb);
    OkEntry(CComma);
    RunOne(cfg, 0x7D);
    RunOne(cfg, 0x2C);
  }

  lemma {:induction false} MembersComplete(ms: Members, modes: seq<Mode>, k: nat, from: State)
    requires 1 <= |modes| < STACK_SIZE && ValidMembers(ms) && MembersDepth(ms) + |modes| < STACK_SIZE
    requires from == KE || from == OB
    ensures Run(Live(from, modes + [ModeKey], k), MembersText(ms) + [0x7D]) == Live(OK, modes, k + MembersCommas(ms))
    decreases ms, 3
  {
    hide Run, Step, ValueText, ValidValue, IsBody, Quoted;
    var inner, keyed := modes + [ModeObject], modes + [ModeKey];
    var k' := k + Commas(ms.v);
    SeparatorSteps(modes, k');
    var t := if ms.LastMember? then [0x7D] else [0x2C] + (MembersText(ms.rest) + [0x7D]);
    RunKey(from, modes, k, ms.pre, ms.key, ms.mid);
    SpacedValue(ms.v, ms.pre2, ms.post, t, inner, k, VA);
    var end := Live(OK, modes, k + MembersCommas(ms));
    if ms.MoreMembers? {
      MembersComplete(ms.rest, modes, k' + 1, KE);
      Chain(Live(OK, inner, k'), [0x2C], Live(KE, keyed, k' + 1), MembersText(ms.rest) + [0x7D], end);
    }
    var head := ms.pre + Quoted(ms.key) + ms.mid + [0x3A];
    var tail := ms.pre2 + ValueText(ms.v) + ms.post + t;
    Chain(Live(from, keyed, k), head, Live(VA, inner, k), tail, end);
    HeadAndTail(ms, t);
  }

  lemma HeadAndTail(ms: Members, t: seq<int>)
    requires t == if ms.LastMember? then [0x7D] else [0x2C] + (MembersText(ms.rest) + [0x7D])
    ensures MembersText(ms) + [0x7D] == (ms.pre + Quoted(ms.key) + ms.mid + [0x3A]) + (ms.pre2 + ValueText(ms.v) + ms.post + t)
  {
    hide ValueText, Quoted;
    var head := ms.pre + Quoted(ms.key) + ms.mid + [0x3A];
    var more := if ms.MoreMembers? then [0x2C] + MembersText(ms.rest) else [];
    assert MembersText(ms) == (head + ms.pre2 + ValueText(ms.v) + ms.post) + more;
    assert more + [0x7D] == t;
    Assoc(head + ms.pre2 + ValueText(ms.v) + ms.post, more, [0x7D]);
    Assoc(head, ms.pre2, ValueText(ms.v));
    Assoc(head, ms.pre2 + ValueText(ms.v), ms.post);
    Assoc(head, ms.pre2 + ValueText(ms.v) + ms.post, t);
  }

  lemma JsonIsAccepted(d: Doc)
    requires ValidDoc(d) && Depth(d.v) < STACK_SIZE
    ensures Run(START, DocText(d)) == Live(OK, [ModeDone], Commas(d.v))
  {
    hide Run, Step;
    var end := Live(OK, [ModeDone], Commas(d.v));
    RunWs(START, d.pre);
    BracketsComplete(START, d.v);
    RunWs(end, d.post);
    Chain(START, d.pre, START, ValueText(d.v), end);
    Chain(START, d.pre + ValueText(d.v), end, d.post, end);
  }

  /** The checker accepts exactly the documents nested at most 255 deep, and has
      then counted exactly their separating commas. */
  lemma AcceptsIffJson(s: seq<int>, k: nat)
    ensures Accepts(s) && Run(START, s).commas == k <==> IsJson(s, STACK_SIZE - 1, k)
  {
    hide Run, Step;
    if Accepts(s) {
      AcceptedIsJson(s);
    }
    if IsJson(s, STACK_SIZE - 1, k) {
      var d :| ValidDoc(d) && DocText(d) == s && Depth(d.v) <= STACK_SIZE - 1 && Commas(d.v) == k;
      JsonIsAccepted(d);
    }
  }
}
