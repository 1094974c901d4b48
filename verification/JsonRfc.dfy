/** How the automaton treats the texts of RFC 8259 itself: which of them it
    accepts, and which of the texts it accepts are among them. */
module JsonRfc {
  import opened Basics
  import opened JsonGrammar
  import opened JsonMachine
  import opened JsonSoundness
  import opened JsonCompleteness
  import opened JsonUnique

  lemma {:induction false} RfcWithoutBareZeroIsValid(v: Value)
    requires RfcValue(v)
    ensures ValidValue(v) <==> !BareZeroExponent(v)
    decreases v, 0
  {
    match v {
      case Arr(es) => ElemsWithoutBareZero(es);
      case Obj(ms) => MembersWithoutBareZero(ms);
      case _ =>
    }
  }

  lemma {:induction false} ElemsWithoutBareZero(es: Elems)
    requires RfcElems(es)
    ensures ValidElems(es) <==> !ElemsBareZero(es)
    decreases es, 1
  {
    RfcWithoutBareZeroIsValid(es.v);
    if es.MoreElems? { ElemsWithoutBareZero(es.rest); }
  }

  lemma {:induction false} MembersWithoutBareZero(ms: Members)
    requires RfcMembers(ms)
    ensures ValidMembers(ms) <==> !MembersBareZero(ms)
    decreases ms, 1
  {
    RfcWithoutBareZeroIsValid(ms.v);
    if ms.MoreMembers? { MembersWithoutBareZero(ms.rest); }
  }

  // Which valid trees are trees of RFC 8259

  lemma CodesConcat()
    ensures forall a: seq<int>, b: seq<int> :: Codes(a + b) <==> Codes(a) && Codes(b)
  {
    forall a: seq<int>, b: seq<int>
      ensures Codes(a + b) <==> Codes(a) && Codes(b)
    {
      assert forall i :: 0 <= i < |a| ==> a[i] == (a + b)[i];
      assert forall i :: 0 <= i < |b| ==> b[i] == (a + b)[|a| + i];
    }
  }

  predicate Ascii(s: seq<int>) { forall i :: 0 <= i < |s| ==> 0 <= s[i] < 128 }

  lemma AsciiCodes(s: seq<int>)
    requires AllWs(s) || AllDigits(s) || Ascii(s)
    ensures Codes(s)
  {
  }

  lemma PunctuationCodes()
    ensures Codes([]) && Codes([0x22]) && Codes([0x2C]) && Codes([0x3A]) && Codes([0x2D]) && Codes([0x2E])
    ensures Codes([0x5B]) && Codes([0x5D]) && Codes([0x7B]) && Codes([0x7D])
  {
  }

  lemma ExponentCodes(e: Option<Exponent>)
    requires e.Some? ==> ValidExponent(e.value)
    ensures Codes(ExponentText(e))
  {
  }

  lemma NumberCodes(v: Value)
    requires v.Num? && ValidValue(v)
    ensures Codes(ValueText(v))
  {
    hide Codes, ExponentText, ValidExponent, AllDigits;
    CodesConcat();
    PunctuationCodes();
    AsciiCodes(v.whole);
    if v.frac.Some? { AsciiCodes(v.frac.value); }
    ExponentCodes(v.exp);
  }

  lemma ScalarCodes(v: Value)
    requires ValidValue(v) && (v.Num? || v.Lit?)
    ensures Codes(ValueText(v))
  {
    hide ValidNumber, NumberText;
    if v.Num? { NumberCodes(v); }
  }

  /** A valid value is one of RFC 8259 unless a fraction is empty or a code too large. */
  lemma {:induction false} ValidIsRfcIff(v: Value)
    requires ValidValue(v)
    ensures RfcValue(v) <==> !EmptyFraction(v) && Codes(ValueText(v))
    decreases v, 0
  {
    hide Codes, IsBody, ElemsText, MembersText, NumberText, LiteralText, ValidNumber;
    CodesConcat();
    PunctuationCodes();
    match v {
      case Str(_) =>
      case EmptyArr(ws) => AsciiCodes(ws);
      case Arr(es) => ValidElemsRfcIff(es);
      case EmptyObj(ws) => AsciiCodes(ws);
      case Obj(ms) => ValidMembersRfcIff(ms);
      case _ => ScalarCodes(v); ScalarIsRfcIff(v);
    }
  }

  lemma ScalarIsRfcIff(v: Value)
    requires ValidValue(v) && (v.Num? || v.Lit?)
    ensures RfcValue(v) <==> !EmptyFraction(v)
  {
  }

  lemma {:induction false} ValidElemsRfcIff(es: Elems)
    requires ValidElems(es)
    ensures RfcElems(es) <==> !ElemsEmptyFraction(es) && Codes(ElemsText(es))
    decreases es, 1
  {
    hide Codes, AllWs, ValidValue, RfcValue, EmptyFraction, ValueText;
    CodesConcat();
    PunctuationCodes();
    AsciiCodes(es.pre);
    AsciiCodes(es.post);
    ValidIsRfcIff(es.v);
    if es.MoreElems? { ValidElemsRfcIff(es.rest); }
  }

  lemma {:induction false} ValidMembersRfcIff(ms: Members)
    requires ValidMembers(ms)
    ensures RfcMembers(ms) <==> !MembersEmptyFraction(ms) && Codes(MembersText(ms))
    decreases ms, 1
  {
    hide Codes, AllWs, IsBody, ValidValue, RfcValue, EmptyFraction, ValueText;
    CodesConcat();
    PunctuationCodes();
    AsciiCodes(ms.pre);
    AsciiCodes(ms.mid);
    AsciiCodes(ms.pre2);
    AsciiCodes(ms.post);
    ValidIsRfcIff(ms.v);
    if ms.MoreMembers? { ValidMembersRfcIff(ms.rest); }
  }

  /** A rejection anywhere is a rejection of the whole. */
  lemma DiesAfter(a: Config, s: seq<int>, b: Config, t: seq<int>, u: seq<int>)
    requires Run(a, s) == b && Run(b, t).Rejected?
    ensures Run(a, s + t + u).Rejected?
  {
    RunConcat(a, s, t);
    RunConcat(a, s + t, u);
    RunRejected(u);
  }

  lemma ZeroThenMark(cfg: Config, mark: int)
    requires cfg.Live? && cfg.modes != [] && cfg.state == ZE && (mark == 0x65 || mark == 0x45)
    ensures Run(cfg, [mark]).Rejected?
  {
    hide Table, ClassOf, Run;
    ClassChars(mark);
    ZeroTakesNoMark(ClassOf(mark).value);
    RunOne(cfg, mark);
  }

  lemma ZeroTakesNoMark(k: Class)
    requires k.CLowE? || k.CE?
    ensures Table(ZE, k) == Error
  {
    hide StructureRow, StringRow, WordRow;
  }

  lemma BareZeroDies(cfg: Config, v: Value)
    requires cfg.Live? && cfg.modes != [] && cfg.state == VA && v.Num? && RfcValue(v) && BareZeroExponent(v)
    ensures Run(cfg, ValueText(v)).Rejected?
  {
    hide Run, Step;
    var sign := if v.minus then [0x2D] else [];
    RunZero(cfg, v.minus);
    var e := v.exp.value;
    var tail := (if e.sign.Some? then [e.sign.value] else []) + e.digits;
    ZeroThenMark(cfg.(state := ZE), e.mark);
    DiesAfter(cfg, sign + [0x30], cfg.(state := ZE), [e.mark], tail);
    assert ValueText(v) == sign + [0x30] + [e.mark] + tail;
  }

  lemma RunZero(cfg: Config, minus: bool)
    requires cfg.Live? && cfg.modes != [] && cfg.state == VA
    ensures Run(cfg, (if minus then [0x2D] else []) + [0x30]) == cfg.(state := ZE)
  {
    assert minus ==> Step(cfg, 0x2D) == cfg.(state := MI);
    hide Step;
    if minus {
      RunOne(cfg, 0x2D);
      RunWhole(cfg.(state := MI), [0x30]);
      Chain(cfg, [0x2D], cfg.(state := MI), [0x30], cfg.(state := ZE));
    } else {
      RunWhole(cfg, [0x30]);
      assert [] + [0x30] == [0x30];
    }
  }

  lemma OverflowDies(cfg: Config, c: int)
    requires cfg.Live? && |cfg.modes| >= STACK_SIZE && (cfg.state == GO || cfg.state == VA || cfg.state == AR)
    requires c == 0x5B || c == 0x7B
    ensures Run(cfg, [c]).Rejected?
  {
    OpenEntry(cfg.state, c == 0x5B);
    hide Table, ClassOf;
    RunOne(cfg, c);
  }

  /** Can the automaton take this value on a stack of `n` modes? */
  predicate Fits(v: Value, n: nat) { !BareZeroExponent(v) && Depth(v) + n <= STACK_SIZE }

  lemma {:induction false} ValueDies(v: Value, modes: seq<Mode>, k: nat)
    requires InValue(modes) && RfcValue(v) && !Fits(v, |modes|)
    ensures Run(Live(VA, modes, k), ValueText(v)).Rejected?
    decreases v, 1
  {
    hide Run, Step;
    if v.Num? {
      BareZeroDies(Live(VA, modes, k), v);
    } else {
      BracketsDie(Live(VA, modes, k), v);
    }
  }

  lemma {:induction false} BracketsDie(cfg: Config, v: Value)
    requires cfg.Live? && 1 <= |cfg.modes| <= STACK_SIZE && (cfg.state == GO || cfg.state == VA || cfg.state == AR)
    requires RfcValue(v) && !Fits(v, |cfg.modes|) && !v.Str? && !v.Num? && !v.Lit?
    ensures Run(cfg, ValueText(v)).Rejected?
    decreases v, 0
  {
    hide Run, Step;
    var arr := v.Arr? || v.EmptyArr?;
    var open := if arr then 0x5B else 0x7B;
    assert ValueText(v) == [] + [open] + ValueText(v)[1..];
    if |cfg.modes| == STACK_SIZE {
      OverflowDies(cfg, open);
      RunNothing(cfg);
      DiesAfter(cfg, [], cfg, [open], ValueText(v)[1..]);
    } else {
      OpenStep(cfg, arr);
      match v {
        case Arr(es) =>
          ElemsDie(es, cfg.modes, cfg.commas, AR);
          DiesAfter(cfg, [open], Live(AR, cfg.modes + [ModeArray], cfg.commas), ElemsText(es), [0x5D]);
        case Obj(ms) =>
          MembersDie(ms, cfg.modes, cfg.commas, OB);
          DiesAfter(cfg, [open], Live(OB, cfg.modes + [ModeKey], cfg.commas), MembersText(ms), [0x7D]);
        case _ =>
      }
    }
  }

  lemma {:induction false} ElemsDie(es: Elems, modes: seq<Mode>, k: nat, from: State)
    requires 1 <= |modes| < STACK_SIZE && RfcElems(es) && (from == VA || from == AR)
    requires ElemsBareZero(es) || ElemsDepth(es) + |modes| + 1 > STACK_SIZE
    ensures Run(Live(from, modes + [ModeArray], k), ElemsText(es)).Rejected?
    decreases es, 3
  {
    hide Run, Step, ValueText, RfcValue, BareZeroExponent;
    var inner := modes + [ModeArray];
    var rest := if es.MoreElems? then [0x2C] + ElemsText(es.rest) else [];
    if !Fits(es.v, |inner|) {
      SpacedValueDies(es.v, es.pre, inner, k, from);
      RunNothing(Live(from, inner, k));
      DiesAfter(Live(from, inner, k), [], Live(from, inner, k), es.pre + ValueText(es.v), es.post + rest);
      assert ElemsText(es) == [] + (es.pre + ValueText(es.v)) + (es.post + rest);
    } else {
      RfcWithoutBareZeroIsValid(es.v);
      var k' := k + Commas(es.v);
      SpacedValue(es.v, es.pre, es.post, rest, inner, k, from);
      ElementSteps(modes, k');
      ElemsDie(es.rest, modes, k' + 1, VA);
      DiesAfter(Live(OK, inner, k'), [0x2C], Live(VA, inner, k' + 1), ElemsText(es.rest), []);
      assert rest == [0x2C] + ElemsText(es.rest) + [];
    }
  }

  lemma {:induction false} SpacedValueDies(v: Value, pre: seq<int>, modes: seq<Mode>, k: nat, from: State)
    requires InValue(modes) && RfcValue(v) && !Fits(v, |modes|) && AllWs(pre) && (from == VA || from == AR)
    ensures Run(Live(from, modes, k), pre + ValueText(v)).Rejected?
    decreases v, 2
  {
    hide Run, Step;
    var cfg, va, text := Live(from, modes, k), Live(VA, modes, k), ValueText(v);
    RunWs(cfg, pre);
    RfcValueStarts(v);
    assert Step(cfg, text[0]) == Step(va, text[0]) by { SameStart(from, modes, k, text[0]); }
    SameFirstStep(cfg, va, text);
    ValueDies(v, modes, k);
    Chain(cfg, pre, cfg, text, Rejected);
  }

  lemma RfcValueStarts(v: Value)
    requires RfcValue(v)
    ensures var t := ValueText(v); t != [] && !IsWs(t[0]) && t[0] != 0x5D
  {
  }

  /** The value of the first member and everything after it. */
  function MembersTail(ms: Members): seq<int> {
    ms.pre2 + ValueText(ms.v) + ms.post + (if ms.MoreMembers? then [0x2C] + MembersText(ms.rest) else [])
  }

  lemma {:induction false} MembersDie(ms: Members, modes: seq<Mode>, k: nat, from: State)
    requires 1 <= |modes| < STACK_SIZE && RfcMembers(ms) && (from == KE || from == OB)
    requires MembersBareZero(ms) || MembersDepth(ms) + |modes| + 1 > STACK_SIZE
    ensures Run(Live(from, modes + [ModeKey], k), MembersText(ms)).Rejected?
    decreases ms, 4
  {
    hide Run, Step, MembersText, MembersTail, RfcValue, IsBody;
    var head := ms.pre + Quoted(ms.key) + ms.mid + [0x3A];
    RunKey(from, modes, k, ms.pre, ms.key, ms.mid);
    MembersTailDies(ms, modes, k);
    Chain(Live(from, modes + [ModeKey], k), head, Live(VA, modes + [ModeObject], k), MembersTail(ms), Rejected);
    MembersFromTail(ms);
  }

  lemma MembersFromTail(ms: Members)
    ensures MembersText(ms) == (ms.pre + Quoted(ms.key) + ms.mid + [0x3A]) + MembersTail(ms)
  {
    hide ValueText, Quoted;
    var head := ms.pre + Quoted(ms.key) + ms.mid + [0x3A];
    var rest := if ms.MoreMembers? then [0x2C] + MembersText(ms.rest) else [];
    Assoc(head, ms.pre2, ValueText(ms.v));
    Assoc(head, ms.pre2 + ValueText(ms.v), ms.post);
    Assoc(head, ms.pre2 + ValueText(ms.v) + ms.post, rest);
  }

  lemma {:induction false} MembersTailDies(ms: Members, modes: seq<Mode>, k: nat)
    requires 1 <= |modes| < STACK_SIZE && RfcMembers(ms)
    requires MembersBareZero(ms) || MembersDepth(ms) + |modes| + 1 > STACK_SIZE
    ensures Run(Live(VA, modes + [ModeObject], k), MembersTail(ms)).Rejected?
    decreases ms, 3
  {
    hide Run, Step, ValueText, RfcValue, RfcBody, BareZeroExponent;
    var inner, keyed := modes + [ModeObject], modes + [ModeKey];
    var rest := if ms.MoreMembers? then [0x2C] + MembersText(ms.rest) else [];
    if !Fits(ms.v, |inner|) {
      SpacedValueDies(ms.v, ms.pre2, inner, k, VA);
      RunNothing(Live(VA, inner, k));
      DiesAfter(Live(VA, inner, k), [], Live(VA, inner, k), ms.pre2 + ValueText(ms.v), ms.post + rest);
      assert MembersTail(ms) == [] + (ms.pre2 + ValueText(ms.v)) + (ms.post + rest);
    } else {
      RfcWithoutBareZeroIsValid(ms.v);
      var k' := k + Commas(ms.v);
      SpacedValue(ms.v, ms.pre2, ms.post, rest, inner, k, VA);
      SeparatorSteps(modes, k');
      MembersDie(ms.rest, modes, k' + 1, KE);
      Chain(Live(OK, inner, k'), [0x2C], Live(KE, keyed, k' + 1), MembersText(ms.rest), Rejected);
    }
  }

  /** Of the arrays and objects of RFC 8259 the checker accepts exactly those that
      are nested at most 255 deep and have no exponent on a bare zero. */
  lemma RfcDocAcceptedIff(d: Doc)
    requires RfcDoc(d)
    ensures Accepts(DocText(d)) <==> Depth(d.v) < STACK_SIZE && !BareZeroExponent(d.v)
  {
    hide Run, Step;
    RfcWithoutBareZeroIsValid(d.v);
    if Fits(d.v, 1) {
      JsonIsAccepted(d);
    } else {
      RunWs(START, d.pre);
      BracketsDie(START, d.v);
      DiesAfter(START, d.pre, START, ValueText(d.v), d.post);
    }
  }

  /** What it accepts has exactly one tree of the grammar, and is a text of RFC 8259
      if and only if no number in that tree has an empty fraction and no code in the
      text is above 10FFFF. */
  lemma AcceptedIsRfcIff(s: seq<int>) returns (d: Doc)
    requires Accepts(s)
    ensures ValidDoc(d) && DocText(d) == s && forall e :: ValidDoc(e) && DocText(e) == s ==> e == d
    ensures IsRfcText(s) <==> !EmptyFraction(d.v) && Codes(s)
  {
    hide Run, Step;
    AcceptedIsJson(s);
    d :| ValidDoc(d) && DocText(d) == s && Depth(d.v) <= STACK_SIZE - 1;
    forall e | ValidDoc(e) && DocText(e) == s
      ensures e == d
    {
      OneTree(d, e);
    }
    ValidDocIsRfcIff(d);
    if IsRfcText(s) {
      var e :| RfcDoc(e) && DocText(e) == s;
      RfcDocAcceptedIff(e);
      RfcWithoutBareZeroIsValid(e.v);
    }
  }

  lemma ValidDocIsRfcIff(d: Doc)
    requires ValidDoc(d)
    ensures RfcDoc(d) <==> !EmptyFraction(d.v) && Codes(DocText(d))
  {
    hide Codes, AllWs, ValidValue, RfcValue, EmptyFraction, ValueText;
    CodesConcat();
    PunctuationCodes();
    AsciiCodes(d.pre);
    AsciiCodes(d.post);
    ValidIsRfcIff(d.v);
  }

  /** There are such texts: `[1.]`, and a string with a code above 10FFFF. */
  lemma AcceptedButNotRfc()
    ensures Accepts([0x5B, 0x31, 0x2E, 0x5D]) && !IsRfcText([0x5B, 0x31, 0x2E, 0x5D])
    ensures Accepts([0x5B, 0x22, 0x110000, 0x22, 0x5D]) && !IsRfcText([0x5B, 0x22, 0x110000, 0x22, 0x5D])
  {
    hide Run, Step, Accepts, IsRfcText;
    var point, huge := Num(false, [0x31], Some([]), None), Str([0x110000]);
    NotRfcBecauseOf(point);
    NotRfcBecauseOf(huge);
    assert [0x5B] + ValueText(point) + [0x5D] == [0x5B, 0x31, 0x2E, 0x5D];
    assert [0x5B] + ValueText(huge) + [0x5D] == [0x5B, 0x22, 0x110000, 0x22, 0x5D];
  }

  /** The array of one such value. */
  lemma NotRfcBecauseOf(v: Value)
    requires ValidValue(v) && Depth(v) == 0 && !RfcValue(v)
    ensures var s := [0x5B] + ValueText(v) + [0x5D]; Accepts(s) && !IsRfcText(s)
  {
    hide Run, Step, ValueText, IsRfcText;
    var d := Doc([], Arr(LastElem([], v, [])), []);
    OneValue(v);
    JsonIsAccepted(d);
    ValidDocIsRfcIff(d);
    var e := AcceptedIsRfcIff(DocText(d));
  }

  lemma OneValue(v: Value)
    requires ValidValue(v) && Depth(v) == 0
    ensures var d := Doc([], Arr(LastElem([], v, [])), []);
            ValidDoc(d) && Depth(d.v) == 1 && DocText(d) == [0x5B] + ValueText(v) + [0x5D] && (RfcDoc(d) ==> RfcValue(v))
  {
    var es := LastElem([], v, []);
    assert ValidElems(es) && ElemsText(es) == ValueText(v);
    assert ValueText(Arr(es)) == [0x5B] + ValueText(v) + [0x5D];
    assert RfcValue(Arr(es)) ==> RfcElems(es);
  }
}
