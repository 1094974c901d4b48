/** The scanner feeds the automaton bytes, and section 8.1 of RFC 8259 has JSON
    texts encoded in UTF-8: which byte strings are accepted, and which of the
    accepted ones are such texts. */
module JsonUtf8 {
  import opened Basics
  import opened JsonGrammar
  import opened JsonMachine
  import opened JsonSoundness
  import opened JsonCompleteness
  import opened JsonUnique
  import opened JsonRfc

  /** Section 3 of RFC 3629. */
  function Utf8Char(c: int): seq<int> {
    if c < 0x80 then [c]
    else if c < 0x800 then [0xC0 + c / 0x40, 0x80 + c % 0x40]
    else if c < 0x10000 then [0xE0 + c / 0x1000, 0x80 + c / 0x40 % 0x40, 0x80 + c % 0x40]
    else [0xF0 + c / 0x40000, 0x80 + c / 0x1000 % 0x40, 0x80 + c / 0x40 % 0x40, 0x80 + c % 0x40]
  }

  function Utf8(t: seq<int>): seq<int>
    decreases |t|
  {
    if t == [] then [] else Utf8Char(t[0]) + Utf8(t[1..])
  }

  /** A code that UTF-8 encodes: not above 10FFFF and no half of a surrogate pair. */
  predicate Scalar(c: int) { 0 <= c < 0xD800 || 0xE000 <= c <= 0x10FFFF }

  predicate Scalars(t: seq<int>) { forall i :: 0 <= i < |t| ==> Scalar(t[i]) }

  ghost predicate WellFormed(s: seq<int>) { exists t: seq<int> :: Scalars(t) && Utf8(t) == s }

  /** The UTF-8 form of a text of RFC 8259. */
  ghost predicate IsRfcBytes(s: seq<int>) { exists t: seq<int> :: Scalars(t) && Utf8(t) == s && IsRfcText(t) }

  // ---------------------------------------------------------------------------
  // The automaton cannot tell a character from its bytes

  /** Outside strings no character from 128 up is allowed; inside, all are. */
  lemma EtcEntry(st: State)
    ensures Table(st, CEtc) == if st == ST then Goto(ST) else Error
  {
    hide StructureRow, StringRow, NumberRow, WordRow;
    EtcBetween(st);
    EtcInside(st);
  }

  lemma EtcBetween(st: State)
    ensures StructureRow(st, CEtc) == Error && WordRow(st, CEtc) == Error
  {
  }

  lemma EtcInside(st: State)
    ensures NumberRow(st, CEtc) == Error && StringRow(st, CEtc) == if st == ST then Goto(ST) else Error
  {
  }

  lemma EtcStep(cfg: Config, c: int)
    requires c >= 128
    ensures Step(cfg, c) == if cfg.Live? && cfg.modes != [] && cfg.state == ST then cfg else Rejected
  {
    hide Table;
    if cfg.Live? { EtcEntry(cfg.state); }
  }

  lemma {:induction false} EtcRun(cfg: Config, s: seq<int>)
    requires s != [] && forall i :: 0 <= i < |s| ==> s[i] >= 128
    ensures Run(cfg, s) == Step(cfg, s[0])
    decreases |s|
  {
    hide Step;
    EtcStep(cfg, s[0]);
    if |s| == 1 {
      RunOne(cfg, s[0]);
      assert s == [s[0]];
    } else {
      EtcStep(cfg, s[1]);
      if Step(cfg, s[0]).Rejected? { RunRejected(s[1..]); } else { EtcRun(cfg, s[1..]); }
    }
  }

  lemma {:induction false} RunUtf8(cfg: Config, t: seq<int>)
    ensures Run(cfg, Utf8(t)) == Run(cfg, t)
    decreases |t|
  {
    hide Step, Utf8Char;
    if t != [] {
      CharRuns(cfg, t[0]);
      RunConcat(cfg, Utf8Char(t[0]), Utf8(t[1..]));
      RunUtf8(Step(cfg, t[0]), t[1..]);
    }
  }

  lemma CharRuns(cfg: Config, c: int)
    ensures Run(cfg, Utf8Char(c)) == Step(cfg, c)
  {
    hide Step, Run;
    if c < 128 {
      RunOne(cfg, c);
    } else {
      EtcRun(cfg, Utf8Char(c));
      EtcStep(cfg, c);
      EtcStep(cfg, Utf8Char(c)[0]);
    }
  }

  // ---------------------------------------------------------------------------
  // The tree of the bytes

  function EncodeValue(v: Value): Value {
    match v
    case Str(body) => Str(Utf8(body))
    case Arr(es) => Arr(EncodeElems(es))
    case Obj(ms) => Obj(EncodeMembers(ms))
    case _ => v
  }

  function EncodeElems(es: Elems): Elems {
    match es
    case LastElem(pre, v, post) => LastElem(pre, EncodeValue(v), post)
    case MoreElems(pre, v, post, rest) => MoreElems(pre, EncodeValue(v), post, EncodeElems(rest))
  }

  function EncodeMembers(ms: Members): Members {
    match ms
    case LastMember(pre, key, mid, pre2, v, post) => LastMember(pre, Utf8(key), mid, pre2, EncodeValue(v), post)
    case MoreMembers(pre, key, mid, pre2, v, post, rest) =>
      MoreMembers(pre, Utf8(key), mid, pre2, EncodeValue(v), post, EncodeMembers(rest))
  }

  lemma Utf8Concat()
    ensures forall a: seq<int>, b: seq<int> :: Utf8(a + b) == Utf8(a) + Utf8(b)
  {
    forall a: seq<int>, b: seq<int>
      ensures Utf8(a + b) == Utf8(a) + Utf8(b)
    {
      Utf8Append(a, b);
    }
  }

  lemma {:induction false} Utf8Append(a: seq<int>, b: seq<int>)
    ensures Utf8(a + b) == Utf8(a) + Utf8(b)
    decreases |a|
  {
    hide Utf8Char;
    if a == [] {
      assert a + b == b;
    } else {
      assert (a + b)[1..] == a[1..] + b;
      Utf8Append(a[1..], b);
    }
  }

  lemma {:induction false} AsciiStays(s: seq<int>)
    requires Ascii(s) || AllWs(s) || AllDigits(s)
    ensures Utf8(s) == s
    decreases |s|
  {
    if s != [] {
      AsciiStays(s[1..]);
      assert s == [s[0]] + s[1..];
    }
  }

  lemma PunctuationStays()
    ensures Utf8([]) == [] && Utf8([0x22]) == [0x22] && Utf8([0x2C]) == [0x2C] && Utf8([0x3A]) == [0x3A]
    ensures Utf8([0x5B]) == [0x5B] && Utf8([0x5D]) == [0x5D] && Utf8([0x7B]) == [0x7B] && Utf8([0x7D]) == [0x7D]
  {
    AsciiStays([0x22]); AsciiStays([0x2C]); AsciiStays([0x3A]);
    AsciiStays([0x5B]); AsciiStays([0x5D]); AsciiStays([0x7B]); AsciiStays([0x7D]);
  }

  lemma {:induction false} PlainThenBody(a: seq<int>, b: seq<int>)
    requires IsBody(b) && forall i :: 0 <= i < |a| ==> IsPlain(a[i])
    ensures IsBody(a + b)
    decreases |a|
  {
    if a == [] {
      assert a + b == b;
    } else {
      assert (a + b)[1..] == a[1..] + b;
      PlainThenBody(a[1..], b);
    }
  }

  lemma EscapeThenBody(a: seq<int>, b: seq<int>)
    requires IsBody(b) && IsBody(a) && a != [] && a[0] == 0x5C && |a| == ItemLength(a)
    ensures IsBody(a + b) && Ascii(a)
  {
    assert (a + b)[|a|..] == b;
  }

  lemma {:induction false} BodyStays(body: seq<int>)
    requires IsBody(body)
    ensures IsBody(Utf8(body))
    decreases |body|
  {
    hide IsBody, Utf8Char, ItemLength;
    if body == [] {
    } else {
      ItemFits(body);
      var n := ItemLength(body);
      BodyStays(body[n..]);
      Utf8Append(body[..n], body[n..]);
      assert body == body[..n] + body[n..];
      FirstItem(body);
      if body[0] == 0x5C {
        EscapeThenBody(body[..n], Utf8(body[n..]));
        AsciiStays(body[..n]);
      } else {
        PlainBytes(body[0]);
        assert body[..1] == [body[0]];
        Utf8One(body[0]);
        PlainThenBody(Utf8Char(body[0]), Utf8(body[n..]));
      }
    }
  }

  lemma Utf8One(c: int)
    ensures Utf8([c]) == Utf8Char(c)
  {
  }

  lemma FirstItem(body: seq<int>)
    requires body != [] && IsBody(body)
    ensures var n := ItemLength(body);
            if body[0] == 0x5C then n <= |body| && IsBody(body[..n]) && ItemLength(body[..n]) == n
            else n == 1 && IsPlain(body[0])
  {
  }

  lemma PlainBytes(c: int)
    requires IsPlain(c)
    ensures forall i :: 0 <= i < |Utf8Char(c)| ==> IsPlain(Utf8Char(c)[i])
  {
  }

  /** The tree of the bytes is valid, has their text, and the same fractions. */
  lemma {:induction false} ValueEncodes(v: Value)
    requires ValidValue(v)
    ensures var w := EncodeValue(v);
            ValidValue(w) && ValueText(w) == Utf8(ValueText(v)) && (EmptyFraction(w) <==> EmptyFraction(v))
    decreases v, 0
  {
    hide Utf8, IsBody, ElemsText, MembersText, NumberText, LiteralText, ValidNumber, EncodeElems, EncodeMembers;
    Utf8Concat();
    PunctuationStays();
    match v {
      case Str(body) => BodyStays(body);
      case EmptyArr(ws) => AsciiStays(ws);
      case Arr(es) => ElemsEncode(es);
      case EmptyObj(ws) => AsciiStays(ws);
      case Obj(ms) => MembersEncode(ms);
      case _ => ScalarAscii(v); AsciiStays(ValueText(v));
    }
  }

  lemma ScalarAscii(v: Value)
    requires ValidValue(v) && (v.Num? || v.Lit?)
    ensures Ascii(ValueText(v))
  {
    hide NumberText, ValidNumber;
    if v.Num? { NumberAscii(v.minus, v.whole, v.frac, v.exp); }
  }

  lemma NumberAscii(minus: bool, whole: seq<int>, frac: Option<seq<int>>, exp: Option<Exponent>)
    requires ValidNumber(whole, frac, exp)
    ensures Ascii(NumberText(minus, whole, frac, exp))
  {
    assert Ascii(ExponentText(exp));
    assert Ascii(FracText(frac));
  }

  lemma {:induction false} ElemsEncode(es: Elems)
    requires ValidElems(es)
    ensures var fs := EncodeElems(es);
            ValidElems(fs) && ElemsText(fs) == Utf8(ElemsText(es)) && (ElemsEmptyFraction(fs) <==> ElemsEmptyFraction(es))
    decreases es, 1
  {
    hide Utf8, AllWs, ValidValue, EmptyFraction, ValueText, EncodeValue;
    Utf8Concat();
    PunctuationStays();
    AsciiStays(es.pre);
    AsciiStays(es.post);
    ValueEncodes(es.v);
    if es.MoreElems? { ElemsEncode(es.rest); }
  }

  lemma {:induction false} MembersEncode(ms: Members)
    requires ValidMembers(ms)
    ensures var ns := EncodeMembers(ms);
            && ValidMembers(ns) && MembersText(ns) == Utf8(MembersText(ms))
            && (MembersEmptyFraction(ns) <==> MembersEmptyFraction(ms))
    decreases ms, 1
  {
    hide Utf8, AllWs, IsBody, ValidValue, EmptyFraction, ValueText, EncodeValue;
    Utf8Concat();
    PunctuationStays();
    AsciiStays(ms.pre);
    AsciiStays(ms.mid);
    AsciiStays(ms.pre2);
    AsciiStays(ms.post);
    BodyStays(ms.key);
    ValueEncodes(ms.v);
    if ms.MoreMembers? { MembersEncode(ms.rest); }
  }

  lemma DocEncodes(d: Doc) returns (e: Doc)
    requires ValidDoc(d)
    ensures ValidDoc(e) && DocText(e) == Utf8(DocText(d)) && (EmptyFraction(e.v) <==> EmptyFraction(d.v))
  {
    hide Utf8, AllWs, ValidValue, EmptyFraction, ValueText;
    e := Doc(d.pre, EncodeValue(d.v), d.post);
    Utf8Concat();
    AsciiStays(d.pre);
    AsciiStays(d.post);
    ValueEncodes(d.v);
  }

  // ---------------------------------------------------------------------------

  /** The encoded texts of RFC 8259 that are accepted: as for their characters. */
  lemma RfcBytesAcceptedIff(d: Doc)
    requires RfcDoc(d)
    ensures Accepts(Utf8(DocText(d))) <==> Depth(d.v) < STACK_SIZE && !BareZeroExponent(d.v)
  {
    hide Run, Step, Utf8;
    RfcDocAcceptedIff(d);
    RunUtf8(START, DocText(d));
  }

  /** Accepted bytes have exactly one tree, and are a text of RFC 8259 if and only if
      no number in that tree has an empty fraction and they are well-formed UTF-8. */
  lemma AcceptedBytesRfcIff(s: seq<int>) returns (d: Doc)
    requires Accepts(s)
    ensures ValidDoc(d) && DocText(d) == s && forall e :: ValidDoc(e) && DocText(e) == s ==> e == d
    ensures IsRfcBytes(s) <==> !EmptyFraction(d.v) && WellFormed(s)
  {
    hide Run, Step, Utf8, ValidValue, DocText, EmptyFraction, IsRfcText, Codes;
    d := AcceptedIsRfcIff(s);
    forall t | Scalars(t) && Utf8(t) == s
      ensures IsRfcText(t) <==> !EmptyFraction(d.v)
    {
      RunUtf8(START, t);
      var e := AcceptedIsRfcIff(t);
      var f := DocEncodes(e);
      ScalarsAreCodes(t);
    }
  }

  lemma ScalarsAreCodes(t: seq<int>)
    requires Scalars(t)
    ensures Codes(t)
  {
  }

  /** Accepted all the same: a string with the byte FF, which no UTF-8 has. */
  lemma BadUtf8Accepted()
    ensures var s := [0x5B, 0x22, 0xFF, 0x22, 0x5D]; Accepts(s) && !WellFormed(s) && !IsRfcBytes(s)
  {
    hide Run, Step, Utf8;
    var s, v := [0x5B, 0x22, 0xFF, 0x22, 0x5D], Str([0xFF]);
    var d := Doc([], Arr(LastElem([], v, [])), []);
    OneValue(v);
    JsonIsAccepted(d);
    assert ValueText(v) == [0x22, 0xFF, 0x22];
    assert DocText(d) == s;
    forall t | Scalars(t)
      ensures Utf8(t) != s
    {
      NoByteAbove(t);
      assert s[2] > 0xF4;
    }
  }

  lemma {:induction false} NoByteAbove(t: seq<int>)
    requires Scalars(t)
    ensures forall i :: 0 <= i < |Utf8(t)| ==> Utf8(t)[i] <= 0xF4
    decreases |t|
  {
    if t != [] { NoByteAbove(t[1..]); }
  }
}
