/** The grammar is unambiguous: no text has two trees. */
module JsonUnique {
  import opened Basics
  import opened JsonGrammar
  import opened JsonCompleteness

  /** What may come after a value. */
  predicate Ends(r: seq<int>) { r == [] || Follows(r[0]) }

  /** Does the text begin with a character of this kind? */
  predicate Begins(r: seq<int>, p: int -> bool) { r != [] && p(r[0]) }

  lemma Cancel(a: seq<int>, r: seq<int>, b: seq<int>, q: seq<int>)
    requires a + r == b + q && |a| == |b|
    ensures a == b && r == q
  {
    assert a == (a + r)[..|a|] && b == (b + q)[..|a|];
    assert r == (a + r)[|a|..] && q == (b + q)[|a|..];
  }

  /** The first `n` characters are of one kind, and the next one, if any, is not. */
  predicate IsSpan(p: int -> bool, s: seq<int>, n: nat) {
    n <= |s| && (forall i :: 0 <= i < n ==> p(s[i])) && (n < |s| ==> !p(s[n]))
  }

  lemma SpanIs(p: int -> bool, a: seq<int>, r: seq<int>)
    requires !Begins(r, p) && forall i :: 0 <= i < |a| ==> p(a[i])
    ensures IsSpan(p, a + r, |a|)
  {
    assert r != [] ==> (a + r)[|a|] == r[0];
  }

  /** A longest stretch of characters of one kind can be read in one way only. */
  lemma SpanUnique(p: int -> bool, a: seq<int>, r: seq<int>, b: seq<int>, q: seq<int>)
    requires a + r == b + q && !Begins(r, p) && !Begins(q, p)
    requires forall i :: 0 <= i < |a| ==> p(a[i])
    requires forall i :: 0 <= i < |b| ==> p(b[i])
    ensures a == b && r == q
  {
    SpanIs(p, a, r);
    SpanIs(p, b, q);
    Cancel(a, r, b, q);
  }

  /** How many characters the first item of a string body takes. */
  function ItemLength(a: seq<int>): nat
    requires a != [] && IsBody(a)
  {
    if a[0] != 0x5C then 1 else if a[1] == 0x75 then 6 else 2
  }

  lemma ItemFits(a: seq<int>)
    requires a != [] && IsBody(a)
    ensures 1 <= ItemLength(a) <= |a| && IsBody(a[ItemLength(a)..]) && a[0] != 0x22 && (a[0] == 0x5C ==> |a| > 1)
  {
  }

  /** The first item is read in one way only, and a quote ends the body. */
  lemma ItemUnique(a: seq<int>, r: seq<int>, b: seq<int>, q: seq<int>)
    requires IsBody(a) && IsBody(b) && a + ([0x22] + r) == b + ([0x22] + q)
    ensures a == [] <==> b == []
    ensures a != [] ==> ItemLength(a) == ItemLength(b)
  {
    if a != [] { ItemFits(a); }
    if b != [] { ItemFits(b); }
    hide IsBody;
    var s, t := a + ([0x22] + r), b + ([0x22] + q);
    assert s[0] == if a == [] then 0x22 else a[0];
    assert t[0] == if b == [] then 0x22 else b[0];
    assert |a| > 1 && |b| > 1 ==> s[1] == a[1] && t[1] == b[1];
  }

  lemma {:induction false} BodyUnique(a: seq<int>, r: seq<int>, b: seq<int>, q: seq<int>)
    requires IsBody(a) && IsBody(b) && a + ([0x22] + r) == b + ([0x22] + q)
    ensures a == b && r == q
    decreases |a|
  {
    hide IsBody, ItemLength;
    var s, t := [0x22] + r, [0x22] + q;
    ItemUnique(a, r, b, q);
    if a != [] {
      ItemFits(a);
      ItemFits(b);
      var n := ItemLength(a);
      assert a == a[..n] + a[n..] && b == b[..n] + b[n..];
      assert a[..n] + (a[n..] + s) == a + s && b[..n] + (b[n..] + t) == b + t;
      Cancel(a[..n], a[n..] + s, b[..n], b[n..] + t);
      BodyUnique(a[n..], r, b[n..], q);
    } else {
      assert a + s == s && b + t == t;
      Cancel([0x22], r, [0x22], q);
    }
  }

  function SignText(sign: Option<int>): seq<int> { if sign.Some? then [sign.value] else [] }

  predicate IsMark(c: int) { c == 0x65 || c == 0x45 }

  lemma ExponentParts(e: Option<Exponent>, r: seq<int>)
    requires (e.Some? ==> ValidExponent(e.value)) && Ends(r)
    ensures e.Some? <==> Begins(ExponentText(e) + r, IsMark)
    ensures ExponentText(e) + r == if e.None? then r else [e.value.mark] + (SignText(e.value.sign) + (e.value.digits + r))
    ensures NoFraction(ExponentText(e) + r)
  {
    if e.None? {
      assert [] + r == r;
    } else {
      assert ExponentText(e) + r == [e.value.mark] + (SignText(e.value.sign) + (e.value.digits + r));
    }
  }

  lemma ExponentUnique(e: Option<Exponent>, r: seq<int>, f: Option<Exponent>, q: seq<int>)
    requires (e.Some? ==> ValidExponent(e.value)) && (f.Some? ==> ValidExponent(f.value))
    requires ExponentText(e) + r == ExponentText(f) + q && Ends(r) && Ends(q)
    ensures e == f && r == q
  {
    hide ExponentText, SignText;
    ExponentParts(e, r);
    ExponentParts(f, q);
    if e.Some? {
      var x, y := e.value, f.value;
      Cancel([x.mark], SignText(x.sign) + (x.digits + r), [y.mark], SignText(y.sign) + (y.digits + q));
      SignUnique(x.sign, x.digits + r, y.sign, y.digits + q);
      SpanUnique(IsDigit, x.digits, r, y.digits, q);
    }
  }

  lemma SignUnique(a: Option<int>, r: seq<int>, b: Option<int>, q: seq<int>)
    requires (a.Some? ==> a.value == 0x2B || a.value == 0x2D) && (b.Some? ==> b.value == 0x2B || b.value == 0x2D)
    requires SignText(a) + r == SignText(b) + q && Begins(r, IsDigit) && Begins(q, IsDigit)
    ensures a == b && r == q
  {
    assert (SignText(a) + r)[0] == (SignText(b) + q)[0];
    Cancel(SignText(a), r, SignText(b), q);
  }

  /** A character that ends a fraction: not a digit, and no point can come now. */
  predicate NoFraction(r: seq<int>) { r == [] || (!IsDigit(r[0]) && r[0] != 0x2E) }

  predicate IsPoint(c: int) { c == 0x2E }

  lemma FractionParts(f: Option<seq<int>>, r: seq<int>)
    requires NoFraction(r)
    ensures f.Some? <==> Begins(FracText(f) + r, IsPoint)
    ensures FracText(f) + r == if f.None? then r else [0x2E] + (f.value + r)
    ensures !Begins(FracText(f) + r, IsDigit)
  {
    if f.None? {
      assert [] + r == r;
    } else {
      assert FracText(f) + r == [0x2E] + (f.value + r);
    }
  }

  lemma FractionUnique(f: Option<seq<int>>, r: seq<int>, g: Option<seq<int>>, q: seq<int>)
    requires (f.Some? ==> AllDigits(f.value)) && (g.Some? ==> AllDigits(g.value))
    requires FracText(f) + r == FracText(g) + q && NoFraction(r) && NoFraction(q)
    ensures f == g && r == q
  {
    hide FracText;
    FractionParts(f, r);
    FractionParts(g, q);
    if f.Some? {
      Cancel([0x2E], f.value + r, [0x2E], g.value + q);
      SpanUnique(IsDigit, f.value, r, g.value, q);
    }
  }

  lemma MinusUnique(m: bool, a: seq<int>, n: bool, b: seq<int>)
    requires (if m then [0x2D] else []) + a == (if n then [0x2D] else []) + b && Begins(a, IsDigit) && Begins(b, IsDigit)
    ensures m == n && a == b
  {
    assert ((if m then [0x2D] else []) + a)[0] == ((if n then [0x2D] else []) + b)[0];
    Cancel(if m then [0x2D] else [], a, if n then [0x2D] else [], b);
  }

  lemma NumberParts(v: Value, r: seq<int>)
    requires v.Num?
    ensures ValueText(v) + r == (if v.minus then [0x2D] else []) + (v.whole + (FracText(v.frac) + (ExponentText(v.exp) + r)))
  {
    hide ExponentText, FracText;
  }

  lemma NumberUnique(v: Value, r: seq<int>, w: Value, q: seq<int>)
    requires v.Num? && w.Num? && ValidValue(v) && ValidValue(w)
    requires ValueText(v) + r == ValueText(w) + q && Ends(r) && Ends(q)
    ensures v == w && r == q
  {
    hide ExponentText, FracText, ValidExponent, Follows, ValueText;
    var r1, q1 := ExponentText(v.exp) + r, ExponentText(w.exp) + q;
    var r2, q2 := FracText(v.frac) + r1, FracText(w.frac) + q1;
    NumberParts(v, r);
    NumberParts(w, q);
    MinusUnique(v.minus, v.whole + r2, w.minus, w.whole + q2);
    ExponentParts(v.exp, r);
    ExponentParts(w.exp, q);
    FractionParts(v.frac, r1);
    FractionParts(w.frac, q1);
    SpanUnique(IsDigit, v.whole, r2, w.whole, q2);
    FractionUnique(v.frac, r1, w.frac, q1);
    ExponentUnique(v.exp, r, w.exp, q);
  }

  /** What the first character says about a value. */
  function KindOf(v: Value): int {
    match v
    case Str(_) => 0x22
    case Num(_, _, _, _) => 0x2D
    case Lit(l) => LiteralText(l)[0]
    case EmptyArr(_) | Arr(_) => 0x5B
    case EmptyObj(_) | Obj(_) => 0x7B
  }

  lemma FirstCharacter(v: Value, r: seq<int>)
    requires ValidValue(v)
    ensures ValueText(v) != [] && (ValueText(v) + r)[0] == ValueText(v)[0]
    ensures KindOf(v) == if IsDigit(ValueText(v)[0]) then 0x2D else ValueText(v)[0]
    ensures !IsWs(ValueText(v)[0]) && ValueText(v)[0] != 0x5D && ValueText(v)[0] != 0x2C
  {
  }

  lemma {:induction false} ValueUnique(v: Value, r: seq<int>, w: Value, q: seq<int>)
    requires ValidValue(v) && ValidValue(w) && Ends(r) && Ends(q)
    requires ValueText(v) + r == ValueText(w) + q
    ensures v == w && r == q
    decreases v, 1
  {
    hide IsBody, ValidNumber, Follows, NumberText;
    FirstCharacter(v, r);
    FirstCharacter(w, q);
    match v {
      case Str(a) =>
        assert ValueText(v) + r == [0x22] + (a + ([0x22] + r));
        assert ValueText(w) + q == [0x22] + (w.body + ([0x22] + q));
        Cancel([0x22], a + ([0x22] + r), [0x22], w.body + ([0x22] + q));
        BodyUnique(a, r, w.body, q);
      case Num(_, _, _, _) => NumberUnique(v, r, w, q);
      case Lit(l) => Cancel(LiteralText(l), r, LiteralText(w.lit), q);
      case EmptyArr(_) | Arr(_) => ArrayUnique(v, r, w, q);
      case EmptyObj(_) | Obj(_) => ObjectUnique(v, r, w, q);
    }
  }

  /** A comma or a closing bracket. */
  predicate Separates(t: seq<int>) { t != [] && (t[0] == 0x2C || t[0] == 0x5D || t[0] == 0x7D) }

  lemma SpacedEnds(post: seq<int>, t: seq<int>)
    requires AllWs(post) && Separates(t)
    ensures Ends(post + t)
  {
    assert (post + t)[0] == if post == [] then t[0] else post[0];
  }

  lemma {:induction false} SpacedUnique(pre: seq<int>, v: Value, post: seq<int>, t: seq<int>,
                                        pre': seq<int>, w: Value, post': seq<int>, u: seq<int>)
    requires AllWs(pre) && AllWs(post) && ValidValue(v) && Separates(t)
    requires AllWs(pre') && AllWs(post') && ValidValue(w) && Separates(u)
    requires pre + (ValueText(v) + (post + t)) == pre' + (ValueText(w) + (post' + u))
    ensures pre == pre' && v == w && post == post' && t == u
    decreases v, 2
  {
    hide ValueText, ValidValue, Ends;
    FirstCharacter(v, post + t);
    FirstCharacter(w, post' + u);
    SpanUnique(IsWs, pre, ValueText(v) + (post + t), pre', ValueText(w) + (post' + u));
    SpacedEnds(post, t);
    SpacedEnds(post', u);
    ValueUnique(v, post + t, w, post' + u);
    SpanUnique(IsWs, post, t, post', u);
  }

  /** What comes after an element and the white space behind it, inside an array
      that is followed by `r`. */
  function ElemsEnd(es: Elems, r: seq<int>): seq<int> {
    if es.MoreElems? then [0x2C] + (ElemsText(es.rest) + r) else r
  }

  lemma ElemsParts(es: Elems, r: seq<int>)
    ensures ElemsText(es) + r == es.pre + (ValueText(es.v) + (es.post + ElemsEnd(es, r)))
  {
    hide ValueText;
  }

  lemma {:induction false} ElemsUnique(es: Elems, r: seq<int>, fs: Elems, q: seq<int>)
    requires ValidElems(es) && ValidElems(fs) && ElemsText(es) + r == ElemsText(fs) + q
    requires r != [] && r[0] == 0x5D && q != [] && q[0] == 0x5D
    ensures es == fs && r == q
    decreases es, 3
  {
    hide ValueText, ValidValue, ElemsText, AllWs;
    ElemsParts(es, r);
    ElemsParts(fs, q);
    SpacedUnique(es.pre, es.v, es.post, ElemsEnd(es, r), fs.pre, fs.v, fs.post, ElemsEnd(fs, q));
    if es.MoreElems? {
      Cancel([0x2C], ElemsText(es.rest) + r, [0x2C], ElemsText(fs.rest) + q);
      ElemsUnique(es.rest, r, fs.rest, q);
    }
  }

  /** An array of white space is not one that has elements. */
  lemma EmptyOrNot(ws: seq<int>, r: seq<int>, es: Elems, q: seq<int>)
    requires AllWs(ws) && ValidElems(es) && r != [] && r[0] == 0x5D
    ensures ws + r != ElemsText(es) + q
  {
    hide ValueText, ValidValue, ElemsText;
    ElemsParts(es, q);
    FirstCharacter(es.v, es.post + ElemsEnd(es, q));
    if ws + r == ElemsText(es) + q {
      SpanUnique(IsWs, ws, r, es.pre, ValueText(es.v) + (es.post + ElemsEnd(es, q)));
    }
  }

  lemma {:induction false} ArrayUnique(v: Value, r: seq<int>, w: Value, q: seq<int>)
    requires ValidValue(v) && ValidValue(w) && ValueText(v) + r == ValueText(w) + q
    requires (v.Arr? || v.EmptyArr?) && (w.Arr? || w.EmptyArr?)
    ensures v == w && r == q
    decreases v, 0
  {
    hide ElemsText, ValidElems;
    var a, b := if v.Arr? then ElemsText(v.elems) else v.ws, if w.Arr? then ElemsText(w.elems) else w.ws;
    var r', q' := [0x5D] + r, [0x5D] + q;
    assert ValueText(v) + r == [0x5B] + (a + r') && ValueText(w) + q == [0x5B] + (b + q');
    Cancel([0x5B], a + r', [0x5B], b + q');
    if v.Arr? && w.Arr? {
      ElemsUnique(v.elems, r', w.elems, q');
    } else if v.Arr? {
      EmptyOrNot(b, q', v.elems, r');
    } else if w.Arr? {
      EmptyOrNot(a, r', w.elems, q');
    } else {
      SpanUnique(IsWs, a, r', b, q');
    }
    Cancel([0x5D], r, [0x5D], q);
  }

  /** From the name of a member on, in an object that is followed by `r`. */
  function Named(ms: Members, r: seq<int>): seq<int> {
    [0x22] + (ms.key + ([0x22] + (ms.mid + ([0x3A] + Valued(ms, r)))))
  }

  function Valued(ms: Members, r: seq<int>): seq<int> {
    ms.pre2 + (ValueText(ms.v) + (ms.post + MembersEnd(ms, r)))
  }

  function MembersEnd(ms: Members, r: seq<int>): seq<int> {
    if ms.MoreMembers? then [0x2C] + (MembersText(ms.rest) + r) else r
  }

  lemma Regroup(a: seq<int>, b: seq<int>, c: seq<int>, d: seq<int>, e: seq<int>)
    ensures a + b + c + d + e == a + (b + (c + (d + e)))
  {
  }

  lemma MembersParts(ms: Members, r: seq<int>)
    ensures MembersText(ms) + r == ms.pre + Named(ms, r)
  {
    hide ValueText, Quoted;
    var head := ms.pre + Quoted(ms.key) + ms.mid + [0x3A];
    var tail := if ms.MoreMembers? then [0x2C] + MembersText(ms.rest) else [];
    var all := head + ms.pre2 + ValueText(ms.v) + ms.post;
    assert MembersText(ms) == all + tail;
    TailEnds(ms, r);
    Assoc(all, tail, r);
    Regroup(head, ms.pre2, ValueText(ms.v), ms.post, tail + r);
    Regroup(ms.pre, Quoted(ms.key), ms.mid, [0x3A], Valued(ms, r));
    NameQuoted(ms, r);
  }

  lemma TailEnds(ms: Members, r: seq<int>)
    ensures (if ms.MoreMembers? then [0x2C] + MembersText(ms.rest) else []) + r == MembersEnd(ms, r)
  {
    hide MembersText;
    if ms.LastMember? { assert [] + r == r; } else { Assoc([0x2C], MembersText(ms.rest), r); }
  }

  lemma NameQuoted(ms: Members, r: seq<int>)
    ensures Named(ms, r) == Quoted(ms.key) + (ms.mid + ([0x3A] + Valued(ms, r)))
  {
    hide Valued;
    var rest := ms.mid + ([0x3A] + Valued(ms, r));
    Assoc([0x22], ms.key, [0x22]);
    Assoc([0x22], ms.key + [0x22], rest);
    Assoc(ms.key, [0x22], rest);
  }

  lemma NamedUnique(ms: Members, r: seq<int>, ns: Members, q: seq<int>)
    requires ValidMembers(ms) && ValidMembers(ns) && MembersText(ms) + r == MembersText(ns) + q
    ensures ms.pre == ns.pre && ms.key == ns.key && ms.mid == ns.mid && Valued(ms, r) == Valued(ns, q)
  {
    hide Valued, MembersText, IsBody, ValidValue;
    MembersParts(ms, r);
    MembersParts(ns, q);
    SpanUnique(IsWs, ms.pre, Named(ms, r), ns.pre, Named(ns, q));
    var a, b := ms.mid + ([0x3A] + Valued(ms, r)), ns.mid + ([0x3A] + Valued(ns, q));
    Cancel([0x22], ms.key + ([0x22] + a), [0x22], ns.key + ([0x22] + b));
    BodyUnique(ms.key, a, ns.key, b);
    SpanUnique(IsWs, ms.mid, [0x3A] + Valued(ms, r), ns.mid, [0x3A] + Valued(ns, q));
    Cancel([0x3A], Valued(ms, r), [0x3A], Valued(ns, q));
  }

  lemma {:induction false} MembersUnique(ms: Members, r: seq<int>, ns: Members, q: seq<int>)
    requires ValidMembers(ms) && ValidMembers(ns) && MembersText(ms) + r == MembersText(ns) + q
    requires r != [] && r[0] == 0x7D && q != [] && q[0] == 0x7D
    ensures ms == ns && r == q
    decreases ms, 3
  {
    hide ValueText, ValidValue, MembersText, AllWs, IsBody;
    NamedUnique(ms, r, ns, q);
    SpacedUnique(ms.pre2, ms.v, ms.post, MembersEnd(ms, r), ns.pre2, ns.v, ns.post, MembersEnd(ns, q));
    if ms.MoreMembers? {
      Cancel([0x2C], MembersText(ms.rest) + r, [0x2C], MembersText(ns.rest) + q);
      MembersUnique(ms.rest, r, ns.rest, q);
    }
  }

  /** An object of white space is not one that has members. */
  lemma BareOrNot(ws: seq<int>, r: seq<int>, ms: Members, q: seq<int>)
    requires AllWs(ws) && ValidMembers(ms) && r != [] && r[0] == 0x7D
    ensures ws + r != MembersText(ms) + q
  {
    hide Valued, MembersText;
    MembersParts(ms, q);
    if ws + r == MembersText(ms) + q {
      SpanUnique(IsWs, ws, r, ms.pre, Named(ms, q));
    }
  }

  lemma {:induction false} ObjectUnique(v: Value, r: seq<int>, w: Value, q: seq<int>)
    requires ValidValue(v) && ValidValue(w) && ValueText(v) + r == ValueText(w) + q
    requires (v.Obj? || v.EmptyObj?) && (w.Obj? || w.EmptyObj?)
    ensures v == w && r == q
    decreases v, 0
  {
    hide MembersText, ValidMembers;
    var a, b := if v.Obj? then MembersText(v.members) else v.ws, if w.Obj? then MembersText(w.members) else w.ws;
    var r', q' := [0x7D] + r, [0x7D] + q;
    assert ValueText(v) + r == [0x7B] + (a + r') && ValueText(w) + q == [0x7B] + (b + q');
    Cancel([0x7B], a + r', [0x7B], b + q');
    if v.Obj? && w.Obj? {
      MembersUnique(v.members, r', w.members, q');
    } else if v.Obj? {
      BareOrNot(b, q', v.members, r');
    } else if w.Obj? {
      BareOrNot(a, r', w.members, q');
    } else {
      SpanUnique(IsWs, a, r', b, q');
    }
    Cancel([0x7D], r, [0x7D], q);
  }

  /** A text has at most one tree. */
  lemma OneTree(d: Doc, e: Doc)
    requires ValidDoc(d) && ValidDoc(e) && DocText(d) == DocText(e)
    ensures d == e
  {
    hide ValueText, ValidValue, Ends;
    FirstCharacter(d.v, d.post);
    FirstCharacter(e.v, e.post);
    assert DocText(d) == d.pre + (ValueText(d.v) + d.post) && DocText(e) == e.pre + (ValueText(e.v) + e.post);
    SpanUnique(IsWs, d.pre, ValueText(d.v) + d.post, e.pre, ValueText(e.v) + e.post);
    WsEnds(d.post);
    WsEnds(e.post);
    ValueUnique(d.v, d.post, e.v, e.post);
  }

  lemma WsEnds(post: seq<int>)
    requires AllWs(post)
    ensures Ends(post)
  {
  }
}
