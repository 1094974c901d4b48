/** The texts that the JSON scanner is meant to recognise, as parse trees with
    the text each tree stands for.  A text is a sequence of character codes, one
    per call of `check_char`; codes from 128 up may occur only inside strings.

    The grammar is that of RFC 8259 with two differences in numbers (section 6):
    a fraction may have no digits, and the number zero takes an exponent only
    after a fraction; and one in strings (section 7): there is no largest code.
    RFC 8259 itself follows below it. */
module JsonGrammar {

  import opened Basics

  /** `e` or `E`, an optional sign, digits. */
  datatype Exponent = Exponent(mark: int, sign: Option<int>, digits: seq<int>)

  datatype Literal = True | False | Null

  datatype Value =
    | Str(body: seq<int>)
    | Num(minus: bool, whole: seq<int>, frac: Option<seq<int>>, exp: Option<Exponent>)
    | Lit(lit: Literal)
    | EmptyArr(ws: seq<int>)
    | Arr(elems: Elems)
    | EmptyObj(ws: seq<int>)
    | Obj(members: Members)

  datatype Elems =
    | LastElem(pre: seq<int>, v: Value, post: seq<int>)
    | MoreElems(pre: seq<int>, v: Value, post: seq<int>, rest: Elems)

  datatype Members =
    | LastMember(pre: seq<int>, key: seq<int>, mid: seq<int>, pre2: seq<int>, v: Value, post: seq<int>)
    | MoreMembers(pre: seq<int>, key: seq<int>, mid: seq<int>, pre2: seq<int>, v: Value, post: seq<int>, rest: Members)

  datatype Doc = Doc(pre: seq<int>, v: Value, post: seq<int>)

  // Character sets

  predicate IsWs(c: int) { c == 0x20 || c == 9 || c == 10 || c == 13 }

  predicate IsDigit(c: int) { 0x30 <= c <= 0x39 }

  predicate IsHex(c: int) { IsDigit(c) || 0x41 <= c <= 0x46 || 0x61 <= c <= 0x66 }

  /** The characters that may follow a backslash, other than `u`. */
  predicate IsEscape(c: int) {
    c == 0x22 || c == 0x5C || c == 0x2F || c == 0x62 || c == 0x66 || c == 0x6E || c == 0x72 || c == 0x74
  }

  /** Characters that stand for themselves inside a string. */
  predicate IsPlain(c: int) { 0x20 <= c && c != 0x22 && c != 0x5C }

  predicate AllWs(s: seq<int>) { forall i :: 0 <= i < |s| ==> IsWs(s[i]) }

  predicate AllDigits(s: seq<int>) { forall i :: 0 <= i < |s| ==> IsDigit(s[i]) }

  /** The inside of a string: plain characters, two-character escapes and `\uXXXX`. */
  predicate IsBody(s: seq<int>)
    decreases |s|
  {
    if s == [] then true
    else if s[0] == 0x5C then
      if |s| < 2 then false
      else if s[1] == 0x75 then
        |s| >= 6 && IsHex(s[2]) && IsHex(s[3]) && IsHex(s[4]) && IsHex(s[5]) && IsBody(s[6..])
      else IsEscape(s[1]) && IsBody(s[2..])
    else IsPlain(s[0]) && IsBody(s[1..])
  }

  predicate IsWhole(s: seq<int>) {
    s != [] && AllDigits(s) && (s[0] == 0x30 ==> |s| == 1)
  }

  predicate ValidExponent(e: Exponent) {
    (e.mark == 0x65 || e.mark == 0x45) && (e.sign.Some? ==> e.sign.value == 0x2B || e.sign.value == 0x2D)
    && e.digits != [] && AllDigits(e.digits)
  }

  predicate ValidNumber(whole: seq<int>, frac: Option<seq<int>>, exp: Option<Exponent>) {
    && IsWhole(whole)
    && (frac.Some? ==> AllDigits(frac.value))
    && (exp.Some? ==> ValidExponent(exp.value) && (whole == [0x30] ==> frac.Some?))
  }

  predicate ValidValue(v: Value) {
    match v
    case Str(body) => IsBody(body)
    case Num(_, whole, frac, exp) => ValidNumber(whole, frac, exp)
    case Lit(_) => true
    case EmptyArr(ws) => AllWs(ws)
    case Arr(es) => ValidElems(es)
    case EmptyObj(ws) => AllWs(ws)
    case Obj(ms) => ValidMembers(ms)
  }

  predicate ValidElems(es: Elems) {
    AllWs(es.pre) && ValidValue(es.v) && AllWs(es.post) && (es.MoreElems? ==> ValidElems(es.rest))
  }

  predicate ValidMembers(ms: Members) {
    AllWs(ms.pre) && IsBody(ms.key) && AllWs(ms.mid) && AllWs(ms.pre2) && ValidValue(ms.v) && AllWs(ms.post)
    && (ms.MoreMembers? ==> ValidMembers(ms.rest))
  }

  predicate ValidDoc(d: Doc) {
    AllWs(d.pre) && AllWs(d.post) && ValidValue(d.v) && !d.v.Str? && !d.v.Num? && !d.v.Lit?
  }

  // RFC 8259 itself

  /** Is every code one of Unicode's? */
  predicate Codes(s: seq<int>) { forall i :: 0 <= i < |s| ==> s[i] <= 0x10FFFF }

  /** Section 6 of RFC 8259: a fraction has digits, and any whole part may take an exponent. */
  predicate RfcNumber(whole: seq<int>, frac: Option<seq<int>>, exp: Option<Exponent>) {
    && IsWhole(whole)
    && (frac.Some? ==> frac.value != [] && AllDigits(frac.value))
    && (exp.Some? ==> ValidExponent(exp.value))
  }

  /** Section 7 of RFC 8259: what stands for itself in a string ends at 10FFFF. */
  predicate RfcBody(s: seq<int>) { IsBody(s) && Codes(s) }

  predicate RfcValue(v: Value) {
    match v
    case Str(body) => RfcBody(body)
    case Num(_, whole, frac, exp) => RfcNumber(whole, frac, exp)
    case Lit(_) => true
    case EmptyArr(ws) => AllWs(ws)
    case Arr(es) => RfcElems(es)
    case EmptyObj(ws) => AllWs(ws)
    case Obj(ms) => RfcMembers(ms)
  }

  predicate RfcElems(es: Elems) {
    AllWs(es.pre) && RfcValue(es.v) && AllWs(es.post) && (es.MoreElems? ==> RfcElems(es.rest))
  }

  predicate RfcMembers(ms: Members) {
    AllWs(ms.pre) && RfcBody(ms.key) && AllWs(ms.mid) && AllWs(ms.pre2) && RfcValue(ms.v) && AllWs(ms.post)
    && (ms.MoreMembers? ==> RfcMembers(ms.rest))
  }

  /** A JSON text of RFC 8259 whose value is an array or object. */
  predicate RfcDoc(d: Doc) {
    AllWs(d.pre) && AllWs(d.post) && RfcValue(d.v) && !d.v.Str? && !d.v.Num? && !d.v.Lit?
  }

  /** Does some number in the value have the whole part zero, no fraction, and an exponent? */
  predicate BareZeroExponent(v: Value) {
    match v
    case Num(_, whole, frac, exp) => whole == [0x30] && frac.None? && exp.Some?
    case Arr(es) => ElemsBareZero(es)
    case Obj(ms) => MembersBareZero(ms)
    case _ => false
  }

  predicate ElemsBareZero(es: Elems) {
    BareZeroExponent(es.v) || (es.MoreElems? && ElemsBareZero(es.rest))
  }

  predicate MembersBareZero(ms: Members) {
    BareZeroExponent(ms.v) || (ms.MoreMembers? && MembersBareZero(ms.rest))
  }

  /** Does some number in the value have a point without digits after it? */
  predicate EmptyFraction(v: Value) {
    match v
    case Num(_, _, frac, _) => frac == Some([])
    case Arr(es) => ElemsEmptyFraction(es)
    case Obj(ms) => MembersEmptyFraction(ms)
    case _ => false
  }

  predicate ElemsEmptyFraction(es: Elems) {
    EmptyFraction(es.v) || (es.MoreElems? && ElemsEmptyFraction(es.rest))
  }

  predicate MembersEmptyFraction(ms: Members) {
    EmptyFraction(ms.v) || (ms.MoreMembers? && MembersEmptyFraction(ms.rest))
  }

  // The text of a tree

  function Quoted(body: seq<int>): seq<int> { [0x22] + body + [0x22] }

  function ExponentText(e: Option<Exponent>): seq<int> {
    if e.None? then [] else [e.value.mark] + (if e.value.sign.Some? then [e.value.sign.value] else []) + e.value.digits
  }

  function FracText(frac: Option<seq<int>>): seq<int> {
    if frac.None? then [] else [0x2E] + frac.value
  }

  function NumberText(minus: bool, whole: seq<int>, frac: Option<seq<int>>, exp: Option<Exponent>): seq<int> {
    (if minus then [0x2D] else []) + (whole + (FracText(frac) + ExponentText(exp)))
  }

  function LiteralText(l: Literal): seq<int> {
    match l
    case True => [0x74, 0x72, 0x75, 0x65]
    case False => [0x66, 0x61, 0x6C, 0x73, 0x65]
    case Null => [0x6E, 0x75, 0x6C, 0x6C]
  }

  function ValueText(v: Value): seq<int> {
    match v
    case Str(body) => Quoted(body)
    case Num(minus, whole, frac, exp) => NumberText(minus, whole, frac, exp)
    case Lit(l) => LiteralText(l)
    case EmptyArr(ws) => [0x5B] + ws + [0x5D]
    case Arr(es) => [0x5B] + ElemsText(es) + [0x5D]
    case EmptyObj(ws) => [0x7B] + ws + [0x7D]
    case Obj(ms) => [0x7B] + MembersText(ms) + [0x7D]
  }

  function ElemsText(es: Elems): seq<int> {
    es.pre + ValueText(es.v) + es.post + (if es.MoreElems? then [0x2C] + ElemsText(es.rest) else [])
  }

  function MembersText(ms: Members): seq<int> {
    ms.pre + Quoted(ms.key) + ms.mid + [0x3A] + ms.pre2 + ValueText(ms.v) + ms.post
    + (if ms.MoreMembers? then [0x2C] + MembersText(ms.rest) else [])
  }

  function DocText(d: Doc): seq<int> { d.pre + ValueText(d.v) + d.post }

  /** The text of some tree of RFC 8259. */
  ghost predicate IsRfcText(s: seq<int>) { exists d: Doc :: RfcDoc(d) && DocText(d) == s }

  // Measures of a tree

  /** Nesting depth: 0 for a scalar, one more than the deepest child otherwise. */
  function Depth(v: Value): nat {
    match v
    case Str(_) | Num(_, _, _, _) | Lit(_) => 0
    case EmptyArr(_) | EmptyObj(_) => 1
    case Arr(es) => 1 + ElemsDepth(es)
    case Obj(ms) => 1 + MembersDepth(ms)
  }

  function ElemsDepth(es: Elems): nat {
    if es.MoreElems? then Max(Depth(es.v), ElemsDepth(es.rest)) else Depth(es.v)
  }

  function MembersDepth(ms: Members): nat {
    if ms.MoreMembers? then Max(Depth(ms.v), MembersDepth(ms.rest)) else Depth(ms.v)
  }

  /** Number of separating commas. */
  function Commas(v: Value): nat {
    match v
    case Arr(es) => ElemsCommas(es)
    case Obj(ms) => MembersCommas(ms)
    case _ => 0
  }

  function ElemsCommas(es: Elems): nat {
    Commas(es.v) + (if es.MoreElems? then 1 + ElemsCommas(es.rest) else 0)
  }

  function MembersCommas(ms: Members): nat {
    Commas(ms.v) + (if ms.MoreMembers? then 1 + MembersCommas(ms.rest) else 0)
  }

  /** `s` is white space around one array or object, nested at most `depth` deep,
      with `commas` separating commas. */
  ghost predicate IsJson(s: seq<int>, depth: nat, commas: nat) {
    exists d: Doc :: ValidDoc(d) && DocText(d) == s && Depth(d.v) <= depth && Commas(d.v) == commas
  }
}
