/** Parsing what was emitted gives back what was parsed. */
module XmlRoundTrip {
  import opened Basics
  import opened XmlToDict

  // ---------------------------------------------------------------------------
  // What parsing can produce

  /** Attributes come first, then children, then the text. */
  function Rank(k: string): nat { if k == TEXT_KEY then 2 else if IsAttrKey(k) then 0 else 1 }

  predicate HasKey(es: seq<Entry>, k: string) { exists i :: 0 <= i < |es| && es[i].key == k }

  predicate UniqueKeys(es: seq<Entry>) { forall i, j :: 0 <= i < j < |es| ==> es[i].key != es[j].key }

  predicate Ordered(es: seq<Entry>) { forall i, j :: 0 <= i < j < |es| ==> Rank(es[i].key) <= Rank(es[j].key) }

  ghost predicate Producible(v: Val)
    decreases v, 1
  {
    match v
    case Null => true
    case Str(s) => Stripped(s)
    case Dict(es) =>
      es != [] && Rank(es[0].key) < 2 && UniqueKeys(es) && Ordered(es)
      && forall i :: 0 <= i < |es| ==> GoodEntry(es[i])
  }

  ghost predicate GoodEntry(e: Entry)
    decreases e, 0
  {
    if Rank(e.key) == 0 then e.slot.One? && e.slot.v.Str?
    else if Rank(e.key) == 2 then e.slot.One? && e.slot.v.Str? && Stripped(e.slot.v.s)
    else GoodSlot(e.slot)
  }

  ghost predicate GoodSlot(slot: Slot)
    decreases slot, 0
  {
    match slot
    case One(v) => Producible(v)
    case Many(vs) => |vs| >= 2 && forall i :: 0 <= i < |vs| ==> Producible(vs[i])
  }

  // ---------------------------------------------------------------------------
  // Replaying an emission

  function ItemOf(es: seq<Entry>): Option<seq<Entry>> { if es == [] then None else Some(es) }

  /** The handler after `evs`, with `rest` still to come, is `next`. */
  ghost predicate Leads(h: State, evs: seq<Event>, next: State, rest: seq<Event>) {
    Nested(|h.path|, evs + rest) && Nested(|next.path|, rest) && Run(h, evs + rest) == Run(next, rest)
  }

  lemma LeadsNothing(h: State, rest: seq<Event>)
    requires Nested(|h.path|, rest)
    ensures Leads(h, [], h, rest)
  {
    assert [] + rest == rest;
  }

  lemma LeadsStep(h: State, e: Event, rest: seq<Event>)
    requires (e.End? ==> h.path != []) && Nested(|Step(h, e).path|, rest)
    ensures Leads(h, [e], Step(h, e), rest)
  {
    assert ([e] + rest)[1..] == rest;
  }

  lemma LeadsChain(h: State, a: seq<Event>, mid: State, b: seq<Event>, next: State, rest: seq<Event>)
    requires Leads(h, a, mid, b + rest) && Leads(mid, b, next, rest)
    ensures Leads(h, a + b, next, rest)
  {
    assert a + b + rest == a + (b + rest);
  }

  function WithChild(h: State, key: string, v: Val): State { h.(item := Some(PushData(h.item, key, v))) }

  /** Start, what comes between, and end of an element. */
  lemma CloseElement(h: State, key: string, attrs: seq<Attr>, inner: seq<Event>, item: Option<seq<Entry>>, data: Option<string>, rest: seq<Event>)
    requires Nested(|h.path|, rest)
    requires var h1 := OnStart(h, key, attrs); Leads(h1, inner, h1.(item := item, data := data), [End(key)] + rest)
    ensures Leads(h, [Start(key, attrs)] + inner + [End(key)], WithChild(h, key, Closed(item, data)), rest)
  {
    hide Leads, PushData, Closed;
    var h1 := OnStart(h, key, attrs);
    var h2 := h1.(item := item, data := data);
    assert h2.path[..|h2.path| - 1] == h.path && h2.stack[..|h2.stack| - 1] == h.stack;
    assert OnEnd(h2, key) == WithChild(h, key, Closed(item, data));
    LeadsStep(h2, End(key), rest);
    LeadsChain(h1, inner, h2, [End(key)], OnEnd(h2, key), rest);
    assert Nested(|h1.path|, inner + [End(key)] + rest) by { LeadsNested(h1, inner + [End(key)], OnEnd(h2, key), rest); }
    LeadsStep(h, Start(key, attrs), inner + [End(key)] + rest);
    LeadsChain(h, [Start(key, attrs)], h1, inner + [End(key)], OnEnd(h2, key), rest);
    assert [Start(key, attrs)] + inner + [End(key)] == [Start(key, attrs)] + (inner + [End(key)]);
  }

  lemma LeadsNested(h: State, a: seq<Event>, next: State, rest: seq<Event>)
    requires Leads(h, a, next, rest)
    ensures Nested(|h.path|, a + rest) && Nested(|next.path|, rest)
  {
  }

  /** Emitting one value under a key and parsing it pushes that value under that key. */
  lemma {:induction false} ReplayValue(h: State, key: string, v: Val, rest: seq<Event>)
    requires Producible(v) && Nested(|h.path|, rest)
    ensures Leads(h, ElementEvents(key, v), WithChild(h, key, v), rest)
    decreases v, 1
  {
    hide Leads, PushData, Strip;
    var h1 := OnStart(h, key, []);
    match v {
      case Null =>
        LeadsNothing(h1, [End(key)] + rest);
        CloseElement(h, key, [], [], None, None, rest);
        assert [Start(key, [])] + [] + [End(key)] == ElementEvents(key, v);
      case Str(s) =>
        StripIsStripped(s);
        LeadsStep(h1, Chars(s), [End(key)] + rest);
        CloseElement(h, key, [], [Chars(s)], None, Some(s), rest);
        assert [Start(key, [])] + [Chars(s)] + [End(key)] == ElementEvents(key, v);
      case Dict(es) =>
        ReplayDict(h, key, es, rest);
    }
  }

  /** How many entries of an ordered dictionary have a rank below `r`. */
  function Below(es: seq<Entry>, r: nat): (n: nat)
    ensures n <= |es|
    decreases |es|
  {
    if es == [] then 0 else if Rank(es[0].key) < r then 1 + Below(es[1..], r) else 0
  }

  lemma {:induction false} BelowSplits(es: seq<Entry>, r: nat)
    requires Ordered(es)
    ensures forall i :: 0 <= i < |es| ==> (i < Below(es, r) <==> Rank(es[i].key) < r)
    decreases |es|
  {
    if es != [] {
      assert forall i :: 0 <= i < |es[1..]| ==> es[1..][i] == es[i + 1];
      BelowSplits(es[1..], r);
    }
  }

  /** The attribute entries come back from the emitted attributes. */
  lemma {:induction false} AttrsComeBack(es: seq<Entry>)
    requires Ordered(es) && forall i :: 0 <= i < |es| ==> GoodEntry(es[i])
    ensures AttrEntries(Attrs(es)) == es[..Below(es, 1)]
    decreases |es|
  {
    if es != [] {
      assert forall i :: 0 <= i < |es[1..]| ==> es[1..][i] == es[i + 1];
      AttrsComeBack(es[1..]);
      if Rank(es[0].key) == 0 {
        assert es[0].key == "@" + es[0].key[1..];
        assert es[..Below(es, 1)] == [es[0]] + es[1..][..Below(es[1..], 1)];
      } else {
        BelowSplits(es, 1);
        NoAttrs(es);
      }
    }
  }

  lemma {:induction false} NoAttrs(es: seq<Entry>)
    requires forall i :: 0 <= i < |es| ==> Rank(es[i].key) != 0
    ensures Attrs(es) == []
    decreases |es|
  {
    if es != [] {
      assert Rank(es[0].key) != 0;
      assert forall i :: 0 <= i < |es[1..]| ==> es[1..][i] == es[i + 1];
      NoAttrs(es[1..]);
    }
  }

  /** Attributes and text emit no child events. */
  lemma {:induction false} SkipEntries(a: seq<Entry>, b: seq<Entry>)
    requires forall i :: 0 <= i < |a| ==> Rank(a[i].key) != 1
    ensures EntriesEvents(a + b) == EntriesEvents(b)
    decreases |a|
  {
    if a == [] {
      assert a + b == b;
    } else {
      assert Rank(a[0].key) != 1;
      assert forall i :: 0 <= i < |a[1..]| ==> a[1..][i] == a[i + 1];
      SkipEntries(a[1..], b);
      assert (a + b)[1..] == a[1..] + b;
    }
  }

  lemma {:induction false} EntriesConcat(a: seq<Entry>, b: seq<Entry>)
    ensures EntriesEvents(a + b) == EntriesEvents(a) + EntriesEvents(b)
    decreases |a|
  {
    hide EntryEvents;
    if a == [] {
      assert a + b == b;
    } else {
      EntriesConcat(a[1..], b);
      assert (a + b)[1..] == a[1..] + b;
      Assoc(EntryEvents(a[0]), EntriesEvents(a[1..]), EntriesEvents(b));
    }
  }

  /** The text entry, if any, is the last one and is found by `_emit`. */
  lemma {:induction false} CdataIsLast(es: seq<Entry>)
    requires Ordered(es) && UniqueKeys(es) && forall i :: 0 <= i < |es| ==> GoodEntry(es[i])
    ensures var c := Below(es, 2);
            && c + 1 >= |es| && (c == |es| ==> Cdata(es) == None)
            && (c < |es| ==> es[c].key == TEXT_KEY && es[c].slot.One? && es[c].slot.v.Str? && Stripped(es[c].slot.v.s)
                             && Cdata(es) == Some(es[c].slot.v.s))
    decreases |es|
  {
    if es != [] {
      assert forall i :: 0 <= i < |es[1..]| ==> es[1..][i] == es[i + 1];
      CdataIsLast(es[1..]);
      assert |es| > 1 ==> es[0].key != es[1].key && Rank(es[0].key) <= Rank(es[1].key);
    }
  }

  /** The entries for children, one after the other, rebuild themselves behind what
      is already in the dictionary. */
  lemma {:induction false} ReplayEntries(h: State, done: seq<Entry>, es: seq<Entry>, rest: seq<Event>)
    requires h.item == ItemOf(done) && UniqueKeys(done + es)
    requires forall i :: 0 <= i < |es| ==> Rank(es[i].key) == 1 && GoodEntry(es[i])
    requires Nested(|h.path|, rest)
    ensures Leads(h, EntriesEvents(es), h.(item := ItemOf(done + es)), rest)
    decreases es, 0
  {
    hide Leads, PushData, SlotEvents;
    if es == [] {
      LeadsNothing(h, rest);
      assert done + es == done;
    } else {
      var e := es[0];
      assert Rank(e.key) == 1 && GoodEntry(e);
      var done' := done + [e];
      assert done' + es[1..] == done + es;
      var h' := h.(item := ItemOf(done'));
      assert forall i :: 0 <= i < |es[1..]| ==> es[1..][i] == es[i + 1];
      ReplayEntries(h', done', es[1..], rest);
      assert Nested(|h'.path|, EntriesEvents(es[1..]) + rest) by {
        LeadsNested(h', EntriesEvents(es[1..]), h'.(item := ItemOf(done' + es[1..])), rest);
      }
      NewKey(done, es);
      ReplaySlot(h, done, e, EntriesEvents(es[1..]) + rest);
      LeadsChain(h, SlotEvents(e.key, e.slot), h', EntriesEvents(es[1..]), h.(item := ItemOf(done + es)), rest);
    }
  }

  lemma NewKey(done: seq<Entry>, es: seq<Entry>)
    requires UniqueKeys(done + es) && es != []
    ensures !HasKey(done, es[0].key) && UniqueKeys(done + [es[0]])
  {
    var all := done + es;
    assert all[|done|] == es[0];
    assert forall i :: 0 <= i < |done| ==> all[i] == done[i] && all[i].key != all[|done|].key;
    assert forall i :: 0 <= i < |done| ==> (done + [es[0]])[i] == all[i];
  }

  lemma {:induction false} ReplaySlot(h: State, done: seq<Entry>, e: Entry, rest: seq<Event>)
    requires h.item == ItemOf(done) && !HasKey(done, e.key) && UniqueKeys(done + [e]) && GoodSlot(e.slot)
    requires Nested(|h.path|, rest)
    ensures Leads(h, SlotEvents(e.key, e.slot), h.(item := ItemOf(done + [e])), rest)
    decreases e, 0
  {
    hide Leads;
    match e.slot {
      case One(v) =>
        ReplayValue(h, e.key, v, rest);
        PushFirst(done, |done|, e.key, v);
      case Many(vs) =>
        assert UniqueKeys(done) by { assert forall i :: 0 <= i < |done| ==> (done + [e])[i] == done[i]; }
        ReplayList(h, done, e.key, [], vs, rest);
        assert [] + vs == vs;
    }
  }

  /** The slot that holds a list of values. */
  function SlotOf(vs: seq<Val>): Slot
    requires vs != []
  {
    if |vs| == 1 then One(vs[0]) else Many(vs)
  }

  function DoneWith(done: seq<Entry>, key: string, vs: seq<Val>): seq<Entry> {
    if vs == [] then done else done + [Entry(key, SlotOf(vs))]
  }

  lemma PushMore(done: seq<Entry>, key: string, vs: seq<Val>, v: Val)
    requires !HasKey(done, key) && UniqueKeys(done)
    ensures PushKey(DoneWith(done, key, vs), key, v) == DoneWith(done, key, vs + [v])
  {
    if vs == [] {
      PushFirst(done, |done|, key, v);
    } else {
      var d := DoneWith(done, key, vs);
      assert UniqueKeys(d);
      PushFirst(d, |done|, key, v);
      assert d[|done| := Entry(key, Appended(SlotOf(vs), v))] == done + [Entry(key, Appended(SlotOf(vs), v))];
      if |vs| == 1 { assert vs + [v] == [vs[0], v]; }
    }
  }

  lemma ChildJoins(h: State, done: seq<Entry>, key: string, seen: seq<Val>, v: Val)
    requires h.item == ItemOf(DoneWith(done, key, seen)) && !HasKey(done, key) && UniqueKeys(done)
    ensures WithChild(h, key, v) == h.(item := ItemOf(DoneWith(done, key, seen + [v])))
  {
    hide DoneWith, HasKey, UniqueKeys, PushKey;
    PushMore(done, key, seen, v);
  }

  /** Repeated siblings gather into one list. */
  lemma {:induction false} ReplayList(h: State, done: seq<Entry>, key: string, seen: seq<Val>, vs: seq<Val>, rest: seq<Event>)
    requires h.item == ItemOf(DoneWith(done, key, seen)) && !HasKey(done, key) && UniqueKeys(done)
    requires forall i :: 0 <= i < |vs| ==> Producible(vs[i])
    requires Nested(|h.path|, rest)
    ensures Leads(h, ListEvents(key, vs), h.(item := ItemOf(DoneWith(done, key, seen + vs))), rest)
    decreases vs, 0
  {
    hide Leads, ElementEvents, SlotOf, Producible, DoneWith, WithChild, UniqueKeys, HasKey, ItemOf, Nested;
    if vs == [] {
      LeadsNothing(h, rest);
      assert seen + vs == seen;
    } else {
      ChildJoins(h, done, key, seen, vs[0]);
      var h' := WithChild(h, key, vs[0]);
      assert seen + [vs[0]] + vs[1..] == seen + vs;
      var end := h.(item := ItemOf(DoneWith(done, key, seen + vs)));
      ReplayList(h', done, key, seen + [vs[0]], vs[1..], rest);
      assert Nested(|h'.path|, ListEvents(key, vs[1..]) + rest) by { LeadsNested(h', ListEvents(key, vs[1..]), end, rest); }
      ReplayValue(h, key, vs[0], ListEvents(key, vs[1..]) + rest);
      LeadsChain(h, ElementEvents(key, vs[0]), h', ListEvents(key, vs[1..]), end, rest);
    }
  }

  lemma DictFacts(es: seq<Entry>)
    requires Producible(Dict(es))
    ensures es != [] && Rank(es[0].key) < 2 && UniqueKeys(es) && Ordered(es)
    ensures forall i :: 0 <= i < |es| ==> GoodEntry(es[i])
  {
  }

  lemma PrefixUnique(es: seq<Entry>, a: nat, c: nat)
    requires a <= c <= |es| && UniqueKeys(es)
    ensures es[..a] + es[a..c] == es[..c] && UniqueKeys(es[..c])
  {
  }

  lemma BelowGrows(es: seq<Entry>)
    requires Ordered(es)
    ensures Below(es, 1) <= Below(es, 2)
    ensures forall i :: 0 <= i < |es| ==> (Below(es, 1) <= i < Below(es, 2) <==> Rank(es[i].key) == 1)
  {
    BelowSplits(es, 1);
    BelowSplits(es, 2);
    hide Ordered, Below;
    var c := Below(es, 2);
    assert c < |es| ==> Rank(es[c].key) >= 2;
  }

  /** The three parts of a producible dictionary. */
  lemma DictParts(es: seq<Entry>)
    requires Producible(Dict(es))
    ensures var a, c := Below(es, 1), Below(es, 2);
            && a <= c <= |es| && AttrEntries(Attrs(es)) == es[..a] && UniqueKeys(es[..a] + es[a..c])
            && (forall i :: 0 <= i < |es| ==> (a <= i < c <==> Rank(es[i].key) == 1))
            && (forall i :: 0 <= i < |es[a..c]| ==> Rank(es[a..c][i].key) == 1 && GoodEntry(es[a..c][i]))
  {
    hide Producible, GoodEntry, UniqueKeys, Ordered, Below, Attrs, AttrEntries, Rank;
    DictFacts(es);
    BelowGrows(es);
    AttrsComeBack(es);
    var a, c := Below(es, 1), Below(es, 2);
    PrefixUnique(es, a, c);
    assert forall i :: 0 <= i < |es[a..c]| ==> es[a..c][i] == es[a + i];
  }

  lemma {:induction false} ReplayDict(h: State, key: string, es: seq<Entry>, rest: seq<Event>)
    requires Producible(Dict(es)) && Nested(|h.path|, rest)
    ensures Leads(h, ElementEvents(key, Dict(es)), WithChild(h, key, Dict(es)), rest)
    decreases es, 1
  {
    hide Leads, PushData, Producible, GoodEntry, UniqueKeys, Closed, Below, Cdata, Attrs, Nested, EntriesEvents, AttrEntries, Rank;
    var a, c := Below(es, 1), Below(es, 2);
    DictParts(es);
    ClosedDict(es, c);
    var attrs, text := Attrs(es), TextEvents(es);
    var h1 := OnStart(h, key, attrs);
    AttrsEmpty(attrs);
    assert h1.item == ItemOf(es[..a]);
    assert es[..a] + es[a..c] == es[..c];
    var h2 := h1.(item := ItemOf(es[..c]));
    var h3 := h2.(data := Cdata(es));
    var tail := [End(key)] + rest;
    EndNested(h3, key, rest, |h.path|);
    ReplayText(h2, es, tail);
    LeadsNested(h2, text, h3, tail);
    assert (a == 0 ==> es[a..c] == es[..c]) && (c == |es| ==> es[..c] == es && es[a..c] == es[a..]);
    ReplayEntries(h1, es[..a], es[a..c], text + tail);
    ChildEvents(es, a, c);
    LeadsChain(h1, EntriesEvents(es), h2, text, h3, tail);
    CloseElement(h, key, attrs, EntriesEvents(es) + text, ItemOf(es[..c]), Cdata(es), rest);
    assert ElementEvents(key, Dict(es)) == [Start(key, attrs)] + (EntriesEvents(es) + text) + [End(key)];
  }

  function TextEvents(es: seq<Entry>): seq<Event> { if Cdata(es).Some? then [Chars(Cdata(es).value)] else [] }

  lemma AttrsEmpty(attrs: seq<Attr>)
    ensures (if attrs == [] then None else Some(AttrEntries(attrs))) == ItemOf(AttrEntries(attrs))
  {
  }

  lemma EndNested(h: State, key: string, rest: seq<Event>, n: nat)
    requires |h.path| == n + 1 && Nested(n, rest)
    ensures Nested(|h.path|, [End(key)] + rest)
  {
    assert ([End(key)] + rest)[1..] == rest;
  }

  lemma ReplayText(h: State, es: seq<Entry>, tail: seq<Event>)
    requires h.data == None && Nested(|h.path|, tail)
    ensures Leads(h, TextEvents(es), h.(data := Cdata(es)), tail)
  {
    hide Leads;
    if Cdata(es).Some? { LeadsStep(h, Chars(Cdata(es).value), tail); } else { LeadsNothing(h, tail); }
  }

  lemma EntriesNil()
    ensures EntriesEvents([]) == []
  {
  }

  lemma ChildEvents(es: seq<Entry>, a: nat, c: nat)
    requires a <= c <= |es|
    requires forall i :: 0 <= i < |es| ==> (a <= i < c <==> Rank(es[i].key) == 1)
    ensures EntriesEvents(es) == EntriesEvents(es[a..c])
  {
    hide Rank, EntriesEvents;
    var front, mid, back := es[..a], es[a..c], es[c..];
    assert forall i :: 0 <= i < |back| ==> back[i] == es[c + i];
    ThreeParts(es, a, c);
    EntriesNil();
    SkipEntries(front, mid + back);
    EntriesConcat(mid, back);
    SkipEntries(back, []);
    NoMore(back);
  }

  lemma ThreeParts(es: seq<Entry>, a: nat, c: nat)
    requires a <= c <= |es|
    ensures es == es[..a] + (es[a..c] + es[c..])
  {
  }

  lemma NoMore(es: seq<Entry>)
    ensures es + [] == es
  {
  }

  lemma ClosedDict(es: seq<Entry>, c: nat)
    requires Producible(Dict(es)) && c == Below(es, 2)
    ensures Closed(ItemOf(es[..c]), Cdata(es)) == Dict(es)
  {
    hide Producible, GoodEntry, UniqueKeys, Ordered, Below, Cdata, PushKey, Strip, Stripped;
    DictFacts(es);
    BelowSplits(es, 2);
    CdataIsLast(es);
    if c < |es| {
      StripIsStripped(es[c].slot.v.s);
      TextJoins(es, c);
    } else {
      assert es[..c] == es;
    }
  }

  lemma TextJoins(es: seq<Entry>, c: nat)
    requires c + 1 == |es| && UniqueKeys(es) && es[c].key == TEXT_KEY && es[c].slot.One?
    ensures PushKey(es[..c], TEXT_KEY, es[c].slot.v) == es
  {
    hide PushKey;
    assert forall i :: 0 <= i < c ==> es[..c][i].key == es[i].key != es[c].key;
    PushFirst(es[..c], c, TEXT_KEY, es[c].slot.v);
    assert es[..c] + [es[c]] == es;
  }

  // ---------------------------------------------------------------------------
  // XML documents, and what they parse to

  datatype Element = Element(name: string, attrs: seq<Attr>, content: Content)

  datatype Content = Done | Text(text: string, more: Content) | Child(child: Element, more: Content)

  /** An XML name is neither `#text` nor starts with `@`. */
  predicate ValidName(k: string) { Rank(k) == 1 }

  predicate ValidAttrs(attrs: seq<Attr>) { forall i, j :: 0 <= i < j < |attrs| ==> attrs[i].name != attrs[j].name }

  predicate ValidElement(e: Element) { ValidName(e.name) && ValidAttrs(e.attrs) && ValidContent(e.content) }

  predicate ValidContent(c: Content) {
    match c
    case Done => true
    case Text(_, more) => ValidContent(more)
    case Child(e, more) => ValidElement(e) && ValidContent(more)
  }

  /** The parser's events for a document. */
  function TreeEvents(e: Element): seq<Event> { [Start(e.name, e.attrs)] + ContentEvents(e.content) + [End(e.name)] }

  function ContentEvents(c: Content): seq<Event> {
    match c
    case Done => []
    case Text(text, more) => [Chars(text)] + ContentEvents(more)
    case Child(e, more) => TreeEvents(e) + ContentEvents(more)
  }

  /** The children of an element gathered into a dictionary, after `item`. */
  function Gather(item: Option<seq<Entry>>, c: Content): Option<seq<Entry>>
    decreases c, 0
  {
    match c
    case Done => item
    case Text(_, more) => Gather(item, more)
    case Child(e, more) => Gather(Some(PushData(item, e.name, ValueOf(e))), more)
  }

  /** All the text of an element, run together. */
  function GatherText(data: Option<string>, c: Content): Option<string>
    decreases c
  {
    match c
    case Done => data
    case Text(text, more) => GatherText(if data.None? || data.value == "" then Some(text) else Some(data.value + text), more)
    case Child(_, more) => GatherText(data, more)
  }

  /** The value an element parses to. */
  function ValueOf(e: Element): Val
    decreases e, 1
  {
    Closed(Gather(ItemOf(AttrEntries(e.attrs)), e.content), GatherText(None, e.content))
  }

  lemma {:induction false} ParseElement(h: State, e: Element, rest: seq<Event>)
    requires Nested(|h.path|, rest)
    ensures Leads(h, TreeEvents(e), WithChild(h, e.name, ValueOf(e)), rest)
    decreases e, 1
  {
    hide Leads, PushData, Closed, Nested;
    var h1 := OnStart(h, e.name, e.attrs);
    AttrsEmpty(e.attrs);
    EndNested(h1, e.name, rest, |h.path|);
    ParseContent(h1, e.content, [End(e.name)] + rest);
    CloseElement(h, e.name, e.attrs, ContentEvents(e.content), Gather(h1.item, e.content), GatherText(None, e.content), rest);
  }

  lemma {:induction false} ParseContent(h: State, c: Content, rest: seq<Event>)
    requires Nested(|h.path|, rest)
    ensures Leads(h, ContentEvents(c), h.(item := Gather(h.item, c), data := GatherText(h.data, c)), rest)
    decreases c, 0
  {
    hide Leads, PushData, Closed, Nested, TreeEvents;
    var end := h.(item := Gather(h.item, c), data := GatherText(h.data, c));
    match c {
      case Done => LeadsNothing(h, rest);
      case Text(text, more) =>
        var h' := OnChars(h, text);
        ParseContent(h', more, rest);
        assert Nested(|h'.path|, ContentEvents(more) + rest) by { LeadsNested(h', ContentEvents(more), end, rest); }
        LeadsStep(h, Chars(text), ContentEvents(more) + rest);
        LeadsChain(h, [Chars(text)], h', ContentEvents(more), end, rest);
      case Child(e, more) =>
        var h' := WithChild(h, e.name, ValueOf(e));
        ParseContent(h', more, rest);
        assert Nested(|h'.path|, ContentEvents(more) + rest) by { LeadsNested(h', ContentEvents(more), end, rest); }
        ParseElement(h, e, ContentEvents(more) + rest);
        LeadsChain(h, TreeEvents(e), h', ContentEvents(more), end, rest);
    }
  }

  /** A dictionary without its text: what is in `item` while an element is open. */
  ghost predicate OpenItem(item: Option<seq<Entry>>) {
    item.Some? ==> item.value != [] && Producible(Dict(item.value)) && forall i :: 0 <= i < |item.value| ==> Rank(item.value[i].key) < 2
  }

  lemma {:induction false} AttrEntriesAt(attrs: seq<Attr>)
    ensures forall i :: 0 <= i < |attrs| ==> AttrEntries(attrs)[i] == Entry("@" + attrs[i].name, One(Str(attrs[i].value)))
    decreases |attrs|
  {
    if attrs != [] { AttrEntriesAt(attrs[1..]); }
  }

  lemma AttrsAreOpen(attrs: seq<Attr>)
    requires ValidAttrs(attrs)
    ensures OpenItem(ItemOf(AttrEntries(attrs)))
  {
    var es := AttrEntries(attrs);
    AttrEntriesAt(attrs);
    forall i | 0 <= i < |es| ensures Rank(es[i].key) == 0 && es[i].key[1..] == attrs[i].name {
      assert es[i].key[0] == '@' && TEXT_KEY[0] == '#';
    }
  }

  lemma FirstWithKey(es: seq<Entry>, key: string) returns (i: nat)
    ensures i <= |es| && (forall j :: 0 <= j < i ==> es[j].key != key) && (i < |es| ==> es[i].key == key)
  {
    i := 0;
    while i < |es| && es[i].key != key
      invariant i <= |es| && forall j :: 0 <= j < i ==> es[j].key != key
    {
      i := i + 1;
    }
  }

  lemma AppendKeepsOpen(es: seq<Entry>, i: nat, v: Val)
    requires i < |es| && OpenItem(Some(es)) && ValidName(es[i].key) && Producible(v)
    ensures OpenItem(Some(es[i := Entry(es[i].key, Appended(es[i].slot, v))]))
  {
    hide GoodSlot;
    var r := es[i := Entry(es[i].key, Appended(es[i].slot, v))];
    assert GoodEntry(es[i]) && Rank(es[i].key) == 1;
    GoodAppend(es[i].slot, v);
    assert forall j :: 0 <= j < |es| ==> r[j].key == es[j].key;
    assert GoodEntry(r[i]);
  }

  lemma AddKeepsOpen(es: seq<Entry>, key: string, v: Val)
    requires OpenItem(ItemOf(es)) && ValidName(key) && Producible(v) && !HasKey(es, key)
    ensures OpenItem(Some(es + [Entry(key, One(v))]))
  {
    var r := es + [Entry(key, One(v))];
    assert GoodEntry(r[|es|]);
  }

  lemma PushKeepsOpen(item: Option<seq<Entry>>, key: string, v: Val)
    requires OpenItem(item) && ValidName(key) && Producible(v)
    ensures OpenItem(Some(PushData(item, key, v)))
  {
    var es := if item.None? then [] else item.value;
    var i := FirstWithKey(es, key);
    hide OpenItem;
    PushFirst(es, i, key, v);
    if i < |es| { AppendKeepsOpen(es, i, v); } else { AddKeepsOpen(es, key, v); }
  }

  lemma GoodAppend(slot: Slot, v: Val)
    requires GoodSlot(slot) && Producible(v)
    ensures GoodSlot(Appended(slot, v))
  {
    hide Producible;
  }

  lemma ClosedIsProducible(item: Option<seq<Entry>>, data: Option<string>)
    requires OpenItem(item)
    ensures Producible(Closed(item, data))
  {
    var text := CleanText(data);
    if data.Some? { StripIsStripped(data.value); }
    if item.Some? && text.Some? {
      var es := item.value;
      PushFirst(es, |es|, TEXT_KEY, Str(text.value));
      var r := es + [Entry(TEXT_KEY, One(Str(text.value)))];
      assert GoodEntry(r[|es|]);
      assert UniqueKeys(r) && Ordered(r);
    }
  }

  lemma {:induction false} ValueIsProducible(e: Element)
    requires ValidElement(e)
    ensures Producible(ValueOf(e))
    decreases e, 1
  {
    hide OpenItem, Producible;
    AttrsAreOpen(e.attrs);
    GatherIsOpen(ItemOf(AttrEntries(e.attrs)), e.content);
    ClosedIsProducible(Gather(ItemOf(AttrEntries(e.attrs)), e.content), GatherText(None, e.content));
  }

  lemma {:induction false} GatherIsOpen(item: Option<seq<Entry>>, c: Content)
    requires OpenItem(item) && ValidContent(c)
    ensures OpenItem(Gather(item, c))
    decreases c, 0
  {
    hide OpenItem, Producible;
    match c {
      case Done =>
      case Text(_, more) => GatherIsOpen(item, more);
      case Child(e, more) =>
        ValueIsProducible(e);
        PushKeepsOpen(item, e.name, ValueOf(e));
        GatherIsOpen(Some(PushData(item, e.name, ValueOf(e))), more);
    }
  }

  // ---------------------------------------------------------------------------
  // Main results

  /** The handler after a whole document: one key at the top, path and stack empty. */
  function Parsed(key: string, v: Val): State { INIT.(item := Some([Entry(key, One(v))])) }

  /** Every well-formed document parses to a producible value under the root's name. */
  lemma ParseDocument(e: Element)
    requires ValidElement(e)
    ensures Producible(ValueOf(e)) && Nested(0, TreeEvents(e)) && Run(INIT, TreeEvents(e)) == Parsed(e.name, ValueOf(e))
  {
    ValueIsProducible(e);
    ParseElement(INIT, e, []);
    assert TreeEvents(e) + [] == TreeEvents(e);
    hide TreeEvents, ValueOf, Producible;
  }

  /** Emitting any producible value and parsing the events gives the same value: same
      entries in the same order, lists, text and None alike. */
  lemma ParseUndoesEmit(key: string, v: Val)
    requires Producible(v)
    ensures Nested(0, ElementEvents(key, v)) && Run(INIT, ElementEvents(key, v)) == Parsed(key, v)
  {
    ReplayValue(INIT, key, v, []);
    assert ElementEvents(key, v) + [] == ElementEvents(key, v);
    hide ElementEvents, Producible;
  }

  /** Parse, unparse, parse: the second parse ends as the first did. */
  lemma ParseUnparseParse(e: Element)
    requires ValidElement(e)
    ensures Nested(0, TreeEvents(e)) && Nested(0, ElementEvents(e.name, ValueOf(e)))
    ensures Run(INIT, ElementEvents(e.name, ValueOf(e))) == Run(INIT, TreeEvents(e))
  {
    ParseDocument(e);
    ParseUndoesEmit(e.name, ValueOf(e));
  }

  /** The same with the objects: a fresh handler fed with what the emitter recorded. */
  method Reparse(key: string, v: Val) returns (item: Option<seq<Entry>>)
    requires Producible(v)
    ensures item == Some([Entry(key, One(v))])
  {
    hide Run, ElementEvents, Producible;
    var out := new ContentHandler();
    out.Emit(key, v);
    ParseUndoesEmit(key, v);
    var handler := new DictSAXHandler();
    assert [] + ElementEvents(key, v) == ElementEvents(key, v);
    handler.Feed(out.events);
    return handler.item;
  }
}
