/** What a document parses to, said without the handler: the attributes, the children by
    name, and the text between its white space. */
module XmlMeaning {
  import opened Basics
  import opened XmlToDict
  import opened XmlRoundTrip

  // ---------------------------------------------------------------------------
  // White space

  /** The code points that are white space in Unicode, as Python has them. */
  lemma SpacesAre(c: char)
    ensures IsSpace(c) <==>
            (c as int in {0x09, 0x0A, 0x0B, 0x0C, 0x0D, 0x1C, 0x1D, 0x1E, 0x1F, 0x20, 0x85, 0xA0}
             || c as int in {0x1680, 0x2000, 0x2001, 0x2002, 0x2003, 0x2004, 0x2005, 0x2006, 0x2007, 0x2008, 0x2009, 0x200A}
             || c as int in {0x2028, 0x2029, 0x202F, 0x205F, 0x3000})
  {
  }

  predicate AllSpace(s: string) { forall i :: 0 <= i < |s| ==> IsSpace(s[i]) }

  /** `text` with white space around it, or nothing but white space. */
  predicate Surrounded(data: string, text: string) {
    exists i, j :: 0 <= i <= j <= |data| && data[i..j] == text && AllSpace(data[..i]) && AllSpace(data[j..])
  }

  lemma {:induction false} SkipLeft(l: string, s: string)
    requires AllSpace(l) && (s == "" || !IsSpace(s[0]))
    ensures StripLeft(l + s) == s
    decreases |l|
  {
    if l == "" {
      assert l + s == s;
    } else {
      assert (l + s)[1..] == l[1..] + s;
      SkipLeft(l[1..], s);
    }
  }

  lemma {:induction false} SkipRight(s: string, r: string)
    requires AllSpace(r) && (s == "" || !IsSpace(s[|s| - 1]))
    ensures StripRight(s + r) == s
    decreases |r|
  {
    if r == "" {
      assert s + r == s;
    } else {
      var n := |r| - 1;
      assert (s + r)[..|s + r| - 1] == s + r[..n];
      SkipRight(s, r[..n]);
    }
  }

  /** Stripping takes away the white space around a text and nothing else. */
  lemma StripBetween(l: string, s: string, r: string)
    requires AllSpace(l) && AllSpace(r) && (s == "" || Stripped(s))
    ensures Strip(l + s + r) == s
  {
    if s == "" {
      SkipLeft(l + s + r, "");
      assert l + s + r + "" == l + s + r;
    } else {
      assert l + s + r == l + (s + r);
      SkipLeft(l, s + r);
      SkipRight(s, r);
    }
  }

  lemma StripInside(data: string, text: string)
    requires Surrounded(data, text) && (text == "" || Stripped(text))
    ensures Strip(data) == text
  {
    hide AllSpace, Strip, Stripped;
    var i, j :| 0 <= i <= j <= |data| && data[i..j] == text && AllSpace(data[..i]) && AllSpace(data[j..]);
    Rejoin(data, i, j);
    StripBetween(data[..i], text, data[j..]);
  }

  lemma Rejoin(data: string, i: nat, j: nat)
    requires i <= j <= |data|
    ensures data == data[..i] + data[i..j] + data[j..]
  {
  }

  /** Every text is one that is stripped, or nothing, between white space. */
  lemma EveryTextSplits(data: string) returns (text: string)
    ensures Surrounded(data, text) && (text == "" || Stripped(text))
  {
    var i, j := 0, |data|;
    while i < |data| && IsSpace(data[i])
      invariant i <= |data| && AllSpace(data[..i])
    {
      i := i + 1;
    }
    while j > i && IsSpace(data[j - 1])
      invariant i <= j <= |data| && AllSpace(data[j..])
    {
      assert data[j - 1..] == [data[j - 1]] + data[j..];
      j := j - 1;
    }
    text := data[i..j];
  }

  // ---------------------------------------------------------------------------
  // What an element holds

  /** The text of an element, without that of its children. */
  function AllText(c: Content): string {
    match c
    case Done => ""
    case Text(text, more) => text + AllText(more)
    case Child(_, more) => AllText(more)
  }

  function ChildNames(c: Content): seq<string> {
    match c
    case Done => []
    case Text(_, more) => ChildNames(more)
    case Child(e, more) => [e.name] + ChildNames(more)
  }

  /** What the children of one name parse to, in their order. */
  function ChildValues(c: Content, name: string): seq<Val> {
    match c
    case Done => []
    case Text(_, more) => ChildValues(more, name)
    case Child(e, more) => (if e.name == name then [ValueOf(e)] else []) + ChildValues(more, name)
  }

  /** Names behind `seen`, each where it comes first. */
  function AddNames(seen: seq<string>, names: seq<string>): seq<string>
    decreases |names|
  {
    if names == [] then seen
    else AddNames(if names[0] in seen then seen else seen + [names[0]], names[1..])
  }

  function AttrKeys(attrs: seq<Attr>): seq<string> { seq(|attrs|, i requires 0 <= i < |attrs| => "@" + attrs[i].name) }

  // ---------------------------------------------------------------------------
  // Dictionaries

  function Keys(es: seq<Entry>): seq<string> { seq(|es|, i requires 0 <= i < |es| => es[i].key) }

  function ValuesIn(slot: Slot): seq<Val> {
    match slot
    case One(v) => [v]
    case Many(vs) => vs
  }

  /** The values under a key, none if it is not there. */
  function Get(es: seq<Entry>, key: string): seq<Val>
    decreases |es|
  {
    if es == [] then [] else if es[0].key == key then ValuesIn(es[0].slot) else Get(es[1..], key)
  }

  lemma {:induction false} PushAdds(es: seq<Entry>, key: string, v: Val)
    ensures Keys(PushKey(es, key, v)) == if key in Keys(es) then Keys(es) else Keys(es) + [key]
    ensures Get(PushKey(es, key, v), key) == Get(es, key) + [v]
    ensures forall k :: k != key ==> Get(PushKey(es, key, v), k) == Get(es, k)
    decreases |es|
  {
    if es == [] {
      KeysCons(Entry(key, One(v)), []);
      GetCons(Entry(key, One(v)), []);
      assert [Entry(key, One(v))] + [] == [Entry(key, One(v))];
    } else {
      var h, t := es[0], es[1..];
      assert es == [h] + t;
      KeysCons(h, t);
      GetCons(h, t);
      if h.key == key {
        KeysCons(Entry(key, Appended(h.slot, v)), t);
        GetCons(Entry(key, Appended(h.slot, v)), t);
      } else {
        PushAdds(t, key, v);
        KeysCons(h, PushKey(t, key, v));
        GetCons(h, PushKey(t, key, v));
        hide *;
        Assoc([h.key], Keys(t), [key]);
      }
    }
  }

  lemma KeysCons(e: Entry, es: seq<Entry>)
    ensures Keys([e] + es) == [e.key] + Keys(es)
    ensures forall k :: k in Keys([e] + es) <==> k == e.key || k in Keys(es)
  {
    assert Keys([e] + es) == [e.key] + Keys(es);
  }

  lemma GetCons(e: Entry, es: seq<Entry>)
    ensures forall k :: Get([e] + es, k) == if e.key == k then ValuesIn(e.slot) else Get(es, k)
  {
    assert ([e] + es)[1..] == es;
  }

  lemma {:induction false} GetAt(es: seq<Entry>, i: nat)
    requires i < |es| && UniqueKeys(es)
    ensures Get(es, es[i].key) == ValuesIn(es[i].slot)
    decreases |es|
  {
    if i > 0 {
      assert es[0].key != es[i].key;
      assert forall j :: 0 <= j < |es[1..]| ==> es[1..][j] == es[j + 1];
      GetAt(es[1..], i - 1);
    }
  }

  // ---------------------------------------------------------------------------
  // Gathering

  function EntriesOf(item: Option<seq<Entry>>): seq<Entry> { if item.None? then [] else item.value }

  lemma {:induction false} GatherAdds(item: Option<seq<Entry>>, c: Content)
    ensures var es, r := EntriesOf(item), EntriesOf(Gather(item, c));
            && Keys(r) == AddNames(Keys(es), ChildNames(c))
            && (forall k :: Get(r, k) == Get(es, k) + ChildValues(c, k))
            && (Gather(item, c).None? <==> item.None? && ChildNames(c) == [])
    decreases c
  {
    hide PushKey, Get, Keys, ValueOf;
    match c {
      case Done =>
      case Text(_, more) => GatherAdds(item, more);
      case Child(e, more) =>
        hide Gather, AddNames, ChildNames, ChildValues;
        var es, v := EntriesOf(item), ValueOf(e);
        PushAdds(es, e.name, v);
        GatherAdds(Some(PushData(item, e.name, v)), more);
        GatherChild(item, e, more, Keys(es));
        forall k ensures Get(EntriesOf(Gather(item, c)), k) == Get(es, k) + ChildValues(c, k) {
          Assoc(Get(es, k), if e.name == k then [v] else [], ChildValues(more, k));
        }
    }
  }

  lemma GatherChild(item: Option<seq<Entry>>, e: Element, more: Content, seen: seq<string>)
    ensures var c := Child(e, more);
            && Gather(item, c) == Gather(Some(PushData(item, e.name, ValueOf(e))), more) && ChildNames(c) != []
            && AddNames(seen, ChildNames(c)) == AddNames(if e.name in seen then seen else seen + [e.name], ChildNames(more))
            && forall k :: ChildValues(c, k) == (if e.name == k then [ValueOf(e)] else []) + ChildValues(more, k)
  {
    hide PushData, ValueOf;
    assert ChildNames(Child(e, more))[1..] == ChildNames(more);
  }

  /** The text so far, None and "" being the same. */
  function TextSoFar(data: Option<string>): string { if data.None? then "" else data.value }

  lemma {:induction false} GatherTextAdds(data: Option<string>, c: Content)
    ensures TextSoFar(GatherText(data, c)) == TextSoFar(data) + AllText(c)
    decreases c
  {
    match c {
      case Done =>
      case Text(text, more) =>
        GatherTextAdds(if data.None? || data.value == "" then Some(text) else Some(data.value + text), more);
        Assoc(TextSoFar(data), text, AllText(more));
        assert TextSoFar(data) == "" ==> TextSoFar(data) + text == text;
      case Child(_, more) => GatherTextAdds(data, more);
    }
  }

  lemma CleanTextOf(c: Content, text: string)
    requires Surrounded(AllText(c), text) && (text == "" || Stripped(text))
    ensures CleanText(GatherText(None, c)) == if text == "" then None else Some(text)
  {
    GatherTextAdds(None, c);
    assert "" + AllText(c) == AllText(c);
    StripInside(AllText(c), text);
  }

  // ---------------------------------------------------------------------------
  // Main result

  /** What element `e` with the text `text` should parse to.  Without attributes and
      children it is its text, or None.  Otherwise it is a dictionary: the attributes,
      the names of the children in the order in which they first come, and `#text`, if
      there is text; under each name the values of all the children of that name, in a
      list if there are two or more. */
  ghost predicate Means(v: Val, e: Element, text: string) {
    if e.attrs == [] && ChildNames(e.content) == [] then v == if text == "" then Null else Str(text)
    else
      && v.Dict?
      && Keys(v.entries) == AddNames(AttrKeys(e.attrs), ChildNames(e.content)) + (if text == "" then [] else ["#text"])
      && forall i :: 0 <= i < |v.entries| ==> EntryMeans(v.entries[i], e, text)
  }

  ghost predicate EntryMeans(entry: Entry, e: Element, text: string) {
    if entry.key == "#text" then entry.slot == One(Str(text))
    else if "@" <= entry.key then exists a :: a in e.attrs && entry == Entry("@" + a.name, One(Str(a.value)))
    else entry.slot == Listed(ChildValues(e.content, entry.key))
  }

  /** One value by itself, more as a list. */
  function Listed(vs: seq<Val>): Slot { if |vs| == 1 then One(vs[0]) else Many(vs) }

  lemma {:induction false} AddedNames(seen: seq<string>, names: seq<string>)
    ensures forall k :: k in AddNames(seen, names) <==> k in seen || k in names
    decreases |names|
  {
    if names != [] {
      AddedNames(if names[0] in seen then seen else seen + [names[0]], names[1..]);
      assert forall k :: k in names <==> k == names[0] || k in names[1..];
    }
  }

  lemma {:induction false} ChildrenNamed(c: Content, key: string)
    requires ValidContent(c)
    ensures forall k :: k in ChildNames(c) ==> Rank(k) == 1
    ensures Rank(key) != 1 ==> ChildValues(c, key) == []
    decreases c
  {
    hide ValueOf;
    match c {
      case Done =>
      case Text(_, more) => ChildrenNamed(more, key);
      case Child(_, more) => ChildrenNamed(more, key);
    }
  }

  lemma {:induction false} GetNothing(es: seq<Entry>, key: string)
    requires key !in Keys(es)
    ensures Get(es, key) == []
    decreases |es|
  {
    if es != [] {
      assert es == [es[0]] + es[1..];
      KeysCons(es[0], es[1..]);
      assert Keys(es)[0] == es[0].key;
      GetNothing(es[1..], key);
    }
  }

  lemma KeysOfAttrs(attrs: seq<Attr>)
    ensures Keys(AttrEntries(attrs)) == AttrKeys(attrs) && EntriesOf(ItemOf(AttrEntries(attrs))) == AttrEntries(attrs)
    ensures forall k :: k in AttrKeys(attrs) ==> "@" <= k
  {
    AttrEntriesAt(attrs);
  }

  lemma OneAttribute(attrs: seq<Attr>, key: string) returns (a: Attr)
    requires ValidAttrs(attrs) && key in AttrKeys(attrs)
    ensures a in attrs && key == "@" + a.name && Get(AttrEntries(attrs), key) == [Str(a.value)]
  {
    var es := AttrEntries(attrs);
    AttrEntriesAt(attrs);
    var i :| 0 <= i < |attrs| && AttrKeys(attrs)[i] == key;
    a := attrs[i];
    forall j, k | 0 <= j < k < |es| ensures es[j].key != es[k].key {
      assert es[j].key[1..] == attrs[j].name && es[k].key[1..] == attrs[k].name;
    }
    GetAt(es, i);
  }

  lemma OpenEntry(es: seq<Entry>, i: nat)
    requires OpenItem(Some(es)) && i < |es|
    ensures UniqueKeys(es) && es[i].key != "#text" && es[i].key in Keys(es)
    ensures "@" <= es[i].key ==> es[i].slot.One? && es[i].slot.v.Str?
    ensures es[i].slot == Listed(ValuesIn(es[i].slot)) && (Rank(es[i].key) == 1 <==> !("@" <= es[i].key))
  {
    assert GoodEntry(es[i]) && Rank(es[i].key) < 2;
    assert Keys(es)[i] == es[i].key;
    assert Rank(es[i].key) == 1 ==> GoodSlot(es[i].slot);
    match es[i].slot {
      case One(v) => assert Listed([v]) == One(v);
      case Many(vs) =>
    }
  }

  /** The entries for attributes and children, before the text. */
  lemma EntryBeforeText(e: Element, text: string, es: seq<Entry>, i: nat)
    requires ValidElement(e) && Gather(ItemOf(AttrEntries(e.attrs)), e.content) == Some(es) && i < |es|
    ensures EntryMeans(es[i], e, text) && es[i].key != "#text"
  {
    hide Gather, Keys, Get, OpenItem, AttrEntries, AttrKeys, ChildNames, ChildValues, AddNames, ItemOf, EntriesOf, UniqueKeys, ValidContent, ValidAttrs, Listed;
    var es0, k := AttrEntries(e.attrs), es[i].key;
    AttrsAreOpen(e.attrs);
    GatherIsOpen(ItemOf(es0), e.content);
    OpenEntry(es, i);
    GetAt(es, i);
    Gathered(e, es, k);
    ChildrenNamed(e.content, k);
    KeysOfAttrs(e.attrs);
    if "@" <= k {
      var a := OneAttribute(e.attrs, k);
      assert [Str(a.value)] + [] == [Str(a.value)] && ValuesIn(es[i].slot)[0] == es[i].slot.v;
    } else {
      GetNothing(es0, k);
      assert [] + ChildValues(e.content, k) == ChildValues(e.content, k);
    }
  }

  lemma Gathered(e: Element, es: seq<Entry>, k: string)
    requires Gather(ItemOf(AttrEntries(e.attrs)), e.content) == Some(es)
    ensures Get(es, k) == Get(AttrEntries(e.attrs), k) + ChildValues(e.content, k)
    ensures Keys(es) == AddNames(AttrKeys(e.attrs), ChildNames(e.content))
    ensures k in Keys(es) <==> k in AttrKeys(e.attrs) || k in ChildNames(e.content)
  {
    hide Gather, Keys, Get, AttrEntries, AttrKeys, ChildNames, ChildValues, AddNames;
    GatherAdds(ItemOf(AttrEntries(e.attrs)), e.content);
    KeysOfAttrs(e.attrs);
    AddedNames(AttrKeys(e.attrs), ChildNames(e.content));
  }

  /** Parsing any document, element by element: `text` is the element's own text without
      the white space around it. */
  lemma ValueMeans(e: Element, text: string)
    requires ValidElement(e) && Surrounded(AllText(e.content), text) && (text == "" || Stripped(text))
    ensures Means(ValueOf(e), e, text)
  {
    hide Gather, Keys, AttrEntries, AttrKeys, ChildNames, AddNames, ValidElement, EntryMeans, AllText, GatherText, CleanText, Surrounded, Stripped;
    var g := Gather(ItemOf(AttrEntries(e.attrs)), e.content);
    CleanTextOf(e.content, text);
    GatherAdds(ItemOf(AttrEntries(e.attrs)), e.content);
    if g.Some? {
      var es := g.value;
      Gathered(e, es, "");
      forall i | 0 <= i < |es| ensures EntryMeans(es[i], e, text) && es[i].key != TEXT_KEY { EntryBeforeText(e, text, es, i); }
      WithText(e, text, es);
    }
  }

  lemma WithText(e: Element, text: string, es: seq<Entry>)
    requires forall i :: 0 <= i < |es| ==> EntryMeans(es[i], e, text) && es[i].key != TEXT_KEY
    ensures var r := if text == "" then es else PushKey(es, TEXT_KEY, Str(text));
            && Keys(r) == Keys(es) + (if text == "" then [] else ["#text"])
            && forall i :: 0 <= i < |r| ==> EntryMeans(r[i], e, text)
  {
    if text == "" {
      assert Keys(es) + [] == Keys(es);
    } else {
      PushFirst(es, |es|, TEXT_KEY, Str(text));
    }
  }

  // ---------------------------------------------------------------------------
  // What is emitted

  /** The children that entries stand for, in their order, and behind them `last`. */
  function ChildrenOf(es: seq<Entry>, last: Content): Content
    decreases es, 0
  {
    if es == [] then last
    else
      var more := ChildrenOf(es[1..], last);
      if es[0].key == "#text" || "@" <= es[0].key then more else SlotChildren(es[0].key, es[0].slot, more)
  }

  function SlotChildren(key: string, slot: Slot, more: Content): Content
    decreases slot, 2
  {
    match slot
    case One(v) => Child(Document(key, v), more)
    case Many(vs) => ListChildren(key, vs, more)
  }

  function ListChildren(key: string, vs: seq<Val>, more: Content): Content
    decreases vs, 0
  {
    if vs == [] then more else Child(Document(key, vs[0]), ListChildren(key, vs[1..], more))
  }

  /** The document that a value under `key` is written as: attributes, children in the
      order of the entries, and the text behind them. */
  function Document(key: string, v: Val): Element
    decreases v, 1
  {
    match v
    case Null => Element(key, [], Done)
    case Str(s) => Element(key, [], Text(s, Done))
    case Dict(es) =>
      Element(key, Attrs(es), ChildrenOf(es, if Cdata(es).Some? then Text(Cdata(es).value, Done) else Done))
  }

  /** What is emitted are the events of that document. */
  lemma {:induction false} EmitsDocument(key: string, v: Val)
    ensures ElementEvents(key, v) == TreeEvents(Document(key, v))
    decreases v, 1
  {
    hide Attrs, Cdata, EntriesEvents;
    match v {
      case Null =>
      case Str(s) =>
        TextEventsOf(Text(s, Done));
        assert [Start(key, [])] + [Chars(s)] + [End(key)] == ElementEvents(key, v);
      case Dict(es) =>
        var last := if Cdata(es).Some? then Text(Cdata(es).value, Done) else Done;
        EmitsChildren(es, last);
        TextEventsOf(last);
        Assoc([Start(key, Attrs(es))], EntriesEvents(es), ContentEvents(last));
    }
  }

  lemma TextEventsOf(c: Content)
    ensures c == Done ==> ContentEvents(c) == []
    ensures c.Text? && c.more == Done ==> ContentEvents(c) == [Chars(c.text)]
  {
  }

  lemma {:induction false} EmitsChildren(es: seq<Entry>, last: Content)
    ensures ContentEvents(ChildrenOf(es, last)) == EntriesEvents(es) + ContentEvents(last)
    decreases es, 0
  {
    hide ContentEvents;
    if es == [] {
      assert [] + ContentEvents(last) == ContentEvents(last);
    } else {
      var more := ChildrenOf(es[1..], last);
      EmitsChildren(es[1..], last);
      Assoc(EntryEvents(es[0]), EntriesEvents(es[1..]), ContentEvents(last));
      if es[0].key == "#text" || "@" <= es[0].key {
        assert [] + ContentEvents(more) == ContentEvents(more);
        assert [] + EntriesEvents(es[1..]) == EntriesEvents(es[1..]);
      } else {
        EmitsSlot(es[0].key, es[0].slot, more);
      }
    }
  }

  lemma {:induction false} EmitsSlot(key: string, slot: Slot, more: Content)
    ensures ContentEvents(SlotChildren(key, slot, more)) == SlotEvents(key, slot) + ContentEvents(more)
    decreases slot, 2
  {
    match slot
    case One(v) => EmitsDocument(key, v);
    case Many(vs) => EmitsList(key, vs, more);
  }

  lemma {:induction false} EmitsList(key: string, vs: seq<Val>, more: Content)
    ensures ContentEvents(ListChildren(key, vs, more)) == ListEvents(key, vs) + ContentEvents(more)
    decreases vs, 0
  {
    hide TreeEvents;
    if vs == [] {
      assert [] + ContentEvents(more) == ContentEvents(more);
    } else {
      EmitsDocument(key, vs[0]);
      EmitsList(key, vs[1..], more);
      Assoc(ElementEvents(key, vs[0]), ListEvents(key, vs[1..]), ContentEvents(more));
    }
  }

  /** The attributes are the entries whose key starts with `@` and that hold a text,
      wherever they are, in their order. */
  lemma {:induction false} AttrsAre(es: seq<Entry>, name: string, value: string)
    ensures Attr(name, value) in Attrs(es) <==> Entry("@" + name, One(Str(value))) in es
    decreases |es|
  {
    if es != [] {
      AttrsAre(es[1..], name, value);
      assert es == [es[0]] + es[1..];
      var e := Entry("@" + name, One(Str(value)));
      assert e.key[1..] == name && e.key[0] == '@' && TEXT_KEY[0] == '#';
      assert "@" <= es[0].key ==> es[0].key == "@" + es[0].key[1..];
      assert Attr(name, value) in Attrs(es) <==> es[0] == e || Attr(name, value) in Attrs(es[1..]);
    }
  }

  lemma {:induction false} AttrsInOrder(a: seq<Entry>, b: seq<Entry>)
    ensures Attrs(a + b) == Attrs(a) + Attrs(b)
    decreases |a|
  {
    if a == [] {
      assert a + b == b;
    } else {
      AttrsInOrder(a[1..], b);
      assert (a + b)[1..] == a[1..] + b;
    }
  }

  /** The text is the last one under `#text`. */
  lemma {:induction false} CdataIs(es: seq<Entry>, i: nat)
    requires i < |es| && es[i].key == "#text" && es[i].slot.One? && es[i].slot.v.Str?
    requires forall j :: i < j < |es| ==> es[j].key != "#text"
    ensures Cdata(es) == Some(es[i].slot.v.s)
    decreases |es|
  {
    assert forall j :: 0 <= j < |es[1..]| ==> es[1..][j] == es[j + 1];
    if i > 0 { CdataIs(es[1..], i - 1); } else { NoCdata(es[1..]); }
  }

  lemma {:induction false} NoCdata(es: seq<Entry>)
    requires forall j :: 0 <= j < |es| ==> es[j].key != "#text"
    ensures Cdata(es) == None
    decreases |es|
  {
    if es != [] {
      assert forall j :: 0 <= j < |es[1..]| ==> es[1..][j] == es[j + 1];
      NoCdata(es[1..]);
    }
  }
}
