/** The SAX handler and the emitter of xmltodict.py, with their default options: a
    dictionary is an ordered list of entries, XML is a sequence of parser events. */
module XmlToDict {
  import opened Basics

  /** What an element becomes: None, its text, or a dictionary. */
  datatype Val = Null | Str(s: string) | Dict(entries: seq<Entry>)

  /** What a key holds: one value, or the list of the values of repeated siblings. */
  datatype Slot = One(v: Val) | Many(vs: seq<Val>)

  datatype Entry = Entry(key: string, slot: Slot)

  datatype Attr = Attr(name: string, value: string)

  datatype Event = Start(name: string, attrs: seq<Attr>) | Chars(text: string) | End(name: string)

  const TEXT_KEY := "#text"

  // ---------------------------------------------------------------------------
  // Strings

  /** Python's idea of white space. */
  predicate IsSpace(c: char) {
    var n := c as int;
    9 <= n <= 13 || 28 <= n <= 32 || n == 0x85 || n == 0xA0 || n == 0x1680 || 0x2000 <= n <= 0x200A
    || n == 0x2028 || n == 0x2029 || n == 0x202F || n == 0x205F || n == 0x3000
  }

  function StripLeft(s: string): string
    decreases |s|
  {
    if s != "" && IsSpace(s[0]) then StripLeft(s[1..]) else s
  }

  function StripRight(s: string): string
    decreases |s|
  {
    if s != "" && IsSpace(s[|s| - 1]) then StripRight(s[..|s| - 1]) else s
  }

  function Strip(s: string): string { StripRight(StripLeft(s)) }

  /** Text that has survived `strip() or None`. */
  predicate Stripped(s: string) { s != "" && !IsSpace(s[0]) && !IsSpace(s[|s| - 1]) }

  lemma {:induction false} StripLeftResult(s: string)
    ensures StripLeft(s) == "" || !IsSpace(StripLeft(s)[0])
    decreases |s|
  {
    if s != "" && IsSpace(s[0]) { StripLeftResult(s[1..]); }
  }

  lemma {:induction false} StripRightResult(s: string)
    ensures StripRight(s) == "" || !IsSpace(StripRight(s)[|StripRight(s)| - 1])
    ensures StripRight(s) <= s
    decreases |s|
  {
    if s != "" && IsSpace(s[|s| - 1]) { StripRightResult(s[..|s| - 1]); }
  }

  lemma StripIsStripped(s: string)
    ensures Strip(s) == "" || Stripped(Strip(s))
    ensures Stripped(s) ==> Strip(s) == s
  {
    StripLeftResult(s);
    StripRightResult(StripLeft(s));
  }

  // ---------------------------------------------------------------------------
  // The handler as a state machine

  /** One open element outside the current one: the dictionary and the text so far. */
  datatype Frame = Frame(item: Option<seq<Entry>>, data: Option<string>)

  datatype State = State(path: seq<(string, seq<Attr>)>, stack: seq<Frame>, item: Option<seq<Entry>>, data: Option<string>)

  const INIT := State([], [], None, None)

  function Appended(slot: Slot, v: Val): Slot {
    match slot
    case One(u) => Many([u, v])
    case Many(vs) => Many(vs + [v])
  }

  /** A further value under `key`: a new entry at the end, or one more in the list. */
  function PushKey(es: seq<Entry>, key: string, v: Val): seq<Entry>
    decreases |es|
  {
    if es == [] then [Entry(key, One(v))]
    else if es[0].key == key then [Entry(key, Appended(es[0].slot, v))] + es[1..]
    else [es[0]] + PushKey(es[1..], key, v)
  }

  /** `PushKey` works at the first place that holds the key, or at the end. */
  lemma {:induction false} PushFirst(es: seq<Entry>, i: nat, key: string, v: Val)
    requires i <= |es| && forall j :: 0 <= j < i ==> es[j].key != key
    ensures i == |es| ==> PushKey(es, key, v) == es + [Entry(key, One(v))]
    ensures i < |es| && es[i].key == key ==> PushKey(es, key, v) == es[i := Entry(key, Appended(es[i].slot, v))]
    decreases |es|
  {
    hide Appended;
    if i > 0 {
      assert es[0].key != key;
      assert forall j :: 0 <= j < i - 1 ==> es[1..][j] == es[j + 1];
      PushFirst(es[1..], i - 1, key, v);
    }
  }

  function PushData(item: Option<seq<Entry>>, key: string, v: Val): (r: seq<Entry>)
    ensures r != []
  {
    PushKey(if item.None? then [] else item.value, key, v)
  }

  /** Attributes as entries, `@` in front of the names. */
  function AttrEntries(attrs: seq<Attr>): (es: seq<Entry>)
    ensures |es| == |attrs|
    decreases |attrs|
  {
    if attrs == [] then []
    else [Entry("@" + attrs[0].name, One(Str(attrs[0].value)))] + AttrEntries(attrs[1..])
  }

  function OnStart(h: State, name: string, attrs: seq<Attr>): State {
    State(h.path + [(name, attrs)], h.stack + [Frame(h.item, h.data)],
          if attrs == [] then None else Some(AttrEntries(attrs)), None)
  }

  function OnChars(h: State, text: string): State {
    h.(data := if h.data.None? || h.data.value == "" then Some(text) else Some(h.data.value + text))
  }

  /** `data.strip() or None`. */
  function CleanText(data: Option<string>): Option<string>
  {
    if data.None? || Strip(data.value) == "" then None else Some(Strip(data.value))
  }

  /** The value of an element from its dictionary and its text. */
  function Closed(item: Option<seq<Entry>>, data: Option<string>): Val {
    var text := CleanText(data);
    if item.Some? then Dict(if text.Some? then PushKey(item.value, TEXT_KEY, Str(text.value)) else item.value)
    else if text.Some? then Str(text.value)
    else Null
  }

  function OnEnd(h: State, name: string): State
    requires h.path != []
  {
    var path := h.path[..|h.path| - 1];
    if h.stack == [] then State(path, [], None, None)
    else
      var top := h.stack[|h.stack| - 1];
      State(path, h.stack[..|h.stack| - 1], Some(PushData(top.item, name, Closed(h.item, h.data))), top.data)
  }

  function Step(h: State, e: Event): State
    requires e.End? ==> h.path != []
  {
    match e
    case Start(name, attrs) => OnStart(h, name, attrs)
    case Chars(text) => OnChars(h, text)
    case End(name) => OnEnd(h, name)
  }

  /** Never more ends than starts. */
  predicate Nested(depth: nat, evs: seq<Event>)
    decreases |evs|
  {
    evs == [] || (evs[0].Start? && Nested(depth + 1, evs[1..])) || (evs[0].Chars? && Nested(depth, evs[1..]))
    || (evs[0].End? && depth > 0 && Nested(depth - 1, evs[1..]))
  }

  function Run(h: State, evs: seq<Event>): State
    requires Nested(|h.path|, evs)
    decreases |evs|
  {
    if evs == [] then h else Run(Step(h, evs[0]), evs[1..])
  }

  // ---------------------------------------------------------------------------
  // The handler object

  class DictSAXHandler {
    var path: seq<(string, seq<Attr>)>
    var stack: seq<Frame>
    var item: Option<seq<Entry>>
    var data: Option<string>

    ghost function Now(): State
      reads this
    {
      State(path, stack, item, data)
    }

    constructor ()
      ensures Now() == INIT
    {
      path, stack, item, data := [], [], None, None;
    }

    method StartElement(name: string, attrs: seq<Attr>)
      modifies this
      ensures Now() == OnStart(old(Now()), name, attrs)
    {
      path := path + [(name, attrs)];
      stack := stack + [Frame(item, data)];
      item := if attrs == [] then None else Some(AttrEntries(attrs));
      data := None;
    }

    method Characters(text: string)
      modifies this
      ensures Now() == OnChars(old(Now()), text)
    {
      if data.None? || data.value == "" {
        data := Some(text);
      } else {
        data := Some(data.value + text);
      }
    }

    method EndElement(name: string)
      requires path != []
      modifies this
      ensures Now() == OnEnd(old(Now()), name)
    {
      if |stack| > 0 {
        var it, text := item, data;
        item, data := stack[|stack| - 1].item, stack[|stack| - 1].data;
        stack := stack[..|stack| - 1];
        text := CleanText(text);
        if it.Some? {
          if text.Some? { it := PushInto(it, TEXT_KEY, Str(text.value)); }
          item := PushInto(item, name, Dict(it.value));
        } else {
          item := PushInto(item, name, if text.Some? then Str(text.value) else Null);
        }
      } else {
        item, data := None, None;
      }
      path := path[..|path| - 1];
    }

    /** `push_data` finds the key by its position in the ordered dictionary. */
    static method PushInto(it: Option<seq<Entry>>, key: string, v: Val) returns (r: Option<seq<Entry>>)
      ensures r == Some(PushData(it, key, v))
    {
      var es := if it.None? then [] else it.value;
      var i := 0;
      while i < |es| && es[i].key != key
        invariant 0 <= i <= |es| && forall j :: 0 <= j < i ==> es[j].key != key
      {
        i := i + 1;
      }
      PushFirst(es, i, key, v);
      if i < |es| {
        return Some(es[i := Entry(key, Appended(es[i].slot, v))]);
      }
      return Some(es + [Entry(key, One(v))]);
    }

    /** The parser calls the handler once per event. */
    method Feed(evs: seq<Event>)
      requires Nested(|path|, evs)
      modifies this
      ensures Now() == Run(old(Now()), evs)
    {
      var i := 0;
      while i < |evs|
        invariant 0 <= i <= |evs| && Nested(|path|, evs[i..])
        invariant Run(Now(), evs[i..]) == Run(old(Now()), evs)
      {
        match evs[i] {
          case Start(name, attrs) => StartElement(name, attrs);
          case Chars(text) => Characters(text);
          case End(name) => EndElement(name);
        }
        i := i + 1;
      }
    }
  }

  // ---------------------------------------------------------------------------
  // The emitter

  predicate IsAttrKey(k: string) { "@" <= k }

  /** The entries that `_emit` turns into attributes. */
  function Attrs(es: seq<Entry>): seq<Attr>
    decreases |es|
  {
    if es == [] then []
    else if es[0].key != TEXT_KEY && IsAttrKey(es[0].key) && es[0].slot.One? && es[0].slot.v.Str? then
      [Attr(es[0].key[1..], es[0].slot.v.s)] + Attrs(es[1..])
    else Attrs(es[1..])
  }

  /** The last `#text` wins, as in the loop. */
  function Cdata(es: seq<Entry>): Option<string>
    decreases |es|
  {
    if es == [] then None
    else
      var later := Cdata(es[1..]);
      if later.Some? then later
      else if es[0].key == TEXT_KEY && es[0].slot.One? && es[0].slot.v.Str? then Some(es[0].slot.v.s)
      else None
  }

  /** The events for one value under `key`. */
  function ElementEvents(key: string, v: Val): seq<Event>
    decreases v, 1
  {
    match v
    case Null => [Start(key, []), End(key)]
    case Str(s) => [Start(key, []), Chars(s), End(key)]
    case Dict(es) =>
      [Start(key, Attrs(es))] + EntriesEvents(es)
      + (if Cdata(es).Some? then [Chars(Cdata(es).value)] else []) + [End(key)]
  }

  /** The events of the children among the entries, in order. */
  function EntriesEvents(es: seq<Entry>): seq<Event>
    decreases es, 0
  {
    if es == [] then [] else EntryEvents(es[0]) + EntriesEvents(es[1..])
  }

  /** Attributes and text are no children. */
  function EntryEvents(e: Entry): seq<Event>
    decreases e, 3
  {
    if e.key != TEXT_KEY && !IsAttrKey(e.key) then SlotEvents(e.key, e.slot) else []
  }

  function SlotEvents(key: string, slot: Slot): seq<Event>
    decreases slot, 2
  {
    match slot
    case One(v) => ElementEvents(key, v)
    case Many(vs) => ListEvents(key, vs)
  }

  function ListEvents(key: string, vs: seq<Val>): seq<Event>
    decreases vs, 0
  {
    if vs == [] then [] else ElementEvents(key, vs[0]) + ListEvents(key, vs[1..])
  }

  /** What `_emit` calls; it records the calls in order. */
  class ContentHandler {
    var events: seq<Event>

    constructor ()
      ensures events == []
    {
      events := [];
    }

    method Emit(key: string, v: Val)
      modifies this
      ensures events == old(events) + ElementEvents(key, v)
      decreases v, 1
    {
      match v {
        case Null =>
          events := events + [Start(key, [])] + [End(key)];
        case Str(s) =>
          events := events + [Start(key, [])] + [Chars(s)] + [End(key)];
        case Dict(es) =>
          events := events + [Start(key, Attrs(es))];
          EmitEntries(es);
          if Cdata(es).Some? { events := events + [Chars(Cdata(es).value)]; }
          events := events + [End(key)];
      }
    }

    method EmitEntries(es: seq<Entry>)
      modifies this
      ensures events == old(events) + EntriesEvents(es)
      decreases es, 0
    {
      hide ElementEvents, ListEvents;
      if es != [] {
        ghost var was := events;
        if es[0].key != TEXT_KEY && !IsAttrKey(es[0].key) {
          match es[0].slot {
            case One(v) => Emit(es[0].key, v);
            case Many(vs) => EmitList(es[0].key, vs);
          }
        }
        assert events == was + EntryEvents(es[0]);
        EmitEntries(es[1..]);
        Assoc(was, EntryEvents(es[0]), EntriesEvents(es[1..]));
      }
    }

    method EmitList(key: string, vs: seq<Val>)
      modifies this
      ensures events == old(events) + ListEvents(key, vs)
      decreases vs, 0
    {
      hide ElementEvents;
      if vs != [] {
        Emit(key, vs[0]);
        EmitList(key, vs[1..]);
      }
    }
  }
}
