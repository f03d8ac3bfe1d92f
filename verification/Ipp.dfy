/** IPP messages (sections 3.1.4 and 3.1.5 of RFC 8010): encodeMessage and
    decodeResponse of src/print/ipp.js. Strings are their bytes. */
module Ipp {
  import opened Bytes

  const END_OF_ATTRIBUTES := 3
  const FIRST_VALUE_TAG := 0x10

  const UNSUPPORTED := 0x10
  const UNKNOWN := 0x12
  const NO_VALUE := 0x13
  const INTEGER := 0x21
  const BOOLEAN := 0x22
  const ENUM := 0x23
  const DATE_TIME := 0x31
  const RESOLUTION := 0x32
  const RANGE := 0x33
  const BEG_COLLECTION := 0x34
  const TEXT_WITH_LANGUAGE := 0x35
  const NAME_WITH_LANGUAGE := 0x36
  const END_COLLECTION := 0x37
  const MEMBER_NAME := 0x4a

  const MAX_DEPTH := 8

  /** A value; a collection is an object of the message, named by its number. */
  datatype Value =
    | Int(n: int)
    | Bool(b: bool)
    | Range(lower: int, upper: int)
    | Resolution(x: int, y: int, units: int)
    | Text(s: Bytes)
    | Null
    | Object(id: nat)

  /** The values of each attribute or member, by name. */
  type Attrs = map<Bytes, seq<Value>>

  datatype Group = Group(tag: int, attrs: Attrs)

  datatype Message = Message(major: int, minor: int, status: int, requestId: int, groups: seq<Group>, objs: seq<Attrs>,
                             data: Option<Bytes>)

  // ---- Values ----

  /** A signed 32-bit number. */
  function Signed(n: int): (r: int)
    requires 0 <= n < U32_LIMIT
    ensures -0x8000_0000 <= r < 0x8000_0000
  {
    if n >= 0x8000_0000 then n - U32_LIMIT else n
  }

  function Language(raw: Bytes): Value {
    if |raw| < 4 then Null else
    var ll := GetU16(raw, 0);
    if |raw| < 4 + ll then Text([]) else
    var tl := GetU16(raw, 2 + ll);
    Text(raw[4 + ll..if 4 + ll + tl <= |raw| then 4 + ll + tl else |raw|])
  }

  function ReadValue(tag: int, raw: Bytes): Value {
    if tag == INTEGER || tag == ENUM then (if |raw| == 4 then Int(Signed(GetU32(raw, 0))) else Null)
    else if tag == BOOLEAN then (if |raw| == 1 then Bool(raw[0] != 0) else Null)
    else if tag == RANGE then (if |raw| == 8 then Range(Signed(GetU32(raw, 0)), Signed(GetU32(raw, 4))) else Null)
    else if tag == RESOLUTION then
      (if |raw| == 9 then Resolution(Signed(GetU32(raw, 0)), Signed(GetU32(raw, 4)), raw[8] as int) else Null)
    else if tag == DATE_TIME then Null
    else if tag == TEXT_WITH_LANGUAGE || tag == NAME_WITH_LANGUAGE then Language(raw)
    else if tag == UNSUPPORTED || tag == UNKNOWN || tag == NO_VALUE then Null
    else Text(raw)
  }

  function Word(n: int): (b: Bytes)
    requires -0x8000_0000 <= n < 0x8000_0000
    ensures |b| == 4
  {
    U32(n % U32_LIMIT)
  }

  lemma WordReadBack(b: Bytes, i: nat, n: int)
    requires -0x8000_0000 <= n < 0x8000_0000 && i + 4 <= |b| && b[i..i + 4] == Word(n)
    ensures Signed(GetU32(b, i)) == n
  {
    hide U32, GetU32;
    ReadBackU32(b, i, n % U32_LIMIT);
  }

  /** Ranges and resolutions, which only printers send (section 3.9 of RFC 8010), are read with their signs. */
  lemma PairsAreRead(a: int, b: int, units: byte)
    requires -0x8000_0000 <= a < 0x8000_0000 && -0x8000_0000 <= b < 0x8000_0000
    ensures ReadValue(0x33, Word(a) + Word(b)) == Range(a, b)
    ensures ReadValue(0x32, Word(a) + Word(b) + [units]) == Resolution(a, b, units as int)
  {
    hide U32, GetU32, Word, Signed;
    var s, t := Word(a) + Word(b), Word(a) + Word(b) + [units];
    assert s[0..4] == Word(a) && s[4..8] == Word(b) && t[0..4] == Word(a) && t[4..8] == Word(b);
    WordReadBack(s, 0, a);
    WordReadBack(s, 4, b);
    WordReadBack(t, 0, a);
    WordReadBack(t, 4, b);
  }

  /** Of a text with its language the text is read. */
  lemma LanguageIsRead(language: Bytes, text: Bytes)
    requires |language| < U16_LIMIT && |text| < U16_LIMIT
    ensures ReadValue(0x35, U16(|language|) + language + U16(|text|) + text) == Text(text)
    ensures ReadValue(0x36, U16(|language|) + language + U16(|text|) + text) == Text(text)
  {
    hide U16, GetU16;
    var s, n := U16(|language|) + language + U16(|text|) + text, |language|;
    assert s[0..2] == U16(n) && s[2 + n..4 + n] == U16(|text|) && s[4 + n..4 + n + |text|] == text;
    ReadBackU16(s, 0, n);
    ReadBackU16(s, 2 + n, |text|);
  }

  // ---- Decoding ----

  /** A value with its tag and name, and where the next one starts. */
  datatype Item = Item(tag: int, name: Bytes, raw: Bytes, next: nat)

  /** None where the message is truncated. */
  function ItemAt(buf: Bytes, o: nat): (r: Option<Item>)
    requires o < |buf|
    ensures r.Some? ==> o + 5 <= r.value.next <= |buf|
  {
    if o + 3 > |buf| then None else
    var v := o + 3 + GetU16(buf, o + 1);
    if v + 2 > |buf| then None else
    var next := v + 2 + GetU16(buf, v);
    if next > |buf| then None else
    Some(Item(buf[o] as int, buf[o + 3..v], buf[v + 2..next], next))
  }

  /** A collection whose values are being read; no member is the empty name. */
  datatype Open = Open(obj: nat, member: Bytes)

  /** What has been read: the groups, the name that an unnamed value belongs to (if not
      empty), the open collections and all collections. */
  datatype State = State(groups: seq<Group>, last: Bytes, stack: seq<Open>, objs: seq<Attrs>)

  function Pushed(attrs: Attrs, name: Bytes, v: Value): Attrs {
    attrs[name := (if name in attrs then attrs[name] else []) + [v]]
  }

  function WithAttrs(groups: seq<Group>, attrs: Attrs): seq<Group>
    requires groups != []
  {
    groups[..|groups| - 1] + [Group(groups[|groups| - 1].tag, attrs)]
  }

  function CurrentAttrs(st: State): Attrs
    requires st.groups != []
  {
    st.groups[|st.groups| - 1].attrs
  }

  function InObject(st: State, obj: nat, member: Bytes, v: Value): State {
    if obj < |st.objs| then st.(objs := st.objs[obj := Pushed(st.objs[obj], member, v)]) else st
  }

  function OpenCollection(st: State, name: Bytes): Option<State>
    requires st.groups != []
  {
    var obj := |st.objs|;
    var st1 :-
      if st.stack != [] then
        var top := st.stack[|st.stack| - 1];
        if name != [] || top.member == [] then None else Some(InObject(st, top.obj, top.member, Object(obj)))
      else if name != [] then
        Some(st.(last := name, groups := WithAttrs(st.groups, Pushed(CurrentAttrs(st), name, Object(obj)))))
      else if st.last != [] then
        Some(st.(groups := WithAttrs(st.groups, Pushed(CurrentAttrs(st), st.last, Object(obj)))))
      else Some(st);
    Some(st1.(stack := st1.stack + [Open(obj, [])], objs := st1.objs + [map[]]))
  }

  function MemberValue(st: State, tag: int, raw: Bytes): State
    requires st.stack != []
  {
    var n := |st.stack| - 1;
    var top := st.stack[n];
    if tag == MEMBER_NAME then st.(stack := st.stack[..n] + [Open(top.obj, raw)])
    else if top.member != [] then InObject(st, top.obj, top.member, ReadValue(tag, raw))
    else st
  }

  function PlainValue(st: State, name: Bytes, v: Value): State
    requires st.groups != []
  {
    if name != [] then st.(last := name, groups := WithAttrs(st.groups, CurrentAttrs(st)[name := [v]]))
    else if st.last != [] then st.(groups := WithAttrs(st.groups, Pushed(CurrentAttrs(st), st.last, v)))
    else st
  }

  /** What one value does; None where the program throws. */
  function Step(st: State, tag: int, name: Bytes, raw: Bytes): Option<State> {
    if st.groups == [] then None
    else if tag == BEG_COLLECTION then (if |st.stack| >= MAX_DEPTH then None else OpenCollection(st, name))
    else if tag == END_COLLECTION then Some(st.(stack := if st.stack == [] then [] else st.stack[..|st.stack| - 1]))
    else if st.stack != [] then Some(MemberValue(st, tag, raw))
    else Some(PlainValue(st, name, ReadValue(tag, raw)))
  }

  function NewGroup(st: State, tag: int): State {
    st.(groups := st.groups + [Group(tag, map[])], last := [])
  }

  /** The rest of the message from `o` on, and the data behind it. */
  function DecodeFrom(buf: Bytes, o: nat, st: State): (r: Option<(State, Option<Bytes>)>)
    decreases |buf| - o
  {
    if o >= |buf| then Some((st, None)) else
    var tag := buf[o] as int;
    if tag == END_OF_ATTRIBUTES then Some((st, Some(buf[o + 1..])))
    else if tag < FIRST_VALUE_TAG then DecodeFrom(buf, o + 1, NewGroup(st, tag))
    else
      var i :- ItemAt(buf, o);
      var next :- Step(st, tag, i.name, i.raw);
      DecodeFrom(buf, i.next, next)
  }

  const START := State([], [], [], [])

  function DecodeResponse(buf: Bytes): (r: Option<Message>)
  {
    if |buf| < 9 then None else
    var (st, data) :- DecodeFrom(buf, 8, START);
    Some(Message(buf[0] as int, buf[1] as int, GetU16(buf, 2), GetU32(buf, 4), st.groups, st.objs, data))
  }

  /** The loop of decodeResponse. */
  method DecodeResponseLoop(buf: Bytes) returns (r: Option<Message>)
    ensures r == DecodeResponse(buf)
  {
    hide Step, ItemAt, GetU16, GetU32;
    if |buf| < 9 {
      return None;
    }
    var o: nat, st := 8, START;
    var data: Option<Bytes> := None;
    while o < |buf|
      invariant DecodeFrom(buf, 8, START) == DecodeFrom(buf, o, st) && data == None
      decreases |buf| - o
    {
      var tag := buf[o] as int;
      if tag == END_OF_ATTRIBUTES {
        data := Some(buf[o + 1..]);
        break;
      }
      if tag < FIRST_VALUE_TAG {
        st := NewGroup(st, tag);
        o := o + 1;
        continue;
      }
      var i := ItemAt(buf, o);
      if i.None? {
        return None;
      }
      var next := Step(st, tag, i.value.name, i.value.raw);
      if next.None? {
        return None;
      }
      o := i.value.next;
      st := next.value;
    }
    r := Some(Message(buf[0] as int, buf[1] as int, GetU16(buf, 2), GetU32(buf, 4), st.groups, st.objs, data));
  }

  // ---- Encoding ----

  datatype Attr = Attr(tag: int, name: Bytes, values: seq<Value>)

  datatype Section = Section(tag: int, attrs: seq<Attr>)

  /** The bytes of a value, as the tag asks for them; None for a value of another kind. */
  function ValueBytes(tag: int, v: Value): (r: Option<Bytes>)
  {
    if tag == INTEGER || tag == ENUM then
      if v.Int? && -0x8000_0000 <= v.n < 0x8000_0000 then Some(Word(v.n)) else None
    else if tag == BOOLEAN then
      if v.Bool? then Some([if v.b then 1 else 0]) else None
    else if v.Text? then Some(v.s)
    else None
  }

  /** A value with its tag and name, as it is sent. */
  function Framed(tag: int, name: Bytes, raw: Bytes): (b: Bytes)
    requires 0 <= tag < 256 && |name| < U16_LIMIT && |raw| < U16_LIMIT
  {
    [tag] + U16(|name|) + name + U16(|raw|) + raw
  }

  /** One value; None where a length does not fit. */
  function ItemBytes(tag: int, name: Bytes, v: Value): (r: Option<Bytes>)
  {
    var raw :- ValueBytes(tag, v);
    if !(0 <= tag < 256) || |name| >= U16_LIMIT || |raw| >= U16_LIMIT then None else
    Some(Framed(tag, name, raw))
  }

  /** The values of an attribute, the first under its name and the others under none. */
  function ValuesBytes(tag: int, name: Bytes, values: seq<Value>): (r: Option<Bytes>)
    decreases |values|
  {
    if values == [] then Some([]) else
    var first :- ItemBytes(tag, name, values[0]);
    var rest :- ValuesBytes(tag, [], values[1..]);
    Some(first + rest)
  }

  function AttrsBytes(attrs: seq<Attr>): (r: Option<Bytes>)
  {
    if attrs == [] then Some([]) else
    var a :- ValuesBytes(attrs[0].tag, attrs[0].name, attrs[0].values);
    var rest :- AttrsBytes(attrs[1..]);
    Some(a + rest)
  }

  function SectionsBytes(sections: seq<Section>): (r: Option<Bytes>)
  {
    if sections == [] then Some([]) else
    var s := sections[0];
    var rest :- SectionsBytes(sections[1..]);
    if s.attrs == [] then Some(rest) else
    var a :- AttrsBytes(s.attrs);
    if !(0 <= s.tag < 256) then None else
    Some([s.tag] + a + rest)
  }

  function EncodeMessage(code: int, requestId: int, sections: seq<Section>): (r: Option<Bytes>)
  {
    var body :- SectionsBytes(sections);
    if !(0 <= code < U16_LIMIT) then None else
    Some([2, 0] + U16(code) + U32(requestId % U32_LIMIT) + body + [END_OF_ATTRIBUTES])
  }

  // ---- Decoding what was encoded ----

  /** The tags whose values the decoder reads as the encoder writes them. */
  predicate Supported(tag: int) {
    && 0x10 <= tag < 256
    && tag != 0x10 && tag != 0x12 && tag != 0x13 && tag != 0x31 && tag != 0x32 && tag != 0x33
    && tag != 0x34 && tag != 0x35 && tag != 0x36 && tag != 0x37
  }

  /** What the tags stand for: integers and enums, booleans, values out of band, and texts of all kinds. */
  lemma TagsAre(n: int, b: bool, s: Bytes)
    requires -0x8000_0000 <= n < 0x8000_0000
    ensures forall t :: t == 0x21 || t == 0x23 ==>
                          ValueBytes(t, Int(n)) == Some(Word(n)) && ReadValue(t, Word(n)) == Int(n)
    ensures ValueBytes(0x22, Bool(b)) == Some([if b then 1 else 0]) && ReadValue(0x22, [if b then 1 else 0]) == Bool(b)
    ensures forall t :: t == 0x10 || t == 0x12 || t == 0x13 || t == 0x31 ==> ReadValue(t, s) == Null
    ensures forall t :: t == 0x30 || 0x41 <= t <= 0x49 ==>
                          ValueBytes(t, Text(s)) == Some(s) && ReadValue(t, s) == Text(s)
  {
    hide U32, GetU32, Word;
    assert Word(n)[0..4] == Word(n);
    WordReadBack(Word(n), 0, n);
  }

  lemma ValueReadBack(tag: int, v: Value)
    requires Supported(tag) && ValueBytes(tag, v).Some?
    ensures ReadValue(tag, ValueBytes(tag, v).value) == v
  {
    hide U32, GetU32, Word;
    if tag == INTEGER || tag == ENUM {
      assert Word(v.n)[0..4] == Word(v.n);
      WordReadBack(Word(v.n), 0, v.n);
    }
  }

  lemma FramedIsRead(buf: Bytes, o: nat, tag: int, name: Bytes, raw: Bytes)
    requires 0 <= tag < 256 && |name| < U16_LIMIT && |raw| < U16_LIMIT && Holds(buf, o, Framed(tag, name, raw))
    ensures o < |buf| && buf[o] as int == tag
    ensures ItemAt(buf, o) == Some(Item(tag, name, raw, o + |Framed(tag, name, raw)|))
  {
    hide GetU16, U16;
    var a, b, c, d, e: Bytes := [tag], U16(|name|), name, U16(|raw|), raw;
    HoldsBoth(buf, o, a + b + c + d, e);
    HoldsBoth(buf, o, a + b + c, d);
    HoldsBoth(buf, o, a + b, c);
    HoldsBoth(buf, o, a, b);
    FirstByte(buf, o, a);
    ReadBackU16(buf, o + 1, |name|);
    ReadBackU16(buf, o + 3 + |name|, |raw|);
  }

  lemma ItemIsRead(buf: Bytes, o: nat, tag: int, name: Bytes, v: Value)
    requires Supported(tag) && ItemBytes(tag, name, v).Some? && Holds(buf, o, ItemBytes(tag, name, v).value)
    ensures o < |buf| && buf[o] as int == tag
    ensures var i := ItemAt(buf, o);
            && i.Some? && i.value.name == name && i.value.next == o + |ItemBytes(tag, name, v).value|
            && ReadValue(tag, i.value.raw) == v
  {
    hide Supported, ValueBytes, ReadValue, Framed, ItemAt;
    ValueReadBack(tag, v);
    FramedIsRead(buf, o, tag, name, ValueBytes(tag, v).value);
  }

  lemma FirstByte(buf: Bytes, o: nat, a: Bytes)
    requires a != [] && Holds(buf, o, a)
    ensures buf[o] == a[0]
  {
    assert buf[o] == buf[o..o + |a|][0];
  }

  /** The state with the values of the attribute `name` in the current group. */
  function Holding(st: State, name: Bytes, values: seq<Value>): State
    requires st.groups != []
  {
    st.(last := name, groups := WithAttrs(st.groups, CurrentAttrs(st)[name := values]))
  }

  lemma HoldingAgain(st: State, name: Bytes, a: seq<Value>, b: seq<Value>)
    requires st.groups != []
    ensures Holding(Holding(st, name, a), name, b) == Holding(st, name, b)
  {
    var g := Holding(st, name, a).groups;
    assert g[..|g| - 1] == st.groups[..|g| - 1];
    assert CurrentAttrs(st)[name := a][name := b] == CurrentAttrs(st)[name := b];
  }

  /** A value without a name joins those of the last name. */
  lemma MoreValue(st: State, tag: int, name: Bytes, some: seq<Value>, v: Value, raw: Bytes)
    requires Supported(tag) && st.groups != [] && st.stack == [] && name != [] && ReadValue(tag, raw) == v
    ensures Step(Holding(st, name, some), tag, [], raw) == Some(Holding(st, name, some + [v]))
  {
    hide ReadValue;
    HoldingAgain(st, name, some, some + [v]);
  }

  /** A value without a name at the start of a group belongs to no attribute. */
  lemma OrphanValue(st: State, group: int, tag: int, raw: Bytes)
    requires Supported(tag) && st.stack == []
    ensures Step(NewGroup(st, group), tag, [], raw) == Some(NewGroup(st, group))
    ensures NewGroup(st, group).groups == st.groups + [Group(group, map[])] && NewGroup(st, group).objs == st.objs
  {
  }

  lemma {:induction false} ValuesAreRead(buf: Bytes, o: nat, st: State, tag: int, name: Bytes, some: seq<Value>,
                                         more: seq<Value>)
    requires Supported(tag) && st.groups != [] && st.stack == [] && name != []
    requires ValuesBytes(tag, [], more).Some? && Holds(buf, o, ValuesBytes(tag, [], more).value)
    ensures DecodeFrom(buf, o, Holding(st, name, some)) ==
            DecodeFrom(buf, o + |ValuesBytes(tag, [], more).value|, Holding(st, name, some + more))
    decreases |more|
  {
    hide Holding, ItemBytes, ItemAt, Step, ReadValue, Holds;
    if more == [] {
      assert some + more == some;
    } else {
      var v := more[0];
      var one, rest := ItemBytes(tag, [], v).value, ValuesBytes(tag, [], more[1..]).value;
      HoldsBoth(buf, o, one, rest);
      ItemIsRead(buf, o, tag, [], v);
      MoreValue(st, tag, name, some, v, ItemAt(buf, o).value.raw);
      ValuesAreRead(buf, o + |one|, st, tag, name, some + [v], more[1..]);
      assert some + [v] + more[1..] == some + more;
    }
  }

  predicate GoodAttr(a: Attr) {
    Supported(a.tag) && a.name != [] && a.values != []
  }

  lemma AttrIsRead(buf: Bytes, o: nat, st: State, a: Attr)
    requires GoodAttr(a) && st.groups != [] && st.stack == []
    requires var b := ValuesBytes(a.tag, a.name, a.values); b.Some? && Holds(buf, o, b.value)
    ensures DecodeFrom(buf, o, st) ==
            DecodeFrom(buf, o + |ValuesBytes(a.tag, a.name, a.values).value|, Holding(st, a.name, a.values))
  {
    hide ItemBytes, ItemAt, ReadValue, Supported, Holds;
    var v := a.values[0];
    var one, rest := ItemBytes(a.tag, a.name, v).value, ValuesBytes(a.tag, [], a.values[1..]).value;
    HoldsBoth(buf, o, one, rest);
    ItemIsRead(buf, o, a.tag, a.name, v);
    FirstValue(st, a.tag, a.name, v, ItemAt(buf, o).value.raw);
    ValuesAreRead(buf, o + |one|, st, a.tag, a.name, [v], a.values[1..]);
    assert [v] + a.values[1..] == a.values;
    IsValueTag(a.tag);
  }

  lemma IsValueTag(tag: int)
    requires Supported(tag)
    ensures tag >= FIRST_VALUE_TAG
  {
  }

  lemma FirstValue(st: State, tag: int, name: Bytes, v: Value, raw: Bytes)
    requires Supported(tag) && st.groups != [] && st.stack == [] && name != [] && ReadValue(tag, raw) == v
    ensures Step(st, tag, name, raw) == Some(Holding(st, name, [v]))
  {
    hide ReadValue;
  }

  predicate GoodAttrs(attrs: seq<Attr>) {
    forall k :: 0 <= k < |attrs| ==> GoodAttr(attrs[k])
  }

  /** The attributes by name; of two with the same name the later one counts. */
  function AttrMap(m: Attrs, attrs: seq<Attr>): (r: Attrs)
    decreases |attrs|
  {
    if attrs == [] then m else AttrMap(m[attrs[0].name := attrs[0].values], attrs[1..])
  }

  function LastName(last: Bytes, attrs: seq<Attr>): Bytes {
    if attrs == [] then last else attrs[|attrs| - 1].name
  }

  /** The state with the attributes read into the current group. */
  function HoldingAll(st: State, attrs: seq<Attr>): State
    requires st.groups != []
  {
    st.(last := LastName(st.last, attrs), groups := WithAttrs(st.groups, AttrMap(CurrentAttrs(st), attrs)))
  }

  lemma HoldingNext(st: State, attrs: seq<Attr>)
    requires st.groups != [] && attrs != []
    ensures HoldingAll(Holding(st, attrs[0].name, attrs[0].values), attrs[1..]) == HoldingAll(st, attrs)
  {
    var g := Holding(st, attrs[0].name, attrs[0].values).groups;
    assert g[..|g| - 1] == st.groups[..|g| - 1];
  }

  lemma HoldingNone(st: State)
    requires st.groups != []
    ensures HoldingAll(st, []) == st
  {
    var g := st.groups;
    assert WithAttrs(g, CurrentAttrs(st)) == g by { assert g == g[..|g| - 1] + [g[|g| - 1]]; }
  }

  lemma {:induction false} AttrsAreRead(buf: Bytes, o: nat, st: State, attrs: seq<Attr>)
    requires GoodAttrs(attrs) && st.groups != [] && st.stack == []
    requires AttrsBytes(attrs).Some? && Holds(buf, o, AttrsBytes(attrs).value)
    ensures DecodeFrom(buf, o, st) == DecodeFrom(buf, o + |AttrsBytes(attrs).value|, HoldingAll(st, attrs))
    decreases |attrs|
  {
    hide DecodeFrom, HoldingAll, Holds, ValuesBytes, GoodAttr;
    if attrs == [] {
      HoldingNone(st);
    } else {
      var a := attrs[0];
      assert GoodAttr(a);
      var one, rest := ValuesBytes(a.tag, a.name, a.values).value, AttrsBytes(attrs[1..]).value;
      HoldsBoth(buf, o, one, rest);
      AttrIsRead(buf, o, st, a);
      AttrsAreRead(buf, o + |one|, Holding(st, a.name, a.values), attrs[1..]);
      HoldingNext(st, attrs);
    }
  }

  predicate GoodSection(s: Section) {
    0 <= s.tag < 0x10 && s.tag != 3 && GoodAttrs(s.attrs)
  }

  predicate GoodSections(sections: seq<Section>) {
    forall k :: 0 <= k < |sections| ==> GoodSection(sections[k])
  }

  /** The groups that are sent: those that are not empty. */
  function Sent(sections: seq<Section>): seq<Group> {
    if sections == [] then [] else
    (if sections[0].attrs == [] then [] else [Group(sections[0].tag, AttrMap(map[], sections[0].attrs))]) +
    Sent(sections[1..])
  }

  lemma GroupIsRead(buf: Bytes, o: nat, st: State, s: Section)
    requires GoodSection(s) && st.stack == [] && AttrsBytes(s.attrs).Some?
    requires Holds(buf, o, [s.tag] + AttrsBytes(s.attrs).value)
    ensures exists last ::
              DecodeFrom(buf, o, st) ==
              DecodeFrom(buf, o + 1 + |AttrsBytes(s.attrs).value|,
                         st.(last := last, groups := st.groups + [Group(s.tag, AttrMap(map[], s.attrs))]))
  {
    hide AttrsBytes, AttrMap, GoodAttrs, LastName;
    var b := AttrsBytes(s.attrs).value;
    HoldsBoth(buf, o, [s.tag], b);
    FirstByte(buf, o, [s.tag]);
    var g := NewGroup(st, s.tag);
    AttrsAreRead(buf, o + 1, g, s.attrs);
    var h := HoldingAll(g, s.attrs);
    assert g.groups[..|g.groups| - 1] == st.groups;
    assert h == st.(last := h.last, groups := st.groups + [Group(s.tag, AttrMap(map[], s.attrs))]);
  }

  lemma {:induction false} SectionsAreRead(buf: Bytes, o: nat, st: State, sections: seq<Section>)
    requires GoodSections(sections) && st.stack == [] && SectionsBytes(sections).Some?
    requires Holds(buf, o, SectionsBytes(sections).value)
    ensures exists last ::
              DecodeFrom(buf, o, st) ==
              DecodeFrom(buf, o + |SectionsBytes(sections).value|,
                         st.(last := last, groups := st.groups + Sent(sections)))
    decreases |sections|
  {
    hide DecodeFrom, Holds, AttrsBytes, AttrMap, GoodSection;
    if sections == [] {
      assert st.groups + Sent(sections) == st.groups;
      assert st.(last := st.last, groups := st.groups + Sent(sections)) == st;
    } else {
      var s := sections[0];
      assert GoodSection(s);
      var rest := SectionsBytes(sections[1..]).value;
      if s.attrs == [] {
        SectionsAreRead(buf, o, st, sections[1..]);
        assert Sent(sections) == Sent(sections[1..]);
      } else {
        var one := [s.tag] + AttrsBytes(s.attrs).value;
        HoldsBoth(buf, o, one, rest);
        GroupIsRead(buf, o, st, s);
        var g := [Group(s.tag, AttrMap(map[], s.attrs))];
        var last :| DecodeFrom(buf, o, st) == DecodeFrom(buf, o + |one|, st.(last := last, groups := st.groups + g));
        SectionsAreRead(buf, o + |one|, st.(last := last, groups := st.groups + g), sections[1..]);
        assert st.groups + g + Sent(sections[1..]) == st.groups + Sent(sections);
      }
    }
  }

  /** Decoding an encoded message, followed by any document, gives its code, its id, its
      groups that are not empty, and the document. */
  lemma MessageRoundTrip(code: int, requestId: int, sections: seq<Section>, document: Bytes)
    requires GoodSections(sections) && EncodeMessage(code, requestId, sections).Some?
    ensures DecodeResponse(EncodeMessage(code, requestId, sections).value + document) ==
            Some(Message(2, 0, code, requestId % U32_LIMIT, Sent(sections), [], Some(document)))
  {
    hide DecodeFrom, SectionsBytes, Sent, GoodSections, U16, U32, GetU16, GetU32;
    var body := SectionsBytes(sections).value;
    var id := requestId % U32_LIMIT;
    var b := EncodeMessage(code, requestId, sections).value + document;
    assert b[2..4] == U16(code) && b[4..8] == U32(id);
    ReadBackU16(b, 2, code);
    ReadBackU32(b, 4, id);
    assert b[8..8 + |body|] == body;
    SectionsAreRead(b, 8, START, sections);
    var last :| DecodeFrom(b, 8, START) ==
                DecodeFrom(b, 8 + |body|, START.(last := last, groups := [] + Sent(sections)));
    assert [] + Sent(sections) == Sent(sections);
    assert b[8 + |body|] as int == END_OF_ATTRIBUTES && b[9 + |body|..] == document;
    AtEnd(b, 8 + |body|, START.(last := last, groups := Sent(sections)));
  }

  lemma AtEnd(b: Bytes, o: nat, st: State)
    requires o < |b| && b[o] as int == END_OF_ATTRIBUTES
    ensures DecodeFrom(b, o, st) == Some((st, Some(b[o + 1..])))
  {
  }

  /** With distinct names, a group holds exactly its attributes, each with its values in order. */
  lemma {:induction false} AttrMapIs(m: Attrs, attrs: seq<Attr>)
    requires forall j, k :: 0 <= j < k < |attrs| ==> attrs[j].name != attrs[k].name
    ensures forall k :: 0 <= k < |attrs| ==>
              attrs[k].name in AttrMap(m, attrs) && AttrMap(m, attrs)[attrs[k].name] == attrs[k].values
    ensures forall n :: n in AttrMap(m, attrs) <==> n in m || exists k :: 0 <= k < |attrs| && attrs[k].name == n
    ensures forall n :: n in m && (forall k :: 0 <= k < |attrs| ==> attrs[k].name != n) ==> AttrMap(m, attrs)[n] == m[n]
    decreases |attrs|
  {
    if attrs != [] {
      var rest := attrs[1..];
      assert forall k :: 0 < k < |attrs| ==> attrs[k] == rest[k - 1];
      AttrMapIs(m[attrs[0].name := attrs[0].values], rest);
    }
  }
}
