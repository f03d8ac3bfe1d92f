/** Collections in IPP messages (section 3.1.6 of RFC 8010): what decodeResponse of
    src/print/ipp.js makes of values that are nested in each other. */
module IppCollections {
  import opened Bytes
  import opened Ipp

  /** The inside of a collection as it is sent: member names, values, and collections as values. */
  datatype Items =
    | Done
    | Named(name: Bytes, tail: Items)
    | Leaf(tag: int, raw: Bytes, tail: Items)
    | Sub(items: Items, tail: Items)

  datatype Token = Token(tag: int, name: Bytes, raw: Bytes)

  ghost function Tokens(items: Items): seq<Token> {
    match items
    case Done => []
    case Named(name, tail) => [Token(0x4a, [], name)] + Tokens(tail)
    case Leaf(tag, raw, tail) => [Token(tag, [], raw)] + Tokens(tail)
    case Sub(inner, tail) =>
      [Token(0x34, [], [])] + (Tokens(inner) + ([Token(0x37, [], [])] + Tokens(tail)))
  }

  /** Values have a member name in front of them, and at most `depth` collections are in each other. */
  ghost predicate WellFormed(items: Items, member: Bytes, depth: int) {
    match items
    case Done => true
    case Named(name, tail) => WellFormed(tail, name, depth)
    case Leaf(tag, raw, tail) =>
      && member != [] && tag != 0x34 && tag != 0x37 && tag != 0x4a
      && WellFormed(tail, member, depth)
    case Sub(inner, tail) =>
      member != [] && depth > 0 && WellFormed(inner, [], depth - 1) && WellFormed(tail, member, depth)
  }

  // ---- What a collection means ----

  /** A value with all that is in it. */
  datatype Nested = Plain(v: Value) | Obj(fields: map<Bytes, seq<Nested>>)

  ghost function Added(m: map<Bytes, seq<Nested>>, name: Bytes, v: Nested): map<Bytes, seq<Nested>> {
    m[name := (if name in m then m[name] else []) + [v]]
  }

  /** The members of a collection with their values in order. */
  ghost function Fields(items: Items, member: Bytes, m: map<Bytes, seq<Nested>>): map<Bytes, seq<Nested>> {
    match items
    case Done => m
    case Named(name, tail) => Fields(tail, name, m)
    case Leaf(tag, raw, tail) => Fields(tail, member, Added(m, member, Plain(ReadValue(tag, raw))))
    case Sub(inner, tail) => Fields(tail, member, Added(m, member, Obj(Fields(inner, [], map[]))))
  }

  /** A value of a message with all that is in it, down to `depth`. */
  ghost function Show(objs: seq<Attrs>, v: Value, depth: nat): Nested
    decreases depth, 0, 0
  {
    if v.Object? && v.id < |objs| && depth > 0 then Obj(ShowFields(objs, objs[v.id], depth - 1)) else Plain(v)
  }

  ghost function ShowFields(objs: seq<Attrs>, m: Attrs, depth: nat): map<Bytes, seq<Nested>>
    decreases depth, 2, 0
  {
    map k | k in m :: ShowAll(objs, m[k], depth)
  }

  ghost function ShowAll(objs: seq<Attrs>, vs: seq<Value>, depth: nat): (r: seq<Nested>)
    ensures |r| == |vs|
    decreases depth, 1, |vs|
  {
    if vs == [] then [] else ShowAll(objs, vs[..|vs| - 1], depth) + [Show(objs, vs[|vs| - 1], depth)]
  }

  // ---- What the decoder builds ----

  /** The members of the collection that is read, and the collections in it, numbered from `next` on. */
  datatype Built = Built(m: Attrs, objs: seq<Attrs>, member: Bytes)

  ghost function Build(items: Items, member: Bytes, m: Attrs, next: nat): Built {
    match items
    case Done => Built(m, [], member)
    case Named(name, tail) => Build(tail, name, m, next)
    case Leaf(tag, raw, tail) => Build(tail, member, Pushed(m, member, ReadValue(tag, raw)), next)
    case Sub(inner, tail) =>
      var b := Build(inner, [], map[], next + 1);
      var t := Build(tail, member, Pushed(m, member, Object(next)), next + 1 + |b.objs|);
      Built(t.m, [b.m] + b.objs + t.objs, t.member)
  }

  ghost function Depth(items: Items): nat {
    match items
    case Done => 0
    case Named(_, tail) => Depth(tail)
    case Leaf(_, _, tail) => Depth(tail)
    case Sub(inner, tail) => if Depth(tail) <= Depth(inner) then Depth(inner) + 1 else Depth(tail)
  }

  /** The collections built from `next` on stand in the message. */
  ghost predicate Stored(objs: seq<Attrs>, next: nat, new_: seq<Attrs>) {
    next + |new_| <= |objs| && objs[next..next + |new_|] == new_
  }

  lemma ShowPushed(objs: seq<Attrs>, m: Attrs, name: Bytes, v: Value, depth: nat)
    ensures ShowFields(objs, Pushed(m, name, v), depth) == Added(ShowFields(objs, m, depth), name, Show(objs, v, depth))
  {
    var p := Pushed(m, name, v);
    var vs := p[name];
    assert vs[..|vs| - 1] == if name in m then m[name] else [];
    assert ShowAll(objs, vs, depth) == ShowAll(objs, vs[..|vs| - 1], depth) + [Show(objs, v, depth)];
  }

  lemma LeafIsPlain(objs: seq<Attrs>, tag: int, raw: Bytes, depth: nat)
    ensures Show(objs, ReadValue(tag, raw), depth) == Plain(ReadValue(tag, raw))
  {
  }

  /** What is built shows what was sent. */
  lemma {:induction false} BuiltShows(items: Items, member: Bytes, m: Attrs, next: nat, objs: seq<Attrs>, depth: nat)
    requires Stored(objs, next, Build(items, member, m, next).objs) && Depth(items) <= depth
    ensures ShowFields(objs, Build(items, member, m, next).m, depth) ==
            Fields(items, member, ShowFields(objs, m, depth))
    decreases items
  {
    hide Pushed, Added, ShowFields, ReadValue;
    match items
    case Done =>
    case Named(name, tail) =>
      BuiltShows(tail, name, m, next, objs, depth);
    case Leaf(tag, raw, tail) =>
      ShowPushed(objs, m, member, ReadValue(tag, raw), depth);
      LeafIsPlain(objs, tag, raw, depth);
      BuiltShows(tail, member, Pushed(m, member, ReadValue(tag, raw)), next, objs, depth);
    case Sub(inner, tail) =>
      var b := Build(inner, [], map[], next + 1);
      var t := Build(tail, member, Pushed(m, member, Object(next)), next + 1 + |b.objs|);
      StoredParts(objs, next, b, t);
      ShowEmpty(objs, depth - 1);
      BuiltShows(inner, [], map[], next + 1, objs, depth - 1);
      ShowPushed(objs, m, member, Object(next), depth);
      BuiltShows(tail, member, Pushed(m, member, Object(next)), next + 1 + |b.objs|, objs, depth);
  }

  lemma ShowEmpty(objs: seq<Attrs>, depth: nat)
    ensures ShowFields(objs, map[], depth) == map[]
  {
  }

  lemma StoredParts(objs: seq<Attrs>, next: nat, b: Built, t: Built)
    requires Stored(objs, next, [b.m] + b.objs + t.objs)
    ensures next < |objs| && objs[next] == b.m && Stored(objs, next + 1, b.objs)
            && Stored(objs, next + 1 + |b.objs|, t.objs)
  {
    StoredBoth(objs, next, [b.m] + b.objs, t.objs);
    StoredBoth(objs, next, [b.m], b.objs);
    assert objs[next] == objs[next..next + 1][0];
  }

  lemma StoredBoth(objs: seq<Attrs>, next: nat, a: seq<Attrs>, b: seq<Attrs>)
    requires Stored(objs, next, a + b)
    ensures Stored(objs, next, a) && Stored(objs, next + |a|, b)
  {
    var all := a + b;
    SliceOfSlice(objs, next, next + |all|, 0, |a|);
    SliceOfSlice(objs, next, next + |all|, |a|, |all|);
    assert all[0..|a|] == a && all[|a|..|all|] == b;
  }

  // ---- What the decoder does ----

  /** The values `ts` one after the other; None where the program throws. */
  ghost function Run(st: State, ts: seq<Token>): Option<State>
    decreases |ts|
  {
    if ts == [] then Some(st) else
    var next :- Step(st, ts[0].tag, ts[0].name, ts[0].raw);
    Run(next, ts[1..])
  }

  lemma {:induction false} RunBoth(st: State, a: seq<Token>, b: seq<Token>)
    ensures Run(st, a + b) == if Run(st, a).None? then None else Run(Run(st, a).value, b)
    decreases |a|
  {
    hide Step;
    if a == [] {
      assert a + b == b;
    } else {
      assert (a + b)[1..] == a[1..] + b;
      var next := Step(st, a[0].tag, a[0].name, a[0].raw);
      if next.Some? {
        RunBoth(next.value, a[1..], b);
      }
    }
  }

  lemma RunFirst(st: State, t: Token, rest: seq<Token>)
    ensures Run(st, [t] + rest) ==
            var next := Step(st, t.tag, t.name, t.raw); if next.None? then None else Run(next.value, rest)
  {
    assert ([t] + rest)[1..] == rest;
  }

  /** The decoder is reading the collection `obj`, after the member name `member`. */
  ghost predicate Reading(st: State, below: seq<Open>, obj: nat, member: Bytes) {
    st.groups != [] && st.stack == below + [Open(obj, member)] && obj < |st.objs|
  }

  /** The state after the rest of the collection `obj` is read. */
  ghost function After(st: State, below: seq<Open>, obj: nat, b: Built): State
    requires obj < |st.objs|
  {
    st.(stack := below + [Open(obj, b.member)], objs := st.objs[obj := b.m] + b.objs)
  }

  lemma StepName(st: State, below: seq<Open>, obj: nat, member: Bytes, name: Bytes)
    requires Reading(st, below, obj, member)
    ensures Step(st, 0x4a, [], name) == Some(st.(stack := below + [Open(obj, name)]))
  {
    assert st.stack[..|st.stack| - 1] == below;
  }

  lemma StepLeaf(st: State, below: seq<Open>, obj: nat, member: Bytes, tag: int, raw: Bytes)
    requires Reading(st, below, obj, member) && member != []
    requires tag != 0x34 && tag != 0x37 && tag != 0x4a
    ensures Step(st, tag, [], raw) ==
            Some(st.(objs := st.objs[obj := Pushed(st.objs[obj], member, ReadValue(tag, raw))]))
  {
    hide Pushed, ReadValue;
  }

  lemma StepOpen(st: State, below: seq<Open>, obj: nat, member: Bytes)
    requires Reading(st, below, obj, member) && member != [] && |below| + 1 < 8
    ensures var n := |st.objs|;
            Step(st, 0x34, [], []) ==
            Some(st.(stack := st.stack + [Open(n, [])],
                     objs := st.objs[obj := Pushed(st.objs[obj], member, Object(n))] + [map[]]))
  {
    hide Pushed;
  }

  lemma StepClose(st: State, below: seq<Open>, obj: nat, member: Bytes)
    requires Reading(st, below, obj, member)
    ensures Step(st, 0x37, [], []) == Some(st.(stack := below))
  {
    assert st.stack[..|st.stack| - 1] == below;
  }

  /** A collection inside eight others is refused. */
  lemma TooDeep(st: State, name: Bytes, raw: Bytes)
    requires st.groups != []
    ensures |st.stack| >= 8 ==> Step(st, 0x34, name, raw).None?
    ensures |st.stack| < 8 && (st.stack != [] ==> name == [] && st.stack[|st.stack| - 1].member != []) ==>
              Step(st, 0x34, name, raw).Some?
  {
  }

  /** The inside of a collection is read into it, and leaves the rest as it is. */
  lemma {:induction false} ItemsAreRead(st: State, below: seq<Open>, obj: nat, member: Bytes, items: Items, depth: nat)
    requires Reading(st, below, obj, member) && WellFormed(items, member, depth) && |below| + 1 + depth <= 8
    ensures Run(st, Tokens(items)) == Some(After(st, below, obj, Build(items, member, st.objs[obj], |st.objs|)))
    decreases items, 1
  {
    hide Step, Pushed, ReadValue, Run;
    match items
    case Done =>
      NothingToRun(st);
      assert st.objs[obj := st.objs[obj]] + [] == st.objs;
    case Named(name, tail) =>
      RunFirst(st, Token(0x4a, [], name), Tokens(tail));
      StepName(st, below, obj, member, name);
      ItemsAreRead(st.(stack := below + [Open(obj, name)]), below, obj, name, tail, depth);
    case Leaf(tag, raw, tail) =>
      RunFirst(st, Token(tag, [], raw), Tokens(tail));
      StepLeaf(st, below, obj, member, tag, raw);
      var m := Pushed(st.objs[obj], member, ReadValue(tag, raw));
      ItemsAreRead(st.(objs := st.objs[obj := m]), below, obj, member, tail, depth);
      SetTwice(st.objs, obj, m, Build(tail, member, m, |st.objs|).m);
    case Sub(inner, tail) =>
      SubIsRead(st, below, obj, member, items, depth);
  }

  lemma {:induction false} SubIsRead(st: State, below: seq<Open>, obj: nat, member: Bytes, items: Items, depth: nat)
    requires items.Sub?
    requires Reading(st, below, obj, member) && WellFormed(items, member, depth) && |below| + 1 + depth <= 8
    ensures Run(st, Tokens(items)) == Some(After(st, below, obj, Build(items, member, st.objs[obj], |st.objs|)))
    decreases items, 0
  {
    hide Step, Pushed, ReadValue, Run;
    var n, m := |st.objs|, Pushed(st.objs[obj], member, Object(|st.objs|));
    var closing := [Token(0x37, [], [])] + Tokens(items.tail);
    RunFirst(st, Token(0x34, [], []), Tokens(items.items) + closing);
    StepOpen(st, below, obj, member);
    var st1 := st.(stack := st.stack + [Open(n, [])], objs := st.objs[obj := m] + [map[]]);
    RunBoth(st1, Tokens(items.items), closing);
    ItemsAreRead(st1, st.stack, n, [], items.items, depth - 1);
    var b := Build(items.items, [], map[], n + 1);
    var st2 := After(st1, st.stack, n, b);
    RunFirst(st2, Token(0x37, [], []), Tokens(items.tail));
    StepClose(st2, st.stack, n, b.member);
    var st3 := st2.(stack := st.stack);
    HeapAfterSub(st.objs, obj, m, b);
    ItemsAreRead(st3, below, obj, member, items.tail, depth);
    var t := Build(items.tail, member, m, n + 1 + |b.objs|);
    HeapAtEnd(st.objs, obj, m, b, t);
  }

  /** The collections after one in `obj` is closed. */
  ghost function WithSub(objs: seq<Attrs>, obj: nat, m: Attrs, b: Built): seq<Attrs>
    requires obj < |objs|
  {
    (objs[obj := m] + [map[]])[|objs| := b.m] + b.objs
  }

  lemma HeapAfterSub(objs: seq<Attrs>, obj: nat, m: Attrs, b: Built)
    requires obj < |objs|
    ensures |WithSub(objs, obj, m, b)| == |objs| + 1 + |b.objs| && WithSub(objs, obj, m, b)[obj] == m
  {
  }

  lemma HeapAtEnd(objs: seq<Attrs>, obj: nat, m: Attrs, b: Built, t: Built)
    requires obj < |objs|
    ensures |WithSub(objs, obj, m, b)| > obj
    ensures WithSub(objs, obj, m, b)[obj := t.m] + t.objs == objs[obj := t.m] + ([b.m] + b.objs + t.objs)
  {
    assert WithSub(objs, obj, m, b) == objs[obj := m] + [b.m] + b.objs;
    assert WithSub(objs, obj, m, b)[obj := t.m] == objs[obj := t.m] + [b.m] + b.objs;
  }

  lemma NothingToRun(st: State)
    ensures Run(st, []) == Some(st)
  {
  }

  lemma SetTwice(objs: seq<Attrs>, i: nat, a: Attrs, b: Attrs)
    requires i < |objs|
    ensures objs[i := a][i := b] == objs[i := b]
  {
  }

  // ---- A collection as the value of an attribute ----

  /** A whole collection; only the first value of an attribute carries its name. */
  ghost function CollectionTokens(name: Bytes, items: Items): seq<Token> {
    [Token(0x34, name, [])] + (Tokens(items) + [Token(0x37, [], [])])
  }

  /** The state with one more collection among the values of `name`. */
  ghost function WithCollection(st: State, name: Bytes, items: Items): State
    requires st.groups != []
  {
    var n := |st.objs|;
    var b := Build(items, [], map[], n + 1);
    st.(last := name, groups := WithAttrs(st.groups, Pushed(CurrentAttrs(st), name, Object(n))),
        objs := st.objs + ([b.m] + b.objs))
  }

  /** A collection of any well-formed inside, nested as deep as the program allows, becomes one
      value of its attribute; the other values and collections stay as they were. */
  lemma CollectionIsRead(st: State, name: Bytes, sent: Bytes, items: Items)
    requires st.groups != [] && st.stack == [] && name != [] && WellFormed(items, [], 7)
    requires sent == name || (sent == [] && st.last == name)
    ensures Run(st, CollectionTokens(sent, items)) == Some(WithCollection(st, name, items))
  {
    hide Step, Run, Pushed;
    var n := |st.objs|;
    var closing := [Token(0x37, [], [])];
    RunFirst(st, Token(0x34, sent, []), Tokens(items) + closing);
    StepOpenFirst(st, name, sent);
    var st1 := Step(st, 0x34, sent, []).value;
    RunBoth(st1, Tokens(items), closing);
    ItemsAreRead(st1, [], n, [], items, 7);
    var b := Build(items, [], map[], n + 1);
    var st2 := After(st1, [], n, b);
    RunFirst(st2, Token(0x37, [], []), []);
    assert closing + [] == closing;
    StepClose(st2, [], n, b.member);
    NothingToRun(st2.(stack := []));
    assert (st.objs + [map[]])[n := b.m] + b.objs == st.objs + ([b.m] + b.objs);
  }

  lemma StepOpenFirst(st: State, name: Bytes, sent: Bytes)
    requires st.groups != [] && st.stack == [] && name != [] && (sent == name || (sent == [] && st.last == name))
    ensures var n := |st.objs|;
            Step(st, 0x34, sent, []) ==
            Some(st.(last := name, groups := WithAttrs(st.groups, Pushed(CurrentAttrs(st), name, Object(n))),
                     stack := [Open(n, [])], objs := st.objs + [map[]]))
  {
    hide Pushed;
    assert st.stack + [Open(|st.objs|, [])] == [Open(|st.objs|, [])];
  }

  lemma {:induction false} DepthIsBounded(items: Items, member: Bytes, depth: nat)
    requires WellFormed(items, member, depth)
    ensures Depth(items) <= depth
    decreases items
  {
    match items
    case Done =>
    case Named(name, tail) => DepthIsBounded(tail, name, depth);
    case Leaf(_, _, tail) => DepthIsBounded(tail, member, depth);
    case Sub(inner, tail) =>
      DepthIsBounded(inner, [], depth - 1);
      DepthIsBounded(tail, member, depth);
  }

  /** In every message that has grown from there, the new value shows exactly the members and values
      that were sent, in order. */
  lemma CollectionShows(objs: seq<Attrs>, st: State, name: Bytes, items: Items)
    requires st.groups != [] && WellFormed(items, [], 7) && WithCollection(st, name, items).objs <= objs
    ensures ShowFields(objs, CurrentAttrs(WithCollection(st, name, items)), 8) ==
            Added(ShowFields(objs, CurrentAttrs(st), 8), name, Obj(Fields(items, [], map[])))
  {
    hide Pushed, Added, ShowFields, Fields;
    var n, b := |st.objs|, Build(items, [], map[], |st.objs| + 1);
    DepthIsBounded(items, [], 7);
    PrefixStored(objs, st.objs, [b.m] + b.objs);
    StoredBoth(objs, n, [b.m], b.objs);
    assert objs[n] == objs[n..n + 1][0];
    ShowEmpty(objs, 7);
    BuiltShows(items, [], map[], n + 1, objs, 7);
    ShowPushed(objs, CurrentAttrs(st), name, Object(n), 8);
  }

  lemma PrefixStored(objs: seq<Attrs>, a: seq<Attrs>, b: seq<Attrs>)
    requires a + b <= objs
    ensures Stored(objs, |a|, b)
  {
    SliceOfSlice(objs, 0, |a + b|, |a|, |a + b|);
    assert objs[0..|a + b|] == a + b && (a + b)[|a|..|a + b|] == b;
  }

  // ---- In bytes ----

  ghost predicate Sendable(t: Token) {
    0x10 <= t.tag < 256 && |t.name| < U16_LIMIT && |t.raw| < U16_LIMIT
  }

  ghost predicate AllSendable(ts: seq<Token>) {
    forall k :: 0 <= k < |ts| ==> Sendable(ts[k])
  }

  ghost function TokenBytes(ts: seq<Token>): Bytes
    requires AllSendable(ts)
  {
    if ts == [] then [] else
    assert Sendable(ts[0]);
    Framed(ts[0].tag, ts[0].name, ts[0].raw) + TokenBytes(ts[1..])
  }

  /** The decoder takes the values out of the bytes one after the other. */
  lemma {:induction false} TokensAreDecoded(buf: Bytes, o: nat, st: State, ts: seq<Token>)
    requires AllSendable(ts) && Holds(buf, o, TokenBytes(ts))
    ensures DecodeFrom(buf, o, st) ==
            if Run(st, ts).None? then None else DecodeFrom(buf, o + |TokenBytes(ts)|, Run(st, ts).value)
    decreases |ts|
  {
    hide Step, Framed, Holds, ItemAt;
    if ts != [] {
      var t := ts[0];
      assert Sendable(t);
      HoldsBoth(buf, o, Framed(t.tag, t.name, t.raw), TokenBytes(ts[1..]));
      FramedIsRead(buf, o, t.tag, t.name, t.raw);
      var next := Step(st, t.tag, t.name, t.raw);
      if next.Some? {
        TokensAreDecoded(buf, o + |Framed(t.tag, t.name, t.raw)|, next.value, ts[1..]);
      }
    }
  }

  // ---- Attributes of both kinds ----

  /** An attribute with plain values, or one whose values are collections. */
  datatype Elem = Simple(a: Attr) | Collections(name: Bytes, first: Items, more: seq<Items>)

  ghost predicate AllWellFormed(cs: seq<Items>) {
    forall k :: 0 <= k < |cs| ==> WellFormed(cs[k], [], 7)
  }

  ghost function MoreTokens(cs: seq<Items>): seq<Token> {
    if cs == [] then [] else CollectionTokens([], cs[0]) + MoreTokens(cs[1..])
  }

  ghost function ElemTokens(e: Elem): seq<Token>
    requires e.Collections?
  {
    CollectionTokens(e.name, e.first) + MoreTokens(e.more)
  }

  ghost predicate GoodElem(e: Elem) {
    match e
    case Simple(a) => GoodAttr(a) && ValuesBytes(a.tag, a.name, a.values).Some?
    case Collections(name, first, more) =>
      name != [] && WellFormed(first, [], 7) && AllWellFormed(more) && AllSendable(ElemTokens(e))
  }

  ghost function ElemBytes(e: Elem): Bytes
    requires GoodElem(e)
  {
    match e
    case Simple(a) => ValuesBytes(a.tag, a.name, a.values).value
    case Collections(_, _, _) => TokenBytes(ElemTokens(e))
  }

  ghost function WithMore(st: State, name: Bytes, cs: seq<Items>): (r: State)
    requires st.groups != []
    ensures r.groups != [] && r.stack == st.stack
    decreases |cs|
  {
    if cs == [] then st else WithMore(WithCollection(st, name, cs[0]), name, cs[1..])
  }

  ghost function WithElem(st: State, e: Elem): (r: State)
    requires st.groups != []
    ensures r.groups != [] && r.stack == st.stack
  {
    match e
    case Simple(a) => Holding(st, a.name, a.values)
    case Collections(name, first, more) => WithMore(WithCollection(st, name, first), name, more)
  }

  lemma {:induction false} MoreAreRead(st: State, name: Bytes, cs: seq<Items>)
    requires st.groups != [] && st.stack == [] && name != [] && st.last == name && AllWellFormed(cs)
    ensures Run(st, MoreTokens(cs)) == Some(WithMore(st, name, cs))
    decreases |cs|
  {
    hide Run, CollectionTokens, WellFormed;
    if cs == [] {
      NothingToRun(st);
    } else {
      assert WellFormed(cs[0], [], 7);
      CollectionIsRead(st, name, [], cs[0]);
      RunBoth(st, CollectionTokens([], cs[0]), MoreTokens(cs[1..]));
      MoreAreRead(WithCollection(st, name, cs[0]), name, cs[1..]);
    }
  }

  lemma ElemIsRead(buf: Bytes, o: nat, st: State, e: Elem)
    requires GoodElem(e) && st.groups != [] && st.stack == [] && Holds(buf, o, ElemBytes(e))
    ensures DecodeFrom(buf, o, st) == DecodeFrom(buf, o + |ElemBytes(e)|, WithElem(st, e))
  {
    hide DecodeFrom, Holds, ValuesBytes, TokenBytes, Run, CollectionTokens, MoreTokens, WellFormed, AllWellFormed,
        AllSendable;
    match e
    case Simple(a) =>
      AttrIsRead(buf, o, st, a);
    case Collections(name, first, more) =>
      TokensAreDecoded(buf, o, st, ElemTokens(e));
      CollectionIsRead(st, name, name, first);
      RunBoth(st, CollectionTokens(name, first), MoreTokens(more));
      MoreAreRead(WithCollection(st, name, first), name, more);
  }

  /** What an attribute means. */
  ghost function MoreMeaning(m: map<Bytes, seq<Nested>>, name: Bytes, cs: seq<Items>): map<Bytes, seq<Nested>>
    decreases |cs|
  {
    if cs == [] then m else MoreMeaning(Added(m, name, Obj(Fields(cs[0], [], map[]))), name, cs[1..])
  }

  ghost function PlainAll(vs: seq<Value>): seq<Nested> {
    seq(|vs|, k requires 0 <= k < |vs| => Plain(vs[k]))
  }

  ghost function ElemMeaning(m: map<Bytes, seq<Nested>>, e: Elem): map<Bytes, seq<Nested>> {
    match e
    case Simple(a) => m[a.name := PlainAll(a.values)]
    case Collections(name, first, more) => MoreMeaning(m, name, [first] + more)
  }

  lemma {:induction false} MoreGrow(st: State, name: Bytes, cs: seq<Items>)
    requires st.groups != []
    ensures var r := WithMore(st, name, cs); st.objs <= r.objs && SameButLast(st.groups, r.groups)
    decreases |cs|
  {
    if cs != [] {
      MoreGrow(WithCollection(st, name, cs[0]), name, cs[1..]);
    }
  }

  /** The groups in front are the same, and the last one has the same tag. */
  ghost predicate SameButLast(a: seq<Group>, b: seq<Group>) {
    && a != [] && |b| == |a| && b[..|a| - 1] == a[..|a| - 1] && b[|a| - 1].tag == a[|a| - 1].tag
  }

  lemma ElemGrows(st: State, e: Elem)
    requires st.groups != []
    ensures var r := WithElem(st, e); st.objs <= r.objs && SameButLast(st.groups, r.groups)
  {
    if e.Collections? {
      MoreGrow(WithCollection(st, e.name, e.first), e.name, e.more);
    }
  }

  lemma {:induction false} MoreShow(objs: seq<Attrs>, st: State, name: Bytes, cs: seq<Items>)
    requires st.groups != [] && AllWellFormed(cs) && WithMore(st, name, cs).objs <= objs
    ensures ShowFields(objs, CurrentAttrs(WithMore(st, name, cs)), 8) ==
            MoreMeaning(ShowFields(objs, CurrentAttrs(st), 8), name, cs)
    decreases |cs|
  {
    hide ShowFields, Added, Fields, WellFormed, WithCollection;
    if cs != [] {
      assert WellFormed(cs[0], [], 7);
      var next := WithCollection(st, name, cs[0]);
      StillGroups(st, name, cs[0]);
      MoreGrow(next, name, cs[1..]);
      CollectionShows(objs, st, name, cs[0]);
      MoreShow(objs, next, name, cs[1..]);
    }
  }

  lemma StillGroups(st: State, name: Bytes, items: Items)
    requires st.groups != []
    ensures WithCollection(st, name, items).groups != []
  {
  }

  lemma {:induction false} PlainShow(objs: seq<Attrs>, tag: int, name: Bytes, vs: seq<Value>)
    requires ValuesBytes(tag, name, vs).Some?
    ensures forall k :: 0 <= k < |vs| ==> !vs[k].Object?
    decreases |vs|
  {
    if vs != [] {
      PlainShow(objs, tag, [], vs[1..]);
      assert forall k :: 1 <= k < |vs| ==> vs[k] == vs[1..][k - 1];
    }
  }

  lemma {:induction false} ShowPlain(objs: seq<Attrs>, vs: seq<Value>, depth: nat)
    requires forall k :: 0 <= k < |vs| ==> !vs[k].Object?
    ensures ShowAll(objs, vs, depth) == PlainAll(vs)
    decreases |vs|
  {
    if vs != [] {
      ShowPlain(objs, vs[..|vs| - 1], depth);
      assert PlainAll(vs) == PlainAll(vs[..|vs| - 1]) + [Plain(vs[|vs| - 1])];
    }
  }

  /** What is decoded of an attribute shows what was sent. */
  lemma ElemShows(objs: seq<Attrs>, st: State, e: Elem)
    requires st.groups != [] && GoodElem(e) && WithElem(st, e).objs <= objs
    ensures ShowFields(objs, CurrentAttrs(WithElem(st, e)), 8) ==
            ElemMeaning(ShowFields(objs, CurrentAttrs(st), 8), e)
  {
    match e
    case Simple(a) =>
      hide Show;
      PlainShow(objs, a.tag, a.name, a.values);
      ShowPlain(objs, a.values, 8);
    case Collections(name, first, more) =>
      ValuesShow(objs, st, name, first, more);
  }

  lemma ValuesShow(objs: seq<Attrs>, st: State, name: Bytes, first: Items, more: seq<Items>)
    requires st.groups != [] && WellFormed(first, [], 7) && AllWellFormed(more)
    requires WithMore(WithCollection(st, name, first), name, more).objs <= objs
    ensures ShowFields(objs, CurrentAttrs(WithMore(WithCollection(st, name, first), name, more)), 8) ==
            MoreMeaning(ShowFields(objs, CurrentAttrs(st), 8), name, [first] + more)
  {
    hide ShowFields, Added, Fields, WellFormed;
    assert ([first] + more)[1..] == more;
    assert AllWellFormed([first] + more);
    MoreShow(objs, st, name, [first] + more);
  }

  // ---- Groups ----

  datatype Mixed = Mixed(tag: int, elems: seq<Elem>)

  ghost predicate GoodElems(es: seq<Elem>) {
    forall k :: 0 <= k < |es| ==> GoodElem(es[k])
  }

  ghost function ElemsBytes(es: seq<Elem>): Bytes
    requires GoodElems(es)
  {
    if es == [] then [] else
    assert GoodElem(es[0]);
    ElemBytes(es[0]) + ElemsBytes(es[1..])
  }

  ghost function WithElems(st: State, es: seq<Elem>): (r: State)
    requires st.groups != []
    ensures r.groups != [] && r.stack == st.stack
    decreases |es|
  {
    if es == [] then st else WithElems(WithElem(st, es[0]), es[1..])
  }

  ghost function ElemsMeaning(m: map<Bytes, seq<Nested>>, es: seq<Elem>): map<Bytes, seq<Nested>>
    decreases |es|
  {
    if es == [] then m else ElemsMeaning(ElemMeaning(m, es[0]), es[1..])
  }

  lemma {:induction false} ElemsAreRead(buf: Bytes, o: nat, st: State, es: seq<Elem>)
    requires GoodElems(es) && st.groups != [] && st.stack == [] && Holds(buf, o, ElemsBytes(es))
    ensures DecodeFrom(buf, o, st) == DecodeFrom(buf, o + |ElemsBytes(es)|, WithElems(st, es))
    decreases |es|
  {
    hide DecodeFrom, Holds, GoodElem, ElemBytes, WithElem;
    if es != [] {
      assert GoodElem(es[0]);
      HoldsBoth(buf, o, ElemBytes(es[0]), ElemsBytes(es[1..]));
      ElemIsRead(buf, o, st, es[0]);
      ElemsAreRead(buf, o + |ElemBytes(es[0])|, WithElem(st, es[0]), es[1..]);
    }
  }

  lemma {:induction false} ElemsGrow(st: State, es: seq<Elem>)
    requires st.groups != []
    ensures var r := WithElems(st, es); st.objs <= r.objs && SameButLast(st.groups, r.groups)
    decreases |es|
  {
    hide WithElem;
    if es != [] {
      ElemGrows(st, es[0]);
      ElemsGrow(WithElem(st, es[0]), es[1..]);
    }
  }

  lemma {:induction false} ElemsShow(objs: seq<Attrs>, st: State, es: seq<Elem>)
    requires st.groups != [] && GoodElems(es) && WithElems(st, es).objs <= objs
    ensures ShowFields(objs, CurrentAttrs(WithElems(st, es)), 8) ==
            ElemsMeaning(ShowFields(objs, CurrentAttrs(st), 8), es)
    decreases |es|
  {
    hide WithElem, GoodElem, ShowFields, ElemMeaning;
    if es != [] {
      assert GoodElem(es[0]);
      ElemsGrow(WithElem(st, es[0]), es[1..]);
      ElemShows(objs, st, es[0]);
      ElemsShow(objs, WithElem(st, es[0]), es[1..]);
    }
  }

  ghost predicate GoodMixed(x: Mixed) {
    0 <= x.tag < 0x10 && x.tag != 3 && GoodElems(x.elems)
  }

  ghost function MixedBytes(x: Mixed): Bytes
    requires GoodMixed(x)
  {
    [x.tag] + ElemsBytes(x.elems)
  }

  ghost function WithMixed(st: State, x: Mixed): (r: State)
    ensures r.stack == st.stack
  {
    WithElems(NewGroup(st, x.tag), x.elems)
  }

  /** The decoded group shows what was sent. */
  ghost predicate ShowsGroup(objs: seq<Attrs>, g: Group, x: Mixed) {
    g.tag == x.tag && ShowFields(objs, g.attrs, 8) == ElemsMeaning(map[], x.elems)
  }

  lemma MixedIsRead(buf: Bytes, o: nat, st: State, x: Mixed)
    requires GoodMixed(x) && st.stack == [] && Holds(buf, o, MixedBytes(x))
    ensures DecodeFrom(buf, o, st) == DecodeFrom(buf, o + |MixedBytes(x)|, WithMixed(st, x))
  {
    hide GoodElems, ElemsBytes, WithElems;
    HoldsBoth(buf, o, [x.tag], ElemsBytes(x.elems));
    FirstByte(buf, o, [x.tag]);
    ElemsAreRead(buf, o + 1, NewGroup(st, x.tag), x.elems);
  }

  lemma MixedShows(objs: seq<Attrs>, st: State, x: Mixed)
    requires GoodMixed(x) && WithMixed(st, x).objs <= objs
    ensures var r := WithMixed(st, x);
            && st.objs <= r.objs && |r.groups| == |st.groups| + 1 && r.groups[..|st.groups|] == st.groups
            && ShowsGroup(objs, r.groups[|st.groups|], x)
  {
    hide GoodElems, ShowFields, WithElems;
    var g := NewGroup(st, x.tag);
    ElemsGrow(g, x.elems);
    ElemsShow(objs, g, x.elems);
    ShowEmpty(objs, 8);
    assert g.groups[..|st.groups|] == st.groups;
  }

  // ---- A whole message ----

  ghost predicate AllGood(xs: seq<Mixed>) {
    forall k :: 0 <= k < |xs| ==> GoodMixed(xs[k])
  }

  ghost function GroupsBytes(xs: seq<Mixed>): Bytes
    requires AllGood(xs)
  {
    if xs == [] then [] else
    assert GoodMixed(xs[0]);
    MixedBytes(xs[0]) + GroupsBytes(xs[1..])
  }

  ghost function WithGroups(st: State, xs: seq<Mixed>): (r: State)
    ensures r.stack == st.stack
    decreases |xs|
  {
    if xs == [] then st else WithGroups(WithMixed(st, xs[0]), xs[1..])
  }

  lemma {:induction false} GroupsAreRead(buf: Bytes, o: nat, st: State, xs: seq<Mixed>)
    requires AllGood(xs) && st.stack == [] && Holds(buf, o, GroupsBytes(xs))
    ensures DecodeFrom(buf, o, st) == DecodeFrom(buf, o + |GroupsBytes(xs)|, WithGroups(st, xs))
    decreases |xs|
  {
    hide DecodeFrom, Holds, GoodMixed, MixedBytes, WithMixed;
    if xs != [] {
      assert GoodMixed(xs[0]);
      HoldsBoth(buf, o, MixedBytes(xs[0]), GroupsBytes(xs[1..]));
      MixedIsRead(buf, o, st, xs[0]);
      GroupsAreRead(buf, o + |MixedBytes(xs[0])|, WithMixed(st, xs[0]), xs[1..]);
    }
  }

  lemma {:induction false} GroupsGrow(st: State, xs: seq<Mixed>)
    ensures st.objs <= WithGroups(st, xs).objs
    decreases |xs|
  {
    hide WithElems;
    if xs != [] {
      ElemsGrow(NewGroup(st, xs[0].tag), xs[0].elems);
      GroupsGrow(WithMixed(st, xs[0]), xs[1..]);
    }
  }

  /** The groups behind the first `n` show what was sent. */
  ghost predicate ShowsAll(objs: seq<Attrs>, groups: seq<Group>, n: nat, xs: seq<Mixed>) {
    |groups| == n + |xs| && forall k :: 0 <= k < |xs| ==> ShowsGroup(objs, groups[n + k], xs[k])
  }

  lemma {:induction false} GroupsShow(objs: seq<Attrs>, st: State, xs: seq<Mixed>)
    requires AllGood(xs) && WithGroups(st, xs).objs <= objs
    ensures var r := WithGroups(st, xs).groups;
            ShowsAll(objs, r, |st.groups|, xs) && r[..|st.groups|] == st.groups
    decreases |xs|
  {
    hide WithMixed, GoodMixed, ShowsGroup;
    if xs != [] {
      var x, next, n := xs[0], WithMixed(st, xs[0]), |st.groups|;
      assert GoodMixed(x);
      GroupsGrow(next, xs[1..]);
      MixedShows(objs, st, x);
      GroupsShow(objs, next, xs[1..]);
      OneInFront(objs, st.groups, next.groups, WithGroups(st, xs).groups, xs);
    }
  }

  lemma OneInFront(objs: seq<Attrs>, before: seq<Group>, next: seq<Group>, all: seq<Group>, xs: seq<Mixed>)
    requires xs != [] && |next| == |before| + 1 && next[..|before|] == before && ShowsGroup(objs, next[|before|], xs[0])
    requires ShowsAll(objs, all, |next|, xs[1..]) && all[..|next|] == next
    ensures ShowsAll(objs, all, |before|, xs) && all[..|before|] == before
  {
    hide ShowsGroup;
    var n := |before|;
    assert all[n] == all[..n + 1][n];
    assert all[..n] == all[..n + 1][..n];
    forall k | 0 <= k < |xs|
      ensures ShowsGroup(objs, all[n + k], xs[k])
    {
      if k > 0 {
        assert ShowsGroup(objs, all[n + 1 + (k - 1)], xs[1..][k - 1]);
      }
    }
  }

  /** A message with plain and collection attributes, in any number of groups and with any number of
      values, is decoded to its code, id and document, and each group shows exactly the attributes,
      members and values that were sent, in order. */
  lemma MessageWithCollections(code: int, requestId: int, xs: seq<Mixed>, document: Bytes)
    requires 0 <= code < U16_LIMIT && AllGood(xs)
    ensures var head := [2, 0] + U16(code) + U32(requestId % U32_LIMIT);
            var r := DecodeResponse(head + GroupsBytes(xs) + [3] + document);
            && r.Some? && r.value.status == code && r.value.requestId == requestId % U32_LIMIT
               && r.value.data == Some(document)
            && ShowsAll(r.value.objs, r.value.groups, 0, xs)
  {
    hide DecodeFrom, AllGood, GroupsBytes, U16, U32, GetU16, GetU32, ShowsAll, WithGroups;
    var id, body := requestId % U32_LIMIT, GroupsBytes(xs);
    var b := [2, 0] + U16(code) + U32(id) + body + [3] + document;
    HeadIsRead(b, code, id, body, document);
    GroupsAreRead(b, 8, START, xs);
    var end := WithGroups(START, xs);
    AtEnd(b, 8 + |body|, end);
    GroupsShow(end.objs, START, xs);
  }

  lemma HeadIsRead(b: Bytes, code: int, id: int, body: Bytes, document: Bytes)
    requires 0 <= code < U16_LIMIT && 0 <= id < U32_LIMIT
    requires b == [2, 0] + U16(code) + U32(id) + body + [3] + document
    ensures |b| >= 9 && GetU16(b, 2) == code && GetU32(b, 4) == id && Holds(b, 8, body)
    ensures 8 + |body| < |b| && b[8 + |body|] as int == 3 && b[8 + |body| + 1..] == document
  {
    hide U16, U32, GetU16, GetU32;
    assert b[2..4] == U16(code) && b[4..8] == U32(id);
    ReadBackU16(b, 2, code);
    ReadBackU32(b, 4, id);
    assert b[8..8 + |body|] == body;
  }
}
