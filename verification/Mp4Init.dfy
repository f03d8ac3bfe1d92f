/** withMehd of src/cameras/fmp4.js: a movie extends header box (mehd, section
    8.8.2 of ISO/IEC 14496-12) put into moov/mvex of an init segment. */
module Mp4Init {
  import opened Bytes
  import opened Mp4Boxes
  import opened Sequences

  const MOOV: Bytes := [0x6d, 0x6f, 0x6f, 0x76]
  const MVEX: Bytes := [0x6d, 0x76, 0x65, 0x78]
  const MEHD: Bytes := [0x6d, 0x65, 0x68, 0x64]

  lemma KindNames()
    ensures MOOV == Codes("moov") && MVEX == Codes("mvex") && MEHD == Codes("mehd")
  {
  }

  // ---- Choosing and changing boxes of a list ----

  /** The first box of a kind, or |ps|. */
  function First(ps: seq<Bytes>, kind: Bytes): (k: nat)
    requires AllBoxes(ps)
    ensures k <= |ps| && (k < |ps| ==> Kind(ps[k]) == kind)
    ensures forall j :: 0 <= j < k ==> Kind(ps[j]) != kind
  {
    if |ps| == 0 then 0 else
    assert IsBox(ps[0]);
    if Kind(ps[0]) == kind then 0 else 1 + First(ps[1..], kind)
  }

  lemma FirstIs(ps: seq<Bytes>, kind: Bytes, k: nat)
    requires AllBoxes(ps) && k < |ps| && Kind(ps[k]) == kind
    requires forall j :: 0 <= j < k ==> Kind(ps[j]) != kind
    ensures First(ps, kind) == k
  {
  }

  function Without(ps: seq<Bytes>, kind: Bytes): (r: seq<Bytes>)
    requires AllBoxes(ps)
    ensures AllBoxes(r) && |r| <= |ps|
    ensures forall k :: 0 <= k < |r| ==> Kind(r[k]) != kind
  {
    if |ps| == 0 then [] else
    assert IsBox(ps[0]);
    (if Kind(ps[0]) == kind then [] else [ps[0]]) + Without(ps[1..], kind)
  }

  predicate OtherKind(p: Bytes, kind: Bytes) {
    |p| >= 8 && p[4..8] != kind
  }

  function NotOf(kind: Bytes): Bytes -> bool {
    p => OtherKind(p, kind)
  }

  /** Exactly the boxes of other kinds stay, in order. */
  lemma {:induction false} WithoutIs(ps: seq<Bytes>, kind: Bytes)
    requires AllBoxes(ps)
    ensures Without(ps, kind) == Filter(ps, NotOf(kind))
  {
    hide HeaderAt;
    if |ps| > 0 {
      assert IsBox(ps[0]);
      WithoutIs(ps[1..], kind);
      assert ps == [ps[0]] + ps[1..];
      FilterAppend([ps[0]], ps[1..], NotOf(kind));
    }
  }

  lemma {:induction false} WithoutChain(ps: seq<Bytes>, kind: Bytes)
    requires Chain(ps)
    ensures Chain(Without(ps, kind))
  {
    hide HeaderAt;
    if |ps| > 0 {
      WithoutChain(ps[1..], kind);
      if Kind(ps[0]) != kind {
        var r, q := Without(ps, kind), Without(ps[1..], kind);
        assert r == [ps[0]] + q;
        assert |ps| == 1 ==> q == [];
        forall k | 0 <= k < |r| - 1
          ensures !OpenEnded(r[k])
        {
          if k > 0 {
            assert r[k] == q[k - 1];
          }
        }
      }
    }
  }

  lemma {:induction false} WithoutNone(ps: seq<Bytes>, kind: Bytes)
    requires AllBoxes(ps) && forall k :: 0 <= k < |ps| ==> Kind(ps[k]) != kind
    ensures Without(ps, kind) == ps
  {
    if |ps| > 0 {
      WithoutNone(ps[1..], kind);
      assert ps == [ps[0]] + ps[1..];
    }
  }

  // ---- A box with a plain 8-byte header ----

  function Plain(kind: Bytes, body: Bytes): (r: Bytes)
    requires |kind| == 4 && 8 + |body| < U32_LIMIT
    ensures |r| == 8 + |body|
  {
    U32(8 + |body|) + kind + body
  }

  lemma PlainBox(kind: Bytes, body: Bytes)
    requires |kind| == 4 && 8 + |body| < U32_LIMIT
    ensures var p := Plain(kind, body);
            IsBox(p) && !OpenEnded(p) && Kind(p) == kind && Head(p) == 8 && Body(p) == body
  {
    var p := Plain(kind, body);
    assert p[0..4] == U32(8 + |body|);
    ReadBackU32(p, 0, 8 + |body|);
    assert p[4..8] == kind;
  }

  /** The 20-byte mehd box of version 1: a 64-bit duration at offset 12. */
  function Mehd(ticks: int): (r: Bytes)
    requires 0 <= ticks < U64_LIMIT
    ensures |r| == 20
  {
    Plain(MEHD, [1, 0, 0, 0] + U64(ticks))
  }

  // ---- The view three levels deep and its rewriting ----

  datatype View = View(top: seq<Bytes>, m: nat, inner: seq<Bytes>, k: nat, kids: seq<Bytes>)

  /** The init segment down to the children of moov/mvex; None where the
      program throws because a box is malformed, missing or not plain. */
  function Opened(init: Bytes): (r: Option<View>)
  {
    var top :- Parts(init);
    var m := First(top, MOOV);
    if m == |top| || Head(top[m]) != 8 then None else
    var inner :- Parts(Body(top[m]));
    var k := First(inner, MVEX);
    if k == |inner| || Head(inner[k]) != 8 then None else
    var kids :- Parts(Body(inner[k]));
    Some(View(top, m, inner, k, kids))
  }

  predicate ValidView(v: View) {
    && Chain(v.top) && v.m < |v.top| && Chain(v.inner) && v.k < |v.inner| && Chain(v.kids)
    && Kind(v.top[v.m]) == MOOV && (forall j :: 0 <= j < v.m ==> Kind(v.top[j]) != MOOV)
    && Kind(v.inner[v.k]) == MVEX && (forall j :: 0 <= j < v.k ==> Kind(v.inner[j]) != MVEX)
  }

  lemma OpenedValid(init: Bytes)
    requires Opened(init).Some?
    ensures ValidView(Opened(init).value)
  {
    var v := Opened(init).value;
    PartsAreLaid(init);
    PartsAreLaid(Body(v.top[v.m]));
    PartsAreLaid(Body(v.inner[v.k]));
  }

  function MvexBody(kids: seq<Bytes>, ticks: int): Bytes
    requires AllBoxes(kids) && 0 <= ticks < U64_LIMIT
  {
    Concat([Mehd(ticks)] + Without(kids, MEHD))
  }

  function MoovBody(inner: seq<Bytes>, k: nat, mvex: Bytes): Bytes
    requires k < |inner|
  {
    Concat(inner[k := mvex])
  }

  /** The new sizes still fit the 32-bit size fields. */
  predicate Fits(v: View)
    requires ValidView(v)
  {
    && 8 + |MvexBody(v.kids, 0)| < U32_LIMIT
    && 8 + |MoovBody(v.inner, v.k, Plain(MVEX, MvexBody(v.kids, 0)))| < U32_LIMIT
  }

  /** Exactly one change: mvex starts with one mehd, and no other child of it is one. */
  function Rewritten(v: View, ticks: int): (r: View)
    requires ValidView(v) && Fits(v) && 0 <= ticks < U64_LIMIT
  {
    FitsForAny(v, ticks);
    var mvex := Plain(MVEX, MvexBody(v.kids, ticks));
    var moov := Plain(MOOV, MoovBody(v.inner, v.k, mvex));
    View(v.top[v.m := moov], v.m, v.inner[v.k := mvex], v.k, [Mehd(ticks)] + Without(v.kids, MEHD))
  }

  function DurationOffset(v: View): nat
    requires v.m <= |v.top| && v.k <= |v.inner|
  {
    Before(v.top, v.m) + 8 + Before(v.inner, v.k) + 8 + 12
  }

  datatype Clip = Clip(buf: Bytes, durationOffset: nat)

  /** What withMehd returns; None where it throws. */
  function WithMehdOf(init: Bytes, ticks: int): (r: Option<Clip>)
  {
    var v :- Opened(init);
    OpenedValid(init);
    if !(0 <= ticks < U64_LIMIT) || !Fits(v) then None else
    Some(Clip(Concat(Rewritten(v, ticks).top), DurationOffset(v)))
  }

  lemma ConcatUpdateLength(ps: seq<Bytes>, k: nat, x: Bytes)
    requires k < |ps|
    ensures |Concat(ps[k := x])| == |Concat(ps)| - |ps[k]| + |x|
  {
    assert ps == ps[..k] + ([ps[k]] + ps[k + 1..]);
    assert ps[k := x] == ps[..k] + ([x] + ps[k + 1..]);
    ConcatAppend(ps[..k], [ps[k]] + ps[k + 1..]);
    ConcatAppend(ps[..k], [x] + ps[k + 1..]);
    ConcatCons(ps[k], ps[k + 1..]);
    ConcatCons(x, ps[k + 1..]);
  }

  /** What a rewritten view is made of, without the way it is computed. */
  lemma RewrittenShape(v: View, ticks: int)
    requires ValidView(v) && Fits(v) && 0 <= ticks < U64_LIMIT
    ensures var w := Rewritten(v, ticks);
            && w.m == v.m && w.k == v.k && |w.top| == |v.top| && |w.inner| == |v.inner|
            && w.top == v.top[v.m := w.top[v.m]] && w.inner == v.inner[v.k := w.inner[v.k]]
            && w.kids == [Mehd(ticks)] + Without(v.kids, MEHD)
            && 8 + |Concat(w.kids)| < U32_LIMIT && w.inner[v.k] == Plain(MVEX, Concat(w.kids))
            && 8 + |Concat(w.inner)| < U32_LIMIT && w.top[v.m] == Plain(MOOV, Concat(w.inner))
    ensures DurationOffset(Rewritten(v, ticks)) == DurationOffset(v)
  {
    FitsForAny(v, ticks);
    var w := Rewritten(v, ticks);
    hide Plain, Mehd, HeaderAt, Concat, Without;
    assert w.top[..w.m] == v.top[..v.m];
    assert w.inner[..w.k] == v.inner[..v.k];
  }

  lemma UpdateTwice(s: seq<Bytes>, k: nat, a: Bytes, b: Bytes)
    requires k < |s|
    ensures s[k := a][k := b] == s[k := b]
  {
  }

  // ---- Re-reading the result ----

  lemma ChainUpdate(ps: seq<Bytes>, k: nat, x: Bytes)
    requires Chain(ps) && k < |ps| && IsBox(x) && !OpenEnded(x)
    ensures Chain(ps[k := x])
  {
    hide HeaderAt;
    var qs := ps[k := x];
    forall j | 0 <= j < |qs|
      ensures IsBox(qs[j]) && (j < |qs| - 1 ==> !OpenEnded(qs[j]))
    {
      assert j != k ==> qs[j] == ps[j];
    }
  }

  lemma PartsOfConcat(ps: seq<Bytes>)
    requires Chain(ps)
    ensures Parts(Concat(ps)) == Some(ps)
  {
    hide HeaderAt;
    assert Concat(ps) + [] == Concat(ps);
    PartsOfLaid(Concat(ps), ps, []);
  }

  lemma RewrittenValid(v: View, ticks: int)
    requires ValidView(v) && Fits(v) && 0 <= ticks < U64_LIMIT
    ensures ValidView(Rewritten(v, ticks))
    ensures var w := Rewritten(v, ticks);
            && Head(w.inner[w.k]) == 8 && Body(w.inner[w.k]) == Concat(w.kids)
            && Head(w.top[w.m]) == 8 && Body(w.top[w.m]) == Concat(w.inner)
  {
    FitsForAny(v, ticks);
    var w := Rewritten(v, ticks);
    PlainBox(MEHD, [1, 0, 0, 0] + U64(ticks));
    PlainBox(MVEX, MvexBody(v.kids, ticks));
    PlainBox(MOOV, MoovBody(v.inner, v.k, w.inner[w.k]));
    hide HeaderAt, Plain, Mehd;
    ChainUpdate(v.inner, v.k, w.inner[w.k]);
    ChainUpdate(v.top, v.m, w.top[w.m]);
    WithoutChain(v.kids, MEHD);
    MehdChain(Mehd(ticks), Without(v.kids, MEHD));
  }

  lemma MehdChain(p: Bytes, ps: seq<Bytes>)
    requires IsBox(p) && !OpenEnded(p) && Chain(ps)
    ensures Chain([p] + ps)
  {
    hide HeaderAt;
    var qs := [p] + ps;
    forall j | 0 <= j < |qs|
      ensures IsBox(qs[j]) && (j < |qs| - 1 ==> !OpenEnded(qs[j]))
    {
      assert j > 0 ==> qs[j] == ps[j - 1];
    }
  }

  /** The main result: reading the rewritten segment gives the old boxes at all
      three levels, in order, with exactly the intended change. */
  lemma MehdIsTheOnlyChange(v: View, ticks: int)
    requires ValidView(v) && Fits(v) && 0 <= ticks < U64_LIMIT
    ensures Opened(Concat(Rewritten(v, ticks).top)) == Some(Rewritten(v, ticks))
  {
    hide HeaderAt, Rewritten, Fits;
    var w := Rewritten(v, ticks);
    RewrittenValid(v, ticks);
    PartsOfConcat(w.top);
    PartsOfConcat(w.inner);
    PartsOfConcat(w.kids);
    FirstIs(w.top, MOOV, w.m);
    FirstIs(w.inner, MVEX, w.k);
  }

  /** Rewriting a rewritten segment gives the segment rewritten once: an old mehd never stays. */
  lemma RewriteTwice(init: Bytes, t: int, u: int)
    requires WithMehdOf(init, t).Some? && 0 <= u < U64_LIMIT
    ensures WithMehdOf(WithMehdOf(init, t).value.buf, u) == WithMehdOf(init, u)
  {
    OpenedValid(init);
    var v := Opened(init).value;
    var w := Rewritten(v, t);
    MehdIsTheOnlyChange(v, t);
    RewrittenValid(v, t);
    RewriteTwiceView(v, t, u);
  }

  lemma RewriteTwiceView(v: View, t: int, u: int)
    requires ValidView(v) && Fits(v) && 0 <= t < U64_LIMIT && 0 <= u < U64_LIMIT
    requires ValidView(Rewritten(v, t))
    ensures Fits(Rewritten(v, t)) && Rewritten(Rewritten(v, t), u) == Rewritten(v, u)
    ensures DurationOffset(Rewritten(v, t)) == DurationOffset(v)
  {
    var w := Rewritten(v, t);
    OneMehdAgain(v.kids, t);
    assert w.top[..w.m] == v.top[..v.m];
    assert w.inner[..w.k] == v.inner[..v.k];
    FitsForAny(v, u);
    hide Plain, Mehd, HeaderAt, Without, Concat;
    var x, z := Plain(MVEX, MvexBody(v.kids, u)), Plain(MVEX, MvexBody(v.kids, 0));
    assert w.inner[w.k := x] == v.inner[v.k := x];
    assert w.inner[w.k := z] == v.inner[v.k := z];
    var y := Rewritten(v, u).top[v.m];
    assert w.top[w.m := y] == v.top[v.m := y];
  }

  lemma OneMehdAgain(kids: seq<Bytes>, t: int)
    requires AllBoxes(kids) && 0 <= t < U64_LIMIT && AllBoxes([Mehd(t)] + Without(kids, MEHD))
    ensures Without([Mehd(t)] + Without(kids, MEHD), MEHD) == Without(kids, MEHD)
  {
    PlainBox(MEHD, [1, 0, 0, 0] + U64(t));
    var rest := Without(kids, MEHD);
    WithoutNone(rest, MEHD);
    assert ([Mehd(t)] + rest)[1..] == rest;
  }

  // ---- Where the duration lies ----

  /** The bytes of box `k` lie behind those of the boxes before it. */
  lemma ConcatSlice(ps: seq<Bytes>, k: nat)
    requires k < |ps|
    ensures Before(ps, k) + |ps[k]| <= |Concat(ps)|
    ensures Concat(ps)[Before(ps, k)..Before(ps, k) + |ps[k]|] == ps[k]
    ensures Concat(ps) == Concat(ps[..k]) + ps[k] + Concat(ps[k + 1..])
  {
    hide Concat;
    var rest := [ps[k]] + ps[k + 1..];
    assert ps == ps[..k] + rest;
    ConcatAppend(ps[..k], rest);
    ConcatCons(ps[k], ps[k + 1..]);
    var a, z := Concat(ps[..k]), Concat(ps[k + 1..]);
    assert a + (ps[k] + z) == a + ps[k] + z;
    assert (a + ps[k] + z)[|a|..|a| + |ps[k]|] == ps[k];
  }

  lemma {:induction false} PlacedAt(ps: seq<Bytes>, at: nat, k: nat)
    requires AllBoxes(ps) && k < |ps|
    ensures |Placed(ps, at)| == |ps|
    ensures Placed(ps, at)[k] ==
            Box(Kind(ps[k]), at + Before(ps, k), |ps[k]|, at + Before(ps, k) + Head(ps[k]))
    decreases k
  {
    hide HeaderAt;
    PlacedLength(ps, at);
    if k > 0 {
      var p, rest := ps[0], ps[1..];
      PlacedAt(rest, at + |p|, k - 1);
      assert ps[..k] == [p] + rest[..k - 1];
      ConcatCons(p, rest[..k - 1]);
      assert rest[k - 1] == ps[k];
    }
  }

  lemma PlacedLength(ps: seq<Bytes>, at: nat)
    requires AllBoxes(ps)
    ensures |Placed(ps, at)| == |ps|
  {
  }

  /** Box `k` of a stretch as the program finds it. */
  function BoxAt(buf: Bytes, i: nat, end: nat, k: nat): (r: Option<Box>)
  {
    if i <= end <= |buf| && Walk(buf, i, end).Some? && k < |Walk(buf, i, end).value|
    then Some(Walk(buf, i, end).value[k]) else None
  }

  lemma SliceOfPrefix(s: Bytes, i: nat, end: nat, c: Bytes, n: nat, m: nat)
    requires i <= end <= |s| && c <= s[i..end] && n <= m <= |c|
    ensures s[i + n..i + m] == c[n..m]
  {
    SliceOfSlice(s, i, end, n, m);
    assert s[i..end][..|c|] == c;
    assert s[i..end][n..m] == c[n..m];
  }

  /** The box `k` of a stretch, in the offsets of the program: where it lies and what its own bytes are. */
  lemma BoxAtPart(buf: Bytes, i: nat, end: nat, ps: seq<Bytes>, k: nat)
    requires i <= end <= |buf| && Parts(buf[i..end]) == Some(ps) && k < |ps|
    requires Concat(ps) <= buf[i..end]
    ensures var b := Box(Kind(ps[k]), i + Before(ps, k), |ps[k]|, i + Before(ps, k) + Head(ps[k]));
            && BoxAt(buf, i, end, k) == Some(b)
            && b.End() <= end && buf[b.start..b.End()] == ps[k] && buf[b.body..b.End()] == Body(ps[k])
  {
    hide HeaderAt, Parts, Walk, Placed;
    WalkIsPlacedParts(buf, i, end);
    PlacedAt(ps, i, k);
    var n, p := Before(ps, k), ps[k];
    ConcatSlice(ps, k);
    hide Concat;
    SliceOfPrefix(buf, i, end, Concat(ps), n, n + |p|);
    SliceOfSlice(buf, i + n, i + n + |p|, Head(p), |p|);
    assert p[Head(p)..|p|] == Body(p);
  }

  /** The duration in the body of a mehd, as section 8.8.2 of ISO/IEC 14496-12
      lays it out: a version, three bytes of flags and then 64 bits in version
      1 and 32 bits in any other; None for a body of another length. */
  function DurationRead(body: Bytes): (r: Option<int>)
  {
    if |body| == 12 && body[0] == 1 then Some(GetU64(body, 4))
    else if |body| == 8 && body[0] != 1 then Some(GetU32(body, 4))
    else None
  }

  predicate OnlyFirstIsMehd(buf: Bytes, mvex: Box) {
    && mvex.body <= mvex.End() <= |buf| && Walk(buf, mvex.body, mvex.End()).Some?
    && forall j :: 1 <= j < |Walk(buf, mvex.body, mvex.End()).value| ==>
                     Walk(buf, mvex.body, mvex.End()).value[j].kind != Codes("mehd")
  }

  predicate HoldsDuration(buf: Bytes, mehd: Box, ticks: int) {
    && mehd.body + 4 <= mehd.End() <= |buf|
    && buf[mehd.body + 1..mehd.body + 4] == [0, 0, 0]
    && DurationRead(buf[mehd.body..mehd.End()]) == Some(ticks)
  }

  /** In the offsets of the program: the first child of mvex (child `k` of moov,
      box `m` of the file) is a mehd without flags that a reader takes for the
      duration `ticks`, with the number at `off`. */
  predicate MehdAt(buf: Bytes, m: nat, k: nat, off: nat, ticks: int) {
    match BoxAt(buf, 0, |buf|, m)
    case None => false
    case Some(moov) =>
      moov.kind == Codes("moov") &&
      match BoxAt(buf, moov.body, moov.End(), k)
      case None => false
      case Some(mvex) =>
        mvex.kind == Codes("mvex") && OnlyFirstIsMehd(buf, mvex) &&
        match BoxAt(buf, mvex.body, mvex.End(), 0)
        case None => false
        case Some(mehd) => mehd.kind == Codes("mehd") && mehd.start + 12 == off && HoldsDuration(buf, mehd, ticks)
  }

  /** The offset that withMehd reports is the duration field of the one mehd, which any reader takes for `ticks`. */
  lemma DurationField(init: Bytes, ticks: int)
    requires WithMehdOf(init, ticks).Some?
    ensures var Clip(out, off) := WithMehdOf(init, ticks).value;
            && MehdAt(out, Opened(init).value.m, Opened(init).value.k, off, ticks)
            && off + 8 <= |out| && out[off..off + 8] == U64(ticks)
  {
    hide HeaderAt, Parts, MehdAt, Concat, Fits, U64, First, Rewritten, DurationOffset;
    OpenedValid(init);
    DurationFieldView(Opened(init).value, ticks);
  }

  lemma DurationFieldView(v: View, ticks: int)
    requires ValidView(v) && Fits(v) && 0 <= ticks < U64_LIMIT
    ensures var out, off := Concat(Rewritten(v, ticks).top), DurationOffset(v);
            MehdAt(out, v.m, v.k, off, ticks) && off + 8 <= |out| && out[off..off + 8] == U64(ticks)
  {
    hide HeaderAt, Rewritten, Mehd, Plain, MehdAt, Concat, Without, Fits;
    var w := Rewritten(v, ticks);
    RewrittenValid(v, ticks);
    RewrittenShape(v, ticks);
    MehdBox(ticks);
    DurationFieldOf(w, ticks);
    SliceOfSlice(Concat(w.top), DurationOffset(w) - 12, DurationOffset(w) + 8, 12, 20);
  }

  lemma MehdBox(ticks: int)
    requires 0 <= ticks < U64_LIMIT
    ensures IsBox(Mehd(ticks)) && Kind(Mehd(ticks)) == MEHD && Mehd(ticks)[12..20] == U64(ticks)
    ensures Head(Mehd(ticks)) == 8 && DurationRead(Body(Mehd(ticks))) == Some(ticks)
    ensures Body(Mehd(ticks))[1..4] == [0, 0, 0]
  {
    PlainBox(MEHD, [1, 0, 0, 0] + U64(ticks));
    hide U64, GetU64;
    var body: Bytes := [1, 0, 0, 0] + U64(ticks);
    assert body[4..12] == U64(ticks);
    ReadBackU64(body, 4, ticks);
  }

  lemma DurationFieldOf(w: View, ticks: int)
    requires ValidView(w) && 0 <= ticks < U64_LIMIT
    requires Head(w.inner[w.k]) == 8 && Body(w.inner[w.k]) == Concat(w.kids)
    requires Head(w.top[w.m]) == 8 && Body(w.top[w.m]) == Concat(w.inner)
    requires |w.kids| > 0 && w.kids[0] == Mehd(ticks) && Kind(w.kids[0]) == MEHD
    requires forall j :: 1 <= j < |w.kids| ==> Kind(w.kids[j]) != MEHD
    ensures MehdAt(Concat(w.top), w.m, w.k, DurationOffset(w), ticks)
    ensures 12 <= DurationOffset(w) && DurationOffset(w) + 8 <= |Concat(w.top)|
    ensures Concat(w.top)[DurationOffset(w) - 12..DurationOffset(w) + 8] == Mehd(ticks)
  {
    hide HeaderAt, IsBox, OpenEnded, Mehd, Walk, Parts, BoxAt, Concat, OnlyFirstIsMehd, DurationRead, Codes;
    KindNames();
    MehdBox(ticks);
    assert Before(w.kids, 0) == 0 by { ConcatNone(w.kids); }
    var out := Concat(w.top);
    assert out[0..|out|] == out;
    PartsOfConcat(w.top);
    BoxAtPart(out, 0, |out|, w.top, w.m);
    var moov := BoxAt(out, 0, |out|, w.m).value;
    PartsOfConcat(w.inner);
    BoxAtPart(out, moov.body, moov.End(), w.inner, w.k);
    var mvex := BoxAt(out, moov.body, moov.End(), w.k).value;
    PartsOfConcat(w.kids);
    BoxAtPart(out, mvex.body, mvex.End(), w.kids, 0);
    OnlyFirst(out, mvex, w.kids);
    var mehd := BoxAt(out, mvex.body, mvex.End(), 0).value;
    assert mehd.size == |Mehd(ticks)| == 20 && mehd.body == mehd.start + 8;
    SliceOfSlice(out, mehd.body, mehd.End(), 1, 4);
  }

  lemma ConcatNone(ps: seq<Bytes>)
    ensures Before(ps, 0) == 0
  {
    assert ps[..0] == [];
  }

  lemma OnlyFirst(out: Bytes, mvex: Box, kids: seq<Bytes>)
    requires mvex.body <= mvex.End() <= |out| && AllBoxes(kids)
    requires Parts(out[mvex.body..mvex.End()]) == Some(kids) && Concat(kids) <= out[mvex.body..mvex.End()]
    requires forall j :: 1 <= j < |kids| ==> Kind(kids[j]) != MEHD
    ensures OnlyFirstIsMehd(out, mvex)
  {
    KindNames();
    hide HeaderAt, Parts, Walk, Codes;
    WalkIsPlacedParts(out, mvex.body, mvex.End());
    PlacedLength(kids, mvex.body);
    forall j | 1 <= j < |kids|
      ensures Walk(out, mvex.body, mvex.End()).value[j].kind != MEHD
    {
      PlacedAt(kids, mvex.body, j);
    }
  }

  // ---- The later overwrite of the duration ----

  /** Overwriting bytes inside one box of a list changes that box only. */
  lemma SpliceInPart(ps: seq<Bytes>, k: nat, o: nat, w: Bytes)
    requires k < |ps| && o + |w| <= |ps[k]|
    ensures Before(ps, k) + o + |w| <= |Concat(ps)|
    ensures Splice(Concat(ps), Before(ps, k) + o, w) == Concat(ps[k := Splice(ps[k], o, w)])
  {
    var a, p, z := Concat(ps[..k]), ps[k], Concat(ps[k + 1..]);
    var qs := ps[k := Splice(p, o, w)];
    ConcatSlice(ps, k);
    ConcatSlice(qs, k);
    assert qs[..k] == ps[..k] && qs[k + 1..] == ps[k + 1..];
    hide Concat, Splice;
    calc {
      Splice(Concat(ps), Before(ps, k) + o, w);
      Splice(a + p + z, |a| + o, w);
      { SpliceInside(a, p, z, o, w); }
      a + Splice(p, o, w) + z;
      Concat(qs);
    }
  }

  lemma SpliceInPlain(kind: Bytes, body: Bytes, o: nat, w: Bytes)
    requires |kind| == 4 && 8 + |body| < U32_LIMIT && o + |w| <= |body|
    ensures Splice(Plain(kind, body), 8 + o, w) == Plain(kind, Splice(body, o, w))
  {
    var h := U32(8 + |body|) + kind;
    assert Plain(kind, body) == h + body + [];
    SpliceInside(h, body, [], o, w);
    assert h + Splice(body, o, w) + [] == Plain(kind, Splice(body, o, w));
  }

  lemma OverwriteInMvex(kids: seq<Bytes>, t: int, d: int)
    requires AllBoxes(kids) && 0 <= t < U64_LIMIT && 0 <= d < U64_LIMIT
    ensures 20 <= |MvexBody(kids, t)|
    ensures Splice(MvexBody(kids, t), 12, U64(d)) == MvexBody(kids, d)
  {
    var x, rest := U64(d), Without(kids, MEHD);
    assert [1, 0, 0, 0] + U64(t) == [1, 0, 0, 0] + U64(t) + [];
    SpliceInside([1, 0, 0, 0], U64(t), [], 0, x);
    assert Splice(U64(t), 0, x) == x;
    SpliceInPlain(MEHD, [1, 0, 0, 0] + U64(t), 4, x);
    assert Splice(Mehd(t), 12, x) == Mehd(d);
    var ps := [Mehd(t)] + rest;
    hide Mehd, Splice, Without, HeaderAt;
    SpliceInPart(ps, 0, 12, x);
    assert ps[..0] == [];
    assert ps[0 := Mehd(d)] == [Mehd(d)] + rest;
  }

  lemma OverwriteInMoov(v: View, t: int, d: int)
    requires ValidView(v) && Fits(v) && 0 <= t < U64_LIMIT && 0 <= d < U64_LIMIT
    ensures Before(v.inner, v.k) + 28 <= |Concat(Rewritten(v, t).inner)|
    ensures Splice(Concat(Rewritten(v, t).inner), Before(v.inner, v.k) + 20, U64(d)) == Concat(Rewritten(v, d).inner)
  {
    hide HeaderAt, Splice, Concat, Plain, Rewritten, Mehd, Without, Fits;
    var w, y, x := Rewritten(v, t), Rewritten(v, d), U64(d);
    RewrittenShape(v, t);
    RewrittenShape(v, d);
    OverwriteInMvex(v.kids, t, d);
    SpliceInPlain(MVEX, Concat(w.kids), 12, x);
    SpliceInPart(w.inner, w.k, 20, x);
    UpdateTwice(v.inner, v.k, w.inner[v.k], y.inner[v.k]);
  }

  /** Writing the final duration at `durationOffset` gives what withMehd would
      have made for that duration in the first place: nothing else changes. */
  lemma OverwriteDuration(init: Bytes, ticks: int, d: int)
    requires WithMehdOf(init, ticks).Some? && 0 <= d < U64_LIMIT
    ensures var Clip(out, off) := WithMehdOf(init, ticks).value;
            && off + 8 <= |out|
            && WithMehdOf(init, d) == Some(Clip(Splice(out, off, U64(d)), off))
  {
    OpenedValid(init);
    hide Opened, HeaderAt, Parts;
    var v := Opened(init).value;
    OverwriteInTop(v, ticks, d);
  }

  lemma OverwriteInTop(v: View, t: int, d: int)
    requires ValidView(v) && Fits(v) && 0 <= t < U64_LIMIT && 0 <= d < U64_LIMIT
    ensures DurationOffset(v) + 8 <= |Concat(Rewritten(v, t).top)|
    ensures Splice(Concat(Rewritten(v, t).top), DurationOffset(v), U64(d)) == Concat(Rewritten(v, d).top)
  {
    hide HeaderAt, Splice, Concat, Plain, Rewritten, Mehd, Without, Fits;
    var w, y, x := Rewritten(v, t), Rewritten(v, d), U64(d);
    RewrittenShape(v, t);
    RewrittenShape(v, d);
    OverwriteInMoov(v, t, d);
    var n := Before(v.inner, v.k) + 20;
    SpliceInPlain(MOOV, Concat(w.inner), n, x);
    SpliceInPart(w.top, w.m, 8 + n, x);
    UpdateTwice(v.top, v.m, w.top[v.m], y.top[v.m]);
  }

  // ---- The program itself, on offsets ----

  /** The offset walk `bs` of buf[i, end) and the box list `ps` describe the same boxes. */
  predicate Agree(buf: Bytes, i: nat, end: nat, bs: seq<Box>, ps: seq<Bytes>) {
    && i <= end <= |buf| && AllBoxes(ps) && |bs| == |ps|
    && forall k :: 0 <= k < |bs| ==> AgreeAt(buf, i, end, bs[k], ps, k)
  }

  predicate AgreeAt(buf: Bytes, i: nat, end: nat, b: Box, ps: seq<Bytes>, k: nat)
    requires AllBoxes(ps) && k < |ps| && i <= end <= |buf|
  {
    && b == Box(Kind(ps[k]), i + Before(ps, k), |ps[k]|, i + Before(ps, k) + Head(ps[k]))
    && b.End() <= end && buf[b.start..b.End()] == ps[k] && buf[b.body..b.End()] == Body(ps[k])
  }

  lemma WalkAgrees(buf: Bytes, i: nat, end: nat)
    requires i <= end <= |buf| && Walk(buf, i, end).Some?
    ensures Parts(buf[i..end]).Some?
    ensures Agree(buf, i, end, Walk(buf, i, end).value, Parts(buf[i..end]).value)
  {
    hide HeaderAt, Walk, Parts;
    WalkIsPlacedParts(buf, i, end);
    var bs, ps := Walk(buf, i, end).value, Parts(buf[i..end]).value;
    PartsAreLaid(buf[i..end]);
    PlacedLength(ps, i);
    forall k | 0 <= k < |bs|
      ensures AgreeAt(buf, i, end, bs[k], ps, k)
    {
      BoxAtPart(buf, i, end, ps, k);
    }
  }

  method FindBox(bs: seq<Box>, kind: Bytes) returns (k: nat)
    ensures k <= |bs| && (k < |bs| ==> bs[k].kind == kind)
    ensures forall j :: 0 <= j < k ==> bs[j].kind != kind
  {
    k := 0;
    while k < |bs| && bs[k].kind != kind
      invariant k <= |bs| && forall j :: 0 <= j < k ==> bs[j].kind != kind
    {
      k := k + 1;
    }
  }

  lemma FirstAgrees(buf: Bytes, i: nat, end: nat, bs: seq<Box>, ps: seq<Bytes>, kind: Bytes, k: nat)
    requires Agree(buf, i, end, bs, ps) && k <= |bs| && (k < |bs| ==> bs[k].kind == kind)
    requires forall j :: 0 <= j < k ==> bs[j].kind != kind
    ensures First(ps, kind) == k
  {
    hide HeaderAt;
    forall j | 0 <= j < |ps|
      ensures Kind(ps[j]) == bs[j].kind
    {
      assert AgreeAt(buf, i, end, bs[j], ps, j);
    }
  }

  datatype Located = Located(top: seq<Box>, m: nat, inner: seq<Box>, k: nat, kids: seq<Box>)

  predicate Locates(init: Bytes, o: Located, v: View) {
    && o.m == v.m < |o.top| && o.k == v.k < |o.inner|
    && Agree(init, 0, |init|, o.top, v.top)
    && Agree(init, o.top[o.m].body, o.top[o.m].End(), o.inner, v.inner)
    && Agree(init, o.inner[o.k].body, o.inner[o.k].End(), o.kids, v.kids)
  }

  /** The three walks of withMehd: where the boxes lie and which of them are moov and mvex. */
  method OpenInit(init: Bytes) returns (r: Option<Located>)
    ensures r.Some? == Opened(init).Some?
    ensures r.Some? ==> Locates(init, r.value, Opened(init).value)
  {
    hide HeaderAt, Walk, Parts, Agree, First;
    assert init[0..|init|] == init;
    WalkIsPlacedParts(init, 0, |init|);
    var top :- Boxes(init, 0, |init|);
    WalkAgrees(init, 0, |init|);
    var tops := Parts(init).value;
    var m := FindBox(top, MOOV);
    SameLength(init, 0, |init|, top, tops);
    FirstAgrees(init, 0, |init|, top, tops, MOOV, m);
    if m == |top| {
      return None;
    }
    AgreesAt(init, 0, |init|, top, tops, m);
    var moov := top[m];
    if moov.body - moov.start != 8 {
      return None;
    }
    WalkIsPlacedParts(init, moov.body, moov.End());
    var inner :- Boxes(init, moov.body, moov.End());
    WalkAgrees(init, moov.body, moov.End());
    var inners := Parts(Body(tops[m])).value;
    var k := FindBox(inner, MVEX);
    SameLength(init, moov.body, moov.End(), inner, inners);
    FirstAgrees(init, moov.body, moov.End(), inner, inners, MVEX, k);
    if k == |inner| {
      return None;
    }
    AgreesAt(init, moov.body, moov.End(), inner, inners, k);
    var mvex := inner[k];
    if mvex.body - mvex.start != 8 {
      return None;
    }
    WalkIsPlacedParts(init, mvex.body, mvex.End());
    var kids :- Boxes(init, mvex.body, mvex.End());
    WalkAgrees(init, mvex.body, mvex.End());
    r := Some(Located(top, m, inner, k, kids));
  }

  /** Box `m` is the first of its kind in the stretch and has a header of 8 bytes. */
  predicate FirstPlain(buf: Bytes, i: nat, end: nat, kind: Bytes, m: nat) {
    && BoxAt(buf, i, end, m).Some?
    && BoxAt(buf, i, end, m).value.kind == kind
    && BoxAt(buf, i, end, m).value.body == BoxAt(buf, i, end, m).value.start + 8
    && forall j :: 0 <= j < m ==> Walk(buf, i, end).value[j].kind != kind
  }

  /** The first moov and the first mvex in it are plain, and the children of mvex can be walked. */
  predicate CanTakeMehd(init: Bytes, m: nat, k: nat) {
    && FirstPlain(init, 0, |init|, Codes("moov"), m)
    && var moov := BoxAt(init, 0, |init|, m).value;
    && FirstPlain(init, moov.body, moov.End(), Codes("mvex"), k)
    && var mvex := BoxAt(init, moov.body, moov.End(), k).value;
    && mvex.body <= mvex.End() <= |init| && Walk(init, mvex.body, mvex.End()).Some?
  }

  /** Which segments withMehd opens, and at which boxes. */
  lemma OpensExactly(init: Bytes, m: nat, k: nat)
    ensures Opened(init).Some? && Opened(init).value.m == m && Opened(init).value.k == k <==> CanTakeMehd(init, m, k)
  {
    hide HeaderAt, Walk, Parts, First, FirstPlain, Codes;
    KindNames();
    assert init[0..|init|] == init;
    FirstPlainIs(init, 0, |init|, Codes("moov"), m);
    if Parts(init).Some? && First(Parts(init).value, MOOV) == m && FirstPlain(init, 0, |init|, Codes("moov"), m) {
      var top := Parts(init).value;
      var moov := BoxAt(init, 0, |init|, m).value;
      FirstPlainIs(init, moov.body, moov.End(), Codes("mvex"), k);
      if FirstPlain(init, moov.body, moov.End(), Codes("mvex"), k) {
        var mvex := BoxAt(init, moov.body, moov.End(), k).value;
        WalkIsPlacedParts(init, mvex.body, mvex.End());
      }
    }
  }

  lemma FirstPlainIs(buf: Bytes, i: nat, end: nat, kind: Bytes, m: nat)
    requires i <= end <= |buf|
    ensures FirstPlain(buf, i, end, kind, m) <==>
            && Parts(buf[i..end]).Some? && m < |Parts(buf[i..end]).value| && First(Parts(buf[i..end]).value, kind) == m
            && Head(Parts(buf[i..end]).value[m]) == 8
    ensures FirstPlain(buf, i, end, kind, m) ==>
              && BoxAt(buf, i, end, m).Some?
              && var b, p := BoxAt(buf, i, end, m).value, Parts(buf[i..end]).value[m];
              b.body <= b.End() <= |buf| && buf[b.body..b.End()] == Body(p)
  {
    hide HeaderAt, Walk, Parts, First;
    WalkIsPlacedParts(buf, i, end);
    if Walk(buf, i, end).Some? {
      WalkAgrees(buf, i, end);
      var bs, ps := Walk(buf, i, end).value, Parts(buf[i..end]).value;
      SameLength(buf, i, end, bs, ps);
      if m < |bs| {
        AgreesAt(buf, i, end, bs, ps, m);
      }
      if FirstPlain(buf, i, end, kind, m) {
        FirstAgrees(buf, i, end, bs, ps, kind, m);
      }
    }
  }

  /** The two sizes that are written: mvex with the new mehd of 20 bytes, and moov around it. */
  lemma FitsExactly(v: View)
    requires ValidView(v)
    ensures var n := 28 + |Concat(Without(v.kids, MEHD))|;
            Fits(v) <==> n < 0x1_0000_0000 && 8 + |Concat(v.inner)| - |v.inner[v.k]| + n < 0x1_0000_0000
  {
    hide HeaderAt, Without, Mehd;
    ConcatCons(Mehd(0), Without(v.kids, MEHD));
    var body := MvexBody(v.kids, 0);
    if 8 + |body| < U32_LIMIT {
      ConcatUpdateLength(v.inner, v.k, Plain(MVEX, body));
    }
  }

  lemma SameLength(buf: Bytes, i: nat, end: nat, bs: seq<Box>, ps: seq<Bytes>)
    requires Agree(buf, i, end, bs, ps)
    ensures |bs| == |ps| && AllBoxes(ps)
  {
  }

  lemma AgreesAt(buf: Bytes, i: nat, end: nat, bs: seq<Box>, ps: seq<Bytes>, k: nat)
    requires Agree(buf, i, end, bs, ps) && k < |bs|
    ensures |bs| == |ps| && AllBoxes(ps) && AgreeAt(buf, i, end, bs[k], ps, k)
  {
  }

  method CutWithout(buf: Bytes, i: nat, end: nat, bs: seq<Box>, kind: Bytes, ghost ps: seq<Bytes>)
    returns (out: seq<Bytes>)
    requires Agree(buf, i, end, bs, ps)
    ensures out == Without(ps, kind)
  {
    hide HeaderAt;
    out := [];
    for j := 0 to |bs|
      invariant out + Without(ps[j..], kind) == Without(ps, kind)
    {
      AgreesAt(buf, i, end, bs, ps, j);
      assert ps[j..][1..] == ps[j + 1..] && ps[j..][0] == ps[j];
      ghost var rest := Without(ps[j + 1..], kind);
      assert Without(ps[j..], kind) == (if Kind(ps[j]) == kind then [] else [ps[j]]) + rest;
      if bs[j].kind != kind {
        assert out + ([ps[j]] + rest) == out + [ps[j]] + rest;
        out := out + [buf[bs[j].start..bs[j].End()]];
      } else {
        assert out + ([] + rest) == out + rest;
      }
    }
    assert out + [] == out;
  }

  method CutReplacing(buf: Bytes, i: nat, end: nat, bs: seq<Box>, k: nat, other: Bytes, ghost ps: seq<Bytes>)
    returns (out: seq<Bytes>)
    requires Agree(buf, i, end, bs, ps) && k < |bs|
    ensures out == ps[k := other]
  {
    out := [];
    for j := 0 to |bs|
      invariant out == ps[k := other][..j]
    {
      AgreesAt(buf, i, end, bs, ps, j);
      out := out + [if j == k then other else buf[bs[j].start..bs[j].End()]];
    }
  }

  /** The boxes in front of box `m` and those behind it, told apart by their offsets. */
  method CutAround(buf: Bytes, bs: seq<Box>, m: nat, ghost ps: seq<Bytes>)
    returns (before: seq<Bytes>, after: seq<Bytes>)
    requires Agree(buf, 0, |buf|, bs, ps) && m < |bs|
    ensures before == ps[..m] && after == ps[m + 1..]
  {
    before, after := [], [];
    for j := 0 to |bs|
      invariant before == ps[..if j <= m then j else m]
      invariant after == ps[if j <= m then j else m + 1..j]
    {
      AgreesAt(buf, 0, |buf|, bs, ps, j);
      AgreesAt(buf, 0, |buf|, bs, ps, m);
      if j < m {
        BeforeGrows(ps, j, m);
      } else if m < j {
        BeforeGrows(ps, m, j);
      }
      if bs[j].start < bs[m].start {
        before := before + [buf[bs[j].start..bs[j].End()]];
      } else if bs[j].start > bs[m].start {
        after := after + [buf[bs[j].start..bs[j].End()]];
      }
    }
  }

  lemma BeforeGrows(ps: seq<Bytes>, j: nat, m: nat)
    requires AllBoxes(ps) && j < m < |ps|
    ensures Before(ps, j) < Before(ps, m)
  {
    hide HeaderAt;
    var a := ps[j..m];
    assert ps[..m] == ps[..j] + a;
    ConcatAppend(ps[..j], a);
    assert a == [ps[j]] + a[1..];
    ConcatCons(ps[j], a[1..]);
    assert IsBox(ps[j]);
  }

  /** withMehd: the program returns what WithMehdOf describes, and throws exactly where it is None. */
  method WithMehd(init: Bytes, ticks: int) returns (r: Option<Clip>)
    ensures r == WithMehdOf(init, ticks)
  {
    hide Opened, HeaderAt, Parts, Locates, Rewritten;
    var o := OpenInit(init);
    if o.None? {
      return None;
    }
    OpenedValid(init);
    ghost var v := Opened(init).value;
    r := SpliceMehd(init, ticks, o.value, v);
  }

  method SpliceMehd(init: Bytes, ticks: int, o: Located, ghost v: View) returns (r: Option<Clip>)
    requires ValidView(v) && Locates(init, o, v)
    ensures r == if !(0 <= ticks < U64_LIMIT) || !Fits(v) then None
                 else Some(Clip(Concat(Rewritten(v, ticks).top), DurationOffset(v)))
  {
    hide HeaderAt, Agree, Without, Concat;
    if !(0 <= ticks < U64_LIMIT) {
      return None;
    }
    var moov, mvex := o.top[o.m], o.inner[o.k];
    var mehd := Plain(MEHD, [1, 0, 0, 0] + U64(ticks));
    var kept := CutWithout(init, mvex.body, mvex.End(), o.kids, MEHD, v.kids);
    var mvexBody := Concat([mehd] + kept);
    FitsForAny(v, ticks);
    if 8 + |mvexBody| >= U32_LIMIT {
      return None;
    }
    var newMvex := Plain(MVEX, mvexBody);
    var parts := CutReplacing(init, moov.body, moov.End(), o.inner, o.k, newMvex, v.inner);
    var moovBody := Concat(parts);
    if 8 + |moovBody| >= U32_LIMIT {
      return None;
    }
    var newMoov := Plain(MOOV, moovBody);
    var before, after := CutAround(init, o.top, o.m, v.top);
    var off := OffsetOf(init, o, v, |Concat(before)| + 8);
    var buf := Concat(before) + newMoov + Concat(after);
    ghost var top := v.top[v.m := newMoov];
    ConcatSlice(top, v.m);
    assert top[..v.m] == before && top[v.m + 1..] == after;
    r := Some(Clip(buf, off + 8 + 12));
  }

  method OffsetOf(init: Bytes, o: Located, ghost v: View, from: nat) returns (off: nat)
    requires ValidView(v) && Locates(init, o, v)
    ensures off == from + Before(v.inner, v.k)
  {
    hide HeaderAt, Agree;
    off := from;
    ConcatNone(v.inner);
    var j := 0;
    ghost var moov := o.top[o.m];
    SameLength(init, moov.body, moov.End(), o.inner, v.inner);
    while j < |o.inner| && j != o.k
      invariant j <= o.k && off == from + Before(v.inner, j)
    {
      AgreesAt(init, moov.body, moov.End(), o.inner, v.inner, j);
      BeforeNext(v.inner, j);
      off := off + o.inner[j].size;
      j := j + 1;
    }
  }

  lemma BeforeNext(ps: seq<Bytes>, j: nat)
    requires j < |ps|
    ensures Before(ps, j + 1) == Before(ps, j) + |ps[j]|
  {
    assert ps[..j + 1] == ps[..j] + [ps[j]];
    ConcatAppend(ps[..j], [ps[j]]);
    ConcatCons(ps[j], []);
  }

  /** The sizes do not depend on the duration. */
  lemma FitsForAny(v: View, ticks: int)
    requires ValidView(v) && 0 <= ticks < U64_LIMIT
    ensures Fits(v) <==>
            && 8 + |MvexBody(v.kids, ticks)| < U32_LIMIT
            && 8 + |MoovBody(v.inner, v.k, Plain(MVEX, MvexBody(v.kids, ticks)))| < U32_LIMIT
  {
    ConcatCons(Mehd(0), Without(v.kids, MEHD));
    ConcatCons(Mehd(ticks), Without(v.kids, MEHD));
    assert |MvexBody(v.kids, 0)| == |MvexBody(v.kids, ticks)|;
    if 8 + |MvexBody(v.kids, ticks)| < U32_LIMIT {
      ConcatUpdateLength(v.inner, v.k, Plain(MVEX, MvexBody(v.kids, 0)));
      ConcatUpdateLength(v.inner, v.k, Plain(MVEX, MvexBody(v.kids, ticks)));
    }
  }
}
