/** rebase, tfdtsOf and firstTimes of src/cameras/fmp4.js: the decode times
    (tfdt, section 8.8.12 of ISO/IEC 14496-12) of a media segment are moved by
    a base per track, and styp and sidx boxes are left out.

    The program patches one buffer at absolute offsets. The simple form works
    box by box, with offsets inside each box. */
module Mp4Segment {
  import opened Bytes
  import opened Mp4Boxes
  import opened Mp4Init
  import opened Sequences

  const MOOF: Bytes := [0x6d, 0x6f, 0x6f, 0x66]
  const TRAF: Bytes := [0x74, 0x72, 0x61, 0x66]
  const TFHD: Bytes := [0x74, 0x66, 0x68, 0x64]
  const TFDT: Bytes := [0x74, 0x66, 0x64, 0x74]
  const STYP: Bytes := [0x73, 0x74, 0x79, 0x70]
  const SIDX: Bytes := [0x73, 0x69, 0x64, 0x78]

  /** One decode time: its track, where its number lies, the tfdt version and the number. */
  datatype Time = Time(track: int, off: nat, version: byte, value: nat)

  type Base = map<int, nat>

  function Width(version: byte): nat {
    if version == 1 then 8 else 4
  }

  function Limit(version: byte): int {
    if version == 1 then U64_LIMIT else U32_LIMIT
  }

  function Number(version: byte, v: nat): (b: Bytes)
    requires v < Limit(version)
    ensures |b| == Width(version)
  {
    if version == 1 then U64(v) else U32(v)
  }

  function GetNumber(b: Bytes, i: nat, version: byte): (v: nat)
    requires i + Width(version) <= |b|
    ensures v < Limit(version)
  {
    if version == 1 then GetU64(b, i) else GetU32(b, i)
  }

  /** The time after rebasing: never below 0, untouched when its track has no base. */
  function Moved(t: Time, base: Base): (v: nat)
    ensures v <= t.value
  {
    if t.track !in base then t.value
    else if t.value < base[t.track] then 0
    else t.value - base[t.track]
  }

  predicate InRange(t: Time, n: nat) {
    t.off + Width(t.version) <= n && t.value < Limit(t.version)
  }

  predicate AllInRange(ts: seq<Time>, n: nat) {
    forall k :: 0 <= k < |ts| ==> InRange(ts[k], n)
  }

  // ---- Writing times ----

  function Write(b: Bytes, t: Time, base: Base): (r: Bytes)
    ensures |r| == |b|
  {
    if t.track in base && InRange(t, |b|) then Splice(b, t.off, Number(t.version, Moved(t, base))) else b
  }

  function WriteAll(b: Bytes, ts: seq<Time>, base: Base): (r: Bytes)
    ensures |r| == |b|
    decreases |ts|
  {
    if ts == [] then b else WriteAll(Write(b, ts[0], base), ts[1..], base)
  }

  function Shift(ts: seq<Time>, n: nat): (r: seq<Time>)
    ensures |r| == |ts|
  {
    seq(|ts|, k requires 0 <= k < |ts| => ts[k].(off := ts[k].off + n))
  }

  function MovedAll(ts: seq<Time>, base: Base): (r: seq<Time>)
    ensures |r| == |ts|
  {
    seq(|ts|, k requires 0 <= k < |ts| => ts[k].(value := Moved(ts[k], base)))
  }

  lemma {:induction false} WriteAppend(b: Bytes, x: seq<Time>, y: seq<Time>, base: Base)
    ensures WriteAll(b, x + y, base) == WriteAll(WriteAll(b, x, base), y, base)
    decreases |x|
  {
    if x == [] {
      assert x + y == y;
    } else {
      assert (x + y)[1..] == x[1..] + y && (x + y)[0] == x[0];
      WriteAppend(Write(b, x[0], base), x[1..], y, base);
    }
  }

  /** Times that lie inside `p` are written inside `p`, wherever `p` lies. */
  lemma {:induction false} WriteInside(a: Bytes, p: Bytes, z: Bytes, ts: seq<Time>, base: Base)
    requires AllInRange(ts, |p|)
    ensures WriteAll(a + p + z, Shift(ts, |a|), base) == a + WriteAll(p, ts, base) + z
    decreases |ts|
  {
    if ts == [] {
      assert Shift(ts, |a|) == [];
    } else {
      var t := ts[0];
      assert InRange(t, |p|);
      var us := Shift(ts, |a|);
      assert us[0] == t.(off := t.off + |a|) && us[1..] == Shift(ts[1..], |a|);
      assert Write(a + p + z, us[0], base) == a + Write(p, t, base) + z by {
        hide Number;
        if t.track in base {
          SpliceInside(a, p, z, t.off, Number(t.version, Moved(t, base)));
        }
      }
      hide Write;
      WriteInside(a, Write(p, t, base), z, ts[1..], base);
    }
  }

  // ---- Collecting the times of a list of boxes ----

  /** The times of the boxes `ps` laid down from `at`, when `f` gives those of one box. */
  function Gather(ps: seq<Bytes>, f: Bytes -> seq<Time>, at: nat): (r: seq<Time>)
  {
    if ps == [] then [] else Shift(f(ps[0]), at) + Gather(ps[1..], f, at + |ps[0]|)
  }

  lemma ShiftTwice(ts: seq<Time>, a: nat, b: nat)
    ensures Shift(Shift(ts, a), b) == Shift(ts, a + b)
  {
  }

  lemma ShiftAppend(x: seq<Time>, y: seq<Time>, n: nat)
    ensures Shift(x + y, n) == Shift(x, n) + Shift(y, n)
  {
  }

  lemma {:induction false} GatherShift(ps: seq<Bytes>, f: Bytes -> seq<Time>, at: nat, n: nat)
    ensures Shift(Gather(ps, f, at), n) == Gather(ps, f, at + n)
  {
    if ps == [] {
    } else {
      GatherShift(ps[1..], f, at + |ps[0]|, n);
      ShiftAppend(Shift(f(ps[0]), at), Gather(ps[1..], f, at + |ps[0]|), n);
      ShiftTwice(f(ps[0]), at, n);
    }
  }

  /** The box with its own times rewritten. */
  function Rebox(p: Bytes, f: Bytes -> seq<Time>, base: Base): (q: Bytes)
    ensures |q| == |p|
  {
    WriteAll(p, f(p), base)
  }

  function ReboxAll(ps: seq<Bytes>, f: Bytes -> seq<Time>, base: Base): (qs: seq<Bytes>)
    ensures |qs| == |ps|
  {
    seq(|ps|, k requires 0 <= k < |ps| => Rebox(ps[k], f, base))
  }

  /** Rewriting keeps `p` the same box, and its times afterwards are the moved ones. */
  predicate Keeps(p: Bytes, f: Bytes -> seq<Time>, base: Base) {
    && SameBox(p, Rebox(p, f, base))
    && AllInRange(f(p), |p|)
    && f(Rebox(p, f, base)) == MovedAll(f(p), base)
  }

  /** Same header, same length: found as the same box in any list. */
  predicate SameBox(p: Bytes, q: Bytes) {
    && IsBox(p) && IsBox(q) && |q| == |p|
    && Kind(q) == Kind(p) && Head(q) == Head(p) && OpenEnded(q) == OpenEnded(p)
  }

  lemma SameHeader(p: Bytes, q: Bytes)
    requires IsBox(p) && |q| == |p| && q[..Head(p)] == p[..Head(p)]
    ensures SameBox(p, q)
  {
    var n := Head(p);
    assert forall k :: 0 <= k < n ==> p[k] == p[..n][k] && q[k] == q[..n][k];
    assert q[4..8] == q[..n][4..8] == p[..n][4..8] == p[4..8];
  }

  lemma {:induction false} GatherWrites(ps: seq<Bytes>, slack: Bytes, f: Bytes -> seq<Time>, base: Base)
    requires forall k :: 0 <= k < |ps| ==> Keeps(ps[k], f, base)
    ensures WriteAll(Concat(ps) + slack, Gather(ps, f, 0), base) == Concat(ReboxAll(ps, f, base)) + slack
  {
    hide Keeps;
    GatherWritesFrom([], ps, slack, f, base);
    assert [] + Concat(ps) + slack == Concat(ps) + slack;
    assert [] + Concat(ReboxAll(ps, f, base)) + slack == Concat(ReboxAll(ps, f, base)) + slack;
  }

  lemma {:induction false} GatherWritesFrom(a: Bytes, ps: seq<Bytes>, slack: Bytes, f: Bytes -> seq<Time>, base: Base)
    requires forall k :: 0 <= k < |ps| ==> Keeps(ps[k], f, base)
    ensures WriteAll(a + Concat(ps) + slack, Gather(ps, f, |a|), base) ==
            a + Concat(ReboxAll(ps, f, base)) + slack
    decreases |ps|
  {
    hide Keeps;
    if ps == [] {
      assert ReboxAll(ps, f, base) == [];
    } else {
      hide WriteAll, Concat, AllInRange, Shift, Gather;
      var p, rest := ps[0], ps[1..];
      KeepsRange(p, f, base);
      var q, qs := Rebox(p, f, base), ReboxAll(rest, f, base);
      assert ps == [p] + rest && ReboxAll(ps, f, base) == [q] + qs;
      GatherStep(a, p, rest, slack, f, base);
      GatherWritesFrom(a + q, rest, slack, f, base);
      ConcatAround(a, q, qs, slack);
    }
  }

  /** One box done: the rest is written behind it as before. */
  lemma GatherStep(a: Bytes, p: Bytes, rest: seq<Bytes>, slack: Bytes, f: Bytes -> seq<Time>, base: Base)
    requires AllInRange(f(p), |p|)
    ensures WriteAll(a + Concat([p] + rest) + slack, Gather([p] + rest, f, |a|), base) ==
            WriteAll((a + Rebox(p, f, base)) + Concat(rest) + slack, Gather(rest, f, |a + Rebox(p, f, base)|), base)
  {
    hide WriteAll, Concat, AllInRange, Shift;
    var q, z, y := Rebox(p, f, base), Concat(rest) + slack, Gather(rest, f, |a| + |p|);
    assert ([p] + rest)[1..] == rest;
    assert Gather([p] + rest, f, |a|) == Shift(f(p), |a|) + y;
    hide Gather;
    ConcatAround(a, p, rest, slack);
    WriteFirst(a, p, z, f(p), y, base);
    ConcatAround(a, q, rest, slack);
  }

  lemma ConcatAround(a: Bytes, p: Bytes, rest: seq<Bytes>, slack: Bytes)
    ensures a + Concat([p] + rest) + slack == a + p + (Concat(rest) + slack) == (a + p) + Concat(rest) + slack
  {
    ConcatCons(p, rest);
  }

  lemma WriteFirst(a: Bytes, p: Bytes, z: Bytes, ts: seq<Time>, y: seq<Time>, base: Base)
    requires AllInRange(ts, |p|)
    ensures WriteAll(a + p + z, Shift(ts, |a|) + y, base) == WriteAll(a + WriteAll(p, ts, base) + z, y, base)
  {
    WriteAppend(a + p + z, Shift(ts, |a|), y, base);
    WriteInside(a, p, z, ts, base);
  }

  lemma KeepsRange(p: Bytes, f: Bytes -> seq<Time>, base: Base)
    requires Keeps(p, f, base)
    ensures AllInRange(f(p), |p|) && f(Rebox(p, f, base)) == MovedAll(f(p), base)
  {
  }

  lemma {:induction false} GatherMoves(ps: seq<Bytes>, f: Bytes -> seq<Time>, base: Base, at: nat)
    requires forall k :: 0 <= k < |ps| ==> Keeps(ps[k], f, base)
    ensures Gather(ReboxAll(ps, f, base), f, at) == MovedAll(Gather(ps, f, at), base)
    decreases |ps|
  {
    hide Keeps, WriteAll;
    var qs := ReboxAll(ps, f, base);
    if ps == [] {
      assert qs == [];
    } else {
      var p, rest := ps[0], ps[1..];
      KeepsRange(p, f, base);
      assert qs[0] == Rebox(p, f, base) && qs[1..] == ReboxAll(rest, f, base);
      GatherMoves(rest, f, base, at + |p|);
      MovedShifted(f(p), Gather(rest, f, at + |p|), base, at);
    }
  }

  lemma MovedShifted(x: seq<Time>, y: seq<Time>, base: Base, at: nat)
    ensures MovedAll(Shift(x, at) + y, base) == Shift(MovedAll(x, base), at) + MovedAll(y, base)
  {
    assert forall k :: 0 <= k < |x| ==> Shift(x, at)[k] == x[k].(off := x[k].off + at);
  }

  lemma GatherRange(ps: seq<Bytes>, f: Bytes -> seq<Time>, at: nat, n: nat)
    requires forall k :: 0 <= k < |ps| ==> AllInRange(f(ps[k]), |ps[k]|)
    requires at + |Concat(ps)| <= n
    ensures AllInRange(Gather(ps, f, at), n)
    decreases |ps|
  {
    if ps != [] {
      GatherRange(ps[1..], f, at + |ps[0]|, n);
      var x := Shift(f(ps[0]), at);
      assert forall k :: 0 <= k < |x| ==>
                           InRange(f(ps[0])[k], |ps[0]|) && x[k] == f(ps[0])[k].(off := f(ps[0])[k].off + at);
    }
  }

  /** The boxes of a stretch, rewritten one by one, are found again in its rewritten bytes. */
  lemma ReboxedLaid(s: Bytes, ps: seq<Bytes>, slack: Bytes, f: Bytes -> seq<Time>, base: Base)
    requires Laid(s, ps, slack) && forall k :: 0 <= k < |ps| ==> Keeps(ps[k], f, base)
    ensures Laid(WriteAll(s, Gather(ps, f, 0), base), ReboxAll(ps, f, base), slack)
  {
    hide HeaderAt, Gather, WriteAll, Concat;
    GatherWrites(ps, slack, f, base);
    var qs := ReboxAll(ps, f, base);
    forall k | 0 <= k < |qs|
      ensures IsBox(qs[k]) && OpenEnded(qs[k]) == OpenEnded(ps[k])
    {
      assert Keeps(ps[k], f, base);
    }
  }

  // ---- traf: one track fragment ----

  /** tfhd holds its track number and tfdt its version and number in full. */
  predicate FullFields(tfhd: Bytes, tfdt: Bytes)
    requires IsBox(tfhd) && IsBox(tfdt)
  {
    && Head(tfhd) + 8 <= |tfhd|
    && Head(tfdt) + 4 <= |tfdt|
    && Head(tfdt) + 4 + Width(tfdt[Head(tfdt)]) <= |tfdt|
  }

  predicate TrafOk(p: Bytes)
    requires IsBox(p)
  {
    && Parts(Body(p)).Some?
    && var ps := Parts(Body(p)).value;
    && var h, d := First(ps, TFHD), First(ps, TFDT);
    && (h < |ps| && d < |ps| ==> FullFields(ps[h], ps[d]))
  }

  function TimeOf(at: nat, tfhd: Bytes, tfdt: Bytes): (t: Time)
    requires IsBox(tfhd) && IsBox(tfdt) && FullFields(tfhd, tfdt)
    ensures InRange(t, at + |tfdt|)
  {
    var n := Head(tfdt);
    Time(GetU32(tfhd, Head(tfhd) + 4), at + n + 4, tfdt[n], GetNumber(tfdt, n + 4, tfdt[n]))
  }

  /** The decode time of a traf, if it is one and has both boxes; the offset counts from the start of the traf. */
  function TrafTimes(p: Bytes): (r: seq<Time>)
  {
    if !IsBox(p) || Kind(p) != TRAF || !TrafOk(p) then [] else
    var ps := Parts(Body(p)).value;
    var h, d := First(ps, TFHD), First(ps, TFDT);
    if h == |ps| || d == |ps| then [] else
    [TimeOf(Head(p) + Before(ps, d), ps[h], ps[d])]
  }

  lemma NumberInside(tfhd: Bytes, tfdt: Bytes, v: nat, at: nat)
    requires IsBox(tfhd) && IsBox(tfdt) && FullFields(tfhd, tfdt)
    requires v < Limit(tfdt[Head(tfdt)])
    ensures var q := Splice(tfdt, Head(tfdt) + 4, Number(tfdt[Head(tfdt)], v));
            && SameBox(tfdt, q) && FullFields(tfhd, q)
            && TimeOf(at, tfhd, q) == TimeOf(at, tfhd, tfdt).(value := v)
  {
    var n := Head(tfdt);
    var w := Number(tfdt[n], v);
    var q := Splice(tfdt, n + 4, w);
    assert q[..n] == tfdt[..n];
    SameHeader(tfdt, q);
    assert q[n] == tfdt[n];
    assert q[n + 4..n + 4 + |w|] == w;
    hide HeaderAt;
    if tfdt[n] == 1 {
      ReadBackU64(q, n + 4, v);
    } else {
      ReadBackU32(q, n + 4, v);
    }
  }

  lemma FirstUpdate(ps: seq<Bytes>, d: nat, q: Bytes, kind: Bytes)
    requires AllBoxes(ps) && d < |ps| && SameBox(ps[d], q)
    ensures AllBoxes(ps[d := q]) && First(ps[d := q], kind) == First(ps, kind)
  {
    hide HeaderAt;
    var qs, k := ps[d := q], First(ps, kind);
    assert forall j :: 0 <= j < |ps| ==> IsBox(qs[j]) && Kind(qs[j]) == Kind(ps[j]);
    if k < |ps| {
      FirstIs(qs, kind, k);
    }
  }

  lemma LaidUpdate(ps: seq<Bytes>, slack: Bytes, d: nat, q: Bytes)
    requires Chain(ps) && Slack(ps, slack) && d < |ps| && SameBox(ps[d], q)
    ensures Chain(ps[d := q]) && Slack(ps[d := q], slack)
  {
    hide HeaderAt;
    var qs := ps[d := q];
    assert forall j :: 0 <= j < |ps| ==> IsBox(qs[j]) && OpenEnded(qs[j]) == OpenEnded(ps[j]);
  }

  /** Overwriting inside box `d` of the body of `p`. */
  lemma SpliceInBody(p: Bytes, ps: seq<Bytes>, slack: Bytes, d: nat, o: nat, w: Bytes)
    requires IsBox(p) && Body(p) == Concat(ps) + slack && d < |ps| && o + |w| <= |ps[d]|
    ensures Head(p) + Before(ps, d) + o + |w| <= |p|
    ensures var q := Splice(p, Head(p) + Before(ps, d) + o, w);
            SameBox(p, q) && Body(q) == Concat(ps[d := Splice(ps[d], o, w)]) + slack
  {
    var n, m := Head(p), Before(ps, d) + o;
    SpliceInPart(ps, d, o, w);
    var c, c' := Concat(ps), Concat(ps[d := Splice(ps[d], o, w)]);
    hide HeaderAt, Concat;
    assert p == p[..n] + Body(p) == p[..n] + c + slack;
    SpliceInside(p[..n], c, slack, m, w);
    var q := Splice(p, n + m, w);
    assert q == p[..n] + c' + slack == p[..n] + (c' + slack);
    assert q[..n] == p[..n] && q[n..] == c' + slack;
    SameHeader(p, q);
  }

  lemma WriteOne(p: Bytes, t: Time, base: Base)
    ensures WriteAll(p, [t], base) == Write(p, t, base)
  {
  }

  /** A traf with the children `ps`, of which `h` is its tfhd and `d` its tfdt. */
  predicate TrafWith(p: Bytes, ps: seq<Bytes>, slack: Bytes, h: nat, d: nat) {
    && IsBox(p) && Kind(p) == TRAF && Laid(Body(p), ps, slack)
    && h == First(ps, TFHD) < |ps| && d == First(ps, TFDT) < |ps| && FullFields(ps[h], ps[d])
  }

  function TimeIn(p: Bytes, ps: seq<Bytes>, slack: Bytes, h: nat, d: nat): (t: Time)
    requires TrafWith(p, ps, slack, h, d)
  {
    TimeOf(Head(p) + Before(ps, d), ps[h], ps[d])
  }

  lemma TrafTimesFrom(p: Bytes, ps: seq<Bytes>, slack: Bytes, h: nat, d: nat)
    requires TrafWith(p, ps, slack, h, d)
    ensures IsBox(p) && TrafOk(p) && TrafTimes(p) == [TimeIn(p, ps, slack, h, d)]
  {
    hide HeaderAt, Parts, Laid, Concat;
    PartsOfLaid(Body(p), ps, slack);
  }

  /** tfdt with its number replaced. */
  function NewTfdt(tfdt: Bytes, v: nat): (q: Bytes)
    requires IsBox(tfdt) && Head(tfdt) + 4 <= |tfdt| && Head(tfdt) + 4 + Width(tfdt[Head(tfdt)]) <= |tfdt|
    requires v < Limit(tfdt[Head(tfdt)])
  {
    Splice(tfdt, Head(tfdt) + 4, Number(tfdt[Head(tfdt)], v))
  }

  /** The children of a traf after its tfdt has been given the number `v`. */
  lemma KidsSpliced(ps: seq<Bytes>, slack: Bytes, h: nat, d: nat, v: nat, at: nat)
    requires Chain(ps) && Slack(ps, slack)
    requires h == First(ps, TFHD) < |ps| && d == First(ps, TFDT) < |ps| && FullFields(ps[h], ps[d])
    requires v < Limit(ps[d][Head(ps[d])])
    ensures var qs := ps[d := NewTfdt(ps[d], v)];
            && Chain(qs) && Slack(qs, slack) && h == First(qs, TFHD) && d == First(qs, TFDT)
            && FullFields(qs[h], qs[d]) && Before(qs, d) == Before(ps, d)
            && TimeOf(at, qs[h], qs[d]) == TimeOf(at, ps[h], ps[d]).(value := v)
  {
    hide HeaderAt, Splice, GetU32, GetNumber, Number, Concat;
    var kid' := NewTfdt(ps[d], v);
    NumberInside(ps[h], ps[d], v, at);
    LaidUpdate(ps, slack, d, kid');
    FirstUpdate(ps, d, kid', TFHD);
    FirstUpdate(ps, d, kid', TFDT);
    assert ps[d := kid'][..d] == ps[..d];
  }

  /** Replacing the number in the bytes of tfdt replaces the decode time of the traf, and only that. */
  lemma TrafSpliced(p: Bytes, q: Bytes, ps: seq<Bytes>, slack: Bytes, h: nat, d: nat, v: nat)
    requires TrafWith(p, ps, slack, h, d) && SameBox(p, q)
    requires v < Limit(ps[d][Head(ps[d])])
    requires Body(q) == Concat(ps[d := NewTfdt(ps[d], v)]) + slack
    ensures TrafWith(q, ps[d := NewTfdt(ps[d], v)], slack, h, d)
    ensures TimeIn(q, ps[d := NewTfdt(ps[d], v)], slack, h, d) == TimeIn(p, ps, slack, h, d).(value := v)
  {
    hide HeaderAt, TimeOf, NewTfdt, Concat, OpenEnded, First, Before;
    KidsSpliced(ps, slack, h, d, v, Head(p) + Before(ps, d));
  }

  lemma TrafWritten(p: Bytes, ps: seq<Bytes>, slack: Bytes, h: nat, d: nat, v: nat)
    requires TrafWith(p, ps, slack, h, d) && v < Limit(TimeIn(p, ps, slack, h, d).version)
    ensures var t := TimeIn(p, ps, slack, h, d);
            && t.off + Width(t.version) <= |p|
            && SameBox(p, Splice(p, t.off, Number(t.version, v)))
            && TrafOk(Splice(p, t.off, Number(t.version, v)))
            && TrafTimes(Splice(p, t.off, Number(t.version, v))) == [t.(value := v)]
  {
    hide HeaderAt, Parts, Splice, GetU32, GetNumber, Concat, OpenEnded, TrafOk, TrafTimes, Number;
    var n, t := Head(ps[d]), TimeIn(p, ps, slack, h, d);
    var w := Number(t.version, v);
    SpliceInBody(p, ps, slack, d, n + 4, w);
    var q := Splice(p, t.off, w);
    TrafSpliced(p, q, ps, slack, h, d, v);
    TrafTimesFrom(q, ps[d := NewTfdt(ps[d], v)], slack, h, d);
  }

  lemma TrafIs(p: Bytes)
    requires IsBox(p) && Kind(p) == TRAF && TrafOk(p) && TrafTimes(p) != []
    ensures Parts(Body(p)).Some?
    ensures var ps := Parts(Body(p)).value;
            TrafWith(p, ps, Leftover(Body(p)), First(ps, TFHD), First(ps, TFDT))
  {
    hide HeaderAt, Parts, Leftover, Concat;
    PartsAreLaid(Body(p));
  }

  /** A traf and its rewritten form: the same box, with the moved time. */
  lemma TrafKeeps(p: Bytes, base: Base)
    requires IsBox(p) && (Kind(p) == TRAF ==> TrafOk(p))
    ensures Keeps(p, TrafTimes, base)
    ensures Kind(p) == TRAF ==> TrafOk(Rebox(p, TrafTimes, base))
  {
    hide HeaderAt, Parts, Concat, Splice, TrafOk, Leftover, First, Number;
    if TrafTimes(p) == [] {
      assert Rebox(p, TrafTimes, base) == p;
    } else {
      TrafIs(p);
      var ps, slack := Parts(Body(p)).value, Leftover(Body(p));
      var h, d := First(ps, TFHD), First(ps, TFDT);
      TrafTimesFrom(p, ps, slack, h, d);
      var t := TimeIn(p, ps, slack, h, d);
      hide TrafTimes;
      TrafWritten(p, ps, slack, h, d, Moved(t, base));
      WriteOne(p, t, base);
    }
  }

  // ---- moof: a movie fragment with its track fragments ----

  predicate MoofOk(p: Bytes)
    requires IsBox(p)
  {
    Kind(p) == MOOF ==>
      && Parts(Body(p)).Some?
      && forall k :: 0 <= k < |Parts(Body(p)).value| ==> KidOk(Parts(Body(p)).value[k])
  }

  predicate KidOk(p: Bytes) {
    IsBox(p) && (Kind(p) == TRAF ==> TrafOk(p))
  }

  function MoofTimes(p: Bytes): (r: seq<Time>)
  {
    if !IsBox(p) || Kind(p) != MOOF || !MoofOk(p) then [] else
    Gather(Parts(Body(p)).value, TrafTimes, Head(p))
  }

  lemma KidsKeep(ps: seq<Bytes>, base: Base)
    requires forall k :: 0 <= k < |ps| ==> KidOk(ps[k])
    ensures forall k :: 0 <= k < |ps| ==> Keeps(ps[k], TrafTimes, base)
    ensures forall k :: 0 <= k < |ps| ==> KidOk(ReboxAll(ps, TrafTimes, base)[k])
  {
    hide HeaderAt, TrafOk, TrafTimes, WriteAll;
    forall k | 0 <= k < |ps|
      ensures Keeps(ps[k], TrafTimes, base) && KidOk(ReboxAll(ps, TrafTimes, base)[k])
    {
      assert KidOk(ps[k]);
      TrafKeeps(ps[k], base);
    }
  }

  /** The rewritten body of a moof: the same children, each rewritten on its own. */
  lemma MoofBody(p: Bytes, base: Base)
    requires IsBox(p) && Kind(p) == MOOF && MoofOk(p)
    ensures var ps := Parts(Body(p)).value; var q := Rebox(p, MoofTimes, base);
            && SameBox(p, q) && AllInRange(MoofTimes(p), |p|)
            && Laid(Body(q), ReboxAll(ps, TrafTimes, base), Leftover(Body(p)))
  {
    hide HeaderAt, Parts, TrafTimes, WriteAll, Gather, Leftover, Keeps, KidOk, AllInRange, Laid;
    var n, b := Head(p), Body(p);
    var ps := Parts(b).value;
    var ts := Gather(ps, TrafTimes, 0);
    PartsAreLaid(b);
    KidsKeep(ps, base);
    ReboxedLaid(b, ps, Leftover(b), TrafTimes, base);
    KidsRange(ps, base, b, Leftover(b));
    GatherShift(ps, TrafTimes, 0, n);
    assert p == p[..n] + b + [];
    WriteInside(p[..n], b, [], ts, base);
    var q := Rebox(p, MoofTimes, base);
    assert q[..n] == p[..n] && q[n..] == WriteAll(b, ts, base);
    SameHeader(p, q);
    ShiftRange(ts, |b|, n);
  }

  lemma KidsRange(ps: seq<Bytes>, base: Base, b: Bytes, slack: Bytes)
    requires forall k :: 0 <= k < |ps| ==> Keeps(ps[k], TrafTimes, base)
    requires Laid(b, ps, slack)
    ensures AllInRange(Gather(ps, TrafTimes, 0), |b|)
  {
    hide HeaderAt, TrafTimes, Keeps, AllInRange, Gather;
    forall k | 0 <= k < |ps|
      ensures AllInRange(TrafTimes(ps[k]), |ps[k]|)
    {
      KeepsRange(ps[k], TrafTimes, base);
    }
    GatherRange(ps, TrafTimes, 0, |b|);
  }

  lemma ShiftRange(ts: seq<Time>, m: nat, n: nat)
    requires AllInRange(ts, m)
    ensures AllInRange(Shift(ts, n), n + m)
  {
    forall k | 0 <= k < |ts|
      ensures InRange(Shift(ts, n)[k], n + m)
    {
      assert InRange(ts[k], m);
    }
  }

  lemma MoofKeeps(p: Bytes, base: Base)
    requires IsBox(p) && MoofOk(p)
    ensures Keeps(p, MoofTimes, base)
    ensures IsBox(Rebox(p, MoofTimes, base)) && MoofOk(Rebox(p, MoofTimes, base))
  {
    hide HeaderAt, Parts, TrafTimes, WriteAll, Gather, Leftover, KidOk, AllInRange, Laid;
    var q := Rebox(p, MoofTimes, base);
    if Kind(p) != MOOF {
      WriteNone(p, base);
    } else {
      MoofBody(p, base);
      var ps := Parts(Body(p)).value;
      var qs := ReboxAll(ps, TrafTimes, base);
      PartsOfLaid(Body(q), qs, Leftover(Body(p)));
      KidsKeep(ps, base);
      GatherMoves(ps, TrafTimes, base, Head(p));
    }
  }

  lemma WriteNone(p: Bytes, base: Base)
    ensures WriteAll(p, [], base) == p && AllInRange([], |p|) && MovedAll([], base) == []
  {
  }

  // ---- The whole segment ----

  /** Every moof can be read down to its decode times. */
  predicate SegmentOk(buf: Bytes) {
    && Parts(buf).Some?
    && forall k :: 0 <= k < |Parts(buf).value| ==> MoofOk(Parts(buf).value[k])
  }

  /** What tfdtsOf returns. */
  function Times(buf: Bytes): (r: seq<Time>)
    requires SegmentOk(buf)
  {
    Gather(Parts(buf).value, MoofTimes, 0)
  }

  /** The boxes that rebase copies. */
  function Kept(ps: seq<Bytes>): (r: seq<Bytes>)
    requires AllBoxes(ps)
    ensures AllBoxes(r)
  {
    Without(Without(ps, STYP), SIDX)
  }

  predicate NoIndex(p: Bytes) {
    OtherKind(p, Codes("styp")) && OtherKind(p, Codes("sidx"))
  }

  lemma KindNames()
    ensures MOOF == Codes("moof") && TRAF == Codes("traf") && TFHD == Codes("tfhd") && TFDT == Codes("tfdt")
    ensures STYP == Codes("styp") && SIDX == Codes("sidx")
  {
  }

  /** Exactly the boxes other than styp and sidx are copied, in order. */
  lemma KeptIs(ps: seq<Bytes>)
    requires AllBoxes(ps)
    ensures Kept(ps) == Filter(ps, NoIndex)
  {
    KindNames();
    hide HeaderAt, Codes;
    WithoutIs(ps, STYP);
    WithoutIs(Without(ps, STYP), SIDX);
    FilterTwice(ps, NotOf(STYP), NotOf(SIDX), NoIndex);
  }

  /** What rebase returns, box by box. */
  function Rebased(buf: Bytes, base: Base): (r: Bytes)
    requires SegmentOk(buf)
  {
    Concat(ReboxAll(Kept(Parts(buf).value), MoofTimes, base))
  }

  lemma KeptOk(buf: Bytes)
    requires SegmentOk(buf)
    ensures var ps := Kept(Parts(buf).value);
            Chain(ps) && forall k :: 0 <= k < |ps| ==> MoofOk(ps[k])
  {
    hide HeaderAt, MoofOk;
    PartsAreLaid(buf);
    var ps := Parts(buf).value;
    WithoutChain(ps, STYP);
    WithoutChain(Without(ps, STYP), SIDX);
    WithoutMembers(ps, STYP);
    WithoutMembers(Without(ps, STYP), SIDX);
  }

  lemma {:induction false} WithoutMembers(ps: seq<Bytes>, kind: Bytes)
    requires AllBoxes(ps) && forall k :: 0 <= k < |ps| ==> MoofOk(ps[k])
    ensures forall k :: 0 <= k < |Without(ps, kind)| ==> MoofOk(Without(ps, kind)[k])
  {
    hide HeaderAt, MoofOk;
    if |ps| > 0 {
      assert MoofOk(ps[0]);
      WithoutMembers(ps[1..], kind);
    }
  }

  lemma MoofsKeep(ps: seq<Bytes>, base: Base)
    requires AllBoxes(ps) && forall k :: 0 <= k < |ps| ==> MoofOk(ps[k])
    ensures forall k :: 0 <= k < |ps| ==> Keeps(ps[k], MoofTimes, base)
    ensures AllBoxes(ReboxAll(ps, MoofTimes, base))
    ensures forall k :: 0 <= k < |ps| ==> MoofOk(ReboxAll(ps, MoofTimes, base)[k])
  {
    hide HeaderAt, MoofTimes, WriteAll, MoofOk, Keeps;
    forall k | 0 <= k < |ps|
      ensures Keeps(ps[k], MoofTimes, base)
      ensures IsBox(ReboxAll(ps, MoofTimes, base)[k]) && MoofOk(ReboxAll(ps, MoofTimes, base)[k])
    {
      assert MoofOk(ps[k]);
      MoofKeeps(ps[k], base);
    }
  }

  /** Patching the joined bytes at absolute offsets is rewriting box by box. */
  lemma PatchIsRebased(buf: Bytes, base: Base)
    requires SegmentOk(buf)
    ensures var ps := Kept(Parts(buf).value);
            && SegmentOk(Concat(ps)) && Parts(Concat(ps)) == Some(ps)
            && WriteAll(Concat(ps), Times(Concat(ps)), base) == Rebased(buf, base)
  {
    hide HeaderAt, MoofTimes, WriteAll, MoofOk, Keeps, Gather, Parts, Kept;
    var ps := Kept(Parts(buf).value);
    KeptOk(buf);
    PartsOfConcat(ps);
    MoofsKeep(ps, base);
    GatherWrites(ps, [], MoofTimes, base);
    assert Concat(ps) + [] == Concat(ps);
    assert Concat(ReboxAll(ps, MoofTimes, base)) + [] == Concat(ReboxAll(ps, MoofTimes, base));
  }

  /** The result has the kept boxes of the segment in order, each the same box. */
  lemma RebasedBoxes(buf: Bytes, base: Base)
    requires SegmentOk(buf)
    ensures var ps := Kept(Parts(buf).value);
            && SegmentOk(Rebased(buf, base))
            && Parts(Rebased(buf, base)) == Some(ReboxAll(ps, MoofTimes, base))
            && forall k :: 0 <= k < |ps| ==> SameBox(ps[k], Parts(Rebased(buf, base)).value[k])
  {
    hide HeaderAt, MoofTimes, MoofOk, Gather, Parts, Kept, Concat, Rebased;
    var ps := Kept(Parts(buf).value);
    KeptOk(buf);
    MoofsKeep(ps, base);
    PatchIsRebased(buf, base);
    assert Laid(Concat(ps), ps, []) by { assert Concat(ps) + [] == Concat(ps); }
    ReboxedLaid(Concat(ps), ps, [], MoofTimes, base);
    PartsOfLaid(Rebased(buf, base), ReboxAll(ps, MoofTimes, base), []);
    forall k | 0 <= k < |ps|
      ensures SameBox(ps[k], ReboxAll(ps, MoofTimes, base)[k])
    {
      assert Keeps(ps[k], MoofTimes, base);
    }
  }

  // ---- The times of the result ----

  /** `us` are the times `ts` at other offsets. */
  predicate SameTimes(ts: seq<Time>, us: seq<Time>) {
    && |us| == |ts|
    && forall k :: 0 <= k < |ts| ==> us[k] == ts[k].(off := us[k].off)
  }

  /** Boxes that are no moof carry no times. */
  lemma {:induction false} WithoutTimes(ps: seq<Bytes>, kind: Bytes, at: nat, bt: nat)
    requires AllBoxes(ps) && kind != MOOF
    ensures SameTimes(Gather(ps, MoofTimes, at), Gather(Without(ps, kind), MoofTimes, bt))
  {
    hide HeaderAt, MoofTimes, Shift;
    if |ps| > 0 {
      var p, rest := ps[0], ps[1..];
      assert IsBox(p);
      var qs := Without(rest, kind);
      var n := if Kind(p) == kind then 0 else |p|;
      WithoutTimes(rest, kind, at + |p|, bt + n);
      if Kind(p) == kind {
        NoMoof(p, at);
        assert Without(ps, kind) == qs;
        assert Gather(ps, MoofTimes, at) == Gather(rest, MoofTimes, at + |p|);
      } else {
        assert Without(ps, kind) == [p] + qs && ([p] + qs)[1..] == qs;
        SameTimesAppend(MoofTimes(p), at, bt, Gather(rest, MoofTimes, at + |p|), Gather(qs, MoofTimes, bt + |p|));
      }
    }
  }

  lemma NoMoof(p: Bytes, at: nat)
    requires IsBox(p) && Kind(p) != MOOF
    ensures Shift(MoofTimes(p), at) == []
  {
  }

  lemma SameTimesAppend(x: seq<Time>, a: nat, b: nat, y: seq<Time>, z: seq<Time>)
    requires SameTimes(y, z)
    ensures SameTimes(Shift(x, a) + y, Shift(x, b) + z)
  {
    var ts, us := Shift(x, a) + y, Shift(x, b) + z;
    forall k | 0 <= k < |ts|
      ensures us[k] == ts[k].(off := us[k].off)
    {
      if k >= |x| {
        assert us[k] == z[k - |x|] && ts[k] == y[k - |x|];
      }
    }
  }

  /** `us` are the times `ts` lowered by the base of their tracks, but never below 0. */
  predicate LoweredBy(ts: seq<Time>, us: seq<Time>, base: Base) {
    && |us| == |ts|
    && forall k :: 0 <= k < |ts| ==>
                     && us[k].track == ts[k].track && us[k].version == ts[k].version
                     && (ts[k].track !in base ==> us[k].value == ts[k].value)
                     && (ts[k].track in base && base[ts[k].track] <= ts[k].value ==>
                           us[k].value + base[ts[k].track] == ts[k].value)
                     && (ts[k].track in base && base[ts[k].track] > ts[k].value ==> us[k].value == 0)
  }

  /** tfdtsOf of the result: the old list, each value lowered by the base of its track and never below 0. */
  lemma RebasedTimes(buf: Bytes, base: Base)
    requires SegmentOk(buf)
    ensures SegmentOk(Rebased(buf, base))
    ensures SameTimes(MovedAll(Times(buf), base), Times(Rebased(buf, base)))
    ensures LoweredBy(Times(buf), Times(Rebased(buf, base)), base)
  {
    hide HeaderAt, MoofTimes, Parts, Rebased, MoofOk, Without, Gather;
    RebasedBoxes(buf, base);
    var all := Parts(buf).value;
    var some := Without(all, STYP);
    var ps := Without(some, SIDX);
    RebasedGather(buf, base);
    assert Times(Rebased(buf, base)) == MovedAll(Gather(ps, MoofTimes, 0), base);
    WithoutTimes(all, STYP, 0, 0);
    WithoutTimes(some, SIDX, 0, 0);
    MovedSame(Times(buf), Gather(ps, MoofTimes, 0), base);
    MovedIsLower(Times(buf), Times(Rebased(buf, base)), base);
  }

  lemma RebasedGather(buf: Bytes, base: Base)
    requires SegmentOk(buf)
    ensures Gather(ReboxAll(Kept(Parts(buf).value), MoofTimes, base), MoofTimes, 0) ==
            MovedAll(Gather(Kept(Parts(buf).value), MoofTimes, 0), base)
  {
    hide HeaderAt, MoofTimes, Parts, Kept, Gather, MoofOk;
    KeptOk(buf);
    MoofsKeep(Kept(Parts(buf).value), base);
    GatherMoves(Kept(Parts(buf).value), MoofTimes, base, 0);
  }

  lemma MovedIsLower(ts: seq<Time>, us: seq<Time>, base: Base)
    requires SameTimes(MovedAll(ts, base), us)
    ensures LoweredBy(ts, us, base)
  {
    forall k | 0 <= k < |ts|
      ensures us[k].track == ts[k].track && us[k].version == ts[k].version && us[k].value == Moved(ts[k], base)
    {
      assert us[k] == MovedAll(ts, base)[k].(off := us[k].off);
    }
  }

  lemma MovedSame(ts: seq<Time>, us: seq<Time>, base: Base)
    requires SameTimes(ts, us)
    ensures SameTimes(MovedAll(ts, base), MovedAll(us, base))
  {
    forall k | 0 <= k < |ts|
      ensures MovedAll(us, base)[k] == MovedAll(ts, base)[k].(off := MovedAll(us, base)[k].off)
    {
      assert us[k] == ts[k].(off := us[k].off);
    }
  }

  /** Some time of `ts` has its number over byte `i`. */
  predicate Covered(ts: seq<Time>, i: nat) {
    exists k :: 0 <= k < |ts| && ts[k].off <= i < ts[k].off + Width(ts[k].version)
  }

  lemma {:induction false} WriteAllFrame(b: Bytes, ts: seq<Time>, base: Base, i: nat)
    requires i < |b| && !Covered(ts, i)
    ensures WriteAll(b, ts, base)[i] == b[i]
    decreases |ts|
  {
    if ts != [] {
      var b' := Write(b, ts[0], base);
      assert b'[i] == b[i] by {
        hide Number;
        assert !(ts[0].off <= i < ts[0].off + Width(ts[0].version));
      }
      assert forall k :: 0 <= k < |ts[1..]| ==> ts[1..][k] == ts[k + 1];
      WriteAllFrame(b', ts[1..], base, i);
    }
  }

  /** No byte outside the numbers of the decode times differs from the kept boxes of the segment. */
  lemma RebasedElsewhere(buf: Bytes, base: Base, i: nat)
    requires SegmentOk(buf)
    ensures |Rebased(buf, base)| == |Concat(Kept(Parts(buf).value))|
    ensures SegmentOk(Concat(Kept(Parts(buf).value)))
    ensures i < |Rebased(buf, base)| && !Covered(Times(Concat(Kept(Parts(buf).value))), i) ==>
              Rebased(buf, base)[i] == Concat(Kept(Parts(buf).value))[i]
  {
    hide HeaderAt, Parts, Kept, Rebased, WriteAll, Times, Concat, MoofOk;
    PatchIsRebased(buf, base);
    var c := Concat(Kept(Parts(buf).value));
    if i < |c| && !Covered(Times(c), i) {
      WriteAllFrame(c, Times(c), base, i);
    }
  }

  // ---- firstTimes ----

  /** The first decode time of each track. */
  function FirstTimesOf(ts: seq<Time>): (m: Base)
    ensures forall x :: x in m <==> exists k :: 0 <= k < |ts| && ts[k].track == x
  {
    if ts == [] then map[] else FirstTimesOf(ts[1..])[ts[0].track := ts[0].value]
  }

  lemma {:induction false} FirstTimesAre(ts: seq<Time>, k: nat)
    requires k < |ts| && forall j :: 0 <= j < k ==> ts[j].track != ts[k].track
    ensures FirstTimesOf(ts)[ts[k].track] == ts[k].value
    decreases k
  {
    if k > 0 {
      assert ts[0].track != ts[k].track;
      FirstTimesAre(ts[1..], k - 1);
    }
  }

  /** A segment rebased by its own first times starts at 0 on every track. */
  lemma RebasedStartsAtZero(buf: Bytes)
    requires SegmentOk(buf)
    ensures var base := FirstTimesOf(Times(buf));
            && SegmentOk(Rebased(buf, base))
            && var first := FirstTimesOf(Times(Rebased(buf, base)));
            && first.Keys == base.Keys && forall x :: x in first ==> first[x] == 0
  {
    hide HeaderAt, SegmentOk, Times, Rebased;
    var ts := Times(buf);
    var base := FirstTimesOf(ts);
    RebasedTimes(buf, base);
    ZeroAtFirst(ts, Times(Rebased(buf, base)));
  }

  lemma ZeroAtFirst(ts: seq<Time>, us: seq<Time>)
    requires SameTimes(MovedAll(ts, FirstTimesOf(ts)), us)
    ensures FirstTimesOf(us).Keys == FirstTimesOf(ts).Keys
    ensures forall x :: x in FirstTimesOf(us) ==> FirstTimesOf(us)[x] == 0
  {
    var base := FirstTimesOf(ts);
    assert forall k :: 0 <= k < |ts| ==> us[k].track == ts[k].track && us[k].value == Moved(ts[k], base);
    forall x
      ensures x in FirstTimesOf(us) <==> x in base
      ensures x in FirstTimesOf(us) ==> FirstTimesOf(us)[x] == 0
    {
      if j :| 0 <= j < |ts| && ts[j].track == x {
        var k := FirstOfTrack(ts, x, j);
        assert us[k].track == x;
        FirstTimesAre(ts, k);
        FirstTimesAre(us, k);
      }
    }
  }

  lemma FirstOfTrack(ts: seq<Time>, x: int, j: nat) returns (k: nat)
    requires j < |ts| && ts[j].track == x
    ensures k < |ts| && ts[k].track == x && forall i :: 0 <= i < k ==> ts[i].track != x
  {
    k := 0;
    while ts[k].track != x
      invariant k <= j && forall i :: 0 <= i < k ==> ts[i].track != x
      decreases j - k
    {
      k := k + 1;
    }
  }
}
