/** The loops of tfdtsOf, firstTimes and rebase (src/cameras/fmp4.js) on one
    buffer with absolute offsets, proved against the box-by-box form. */
module Mp4Rebase {
  import opened Bytes
  import opened Mp4Boxes
  import opened Mp4Init
  import opened Mp4Segment

  lemma ReadInSlice(buf: Bytes, a: nat, b: nat, i: nat, version: byte)
    requires a <= b <= |buf| && a + i + Width(version) <= b
    ensures GetNumber(buf[a..b], i, version) == GetNumber(buf, a + i, version)
  {
    var s := buf[a..b];
    assert forall k :: 0 <= k < |s| ==> s[k] == buf[a + k];
  }

  /** The box `b` of the program is the bytes `p`. */
  predicate IsAt(buf: Bytes, b: Box, p: Bytes) {
    && IsBox(p) && b.End() <= |buf| && buf[b.start..b.End()] == p
    && b.body == b.start + Head(p) && b.kind == Kind(p) && buf[b.body..b.End()] == Body(p)
  }

  lemma AgreeIsAt(buf: Bytes, i: nat, end: nat, bs: seq<Box>, ps: seq<Bytes>, k: nat)
    requires Agree(buf, i, end, bs, ps) && k < |bs|
    ensures |bs| == |ps| && IsAt(buf, bs[k], ps[k]) && bs[k].start == i + Before(ps, k)
  {
    hide HeaderAt;
    AgreesAt(buf, i, end, bs, ps, k);
  }

  /** The fields of tfhd and tfdt, read from the whole buffer, are those in the boxes. */
  lemma FieldsAt(buf: Bytes, hb: Box, db: Box, tfhd: Bytes, tfdt: Bytes, at: nat)
    requires IsAt(buf, hb, tfhd) && IsAt(buf, db, tfdt) && FullFields(tfhd, tfdt) && at <= db.start
    ensures db.body < |buf| && hb.body + 8 <= |buf| && db.body + 4 + Width(buf[db.body]) <= |buf|
    ensures Shift([TimeOf(db.start - at, tfhd, tfdt)], at) ==
            [Time(GetU32(buf, hb.body + 4), db.body + 4, buf[db.body], GetNumber(buf, db.body + 4, buf[db.body]))]
  {
    hide HeaderAt;
    var n := Head(tfdt);
    assert tfdt[n] == buf[db.start + n];
    ReadInSlice(buf, db.start, db.End(), n + 4, tfdt[n]);
    ReadInSlice(buf, hb.start, hb.End(), Head(tfhd) + 4, 0);
  }

  /** One traf; None where a read would leave the buffer or a box is malformed. */
  method TrafOf(buf: Bytes, traf: Box, ghost p: Bytes) returns (r: Option<seq<Time>>)
    requires IsAt(buf, traf, p) && traf.kind == TRAF
    ensures r.Some? ==> AllInRange(r.value, |buf|)
    ensures TrafOk(p) ==> r == Some(Shift(TrafTimes(p), traf.start))
  {
    hide HeaderAt, Walk, Parts, Agree, First, GetU32, GetNumber, FullFields;
    WalkIsPlacedParts(buf, traf.body, traf.End());
    var kids :- Boxes(buf, traf.body, traf.End());
    WalkAgrees(buf, traf.body, traf.End());
    ghost var ps := Parts(Body(p)).value;
    SameLength(buf, traf.body, traf.End(), kids, ps);
    var h := FindBox(kids, TFHD);
    FirstAgrees(buf, traf.body, traf.End(), kids, ps, TFHD, h);
    var d := FindBox(kids, TFDT);
    FirstAgrees(buf, traf.body, traf.End(), kids, ps, TFDT, d);
    if h == |kids| || d == |kids| {
      return Some([]);
    }
    if TrafOk(p) {
      AgreeIsAt(buf, traf.body, traf.End(), kids, ps, h);
      AgreeIsAt(buf, traf.body, traf.End(), kids, ps, d);
      FieldsAt(buf, kids[h], kids[d], ps[h], ps[d], traf.start);
    }
    r := ReadTime(buf, kids[h], kids[d]);
  }

  method ReadTime(buf: Bytes, tfhd: Box, tfdt: Box) returns (r: Option<seq<Time>>)
    ensures r.Some? ==> AllInRange(r.value, |buf|)
    ensures tfdt.body < |buf| && tfhd.body + 8 <= |buf| && tfdt.body + 4 + Width(buf[tfdt.body]) <= |buf| ==>
              r == Some([Time(GetU32(buf, tfhd.body + 4), tfdt.body + 4, buf[tfdt.body],
                              GetNumber(buf, tfdt.body + 4, buf[tfdt.body]))])
  {
    if tfdt.body >= |buf| {
      return None;
    }
    var version := buf[tfdt.body];
    var off := tfdt.body + 4;
    if off + Width(version) > |buf| || tfhd.body + 8 > |buf| {
      return None;
    }
    r := Some([Time(GetU32(buf, tfhd.body + 4), off, version, GetNumber(buf, off, version))]);
  }

  /** Taking the times of box `j` off a list that is still to be gathered. */
  lemma GatherNext(ps: seq<Bytes>, j: nat, f: Bytes -> seq<Time>, at: nat, out: seq<Time>)
    requires j < |ps|
    ensures out + Gather(ps[j..], f, at) == (out + Shift(f(ps[j]), at)) + Gather(ps[j + 1..], f, at + |ps[j]|)
  {
    assert ps[j..][0] == ps[j] && ps[j..][1..] == ps[j + 1..];
  }

  method MoofOf(buf: Bytes, moof: Box, ghost p: Bytes) returns (r: Option<seq<Time>>)
    requires IsAt(buf, moof, p) && moof.kind == MOOF
    ensures r.Some? ==> AllInRange(r.value, |buf|)
    ensures MoofOk(p) ==> r == Some(Shift(MoofTimes(p), moof.start))
  {
    hide HeaderAt, Walk, Parts, Agree, Gather, TrafOk, TrafTimes, InRange, Shift, IsAt;
    IsAtBody(buf, moof, p);
    WalkIsPlacedParts(buf, moof.body, moof.End());
    var kids :- Boxes(buf, moof.body, moof.End());
    WalkAgrees(buf, moof.body, moof.End());
    ghost var ps := Parts(Body(p)).value;
    SameLength(buf, moof.body, moof.End(), kids, ps);
    var out := [];
    ghost var ok := MoofOk(p);
    GatherStart(ps, moof.body);
    for j := 0 to |kids|
      invariant AllInRange(out, |buf|)
      invariant ok ==> out + Gather(ps[j..], TrafTimes, moof.body + Before(ps, j)) == Gather(ps, TrafTimes, moof.body)
    {
      AgreeIsAt(buf, moof.body, moof.End(), kids, ps, j);
      GatherNext(ps, j, TrafTimes, moof.body + Before(ps, j), out);
      BeforeNext(ps, j);
      IsAtBody(buf, kids[j], ps[j]);
      if kids[j].kind == TRAF {
        assert ok ==> KidOk(ps[j]);
        var ts := TrafOf(buf, kids[j], ps[j]);
        if ts.None? {
          return None;
        }
        out := out + ts.value;
      } else {
        NoTraf(ps[j], moof.body + Before(ps, j), out);
      }
    }
    GatherEnd(ps, moof.body + Before(ps, |ps|), out);
    if ok {
      GatherShift(ps, TrafTimes, Head(p), moof.start);
    }
    r := Some(out);
  }

  lemma IsAtBody(buf: Bytes, b: Box, p: Bytes)
    requires IsAt(buf, b, p)
    ensures IsBox(p) && b.body <= b.End() <= |buf| && buf[b.body..b.End()] == Body(p)
    ensures b.body == b.start + Head(p) && b.kind == Kind(p) && b.size == |p|
  {
  }

  lemma NoTraf(p: Bytes, at: nat, out: seq<Time>)
    requires IsBox(p) && Kind(p) != TRAF
    ensures out + Shift(TrafTimes(p), at) == out
  {
  }

  lemma GatherStart(ps: seq<Bytes>, at: nat)
    ensures ps[0..] == ps && Before(ps, 0) == 0
    ensures forall f: Bytes -> seq<Time> :: [] + Gather(ps[0..], f, at) == Gather(ps, f, at)
  {
    ConcatNone(ps);
    assert ps[0..] == ps;
  }

  lemma GatherEnd(ps: seq<Bytes>, at: nat, out: seq<Time>)
    ensures forall f: Bytes -> seq<Time> :: out + Gather(ps[|ps|..], f, at) == out
  {
  }

  /** tfdtsOf: for every segment that can be read down to its decode times, in order. */
  method TfdtsOf(buf: Bytes) returns (r: Option<seq<Time>>)
    ensures r.Some? ==> AllInRange(r.value, |buf|)
    ensures SegmentOk(buf) ==> r == Some(Times(buf))
  {
    hide HeaderAt, Walk, Parts, Agree, Gather, MoofOk, MoofTimes, InRange, Shift, IsAt;
    assert buf[0..|buf|] == buf;
    WalkIsPlacedParts(buf, 0, |buf|);
    var top :- Boxes(buf, 0, |buf|);
    WalkAgrees(buf, 0, |buf|);
    ghost var ps := Parts(buf).value;
    SameLength(buf, 0, |buf|, top, ps);
    var out := [];
    ghost var ok := SegmentOk(buf);
    GatherStart(ps, 0);
    for j := 0 to |top|
      invariant AllInRange(out, |buf|)
      invariant ok ==> out + Gather(ps[j..], MoofTimes, 0 + Before(ps, j)) == Gather(ps, MoofTimes, 0)
    {
      AgreeIsAt(buf, 0, |buf|, top, ps, j);
      GatherNext(ps, j, MoofTimes, 0 + Before(ps, j), out);
      BeforeNext(ps, j);
      IsAtBody(buf, top[j], ps[j]);
      if top[j].kind == MOOF {
        assert ok ==> MoofOk(ps[j]);
        var ts := MoofOf(buf, top[j], ps[j]);
        if ts.None? {
          return None;
        }
        out := out + ts.value;
      } else {
        NoMoof(ps[j], Before(ps, j));
      }
    }
    GatherEnd(ps, 0 + Before(ps, |ps|), out);
    r := Some(out);
  }

  method FirstTimes(ts: seq<Time>) returns (m: Base)
    ensures m == FirstTimesOf(ts)
  {
    m := map[];
    assert ts[0..] == ts;
    for j := 0 to |ts|
      invariant FirstTimesOf(ts) == FirstTimesOf(ts[j..]) + m
    {
      TakeFirst(ts, j, m);
      if ts[j].track !in m {
        m := m[ts[j].track := ts[j].value];
      }
    }
    assert ts[|ts|..] == [];
  }

  lemma TakeFirst(ts: seq<Time>, j: nat, m: Base)
    requires j < |ts|
    ensures FirstTimesOf(ts[j..]) + m ==
            FirstTimesOf(ts[j + 1..]) + if ts[j].track in m then m else m[ts[j].track := ts[j].value]
  {
    assert ts[j..][0] == ts[j] && ts[j..][1..] == ts[j + 1..];
  }

  // ---- Patching the buffer in place ----

  /** The boxes of the segment other than styp and sidx, as they are. */
  method CutKept(buf: Bytes, bs: seq<Box>, ghost ps: seq<Bytes>) returns (out: seq<Bytes>)
    requires Agree(buf, 0, |buf|, bs, ps)
    ensures out == Kept(ps)
  {
    hide HeaderAt, Agree, IsAt;
    out := [];
    SameLength(buf, 0, |buf|, bs, ps);
    assert ps[0..] == ps;
    for j := 0 to |bs|
      invariant out + Kept(ps[j..]) == Kept(ps)
    {
      AgreeIsAt(buf, 0, |buf|, bs, ps, j);
      IsAtBytes(buf, bs[j], ps[j]);
      KeptNext(ps, j, out);
      if bs[j].kind != STYP && bs[j].kind != SIDX {
        out := out + [buf[bs[j].start..bs[j].End()]];
      }
    }
  }

  lemma IsAtBytes(buf: Bytes, b: Box, p: Bytes)
    requires IsAt(buf, b, p)
    ensures b.End() <= |buf| && buf[b.start..b.End()] == p && |p| >= 8 && b.kind == Kind(p)
  {
  }

  lemma KeptNext(ps: seq<Bytes>, j: nat, out: seq<Bytes>)
    requires AllBoxes(ps) && j < |ps|
    ensures out + Kept(ps[j..]) ==
            (if Kind(ps[j]) != STYP && Kind(ps[j]) != SIDX then out + [ps[j]] else out) + Kept(ps[j + 1..])
  {
    hide HeaderAt;
    var rest := Without(ps[j + 1..], STYP);
    assert ps[j..][0] == ps[j] && ps[j..][1..] == ps[j + 1..];
    if Kind(ps[j]) == STYP {
      assert Without(ps[j..], STYP) == rest;
    } else {
      assert Without(ps[j..], STYP) == [ps[j]] + rest && ([ps[j]] + rest)[1..] == rest;
    }
  }

  /** rebase: for every segment whose decode times can be read, the in-place
      program makes exactly the segment rebased box by box. */
  method Rebase(buf: Bytes, base: Base) returns (r: Option<Bytes>)
    ensures SegmentOk(buf) ==> r == Some(Rebased(buf, base))
  {
    hide HeaderAt, Walk, Parts, Agree, MoofOk, Kept, Rebased, Times, Concat;
    assert buf[0..|buf|] == buf;
    WalkIsPlacedParts(buf, 0, |buf|);
    var top :- Boxes(buf, 0, |buf|);
    WalkAgrees(buf, 0, |buf|);
    ghost var ps := Parts(buf).value;
    var keep := CutKept(buf, top, ps);
    var joined := Concat(keep);
    if SegmentOk(buf) {
      PatchIsRebased(buf, base);
    }
    var times := TfdtsOf(joined);
    if times.None? {
      return None;
    }
    var bytes := Patch(joined, times.value, base);
    r := Some(bytes);
  }

  method Patch(joined: Bytes, ts: seq<Time>, base: Base) returns (r: Bytes)
    requires AllInRange(ts, |joined|)
    ensures r == WriteAll(joined, ts, base)
  {
    hide Number, Splice;
    var out := new byte[|joined|](i requires 0 <= i < |joined| => joined[i]);
    assert out[..] == joined;
    assert ts[0..] == ts;
    for j := 0 to |ts|
      invariant out.Length == |joined|
      invariant WriteAll(out[..], ts[j..], base) == WriteAll(joined, ts, base)
    {
      var t := ts[j];
      assert InRange(t, |joined|);
      assert ts[j..][0] == t && ts[j..][1..] == ts[j + 1..];
      if t.track in base {
        var v := if t.value < base[t.track] then 0 else t.value - base[t.track];
        Overwrite(out, t.off, Number(t.version, v));
      }
    }
    r := out[..];
  }
}
