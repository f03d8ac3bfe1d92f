/** The rounds of the internet quality feature (tick and report of src/inetq/inetq.js): what
    is measured goes through the aggregator and the outage detector into the report buffer. */
module QualityRun {
  import opened Bytes
  import opened Sequences
  import opened Buckets
  import Outage
  import opened QualityReport

  // ---- Samples are the completed groups ----

  ghost predicate MadeOf(produced: seq<Sample>, gs: seq<seq<Measurement>>, size: int)
    requires size > 0
  {
    |produced| == |gs| && forall k :: 0 <= k < |gs| ==> gs[k] != [] && produced[k] == Sample(k, BucketOf(gs[k], size))
  }

  lemma MadeOfNext(produced: seq<Sample>, gs: seq<seq<Measurement>>, g: seq<Measurement>, size: int)
    requires size > 0 && MadeOf(produced, gs, size) && g != []
    ensures MadeOf(produced + [Sample(|produced|, BucketOf(g, size))], gs + [g], size)
  {
    hide BucketOf;
  }

  /** One event more. */
  lemma ClosedNext(es: seq<Event>, e: Event, size: int)
    requires size > 0
    ensures var s := Next(GroupAfter(es, size), e, size);
            && GroupAfter(es + [e], size) == s.group
            && Closed(es + [e], size) == Closed(es, size) + (if s.closed.Some? then [s.closed.value] else [])
            && (s.closed.Some? ==> s.closed.value != [])
  {
    var fs := es + [e];
    assert fs[..|fs| - 1] == es && fs[|fs| - 1] == e;
  }

  /** For events in time order the times of the samples rise. */
  lemma SampleTimesRise(produced: seq<Sample>, es: seq<Event>, size: int)
    requires size > 0 && MadeOf(produced, Closed(es, size), size) && InTimeOrder(es)
    ensures RisingTimes(produced)
  {
    hide Closed, GroupAfter;
    if es == [] {
      NothingClosed(size);
    } else {
      BucketTimesRise(es, size);
      var cs := Closed(es, size);
      forall i, j | 0 <= i < j < |produced|
        ensures produced[i].bucket.t < produced[j].bucket.t
      {
        assert BucketTime(cs, i, size) < BucketTime(cs, j, size);
      }
    }
  }

  lemma NothingClosed(size: int)
    requires size > 0
    ensures Closed([], size) == [] && GroupAfter([], size) == [] && Measured([]) == []
  {
  }

  // ---- Which group a measurement is in ----

  ghost function Start(gs: seq<seq<Measurement>>, k: nat): nat
    requires k <= |gs|
  {
    |Flat(gs[..k])|
  }

  /** The measurement number `i` is in the group `k`. */
  ghost predicate InGroup(gs: seq<seq<Measurement>>, k: int, i: int) {
    0 <= k < |gs| && Start(gs, k) <= i < Start(gs, k) + |gs[k]|
  }

  lemma StartNext(gs: seq<seq<Measurement>>, k: nat)
    requires k < |gs|
    ensures Start(gs, k + 1) == Start(gs, k) + |gs[k]|
    ensures Flat(gs[..k + 1]) == Flat(gs[..k]) + gs[k]
  {
    assert gs[..k + 1][..k] == gs[..k];
  }

  lemma {:induction false} StartRises(gs: seq<seq<Measurement>>, j: nat, k: nat)
    requires j < k <= |gs|
    ensures Start(gs, j) + |gs[j]| <= Start(gs, k)
    decreases k
  {
    hide Start;
    StartNext(gs, k - 1);
    if j < k - 1 {
      StartRises(gs, j, k - 1);
    }
  }

  /** Each measurement of the groups is in exactly one of them, at its place. */
  lemma {:induction false} OneGroup(gs: seq<seq<Measurement>>, n: nat, i: nat) returns (k: nat)
    requires n <= |gs| && i < |Flat(gs[..n])|
    ensures k < n && InGroup(gs, k, i) && Flat(gs[..n])[i] == gs[k][i - Start(gs, k)]
    decreases n
  {
    assert n > 0 by { assert gs[..0] == []; }
    StartNext(gs, n - 1);
    if i < Start(gs, n - 1) {
      k := OneGroup(gs, n - 1, i);
    } else {
      k := n - 1;
    }
  }

  lemma NoOtherGroup(gs: seq<seq<Measurement>>, i: int, j: int, k: int)
    requires InGroup(gs, j, i) && InGroup(gs, k, i)
    ensures j == k
  {
    hide Start;
    if j < k {
      StartRises(gs, j, k);
    } else if k < j {
      StartRises(gs, k, j);
    }
  }

  // ---- Outages ----

  /** Every outage that is over is noted in its final form. */
  ghost predicate OversNoted(h: seq<Outage.Reading>, c: Outage.Settings, noted: map<int, Outage.Change>) {
    forall o :: o in Outage.ClosedBy(h, c) ==> o.start in noted && noted[o.start] == o
  }

  /** What the detector reports with the last reading of a history. */
  ghost function Reported(h: seq<Outage.Reading>, c: Outage.Settings): Option<Outage.Change>
    requires h != []
  {
    Outage.Next(Outage.StateAfter(h[..|h| - 1], c), h[|h| - 1], c).1
  }

  lemma OverIsSpan(h: seq<Outage.Reading>, c: Outage.Settings, o: Outage.Change) returns (s: Outage.Span)
    requires Outage.Ordered(h) && o in Outage.ClosedBy(h, c)
    ensures Outage.IsOutage(h, s, c) && o == Outage.OutageOf(h, s, c)
  {
    hide Outage.ClosedBy, Outage.Spans, Outage.OutageOf, Outage.IsOutage;
    Outage.DetectorIsExact(h, c);
    var k :| 0 <= k < |Outage.ClosedBy(h, c)| && Outage.ClosedBy(h, c)[k] == o;
    s := Outage.Spans(h, c)[k];
    assert s in Outage.Spans(h, c);
  }

  lemma SpanIsOver(h: seq<Outage.Reading>, c: Outage.Settings, s: Outage.Span)
    requires Outage.Ordered(h) && Outage.IsOutage(h, s, c)
    ensures Outage.OutageOf(h, s, c) in Outage.ClosedBy(h, c)
  {
    hide Outage.ClosedBy, Outage.Spans, Outage.OutageOf;
    Outage.DetectorIsExact(h, c);
    var k :| 0 <= k < |Outage.Spans(h, c)| && Outage.Spans(h, c)[k] == s;
    assert Outage.ClosedBy(h, c)[k] == Outage.OutageOf(h, s, c);
  }

  /** Whatever is reported after an outage is over starts later than it. */
  lemma LaterStart(h: seq<Outage.Reading>, c: Outage.Settings, o: Outage.Change)
    requires h != [] && Outage.Ordered(h) && c.confirmMs > 0 && o in Outage.ClosedBy(h[..|h| - 1], c)
             && Reported(h, c).Some?
    ensures o.start < Reported(h, c).value.start
  {
    hide Outage.ClosedBy, Outage.Next, Outage.StateAfter, Outage.Memory, Outage.RouterSeen;
    var n := |h| - 1;
    var g := h[..n];
    Outage.StateIsMemory(g, c);
    Outage.ChangeNext(h, g, c);
    var s := OverIsSpan(g, c, o);
    var i := Outage.RunStart(h, n);
    assert g[s.to].inetOk && h[s.to].inetOk;
    assert Outage.DownRun(h, i, n);
    assert s.to < i;
    assert h[s.to - 1].at - h[s.from].at >= c.confirmMs;
    assert h[s.to - 1].at <= h[i].at;
  }

  lemma NotedNext(h: seq<Outage.Reading>, c: Outage.Settings, noted: map<int, Outage.Change>)
    requires h != [] && Outage.Ordered(h) && c.confirmMs > 0 && OversNoted(h[..|h| - 1], c, noted)
    ensures var o := Reported(h, c);
            OversNoted(h, c, if o.Some? then noted[o.value.start := o.value] else noted)
  {
    hide Outage.Next, Outage.StateAfter, Reported;
    var g := h[..|h| - 1];
    ReportedIs(h, c);
    forall o | o in Outage.ClosedBy(g, c) && Reported(h, c).Some?
      ensures o.start < Reported(h, c).value.start
    {
      LaterStart(h, c, o);
    }
  }

  lemma ReportedIs(h: seq<Outage.Reading>, c: Outage.Settings)
    requires h != []
    ensures var o := Reported(h, c);
            Outage.ClosedBy(h, c) ==
            Outage.ClosedBy(h[..|h| - 1], c) + if o.Some? && o.value.end.Some? then [o.value] else []
  {
  }

  // ---- Rounds ----

  /** What one call of measure finds: it goes to the aggregator and to the detector. */
  datatype Round = Round(m: Measurement, inetOk: bool, routerDown: bool)

  function ReadingOf(r: Round): Outage.Reading {
    Outage.Reading(r.m.at, r.inetOk, r.routerDown)
  }

  /** The readings were taken when the measurements were. */
  ghost predicate SameTimes(readings: seq<Outage.Reading>, ms: seq<Measurement>) {
    |readings| == |ms| && forall k :: 0 <= k < |ms| ==> readings[k].at == ms[k].at
  }

  lemma MeasuredNext(es: seq<Event>, e: Event)
    ensures Measured(es + [e]) == Measured(es) + if e.Add? then [e.m] else []
  {
    assert (es + [e])[..|es|] == es;
  }

  ghost predicate InOrderUpTo(ms: seq<Measurement>, t: int) {
    && (forall i :: 0 <= i < |ms| ==> ms[i].at <= t)
    && forall i, j :: 0 <= i < j < |ms| ==> ms[i].at <= ms[j].at
  }

  lemma {:induction false} MeasuredInOrder(es: seq<Event>, t: int)
    requires InTimeOrder(es) && (es != [] ==> TimeOf(es[|es| - 1]) <= t)
    ensures InOrderUpTo(Measured(es), t)
    decreases |es|
  {
    if es != [] {
      var n := |es| - 1;
      assert n > 0 ==> TimeOf(es[n - 1]) <= TimeOf(es[n]);
      MeasuredInOrder(es[..n], TimeOf(es[n]));
    }
  }

  lemma ReadingsInOrder(readings: seq<Outage.Reading>, es: seq<Event>)
    requires SameTimes(readings, Measured(es)) && InTimeOrder(es)
    ensures Outage.Ordered(readings)
  {
    hide Measured, InTimeOrder;
    MeasuredInOrder(es, if es == [] then 0 else TimeOf(es[|es| - 1]));
  }

  // ---- The feature ----

  class Quality {
    const agg: Aggregator
    const detector: Outage.Detector
    const buffer: Buffer

    /** What was measured, when the aggregator was flushed, and the readings of the detector. */
    ghost var events: seq<Event>
    ghost var readings: seq<Outage.Reading>

    ghost predicate Valid()
      reads this, agg, detector, buffer
    {
      && agg.Valid() && buffer.Valid()
      && agg.group == GroupAfter(events, agg.size) && MadeOf(buffer.produced, Closed(events, agg.size), agg.size)
      && SameTimes(readings, Measured(events))
      && Watched()
    }

    /** The detector is where the readings take it, and the outages that are over are noted. */
    ghost predicate Watched()
      reads this, detector, buffer
    {
      && detector.Now() == Outage.StateAfter(readings, detector.settings)
      && (Outage.Ordered(readings) && detector.settings.confirmMs > 0 ==>
            OversNoted(readings, detector.settings, buffer.noted))
    }

    constructor (size: int, settings: Outage.Settings)
      requires size > 0
      ensures Valid() && fresh(agg) && fresh(detector) && fresh(buffer) && events == [] && readings == []
      ensures agg.size == size && detector.settings == settings && buffer.Empty()
    {
      var a := new Aggregator(size);
      var d := new Outage.Detector(settings);
      var b := new Buffer();
      agg, detector, buffer := a, d, b;
      events, readings := [], [];
      NothingClosed(size);
    }

    /** A closed bucket becomes a sample; the oldest sample goes only if there is no room. */
    method Store(e: Event, closed: Option<Bucket>)
      requires buffer.Valid() && agg.size > 0
      requires MadeOf(buffer.produced, Closed(events, agg.size), agg.size)
      requires var s := Next(GroupAfter(events, agg.size), e, agg.size);
               closed ==
               if s.closed.Some? && s.closed.value != [] then Some(BucketOf(s.closed.value, agg.size)) else None
      modifies this`events, buffer`samples, buffer`made, buffer`produced, buffer`dropped
      ensures events == old(events) + [e] && buffer.Valid()
      ensures MadeOf(buffer.produced, Closed(events, agg.size), agg.size)
      ensures Stored(old(buffer.samples), buffer.samples, old(buffer.dropped), buffer.dropped, closed,
              |old(buffer.produced)|)
    {
      hide Closed, GroupAfter, Next, BucketOf, Buffer.Valid, MadeOf;
      ClosedNext(events, e, agg.size);
      if closed.Some? {
        MadeOfNext(buffer.produced, Closed(events, agg.size),
                   Next(GroupAfter(events, agg.size), e, agg.size).closed.value, agg.size);
        buffer.AddSample(closed.value);
      } else {
        assert Closed(events, agg.size) + [] == Closed(events, agg.size);
      }
      events := events + [e];
    }

    /** What the detector reports goes into the buffer. */
    method Watch(x: Outage.Reading) returns (change: Option<Outage.Change>)
      requires buffer.Valid() && Watched()
      modifies this`readings, detector, buffer`outages, buffer`order, buffer`noted, buffer`forgotten
      ensures buffer.Valid() && Watched() && readings == old(readings) + [x]
      ensures change == Reported(readings, detector.settings)
      ensures Line(buffer.order, buffer.outages) ==
              if change.None? then Line(old(buffer.order), old(buffer.outages))
              else Note(Line(old(buffer.order), old(buffer.outages)), change.value)
      ensures |old(buffer.order)| < 200 ==> buffer.forgotten <= old(buffer.forgotten)
    {
      hide Buffer.Valid, Outage.Next, Outage.StateAfter, OversNoted, Note, GoneFor;
      ghost var h := readings + [x];
      change := detector.Observe(x);
      Reads(readings, x, detector.settings);
      if Outage.Ordered(h) && detector.settings.confirmMs > 0 {
        NotedNext(h, detector.settings, buffer.noted);
      }
      if change.Some? {
        buffer.AddOutage(change.value);
      }
      readings := h;
    }

    /** A round with a measurement: the bucket it closes and the outage it changes go into the buffer. */
    method Measure(r: Round) returns (closed: Option<Bucket>, change: Option<Outage.Change>)
      requires Valid()
      modifies this`events, this`readings, agg, detector, buffer`samples, buffer`made, buffer`produced, buffer`dropped
      modifies buffer`outages, buffer`order, buffer`noted, buffer`forgotten
      ensures Valid() && events == old(events) + [Add(r.m)] && readings == old(readings) + [ReadingOf(r)]
      ensures Stored(old(buffer.samples), buffer.samples, old(buffer.dropped), buffer.dropped, closed,
              |old(buffer.produced)|)
      ensures change == Reported(readings, detector.settings)
      ensures Line(buffer.order, buffer.outages) ==
              if change.None? then Line(old(buffer.order), old(buffer.outages))
              else Note(Line(old(buffer.order), old(buffer.outages)), change.value)
      ensures |old(buffer.order)| < 200 ==> buffer.forgotten <= old(buffer.forgotten)
    {
      hide Closed, GroupAfter, Next, BucketOf, Buffer.Valid, MadeOf, Outage.Next, Outage.StateAfter, OversNoted,
          Measured;
      hide Stored, Note, GoneFor;
      ClosedNext(events, Add(r.m), agg.size);
      MeasuredNext(events, Add(r.m));
      closed := agg.Push(r.m);
      Store(Add(r.m), closed);
      change := Watch(ReadingOf(r));
    }

    /** A round during a speed test: only the aggregator looks at the clock. */
    method Wait(now: int) returns (closed: Option<Bucket>)
      requires Valid()
      modifies this`events, agg, buffer`samples, buffer`made, buffer`produced, buffer`dropped
      ensures Valid() && events == old(events) + [Flush(now)]
      ensures Stored(old(buffer.samples), buffer.samples, old(buffer.dropped), buffer.dropped, closed,
              |old(buffer.produced)|)
    {
      hide Closed, GroupAfter, Next, BucketOf, Buffer.Valid, MadeOf, OversNoted, Measured, Stored;
      ClosedNext(events, Flush(now), agg.size);
      MeasuredNext(events, Flush(now));
      assert Measured(events) + [] == Measured(events);
      closed := agg.Lapse(now);
      Store(Flush(now), closed);
    }

    /** A speed test is over. */
    method Tested(w: Speedtest)
      requires Valid()
      modifies buffer`tests, buffer`tested
      ensures Valid()
      ensures var all := old(buffer.tests) + [Test(old(buffer.tested), w)];
              buffer.tests == all[if |old(buffer.tests)| == 50 then 1 else 0..]
    {
      hide Buffer.Valid, MadeOf, OversNoted;
      buffer.AddTest(w);
    }

    /** A post with the oldest samples, all outages and all speed tests is sent. */
    method Report() returns (p: Post)
      requires Valid() && buffer.post.None?
      modifies buffer`post
      ensures Valid() && buffer.post == Some(p)
      ensures p.samples == buffer.samples[..if |buffer.samples| < 600 then |buffer.samples| else 600]
      ensures p.outages == buffer.outages && p.tests == buffer.tests
    {
      hide Buffer.Valid, MadeOf, OversNoted;
      p := buffer.Begin();
    }

    /** The post is answered; what it held is acknowledged or stays. */
    method Answer(ok: bool)
      requires Valid() && buffer.post.Some?
      modifies buffer
      ensures Valid() && buffer.post.None? && buffer.produced == old(buffer.produced)
              && buffer.noted == old(buffer.noted)
      ensures buffer.forgotten == old(buffer.forgotten)
      ensures !ok ==> && buffer.samples == old(buffer.samples) && buffer.outages == old(buffer.outages)
                      && buffer.tests == old(buffer.tests) && buffer.delivered == old(buffer.delivered)
                      && buffer.dropped == old(buffer.dropped) && buffer.lost == old(buffer.lost)
                         && buffer.told == old(buffer.told)
      ensures ok ==>
                var p := old(buffer.post).value;
                && buffer.samples == Unsent(old(buffer.samples), p.samples)
                && buffer.delivered == old(buffer.delivered) + SetOf(p.samples)
                && buffer.dropped == old(buffer.dropped) - SetOf(p.samples)
                && buffer.lost == old(buffer.lost) + Twins(old(buffer.samples), p.samples)
                && buffer.outages == NotAsSent(old(buffer.outages), p.outages)
                && buffer.told == old(buffer.told) + p.outages.Values
                && buffer.tests == Others(old(buffer.tests), p.tests)
    {
      hide Buffer.Valid, MadeOf, OversNoted, Unsent, Twins, NotAsSent, Others, SetOf, Remaining;
      buffer.Answered(ok);
    }
  }

  /** What a closed bucket does to the samples: one more, and the oldest given up if there is no room. */
  ghost predicate Stored(before: seq<Sample>, now: seq<Sample>, was: set<Sample>, dropped: set<Sample>,
                         closed: Option<Bucket>, n: nat) {
    if closed.None? then now == before && dropped == was
    else
      var all := before + [Sample(n, closed.value)];
      if |all| > 2016 then now == all[1..] && dropped == was + {all[0]} else now == all && dropped == was
  }

  lemma Reads(h: seq<Outage.Reading>, r: Outage.Reading, c: Outage.Settings)
    ensures var hr := h + [r];
            && hr[..|hr| - 1] == h && hr[|hr| - 1] == r && (Outage.Ordered(hr) ==> Outage.Ordered(h))
            && Outage.StateAfter(hr, c) == Outage.Next(Outage.StateAfter(h, c), r, c).0
            && Reported(hr, c) == Outage.Next(Outage.StateAfter(h, c), r, c).1
  {
    var hr := h + [r];
    assert hr[..|h|] == h;
    if Outage.Ordered(hr) {
      assert forall i :: 0 <= i < |h| ==> hr[i] == h[i];
    }
  }

  // ---- Nothing is lost ----

  /** What can have become of a sample. */
  datatype Fate = Waiting | Delivered | Dropped | Lost

  ghost predicate HasFate(b: Buffer, s: Sample, f: Fate)
    reads b
  {
    match f
    case Waiting => s in b.samples
    case Delivered => s in b.delivered
    case Dropped => s in b.dropped
    case Lost => s in b.lost
  }

  lemma FateOf(b: Buffer, s: Sample) returns (f: Fate)
    requires b.Valid() && s in b.produced
    ensures HasFate(b, s, f) && forall g :: HasFate(b, s, g) ==> g == f
  {
    hide RisingIds, RisingTimes, Numbered, OutagesOk, MadeBefore;
    assert s in SetOf(b.produced);
    assert forall x :: x in b.samples <==> x in SetOf(b.samples);
    f := if s in b.samples then Waiting else if s in b.delivered then Delivered
         else if s in b.dropped then Dropped else Lost;
  }

  /** In every run each measurement is in the open bucket or in exactly one sample, and that sample
      waits, was acknowledged, was given up for lack of room, or was taken out with a sent sample of
      the same time: one of these. It is given up only after as many newer buckets were closed as the
      buffer holds, and for events in time order the last does not happen. */
  lemma EveryMeasurement(q: Quality, i: nat)
    requires q.Valid() && i < |Measured(q.events)|
    ensures var gs, m := Closed(q.events, q.agg.size), Measured(q.events)[i];
            if i >= |Flat(gs)|
            then i - |Flat(gs)| < |q.agg.group| && q.agg.group[i - |Flat(gs)|] == m && forall k :: !InGroup(gs, k, i)
            else exists k, f ::
                   && InGroup(gs, k, i) && gs[k][i - Start(gs, k)] == m && (forall j :: InGroup(gs, j, i) ==> j == k)
                   && k < |q.buffer.produced| && q.buffer.produced[k].bucket == BucketOf(gs[k], q.agg.size)
                   && HasFate(q.buffer, q.buffer.produced[k], f)
                      && (forall g :: HasFate(q.buffer, q.buffer.produced[k], g) ==> g == f)
                   && (InTimeOrder(q.events) ==> f != Lost)
                   && (f == Dropped ==> k + 2016 < |gs|)
  {
    hide Closed, GroupAfter, Measured, BucketOf, Buffer.Valid, OversNoted, HasFate, Flat, InTimeOrder,
        Outage.StateAfter;
    var gs := Closed(q.events, q.agg.size);
    MeasurementsConserved(q.events, q.agg.size);
    if i >= |Flat(gs)| {
      BehindAll(gs, i);
    } else {
      assert gs[..|gs|] == gs;
      var k := OneGroup(gs, |gs|, i);
      forall j | InGroup(gs, j, i)
        ensures j == k
      {
        NoOtherGroup(gs, i, j, k);
      }
      var f := FateOf(q.buffer, q.buffer.produced[k]);
      NoneLost(q, q.buffer.produced[k], f);
    }
  }

  lemma BehindAll(gs: seq<seq<Measurement>>, i: nat)
    requires i >= |Flat(gs)|
    ensures forall k :: !InGroup(gs, k, i)
  {
    hide Flat;
    forall k | 0 <= k < |gs|
      ensures Start(gs, k) + |gs[k]| <= |Flat(gs)|
    {
      StartRises(gs, k, |gs|);
      assert gs[..|gs|] == gs;
    }
  }

  lemma NoneLost(q: Quality, s: Sample, f: Fate)
    requires q.Valid() && HasFate(q.buffer, s, f)
    ensures InTimeOrder(q.events) ==> f != Lost
    ensures f == Dropped ==> s.id + 2016 < |q.buffer.produced|
  {
    hide Closed, GroupAfter, BucketOf, RisingTimes, OutagesOk, OversNoted, InTimeOrder, Measured;
    if InTimeOrder(q.events) {
      SampleTimesRise(q.buffer.produced, q.events, q.agg.size);
    }
  }

  /** In every run with events in time order each outage of the history, in its final form, waits,
      was acknowledged, or was given up for lack of room, and that only if there have been more
      outages than the buffer holds. */
  lemma EveryOutage(q: Quality, s: Outage.Span)
    requires q.Valid() && InTimeOrder(q.events) && q.detector.settings.confirmMs > 0
    requires Outage.IsOutage(q.readings, s, q.detector.settings)
    ensures var o := Outage.OutageOf(q.readings, s, q.detector.settings);
            || (o.start in q.buffer.outages && q.buffer.outages[o.start] == o)
            || o in q.buffer.told
            || (o.start in q.buffer.forgotten && |q.buffer.noted| > 200)
  {
    hide Closed, GroupAfter, BucketOf, MadeOf, SamplesOk, LineOk, Outage.ClosedBy, Outage.OutageOf, Outage.IsOutage;
    hide Measured, InTimeOrder;
    ReadingsInOrder(q.readings, q.events);
    SpanIsOver(q.readings, q.detector.settings, s);
    SpanBounds(q.readings, q.detector.settings, s);
    var o := Outage.OutageOf(q.readings, s, q.detector.settings);
    assert Kept(q.buffer.outages, o.start, o, q.buffer.told, q.buffer.forgotten);
  }

  lemma SpanBounds(h: seq<Outage.Reading>, c: Outage.Settings, s: Outage.Span)
    requires Outage.IsOutage(h, s, c)
    ensures s.from < s.to < |h|
  {
  }
}
