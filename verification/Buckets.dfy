/** The aggregator of the internet quality feature (Aggregator of
    src/inetq/aggregate.js): measurements are collected into buckets of equal
    length, and a bucket is handed out when time has left it. */
module Buckets {
  import opened Bytes

  datatype Measurement = Measurement(at: int, router: Option<int>, inet: Option<int>, server: Option<int>,
                                     sent: nat, received: nat)

  /** What a bucket collects; its averages and loss are computed from these. */
  datatype Bucket = Bucket(t: int, router: seq<int>, inet: seq<int>, server: seq<int>, sent: nat, received: nat, n: nat)

  /** The start of the bucket that holds a time. */
  function Slot(at: int, size: int): int
    requires size > 0
  {
    at / size * size
  }

  // ---- The bucket of a group of measurements ----

  function Present(xs: seq<Option<int>>): seq<int> {
    if xs == [] then [] else
    Present(xs[..|xs| - 1]) + if xs[|xs| - 1].Some? then [xs[|xs| - 1].value] else []
  }

  function Sum(xs: seq<nat>): nat {
    if xs == [] then 0 else Sum(xs[..|xs| - 1]) + xs[|xs| - 1]
  }

  function Column<T>(g: seq<Measurement>, f: Measurement -> T): (r: seq<T>)
    ensures |r| == |g|
  {
    seq(|g|, i requires 0 <= i < |g| => f(g[i]))
  }

  /** Every measurement of the group counted once. */
  function BucketOf(g: seq<Measurement>, size: int): Bucket
    requires g != [] && size > 0
  {
    Bucket(Slot(g[0].at, size), Present(Column(g, (m: Measurement) => m.router)),
           Present(Column(g, (m: Measurement) => m.inet)),
           Present(Column(g, (m: Measurement) => m.server)), Sum(Column(g, (m: Measurement) => m.sent)),
           Sum(Column(g, (m: Measurement) => m.received)), |g|)
  }

  lemma ColumnAppend<T>(g: seq<Measurement>, m: Measurement, f: Measurement -> T)
    ensures Column(g + [m], f) == Column(g, f) + [f(m)]
  {
  }

  lemma PresentAppend(xs: seq<Option<int>>, x: Option<int>)
    ensures Present(xs + [x]) == Present(xs) + if x.Some? then [x.value] else []
  {
    assert (xs + [x])[..|xs|] == xs;
  }

  lemma SumAppend(xs: seq<nat>, x: nat)
    ensures Sum(xs + [x]) == Sum(xs) + x
  {
    assert (xs + [x])[..|xs|] == xs;
  }

  function Values(x: Option<int>): seq<int> {
    if x.Some? then [x.value] else []
  }

  /** A bucket with one more measurement. */
  function Grown(b: Bucket, m: Measurement): Bucket {
    Bucket(b.t, b.router + Values(m.router), b.inet + Values(m.inet), b.server + Values(m.server),
           b.sent + m.sent, b.received + m.received, b.n + 1)
  }

  lemma BucketGrows(g: seq<Measurement>, m: Measurement, size: int)
    requires g != [] && size > 0
    ensures BucketOf(g + [m], size) == Grown(BucketOf(g, size), m)
  {
    ColumnAppend(g, m, (m: Measurement) => m.router);
    ColumnAppend(g, m, (m: Measurement) => m.inet);
    ColumnAppend(g, m, (m: Measurement) => m.server);
    ColumnAppend(g, m, (m: Measurement) => m.sent);
    ColumnAppend(g, m, (m: Measurement) => m.received);
    PresentAppend(Column(g, (m: Measurement) => m.router), m.router);
    PresentAppend(Column(g, (m: Measurement) => m.inet), m.inet);
    PresentAppend(Column(g, (m: Measurement) => m.server), m.server);
    SumAppend(Column(g, (m: Measurement) => m.sent), m.sent);
    SumAppend(Column(g, (m: Measurement) => m.received), m.received);
  }

  lemma BucketStarts(m: Measurement, size: int)
    requires size > 0
    ensures BucketOf([m], size) == Grown(Bucket(Slot(m.at, size), [], [], [], 0, 0, 0), m)
  {
    assert forall f: Measurement -> Option<int> :: Column([m], f) == [] + [f(m)];
    assert forall f: Measurement -> nat :: Column([m], f) == [] + [f(m)];
    PresentAppend([], m.router);
    PresentAppend([], m.inet);
    PresentAppend([], m.server);
    SumAppend([], m.sent);
    SumAppend([], m.received);
  }

  // ---- Events and groups ----

  datatype Event = Add(m: Measurement) | Flush(now: int)

  function TimeOf(e: Event): int {
    match e
    case Add(m) => m.at
    case Flush(now) => now
  }

  datatype Step = Step(group: seq<Measurement>, closed: Option<seq<Measurement>>)

  /** The group being collected ([] for none) and the one that an event completes. */
  function Next(g: seq<Measurement>, e: Event, size: int): Step
    requires size > 0
  {
    match e
    case Add(m) =>
      if g != [] && Slot(g[0].at, size) != Slot(m.at, size) then Step([m], Some(g)) else Step(g + [m], None)
    case Flush(now) =>
      if g != [] && now >= Slot(g[0].at, size) + size then Step([], Some(g)) else Step(g, None)
  }

  function GroupAfter(es: seq<Event>, size: int): seq<Measurement>
    requires size > 0
  {
    if es == [] then [] else Next(GroupAfter(es[..|es| - 1], size), es[|es| - 1], size).group
  }

  /** The completed groups, in order. */
  function Closed(es: seq<Event>, size: int): seq<seq<Measurement>>
    requires size > 0
  {
    if es == [] then [] else
    var c := Next(GroupAfter(es[..|es| - 1], size), es[|es| - 1], size).closed;
    Closed(es[..|es| - 1], size) + if c.Some? then [c.value] else []
  }

  function Measured(es: seq<Event>): seq<Measurement> {
    if es == [] then [] else
    Measured(es[..|es| - 1]) + if es[|es| - 1].Add? then [es[|es| - 1].m] else []
  }

  function Flat(gs: seq<seq<Measurement>>): seq<Measurement> {
    if gs == [] then [] else Flat(gs[..|gs| - 1]) + gs[|gs| - 1]
  }

  class Aggregator {
    const size: int
    var cur: Option<Bucket>
    ghost var group: seq<Measurement>

    /** The bucket being filled is that of the group collected so far. */
    ghost predicate Valid()
      reads this
    {
      size > 0 && cur == if group == [] then None else Some(BucketOf(group, size))
    }

    constructor (size: int)
      requires size > 0
      ensures Valid() && this.size == size && group == []
    {
      this.size := size;
      cur := None;
      group := [];
    }

    method Push(m: Measurement) returns (closed: Option<Bucket>)
      requires Valid()
      modifies this
      ensures Valid()
      ensures var s := Next(old(group), Add(m), size);
              && group == s.group
              && closed == if s.closed.Some? && s.closed.value != [] then Some(BucketOf(s.closed.value, size)) else None
    {
      hide BucketOf;
      SlotOf(group, size);
      var t := Slot(m.at, size);
      closed := None;
      if cur.Some? && cur.value.t != t {
        closed := cur;
        cur := None;
      }
      assert [] + [m] == [m];
      group := Next(group, Add(m), size).group;
      if cur.None? {
        cur := Some(Bucket(t, [], [], [], 0, 0, 0));
        BucketStarts(m, size);
      } else {
        BucketGrows(old(group), m, size);
      }
      cur := Some(Grown(cur.value, m));
    }

    method Lapse(now: int) returns (closed: Option<Bucket>)
      requires Valid()
      modifies this
      ensures Valid()
      ensures var s := Next(old(group), Flush(now), size);
              && group == s.group
              && closed == if s.closed.Some? && s.closed.value != [] then Some(BucketOf(s.closed.value, size)) else None
    {
      hide BucketOf;
      SlotOf(group, size);
      closed := None;
      if cur.Some? && now >= cur.value.t + size {
        closed := cur;
        cur := None;
        group := [];
      }
    }
  }

  lemma SlotOf(g: seq<Measurement>, size: int)
    requires size > 0
    ensures g != [] ==> BucketOf(g, size).t == Slot(g[0].at, size)
  {
  }

  /** Every measurement is in exactly one group: the completed ones and the open one together are the measurements,
      in order. */
  lemma {:induction false} MeasurementsConserved(es: seq<Event>, size: int)
    requires size > 0
    ensures Flat(Closed(es, size)) + GroupAfter(es, size) == Measured(es)
    decreases |es|
  {
    if es != [] {
      var fs, e := es[..|es| - 1], es[|es| - 1];
      MeasurementsConserved(fs, size);
      var g, cs := GroupAfter(fs, size), Closed(fs, size);
      var s := Next(g, e, size);
      assert cs + [] == cs && Measured(fs) + [] == Measured(fs);
      if s.closed.Some? {
        assert (cs + [g])[..|cs|] == cs;
        assert Flat(cs + [g]) == Flat(cs) + g;
      } else if e.Add? {
        assert Flat(cs) + (g + [e.m]) == Flat(cs) + g + [e.m];
      }
    }
  }

  // ---- Bucket times rise ----

  predicate InTimeOrder(es: seq<Event>) {
    forall i, j :: 0 <= i < j < |es| ==> TimeOf(es[i]) <= TimeOf(es[j])
  }

  lemma AtLeastOnce(k: int, size: int)
    requires size > 0
    ensures k >= 1 ==> k * size >= size
    ensures k <= -1 ==> k * size <= -size
  {
  }

  /** A time lies in its bucket; buckets that start differently lie apart. */
  lemma Between(at: int, x: int, size: int)
    requires size > 0 && Slot(at, size) <= x
    ensures Slot(at, size) <= Slot(x, size) <= x < Slot(x, size) + size
    ensures Slot(at, size) != Slot(x, size) || Slot(at, size) + size <= x ==> Slot(at, size) + size <= Slot(x, size)
  {
    var a, q := at / size, x / size;
    assert x == q * size + x % size;
    assert q * size - a * size == (q - a) * size;
    AtLeastOnce(q - a, size);
    if Slot(at, size) + size <= x {
      assert q * size - (a + 1) * size == (q - (a + 1)) * size;
      assert (a + 1) * size == a * size + size;
      AtLeastOnce(q - (a + 1), size);
    }
  }

  predicate NoneEmpty(gs: seq<seq<Measurement>>) {
    forall k :: 0 <= k < |gs| ==> gs[k] != []
  }

  /** The time of the bucket of group `k`. */
  function BucketTime(gs: seq<seq<Measurement>>, k: nat, size: int): int
    requires size > 0 && NoneEmpty(gs) && k < |gs|
  {
    Slot(gs[k][0].at, size)
  }

  /** Completed groups are not empty, their buckets rise and are over at time `x`, and the open group starts after
      them. */
  predicate RisingUpTo(cs: seq<seq<Measurement>>, g: seq<Measurement>, x: int, size: int)
    requires size > 0
  {
    && NoneEmpty(cs)
    && (forall k :: 0 <= k < |cs| ==> BucketTime(cs, k, size) + size <= x)
    && (g != [] ==>
          && Slot(g[0].at, size) <= x
          && forall k :: 0 <= k < |cs| ==> BucketTime(cs, k, size) < Slot(g[0].at, size))
    && forall j, k :: 0 <= j < k < |cs| ==> BucketTime(cs, j, size) < BucketTime(cs, k, size)
  }

  /** The times of the buckets handed out rise strictly, for events in time order. */
  lemma {:induction false} BucketTimesRise(es: seq<Event>, size: int)
    requires size > 0 && InTimeOrder(es) && es != []
    ensures RisingUpTo(Closed(es, size), GroupAfter(es, size), TimeOf(es[|es| - 1]), size)
    decreases |es|
  {
    hide Next, RisingUpTo;
    var fs, e := es[..|es| - 1], es[|es| - 1];
    var g, cs := GroupAfter(fs, size), Closed(fs, size);
    if fs == [] {
      NothingYet(TimeOf(e), size);
    } else {
      BucketTimesRise(fs, size);
      Later(cs, g, TimeOf(fs[|fs| - 1]), TimeOf(e), size);
    }
    RisesOn(cs, g, e, size);
  }

  lemma NothingYet(x: int, size: int)
    requires size > 0
    ensures RisingUpTo([], [], x, size)
  {
  }

  lemma Later(cs: seq<seq<Measurement>>, g: seq<Measurement>, x: int, y: int, size: int)
    requires size > 0 && x <= y && RisingUpTo(cs, g, x, size)
    ensures RisingUpTo(cs, g, y, size)
  {
  }

  /** One event more. */
  lemma RisesOn(cs: seq<seq<Measurement>>, g: seq<Measurement>, e: Event, size: int)
    requires size > 0 && RisingUpTo(cs, g, TimeOf(e), size)
    ensures var s := Next(g, e, size);
            RisingUpTo(cs + (if s.closed.Some? then [s.closed.value] else []), s.group, TimeOf(e), size)
  {
    hide Slot;
    var x := TimeOf(e);
    forall k | 0 <= k < |cs|
      ensures BucketTime(cs, k, size) + size <= Slot(x, size) <= x
    {
      assert BucketTime(cs, k, size) + size <= x;
      Between(cs[k][0].at, x, size);
    }
    if g != [] {
      Between(g[0].at, x, size);
    }
    InItsBucket(x, size);
    var s := Next(g, e, size);
    var ds := cs + (if s.closed.Some? then [s.closed.value] else []);
    assert forall k :: 0 <= k < |cs| ==> ds[k] == cs[k];
    assert NoneEmpty(ds);
    assert forall k :: 0 <= k < |cs| ==> BucketTime(ds, k, size) == BucketTime(cs, k, size);
  }

  lemma InItsBucket(x: int, size: int)
    requires size > 0
    ensures Slot(x, size) <= x
  {
    assert x == x / size * size + x % size;
  }

  // ---- What is in a bucket ----

  /** The time lies in the bucket that starts at `t`, which is a multiple of the length. */
  predicate LiesIn(at: int, t: int, size: int)
    requires size > 0
  {
    t % size == 0 && t <= at < t + size
  }

  lemma SlotHolds(at: int, size: int)
    requires size > 0
    ensures LiesIn(at, Slot(at, size), size)
  {
    assert at == at / size * size + at % size;
    MultipleIs(at / size, size);
  }

  lemma MultipleIs(q: int, size: int)
    requires size > 0
    ensures q * size % size == 0
  {
    var r, k := q * size % size, q * size / size;
    assert q * size == k * size + r;
    assert (q - k) * size == r;
    AtLeastOnce(q - k, size);
  }

  /** All measurements of the group lie in its bucket. */
  predicate Together(g: seq<Measurement>, size: int)
    requires size > 0
  {
    forall i :: 0 <= i < |g| ==> LiesIn(g[i].at, Slot(g[0].at, size), size)
  }

  /** In every run each bucket holds measurements of its own time alone, and the open one is not over. */
  lemma {:induction false} BucketsHoldTheirTime(es: seq<Event>, size: int)
    requires size > 0
    ensures forall k :: 0 <= k < |Closed(es, size)| ==> Together(Closed(es, size)[k], size)
    ensures Together(GroupAfter(es, size), size)
    ensures es != [] && GroupAfter(es, size) != [] ==>
              TimeOf(es[|es| - 1]) < Slot(GroupAfter(es, size)[0].at, size) + size
    decreases |es|
  {
    hide Slot;
    if es != [] {
      var fs, e := es[..|es| - 1], es[|es| - 1];
      BucketsHoldTheirTime(fs, size);
      if e.Add? {
        SlotHolds(e.m.at, size);
      }
    }
  }

  /** How many measurements have this value in the field `f`. */
  function CountOf(g: seq<Measurement>, f: Measurement -> Option<int>, v: int): (n: nat)
  {
    if g == [] then 0 else CountOf(g[1..], f, v) + if f(g[0]) == Some(v) then 1 else 0
  }

  function TotalOf(g: seq<Measurement>, f: Measurement -> nat): (n: nat)
  {
    if g == [] then 0 else f(g[0]) + TotalOf(g[1..], f)
  }

  lemma {:induction false} CountSnoc(g: seq<Measurement>, m: Measurement, f: Measurement -> Option<int>, v: int)
    ensures CountOf(g + [m], f, v) == CountOf(g, f, v) + if f(m) == Some(v) then 1 else 0
  {
    if g == [] {
      assert g + [m] == [m] && [m][1..] == [];
    } else {
      assert (g + [m])[1..] == g[1..] + [m];
      CountSnoc(g[1..], m, f, v);
    }
  }

  lemma {:induction false} TotalSnoc(g: seq<Measurement>, m: Measurement, f: Measurement -> nat)
    ensures TotalOf(g + [m], f) == TotalOf(g, f) + f(m)
  {
    if g == [] {
      assert g + [m] == [m] && [m][1..] == [];
    } else {
      assert (g + [m])[1..] == g[1..] + [m];
      TotalSnoc(g[1..], m, f);
    }
  }

  lemma {:induction false} PresentCounts(g: seq<Measurement>, f: Measurement -> Option<int>, v: int)
    ensures multiset(Present(Column(g, f)))[v] == CountOf(g, f, v)
    decreases |g|
  {
    if g != [] {
      var h, m := g[..|g| - 1], g[|g| - 1];
      assert g == h + [m];
      PresentCounts(h, f, v);
      ColumnAppend(h, m, f);
      PresentAppend(Column(h, f), f(m));
      CountSnoc(h, m, f, v);
    }
  }

  lemma {:induction false} SumTotals(g: seq<Measurement>, f: Measurement -> nat)
    ensures Sum(Column(g, f)) == TotalOf(g, f)
    decreases |g|
  {
    if g != [] {
      var h, m := g[..|g| - 1], g[|g| - 1];
      assert g == h + [m];
      SumTotals(h, f);
      ColumnAppend(h, m, f);
      SumAppend(Column(h, f), f(m));
      TotalSnoc(h, m, f);
    }
  }

  /** A bucket has the values of each field as often as its measurements do, and their totals. */
  lemma BucketHolds(g: seq<Measurement>, size: int, v: int)
    requires g != [] && size > 0
    ensures var b := BucketOf(g, size);
            && LiesIn(g[0].at, b.t, size) && b.n == |g|
            && multiset(b.router)[v] == CountOf(g, (m: Measurement) => m.router, v)
            && multiset(b.inet)[v] == CountOf(g, (m: Measurement) => m.inet, v)
            && multiset(b.server)[v] == CountOf(g, (m: Measurement) => m.server, v)
            && b.sent == TotalOf(g, (m: Measurement) => m.sent)
            && b.received == TotalOf(g, (m: Measurement) => m.received)
  {
    hide Present, Sum, CountOf, TotalOf;
    SlotHolds(g[0].at, size);
    PresentCounts(g, (m: Measurement) => m.router, v);
    PresentCounts(g, (m: Measurement) => m.inet, v);
    PresentCounts(g, (m: Measurement) => m.server, v);
    SumTotals(g, (m: Measurement) => m.sent);
    SumTotals(g, (m: Measurement) => m.received);
  }
}
