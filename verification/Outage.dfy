/** The outage detector of the internet quality feature (OutageDetector of
    src/inetq/aggregate.js) and what it makes of a history of readings. */
module Outage {
  import opened Bytes

  /** One round of measurements: `routerDown` says that the router was asked and did not answer. */
  datatype Reading = Reading(at: int, inetOk: bool, routerDown: bool)

  datatype Cause = Router | Isp

  /** A changed outage; `end` is None while it lasts. */
  datatype Change = Change(start: int, end: Option<int>, cause: Cause)

  datatype Suspect = Suspect(at: int, routerDown: bool)

  datatype Open = Open(start: int, cause: Cause, lastDownAt: int)

  datatype State = State(suspect: Option<Suspect>, open: Option<Open>)

  datatype Settings = Settings(confirmMs: int, gapMs: int)

  const FRESH := State(None, None)

  // ---- One reading ----

  function Next(st: State, r: Reading, c: Settings): (State, Option<Change>) {
    if r.inetOk then
      if st.open.None? then (FRESH, None) else
      var o := st.open.value;
      var end := if r.at - o.lastDownAt > c.gapMs then o.lastDownAt else r.at;
      (FRESH, Some(Change(o.start, Some(end), o.cause)))
    else if st.open.Some? then
      var o := st.open.value.(lastDownAt := r.at);
      if r.routerDown && o.cause != Router then
        (st.(open := Some(o.(cause := Router))), Some(Change(o.start, None, Router)))
      else (st.(open := Some(o)), None)
    else if st.suspect.None? then (st.(suspect := Some(Suspect(r.at, r.routerDown))), None)
    else
      var s := Suspect(st.suspect.value.at, st.suspect.value.routerDown || r.routerDown);
      if r.at - s.at >= c.confirmMs then
        var o := Open(s.at, if s.routerDown then Router else Isp, r.at);
        (State(None, Some(o)), Some(Change(o.start, None, o.cause)))
      else (st.(suspect := Some(s)), None)
  }

  class Detector {
    const settings: Settings
    var suspect: Option<Suspect>
    var open: Option<Open>

    constructor (settings: Settings)
      ensures this.settings == settings && Now() == FRESH
    {
      this.settings := settings;
      suspect, open := None, None;
    }

    ghost function Now(): State
      reads this
    {
      State(suspect, open)
    }

    method Observe(r: Reading) returns (change: Option<Change>)
      modifies this
      ensures (Now(), change) == Next(old(Now()), r, settings)
    {
      if r.inetOk {
        suspect := None;
        if open.None? {
          return None;
        }
        var o := open.value;
        open := None;
        var end := if r.at - o.lastDownAt > settings.gapMs then o.lastDownAt else r.at;
        return Some(Change(o.start, Some(end), o.cause));
      }
      if open.Some? {
        open := Some(open.value.(lastDownAt := r.at));
        if r.routerDown && open.value.cause != Router {
          open := Some(open.value.(cause := Router));
          return Some(Change(open.value.start, None, Router));
        }
        return None;
      }
      if suspect.None? {
        suspect := Some(Suspect(r.at, r.routerDown));
        return None;
      }
      if r.routerDown {
        suspect := Some(suspect.value.(routerDown := true));
      }
      if r.at - suspect.value.at >= settings.confirmMs {
        open := Some(Open(suspect.value.at, if suspect.value.routerDown then Router else Isp, r.at));
        suspect := None;
        return Some(Change(open.value.start, None, open.value.cause));
      }
      change := None;
    }
  }

  // ---- A history of readings ----

  function StateAfter(h: seq<Reading>, c: Settings): State {
    if h == [] then FRESH else Next(StateAfter(h[..|h| - 1], c), h[|h| - 1], c).0
  }

  /** The outages that a fresh detector has reported as over, in order. */
  function ClosedBy(h: seq<Reading>, c: Settings): seq<Change> {
    if h == [] then [] else
    var change := Next(StateAfter(h[..|h| - 1], c), h[|h| - 1], c).1;
    ClosedBy(h[..|h| - 1], c) + if change.Some? && change.value.end.Some? then [change.value] else []
  }

  predicate Ordered(h: seq<Reading>) {
    forall i, j :: 0 <= i < j < |h| ==> h[i].at <= h[j].at
  }

  // ---- The declarative reading ----

  /** From `i` up to `j` all readings are down, and the one before is not. */
  predicate DownRun(h: seq<Reading>, i: nat, j: nat) {
    && i < j <= |h| && (forall k :: i <= k < j ==> !h[k].inetOk)
    && (i == 0 || h[i - 1].inetOk)
  }

  predicate RouterSeen(h: seq<Reading>, i: nat, j: nat)
    requires i <= j <= |h|
  {
    exists k :: i <= k < j && h[k].routerDown
  }

  predicate LongEnough(h: seq<Reading>, i: nat, j: nat, c: Settings)
    requires i < j <= |h|
  {
    j - i >= 2 && h[j - 1].at - h[i].at >= c.confirmMs
  }

  datatype Span = Span(from: nat, to: nat)

  /** A maximal down run that is long enough and ended by an up reading. */
  predicate IsOutage(h: seq<Reading>, s: Span, c: Settings) {
    DownRun(h, s.from, s.to) && s.to < |h| && h[s.to].inetOk && LongEnough(h, s.from, s.to, c)
  }

  function OutageOf(h: seq<Reading>, s: Span, c: Settings): Change
    requires s.from < s.to < |h|
  {
    var last, up := h[s.to - 1].at, h[s.to].at;
    Change(h[s.from].at, Some(if up - last > c.gapMs then last else up),
           if RouterSeen(h, s.from, s.to) then Router else Isp)
  }

  /** Where the down run that reaches up to `n` starts; `n` if there is none. */
  function RunStart(h: seq<Reading>, n: nat): (i: nat)
    requires n <= |h|
    ensures i <= n && (i < n ==> DownRun(h, i, n)) && (i == n && n > 0 ==> h[n - 1].inetOk)
  {
    if n == 0 || h[n - 1].inetOk then n else RunStart(h, n - 1)
  }

  /** The spans of the outages of a history, from left to right. */
  function Spans(h: seq<Reading>, c: Settings): seq<Span> {
    if h == [] then [] else
    var n := |h| - 1;
    var i := RunStart(h, n);
    Spans(h[..n], c) + if h[n].inetOk && i < n && LongEnough(h, i, n, c) then [Span(i, n)] else []
  }

  lemma {:induction false} RunStartPrefix(h: seq<Reading>, g: seq<Reading>, n: nat)
    requires n <= |g| && g <= h
    ensures RunStart(h, n) == RunStart(g, n)
    decreases n
  {
    if n > 0 && !h[n - 1].inetOk {
      RunStartPrefix(h, g, n - 1);
    }
  }

  /** A down run is found by looking back from its end. */
  lemma {:induction false} RunStartIs(h: seq<Reading>, i: nat, n: nat)
    requires DownRun(h, i, n)
    ensures RunStart(h, n) == i
    decreases n
  {
    if i < n - 1 {
      RunStartIs(h, i, n - 1);
    }
  }

  // ---- The detector finds exactly the outages ----

  /** What the detector remembers of a history: the down run at its end. */
  function Memory(h: seq<Reading>, c: Settings): State {
    var n := |h|;
    var i := RunStart(h, n);
    if i == n then FRESH
    else
      var cause := if RouterSeen(h, i, n) then Router else Isp;
      if LongEnough(h, i, n, c) then State(None, Some(Open(h[i].at, cause, h[n - 1].at)))
      else State(Some(Suspect(h[i].at, cause == Router)), None)
  }

  lemma RouterNext(h: seq<Reading>, i: nat, n: nat)
    requires i <= n < |h|
    ensures RouterSeen(h, i, n + 1) == (RouterSeen(h, i, n) || h[n].routerDown)
  {
    if RouterSeen(h, i, n) {
      var k :| i <= k < n && h[k].routerDown;
      assert i <= k < n + 1;
    }
  }

  lemma RouterPrefix(h: seq<Reading>, g: seq<Reading>, i: nat, n: nat)
    requires i <= n <= |g| && g <= h
    ensures RouterSeen(h, i, n) == RouterSeen(g, i, n)
  {
    if RouterSeen(h, i, n) {
      var k :| i <= k < n && h[k].routerDown;
      assert g[k].routerDown;
    }
    if RouterSeen(g, i, n) {
      var k :| i <= k < n && g[k].routerDown;
      assert h[k].routerDown;
    }
  }

  lemma {:induction false} StateIsMemory(h: seq<Reading>, c: Settings)
    requires Ordered(h)
    ensures StateAfter(h, c) == Memory(h, c)
    decreases |h|
  {
    if h != [] {
      var n := |h| - 1;
      var g := h[..n];
      StateIsMemory(g, c);
      MemoryNext(h, g, c);
    }
  }

  /** The down run that reaches up to the last reading of `g`, in `g` and in `h`. */
  lemma MemoryOfPrefix(h: seq<Reading>, g: seq<Reading>, c: Settings)
    requires h != [] && g == h[..|h| - 1]
    ensures var n := |g|; var i := RunStart(h, n);
            && RunStart(g, n) == i && RouterSeen(g, i, n) == RouterSeen(h, i, n)
            && RouterSeen(h, i, n + 1) == (RouterSeen(h, i, n) || h[n].routerDown)
            && (i == n ==> !RouterSeen(h, i, n))
  {
    hide RouterSeen, RunStart, DownRun;
    var n := |g|;
    var i := RunStart(h, n);
    RunStartPrefix(h, g, n);
    RouterPrefix(h, g, i, n);
    RouterNext(h, i, n);
    NoRouterYet(h, n);
  }

  lemma NoRouterYet(h: seq<Reading>, n: nat)
    requires n <= |h|
    ensures !RouterSeen(h, n, n)
  {
  }

  /** One reading takes what the detector remembers of a history to what it remembers of the longer one. */
  lemma MemoryNext(h: seq<Reading>, g: seq<Reading>, c: Settings)
    requires Ordered(h) && h != [] && g == h[..|h| - 1]
    ensures Next(Memory(g, c), h[|h| - 1], c).0 == Memory(h, c)
  {
    hide RouterSeen;
    MemoryOfPrefix(h, g, c);
  }

  /** And this is what it reports. */
  lemma ChangeNext(h: seq<Reading>, g: seq<Reading>, c: Settings)
    requires Ordered(h) && h != [] && g == h[..|h| - 1]
    ensures var n := |g|; var i := RunStart(h, n);
            Next(Memory(g, c), h[n], c).1 ==
            if h[n].inetOk then
              if i < n && LongEnough(h, i, n, c) then Some(OutageOf(h, Span(i, n), c)) else None
            else if i < n && LongEnough(h, i, n, c) then
              if h[n].routerDown && !RouterSeen(h, i, n) then Some(Change(h[i].at, None, Router)) else None
            else if i < n && LongEnough(h, i, n + 1, c) then
              Some(Change(h[i].at, None, if RouterSeen(h, i, n + 1) then Router else Isp))
            else None
  {
    hide RouterSeen;
    MemoryOfPrefix(h, g, c);
  }

  lemma SpansPrefix(h: seq<Reading>, c: Settings, s: Span)
    requires h != [] && IsOutage(h, s, c) && s.to < |h| - 1
    ensures IsOutage(h[..|h| - 1], s, c)
  {
    var g := h[..|h| - 1];
    assert forall k :: 0 <= k < |g| ==> g[k] == h[k];
  }

  /** The spans are exactly the outages. */
  lemma {:induction false} SpansAreOutages(h: seq<Reading>, c: Settings)
    ensures forall s :: s in Spans(h, c) <==> IsOutage(h, s, c)
    decreases |h|
  {
    if h != [] {
      var n := |h| - 1;
      var g := h[..n];
      SpansAreOutages(g, c);
      forall s
        ensures s in Spans(h, c) <==> IsOutage(h, s, c)
      {
        if IsOutage(h, s, c) {
          RunStartIs(h, s.from, s.to);
          if s.to < n {
            SpansPrefix(h, c, s);
          }
        }
        if s in Spans(g, c) {
          assert IsOutage(g, s, c);
          assert forall k :: 0 <= k < |g| ==> g[k] == h[k];
        }
      }
    }
  }

  /** Each outage ends before the next begins. */
  predicate Disjoint(ss: seq<Span>) {
    forall a, b :: 0 <= a < b < |ss| ==> ss[a].to < ss[b].from
  }

  lemma {:induction false} SpansInOrder(h: seq<Reading>, c: Settings)
    ensures Disjoint(Spans(h, c))
    decreases |h|
  {
    if h != [] {
      var n := |h| - 1;
      var g := h[..n];
      SpansInOrder(g, c);
      SpansAreOutages(g, c);
      var i := RunStart(h, n);
      var ss := Spans(g, c);
      forall a | 0 <= a < |ss|
        ensures ss[a].to < n && (i < n ==> ss[a].to < i)
      {
        assert ss[a] in ss;
        assert IsOutage(g, ss[a], c);
        assert h[ss[a].to].inetOk;
      }
    }
  }

  function OutagesOf(h: seq<Reading>, ss: seq<Span>, c: Settings): (r: seq<Change>)
    requires forall k :: 0 <= k < |ss| ==> ss[k].from < ss[k].to < |h|
    ensures |r| == |ss|
  {
    seq(|ss|, k requires 0 <= k < |ss| => OutageOf(h, ss[k], c))
  }

  lemma SpansInside(h: seq<Reading>, c: Settings)
    ensures forall k :: 0 <= k < |Spans(h, c)| ==> Spans(h, c)[k].from < Spans(h, c)[k].to < |h|
  {
    SpansAreOutages(h, c);
    forall k | 0 <= k < |Spans(h, c)|
      ensures Spans(h, c)[k].from < Spans(h, c)[k].to < |h|
    {
      assert Spans(h, c)[k] in Spans(h, c);
    }
  }

  /** For readings in time order, the outages that a fresh detector reports as
      over are exactly the long enough down runs ended by an up reading, with
      the start, end and cause that the history gives them, in order. */
  lemma {:induction false} DetectorIsExact(h: seq<Reading>, c: Settings)
    requires Ordered(h)
    ensures forall s :: s in Spans(h, c) <==> IsOutage(h, s, c)
    ensures Disjoint(Spans(h, c))
    ensures (forall k :: 0 <= k < |Spans(h, c)| ==> Spans(h, c)[k].from < Spans(h, c)[k].to < |h|)
            && ClosedBy(h, c) == OutagesOf(h, Spans(h, c), c)
    decreases |h|
  {
    SpansAreOutages(h, c);
    SpansInOrder(h, c);
    SpansInside(h, c);
    if h != [] {
      var n := |h| - 1;
      var g := h[..n];
      DetectorIsExact(g, c);
      StateIsMemory(g, c);
      ChangeNext(h, g, c);
      SameOutages(h, g, Spans(g, c), c);
    }
  }

  lemma SameOutages(h: seq<Reading>, g: seq<Reading>, ss: seq<Span>, c: Settings)
    requires g <= h && forall k :: 0 <= k < |ss| ==> ss[k].from < ss[k].to < |g|
    ensures OutagesOf(h, ss, c) == OutagesOf(g, ss, c)
  {
    forall k | 0 <= k < |ss|
      ensures OutageOf(h, ss[k], c) == OutageOf(g, ss[k], c)
    {
      RouterPrefix(h, g, ss[k].from, ss[k].to);
    }
  }

  /** Every reported outage lasts at least as long as the confirmation, and no two overlap in time. */
  lemma OutagesLastAndDoNotOverlap(h: seq<Reading>, c: Settings)
    requires Ordered(h)
    ensures var os := ClosedBy(h, c);
            && (forall a :: 0 <= a < |os| ==> os[a].end.Some? && os[a].end.value - os[a].start >= c.confirmMs)
            && (forall a, b :: 0 <= a < b < |os| ==> os[a].end.Some? && os[a].end.value <= os[b].start)
  {
    hide ClosedBy, Spans;
    DetectorIsExact(h, c);
    var ss := Spans(h, c);
    forall a | 0 <= a < |ss|
      ensures var o := OutageOf(h, ss[a], c);
              o.end.Some? && o.end.value - o.start >= c.confirmMs && o.end.value <= h[ss[a].to].at
    {
      assert ss[a] in ss;
      assert IsOutage(h, ss[a], c);
    }
    forall a, b | 0 <= a < b < |ss|
      ensures h[ss[a].to].at <= h[ss[b].from].at
    {
      assert ss[b] in ss && IsOutage(h, ss[b], c);
    }
  }
}
