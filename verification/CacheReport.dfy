/** The delta report of the home cache (HomeCache.report of src/cache/cache.js
    with the added and removed sets of src/cache/store.js) as a protocol: the
    store changes while a report is on its way, posts may get lost, and the
    server keeps its own view of what the gateway has. */
module CacheReport {
  import opened Sequences
  import opened BlobStore

  const MAX_HAVE := 5000

  /** A report on its way: the lists it was started with and how many of its posts were sent. */
  datatype Flight = Idle | Posting(full: bool, have: seq<Sha>, gone: seq<Sha>, sent: nat, ok: bool)

  datatype State = State(items: set<Sha>, added: set<Sha>, removed: set<Sha>, needFull: bool, flight: Flight,
                         server: set<Sha>)

  datatype Event =
    | Commit(sha: Sha)
    | Remove(sha: Sha)
    | Begin(due: bool, have: seq<Sha>, gone: seq<Sha>)
    | Post(applied: bool, ok: bool)
    | Finish

  // ---- Posts ----

  function Min(a: nat, b: nat): nat {
    if a < b then a else b
  }

  /** The entries of a list that the first `k` posts carry, and those of post `k`. */
  function Sent(list: seq<Sha>, k: nat): seq<Sha> {
    list[..Min(k * MAX_HAVE, |list|)]
  }

  function Part(list: seq<Sha>, k: nat): seq<Sha> {
    list[Min(k * MAX_HAVE, |list|)..Min((k + 1) * MAX_HAVE, |list|)]
  }

  function Posts(have: seq<Sha>, gone: seq<Sha>): (n: nat)
    ensures n >= 1
  {
    var a, b := (|have| + MAX_HAVE - 1) / MAX_HAVE, (|gone| + MAX_HAVE - 1) / MAX_HAVE;
    if a > b then (if a > 1 then a else 1) else if b > 1 then b else 1
  }

  lemma SentNext(list: seq<Sha>, k: nat)
    ensures Sent(list, k + 1) == Sent(list, k) + Part(list, k)
    ensures SetOf(Sent(list, k + 1)) == SetOf(Sent(list, k)) + SetOf(Part(list, k))
  {
    assert Sent(list, k + 1) == Sent(list, k) + Part(list, k);
  }

  lemma AllSent(have: seq<Sha>, gone: seq<Sha>)
    ensures Sent(have, Posts(have, gone)) == have && Sent(gone, Posts(have, gone)) == gone
  {
  }

  /** A report takes the fewest posts of up to 5000 entries of each list, and all but the last are full. */
  lemma FewestPosts(have: seq<Sha>, gone: seq<Sha>, list: seq<Sha>, k: nat)
    requires list == have || list == gone
    ensures var n := Posts(have, gone);
            && |have| <= 5000 * n && |gone| <= 5000 * n
            && (n > 1 ==> |have| > 5000 * (n - 1) || |gone| > 5000 * (n - 1))
    ensures 5000 * (k + 1) <= |list| ==> Part(list, k) == list[5000 * k..5000 * (k + 1)]
    ensures 5000 * k <= |list| < 5000 * (k + 1) ==> Part(list, k) == list[5000 * k..]
    ensures |list| < 5000 * k ==> Part(list, k) == []
  {
  }

  // ---- The steps ----

  predicate Enabled(s: State, e: Event) {
    match e
    case Commit(_) => true
    case Remove(sha) => true
    case Begin(due, have, gone) =>
      && s.flight.Idle?
      && var full := s.needFull || due;
      && SetOf(have) == (if full then s.items else s.added)
      && SetOf(gone) == (if full then {} else s.removed)
    case Post(applied, ok) =>
      s.flight.Posting? && s.flight.ok && s.flight.sent < Posts(s.flight.have, s.flight.gone) && (ok ==> applied)
    case Finish =>
      s.flight.Posting? && (!s.flight.ok || s.flight.sent == Posts(s.flight.have, s.flight.gone))
  }

  /** What the server makes of a post: the first of a full report replaces its view. */
  function Received(f: Flight, server: set<Sha>): set<Sha>
    requires f.Posting?
  {
    (if f.full && f.sent == 0 then {} else server) + SetOf(Part(f.have, f.sent)) - SetOf(Part(f.gone, f.sent))
  }

  function Do(s: State, e: Event): State
    requires Enabled(s, e)
  {
    match e
    case Commit(sha) => s.(items := s.items + {sha}, added := s.added + {sha}, removed := s.removed - {sha})
    case Remove(sha) =>
      if sha !in s.items then s
      else s.(items := s.items - {sha}, added := s.added - {sha}, removed := s.removed + {sha})
    case Begin(due, have, gone) => s.(flight := Posting(s.needFull || due, have, gone, 0, true))
    case Post(applied, ok) =>
      s.(server := if applied then Received(s.flight, s.server) else s.server,
         flight := s.flight.(sent := s.flight.sent + 1, ok := ok))
    case Finish =>
      var f := s.flight;
      if !f.ok then s.(needFull := true, flight := Idle)
      else if f.full then s.(needFull := false, added := {}, removed := {}, flight := Idle)
      else s.(added := s.added - SetOf(f.have), removed := s.removed - SetOf(f.gone), flight := Idle)
  }

  // ---- What holds ----

  /** What the server has, corrected by what is still to be reported. */
  function View(s: State): set<Sha> {
    s.server + s.added - s.removed
  }

  /** The blobs that the server is wrong about, and will stay so until they change again or a full report is sent. */
  function Wrong(s: State): set<Sha> {
    (View(s) - s.items) + (s.items - View(s))
  }

  predicate InSync(s: State) {
    View(s) == s.items
  }

  predicate FullInFlight(s: State) {
    s.flight.Posting? && s.flight.full
  }

  predicate ChangesFit(s: State) {
    s.added <= s.items && s.removed !! s.items
  }

  /** A delta report on its way: whatever it says of a blob will be corrected if it is no longer so. */
  predicate DeltaOk(s: State) {
    var f := s.flight;
    f.Posting? && !f.full ==>
      var told := SetOf(f.have) + SetOf(f.gone);
      && SetOf(f.have) !! SetOf(f.gone)
      && told * s.items <= s.added && told - s.items <= s.removed
      && (f.ok ==> SetOf(Sent(f.have, f.sent)) <= s.server && SetOf(Sent(f.gone, f.sent)) !! s.server)
  }

  /** A full report on its way: the server has the parts sent so far, whatever happens to the store. */
  predicate FullSent(s: State) {
    var f := s.flight;
    FullInFlight(s) ==>
      f.gone == [] && (f.ok && f.sent > 0 ==> s.server == SetOf(Sent(f.have, f.sent)))
  }

  /** While no full report is needed or on its way, the server is wrong about exactly the blobs `missed`. */
  predicate Inv(s: State, missed: set<Sha>) {
    && ChangesFit(s) && DeltaOk(s) && FullSent(s)
    && (!s.needFull && !FullInFlight(s) ==> Wrong(s) == missed)
  }

  predicate Init(s: State) {
    s.added == {} && s.removed == {} && s.needFull && s.flight.Idle?
  }

  lemma InitInv(s: State, missed: set<Sha>)
    requires Init(s)
    ensures Inv(s, missed)
  {
  }

  /** The blobs missed after a step: a full report misses what changed since it began, and a blob
      that changes later is reported again. */
  function MissedNext(s: State, e: Event, missed: set<Sha>): set<Sha>
    requires Enabled(s, e)
  {
    match e
    case Commit(sha) => missed - {sha}
    case Remove(sha) => if sha in s.items then missed - {sha} else missed
    case Finish =>
      if s.flight.ok && s.flight.full
      then (SetOf(s.flight.have) - s.items) + (s.items - SetOf(s.flight.have)) else missed
    case _ => missed
  }

  lemma StoreKeepsInv(s: State, e: Event, missed: set<Sha>)
    requires Inv(s, missed) && Enabled(s, e) && (e.Commit? || e.Remove?)
    ensures Inv(Do(s, e), MissedNext(s, e, missed))
  {
    hide Sent, SetOf;
  }

  lemma BeginKeepsInv(s: State, e: Event, missed: set<Sha>)
    requires Inv(s, missed) && Enabled(s, e) && e.Begin?
    ensures Inv(Do(s, e), missed)
  {
    hide Sent, SetOf;
    NothingSent(e.have);
    NothingSent(e.gone);
    NoneIn(e.gone);
  }

  lemma NoneIn(s: seq<Sha>)
    ensures SetOf(s) == {} <==> s == []
  {
    if s != [] {
      assert s[0] in SetOf(s);
    }
  }

  lemma PostKeepsInv(s: State, e: Event, missed: set<Sha>)
    requires Inv(s, missed) && Enabled(s, e) && e.Post?
    ensures Inv(Do(s, e), missed)
  {
    hide Sent, Part, Posts, SetOf;
    var f := s.flight;
    SentNext(f.have, f.sent);
    SentNext(f.gone, f.sent);
    PartOf(f.have, f.sent);
    PartOf(f.gone, f.sent);
    NothingSent(f.have);
    NoneIn(f.gone);
  }

  lemma NothingSent(list: seq<Sha>)
    ensures SetOf(Sent(list, 0)) == {}
  {
  }

  lemma PartOf(list: seq<Sha>, k: nat)
    ensures SetOf(Part(list, k)) <= SetOf(list) && SetOf(Sent(list, k)) <= SetOf(list)
  {
  }

  lemma FinishKeepsInv(s: State, missed: set<Sha>)
    requires Inv(s, missed) && Enabled(s, Finish)
    ensures Inv(Do(s, Finish), MissedNext(s, Finish, missed))
  {
    hide Sent, Posts, SetOf;
    AllSent(s.flight.have, s.flight.gone);
  }

  /** Every step keeps the invariant, whatever interleaves with a report. */
  lemma StepKeepsInv(s: State, e: Event, missed: set<Sha>)
    requires Inv(s, missed) && Enabled(s, e)
    ensures Inv(Do(s, e), MissedNext(s, e, missed))
  {
    hide Inv, Do;
    match e
    case Commit(_) => StoreKeepsInv(s, e, missed);
    case Remove(_) => StoreKeepsInv(s, e, missed);
    case Begin(_, _, _) => BeginKeepsInv(s, e, missed);
    case Post(_, _) => PostKeepsInv(s, e, missed);
    case Finish => FinishKeepsInv(s, missed);
  }

  // ---- Runs ----

  ghost predicate Run(s: State, es: seq<Event>)
    decreases |es|
  {
    es != [] ==> Enabled(s, es[0]) && Run(Do(s, es[0]), es[1..])
  }

  ghost function After(s: State, es: seq<Event>): State
    requires Run(s, es)
    decreases |es|
  {
    if es == [] then s else After(Do(s, es[0]), es[1..])
  }

  ghost function MissedAfter(s: State, es: seq<Event>, missed: set<Sha>): set<Sha>
    requires Run(s, es)
    decreases |es|
  {
    if es == [] then missed else MissedAfter(Do(s, es[0]), es[1..], MissedNext(s, es[0], missed))
  }

  /** In every run, whatever happens when, the blobs that the server is wrong about while no full
      report is needed or on its way are exactly those that changed during the last full report and
      not since. */
  lemma {:induction false} RunWrongExactly(s: State, es: seq<Event>, missed: set<Sha>)
    requires Inv(s, missed) && Run(s, es)
    ensures Inv(After(s, es), MissedAfter(s, es, missed))
    ensures var t := After(s, es); !t.needFull && !FullInFlight(t) ==> Wrong(t) == MissedAfter(s, es, missed)
    decreases |es|
  {
    hide Do, MissedNext, Wrong, ChangesFit, DeltaOk, FullSent;
    if es != [] {
      StepKeepsInv(s, es[0], missed);
      RunWrongExactly(Do(s, es[0]), es[1..], MissedNext(s, es[0], missed));
    }
  }

  /** The store does not change while a full report is on its way. */
  ghost predicate Quiet(s: State, es: seq<Event>)
    requires Run(s, es)
    decreases |es|
  {
    es != [] ==> (es[0].Commit? || es[0].Remove? ==> !FullInFlight(s)) && Quiet(Do(s, es[0]), es[1..])
  }

  predicate FullOk(s: State) {
    FullInFlight(s) ==> SetOf(s.flight.have) == s.items
  }

  /** So in a run that leaves the store alone during full reports, the server's view plus what is
      still to be reported is the store whenever no full report is needed or on its way. */
  lemma {:induction false} RunInSync(s: State, es: seq<Event>)
    requires Inv(s, {}) && FullOk(s) && Run(s, es) && Quiet(s, es)
    ensures var t := After(s, es); Inv(t, {}) && FullOk(t) && (!t.needFull && !FullInFlight(t) ==> InSync(t))
    decreases |es|
  {
    if es != [] {
      hide Inv, SetOf, Sent, Posts;
      NoneMissed(s, es[0]);
      RunInSync(Do(s, es[0]), es[1..]);
    } else {
      WrongOrSync(s);
    }
  }

  lemma NoneMissed(s: State, e: Event)
    requires Inv(s, {}) && FullOk(s) && Enabled(s, e) && (e.Commit? || e.Remove? ==> !FullInFlight(s))
    ensures Inv(Do(s, e), {}) && FullOk(Do(s, e))
  {
    hide Inv, SetOf, Sent, Posts;
    StepKeepsInv(s, e, {});
    assert MissedNext(s, e, {}) == {};
  }

  lemma WrongOrSync(s: State)
    ensures InSync(s) <==> Wrong(s) == {}
  {
  }

  // ---- Full reports ----

  predicate Between(e: Event) {
    e.Commit? || e.Remove? || e.Post?
  }

  /** A report failed, and then whatever happens to the store: the next report is full and lists it all. */
  lemma FailureForcesFull(s: State, es: seq<Event>, due: bool, have: seq<Sha>, gone: seq<Sha>)
    requires Enabled(s, Finish) && !s.flight.ok
    requires Run(Do(s, Finish), es) && forall k :: 0 <= k < |es| ==> Between(es[k])
    requires Enabled(After(Do(s, Finish), es), Begin(due, have, gone))
    ensures var t := After(Do(s, Finish), es);
            Do(t, Begin(due, have, gone)).flight.full && SetOf(have) == t.items && gone == []
  {
    hide Posts, Run, Between;
    StaysNeeded(Do(s, Finish), es);
    NoneIn(gone);
  }

  /** While a full report is needed and none is on its way, it stays so. */
  lemma {:induction false} StaysNeeded(s: State, es: seq<Event>)
    requires s.needFull && s.flight.Idle? && Run(s, es) && forall k :: 0 <= k < |es| ==> Between(es[k])
    ensures After(s, es).needFull && After(s, es).flight.Idle?
    decreases |es|
  {
    hide SetOf, Sent, Part, Posts;
    if es != [] {
      assert Between(es[0]);
      StaysNeeded(Do(s, es[0]), es[1..]);
    }
  }

  lemma {:induction false} FullRun(s: State, es: seq<Event>)
    requires FullInFlight(s) && FullSent(s) && Run(s, es) && forall k :: 0 <= k < |es| ==> Between(es[k])
    ensures var t := After(s, es); FullInFlight(t) && FullSent(t) && t.flight.have == s.flight.have
    decreases |es|
  {
    hide FullSent, Enabled;
    if es != [] {
      assert Between(es[0]);
      FullSentStays(s, es[0]);
      FullRun(Do(s, es[0]), es[1..]);
    }
  }

  lemma FullSentStays(s: State, e: Event)
    requires FullInFlight(s) && FullSent(s) && Enabled(s, e) && Between(e)
    ensures FullInFlight(Do(s, e)) && FullSent(Do(s, e)) && Do(s, e).flight.have == s.flight.have
  {
    hide Sent, Part, Posts, SetOf;
    var f := s.flight;
    SentNext(f.have, f.sent);
    PartOf(f.gone, f.sent);
    NothingSent(f.have);
    NoneIn(f.gone);
  }

  /** A full report from its begin to its successful end, with any changes of the store meanwhile:
      the server then has the store as it was at the begin, nothing is left to be reported, and so
      the two agree exactly if the store is again as it was. */
  lemma FullReportExact(s: State, due: bool, have: seq<Sha>, gone: seq<Sha>, es: seq<Event>)
    requires Enabled(s, Begin(due, have, gone)) && (s.needFull || due)
    requires Run(Do(s, Begin(due, have, gone)), es) && forall k :: 0 <= k < |es| ==> Between(es[k])
    requires var t := After(Do(s, Begin(due, have, gone)), es); Enabled(t, Finish) && t.flight.ok
    ensures var t := After(Do(s, Begin(due, have, gone)), es);
            var u := Do(t, Finish);
            && u.server == s.items && u.added == {} && u.removed == {} && u.items == t.items
            && Wrong(u) == (s.items - t.items) + (t.items - s.items)
            && (InSync(u) <==> t.items == s.items)
  {
    hide Sent, Posts, SetOf, Run;
    var b := Do(s, Begin(due, have, gone));
    NothingSent(have);
    NoneIn(gone);
    FullRun(b, es);
    var t := After(b, es);
    AllSent(t.flight.have, t.flight.gone);
  }

  /** A blob stored while the first full report is on its way stays unknown to the server. */
  lemma LostUpdate()
    ensures var s := State({}, {}, {}, true, Idle, {});
            var es := [Begin(false, [], []), Post(true, true), Commit("a"), Finish];
            && Init(s) && Run(s, es)
            && var t := After(s, es);
            && !t.needFull && t.flight.Idle? && Wrong(t) == {"a"}
  {
    var s := State({}, {}, {}, true, Idle, {});
    var b, p, c := Begin(false, [], []), Post(true, true), Commit("a");
    assert SetOf<Sha>([]) == {};
    var s1 := Do(s, b);
    assert Posts([], []) == 1;
    var s2 := Do(s1, p);
    var s3 := Do(s2, c);
    var s4 := Do(s3, Finish);
    assert Run(s4, []) && After(s4, []) == s4;
    assert [Finish][1..] == [];
    assert Run(s3, [Finish]) && After(s3, [Finish]) == s4;
    assert [c, Finish][1..] == [Finish];
    assert Run(s2, [c, Finish]) && After(s2, [c, Finish]) == s4;
    assert [p, c, Finish][1..] == [c, Finish];
    assert Run(s1, [p, c, Finish]) && After(s1, [p, c, Finish]) == s4;
    assert [b, p, c, Finish][1..] == [p, c, Finish];
    assert "a" in s4.items;
  }

  // ---- The program ----

  method Listed(s: set<Sha>) returns (list: seq<Sha>)
    ensures SetOf(list) == s
  {
    list := [];
    var rest := s;
    while rest != {}
      invariant rest <= s && SetOf(list) == s - rest
      decreases rest
    {
      var x :| x in rest;
      SetAppend(list, x);
      list := list + [x];
      rest := rest - {x};
    }
  }

  /** The part of HomeCache that reports. An await ends a method: in between, the store may change. */
  class HomeCache {
    const store: Store
    var needFull: bool
    var flight: Flight

    constructor (store: Store)
      ensures this.store == store && needFull && flight.Idle?
    {
      this.store := store;
      needFull, flight := true, Idle;
    }

    /** The protocol state, for a server view. */
    ghost function With(server: set<Sha>): State
      reads this, store
    {
      State(store.items.Keys, store.added, store.removed, needFull, flight, server)
    }

    /** report up to its first post; `due` says that the last full report is six hours old. */
    method BeginReport(due: bool) returns (ghost e: Event)
      requires store.Valid() && flight.Idle?
      modifies this
      ensures e.Begin? && e.due == due
      ensures forall server :: Enabled(old(With(server)), e) && With(server) == Do(old(With(server)), e)
    {
      hide Posts, Total;
      var full := needFull || due;
      var have, gone;
      if full {
        have, gone := store.order, [];
        assert SetOf(have) == store.items.Keys;
      } else {
        have := Listed(store.added);
        gone := Listed(store.removed);
      }
      e := Begin(due, have, gone);
      flight := Posting(full, have, gone, 0, true);
    }

    /** The body of the next post. */
    method NextPost() returns (full: bool, have: seq<Sha>, gone: seq<Sha>)
      requires flight.Posting? && flight.ok && flight.sent < Posts(flight.have, flight.gone)
      ensures forall server :: (if full then {} else server) + SetOf(have) - SetOf(gone) == Received(flight, server)
      ensures |have| <= 5000 && |gone| <= 5000
    {
      full := flight.full && flight.sent == 0;
      have, gone := Part(flight.have, flight.sent), Part(flight.gone, flight.sent);
    }

    /** The answer to a post. */
    method Posted(ok: bool)
      requires flight.Posting? && flight.ok && flight.sent < Posts(flight.have, flight.gone)
      modifies this
      ensures forall server, applied :: (ok ==> applied) ==>
                && Enabled(old(With(server)), Post(applied, ok))
                && Do(old(With(server)), Post(applied, ok)) ==
                   With(if applied then Received(old(flight), server) else server)
    {
      flight := flight.(sent := flight.sent + 1, ok := ok);
    }

    /** report after its last post. */
    method FinishReport()
      requires flight.Posting? && (!flight.ok || flight.sent == Posts(flight.have, flight.gone)) && store.Valid()
      modifies this, store
      ensures store.Valid()
      ensures forall server :: Enabled(old(With(server)), Finish) && With(server) == Do(old(With(server)), Finish)
    {
      hide Posts, Total;
      if flight.ok {
        if flight.full {
          needFull := false;
          store.added, store.removed := {}, {};
        } else {
          store.added := store.added - SetOf(flight.have);
          store.removed := store.removed - SetOf(flight.gone);
        }
      } else {
        needFull := true;
      }
      flight := Idle;
    }

    method CommitBlob(sha: Sha, size: nat, kind: string, now: int)
      requires store.Valid()
      modifies store
      ensures store.Valid()
      ensures forall server :: With(server) == Do(old(With(server)), Commit(sha))
    {
      hide Posts, Total;
      store.Commit(sha, size, kind, now);
    }

    method RemoveBlob(sha: Sha)
      requires store.Valid()
      modifies store
      ensures store.Valid()
      ensures forall server :: With(server) == Do(old(With(server)), Remove(sha))
    {
      hide Posts, Total;
      store.Remove(sha);
    }
  }
}
