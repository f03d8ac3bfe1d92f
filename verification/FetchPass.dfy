/** One pass of HomeCache._sync (src/cache/cache.js): the wanted blobs are
    fetched in falling priority, each after room has been made for it. */
module FetchPass {
  import opened Bytes
  import opened StableSort
  import opened BlobStore

  datatype Want = Want(sha: Sha, size: nat, kind: string, priority: int)

  /** How a download ends; what it stores is an item of the announced size. */
  datatype Download = Fetched | Failed | Aborted

  /** A blob that went to make room for a wanted blob. */
  datatype Eviction = Eviction(victim: Sha, wanted: Want)

  const UNWANTED := -1_000_000_000_000_000

  predicate NoLess(v: Want, w: Want) {
    v.priority >= w.priority
  }

  /** Each blob is wanted once; the client drops repetitions. */
  predicate Once(want: seq<Want>) {
    forall i, j :: 0 <= i < j < |want| ==> want[i].sha != want[j].sha
  }

  predicate Falling(want: seq<Want>) {
    forall i, j :: 0 <= i < j < |want| ==> want[i].priority >= want[j].priority
  }

  function Prio(want: seq<Want>): (m: map<Sha, int>)
  {
    if want == [] then map[] else Prio(want[..|want| - 1])[want[|want| - 1].sha := want[|want| - 1].priority]
  }

  lemma {:induction false} PrioIs(want: seq<Want>)
    requires Once(want)
    ensures forall i :: 0 <= i < |want| ==> want[i].sha in Prio(want) && Prio(want)[want[i].sha] == want[i].priority
    ensures forall s :: s in Prio(want) ==> exists i :: 0 <= i < |want| && want[i].sha == s
    decreases |want|
  {
    if want != [] {
      PrioIs(want[..|want| - 1]);
    }
  }

  /** First what is no longer wanted, then what is wanted less; the rest is protected. */
  function RankFor(prio: map<Sha, int>, w: Want): Rank {
    (sha, it) =>
      if sha !in prio then Some(UNWANTED)
      else if prio[sha] < w.priority then Some(prio[sha])
      else None
  }

  /** A blob may go for `w` only if it is not wanted or wanted less. */
  predicate Justified(e: Eviction, prio: map<Sha, int>) {
    e.victim !in prio || prio[e.victim] < e.wanted.priority
  }

  ghost predicate AllJustified(log: seq<Eviction>, want: seq<Want>) {
    forall k :: 0 <= k < |log| ==> Justified(log[k], Prio(want)) && log[k].wanted in want
  }

  ghost predicate Logged(log: seq<Eviction>, x: Sha) {
    exists k :: 0 <= k < |log| && log[k].victim == x
  }

  /** The evictions of one makeRoom call. */
  ghost function EvictionsFor(vs: seq<Cand>, w: Want): (log: seq<Eviction>)
    ensures |log| == |vs| && forall k :: 0 <= k < |vs| ==> log[k] == Eviction(vs[k].sha, w)
  {
    seq(|vs|, k requires 0 <= k < |vs| => Eviction(vs[k].sha, w))
  }

  /** The stored blobs that are wanted with at least the priority `p`. */
  ghost function AtLeast(items: Items, prio: map<Sha, int>, p: int): (r: set<Sha>)
    ensures r <= items.Keys
  {
    set s | s in items && s in prio && prio[s] >= p
  }

  /** The blob `w` does not fit beside those that are wanted as much or more. */
  ghost predicate Crowded(items: Items, prio: map<Sha, int>, w: Want, limit: int) {
    limit < w.size + SumSet(AtLeast(items, prio, w.priority), items)
  }

  lemma ProtectedAre(items: Items, prio: map<Sha, int>, w: Want)
    ensures Protected(items, RankFor(prio, w)) == AtLeast(items, prio, w.priority)
  {
  }

  /** It stays crowded while those stay. */
  lemma StaysCrowded(a: Items, b: Items, prio: map<Sha, int>, w: Want, limit: int)
    requires Crowded(a, prio, w, limit)
    requires forall s :: s in a && s in prio && prio[s] >= w.priority ==> s in b && a[s] == b[s]
    ensures Crowded(b, prio, w, limit)
  {
    hide SumSet;
    SumSetGrows(AtLeast(a, prio, w.priority), a, AtLeast(b, prio, w.priority), b);
  }

  /** Each of the first `n` wanted blobs is there, or does not fit, or its download failed. */
  ghost predicate Supplied(items: Items, want: seq<Want>, limitAt: nat -> int, failed: set<nat>, n: int)
    requires n <= |want|
  {
    forall k :: 0 <= k < n && k !in failed ==>
                  want[k].sha in items || Crowded(items, Prio(want), want[k], limitAt(k))
  }

  lemma StaysSupplied(a: Items, b: Items, want: seq<Want>, limitAt: nat -> int, failed: set<nat>, i: nat)
    requires i < |want| && Once(want) && Falling(want) && Supplied(a, want, limitAt, failed, i)
    requires forall s :: s in a && s in Prio(want) && Prio(want)[s] >= want[i].priority ==> s in b && a[s] == b[s]
    ensures Supplied(b, want, limitAt, failed, i)
  {
    hide Prio, Crowded;
    PrioIs(want);
    forall k | 0 <= k < i && k !in failed
      ensures want[k].sha in b || Crowded(b, Prio(want), want[k], limitAt(k))
    {
      assert want[k].priority >= want[i].priority;
      if want[k].sha !in a {
        StaysCrowded(a, b, Prio(want), want[k], limitAt(k));
      }
    }
  }

  /** The failed downloads of a pass that got through the first `n` wanted blobs: it went
      through all of them unless three downloads failed or the last one was aborted. */
  ghost predicate EndedAt(failed: set<nat>, n: nat, want: seq<Want>, download: nat -> Download) {
    && n <= |want|
    && (forall k :: k in failed ==> k < n && download(k) != Fetched)
    && |failed| <= 3
    && (n < |want| ==> |failed| == 3 || (n > 0 && download(n - 1) == Aborted))
  }

  /** Every fetched blob is stored as it was wanted. */
  ghost predicate StoredAsWanted(items: Items, want: seq<Want>, fetched: set<Sha>) {
    forall x :: x in fetched ==>
                  x in items && exists i :: 0 <= i < |want| && WantedAs(items, want[i], x)
  }

  predicate WantedAs(items: Items, w: Want, x: Sha) {
    x in items && w.sha == x && items[x].size == w.size && items[x].kind == w.kind && items[x].lastUsedAt == 0
  }

  /** Room for one wanted blob: who had to go, and why each of them could. */
  method RoomFor(store: Store, w: Want, limit: int, want: seq<Want>) returns (ok: bool, ghost log: seq<Eviction>)
    requires store.Valid() && w in want
    modifies store
    ensures store.Valid() && AllJustified(log, want)
    ensures store.items.Keys <= old(store.items.Keys)
    ensures forall x :: x in old(store.items) ==> x in store.items || Logged(log, x)
    ensures forall x :: x in Prio(want) && Prio(want)[x] >= w.priority && x in old(store.items) ==> x in store.items
    ensures ok ==> store.usedBytes + w.size <= limit
    ensures store.usedBytes <= old(store.usedBytes)
    ensures forall x :: x in store.items ==> store.items[x] == old(store.items)[x]
    ensures ok <==> !Crowded(old(store.items), Prio(want), w, limit)
    ensures !ok ==> store.items == old(store.items)
  {
    hide Prio, Ranked, Fewest, SumOf, Total, SumSet;
    RoomExactlyIf(store.order, store.items, RankFor(Prio(want), w), limit, w.size);
    ProtectedAre(store.items, Prio(want), w);
    ghost var items := store.items;
    ghost var rank := RankFor(Prio(want), w);
    ghost var cs := Ranked(store.order, items, rank);
    ghost var k := 0;
    RankedIs(store.order, items, rank);
    RankedStored(store.order, items, rank);
    k := Fewest(cs, items, limit - store.usedBytes, w.size, 0);
    ok := store.MakeRoom(w.size, limit, RankFor(Prio(want), w));
    ghost var vs := if ok then cs[..k] else [];
    log := EvictionsFor(vs, w);
    VictimsJustified(vs, cs, items, want, w, log);
  }

  lemma VictimsJustified(vs: seq<Cand>, cs: seq<Cand>, items: Items, want: seq<Want>, w: Want, log: seq<Eviction>)
    requires vs <= cs && w in want && log == EvictionsFor(vs, w)
    requires forall c :: c in cs ==> IsCand(c, items, RankFor(Prio(want), w))
    ensures AllJustified(log, want)
    ensures forall x :: x in ShaSet(vs) ==> Logged(log, x) && !(x in Prio(want) && Prio(want)[x] >= w.priority)
  {
    hide Prio;
    forall i | 0 <= i < |vs|
      ensures Justified(log[i], Prio(want))
    {
      assert vs[i] == cs[i] && cs[i] in cs;
    }
    forall x | x in ShaSet(vs)
      ensures Logged(log, x) && !(x in Prio(want) && Prio(want)[x] >= w.priority)
    {
      var i :| 0 <= i < |vs| && vs[i].sha == x;
      assert Justified(log[i], Prio(want));
    }
  }

  /** One wanted blob: it is there, or does not fit, or room is made and the download tried. */
  method Fetch(store: Store, w: Want, limit: int, d: Download, now: int, want: seq<Want>)
    returns (tried: bool, ghost gone: seq<Eviction>)
    requires store.Valid() && w in want
    modifies store
    ensures store.Valid() && AllJustified(gone, want)
    ensures After(old(store.items), store.items, old(store.usedBytes), store.usedBytes, w, limit, tried && d == Fetched,
                  want, gone)
    ensures !tried ==> w.sha in store.items || w.size > limit || Crowded(store.items, Prio(want), w, limit)
  {
    hide Prio, Total, Crowded;
    gone := [];
    if w.sha in store.items || w.size > limit {
      return false, gone;
    }
    tried, gone := RoomFor(store, w, limit, want);
    if tried && d == Fetched {
      store.Commit(w.sha, w.size, w.kind, now);
    }
  }

  /** What one wanted blob did to the store. */
  ghost predicate After(a: Items, b: Items, used: int, used': int, w: Want, limit: int, got: bool, want: seq<Want>,
                        gone: seq<Eviction>) {
    && (forall x :: x in a ==> x in b || Logged(gone, x))
    && (forall x :: x in b && !(got && x == w.sha) ==> x in a && b[x] == a[x])
    && (forall x :: x in a && x in Prio(want) && Prio(want)[x] >= w.priority ==> x in b)
    && (if got then w.sha !in a && WantedAs(b, w, w.sha) && used' <= limit else used' <= used)
  }

  /** What a pass has done to the items. */
  ghost predicate Tracked(was: Items, items: Items, want: seq<Want>, fetched: set<Sha>, log: seq<Eviction>) {
    && fetched <= items.Keys <= was.Keys + fetched
    && StoredAsWanted(items, want, fetched)
    && (forall x :: x in items && x !in fetched ==> items[x] == was[x])
    && AllJustified(log, want)
    && (forall x :: x in was ==> x in items || Logged(log, x))
  }

  /** What it has fetched is wanted at least as much as what comes after the first `i`. */
  ghost predicate Ahead(fetched: set<Sha>, want: seq<Want>, i: nat) {
    forall x :: x in fetched ==>
                  x in Prio(want) && forall j :: i <= j < |want| ==> Prio(want)[x] >= want[j].priority
  }

  /** The bytes stay within a limit at which a blob was fetched, and never grow without one. */
  ghost predicate WithinLimit(wasUsed: int, used: int, want: seq<Want>, limitAt: nat -> int, fetched: set<Sha>) {
    if fetched == {} then used <= wasUsed
    else exists j :: 0 <= j < |want| && want[j].sha in fetched && used <= limitAt(j)
  }

  ghost predicate Progress(was: Items, wasUsed: int, items: Items, used: int, want: seq<Want>, limitAt: nat -> int,
                           fetched: set<Sha>, log: seq<Eviction>, i: nat) {
    && Tracked(was, items, want, fetched, log) && Ahead(fetched, want, i)
    && WithinLimit(wasUsed, used, want, limitAt, fetched)
  }

  lemma Proceeds(was: Items, wasUsed: int, a: Items, b: Items, used: int, used': int, want: seq<Want>,
                 limitAt: nat -> int, fetched: set<Sha>, log: seq<Eviction>, gone: seq<Eviction>, i: nat, got: bool)
    requires i < |want| && Once(want) && Falling(want) && AllJustified(gone, want)
    requires Progress(was, wasUsed, a, used, want, limitAt, fetched, log, i)
    requires After(a, b, used, used', want[i], limitAt(i), got, want, gone)
    ensures Progress(was, wasUsed, b, used', want, limitAt, if got then fetched + {want[i].sha} else fetched,
                     log + gone, i + 1)
  {
    hide Prio, Tracked, Ahead, WithinLimit, After, AllJustified;
    FetchedStay(a, b, used, used', want, limitAt(i), fetched, gone, i, got);
    TrackedOn(was, a, b, used, used', want, limitAt(i), fetched, log, gone, i, got);
    AheadOn(fetched, want, i, got);
    WithinOn(wasUsed, a, b, used, used', want, limitAt, fetched, gone, i, got);
  }

  lemma FetchedStay(a: Items, b: Items, used: int, used': int, want: seq<Want>, limit: int, fetched: set<Sha>,
                    gone: seq<Eviction>, i: nat, got: bool)
    requires i < |want| && Ahead(fetched, want, i)
    requires After(a, b, used, used', want[i], limit, got, want, gone)
    ensures forall x :: x in fetched && x in a ==> x in b && b[x] == a[x]
  {
    hide Prio;
  }

  lemma TrackedOn(was: Items, a: Items, b: Items, used: int, used': int, want: seq<Want>, limit: int,
                  fetched: set<Sha>, log: seq<Eviction>, gone: seq<Eviction>, i: nat, got: bool)
    requires i < |want| && AllJustified(gone, want) && Tracked(was, a, want, fetched, log)
    requires After(a, b, used, used', want[i], limit, got, want, gone)
    requires forall x :: x in fetched && x in a ==> x in b && b[x] == a[x]
    ensures Tracked(was, b, want, if got then fetched + {want[i].sha} else fetched, log + gone)
  {
    hide Prio, AllJustified, Logged;
    LogGrows(log, gone, want);
    StillWanted(a, b, want, fetched);
  }

  lemma AheadOn(fetched: set<Sha>, want: seq<Want>, i: nat, got: bool)
    requires i < |want| && Once(want) && Falling(want) && Ahead(fetched, want, i)
    ensures Ahead(if got then fetched + {want[i].sha} else fetched, want, i + 1)
  {
    hide Prio;
    PrioIs(want);
  }

  lemma WithinOn(wasUsed: int, a: Items, b: Items, used: int, used': int, want: seq<Want>, limitAt: nat -> int,
                 fetched: set<Sha>, gone: seq<Eviction>, i: nat, got: bool)
    requires i < |want| && WithinLimit(wasUsed, used, want, limitAt, fetched)
    requires After(a, b, used, used', want[i], limitAt(i), got, want, gone)
    ensures WithinLimit(wasUsed, used', want, limitAt, if got then fetched + {want[i].sha} else fetched)
  {
    hide Prio, Logged;
    if got {
      assert want[i].sha in fetched + {want[i].sha};
    } else if fetched != {} {
      var j :| 0 <= j < |want| && want[j].sha in fetched && used <= limitAt(j);
      assert used' <= limitAt(j);
    }
  }

  lemma StillWanted(a: Items, b: Items, want: seq<Want>, fetched: set<Sha>)
    requires StoredAsWanted(a, want, fetched) && forall x :: x in fetched ==> x in b && b[x] == a[x]
    ensures StoredAsWanted(b, want, fetched)
  {
    forall x | x in fetched
      ensures exists i :: 0 <= i < |want| && WantedAs(b, want[i], x)
    {
      var i :| 0 <= i < |want| && WantedAs(a, want[i], x);
      assert WantedAs(b, want[i], x);
    }
  }

  /** The whole pass. `limitAt` is the room the disk and the settings leave at
      each round, `download` how each fetch ends, `clock` the time. */
  method Pass(store: Store, want: seq<Want>, limitAt: nat -> int, download: nat -> Download, clock: nat -> int)
    returns (fetched: set<Sha>, ghost log: seq<Eviction>, ghost failed: set<nat>, ghost n: nat)
    requires store.Valid() && Once(want) && Falling(want)
    modifies store
    ensures store.Valid()
    // what this pass fetched, it still has, with the size and kind that were wanted
    ensures fetched <= store.items.Keys <= old(store.items.Keys) + fetched
    ensures StoredAsWanted(store.items, want, fetched)
    ensures forall x :: x in store.items && x !in fetched ==> store.items[x] == old(store.items)[x]
    // the bytes stay within a limit at which a blob was fetched, and never grow without one
    ensures WithinLimit(old(store.usedBytes), store.usedBytes, want, limitAt, fetched)
    // nothing is lost but by an eviction for a blob that is wanted more
    ensures AllJustified(log, want)
    ensures forall x :: x in old(store.items) ==> x in store.items || Logged(log, x)
    // so a blob that is wanted at least as much as every other stays
    ensures forall x ::
              (x in old(store.items) && x in Prio(want) && forall w :: w in want ==> w.priority <= Prio(want)[x]) ==>
                x in store.items
    // what the pass looked at and is missing does not fit beside what is wanted as much or more, or could not be loaded
    ensures EndedAt(failed, n, want, download) && Supplied(store.items, want, limitAt, failed, n)
    ensures (forall i :: 0 <= i < |want| ==> download(i) == Fetched) ==> failed == {} && n == |want|
  {
    hide Prio, Total, Crowded, Supplied, Progress, After, AllJustified, Ordered, Within, Tracked, WithinLimit,
      StoredAsWanted, Logged;
    fetched, log, failed, n := {}, [], {}, 0;
    var failures := 0;
    NothingYet(store.items, store.usedBytes, want, limitAt);
    for i := 0 to |want|
      invariant n == i && failures == |failed| < 3
      invariant forall k :: k in failed ==> k < i && download(k) != Fetched
      invariant store.Valid() && Supplied(store.items, want, limitAt, failed, i)
      invariant Progress(old(store.items), old(store.usedBytes), store.items, store.usedBytes, want, limitAt, fetched,
                         log, i)
    {
      n := i + 1;
      var w := want[i];
      ghost var before, used := store.items, store.usedBytes;
      var tried, gone := Fetch(store, w, limitAt(i), download(i), clock(i), want);
      var got := tried && download(i) == Fetched;
      Proceeds(old(store.items), old(store.usedBytes), before, store.items, used, store.usedBytes, want, limitAt,
               fetched, log, gone, i, got);
      log := log + gone;
      AfterKeeps(before, store.items, used, store.usedBytes, w, limitAt(i), got, want, gone);
      if tried && download(i) != Fetched {
        failed := OneMoreFailed(before, store.items, want, limitAt, failed, i);
        failures := failures + 1;
        if download(i) == Aborted || failures >= 3 {
          break;
        }
      } else {
        OneMoreSupplied(before, store.items, want, limitAt, failed, i);
        if got {
          fetched := fetched + {w.sha};
        }
      }
    }
    Ended(old(store.items), old(store.usedBytes), store.items, store.usedBytes, want, limitAt, fetched, log, n);
    TopStays(log, want);
  }

  lemma AfterKeeps(a: Items, b: Items, used: int, used': int, w: Want, limit: int, got: bool, want: seq<Want>,
                   gone: seq<Eviction>)
    requires After(a, b, used, used', w, limit, got, want, gone)
    ensures forall s :: s in a && s in Prio(want) && Prio(want)[s] >= w.priority ==> s in b && a[s] == b[s]
    ensures got ==> w.sha in b
  {
    hide Prio;
  }

  lemma Ended(was: Items, wasUsed: int, items: Items, used: int, want: seq<Want>, limitAt: nat -> int,
              fetched: set<Sha>, log: seq<Eviction>, i: nat)
    requires Progress(was, wasUsed, items, used, want, limitAt, fetched, log, i)
    ensures fetched <= items.Keys <= was.Keys + fetched && StoredAsWanted(items, want, fetched)
    ensures forall x :: x in items && x !in fetched ==> items[x] == was[x]
    ensures WithinLimit(wasUsed, used, want, limitAt, fetched)
    ensures AllJustified(log, want) && forall x :: x in was ==> x in items || Logged(log, x)
  {
    hide Prio;
  }

  lemma NothingYet(items: Items, used: int, want: seq<Want>, limitAt: nat -> int)
    ensures Supplied(items, want, limitAt, {}, 0) && Progress(items, used, items, used, want, limitAt, {}, [], 0)
  {
  }

  lemma OneMoreSupplied(a: Items, b: Items, want: seq<Want>, limitAt: nat -> int, failed: set<nat>, i: nat)
    requires i < |want| && Once(want) && Falling(want) && Supplied(a, want, limitAt, failed, i)
    requires forall s :: s in a && s in Prio(want) && Prio(want)[s] >= want[i].priority ==> s in b && a[s] == b[s]
    requires want[i].sha in b || want[i].size > limitAt(i) || Crowded(b, Prio(want), want[i], limitAt(i))
             || i in failed
    ensures Supplied(b, want, limitAt, failed, i + 1)
  {
    hide Prio;
    StaysSupplied(a, b, want, limitAt, failed, i);
  }

  lemma OneMoreFailed(a: Items, b: Items, want: seq<Want>, limitAt: nat -> int, failed: set<nat>, i: nat)
    returns (more: set<nat>)
    requires i < |want| && Once(want) && Falling(want) && Supplied(a, want, limitAt, failed, i) && i !in failed
    requires forall s :: s in a && s in Prio(want) && Prio(want)[s] >= want[i].priority ==> s in b && a[s] == b[s]
    ensures more == failed + {i} && |more| == |failed| + 1 && Supplied(b, want, limitAt, more, i + 1)
  {
    hide Prio, Crowded;
    more := failed + {i};
    assert Supplied(a, want, limitAt, more, i);
    OneMoreSupplied(a, b, want, limitAt, more, i);
  }

  lemma LogGrows(a: seq<Eviction>, b: seq<Eviction>, want: seq<Want>)
    ensures AllJustified(a, want) && AllJustified(b, want) ==> AllJustified(a + b, want)
    ensures forall x :: Logged(a, x) || Logged(b, x) ==> Logged(a + b, x)
  {
    hide Prio;
    forall x | Logged(a, x) || Logged(b, x)
      ensures Logged(a + b, x)
    {
      if Logged(a, x) {
        var k :| 0 <= k < |a| && a[k].victim == x;
        assert (a + b)[k].victim == x;
      } else {
        var k :| 0 <= k < |b| && b[k].victim == x;
        assert (a + b)[|a| + k].victim == x;
      }
    }
  }

  lemma TopStays(log: seq<Eviction>, want: seq<Want>)
    requires AllJustified(log, want)
    ensures forall x :: x in Prio(want) && (forall w :: w in want ==> w.priority <= Prio(want)[x]) ==> !Logged(log, x)
  {
    hide Prio;
  }

  /** A blob that is not wanted goes before a wanted one if that one has a priority above -10^15, and
      behind it if the priority is below. */
  lemma UnwantedFirst(order: seq<Sha>, items: Items, want: seq<Want>, w: Want, i: nat, j: nat)
    requires Ordered(order, items) && Within(order, items)
    requires var cs := Ranked(order, items, RankFor(Prio(want), w));
             i < |cs| && j < |cs| && cs[i].sha !in Prio(want) && cs[j].sha in Prio(want)
    ensures var p := Prio(want)[Ranked(order, items, RankFor(Prio(want), w))[j].sha];
            (p > -1_000_000_000_000_000 ==> i < j) && (p < -1_000_000_000_000_000 ==> j < i)
  {
    hide Prio, Ranked;
    var cs := Ranked(order, items, RankFor(Prio(want), w));
    RankedIs(order, items, RankFor(Prio(want), w));
    assert cs[i] in cs && cs[j] in cs;
  }

  /** _sync sorts the wanted list by falling priority; a stable sort keeps every entry once. */
  lemma SortedWant(all: seq<Want>)
    requires Once(all)
    ensures Falling(SortBy(all, NoLess)) && Once(SortBy(all, NoLess))
    ensures forall w :: w in SortBy(all, NoLess) <==> w in all
  {
    hide SortBy;
    var r := SortBy(all, NoLess);
    SortBySorts(all, NoLess);
    forall i, j | 0 <= i < j < |r|
      ensures r[i].priority >= r[j].priority
    {
      assert NoLess(r[i], r[j]);
    }
    forall w
      ensures w in r <==> w in all
    {
      SortMembers(all, NoLess, w);
    }
    DistinctPermuted(all, r, (w: Want) => w.sha);
  }
}
