/** The blob store of the home cache (src/cache/store.js): which blobs are
    kept, how many bytes they use, what changed since the last report, and
    which blobs go when room is needed. */
module BlobStore {
  import opened Bytes
  import opened StableSort
  import opened Sequences

  type Sha = string

  datatype Item = Item(size: nat, kind: string, storedAt: int, lastUsedAt: int)

  type Items = map<Sha, Item>

  /** A smaller number goes first, None is protected. */
  type Rank = (Sha, Item) -> Option<int>

  datatype Cand = Cand(sha: Sha, rank: int, used: int)

  // ---- The keys of a Map in insertion order ----

  ghost predicate Ordered(order: seq<Sha>, items: Items) {
    Distinct(order) && forall s :: s in order <==> s in items
  }

  predicate Within(order: seq<Sha>, items: Items) {
    forall i :: 0 <= i < |order| ==> order[i] in items
  }

  function Total(order: seq<Sha>, items: Items): (n: nat)
    requires Within(order, items)
  {
    if order == [] then 0 else
    assert order[|order| - 1] in items;
    Total(order[..|order| - 1], items) + items[order[|order| - 1]].size
  }

  function Dropped(order: seq<Sha>, sha: Sha): (r: seq<Sha>)
  {
    Filter(order, s => s != sha)
  }

  lemma {:induction false} TotalSame(order: seq<Sha>, a: Items, b: Items)
    requires Within(order, a) && Within(order, b)
    requires forall i :: 0 <= i < |order| ==> a[order[i]].size == b[order[i]].size
    ensures Total(order, a) == Total(order, b)
    decreases |order|
  {
    if order != [] {
      TotalSame(order[..|order| - 1], a, b);
    }
  }

  lemma {:induction false} TotalReplaced(order: seq<Sha>, items: Items, sha: Sha, v: Item)
    requires Ordered(order, items) && sha in items
    ensures Within(order, items[sha := v])
    ensures Total(order, items[sha := v]) == Total(order, items) - items[sha].size + v.size
  {
    TotalReplacedIn(order, items, sha, v);
  }

  lemma {:induction false} TotalReplacedIn(order: seq<Sha>, items: Items, sha: Sha, v: Item)
    requires Distinct(order) && Within(order, items) && sha in order && sha in items
    ensures Within(order, items[sha := v])
    ensures Total(order, items[sha := v]) == Total(order, items) - items[sha].size + v.size
    decreases |order|
  {
    var n := |order| - 1;
    if order[n] == sha {
      assert forall i :: 0 <= i < n ==> order[..n][i] != sha;
      TotalSame(order[..n], items, items[sha := v]);
    } else {
      assert order == order[..n] + [order[n]];
      TotalReplacedIn(order[..n], items, sha, v);
    }
  }

  lemma DroppedIs(order: seq<Sha>, sha: Sha)
    requires Distinct(order)
    ensures Distinct(Dropped(order, sha))
    ensures forall s :: s in Dropped(order, sha) <==> s in order && s != sha
  {
    hide Filter, Distinct;
    FilterDistinct(order, s => s != sha);
    forall x
      ensures x in Dropped(order, sha) <==> x in order && x != sha
    {
      FilterMembers(order, s => s != sha, x);
    }
  }

  lemma {:induction false} TotalDropped(order: seq<Sha>, items: Items, sha: Sha)
    requires Distinct(order) && Within(order, items)
    ensures Within(Dropped(order, sha), items)
    ensures Total(Dropped(order, sha), items) == Total(order, items) - if sha in order then items[sha].size else 0
    decreases |order|
  {
    DroppedIs(order, sha);
    if order != [] {
      var n := |order| - 1;
      assert order == order[..n] + [order[n]];
      TotalDropped(order[..n], items, sha);
      var r := Dropped(order[..n], sha);
      if order[n] != sha {
        assert (r + [order[n]])[..|r|] == r;
        assert sha in order <==> sha in order[..n];
      } else {
        assert sha !in order[..n];
        assert Dropped(order, sha) == r;
      }
    }
  }

  // ---- Who goes first ----

  function LastUse(it: Item): int {
    if it.lastUsedAt != 0 then it.lastUsedAt else it.storedAt
  }

  function Candidates(order: seq<Sha>, items: Items, rank: Rank): (cs: seq<Cand>)
    requires Within(order, items)
  {
    if order == [] then [] else
    var sha := order[|order| - 1];
    assert sha in items;
    var r := rank(sha, items[sha]);
    Candidates(order[..|order| - 1], items, rank) +
    if r.None? then [] else [Cand(sha, r.value, LastUse(items[sha]))]
  }

  /** `c` goes no later than `d`: by rank, then by last use. */
  predicate NoLater(c: Cand, d: Cand) {
    c.rank < d.rank || (c.rank == d.rank && c.used <= d.used)
  }

  lemma NoLaterOrders()
    ensures IsOrder(NoLater)
  {
  }

  /** The unprotected blobs, in the order in which they would go. */
  function Ranked(order: seq<Sha>, items: Items, rank: Rank): (cs: seq<Cand>)
    requires Within(order, items)
  {
    SortBy(Candidates(order, items, rank), NoLater)
  }

  predicate IsCand(c: Cand, items: Items, rank: Rank) {
    && c.sha in items && rank(c.sha, items[c.sha]) == Some(c.rank) && c.used == LastUse(items[c.sha])
  }

  predicate DistinctCands(cs: seq<Cand>) {
    forall i, j :: 0 <= i < j < |cs| ==> cs[i].sha != cs[j].sha
  }

  lemma {:induction false} CandidatesAre(order: seq<Sha>, items: Items, rank: Rank)
    requires Distinct(order) && Within(order, items)
    ensures DistinctCands(Candidates(order, items, rank))
    ensures forall c :: c in Candidates(order, items, rank) <==> c.sha in order && IsCand(c, items, rank)
    decreases |order|
  {
    if order != [] {
      var n := |order| - 1;
      assert order == order[..n] + [order[n]];
      CandidatesAre(order[..n], items, rank);
      var cs := Candidates(order[..n], items, rank);
      forall i | 0 <= i < |cs|
        ensures cs[i].sha != order[n]
      {
        assert cs[i] in cs;
      }
    }
  }

  /** Every unprotected blob once, by rank, then by last use. */
  lemma RankedIs(order: seq<Sha>, items: Items, rank: Rank)
    requires Ordered(order, items) && Within(order, items)
    ensures Rising(Ranked(order, items, rank), NoLater)
    ensures DistinctCands(Ranked(order, items, rank))
    ensures forall c :: c in Ranked(order, items, rank) <==> IsCand(c, items, rank)
  {
    hide SortBy, Candidates;
    var cs := Candidates(order, items, rank);
    CandidatesAre(order, items, rank);
    NoLaterOrders();
    SortBySorts(cs, NoLater);
    DistinctPermuted(cs, SortBy(cs, NoLater), (c: Cand) => c.sha);
    forall c
      ensures c in SortBy(cs, NoLater) <==> c in cs
    {
      SortMembers(cs, NoLater, c);
    }
  }

  /** The bytes of the candidates. */
  function SumOf(cs: seq<Cand>, items: Items): (n: nat)
    requires forall i :: 0 <= i < |cs| ==> cs[i].sha in items
  {
    if cs == [] then 0 else
    assert cs[|cs| - 1].sha in items;
    SumOf(cs[..|cs| - 1], items) + items[cs[|cs| - 1].sha].size
  }

  predicate Stored(cs: seq<Cand>, items: Items) {
    forall i :: 0 <= i < |cs| ==> cs[i].sha in items
  }

  /** How many of the candidates have to go, counted from `j`: the fewest that free enough, or all. */
  function Fewest(cs: seq<Cand>, items: Items, free: int, bytes: nat, j: nat): (k: nat)
    requires Stored(cs, items) && j <= |cs|
    ensures j <= k <= |cs| && (k < |cs| ==> free + SumOf(cs[..k], items) >= bytes)
    ensures forall i :: j <= i < k ==> free + SumOf(cs[..i], items) < bytes
    decreases |cs| - j
  {
    if j == |cs| || free + SumOf(cs[..j], items) >= bytes then j else Fewest(cs, items, free, bytes, j + 1)
  }

  function ShaSet(cs: seq<Cand>): set<Sha> {
    set c | c in cs :: c.sha
  }

  /** makeRoom succeeds: the fewest candidates that free enough are not all too few. */
  predicate Enough(cs: seq<Cand>, items: Items, free: int, bytes: nat)
    requires Stored(cs, items)
  {
    free + SumOf(cs[..Fewest(cs, items, free, bytes, 0)], items) >= bytes
  }

  // ---- What makeRoom promises, said of the items alone ----

  /** The last sign of life of `a` is no later than that of `b`: the last use,
      or for a blob that was never used the time it was stored. */
  predicate IdleAsLong(a: Item, b: Item) {
    && (a.lastUsedAt != 0 && b.lastUsedAt != 0 ==> a.lastUsedAt <= b.lastUsedAt)
    && (a.lastUsedAt == 0 && b.lastUsedAt == 0 ==> a.storedAt <= b.storedAt)
    && (a.lastUsedAt != 0 && b.lastUsedAt == 0 ==> a.lastUsedAt <= b.storedAt)
    && (a.lastUsedAt == 0 && b.lastUsedAt != 0 ==> a.storedAt <= b.lastUsedAt)
  }

  /** `v` may go while `c` stays. */
  predicate GoesBefore(items: Items, rank: Rank, v: Sha, c: Sha)
    requires v in items && c in items
  {
    var r, q := rank(v, items[v]), rank(c, items[c]);
    && r.Some?
    && (q.Some? ==> r.value < q.value || (r.value == q.value && IdleAsLong(items[v], items[c])))
  }

  /** Only blobs that may go before all that stay are gone, and of these not one too many. */
  ghost predicate FairlyGone(items: Items, after: Items, rank: Rank, used: int, bytes: nat, limit: int) {
    && (forall v, c :: v in items && v !in after && c in after && c in items ==> GoesBefore(items, rank, v, c))
    && (after != items ==> exists v :: v in items && v !in after && used + items[v].size + bytes > limit)
  }

  lemma FairVictims(order: seq<Sha>, items: Items, rank: Rank, k: nat)
    requires Ordered(order, items) && Within(order, items) && k <= |Ranked(order, items, rank)|
    ensures var gone := ShaSet(Ranked(order, items, rank)[..k]);
            forall v, c :: v in gone && c in items && c !in gone ==> v in items && GoesBefore(items, rank, v, c)
  {
    hide Ranked;
    var cs := Ranked(order, items, rank);
    RankedIs(order, items, rank);
    var gone := ShaSet(cs[..k]);
    forall v, c | v in gone && c in items && c !in gone
      ensures v in items && GoesBefore(items, rank, v, c)
    {
      var i :| 0 <= i < k && cs[..k][i].sha == v;
      assert cs[i] in cs;
      var q := rank(c, items[c]);
      if q.Some? {
        VictimsAreLowest(order, items, rank, k, i, Cand(c, q.value, LastUse(items[c])));
      }
    }
  }

  /** Without the last victim there is too little room. */
  lemma LastVictim(cs: seq<Cand>, items: Items, free: int, bytes: nat)
    requires Stored(cs, items)
    ensures var k := Fewest(cs, items, free, bytes, 0);
            k > 0 ==> cs[k - 1].sha in ShaSet(cs[..k]) &&
                      free + SumOf(cs[..k], items) - items[cs[k - 1].sha].size < bytes
  {
    var k := Fewest(cs, items, free, bytes, 0);
    if k > 0 {
      assert cs[..k][..k - 1] == cs[..k - 1];
      assert cs[..k][k - 1] in cs[..k];
    }
  }

  /** The fewest ranked blobs that free enough are fairly gone. */
  lemma FairRoom(order: seq<Sha>, items: Items, rank: Rank, used: int, bytes: nat, limit: int)
    requires Ordered(order, items) && Within(order, items)
    ensures var cs := Ranked(order, items, rank);
            && Stored(cs, items)
            && var vs := cs[..Fewest(cs, items, limit - used, bytes, 0)];
            FairlyGone(items, items - ShaSet(vs), rank, used - SumOf(vs, items), bytes, limit)
  {
    hide Ranked, SumOf, Ordered, Within, GoesBefore, Distinct;
    var cs := Ranked(order, items, rank);
    RankedStored(order, items, rank);
    var k := Fewest(cs, items, limit - used, bytes, 0);
    FairVictims(order, items, rank, k);
    LastVictim(cs, items, limit - used, bytes);
    NoVictims(cs, items, {}, {});
  }

  lemma NobodyGone(items: Items, rank: Rank, used: int, bytes: nat, limit: int)
    ensures FairlyGone(items, items, rank, used, bytes, limit)
  {
  }

  class Store {
    var items: Items
    var order: seq<Sha>
    var usedBytes: int
    var added: set<Sha>
    var removed: set<Sha>
    var dirty: bool

    /** usedBytes is the sum of the item sizes, and the changes since the last report fit the items. */
    ghost predicate Valid()
      reads this
    {
      && Ordered(order, items) && Within(order, items)
      && usedBytes == Total(order, items)
      && added <= items.Keys && removed !! items.Keys
    }

    constructor ()
      ensures Valid() && items == map[] && usedBytes == 0 && added == {} && removed == {}
    {
      items, order, usedBytes, added, removed, dirty := map[], [], 0, {}, {}, false;
    }

    /** _set. */
    method Put(sha: Sha, v: Item)
      requires Ordered(order, items) && Within(order, items) && usedBytes == Total(order, items)
      modifies this
      ensures Ordered(order, items) && Within(order, items) && usedBytes == Total(order, items)
      ensures items == old(items)[sha := v] && added == old(added) && removed == old(removed) && dirty
      ensures order == if sha in old(items) then old(order) else old(order) + [sha]
    {
      hide Total;
      if sha in items {
        TotalReplaced(order, items, sha, v);
        usedBytes := usedBytes - items[sha].size;
      } else {
        Appended(order, items, sha, v);
        order := order + [sha];
      }
      items := items[sha := v];
      usedBytes := usedBytes + v.size;
      dirty := true;
    }

    /** A finished download becomes an item. */
    method Commit(sha: Sha, size: nat, kind: string, now: int)
      requires Valid()
      modifies this
      ensures Valid()
      ensures items == old(items)[sha := Item(size, kind, now, 0)]
      ensures added == old(added) + {sha} && removed == old(removed) - {sha}
      ensures sha !in old(items) ==> usedBytes == old(usedBytes) + size
    {
      if sha !in items {
        Appended(order, items, sha, Item(size, kind, now, 0));
      }
      Put(sha, Item(size, kind, now, 0));
      added := added + {sha};
      removed := removed - {sha};
    }

    method Touch(sha: Sha, now: int)
      requires Valid()
      modifies this
      ensures Valid() && usedBytes == old(usedBytes) && added == old(added) && removed == old(removed)
      ensures items == if sha in old(items) then old(items)[sha := old(items)[sha].(lastUsedAt := now)] else old(items)
    {
      if sha in items {
        TotalReplaced(order, items, sha, items[sha].(lastUsedAt := now));
        items := items[sha := items[sha].(lastUsedAt := now)];
        dirty := true;
      }
    }

    method Remove(sha: Sha)
      requires Valid()
      modifies this
      ensures Valid()
      ensures items == old(items) - {sha} && order == Dropped(old(order), sha)
      ensures usedBytes == old(usedBytes) - if sha in old(items) then old(items)[sha].size else 0
      ensures added == old(added) - {sha}
      ensures removed == old(removed) + if sha in old(items) then {sha} else {}
    {
      hide Total, Ordered, Within, Dropped;
      if sha !in items {
        Untouched(order, items, sha);
        return;
      }
      DroppedItem(order, items, sha);
      usedBytes := usedBytes - items[sha].size;
      items := items - {sha};
      order := Dropped(order, sha);
      dirty := true;
      removed := removed + {sha};
      added := added - {sha};
    }

    /** The loop that collects victims. */
    method Victims(cs: seq<Cand>, bytes: nat, limit: int) returns (k: nat, free: int)
      requires Stored(cs, items)
      ensures k == Fewest(cs, items, limit - usedBytes, bytes, 0) && k <= |cs|
      ensures free == limit - usedBytes + SumOf(cs[..k], items)
    {
      hide SumOf;
      NoneTaken(cs, items);
      free := limit - usedBytes;
      k := 0;
      while k < |cs| && free < bytes
        invariant k <= |cs| && free == limit - usedBytes + SumOf(cs[..k], items)
        invariant Fewest(cs, items, limit - usedBytes, bytes, 0) == Fewest(cs, items, limit - usedBytes, bytes, k)
      {
        OneTaken(cs, items, k);
        free := free + items[cs[k].sha].size;
        k := k + 1;
      }
    }

    /** makeRoom: the shortest prefix of the ranked blobs that frees enough goes, or nothing changes. */
    method MakeRoom(bytes: nat, limit: int, rank: Rank) returns (ok: bool)
      requires Valid()
      modifies this
      ensures Valid()
      ensures var cs := Ranked(old(order), old(items), rank);
              && Stored(cs, old(items))
              && var free := limit - old(usedBytes);
              && var gone := ShaSet(cs[..Fewest(cs, old(items), free, bytes, 0)]);
              && ok == Enough(cs, old(items), free, bytes)
              && (ok ==> items == old(items) - gone && added == old(added) - gone && removed == old(removed) + gone)
      ensures ok ==> usedBytes + bytes <= limit
      ensures ok ==> FairlyGone(old(items), items, rank, usedBytes, bytes, limit)
      ensures usedBytes <= old(usedBytes)
      ensures !ok ==> items == old(items) && order == old(order) && usedBytes == old(usedBytes)
                      && added == old(added) && removed == old(removed)
    {
      hide Total, Ranked, Ordered, Within, Distinct, SumOf, FairlyGone;
      RankedIs(order, items, rank);
      NobodyGone(items, rank, usedBytes, bytes, limit);
      var cs := Ranked(order, items, rank);
      RankedStored(order, items, rank);
      NoVictims(cs, items, added, removed);
      if usedBytes + bytes <= limit {
        return true;
      }
      var k, free := Victims(cs, bytes, limit);
      if free < bytes {
        return false;
      }
      FairRoom(order, items, rank, usedBytes, bytes, limit);
      RemoveAll(cs[..k]);
      ok := true;
    }

    method RemoveAll(vs: seq<Cand>)
      requires Valid() && Stored(vs, items) && DistinctCands(vs)
      modifies this
      ensures Valid()
      ensures items == old(items) - ShaSet(vs) && added == old(added) - ShaSet(vs)
      ensures removed == old(removed) + ShaSet(vs)
      ensures usedBytes == old(usedBytes) - SumOf(vs, old(items))
    {
      hide Total;
      NoVictims(vs, items, added, removed);
      for i := 0 to |vs|
        invariant Valid() && items == old(items) - ShaSet(vs[..i]) && added == old(added) - ShaSet(vs[..i])
        invariant removed == old(removed) + ShaSet(vs[..i])
        invariant usedBytes == old(usedBytes) - SumOf(vs[..i], old(items))
      {
        OneMore(vs, i);
        assert vs[..i + 1][..i] == vs[..i];
        Remove(vs[i].sha);
      }
      assert vs[..|vs|] == vs;
    }
  }

  /** A blob that was used just now goes last among its rank: makeRoom takes it only if it
      takes every other blob of that rank. */
  method TouchThenMakeRoom(store: Store, x: Sha, now: int, bytes: nat, limit: int, rank: Rank) returns (ok: bool)
    requires store.Valid() && x in store.items && now != 0
    requires forall s :: s in store.items ==> store.items[s].lastUsedAt < now && store.items[s].storedAt < now
    modifies store
    ensures store.Valid()
    ensures var was := old(store.items)[x := old(store.items)[x].(lastUsedAt := now)];
            x !in store.items ==>
              forall c :: c in was && rank(c, was[c]) == rank(x, was[x]) ==> c !in store.items
  {
    store.Touch(x, now);
    ghost var was := store.items;
    ok := store.MakeRoom(bytes, limit, rank);
    if x !in store.items {
      forall c | c in was && c in store.items
        ensures rank(c, was[c]) != rank(x, was[x])
      {
        assert GoesBefore(was, rank, x, c);
      }
    }
  }

  lemma OneMore(vs: seq<Cand>, i: nat)
    requires i < |vs| && DistinctCands(vs)
    ensures ShaSet(vs[..i + 1]) == ShaSet(vs[..i]) + {vs[i].sha} && vs[i].sha !in ShaSet(vs[..i])
  {
    assert vs[..i + 1] == vs[..i] + [vs[i]];
    assert vs[i] in vs[..i + 1];
  }

  lemma NoneTaken(cs: seq<Cand>, items: Items)
    ensures SumOf(cs[..0], items) == 0
  {
  }

  lemma OneTaken(cs: seq<Cand>, items: Items, k: nat)
    requires Stored(cs, items) && k < |cs|
    ensures SumOf(cs[..k + 1], items) == SumOf(cs[..k], items) + items[cs[k].sha].size
  {
    assert cs[..k + 1][..k] == cs[..k];
  }

  lemma NoVictims(vs: seq<Cand>, items: Items, added: set<Sha>, removed: set<Sha>)
    ensures ShaSet(vs[..0]) == {} && items - ShaSet(vs[..0]) == items
    ensures added - ShaSet(vs[..0]) == added && removed + ShaSet(vs[..0]) == removed
  {
  }

  lemma RankedStored(order: seq<Sha>, items: Items, rank: Rank)
    requires Ordered(order, items) && Within(order, items)
    ensures Stored(Ranked(order, items, rank), items)
  {
    hide Ranked;
    RankedIs(order, items, rank);
    var cs := Ranked(order, items, rank);
    forall i | 0 <= i < |cs|
      ensures cs[i].sha in items
    {
      assert cs[i] in cs;
    }
  }

  lemma Appended(order: seq<Sha>, items: Items, sha: Sha, v: Item)
    requires Ordered(order, items) && Within(order, items) && sha !in items
    ensures Ordered(order + [sha], items[sha := v]) && Within(order + [sha], items[sha := v])
    ensures Total(order + [sha], items[sha := v]) == Total(order, items) + v.size
  {
    assert sha !in order;
    assert (order + [sha])[..|order|] == order;
    TotalSame(order, items, items[sha := v]);
  }

  /** An item leaves the order and the total. */
  lemma DroppedItem(order: seq<Sha>, items: Items, sha: Sha)
    requires Ordered(order, items) && Within(order, items) && sha in items
    ensures var o, m := Dropped(order, sha), items - {sha};
            Ordered(o, m) && Within(o, m) && Total(o, m) == Total(order, items) - items[sha].size
  {
    hide Total, Dropped;
    TotalDropped(order, items, sha);
    DroppedIs(order, sha);
    DroppedWithin(order, items, sha);
    TotalSame(Dropped(order, sha), items, items - {sha});
  }

  lemma DroppedWithin(order: seq<Sha>, items: Items, sha: Sha)
    requires Ordered(order, items)
    ensures Ordered(Dropped(order, sha), items - {sha}) && Within(Dropped(order, sha), items - {sha})
  {
    hide Dropped;
    DroppedIs(order, sha);
    var o := Dropped(order, sha);
    forall i | 0 <= i < |o|
      ensures o[i] in items - {sha}
    {
      assert o[i] in o;
    }
  }

  lemma {:induction false} Untouched(order: seq<Sha>, items: Items, sha: Sha)
    requires Ordered(order, items) && sha !in items
    ensures Dropped(order, sha) == order && items - {sha} == items
  {
    DroppedNone(order, sha);
  }

  lemma DroppedNone(order: seq<Sha>, sha: Sha)
    requires sha !in order
    ensures Dropped(order, sha) == order
  {
    FilterAll(order, s => s != sha);
  }

  /** No protected blob is ever a victim, and of two candidates the one that ranks lower, then the one used earlier,
      goes first. */
  lemma VictimsAreLowest(order: seq<Sha>, items: Items, rank: Rank, k: nat, i: nat, c: Cand)
    requires Ordered(order, items) && Within(order, items) && i < k <= |Ranked(order, items, rank)|
    requires IsCand(c, items, rank) && c.sha !in ShaSet(Ranked(order, items, rank)[..k])
    ensures var v := Ranked(order, items, rank)[i];
            IsCand(v, items, rank) && NoLater(v, c)
  {
    hide Ranked;
    var cs := Ranked(order, items, rank);
    RankedIs(order, items, rank);
    assert cs[i] in cs && c in cs;
    var j :| 0 <= j < |cs| && cs[j] == c;
    PrefixMembers(cs, k);
  }

  lemma PrefixMembers(cs: seq<Cand>, k: nat)
    requires k <= |cs|
    ensures forall j :: 0 <= j < k ==> cs[j].sha in ShaSet(cs[..k])
  {
    forall j | 0 <= j < k
      ensures cs[j].sha in ShaSet(cs[..k])
    {
      assert cs[..k][j] in cs[..k];
    }
  }

  // ---- When room can be made ----

  /** The bytes of a set of blobs. */
  ghost function SumSet(S: set<Sha>, items: Items): (n: nat)
    requires S <= items.Keys
  {
    if S == {} then 0 else
    var x :| x in S;
    items[x].size + SumSet(S - {x}, items)
  }

  lemma {:induction false} SumSetTake(S: set<Sha>, items: Items, x: Sha)
    requires S <= items.Keys && x in S
    ensures SumSet(S, items) == items[x].size + SumSet(S - {x}, items)
    decreases |S|
  {
    var y :| y in S && SumSet(S, items) == items[y].size + SumSet(S - {y}, items);
    if y != x {
      SumSetTake(S - {y}, items, x);
      SumSetTake(S - {x}, items, y);
      assert S - {y} - {x} == S - {x} - {y};
    }
  }

  lemma {:induction false} SumSetBoth(A: set<Sha>, B: set<Sha>, items: Items)
    requires A <= items.Keys && B <= items.Keys && A !! B
    ensures SumSet(A + B, items) == SumSet(A, items) + SumSet(B, items)
    decreases |A|
  {
    if A == {} {
      assert A + B == B;
    } else {
      var x :| x in A;
      SumSetTake(A, items, x);
      SumSetTake(A + B, items, x);
      assert A + B - {x} == (A - {x}) + B;
      SumSetBoth(A - {x}, B, items);
    }
  }

  /** More blobs are more bytes. */
  lemma {:induction false} SumSetGrows(A: set<Sha>, a: Items, B: set<Sha>, b: Items)
    requires A <= B && A <= a.Keys && B <= b.Keys && forall x :: x in A ==> a[x].size == b[x].size
    ensures SumSet(A, a) <= SumSet(B, b)
    decreases |A|
  {
    if A != {} {
      var x :| x in A;
      SumSetTake(A, a, x);
      SumSetTake(B, b, x);
      SumSetGrows(A - {x}, a, B - {x}, b);
    }
  }

  lemma {:induction false} TotalIsSum(order: seq<Sha>, items: Items)
    requires Distinct(order) && Within(order, items)
    ensures SetOf(order) <= items.Keys && Total(order, items) == SumSet(SetOf(order), items)
    decreases |order|
  {
    if order != [] {
      var n := |order| - 1;
      TotalIsSum(order[..n], items);
      assert order == order[..n] + [order[n]];
      assert SetOf(order) - {order[n]} == SetOf(order[..n]);
      SumSetTake(SetOf(order), items, order[n]);
    }
  }

  lemma {:induction false} SumOfIsSum(cs: seq<Cand>, items: Items)
    requires DistinctCands(cs) && Stored(cs, items)
    ensures ShaSet(cs) <= items.Keys && SumOf(cs, items) == SumSet(ShaSet(cs), items)
    decreases |cs|
  {
    if cs != [] {
      var n := |cs| - 1;
      SumOfIsSum(cs[..n], items);
      LastCand(cs);
      SumSetTake(ShaSet(cs), items, cs[n].sha);
    }
  }

  lemma LastCand(cs: seq<Cand>)
    requires cs != [] && DistinctCands(cs)
    ensures var n := |cs| - 1; cs[n].sha in ShaSet(cs) && ShaSet(cs) - {cs[n].sha} == ShaSet(cs[..n])
  {
    var n := |cs| - 1;
    assert cs[n] in cs;
    assert cs == cs[..n] + [cs[n]];
  }

  /** The blobs that must stay. */
  ghost function Protected(items: Items, rank: Rank): set<Sha> {
    set s | s in items && rank(s, items[s]).None?
  }

  lemma CandsAreTheOthers(cs: seq<Cand>, items: Items, rank: Rank)
    requires forall c :: c in cs <==> IsCand(c, items, rank)
    ensures ShaSet(cs) + Protected(items, rank) == items.Keys && ShaSet(cs) !! Protected(items, rank)
  {
    forall s | s in items && s !in Protected(items, rank)
      ensures s in ShaSet(cs)
    {
      assert Cand(s, rank(s, items[s]).value, LastUse(items[s])) in cs;
    }
  }

  /** makeRoom succeeds exactly if the new blob fits beside those that must stay. */
  lemma RoomExactlyIf(order: seq<Sha>, items: Items, rank: Rank, limit: int, bytes: nat)
    requires Ordered(order, items) && Within(order, items)
    ensures var cs := Ranked(order, items, rank);
            && Stored(cs, items) && Protected(items, rank) <= items.Keys
            && (Enough(cs, items, limit - Total(order, items), bytes) <==>
                  SumSet(Protected(items, rank), items) + bytes <= limit)
  {
    hide Ranked, Total, SumSet, SumOf, Fewest;
    var cs, free := Ranked(order, items, rank), limit - Total(order, items);
    RankedIs(order, items, rank);
    RankedStored(order, items, rank);
    TotalIsSum(order, items);
    assert SetOf(order) == items.Keys;
    SumOfIsSum(cs, items);
    CandsAreTheOthers(cs, items, rank);
    SumSetBoth(ShaSet(cs), Protected(items, rank), items);
    EnoughIs(cs, items, free, bytes);
  }

  lemma EnoughIs(cs: seq<Cand>, items: Items, free: int, bytes: nat)
    requires Stored(cs, items)
    ensures Enough(cs, items, free, bytes) <==> free + SumOf(cs, items) >= bytes
  {
    hide SumOf;
    var k := Fewest(cs, items, free, bytes, 0);
    assert cs[..|cs|] == cs;
    SumOfPrefix(cs, items, k);
  }

  lemma {:induction false} SumOfPrefix(cs: seq<Cand>, items: Items, k: nat)
    requires Stored(cs, items) && k <= |cs|
    ensures SumOf(cs[..k], items) <= SumOf(cs, items)
    decreases |cs|
  {
    if k == |cs| {
      assert cs[..k] == cs;
    } else {
      SumOfPrefix(cs[..|cs| - 1], items, k);
      assert cs[..|cs| - 1][..k] == cs[..k];
    }
  }
}
