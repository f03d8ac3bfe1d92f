/** The answer cache of the DNS filter (src/dns/responseCache.js): least recently used
    entries at the front, limited in number and in bytes. */
module ResponseCache {
  import opened Bytes
  import opened Sequences
  import opened DnsQuery
  import opened DnsResponse
  import opened DnsAdapt
  import opened DnsAge

  const MAX_TTL_S := 86400
  const MAX_NEG_TTL_S := 3600
  const DEFAULT_NEG_TTL_S := 60

  datatype Entry = Entry(key: string, wire: Bytes, ttlOffsets: seq<nat>, storedAt: int, expires: int)

  datatype Hit = Hit(wire: Bytes, ttlOffsets: seq<nat>, ageSec: int)

  function Min(a: int, b: int): int {
    if a < b then a else b
  }

  /** How long a parsed response may be kept, in seconds; 0 means not at all. */
  function TtlFor(m: Response): (t: int)
    ensures m.tc || (m.rcode != 0 && m.rcode != 3) ==> t == 0
    // with answers: the least TTL, but no more than a day
    ensures !m.tc && m.rcode == 0 && m.an > 0 && m.minTtl.Some? ==>
              t <= 86400 && t <= m.minTtl.value && (t == 86400 || t == m.minTtl.value)
    ensures !m.tc && m.rcode == 0 && m.an > 0 && m.minTtl.None? ==> t == 0
    // without: the negative TTL of the SOA record, but no more than an hour, and a minute if there is none
    ensures !m.tc && (m.rcode == 3 || (m.rcode == 0 && m.an == 0)) && m.negTtl.Some? ==>
              t <= 3600 && t <= m.negTtl.value && (t == 3600 || t == m.negTtl.value)
    ensures !m.tc && (m.rcode == 3 || (m.rcode == 0 && m.an == 0)) && m.negTtl.None? ==> t == 60
  {
    if m.tc then 0
    else if m.rcode == 0 && m.an > 0 then Min(MAX_TTL_S, if m.minTtl.Some? then m.minTtl.value else 0)
    else if m.rcode == 3 || (m.rcode == 0 && m.an == 0) then
      Min(MAX_NEG_TTL_S, if m.negTtl.Some? then m.negTtl.value else DEFAULT_NEG_TTL_S)
    else 0
  }

  // ---- Lists of entries ----

  ghost function Total(es: seq<Entry>): (n: nat)
  {
    if es == [] then 0 else Total(es[..|es| - 1]) + |es[|es| - 1].wire|
  }

  ghost predicate DistinctKeys(es: seq<Entry>) {
    forall i, j :: 0 <= i < j < |es| ==> es[i].key != es[j].key
  }

  ghost predicate HasKey(es: seq<Entry>, key: string) {
    exists i :: 0 <= i < |es| && es[i].key == key
  }

  /** The entries but the `i`-th. */
  function Cut(es: seq<Entry>, i: nat): seq<Entry>
    requires i < |es|
  {
    es[..i] + es[i + 1..]
  }

  /** The entries under other keys. */
  ghost function Others(es: seq<Entry>, key: string): (r: seq<Entry>)
  {
    Filter(es, (e: Entry) => e.key != key)
  }

  lemma OthersIs(es: seq<Entry>, key: string, i: int)
    requires DistinctKeys(es) && -1 <= i < |es| && if i < 0 then !HasKey(es, key) else es[i].key == key
    ensures Others(es, key) == if i < 0 then es else Cut(es, i)
  {
    if i < 0 {
      FilterAll(es, (e: Entry) => e.key != key);
    } else {
      FilterButOne(es, i, (e: Entry) => e.key != key);
    }
  }

  lemma CutKeeps(es: seq<Entry>, i: nat)
    requires i < |es| && DistinctKeys(es) && AllSound(es)
    ensures DistinctKeys(Cut(es, i)) && AllSound(Cut(es, i)) && !HasKey(Cut(es, i), es[i].key)
  {
    hide Sound;
    var c := Cut(es, i);
    assert forall k :: 0 <= k < |c| ==> c[k] == es[if k < i then k else k + 1];
  }

  lemma Stored(es: seq<Entry>, e: Entry)
    requires DistinctKeys(es) && AllSound(es) && !HasKey(es, e.key) && Sound(e)
    ensures DistinctKeys(es + [e]) && AllSound(es + [e])
  {
    hide Sound;
  }

  lemma {:induction false} TotalAppend(a: seq<Entry>, b: seq<Entry>)
    ensures Total(a + b) == Total(a) + Total(b)
    decreases |b|
  {
    var s := a + b;
    if b == [] {
      assert s == a;
    } else {
      assert s[..|s| - 1] == a + b[..|b| - 1] && s[|s| - 1] == b[|b| - 1];
      TotalAppend(a, b[..|b| - 1]);
    }
  }

  lemma TotalNil()
    ensures Total([]) == 0
  {
  }

  lemma TotalOne(e: Entry)
    ensures Total([e]) == |e.wire|
  {
    assert [e][..0] == [];
  }

  lemma TotalCut(es: seq<Entry>, i: nat)
    requires i < |es|
    ensures Total(Cut(es, i)) == Total(es) - |es[i].wire|
  {
    hide Total;
    assert es == es[..i] + ([es[i]] + es[i + 1..]);
    TotalAppend(es[..i], [es[i]] + es[i + 1..]);
    TotalAppend([es[i]], es[i + 1..]);
    TotalAppend(es[..i], es[i + 1..]);
    TotalOne(es[i]);
  }

  // ---- What is stored ----

  /** An entry keeps a response that parses, with its TTL fields, for as long as ttlFor says. */
  ghost predicate Sound(e: Entry) {
    && ParseResponse(e.wire).Some?
    && var m := ParseResponse(e.wire).value;
    e.ttlOffsets == m.ttlOffsets && TtlFor(m) > 0 && e.expires == e.storedAt + TtlFor(m) * 1000
  }

  ghost predicate AllSound(es: seq<Entry>) {
    forall i :: 0 <= i < |es| ==> Sound(es[i])
  }

  ghost predicate Within(es: seq<Entry>, maxEntries: nat, maxBytes: nat) {
    |es| <= maxEntries && Total(es) <= maxBytes
  }

  /** `kept` is what is left of `all` after the eviction loop: the longest end of it within both limits. */
  ghost predicate Evicted(all: seq<Entry>, kept: seq<Entry>, maxEntries: nat, maxBytes: nat) {
    exists d :: EvictedBy(all, kept, d, maxEntries, maxBytes)
  }

  ghost predicate EvictedBy(all: seq<Entry>, kept: seq<Entry>, d: int, maxEntries: nat, maxBytes: nat) {
    && 0 <= d <= |all| && kept == all[d..] && Within(kept, maxEntries, maxBytes)
    && forall c :: 0 <= c < d ==> !Within(all[c..], maxEntries, maxBytes)
  }

  /** The entry stored last survives the eviction loop if it fits at all. */
  lemma LastSurvives(all: seq<Entry>, kept: seq<Entry>, maxEntries: nat, maxBytes: nat)
    requires all != [] && Evicted(all, kept, maxEntries, maxBytes)
    requires maxEntries >= 1 && |all[|all| - 1].wire| <= maxBytes
    ensures kept != [] && kept[|kept| - 1] == all[|all| - 1]
  {
    hide Total;
    var d :| EvictedBy(all, kept, d, maxEntries, maxBytes);
    var n := |all| - 1;
    assert all[n..] == [all[n]];
    TotalOne(all[n]);
    assert Within(all[n..], maxEntries, maxBytes);
  }

  class Cache {
    const maxEntries: nat
    const maxBytes: nat
    var entries: seq<Entry>
    var bytes: int

    ghost predicate Valid()
      reads this
    {
      DistinctKeys(entries) && AllSound(entries) && bytes == Total(entries) && Within(entries, maxEntries, maxBytes)
    }

    constructor (maxEntries: nat, maxBytes: nat)
      ensures Valid() && entries == [] && this.maxEntries == maxEntries && this.maxBytes == maxBytes
    {
      this.maxEntries, this.maxBytes := maxEntries, maxBytes;
      entries, bytes := [], 0;
    }

    /** The place of an entry; -1 if there is none. */
    method Find(key: string) returns (i: int)
      ensures -1 <= i < |entries| && (if i < 0 then !HasKey(entries, key) else entries[i].key == key)
    {
      i := 0;
      while i < |entries|
        invariant 0 <= i <= |entries| && forall j :: 0 <= j < i ==> entries[j].key != key
      {
        if entries[i].key == key {
          return;
        }
        i := i + 1;
      }
      i := -1;
    }

    /** An entry that is there and not expired is given with its age and becomes the most recently
        used; an expired one is dropped, and nothing else is. */
    method Get(key: string, now: int) returns (r: Option<Hit>)
      requires Valid()
      modifies this`entries, this`bytes
      ensures Valid()
      ensures !HasKey(old(entries), key) ==> r == None && entries == old(entries)
      ensures forall i :: 0 <= i < |old(entries)| && old(entries)[i].key == key ==>
                var e := old(entries)[i];
                if now >= e.expires then r == None && entries == Cut(old(entries), i)
                else
                  && r == Some(Hit(e.wire, e.ttlOffsets, (now - e.storedAt) / 1000))
                  && entries == Cut(old(entries), i) + [e]
    {
      hide Total, Sound;
      var i := Find(key);
      if i < 0 {
        return None;
      }
      var e := entries[i];
      TotalCut(entries, i);
      CutKeeps(entries, i);
      assert forall j :: 0 <= j < |entries| && entries[j].key == key ==> j == i;
      entries := Cut(entries, i);
      if now >= e.expires {
        bytes := bytes - |e.wire|;
        return None;
      }
      TotalAppend(entries, [e]);
      TotalOne(e);
      entries := entries + [e];
      r := Some(Hit(e.wire, e.ttlOffsets, (now - e.storedAt) / 1000));
    }

    /** A response is stored if it may be kept and is not too large; then it replaces the entry
        under its key, is the most recently used, and as few as needed of the least recently
        used entries go. */
    method Set(key: string, wire: Bytes, m: Response, now: int) returns (stored: bool)
      requires Valid() && ParseResponse(wire) == Some(m)
      modifies this`entries, this`bytes
      ensures Valid()
      ensures stored == (TtlFor(m) > 0 && 16 * |wire| <= maxBytes)
      ensures !stored ==> entries == old(entries)
      ensures stored ==>
                var e := Entry(key, wire, m.ttlOffsets, now, now + TtlFor(m) * 1000);
                && Evicted(Others(old(entries), key) + [e], entries, maxEntries, maxBytes)
                && (maxEntries >= 1 ==> entries != [] && entries[|entries| - 1] == e)
    {
      hide Total, TtlFor, Within, DistinctKeys, AllSound, HasKey, Cut, Others, Evicted, ParseResponse;
      var ttl := TtlFor(m);
      if ttl <= 0 || 16 * |wire| > maxBytes {
        return false;
      }
      Drop(key);
      var e := Entry(key, wire, m.ttlOffsets, now, now + ttl * 1000);
      TotalAppend(entries, [e]);
      TotalOne(e);
      Stored(entries, e);
      entries := entries + [e];
      bytes := bytes + |wire|;
      ghost var all := entries;
      Evict();
      if maxEntries >= 1 {
        LastSurvives(all, entries, maxEntries, maxBytes);
      }
      stored := true;
    }

    /** The entry under a key is dropped, if there is one. */
    method Drop(key: string)
      requires Valid()
      modifies this`entries, this`bytes
      ensures DistinctKeys(entries) && AllSound(entries) && bytes == Total(entries)
      ensures entries == Others(old(entries), key) && !HasKey(entries, key)
    {
      hide Total, Sound, Others, Within;
      var i := Find(key);
      OthersIs(entries, key, i);
      if i >= 0 {
        CutKeeps(entries, i);
        TotalCut(entries, i);
        bytes := bytes - |entries[i].wire|;
        entries := Cut(entries, i);
      }
    }

    /** The eviction loop. */
    method Evict()
      requires DistinctKeys(entries) && AllSound(entries) && bytes == Total(entries)
      modifies this`entries, this`bytes
      ensures Valid() && Evicted(old(entries), entries, maxEntries, maxBytes)
    {
      hide Total, Sound;
      ghost var all, d := entries, 0;
      assert all[0..] == all;
      while |entries| > maxEntries || bytes > maxBytes
        invariant 0 <= d <= |all| && entries == all[d..] && bytes == Total(entries)
        invariant forall c :: 0 <= c < d ==> !Within(all[c..], maxEntries, maxBytes)
        decreases |entries|
      {
        TotalNil();
        TotalCut(entries, 0);
        assert Cut(entries, 0) == all[d + 1..];
        bytes := bytes - |entries[0].wire|;
        entries := Cut(entries, 0);
        d := d + 1;
      }
      assert EvictedBy(all, entries, d, maxEntries, maxBytes);
    }

    method Clear()
      modifies this`entries, this`bytes
      ensures Valid() && entries == []
    {
      entries, bytes := [], 0;
    }
  }

  // ---- Ageing ----

  /** A positive response from the cache is younger than the least TTL of its answer and
      authority records. */
  lemma HitIsYoung(e: Entry, now: int)
    requires Sound(e) && e.storedAt <= now < e.expires
    requires var m := ParseResponse(e.wire).value; m.rcode == 0 && m.an > 0
    ensures var m := ParseResponse(e.wire).value;
            m.minTtl.Some? && 0 <= (now - e.storedAt) / 1000 < m.minTtl.value
  {
    hide ParseResponse;
  }

  /** Every answer and authority record of `wire` has its TTL in `out` lowered by `age`, and still at least 1. */
  ghost predicate TtlsLowered(wire: Bytes, out: Bytes, age: int)
    requires ParseResponse(wire).Some?
  {
    && |out| == |wire| && AllRecords(wire).Some? && Counted(wire) <= |AllRecords(wire).value|
    && forall k :: 0 <= k < Counted(wire) && AllRecords(wire).value[k].rtype != TYPE_OPT ==>
         RecordLowered(out, AllRecords(wire).value[k], age)
  }

  ghost predicate RecordLowered(out: Bytes, x: Record, age: int) {
    TtlSpot(x) + 4 <= |out| && GetU32(out, TtlSpot(x)) == x.ttl - age >= 1
  }

  lemma HitTtlsLowered(e: Entry, now: int, id: nat, question: Option<Bytes>, out: Bytes)
    requires Sound(e) && e.storedAt <= now < e.expires
    requires var m := ParseResponse(e.wire).value; m.rcode == 0 && m.an > 0
    requires |e.wire| >= 12 && Apart(e.ttlOffsets, 12, |e.wire|)
    requires Adapted(e.wire, out, id, question, e.ttlOffsets, (now - e.storedAt) / 1000)
    ensures TtlsLowered(e.wire, out, (now - e.storedAt) / 1000)
  {
    hide ParseResponse, Apart, AllRecords, Counted, GetU32, FieldsAged, SameOutside;
    var age := (now - e.storedAt) / 1000;
    HitIsYoung(e, now);
    ParsedTtls(e.wire);
    var xs := AllRecords(e.wire).value;
    EnoughRecords(e.wire);
    forall k | 0 <= k < Counted(e.wire) && xs[k].rtype != TYPE_OPT
      ensures RecordLowered(out, xs[k], age)
    {
      AgedAboveZero(e.wire, out, id, question, age, k);
    }
  }

  lemma EnoughRecords(wire: Bytes)
    requires ParseResponse(wire).Some? && AllRecords(wire).Some?
    ensures Counted(wire) <= |AllRecords(wire).value|
  {
    hide RecordList, ParseResponse;
  }

  ghost predicate Positive(e: Entry) {
    Sound(e) && ParseResponse(e.wire).value.rcode == 0 && ParseResponse(e.wire).value.an > 0
  }

  ghost predicate Served(e: Entry, out: Bytes, id: nat, question: Option<Bytes>, now: int) {
    && |e.wire| >= 12 && Apart(e.ttlOffsets, 12, |e.wire|)
    && Adapted(e.wire, out, id, question, e.ttlOffsets, (now - e.storedAt) / 1000)
    && (Positive(e) && e.storedAt <= now ==> TtlsLowered(e.wire, out, (now - e.storedAt) / 1000))
    && (Sound(e) && NamesClear(e.wire, question) && SameButCase(e.wire, question) ==>
          && ParseResponse(out).Some?
          && IsAged(ParseResponse(e.wire).value, ParseResponse(out).value, id, (now - e.storedAt) / 1000))
  }

  lemma FieldsBehindHeader(e: Entry, question: Option<Bytes>)
    requires Sound(e)
    ensures |e.wire| >= 12 && Apart(e.ttlOffsets, Front(e.wire, question), |e.wire|)
            && Apart(e.ttlOffsets, 12, |e.wire|)
  {
    hide Front;
    ParsedFront(e.wire, question);
    hide ParseResponse;
    LaterFront(e.ttlOffsets, Front(e.wire, question), 12, |e.wire|);
  }

  /** How a query is answered from the cache: the stored response under the id and with the
      question of the client. In a positive one every answer and authority TTL is lowered by
      the age and still at least 1. */
  method AnswerFrom(cache: Cache, key: string, now: int, id: nat, question: Option<Bytes>) returns (out: Option<Bytes>)
    requires cache.Valid()
    modifies cache`entries, cache`bytes
    ensures cache.Valid()
    ensures out.Some? <==>
            exists i :: && 0 <= i < |old(cache.entries)| && old(cache.entries)[i].key == key
                        && now < old(cache.entries)[i].expires
    ensures forall i :: 0 <= i < |old(cache.entries)| && old(cache.entries)[i].key == key && out.Some? ==>
              Served(old(cache.entries)[i], out.value, id, question, now)
  {
    hide Sound, Served, Total, Cut, Within;
    var hit := cache.Get(key, now);
    if hit.None? {
      return None;
    }
    ghost var was := old(cache.entries);
    ghost var i :| 0 <= i < |was| && was[i].key == key && now < was[i].expires;
    ghost var e := was[i];
    FieldsBehindHeader(e, question);
    var w := AdaptResponse(hit.value.wire, id, question, hit.value.ttlOffsets, hit.value.ageSec);
    WasServed(e, w, id, question, now);
    out := Some(w);
  }

  lemma WasServed(e: Entry, out: Bytes, id: nat, question: Option<Bytes>, now: int)
    requires Sound(e) && now < e.expires && |e.wire| >= 12 && Apart(e.ttlOffsets, 12, |e.wire|)
    requires Adapted(e.wire, out, id, question, e.ttlOffsets, (now - e.storedAt) / 1000)
    ensures Served(e, out, id, question, now)
  {
    hide ParseResponse, Apart, Adapted, TtlsLowered, TtlFor, NamesClear, SameButCase, IsAged;
    if NamesClear(e.wire, question) && SameButCase(e.wire, question) {
      AdaptedParses(e.wire, out, id, question, (now - e.storedAt) / 1000);
    }
    if Positive(e) && e.storedAt <= now {
      HitTtlsLowered(e, now, id, question, out);
    }
  }
}
