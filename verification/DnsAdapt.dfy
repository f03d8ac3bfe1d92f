/** Ageing a stored response (adaptResponse of src/dns/wire.js): where parseResponse
    finds the TTL fields, and what is written over them. */
module DnsAdapt {
  import opened Bytes
  import opened DnsNames
  import opened DnsQuery
  import opened DnsResponse

  // ---- The records of a message ----

  /** `k` records one after the other. */
  ghost function RecordList(buf: Bytes, pos: nat, k: nat): (r: Option<seq<Record>>)
    ensures r.Some? ==> |r.value| == k
    decreases k
  {
    if k == 0 then Some([]) else
    var x :- RecordAt(buf, pos);
    var rest :- RecordList(buf, x.end, k - 1);
    Some([x] + rest)
  }

  ghost function TtlSpot(x: Record): nat {
    x.name.next + 4
  }

  /** Where the TTL fields are; an OPT record has none. */
  ghost function TtlSpots(xs: seq<Record>): (s: seq<nat>)
  {
    if xs == [] then []
    else if xs[0].rtype == TYPE_OPT then TtlSpots(xs[1..])
    else [TtlSpot(xs[0])] + TtlSpots(xs[1..])
  }

  /** The TTLs of the first `k` records. */
  ghost function Ttls(xs: seq<Record>, k: int): (s: seq<int>)
    decreases xs
  {
    if xs == [] || k <= 0 then []
    else if xs[0].rtype == TYPE_OPT then Ttls(xs[1..], k - 1)
    else [xs[0].ttl] + Ttls(xs[1..], k - 1)
  }

  ghost predicate IsLowest(m: Option<int>, ttls: seq<int>) {
    if ttls == [] then m == None
    else m.Some? && m.value in ttls && forall k :: 0 <= k < |ttls| ==> m.value <= ttls[k]
  }

  lemma LowestNext(m: Option<int>, ttls: seq<int>, t: int)
    requires IsLowest(m, ttls)
    ensures IsLowest(Smaller(m, t), ttls + [t])
  {
    var all := ttls + [t];
    assert t == all[|ttls|];
    if ttls != [] {
      var k :| 0 <= k < |ttls| && ttls[k] == m.value;
      assert all[k] == m.value;
    }
  }

  /** What the loop over the records collects. */
  lemma {:induction false} CollectedTtls(buf: Bytes, pos: nat, i: nat, an: nat, ns: nat, n: nat, acc: Acc,
                                         seen: seq<int>)
    requires i <= n && Records(buf, pos, i, an, ns, n, acc).Some? && IsLowest(acc.minTtl, seen)
    ensures RecordList(buf, pos, n - i).Some?
    ensures var xs, r := RecordList(buf, pos, n - i).value, Records(buf, pos, i, an, ns, n, acc).value;
            r.offsets == acc.offsets + TtlSpots(xs) && IsLowest(r.minTtl, seen + Ttls(xs, an + ns - i))
    decreases n - i
  {
    hide RecordAt, IsLowest, Collect, TtlSpots, Ttls;
    if i < n {
      var x := RecordAt(buf, pos).value;
      var next := Collect(buf, x, i, an, ns, acc).value;
      var counts := x.rtype != TYPE_OPT && i < an + ns;
      var now := if counts then seen + [x.ttl] else seen;
      OneCollected(buf, x, i, an, ns, acc, seen);
      CollectedTtls(buf, x.end, i + 1, an, ns, n, next, now);
      var rest := RecordList(buf, x.end, n - i - 1).value;
      assert RecordList(buf, pos, n - i).value == [x] + rest;
      ListsGrow(acc.offsets, seen, x, rest, an + ns - i);
    } else {
      NoneLeft(acc.offsets, seen, an + ns - i);
    }
  }

  lemma OneCollected(buf: Bytes, x: Record, i: nat, an: nat, ns: nat, acc: Acc, seen: seq<int>)
    requires x.rd <= x.end <= |buf| && x.name.next + 10 == x.rd && Collect(buf, x, i, an, ns, acc).Some?
             && IsLowest(acc.minTtl, seen)
    ensures var next := Collect(buf, x, i, an, ns, acc).value;
            && next.offsets == (if x.rtype == TYPE_OPT then acc.offsets else acc.offsets + [TtlSpot(x)])
            && IsLowest(next.minTtl, if x.rtype != TYPE_OPT && i < an + ns then seen + [x.ttl] else seen)
  {
    hide IsLowest, Smaller, SoaTtl, CnameTarget, LowerName;
    LowestNext(acc.minTtl, seen, x.ttl);
  }

  lemma NoneLeft(offsets: seq<nat>, seen: seq<int>, k: int)
    ensures offsets + TtlSpots([]) == offsets && seen + Ttls([], k) == seen
  {
  }

  lemma ListsGrow(offsets: seq<nat>, seen: seq<int>, x: Record, rest: seq<Record>, k: int)
    ensures offsets + TtlSpots([x] + rest) ==
            (if x.rtype == TYPE_OPT then offsets else offsets + [TtlSpot(x)]) + TtlSpots(rest)
    ensures seen + Ttls([x] + rest, k) ==
            (if x.rtype != TYPE_OPT && 0 < k then seen + [x.ttl] else seen) + Ttls(rest, k - 1)
  {
    var xs := [x] + rest;
    assert xs[1..] == rest;
    if k <= 0 {
      assert Ttls(xs, k) == [] && Ttls(rest, k - 1) == [];
    }
    assert seen + ([x.ttl] + Ttls(rest, k - 1)) == seen + [x.ttl] + Ttls(rest, k - 1);
    assert offsets + ([TtlSpot(x)] + TtlSpots(rest)) == offsets + [TtlSpot(x)] + TtlSpots(rest);
  }

  // ---- The fields lie apart ----

  /** Four-byte fields in order, apart from each other, between `from` and `to`. */
  ghost predicate Apart(spots: seq<nat>, from: nat, to: nat) {
    && (forall k :: 0 <= k < |spots| ==> from <= spots[k] && spots[k] + 4 <= to)
    && forall j, k :: 0 <= j < k < |spots| ==> spots[j] + 4 <= spots[k]
  }

  lemma {:induction false} SpotsApart(buf: Bytes, pos: nat, k: nat)
    requires RecordList(buf, pos, k).Some?
    ensures Apart(TtlSpots(RecordList(buf, pos, k).value), pos, |buf|)
    decreases k
  {
    hide RecordAt;
    if k > 0 {
      var x := RecordAt(buf, pos).value;
      SpotsApart(buf, x.end, k - 1);
      var rest := RecordList(buf, x.end, k - 1).value;
      var xs := RecordList(buf, pos, k).value;
      assert xs == [x] + rest && xs[1..] == rest;
    }
  }

  // ---- adaptResponse ----

  /** The question is put back only over one that takes as many bytes. */
  predicate Restored(buf: Bytes, question: Option<Bytes>)
    requires |buf| >= 12
  {
    && question.Some? && GetU16(buf, 4) == 1 && 12 + |question.value| <= |buf|
    && var n := ReadQuestion(buf, 12, 0);
    n.Some? && n.value.next + 4 - 12 == |question.value|
  }

  /** In a response with a written question that is exactly a question of the same length. */
  lemma RestoredExactly(buf: Bytes, ls: seq<Bytes>, question: Bytes)
    requires LabelsFit(ls) && Size(ls) <= 255 && 12 + |Wire(ls)| + 4 <= |buf| && Holds(buf, 12, Wire(ls))
    ensures Restored(buf, Some(question)) <==> GetU16(buf, 4) == 1 && |question| == |Wire(ls)| + 4
  {
    hide Wire, Size, ReadQuestion, GetU16;
    ReadQuestionWire(buf, 12, ls, 0);
  }

  function Aged(ttl: int, age: int): (r: int)
    ensures 0 <= ttl ==> 0 <= r
    ensures 0 <= ttl ==> r <= ttl
    ensures ttl > age >= 0 ==> r == ttl - age >= 1
    ensures 0 <= ttl <= age ==> r == 0
    ensures age <= 0 ==> r == ttl
  {
    if age <= 0 then ttl else if ttl > age then ttl - age else 0
  }

  ghost predicate InSpot(i: int, spots: seq<nat>) {
    exists k :: 0 <= k < |spots| && spots[k] <= i < spots[k] + 4
  }

  /** The TTL fields `spots` of `out` are those of `buf`, aged. */
  ghost predicate FieldsAged(buf: Bytes, out: Bytes, spots: seq<nat>, age: int)
    requires |buf| == |out| && Apart(spots, 0, |buf|)
  {
    forall k :: 0 <= k < |spots| ==> GetU32(out, spots[k]) == Aged(GetU32(buf, spots[k]), age)
  }

  ghost predicate SameOutside(buf: Bytes, out: Bytes, from: nat, spots: seq<nat>) {
    |buf| == |out| && forall i :: from <= i < |buf| && !InSpot(i, spots) ==> out[i] == buf[i]
  }

  /** The id and the question are replaced, the TTL fields aged, and nothing else. */
  ghost predicate Adapted(buf: Bytes, out: Bytes, id: nat, question: Option<Bytes>, spots: seq<nat>, age: int)
    requires |buf| >= 12 && Apart(spots, 12, |buf|)
  {
    && |out| == |buf| && GetU16(out, 0) == id % U16_LIMIT && out[2..12] == buf[2..12]
    && FieldsAged(buf, out, spots, age)
    && if Restored(buf, question)
       then out[12..12 + |question.value|] == question.value && SameOutside(buf, out, 12 + |question.value|, spots)
       else SameOutside(buf, out, 12, spots)
  }

  /** Where the TTL fields may start. */
  ghost function Front(buf: Bytes, question: Option<Bytes>): (n: nat)
    requires |buf| >= 12
    ensures 12 <= n <= |buf|
  {
    if Restored(buf, question) then 12 + |question.value| else 12
  }

  lemma SpliceField(b: Bytes, off: nat, v: int, o: nat)
    requires off + 4 <= |b| && o + 4 <= |b| && 0 <= v < U32_LIMIT && (o == off || o + 4 <= off || off + 4 <= o)
    ensures GetU32(Splice(b, off, U32(v)), o) == if o == off then v else GetU32(b, o)
  {
    hide U32;
    var s := Splice(b, off, U32(v));
    if o == off {
      assert s[off..off + 4] == U32(v);
      ReadBackU32(s, off, v);
    }
  }

  /** One TTL field is lowered. */
  method LowerTtl(b: Bytes, off: nat, age: int, ghost spots: seq<nat>, ghost k: nat) returns (r: Bytes)
    requires age > 0 && k < |spots| && spots[k] == off && Apart(spots, 0, |b|)
    ensures |r| == |b| && (forall i :: 0 <= i < |b| && !(off <= i < off + 4) ==> r[i] == b[i])
    ensures forall j :: 0 <= j < |spots| ==>
              GetU32(r, spots[j]) == if j == k then Aged(GetU32(b, off), age) else GetU32(b, spots[j])
  {
    hide GetU32, U32;
    var t := GetU32(b, off);
    var v := if t > age then t - age else 0;
    r := Splice(b, off, U32(v));
    forall j | 0 <= j < |spots|
      ensures GetU32(r, spots[j]) == if j == k then v else GetU32(b, spots[j])
    {
      SpliceField(b, off, v, spots[j]);
    }
  }

  /** The loop over the TTL fields. */
  method LowerAllTtls(b: Bytes, spots: seq<nat>, age: int) returns (r: Bytes)
    requires age > 0 && Apart(spots, 0, |b|)
    ensures |r| == |b| && FieldsAged(b, r, spots, age) && SameOutside(b, r, 0, spots)
  {
    hide GetU32, Aged;
    r := b;
    for k := 0 to |spots|
      invariant |r| == |b| && SameOutside(b, r, 0, spots)
      invariant forall j :: 0 <= j < k ==> GetU32(r, spots[j]) == Aged(GetU32(b, spots[j]), age)
      invariant forall j :: k <= j < |spots| ==> GetU32(r, spots[j]) == GetU32(b, spots[j])
    {
      r := LowerTtl(r, spots[k], age, spots, k);
    }
  }

  /** The message after its id and question are written. */
  ghost predicate Fronted(buf: Bytes, w: Bytes, id: nat, question: Option<Bytes>)
    requires |buf| >= 12
  {
    && |w| == |buf| && GetU16(w, 0) == id % U16_LIMIT && w[2..12] == buf[2..12]
    && w[Front(buf, question)..] == buf[Front(buf, question)..]
    && (Restored(buf, question) ==> w[12..12 + |question.value|] == question.value)
  }

  /** A question is read the same when only the id in front of it is different. */
  lemma SameQuestion(a: Bytes, b: Bytes)
    requires |a| == |b| >= 12 && a[12..] == b[12..]
    ensures ReadQuestion(a, 12, 0) == ReadQuestion(b, 12, 0)
  {
    hide ReadQuestion, Wire, Size;
    if ReadQuestion(a, 12, 0).Some? {
      SameQuestionRead(a, b);
    }
    if ReadQuestion(b, 12, 0).Some? {
      SameQuestionRead(b, a);
    }
  }

  lemma SameQuestionRead(a: Bytes, b: Bytes)
    requires |a| == |b| >= 12 && a[12..] == b[12..] && ReadQuestion(a, 12, 0).Some?
    ensures ReadQuestion(a, 12, 0) == ReadQuestion(b, 12, 0)
  {
    hide ReadQuestion, Wire, Size;
    QuestionIsWire(a, 12, 0);
    var n := ReadQuestion(a, 12, 0).value;
    assert b[12..n.next] == b[12..][..n.next - 12] == a[12..][..n.next - 12] == a[12..n.next];
    ReadQuestionWire(b, 12, n.labels, 0);
  }

  lemma IdIsWritten(buf: Bytes, id: nat)
    requires |buf| >= 12
    ensures var w := Splice(buf, 0, U16(id % U16_LIMIT));
            GetU16(w, 0) == id % U16_LIMIT && w[2..12] == buf[2..12] && w[12..] == buf[12..]
  {
    hide GetU16, U16;
    var w := Splice(buf, 0, U16(id % U16_LIMIT));
    assert w[0..2] == U16(id % U16_LIMIT);
    ReadBackU16(w, 0, id % U16_LIMIT);
  }

  lemma QuestionIsWritten(w: Bytes, q: Bytes)
    requires 12 + |q| <= |w|
    ensures var v := Splice(w, 12, q);
            && v[12..12 + |q|] == q && v[12 + |q|..] == w[12 + |q|..] && v[2..12] == w[2..12]
            && GetU16(v, 0) == GetU16(w, 0)
  {
  }

  lemma {:induction false} FieldsKept(buf: Bytes, w: Bytes, from: nat, spots: seq<nat>)
    requires |w| == |buf| && from <= |buf| && w[from..] == buf[from..] && Apart(spots, from, |buf|)
    ensures forall k :: 0 <= k < |spots| ==> GetU32(w, spots[k]) == GetU32(buf, spots[k])
  {
    forall i | from <= i < |buf|
      ensures w[i] == buf[i]
    {
      assert w[i] == w[from..][i - from] == buf[from..][i - from] == buf[i];
    }
  }

  lemma BothParts(buf: Bytes, w: Bytes, out: Bytes, id: nat, question: Option<Bytes>, spots: seq<nat>, age: int)
    requires |buf| >= 12 && Fronted(buf, w, id, question) && Apart(spots, Front(buf, question), |buf|) && |out| == |w|
    requires if age > 0 then FieldsAged(w, out, spots, age) && SameOutside(w, out, 0, spots) else out == w
    ensures Adapted(buf, out, id, question, spots, age)
  {
    hide Restored, GetU32, Aged, SameOutside, GetU16;
    var front := Front(buf, question);
    FieldsKept(buf, w, front, spots);
    AgedFields(buf, w, out, spots, age);
    OutsideKept(buf, w, out, front, spots, age);
    FrontKept(w, out, front, spots, age);
  }

  lemma AgedFields(buf: Bytes, w: Bytes, out: Bytes, spots: seq<nat>, age: int)
    requires |buf| == |w| == |out| && Apart(spots, 12, |buf|)
    requires forall k :: 0 <= k < |spots| ==> GetU32(w, spots[k]) == GetU32(buf, spots[k])
    requires if age > 0 then FieldsAged(w, out, spots, age) else out == w
    ensures FieldsAged(buf, out, spots, age)
  {
    hide GetU32;
  }

  lemma OutsideKept(buf: Bytes, w: Bytes, out: Bytes, front: nat, spots: seq<nat>, age: int)
    requires |buf| == |w| == |out| >= front && w[front..] == buf[front..]
    requires if age > 0 then SameOutside(w, out, 0, spots) else out == w
    ensures SameOutside(buf, out, front, spots)
  {
    hide InSpot;
    forall i | front <= i < |buf| && !InSpot(i, spots)
      ensures out[i] == buf[i]
    {
      assert w[i] == w[front..][i - front] == buf[front..][i - front] == buf[i];
    }
  }

  /** No TTL field lies in front of the records. */
  lemma FrontKept(w: Bytes, out: Bytes, front: nat, spots: seq<nat>, age: int)
    requires |w| == |out| >= front >= 12 && Apart(spots, front, |w|)
    requires if age > 0 then SameOutside(w, out, 0, spots) else out == w
    ensures GetU16(out, 0) == GetU16(w, 0) && out[2..12] == w[2..12] && out[12..front] == w[12..front]
  {
    forall i | 0 <= i < front
      ensures out[i] == w[i]
    {
      assert !InSpot(i, spots);
    }
  }

  method AdaptResponse(buf: Bytes, id: nat, question: Option<Bytes>, spots: seq<nat>, age: int) returns (out: Bytes)
    requires |buf| >= 12 && Apart(spots, Front(buf, question), |buf|)
    ensures Adapted(buf, out, id, question, spots, age)
  {
    hide GetU16, U16, GetU32, Aged, FieldsAged, SameOutside, ReadQuestion;
    var w := Splice(buf, 0, U16(id % U16_LIMIT));
    IdIsWritten(buf, id);
    if question.Some? && GetU16(buf, 4) == 1 && 12 + |question.value| <= |w| {
      var n := ReadQuestionLoop(w, 12);
      SameQuestion(buf, w);
      if n.Some? && n.value.next + 4 - 12 == |question.value| {
        QuestionIsWritten(w, question.value);
        w := Splice(w, 12, question.value);
      }
    }
    out := w;
    if age > 0 {
      out := LowerAllTtls(w, spots, age);
    }
    BothParts(buf, w, out, id, question, spots, age);
  }

  // ---- Ageing what was parsed ----

  /** Where the records of a parsed message start, and how many count for its TTL. */
  ghost function Start(buf: Bytes): nat
    requires ParseResponse(buf).Some?
  {
    AfterQuestion(buf).value.0
  }

  ghost function Counted(buf: Bytes): nat
    requires ParseResponse(buf).Some?
  {
    GetU16(buf, 6) + GetU16(buf, 8)
  }

  /** The records of a parsed message, in order. */
  ghost function AllRecords(buf: Bytes): Option<seq<Record>>
    requires ParseResponse(buf).Some?
  {
    RecordList(buf, Start(buf), Counted(buf) + GetU16(buf, 10))
  }

  /** parseResponse lists exactly the TTL fields, and its minTtl is the least TTL of
      the answer and authority records. */
  lemma ParsedTtls(buf: Bytes)
    requires ParseResponse(buf).Some?
    ensures var m, xs := ParseResponse(buf).value, AllRecords(buf);
            && xs.Some? && m.ttlOffsets == TtlSpots(xs.value) && IsLowest(m.minTtl, Ttls(xs.value, Counted(buf)))
            && Apart(m.ttlOffsets, Start(buf), |buf|)
  {
    hide Records, AfterQuestion, RecordList, TtlSpots, Ttls, IsLowest, GetU16, Apart, Bit;
    var an, ns, ar := GetU16(buf, 6), GetU16(buf, 8), GetU16(buf, 10);
    NothingSeen();
    CollectedTtls(buf, Start(buf), 0, an, ns, an + ns + ar, NOTHING, []);
    SpotsApart(buf, Start(buf), an + ns + ar);
    NoPrefix(TtlSpots(AllRecords(buf).value), Ttls(AllRecords(buf).value, an + ns));
  }

  lemma NothingSeen()
    ensures IsLowest(NOTHING.minTtl, [])
  {
  }

  lemma NoPrefix(spots: seq<nat>, ttls: seq<int>)
    ensures [] + spots == spots && [] + ttls == ttls
  {
  }

  /** A question that is put back ends where the records start: no TTL field is hit. */
  lemma ParsedFront(buf: Bytes, question: Option<Bytes>)
    requires ParseResponse(buf).Some?
    ensures Apart(ParseResponse(buf).value.ttlOffsets, Front(buf, question), |buf|)
  {
    hide ParseResponse, Apart, ReadQuestion, ReadName, GetU16;
    ParsedTtls(buf);
    StartsBehind(buf, question);
    LaterFront(ParseResponse(buf).value.ttlOffsets, Start(buf), Front(buf, question), |buf|);
  }

  lemma LaterFront(spots: seq<nat>, from: nat, front: nat, to: nat)
    requires Apart(spots, from, to) && front <= from
    ensures Apart(spots, front, to)
  {
  }

  lemma StartsBehind(buf: Bytes, question: Option<Bytes>)
    requires ParseResponse(buf).Some?
    ensures |buf| >= 12 && Front(buf, question) <= Start(buf)
  {
    hide Records, ReadQuestion, ReadFrom, GetU16, Wire, Size, Bit, LowerName;
    if Restored(buf, question) {
      QuestionIsWire(buf, 12, 0);
      var n := ReadQuestion(buf, 12, 0).value;
      FewLabels(n.labels);
      ReadWire(buf, 12, n.labels, 0, 0);
    }
  }

  /** A TTL field of a record lies at one of the listed places. */
  lemma {:induction false} SpotListed(buf: Bytes, pos: nat, n: nat, k: nat, counted: nat)
    requires RecordList(buf, pos, n).Some? && k < n && RecordList(buf, pos, n).value[k].rtype != TYPE_OPT
    ensures var xs := RecordList(buf, pos, n).value;
            && TtlSpot(xs[k]) in TtlSpots(xs) && (k < counted ==> xs[k].ttl in Ttls(xs, counted))
            && TtlSpot(xs[k]) + 4 <= |buf| && xs[k].ttl == GetU32(buf, TtlSpot(xs[k]))
    decreases n
  {
    hide RecordAt, GetU32;
    var xs := RecordList(buf, pos, n).value;
    var x := RecordAt(buf, pos).value;
    var rest := RecordList(buf, x.end, n - 1).value;
    assert xs == [x] + rest && xs[1..] == rest;
    if k > 0 {
      SpotListed(buf, x.end, n - 1, k - 1, if counted > 0 then counted - 1 else 0);
    }
  }

  /** Every answer and authority record of a response that is younger than its least TTL
      comes out of adaptResponse with its TTL lowered by the age, and above 0. */
  lemma AgedAboveZero(buf: Bytes, out: Bytes, id: nat, question: Option<Bytes>, age: nat, k: nat)
    requires ParseResponse(buf).Some? && AllRecords(buf).Some? && k < Counted(buf) <= |AllRecords(buf).value|
    requires var m := ParseResponse(buf).value;
             && m.minTtl.Some? && age < m.minTtl.value
             && |buf| >= 12 && Apart(m.ttlOffsets, 12, |buf|) && Adapted(buf, out, id, question, m.ttlOffsets, age)
    requires AllRecords(buf).value[k].rtype != TYPE_OPT
    ensures var x := AllRecords(buf).value[k];
            && TtlSpot(x) + 4 <= |out| && x.ttl == GetU32(buf, TtlSpot(x))
            && GetU32(out, TtlSpot(x)) == x.ttl - age >= 1
  {
    hide ParseResponse, GetU16, GetU32, SameOutside, RecordList, Start, Apart, Restored;
    ParsedTtls(buf);
    var m, xs := ParseResponse(buf).value, AllRecords(buf).value;
    SpotListed(buf, Start(buf), |xs|, k, Counted(buf));
    var x := xs[k];
    var j :| 0 <= j < |m.ttlOffsets| && m.ttlOffsets[j] == TtlSpot(x);
    assert GetU32(out, m.ttlOffsets[j]) == Aged(GetU32(buf, m.ttlOffsets[j]), age);
  }
}
