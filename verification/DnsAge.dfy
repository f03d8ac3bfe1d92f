/** Parsing a response that adaptResponse of src/dns/wire.js has aged: when it is the
    same response with its TTLs lowered, and when it is not. */
module DnsAge {
  import opened Bytes
  import opened DomainNames
  import opened DnsNames
  import opened DnsQuery
  import opened DnsResponse
  import opened DnsAdapt

  // ---- What names are read through ----

  /** The id and the TTL fields. */
  ghost predicate Overwritten(i: int, spots: seq<nat>) {
    i < 2 || InSpot(i, spots)
  }

  /** The bytes of the question, whose letters may change their case. */
  ghost predicate InQuestion(i: int, front: nat) {
    12 <= i < front
  }

  /** The name at `pos` is read through no byte that is overwritten, and no pointer has its low byte in the question. */
  ghost predicate ClearFrom(buf: Bytes, pos: nat, jumps: nat, count: nat, spots: seq<nat>, front: nat)
    requires jumps <= MAX_JUMPS && count <= MAX_LABELS
    decreases MAX_JUMPS - jumps, |buf| - pos
  {
    pos < |buf| ==>
      && !Overwritten(pos, spots)
      && var len := buf[pos] as int;
         if len >= 0xc0 then
           pos + 1 < |buf| && jumps < MAX_JUMPS ==>
             && !Overwritten(pos + 1, spots) && !InQuestion(pos + 1, front)
             && ClearFrom(buf, (len - 0xc0) * 256 + buf[pos + 1] as int, jumps + 1, count, spots, front)
         else
           0 < len < 0x40 && pos + 1 + len <= |buf| && count < MAX_LABELS ==>
             && (forall i :: pos < i <= pos + len ==> !Overwritten(i, spots))
             && ClearFrom(buf, pos + 1 + len, jumps, count + 1, spots, front)
  }

  ghost predicate Clear(buf: Bytes, pos: nat, spots: seq<nat>, front: nat) {
    ClearFrom(buf, pos, 0, 0, spots, front)
  }

  /** The bytes that are not overwritten are the same, up to the case of letters in the question. */
  ghost predicate Alike(buf: Bytes, out: Bytes, spots: seq<nat>, front: nat) {
    && |out| == |buf|
    && forall i :: 0 <= i < |buf| && !Overwritten(i, spots) ==> AlikeAt(buf[i], out[i], InQuestion(i, front))
  }

  predicate AlikeAt(a: byte, b: byte, question: bool) {
    Lower(a) == Lower(b) && (question || a == b)
  }

  /** What is no letter is the same. */
  lemma SameByte(a: byte, b: byte, question: bool)
    requires AlikeAt(a, b, question) && (a < 0x40 || a >= 0xc0)
    ensures a == b
  {
  }

  ghost predicate LowerAlike(ls: seq<Bytes>, ms: seq<Bytes>) {
    |ms| == |ls| && forall k :: 0 <= k < |ls| ==> LowerAll(ms[k]) == LowerAll(ls[k])
  }

  /** A name that is clear reads the same but for the case of letters. */
  lemma {:induction false} ReadAlike(buf: Bytes, out: Bytes, pos: nat, jumps: nat, count: nat, spots: seq<nat>,
                                     front: nat)
    requires jumps <= MAX_JUMPS && count <= MAX_LABELS && Alike(buf, out, spots, front)
    requires ClearFrom(buf, pos, jumps, count, spots, front) && ReadFrom(buf, pos, jumps, count).Some?
    ensures var n, m := ReadFrom(buf, pos, jumps, count).value, ReadFrom(out, pos, jumps, count);
            m.Some? && m.value.next == n.next && LowerAlike(n.labels, m.value.labels)
    decreases MAX_JUMPS - jumps, |buf| - pos
  {
    hide LowerAll, Overwritten, Alike, LowerAlike;
    var len := buf[pos] as int;
    FirstByteIs(buf, pos, jumps, count);
    StructureKept(buf, out, pos, spots, front);
    if len >= 0xc0 {
      ByteAlike(buf, out, pos + 1, spots, front);
      ReadAlike(buf, out, (len - 0xc0) * 256 + buf[pos + 1] as int, jumps + 1, count, spots, front);
    } else if len > 0 {
      LabelAlike(buf, out, pos, len, spots, front);
      var next := pos + 1 + len;
      ReadAlike(buf, out, next, jumps, count + 1, spots, front);
      OneMoreAlike(buf[pos + 1..next], out[pos + 1..next], ReadFrom(buf, next, jumps, count + 1).value.labels,
                   ReadFrom(out, next, jumps, count + 1).value.labels);
    } else {
      NoneAlike();
    }
  }

  lemma ByteAlike(buf: Bytes, out: Bytes, i: nat, spots: seq<nat>, front: nat)
    requires Alike(buf, out, spots, front) && i < |buf| && !Overwritten(i, spots)
    ensures |out| == |buf| && (!InQuestion(i, front) ==> out[i] == buf[i])
  {
    hide Overwritten;
  }

  /** A length or the first byte of a pointer is no letter, so it is the same. */
  lemma StructureKept(buf: Bytes, out: Bytes, i: nat, spots: seq<nat>, front: nat)
    requires Alike(buf, out, spots, front) && i < |buf| && !Overwritten(i, spots) && (buf[i] < 0x40 || buf[i] >= 0xc0)
    ensures |out| == |buf| && out[i] == buf[i]
  {
    hide Overwritten;
    SameByte(buf[i], out[i], InQuestion(i, front));
  }

  lemma NoneAlike()
    ensures LowerAlike([], [])
  {
  }

  lemma OneMoreAlike(l: Bytes, m: Bytes, ls: seq<Bytes>, ms: seq<Bytes>)
    requires LowerAll(m) == LowerAll(l) && LowerAlike(ls, ms)
    ensures LowerAlike([l] + ls, [m] + ms)
  {
    hide LowerAll;
  }

  lemma FirstByteIs(buf: Bytes, pos: nat, jumps: nat, count: nat)
    requires jumps <= MAX_JUMPS && count <= MAX_LABELS && ReadFrom(buf, pos, jumps, count).Some?
    ensures pos < |buf| && (buf[pos] < 0x40 || buf[pos] >= 0xc0)
  {
  }

  lemma LabelAlike(buf: Bytes, out: Bytes, pos: nat, len: nat, spots: seq<nat>, front: nat)
    requires Alike(buf, out, spots, front) && pos + 1 + len <= |buf|
    requires forall i :: pos < i <= pos + len ==> !Overwritten(i, spots)
    ensures LowerAll(out[pos + 1..pos + 1 + len]) == LowerAll(buf[pos + 1..pos + 1 + len])
  {
    hide LowerAll, Overwritten;
    var a, b := buf[pos + 1..pos + 1 + len], out[pos + 1..pos + 1 + len];
    forall i | 0 <= i < len
      ensures LowerAll(b)[i] == LowerAll(a)[i]
    {
      assert AlikeAt(buf[pos + 1 + i], out[pos + 1 + i], InQuestion(pos + 1 + i, front));
      LowerAt(a, i);
      LowerAt(b, i);
    }
  }

  /** Labels that are alike join to the same lower-case name. */
  lemma NamesAlike(ls: seq<Bytes>, ms: seq<Bytes>)
    requires LowerAlike(ls, ms)
    ensures LowerAll(Dotted(ls)) == LowerAll(Dotted(ms))
  {
    hide LowerAll, Dotted;
    var ts := seq(|ls|, k requires 0 <= k < |ls| => LowerAll(ls[k]));
    LowerDotted(ls, ts);
    LowerDotted(ms, ts);
  }

  lemma NameReadAlike(buf: Bytes, out: Bytes, pos: nat, spots: seq<nat>, front: nat)
    requires Alike(buf, out, spots, front) && Clear(buf, pos, spots, front) && ReadName(buf, pos).Some?
    ensures var n, m := ReadName(buf, pos).value, ReadName(out, pos);
            m.Some? && m.value.next == n.next && LowerName(m.value) == LowerName(n)
  {
    hide ReadFrom, ClearFrom, LowerAll, Dotted, Alike;
    ReadAlike(buf, out, pos, 0, 0, spots, front);
    NamesAlike(ReadName(buf, pos).value.labels, ReadName(out, pos).value.labels);
  }

  // ---- Records ----

  function AgedRecord(x: Record, age: int): Record {
    if x.rtype == TYPE_OPT then x else x.(ttl := Aged(x.ttl, age))
  }

  /** What parseResponse would collect if every TTL were lowered. */
  ghost function AgedRecords(buf: Bytes, pos: nat, i: nat, an: nat, ns: nat, n: nat, acc: Acc,
                             age: int): (r: Option<Acc>)
    requires i <= n
    decreases n - i
  {
    if i == n then Some(acc) else
    var x :- RecordAt(buf, pos);
    var next :- Collect(buf, AgedRecord(x, age), i, an, ns, acc);
    AgedRecords(buf, x.end, i + 1, an, ns, n, next, age)
  }

  /** The names in the data of a record are clear. */
  ghost predicate DataClear(buf: Bytes, x: Record, i: nat, an: nat, ns: nat, spots: seq<nat>, front: nat) {
    && (x.rtype == TYPE_SOA && an <= i < an + ns ==>
          && Clear(buf, x.rd, spots, front)
          && (ReadName(buf, x.rd).Some? ==> Clear(buf, ReadName(buf, x.rd).value.next, spots, front)))
    && (i < an && x.rtype == TYPE_CNAME ==> Clear(buf, x.rd, spots, front))
  }

  ghost predicate RecordsClear(buf: Bytes, pos: nat, i: nat, an: nat, ns: nat, n: nat, spots: seq<nat>, front: nat)
    requires i <= n
    decreases n - i
  {
    i < n ==>
      && Clear(buf, pos, spots, front)
      && (RecordAt(buf, pos).Some? ==>
            && DataClear(buf, RecordAt(buf, pos).value, i, an, ns, spots, front)
            && RecordsClear(buf, RecordAt(buf, pos).value.end, i + 1, an, ns, n, spots, front))
  }

  /** Only the TTL field of the record is overwritten in it. */
  ghost predicate OwnFieldOnly(x: Record, spots: seq<nat>) {
    && forall i :: x.name.next <= i < x.end && Overwritten(i, spots) ==>
         x.rtype != TYPE_OPT && TtlSpot(x) <= i < TtlSpot(x) + 4
  }

  lemma SameStretch(buf: Bytes, out: Bytes, a: nat, b: nat, spots: seq<nat>, front: nat)
    requires Alike(buf, out, spots, front) && front <= a <= b <= |buf|
    requires forall i :: a <= i < b ==> !Overwritten(i, spots)
    ensures out[a..b] == buf[a..b]
  {
    hide Overwritten;
    forall i | a <= i < b
      ensures out[i] == buf[i]
    {
      assert AlikeAt(buf[i], out[i], InQuestion(i, front));
    }
  }

  lemma SameU16(buf: Bytes, out: Bytes, a: nat)
    requires a + 2 <= |buf| == |out| && out[a..a + 2] == buf[a..a + 2]
    ensures GetU16(out, a) == GetU16(buf, a)
  {
    assert out[a] == out[a..a + 2][0] && out[a + 1] == out[a..a + 2][1];
    assert buf[a] == buf[a..a + 2][0] && buf[a + 1] == buf[a..a + 2][1];
  }

  lemma SameU32(buf: Bytes, out: Bytes, a: nat)
    requires a + 4 <= |buf| == |out| && out[a..a + 4] == buf[a..a + 4]
    ensures GetU32(out, a) == GetU32(buf, a)
  {
    hide GetU16;
    assert out[a..a + 2] == out[a..a + 4][..2] && buf[a..a + 2] == buf[a..a + 4][..2];
    assert out[a + 2..a + 4] == out[a..a + 4][2..] && buf[a + 2..a + 4] == buf[a..a + 4][2..];
    SameU16(buf, out, a);
    SameU16(buf, out, a + 2);
  }

  /** `y` is read where `x` was, with its TTL aged. */
  ghost predicate AgesTo(buf: Bytes, out: Bytes, x: Record, y: Record, age: int) {
    && y.name.next == x.name.next && LowerName(y.name) == LowerName(x.name) && y.rtype == x.rtype
    && y.ttl == AgedRecord(x, age).ttl && y.rd == x.rd && y.end == x.end
    && x.rd <= x.end <= |buf| == |out| && out[x.rd..x.end] == buf[x.rd..x.end]
  }

  lemma RecordAlike(buf: Bytes, out: Bytes, pos: nat, spots: seq<nat>, front: nat, age: int)
    requires Alike(buf, out, spots, front) && Clear(buf, pos, spots, front) && front <= pos && RecordAt(buf, pos).Some?
    requires var x := RecordAt(buf, pos).value;
             && OwnFieldOnly(x, spots)
             && (x.rtype != TYPE_OPT ==>
                   |out| == |buf| && GetU32(out, TtlSpot(x)) == Aged(GetU32(buf, TtlSpot(x)), age))
    ensures RecordAt(out, pos).Some? && AgesTo(buf, out, RecordAt(buf, pos).value, RecordAt(out, pos).value, age)
  {
    hide ReadName, Clear, GetU16, GetU32, LowerName, Overwritten, Alike, Aged;
    var x := RecordAt(buf, pos).value;
    var p := x.name.next;
    AlikeLength(buf, out, spots, front);
    NameReadAlike(buf, out, pos, spots, front);
    SameStretch(buf, out, p, p + 2, spots, front);
    SameU16(buf, out, p);
    SameStretch(buf, out, p + 8, p + 10, spots, front);
    SameU16(buf, out, p + 8);
    SameStretch(buf, out, x.rd, x.end, spots, front);
    if x.rtype == TYPE_OPT {
      SameStretch(buf, out, p + 4, p + 8, spots, front);
      SameU32(buf, out, p + 4);
    }
  }

  lemma AlikeLength(buf: Bytes, out: Bytes, spots: seq<nat>, front: nat)
    requires Alike(buf, out, spots, front)
    ensures |out| == |buf|
  {
  }

  /** Collecting the aged record gives what the original gives with its TTL lowered. */
  lemma CollectAlike(buf: Bytes, out: Bytes, x: Record, y: Record, i: nat, an: nat, ns: nat, acc: Acc,
                     spots: seq<nat>, front: nat, age: int)
    requires Alike(buf, out, spots, front) && DataClear(buf, x, i, an, ns, spots, front) && AgesTo(buf, out, x, y, age)
    requires x.name.next + 10 == x.rd && Collect(buf, AgedRecord(x, age), i, an, ns, acc).Some?
    ensures Collect(out, y, i, an, ns, acc) == Collect(buf, AgedRecord(x, age), i, an, ns, acc)
  {
    hide Alike, Clear, SoaTtl, CnameTarget, LowerName, Aged, ReadName;
    if x.rtype == TYPE_SOA && an <= i < an + ns {
      SoaAlike(buf, out, AgedRecord(x, age), y, acc.negTtl, spots, front);
    }
    if i < an && x.rtype == TYPE_CNAME {
      TargetAlike(buf, out, x.rd, spots, front);
    }
  }

  lemma TargetAlike(buf: Bytes, out: Bytes, rd: nat, spots: seq<nat>, front: nat)
    requires Alike(buf, out, spots, front) && Clear(buf, rd, spots, front) && CnameTarget(buf, rd).Some?
    ensures CnameTarget(out, rd) == CnameTarget(buf, rd)
  {
    hide Alike, Clear, LowerName, ReadName;
    NameReadAlike(buf, out, rd, spots, front);
  }

  lemma SoaAlike(buf: Bytes, out: Bytes, x: Record, y: Record, prior: Option<int>, spots: seq<nat>, front: nat)
    requires Alike(buf, out, spots, front) && x.rd <= x.end <= |buf| == |out| && out[x.rd..x.end] == buf[x.rd..x.end]
    requires y.rd == x.rd && y.end == x.end && y.ttl == x.ttl && SoaTtl(buf, x, prior).Some?
    requires Clear(buf, x.rd, spots, front)
    requires ReadName(buf, x.rd).Some? ==> Clear(buf, ReadName(buf, x.rd).value.next, spots, front)
    ensures SoaTtl(out, y, prior) == SoaTtl(buf, x, prior)
  {
    hide Alike, Clear, LowerName, GetU32, ReadFrom;
    NameReadAlike(buf, out, x.rd, spots, front);
    var m := ReadName(buf, x.rd).value;
    NameReadAlike(buf, out, m.next, spots, front);
    var r := ReadName(buf, m.next).value;
    if r.next + 20 <= x.end {
      var a := r.next + 16;
      SliceOfSlice(buf, x.rd, x.end, a - x.rd, a - x.rd + 4);
      SliceOfSlice(out, x.rd, x.end, a - x.rd, a - x.rd + 4);
      SameU32(buf, out, a);
    }
  }

  // ---- All records ----

  /** The places in front of `pos` and those of the records from `pos` on. */
  ghost predicate SplitAt(spots: seq<nat>, before: seq<nat>, xs: seq<Record>, pos: nat) {
    spots == before + TtlSpots(xs) && pos >= 2 && forall k :: 0 <= k < |before| ==> before[k] + 4 <= pos
  }

  lemma OwnField(buf: Bytes, spots: seq<nat>, before: seq<nat>, x: Record, pos: nat, k: nat)
    requires RecordAt(buf, pos) == Some(x) && RecordList(buf, x.end, k).Some?
    requires SplitAt(spots, before, [x] + RecordList(buf, x.end, k).value, pos)
    ensures OwnFieldOnly(x, spots)
    ensures var now := before + if x.rtype == TYPE_OPT then [] else [TtlSpot(x)];
            SplitAt(spots, now, RecordList(buf, x.end, k).value, x.end)
    ensures x.rtype != TYPE_OPT ==> |before| < |spots| && spots[|before|] == TtlSpot(x)
  {
    hide RecordAt;
    var rest := RecordList(buf, x.end, k).value;
    SpotsApart(buf, x.end, k);
    var xs := [x] + rest;
    assert xs[1..] == rest;
    var now := before + if x.rtype == TYPE_OPT then [] else [TtlSpot(x)];
    assert spots == now + TtlSpots(rest);
    forall i | x.name.next <= i < x.end && Overwritten(i, spots)
      ensures x.rtype != TYPE_OPT && TtlSpot(x) <= i < TtlSpot(x) + 4
    {
      var j :| 0 <= j < |spots| && spots[j] <= i < spots[j] + 4;
    }
  }

  lemma {:induction false} RecordsAlike(buf: Bytes, out: Bytes, pos: nat, i: nat, an: nat, ns: nat, n: nat, acc: Acc,
                                        spots: seq<nat>, before: seq<nat>, front: nat, age: int)
    requires i <= n && Alike(buf, out, spots, front) && RecordsClear(buf, pos, i, an, ns, n, spots, front)
             && front <= pos
    requires AgedRecords(buf, pos, i, an, ns, n, acc, age).Some? && RecordList(buf, pos, n - i).Some?
    requires SplitAt(spots, before, RecordList(buf, pos, n - i).value, pos)
    requires |out| == |buf| && Apart(spots, 0, |buf|) && FieldsAged(buf, out, spots, age)
    ensures Records(out, pos, i, an, ns, n, acc) == AgedRecords(buf, pos, i, an, ns, n, acc, age)
    decreases n - i
  {
    hide Alike, Clear, DataClear, RecordAt, Collect, OwnFieldOnly, Apart, Aged, GetU32, SplitAt;
    if i < n {
      var x := RecordAt(buf, pos).value;
      OwnField(buf, spots, before, x, pos, n - i - 1);
      RecordAlike(buf, out, pos, spots, front, age);
      var y := RecordAt(out, pos).value;
      var next := Collect(buf, AgedRecord(x, age), i, an, ns, acc).value;
      CollectAlike(buf, out, x, y, i, an, ns, acc, spots, front, age);
      var now := before + if x.rtype == TYPE_OPT then [] else [TtlSpot(x)];
      RecordsAlike(buf, out, x.end, i + 1, an, ns, n, next, spots, now, front, age);
    }
  }

  // ---- What ageing does to a parsed response ----

  function AgedFound(f: Found, age: int): Found {
    if f.rtype == TYPE_OPT then f else f.(ttl := Aged(f.ttl, age))
  }

  /** `b` is `a` with every TTL lowered. */
  ghost predicate AccAged(a: Acc, b: Acc, age: int) {
    && b.offsets == a.offsets && b.minTtl == (if a.minTtl.Some? then Some(Aged(a.minTtl.value, age)) else None)
    && a.negTtl.Some? == b.negTtl.Some? && (a.negTtl.Some? ==> b.negTtl.value <= a.negTtl.value)
    && |b.answers| == |a.answers| && forall k :: 0 <= k < |a.answers| ==> b.answers[k] == AgedFound(a.answers[k], age)
  }

  lemma CollectAged(buf: Bytes, x: Record, i: nat, an: nat, ns: nat, a: Acc, b: Acc, age: int)
    requires x.rd <= x.end <= |buf| && x.name.next + 10 == x.rd && 0 <= x.ttl && AccAged(a, b, age)
    requires Collect(buf, x, i, an, ns, a).Some?
    ensures var c, d := Collect(buf, x, i, an, ns, a), Collect(buf, AgedRecord(x, age), i, an, ns, b);
            d.Some? && AccAged(c.value, d.value, age)
  {
    hide ReadName, LowerName, GetU32;
  }

  lemma {:induction false} RecordsAged(buf: Bytes, pos: nat, i: nat, an: nat, ns: nat, n: nat, a: Acc, b: Acc, age: int)
    requires i <= n && AccAged(a, b, age) && Records(buf, pos, i, an, ns, n, a).Some?
    ensures var c, d := Records(buf, pos, i, an, ns, n, a), AgedRecords(buf, pos, i, an, ns, n, b, age);
            d.Some? && AccAged(c.value, d.value, age)
    decreases n - i
  {
    hide AccAged, RecordAt, Collect, Aged;
    if i < n {
      var x := RecordAt(buf, pos).value;
      TtlIsNatural(buf, pos);
      CollectAged(buf, x, i, an, ns, a, b, age);
      RecordsAged(buf, x.end, i + 1, an, ns, n, Collect(buf, x, i, an, ns, a).value,
                  Collect(buf, AgedRecord(x, age), i, an, ns, b).value, age);
    }
  }

  lemma TtlIsNatural(buf: Bytes, pos: nat)
    ensures RecordAt(buf, pos).Some? ==> RecordAt(buf, pos).value.ttl >= 0
  {
    hide ReadName;
  }

  // ---- The whole response ----

  /** `b` is `a` under another id and with every TTL lowered. */
  ghost predicate IsAged(a: Response, b: Response, id: nat, age: int) {
    && b.id == id % U16_LIMIT && b.rcode == a.rcode && b.tc == a.tc && b.qname == a.qname && b.an == a.an
    && AccAged(Acc(a.ttlOffsets, a.minTtl, a.negTtl, a.answers), Acc(b.ttlOffsets, b.minTtl, b.negTtl, b.answers), age)
  }

  /** No name of the message is read through its id, a TTL field, or a pointer that lies in the question. */
  ghost predicate NamesClear(buf: Bytes, question: Option<Bytes>)
    requires ParseResponse(buf).Some?
  {
    && |buf| >= 12
    && var spots, front := ParseResponse(buf).value.ttlOffsets, Front(buf, question);
    && (GetU16(buf, 4) == 1 ==> Clear(buf, 12, spots, front))
    && RecordsClear(buf, Start(buf), 0, GetU16(buf, 6), GetU16(buf, 8), Counted(buf) + GetU16(buf, 10), spots, front)
  }

  /** The question that is put back differs from the one in the response in case only. */
  ghost predicate SameButCase(buf: Bytes, question: Option<Bytes>)
    requires |buf| >= 12
  {
    Restored(buf, question) ==> LowerAll(question.value) == LowerAll(buf[12..12 + |question.value|])
  }

  lemma AdaptedIsAlike(buf: Bytes, out: Bytes, id: nat, question: Option<Bytes>, spots: seq<nat>, age: int)
    requires |buf| >= 12 && Apart(spots, 12, |buf|) && Adapted(buf, out, id, question, spots, age)
             && SameButCase(buf, question)
    ensures Alike(buf, out, spots, Front(buf, question))
  {
    hide GetU16, FieldsAged, LowerAll, ReadQuestion, InSpot;
    var front := Front(buf, question);
    forall i | 0 <= i < |buf| && !Overwritten(i, spots)
      ensures AlikeAt(buf[i], out[i], InQuestion(i, front))
    {
      if i < 12 {
        assert out[i] == out[2..12][i - 2] == buf[2..12][i - 2] == buf[i];
      } else if i < front {
        var q, o := question.value, buf[12..front];
        assert out[i] == out[12..front][i - 12] == q[i - 12] && buf[i] == o[i - 12];
        LowerAt(q, i - 12);
        LowerAt(o, i - 12);
      }
    }
  }

  lemma SameHeader(buf: Bytes, out: Bytes)
    requires |buf| == |out| >= 12 && out[2..12] == buf[2..12]
    ensures forall i :: 2 <= i <= 10 ==> GetU16(out, i) == GetU16(buf, i)
  {
    forall i | 2 <= i < 12
      ensures out[i] == buf[i]
    {
      assert out[i] == out[2..12][i - 2] && buf[i] == buf[2..12][i - 2];
    }
  }

  lemma QuestionAlike(buf: Bytes, out: Bytes, spots: seq<nat>, front: nat)
    requires |buf| == |out| >= 12 && Alike(buf, out, spots, front) && GetU16(out, 4) == GetU16(buf, 4)
    requires GetU16(buf, 4) == 1 ==> Clear(buf, 12, spots, front)
    requires AfterQuestion(buf).Some?
    ensures AfterQuestion(out) == AfterQuestion(buf)
  {
    hide Alike, Clear, LowerName, ReadName, GetU16;
    if GetU16(buf, 4) == 1 {
      NameReadAlike(buf, out, 12, spots, front);
    }
  }

  /** Parsing a response that was adapted for a client gives the same response under the id of the
      client and with every TTL lowered, if no name is read through a byte that was overwritten. */
  lemma AdaptedParses(buf: Bytes, out: Bytes, id: nat, question: Option<Bytes>, age: int)
    requires ParseResponse(buf).Some? && NamesClear(buf, question) && SameButCase(buf, question)
    requires var m := ParseResponse(buf).value;
             Apart(m.ttlOffsets, 12, |buf|) && Adapted(buf, out, id, question, m.ttlOffsets, age)
    ensures ParseResponse(out).Some? && IsAged(ParseResponse(buf).value, ParseResponse(out).value, id, age)
  {
    hide Records, AgedRecords, RecordsClear, AfterQuestion, GetU16, Bit, AccAged, Alike, RecordList, Front,
        SameButCase, Clear;
    hide FieldsAged, SameOutside, TtlSpots, Ttls, IsLowest, Restored;
    var m, spots, front := ParseResponse(buf).value, ParseResponse(buf).value.ttlOffsets, Front(buf, question);
    var an, ns, ar := GetU16(buf, 6), GetU16(buf, 8), GetU16(buf, 10);
    AdaptedIsAlike(buf, out, id, question, spots, age);
    SameHeader(buf, out);
    QuestionAlike(buf, out, spots, front);
    ParsedTtls(buf);
    StartsBehind(buf, question);
    NothingAged(age);
    RecordsAged(buf, Start(buf), 0, an, ns, an + ns + ar, NOTHING, NOTHING, age);
    FromTheStart(spots, AllRecords(buf).value, Start(buf));
    WiderApart(spots, |buf|);
    RecordsAlike(buf, out, Start(buf), 0, an, ns, an + ns + ar, NOTHING, spots, [], front, age);
  }

  lemma NothingAged(age: int)
    ensures AccAged(NOTHING, NOTHING, age)
  {
  }

  lemma FromTheStart(spots: seq<nat>, xs: seq<Record>, pos: nat)
    requires spots == TtlSpots(xs) && pos >= 12
    ensures SplitAt(spots, [], xs, pos)
  {
    assert [] + spots == spots;
  }

  lemma WiderApart(spots: seq<nat>, to: nat)
    requires Apart(spots, 12, to)
    ensures Apart(spots, 0, to)
  {
  }

  // ---- A name in a TTL field ----

  /** A response with one record and the TTL 256 * c + d, whose name points to the byte c of that TTL. */
  function Looped(c: byte, d: byte): Bytes {
    [0, 0, 0x80, 0, 0, 0, 0, 1, 0, 0, 0, 0, 0xc0, 20, 0, 1, 0, 1, 0, 0, c, d, 0, 0]
  }

  lemma LoopedName(c: byte, d: byte)
    requires c == 0 || (c == 1 && d == 0)
    ensures ReadName(Looped(c, d), 12) == Some(Name(if c == 0 then [] else [[d]], 14))
  {
    var b := Looped(c, d);
    if c == 0 {
      assert ReadFrom(b, 20, 1, 0) == Some(Name([], 21));
    } else {
      assert ReadFrom(b, 22, 1, 1) == Some(Name([], 23));
      assert b[21..22] == [d];
      assert ReadFrom(b, 20, 1, 0) == Some(Name([[d]] + [], 23));
      assert [[d]] + [] == [[d]];
    }
  }

  lemma LoopedRecord(c: byte, d: byte)
    requires c == 0 || (c == 1 && d == 0)
    ensures var n, ttl := Name(if c == 0 then [] else [[d]], 14), 256 * c as int + d as int;
            && RecordAt(Looped(c, d), 12) == Some(Record(n, 1, ttl, 24, 24))
            && LowerName(n) == if c == 0 then [] else LowerAll([d])
  {
    hide ReadName, LowerAll;
    LoopedName(c, d);
    OneLabel(d);
  }

  function LoopedFound(c: byte, d: byte): Found {
    Found(if c == 0 then [] else LowerAll([d]), 1, 256 * c as int + d as int, [], None)
  }

  lemma LoopedCollected(c: byte, d: byte)
    requires c == 0 || (c == 1 && d == 0)
    ensures Records(Looped(c, d), 12, 0, 1, 0, 1, NOTHING) ==
            Some(Acc([18], Some(256 * c as int + d as int), None, [LoopedFound(c, d)]))
  {
    hide RecordAt, LowerName, LowerAll, Looped;
    LoopedRecord(c, d);
    LoopedHeader(c, d);
    var b, x := Looped(c, d), RecordAt(Looped(c, d), 12).value;
    var acc := Collect(b, x, 0, 1, 0, NOTHING).value;
    assert acc.offsets == [18] && b[24..24] == [];
    assert acc.answers == [LoopedFound(c, d)];
    assert Records(b, 24, 1, 1, 0, 1, acc) == Some(acc);
  }

  lemma LoopedHeader(c: byte, d: byte)
    ensures var b := Looped(c, d);
            && |b| == 24 && GetU16(b, 0) == 0 && GetU16(b, 2) == 0x8000 && GetU16(b, 4) == 0
            && GetU16(b, 6) == 1 && GetU16(b, 8) == 0 && GetU16(b, 10) == 0
  {
  }

  lemma LoopedParses(c: byte, d: byte)
    requires c == 0 || (c == 1 && d == 0)
    ensures ParseResponse(Looped(c, d)) ==
            Some(Response(0, 0, false, None, [18], Some(256 * c as int + d as int), None, [LoopedFound(c, d)], 1))
  {
    hide Records, LowerAll, Looped, GetU16, LoopedFound;
    LoopedHeader(c, d);
    LoopedCollected(c, d);
  }

  lemma OneLabel(d: byte)
    ensures LowerAll(Dotted([[d]])) == LowerAll([d]) && LowerAll(Dotted([])) == []
  {
  }

  /** `out` is `buf` aged as adaptResponse does it, and yet is parsed to another name. */
  ghost predicate AgesWrong(buf: Bytes, out: Bytes, id: nat, age: int) {
    && ParseResponse(buf).Some? && ParseResponse(out).Some? && |buf| >= 12
    && var m, n := ParseResponse(buf).value, ParseResponse(out).value;
    && Apart(m.ttlOffsets, 12, |buf|) && Adapted(buf, out, id, None, m.ttlOffsets, age)
    && |m.answers| == |n.answers| == 1 && m.answers[0].name != n.answers[0].name && !IsAged(m, n, id, age)
  }

  /** Such a response, aged by one second, has another name. */
  lemma NameInTtl()
    ensures AgesWrong(Looped(1, 0), Looped(0, 255), 0, 1)
  {
    hide ParseResponse, Adapted, LowerAll;
    LoopedParses(1, 0);
    LoopedParses(0, 255);
    LoopedAdapted();
    assert |LowerAll([0])| == 1;
  }

  lemma LoopedAdapted()
    ensures var buf, out := Looped(1, 0), Looped(0, 255);
            Apart([18], 12, |buf|) && Adapted(buf, out, 0, None, [18], 1)
  {
    var buf, out := Looped(1, 0), Looped(0, 255);
    assert GetU32(buf, 18) == 256 && GetU32(out, 18) == 255;
    assert buf[2..12] == out[2..12];
    assert [18][0] == 18 && InSpot(20, [18]) && InSpot(21, [18]);
  }
}
