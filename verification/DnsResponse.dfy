/** DNS responses (sections 4.1.1 to 4.1.4 of RFC 1035): parseResponse and
    buildResponse of src/dns/wire.js. */
module DnsResponse {
  import opened Bytes
  import opened Splitting
  import opened DomainNames
  import opened DnsNames
  import opened DnsQuery

  const TYPE_CNAME := 5
  const TYPE_SOA := 6
  const CLASS_IN := 1

  /** A record of the answer section; `target` is the name that a CNAME points to. */
  datatype Found = Found(name: Bytes, rtype: int, ttl: int, rdata: Bytes, target: Option<Bytes>)

  datatype Response = Response(id: int, rcode: int, tc: bool, qname: Option<Bytes>, ttlOffsets: seq<nat>,
                               minTtl: Option<int>, negTtl: Option<int>, answers: seq<Found>, an: int)

  /** What the loop over the records has collected. */
  datatype Acc = Acc(offsets: seq<nat>, minTtl: Option<int>, negTtl: Option<int>, answers: seq<Found>)

  function LowerName(n: Name): Bytes {
    LowerAll(Dotted(n.labels))
  }

  /** One record: its name, where its fields and its data lie. */
  datatype Record = Record(name: Name, rtype: int, ttl: int, rd: nat, end: nat)

  function RecordAt(buf: Bytes, pos: nat): (r: Option<Record>)
    ensures r.Some? ==>
              var x := r.value;
              && pos < x.name.next && x.name.next + 10 == x.rd <= x.end <= |buf|
              && 0 <= x.rtype < U16_LIMIT && x.ttl == GetU32(buf, x.name.next + 4) && x.end - x.rd < U16_LIMIT
  {
    var n :- ReadName(buf, pos);
    var p := n.next;
    if p + 10 > |buf| then None else
    var end := p + 10 + GetU16(buf, p + 8);
    if end > |buf| then None else
    Some(Record(n, GetU16(buf, p), GetU32(buf, p + 4), p + 10, end))
  }

  /** The negative TTL of an SOA record, if its data holds one; the outer None is a throw. */
  function SoaTtl(buf: Bytes, x: Record, prior: Option<int>): Option<Option<int>>
    requires x.end <= |buf|
  {
    var m :- ReadName(buf, x.rd);
    var r :- ReadName(buf, m.next);
    if r.next + 20 <= x.end then
      var t := GetU32(buf, r.next + 16);
      Some(Some(if x.ttl < t then x.ttl else t))
    else Some(prior)
  }

  function Smaller(a: Option<int>, b: int): Option<int> {
    if a.None? || b < a.value then Some(b) else a
  }

  /** The record `i` of a message with `an` answers and `ns` authority records. */
  function Collect(buf: Bytes, x: Record, i: nat, an: nat, ns: nat, acc: Acc): (r: Option<Acc>)
    requires x.rd <= x.end <= |buf| && x.name.next + 10 == x.rd
  {
    var neg :- if x.rtype == TYPE_SOA && an <= i < an + ns then SoaTtl(buf, x, acc.negTtl) else Some(acc.negTtl);
    var target :- if i < an && x.rtype == TYPE_CNAME then CnameTarget(buf, x.rd) else Some(None);
    Some(Acc(if x.rtype == TYPE_OPT then acc.offsets else acc.offsets + [x.name.next + 4],
             if x.rtype != TYPE_OPT && i < an + ns then Smaller(acc.minTtl, x.ttl) else acc.minTtl,
             neg,
             if i < an then acc.answers + [Found(LowerName(x.name), x.rtype, x.ttl, buf[x.rd..x.end], target)]
             else acc.answers))
  }

  function CnameTarget(buf: Bytes, rd: nat): Option<Option<Bytes>> {
    var t :- ReadName(buf, rd);
    Some(Some(LowerName(t)))
  }

  /** The records `i` up to `n`, from `pos` on. */
  function Records(buf: Bytes, pos: nat, i: nat, an: nat, ns: nat, n: nat, acc: Acc): (r: Option<Acc>)
    requires i <= n
    decreases n - i
  {
    if i == n then Some(acc) else
    var x :- RecordAt(buf, pos);
    var next :- Collect(buf, x, i, an, ns, acc);
    Records(buf, x.end, i + 1, an, ns, n, next)
  }

  const NOTHING := Acc([], None, None, [])

  /** Where the records start, and the name of the question. */
  function AfterQuestion(buf: Bytes): (r: Option<(nat, Option<Bytes>)>)
    requires |buf| >= 12
    ensures r.Some? ==> 12 <= r.value.0 <= |buf|
  {
    if GetU16(buf, 4) == 1 then
      var n :- ReadName(buf, 12);
      if n.next + 4 > |buf| then None else Some((n.next + 4, Some(LowerName(n))))
    else Some((12, None))
  }

  function ParseResponse(buf: Bytes): (r: Option<Response>)
  {
    if |buf| < 12 then None else
    var flags, qd, an, ns, ar := GetU16(buf, 2), GetU16(buf, 4), GetU16(buf, 6), GetU16(buf, 8), GetU16(buf, 10);
    if !Bit(flags, 0x8000) || an + ns + ar > MAX_RR || qd > 1 then None else
    var (pos, qname) :- AfterQuestion(buf);
    var acc :- Records(buf, pos, 0, an, ns, an + ns + ar, NOTHING);
    Some(Response(GetU16(buf, 0), flags % 16, Bit(flags, 0x200), qname, acc.offsets, acc.minTtl, acc.negTtl,
        acc.answers, an))
  }

  /** Which messages are taken for a response at all. */
  lemma ResponseAccepted(buf: Bytes)
    requires ParseResponse(buf).Some?
    ensures |buf| >= 12 && Bit(GetU16(buf, 2), 0x8000) && GetU16(buf, 4) <= 1
    ensures GetU16(buf, 6) + GetU16(buf, 8) + GetU16(buf, 10) <= 512
    ensures var r := ParseResponse(buf).value;
            && r.id == GetU16(buf, 0) && r.rcode == GetU16(buf, 2) % 16 && r.tc == Bit(GetU16(buf, 2), 0x200)
            && r.an == GetU16(buf, 6) && (r.qname.Some? <==> GetU16(buf, 4) == 1)
  {
    hide GetU16, Records, Bit, ReadName;
  }

  /** The loop of parseResponse. */
  method RecordLoop(buf: Bytes, start: nat, an: nat, ns: nat, n: nat) returns (r: Option<Acc>)
    ensures r == Records(buf, start, 0, an, ns, n, NOTHING)
  {
    hide RecordAt, Collect;
    var acc := NOTHING;
    var pos, i := start, 0;
    while i < n
      invariant 0 <= i <= n && pos >= 0
      invariant Records(buf, start, 0, an, ns, n, NOTHING) == Records(buf, pos, i, an, ns, n, acc)
    {
      var x := RecordAt(buf, pos);
      if x.None? {
        return None;
      }
      var next := Collect(buf, x.value, i, an, ns, acc);
      if next.None? {
        return None;
      }
      acc := next.value;
      pos := x.value.end;
      i := i + 1;
    }
    r := Some(acc);
  }

  /** parseResponse, with its loop. */
  method ParseResponseLoop(buf: Bytes) returns (r: Option<Response>)
    ensures r == ParseResponse(buf)
  {
    hide GetU16, Records, Bit, AfterQuestion;
    if |buf| < 12 {
      return None;
    }
    var flags, qd, an, ns, ar := GetU16(buf, 2), GetU16(buf, 4), GetU16(buf, 6), GetU16(buf, 8), GetU16(buf, 10);
    if !Bit(flags, 0x8000) || an + ns + ar > MAX_RR || qd > 1 {
      return None;
    }
    var start := AfterQuestion(buf);
    if start.None? {
      return None;
    }
    var acc := RecordLoop(buf, start.value.0, an, ns, an + ns + ar);
    if acc.None? {
      return None;
    }
    var a := acc.value;
    r := Some(Response(GetU16(buf, 0), flags % 16, Bit(flags, 0x200), start.value.1, a.offsets, a.minTtl, a.negTtl,
        a.answers, an));
  }

  /** An SOA record of the authority section whose names are written out sets the negative
      TTL (section 3 of RFC 2308) to the lesser of its TTL and its last field. */
  lemma SoaTtlIs(buf: Bytes, x: Record, primary: seq<Bytes>, mailbox: seq<Bytes>, fields: Bytes,
                 i: nat, an: nat, ns: nat, acc: Acc)
    requires LabelsFit(primary) && |primary| <= 128 && LabelsFit(mailbox) && |mailbox| <= 128 && |fields| == 20
    requires Holds(buf, x.rd, Wire(primary) + Wire(mailbox) + fields)
             && x.end == x.rd + |Wire(primary) + Wire(mailbox) + fields|
    requires x.rtype == 6 && an <= i < an + ns && x.name.next + 10 == x.rd && x.end <= |buf|
    ensures var r := Collect(buf, x, i, an, ns, acc);
            && r.Some? && r.value.answers == acc.answers
            && r.value.negTtl == Some(if x.ttl < GetU32(fields, 16) then x.ttl else GetU32(fields, 16))
  {
    hide Wire, ReadFrom, Holds, GetU32;
    HoldsEnd(buf, x.rd, Wire(primary) + Wire(mailbox) + fields);
    HoldsBoth(buf, x.rd, Wire(primary) + Wire(mailbox), fields);
    HoldsBoth(buf, x.rd, Wire(primary), Wire(mailbox));
    NameIsRead(buf, x.rd, primary);
    NameIsRead(buf, x.rd + |Wire(primary)|, mailbox);
    FieldInside(buf, x.rd + |Wire(primary)| + |Wire(mailbox)|, fields);
  }

  /** No other record touches the negative TTL. */
  lemma NoSoaNoTtl(buf: Bytes, x: Record, i: nat, an: nat, ns: nat, acc: Acc)
    requires x.rd <= x.end <= |buf| && x.name.next + 10 == x.rd && !(x.rtype == 6 && an <= i < an + ns)
    ensures var r := Collect(buf, x, i, an, ns, acc); r.Some? ==> r.value.negTtl == acc.negTtl
  {
    hide ReadFrom;
  }

  lemma HoldsEnd(buf: Bytes, pos: nat, w: Bytes)
    requires Holds(buf, pos, w)
    ensures pos + |w| <= |buf|
  {
  }

  lemma NameIsRead(buf: Bytes, pos: nat, ls: seq<Bytes>)
    requires LabelsFit(ls) && |ls| <= MAX_LABELS && Holds(buf, pos, Wire(ls))
    ensures ReadName(buf, pos) == Some(Name(ls, pos + |Wire(ls)|))
  {
    hide Wire, ReadFrom;
    ReadWire(buf, pos, ls, 0, 0);
  }

  lemma FieldInside(buf: Bytes, pos: nat, fields: Bytes)
    requires |fields| == 20 && Holds(buf, pos, fields)
    ensures pos + 20 <= |buf| && GetU32(buf, pos + 16) == GetU32(fields, 16)
  {
    var w := buf[pos..pos + 20];
    assert w[16] == buf[pos + 16] && w[17] == buf[pos + 17] && w[18] == buf[pos + 18] && w[19] == buf[pos + 19];
  }

  // ---- Building ----

  datatype Answer = Answer(name: Bytes, rtype: int, ttl: int, rdata: Bytes)

  /** `ttl | 0`, and never below 0. */
  function TtlField(ttl: int): (t: int)
    ensures 0 <= t < 0x8000_0000
    ensures 0 <= ttl < 0x8000_0000 ==> t == ttl
    ensures -0x8000_0000 <= ttl < 0 ==> t == 0
  {
    var w := ttl % U32_LIMIT;
    if w >= 0x8000_0000 then 0 else w
  }

  /** The fixed fields of a record, between its name and its data. */
  function Fields(rtype: int, class_: int, ttl: int, n: int): (b: Bytes)
    requires 0 <= rtype < U16_LIMIT && 0 <= class_ < U16_LIMIT && 0 <= ttl < U32_LIMIT && 0 <= n < U16_LIMIT
    ensures |b| == 10
  {
    U16(rtype) + U16(class_) + U32(ttl) + U16(n)
  }

  function AnswerName(a: Answer, qname: Option<Bytes>): Option<Bytes> {
    if qname == Some(a.name) then Some([0xc0, 0x0c]) else EncodeName(a.name)
  }

  /** One record; None where the program throws. */
  function AnswerBytes(a: Answer, qname: Option<Bytes>): (r: Option<Bytes>)
  {
    var n :- AnswerName(a, qname);
    if !(0 <= a.rtype < U16_LIMIT) || |a.rdata| >= U16_LIMIT then None else
    Some(n + Fields(a.rtype, CLASS_IN, TtlField(a.ttl), |a.rdata|) + a.rdata)
  }

  function AnswersBytes(answers: seq<Answer>, qname: Option<Bytes>): (r: Option<Bytes>)
  {
    if answers == [] then Some([]) else
    var a :- AnswerBytes(answers[0], qname);
    var rest :- AnswersBytes(answers[1..], qname);
    Some(a + rest)
  }

  /** The OPT record, with an extended DNS error if one is given. */
  function OptWith(dnssec: bool, ede: Option<int>): (b: Bytes)
    requires ede.Some? ==> 0 <= ede.value < U16_LIMIT
    ensures |b| >= 11
  {
    var rdata := if ede.Some? then U16(15) + U16(2) + U16(ede.value) else [];
    [0] + Fields(TYPE_OPT, EDNS_UDP, if dnssec then 0x8000 else 0, |rdata|) + rdata
  }

  function Flag(b: bool, weight: int): int {
    if b then weight else 0
  }

  function ResponseFlags(opcode: int, rd: bool, cd: bool, tc: bool, rcode: int): (f: int)
    requires 0 <= opcode < 16
    ensures 0 <= f < U16_LIMIT && Bit(f, 0x8000) && f % 16 == rcode % 16 && Bit(f, 0x200) == tc
  {
    0x8000 + opcode * 0x800 + Flag(tc, 0x200) + Flag(rd, 0x100) + 0x80 + Flag(cd, 0x10) + rcode % 16
  }

  function BuildResponse(q: Query, rcode: int, answers: seq<Answer>, tc: bool, ede: Option<int>): (r: Option<Bytes>)
    requires 0 <= q.id < U16_LIMIT && 0 <= q.opcode < 16 && (ede.Some? ==> 0 <= ede.value < U16_LIMIT)
  {
    var flags := ResponseFlags(q.opcode, q.rd, q.cd, tc, rcode);
    var opt := if q.edns.Some? then OptWith(q.edns.value.dnssec, ede) else [];
    var ar := if q.edns.Some? then 1 else 0;
    if q.question.None? then Some(Header(q.id, flags, 0, 0, 0, ar) + opt)
    else if |answers| >= U16_LIMIT then None
    else
      var rrs :- AnswersBytes(answers, q.question.value.name);
      Some(Header(q.id, flags, 1, |answers|, 0, ar) + q.question.value.raw + rrs + opt)
  }

  // ---- Parsing what was built ----

  /** The question of `q` is the name with the labels `ls`, as parseQuery took it from a message. */
  ghost predicate AsksFor(q: Query, ls: seq<Bytes>) {
    && q.question.Some? && LabelsFit(ls) && Size(ls) <= 255
    && |q.question.value.raw| == |Wire(ls)| + 4 && q.question.value.raw[..|Wire(ls)|] == Wire(ls)
    && (q.question.value.name.Some? <==> Printable(ls))
    && (q.question.value.name.Some? ==> q.question.value.name.value == LowerAll(Dotted(ls)))
    && q.question.value.qtype == GetU16(q.question.value.raw, |Wire(ls)|)
    && q.question.value.qclass == GetU16(q.question.value.raw, |Wire(ls)| + 2)
  }

  /** The question of a parsed query: its labels as they stand in the message, a name exactly if
      all of them are printable, then in lower case, and the type and class behind them. */
  lemma ParsedAsks(buf: Bytes) returns (ls: seq<Bytes>)
    requires ParseQuery(buf).Some? && ParseQuery(buf).value.question.Some?
    ensures AsksFor(ParseQuery(buf).value, ls)
  {
    hide Dotted, EdnsAmong, ReadQuestion, LowerAll, Size, Encoded;
    var q := ReadQuestion(buf, 12, 0).value;
    ls := q.labels;
    QuestionIsWire(buf, 12, 0);
    assert buf[12..q.next + 4][..q.next - 12] == buf[12..q.next];
    TextsExact(ls);
    FieldsBehind(buf, q.next);
    if Texts(ls).Some? {
      LowerDotted(ls, Texts(ls).value);
    }
  }

  lemma FieldsBehind(buf: Bytes, end: nat)
    requires 12 <= end && end + 4 <= |buf|
    ensures GetU16(buf[12..end + 4], end - 12) == GetU16(buf, end)
    ensures GetU16(buf[12..end + 4], end - 10) == GetU16(buf, end + 2)
  {
  }

  /** Lower-casing a dotted name lower-cases its labels. */
  lemma LowerDotted(ls: seq<Bytes>, ts: seq<Bytes>)
    requires |ts| == |ls| && forall k :: 0 <= k < |ls| ==> ts[k] == LowerAll(ls[k])
    ensures Dotted(ts) == LowerAll(Dotted(ls))
  {
    if ls != [] {
      LowerJoined(ls, ts);
    }
  }

  lemma {:induction false} LowerJoined(ls: seq<Bytes>, ts: seq<Bytes>)
    requires |ts| == |ls| >= 1 && forall k :: 0 <= k < |ls| ==> ts[k] == LowerAll(ls[k])
    ensures Join(ts, DOT) == LowerAll(Join(ls, DOT))
    decreases |ls|
  {
    hide LowerAll;
    if |ls| > 1 {
      var n := |ls| - 1;
      LowerJoined(ls[..n], ts[..n]);
      LowerJoint(Join(ls[..n], DOT), ls[n]);
    }
  }

  lemma LowerJoint(a: Bytes, b: Bytes)
    ensures LowerAll(a + [DOT] + b) == LowerAll(a) + [DOT] + LowerAll(b)
  {
    hide LowerAll;
    LowerAppend(a + [DOT], b);
    LowerAppend(a, [DOT]);
    LowerOne();
  }

  lemma LowerOne()
    ensures LowerAll([DOT]) == [DOT]
  {
    assert [DOT][..0] == [];
  }

  lemma {:induction false} LowerAgain(s: Bytes)
    ensures LowerAll(LowerAll(s)) == LowerAll(s)
    decreases |s|
  {
    if s != [] {
      LowerAgain(s[..|s| - 1]);
    }
  }

  /** A name that readName gives back: its labels are neither empty nor too long, nor are there too many. */
  ghost predicate PlainName(name: Bytes) {
    var ls := LabelsOf(name);
    LabelsFit(ls) && |ls| <= MAX_LABELS && Dotted(ls) == name
  }

  /** An answer that can be sent as it is; the data of a CNAME record is a name without pointers. */
  ghost predicate Sendable(a: Answer, qname: Option<Bytes>) {
    && (qname == Some(a.name) || PlainName(a.name))
    && 0 <= a.rtype < U16_LIMIT && |a.rdata| < U16_LIMIT
    && (a.rtype == 5 ==> exists t :: IsTarget(t, a.rdata))
  }

  ghost predicate IsTarget(t: Bytes, rdata: Bytes) {
    PlainName(t) && rdata == Wire(LabelsOf(t))
  }

  /** `f` is what `a` says, with names in lower case and the TTL as it fits its field. */
  ghost predicate Means(f: Found, a: Answer) {
    && f.name == LowerAll(a.name) && f.rtype == a.rtype && f.ttl == TtlField(a.ttl) && f.rdata == a.rdata
    && (if a.rtype == 5 then exists t :: IsTarget(t, a.rdata) && f.target == Some(LowerAll(t))
        else f.target == None)
  }

  /** The message holds the question `ls` where the pointer 0xC00C points. */
  ghost predicate HasQuestion(buf: Bytes, ls: seq<Bytes>, qname: Option<Bytes>) {
    && LabelsFit(ls) && |ls| <= MAX_LABELS && 12 + |Wire(ls)| <= |buf| && buf[12..12 + |Wire(ls)|] == Wire(ls)
    && (qname.Some? ==> qname.value == LowerAll(Dotted(ls)))
  }

  lemma AnswerNameIsRead(buf: Bytes, pos: nat, a: Answer, ls: seq<Bytes>, qname: Option<Bytes>)
    requires HasQuestion(buf, ls, qname) && Sendable(a, qname)
    requires var n := AnswerName(a, qname); n.Some? ==> pos + |n.value| <= |buf| && buf[pos..pos + |n.value|] == n.value
    ensures var n, r := AnswerName(a, qname), ReadName(buf, pos);
            n.Some? && r.Some? && r.value.next == pos + |n.value| && LowerName(r.value) == LowerAll(a.name)
  {
    hide LabelsOf, Dotted, LowerAll, Encoded, ReadFrom;
    if qname == Some(a.name) {
      var w: Bytes := [0xc0, 0x0c];
      assert buf[pos] == buf[pos..pos + 2][0] == 0xc0 && buf[pos + 1] == buf[pos..pos + 2][1] == 0x0c;
      ReadPointer(buf, pos, 12, ls);
      LowerAgain(Dotted(ls));
    } else {
      PlainEncodes(a.name);
      ReadWire(buf, pos, LabelsOf(a.name), 0, 0);
    }
  }

  lemma PlainEncodes(name: Bytes)
    requires PlainName(name)
    ensures EncodeName(name) == Some(Wire(LabelsOf(name)))
  {
    hide LabelsOf, Dotted, Encoded;
    assert forall k :: 0 <= k < |LabelsOf(name)| ==> LabelFits(LabelsOf(name)[k]);
  }

  lemma FieldsAreRead(buf: Bytes, p: nat, rtype: int, class_: int, ttl: int, n: int)
    requires 0 <= rtype < U16_LIMIT && 0 <= class_ < U16_LIMIT && 0 <= ttl < U32_LIMIT && 0 <= n < U16_LIMIT
    requires Holds(buf, p, Fields(rtype, class_, ttl, n))
    ensures p + 10 <= |buf| && GetU16(buf, p) == rtype && GetU16(buf, p + 2) == class_
    ensures GetU32(buf, p + 4) == ttl && GetU16(buf, p + 8) == n
  {
    hide U16, U32, GetU16, GetU32;
    HoldsBoth(buf, p, U16(rtype) + U16(class_) + U32(ttl), U16(n));
    HoldsBoth(buf, p, U16(rtype) + U16(class_), U32(ttl));
    HoldsBoth(buf, p, U16(rtype), U16(class_));
    ReadBackU16(buf, p, rtype);
    ReadBackU16(buf, p + 2, class_);
    ReadBackU32(buf, p + 4, ttl);
    ReadBackU16(buf, p + 8, n);
  }

  /** A record that was written is read. */
  lemma AnswerIsRead(buf: Bytes, pos: nat, a: Answer, ls: seq<Bytes>, qname: Option<Bytes>)
    requires HasQuestion(buf, ls, qname) && Sendable(a, qname)
    requires AnswerBytes(a, qname).Some? && Holds(buf, pos, AnswerBytes(a, qname).value)
    ensures var x := RecordAt(buf, pos);
            && x.Some? && x.value.rtype == a.rtype && x.value.ttl == TtlField(a.ttl)
               && LowerName(x.value.name) == LowerAll(a.name)
            && GetU16(buf, x.value.rd - 8) == 1
            && x.value.end == pos + |AnswerBytes(a, qname).value| && Holds(buf, x.value.rd, a.rdata)
            && x.value.rd + |a.rdata| == x.value.end
  {
    hide AnswerName, HasQuestion, Sendable, ReadName, LowerName, GetU16, GetU32, Fields;
    SendableFields(a, qname);
    var n := AnswerName(a, qname).value;
    var f := Fields(a.rtype, CLASS_IN, TtlField(a.ttl), |a.rdata|);
    assert AnswerBytes(a, qname).value == n + f + a.rdata;
    HoldsBoth(buf, pos, n + f, a.rdata);
    HoldsBoth(buf, pos, n, f);
    AnswerNameIsRead(buf, pos, a, ls, qname);
    FieldsAreRead(buf, pos + |n|, a.rtype, CLASS_IN, TtlField(a.ttl), |a.rdata|);
  }

  lemma SendableFields(a: Answer, qname: Option<Bytes>)
    requires Sendable(a, qname)
    ensures 0 <= a.rtype < U16_LIMIT && |a.rdata| < U16_LIMIT
    ensures a.rtype == TYPE_CNAME ==> exists t :: IsTarget(t, a.rdata)
    ensures AnswerBytes(a, qname).Some? ==>
              AnswerBytes(a, qname).value ==
              AnswerName(a, qname).value + Fields(a.rtype, CLASS_IN, TtlField(a.ttl), |a.rdata|) + a.rdata
  {
    hide PlainName, AnswerName, IsTarget, U16, U32;
  }

  /** And added to the answers. */
  lemma AnswerIsCollected(buf: Bytes, x: Record, a: Answer, qname: Option<Bytes>, i: nat, an: nat, acc: Acc)
    requires i < an && Sendable(a, qname) && x.rtype == a.rtype && x.ttl == TtlField(a.ttl)
             && LowerName(x.name) == LowerAll(a.name)
    requires x.name.next + 10 == x.rd && x.rd + |a.rdata| == x.end && Holds(buf, x.rd, a.rdata)
    ensures var r := Collect(buf, x, i, an, 0, acc);
            && r.Some? && r.value.negTtl == acc.negTtl
            && |r.value.answers| == |acc.answers| + 1 && r.value.answers[..|acc.answers|] == acc.answers
            && Means(r.value.answers[|acc.answers|], a)
  {
    hide Sendable, LowerName, ReadName, IsTarget, Dotted, Smaller;
    SendableFields(a, qname);
    if a.rtype == TYPE_CNAME {
      var t :| IsTarget(t, a.rdata);
      TargetIsRead(buf, x.rd, t, a.rdata);
    }
  }

  lemma TargetIsRead(buf: Bytes, rd: nat, t: Bytes, rdata: Bytes)
    requires IsTarget(t, rdata) && Holds(buf, rd, rdata)
    ensures CnameTarget(buf, rd) == Some(Some(LowerAll(t)))
  {
    hide LabelsOf, Dotted, LowerAll, Encoded, ReadFrom;
    ReadWire(buf, rd, LabelsOf(t), 0, 0);
  }

  ghost predicate AllMean(fs: seq<Found>, answers: seq<Answer>) {
    |fs| == |answers| && forall k :: 0 <= k < |fs| ==> Means(fs[k], answers[k])
  }

  ghost predicate AllSendable(answers: seq<Answer>, qname: Option<Bytes>) {
    forall k :: 0 <= k < |answers| ==> Sendable(answers[k], qname)
  }

  /** The answers from the `i`-th on are read one after the other, up to what follows them. */
  lemma {:induction false} AnswersAreRead(buf: Bytes, pos: nat, i: nat, answers: seq<Answer>, ls: seq<Bytes>,
                                          qname: Option<Bytes>,
                                          n: nat, acc: Acc)
    requires HasQuestion(buf, ls, qname) && AllSendable(answers, qname) && i <= |answers| <= n
    requires var b := AnswersBytes(answers[i..], qname); b.Some? && Holds(buf, pos, b.value)
    requires AllMean(acc.answers, answers[..i])
    ensures exists r: Acc ::
              && Records(buf, pos, i, |answers|, 0, n, acc) ==
                 Records(buf, pos + |AnswersBytes(answers[i..], qname).value|, |answers|, |answers|, 0, n, r)
              && AllMean(r.answers, answers) && r.negTtl == acc.negTtl
    decreases |answers| - i
  {
    hide HasQuestion, AnswerBytes, RecordAt, Collect, Means, Sendable, Holds;
    if i == |answers| {
      assert answers[..i] == answers;
    } else {
      var a := answers[i];
      assert Sendable(a, qname);
      assert answers[i..][0] == a && answers[i..][1..] == answers[i + 1..];
      var one, rest := AnswerBytes(a, qname).value, AnswersBytes(answers[i + 1..], qname).value;
      HoldsBoth(buf, pos, one, rest);
      AnswerIsRead(buf, pos, a, ls, qname);
      var x := RecordAt(buf, pos).value;
      AnswerIsCollected(buf, x, a, qname, i, |answers|, acc);
      var next := Collect(buf, x, i, |answers|, 0, acc).value;
      OneMore(acc.answers, next.answers, answers, i);
      AnswersAreRead(buf, pos + |one|, i + 1, answers, ls, qname, n, next);
    }
  }

  lemma OneMore(before: seq<Found>, after: seq<Found>, answers: seq<Answer>, i: nat)
    requires i < |answers| && AllMean(before, answers[..i])
    requires |after| == |before| + 1 && after[..|before|] == before && Means(after[|before|], answers[i])
    ensures AllMean(after, answers[..i + 1])
  {
    hide Means;
    forall k | 0 <= k < i
      ensures Means(after[k], answers[k])
    {
      assert after[k] == before[k] && answers[..i][k] == answers[k];
    }
  }

  /** The OPT record at the end is not an answer, and has no TTL. */
  lemma OptIsSkipped(buf: Bytes, pos: nat, an: nat, dnssec: bool, ede: Option<int>, acc: Acc)
    requires ede.Some? ==> 0 <= ede.value < U16_LIMIT
    requires Holds(buf, pos, OptWith(dnssec, ede))
    ensures Records(buf, pos, an, an, 0, an + 1, acc) == Some(acc)
  {
    hide U16, GetU16, GetU32, Fields;
    var o, ttl := OptWith(dnssec, ede), if dnssec then 0x8000 else 0;
    var rdata := if ede.Some? then U16(15) + U16(2) + U16(ede.value) else [];
    HoldsBoth(buf, pos, [0] + Fields(TYPE_OPT, EDNS_UDP, ttl, |rdata|), rdata);
    HoldsBoth(buf, pos, [0], Fields(TYPE_OPT, EDNS_UDP, ttl, |rdata|));
    assert buf[pos] == buf[pos..pos + 1][0] == 0;
    assert ReadName(buf, pos) == Some(Name([], pos + 1));
    FieldsAreRead(buf, pos + 1, TYPE_OPT, EDNS_UDP, ttl, |rdata|);
    var x := RecordAt(buf, pos).value;
    assert Collect(buf, x, an, an, 0, acc) == Some(acc);
    assert Records(buf, x.end, an + 1, an, 0, an + 1, acc) == Some(acc);
  }

  lemma {:induction false} SendableAreBuilt(answers: seq<Answer>, qname: Option<Bytes>)
    requires AllSendable(answers, qname)
    ensures AnswersBytes(answers, qname).Some?
    decreases |answers|
  {
    hide PlainName, LabelsOf, Wire;
    if answers != [] {
      var a := answers[0];
      assert Sendable(a, qname);
      if qname != Some(a.name) {
        PlainEncodes(a.name);
      }
      SendableAreBuilt(answers[1..], qname);
    }
  }

  /** All records of a message that ends with the answers and perhaps an OPT record. */
  lemma BodyIsRead(buf: Bytes, pos: nat, answers: seq<Answer>, ls: seq<Bytes>, qname: Option<Bytes>,
                   dnssec: Option<bool>, ede: Option<int>) returns (r: Acc)
    requires ede.Some? ==> 0 <= ede.value < U16_LIMIT
    requires HasQuestion(buf, ls, qname) && AllSendable(answers, qname)
    requires AnswersBytes(answers, qname).Some?
    requires Holds(buf, pos, AnswersBytes(answers, qname).value +
                             if dnssec.Some? then OptWith(dnssec.value, ede) else [])
    ensures Records(buf, pos, 0, |answers|, 0, |answers| + (if dnssec.Some? then 1 else 0), NOTHING) == Some(r)
    ensures AllMean(r.answers, answers) && r.negTtl == None
  {
    hide HasQuestion, AllSendable, AnswersBytes, OptWith, RecordAt, Collect, Means, Holds;
    var rrs := AnswersBytes(answers, qname).value;
    HoldsBoth(buf, pos, rrs, if dnssec.Some? then OptWith(dnssec.value, ede) else []);
    var n := |answers| + if dnssec.Some? then 1 else 0;
    assert answers[0..] == answers;
    AnswersAreRead(buf, pos, 0, answers, ls, qname, n, NOTHING);
    r :| Records(buf, pos, 0, |answers|, 0, n, NOTHING) == Records(buf, pos + |rrs|, |answers|, |answers|, 0, n, r)
         && AllMean(r.answers, answers) && r.negTtl == None;
    if dnssec.Some? {
      OptIsSkipped(buf, pos + |rrs|, |answers|, dnssec.value, ede, r);
    }
  }

  /** What parseResponse makes of an answer to `q`. */
  ghost predicate Answers(r: Response, q: Query, rcode: int, answers: seq<Answer>, tc: bool) {
    && r.id == q.id && r.rcode == rcode % 16 && r.tc == tc && r.an == |answers| && r.negTtl == None
    && r.qname.Some? && (q.question.Some? && q.question.value.name.Some? ==> r.qname == q.question.value.name)
    && AllMean(r.answers, answers)
  }

  /** A response from its header, its question and its records. */
  lemma FromParts(b: Bytes, flags: int, n: nat, ar: nat, pos: nat, qname: Bytes, r: Acc)
    requires |b| >= 12 && GetU16(b, 2) == flags && Bit(flags, 0x8000)
    requires GetU16(b, 4) == 1 && GetU16(b, 6) == n && GetU16(b, 8) == 0 && GetU16(b, 10) == ar && n + ar <= MAX_RR
    requires AfterQuestion(b) == Some((pos, Some(qname))) && Records(b, pos, 0, n, 0, n + ar, NOTHING) == Some(r)
    ensures ParseResponse(b) ==
            Some(Response(GetU16(b, 0), flags % 16, Bit(flags, 0x200), Some(qname), r.offsets, r.minTtl, r.negTtl,
                          r.answers, n))
  {
    hide GetU16, Records, Bit, AfterQuestion;
  }

  /** The question stands behind the header, and the records behind it. */
  lemma AfterBuilt(h: Bytes, q: Query, ls: seq<Bytes>, rest: Bytes)
    requires |h| == 12 && AsksFor(q, ls) && GetU16(h + q.question.value.raw + rest, 4) == 1
    ensures var raw := q.question.value.raw;
            AfterQuestion(h + raw + rest) == Some((12 + |raw|, Some(LowerAll(Dotted(ls)))))
  {
    hide AsksFor, ReadName, GetU16, LowerAll, Dotted, HasQuestion;
    QuestionOf(h, q, ls, rest);
  }

  lemma BuiltIsParsed(q: Query, ls: seq<Bytes>, rcode: int, answers: seq<Answer>, tc: bool, ede: Option<int>)
    requires 0 <= q.id < U16_LIMIT && 0 <= q.opcode < 16 && (ede.Some? ==> 0 <= ede.value < U16_LIMIT)
    requires AsksFor(q, ls) && AllSendable(answers, q.question.value.name)
    requires |answers| + (if q.edns.Some? then 1 else 0) <= MAX_RR
    ensures var b := BuildResponse(q, rcode, answers, tc, ede);
            b.Some? && ParseResponse(b.value).Some? && Answers(ParseResponse(b.value).value, q, rcode, answers, tc)
  {
    hide AllSendable, AllMean, Header, AnswersBytes, OptWith, Wire, Size, ReadFrom, LowerAll, Dotted, GetU16, Records,
        ResponseFlags, Bit, AsksFor, HasQuestion, ReadName, AfterQuestion, ParseResponse;
    QuestionOf(seq(12, _ => 0), q, ls, []);
    var raw, qname, flags := q.question.value.raw, q.question.value.name,
        ResponseFlags(q.opcode, q.rd, q.cd, tc, rcode);
    SendableAreBuilt(answers, qname);
    var ar, n := if q.edns.Some? then 1 else 0, |answers|;
    var rrs, opt := AnswersBytes(answers, qname).value, if q.edns.Some? then OptWith(q.edns.value.dnssec, ede) else [];
    var h := Header(q.id, flags, 1, n, 0, ar);
    var b := h + raw + rrs + opt;
    assert b == h + (raw + rrs + opt);
    HeaderFields(q.id, flags, 1, n, 0, ar, raw + rrs + opt);
    assert b == h + raw + (rrs + opt);
    QuestionOf(h, q, ls, rrs + opt);
    AfterBuilt(h, q, ls, rrs + opt);
    var pos := 12 + |raw|;
    assert b[pos..pos + |rrs + opt|] == rrs + opt;
    var r := BodyIsRead(b, pos, answers, ls, qname, if q.edns.Some? then Some(q.edns.value.dnssec) else None, ede);
    FromParts(b, flags, n, ar, pos, LowerAll(Dotted(ls)), r);
  }

  lemma QuestionIsThere(h: Bytes, raw: Bytes, rest: Bytes, ls: seq<Bytes>, qname: Option<Bytes>)
    requires |h| == 12 && LabelsFit(ls) && Size(ls) <= 255 && |raw| == |Wire(ls)| + 4 && raw[..|Wire(ls)|] == Wire(ls)
    requires qname.Some? ==> qname.value == LowerAll(Dotted(ls))
    ensures HasQuestion(h + raw + rest, ls, qname)
    ensures ReadName(h + raw + rest, 12) == Some(Name(ls, 12 + |raw| - 4))
  {
    hide Wire, Size, LowerAll, Dotted, ReadFrom;
    var b := h + raw + rest;
    FewLabels(ls);
    assert b[12..12 + |Wire(ls)|] == raw[..|Wire(ls)|];
    ReadWire(b, 12, ls, 0, 0);
  }

  // ---- The bytes of a reply ----

  /** The header of a reply, bit by bit (section 4.1.1 of RFC 1035, section 3 of RFC 4035):
      the id, the opcode, RD and CD are those of the query; it is a response, RA is set
      and AA, Z and AD are not. */
  ghost predicate ReplyHeader(query: Bytes, b: Bytes, rcode: int, qd: nat, answers: nat, tc: bool, edns: bool) {
    && |query| >= 12 && |b| >= 12 && GetU16(b, 0) == GetU16(query, 0)
    && var f, g := GetU16(b, 2), GetU16(query, 2);
    && Bit(f, 0x8000) && f / 0x800 % 16 == g / 0x800 % 16 && !Bit(f, 0x400) && Bit(f, 0x200) == tc
    && Bit(f, 0x100) == Bit(g, 0x100) && Bit(f, 0x80) && !Bit(f, 0x40) && !Bit(f, 0x20)
    && Bit(f, 0x10) == Bit(g, 0x10) && f % 16 == rcode % 16
    && GetU16(b, 4) == qd && GetU16(b, 6) == answers && GetU16(b, 8) == 0
    && GetU16(b, 10) == if edns then 1 else 0
  }

  /** The next `n` records are of class IN and end at `end`. */
  ghost predicate InternetRecords(b: Bytes, pos: nat, n: nat, end: nat)
    decreases n
  {
    if n == 0 then pos == end else
    && RecordAt(b, pos).Some?
    && GetU16(b, RecordAt(b, pos).value.name.next + 2) == 1
    && InternetRecords(b, RecordAt(b, pos).value.end, n - 1, end)
  }

  /** The message ends with an OPT record (section 6.1.2 of RFC 6891) for messages of up to
      1232 bytes, version 0, with DO as given and an extended error (section 2 of RFC 8914) if one is given. */
  ghost predicate EndsWithOpt(b: Bytes, p: nat, dnssec: bool, ede: Option<int>) {
    && |b| == p + (if ede.Some? then 17 else 11)
    && b[p] == 0 && GetU16(b, p + 1) == 41 && GetU16(b, p + 3) == 1232
    && b[p + 5] == 0 && b[p + 6] == 0 && GetU16(b, p + 7) == (if dnssec then 0x8000 else 0)
    && EdnsAt(b, p + 1) == Edns(1232, dnssec, 0)
    && GetU16(b, p + 9) == |b| - (p + 11)
    && (ede.Some? ==> GetU16(b, p + 11) == 15 && GetU16(b, p + 13) == 2 && GetU16(b, p + 15) == ede.value)
  }

  /** A reply to `query`: the header, the question as it was sent, the answers, and the
      OPT record exactly if the query had one. */
  ghost predicate ReplyBytes(query: Bytes, b: Bytes, rcode: int, answers: nat, tc: bool, ede: Option<int>)
    requires ParseQuery(query).Some? && ParseQuery(query).value.question.Some?
  {
    var q := ParseQuery(query).value;
    var m := 12 + |q.question.value.raw|;
    && ReplyHeader(query, b, rcode, 1, answers, tc, q.edns.Some?)
    && m <= |query| && m <= |b| && b[12..m] == query[12..m]
    && exists end: nat :: InternetRecords(b, m, answers, end) &&
                          if q.edns.Some? then EndsWithOpt(b, end, q.edns.value.dnssec, ede) else end == |b|
  }

  lemma FlagsAre(opcode: int, rd: bool, cd: bool, tc: bool, rcode: int)
    requires 0 <= opcode < 16
    ensures var f := ResponseFlags(opcode, rd, cd, tc, rcode);
            && f / 0x800 % 16 == opcode && !Bit(f, 0x400) && Bit(f, 0x100) == rd && Bit(f, 0x80)
            && !Bit(f, 0x40) && !Bit(f, 0x20) && Bit(f, 0x10) == cd
  {
    var f, low := ResponseFlags(opcode, rd, cd, tc, rcode), rcode % 16;
    assert f == 0x8000 + opcode * 0x800 + Flag(tc, 0x200) + Flag(rd, 0x100) + 0x80 + Flag(cd, 0x10) + low;
    assert f / 0x10 == 0x800 + opcode * 0x80 + Flag(tc, 0x20) + Flag(rd, 0x10) + 8 + Flag(cd, 1);
    assert f / 0x20 == 0x400 + opcode * 0x40 + Flag(tc, 0x10) + Flag(rd, 8) + 4;
    assert f / 0x40 == 0x200 + opcode * 0x20 + Flag(tc, 8) + Flag(rd, 4) + 2;
    assert f / 0x80 == 0x100 + opcode * 0x10 + Flag(tc, 4) + Flag(rd, 2) + 1;
    assert f / 0x100 == 0x80 + opcode * 8 + Flag(tc, 2) + Flag(rd, 1);
    assert f / 0x400 == 0x20 + opcode * 2;
    assert f / 0x800 == 0x10 + opcode;
  }

  lemma {:induction false} AnswersStand(buf: Bytes, pos: nat, answers: seq<Answer>, ls: seq<Bytes>,
                                        qname: Option<Bytes>)
    requires HasQuestion(buf, ls, qname) && AllSendable(answers, qname)
    requires var b := AnswersBytes(answers, qname); b.Some? && Holds(buf, pos, b.value)
    ensures InternetRecords(buf, pos, |answers|, pos + |AnswersBytes(answers, qname).value|)
    decreases |answers|
  {
    hide HasQuestion, AnswerBytes, RecordAt, Sendable, Holds, GetU16;
    if answers != [] {
      var a := answers[0];
      assert Sendable(a, qname);
      var one, rest := AnswerBytes(a, qname).value, AnswersBytes(answers[1..], qname).value;
      HoldsBoth(buf, pos, one, rest);
      AnswerIsRead(buf, pos, a, ls, qname);
      AnswersStand(buf, pos + |one|, answers[1..], ls, qname);
    }
  }

  lemma OptStands(b: Bytes, p: nat, dnssec: bool, ede: Option<int>)
    requires ede.Some? ==> 0 <= ede.value < U16_LIMIT
    requires Holds(b, p, OptWith(dnssec, ede)) && |b| == p + |OptWith(dnssec, ede)|
    ensures EndsWithOpt(b, p, dnssec, ede)
  {
    hide U16, GetU16, Fields;
    var ttl := if dnssec then 0x8000 else 0;
    var rdata := if ede.Some? then U16(15) + U16(2) + U16(ede.value) else [];
    HoldsBoth(b, p, [0] + Fields(TYPE_OPT, EDNS_UDP, ttl, |rdata|), rdata);
    HoldsBoth(b, p, [0], Fields(TYPE_OPT, EDNS_UDP, ttl, |rdata|));
    assert b[p] == b[p..p + 1][0] == 0;
    FieldsAreRead(b, p + 1, TYPE_OPT, EDNS_UDP, ttl, |rdata|);
    if ede.Some? {
      HoldsBoth(b, p + 11, U16(15) + U16(2), U16(ede.value));
      HoldsBoth(b, p + 11, U16(15), U16(2));
      ReadBackU16(b, p + 11, 15);
      ReadBackU16(b, p + 13, 2);
      ReadBackU16(b, p + 15, ede.value);
    }
    HighAndLow(b, p + 5, ttl);
  }

  lemma HighAndLow(b: Bytes, p: nat, v: int)
    requires p + 4 <= |b| && GetU32(b, p) == v < 0x1_0000
    ensures b[p] == 0 && b[p + 1] == 0 && GetU16(b, p + 2) == v
  {
  }

  lemma BuiltBytes(query: Bytes, ls: seq<Bytes>, rcode: int, answers: seq<Answer>, tc: bool, ede: Option<int>)
    requires ParseQuery(query).Some? && ParseQuery(query).value.question.Some?
    requires ede.Some? ==> 0 <= ede.value < U16_LIMIT
    requires var q := ParseQuery(query).value;
             && 0 <= q.id < U16_LIMIT && 0 <= q.opcode < 16
             && AsksFor(q, ls) && AllSendable(answers, q.question.value.name) && |answers| <= 512
             && BuildResponse(q, rcode, answers, tc, ede).Some?
    ensures ReplyBytes(query, BuildResponse(ParseQuery(query).value, rcode, answers, tc, ede).value, rcode,
                       |answers|, tc, ede)
  {
    hide AllSendable, Header, AnswersBytes, OptWith, Wire, Size, LowerAll, Dotted, GetU16, ResponseFlags, Bit,
        AsksFor, EndsWithOpt, InternetRecords, ReplyHeader, ParseQuery, HasQuestion, ReadName;
    var q := ParseQuery(query).value;
    var raw, qname, flags := q.question.value.raw, q.question.value.name,
        ResponseFlags(q.opcode, q.rd, q.cd, tc, rcode);
    var ar, n := if q.edns.Some? then 1 else 0, |answers|;
    var rrs, opt := AnswersBytes(answers, qname).value, if q.edns.Some? then OptWith(q.edns.value.dnssec, ede) else [];
    var h := Header(q.id, flags, 1, n, 0, ar);
    var b := h + raw + rrs + opt;
    assert b == h + (raw + rrs + opt);
    QueryBytes(query);
    HeaderIsReply(query, h, raw + rrs + opt, rcode, 1, n, tc, ar);
    assert b == h + raw + (rrs + opt);
    QuestionOf(h, q, ls, rrs + opt);
    var m := 12 + |raw|;
    assert b[12..m] == raw;
    var end := m + |rrs|;
    assert b[m..end] == rrs && b[end..end + |opt|] == opt;
    AnswersStand(b, m, answers, ls, qname);
    if q.edns.Some? {
      OptStands(b, end, q.edns.value.dnssec, ede);
    }
  }

  lemma QuestionOf(h: Bytes, q: Query, ls: seq<Bytes>, rest: Bytes)
    requires |h| == 12 && AsksFor(q, ls)
    ensures q.question.Some? && |q.question.value.raw| >= 4
    ensures var raw := q.question.value.raw;
            && HasQuestion(h + raw + rest, ls, q.question.value.name)
            && ReadName(h + raw + rest, 12) == Some(Name(ls, 12 + |raw| - 4))
            && (q.question.value.name.Some? ==> q.question.value.name.value == LowerAll(Dotted(ls)))
  {
    hide Wire, Size, LowerAll, Dotted, GetU16, Printable;
    QuestionIsThere(h, q.question.value.raw, rest, ls, q.question.value.name);
  }

  /** What parseQuery took from where. */
  lemma QueryBytes(query: Bytes)
    requires ParseQuery(query).Some? && ParseQuery(query).value.question.Some?
    ensures var q := ParseQuery(query).value;
            var m := 12 + |q.question.value.raw|;
            && 12 <= m <= |query| && q.question.value.raw == query[12..m]
            && q.id == GetU16(query, 0) && q.opcode == GetU16(query, 2) / 0x800 % 16
            && q.rd == Bit(GetU16(query, 2), 0x100) && q.cd == Bit(GetU16(query, 2), 0x10)
  {
    hide ReadQuestion, EdnsAmong, GetU16, Bit, Texts, Dotted;
  }

  lemma HeaderIsReply(query: Bytes, h: Bytes, rest: Bytes, rcode: int, qd: nat, n: nat, tc: bool, ar: nat)
    requires |query| >= 12 && qd < U16_LIMIT && n < U16_LIMIT && ar <= 1
    requires var g := GetU16(query, 2);
             h == Header(GetU16(query, 0),
                         ResponseFlags(g / 0x800 % 16, Bit(g, 0x100), Bit(g, 0x10), tc, rcode), qd, n, 0, ar)
    ensures ReplyHeader(query, h + rest, rcode, qd, n, tc, ar == 1)
  {
    hide GetU16, Header, Bit, ResponseFlags;
    var g := GetU16(query, 2);
    var flags := ResponseFlags(g / 0x800 % 16, Bit(g, 0x100), Bit(g, 0x10), tc, rcode);
    FlagsAre(g / 0x800 % 16, Bit(g, 0x100), Bit(g, 0x10), tc, rcode);
    HeaderFields(GetU16(query, 0), flags, qd, n, 0, ar, rest);
  }

  /** The reply to a query whose question cannot be read is its header alone. */
  lemma ReplyWithoutQuestion(query: Bytes, rcode: int, answers: seq<Answer>, tc: bool, ede: Option<int>)
    requires ParseQuery(query).Some? && ParseQuery(query).value.question.None?
    requires ede.Some? ==> 0 <= ede.value < U16_LIMIT
    ensures var q := ParseQuery(query).value;
            && 0 <= q.id < U16_LIMIT && 0 <= q.opcode < 16
            && var b := BuildResponse(q, rcode, answers, tc, ede);
            b.Some? && |b.value| == 12 && ReplyHeader(query, b.value, rcode, 0, 0, tc, false)
  {
    hide ReadQuestion, EdnsAmong, Bit, Texts, Dotted, ResponseFlags, Header, ReplyHeader, GetU16;
    var g := GetU16(query, 2);
    var flags := ResponseFlags(g / 0x800 % 16, Bit(g, 0x100), Bit(g, 0x10), tc, rcode);
    var h := Header(GetU16(query, 0), flags, 0, 0, 0, 0);
    HeaderIsReply(query, h, [], rcode, 0, 0, tc, 0);
    assert h + [] == h;
  }

  /** A response to any query with a question, built by buildResponse and parsed by
      parseResponse, has the same id, code and question, and the same answers in order,
      whether their names are written out or are pointers to the question. Its bytes are
      those of a reply to the bytes of the query. */
  lemma ResponseRoundTrip(query: Bytes, rcode: int, answers: seq<Answer>, tc: bool, ede: Option<int>)
    requires ParseQuery(query).Some? && ParseQuery(query).value.question.Some?
    requires ede.Some? ==> 0 <= ede.value < U16_LIMIT
    requires AllSendable(answers, ParseQuery(query).value.question.value.name)
    requires |answers| + (if ParseQuery(query).value.edns.Some? then 1 else 0) <= 512
    ensures var q := ParseQuery(query).value;
            && 0 <= q.id < U16_LIMIT && 0 <= q.opcode < 16
            && var b := BuildResponse(q, rcode, answers, tc, ede);
            && b.Some? && ParseResponse(b.value).Some?
            && Answers(ParseResponse(b.value).value, q, rcode, answers, tc)
            && ReplyBytes(query, b.value, rcode, |answers|, tc, ede)
  {
    hide AllSendable, BuildResponse, ParseResponse, Answers, ReadQuestion, EdnsAmong, AsksFor, ReplyBytes;
    var ls := ParsedAsks(query);
    BuiltIsParsed(ParseQuery(query).value, ls, rcode, answers, tc, ede);
    BuiltBytes(query, ls, rcode, answers, tc, ede);
  }
}
