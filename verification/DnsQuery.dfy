/** DNS queries (sections 4.1.1 and 4.1.2 of RFC 1035, section 6.1 of RFC 6891):
    parseQuery and buildQuery of src/dns/wire.js. */
module DnsQuery {
  import opened Bytes
  import opened DnsNames

  const TYPE_OPT := 41
  const EDNS_UDP := 1232
  const MAX_RR := 512

  predicate Bit(flags: int, weight: int)
    requires weight > 0
  {
    flags / weight % 2 == 1
  }

  datatype Edns = Edns(udpSize: int, dnssec: bool, version: int)

  /** `name` is None for a name with bytes that no host name has. */
  datatype Question = Question(name: Option<Bytes>, qtype: int, qclass: int, raw: Bytes)

  datatype Query = Query(id: int, opcode: int, rd: bool, cd: bool, qdcount: int, question: Option<Question>,
                         edns: Option<Edns>)

  // ---- Messages ----

  function Header(id: int, flags: int, qd: int, an: int, ns: int, ar: int): (b: Bytes)
    requires 0 <= id < U16_LIMIT && 0 <= flags < U16_LIMIT && 0 <= qd < U16_LIMIT
    requires 0 <= an < U16_LIMIT && 0 <= ns < U16_LIMIT && 0 <= ar < U16_LIMIT
    ensures |b| == 12
  {
    U16(id) + U16(flags) + U16(qd) + U16(an) + U16(ns) + U16(ar)
  }

  lemma HeaderFields(id: int, flags: int, qd: int, an: int, ns: int, ar: int, rest: Bytes)
    requires 0 <= id < U16_LIMIT && 0 <= flags < U16_LIMIT && 0 <= qd < U16_LIMIT
    requires 0 <= an < U16_LIMIT && 0 <= ns < U16_LIMIT && 0 <= ar < U16_LIMIT
    ensures var b := Header(id, flags, qd, an, ns, ar) + rest;
            && GetU16(b, 0) == id && GetU16(b, 2) == flags && GetU16(b, 4) == qd
            && GetU16(b, 6) == an && GetU16(b, 8) == ns && GetU16(b, 10) == ar
  {
  }

  // ---- Skipping resource records ----

  /** Where a record ends; the program throws on a bad name and gives up on a record that is cut off. */
  datatype Skip = Throws | Stop | At(pos: nat)

  function SkipRR(buf: Bytes, pos: nat): (s: Skip)
    ensures s.At? ==> pos < s.pos <= |buf|
  {
    var n := ReadName(buf, pos);
    if n.None? then Throws
    else if n.value.next + 10 > |buf| then Stop
    else
      var end := n.value.next + 10 + GetU16(buf, n.value.next + 8);
      if end > |buf| then Stop else At(end)
  }

  function SkipMany(buf: Bytes, s: Skip, k: nat): Skip
    decreases k
  {
    if k == 0 || !s.At? then s else SkipMany(buf, SkipRR(buf, s.pos), k - 1)
  }

  function EdnsAt(buf: Bytes, p: nat): Edns
    requires p + 10 <= |buf|
  {
    var size, ttl := GetU16(buf, p + 2), GetU32(buf, p + 4);
    Edns(if size < 512 then 512 else size, Bit(ttl, 0x8000), ttl / 0x1_0000 % 256)
  }

  /** The EDNS record among the next `k` records; the outer None is a throw. */
  function EdnsAmong(buf: Bytes, s: Skip, k: nat, edns: Option<Edns>): Option<Option<Edns>>
    decreases k
  {
    if s.Throws? then None
    else if k == 0 || s.Stop? then Some(edns)
    else
      var n :- ReadName(buf, s.pos);
      if n.next + 10 > |buf| then Some(edns) else
      EdnsAmong(buf, SkipRR(buf, s.pos), k - 1,
                if GetU16(buf, n.next) == TYPE_OPT then Some(EdnsAt(buf, n.next)) else edns)
  }

  function ParseQuery(buf: Bytes): (r: Option<Query>)
  {
    if |buf| < 12 || |buf| > 65535 then None else
    var flags, qd := GetU16(buf, 2), GetU16(buf, 4);
    if Bit(flags, 0x8000) then None else
    var base := Query(GetU16(buf, 0), flags / 0x800 % 16, Bit(flags, 0x100), Bit(flags, 0x10), qd, None, None);
    if qd != 1 then Some(base) else
    var q := ReadQuestion(buf, 12, 0);
    if q.None? || q.value.next + 4 > |buf| then Some(base) else
    var end := q.value.next;
    var an, ns, ar := GetU16(buf, 6), GetU16(buf, 8), GetU16(buf, 10);
    if an + ns + ar > MAX_RR then Some(base) else
    var edns :- EdnsAmong(buf, SkipMany(buf, At(end + 4), an + ns), ar, None);
    var texts := Texts(q.value.labels);
    var name := if texts.None? then None else Some(Dotted(texts.value));
    Some(base.(question := Some(Question(name, GetU16(buf, end), GetU16(buf, end + 2), buf[12..end + 4])),
        edns := edns))
  }

  /** parseQuery, with its loops. */
  method ParseQueryLoop(buf: Bytes) returns (r: Option<Query>)
    ensures r == ParseQuery(buf)
  {
    hide GetU16, ReadQuestion, EdnsAmong, SkipMany, Texts, Dotted, Bit;
    if |buf| < 12 || |buf| > 65535 {
      return None;
    }
    var flags, qd := GetU16(buf, 2), GetU16(buf, 4);
    if Bit(flags, 0x8000) {
      return None;
    }
    var base := Query(GetU16(buf, 0), flags / 0x800 % 16, Bit(flags, 0x100), Bit(flags, 0x10), qd, None, None);
    if qd != 1 {
      return Some(base);
    }
    var q := ReadQuestionLoop(buf, 12);
    if q.None? || q.value.next + 4 > |buf| {
      return Some(base);
    }
    var end := q.value.next;
    var an, ns, ar := GetU16(buf, 6), GetU16(buf, 8), GetU16(buf, 10);
    if an + ns + ar > MAX_RR {
      return Some(base);
    }
    var edns := RecordsLoop(buf, end + 4, an + ns, ar);
    if edns.None? {
      return None;
    }
    var texts := Texts(q.value.labels);
    var name := if texts.None? then None else Some(Dotted(texts.value));
    r := Some(base.(question := Some(Question(name, GetU16(buf, end), GetU16(buf, end + 2), buf[12..end + 4])),
        edns := edns.value));
  }

  method RecordsLoop(buf: Bytes, start: nat, skip: nat, ar: nat) returns (r: Option<Option<Edns>>)
    ensures r == EdnsAmong(buf, SkipMany(buf, At(start), skip), ar, None)
  {
    hide ReadFrom, GetU32;
    var s := At(start);
    var i := 0;
    while i < skip && s.At?
      invariant 0 <= i <= skip && SkipMany(buf, At(start), skip) == SkipMany(buf, s, skip - i)
    {
      s := SkipRR(buf, s.pos);
      i := i + 1;
    }
    ghost var all := EdnsAmong(buf, s, ar, None);
    var edns: Option<Edns> := None;
    i := 0;
    while i < ar && s.At?
      invariant 0 <= i <= ar && all == EdnsAmong(buf, s, ar - i, edns)
    {
      var n := ReadNameLoop(buf, s.pos);
      if n.None? {
        return None;
      }
      if n.value.next + 10 > |buf| {
        return Some(edns);
      }
      if GetU16(buf, n.value.next) == TYPE_OPT {
        edns := Some(EdnsAt(buf, n.value.next));
      }
      s := SkipRR(buf, s.pos);
      i := i + 1;
    }
    r := if s.Throws? then None else Some(edns);
  }

  // ---- Building ----

  /** The OPT record without options. */
  function OptRecord(dnssec: bool): (b: Bytes)
    ensures |b| == 11
  {
    [0] + U16(TYPE_OPT) + U16(EDNS_UDP) + U32(if dnssec then 0x8000 else 0) + U16(0)
  }

  /** buildQuery; None where encodeName throws. */
  function BuildQuery(id: nat, name: Bytes, qtype: int, qclass: int, edns: Option<bool>, cd: bool): (r: Option<Bytes>)
    requires 0 <= qtype < U16_LIMIT && 0 <= qclass < U16_LIMIT
  {
    var n :- EncodeName(name);
    Some(Header(id % U16_LIMIT, 0x100 + (if cd then 0x10 else 0), 1, 0, 0, if edns.Some? then 1 else 0)
         + n + U16(qtype) + U16(qclass) + if edns.Some? then OptRecord(edns.value) else [])
  }

  /** Which messages are no query, and which have no question. */
  lemma QueryAccepted(buf: Bytes)
    ensures |buf| < 12 || |buf| > 65535 || Bit(GetU16(buf, 2), 0x8000) ==> ParseQuery(buf).None?
    ensures 12 <= |buf| <= 65535 && !Bit(GetU16(buf, 2), 0x8000) ==>
              var q := ParseQuery(buf);
              && (GetU16(buf, 4) != 1 ==> q.Some? && q.value.question.None?)
              && (GetU16(buf, 6) + GetU16(buf, 8) + GetU16(buf, 10) > 512 ==> q.Some? && q.value.question.None?)
              && (q.Some? && q.value.question.Some? ==>
                    ReadQuestion(buf, 12, 0).Some? && ReadQuestion(buf, 12, 0).value.next + 4 <= |buf|)
              && (q.None? ==> exists pos: nat :: 12 < pos <= |buf| && ReadName(buf, pos).None?)
  {
    hide ReadQuestion, GetU16, Bit, ReadName, Texts, Dotted;
    if 12 <= |buf| <= 65535 && ParseQuery(buf).None? && !Bit(GetU16(buf, 2), 0x8000) {
      var start, skip := ReadQuestion(buf, 12, 0).value.next + 4, GetU16(buf, 6) + GetU16(buf, 8);
      SkipThrows(buf, At(start), skip);
      EdnsThrows(buf, SkipMany(buf, At(start), skip), GetU16(buf, 10), None);
    }
  }

  lemma {:induction false} SkipThrows(buf: Bytes, s: Skip, k: nat)
    requires !s.Throws? && (s.At? ==> 12 < s.pos <= |buf|)
    ensures var r := SkipMany(buf, s, k);
            && (r.At? ==> 12 < r.pos <= |buf|)
            && (r.Throws? ==> exists pos: nat :: 12 < pos <= |buf| && ReadName(buf, pos).None?)
    decreases k
  {
    hide ReadName, GetU16;
    if k > 0 && s.At? {
      var r := SkipRR(buf, s.pos);
      if r.Throws? {
        assert ReadName(buf, s.pos).None?;
        assert SkipMany(buf, r, k - 1) == r;
      } else {
        SkipThrows(buf, r, k - 1);
      }
    }
  }

  lemma {:induction false} EdnsThrows(buf: Bytes, s: Skip, k: nat, edns: Option<Edns>)
    requires EdnsAmong(buf, s, k, edns).None? && (s.At? ==> 12 < s.pos <= |buf|)
    requires s.Throws? ==> exists pos: nat :: 12 < pos <= |buf| && ReadName(buf, pos).None?
    ensures exists pos: nat :: 12 < pos <= |buf| && ReadName(buf, pos).None?
    decreases k
  {
    hide ReadName, GetU16, EdnsAt;
    if !s.Throws? && ReadName(buf, s.pos).Some? {
      var n := ReadName(buf, s.pos).value;
      EdnsThrows(buf, SkipRR(buf, s.pos), k - 1,
                 if GetU16(buf, n.next) == TYPE_OPT then Some(EdnsAt(buf, n.next)) else edns);
    }
  }

  // ---- Building what was parsed ----

  /** A query with this question and these flags, as parseQuery reads it. */
  predicate Asks(q: Query, id: nat, name: Bytes, qtype: int, qclass: int, edns: Option<bool>, cd: bool) {
    && q.id == id % U16_LIMIT && q.opcode == 0 && q.rd && q.cd == cd && q.qdcount == 1
    && q.question.Some? && q.question.value.name == Some(name)
    && q.question.value.qtype == qtype && q.question.value.qclass == qclass
    && (if edns.None? then q.edns.None? else q.edns == Some(Edns(1232, edns.value, 0)))
  }

  /** parseQuery found a question with a good name. */
  predicate Accepted(buf: Bytes) {
    && ParseQuery(buf).Some? && ParseQuery(buf).value.question.Some?
    && ParseQuery(buf).value.question.value.name.Some?
  }

  lemma AcceptedName(buf: Bytes) returns (ts: seq<Bytes>)
    requires Accepted(buf)
    ensures HostLabels(ts)
    ensures var x := ParseQuery(buf).value.question.value;
            x.name == Some(Dotted(ts)) && 0 <= x.qtype < U16_LIMIT && 0 <= x.qclass < U16_LIMIT
  {
    hide Dotted, EdnsAmong, ReadQuestion;
    var q := ReadQuestion(buf, 12, 0).value;
    QuestionIsWire(buf, 12, 0);
    TextsAgain(q.labels);
    ts := Texts(q.labels).value;
  }

  /** Lower-case host name labels that fit a question. */
  predicate HostLabels(ts: seq<Bytes>) {
    LabelsFit(ts) && Texts(ts) == Some(ts) && LabelsOf(Dotted(ts)) == ts && Size(ts) <= 255
  }

  lemma OptIsRead(buf: Bytes, pos: nat, dnssec: bool)
    requires pos + 11 == |buf| && buf[pos..pos + 11] == OptRecord(dnssec)
    ensures EdnsAmong(buf, At(pos), 1, None) == Some(Some(Edns(EDNS_UDP, dnssec, 0)))
  {
    var o := OptRecord(dnssec);
    assert buf[pos] == buf[pos..pos + 11][0] == o[0] == 0;
    assert ReadName(buf, pos) == Some(Name([], pos + 1));
    OptFields(buf, pos, dnssec);
    assert SkipRR(buf, pos) == At(pos + 11);
  }

  lemma OptFields(buf: Bytes, pos: nat, dnssec: bool)
    requires pos + 11 <= |buf| && buf[pos..pos + 11] == OptRecord(dnssec)
    ensures GetU16(buf, pos + 1) == TYPE_OPT && GetU16(buf, pos + 9) == 0
    ensures EdnsAt(buf, pos + 1) == Edns(EDNS_UDP, dnssec, 0)
  {
    var o := OptRecord(dnssec);
    var v := if dnssec then 0x8000 else 0;
    SliceOfSlice(buf, pos, pos + 11, 1, 3);
    SliceOfSlice(buf, pos, pos + 11, 3, 5);
    SliceOfSlice(buf, pos, pos + 11, 5, 9);
    SliceOfSlice(buf, pos, pos + 11, 9, 11);
    assert o[1..3] == U16(TYPE_OPT) && o[3..5] == U16(EDNS_UDP) && o[5..9] == U32(v) && o[9..11] == U16(0);
    ReadBackU16(buf, pos + 1, TYPE_OPT);
    ReadBackU16(buf, pos + 3, EDNS_UDP);
    ReadBackU32(buf, pos + 5, v);
    ReadBackU16(buf, pos + 9, 0);
  }

  /** The 11 bytes in front of the options of an OPT record. */
  function OptFront(size: int, extended: byte, version: byte, flags: int, n: int): (b: Bytes)
    requires 0 <= size < 0x1_0000 && 0 <= flags < 0x1_0000 && 0 <= n < 0x1_0000
    ensures |b| == 11
  {
    [0, 0, 41] + U16(size) + [extended, version] + U16(flags) + U16(n)
  }

  lemma FrontFields(buf: Bytes, pos: nat, size: int, extended: byte, version: byte, flags: int, n: int)
    requires 0 <= size < 0x1_0000 && 0 <= flags < 0x1_0000 && 0 <= n < 0x1_0000
    requires Holds(buf, pos, OptFront(size, extended, version, flags, n))
    ensures buf[pos] == 0 && GetU16(buf, pos + 1) == 41 && GetU16(buf, pos + 3) == size
    ensures buf[pos + 5] == extended && buf[pos + 6] == version
    ensures GetU16(buf, pos + 7) == flags && GetU16(buf, pos + 9) == n
  {
    var f := OptFront(size, extended, version, flags, n);
    forall k | 0 <= k < 11
      ensures buf[pos + k] == f[k]
    {
      assert buf[pos..pos + 11][k] == f[k];
    }
  }

  /** An OPT record, whoever wrote it (section 6.1.2 of RFC 6891): no size below 512
      counts, DO is the highest of the 16 flags, and there may be options behind. */
  lemma AnyOptIsRead(buf: Bytes, pos: nat, size: int, extended: byte, version: byte, flags: int, options: Bytes)
    requires 0 <= size < 0x1_0000 && 0 <= flags < 0x1_0000 && |options| < 0x1_0000
    requires Holds(buf, pos, OptFront(size, extended, version, flags, |options|) + options)
    ensures EdnsAmong(buf, At(pos), 1, None) ==
            Some(Some(Edns(if size < 512 then 512 else size, flags >= 0x8000, version)))
  {
    hide GetU16, OptFront, Bit;
    HoldsBoth(buf, pos, OptFront(size, extended, version, flags, |options|), options);
    FrontFields(buf, pos, size, extended, version, flags, |options|);
    assert ReadName(buf, pos) == Some(Name([], pos + 1));
    TwoBytes(buf, pos + 5);
    HighBit(extended, version, flags);
    assert SkipRR(buf, pos) == At(pos + 11 + |options|);
  }

  lemma TwoBytes(buf: Bytes, i: nat)
    requires i + 2 <= |buf|
    ensures GetU16(buf, i) == buf[i] as int * 256 + buf[i + 1] as int
  {
  }

  lemma HighBit(extended: byte, version: byte, flags: int)
    requires 0 <= flags < 0x1_0000
    ensures var ttl := (extended as int * 256 + version as int) * 0x1_0000 + flags;
            Bit(ttl, 0x8000) == (flags >= 0x8000) && ttl / 0x1_0000 % 256 == version
  {
    var v := extended as int * 256 + version as int;
    assert (v * 0x1_0000 + flags) / 0x8000 == v * 2 + flags / 0x8000;
    assert (v * 0x1_0000 + flags) / 0x1_0000 == v;
  }

  /** The bytes of a query: RD is set and CD as asked; with EDNS it ends with an OPT record
      for messages of up to 1232 bytes. */
  ghost predicate QueryIs(b: Bytes, id: nat, ts: seq<Bytes>, qtype: int, qclass: int, edns: Option<bool>, cd: bool)
    requires LabelsFit(ts)
  {
    && |b| >= 12 && GetU16(b, 0) == id % 0x1_0000 && GetU16(b, 2) == (if cd then 0x110 else 0x100)
    && GetU16(b, 4) == 1 && GetU16(b, 6) == 0 && GetU16(b, 8) == 0 && GetU16(b, 10) == (if edns.Some? then 1 else 0)
    && var end := 12 + |Wire(ts)|;
    && end + 4 <= |b| && b[12..end] == Wire(ts) && GetU16(b, end) == qtype && GetU16(b, end + 2) == qclass
    && b[end + 4..] ==
       if edns.None? then [] else [0, 0, 41, 0x04, 0xd0, 0, 0, if edns.value then 0x80 else 0, 0, 0, 0]
  }

  lemma OptBytes(dnssec: bool)
    ensures OptRecord(dnssec) == [0, 0, 41, 0x04, 0xd0, 0, 0, if dnssec then 0x80 else 0, 0, 0, 0]
  {
  }

  /** Parsing a built query gives the question, CD and DO back, and its bytes are those of such a query. */
  lemma BuiltQueryParses(id: nat, ts: seq<Bytes>, qtype: int, qclass: int, edns: Option<bool>, cd: bool)
    requires HostLabels(ts) && 0 <= qtype < U16_LIMIT && 0 <= qclass < U16_LIMIT
    ensures var b := BuildQuery(id, Dotted(ts), qtype, qclass, edns, cd);
            && b.Some? && ParseQuery(b.value).Some?
            && Asks(ParseQuery(b.value).value, id, Dotted(ts), qtype, qclass, edns, cd)
            && QueryIs(b.value, id, ts, qtype, qclass, edns, cd)
  {
    hide ParseQuery, Asks, QueryIs, HostLabels, Dotted, Wire, EncodeName;
    NameEncodes(ts);
    BuiltParts(id, ts, qtype, qclass, edns, cd);
    QueryFrom(BuiltFrom(id, ts, qtype, qclass, edns, cd), id, ts, qtype, qclass, edns, cd);
  }

  /** What BuildQuery gives for a name with the labels `ts`. */
  function BuiltFrom(id: nat, ts: seq<Bytes>, qtype: int, qclass: int, edns: Option<bool>, cd: bool): (b: Bytes)
    requires LabelsFit(ts) && 0 <= qtype < U16_LIMIT && 0 <= qclass < U16_LIMIT
  {
    Header(id % U16_LIMIT, 0x100 + (if cd then 0x10 else 0), 1, 0, 0, if edns.Some? then 1 else 0)
    + Wire(ts) + U16(qtype) + U16(qclass) + if edns.Some? then OptRecord(edns.value) else []
  }

  lemma BuiltParts(id: nat, ts: seq<Bytes>, qtype: int, qclass: int, edns: Option<bool>, cd: bool)
    requires HostLabels(ts) && 0 <= qtype < U16_LIMIT && 0 <= qclass < U16_LIMIT
    ensures LabelsFit(ts) && QueryIs(BuiltFrom(id, ts, qtype, qclass, edns, cd), id, ts, qtype, qclass, edns, cd)
    ensures var b, end := BuiltFrom(id, ts, qtype, qclass, edns, cd), 12 + |Wire(ts)|;
            && ReadQuestion(b, 12, 0) == Some(Name(ts, end)) && |b| <= 300
            && EdnsAmong(b, At(end + 4), if edns.Some? then 1 else 0, None) ==
               Some(if edns.Some? then Some(Edns(1232, edns.value, 0)) else None)
  {
    hide ReadQuestion, EdnsAmong, OptRecord, Dotted, LabelsOf, ReadFrom, Size, Encoded, Texts, U16, GetU16, U32, GetU32,
      Header, Wire, SkipRR, LabelsFit;
    var w, ar, fl := Wire(ts), if edns.Some? then 1 else 0, 0x100 + if cd then 0x10 else 0;
    var o := if edns.Some? then OptRecord(edns.value) else [];
    var h := Header(id % U16_LIMIT, fl, 1, 0, 0, ar);
    var rest := w + U16(qtype) + U16(qclass) + o;
    var b := h + rest;
    assert b == BuiltFrom(id, ts, qtype, qclass, edns, cd);
    HeaderFields(id % U16_LIMIT, fl, 1, 0, 0, ar, rest);
    FewLabels(ts);
    QuestionStands(h, ts, qtype, qclass, o);
    EdnsIs(b, 12 + |w| + 4, edns, o);
    if edns.Some? {
      OptBytes(edns.value);
    }
  }

  lemma QueryFrom(b: Bytes, id: nat, ts: seq<Bytes>, qtype: int, qclass: int, edns: Option<bool>, cd: bool)
    requires HostLabels(ts) && QueryIs(b, id, ts, qtype, qclass, edns, cd) && |b| <= 300
    requires ReadQuestion(b, 12, 0) == Some(Name(ts, 12 + |Wire(ts)|))
    requires EdnsAmong(b, At(16 + |Wire(ts)|), if edns.Some? then 1 else 0, None) ==
             Some(if edns.Some? then Some(Edns(1232, edns.value, 0)) else None)
    ensures ParseQuery(b).Some? && Asks(ParseQuery(b).value, id, Dotted(ts), qtype, qclass, edns, cd)
  {
    hide ReadQuestion, EdnsAmong, Dotted, LabelsOf, Size, Texts, GetU16, Wire, Bit, LabelsFit;
    QueryBits(cd);
    var texts := Texts(ts);
    assert texts == Some(ts);
    assert SkipMany(b, At(16 + |Wire(ts)|), 0) == At(16 + |Wire(ts)|);
  }

  lemma QueryBits(cd: bool)
    ensures var f := if cd then 0x110 else 0x100;
            !Bit(f, 0x8000) && f / 0x800 % 16 == 0 && Bit(f, 0x100) && Bit(f, 0x10) == cd
  {
  }

  /** The question behind the header is read. */
  lemma QuestionStands(h: Bytes, ts: seq<Bytes>, qtype: int, qclass: int, o: Bytes)
    requires |h| == 12 && HostLabels(ts) && 0 <= qtype < U16_LIMIT && 0 <= qclass < U16_LIMIT
    ensures var b, end := h + (Wire(ts) + U16(qtype) + U16(qclass) + o), 12 + |Wire(ts)|;
            && ReadQuestion(b, 12, 0) == Some(Name(ts, end)) && end + 4 + |o| == |b| && b[end + 4..] == o
            && b[12..end] == Wire(ts) && GetU16(b, end) == qtype && GetU16(b, end + 2) == qclass
  {
    hide ReadQuestion, Wire, Size, Texts, Dotted, LabelsOf, U16, GetU16;
    var w := Wire(ts);
    var b, end := h + (w + U16(qtype) + U16(qclass) + o), 12 + |w|;
    assert b[12..end] == w;
    ReadQuestionWire(b, 12, ts, 0);
    assert b[end..end + 2] == U16(qtype) && b[end + 2..end + 4] == U16(qclass);
    ReadBackU16(b, end, qtype);
    ReadBackU16(b, end + 2, qclass);
  }

  lemma NameEncodes(ts: seq<Bytes>)
    requires HostLabels(ts)
    ensures EncodeName(Dotted(ts)) == Some(Wire(ts))
  {
    hide Encoded, Dotted, LabelsOf;
    assert forall k :: 0 <= k < |ts| ==> LabelFits(ts[k]);
  }

  lemma EdnsIs(b: Bytes, pos: nat, edns: Option<bool>, o: Bytes)
    requires o == (if edns.Some? then OptRecord(edns.value) else []) && pos + |o| == |b| && b[pos..] == o
    ensures EdnsAmong(b, SkipMany(b, At(pos), 0), if edns.Some? then 1 else 0, None) ==
            Some(if edns.Some? then Some(Edns(EDNS_UDP, edns.value, 0)) else None)
  {
    hide OptRecord, ReadFrom, SkipRR, EdnsAt;
    if edns.Some? {
      assert b[pos..pos + 11] == o;
      OptIsRead(b, pos, edns.value);
    }
  }

  /** Re-encoding any query that parseQuery accepts with a good name, and parsing the
      result, keeps name, type, class, CD and DO, under the new id. */
  lemma RequeryKeepsQuestion(buf: Bytes, id: nat)
    requires Accepted(buf)
    ensures var q := ParseQuery(buf).value;
            var x := q.question.value;
            var edns := if q.edns.Some? then Some(q.edns.value.dnssec) else None;
            && 0 <= x.qtype < U16_LIMIT && 0 <= x.qclass < U16_LIMIT
            && var b := BuildQuery(id, x.name.value, x.qtype, x.qclass, edns, q.cd);
            && b.Some? && ParseQuery(b.value).Some?
            && Asks(ParseQuery(b.value).value, id, x.name.value, x.qtype, x.qclass, edns, q.cd)
  {
    hide ParseQuery, BuildQuery, Asks, Dotted, HostLabels;
    var ts := AcceptedName(buf);
    var q := ParseQuery(buf).value;
    var x := q.question.value;
    BuiltQueryParses(id, ts, x.qtype, x.qclass, if q.edns.Some? then Some(q.edns.value.dnssec) else None, q.cd);
  }
}
