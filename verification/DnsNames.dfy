/** Names in DNS messages (section 4.1.4 of RFC 1035): readName of
    src/netwatch/dnsWire.js, which follows compression pointers, and
    readQuestionName, labelText and encodeName of src/dns/wire.js. */
module DnsNames {
  import opened Bytes
  import opened Splitting
  import opened DomainNames

  const MAX_JUMPS := 16
  const MAX_LABELS := 128

  datatype Name = Name(labels: seq<Bytes>, next: nat)

  // ---- readName ----

  /** The name at `pos`, after `jumps` pointers and `count` labels; None where the program throws. */
  function ReadFrom(buf: Bytes, pos: nat, jumps: nat, count: nat): (r: Option<Name>)
    requires jumps <= MAX_JUMPS && count <= MAX_LABELS
    ensures r.Some? ==> pos < r.value.next <= |buf|
    decreases MAX_JUMPS - jumps, |buf| - pos
  {
    if pos >= |buf| then None else
    var len := buf[pos] as int;
    if len == 0 then Some(Name([], pos + 1))
    else if len >= 0xc0 then
      if pos + 1 >= |buf| || jumps == MAX_JUMPS then None else
      var n :- ReadFrom(buf, (len - 0xc0) * 256 + buf[pos + 1] as int, jumps + 1, count);
      Some(Name(n.labels, pos + 2))
    else if len >= 0x40 || pos + 1 + len > |buf| || count == MAX_LABELS then None
    else
      var n :- ReadFrom(buf, pos + 1 + len, jumps, count + 1);
      Some(Name([buf[pos + 1..pos + 1 + len]] + n.labels, n.next))
  }

  function ReadName(buf: Bytes, off: nat): (r: Option<Name>)
    ensures r.Some? ==> off < r.value.next <= |buf|
  {
    ReadFrom(buf, off, 0, 0)
  }

  /** The loop of readName: it ends for every buffer, however its pointers point, and
      the reading goes on behind the name, after its first pointer. */
  method ReadNameLoop(buf: Bytes, off: nat) returns (r: Option<Name>)
    ensures r == ReadName(buf, off)
    ensures r.Some? ==> off < r.value.next <= |buf|
  {
    hide ReadFrom, Resumed;
    var labels: seq<Bytes> := [];
    var pos: nat, jumps: nat := off, 0;
    var next: Option<nat> := None;
    FromTheStart(ReadName(buf, off));
    while true
      invariant jumps <= MAX_JUMPS && |labels| <= MAX_LABELS
      invariant ReadName(buf, off) == Resumed(labels, next, ReadFrom(buf, pos, jumps, |labels|))
      decreases MAX_JUMPS - jumps, |buf| - pos
    {
      Step(buf, pos, jumps, labels, next);
      if pos >= |buf| {
        return None;
      }
      var len := buf[pos] as int;
      if len == 0 {
        return Some(Name(labels, if next.None? then pos + 1 else next.value));
      }
      if len >= 0xc0 {
        if pos + 1 >= |buf| || jumps + 1 > MAX_JUMPS {
          return None;
        }
        jumps := jumps + 1;
        if next.None? {
          next := Some(pos + 2);
        }
        pos := (len - 0xc0) * 256 + buf[pos + 1] as int;
        continue;
      }
      if len >= 0x40 || pos + 1 + len > |buf| || |labels| + 1 > MAX_LABELS {
        return None;
      }
      labels := labels + [buf[pos + 1..pos + 1 + len]];
      pos := pos + 1 + len;
    }
  }

  /** One round of the loop. */
  lemma Step(buf: Bytes, pos: nat, jumps: nat, labels: seq<Bytes>, next: Option<nat>)
    requires jumps <= MAX_JUMPS && |labels| <= MAX_LABELS
    ensures Resumed(labels, next, ReadFrom(buf, pos, jumps, |labels|)) ==
            if pos >= |buf| then None else
            var len := buf[pos] as int;
            if len == 0 then Some(Name(labels, if next.None? then pos + 1 else next.value))
            else if len >= 0xc0 then
              if pos + 1 >= |buf| || jumps == MAX_JUMPS then None else
              Resumed(labels, if next.None? then Some(pos + 2) else next,
                      ReadFrom(buf, (len - 0xc0) * 256 + buf[pos + 1] as int, jumps + 1, |labels|))
            else if len >= 0x40 || pos + 1 + len > |buf| || |labels| == MAX_LABELS then None
            else Resumed(labels + [buf[pos + 1..pos + 1 + len]], next,
                         ReadFrom(buf, pos + 1 + len, jumps, |labels| + 1))
  {
    assert labels + [] == labels;
    if pos < |buf| && 0 < buf[pos] < 0x40 && pos + 1 + buf[pos] as int <= |buf| && |labels| < MAX_LABELS {
      var len := buf[pos] as int;
      var one, rest := buf[pos + 1..pos + 1 + len], ReadFrom(buf, pos + 1 + len, jumps, |labels| + 1);
      assert rest.Some? ==> labels + ([one] + rest.value.labels) == labels + [one] + rest.value.labels;
    }
  }

  ghost function Resumed(labels: seq<Bytes>, next: Option<nat>, rest: Option<Name>): Option<Name> {
    if rest.None? then None
    else Some(Name(labels + rest.value.labels, if next.None? then rest.value.next else next.value))
  }

  lemma FromTheStart(rest: Option<Name>)
    ensures Resumed([], None, rest) == rest
  {
    if rest.Some? {
      assert [] + rest.value.labels == rest.value.labels;
    }
  }

  // ---- Encoding ----

  predicate LabelFits(l: Bytes) {
    1 <= |l| <= 63
  }

  predicate LabelsFit(ls: seq<Bytes>) {
    forall k :: 0 <= k < |ls| ==> LabelFits(ls[k])
  }

  /** Each label with its length in front. */
  function Encoded(ls: seq<Bytes>): (b: Bytes)
    requires LabelsFit(ls)
  {
    if ls == [] then [] else
    assert LabelFits(ls[0]);
    [|ls[0]|] + ls[0] + Encoded(ls[1..])
  }

  function Wire(ls: seq<Bytes>): (b: Bytes)
    requires LabelsFit(ls)
    ensures |b| >= 1
  {
    Encoded(ls) + [0]
  }

  lemma WireNil()
    ensures LabelsFit([]) && Wire([]) == [0]
  {
  }

  /** The first label of a written name and the rest of it. */
  lemma WireCons(buf: Bytes, pos: nat, ls: seq<Bytes>)
    requires LabelsFit(ls) && ls != [] && pos + |Wire(ls)| <= |buf| && buf[pos..pos + |Wire(ls)|] == Wire(ls)
    ensures var n := |ls[0]|;
            && LabelFits(ls[0]) && LabelsFit(ls[1..]) && |Wire(ls)| == 1 + n + |Wire(ls[1..])|
            && buf[pos] == n && buf[pos + 1..pos + 1 + n] == ls[0]
            && buf[pos + 1 + n..pos + |Wire(ls)|] == Wire(ls[1..])
  {
    var w, l, rest := Wire(ls), ls[0], ls[1..];
    assert LabelFits(l);
    var n := |l|;
    assert w == [n] + l + Wire(rest);
    assert buf[pos] == buf[pos..pos + |w|][0] == n;
    SliceOfSlice(buf, pos, pos + |w|, 1, 1 + n);
    assert w[1..1 + n] == l;
    SliceOfSlice(buf, pos, pos + |w|, 1 + n, |w|);
    assert w[1 + n..|w|] == Wire(rest);
  }

  /** A name written without pointers is read back, wherever it stands. */
  lemma {:induction false} ReadWire(buf: Bytes, pos: nat, ls: seq<Bytes>, jumps: nat, count: nat)
    requires LabelsFit(ls) && jumps <= MAX_JUMPS && count + |ls| <= MAX_LABELS
    requires pos + |Wire(ls)| <= |buf| && buf[pos..pos + |Wire(ls)|] == Wire(ls)
    ensures ReadFrom(buf, pos, jumps, count) == Some(Name(ls, pos + |Wire(ls)|))
    decreases |ls|
  {
    hide Encoded;
    if ls == [] {
      WireNil();
      assert buf[pos] == buf[pos..pos + 1][0];
    } else {
      WireCons(buf, pos, ls);
      ReadWire(buf, pos + 1 + |ls[0]|, ls[1..], jumps, count + 1);
      assert ls == [ls[0]] + ls[1..];
    }
  }

  /** A pointer to such a name reads as that name, and two bytes long. */
  lemma ReadPointer(buf: Bytes, pos: nat, target: nat, ls: seq<Bytes>)
    requires pos + 2 <= |buf| && target < 0x4000 && buf[pos] as int == 0xc0 + target / 256
             && buf[pos + 1] as int == target % 256
    requires LabelsFit(ls) && |ls| <= MAX_LABELS
    requires target + |Wire(ls)| <= |buf| && buf[target..target + |Wire(ls)|] == Wire(ls)
    ensures ReadName(buf, pos) == Some(Name(ls, pos + 2))
  {
    ReadWire(buf, target, ls, 1, 0);
  }

  /** From `pos` on, `j` pointers lead to `target`. */
  ghost predicate Leads(buf: Bytes, pos: nat, j: nat, target: nat)
    decreases j
  {
    if j == 0 then pos == target else
    && pos + 2 <= |buf| && buf[pos] >= 0xc0
    && Leads(buf, (buf[pos] as int - 0xc0) * 256 + buf[pos + 1] as int, j - 1, target)
  }

  lemma {:induction false} TooManyLabels(buf: Bytes, pos: nat, ls: seq<Bytes>, jumps: nat, count: nat)
    requires LabelsFit(ls) && jumps <= MAX_JUMPS && count <= 128 < count + |ls|
    requires pos + |Wire(ls)| <= |buf| && buf[pos..pos + |Wire(ls)|] == Wire(ls)
    ensures ReadFrom(buf, pos, jumps, count).None?
    decreases |ls|
  {
    hide Encoded;
    WireCons(buf, pos, ls);
    if count < 128 {
      TooManyLabels(buf, pos + 1 + |ls[0]|, ls[1..], jumps, count + 1);
    }
  }

  lemma {:induction false} ChainFrom(buf: Bytes, pos: nat, jumps: nat, j: nat, target: nat, ls: seq<Bytes>)
    requires Leads(buf, pos, j, target) && jumps <= 16
    requires LabelsFit(ls) && target + |Wire(ls)| <= |buf| && buf[target..target + |Wire(ls)|] == Wire(ls)
    ensures ReadFrom(buf, pos, jumps, 0) ==
            if jumps + j <= 16 && |ls| <= 128 then Some(Name(ls, pos + if j == 0 then |Wire(ls)| else 2)) else None
    decreases j
  {
    hide Wire;
    if j == 0 {
      if |ls| <= 128 {
        ReadWire(buf, pos, ls, jumps, 0);
      } else {
        TooManyLabels(buf, pos, ls, jumps, 0);
      }
    } else if jumps < 16 {
      ChainFrom(buf, (buf[pos] as int - 0xc0) * 256 + buf[pos + 1] as int, jumps + 1, j - 1, target, ls);
    }
  }

  /** A name behind any number of pointers is read exactly if these are at most 16 and it has at most
      128 labels; the message goes on behind the first pointer. */
  lemma ChainExact(buf: Bytes, pos: nat, j: nat, target: nat, ls: seq<Bytes>)
    requires Leads(buf, pos, j, target)
    requires LabelsFit(ls) && target + |Wire(ls)| <= |buf| && buf[target..target + |Wire(ls)|] == Wire(ls)
    ensures ReadName(buf, pos) ==
            if j <= 16 && |ls| <= 128 then Some(Name(ls, pos + if j == 0 then |Wire(ls)| else 2)) else None
  {
    hide Wire, ReadFrom;
    ChainFrom(buf, pos, 0, j, target, ls);
  }

  // ---- Names as text ----

  /** Labels joined by dots, the root being the empty text. */
  function Dotted(ls: seq<Bytes>): Bytes {
    if ls == [] then [] else Join(ls, DOT)
  }

  /** The non-empty parts of a dotted name. */
  function NonEmpty(parts: seq<Bytes>): (r: seq<Bytes>)
    ensures forall k :: 0 <= k < |r| ==> r[k] != []
  {
    if parts == [] then [] else
    NonEmpty(parts[..|parts| - 1]) + if parts[|parts| - 1] == [] then [] else [parts[|parts| - 1]]
  }

  function LabelsOf(name: Bytes): seq<Bytes> {
    NonEmpty(Split(name, DOT))
  }

  predicate Undotted(ls: seq<Bytes>) {
    forall k :: 0 <= k < |ls| ==> ls[k] != [] && DOT !in ls[k]
  }

  /** Splitting a dotted name gives its labels back. */
  lemma LabelsOfDotted(ls: seq<Bytes>)
    requires Undotted(ls)
    ensures LabelsOf(Dotted(ls)) == ls
  {
    hide Split, Join;
    if ls == [] {
      SplitEmpty();
    } else {
      SplitJoin(ls, DOT);
      AllKept(ls);
    }
  }

  lemma SplitEmpty()
    ensures NonEmpty(Split([], DOT)) == []
  {
  }

  lemma {:induction false} AllKept(ls: seq<Bytes>)
    requires forall k :: 0 <= k < |ls| ==> ls[k] != []
    ensures NonEmpty(ls) == ls
    decreases |ls|
  {
    if ls != [] {
      AllKept(ls[..|ls| - 1]);
      assert ls == ls[..|ls| - 1] + [ls[|ls| - 1]];
    }
  }

  /** encodeName; None where it throws because a label is too long. */
  function EncodeName(name: Bytes): (r: Option<Bytes>)
  {
    var ls := LabelsOf(name);
    if forall k :: 0 <= k < |ls| ==> |ls[k]| <= 63 then Some(Wire(ls)) else None
  }

  // ---- readQuestionName and labelText ----

  /** The labels of a question, which may hold no pointer, and the position behind them. */
  function ReadQuestion(buf: Bytes, pos: nat, total: nat): (r: Option<Name>)
    ensures r.Some? ==> pos < r.value.next <= |buf|
    decreases |buf| - pos
  {
    if pos >= |buf| then None else
    var len := buf[pos] as int;
    if len == 0 then Some(Name([], pos + 1))
    else if len > 63 || pos + 1 + len > |buf| || total + len + 1 > 255 then None
    else
      var n :- ReadQuestion(buf, pos + 1 + len, total + len + 1);
      Some(Name([buf[pos + 1..pos + 1 + len]] + n.labels, n.next))
  }

  method ReadQuestionLoop(buf: Bytes, off: nat) returns (r: Option<Name>)
    ensures r == ReadQuestion(buf, off, 0)
  {
    var labels: seq<Bytes> := [];
    var pos: nat, total: nat := off, 0;
    FromTheStart(ReadQuestion(buf, off, 0));
    while true
      invariant ReadQuestion(buf, off, 0) == Resumed(labels, None, ReadQuestion(buf, pos, total))
      decreases |buf| - pos
    {
      if pos >= |buf| {
        return None;
      }
      var len := buf[pos] as int;
      if len == 0 {
        assert labels + [] == labels;
        return Some(Name(labels, pos + 1));
      }
      if len > 63 || pos + 1 + len > |buf| {
        return None;
      }
      var one := buf[pos + 1..pos + 1 + len];
      total := total + len + 1;
      if total > 255 {
        return None;
      }
      ghost var rest := ReadQuestion(buf, pos + 1 + len, total);
      assert rest.Some? ==> labels + ([one] + rest.value.labels) == labels + [one] + rest.value.labels;
      labels := labels + [one];
      pos := pos + 1 + len;
    }
  }

  /** The bytes that a question name takes, but for its end. */
  function Size(ls: seq<Bytes>): nat {
    if ls == [] then 0 else |ls[0]| + 1 + Size(ls[1..])
  }

  /** What is read as a question is its labels as they are written, and not too long. */
  lemma {:induction false} QuestionIsWire(buf: Bytes, pos: nat, total: nat)
    requires ReadQuestion(buf, pos, total).Some?
    ensures var n := ReadQuestion(buf, pos, total).value;
            && LabelsFit(n.labels) && buf[pos..n.next] == Wire(n.labels)
            && (total <= 255 ==> total + Size(n.labels) <= 255)
    decreases |buf| - pos
  {
    hide Encoded, LabelsFit;
    if buf[pos] == 0 {
      WireNil();
    } else {
      var k := buf[pos] as int;
      QuestionIsWire(buf, pos + 1 + k, total + k + 1);
      var n := ReadQuestion(buf, pos, total).value;
      assert n.labels[1..] == ReadQuestion(buf, pos + 1 + k, total + k + 1).value.labels;
      CutLabel(buf, pos, k, n.next);
      OneLabelMore(n.labels);
    }
  }

  lemma CutLabel(buf: Bytes, pos: nat, k: nat, next: nat)
    requires pos + 1 + k <= next <= |buf|
    ensures buf[pos..next] == [buf[pos]] + buf[pos + 1..pos + 1 + k] + buf[pos + 1 + k..next]
  {
  }

  lemma OneLabelMore(ls: seq<Bytes>)
    requires ls != [] && LabelFits(ls[0]) && LabelsFit(ls[1..])
    ensures LabelsFit(ls) && Wire(ls) == [|ls[0]|] + ls[0] + Wire(ls[1..])
  {
    hide LabelFits;
    assert forall i :: 0 < i < |ls| ==> ls[i] == ls[1..][i - 1];
  }

  /** One label of a question. */
  lemma LabelIsRead(buf: Bytes, pos: nat, n: nat, total: nat)
    requires 1 <= n <= 63 && pos + 1 + n <= |buf| && buf[pos] as int == n && total + n + 1 <= 255
    ensures var m := ReadQuestion(buf, pos + 1 + n, total + n + 1);
            ReadQuestion(buf, pos, total) ==
            if m.None? then None else Some(Name([buf[pos + 1..pos + 1 + n]] + m.value.labels, m.value.next))
  {
  }

  /** And what is written so is read as a question. */
  lemma {:induction false} ReadQuestionWire(buf: Bytes, pos: nat, ls: seq<Bytes>, total: nat)
    requires LabelsFit(ls) && total + Size(ls) <= 255
    requires pos + |Wire(ls)| <= |buf| && buf[pos..pos + |Wire(ls)|] == Wire(ls)
    ensures ReadQuestion(buf, pos, total) == Some(Name(ls, pos + |Wire(ls)|))
    decreases |ls|
  {
    hide Encoded, Wire, LabelsFit;
    if ls == [] {
      WireNil();
      assert buf[pos] == buf[pos..pos + 1][0];
    } else {
      hide ReadQuestion;
      WireCons(buf, pos, ls);
      var n := |ls[0]|;
      LabelIsRead(buf, pos, n, total);
      ReadQuestionWire(buf, pos + 1 + n, ls[1..], total + n + 1);
      assert ls == [ls[0]] + ls[1..];
    }
  }

  predicate TextByte(c: byte) {
    0x20 < c < 0x7f && c != DOT
  }

  predicate TextLabel(l: Bytes) {
    forall i :: 0 <= i < |l| ==> TextByte(l[i])
  }

  /** labelText of every label; None if one of them has a byte that no host name has. */
  function Texts(ls: seq<Bytes>): (r: Option<seq<Bytes>>)
    ensures r.Some? ==> |r.value| == |ls|
  {
    if forall k :: 0 <= k < |ls| ==> TextLabel(ls[k])
    then Some(seq(|ls|, k requires 0 <= k < |ls| => LowerAll(ls[k]))) else None
  }

  /** Printable characters other than blank and dot. */
  predicate Printable(ls: seq<Bytes>) {
    forall k, i :: 0 <= k < |ls| && 0 <= i < |ls[k]| ==>
                     '!' as int <= ls[k][i] <= '~' as int && ls[k][i] != '.' as int
  }

  lemma TextsExact(ls: seq<Bytes>)
    ensures Texts(ls).Some? <==> Printable(ls)
  {
    if Printable(ls) {
      forall k | 0 <= k < |ls|
        ensures TextLabel(ls[k])
      {
      }
    } else {
      var k, i :| 0 <= k < |ls| && 0 <= i < |ls[k]| &&
                  !('!' as int <= ls[k][i] <= '~' as int && ls[k][i] != '.' as int);
      assert !TextByte(ls[k][i]);
    }
  }

  lemma {:induction false} LowerTwice(l: Bytes)
    requires TextLabel(l)
    ensures LowerAll(LowerAll(l)) == LowerAll(l) && TextLabel(LowerAll(l))
    decreases |l|
  {
    if l != [] {
      LowerTwice(l[..|l| - 1]);
    }
  }

  /** The texts of labels are again labels, their own texts, and join to a name that splits into them. */
  lemma TextsAgain(ls: seq<Bytes>)
    requires LabelsFit(ls) && Texts(ls).Some?
    ensures var ts := Texts(ls).value;
            && LabelsFit(ts) && Texts(ts) == Some(ts) && Undotted(ts) && LabelsOf(Dotted(ts)) == ts
               && Size(ts) == Size(ls)
  {
    hide LowerAll, Dotted, LabelsOf, Size, TextLabel;
    var ts := Texts(ls).value;
    forall k | 0 <= k < |ls|
      ensures LabelFits(ts[k]) && TextLabel(ts[k]) && LowerAll(ts[k]) == ts[k] && ts[k] != [] && DOT !in ts[k]
    {
      assert LabelFits(ls[k]) && TextLabel(ls[k]);
      LowerTwice(ls[k]);
      NoDot(ts[k]);
    }
    assert Texts(ts).Some?;
    assert Texts(ts).value == ts;
    LabelsOfDotted(ts);
    SameSize(ls, ts);
  }

  lemma NoDot(l: Bytes)
    requires TextLabel(l)
    ensures DOT !in l
  {
  }

  lemma {:induction false} SameSize(a: seq<Bytes>, b: seq<Bytes>)
    requires |a| == |b| && forall k :: 0 <= k < |a| ==> |a[k]| == |b[k]|
    ensures Size(a) == Size(b)
    decreases |a|
  {
    if a != [] {
      SameSize(a[1..], b[1..]);
    }
  }

  /** Names that fit a question have few labels. */
  lemma {:induction false} FewLabels(ls: seq<Bytes>)
    requires LabelsFit(ls)
    ensures 2 * |ls| <= Size(ls) && |Wire(ls)| == Size(ls) + 1
    decreases |ls|
  {
    if ls != [] {
      assert LabelFits(ls[0]);
      FewLabels(ls[1..]);
    }
  }
}
