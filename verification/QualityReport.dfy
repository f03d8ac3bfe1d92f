/** The report buffer of the internet quality feature (_addSample, _addOutage
    and report of src/inetq/inetq.js): values wait until a post that held them
    was acknowledged, and go on arriving while a post is on its way. */
module QualityReport {
  import opened Bytes
  import opened Sequences
  import opened Buckets
  import opened Outage

  const MAX_SAMPLES := 2016
  const MAX_OUTAGES := 200
  const PER_REPORT := 600
  const MAX_TESTS := 50

  /** A closed bucket in the buffer. Samples and speed tests are numbered as they are
      made: the number says which object it is, whatever its fields are. */
  datatype Sample = Sample(id: nat, bucket: Bucket)

  datatype Speedtest = Speedtest(at: int, downKbps: Option<int>, upKbps: Option<int>, bytes: nat, error: Option<string>)

  datatype Test = Test(id: nat, result: Speedtest)

  // ---- Samples ----

  predicate RisingTimes(ss: seq<Sample>) {
    forall i, j :: 0 <= i < j < |ss| ==> ss[i].bucket.t < ss[j].bucket.t
  }

  predicate RisingIds(ss: seq<Sample>) {
    forall i, j :: 0 <= i < j < |ss| ==> ss[i].id < ss[j].id
  }

  predicate Numbered(ss: seq<Sample>) {
    forall i :: 0 <= i < |ss| ==> ss[i].id == i
  }

  predicate InTimes(s: Sample, sent: seq<Sample>) {
    exists i :: 0 <= i < |sent| && sent[i].bucket.t == s.bucket.t
  }

  /** The samples whose time is none of those sent. */
  function Unsent(ss: seq<Sample>, sent: seq<Sample>): (r: seq<Sample>)
  {
    Filter(ss, s => !InTimes(s, sent))
  }

  lemma UnsentIs(ss: seq<Sample>, sent: seq<Sample>, s: Sample)
    ensures s in Unsent(ss, sent) <==> s in ss && !InTimes(s, sent)
  {
    hide InTimes;
    FilterMembers(ss, x => !InTimes(x, sent), s);
  }

  lemma {:induction false} UnsentRises(ss: seq<Sample>, sent: seq<Sample>)
    requires RisingIds(ss)
    ensures RisingIds(Unsent(ss, sent)) && |Unsent(ss, sent)| <= |ss|
    decreases |ss|
  {
    hide InTimes;
    if ss != [] {
      var n := |ss| - 1;
      UnsentRises(ss[..n], sent);
      var r := Unsent(ss[..n], sent);
      forall i | 0 <= i < |r|
        ensures r[i].id < ss[n].id
      {
        assert r[i] in r;
        UnsentIs(ss[..n], sent, r[i]);
      }
    }
  }

  /** The waiting samples that have the time of a sent one without having been sent. */
  ghost function Twins(ss: seq<Sample>, sent: seq<Sample>): set<Sample> {
    set s | s in ss && s !in sent && InTimes(s, sent)
  }

  /** An acknowledged report takes out exactly the sent samples if and only if no waiting one is their twin. */
  lemma TakesOutTheSent(ss: seq<Sample>, sent: seq<Sample>)
    ensures SetOf(Unsent(ss, sent)) == SetOf(ss) - SetOf(sent) - Twins(ss, sent)
    ensures SetOf(Unsent(ss, sent)) == SetOf(ss) - SetOf(sent) <==> Twins(ss, sent) == {}
  {
    hide InTimes, Unsent;
    forall s
      ensures s in Unsent(ss, sent) <==> s in ss && s !in sent && s !in Twins(ss, sent)
    {
      UnsentIs(ss, sent, s);
      if s in sent {
        OwnTime(s, sent);
      }
    }
  }

  lemma OwnTime(s: Sample, sent: seq<Sample>)
    requires s in sent
    ensures InTimes(s, sent)
  {
    var i :| 0 <= i < |sent| && sent[i] == s;
    assert sent[i].bucket.t == s.bucket.t;
  }

  /** Two buckets of one time: sending the first takes the second out too. */
  lemma TwinLost(b: Bucket, c: Bucket)
    requires b.t == c.t
    ensures var ss := [Sample(0, b), Sample(1, c)]; Unsent(ss, ss[..1]) == [] && Twins(ss, ss[..1]) == {ss[1]}
  {
    var ss := [Sample(0, b), Sample(1, c)];
    var sent := ss[..1];
    OwnTime(ss[0], sent);
    assert sent[0].bucket.t == ss[1].bucket.t;
    assert ss[..1][..0] == [] && Unsent(ss[..1], sent) == [];
  }

  /** With rising times there are no twins. */
  lemma NoTwins(all: seq<Sample>, ss: seq<Sample>, sent: seq<Sample>)
    requires RisingTimes(all) && SetOf(ss) <= SetOf(all) && SetOf(sent) <= SetOf(all)
    ensures Twins(ss, sent) == {}
  {
    forall s | s in ss && InTimes(s, sent)
      ensures s in sent
    {
      var i :| 0 <= i < |sent| && sent[i].bucket.t == s.bucket.t;
      assert s in SetOf(ss) && sent[i] in SetOf(sent);
      var a :| 0 <= a < |all| && all[a] == sent[i];
      var b :| 0 <= b < |all| && all[b] == s;
    }
  }

  /** What has become of the samples made so far: they wait, or were acknowledged, given up for
      lack of room, or taken out as twins of sent ones; each has one of these fates. A sample is given
      up only when as many newer ones have been made as the buffer holds. */
  ghost predicate SamplesOk(samples: seq<Sample>, sent: seq<Sample>, produced: seq<Sample>,
                            delivered: set<Sample>, dropped: set<Sample>, lost: set<Sample>) {
    && Numbered(produced) && RisingIds(samples) && |samples| <= 2016
    && SetOf(produced) == SetOf(samples) + delivered + dropped + lost
    && SetOf(samples) !! delivered + dropped + lost && delivered !! dropped + lost && dropped !! lost
    && SetOf(sent) <= SetOf(samples) + dropped
    && (RisingTimes(produced) ==> lost == {})
    && forall s :: s in dropped ==> s.id + 2016 < |produced|
  }

  lemma SampleJoins(samples: seq<Sample>, sent: seq<Sample>, produced: seq<Sample>, b: Bucket,
                    delivered: set<Sample>, dropped: set<Sample>, lost: set<Sample>)
    requires SamplesOk(samples, sent, produced, delivered, dropped, lost)
    ensures var s := Sample(|produced|, b);
            && var all := samples + [s];
            && s !in produced && RisingIds(all)
            && if |all| > 2016
               then SamplesOk(all[1..], sent, produced + [s], delivered, dropped + {all[0]}, lost)
               else SamplesOk(all, sent, produced + [s], delivered, dropped, lost)
  {
    hide RisingTimes;
    var s := Sample(|produced|, b);
    var all := samples + [s];
    SetAppend(samples, s);
    SetAppend(produced, s);
    NewAndLast(samples, produced, s);
    FewerRise(produced, s);
    SetTail(all);
    IdsAdd(all, |all| - 1);
  }

  lemma {:induction false} IdsAdd(ss: seq<Sample>, k: nat)
    requires RisingIds(ss) && k < |ss|
    ensures ss[0].id + k <= ss[k].id
    decreases k
  {
    if k > 0 {
      IdsAdd(ss, k - 1);
    }
  }

  lemma NewAndLast(samples: seq<Sample>, produced: seq<Sample>, s: Sample)
    requires Numbered(produced) && RisingIds(samples) && SetOf(samples) <= SetOf(produced) && s.id == |produced|
    ensures s !in produced && Numbered(produced + [s]) && RisingIds(samples + [s]) && RisingIds((samples + [s])[1..])
    ensures (samples + [s])[0] !in (samples + [s])[1..]
  {
    forall i | 0 <= i < |samples|
      ensures samples[i].id < s.id
    {
      assert samples[i] in SetOf(samples);
      var k :| 0 <= k < |produced| && produced[k] == samples[i];
    }
  }

  lemma FewerRise(produced: seq<Sample>, s: Sample)
    ensures RisingTimes(produced + [s]) ==> RisingTimes(produced)
  {
    if RisingTimes(produced + [s]) {
      forall i, j | 0 <= i < j < |produced|
        ensures produced[i].bucket.t < produced[j].bucket.t
      {
        assert (produced + [s])[i] == produced[i] && (produced + [s])[j] == produced[j];
      }
    }
  }

  lemma SamplesGo(samples: seq<Sample>, sent: seq<Sample>, produced: seq<Sample>,
                  delivered: set<Sample>, dropped: set<Sample>, lost: set<Sample>)
    requires SamplesOk(samples, sent, produced, delivered, dropped, lost)
    ensures SamplesOk(Unsent(samples, sent), [], produced, delivered + SetOf(sent), dropped - SetOf(sent),
            lost + Twins(samples, sent))
  {
    hide RisingTimes, InTimes, Unsent, Numbered, RisingIds;
    TakesOutTheSent(samples, sent);
    UnsentRises(samples, sent);
    if RisingTimes(produced) {
      NoTwins(produced, samples, sent);
    }
  }

  // ---- Outages by start ----

  /** The waiting outages by start, and the starts in the order of their insertion. */
  datatype Line = Line(order: seq<int>, outages: map<int, Change>)

  ghost predicate LineOk(l: Line) {
    && SetOf(l.order) == l.outages.Keys && Distinct(l.order) && |l.order| <= 200
    && forall x :: x in l.outages ==> l.outages[x].start == x
  }

  /** A new version takes the place of the old one; a new outage goes to the end, and the first goes if there are too
      many. */
  function Note(l: Line, o: Change): Line {
    var order := if o.start in l.outages then l.order else l.order + [o.start];
    var outages := l.outages[o.start := o];
    if |order| > MAX_OUTAGES then Line(order[1..], outages - {order[0]}) else Line(order, outages)
  }

  lemma NoteKeeps(l: Line, o: Change)
    requires LineOk(l)
    ensures LineOk(Note(l, o)) && o.start in Note(l, o).outages
  {
    hide Distinct, SetOf;
    var order := if o.start in l.outages then l.order else l.order + [o.start];
    if o.start !in l.outages {
      OrderGrows(l, o.start);
      if |order| > MAX_OUTAGES {
        OrderShrinks(order);
        FirstIsOld(l, o.start);
      }
    }
  }

  lemma OrderGrows(l: Line, x: int)
    requires LineOk(l) && x !in l.outages
    ensures Distinct(l.order + [x]) && SetOf(l.order + [x]) == l.outages.Keys + {x}
  {
    assert x !in SetOf(l.order);
    SetAppend(l.order, x);
  }

  lemma OrderShrinks(order: seq<int>)
    requires Distinct(order) && order != []
    ensures Distinct(order[1..]) && SetOf(order[1..]) == SetOf(order) - {order[0]} && order[0] in SetOf(order)
  {
    SetTail(order);
  }

  lemma FirstIsOld(l: Line, x: int)
    requires LineOk(l) && x !in l.outages && l.order != []
    ensures l.order[0] != x
  {
    assert l.order[0] in SetOf(l.order);
  }

  /** The outages that are not as they were sent. */
  function NotAsSent(cur: map<int, Change>, sent: map<int, Change>): (r: map<int, Change>)
    ensures r.Keys <= cur.Keys
  {
    map x | x in cur && !(x in sent && sent[x] == cur[x]) :: cur[x]
  }

  function Remaining(order: seq<int>, m: map<int, Change>): (r: seq<int>)
  {
    Filter(order, x => x in m)
  }

  lemma RemainingIs(order: seq<int>, m: map<int, Change>)
    requires Distinct(order)
    ensures Distinct(Remaining(order, m)) && |Remaining(order, m)| <= |order|
    ensures SetOf(Remaining(order, m)) == SetOf(order) * m.Keys
  {
    hide Filter, Distinct;
    FilterDistinct(order, x => x in m);
    forall x
      ensures x in Remaining(order, m) <==> x in order && x in m
    {
      FilterMembers(order, y => y in m, x);
    }
  }

  /** What is left after a post with the outages `sent` was acknowledged. */
  function Settled(l: Line, sent: map<int, Change>): Line {
    var m := NotAsSent(l.outages, sent);
    Line(Remaining(l.order, m), m)
  }

  lemma SettledOk(l: Line, sent: map<int, Change>)
    requires LineOk(l)
    ensures LineOk(Settled(l, sent))
  {
    hide Remaining, Distinct;
    RemainingIs(l.order, NotAsSent(l.outages, sent));
  }

  /** The outages after the changes `cs` arrived. */
  function NoteAll(l: Line, cs: seq<Change>): Line {
    if cs == [] then l else Note(NoteAll(l, cs[..|cs| - 1]), cs[|cs| - 1])
  }

  /** The last version of the outage `x` among the changes. */
  function LastVersion(cs: seq<Change>, x: int): Option<Change> {
    if cs == [] then None
    else if cs[|cs| - 1].start == x then Some(cs[|cs| - 1])
    else LastVersion(cs[..|cs| - 1], x)
  }

  lemma {:induction false} NotedIsLast(l: Line, cs: seq<Change>, x: int)
    requires LineOk(l) && x in NoteAll(l, cs).outages
    ensures LineOk(NoteAll(l, cs))
    ensures var v := LastVersion(cs, x);
            if v.Some? then NoteAll(l, cs).outages[x] == v.value
            else x in l.outages && NoteAll(l, cs).outages[x] == l.outages[x]
    decreases |cs|
  {
    hide LineOk;
    if cs != [] {
      var n := |cs| - 1;
      AllNotedOk(l, cs);
      if cs[n].start != x {
        NotedIsLast(l, cs[..n], x);
      }
    }
  }

  lemma {:induction false} AllNotedOk(l: Line, cs: seq<Change>)
    requires LineOk(l)
    ensures LineOk(NoteAll(l, cs))
    decreases |cs|
  {
    hide LineOk, Note;
    if cs != [] {
      AllNotedOk(l, cs[..|cs| - 1]);
      NoteKeeps(NoteAll(l, cs[..|cs| - 1]), cs[|cs| - 1]);
    }
  }

  /** A post takes the outages `l` with it, the changes `cs` arrive while it is on its way, and it
      is acknowledged. Then an outage still waits exactly if it changed meanwhile into something
      else than was sent (and was not given up for lack of room), and it waits in its last version. */
  lemma ChangedInFlight(l: Line, cs: seq<Change>, x: int)
    requires LineOk(l)
    ensures var now, v := NoteAll(l, cs), LastVersion(cs, x);
            var left := Settled(now, l.outages).outages;
            && (x in left <==> x in now.outages && v.Some? && !(x in l.outages && l.outages[x] == v.value))
            && (x in left ==> v.Some? && left[x] == v.value)
  {
    hide LineOk, Note, Remaining;
    if x in NoteAll(l, cs).outages {
      NotedIsLast(l, cs, x);
    }
  }

  /** The last version of every outage waits, was acknowledged, or was given up for lack of room,
      which happens only when there have been more outages than the buffer holds. */
  ghost predicate OutagesOk(l: Line, noted: map<int, Change>, told: set<Change>, forgotten: set<int>) {
    && LineOk(l) && l.outages.Keys <= noted.Keys && forgotten !! l.outages.Keys
    && (forgotten != {} ==> |noted| > 200)
    && forall x :: x in noted ==> Kept(l.outages, x, noted[x], told, forgotten)
  }

  /** The version `v` of the outage `x` waits, was acknowledged or was given up. */
  ghost predicate Kept(outages: map<int, Change>, x: int, v: Change, told: set<Change>, forgotten: set<int>) {
    if x in outages then outages[x] == v else v in told || x in forgotten
  }

  /** The outage that goes for lack of room. */
  ghost function GoneFor(l: Line, o: Change): set<int> {
    l.outages.Keys - Note(l, o).outages.Keys
  }

  /** What a change does to the outages, but for who goes. */
  lemma NoteIs(l: Line, o: Change)
    requires LineOk(l)
    ensures var m := Note(l, o).outages;
            && o.start in m && m[o.start] == o && m.Keys == l.outages.Keys + {o.start} - GoneFor(l, o)
            && forall x :: x in m && x != o.start ==> x in l.outages && m[x] == l.outages[x]
  {
    hide LineOk;
    NoteKeeps(l, o);
  }

  lemma OutageJoins(l: Line, o: Change, noted: map<int, Change>, told: set<Change>, forgotten: set<int>)
    requires OutagesOk(l, noted, told, forgotten)
    ensures OutagesOk(Note(l, o), noted[o.start := o], told, forgotten - {o.start} + GoneFor(l, o))
  {
    hide LineOk, Note, GoneFor, Kept;
    NoteKeeps(l, o);
    OldOnesGo(l, o);
    RoomIsLacking(l, o, noted);
    StillKept(l, o, noted, told, forgotten);
    NoteIs(l, o);
  }

  lemma StillKept(l: Line, o: Change, noted: map<int, Change>, told: set<Change>, forgotten: set<int>)
    requires OutagesOk(l, noted, told, forgotten)
    ensures var more, gone := noted[o.start := o], forgotten - {o.start} + GoneFor(l, o);
            forall x :: x in more ==> Kept(Note(l, o).outages, x, more[x], told, gone)
  {
    hide LineOk, Note, GoneFor;
    NoteIs(l, o);
    var m, more, gone := Note(l, o).outages, noted[o.start := o], forgotten - {o.start} + GoneFor(l, o);
    forall x | x in more
      ensures Kept(m, x, more[x], told, gone)
    {
      if x != o.start {
        assert Kept(l.outages, x, noted[x], told, forgotten);
      }
    }
  }

  lemma OldOnesGo(l: Line, o: Change)
    requires LineOk(l)
    ensures GoneFor(l, o) !! Note(l, o).outages.Keys && o.start !in GoneFor(l, o)
  {
    hide LineOk, Note;
    NoteKeeps(l, o);
  }

  lemma RoomIsLacking(l: Line, o: Change, noted: map<int, Change>)
    requires LineOk(l) && l.outages.Keys <= noted.Keys
    ensures |noted[o.start := o]| >= |noted|
    ensures GoneFor(l, o) != {} ==> |l.order| == 200 && |noted[o.start := o]| > 200
  {
    hide Distinct, SetOf;
    var more := noted[o.start := o];
    FewerKeys(noted.Keys, more.Keys);
    if GoneFor(l, o) != {} {
      OrderGrows(l, o.start);
      SetSize(l.order + [o.start]);
      FewerKeys(l.outages.Keys + {o.start}, more.Keys);
    }
  }

  lemma {:induction false} FewerKeys(a: set<int>, b: set<int>)
    requires a <= b
    ensures |a| <= |b|
  {
    assert b == a + (b - a);
    assert |a + (b - a)| == |a| + |b - a|;
  }

  lemma OutagesGo(l: Line, sent: map<int, Change>, noted: map<int, Change>, told: set<Change>, forgotten: set<int>)
    requires OutagesOk(l, noted, told, forgotten)
    ensures OutagesOk(Settled(l, sent), noted, told + sent.Values, forgotten)
  {
    SettledOk(l, sent);
    hide LineOk, Remaining;
    forall x | x in l.outages && x !in Settled(l, sent).outages
      ensures l.outages[x] in sent.Values
    {
      assert x in sent && sent[x] == l.outages[x];
    }
  }

  // ---- Speed tests ----

  /** The tests that are none of those sent. */
  function Others(ws: seq<Test>, sent: seq<Test>): (r: seq<Test>)
    ensures |r| <= |ws|
  {
    Filter(ws, w => w !in sent)
  }

  lemma OthersAre(ws: seq<Test>, sent: seq<Test>, w: Test)
    ensures w in Others(ws, sent) <==> w in ws && w !in sent
  {
    FilterMembers(ws, x => x !in sent, w);
  }

  predicate MadeBefore(ws: seq<Test>, n: nat) {
    forall k :: 0 <= k < |ws| ==> ws[k].id < n
  }

  // ---- The buffer ----

  datatype Post = Post(samples: seq<Sample>, outages: map<int, Change>, tests: seq<Test>)

  class Buffer {
    var samples: seq<Sample>
    var outages: map<int, Change>
    var order: seq<int>
    var tests: seq<Test>
    /** How many samples and speed tests have been made. */
    var made: nat
    var tested: nat
    /** The post on its way. */
    var post: Option<Post>

    /** Every sample ever added, and what became of those that do not wait. */
    ghost var produced: seq<Sample>
    ghost var delivered: set<Sample>
    ghost var dropped: set<Sample>
    ghost var lost: set<Sample>
    /** The last version of every outage, the versions acknowledged, and the outages given up. */
    ghost var noted: map<int, Change>
    ghost var told: set<Change>
    ghost var forgotten: set<int>

    ghost predicate Valid()
      reads this
    {
      && made == |produced|
      && SamplesOk(samples, if post.Some? then post.value.samples else [], produced, delivered, dropped, lost)
      && OutagesOk(Line(order, outages), noted, told, forgotten)
      && |tests| <= 50 && MadeBefore(tests, tested) && (post.Some? ==> MadeBefore(post.value.tests, tested))
    }

    ghost predicate Empty()
      reads this
    {
      && samples == [] && outages == map[] && tests == [] && post.None? && produced == [] && noted == map[]
      && delivered == {} && dropped == {} && lost == {} && told == {} && forgotten == {}
    }

    constructor ()
      ensures Valid() && Empty() && fresh(this)
    {
      samples, outages, order, tests, post := [], map[], [], [], None;
      made, tested := 0, 0;
      produced, delivered, dropped, lost := [], {}, {}, {};
      noted, told, forgotten := map[], {}, {};
    }

    /** _addSample: the oldest sample goes when there are too many. */
    method AddSample(b: Bucket)
      requires Valid()
      modifies this`samples, this`made, this`produced, this`dropped
      ensures Valid() && produced == old(produced) + [Sample(|old(produced)|, b)]
      ensures var all := old(samples) + [Sample(|old(produced)|, b)];
              if |all| > 2016 then samples == all[1..] && dropped == old(dropped) + {all[0]}
              else samples == all && dropped == old(dropped)
    {
      hide SamplesOk, OutagesOk, MadeBefore;
      SampleJoins(samples, if post.Some? then post.value.samples else [], produced, b, delivered, dropped, lost);
      var s := Sample(made, b);
      samples := samples + [s];
      produced := produced + [s];
      made := made + 1;
      if |samples| > MAX_SAMPLES {
        dropped := dropped + {samples[0]};
        samples := samples[1..];
      }
    }

    /** _addOutage: a newer version of an outage replaces the older one in place. */
    method AddOutage(o: Change)
      requires Valid()
      modifies this`outages, this`order, this`noted, this`forgotten
      ensures Valid() && Line(order, outages) == Note(Line(old(order), old(outages)), o)
      ensures noted == old(noted)[o.start := o] && o.start in outages
      ensures forgotten == old(forgotten) - {o.start} + GoneFor(Line(old(order), old(outages)), o)
      ensures |old(order)| < 200 ==> forgotten == old(forgotten) - {o.start}
    {
      hide SamplesOk, OutagesOk, MadeBefore, LineOk;
      ghost var l := Line(order, outages);
      OutageJoins(l, o, noted, told, forgotten);
      LineOf(l, o, noted, told, forgotten);
      assert |order| < MAX_OUTAGES ==> GoneFor(l, o) == {};
      noted := noted[o.start := o];
      forgotten := forgotten - {o.start} + GoneFor(l, o);
      if o.start !in outages {
        order := order + [o.start];
      }
      outages := outages[o.start := o];
      if |order| > MAX_OUTAGES {
        outages := outages - {order[0]};
        order := order[1..];
      }
    }

    method AddTest(w: Speedtest)
      requires Valid()
      modifies this`tests, this`tested
      ensures Valid() && tested == old(tested) + 1
      ensures tests == (old(tests) + [Test(old(tested), w)])[if |old(tests)| == 50 then 1 else 0..]
    {
      hide SamplesOk, OutagesOk;
      tests := tests + [Test(tested, w)];
      tested := tested + 1;
      if |tests| > MAX_TESTS {
        tests := tests[1..];
      }
    }

    /** report up to its post. */
    method Begin() returns (p: Post)
      requires Valid() && post.None?
      modifies this`post
      ensures Valid() && post == Some(p)
      ensures p.samples == samples[..if |samples| < 600 then |samples| else 600]
      ensures p.outages == outages && p.tests == tests
    {
      hide OutagesOk;
      var n := if |samples| < PER_REPORT then |samples| else PER_REPORT;
      p := Post(samples[..n], outages, tests);
      post := Some(p);
      assert forall s :: s in samples[..n] ==> s in samples;
    }

    /** report after its post: only what the post held goes, and only if it was acknowledged; a
        waiting sample with the time of a sent one goes too. */
    method Answered(ok: bool)
      requires Valid() && post.Some?
      modifies this
      ensures Valid() && post.None? && produced == old(produced) && noted == old(noted) && tested == old(tested)
              && forgotten == old(forgotten)
      ensures !ok ==> samples == old(samples) && order == old(order) && outages == old(outages) && tests == old(tests)
                      && delivered == old(delivered) && dropped == old(dropped) && lost == old(lost)
                         && told == old(told)
      ensures ok ==>
                var p := old(post).value;
                && samples == Unsent(old(samples), p.samples) && delivered == old(delivered) + SetOf(p.samples)
                && dropped == old(dropped) - SetOf(p.samples) && lost == old(lost) + Twins(old(samples), p.samples)
                && Line(order, outages) == Settled(Line(old(order), old(outages)), p.outages)
                   && told == old(told) + p.outages.Values
                && tests == Others(old(tests), p.tests)
    {
      hide SamplesOk, OutagesOk, Unsent, Settled, Others, Twins, SetOf, MadeBefore;
      var p := post.value;
      post := None;
      if !ok {
        NoneSent(samples, p.samples, produced, delivered, dropped, lost);
        return;
      }
      TakeSamples(p.samples);
      TakeOutages(p.outages);
      StillMade(tests, p.tests, tested);
      tests := Others(tests, p.tests);
    }

    method TakeSamples(sent: seq<Sample>)
      requires SamplesOk(samples, sent, produced, delivered, dropped, lost)
      modifies this`samples, this`delivered, this`dropped, this`lost
      ensures SamplesOk(samples, [], produced, delivered, dropped, lost)
      ensures samples == Unsent(old(samples), sent) && delivered == old(delivered) + SetOf(sent)
      ensures dropped == old(dropped) - SetOf(sent) && lost == old(lost) + Twins(old(samples), sent)
    {
      hide SamplesOk, Unsent, Twins, SetOf;
      SamplesGo(samples, sent, produced, delivered, dropped, lost);
      lost := lost + Twins(samples, sent);
      samples := Unsent(samples, sent);
      delivered := delivered + SetOf(sent);
      dropped := dropped - SetOf(sent);
    }

    method TakeOutages(sent: map<int, Change>)
      requires OutagesOk(Line(order, outages), noted, told, forgotten)
      modifies this`outages, this`order, this`told
      ensures OutagesOk(Line(order, outages), noted, told, forgotten)
      ensures Line(order, outages) == Settled(Line(old(order), old(outages)), sent) && told == old(told) + sent.Values
    {
      hide OutagesOk, Remaining, NotAsSent;
      OutagesGo(Line(order, outages), sent, noted, told, forgotten);
      outages := NotAsSent(outages, sent);
      order := Remaining(order, outages);
      told := told + sent.Values;
    }
  }

  lemma LineOf(l: Line, o: Change, noted: map<int, Change>, told: set<Change>, forgotten: set<int>)
    requires OutagesOk(l, noted, told, forgotten)
    ensures o.start in Note(l, o).outages
  {
    NoteKeeps(l, o);
  }

  lemma NoneSent(samples: seq<Sample>, sent: seq<Sample>, produced: seq<Sample>,
                 delivered: set<Sample>, dropped: set<Sample>, lost: set<Sample>)
    requires SamplesOk(samples, sent, produced, delivered, dropped, lost)
    ensures SamplesOk(samples, [], produced, delivered, dropped, lost)
  {
  }

  lemma StillMade(ws: seq<Test>, sent: seq<Test>, n: nat)
    requires MadeBefore(ws, n)
    ensures MadeBefore(Others(ws, sent), n) && |Others(ws, sent)| <= |ws|
  {
    hide Others;
    var r := Others(ws, sent);
    forall k | 0 <= k < |r|
      ensures r[k].id < n
    {
      OthersAre(ws, sent, r[k]);
      var j :| 0 <= j < |ws| && ws[j] == r[k];
    }
  }
}
