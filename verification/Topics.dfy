/** MQTT topics and filters (src/edge/topics.js; section 4.7 of MQTT 3.1.1):
    which filters are valid, which topics a filter matches, and the decision
    procedure `covers` for inclusion of one filter in another. */
module Topics {
  import opened Splitting

  const MAX_LEN := 256

  function Levels(s: string): (r: seq<string>)
    ensures |r| >= 1
  {
    Split(s, '/')
  }

  predicate IsWild(l: string) {
    l == "#" || l == "+"
  }

  predicate ValidLevels(f: seq<string>) {
    forall i :: 0 <= i < |f| ==>
                  && (f[i] == "#" ==> i == |f| - 1)
                  && (!IsWild(f[i]) ==> '#' !in f[i] && '+' !in f[i])
  }

  predicate ValidFilter(f: string) {
    && 0 < |f| <= MAX_LEN
    && '\0' !in f && '\r' !in f && '\n' !in f
    && ValidLevels(Levels(f))
  }

  predicate ValidTopic(t: string) {
    && 0 < |t| <= MAX_LEN
    && '\0' !in t && '\r' !in t && '\n' !in t && '#' !in t && '+' !in t
  }

  predicate StartsWith(s: string, c: char) {
    |s| > 0 && s[0] == c
  }

  predicate ValidPluginFilter(f: string) {
    ValidFilter(f) && !StartsWith(f, '#') && !StartsWith(f, '+') && !StartsWith(f, '$')
  }

  predicate MatchFrom(f: seq<string>, t: seq<string>, i: nat)
    requires i <= |f|
    decreases |f| - i
  {
    if i == |f| then |f| == |t|
    else if f[i] == "#" then true
    else if i >= |t| then false
    else if f[i] != "+" && f[i] != t[i] then false
    else MatchFrom(f, t, i + 1)
  }

  predicate Matches(filter: string, topic: string) {
    var f, t := Levels(filter), Levels(topic);
    !(StartsWith(topic, '$') && IsWild(f[0])) && MatchFrom(f, t, 0)
  }

  predicate CoverFrom(o: seq<string>, n: seq<string>, i: nat)
    requires i <= |o|
    decreases |o| - i
  {
    if i == |o| then |o| == |n|
    else if o[i] == "#" then true
    else if i >= |n| then false
    else if n[i] == "#" then false
    else if o[i] == "+" then CoverFrom(o, n, i + 1)
    else if n[i] == "+" || n[i] != o[i] then false
    else CoverFrom(o, n, i + 1)
  }

  predicate Covers(outer: string, inner: string) {
    CoverFrom(Levels(outer), Levels(inner), 0)
  }

  // ---- What the level loops decide ----

  predicate HasHash(f: seq<string>) {
    |f| > 0 && f[|f| - 1] == "#"
  }

  /** The levels before a final '#'. */
  function Plain(f: seq<string>): (k: nat)
    ensures k <= |f|
  {
    if HasHash(f) then |f| - 1 else |f|
  }

  predicate LevelsMatch(f: seq<string>, t: seq<string>) {
    && (if HasHash(f) then |t| >= Plain(f) else |t| == |f|)
    && forall i :: 0 <= i < Plain(f) ==> f[i] == "+" || f[i] == t[i]
  }

  predicate LevelCovers(o: string, n: string) {
    n != "#" && (o == "+" || (n != "+" && n == o))
  }

  predicate LevelsCover(o: seq<string>, n: seq<string>) {
    && (if HasHash(o) then |n| >= Plain(o) else |n| == |o|)
    && forall i :: 0 <= i < Plain(o) ==> LevelCovers(o[i], n[i])
  }

  lemma {:induction false} MatchFromIs(f: seq<string>, t: seq<string>, i: nat)
    requires ValidLevels(f) && i <= |f| && i <= |t|
    requires forall j :: 0 <= j < i ==> f[j] != "#" && (f[j] == "+" || f[j] == t[j])
    ensures MatchFrom(f, t, i) == LevelsMatch(f, t)
    decreases |f| - i
  {
    if i == |f| {
      assert i > 0 ==> f[i - 1] != "#";
    } else if f[i] == "#" {
      assert i == |f| - 1;
    } else if i < |t| && (f[i] == "+" || f[i] == t[i]) {
      MatchFromIs(f, t, i + 1);
    } else {
      assert i < Plain(f);
    }
  }

  lemma {:induction false} CoverFromIs(o: seq<string>, n: seq<string>, i: nat)
    requires ValidLevels(o) && i <= |o| && i <= |n|
    requires forall j :: 0 <= j < i ==> o[j] != "#" && LevelCovers(o[j], n[j])
    ensures CoverFrom(o, n, i) == LevelsCover(o, n)
    decreases |o| - i
  {
    if i == |o| {
      assert i > 0 ==> o[i - 1] != "#";
    } else if o[i] == "#" {
      assert i == |o| - 1;
    } else if i < |n| && LevelCovers(o[i], n[i]) {
      CoverFromIs(o, n, i + 1);
    } else {
      assert i < Plain(o);
      assert i < |n| ==> !LevelCovers(o[i], n[i]);
    }
  }

  lemma MatchesIs(filter: string, topic: string)
    requires ValidFilter(filter)
    ensures Matches(filter, topic) <==>
            && !(StartsWith(topic, '$') && IsWild(Levels(filter)[0]))
            && LevelsMatch(Levels(filter), Levels(topic))
  {
    MatchFromIs(Levels(filter), Levels(topic), 0);
  }

  lemma CoversIs(outer: string, inner: string)
    requires ValidFilter(outer)
    ensures Covers(outer, inner) <==> LevelsCover(Levels(outer), Levels(inner))
  {
    CoverFromIs(Levels(outer), Levels(inner), 0);
  }

  lemma CoverImpliesMatch(o: seq<string>, n: seq<string>, t: seq<string>)
    requires ValidLevels(n) && LevelsCover(o, n) && LevelsMatch(n, t)
    ensures LevelsMatch(o, t)
  {
    forall i | 0 <= i < Plain(o)
      ensures i < |t| && (o[i] == "+" || o[i] == t[i])
    {
      assert LevelCovers(o[i], n[i]);
      assert n[i] != "#" && i < Plain(n);
    }
    if HasHash(o) && Plain(o) > 0 {
      assert LevelCovers(o[Plain(o) - 1], n[Plain(o) - 1]);
    }
    if !HasHash(o) && |o| > 0 {
      assert LevelCovers(o[|o| - 1], n[|o| - 1]);
    }
  }

  // ---- Topics made from a filter ----

  /** The levels of a filter with every wildcard replaced by the level `x`. */
  function Filled(n: seq<string>, x: string): (t: seq<string>)
    ensures |t| == |n|
  {
    seq(|n|, i requires 0 <= i < |n| => if IsWild(n[i]) then x else n[i])
  }

  predicate Filler(x: string) {
    x == "a" || x == "b"
  }

  /** A level that no wildcard, separator or refused character is part of. */
  predicate PlainLevel(l: string) {
    && '#' !in l && '+' !in l && '/' !in l && '\0' !in l && '\r' !in l && '\n' !in l
  }

  lemma LevelOf(f: string, i: nat)
    requires ValidFilter(f) && i < |Levels(f)| && !IsWild(Levels(f)[i])
    ensures PlainLevel(Levels(f)[i])
  {
    var l := Levels(f)[i];
    SplitFree(f, '/');
    JoinSplit(f, '/');
    forall c | c in l
      ensures c in f
    {
      PartMembers(Levels(f), '/', i, c);
    }
  }

  lemma FilledPlain(f: string, x: string)
    requires ValidFilter(f) && Filler(x)
    ensures forall i :: 0 <= i < |Levels(f)| ==> PlainLevel(Filled(Levels(f), x)[i])
  {
    forall i | 0 <= i < |Levels(f)|
      ensures PlainLevel(Filled(Levels(f), x)[i])
    {
      if !IsWild(Levels(f)[i]) {
        LevelOf(f, i);
      }
    }
  }

  /** Plain levels joined to a non-empty string that is not too long are a topic with these levels. */
  lemma TopicOf(t: seq<string>)
    requires |t| >= 1 && forall i :: 0 <= i < |t| ==> PlainLevel(t[i])
    requires 0 < |Join(t, '/')| <= MAX_LEN
    ensures ValidTopic(Join(t, '/')) && Levels(Join(t, '/')) == t
  {
    var s := Join(t, '/');
    SplitJoin(t, '/');
    forall c | c in s
      ensures c != '\0' && c != '\r' && c != '\n' && c != '#' && c != '+'
    {
      JoinMembers(t, '/', c);
    }
  }

  lemma FilledTopic(f: string, x: string)
    requires ValidFilter(f) && Filler(x)
    ensures var t := Filled(Levels(f), x);
            ValidTopic(Join(t, '/')) && Levels(Join(t, '/')) == t && Matches(f, Join(t, '/'))
  {
    hide Split, Join, PlainLevel, ValidTopic, Matches;
    var t := Filled(Levels(f), x);
    JoinSplit(f, '/');
    JoinLength(t, Levels(f), '/');
    FilledPlain(f, x);
    TopicOf(t);
    FilledMatches(f, x);
  }

  lemma FilledMatches(f: string, x: string)
    requires ValidFilter(f) && Filler(x) && Levels(Join(Filled(Levels(f), x), '/')) == Filled(Levels(f), x)
    ensures Matches(f, Join(Filled(Levels(f), x), '/'))
  {
    hide Split, Join, Matches;
    var t := Filled(Levels(f), x);
    MatchesIs(f, Join(t, '/'));
    JoinFirst(t, '/');
  }

  // ---- Inclusion ----

  /** Every topic that `inner` matches, `outer` matches too. */
  ghost predicate Included(outer: string, inner: string) {
    forall t :: ValidTopic(t) && Matches(inner, t) ==> Matches(outer, t)
  }

  predicate LeadsWild(f: string) {
    IsWild(Levels(f)[0])
  }

  /** The pairs that differ only on the empty topic, which is no valid topic. */
  predicate OnlyEmptyTopic(outer: string, inner: string) {
    || (inner == "#" && outer == "+/#")
    || (inner == "/#" && (outer == "/+/#" || outer == "+/+/#"))
  }

  lemma StartsAsLevel(s: string, c: char)
    requires c != '/'
    ensures StartsWith(s, c) <==> StartsWith(Levels(s)[0], c)
  {
    JoinSplit(s, '/');
    JoinFirst(Levels(s), '/');
  }

  lemma CoversSound(outer: string, inner: string, t: string)
    requires ValidFilter(outer) && ValidFilter(inner) && Covers(outer, inner)
    requires !(LeadsWild(outer) && StartsWith(inner, '$')) && Matches(inner, t)
    ensures Matches(outer, t)
  {
    hide Split, Join, Matches, Covers;
    var o, n := Levels(outer), Levels(inner);
    CoversIs(outer, inner);
    MatchesIs(inner, t);
    MatchesIs(outer, t);
    CoverImpliesMatch(o, n, Levels(t));
    StartsAsLevel(t, '$');
    StartsAsLevel(inner, '$');
  }

  /** A topic that shows the inclusion to fail. */
  predicate Refutes(t: string, outer: string, inner: string) {
    ValidTopic(t) && Matches(inner, t) && !Matches(outer, t)
  }

  lemma RefutesByLevels(outer: string, inner: string, x: string)
    requires ValidFilter(outer) && ValidFilter(inner) && Filler(x)
    requires !LevelsMatch(Levels(outer), Filled(Levels(inner), x))
    ensures Refutes(Join(Filled(Levels(inner), x), '/'), outer, inner)
  {
    hide Split, Join, Matches, ValidTopic;
    FilledTopic(inner, x);
    MatchesIs(outer, Join(Filled(Levels(inner), x), '/'));
  }

  /** The levels before a final '#' of a filter, filled, then the levels `more`. */
  lemma RefutesBeforeHash(outer: string, inner: string, x: string, more: seq<string>)
    requires ValidFilter(outer) && ValidFilter(inner) && Filler(x) && HasHash(Levels(inner))
    requires forall i :: 0 <= i < |more| ==> more[i] == x
    requires var t := Filled(Levels(inner)[..|Levels(inner)| - 1], x) + more;
             && |t| >= 1 && 0 < |Join(t, '/')| <= MAX_LEN && !LevelsMatch(Levels(outer), t)
    ensures Refutes(Join(Filled(Levels(inner)[..|Levels(inner)| - 1], x) + more, '/'), outer, inner)
  {
    hide Split, Join, Matches, ValidTopic, PlainLevel;
    var n := Levels(inner);
    var h := |n| - 1;
    var t := Filled(n[..h], x) + more;
    FilledPlain(inner, x);
    FillerPlain(x);
    forall i | 0 <= i < |t|
      ensures PlainLevel(t[i])
    {
      if i < h {
        assert t[i] == Filled(n, x)[i];
      }
    }
    TopicOf(t);
    MatchesIs(inner, Join(t, '/'));
    MatchesIs(outer, Join(t, '/'));
    JoinFirst(t, '/');
    assert IsWild(n[0]) ==> t[0] == x;
  }

  lemma FillerPlain(x: string)
    requires Filler(x)
    ensures PlainLevel(x)
  {
  }

  function Other(l: string): (x: string)
    ensures Filler(x) && x != l
  {
    if l == "a" then "b" else "a"
  }

  lemma Witness(outer: string, inner: string) returns (t: string)
    requires ValidFilter(outer) && ValidFilter(inner)
    requires !Covers(outer, inner) && !OnlyEmptyTopic(outer, inner)
    ensures Refutes(t, outer, inner)
  {
    hide Split, Join, Matches, ValidTopic, PlainLevel, Refutes;
    var o, n := Levels(outer), Levels(inner);
    CoversIs(outer, inner);
    if (!HasHash(o) && |n| != |o|) || (HasHash(o) && |n| < Plain(o)) {
      RefutesByLevels(outer, inner, "a");
      return Join(Filled(n, "a"), '/');
    } else if i :| 0 <= i < Plain(o) && n[i] != "#" && !LevelCovers(o[i], n[i]) {
      var x := Other(o[i]);
      assert Filled(n, x)[i] != o[i];
      RefutesByLevels(outer, inner, x);
      return Join(Filled(n, x), '/');
    } else {
      t := HashWitness(outer, inner);
    }
  }

  /** The inner filter ends in '#' at a level where the outer one does not. */
  lemma HashWitness(outer: string, inner: string) returns (t: string)
    requires ValidFilter(outer) && ValidFilter(inner) && !OnlyEmptyTopic(outer, inner)
    requires var o, n := Levels(outer), Levels(inner);
             && HasHash(n) && |n| - 1 < Plain(o) && (!HasHash(o) ==> |o| == |n|)
             && forall i :: 0 <= i < |n| - 1 ==> LevelCovers(o[i], n[i])
    ensures Refutes(t, outer, inner)
  {
    hide Split, Matches, ValidTopic, PlainLevel, Refutes, Join;
    var o, n := Levels(outer), Levels(inner);
    var h := |n| - 1;
    if h >= 2 || (h == 1 && n[0] != "") {
      ShortTopic(inner, "a");
      RefutesBeforeHash(outer, inner, "a", []);
      return Join(Filled(n[..h], "a") + [], '/');
    }
    var x := Other(o[h]);
    TinyTopic(inner, x);
    if o[h] != "+" || (HasHash(o) && Plain(o) > h + 1) {
      RefutesBeforeHash(outer, inner, x, [x]);
      return Join(Filled(n[..h], x) + [x], '/');
    }
    if !HasHash(o) {
      RefutesBeforeHash(outer, inner, x, [x, x]);
      return Join(Filled(n[..h], x) + [x, x], '/');
    }
    NoOtherPair(outer, inner);
    assert false;
  }

  lemma ShortTopic(inner: string, x: string)
    requires ValidFilter(inner) && Filler(x) && HasHash(Levels(inner))
    requires |Levels(inner)| >= 3 || (|Levels(inner)| == 2 && Levels(inner)[0] != "")
    ensures var t := Filled(Levels(inner)[..|Levels(inner)| - 1], x) + [];
            |t| >= 1 && 0 < |Join(t, '/')| <= MAX_LEN
  {
    hide Split;
    var n := Levels(inner);
    var h := |n| - 1;
    var t := Filled(n[..h], x);
    assert t + [] == t;
    JoinSplit(inner, '/');
    JoinLength(t, n[..h], '/');
    JoinFirst(t, '/');
  }

  lemma TinyTopic(inner: string, x: string)
    requires Filler(x) && HasHash(Levels(inner))
    requires |Levels(inner)| == 1 || (|Levels(inner)| == 2 && Levels(inner)[0] == "")
    ensures var t := Filled(Levels(inner)[..|Levels(inner)| - 1], x);
            && 0 < |Join(t + [x], '/')| <= MAX_LEN && 0 < |Join(t + [x, x], '/')| <= MAX_LEN
  {
    hide Split;
    var t := Filled(Levels(inner)[..|Levels(inner)| - 1], x);
    if t == [] {
      assert t + [x] == [x] && t + [x, x] == [x, x];
      assert [x, x][..1] == [x];
    } else {
      assert t == [""];
      assert t + [x] == ["", x] && t + [x, x] == ["", x, x];
      assert ["", x][..1] == [""] && ["", x, x][..2] == ["", x];
    }
  }

  lemma NoOtherPair(outer: string, inner: string)
    requires ValidFilter(outer) && ValidFilter(inner)
    requires var o, n := Levels(outer), Levels(inner);
             && HasHash(n) && HasHash(o) && |o| == |n| + 1 && o[|n| - 1] == "+"
             && (|n| == 1 || (|n| == 2 && n[0] == "" && LevelCovers(o[0], n[0])))
    ensures OnlyEmptyTopic(outer, inner)
  {
    hide Split;
    var o, n := Levels(outer), Levels(inner);
    JoinSplit(outer, '/');
    JoinSplit(inner, '/');
    if |n| == 1 {
      assert n == ["#"] && o == ["+", "#"] && o[..1] == ["+"];
    } else {
      assert n == ["", "#"] && n[..1] == [""];
      assert o == [o[0], "+", "#"] && o[..2] == [o[0], "+"] && o[..2][..1] == [o[0]];
      assert Join([o[0]], '/') == o[0];
      assert Join(o[..2], '/') == o[0] + "/" + "+";
      assert Join(o, '/') == o[0] + "/" + "+" + "/" + "#";
      assert o[0] == "+" || o[0] == "";
    }
  }

  /** `covers` decides inclusion, for all valid filters, up to '$' topics under
      a leading wildcard and to the pairs that differ only on the empty topic. */
  lemma CoversExact(outer: string, inner: string)
    requires ValidFilter(outer) && ValidFilter(inner)
    ensures Included(outer, inner) <==>
            || (Covers(outer, inner) && !(LeadsWild(outer) && StartsWith(inner, '$')))
            || OnlyEmptyTopic(outer, inner)
  {
    hide Split, Join, Matches, ValidTopic, Covers, OnlyEmptyTopic;
    if OnlyEmptyTopic(outer, inner) {
      EmptyTopicPairs(outer, inner);
    } else if !Covers(outer, inner) {
      var t := Witness(outer, inner);
      assert Refutes(t, outer, inner);
    } else if LeadsWild(outer) && StartsWith(inner, '$') {
      DollarRefutes(outer, inner);
    } else {
      forall t | ValidTopic(t) && Matches(inner, t)
        ensures Matches(outer, t)
      {
        CoversSound(outer, inner, t);
      }
    }
  }

  lemma DollarRefutes(outer: string, inner: string)
    requires ValidFilter(outer) && ValidFilter(inner) && LeadsWild(outer) && StartsWith(inner, '$')
    ensures !Included(outer, inner)
  {
    hide Split, Join, Matches, ValidTopic;
    var t := Filled(Levels(inner), "a");
    FilledTopic(inner, "a");
    StartsAsLevel(inner, '$');
    StartsAsLevel(Join(t, '/'), '$');
    MatchesIs(outer, Join(t, '/'));
  }

  lemma EmptyTopicPairs(outer: string, inner: string)
    requires ValidFilter(outer) && ValidFilter(inner) && OnlyEmptyTopic(outer, inner)
    ensures Included(outer, inner)
  {
    forall t | ValidTopic(t) && Matches(inner, t)
      ensures Matches(outer, t)
    {
      EmptyTopicPair(outer, inner, t);
    }
  }

  lemma EmptyTopicPair(outer: string, inner: string, t: string)
    requires OnlyEmptyTopic(outer, inner) && ValidFilter(outer) && ValidFilter(inner)
    requires ValidTopic(t) && Matches(inner, t)
    ensures Matches(outer, t)
  {
    hide Split, Join, Matches, ValidFilter;
    var l := Levels(t);
    MatchesIs(outer, t);
    MatchesIs(inner, t);
    JoinSplit(t, '/');
    JoinFirst(l, '/');
    PairLevels();
  }

  lemma PairLevels()
    ensures Levels("#") == ["#"] && Levels("+/#") == ["+", "#"] && Levels("/#") == ["", "#"]
    ensures Levels("/+/#") == ["", "+", "#"] && Levels("+/+/#") == ["+", "+", "#"]
  {
    hide Split;
    LevelsAre(["#"], "#");
    assert ["+", "#"][..1] == ["+"];
    LevelsAre(["+", "#"], "+/#");
    assert ["", "#"][..1] == [""];
    LevelsAre(["", "#"], "/#");
    assert ["", "+", "#"][..2] == ["", "+"] && ["", "+"][..1] == [""];
    LevelsAre(["", "+", "#"], "/+/#");
    assert ["+", "+", "#"][..2] == ["+", "+"] && ["+", "+"][..1] == ["+"];
    LevelsAre(["+", "+", "#"], "+/+/#");
  }

  lemma LevelsAre(l: seq<string>, s: string)
    requires |l| >= 1 && Join(l, '/') == s && forall k :: 0 <= k < |l| ==> '/' !in l[k]
    ensures Levels(s) == l
  {
    SplitJoin(l, '/');
  }

  /** The plugin rules exclude leading wildcards and '$': there `covers` is
      inclusion itself, but for one pair that differs on the empty topic only. */
  lemma CoversExactForPlugins(outer: string, inner: string)
    requires ValidPluginFilter(outer) && ValidPluginFilter(inner)
    ensures Included(outer, inner) <==> Covers(outer, inner) || (inner == "/#" && outer == "/+/#")
  {
    hide Split, Join, Matches, ValidTopic, Covers, ValidFilter;
    CoversExact(outer, inner);
  }

  /** A pair of plugin filters that is an inclusion although the procedure denies it. */
  lemma DeniedForPlugins()
    ensures ValidPluginFilter("/#") && ValidPluginFilter("/+/#") && Included("/+/#", "/#") && !Covers("/+/#", "/#")
  {
    hide Split, Matches, ValidTopic;
    PairLevels();
    EmptyTopicPairs("/+/#", "/#");
  }

  /** And another pair of valid filters. */
  lemma DeniedInclusion()
    ensures ValidFilter("#") && ValidFilter("+/#") && Included("+/#", "#") && !Covers("+/#", "#")
  {
    hide Split, Matches, ValidTopic;
    PairLevels();
    EmptyTopicPairs("+/#", "#");
  }

  lemma CoversReflexive(f: string)
    requires ValidFilter(f)
    ensures Covers(f, f)
  {
    CoversIs(f, f);
  }

  lemma CoversTransitive(a: string, b: string, c: string)
    requires ValidFilter(a) && ValidFilter(b) && Covers(a, b) && Covers(b, c)
    ensures Covers(a, c)
  {
    hide Split, Covers;
    var x, y, z := Levels(a), Levels(b), Levels(c);
    CoversIs(a, b);
    CoversIs(b, c);
    CoversIs(a, c);
    forall i | 0 <= i < Plain(x)
      ensures i < |z| && LevelCovers(x[i], z[i])
    {
      assert LevelCovers(x[i], y[i]);
      assert i < Plain(y) && LevelCovers(y[i], z[i]);
    }
    if Plain(x) > 0 {
      assert LevelCovers(x[Plain(x) - 1], y[Plain(x) - 1]);
    }
  }

  /** With a leading wildcard the procedure accepts a pair that is no inclusion. */
  lemma LeadingWildcardFails()
    ensures ValidFilter("#") && ValidFilter("$a") && Covers("#", "$a")
    ensures !Included("#", "$a")
  {
    LevelsAre(["#"], "#");
    LevelsAre(["$a"], "$a");
    DollarRefutes("#", "$a");
  }
}
