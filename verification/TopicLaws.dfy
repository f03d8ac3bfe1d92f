/** What MQTT filters mean on their characters (section 4.7.1 of MQTT 3.1.1, src/edge/topics.js):
    where a wildcard may stand, and which topics the usual filters match. */
module TopicLaws {
  import opened Splitting
  import opened Topics

  // ---- Levels of joined texts ----

  lemma LevelsBehind(p: string, l: string)
    requires '/' !in l
    ensures Levels(p + "/" + l) == Levels(p) + [l]
  {
    hide Split;
    SplitSep(p, '/');
    SplitAppend(p + ['/'], l, '/');
    var r := Levels(p) + [""];
    assert r[..|r| - 1] == Levels(p) && "" + l == l;
  }

  lemma SameLevels(a: string, b: string)
    ensures Levels(a) == Levels(b) <==> a == b
  {
    hide Split, Join;
    JoinSplit(a, '/');
    JoinSplit(b, '/');
  }

  // ---- Filters without and with wildcards ----

  lemma TopicLevels(p: string)
    requires ValidTopic(p)
    ensures ValidFilter(p) && !HasHash(Levels(p)) && !IsWild(Levels(p)[0])
    ensures forall k :: 0 <= k < |Levels(p)| ==> Levels(p)[k] != "+" && Levels(p)[k] != "#"
  {
    hide Split, Join;
    JoinSplit(p, '/');
    var ls := Levels(p);
    forall k | 0 <= k < |ls|
      ensures '#' !in ls[k] && '+' !in ls[k]
    {
      if '#' in ls[k] {
        PartMembers(ls, '/', k, '#');
      }
      if '+' in ls[k] {
        PartMembers(ls, '/', k, '+');
      }
    }
    assert forall k :: 0 <= k < |ls| ==> ls[k] != "+" && ls[k] != "#" by {
      assert '+' in "+" && '#' in "#";
    }
  }

  /** A filter without wildcards matches itself alone. */
  lemma PlainFilter(p: string, t: string)
    requires ValidTopic(p)
    ensures Matches(p, t) <==> t == p
  {
    hide Split, Join;
    TopicLevels(p);
    MatchesIs(p, t);
    SameLevels(p, t);
    if LevelsMatch(Levels(p), Levels(t)) {
      assert Levels(p) == Levels(t);
    }
  }

  /** No plugin can subscribe to a topic of the broker's own. */
  lemma NoDollarForPlugins(f: string, t: string)
    requires ValidPluginFilter(f) && t != "" && t[0] == '$'
    ensures !Matches(f, t)
  {
    hide Split, Join;
    MatchesIs(f, t);
    StartsAsLevel(f, '$');
    StartsAsLevel(f, '#');
    StartsAsLevel(f, '+');
    StartsAsLevel(t, '$');
  }

  lemma WildValid(p: string, w: string)
    requires ValidTopic(p) && |p| <= 254 && w in {"#", "+"}
    ensures ValidFilter(p + "/" + w) && Levels(p + "/" + w) == Levels(p) + [w]
  {
    hide Split, Join;
    TopicLevels(p);
    LevelsBehind(p, w);
    var ls := Levels(p) + [w];
    assert forall k :: 0 <= k < |Levels(p)| ==> ls[k] == Levels(p)[k];
    assert ls[|Levels(p)|] == w;
  }

  /** The levels of `t` start with those of `p`, and more follow. */
  lemma DeeperIs(p: string, t: string)
    ensures |Levels(t)| > |Levels(p)| && Levels(t)[..|Levels(p)|] == Levels(p) <==>
            |t| > |p| && t[..|p| + 1] == p + "/"
    ensures |t| > |p| && t[..|p| + 1] == p + "/" ==> Levels(t) == Levels(p) + Levels(t[|p| + 1..])
  {
    hide Split, Join;
    var lp, lt := Levels(p), Levels(t);
    if |lt| > |lp| && lt[..|lp|] == lp {
      assert lt == lp + lt[|lp|..];
      JoinConcat(lp, lt[|lp|..], '/');
      JoinSplit(p, '/');
      JoinSplit(t, '/');
      assert t == p + "/" + Join(lt[|lp|..], '/');
    }
    if |t| > |p| && t[..|p| + 1] == p + "/" {
      var rest := t[|p| + 1..];
      assert t == p + ['/'] + rest;
      SplitConcat(p, rest, '/');
    }
  }

  /** 'p/#' matches p and everything under it. */
  lemma Subtree(p: string, t: string)
    requires ValidTopic(p) && |p| <= 254
    ensures Matches(p + "/#", t) <==> t == p || (|t| > |p| && t[..|p| + 1] == p + "/")
  {
    hide Split, Join, Matches, ValidTopic;
    assert p + "/#" == p + "/" + "#";
    WildValid(p, "#");
    TopicLevels(p);
    MatchesIs(p + "/#", t);
    DeeperIs(p, t);
    SameLevels(p, t);
    var f, lp, lt := Levels(p + "/#"), Levels(p), Levels(t);
    assert Plain(f) == |lp| && f[..|lp|] == lp;
    assert LevelsMatch(f, lt) <==> |lt| >= |lp| && lt[..|lp|] == lp by {
      assert forall k :: 0 <= k < |lp| ==> f[k] == lp[k];
      if |lt| >= |lp| && lt[..|lp|] == lp {
        assert forall k :: 0 <= k < |lp| ==> lt[k] == lt[..|lp|][k];
      }
    }
    assert |lt| == |lp| ==> lt[..|lp|] == lt;
  }

  /** 'p/+' matches what lies exactly one level under p. */
  lemma OneLevel(p: string, t: string)
    requires ValidTopic(p) && |p| <= 254
    ensures Matches(p + "/+", t) <==> |t| > |p| && t[..|p| + 1] == p + "/" && '/' !in t[|p| + 1..]
  {
    hide Split, Join, Matches, ValidTopic;
    assert p + "/+" == p + "/" + "+";
    WildValid(p, "+");
    TopicLevels(p);
    MatchesIs(p + "/+", t);
    DeeperIs(p, t);
    var f, lp, lt := Levels(p + "/+"), Levels(p), Levels(t);
    assert f[|lp|] == "+" && f[..|lp|] == lp;
    assert LevelsMatch(f, lt) <==> |lt| == |lp| + 1 && lt[..|lp|] == lp by {
      assert forall k :: 0 <= k < |lp| ==> f[k] == lp[k];
      if |lt| == |lp| + 1 && lt[..|lp|] == lp {
        assert forall k :: 0 <= k < |lp| ==> lt[k] == lt[..|lp|][k];
      }
    }
    if |t| > |p| && t[..|p| + 1] == p + "/" {
      OneIfNoSlash(t[|p| + 1..]);
    }
  }

  lemma OneIfNoSlash(s: string)
    ensures |Levels(s)| == 1 <==> '/' !in s
  {
    hide Split;
    if '/' !in s {
      SplitAppend("", s, '/');
      assert "" + s == s;
      NoLevels();
    } else {
      var k :| 0 <= k < |s| && s[k] == '/';
      assert s == s[..k] + ['/'] + s[k + 1..];
      SplitConcat(s[..k], s[k + 1..], '/');
    }
  }

  lemma NoLevels()
    ensures Levels("") == [""]
  {
  }

  // ---- Where wildcards may stand ----

  /** '#' stands at the end, alone or behind '/', and '+' fills a level. */
  predicate WildcardsStand(f: string) {
    forall i :: 0 <= i < |f| ==> CharStands(f, i)
  }

  predicate CharStands(f: string, i: nat)
    requires i < |f|
  {
    && (f[i] == '#' ==> i == |f| - 1 && (i == 0 || f[i - 1] == '/'))
    && (f[i] == '+' ==> (i == 0 || f[i - 1] == '/') && (i == |f| - 1 || f[i + 1] == '/'))
  }

  /** The same for a filter without '#'. */
  predicate PlusesStand(f: string) {
    '#' !in f && WildcardsStand(f)
  }

  predicate PlusOrPlain(l: string) {
    l == "+" || ('#' !in l && '+' !in l)
  }

  predicate PlusLevels(ls: seq<string>) {
    forall k :: 0 <= k < |ls| ==> PlusOrPlain(ls[k])
  }

  lemma PlusesNext(t: string, c: char)
    ensures PlusesStand(t + [c]) <==>
            && PlusesStand(t) && c != '#'
            && (c == '+' ==> t == "" || t[|t| - 1] == '/')
            && (c != '/' ==> t == "" || t[|t| - 1] != '+')
  {
    var f, n := t + [c], |t|;
    assert f[n] == c && forall i :: 0 <= i < n ==> f[i] == t[i];
    if PlusesStand(f) {
      assert CharStands(f, n) && (n > 0 ==> CharStands(f, n - 1));
      forall i | 0 <= i < n
        ensures t[i] != '#' && CharStands(t, i)
      {
        assert CharStands(f, i) && f[i] != '#';
      }
    }
    if PlusesStand(t) && c != '#' && (n == 0 || ((c == '+' ==> t[n - 1] == '/') && (c != '/' ==> t[n - 1] != '+'))) {
      forall i | 0 <= i <= n
        ensures CharStands(f, i)
      {
        assert i < n ==> CharStands(t, i);
      }
    }
  }

  lemma LevelNext(l: string, c: char)
    requires c != '/'
    ensures PlusOrPlain(l + [c]) <==> PlusOrPlain(l) && c != '#' && (c == '+' ==> l == "") && l != "+"
    ensures PlusOrPlain("")
  {
    var m := l + [c];
    assert m[|l|] == c;
    if l != "" && '+' in l {
      assert '+' in m && |m| >= 2;
    }
  }

  lemma PlusLevelsNext(ls: seq<string>, m: string)
    requires |ls| >= 1
    ensures PlusLevels(ls + [m]) <==> PlusLevels(ls) && PlusOrPlain(m)
    ensures PlusLevels(ls) <==> PlusLevels(ls[..|ls| - 1]) && PlusOrPlain(ls[|ls| - 1])
    ensures PlusLevels(ls[..|ls| - 1] + [m]) <==> PlusLevels(ls[..|ls| - 1]) && PlusOrPlain(m)
  {
    hide PlusOrPlain;
    PlusLevelsSnoc(ls, m);
    PlusLevelsSnoc(ls[..|ls| - 1], m);
    PlusLevelsSnoc(ls[..|ls| - 1], ls[|ls| - 1]);
    assert ls == ls[..|ls| - 1] + [ls[|ls| - 1]];
  }

  lemma PlusLevelsSnoc(ls: seq<string>, m: string)
    ensures PlusLevels(ls + [m]) <==> PlusLevels(ls) && PlusOrPlain(m)
  {
    hide PlusOrPlain;
    var r := ls + [m];
    assert r[|ls|] == m && forall k :: 0 <= k < |ls| ==> r[k] == ls[k];
  }

  lemma {:induction false} PlusesExact(t: string)
    ensures PlusesStand(t) <==> PlusLevels(Levels(t))
    decreases |t|
  {
    hide PlusesStand, PlusLevels, Behind;
    if t == "" {
      NothingStands();
    } else {
      var s, c := t[..|t| - 1], t[|t| - 1];
      assert t == s + [c];
      PlusesExact(s);
      LastPart(s, '/');
      LevelsNext(t);
      hide Split;
      PlusesStep(s, c, Levels(s));
    }
  }

  lemma LevelsNext(t: string)
    requires t != ""
    ensures var ls, c := Levels(t[..|t| - 1]), t[|t| - 1];
            Levels(t) == if c == '/' then ls + [""] else ls[..|ls| - 1] + [ls[|ls| - 1] + [c]]
  {
  }

  lemma PlusesStep(s: string, c: char, ls: seq<string>)
    requires |ls| >= 1 && Behind(s, ls[|ls| - 1], '/') && (PlusesStand(s) <==> PlusLevels(ls))
    ensures PlusesStand(s + [c]) <==>
            PlusLevels(if c == '/' then ls + [""] else ls[..|ls| - 1] + [ls[|ls| - 1] + [c]])
  {
    hide PlusesStand, PlusLevels, Behind, PlusOrPlain;
    var l := ls[|ls| - 1];
    PlusesNext(s, c);
    LastOfPart(s, l, '/');
    PlusLevelsNext(ls, if c == '/' then "" else l + [c]);
    EndsInPlus(l);
    if c == '/' {
      LevelNext(l, 'a');
    } else {
      LevelNext(l, c);
    }
  }

  lemma EndsInPlus(l: string)
    ensures PlusOrPlain(l) && l != "" && l[|l| - 1] == '+' ==> l == "+"
    ensures l == "+" ==> l[|l| - 1] == '+'
  {
  }

  lemma NothingStands()
    ensures PlusesStand("") && PlusLevels(Levels(""))
  {
  }

  /** Wildcards stand where they may exactly if the levels are those of a filter. */
  lemma WildcardsExact(f: string)
    ensures WildcardsStand(f) <==> ValidLevels(Levels(f))
  {
    hide PlusesStand, PlusLevels, Behind, Split;
    StandCases(f);
    LevelCases(f);
    PlusesExact(f);
    if f != "" && f[|f| - 1] == '#' {
      var s := f[..|f| - 1];
      PlusesExact(s);
      LastPart(s, '/');
      LastOfPart(s, Levels(s)[|Levels(s)| - 1], '/');
    }
  }

  lemma StandCases(f: string)
    ensures WildcardsStand(f) <==>
            if f != "" && f[|f| - 1] == '#'
            then PlusesStand(f[..|f| - 1]) && (|f| == 1 || f[|f| - 2] == '/')
            else PlusesStand(f)
  {
    if f != "" && f[|f| - 1] == '#' {
      HashAtEnd(f[..|f| - 1]);
      assert f == f[..|f| - 1] + "#";
    } else if WildcardsStand(f) {
      forall i | 0 <= i < |f|
        ensures f[i] != '#'
      {
        assert CharStands(f, i);
      }
    }
  }

  lemma HashAtEnd(s: string)
    ensures WildcardsStand(s + "#") <==> PlusesStand(s) && (s == "" || s[|s| - 1] == '/')
  {
    var f, n := s + "#", |s|;
    assert f[n] == '#' && forall i :: 0 <= i < n ==> f[i] == s[i];
    forall i | 0 <= i < n
      ensures '#' !in s && (s == "" || s[n - 1] == '/') ==> CharStands(f, i) == CharStands(s, i)
    {
    }
    if WildcardsStand(f) {
      assert CharStands(f, n);
      forall i | 0 <= i < n
        ensures s[i] != '#' && CharStands(s, i)
      {
        assert CharStands(f, i);
      }
    }
  }

  lemma LevelCases(f: string)
    ensures ValidLevels(Levels(f)) <==>
            if f != "" && f[|f| - 1] == '#'
            then PlusLevels(Levels(f[..|f| - 1])) && Levels(f[..|f| - 1])[|Levels(f[..|f| - 1])| - 1] == ""
            else PlusLevels(Levels(f))
  {
    hide Split, PlusLevels, Behind, ValidLevels;
    if f != "" {
      LevelsNext(f);
    }
    var ls := Levels(f);
    var l := ls[|ls| - 1];
    LastPart(f, '/');
    LastOfPart(f, l, '/');
    ValidCases(ls);
    if f != "" && f[|f| - 1] == '#' {
      var ks := Levels(f[..|f| - 1]);
      var k := ks[|ks| - 1];
      assert ls[..|ls| - 1] == ks[..|ks| - 1] && l == k + "#";
      PlusLevelsNext(ks, "");
      LevelNext(k, 'a');
      HashInside(k);
    } else {
      assert l != "#";
    }
    PlusLevelsNext(ls, "");
  }

  lemma HashInside(k: string)
    ensures !PlusOrPlain(k + "#") && (k + "#" == "#" <==> k == "") && PlusOrPlain("")
  {
    assert (k + "#")[|k|] == '#';
  }

  /** Only the last level may be '#'. */
  lemma ValidCases(ls: seq<string>)
    requires |ls| >= 1
    ensures ValidLevels(ls) <==>
            PlusLevels(ls[..|ls| - 1]) && (ls[|ls| - 1] == "#" || PlusOrPlain(ls[|ls| - 1]))
  {
    var n := |ls| - 1;
    assert forall k :: 0 <= k < n ==> ls[..n][k] == ls[k];
    assert '#' in "#" && '+' in "+";
    if ValidLevels(ls) {
      forall k | 0 <= k < n
        ensures PlusOrPlain(ls[k])
      {
      }
    }
    if PlusLevels(ls[..n]) {
      forall k | 0 <= k < n
        ensures ls[k] != "#" && (!IsWild(ls[k]) ==> '#' !in ls[k] && '+' !in ls[k])
      {
        assert PlusOrPlain(ls[..n][k]);
      }
    }
  }

  /** Which texts are filters, on their characters. */
  lemma FilterExact(f: string)
    ensures ValidFilter(f) <==>
            && 1 <= |f| <= 256 && WildcardsStand(f)
            && forall i :: 0 <= i < |f| ==> f[i] != '\0' && f[i] != '\r' && f[i] != '\n'
  {
    hide WildcardsStand, ValidLevels;
    WildcardsExact(f);
  }
}
