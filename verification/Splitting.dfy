/** String splitting as JavaScript's `split` and `join` do it with a one-element separator. */
module Splitting {

  function Split<T(==)>(s: seq<T>, sep: T): (r: seq<seq<T>>)
    ensures |r| >= 1
  {
    if s == [] then [[]] else
    var r := Split(s[..|s| - 1], sep);
    var c := s[|s| - 1];
    if c == sep then r + [[]] else r[..|r| - 1] + [r[|r| - 1] + [c]]
  }

  function Join<T>(parts: seq<seq<T>>, sep: T): (s: seq<T>)
    requires |parts| >= 1
  {
    if |parts| == 1 then parts[0] else Join(parts[..|parts| - 1], sep) + [sep] + parts[|parts| - 1]
  }

  /** Joining what was split gives the string back. */
  lemma {:induction false} JoinSplit<T>(s: seq<T>, sep: T)
    ensures Join(Split(s, sep), sep) == s
  {
    if s != [] {
      var t, c := s[..|s| - 1], s[|s| - 1];
      assert s == t + [c];
      JoinSplit(t, sep);
      var r := Split(t, sep);
      if c == sep {
        assert (r + [[]])[..|r|] == r;
      } else {
        ExtendLast(r, sep, [c]);
      }
    }
  }

  lemma ExtendLast<T>(r: seq<seq<T>>, sep: T, x: seq<T>)
    requires |r| >= 1
    ensures Join(r[..|r| - 1] + [r[|r| - 1] + x], sep) == Join(r, sep) + x
  {
    var q := r[..|r| - 1] + [r[|r| - 1] + x];
    if |r| > 1 {
      assert q[..|r| - 1] == r[..|r| - 1];
      var a, b := Join(r[..|r| - 1], sep) + [sep], r[|r| - 1];
      assert a + (b + x) == (a + b) + x;
    }
  }

  /** No part contains the separator. */
  lemma {:induction false} SplitFree<T>(s: seq<T>, sep: T)
    ensures forall k :: 0 <= k < |Split(s, sep)| ==> sep !in Split(s, sep)[k]
  {
    if s != [] {
      SplitFree(s[..|s| - 1], sep);
    }
  }

  /** Text without a separator lengthens the last part. */
  lemma {:induction false} SplitAppend<T>(s: seq<T>, x: seq<T>, sep: T)
    requires sep !in x
    ensures var r := Split(s, sep); Split(s + x, sep) == r[..|r| - 1] + [r[|r| - 1] + x]
    decreases |x|
  {
    var r := Split(s, sep);
    if x == [] {
      assert s + x == s;
      assert r[|r| - 1] + x == r[|r| - 1];
      assert r == r[..|r| - 1] + [r[|r| - 1]];
    } else {
      var y, c := x[..|x| - 1], x[|x| - 1];
      SplitAppend(s, y, sep);
      assert (s + x)[..|s + x| - 1] == s + y && (s + x)[|s + x| - 1] == c;
      assert c in x;
      var q := r[..|r| - 1] + [r[|r| - 1] + y];
      assert q[..|q| - 1] == r[..|r| - 1];
      assert r[|r| - 1] + y + [c] == r[|r| - 1] + x by { assert y + [c] == x; }
    }
  }

  /** Splitting what was joined from parts without separators gives the parts back. */
  lemma {:induction false} SplitJoin<T>(parts: seq<seq<T>>, sep: T)
    requires |parts| >= 1 && forall k :: 0 <= k < |parts| ==> sep !in parts[k]
    ensures Split(Join(parts, sep), sep) == parts
    decreases |parts|
  {
    var n := |parts| - 1;
    var x := parts[n];
    if n == 0 {
      SplitAppend([], x, sep);
      assert [] + x == x && Split<T>([], sep) == [[]];
      assert parts == [x];
    } else {
      var t := Join(parts[..n], sep);
      SplitJoin(parts[..n], sep);
      SplitSep(t, sep);
      SplitAppend(t + [sep], x, sep);
      var r := parts[..n] + [[]];
      assert r[..n] == parts[..n] && r[n] + x == x;
      assert parts == parts[..n] + [x];
    }
  }

  lemma SplitSep<T>(s: seq<T>, sep: T)
    ensures Split(s + [sep], sep) == Split(s, sep) + [[]]
  {
    assert (s + [sep])[..|s|] == s;
  }

  /** The joined string starts as its first part does, or with a separator when that part is empty. */
  lemma {:induction false} JoinFirst<T>(parts: seq<seq<T>>, sep: T)
    requires |parts| >= 1
    ensures parts[0] != [] ==> Join(parts, sep) != [] && Join(parts, sep)[0] == parts[0][0]
    ensures parts[0] == [] && |parts| > 1 ==> Join(parts, sep) != [] && Join(parts, sep)[0] == sep
    ensures parts[0] == [] && |parts| == 1 ==> Join(parts, sep) == []
    decreases |parts|
  {
    if |parts| > 1 {
      JoinFirst(parts[..|parts| - 1], sep);
    }
  }

  /** Parts of equal lengths join to strings of equal length. */
  lemma {:induction false} JoinLength<T>(a: seq<seq<T>>, b: seq<seq<T>>, sep: T)
    requires |a| == |b| >= 1 && forall k :: 0 <= k < |a| ==> |a[k]| == |b[k]|
    ensures |Join(a, sep)| == |Join(b, sep)|
    decreases |a|
  {
    if |a| > 1 {
      var n := |a| - 1;
      JoinLength(a[..n], b[..n], sep);
      assert |a[n]| == |b[n]|;
    }
  }

  /** The joined string consists of the elements of its parts and separators. */
  lemma {:induction false} JoinMembers<T>(parts: seq<seq<T>>, sep: T, x: T)
    requires |parts| >= 1 && x in Join(parts, sep)
    ensures x == sep || exists k :: 0 <= k < |parts| && x in parts[k]
    decreases |parts|
  {
    if |parts| > 1 {
      var n := |parts| - 1;
      if x in Join(parts[..n], sep) {
        JoinMembers(parts[..n], sep, x);
      } else if x in parts[n] {
      }
    } else {
      assert x in parts[0];
    }
  }

  lemma {:induction false} PartMembers<T>(parts: seq<seq<T>>, sep: T, k: nat, x: T)
    requires k < |parts| && x in parts[k]
    ensures x in Join(parts, sep)
    decreases |parts|
  {
    var n := |parts| - 1;
    if n > 0 && k < n {
      PartMembers(parts[..n], sep, k, x);
    }
  }

  /** The parts with one more element at the end. */
  ghost function Grown<T>(r: seq<seq<T>>, c: T, sep: T): seq<seq<T>>
    requires |r| >= 1
  {
    if c == sep then r + [[]] else r[..|r| - 1] + [r[|r| - 1] + [c]]
  }

  lemma SplitSnoc<T>(s: seq<T>, sep: T)
    requires s != []
    ensures Split(s, sep) == Grown(Split(s[..|s| - 1], sep), s[|s| - 1], sep)
  {
  }

  /** `l` is what stands in `s` behind the last separator. */
  ghost predicate Behind<T>(s: seq<T>, l: seq<T>, sep: T) {
    && |l| <= |s| && s[|s| - |l|..] == l && sep !in l && (|l| < |s| ==> s[|s| - |l| - 1] == sep)
  }

  lemma BehindNext<T>(t: seq<T>, l: seq<T>, c: T, sep: T)
    requires Behind(t, l, sep)
    ensures c == sep ==> Behind(t + [c], [], sep)
    ensures c != sep ==> Behind(t + [c], l + [c], sep)
  {
    var s, n := t + [c], |t| - |l|;
    assert s[n..] == t[n..] + [c];
    assert n > 0 ==> s[n - 1] == t[n - 1];
  }

  lemma {:induction false} LastPart<T>(s: seq<T>, sep: T)
    ensures Behind(s, Split(s, sep)[|Split(s, sep)| - 1], sep)
    decreases |s|
  {
    hide Behind;
    if s == [] {
      BehindNothing<T>(sep);
    } else {
      var t, c := s[..|s| - 1], s[|s| - 1];
      assert s == t + [c];
      LastPart(t, sep);
      BehindNext(t, Split(t, sep)[|Split(t, sep)| - 1], c, sep);
    }
  }

  lemma BehindNothing<T>(sep: T)
    ensures Behind([], [], sep)
  {
  }

  lemma LastOfPart<T>(t: seq<T>, l: seq<T>, sep: T)
    requires Behind(t, l, sep)
    ensures l == [] <==> t == [] || t[|t| - 1] == sep
    ensures l != [] ==> t != [] && t[|t| - 1] == l[|l| - 1]
  {
    if l != [] {
      assert t[|t| - 1] == t[|t| - |l|..][|l| - 1];
    }
  }

  lemma GrownBehind<T>(x: seq<seq<T>>, y: seq<seq<T>>, c: T, sep: T)
    requires |y| >= 1
    ensures Grown(x + y, c, sep) == x + Grown(y, c, sep)
  {
    assert (x + y)[..|x + y| - 1] == x + y[..|y| - 1];
  }

  /** Splitting at a separator in the middle. */
  lemma {:induction false} SplitConcat<T>(a: seq<T>, b: seq<T>, sep: T)
    ensures Split(a + [sep] + b, sep) == Split(a, sep) + Split(b, sep)
    decreases |b|
  {
    hide Grown;
    var s := a + [sep] + b;
    if b == [] {
      assert s == a + [sep];
      SplitSep(a, sep);
    } else {
      var n := |b| - 1;
      assert s[..|s| - 1] == a + [sep] + b[..n] && s[|s| - 1] == b[n];
      SplitConcat(a, b[..n], sep);
      SplitSnoc(s, sep);
      SplitSnoc(b, sep);
      GrownBehind(Split(a, sep), Split(b[..n], sep), b[n], sep);
    }
  }

  lemma {:induction false} JoinConcat<T>(a: seq<seq<T>>, b: seq<seq<T>>, sep: T)
    requires |a| >= 1 && |b| >= 1
    ensures Join(a + b, sep) == Join(a, sep) + [sep] + Join(b, sep)
    decreases |b|
  {
    var n := |b| - 1;
    assert (a + b)[..|a + b| - 1] == a + b[..n] && (a + b)[|a + b| - 1] == b[n];
    if n == 0 {
      assert a + b[..n] == a;
    } else {
      JoinConcat(a, b[..n], sep);
      assert Join(a, sep) + [sep] + Join(b[..n], sep) + [sep] + b[n] ==
             Join(a, sep) + [sep] + (Join(b[..n], sep) + [sep] + b[n]);
    }
  }
}
