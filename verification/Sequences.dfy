/** Lists without repetitions, their sets, and Array.prototype.filter. */
module Sequences {

  predicate Distinct<T(==)>(s: seq<T>) {
    forall i, j :: 0 <= i < j < |s| ==> s[i] != s[j]
  }

  function SetOf<T(==)>(s: seq<T>): set<T> {
    set x | x in s
  }

  lemma SetAppend<T>(s: seq<T>, x: T)
    ensures SetOf(s + [x]) == SetOf(s) + {x}
  {
    assert (s + [x])[|s|] == x;
    assert forall y :: y in s ==> y in s + [x];
  }

  lemma SetTail<T>(s: seq<T>)
    requires |s| > 0 && s[0] !in s[1..]
    ensures SetOf(s[1..]) == SetOf(s) - {s[0]}
  {
    assert s == [s[0]] + s[1..];
  }

  /** A list without repetitions has as many elements as its set. */
  lemma {:induction false} SetSize<T>(s: seq<T>)
    requires Distinct(s)
    ensures |SetOf(s)| == |s|
    decreases |s|
  {
    if s != [] {
      var n := |s| - 1;
      SetSize(s[..n]);
      SetAppend(s[..n], s[n]);
      assert s == s[..n] + [s[n]];
    }
  }

  /** The elements that `keep` holds of, in order. */
  function Filter<T>(s: seq<T>, keep: T -> bool): (r: seq<T>)
    ensures |r| <= |s|
  {
    if s == [] then [] else Filter(s[..|s| - 1], keep) + if keep(s[|s| - 1]) then [s[|s| - 1]] else []
  }

  lemma {:induction false} FilterMembers<T>(s: seq<T>, keep: T -> bool, x: T)
    ensures x in Filter(s, keep) <==> x in s && keep(x)
    decreases |s|
  {
    if s != [] {
      FilterMembers(s[..|s| - 1], keep, x);
      assert s == s[..|s| - 1] + [s[|s| - 1]];
    }
  }

  lemma {:induction false} FilterDistinct<T>(s: seq<T>, keep: T -> bool)
    requires Distinct(s)
    ensures Distinct(Filter(s, keep))
    decreases |s|
  {
    if s != [] {
      var n := |s| - 1;
      FilterDistinct(s[..n], keep);
      FilterMembers(s[..n], keep, s[n]);
    }
  }

  lemma FilterSnoc<T>(s: seq<T>, x: T, keep: T -> bool)
    ensures Filter(s + [x], keep) == Filter(s, keep) + if keep(x) then [x] else []
  {
    assert (s + [x])[..|s|] == s;
  }

  lemma {:induction false} FilterAppend<T>(a: seq<T>, b: seq<T>, keep: T -> bool)
    ensures Filter(a + b, keep) == Filter(a, keep) + Filter(b, keep)
    decreases |b|
  {
    if b == [] {
      assert a + b == a;
    } else {
      assert (a + b)[..|a + b| - 1] == a + b[..|b| - 1];
      FilterAppend(a, b[..|b| - 1], keep);
    }
  }

  lemma {:induction false} FilterAll<T>(s: seq<T>, keep: T -> bool)
    requires forall x :: x in s ==> keep(x)
    ensures Filter(s, keep) == s
    decreases |s|
  {
    if s != [] {
      FilterAll(s[..|s| - 1], keep);
      assert s == s[..|s| - 1] + [s[|s| - 1]];
    }
  }

  /** Filtering twice is filtering by both. */
  lemma {:induction false} FilterTwice<T>(s: seq<T>, a: T -> bool, b: T -> bool, both: T -> bool)
    requires forall x :: x in s ==> both(x) == (a(x) && b(x))
    ensures Filter(Filter(s, a), b) == Filter(s, both)
    decreases |s|
  {
    if s != [] {
      var n := |s| - 1;
      FilterTwice(s[..n], a, b, both);
      FilterSnoc(Filter(s[..n], a), s[n], b);
      assert !a(s[n]) ==> Filter(s, a) == Filter(s[..n], a);
    }
  }

  /** Taking out the only element that is not kept. */
  lemma {:induction false} FilterButOne<T>(s: seq<T>, i: nat, keep: T -> bool)
    requires i < |s| && forall k :: 0 <= k < |s| ==> keep(s[k]) == (k != i)
    ensures Filter(s, keep) == s[..i] + s[i + 1..]
    decreases |s|
  {
    var n := |s| - 1;
    if i == n {
      FilterAll(s[..n], keep);
      assert s[..n] + s[n + 1..] == s[..n];
    } else {
      FilterButOne(s[..n], i, keep);
      assert s[..n][..i] + s[..n][i + 1..] + [s[n]] == s[..i] + s[i + 1..];
    }
  }
}
