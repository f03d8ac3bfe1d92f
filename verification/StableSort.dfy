/** Array.prototype.sort: the rising, stable permutation under a comparison. */
module StableSort {
  import opened Sequences

  /** A comparison that decides for any two elements, and without circles. */
  ghost predicate IsOrder<T(!new)>(le: (T, T) -> bool) {
    && (forall x, y :: le(x, y) || le(y, x))
    && forall x, y, z :: le(x, y) && le(y, z) ==> le(x, z)
  }

  /** `x` goes behind everything that is not greater. */
  function Place<T>(s: seq<T>, x: T, le: (T, T) -> bool): (r: seq<T>)
    ensures |r| == |s| + 1
  {
    if s == [] then [x]
    else if le(s[|s| - 1], x) then s + [x]
    else Place(s[..|s| - 1], x, le) + [s[|s| - 1]]
  }

  function SortBy<T>(s: seq<T>, le: (T, T) -> bool): (r: seq<T>)
    ensures |r| == |s|
  {
    if s == [] then [] else Place(SortBy(s[..|s| - 1], le), s[|s| - 1], le)
  }

  predicate Rising<T>(s: seq<T>, le: (T, T) -> bool) {
    forall i, j :: 0 <= i < j < |s| ==> le(s[i], s[j])
  }

  lemma {:induction false} PlaceRises<T(!new)>(s: seq<T>, x: T, le: (T, T) -> bool)
    requires IsOrder(le) && Rising(s, le)
    ensures Rising(Place(s, x, le), le)
    ensures forall y :: y in Place(s, x, le) ==> le(y, x) || (s != [] && le(y, s[|s| - 1]))
    decreases |s|
  {
    if s != [] {
      var t, z := s[..|s| - 1], s[|s| - 1];
      if le(z, x) {
        assert forall k :: 0 <= k < |t| ==> le(s[k], z);
        assert le(x, x);
      } else {
        PlaceRises(t, x, le);
        var r := Place(t, x, le);
        forall k | 0 <= k < |r|
          ensures le(r[k], z)
        {
          assert r[k] in r;
          assert t != [] ==> le(t[|t| - 1], z);
        }
        assert le(z, z);
      }
    }
  }

  lemma {:induction false} PlaceAdds<T>(s: seq<T>, x: T, le: (T, T) -> bool)
    ensures multiset(Place(s, x, le)) == multiset(s) + multiset{x}
    decreases |s|
  {
    if s != [] && !le(s[|s| - 1], x) {
      PlaceAdds(s[..|s| - 1], x, le);
      assert s == s[..|s| - 1] + [s[|s| - 1]];
    }
  }

  /** The result is the rising permutation of the input. */
  lemma {:induction false} SortBySorts<T(!new)>(s: seq<T>, le: (T, T) -> bool)
    requires IsOrder(le)
    ensures Rising(SortBy(s, le), le) && multiset(SortBy(s, le)) == multiset(s)
    decreases |s|
  {
    hide IsOrder;
    if s != [] {
      var t, y := s[..|s| - 1], s[|s| - 1];
      assert s == t + [y];
      SortBySorts(t, le);
      PlaceRises(SortBy(t, le), y, le);
      PlaceAdds(SortBy(t, le), y, le);
    }
  }

  /** `y` is neither before nor behind `z`. */
  ghost predicate Tied<T>(y: T, z: T, le: (T, T) -> bool) {
    le(y, z) && le(z, y)
  }

  /** Of two entries that are told apart, not both are tied to a third. */
  lemma NotBothTied<T(!new)>(x: T, y: T, le: (T, T) -> bool, z: T)
    requires IsOrder(le) && !le(y, x)
    ensures !(Tied(x, z, le) && Tied(y, z, le))
  {
  }

  lemma {:induction false} PlaceKeepsTies<T(!new)>(s: seq<T>, x: T, le: (T, T) -> bool, tied: T -> bool, z: T)
    requires IsOrder(le) && forall y :: tied(y) == Tied(y, z, le)
    ensures Filter(Place(s, x, le), tied) == Filter(s + [x], tied)
    decreases |s|
  {
    hide IsOrder, Filter, Tied;
    if s == [] {
      assert s + [x] == [x];
    } else if !le(s[|s| - 1], x) {
      var t, y := s[..|s| - 1], s[|s| - 1];
      NotBothTied(x, y, le, z);
      PlaceKeepsTies(t, x, le, tied, z);
      assert s == t + [y];
      FilterSnoc(Place(t, x, le), y, tied);
      FilterSnoc(t, x, tied);
      FilterSnoc(s, x, tied);
      FilterSnoc(t, y, tied);
    }
  }

  /** The sort is stable: entries that the comparison does not tell apart keep their order. */
  lemma {:induction false} SortKeepsTies<T(!new)>(s: seq<T>, le: (T, T) -> bool, tied: T -> bool, z: T)
    requires IsOrder(le) && forall y :: tied(y) == Tied(y, z, le)
    ensures Filter(SortBy(s, le), tied) == Filter(s, tied)
    decreases |s|
  {
    hide IsOrder;
    if s != [] {
      var t, x := s[..|s| - 1], s[|s| - 1];
      SortKeepsTies(t, le, tied, z);
      PlaceKeepsTies(SortBy(t, le), x, le, tied, z);
      FilterSnoc(SortBy(t, le), x, tied);
      FilterSnoc(t, x, tied);
      assert s == t + [x];
    }
  }

  lemma SortMembers<T(!new)>(s: seq<T>, le: (T, T) -> bool, x: T)
    requires IsOrder(le)
    ensures x in SortBy(s, le) <==> x in s
  {
    SortBySorts(s, le);
    assert x in s <==> x in multiset(s);
    assert x in SortBy(s, le) <==> x in multiset(SortBy(s, le));
  }

  ghost predicate DistinctBy<T, K>(s: seq<T>, id: T -> K) {
    forall i, j :: 0 <= i < j < |s| ==> id(s[i]) != id(s[j])
  }

  lemma {:induction false} OnceOnly<T, K>(a: seq<T>, id: T -> K, x: T)
    requires DistinctBy(a, id)
    ensures multiset(a)[x] <= 1
    decreases |a|
  {
    if a != [] {
      var n := |a| - 1;
      assert a == a[..n] + [a[n]];
      OnceOnly(a[..n], id, x);
      if a[n] == x {
        assert x !in a[..n];
      }
    }
  }

  lemma TwiceAtLeast<T>(b: seq<T>, i: nat, j: nat)
    requires i < j < |b| && b[i] == b[j]
    ensures multiset(b)[b[i]] >= 2
  {
    assert b == b[..j] + [b[j]] + b[j + 1..];
    assert b[i] in b[..j];
  }

  /** A permutation of entries with distinct names has distinct names. */
  lemma DistinctPermuted<T, K>(a: seq<T>, b: seq<T>, id: T -> K)
    requires multiset(a) == multiset(b) && DistinctBy(a, id)
    ensures DistinctBy(b, id)
  {
    forall i, j | 0 <= i < j < |b|
      ensures id(b[i]) != id(b[j])
    {
      if id(b[i]) == id(b[j]) {
        assert b[i] in multiset(b) && b[j] in multiset(b);
        assert b[i] in a && b[j] in a;
        assert b[i] == b[j];
        OnceOnly(a, id, b[i]);
        TwiceAtLeast(b, i, j);
      }
    }
  }
}
