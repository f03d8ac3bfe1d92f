/** Compact sets of domain hashes (src/dns/domainSet.js): HashBuilder collects
    hashes in a growing buffer and returns them sorted without duplicates,
    lowerBound and hasHash search them, CompactList decides a name. */
module HashList {
  import opened Bytes
  import opened DomainNames
  import opened StableSort

  predicate Up(s: seq<nat>) {
    forall i, j :: 0 <= i < j < |s| ==> s[i] <= s[j]
  }

  predicate StrictlyUp(s: seq<nat>) {
    forall i, j :: 0 <= i < j < |s| ==> s[i] < s[j]
  }

  // ---- Sorting (the numeric sort of a typed array) and removing duplicates ----

  predicate AtMost(x: nat, y: nat) {
    x <= y
  }

  function SortUp(s: seq<nat>): (r: seq<nat>)
  {
    SortBy(s, AtMost)
  }

  /** SortUp is the rising permutation of its input. */
  lemma SortUpSorts(s: seq<nat>)
    ensures Up(SortUp(s)) && multiset(SortUp(s)) == multiset(s)
  {
    SortBySorts(s, AtMost);
    var r := SortUp(s);
    forall i, j | 0 <= i < j < |r|
      ensures r[i] <= r[j]
    {
      assert AtMost(r[i], r[j]);
    }
  }

  lemma SameMembers(a: seq<nat>, b: seq<nat>, x: nat)
    requires multiset(a) == multiset(b)
    ensures x in a <==> x in b
  {
    assert x in a <==> x in multiset(a);
    assert x in b <==> x in multiset(b);
  }

  /** Neighbours that repeat are dropped. */
  function Dedup(s: seq<nat>): (r: seq<nat>)
    ensures |r| <= |s| && (s != [] ==> r != [] && r[|r| - 1] == s[|s| - 1])
  {
    if s == [] then []
    else if |s| > 1 && s[|s| - 1] == s[|s| - 2] then Dedup(s[..|s| - 1])
    else Dedup(s[..|s| - 1]) + [s[|s| - 1]]
  }

  lemma {:induction false} DedupKeeps(s: seq<nat>)
    requires Up(s)
    ensures StrictlyUp(Dedup(s)) && forall x :: x in Dedup(s) <==> x in s
    decreases |s|
  {
    if s != [] {
      var t, y := s[..|s| - 1], s[|s| - 1];
      assert s == t + [y];
      DedupKeeps(t);
      if |s| > 1 {
        assert t[|t| - 1] <= y;
      }
    }
  }

  /** The hashes of `s` in rising order, each once. */
  function Canonical(s: seq<nat>): seq<nat> {
    Dedup(SortUp(s))
  }

  lemma CanonicalIsTheSet(s: seq<nat>)
    ensures StrictlyUp(Canonical(s)) && forall x :: x in Canonical(s) <==> x in s
  {
    hide SortUp;
    SortUpSorts(s);
    DedupKeeps(SortUp(s));
    forall x
      ensures x in SortUp(s) <==> x in s
    {
      SameMembers(SortUp(s), s, x);
    }
  }

  lemma HasMember(s: seq<nat>)
    ensures s == [] || exists x :: x in s
  {
    if s != [] {
      assert s[0] in s;
    }
  }

  /** A strictly rising list is determined by its members, so any two ways to collect the same set agree. */
  lemma {:induction false} StrictlyUpUnique(a: seq<nat>, b: seq<nat>)
    requires StrictlyUp(a) && StrictlyUp(b) && forall x :: x in a <==> x in b
    ensures a == b
    decreases |a|
  {
    HasMember(a);
    HasMember(b);
    if a != [] && b != [] {
      var n, m := |a| - 1, |b| - 1;
      assert a[n] in b && b[m] in a;
      assert a[n] == b[m];
      forall x
        ensures x in a[..n] <==> x in b[..m]
      {
        assert x in a[..n] <==> x in a && x != a[n];
        assert x in b[..m] <==> x in b && x != b[m];
      }
      StrictlyUpUnique(a[..n], b[..m]);
      assert a == a[..n] + [a[n]] && b == b[..m] + [b[m]];
    }
  }

  // ---- HashBuilder ----

  class HashBuilder {
    var buf: array?<nat>
    var n: nat

    ghost predicate Valid()
      reads this, buf
    {
      buf != null && n <= buf.Length
    }

    /** The hashes added so far, in order. */
    ghost function Added(): seq<nat>
      requires Valid()
      reads this, buf
    {
      buf[..n]
    }

    constructor (initial: nat)
      ensures Valid() && fresh(buf) && buf.Length == initial && Added() == []
    {
      buf := new nat[initial];
      n := 0;
    }

    /** Doubling grows any buffer but an empty one. */
    method AddHash(h: nat)
      requires Valid() && buf.Length >= 1
      modifies this, buf
      ensures Valid() && buf.Length >= 1 && (buf == old(buf) || fresh(buf))
      ensures Added() == old(Added()) + [h]
    {
      if n == buf.Length {
        var next := new nat[buf.Length * 2](i => 0);
        for i := 0 to buf.Length
          invariant n == old(n) && buf == old(buf)
          invariant next.Length == old(buf.Length) * 2 && buf.Length == old(buf.Length)
          invariant next[..i] == buf[..i] && buf[..] == old(buf[..])
        {
          next[i] := buf[i];
        }
        buf := next;
      }
      buf[n] := h;
      n := n + 1;
    }

    /** Sort, drop duplicates in place, give the buffer away. */
    method Finish() returns (out: seq<nat>)
      requires Valid()
      modifies this, buf
      ensures out == Canonical(old(Added())) && buf == null
    {
      hide SortUp, Dedup;
      SortPrefix(buf, n);
      var w := DedupPrefix(buf, n);
      out := buf[..w];
      buf := null;
    }
  }

  /** The rising numbers a[..n] without repetitions, moved to the front of `a`. */
  method DedupPrefix(a: array<nat>, n: nat) returns (w: nat)
    requires n <= a.Length
    modifies a
    ensures w <= n && a[..w] == Dedup(old(a[..n]))
  {
    hide Dedup;
    ghost var s := a[..n];
    w := 0;
    NothingTwice(s);
    for r := 0 to n
      invariant 0 <= w <= r
      invariant a[..w] == Dedup(s[..r])
      invariant forall k :: w <= k < n ==> a[k] == s[k]
      invariant r > 0 ==> w > 0 && a[w - 1] == s[r - 1]
    {
      DedupNext(s, r);
      if r == 0 || a[r] != a[r - 1] {
        a[w] := a[r];
        w := w + 1;
      }
    }
    assert s[..n] == s;
  }

  lemma DedupNext(s: seq<nat>, r: nat)
    requires r < |s|
    ensures Dedup(s[..r + 1]) == Dedup(s[..r]) + if r > 0 && s[r] == s[r - 1] then [] else [s[r]]
  {
    assert s[..r + 1][..r] == s[..r];
  }

  lemma NothingTwice(s: seq<nat>)
    ensures Dedup(s[..0]) == []
  {
  }

  method SortPrefix(a: array<nat>, n: nat)
    requires n <= a.Length
    modifies a
    ensures a[..n] == SortUp(old(a[..n]))
  {
    hide SortUp;
    var s := SortUp(a[..n]);
    SortUpSorts(a[..n]);
    SameLengths(s, a[..n]);
    for i := 0 to n
      invariant a[..i] == s[..i]
    {
      a[i] := s[i];
    }
    assert s[..n] == s;
  }

  lemma SameLengths(a: seq<nat>, b: seq<nat>)
    requires multiset(a) == multiset(b)
    ensures |a| == |b|
  {
    assert |multiset(a)| == |a| && |multiset(b)| == |b|;
  }

  // ---- Searching ----

  method LowerBound(arr: seq<nat>, v: nat) returns (lo: nat)
    requires Up(arr)
    ensures lo <= |arr|
    ensures forall i :: 0 <= i < lo ==> arr[i] < v
    ensures forall i :: lo <= i < |arr| ==> arr[i] >= v
  {
    lo := 0;
    var hi := |arr|;
    while lo < hi
      invariant lo <= hi <= |arr|
      invariant forall i :: 0 <= i < lo ==> arr[i] < v
      invariant forall i :: hi <= i < |arr| ==> arr[i] >= v
    {
      var mid := (lo + hi) / 2;
      if arr[mid] < v {
        lo := mid + 1;
      } else {
        hi := mid;
      }
    }
  }

  method HasHash(arr: seq<nat>, v: nat) returns (has: bool)
    requires Up(arr)
    ensures has <==> v in arr
  {
    var i := LowerBound(arr, v);
    has := i < |arr| && arr[i] == v;
  }

  // ---- A loaded list ----

  datatype CompactList = CompactList(suffix: seq<nat>, exact: seq<nat>, except: seq<nat>)

  predicate ValidList(l: CompactList) {
    StrictlyUp(l.suffix) && StrictlyUp(l.exact) && StrictlyUp(l.except)
  }

  predicate Meets(h: seq<nat>, arr: seq<nat>) {
    exists i :: 0 <= i < |h| && h[i] in arr
  }

  /** What the list decides for a name with the suffix hashes `h` (h[0] is the whole name). */
  predicate Blocks(l: CompactList, h: seq<nat>)
    requires |h| >= 1
  {
    !Meets(h, l.except) && (h[0] in l.exact || Meets(h, l.suffix))
  }

  method MeetsAny(h: seq<nat>, arr: seq<nat>) returns (r: bool)
    requires StrictlyUp(arr)
    ensures r <==> Meets(h, arr)
  {
    for i := 0 to |h|
      invariant forall j :: 0 <= j < i ==> h[j] !in arr
    {
      var has := HasHash(arr, h[i]);
      if has {
        return true;
      }
    }
    r := false;
  }

  method MatchHashes(l: CompactList, h: seq<nat>) returns (r: bool)
    requires ValidList(l) && |h| >= 1
    ensures r <==> Blocks(l, h)
  {
    if |l.except| > 0 {
      var x := MeetsAny(h, l.except);
      if x {
        return false;
      }
    }
    if |l.exact| > 0 {
      var e := HasHash(l.exact, h[0]);
      if e {
        return true;
      }
    }
    if |l.suffix| > 0 {
      r := MeetsAny(h, l.suffix);
      return;
    }
    r := false;
  }

  // ---- Names ----

  /** `x` is what follows position 0 or a dot of `name`. */
  predicate IsSuffixAt(name: Bytes, k: nat, x: Bytes) {
    k <= |name| && (k == 0 || name[k - 1] == '.' as int) && x == name[k..]
  }

  predicate IsSuffix(name: Bytes, x: Bytes) {
    exists k :: 0 <= k <= |name| && IsSuffixAt(name, k, x)
  }

  /** suffixes: the name and what follows each dot, longest first. */
  method Suffixes(name: Bytes) returns (out: seq<Bytes>)
    ensures |out| >= 1 && out[0] == name
    ensures forall x :: x in out <==> IsSuffix(name, x)
    ensures forall i, j :: 0 <= i < j < |out| ==> |out[i]| > |out[j]|
  {
    out := [name];
    var i := 0;
    assert IsSuffixAt(name, 0, name);
    while i < |name|
      invariant i <= |name| && |out| >= 1 && out[0] == name
      invariant forall x :: x in out ==> IsSuffix(name, x)
      invariant forall k :: 0 <= k < |out| ==> |out[k]| >= |name| - i
      invariant forall k, l :: 0 <= k < l < |out| ==> |out[k]| > |out[l]|
      invariant forall k :: 0 <= k <= i && (k == 0 || name[k - 1] == DOT) ==> name[k..] in out
    {
      if name[i] == DOT {
        assert IsSuffixAt(name, i + 1, name[i + 1..]);
        out := out + [name[i + 1..]];
      }
      i := i + 1;
    }
  }

  function Hashes(names: seq<Bytes>): (r: seq<nat>)
    ensures |r| == |names| && forall i :: 0 <= i < |names| ==> r[i] == Hash53(names[i])
  {
    seq(|names|, i requires 0 <= i < |names| => Hash53(names[i]))
  }

  /** The list holds exactly the hashes of these names. */
  ghost predicate Holds(arr: seq<nat>, names: set<Bytes>) {
    forall h :: h in arr <==> exists n :: n in names && Hash53(n) == h
  }

  /** No suffix of `name` has the hash of another name of the list. */
  ghost predicate NoCollision(name: Bytes, names: set<Bytes>) {
    forall n, x :: n in names && IsSuffix(name, x) && Hash53(x) == Hash53(n) ==> x == n
  }

  /** matches: unless hashes collide, a name is blocked exactly when no
      exception covers it and it is listed itself or below a listed name. */
  method MatchesName(l: CompactList, name: Bytes, ghost suffix: set<Bytes>, ghost exact: set<Bytes>,
                     ghost except: set<Bytes>)
    returns (r: bool)
    requires ValidList(l) && Holds(l.suffix, suffix) && Holds(l.exact, exact) && Holds(l.except, except)
    requires NoCollision(name, suffix + exact + except)
    ensures r <==>
            && (forall x :: IsSuffix(name, x) ==> x !in except)
            && (name in exact || exists x :: IsSuffix(name, x) && x in suffix)
  {
    hide Hash53;
    var all := Suffixes(name);
    r := MatchHashes(l, Hashes(all));
    MeetsNames(name, all, l.except, except);
    MeetsNames(name, all, l.suffix, suffix);
    assert IsSuffixAt(name, 0, name);
  }

  lemma MeetsNames(name: Bytes, all: seq<Bytes>, arr: seq<nat>, names: set<Bytes>)
    requires forall x :: x in all <==> IsSuffix(name, x)
    requires Holds(arr, names) && NoCollision(name, names)
    ensures Meets(Hashes(all), arr) <==> exists x :: IsSuffix(name, x) && x in names
  {
    hide Hash53;
    if Meets(Hashes(all), arr) {
      var i :| 0 <= i < |all| && Hashes(all)[i] in arr;
      var n :| n in names && Hash53(n) == Hash53(all[i]);
      assert IsSuffix(name, all[i]);
      var k :| 0 <= k <= |name| && IsSuffixAt(name, k, all[i]);
      assert all[i] == n;
    }
    if x :| IsSuffix(name, x) && x in names {
      var i :| 0 <= i < |all| && all[i] == x;
      assert Hash53(x) in arr;
      assert Hashes(all)[i] in arr;
    }
  }
}
