/** Building a plugin package (encode of src/edge/gcplugin.js): the files in the order of
    their paths. */
module ContainerEncode {
  import opened Bytes
  import Splitting
  import opened DomainNames
  import opened StableSort
  import opened Container

  // ---- The order of paths ----

  /** Strings compared as JavaScript does. */
  predicate Before(a: Bytes, b: Bytes) {
    if b == [] then false
    else if a == [] then true
    else if a[0] != b[0] then a[0] < b[0]
    else Before(a[1..], b[1..])
  }

  lemma {:induction false} BeforeIsTotal(a: Bytes, b: Bytes)
    ensures !(Before(a, b) && Before(b, a)) && (a != b ==> Before(a, b) || Before(b, a)) && !Before(a, a)
    decreases |a|
  {
    if a != [] {
      BeforeIsTotal(a[1..], a[1..]);
      if b != [] && a[0] == b[0] {
        BeforeIsTotal(a[1..], b[1..]);
        assert a == [a[0]] + a[1..] && b == [b[0]] + b[1..];
      }
    }
  }

  lemma {:induction false} BeforeIsTransitive(a: Bytes, b: Bytes, c: Bytes)
    requires Before(a, b) && Before(b, c)
    ensures Before(a, c)
    decreases |a|
  {
    if a != [] && a[0] == b[0] == c[0] {
      BeforeIsTransitive(a[1..], b[1..], c[1..]);
    }
  }

  /** The first byte in which the two differ is smaller in `a`. */
  predicate SmallerAt(a: Bytes, b: Bytes, k: nat) {
    k < |a| && k < |b| && a[..k] == b[..k] && a[k] < b[k]
  }

  /** `a` is the beginning of `b`, or smaller where they differ first. */
  ghost predicate Lexical(a: Bytes, b: Bytes) {
    (|a| < |b| && a == b[..|a|]) || exists k :: 0 <= k < |a| && SmallerAt(a, b, k)
  }

  lemma {:induction false} BeforeIsLexical(a: Bytes, b: Bytes)
    ensures Before(a, b) <==> Lexical(a, b)
    decreases |a|
  {
    if a == [] || b == [] {
    } else if a[0] != b[0] {
      assert a[0] < b[0] ==> SmallerAt(a, b, 0);
    } else {
      BeforeIsLexical(a[1..], b[1..]);
      LexicalTail(a, b);
    }
  }

  lemma LexicalTail(a: Bytes, b: Bytes)
    requires a != [] && b != [] && a[0] == b[0]
    ensures Lexical(a, b) <==> Lexical(a[1..], b[1..])
  {
    var c, d := a[1..], b[1..];
    assert a == [a[0]] + c && b == [b[0]] + d;
    if k :| 0 <= k < |c| && SmallerAt(c, d, k) {
      assert a[..k + 1] == [a[0]] + c[..k] && b[..k + 1] == [b[0]] + d[..k];
      assert SmallerAt(a, b, k + 1);
    }
    if k :| 0 <= k < |a| && SmallerAt(a, b, k) {
      assert c[..k - 1] == a[..k][1..] && d[..k - 1] == b[..k][1..];
      assert SmallerAt(c, d, k - 1);
    }
    if |a| < |b| && a == b[..|a|] {
      assert c == a[1..] == b[..|a|][1..] == d[..|c|];
    }
    if |c| < |d| && c == d[..|c|] {
      assert b[..|a|] == [b[0]] + d[..|c|] == a;
    }
  }

  // ---- Sorting ----

  predicate NotAfter(f: File, g: File) {
    !Before(g.path, f.path)
  }

  lemma NotAfterOrders()
    ensures IsOrder(NotAfter)
  {
    hide Before;
    forall f, g
      ensures NotAfter(f, g) || NotAfter(g, f)
    {
      BeforeIsTotal(f.path, g.path);
    }
    forall a, b, c | NotAfter(a, b) && NotAfter(b, c)
      ensures NotAfter(a, c)
    {
      NotAfterChains(a, b, c);
    }
  }

  lemma NotAfterChains(a: File, b: File, c: File)
    requires NotAfter(a, b) && NotAfter(b, c)
    ensures NotAfter(a, c)
  {
    hide Before;
    BeforeIsTotal(a.path, b.path);
    BeforeIsTotal(b.path, c.path);
    BeforeIsTotal(a.path, c.path);
    if Before(c.path, a.path) && a.path != b.path && b.path != c.path {
      BeforeIsTransitive(a.path, b.path, c.path);
    }
  }

  function Sorted(files: seq<File>): (r: seq<File>)
    ensures |r| == |files|
  {
    SortBy(files, NotAfter)
  }

  ghost predicate Ascending(s: seq<File>) {
    Rising(s, NotAfter)
  }

  lemma SizesSnoc(s: seq<File>, f: File)
    ensures Sizes(s + [f]) == Sizes(s) + |f.data|
  {
    assert (s + [f])[..|s|] == s;
  }

  lemma {:induction false} PlaceSizes(s: seq<File>, f: File)
    ensures Sizes(Place(s, f, NotAfter)) == Sizes(s) + |f.data|
    decreases |s|
  {
    hide Before;
    SizesSnoc(s, f);
    if s == [] {
      assert [] + [f] == [f];
    } else if !NotAfter(s[|s| - 1], f) {
      PlaceSizes(s[..|s| - 1], f);
      SizesSnoc(Place(s[..|s| - 1], f, NotAfter), s[|s| - 1]);
    }
  }

  lemma {:induction false} SortedSizes(files: seq<File>)
    ensures Sizes(Sorted(files)) == Sizes(files)
    decreases |files|
  {
    hide Sizes, Before, Place;
    if files != [] {
      var n := |files| - 1;
      SortedSizes(files[..n]);
      PlaceSizes(Sorted(files[..n]), files[n]);
      SizesSnoc(files[..n], files[n]);
      assert files == files[..n] + [files[n]];
    }
  }

  lemma SortedIs(files: seq<File>)
    ensures Ascending(Sorted(files)) && multiset(Sorted(files)) == multiset(files)
            && Sizes(Sorted(files)) == Sizes(files)
    ensures forall i, j :: 0 <= i < j < |files| ==>
                             Sorted(files)[i].path == Sorted(files)[j].path
                             || Lexical(Sorted(files)[i].path, Sorted(files)[j].path)
  {
    hide Before, SortBy, IsOrder, Sizes, Lexical;
    NotAfterOrders();
    SortBySorts(files, NotAfter);
    SortedSizes(files);
    var r := Sorted(files);
    forall i, j | 0 <= i < j < |files|
      ensures r[i].path == r[j].path || Lexical(r[i].path, r[j].path)
    {
      assert NotAfter(r[i], r[j]);
      BeforeIsTotal(r[i].path, r[j].path);
      BeforeIsLexical(r[i].path, r[j].path);
    }
  }

  // ---- encode ----

  /** The package, before its compression; None where a path is refused or a file too large. */
  function Encode(files: seq<File>): (r: Option<Bytes>)
  {
    if (forall k :: 0 <= k < |files| ==> PathOk(files[k].path)) && AllWritable(Sorted(files))
    then Some(Package(Sorted(files))) else None
  }

  method EncodeLoop(files: seq<File>) returns (r: Option<Bytes>)
    ensures r == Encode(files)
  {
    hide PathOk, Sorted, EntryBytes;
    for k := 0 to |files|
      invariant forall j :: 0 <= j < k ==> PathOk(files[j].path)
    {
      var ok := CheckPath(files[k].path);
      if !ok {
        return None;
      }
    }
    var list := Sorted(files);
    var out := MAGIC;
    EmptyTail(list);
    for k := 0 to |list|
      invariant AllWritable(list[..k])
      invariant AllWritable(list) ==> out + (Entries(list[k..]) + [0, 0]) == Package(list)
    {
      if !Writable(list[k]) {
        return None;
      }
      NextEntry(out, list, k);
      out := out + EntryBytes(list[k]);
    }
    assert list[..|list|] == list && list[|list|..] == [];
    r := Some(out + [0, 0]);
    assert [] + [0, 0] == [0, 0];
  }

  lemma EmptyTail(list: seq<File>)
    ensures list[0..] == list
  {
  }

  lemma NextEntry(out: Bytes, list: seq<File>, k: nat)
    requires k < |list| && AllWritable(list[..k]) && Writable(list[k])
    ensures AllWritable(list[..k + 1])
    ensures AllWritable(list) ==>
              out + (Entries(list[k..]) + [0, 0]) == out + EntryBytes(list[k]) + (Entries(list[k + 1..]) + [0, 0])
  {
    hide EntryBytes, Writable;
    assert forall j :: 0 <= j < k ==> list[j] == list[..k][j];
    if AllWritable(list) {
      assert list[k..][0] == list[k] && list[k..][1..] == list[k + 1..];
    }
  }

  // ---- Round trip ----

  /** Whether files make a proper tree does not depend on their order. */
  lemma ProperPermuted(a: seq<File>, b: seq<File>)
    requires multiset(a) == multiset(b) && |a| == |b| && Sizes(a) == Sizes(b) && ProperTree(a)
    ensures ProperTree(b)
  {
    hide LowerAll, LiesIn, PathOk, Sizes;
    forall k | 0 <= k < |b|
      ensures b[k] in a
    {
      assert b[k] in multiset(b);
    }
    forall k | 0 <= k < |b|
      ensures PathOk(b[k].path)
    {
      var i :| 0 <= i < |a| && a[i] == b[k];
    }
    forall j, k | 0 <= j < |b| && 0 <= k < |b|
      ensures !LiesIn(LowerAll(b[j].path), LowerAll(b[k].path))
    {
      var i :| 0 <= i < |a| && a[i] == b[j];
      var h :| 0 <= h < |a| && a[h] == b[k];
    }
    UnlikePermuted(a, b);
  }

  lemma UnlikePermuted(a: seq<File>, b: seq<File>)
    requires multiset(a) == multiset(b) && Unlike(a)
    ensures Unlike(b)
  {
    hide LowerAll;
    DistinctPermuted(a, b, (f: File) => LowerAll(f.path));
  }

  /** Different lists of files with non-empty paths have different entries. */
  lemma {:induction false} EntriesDiffer(a: seq<File>, b: seq<File>)
    requires AllWritable(a) && AllWritable(b) && AllNamed(a) && AllNamed(b)
    requires Entries(a) + [0, 0] == Entries(b) + [0, 0]
    ensures a == b
    decreases |a|
  {
    hide Entries, EntryBytes;
    if a == [] && b == [] {
    } else if a == [] {
      FirstEntry(b);
      NoEntry();
    } else if b == [] {
      FirstEntry(a);
      NoEntry();
    } else {
      FirstEntry(a);
      FirstEntry(b);
      EntryPrefix(a[0], b[0], Entries(a[1..]) + [0, 0], Entries(b[1..]) + [0, 0]);
      EntriesDiffer(a[1..], b[1..]);
      assert a == [a[0]] + a[1..] && b == [b[0]] + b[1..];
    }
  }

  ghost predicate AllNamed(files: seq<File>) {
    forall k :: 0 <= k < |files| ==> files[k].path != []
  }

  lemma NoEntry()
    ensures Entries([]) + [0, 0] == [0, 0] && GetU16([0, 0], 0) == 0
  {
  }

  lemma FirstEntry(a: seq<File>)
    requires AllWritable(a) && AllNamed(a) && a != []
    ensures AllWritable(a[1..]) && AllNamed(a[1..]) && Writable(a[0])
    ensures var s := Entries(a) + [0, 0];
            && s == EntryBytes(a[0]) + (Entries(a[1..]) + [0, 0])
            && |s| > 2 && GetU16(s, 0) == |a[0].path| > 0
  {
    hide EntryBytes;
    assert Writable(a[0]) && a[0].path != [];
    AllWritableTail(a);
    assert Entries(a) + [0, 0] == EntryBytes(a[0]) + (Entries(a[1..]) + [0, 0]);
    EntryLength(a[0], Entries(a[1..]) + [0, 0]);
  }

  lemma EntryLength(f: File, rest: Bytes)
    requires Writable(f)
    ensures var s := EntryBytes(f) + rest; |s| > 2 && GetU16(s, 0) == |f.path|
  {
  }

  lemma EntryPrefix(f: File, g: File, x: Bytes, y: Bytes)
    requires Writable(f) && Writable(g) && EntryBytes(f) + x == EntryBytes(g) + y
    ensures f == g && x == y
  {
    hide U32, U16;
    var s := EntryBytes(f) + x;
    var p := |f.path|;
    SplitEntry(f, x);
    SplitEntry(g, y);
    assert f.path == s[2..2 + p] == g.path;
    assert f.data == s[6 + p..6 + p + |f.data|] == g.data;
    assert x == s[6 + p + |f.data|..] == y;
  }

  /** Where the fields of the first entry are. */
  lemma SplitEntry(f: File, x: Bytes)
    requires Writable(f)
    ensures var s, p, d := EntryBytes(f) + x, |f.path|, |f.data|;
            && |s| >= 6 + p + d && GetU16(s, 0) == p && GetU32(s, 2 + p) == d
            && s[2..2 + p] == f.path && s[6 + p..6 + p + d] == f.data && s[6 + p + d..] == x
  {
    hide U32, U16, GetU16, GetU32;
    var s, p, d := EntryBytes(f) + x, |f.path|, |f.data|;
    assert s[0..2] == U16(p);
    ReadBackU16(s, 0, p);
    assert s[2 + p..6 + p] == U32(d);
    ReadBackU32(s, 2 + p, d);
    assert s[2..2 + p] == f.path;
    assert s[6 + p..6 + p + d] == f.data;
    assert s[6 + p + d..] == x;
  }

  /** What encode writes is read back, with every file, exactly if the files make a proper tree. */
  lemma RoundTrip(files: seq<File>)
    requires Encode(files).Some?
    ensures Decode(Encode(files).value) == Ok(Sorted(files)) <==> ProperTree(files)
    ensures Decode(Encode(files).value).Ok? <==> ProperTree(files)
    ensures multiset(Sorted(files)) == multiset(files) && Ascending(Sorted(files))
  {
    hide Sorted, Decode, ProperTree, PathOk, Sizes, AllWritable, Ascending;
    var list, raw := Sorted(files), Encode(files).value;
    SortedIs(files);
    if ProperTree(files) {
      ProperPermuted(files, list);
    }
    if ProperTree(list) {
      ProperPermuted(list, files);
    }
    DecodeExact(raw, list);
    if Decode(raw).Ok? {
      var other := Decode(raw).value;
      DecodeExact(raw, other);
      SamePackage(other, list, files);
    }
  }

  /** Two paths that differ in case only: encode takes them, decode refuses the package. */
  lemma LikePathsRefused()
    ensures var files := [File([0x61], []), File([0x41], [])];
            Encode(files).Some? && !Decode(Encode(files).value).Ok?
  {
    hide Decode, Package, Sorted, ProperTree, PathOk, AllWritable, LowerAll;
    var files := [File([0x61], []), File([0x41], [])];
    LetterPaths();
    SortedWritable(files);
    NoProperTree(files);
    RoundTrip(files);
  }

  lemma SortedWritable(files: seq<File>)
    requires forall k :: 0 <= k < |files| ==> Writable(files[k])
    ensures AllWritable(Sorted(files))
  {
    hide Sorted, Sizes, Ascending, Writable;
    SortedIs(files);
    forall k | 0 <= k < |files|
      ensures Writable(Sorted(files)[k])
    {
      assert Sorted(files)[k] in multiset(files);
    }
  }

  lemma NoProperTree(files: seq<File>)
    requires |files| == 2 && LowerAll(files[0].path) == LowerAll(files[1].path)
    ensures !ProperTree(files)
  {
    hide LowerAll, AllPathsOk, Sizes, NoFileIsFolder;
  }

  lemma LetterPaths()
    ensures PathOk([0x61]) && PathOk([0x41]) && LowerAll([0x61]) == [0x61] == LowerAll([0x41])
  {
    SplitOne(0x61);
    SplitOne(0x41);
    assert [0x61][..0] == [] && [0x41][..0] == [];
  }

  lemma SplitOne(c: byte)
    requires c != SLASH
    ensures Segments([c]) == [[c]]
  {
    assert Splitting.Split([], SLASH) == [[]];
    Splitting.SplitAppend([], [c], SLASH);
    assert [] + [c] == [c];
  }

  lemma SamePackage(a: seq<File>, b: seq<File>, files: seq<File>)
    requires ProperTree(a) && AllWritable(a) && AllWritable(b) && Package(a) == Package(b)
    requires multiset(b) == multiset(files) && forall k :: 0 <= k < |files| ==> PathOk(files[k].path)
    ensures a == b
  {
    hide Entries, Sizes, Unlike, NoFileIsFolder;
    forall k | 0 <= k < |b|
      ensures b[k].path != []
    {
      assert b[k] in multiset(b);
      var i :| 0 <= i < |files| && files[i] == b[k];
    }
    forall k | 0 <= k < |a|
      ensures a[k].path != []
    {
      assert PathOk(a[k].path);
    }
    assert Package(a)[|MAGIC|..] == Entries(a) + [0, 0] && Package(b)[|MAGIC|..] == Entries(b) + [0, 0];
    EntriesDiffer(a, b);
  }

  // ---- One package for one set of files ----

  ghost predicate DistinctPaths(a: seq<File>) {
    forall i, j :: 0 <= i < j < |a| ==> a[i].path != a[j].path
  }

  lemma PrefixDistinct(a: seq<File>, n: nat)
    requires DistinctPaths(a) && n <= |a|
    ensures DistinctPaths(a[..n])
  {
  }

  /** Two ascending lists of the same files with distinct paths are the same list. */
  lemma {:induction false} AscendingUnique(a: seq<File>, b: seq<File>)
    requires Ascending(a) && Ascending(b) && multiset(a) == multiset(b)
    requires DistinctPaths(a)
    ensures a == b
    decreases |a|
  {
    hide Ascending, DistinctPaths;
    assert |multiset(a)| == |a| && |multiset(b)| == |b|;
    if a != [] {
      var n := |a| - 1;
      assert a[n] in multiset(b);
      var m := |b| - 1;
      LastIsLast(a, b);
      AllButLast(a);
      AllButLast(b);
      PrefixDistinct(a, n);
      AscendingUnique(a[..n], b[..m]);
    }
  }

  lemma AllButLast(a: seq<File>)
    requires a != []
    ensures var n := |a| - 1;
            && a == a[..n] + [a[n]] && multiset(a[..n]) == multiset(a) - multiset{a[n]}
            && (Ascending(a) ==> Ascending(a[..n]))
  {
    hide Before;
    assert a == a[..|a| - 1] + [a[|a| - 1]];
  }

  lemma LastIsLast(a: seq<File>, b: seq<File>)
    requires Ascending(a) && Ascending(b) && multiset(a) == multiset(b) && a != [] && b != []
    requires DistinctPaths(a)
    ensures a[|a| - 1] == b[|b| - 1]
  {
    hide Before;
    var x, y := a[|a| - 1], b[|b| - 1];
    assert x in multiset(b) && y in multiset(a);
    var i :| 0 <= i < |a| && a[i] == y;
    var j :| 0 <= j < |b| && b[j] == x;
    BeforeIsTotal(x.path, y.path);
    assert i < |a| - 1 ==> NotAfter(y, x);
    assert j < |b| - 1 ==> NotAfter(x, y);
  }

  /** The package depends on the files and not on the order they are given in. */
  lemma EncodeCanonical(a: seq<File>, b: seq<File>)
    requires multiset(a) == multiset(b) && DistinctPaths(a)
    ensures Encode(a) == Encode(b)
  {
    hide Sorted, PathOk, Package, Ascending, AllWritable, Sizes;
    SortedIs(a);
    SortedIs(b);
    DistinctPermuted(a, Sorted(a), (f: File) => f.path);
    AscendingUnique(Sorted(a), Sorted(b));
    SamePaths(a, b);
    SamePaths(b, a);
  }

  lemma SamePaths(a: seq<File>, b: seq<File>)
    requires multiset(a) == multiset(b)
    ensures (forall k :: 0 <= k < |a| ==> PathOk(a[k].path)) ==> forall k :: 0 <= k < |b| ==> PathOk(b[k].path)
  {
    hide PathOk;
    forall k | 0 <= k < |b|
      ensures b[k] in a
    {
      assert b[k] in multiset(b);
    }
  }
}
