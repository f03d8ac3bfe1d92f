/** What an accepted path of a plugin package is (checkPath of src/edge/gcplugin.js),
    stated on its bytes, and where it leads when a file system follows it. */
module PathLaws {
  import opened Bytes
  import opened Splitting
  import opened Container

  // ---- The bytes of a path ----

  /** A letter, a digit, '_', '-', '.' or '/'. */
  predicate PathByte(c: byte) {
    || 'a' as int <= c <= 'z' as int || 'A' as int <= c <= 'Z' as int || '0' as int <= c <= '9' as int
    || c == '_' as int || c == '-' as int || c == '.' as int || c == '/' as int
  }

  /** Position `i` is the first of a segment. */
  predicate StartsSegment(p: Bytes, i: nat)
    requires i < |p|
  {
    i == 0 || p[i - 1] == '/' as int
  }

  /** So far the path has no foreign byte, no empty segment before its last, no segment that
      starts with a dot, and no 101 bytes without a slash. */
  predicate CleanSoFar(p: Bytes) {
    && (forall i :: 0 <= i < |p| ==> PathByte(p[i]))
    && (forall i :: 0 <= i < |p| && StartsSegment(p, i) ==> p[i] != '/' as int && p[i] != '.' as int)
    && (forall i :: 0 <= i <= |p| - 101 ==> SlashNear(p, i))
  }

  /** One of the 101 bytes from `i` on is a slash. */
  predicate SlashNear(p: Bytes, i: nat)
    requires i + 101 <= |p|
  {
    exists j :: i <= j < i + 101 && p[j] == '/' as int
  }

  function Slashes(p: Bytes): (n: nat)
  {
    if p == [] then 0 else Slashes(p[..|p| - 1]) + if p[|p| - 1] == '/' as int then 1 else 0
  }

  /** 1 to 200 bytes and at most 11 slashes, none of them at an end or next to another, no
      dot at the start of a segment, and segments of at most 100 bytes. */
  predicate CleanPath(p: Bytes) {
    && 1 <= |p| <= 200 && p[|p| - 1] != '/' as int && Slashes(p) <= 11 && CleanSoFar(p)
  }

  // ---- The segments of a path ----

  predicate SegmentByte(c: byte) {
    PathByte(c) && c != '/' as int
  }

  /** A segment that may still grow. */
  predicate Growing(l: Bytes) {
    && |l| <= 100 && (l != [] ==> l[0] != '.' as int)
    && forall i :: 0 <= i < |l| ==> SegmentByte(l[i])
  }

  lemma GrownIsOk(l: Bytes)
    ensures SegmentOk(l) <==> l != [] && Growing(l)
  {
  }

  predicate GoodSegments(ls: seq<Bytes>)
    requires |ls| >= 1
  {
    (forall k :: 0 <= k < |ls| - 1 ==> ls[k] != [] && Growing(ls[k])) && Growing(ls[|ls| - 1])
  }

  lemma {:induction false} CountSlashes(t: Bytes)
    ensures |Segments(t)| == Slashes(t) + 1
    decreases |t|
  {
    if t != [] {
      CountSlashes(t[..|t| - 1]);
    }
  }

  /** One byte more. */
  lemma CleanNext(t: Bytes, c: byte)
    ensures CleanSoFar(t + [c]) <==>
            && CleanSoFar(t) && PathByte(c)
            && (t == [] || t[|t| - 1] == '/' as int ==> c != '/' as int && c != '.' as int)
            && (|t| >= 100 ==> SlashNear(t + [c], |t| - 100))
  {
    hide PathByte;
    var p, n := t + [c], |t|;
    assert forall i :: 0 <= i < n ==> p[i] == t[i] && StartsSegment(p, i) == StartsSegment(t, i);
    assert StartsSegment(p, n) <==> t == [] || t[n - 1] == '/' as int;
    assert p[n] == c;
    forall i | 0 <= i <= n - 101
      ensures SlashNear(p, i) == SlashNear(t, i)
    {
      if SlashNear(p, i) {
        var j :| i <= j < i + 101 && p[j] == '/' as int;
        assert t[j] == '/' as int;
      }
      if SlashNear(t, i) {
        var j :| i <= j < i + 101 && t[j] == '/' as int;
        assert p[j] == '/' as int;
      }
    }
  }

  /** How far the last slash is. */
  lemma NearBehind(t: Bytes, c: byte, l: Bytes)
    requires Behind(t, l, SLASH) && |t| >= 100
    ensures SlashNear(t + [c], |t| - 100) <==> c == '/' as int || |l| < 100
  {
    var p, n := t + [c], |t|;
    assert p[n] == c;
    assert forall j :: n - |l| <= j < n ==> p[j] == l[j - (n - |l|)];
    if |l| < 100 {
      assert p[n - |l| - 1] == '/' as int;
    }
  }

  lemma GoodNext(ls: seq<Bytes>, c: byte)
    requires |ls| >= 1
    ensures var l := ls[|ls| - 1];
            && (GoodSegments(ls + [[]]) <==> GoodSegments(ls) && l != [])
            && (GoodSegments(ls[..|ls| - 1] + [l + [c]]) <==>
                  GoodSegments(ls) && |l| < 100 && SegmentByte(c) && (l == [] ==> c != '.' as int))
  {
    hide SegmentByte;
    var n, l := |ls| - 1, ls[|ls| - 1];
    var a, b := ls + [[]], ls[..n] + [l + [c]];
    assert forall k :: 0 <= k < n ==> a[k] == ls[k] && b[k] == ls[k];
    assert a[n] == l && a[n + 1] == [] && b[n] == l + [c];
    GrowingNext(l, c);
  }

  lemma GrowingNext(l: Bytes, c: byte)
    ensures Growing(l + [c]) <==> Growing(l) && |l| < 100 && SegmentByte(c) && (l == [] ==> c != '.' as int)
    ensures Growing([])
  {
    hide SegmentByte;
    var m := l + [c];
    assert m[|l|] == c && forall i :: 0 <= i < |l| ==> m[i] == l[i];
  }

  lemma SlashNext(t: Bytes, ls: seq<Bytes>)
    requires |ls| >= 1 && Behind(t, ls[|ls| - 1], SLASH) && (CleanSoFar(t) <==> GoodSegments(ls))
    ensures CleanSoFar(t + ['/' as int]) <==> GoodSegments(ls + [[]])
  {
    hide CleanSoFar, GoodSegments;
    var l := ls[|ls| - 1];
    CleanNext(t, '/' as int);
    GoodNext(ls, '/' as int);
    LastOfPart(t, l, SLASH);
    if |t| >= 100 {
      NearBehind(t, '/' as int, l);
    }
  }

  lemma ByteNext(t: Bytes, c: byte, ls: seq<Bytes>)
    requires c != '/' as int && |ls| >= 1 && Behind(t, ls[|ls| - 1], SLASH) && (CleanSoFar(t) <==> GoodSegments(ls))
    ensures CleanSoFar(t + [c]) <==> GoodSegments(ls[..|ls| - 1] + [ls[|ls| - 1] + [c]])
  {
    hide CleanSoFar, GoodSegments;
    var l := ls[|ls| - 1];
    CleanNext(t, c);
    GoodNext(ls, c);
    LastOfPart(t, l, SLASH);
    if |t| >= 100 {
      NearBehind(t, c, l);
    }
  }

  lemma {:induction false} CleanIsGood(t: Bytes)
    ensures CleanSoFar(t) <==> GoodSegments(Segments(t))
    decreases |t|
  {
    hide CleanSoFar, GoodSegments, Behind;
    if t == [] {
      NoBytes();
    } else {
      var s, c := t[..|t| - 1], t[|t| - 1];
      assert t == s + [c];
      CleanIsGood(s);
      LastPart(s, SLASH);
      if c == '/' as int {
        SlashNext(s, Segments(s));
      } else {
        ByteNext(s, c, Segments(s));
      }
    }
  }

  lemma NoBytes()
    ensures CleanSoFar([]) && GoodSegments(Segments([]))
  {
  }

  lemma GoodIsOk(ls: seq<Bytes>)
    requires |ls| >= 1
    ensures (forall k :: 0 <= k < |ls| ==> SegmentOk(ls[k])) <==> GoodSegments(ls) && ls[|ls| - 1] != []
  {
    hide SegmentOk, Growing;
    forall k | 0 <= k < |ls|
      ensures SegmentOk(ls[k]) <==> ls[k] != [] && Growing(ls[k])
    {
      GrownIsOk(ls[k]);
    }
  }

  lemma CleanHasNone(p: Bytes)
    requires CleanPath(p)
    ensures p[0] != '/' as int && 0x5c !in p && 0 !in p
  {
    assert StartsSegment(p, 0);
    assert !PathByte(0x5c) && !PathByte(0);
  }

  /** checkPath accepts exactly the clean paths. */
  lemma PathExact(p: Bytes)
    ensures PathOk(p) <==> CleanPath(p)
  {
    hide CleanSoFar, Split, GoodSegments, SegmentOk;
    CleanIsGood(p);
    LastPart(p, SLASH);
    CountSlashes(p);
    GoodIsOk(Segments(p));
    LastOfPart(p, Segments(p)[|Segments(p)| - 1], SLASH);
    if CleanPath(p) {
      CleanHasNone(p);
    }
  }

  // ---- Following a path ----

  /** The folder that a file system comes to from the folder `at`: '..' leads up, '.' and nothing stay. */
  function Follow(at: seq<Bytes>, segs: seq<Bytes>): (r: seq<Bytes>)
  {
    if segs == [] then at else
    var here, s := Follow(at, segs[..|segs| - 1]), segs[|segs| - 1];
    if s == Codes("..") then (if here == [] then [] else here[..|here| - 1])
    else if s == Codes(".") || s == [] then here
    else here + [s]
  }

  lemma OkNoDots(s: Bytes)
    requires SegmentOk(s)
    ensures s != Codes("..") && s != Codes(".") && s != []
  {
    assert s[0] != 0x2e;
  }

  /** Followed from any folder, an accepted path goes down one level with every segment and never leaves. */
  lemma {:induction false} StaysInside(p: Bytes, at: seq<Bytes>, k: nat)
    requires PathOk(p) && k <= |Segments(p)|
    ensures Follow(at, Segments(p)[..k]) == at + Segments(p)[..k]
    decreases k
  {
    hide SegmentOk, Segments, Codes;
    var segs := Segments(p);
    if k == 0 {
      assert segs[..0] == [] && at + [] == at;
    } else {
      StaysInside(p, at, k - 1);
      OkNoDots(segs[k - 1]);
      assert segs[..k] == segs[..k - 1] + [segs[k - 1]];
      assert segs[..k][..k - 1] == segs[..k - 1];
    }
  }

  /** Every file of a package that decode accepts has a clean path and lies inside the folder it is put into,
      as many levels below as the path has segments. */
  lemma DecodedInside(raw: Bytes, at: seq<Bytes>, j: nat, k: nat)
    requires Decode(raw).Ok? && j < |Decode(raw).value| && k <= |Segments(Decode(raw).value[j].path)|
    ensures var f := Decode(raw).value[j];
            && CleanPath(f.path) && |Segments(f.path)| == Slashes(f.path) + 1
            && Follow(at, Segments(f.path)[..k]) == at + Segments(f.path)[..k]
  {
    hide CleanPath, Decode, PathOk, Segments, Slashes, Follow;
    var f := Decode(raw).value[j];
    assert PathOk(f.path) by {
      DecodeExact(raw, Decode(raw).value);
    }
    PathExact(f.path);
    StaysInside(f.path, at, k);
    CountSlashes(f.path);
  }
}
