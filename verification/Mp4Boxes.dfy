/** ISO/IEC 14496-12 boxes (section 4.2) in a byte buffer, as
    src/cameras/fmp4.js walks them.

    The program works with offsets into one buffer. The model adds the simple
    form next to it: the boxes of a stretch of bytes as the list of their own
    bytes (`Parts`), independent of where the stretch lies. `WalkIsPlacedParts`
    connects the two for every buffer. */
module Mp4Boxes {
  import opened Bytes

  datatype Box = Box(kind: Bytes, start: nat, size: nat, body: nat) {
    function End(): nat {
      start + size
    }
  }

  /** The header at `i` of a box inside buf[i, end); None where the program throws. */
  function HeaderAt(buf: Bytes, i: nat, end: nat): (r: Option<Box>)
    requires i + 8 <= end <= |buf|
    ensures r.Some? ==>
              && r.value.start == i && r.value.End() <= end
              && (r.value.body == i + 8 || r.value.body == i + 16)
              && r.value.body <= r.value.End()
              && |r.value.kind| == 4
  {
    var n := GetU32(buf, i);
    var kind := buf[i + 4..i + 8];
    if n == 1 then
      if i + 16 > end then None else
      var big := GetU64(buf, i + 8);
      if big > end - i || big < 16 then None else Some(Box(kind, i, big, i + 16))
    else
      var size := if n == 0 then end - i else n;
      if size < 8 || i + size > end then None else Some(Box(kind, i, size, i + 8))
  }

  /** The boxes of buf[i, end) from left to right; fewer than 8 bytes at the end are slack. */
  function Walk(buf: Bytes, i: nat, end: nat): (r: Option<seq<Box>>)
    requires i <= end <= |buf|
    decreases end - i
  {
    if i + 8 > end then Some([]) else
    var b :- HeaderAt(buf, i, end);
    var rest :- Walk(buf, b.End(), end);
    Some([b] + rest)
  }

  method Boxes(buf: Bytes, start: nat, end: nat) returns (r: Option<seq<Box>>)
    requires start <= end <= |buf|
    ensures r == Walk(buf, start, end)
  {
    var out := [];
    var i := start;
    assert Walk(buf, start, end).Some? ==> [] + Walk(buf, start, end).value == Walk(buf, start, end).value;
    while i + 8 <= end
      invariant start <= i <= end
      invariant Walk(buf, start, end) ==
                (if Walk(buf, i, end).None? then None else Some(out + Walk(buf, i, end).value))
    {
      var h := HeaderAt(buf, i, end);
      if h.None? {
        return None;
      }
      ghost var rest := Walk(buf, h.value.End(), end);
      assert rest.Some? ==> out + ([h.value] + rest.value) == out + [h.value] + rest.value;
      out := out + [h.value];
      i := h.value.End();
    }
    assert out + [] == out;
    r := Some(out);
  }

  // ---- The simple form: a list of boxes, each given by its own bytes ----

  /** `s` is one box and nothing else. */
  predicate IsBox(s: Bytes) {
    |s| >= 8 && HeaderAt(s, 0, |s|).Some? && HeaderAt(s, 0, |s|).value.size == |s|
  }

  /** The three ways to write a box with `head` bytes in front of its body
      (section 4.2 of ISO/IEC 14496-12): a 32-bit size, a size of 0 for a box
      up to the end, and a size of 1 with a 64-bit size behind the kind. */
  ghost predicate WrittenBox(s: Bytes, kind: Bytes, head: nat, body: Bytes) {
    && |kind| == 4
    && (|| (head == 8 && 8 + |body| < 0x1_0000_0000 && s == U32(8 + |body|) + kind + body)
        || (head == 8 && s == [0, 0, 0, 0] + kind + body)
        || (head == 16 && 16 + |body| < U64_LIMIT && s == [0, 0, 0, 1] + kind + U64(16 + |body|) + body))
  }

  /** What the header reader takes for one whole box is exactly what is written as one. */
  lemma BoxExactly(s: Bytes, kind: Bytes, head: nat, body: Bytes)
    ensures IsBox(s) && Kind(s) == kind && Head(s) == head && Body(s) == body <==> WrittenBox(s, kind, head, body)
  {
    if WrittenBox(s, kind, head, body) {
      WrittenIsBox(s, kind, head, body);
    }
    if IsBox(s) && Kind(s) == kind && Head(s) == head && Body(s) == body {
      BoxIsWritten(s);
    }
  }

  lemma WrittenIsBox(s: Bytes, kind: Bytes, head: nat, body: Bytes)
    requires WrittenBox(s, kind, head, body)
    ensures IsBox(s) && Kind(s) == kind && Head(s) == head && Body(s) == body
  {
    hide U32, U64, GetU64;
    assert s[4..8] == kind && s[head..] == body;
    if head == 8 {
      if 8 + |body| < 0x1_0000_0000 && s == U32(8 + |body|) + kind + body {
        assert s[0..4] == U32(8 + |body|);
        ReadBackU32(s, 0, 8 + |body|);
      }
    } else {
      assert s[8..16] == U64(16 + |body|);
      ReadBackU64(s, 8, 16 + |body|);
    }
  }

  lemma BoxIsWritten(s: Bytes)
    requires IsBox(s)
    ensures WrittenBox(s, Kind(s), Head(s), Body(s))
  {
    hide U32, U64, GetU64, GetU32;
    WriteBackU32(s, 0);
    assert s[0..4] + s[4..8] + s[8..] == s;
    if GetU32(s, 0) < 2 {
      SmallU32(s);
    }
    if GetU32(s, 0) == 1 {
      WriteBackU64(s, 8);
      assert s[0..4] + s[4..8] + s[8..16] + s[16..] == s;
    }
  }

  lemma SmallU32(s: Bytes)
    requires 4 <= |s| && GetU32(s, 0) < 2
    ensures s[0..4] == [0, 0, 0, GetU32(s, 0)]
  {
  }

  /** A size field of 0: the box runs to the end of whatever holds it. */
  predicate OpenEnded(s: Bytes)
    requires |s| >= 8
  {
    GetU32(s, 0) == 0
  }

  function Kind(s: Bytes): (k: Bytes)
    requires |s| >= 8
  {
    s[4..8]
  }

  function Head(s: Bytes): (n: nat)
    requires IsBox(s)
    ensures n <= |s| && (n == 8 || n == 16)
  {
    HeaderAt(s, 0, |s|).value.body
  }

  function Body(s: Bytes): Bytes
    requires IsBox(s)
  {
    s[Head(s)..]
  }

  /** The bytes of each box of `s`, in order. */
  function Parts(s: Bytes): (r: Option<seq<Bytes>>)
    ensures r.Some? ==> AllBoxes(r.value)
    decreases |s|
  {
    if |s| < 8 then Some([]) else
    var b :- HeaderAt(s, 0, |s|);
    var rest :- Parts(s[b.size..]);
    HeaderOfCut(s);
    Some([s[..b.size]] + rest)
  }

  predicate AllBoxes(ps: seq<Bytes>) {
    forall k :: 0 <= k < |ps| ==> IsBox(ps[k])
  }

  /** The bytes after the last box of `s`. */
  function Leftover(s: Bytes): Bytes
    requires Parts(s).Some?
    decreases |s|
  {
    if |s| < 8 then s else Leftover(s[HeaderAt(s, 0, |s|).value.size..])
  }

  /** Boxes that can stand behind each other: only the last may be open-ended. */
  predicate Chain(ps: seq<Bytes>) {
    && AllBoxes(ps)
    && forall k :: 0 <= k < |ps| - 1 ==> !OpenEnded(ps[k])
  }

  /** `slack` may follow `ps` without being read as part of a box. */
  predicate Slack(ps: seq<Bytes>, slack: Bytes) {
    && |slack| < 8
    && (|ps| > 0 && |ps[|ps| - 1]| >= 8 && OpenEnded(ps[|ps| - 1]) ==> slack == [])
  }

  /** `s` consists of the boxes `ps` and the slack behind them. */
  predicate Laid(s: Bytes, ps: seq<Bytes>, slack: Bytes) {
    s == Concat(ps) + slack && Chain(ps) && Slack(ps, slack)
  }

  /** Where the boxes `ps` lie when they are laid down from `at`. */
  function Placed(ps: seq<Bytes>, at: nat): (r: seq<Box>)
    requires AllBoxes(ps)
  {
    if |ps| == 0 then [] else
    assert IsBox(ps[0]);
    [Box(Kind(ps[0]), at, |ps[0]|, at + Head(ps[0]))] + Placed(ps[1..], at + |ps[0]|)
  }

  /** The length of the first `k` boxes. */
  function Before(ps: seq<Bytes>, k: nat): nat
    requires k <= |ps|
  {
    |Concat(ps[..k])|
  }

  // ---- Moving headers ----

  /** A header reads the same in the stretch cut out on its own. */
  lemma CutHeader(buf: Bytes, i: nat, end: nat)
    requires i + 8 <= end <= |buf|
    ensures HeaderAt(buf, i, end).Some? == HeaderAt(buf[i..end], 0, end - i).Some?
    ensures HeaderAt(buf, i, end).Some? ==>
              var x, y := HeaderAt(buf, i, end).value, HeaderAt(buf[i..end], 0, end - i).value;
              x.kind == y.kind && x.size == y.size && x.body == i + y.body
  {
    var s := buf[i..end];
    assert s[0] == buf[i] && s[1] == buf[i + 1] && s[2] == buf[i + 2] && s[3] == buf[i + 3];
    SliceOfSlice(buf, i, end, 4, 8);
    if i + 16 <= end {
      assert s[8] == buf[i + 8] && s[9] == buf[i + 9] && s[10] == buf[i + 10] && s[11] == buf[i + 11];
      assert s[12] == buf[i + 12] && s[13] == buf[i + 13] && s[14] == buf[i + 14] && s[15] == buf[i + 15];
    }
  }

  /** The box that a header announces is itself one box, with the same header. */
  lemma HeaderOfCut(s: Bytes)
    requires |s| >= 8 && HeaderAt(s, 0, |s|).Some?
    ensures var h := HeaderAt(s, 0, |s|).value; var p := s[..h.size];
            && IsBox(p) && Kind(p) == h.kind && Head(p) == h.body
            && (OpenEnded(p) ==> h.size == |s|)
  {
    var h := HeaderAt(s, 0, |s|).value;
    var p := s[..h.size];
    assert forall k :: 0 <= k < |p| ==> p[k] == s[k];
    assert p[4..8] == s[4..8];
  }

  /** A box followed by anything is found again as that box, unless it is open-ended. */
  lemma HeaderOfFirst(p: Bytes, rest: Bytes)
    requires IsBox(p) && (OpenEnded(p) ==> rest == [])
    ensures HeaderAt(p + rest, 0, |p + rest|) == HeaderAt(p, 0, |p|)
  {
    var s := p + rest;
    assert forall k :: 0 <= k < |p| ==> s[k] == p[k];
    assert s[4..8] == p[4..8];
  }

  // ---- Offsets and lists agree; lists can be laid down and read back ----

  lemma PlacedCons(p: Bytes, rest: seq<Bytes>, at: nat)
    requires IsBox(p) && AllBoxes(rest)
    ensures Placed([p] + rest, at) == [Box(Kind(p), at, |p|, at + Head(p))] + Placed(rest, at + |p|)
  {
    assert ([p] + rest)[1..] == rest;
  }

  /** The offset walk of any stretch is the list form of that stretch, laid down at its start. */
  lemma {:induction false} WalkIsPlacedParts(buf: Bytes, i: nat, end: nat)
    requires i <= end <= |buf|
    ensures Walk(buf, i, end).Some? == Parts(buf[i..end]).Some?
    ensures Parts(buf[i..end]).Some? ==>
              Walk(buf, i, end) == Some(Placed(Parts(buf[i..end]).value, i))
    decreases end - i
  {
    hide HeaderAt;
    var s := buf[i..end];
    if i + 8 <= end {
      CutHeader(buf, i, end);
      var h := HeaderAt(buf, i, end);
      if h.Some? {
        HeaderOfCut(s);
        var next := h.value.End();
        var p, rest := s[..h.value.size], s[h.value.size..];
        assert rest == buf[next..end];
        WalkIsPlacedParts(buf, next, end);
        if Parts(rest).Some? {
          assert Parts(s) == Some([p] + Parts(rest).value);
          PlacedCons(p, Parts(rest).value, i);
          assert h.value == Box(Kind(p), i, |p|, i + Head(p));
        }
      }
    }
  }

  /** Putting the announced box in front of the boxes behind it. */
  lemma LaidCons(s: Bytes, ps: seq<Bytes>, slack: Bytes)
    requires |s| >= 8 && HeaderAt(s, 0, |s|).Some?
    requires Laid(s[HeaderAt(s, 0, |s|).value.size..], ps, slack)
    ensures Laid(s, [s[..HeaderAt(s, 0, |s|).value.size]] + ps, slack)
  {
    HeaderOfCut(s);
    var n := HeaderAt(s, 0, |s|).value.size;
    hide HeaderAt;
    var p := s[..n];
    var qs := [p] + ps;
    ConcatCons(p, ps);
    assert s == p + s[n..];
    assert OpenEnded(p) ==> s[n..] == [];
    forall k | 0 <= k < |qs|
      ensures IsBox(qs[k]) && (k + 1 < |qs| ==> !OpenEnded(qs[k]))
    {
      if k == 0 {
        assert qs[k] == p;
        if |ps| > 0 {
          assert IsBox(ps[0]);
        }
      } else {
        assert qs[k] == ps[k - 1];
      }
    }
    assert ps != [] ==> qs[|qs| - 1] == ps[|ps| - 1];
  }

  /** What `Parts` finds is a chain that covers the bytes up to the slack. */
  lemma {:induction false} PartsAreLaid(s: Bytes)
    requires Parts(s).Some?
    ensures Laid(s, Parts(s).value, Leftover(s))
    decreases |s|
  {
    if |s| < 8 {
      assert s == Concat([]) + s;
    } else {
      hide HeaderAt, Laid;
      var rest := s[HeaderAt(s, 0, |s|).value.size..];
      PartsAreLaid(rest);
      LaidCons(s, Parts(rest).value, Leftover(rest));
    }
  }

  /** Boxes laid down behind each other, with any slack behind them, are read back as they are. */
  lemma {:induction false} PartsOfLaid(s: Bytes, ps: seq<Bytes>, slack: Bytes)
    requires Laid(s, ps, slack)
    ensures Parts(s) == Some(ps)
    ensures Leftover(s) == slack
    decreases |ps|
  {
    hide HeaderAt;
    if ps == [] {
      assert s == slack;
    } else {
      var p, qs := ps[0], ps[1..];
      var rest := Concat(qs) + slack;
      assert s == p + rest;
      assert OpenEnded(p) ==> qs == [];
      PartsOfLaid(rest, qs, slack);
      HeaderOfFirst(p, rest);
      assert s[..|p|] == p && s[|p|..] == rest;
      assert [p] + qs == ps;
    }
  }
}
