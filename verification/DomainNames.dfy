/** Domain names of the DNS filter: hash53 and the ASCII part of cleanDomain
    (src/dns/domainSet.js), and hashDomainBytes (src/dns/listParser.js), which
    checks and hashes a name in one pass over its bytes. */
module DomainNames {
  import opened Bytes
  import opened Splitting

  const DOT: byte := 0x2e
  const DASH: byte := 0x2d

  // ---- hash53, in 32-bit arithmetic ----

  type word = x: int | 0 <= x < 0x1_0000_0000

  function Pow2(k: nat): (r: nat)
    ensures r >= 1
  {
    if k == 0 then 1 else 2 * Pow2(k - 1)
  }

  /** Exclusive or of the lowest `k` bits. */
  function XorBits(k: nat, a: nat, b: nat): (r: nat)
    ensures r < Pow2(k)
  {
    if k == 0 then 0 else 2 * XorBits(k - 1, a / 2, b / 2) + (a + b) % 2
  }

  function Xor(a: word, b: word): (r: word)
  {
    Pow2Of32();
    XorBits(32, a, b)
  }

  lemma Pow2Of32()
    ensures Pow2(32) == 0x1_0000_0000
  {
    assert Pow2(8) == 0x100;
    assert Pow2(16) == 0x1_0000;
    assert Pow2(24) == 0x100_0000;
  }

  /** Math.imul, as an unsigned number. */
  function Times(a: word, k: word): word {
    (a as int * k as int) % U32_LIMIT
  }

  datatype Mixed = Mixed(h1: word, h2: word)

  const SEED := Mixed(0x811c9dc5, 0x9747b28c)

  function Mix(h: Mixed, c: byte): Mixed {
    var a, b := Times(Xor(h.h1, c), 0x01000193), Times(Xor(h.h2, c), 0x5bd1e995);
    Mixed(a, Xor(b, b / 8192))
  }

  function MixAll(s: Bytes): Mixed {
    if s == [] then SEED else Mix(MixAll(s[..|s| - 1]), s[|s| - 1])
  }

  /** 21 bits of the first and 32 bits of the second hash. */
  function Finish(h: Mixed): (n: nat)
    ensures n < 0x20_0000_0000_0000
  {
    var b := Times(Xor(h.h2, h.h2 / 32768), 0x85ebca6b);
    (h.h1 % 0x20_0000) as int * U32_LIMIT + Xor(b, b / 65536)
  }

  function Hash53(s: Bytes): nat {
    Finish(MixAll(s))
  }

  // ---- cleanDomain, for ASCII names ----

  predicate Ascii(s: Bytes) {
    forall i :: 0 <= i < |s| ==> s[i] < 128
  }

  function Lower(c: byte): (d: byte) {
    if 0x41 <= c <= 0x5a then c + 32 else c
  }

  function LowerAll(s: Bytes): (r: Bytes)
    ensures |r| == |s|
  {
    if s == [] then [] else LowerAll(s[..|s| - 1]) + [Lower(s[|s| - 1])]
  }

  /** What String.prototype.trim takes for white space, within ASCII. */
  predicate IsBlank(c: byte) {
    c == 0x20 || 0x09 <= c <= 0x0d
  }

  function TrimLeft(s: Bytes): Bytes {
    if s != [] && IsBlank(s[0]) then TrimLeft(s[1..]) else s
  }

  function TrimRight(s: Bytes): Bytes {
    if s != [] && IsBlank(s[|s| - 1]) then TrimRight(s[..|s| - 1]) else s
  }

  function Trim(s: Bytes): Bytes {
    TrimRight(TrimLeft(s))
  }

  function DropDot(s: Bytes): Bytes {
    if s != [] && s[|s| - 1] == DOT then s[..|s| - 1] else s
  }

  predicate IsAlnum(c: byte) {
    0x61 <= c <= 0x7a || 0x30 <= c <= 0x39
  }

  /** A letter, a digit or '_': what a label may start and end with. */
  predicate IsOuter(c: byte) {
    IsAlnum(c) || c == 0x5f
  }

  predicate IsInner(c: byte) {
    IsOuter(c) || c == DASH
  }

  predicate AllInner(l: Bytes) {
    forall i :: 0 <= i < |l| ==> IsInner(l[i])
  }

  /** LABEL_RE: 1 to 63 letters, digits, '_' and '-', no '-' at either end. */
  predicate LabelOk(l: Bytes) {
    1 <= |l| <= 63 && AllInner(l) && l[0] != DASH && l[|l| - 1] != DASH
  }

  /** What a label of a cleaned name looks like. */
  lemma LabelExact(l: Bytes)
    ensures LabelOk(l) <==>
            && 1 <= |l| <= 63 && l[0] != '-' as int && l[|l| - 1] != '-' as int
            && forall i :: 0 <= i < |l| ==>
                             || 'a' as int <= l[i] <= 'z' as int || '0' as int <= l[i] <= '9' as int
                             || l[i] == '_' as int || l[i] == '-' as int
  {
  }

  predicate DigitsAndDots(s: Bytes) {
    forall i :: 0 <= i < |s| ==> s[i] == DOT || 0x30 <= s[i] <= 0x39
  }

  function Labels(s: Bytes): (r: seq<Bytes>)
    ensures |r| >= 1
  {
    Split(s, DOT)
  }

  predicate AllLabelsOk(ls: seq<Bytes>) {
    forall k :: 0 <= k < |ls| ==> LabelOk(ls[k])
  }

  /** The cleaned name, or None for what is no domain name. */
  function Clean(raw: Bytes): (r: Option<Bytes>)
    requires Ascii(raw)
  {
    var s := DropDot(LowerAll(Trim(raw)));
    if s == [] || |s| > 253 || DigitsAndDots(s) then None
    else if |Labels(s)| < 2 || !AllLabelsOk(Labels(s)) then None
    else Some(s)
  }

  /** What cleanDomain makes of a text in lower case without white space around it or a dot at its end. */
  lemma CleanExact(s: Bytes)
    requires Ascii(s) && s != [] && Trim(s) == s && LowerAll(s) == s && s[|s| - 1] != '.' as int
    ensures Clean(s) ==
            if && |s| <= 253 && |Labels(s)| >= 2 && AllLabelsOk(Labels(s))
               && exists i :: 0 <= i < |s| && s[i] != '.' as int && !('0' as int <= s[i] <= '9' as int)
            then Some(s) else None
  {
    hide Split, Trim, LowerAll, AllLabelsOk;
  }

  // ---- hashDomainBytes: one pass over the bytes ----

  datatype Verdict = Hash(h: nat) | Invalid | NotAscii

  datatype Scan =
    | Going(h: Mixed, labelLen: nat, dots: nat, prev: byte, alpha: bool)
    | Over(v: Verdict)

  function Step(st: Scan, b: byte): Scan {
    if st.Over? then st
    else if b >= 0x80 then Over(NotAscii)
    else
      var c := Lower(b);
      if c == DOT then
        if st.labelLen == 0 || st.prev == DASH then Over(Invalid)
        else Going(Mix(st.h, c), 0, st.dots + 1, c, st.alpha)
      else if IsOuter(c) || (c == DASH && st.labelLen > 0) then
        if st.labelLen + 1 > 63 then Over(Invalid)
        else Going(Mix(st.h, c), st.labelLen + 1, st.dots, c, st.alpha || c > 0x39)
      else Over(Invalid)
  }

  function ScanAll(s: Bytes): Scan {
    if s == [] then Going(SEED, 0, 0, DOT, false) else Step(ScanAll(s[..|s| - 1]), s[|s| - 1])
  }

  function FinalVerdict(st: Scan): Verdict {
    if st.Over? then st.v
    else if st.labelLen == 0 || st.prev == DASH || st.dots == 0 || !st.alpha then Invalid
    else Hash(Finish(st.h))
  }

  /** The verdict on the bytes of one name. */
  function DomainVerdict(s: Bytes): Verdict {
    var d := DropDot(s);
    if |d| < 3 || |d| > 253 then Invalid else FinalVerdict(ScanAll(d))
  }

  method HashDomainBytes(buf: Bytes, s: nat, e: nat) returns (r: Verdict)
    requires s <= e <= |buf|
    ensures r == DomainVerdict(buf[s..e])
  {
    hide Mix, Finish, ScanAll, DropDot;
    EmptyScan(buf, s);
    var end := e;
    if end > s && buf[end - 1] == DOT {
      end := end - 1;
    }
    DropDotSlice(buf, s, e);
    if end - s < 3 || end - s > 253 {
      return Invalid;
    }
    var h, labelLen, dots, prev: byte, alpha := SEED, 0, 0, DOT, false;
    var i := s;
    while i < end
      invariant s <= i <= end && 0 <= labelLen && 0 <= dots
      invariant ScanAll(buf[s..i]) == Going(h, labelLen, dots, prev, alpha)
    {
      ScanNext(buf, s, i);
      var c := buf[i];
      if c >= 0x80 {
        OverStays(buf, s, i + 1, end);
        return NotAscii;
      }
      c := Lower(c);
      if c == DOT {
        if labelLen == 0 || prev == DASH {
          OverStays(buf, s, i + 1, end);
          return Invalid;
        }
        dots := dots + 1;
        labelLen := 0;
      } else if IsOuter(c) || (c == DASH && labelLen > 0) {
        labelLen := labelLen + 1;
        if labelLen > 63 {
          OverStays(buf, s, i + 1, end);
          return Invalid;
        }
        if c > 0x39 {
          alpha := true;
        }
      } else {
        OverStays(buf, s, i + 1, end);
        return Invalid;
      }
      prev := c;
      h := Mix(h, c);
      i := i + 1;
    }
    if labelLen == 0 || prev == DASH || dots == 0 || !alpha {
      return Invalid;
    }
    r := Hash(Finish(h));
  }

  lemma EmptyScan(buf: Bytes, s: nat)
    requires s <= |buf|
    ensures ScanAll(buf[s..s]) == Going(SEED, 0, 0, DOT, false)
  {
  }

  lemma DropDotSlice(buf: Bytes, s: nat, e: nat)
    requires s <= e <= |buf|
    ensures DropDot(buf[s..e]) == buf[s..if e > s && buf[e - 1] == DOT then e - 1 else e]
  {
    if e > s {
      assert buf[s..e][|buf[s..e]| - 1] == buf[e - 1];
      assert buf[s..e][..|buf[s..e]| - 1] == buf[s..e - 1];
    }
  }

  lemma ScanNext(buf: Bytes, s: nat, i: nat)
    requires s <= i < |buf|
    ensures ScanAll(buf[s..i + 1]) == Step(ScanAll(buf[s..i]), buf[i])
  {
    hide Step;
    assert buf[s..i + 1][..i - s] == buf[s..i];
  }

  lemma {:induction false} OverStays(buf: Bytes, s: nat, i: nat, e: nat)
    requires s <= i <= e <= |buf| && ScanAll(buf[s..i]).Over?
    ensures ScanAll(buf[s..e]) == ScanAll(buf[s..i])
    decreases e
  {
    hide Mix;
    if i < e {
      OverStays(buf, s, i, e - 1);
      ScanNext(buf, s, e - 1);
    }
  }

  // ---- The one-pass form and cleanDomain ----

  /** A letter or '_'. */
  predicate IsAlpha(c: byte) {
    Lower(c) == 0x5f || 0x61 <= Lower(c) <= 0x7a
  }

  predicate HasAlpha(s: Bytes) {
    exists i :: 0 <= i < |s| && IsAlpha(s[i])
  }

  /** A label that may still grow into a good one. */
  predicate Partial(l: Bytes) {
    |l| <= 63 && AllInner(l) && (l != [] ==> l[0] != DASH)
  }

  /** Good labels up to the last, which may still grow. */
  predicate Good(ls: seq<Bytes>)
    requires |ls| >= 1
  {
    AllLabelsOk(ls[..|ls| - 1]) && Partial(ls[|ls| - 1])
  }

  lemma LabelsNext(t: Bytes, c: byte)
    ensures var ls := Labels(t);
            Labels(t + [c]) == if c == DOT then ls + [[]] else ls[..|ls| - 1] + [ls[|ls| - 1] + [c]]
  {
    assert (t + [c])[..|t|] == t;
  }

  lemma LastOfLabels(t: Bytes)
    ensures var l := Labels(t)[|Labels(t)| - 1];
            l != [] ==> t != [] && t[|t| - 1] == l[|l| - 1]
  {
  }

  /** Whether the labels stay good when a character is added. */
  lemma GoodNext(ls: seq<Bytes>, c: byte)
    requires |ls| >= 1
    ensures var l := ls[|ls| - 1];
            && Good(ls + [[]]) == (Good(ls) && l != [] && l[|l| - 1] != DASH)
            && Good(ls[..|ls| - 1] + [l + [c]]) == (Good(ls) && |l| < 63 && (IsOuter(c) || (c == DASH && l != [])))
  {
    var n := |ls| - 1;
    var l := ls[n];
    var a, b := ls + [[]], ls[..n] + [l + [c]];
    assert a[..|a| - 1] == ls && b[..|b| - 1] == ls[..n];
    assert AllLabelsOk(ls) == (AllLabelsOk(ls[..n]) && LabelOk(l)) by {
      assert forall k :: 0 <= k < n ==> ls[..n][k] == ls[k];
    }
    var m := l + [c];
    assert m[|l|] == c;
    assert AllInner(m) == (AllInner(l) && IsInner(c)) by {
      assert forall k :: 0 <= k < |l| ==> m[k] == l[k];
    }
  }

  function Last(t: Bytes): byte {
    if t == [] then DOT else t[|t| - 1]
  }

  /** What the scan of an ASCII text has found. */
  predicate ScanFound(s: Bytes) {
    var t := LowerAll(s);
    var ls := Labels(t);
    if Good(ls) then ScanAll(s) == Going(MixAll(t), |ls[|ls| - 1]|, |ls| - 1, Last(t), HasAlpha(s))
    else ScanAll(s) == Over(Invalid)
  }

  lemma {:induction false} ScanIs(s: Bytes)
    requires Ascii(s)
    ensures ScanFound(s)
    decreases |s|
  {
    hide Mix;
    if s == [] {
      assert Labels([]) == [[]];
    } else {
      var r, b := s[..|s| - 1], s[|s| - 1];
      assert s == r + [b];
      assert Ascii(r) && b < 128;
      ScanIs(r);
      ScanFoundNext(r, b);
    }
  }

  lemma ScanFoundNext(r: Bytes, b: byte)
    requires b < 128 && ScanFound(r)
    ensures ScanFound(r + [b])
  {
    hide Mix, Good, Split;
    var s, t, c := r + [b], LowerAll(r), Lower(b);
    var ls := Labels(t);
    assert s[..|r|] == r;
    assert LowerAll(s) == t + [c];
    assert ScanAll(s) == Step(ScanAll(r), b);
    assert MixAll(t + [c]) == Mix(MixAll(t), c) by { assert (t + [c])[..|t|] == t; }
    LabelsNext(t, c);
    GoodNext(ls, c);
    LastOfLabels(t);
    AlphaNext(r, b);
  }

  lemma AlphaNext(r: Bytes, b: byte)
    ensures HasAlpha(r + [b]) == (HasAlpha(r) || IsAlpha(b))
  {
    var s := r + [b];
    assert s[|r|] == b;
    if HasAlpha(r) {
      var i :| 0 <= i < |r| && IsAlpha(r[i]);
      assert s[i] == r[i];
    }
  }

  lemma {:induction false} LowerAt(s: Bytes, i: nat)
    requires i < |s|
    ensures LowerAll(s)[i] == Lower(s[i])
    decreases |s|
  {
    if i < |s| - 1 {
      LowerAt(s[..|s| - 1], i);
    }
  }

  lemma {:induction false} LowerAppend(a: Bytes, b: Bytes)
    ensures LowerAll(a + b) == LowerAll(a) + LowerAll(b)
    decreases |b|
  {
    var s := a + b;
    if b == [] {
      assert s == a;
    } else {
      var n := |b| - 1;
      assert s[..|s| - 1] == a + b[..n] && s[|s| - 1] == b[n];
      LowerAppend(a, b[..n]);
    }
  }

  /** The two texts differ at most in the case of letters. */
  predicate CaseAlike(a: Bytes, b: Bytes) {
    && |a| == |b|
    && forall k :: 0 <= k < |a| ==>
                     || a[k] == b[k]
                     || ('A' as int <= a[k] <= 'Z' as int && b[k] == a[k] + 32)
                     || ('A' as int <= b[k] <= 'Z' as int && a[k] == b[k] + 32)
  }

  /** Lower-casing makes exactly such texts the same. */
  lemma {:induction false} LowerExact(a: Bytes, b: Bytes)
    ensures LowerAll(a) == LowerAll(b) <==> CaseAlike(a, b)
  {
    if CaseAlike(a, b) {
      forall k | 0 <= k < |a|
        ensures LowerAll(a)[k] == LowerAll(b)[k]
      {
        LowerAt(a, k);
        LowerAt(b, k);
      }
    } else if |a| == |b| {
      var k :| 0 <= k < |a| && a[k] != b[k] && !('A' as int <= a[k] <= 'Z' as int && b[k] == a[k] + 32)
               && !('A' as int <= b[k] <= 'Z' as int && a[k] == b[k] + 32);
      LowerAt(a, k);
      LowerAt(b, k);
    }
  }

  lemma {:induction false} ScanAlike(a: Bytes, b: Bytes)
    requires CaseAlike(a, b)
    ensures ScanAll(a) == ScanAll(b)
    decreases |a|
  {
    hide Mix;
    if a != [] {
      var n := |a| - 1;
      ScanAlike(a[..n], b[..n]);
      assert Lower(a[n]) == Lower(b[n]) && (a[n] >= 0x80 <==> b[n] >= 0x80);
    }
  }

  /** The case of letters makes no difference to the verdict and the hash. */
  lemma VerdictAlike(a: Bytes, b: Bytes)
    requires CaseAlike(a, b)
    ensures DomainVerdict(a) == DomainVerdict(b)
  {
    hide ScanAll, Finish;
    ScanAlike(DropDot(a), DropDot(b));
  }

  lemma LowerDropDot(s: Bytes)
    ensures LowerAll(DropDot(s)) == DropDot(LowerAll(s))
    ensures HasAlpha(DropDot(s)) == HasAlpha(s)
  {
    if s != [] {
      LowerAt(s, |s| - 1);
      AlphaNext(s[..|s| - 1], s[|s| - 1]);
      assert s == s[..|s| - 1] + [s[|s| - 1]];
    }
  }

  /** Good labels contain no other character than label characters and dots. */
  lemma GoodChars(t: Bytes, i: nat)
    requires Good(Labels(t)) && i < |t|
    ensures t[i] == DOT || IsInner(t[i])
  {
    hide Split, Join;
    var ls := Labels(t);
    JoinSplit(t, DOT);
    JoinMembers(ls, DOT, t[i]);
    if k :| 0 <= k < |ls| && t[i] in ls[k] {
      assert k < |ls| - 1 ==> LabelOk(ls[..|ls| - 1][k]);
      var j :| 0 <= j < |ls[k]| && ls[k][j] == t[i];
      assert AllInner(ls[k]);
    }
  }

  lemma {:induction false} TrimmedEnds(s: Bytes)
    ensures Trim(s) == s <==> s == [] || (!IsBlank(s[0]) && !IsBlank(s[|s| - 1]))
  {
    if s != [] && IsBlank(s[0]) {
      LeftShorter(s[1..]);
      RightShorter(TrimLeft(s));
    } else if s != [] && IsBlank(s[|s| - 1]) {
      RightShorter(s[..|s| - 1]);
    }
  }

  lemma LeftShorter(s: Bytes)
    ensures |TrimLeft(s)| <= |s|
  {
  }

  lemma RightShorter(s: Bytes)
    ensures |TrimRight(s)| <= |s|
  {
  }

  lemma BlankRefused(d: Bytes, i: nat)
    requires Ascii(d) && i < |d| && IsBlank(d[i])
    ensures ScanAll(d) == Over(Invalid)
  {
    hide Split, Good;
    ScanIs(d);
    LowerAt(d, i);
    if Good(Labels(LowerAll(d))) {
      GoodChars(LowerAll(d), i);
    }
  }

  lemma TwoLabels(t: Bytes)
    requires |Labels(t)| >= 2 && AllLabelsOk(Labels(t))
    ensures |t| >= 3
  {
    hide Split;
    var ls := Labels(t);
    var n := |ls| - 1;
    JoinSplit(t, DOT);
    JoinFirst(ls[..n], DOT);
    assert LabelOk(ls[0]) && LabelOk(ls[n]);
  }

  lemma AlphaNoDigits(d: Bytes)
    requires HasAlpha(d)
    ensures !DigitsAndDots(LowerAll(d))
  {
    var i :| 0 <= i < |d| && IsAlpha(d[i]);
    LowerAt(d, i);
  }

  lemma GoodIsOk(t: Bytes)
    ensures var ls := Labels(t);
            AllLabelsOk(ls) <==> Good(ls) && ls[|ls| - 1] != [] && Last(t) != DASH
  {
    hide Split, AllInner;
    var ls := Labels(t);
    var n := |ls| - 1;
    LastOfLabels(t);
    assert AllLabelsOk(ls) == (AllLabelsOk(ls[..n]) && LabelOk(ls[n])) by {
      assert forall k :: 0 <= k < n ==> ls[..n][k] == ls[k];
    }
  }

  /** The one-pass check accepts exactly the unpadded ASCII names that cleanDomain
      accepts and that have a letter or '_', with their hash. */
  lemma HashDomainExact(s: Bytes)
    ensures Ascii(s) ==>
              DomainVerdict(s) ==
              if Trim(s) == s && Clean(s).Some? && HasAlpha(s) then Hash(Hash53(Clean(s).value)) else Invalid
    ensures !Ascii(s) ==> !DomainVerdict(s).Hash?
  {
    hide DomainVerdict, Trim, Clean, Hash53, HasAlpha;
    if Ascii(s) {
      HashAscii(s);
    } else {
      NotAsciiNotHashed(s);
    }
  }

  lemma HashAscii(s: Bytes)
    requires Ascii(s)
    ensures DomainVerdict(s) ==
            if Trim(s) == s && Clean(s).Some? && HasAlpha(s) then Hash(Hash53(Clean(s).value)) else Invalid
  {
    hide Split, Finish, MixAll, Good, ScanAll, Trim, LowerAll, AllLabelsOk, DropDot;
    var d := DropDot(s);
    var t := LowerAll(d);
    LowerDropDot(s);
    TrimmedEnds(s);
    DropDotPrefix(s);
    if Trim(s) == s {
      ScanIs(d);
      GoodIsOk(t);
      if |Labels(t)| >= 2 && AllLabelsOk(Labels(t)) {
        TwoLabels(t);
      }
      if HasAlpha(d) {
        AlphaNoDigits(d);
      }
    } else if IsBlank(s[0]) {
      BlankRefused(d, 0);
    } else {
      BlankRefused(d, |s| - 1);
    }
  }

  lemma DropDotPrefix(s: Bytes)
    requires Ascii(s)
    ensures Ascii(DropDot(s)) && DropDot(s) <= s
    ensures s != [] && (IsBlank(s[0]) || IsBlank(s[|s| - 1])) ==>
              DropDot(s) != [] && (IsBlank(s[|s| - 1]) ==> DropDot(s) == s)
  {
  }

  /** Text that is not ASCII never gets a hash from the one-pass check. */
  lemma NotAsciiNotHashed(s: Bytes)
    requires !Ascii(s)
    ensures !DomainVerdict(s).Hash?
  {
    hide Finish, ScanAll;
    var i :| 0 <= i < |s| && s[i] >= 0x80;
    var d := DropDot(s);
    assert i < |d| && d[i] == s[i];
    OverFrom(d, i);
    ScanOver(d);
  }

  lemma {:induction false} OverFrom(s: Bytes, i: nat)
    requires i < |s| && s[i] >= 0x80
    ensures ScanAll(s).Over?
    decreases |s|
  {
    hide Mix;
    if i < |s| - 1 {
      OverFrom(s[..|s| - 1], i);
    }
  }

  /** Every hash of a name is below 2^53, so it is exact as a JavaScript number. */
  lemma HashBelow53Bits(s: Bytes)
    ensures DomainVerdict(s).Hash? ==> DomainVerdict(s).h < 0x20_0000_0000_0000
  {
    hide ScanAll, Xor, Times;
    ScanOver(DropDot(s));
  }

  lemma {:induction false} ScanOver(s: Bytes)
    ensures ScanAll(s).Over? ==> ScanAll(s).v == Invalid || ScanAll(s).v == NotAscii
    decreases |s|
  {
    hide Mix;
    if s != [] {
      ScanOver(s[..|s| - 1]);
    }
  }

  /** Names of digits and '-' are where the two forms differ: cleanDomain accepts, the byte form does not. */
  lemma DigitsAndDashesDiffer()
    ensures Ascii([0x31, 0x2d, 0x32, 0x2e, 0x33]) && Clean([0x31, 0x2d, 0x32, 0x2e, 0x33]).Some?
    ensures DomainVerdict([0x31, 0x2d, 0x32, 0x2e, 0x33]) == Invalid
  {
    hide Split, Join, LowerAll, Trim, ScanAll, DomainVerdict;
    var s: Bytes := [0x31, 0x2d, 0x32, 0x2e, 0x33];
    TrimmedEnds(s);
    LowerDigits(s);
    SampleLabels();
    assert s[1] == DASH && s[4] != DOT;
    assert LabelOk([0x31, 0x2d, 0x32]) && LabelOk([0x33]);
    HashDomainExact(s);
  }

  lemma SampleLabels()
    ensures Labels([0x31, 0x2d, 0x32, 0x2e, 0x33]) == [[0x31, 0x2d, 0x32], [0x33]]
  {
    hide Split;
    var ls: seq<Bytes> := [[0x31, 0x2d, 0x32], [0x33]];
    SplitJoin(ls, DOT);
    assert ls[..1] == [[0x31, 0x2d, 0x32]];
    assert Join(ls, DOT) == [0x31, 0x2d, 0x32, 0x2e, 0x33];
  }

  lemma {:induction false} LowerDigits(s: Bytes)
    requires forall i :: 0 <= i < |s| ==> s[i] < 0x41
    ensures LowerAll(s) == s
    decreases |s|
  {
    if s != [] {
      LowerDigits(s[..|s| - 1]);
      assert s == s[..|s| - 1] + [s[|s| - 1]];
    }
  }
}
