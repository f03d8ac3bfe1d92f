/** hash53 (src/dns/domainSet.js) tells similar names apart: each of its steps is
    a bijection of the 32-bit words, so that two names of one length which differ
    in a single byte never have the same hash. */
module HashLaws {
  import opened Bytes
  import opened DomainNames

  // ---- Exclusive or ----

  lemma {:induction false} XorLeft(k: nat, a: nat, b: nat, x: nat)
    requires a < Pow2(k) && b < Pow2(k) && XorBits(k, a, x) == XorBits(k, b, x)
    ensures a == b
  {
    if k > 0 {
      var p, q := XorBits(k - 1, a / 2, x / 2), XorBits(k - 1, b / 2, x / 2);
      assert p == q && (a + x) % 2 == (b + x) % 2 by { Digits(p, q, (a + x) % 2, (b + x) % 2); }
      hide XorBits;
      XorLeft(k - 1, a / 2, b / 2, x / 2);
      Parity(a, b, x);
    }
  }

  lemma Digits(p: nat, q: nat, u: nat, v: nat)
    requires 2 * p + u == 2 * q + v && u < 2 && v < 2
    ensures p == q && u == v
  {
  }

  lemma Parity(a: nat, b: nat, x: nat)
    requires a / 2 == b / 2 && (a + x) % 2 == (b + x) % 2
    ensures a == b
  {
  }

  lemma {:induction false} XorSwaps(k: nat, a: nat, b: nat)
    ensures XorBits(k, a, b) == XorBits(k, b, a)
  {
    if k > 0 {
      XorSwaps(k - 1, a / 2, b / 2);
    }
  }

  /** The number without its lowest `m` bits. */
  function Upper(a: nat, m: nat): (r: nat)
  {
    if m == 0 then a else Upper(a / 2, m - 1)
  }

  lemma {:induction false} UpperTwice(a: nat, m: nat, n: nat)
    ensures Upper(Upper(a, m), n) == Upper(a, m + n)
    decreases m
  {
    if m > 0 {
      UpperTwice(a / 2, m - 1, n);
    }
  }

  lemma {:induction false} UpperBound(a: nat, k: nat, m: nat)
    requires a < Pow2(k) && m <= k
    ensures Upper(a, m) < Pow2(k - m)
    decreases m
  {
    if m > 0 {
      UpperBound(a / 2, k - 1, m - 1);
    }
  }

  /** The upper bits of an exclusive or are those of the upper bits. */
  lemma {:induction false} XorUpper(k: nat, m: nat, a: nat, b: nat)
    requires m <= k
    ensures Upper(XorBits(k, a, b), m) == XorBits(k - m, Upper(a, m), Upper(b, m))
    decreases m
  {
    if m > 0 {
      XorUpper(k - 1, m - 1, a / 2, b / 2);
    }
  }

  /** Numbers that agree after the exclusive or with their own upper bits agree. */
  lemma {:induction false} ShiftFrom(k: nat, x: nat, y: nat, s: nat, m: nat)
    requires 0 < s && m <= k && x < Pow2(k) && y < Pow2(k)
    requires XorBits(k, x, Upper(x, s)) == XorBits(k, y, Upper(y, s))
    ensures Upper(x, m) == Upper(y, m)
    decreases k - m
  {
    UpperBound(x, k, m);
    UpperBound(y, k, m);
    if m < k {
      SameUpper(k, x, y, s, m);
      XorUpper(k, m, x, Upper(x, s));
      XorUpper(k, m, y, Upper(y, s));
      XorLeft(k - m, Upper(x, m), Upper(y, m), Upper(Upper(x, s), m));
    }
  }

  lemma SameUpper(k: nat, x: nat, y: nat, s: nat, m: nat)
    requires 0 < s && m < k && x < Pow2(k) && y < Pow2(k)
    requires XorBits(k, x, Upper(x, s)) == XorBits(k, y, Upper(y, s))
    ensures Upper(Upper(x, s), m) == Upper(Upper(y, s), m)
    decreases k - m, 0
  {
    hide XorBits, Pow2, Upper;
    var n := if m + s <= k then m + s else k;
    ShiftFrom(k, x, y, s, n);
    UpperTwice(x, s, m);
    UpperTwice(y, s, m);
    UpperTwice(x, n, m + s - n);
    UpperTwice(y, n, m + s - n);
  }

  lemma Folded(x: word, y: word, s: nat)
    requires 0 < s && Xor(x, XUpper(x, s)) == Xor(y, XUpper(y, s))
    ensures x == y
  {
    Pow2Of32();
    ShiftFrom(32, x, y, s, 0);
  }

  function XUpper(x: word, s: nat): (r: word)
  {
    UpperLess(x, s);
    Upper(x, s)
  }

  lemma UpperLess(a: nat, m: nat)
    ensures Upper(a, m) <= a
  {
  }

  /** The shifts of the hash. */
  lemma Shifts(x: word)
    ensures Upper(x, 13) == x / 8192 && Upper(x, 15) == x / 32768 && Upper(x, 16) == x / 65536
  {
    hide Upper;
    UpperBy4(x);
    UpperTwice(x, 4, 4);
    UpperBy4(x / 16);
    UpperTwice(x, 8, 4);
    UpperBy4(x / 256);
    UpperTwice(x, 12, 4);
    UpperBy4(x / 4096);
    UpperTwice(x, 12, 1);
    UpperTwice(x, 12, 3);
    UpperFew(x / 4096);
  }

  lemma UpperFew(x: nat)
    ensures Upper(x, 1) == x / 2 && Upper(x, 3) == x / 8
  {
    assert Upper(x, 3) == Upper(x / 2, 2) == Upper(x / 2 / 2, 1);
  }

  lemma UpperBy4(x: nat)
    ensures Upper(x, 4) == x / 16
  {
    assert Upper(x, 4) == Upper(x / 2, 3) == Upper(x / 2 / 2, 2) == Upper(x / 2 / 2 / 2, 1);
  }

  // ---- Multiplication ----

  lemma TimesOdd(a: word, b: word)
    ensures Times(a, 0x01000193) == Times(b, 0x01000193) ==> a == b
    ensures Times(a, 0x5bd1e995) == Times(b, 0x5bd1e995) ==> a == b
    ensures Times(a, 0x85ebca6b) == Times(b, 0x85ebca6b) ==> a == b
  {
    hide Times;
    Inverses();
    Inverse(a, b, 0x01000193, 0x359c449b);
    Inverse(a, b, 0x5bd1e995, 0xe59b19bd);
    Inverse(a, b, 0x85ebca6b, 0xa5cb9243);
  }

  lemma Inverses()
    ensures 0x01000193 * 0x359c449b % U32_LIMIT == 1
    ensures 0x5bd1e995 * 0xe59b19bd % U32_LIMIT == 1
    ensures 0x85ebca6b * 0xa5cb9243 % U32_LIMIT == 1
  {
  }

  /** A factor with an inverse modulo 2^32 loses nothing. */
  lemma Inverse(a: word, b: word, k: word, i: word)
    requires (k as int * i as int) % U32_LIMIT == 1
    ensures Times(a, k) == Times(b, k) ==> a == b
  {
    if Times(a, k) == Times(b, k) {
      var M, ai, ki, bi, ii := U32_LIMIT, a as int, k as int, b as int, i as int;
      var d, t := ai - bi, (ki * ii) / M;
      var e := (ai * ki) / M - (bi * ki) / M;
      assert d * ki == M * e;
      assert ki * ii == M * t + 1;
      calc {
        d;
        d * (ki * ii - M * t);
        d * (ki * ii) - d * (M * t);
        { assert d * (ki * ii) == (d * ki) * ii; assert d * (M * t) == M * (d * t); }
        (M * e) * ii - M * (d * t);
        { assert (M * e) * ii == M * (e * ii); }
        M * (e * ii) - M * (d * t);
        M * (e * ii - d * t);
      }
      Small(d, e * ii - d * t);
    }
  }

  lemma Small(d: int, z: int)
    requires d == U32_LIMIT * z && -U32_LIMIT < d < U32_LIMIT
    ensures d == 0
  {
  }

  // ---- The steps of the hash ----

  /** Both parts of a step depend on every bit of the state before it. */
  lemma MixState(g: Mixed, h: Mixed, c: byte)
    ensures Mix(g, c).h1 == Mix(h, c).h1 ==> g.h1 == h.h1
    ensures Mix(g, c).h2 == Mix(h, c).h2 ==> g.h2 == h.h2
  {
    hide XorBits;
    MixFold(Times(Xor(g.h2, c), 0x5bd1e995), Times(Xor(h.h2, c), 0x5bd1e995));
    TimesOdd(Xor(g.h2, c), Xor(h.h2, c));
    TimesOdd(Xor(g.h1, c), Xor(h.h1, c));
    XorState(g.h1, h.h1, c);
    XorState(g.h2, h.h2, c);
  }

  /** They also depend on every bit of the byte. */
  lemma MixByte(h: Mixed, c: byte, d: byte)
    ensures Mix(h, c).h1 == Mix(h, d).h1 ==> c == d
    ensures Mix(h, c).h2 == Mix(h, d).h2 ==> c == d
  {
    hide XorBits;
    MixFold(Times(Xor(h.h2, c), 0x5bd1e995), Times(Xor(h.h2, d), 0x5bd1e995));
    TimesOdd(Xor(h.h2, c), Xor(h.h2, d));
    TimesOdd(Xor(h.h1, c), Xor(h.h1, d));
    XorByte(h.h1, c, d);
    XorByte(h.h2, c, d);
  }

  lemma MixFold(a: word, b: word)
    ensures Xor(a, a / 8192) == Xor(b, b / 8192) ==> a == b
    ensures Xor(a, a / 32768) == Xor(b, b / 32768) ==> a == b
    ensures Xor(a, a / 65536) == Xor(b, b / 65536) ==> a == b
  {
    hide XorBits, Xor;
    Shifts(a);
    Shifts(b);
    if Xor(a, a / 8192) == Xor(b, b / 8192) {
      Folded(a, b, 13);
    }
    if Xor(a, a / 32768) == Xor(b, b / 32768) {
      Folded(a, b, 15);
    }
    if Xor(a, a / 65536) == Xor(b, b / 65536) {
      Folded(a, b, 16);
    }
  }

  lemma XorState(a: word, b: word, c: byte)
    ensures Xor(a, c) == Xor(b, c) ==> a == b
  {
    Pow2Of32();
    if Xor(a, c) == Xor(b, c) {
      XorLeft(32, a, b, c);
    }
  }

  lemma XorByte(a: word, c: byte, d: byte)
    ensures Xor(a, c) == Xor(a, d) ==> c == d
  {
    Pow2Of32();
    if Xor(a, c) == Xor(a, d) {
      XorSwaps(32, a, c);
      XorSwaps(32, a, d);
      XorLeft(32, c, d, a);
    }
  }

  /** The last step keeps the second part apart. */
  lemma FinishApart(g: Mixed, h: Mixed)
    ensures Finish(g) == Finish(h) ==> g.h2 == h.h2
  {
    hide XorBits, Xor, Times;
    var x, y := Xor(g.h2, g.h2 / 32768), Xor(h.h2, h.h2 / 32768);
    var a, b := Times(x, 0x85ebca6b), Times(y, 0x85ebca6b);
    MixFold(g.h2, h.h2);
    TimesOdd(x, y);
    MixFold(a, b);
  }

  /** The same bytes keep two states apart. */
  lemma {:induction false} ApartAfter(s: Bytes, t: Bytes, n: nat)
    requires |s| == |t| && n <= |s| && s[n..] == t[n..]
    requires MixAll(s[..n]).h1 != MixAll(t[..n]).h1 && MixAll(s[..n]).h2 != MixAll(t[..n]).h2
    ensures MixAll(s).h1 != MixAll(t).h1 && MixAll(s).h2 != MixAll(t).h2
    decreases |s|
  {
    hide Mix;
    if n == |s| {
      assert s[..n] == s && t[..n] == t;
    } else {
      var m := |s| - 1;
      assert s[m] == s[n..][m - n] == t[n..][m - n] == t[m];
      assert s[..m][n..] == s[n..][..m - n] == t[n..][..m - n] == t[..m][n..];
      assert s[..m][..n] == s[..n] && t[..m][..n] == t[..n];
      ApartAfter(s[..m], t[..m], n);
      MixState(MixAll(s[..m]), MixAll(t[..m]), s[m]);
    }
  }

  /** Names that differ in one byte have different hashes. */
  lemma OneByteApart(s: Bytes, k: nat, c: byte)
    requires k < |s| && c != s[k]
    ensures Hash53(s[k := c]) != Hash53(s)
    ensures MixAll(s[k := c]).h1 != MixAll(s).h1
  {
    hide Mix, Finish;
    var t := s[k := c];
    assert s[..k + 1][..k] == s[..k] && t[..k + 1][..k] == s[..k];
    assert s[k + 1..] == t[k + 1..];
    MixByte(MixAll(s[..k]), s[k], c);
    ApartAfter(s, t, k + 1);
    FinishApart(MixAll(s), MixAll(t));
  }

  /** The upper 21 bits are the lowest of the first part, and the lower 32 depend on the second part alone. */
  lemma FinishParts(g: Mixed, h: Mixed)
    ensures Finish(h) / 0x1_0000_0000 == h.h1 as int % 0x20_0000
    ensures g.h2 == h.h2 ==> Finish(g) % 0x1_0000_0000 == Finish(h) % 0x1_0000_0000
  {
    hide Xor, XorBits, Times;
  }
}
