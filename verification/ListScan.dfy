/** The loops of parseLineBytes (src/dns/listParser.js) on a line inside a larger buffer. */
module ListScan {
  import opened Bytes
  import opened DomainNames
  import opened ListLines

  /** The byte behind a line: none, a line end, a space or the start of a comment. */
  predicate Ended(buf: Bytes, e: nat) {
    e <= |buf| && (e == |buf| || buf[e] == NL || IsSpace(buf[e]) || buf[e] == HASH)
  }

  /** buf[i], which is undefined behind the end of the buffer. */
  function At(buf: Bytes, i: nat): int {
    if i < |buf| then buf[i] else -1
  }

  lemma Slice(buf: Bytes, s: nat, e: nat)
    requires s < e <= |buf|
    ensures buf[s..e][1..] == buf[s + 1..e] && buf[s..e][0] == buf[s]
    ensures buf[s..e][..e - s - 1] == buf[s..e - 1] && buf[s..e][e - s - 1] == buf[e - 1]
  {
  }

  lemma StripLeftStep(buf: Bytes, p: nat, e: nat)
    requires p <= e <= |buf|
    ensures StripLeft(buf[p..e]) == if p < e && IsSpace(buf[p]) then StripLeft(buf[p + 1..e]) else buf[p..e]
  {
    if p < e {
      Slice(buf, p, e);
    }
  }

  method SkipSpaces(buf: Bytes, s: nat, e: nat) returns (p: nat)
    requires s <= e <= |buf|
    ensures s <= p <= e && buf[p..e] == StripLeft(buf[s..e]) && (p < e ==> !IsSpace(buf[p]))
  {
    hide StripLeft;
    p := s;
    StripLeftStep(buf, p, e);
    while p < e && IsSpace(buf[p])
      invariant s <= p <= e && StripLeft(buf[p..e]) == StripLeft(buf[s..e])
    {
      StripLeftStep(buf, p, e);
      p := p + 1;
    }
    StripLeftStep(buf, p, e);
  }

  method DropSpaces(buf: Bytes, s: nat, e: nat) returns (q: nat)
    requires s <= e && Ended(buf, e)
    ensures s <= q <= e && buf[s..q] == StripRight(buf[s..e]) && Ended(buf, q)
  {
    q := e;
    while q > s && IsSpace(buf[q - 1])
      invariant s <= q <= e && StripRight(buf[s..q]) == StripRight(buf[s..e]) && Ended(buf, q)
    {
      Slice(buf, s, q);
      q := q - 1;
    }
    if q > s {
      Slice(buf, s, q);
    }
  }

  /** Buffer.indexOf: the first `c` of the whole buffer from `from` on, or its length. */
  method IndexOf(buf: Bytes, c: byte, from: nat) returns (k: nat)
    requires from <= |buf|
    ensures k == Find(buf, c, from)
  {
    k := from;
    while k < |buf| && buf[k] != c
      invariant from <= k <= |buf| && Find(buf, c, from) == Find(buf, c, k)
    {
      k := k + 1;
    }
  }

  /** Searching the whole buffer and then comparing with the line end is searching the line. */
  lemma FindInSlice(buf: Bytes, s: nat, e: nat, c: byte, i: nat)
    requires s + i <= e <= |buf|
    ensures Find(buf[s..e], c, i) == if Find(buf, c, s + i) < e then Find(buf, c, s + i) - s else e - s
  {
    var b := buf[s..e];
    var k, m := Find(b, c, i), Find(buf, c, s + i);
    assert forall j :: 0 <= j < |b| ==> b[j] == buf[s + j];
    if k < |b| {
      assert buf[s + k] == c;
      assert m <= s + k;
    }
    if m < e {
      assert b[m - s] == c;
      assert k <= m - s;
    }
  }

  method DomainHashBytes(buf: Bytes, s: nat, e: nat, slow: Slow) returns (h: Option<nat>)
    requires s <= e <= |buf|
    ensures h == DomainHash(buf[s..e], slow)
  {
    var v := HashDomainBytes(buf, s, e);
    match v
    case Hash(n) => h := Some(n);
    case Invalid => h := None;
    case NotAscii => h := slow(buf[s..e]);
  }

  method ParseAdblockBytes(buf: Bytes, s: nat, e: nat, slow: Slow) returns (r: Line)
    requires s < e && Ended(buf, e)
    ensures r == ParseAdblock(buf[s..e], slow)
  {
    hide DomainHash, Find, IsAdblockOption;
    Peek(buf, s, e, 0);
    var first := buf[s];
    if first == BANG || first == BRACKET || first == HASH {
      return NONE;
    }
    var p := s;
    var kind := Suffix;
    Peek(buf, s, e, 1);
    if first == AT && At(buf, s + 1) == AT as int {
      kind := Except;
      p := p + 2;
    }
    Peek(buf, s, e, p - s);
    Peek(buf, s, e, p - s + 1);
    if At(buf, p) != PIPE as int || At(buf, p + 1) != PIPE as int {
      return NONE;
    }
    p := p + 2;
    var caret := IndexOf(buf, CARET, p);
    FindInSlice(buf, s, e, CARET, p - s);
    if caret >= e {
      return NONE;
    }
    SliceOfSlice(buf, s, e, caret + 1 - s, e - s);
    SliceOfSlice(buf, s, e, p - s, caret - s);
    if !IsAdblockOption(buf[caret + 1..e]) {
      return NONE;
    }
    var h := DomainHashBytes(buf, p, caret, slow);
    if h.None? {
      return NONE;
    }
    r := Line(true, [Entry(kind, h.value)]);
  }

  /** A byte of the line or the one behind it, which is never one of the characters looked for. */
  lemma Peek(buf: Bytes, s: nat, e: nat, i: nat)
    requires s < e && Ended(buf, e)
    ensures s + i < e ==> i < |buf[s..e]| && At(buf, s + i) == buf[s..e][i] as int
    ensures s + i == e ==> At(buf, s + i) !in {AT as int, PIPE as int, DOT as int}
  {
  }

  method IsIpBytes(buf: Bytes, s: nat, e: nat) returns (r: bool)
    requires s <= e <= |buf|
    ensures r == IsIp(buf[s..e])
  {
    ghost var b := buf[s..e];
    if e - s < 2 || e - s > 39 {
      return false;
    }
    for i := s to e
      invariant forall j :: 0 <= j < i - s ==> IsIpByte(b[j])
    {
      assert b[i - s] == buf[i];
      if !IsIpByte(buf[i]) {
        return false;
      }
    }
    r := true;
  }

  method TokenEnd(buf: Bytes, s: nat, e: nat) returns (p: nat)
    requires s <= e <= |buf|
    ensures s <= p <= e && p - s == FindSpace(buf[s..e], 0)
  {
    p := s;
    ghost var b := buf[s..e];
    while p < e && !IsSpace(buf[p])
      invariant s <= p <= e && FindSpace(b, 0) == FindSpace(b, p - s)
    {
      assert b[p - s] == buf[p];
      p := p + 1;
    }
    assert p < e ==> b[p - s] == buf[p];
  }

  method ParseHostsBytes(buf: Bytes, s: nat, e: nat, slow: Slow) returns (r: Line)
    requires s <= e <= |buf|
    ensures r == ParseHosts(buf[s..e], slow)
  {
    hide HostEntry, HostEntries, FindSpace, StripLeft, IsSkippedHost, DomainHash, Hash53;
    ghost var b := buf[s..e];
    var p := TokenEnd(buf, s, e);
    SliceOfSlice(buf, s, e, 0, p - s);
    SliceOfSlice(buf, s, e, p - s, e - s);
    assert b[0..p - s] == b[..p - s] && b[p - s..e - s] == b[p - s..];
    var ip := IsIpBytes(buf, s, p);
    if !ip {
      return NONE;
    }
    var adds := [];
    ghost var all := HostEntries(buf[p..e], slow);
    while p < e
      invariant s <= p <= e && adds + HostEntries(buf[p..e], slow) == all
    {
      var t := SkipSpaces(buf, p, e);
      var q := TokenEnd(buf, t, e);
      HostsNext(buf, p, t, q, e, slow, adds);
      if q > t {
        var h := DomainHashBytes(buf, t, q, slow);
        HostEntryIs(buf[t..q], slow);
        if h.Some? && !IsSkippedHost(h.value) {
          adds := adds + [Entry(Exact, h.value)];
        }
      }
      p := q;
    }
    NoHosts(buf[p..e], slow, adds);
    r := Line(adds != [], adds);
  }

  lemma HostEntryIs(token: Bytes, slow: Slow)
    ensures HostEntry(token, slow) ==
            var h := DomainHash(token, slow);
            if h.Some? && !IsSkippedHost(h.value) then [Entry(Exact, h.value)] else []
  {
    hide IsSkippedHost, DomainHash;
  }

  lemma NoHosts(b: Bytes, slow: Slow, adds: seq<Entry>)
    requires b == []
    ensures adds + HostEntries(b, slow) == adds
  {
    hide HostEntry;
  }

  lemma HostsNext(buf: Bytes, p: nat, t: nat, q: nat, e: nat, slow: Slow, adds: seq<Entry>)
    requires p <= t <= q <= e <= |buf| && p < e
    requires buf[t..e] == StripLeft(buf[p..e]) && q - t == FindSpace(buf[t..e], 0)
    requires t < e ==> !IsSpace(buf[t])
    ensures adds + HostEntries(buf[p..e], slow) ==
            (if q > t then adds + HostEntry(buf[t..q], slow) else adds) + HostEntries(buf[q..e], slow)
    ensures q > p
  {
    hide HostEntry, StripLeft;
    var r := buf[t..e];
    if t < e {
      Slice(buf, t, e);
      SliceOfSlice(buf, t, e, 0, q - t);
      SliceOfSlice(buf, t, e, q - t, e - t);
      assert r[0..q - t] == r[..q - t] && r[q - t..e - t] == r[q - t..];
      var x, y := HostEntry(buf[t..q], slow), HostEntries(buf[q..e], slow);
      assert HostEntries(buf[p..e], slow) == x + y;
      assert adds + (x + y) == (adds + x) + y;
    } else {
      assert r == [] && buf[q..e] == [];
    }
  }

  method ParseDomainBytes(buf: Bytes, s: nat, e: nat, slow: Slow) returns (r: Line)
    requires s < e && Ended(buf, e)
    ensures r == ParseDomain(buf[s..e], slow)
  {
    hide DomainHash;
    ghost var b := buf[s..e];
    var q := TokenEnd(buf, s, e);
    if q < e {
      return NONE;
    }
    Peek(buf, s, e, 0);
    Peek(buf, s, e, 1);
    var from := s;
    if buf[s] == STAR && At(buf, s + 1) == DOT as int {
      from := s + 2;
    } else if buf[s] == DOT {
      from := s + 1;
    }
    SliceOfSlice(buf, s, e, from - s, e - s);
    assert b[from - s..e - s] == b[from - s..];
    var h := DomainHashBytes(buf, from, e, slow);
    if h.None? {
      return NONE;
    }
    r := Line(true, [Entry(Suffix, h.value)]);
  }

  /** parseLineBytes: what it finds depends on the bytes of the line alone. */
  method ParseLineBytes(buf: Bytes, start: nat, end: nat, format: Format, slow: Slow) returns (r: Line)
    requires start <= end <= |buf| && (end == |buf| || buf[end] == NL)
    ensures r == ParseLine(buf[start..end], format, slow)
  {
    hide ParseAdblock, ParseHosts, ParseDomain, StripLeft, StripRight, Find, CutComment;
    var s := SkipSpaces(buf, start, end);
    var e := DropSpaces(buf, s, end);
    KeepsFirst(buf[s..end]);
    Stripped(buf[s..end]);
    if s >= e {
      return NONE;
    }
    Slice(buf, s, e);
    var first := buf[s];
    if format == Adblock {
      r := ParseAdblockBytes(buf, s, e, slow);
      return;
    }
    if first == HASH || first == BANG {
      return NONE;
    }
    e := CommentStart(buf, s, e);
    if format == Hosts {
      r := ParseHostsBytes(buf, s, e, slow);
    } else {
      r := ParseDomainBytes(buf, s, e, slow);
    }
  }

  method CommentStart(buf: Bytes, s: nat, e: nat) returns (q: nat)
    requires s < e && Ended(buf, e) && buf[s] != HASH && !IsSpace(buf[s])
    requires StripRight(buf[s..e]) == buf[s..e]
    ensures s < q <= e && Ended(buf, q) && buf[s..q] == CutComment(buf[s..e])
  {
    hide StripRight, Find;
    var cut := IndexOf(buf, HASH, s);
    FindInSlice(buf, s, e, HASH, 0);
    FirstKept(buf, s, e);
    ghost var b := buf[s..e];
    if cut < e {
      SliceOfSlice(buf, s, e, 0, cut - s);
      assert b[0..cut - s] == b[..cut - s];
      q := DropSpaces(buf, s, cut);
    } else {
      assert b[..|b|] == b;
      q := e;
    }
  }

  lemma Stripped(b: Bytes)
    ensures StripRight(StripRight(b)) == StripRight(b)
  {
  }

  lemma FirstKept(buf: Bytes, s: nat, e: nat)
    requires s < e <= |buf| && buf[s] != HASH && !IsSpace(buf[s])
    ensures CutComment(buf[s..e]) != [] && CutComment(buf[s..e])[0] == buf[s]
  {
  }
}
