/** From the text of a block list to the decision about a name (parseListStream of
    src/dns/listParser.js and CompactList.matches of src/dns/domainSet.js together). */
module ListNames {
  import opened Bytes
  import opened Splitting
  import opened DomainNames
  import opened HashList
  import opened ListLines
  import opened ListStream

  /** cleanDomain for names that are not ASCII, outside this model. */
  type Idn = Bytes -> Option<Bytes>

  /** The hashes of the slow path are those of the names. */
  ghost predicate Agrees(slow: Slow, idn: Idn) {
    forall b :: slow(b) == if idn(b).Some? then Some(Hash53(idn(b).value)) else None
  }

  // ---- The names of a line ----

  /** A piece of a line that should be a name, and what it is listed as. */
  datatype Offer = Offer(kind: Kind, token: Bytes)

  function AdblockOffers(b: Bytes): seq<Offer>
    requires b != []
  {
    if b[0] == BANG || b[0] == BRACKET || b[0] == HASH then [] else
    var except := b[0] == AT && |b| > 1 && b[1] == AT;
    var p := if except then 2 else 0;
    if p + 1 >= |b| || b[p] != PIPE || b[p + 1] != PIPE then [] else
    var caret := Find(b, CARET, p + 2);
    if caret == |b| || !IsAdblockOption(b[caret + 1..]) then [] else
    [Offer(if except then Except else Suffix, b[p + 2..caret])]
  }

  /** The words of a text. */
  function Words(b: Bytes): seq<Offer>
    decreases |b|
  {
    var r := StripLeft(b);
    if r == [] then [] else
    var q := FindSpace(r, 0);
    [Offer(Exact, r[..q])] + Words(r[q..])
  }

  function HostsOffers(b: Bytes): seq<Offer> {
    var p := FindSpace(b, 0);
    if IsIp(b[..p]) then Words(b[p..]) else []
  }

  function DomainOffers(b: Bytes): seq<Offer>
    requires b != []
  {
    if FindSpace(b, 0) < |b| then [] else
    [Offer(Suffix, if |b| > 1 && b[0] == STAR && b[1] == DOT then b[2..] else if b[0] == DOT then b[1..] else b)]
  }

  function Offers(line: Bytes, format: Format): seq<Offer> {
    var b := StripRight(StripLeft(line));
    KeepsFirst(StripLeft(line));
    if b == [] then []
    else if format == Adblock then AdblockOffers(b)
    else if b[0] == HASH || b[0] == BANG then []
    else if format == Hosts then HostsOffers(CutComment(b))
    else DomainOffers(CutComment(b))
  }

  /** The name that a piece of a line stands for: cleanDomain, but ASCII names need a letter
      or underscore and no white space around them. */
  function NameOf(token: Bytes, idn: Idn): Option<Bytes> {
    if Ascii(token) then (if Trim(token) == token && HasAlpha(token) then Clean(token) else None)
    else if DomainVerdict(token) == NotAscii then idn(token)
    else None
  }

  lemma NameIsHashed(token: Bytes, slow: Slow, idn: Idn)
    requires Agrees(slow, idn)
    ensures var n := NameOf(token, idn);
            DomainHash(token, slow) == if n.Some? then Some(Hash53(n.value)) else None
  {
    hide DomainVerdict, Clean, Hash53, Trim;
    HashDomainExact(token);
  }

  /** Names of the machine itself are left out of hosts lists. */
  predicate LeftOut(kind: Kind, name: Bytes) {
    kind == Exact && IsSkippedHost(Hash53(name))
  }

  ghost function OfferName(o: Offer, kind: Kind, idn: Idn): set<Bytes> {
    var n := NameOf(o.token, idn);
    if o.kind == kind && n.Some? && !LeftOut(kind, n.value) then {n.value} else {}
  }

  ghost function OfferNames(os: seq<Offer>, kind: Kind, idn: Idn): set<Bytes> {
    if os == [] then {} else OfferName(os[0], kind, idn) + OfferNames(os[1..], kind, idn)
  }

  /** The entries hold the hashes of the names. */
  ghost predicate Hashed(adds: seq<Entry>, kind: Kind, names: set<Bytes>) {
    forall h :: Entry(kind, h) in adds <==> exists n :: n in names && Hash53(n) == h
  }

  lemma NothingHashed(kind: Kind)
    ensures Hashed([], kind, {})
  {
  }

  lemma HashedBoth(a: seq<Entry>, b: seq<Entry>, kind: Kind, m: set<Bytes>, n: set<Bytes>)
    requires Hashed(a, kind, m) && Hashed(b, kind, n)
    ensures Hashed(a + b, kind, m + n)
  {
    hide Hash53;
    forall h
      ensures Entry(kind, h) in a + b <==> exists x :: x in m + n && Hash53(x) == h
    {
      if Entry(kind, h) in a {
        var x :| x in m && Hash53(x) == h;
        assert x in m + n;
      } else if Entry(kind, h) in b {
        var x :| x in n && Hash53(x) == h;
        assert x in m + n;
      }
    }
  }

  /** The entry of one piece of a line. */
  ghost function OfferEntry(o: Offer, slow: Slow): seq<Entry> {
    var h := DomainHash(o.token, slow);
    if h.Some? && !(o.kind == Exact && IsSkippedHost(h.value)) then [Entry(o.kind, h.value)] else []
  }

  lemma OfferHashed(o: Offer, kind: Kind, slow: Slow, idn: Idn)
    requires Agrees(slow, idn)
    ensures Hashed(OfferEntry(o, slow), kind, OfferName(o, kind, idn))
  {
    hide Hash53, NameOf, DomainHash, IsSkippedHost, Agrees;
    NameIsHashed(o.token, slow, idn);
  }

  lemma {:induction false} WordsHashed(b: Bytes, kind: Kind, slow: Slow, idn: Idn)
    requires Agrees(slow, idn)
    ensures Hashed(HostEntries(b, slow), kind, OfferNames(Words(b), kind, idn))
    decreases |b|
  {
    hide Agrees, Hashed, OfferName, DomainHash, IsSkippedHost, StripLeft, FindSpace;
    var r := StripLeft(b);
    NothingHashed(kind);
    if r != [] {
      var q := FindSpace(r, 0);
      var o := Offer(Exact, r[..q]);
      assert HostEntry(r[..q], slow) == OfferEntry(o, slow);
      OfferHashed(o, kind, slow, idn);
      WordsHashed(r[q..], kind, slow, idn);
      HashedBoth(OfferEntry(o, slow), HostEntries(r[q..], slow), kind, OfferName(o, kind, idn),
          OfferNames(Words(r[q..]), kind, idn));
      assert Words(b)[1..] == Words(r[q..]);
    }
  }

  lemma OneHashed(o: Offer, adds: seq<Entry>, kind: Kind, slow: Slow, idn: Idn)
    requires Agrees(slow, idn) && adds == OfferEntry(o, slow)
    ensures Hashed(adds, kind, OfferNames([o], kind, idn))
  {
    hide Agrees, Hashed, OfferName, OfferEntry;
    OfferHashed(o, kind, slow, idn);
    assert OfferNames([o][1..], kind, idn) == {};
    assert OfferNames([o], kind, idn) == OfferName(o, kind, idn);
  }

  /** The entries of a line are the hashes of its names. */
  lemma LineHashed(line: Bytes, format: Format, kind: Kind, slow: Slow, idn: Idn)
    requires Agrees(slow, idn)
    ensures Hashed(ParseLine(line, format, slow).adds, kind, OfferNames(Offers(line, format), kind, idn))
  {
    hide Agrees, Hashed, OfferNames, IsSkippedHost, DomainHash, StripLeft, StripRight, Find, FindSpace, Words,
        HostEntries, CutComment, IsIp, IsAdblockOption;
    NothingHashed(kind);
    NoNames(kind, idn);
    var b := StripRight(StripLeft(line));
    KeepsFirst(StripLeft(line));
    var os := Offers(line, format);
    if b != [] && format == Hosts {
      var c := CutComment(b);
      WordsHashed(c[FindSpace(c, 0)..], kind, slow, idn);
    } else if os != [] {
      OneHashed(os[0], ParseLine(line, format, slow).adds, kind, slow, idn);
    }
  }

  lemma NoNames(kind: Kind, idn: Idn)
    ensures OfferNames([], kind, idn) == {}
  {
  }

  // ---- The names of a text ----

  /** The names that the lines list, but for over-long ones. */
  ghost function LineNames(lines: seq<Bytes>, format: Format, kind: Kind, idn: Idn): set<Bytes> {
    if lines == [] then {} else
    LineNames(lines[..|lines| - 1], format, kind, idn) +
    if |lines[|lines| - 1]| <= MAX_LINE then OfferNames(Offers(lines[|lines| - 1], format), kind, idn) else {}
  }

  ghost function TextNames(text: Bytes, format: Format, kind: Kind, idn: Idn): set<Bytes> {
    LineNames(Split(text, NL), format, kind, idn)
  }

  lemma TakenHashed(t: Tally, line: Bytes, format: Format, kind: Kind, slow: Slow, idn: Idn, names: set<Bytes>)
    requires Agrees(slow, idn) && Hashed(t.adds, kind, names)
    ensures Hashed(TakeLine(t, line, format, slow).adds, kind,
                   names + if |line| <= MAX_LINE then OfferNames(Offers(line, format), kind, idn) else {})
  {
    hide Agrees, Hashed, OfferNames, Offers, ParseLine;
    LineHashed(line, format, kind, slow, idn);
    HashedBoth(t.adds, ParseLine(line, format, slow).adds, kind, names, OfferNames(Offers(line, format), kind, idn));
    assert names + {} == names;
  }

  lemma {:induction false} LinesHashed(lines: seq<Bytes>, format: Format, kind: Kind, slow: Slow, idn: Idn)
    requires Agrees(slow, idn)
    ensures Hashed(TakeLines(lines, format, slow).adds, kind, LineNames(lines, format, kind, idn))
    decreases |lines|
  {
    hide Agrees, Hashed, OfferNames, Offers, TakeLine;
    if lines == [] {
      NothingHashed(kind);
    } else {
      var n := |lines| - 1;
      LinesHashed(lines[..n], format, kind, slow, idn);
      TakenHashed(TakeLines(lines[..n], format, slow), lines[n], format, kind, slow, idn,
          LineNames(lines[..n], format, kind, idn));
    }
  }

  /** What the program adds for a text are the hashes of its names. */
  lemma TextHashed(text: Bytes, format: Format, kind: Kind, slow: Slow, idn: Idn)
    requires Agrees(slow, idn)
    ensures Hashed(AtEnd(Complete(text, format, slow), Unfinished(text), format, slow).adds, kind,
            TextNames(text, format, kind, idn))
  {
    hide Agrees, Hashed, OfferNames, Offers, ReadLine, TakeLines, Split;
    var lines := Split(text, NL);
    var n := |lines| - 1;
    LinesHashed(lines[..n], format, kind, slow, idn);
    TakenHashed(Complete(text, format, slow), lines[n], format, kind, slow, idn,
        LineNames(lines[..n], format, kind, idn));
    BlankLine(format);
    NoNames(kind, idn);
    var before := LineNames(lines[..n], format, kind, idn);
    assert before + {} == before;
  }

  lemma BlankLine(format: Format)
    ensures Offers([], format) == []
  {
  }

  /** A list that was parsed holds exactly the hashes of the names in its text. */
  lemma ListHoldsNames(text: Bytes, format: Format, maxEntries: nat, slow: Slow, idn: Idn)
    requires Agrees(slow, idn) && ParseText(text, format, maxEntries, slow).Parsed?
    ensures var l := ParseText(text, format, maxEntries, slow).list;
            && ValidList(l) && HashList.Holds(l.suffix, TextNames(text, format, Suffix, idn))
            && HashList.Holds(l.exact, TextNames(text, format, Exact, idn))
               && HashList.Holds(l.except, TextNames(text, format, Except, idn))
  {
    hide Agrees, Complete, Unfinished, AtEnd, Canonical, HashesOf, TextNames, ValidList, Hash53;
    var t := AtEnd(Complete(text, format, slow), Unfinished(text), format, slow);
    ParsedListHolds(t, maxEntries);
    TextHashed(text, format, Suffix, slow, idn);
    TextHashed(text, format, Exact, slow, idn);
    TextHashed(text, format, Except, slow, idn);
  }

  /** A list is loaded from its chunks and asked about a name. Unless it is too large, and unless
      hashes collide, the answer depends on the names in its text alone: neither the name nor one of
      its parents is an exception, and the name is listed for itself or it or a parent with all below. */
  method LoadAndAsk(chunks: seq<Bytes>, format: Format, maxEntries: nat, expectedEntries: nat, slow: Slow, name: Bytes,
                    ghost idn: Idn)
    returns (r: Option<bool>)
    requires Agrees(slow, idn)
    requires var text := Concat(chunks);
             NoCollision(name, TextNames(text, format, Suffix, idn) + TextNames(text, format, Exact, idn) +
                               TextNames(text, format, Except, idn))
    ensures r.None? <==> ParseText(Concat(chunks), format, maxEntries, slow).TooLarge?
    ensures r.Some? ==>
              var text := Concat(chunks);
              r.value <==>
              && (forall x :: IsSuffix(name, x) ==> x !in TextNames(text, format, Except, idn))
              && (|| name in TextNames(text, format, Exact, idn)
                  || exists x :: IsSuffix(name, x) && x in TextNames(text, format, Suffix, idn))
  {
    hide Agrees, ParseText, TextNames, ValidList, HashList.Holds, NoCollision;
    var o := ParseListStream(chunks, format, maxEntries, expectedEntries, slow);
    if o.TooLarge? {
      return None;
    }
    ghost var text := Concat(chunks);
    ListHoldsNames(text, format, maxEntries, slow, idn);
    var m := MatchesName(o.list, name, TextNames(text, format, Suffix, idn), TextNames(text, format, Exact, idn),
        TextNames(text, format, Except, idn));
    r := Some(m);
  }
}
