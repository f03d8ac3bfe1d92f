/** parseListStream (src/dns/listParser.js): a block list that arrives in
    chunks. The reference form splits the whole text at its line ends; the
    program is proved to give the same result for every way of cutting it. */
module ListStream {
  import opened Bytes
  import opened Splitting
  import opened HashList
  import opened ListLines
  import opened ListScan

  const MAX_LINE := 1024

  datatype Tally = Tally(lines: nat, skipped: nat, adds: seq<Entry>)

  datatype Outcome =
    | TooLarge
    | Parsed(list: CompactList, lines: nat, skipped: nat)

  // ---- The reference: the whole text at once ----

  /** A line that is not too long. */
  function ReadLine(t: Tally, line: Bytes, format: Format, slow: Slow): (r: Tally)
    ensures |t.adds| <= |r.adds|
  {
    var l := ParseLine(line, format, slow);
    Tally(t.lines + 1, t.skipped + (if !l.ok && CountsAsSkipped(line) then 1 else 0), t.adds + l.adds)
  }

  /** A line with its line end: over-long ones are skipped unread. */
  function TakeLine(t: Tally, line: Bytes, format: Format, slow: Slow): (r: Tally)
    ensures |t.adds| <= |r.adds|
  {
    if |line| <= MAX_LINE then ReadLine(t, line, format, slow) else t.(skipped := t.skipped + 1)
  }

  function TakeLines(lines: seq<Bytes>, format: Format, slow: Slow): Tally {
    if lines == [] then Tally(0, 0, [])
    else TakeLine(TakeLines(lines[..|lines| - 1], format, slow), lines[|lines| - 1], format, slow)
  }

  /** All complete lines of a text, and the bytes behind its last line end. */
  function Complete(text: Bytes, format: Format, slow: Slow): Tally {
    var parts := Split(text, NL);
    TakeLines(parts[..|parts| - 1], format, slow)
  }

  function Unfinished(text: Bytes): Bytes {
    var parts := Split(text, NL);
    parts[|parts| - 1]
  }

  /** The end of the text ends its last line; an over-long rest is dropped without being counted. */
  function AtEnd(t: Tally, rest: Bytes, format: Format, slow: Slow): (r: Tally)
    ensures |t.adds| <= |r.adds|
  {
    if 0 < |rest| <= MAX_LINE then ReadLine(t, rest, format, slow) else t
  }

  function HashesOf(adds: seq<Entry>, kind: Kind): (r: seq<nat>)
    ensures |r| <= |adds|
  {
    if adds == [] then []
    else HashesOf(adds[..|adds| - 1], kind) +
         if adds[|adds| - 1].kind == kind then [adds[|adds| - 1].hash] else []
  }

  function Result(t: Tally, maxEntries: nat): Outcome {
    if |t.adds| > maxEntries then TooLarge
    else Parsed(CompactList(Canonical(HashesOf(t.adds, Suffix)), Canonical(HashesOf(t.adds, Exact)),
                            Canonical(HashesOf(t.adds, Except))), t.lines, t.skipped)
  }

  /** The list that a text holds. */
  function ParseText(text: Bytes, format: Format, maxEntries: nat, slow: Slow): Outcome {
    Result(AtEnd(Complete(text, format, slow), Unfinished(text), format, slow), maxEntries)
  }

  // ---- The end of the text ----

  /** The plain reading: a last line without a line end is a line like every other. */
  function EveryLine(text: Bytes, format: Format, slow: Slow): Tally {
    var t, rest := Complete(text, format, slow), Unfinished(text);
    if rest == [] then t else TakeLine(t, rest, format, slow)
  }

  /** The program gives what the plain reading gives exactly if the last line is not
      over-long, or the list is too large anyway. */
  lemma TailExact(text: Bytes, format: Format, maxEntries: nat, slow: Slow)
    ensures ParseText(text, format, maxEntries, slow) == Result(EveryLine(text, format, slow), maxEntries) <==>
            |Unfinished(text)| <= MAX_LINE || |Complete(text, format, slow).adds| > maxEntries
  {
    hide Complete, Unfinished, ReadLine, HashesOf, Canonical;
  }

  /** A text of 1025 bytes without a line end: the plain reading skips one line, the program none. */
  lemma TailNotCounted(format: Format, maxEntries: nat, slow: Slow)
    ensures var text: Bytes := seq(MAX_LINE + 1, _ => 0x61);
            && Result(EveryLine(text, format, slow), maxEntries) == Parsed(CompactList([], [], []), 0, 1)
            && ParseText(text, format, maxEntries, slow) == Parsed(CompactList([], [], []), 0, 0)
  {
    hide ReadLine, Split, SortUp, Dedup;
    var text: Bytes := seq(MAX_LINE + 1, _ => 0x61);
    SplitAppend([], text, NL);
    assert [] + text == text;
    NoText();
  }

  lemma NoText()
    ensures Split<byte>([], NL) == [[]] && HashesOf([], Suffix) == [] && Canonical([]) == []
  {
  }

  // ---- Cutting the text ----

  /** Text without a line end makes the unfinished line longer. */
  lemma Longer(text: Bytes, x: Bytes, format: Format, slow: Slow)
    requires NL !in x
    ensures Complete(text + x, format, slow) == Complete(text, format, slow)
    ensures Unfinished(text + x) == Unfinished(text) + x
  {
    hide Split, TakeLines;
    var parts := Split(text, NL);
    var n := |parts| - 1;
    SplitAppend(text, x, NL);
    assert (parts[..n] + [parts[n] + x])[..n] == parts[..n];
  }

  /** A line end completes it. */
  lemma LineEnds(text: Bytes, format: Format, slow: Slow)
    ensures Complete(text + [NL], format, slow) ==
            TakeLine(Complete(text, format, slow), Unfinished(text), format, slow)
    ensures Unfinished(text + [NL]) == []
  {
    hide Split, TakeLine;
    var parts := Split(text, NL);
    var n := |parts| - 1;
    SplitSep(text, NL);
    assert (parts + [[]])[..|parts|] == parts;
  }

  // ---- The program ----

  /** What the program keeps of an unfinished line: its bytes, or only that it is over-long. */
  predicate Keeps(last: Bytes, rest: Option<Bytes>, overlong: bool) {
    && overlong == (|last| > MAX_LINE)
    && rest == if 0 < |last| <= MAX_LINE then Some(last) else None
  }

  method LineOf(t: Tally, buf: Bytes, s: nat, e: nat, format: Format, slow: Slow) returns (r: Tally)
    requires s <= e <= |buf| && (e == |buf| || buf[e] == NL)
    ensures r == ReadLine(t, buf[s..e], format, slow)
  {
    hide ParseLine, StripLeft;
    var l := ParseLineBytes(buf, s, e, format, slow);
    var skipped := t.skipped;
    if !l.ok {
      var p := SkipSpaces(buf, s, e);
      if p < e {
        Slice(buf, p, e);
        if buf[p] != HASH && buf[p] != BANG && buf[p] != BRACKET {
          skipped := skipped + 1;
        }
      }
    }
    r := Tally(t.lines + 1, skipped, t.adds + l.adds);
  }

  /** The complete lines of one chunk, up to the entry that is one too many. */
  method ChunkLines(t0: Tally, rest0: Option<Bytes>, overlong0: bool, chunk: Bytes, format: Format, slow: Slow,
                    maxEntries: nat, ghost text: Bytes)
    returns (t: Tally, rest: Option<Bytes>, overlong: bool, s: nat, large: bool)
    requires t0 == Complete(text, format, slow) && Keeps(Unfinished(text), rest0, overlong0)
    ensures s <= |chunk| && (!large ==> NL !in chunk[s..])
    ensures t == Complete(text + chunk[..s], format, slow) && Keeps(Unfinished(text + chunk[..s]), rest, overlong)
    ensures large ==> |t.adds| > maxEntries
  {
    hide Complete, Unfinished, TakeLine, ReadLine, Find;
    t, rest, overlong, s, large := t0, rest0, overlong0, 0, false;
    assert text + chunk[..0] == text;
    var nl := IndexOf(chunk, NL, s);
    while nl < |chunk|
      invariant s <= |chunk| && nl == Find(chunk, NL, s) && s <= nl <= |chunk| && !large
      invariant t == Complete(text + chunk[..s], format, slow)
      invariant Keeps(Unfinished(text + chunk[..s]), rest, overlong)
      decreases |chunk| - s
    {
      FindIs(chunk, s);
      t := OneLine(t, rest, overlong, chunk, s, nl, format, slow, text + chunk[..s]);
      Advance(text, chunk, s, nl, format, slow);
      rest, overlong := None, false;
      s := nl + 1;
      if |t.adds| > maxEntries {
        large := true;
        return;
      }
      nl := IndexOf(chunk, NL, s);
      FindIs(chunk, s);
    }
    FindIs(chunk, s);
  }

  lemma FindIs(chunk: Bytes, s: nat)
    requires s <= |chunk|
    ensures var nl := Find(chunk, NL, s);
            s <= nl <= |chunk| && NL !in chunk[s..nl] && (nl < |chunk| ==> chunk[nl] == NL)
    ensures Find(chunk, NL, s) == |chunk| ==> chunk[s..|chunk|] == chunk[s..]
  {
  }

  lemma Advance(text: Bytes, chunk: Bytes, s: nat, nl: nat, format: Format, slow: Slow)
    requires s <= nl < |chunk| && NL !in chunk[s..nl] && chunk[nl] == NL
    ensures Complete(text + chunk[..nl + 1], format, slow) ==
            TakeLine(Complete(text + chunk[..s], format, slow), Unfinished(text + chunk[..s]) + chunk[s..nl],
                     format, slow)
    ensures Unfinished(text + chunk[..nl + 1]) == []
  {
    hide Complete, Unfinished, TakeLine;
    var a := text + chunk[..s];
    Longer(a, chunk[s..nl], format, slow);
    LineEnds(a + chunk[s..nl], format, slow);
    assert text + chunk[..nl + 1] == (a + chunk[s..nl]) + [NL];
  }

  method OneLine(t: Tally, rest: Option<Bytes>, overlong: bool, chunk: Bytes, s: nat, nl: nat,
                 format: Format, slow: Slow, ghost text: Bytes)
    returns (r: Tally)
    requires s <= nl < |chunk| && chunk[nl] == NL && Keeps(Unfinished(text), rest, overlong)
    ensures r == TakeLine(t, Unfinished(text) + chunk[s..nl], format, slow)
  {
    hide Unfinished, ReadLine;
    ghost var last := Unfinished(text);
    if overlong {
      r := t.(skipped := t.skipped + 1);
    } else if rest.Some? {
      var full := rest.value + chunk[s..nl];
      assert full[0..|full|] == full;
      if |full| <= MAX_LINE {
        r := LineOf(t, full, 0, |full|, format, slow);
      } else {
        r := t.(skipped := t.skipped + 1);
      }
    } else {
      assert last + chunk[s..nl] == chunk[s..nl];
      if nl - s <= MAX_LINE {
        r := LineOf(t, chunk, s, nl, format, slow);
      } else {
        r := t.(skipped := t.skipped + 1);
      }
    }
  }

  /** The bytes behind the last line end of a chunk join the unfinished line. */
  method KeepTail(rest0: Option<Bytes>, overlong0: bool, chunk: Bytes, s: nat, ghost last: Bytes)
    returns (rest: Option<Bytes>, overlong: bool)
    requires s <= |chunk| && Keeps(last, rest0, overlong0)
    ensures Keeps(last + chunk[s..], rest, overlong)
  {
    rest, overlong := rest0, overlong0;
    if s < |chunk| && !overlong {
      var tail := chunk[s..];
      var joined := if rest.Some? then rest.value + tail else tail;
      assert joined == last + tail;
      rest := Some(joined);
      if |joined| > MAX_LINE {
        rest, overlong := None, true;
      }
    }
    if s == |chunk| {
      assert last + chunk[s..] == last;
    }
  }

  /** More text never takes entries away. */
  lemma {:induction false} AddsGrow(text: Bytes, more: Bytes, format: Format, slow: Slow)
    ensures |Complete(text, format, slow).adds| <= |Complete(text + more, format, slow).adds|
    decreases |more|
  {
    hide Complete, Unfinished, TakeLine;
    if more == [] {
      assert text + more == text;
    } else {
      var most, c := more[..|more| - 1], more[|more| - 1];
      AddsGrow(text, most, format, slow);
      assert text + more == (text + most) + [c];
      if c == NL {
        LineEnds(text + most, format, slow);
      } else {
        Longer(text + most, [c], format, slow);
      }
    }
  }

  /** parseListStream: for every cutting of the text into chunks the result is that of the whole text. */
  method ParseListStream(chunks: seq<Bytes>, format: Format, maxEntries: nat, expectedEntries: nat, slow: Slow)
    returns (r: Outcome)
    ensures r == ParseText(Concat(chunks), format, maxEntries, slow)
  {
    hide Complete, Unfinished, ReadLine, Concat, Split, HashesOf, Canonical;
    var t, rest, overlong := Tally(0, 0, []), None, false;
    ghost var whole := Concat(chunks);
    ghost var text: Bytes := [];
    StartsEmpty(chunks, format, slow);
    for i := 0 to |chunks|
      invariant whole == text + Concat(chunks[i..])
      invariant t == Complete(text, format, slow) && Keeps(Unfinished(text), rest, overlong)
    {
      var chunk := chunks[i];
      NextChunk(chunks, i);
      var s, large;
      t, rest, overlong, s, large := ChunkLines(t, rest, overlong, chunk, format, slow, maxEntries, text);
      ghost var seen := text + chunk[..s];
      assert text + chunk == seen + chunk[s..];
      if large {
        assert whole == seen + (chunk[s..] + Concat(chunks[i + 1..]));
        AddsGrow(seen, chunk[s..] + Concat(chunks[i + 1..]), format, slow);
        return TooLarge;
      }
      Longer(seen, chunk[s..], format, slow);
      rest, overlong := KeepTail(rest, overlong, chunk, s, Unfinished(seen));
      text := text + chunk;
    }
    NoChunks(chunks);
    assert whole == text;
    if rest.Some? && !overlong {
      assert rest.value[0..|rest.value|] == rest.value;
      t := LineOf(t, rest.value, 0, |rest.value|, format, slow);
    }
    if |t.adds| > maxEntries {
      return TooLarge;
    }
    var main := if format == Hosts then Exact else Suffix;
    var cap := if expectedEntries > 1024 then expectedEntries else 1024;
    cap := if cap < maxEntries then cap else maxEntries;
    var suffix := Collect(t.adds, Suffix, if main == Suffix then cap else 1024, maxEntries);
    var exact := Collect(t.adds, Exact, if main == Exact then cap else 1024, maxEntries);
    var except := Collect(t.adds, Except, 1024, maxEntries);
    r := Parsed(CompactList(suffix, exact, except), t.lines, t.skipped);
  }

  lemma StartsEmpty(chunks: seq<Bytes>, format: Format, slow: Slow)
    ensures Complete([], format, slow) == Tally(0, 0, []) && Unfinished([]) == []
    ensures Concat(chunks) == [] + Concat(chunks[0..])
  {
    assert chunks[0..] == chunks;
  }

  lemma NextChunk(chunks: seq<Bytes>, i: nat)
    requires i < |chunks|
    ensures Concat(chunks[i..]) == chunks[i] + Concat(chunks[i + 1..])
  {
    assert chunks[i..][1..] == chunks[i + 1..];
  }

  lemma NoChunks(chunks: seq<Bytes>)
    ensures Concat(chunks[|chunks|..]) == []
  {
  }

  /** The hashes of one kind through a HashBuilder of the given first capacity. */
  method Collect(adds: seq<Entry>, kind: Kind, cap: nat, maxEntries: nat) returns (out: seq<nat>)
    requires |adds| <= maxEntries && (cap >= 1 || maxEntries == 0)
    ensures out == Canonical(HashesOf(adds, kind))
  {
    hide Canonical;
    var b := new HashBuilder(cap);
    assert adds[..0] == [];
    for i := 0 to |adds|
      invariant fresh(b) && b.Valid() && fresh(b.buf) && (cap >= 1 ==> b.buf.Length >= 1)
      invariant b.Added() == HashesOf(adds[..i], kind)
    {
      HashesNext(adds, i, kind);
      if adds[i].kind == kind {
        b.AddHash(adds[i].hash);
      }
    }
    assert adds[..|adds|] == adds;
    out := b.Finish();
  }

  lemma HashesNext(adds: seq<Entry>, i: nat, kind: Kind)
    requires i < |adds|
    ensures HashesOf(adds[..i + 1], kind) ==
            HashesOf(adds[..i], kind) + if adds[i].kind == kind then [adds[i].hash] else []
  {
    assert adds[..i + 1][..i] == adds[..i];
  }

  /** Whatever is parsed is a valid list that holds exactly the hashes of its entries. */
  lemma ParsedListHolds(t: Tally, maxEntries: nat)
    requires Result(t, maxEntries).Parsed?
    ensures var l := Result(t, maxEntries).list;
            && ValidList(l)
            && (forall h :: h in l.suffix <==> Entry(Suffix, h) in t.adds)
            && (forall h :: h in l.exact <==> Entry(Exact, h) in t.adds)
            && (forall h :: h in l.except <==> Entry(Except, h) in t.adds)
  {
    hide Canonical, HashesOf;
    CanonicalIsTheSet(HashesOf(t.adds, Suffix));
    CanonicalIsTheSet(HashesOf(t.adds, Exact));
    CanonicalIsTheSet(HashesOf(t.adds, Except));
    forall h
      ensures h in HashesOf(t.adds, Suffix) <==> Entry(Suffix, h) in t.adds
      ensures h in HashesOf(t.adds, Exact) <==> Entry(Exact, h) in t.adds
      ensures h in HashesOf(t.adds, Except) <==> Entry(Except, h) in t.adds
    {
      HashesAre(t.adds, Suffix, h);
      HashesAre(t.adds, Exact, h);
      HashesAre(t.adds, Except, h);
    }
  }

  lemma {:induction false} HashesAre(adds: seq<Entry>, kind: Kind, h: nat)
    ensures h in HashesOf(adds, kind) <==> Entry(kind, h) in adds
    decreases |adds|
  {
    if adds != [] {
      HashesAre(adds[..|adds| - 1], kind, h);
      assert adds == adds[..|adds| - 1] + [adds[|adds| - 1]];
    }
  }
}
