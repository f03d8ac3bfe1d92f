/** What the lines of a block list mean, stated on their characters: which bytes
    may stand around an entry, what a line end of CR and LF does, and how an entry
    is written in each format (src/dns/listParser.js; the formats are described at
    its head). Nothing here is said in terms of the functions that cut a line up. */
module ListLaws {
  import opened Bytes
  import opened Splitting
  import opened DomainNames
  import opened ListLines
  import opened ListStream

  // ---- Blanks around a line ----

  /** Blank, tab, carriage return, vertical tab and form feed. */
  predicate Blank(c: byte) {
    c == 0x20 || c == 0x09 || c == 0x0d || c == 0x0b || c == 0x0c
  }

  predicate Blanks(s: Bytes) {
    forall k :: 0 <= k < |s| ==> Blank(s[k])
  }

  lemma {:induction false} LeftBlanks(pre: Bytes, s: Bytes)
    requires Blanks(pre)
    ensures StripLeft(pre + s) == StripLeft(s)
    decreases |pre|
  {
    if pre == [] {
      assert pre + s == s;
    } else {
      assert (pre + s)[1..] == pre[1..] + s && IsSpace(pre[0]);
      LeftBlanks(pre[1..], s);
    }
  }

  lemma {:induction false} RightBlanks(s: Bytes, post: Bytes)
    requires Blanks(post)
    ensures StripRight(s + post) == StripRight(s)
    decreases |post|
  {
    var n := |post| - 1;
    if post == [] {
      assert s + post == s;
    } else {
      assert (s + post)[..|s| + n] == s + post[..n] && (s + post)[|s| + n] == post[n];
      RightBlanks(s, post[..n]);
    }
  }

  lemma {:induction false} StripLeftBefore(s: Bytes, post: Bytes)
    ensures StripLeft(s) != [] ==> StripLeft(s + post) == StripLeft(s) + post
    ensures StripLeft(s) == [] ==> StripLeft(s + post) == StripLeft(post)
  {
    if s == [] {
      assert s + post == post;
    } else {
      assert (s + post)[1..] == s[1..] + post;
      StripLeftBefore(s[1..], post);
    }
  }

  lemma TrimmedAlike(pre: Bytes, line: Bytes, post: Bytes)
    requires Blanks(pre) && Blanks(post)
    ensures StripRight(StripLeft(pre + line + post)) == StripRight(StripLeft(line))
    ensures StripLeft(pre + line + post) == [] <==> StripLeft(line) == []
    ensures StripLeft(line) != [] ==> StripLeft(pre + line + post)[0] == StripLeft(line)[0]
  {
    hide StripLeft, StripRight, Blanks;
    var s := StripLeft(line);
    assert pre + line + post == pre + (line + post);
    LeftBlanks(pre, line + post);
    StripLeftBefore(line, post);
    if s == [] {
      LeftBlanks(post, []);
      assert post + [] == post;
      NoBlanks();
    } else {
      RightBlanks(s, post);
    }
  }

  lemma NoBlanks()
    ensures StripLeft([]) == []
  {
  }

  /** Blanks on either side of a line change neither its entries nor its count. */
  lemma BlanksAround(pre: Bytes, line: Bytes, post: Bytes, format: Format, slow: Slow)
    requires Blanks(pre) && Blanks(post)
    ensures ParseLine(pre + line + post, format, slow) == ParseLine(line, format, slow)
    ensures CountsAsSkipped(pre + line + post) == CountsAsSkipped(line)
  {
    hide ParseAdblock, ParseHosts, ParseDomain, CutComment, StripLeft, StripRight, Blanks;
    TrimmedAlike(pre, line, post);
  }

  // ---- Line ends of CR and LF ----

  /** The text with every LF written as CR LF. */
  function CrLf(text: Bytes): (r: Bytes)
  {
    if text == [] then []
    else CrLf(text[..|text| - 1]) + if text[|text| - 1] == 0x0a then [0x0d, 0x0a] else [text[|text| - 1]]
  }

  /** No line of the text that has its line end is as long as a line may be. */
  predicate RoomForCr(text: Bytes) {
    var parts := Split(text, 0x0a);
    forall k :: 0 <= k < |parts| - 1 ==> |parts[k]| != 1024
  }

  lemma RoomNext(text: Bytes, c: byte)
    ensures RoomForCr(text + [c]) == (RoomForCr(text) && (c == 0x0a ==> |Unfinished(text)| != 1024))
  {
    hide Split;
    var parts := Split(text, 0x0a);
    var n := |parts| - 1;
    if c == 0x0a {
      SplitSep(text, 0x0a);
      var qs := parts + [[]];
      assert forall k :: 0 <= k <= n ==> qs[k] == parts[k];
      assert qs[n] == Unfinished(text);
    } else {
      SplitAppend(text, [c], 0x0a);
      var qs := parts[..n] + [parts[n] + [c]];
      assert forall k :: 0 <= k < n ==> qs[k] == parts[k];
    }
  }

  lemma CrAtEnd(t: Tally, line: Bytes, format: Format, slow: Slow)
    ensures |line| != 1024 ==> TakeLine(t, line + [0x0d], format, slow) == TakeLine(t, line, format, slow)
    ensures |line| == 1024 ==>
              TakeLine(t, line + [0x0d], format, slow).lines == t.lines == TakeLine(t, line, format, slow).lines - 1
  {
    hide ParseLine, CountsAsSkipped;
    BlanksAround([], line, [0x0d], format, slow);
    assert [] + line + [0x0d] == line + [0x0d];
  }

  lemma MoreLines(text: Bytes, c: byte, format: Format, slow: Slow)
    ensures Complete(text + [c], format, slow) ==
            if c == NL then TakeLine(Complete(text, format, slow), Unfinished(text), format, slow)
            else Complete(text, format, slow)
    ensures Unfinished(text + [c]) == if c == NL then [] else Unfinished(text) + [c]
  {
    hide Complete, Unfinished, TakeLine;
    if c == NL {
      LineEnds(text, format, slow);
    } else {
      Longer(text, [c], format, slow);
    }
  }

  /** The lines of the two texts are tallied alike exactly while no line is 1024 bytes long
      without its CR; the count of the lines is what differs. */
  lemma {:induction false} CrLfTally(text: Bytes, format: Format, slow: Slow)
    ensures RoomForCr(text) ==> Complete(CrLf(text), format, slow) == Complete(text, format, slow)
    ensures !RoomForCr(text) ==> Complete(CrLf(text), format, slow).lines < Complete(text, format, slow).lines
    ensures Complete(CrLf(text), format, slow).lines <= Complete(text, format, slow).lines
    ensures Unfinished(CrLf(text)) == Unfinished(text)
    decreases |text|
  {
    hide Complete, Unfinished, RoomForCr;
    if text == [] {
      NoLines(format, slow);
    } else {
      hide TakeLine;
      var t, c := text[..|text| - 1], text[|text| - 1];
      assert text == t + [c];
      CrLfTally(t, format, slow);
      RoomNext(t, c);
      MoreLines(t, c, format, slow);
      if c == 0x0a {
        var u := CrLf(t) + [0x0d];
        assert CrLf(text) == u + [0x0a];
        MoreLines(CrLf(t), 0x0d, format, slow);
        MoreLines(u, 0x0a, format, slow);
        CrAtEnd(Complete(CrLf(t), format, slow), Unfinished(t), format, slow);
        LinesOf(Complete(CrLf(t), format, slow), Complete(t, format, slow), Unfinished(t), format, slow);
      } else {
        MoreLines(CrLf(t), c, format, slow);
      }
    }
  }

  lemma NoLines(format: Format, slow: Slow)
    ensures RoomForCr([]) && Complete([], format, slow) == Tally(0, 0, []) && Unfinished([]) == []
  {
  }

  lemma LinesOf(t: Tally, u: Tally, line: Bytes, format: Format, slow: Slow)
    ensures TakeLine(t, line, format, slow).lines - t.lines == TakeLine(u, line, format, slow).lines - u.lines
    ensures |line| == 1024 ==> TakeLine(t, line, format, slow).lines == t.lines + 1
  {
  }

  /** A list with line ends of CR and LF is the list with LF alone, exactly if no line
      with its end is 1024 bytes long (unless both are too large). */
  lemma CrLfExact(text: Bytes, format: Format, maxEntries: nat, slow: Slow)
    ensures RoomForCr(text) ==>
              ParseText(CrLf(text), format, maxEntries, slow) == ParseText(text, format, maxEntries, slow)
    ensures !RoomForCr(text) && ParseText(text, format, maxEntries, slow).Parsed? ==>
              ParseText(CrLf(text), format, maxEntries, slow) != ParseText(text, format, maxEntries, slow)
  {
    hide Complete, Unfinished, ReadLine, RoomForCr, HashesOf, HashList.Canonical;
    CrLfTally(text, format, slow);
    EndsAlike(Complete(CrLf(text), format, slow), Complete(text, format, slow), Unfinished(text), format, slow);
  }

  lemma EndsAlike(t: Tally, u: Tally, rest: Bytes, format: Format, slow: Slow)
    ensures AtEnd(t, rest, format, slow).lines - t.lines == AtEnd(u, rest, format, slow).lines - u.lines
  {
  }

  // ---- What is counted ----

  /** A line that is read, and one that counts as skipped. */
  predicate IsRead(line: Bytes) {
    |line| <= 1024
  }

  predicate IsSkipped(line: Bytes, format: Format, slow: Slow) {
    |line| > 1024 || (!ParseLine(line, format, slow).ok && CountsAsSkipped(line))
  }

  function CountLines(lines: seq<Bytes>, format: Format, slow: Slow): (r: (nat, nat))
  {
    if lines == [] then (0, 0) else
    var (n, m) := CountLines(lines[1..], format, slow);
    (n + (if IsRead(lines[0]) then 1 else 0), m + if IsSkipped(lines[0], format, slow) then 1 else 0)
  }

  lemma {:induction false} CountSnoc(lines: seq<Bytes>, line: Bytes, format: Format, slow: Slow)
    ensures var (n, m) := CountLines(lines, format, slow);
            CountLines(lines + [line], format, slow) ==
            (n + (if IsRead(line) then 1 else 0), m + if IsSkipped(line, format, slow) then 1 else 0)
  {
    hide IsSkipped;
    if lines == [] {
      assert lines + [line] == [line] && [line][1..] == [];
    } else {
      assert (lines + [line])[1..] == lines[1..] + [line];
      CountSnoc(lines[1..], line, format, slow);
    }
  }

  /** The line count is that of the lines of up to 1024 bytes; skipped are those that are longer, and those
      without an entry that are neither blank nor a comment. */
  lemma {:induction false} LinesCounted(lines: seq<Bytes>, format: Format, slow: Slow)
    ensures var t := TakeLines(lines, format, slow);
            (t.lines, t.skipped) == CountLines(lines, format, slow)
    decreases |lines|
  {
    hide ParseLine, CountsAsSkipped, CountLines;
    if lines == [] {
      NoneCounted(format, slow);
    } else {
      var n := |lines| - 1;
      assert lines == lines[..n] + [lines[n]];
      LinesCounted(lines[..n], format, slow);
      CountSnoc(lines[..n], lines[n], format, slow);
    }
  }

  lemma NoneCounted(format: Format, slow: Slow)
    ensures CountLines([], format, slow) == (0, 0)
  {
  }

  // ---- Names in a line ----

  /** A letter, a digit, '.', '-' or '_'. */
  predicate NameByte(c: byte) {
    || 'a' as int <= c <= 'z' as int || 'A' as int <= c <= 'Z' as int || '0' as int <= c <= '9' as int
    || c == '.' as int || c == '-' as int || c == '_' as int
  }

  predicate NameBytes(s: Bytes) {
    forall k :: 0 <= k < |s| ==> NameByte(s[k])
  }

  /** What a name that gets a hash looks like. */
  lemma NameLooks(name: Bytes)
    requires DomainVerdict(name).Hash?
    ensures |name| >= 3 && NameBytes(name) && name[0] != '.' as int
  {
    hide Mix, Finish, Split, MixAll;
    var d := DropDot(name);
    HashDomainExact(name);
    if d[0] == DOT {
      assert d[0..1] == [DOT] && d[0..|d|] == d;
      FirstDot(d);
    }
    ScanIs(d);
    forall k | 0 <= k < |name|
      ensures NameByte(name[k])
    {
      if k < |d| {
        LowerAt(d, k);
        GoodChars(LowerAll(d), k);
      }
    }
  }

  lemma FirstDot(d: Bytes)
    requires d != [] && d[0] == DOT
    ensures ScanAll(d) == Over(Invalid)
  {
    assert d[0..1] == [DOT] && d[0..|d|] == d;
    assert [DOT][..0] == [];
    OverStays(d, 0, 1, |d|);
  }

  /** No blank stands in the bytes, and the first is not the start of a comment. */
  predicate OneWord(s: Bytes) {
    && s != [] && s[0] != '!' as int
    && forall k :: 0 <= k < |s| ==> !Blank(s[k]) && s[k] != '#' as int
  }

  lemma WordAlone(s: Bytes)
    requires OneWord(s)
    ensures StripLeft(s) == s && StripRight(s) == s && CutComment(s) == s && FindSpace(s, 0) == |s|
  {
    assert Find(s, HASH, 0) == |s|;
    assert s[..|s|] == s;
  }

  lemma Fronts(front: string)
    requires front in {"", "*.", "."}
    ensures Codes(front) == if front == "" then [] else if front == "." then [0x2e] else [0x2a, 0x2e]
  {
  }

  lemma WordBehind(front: Bytes, name: Bytes)
    requires DomainVerdict(name).Hash? && front in {[], [0x2e], [0x2a, 0x2e]}
    ensures OneWord(front + name) && name != [] && name[0] != 0x2e && name[0] != 0x2a
    ensures (front + name)[|front|..] == name
  {
    hide DomainVerdict;
    NameLooks(name);
  }

  /** The lines of a domain list: a name, alone, behind '*.' or behind '.', stands for itself and its subdomains. */
  lemma DomainLine(front: string, name: Bytes, slow: Slow)
    requires DomainVerdict(name).Hash? && front in {"", "*.", "."}
    ensures ParseLine(Codes(front) + name, Domains, slow) == Line(true, [Entry(Suffix, DomainVerdict(name).h)])
  {
    hide DomainVerdict, OneWord, Codes, StripLeft, StripRight, FindSpace, CutComment;
    Fronts(front);
    var f := Codes(front);
    WordBehind(f, name);
    FirstOfWord(f + name);
    WordAlone(f + name);
  }

  /** A name that is not ASCII, from whichever bytes but blanks, is left to the slow path. */
  lemma IdnLine(name: Bytes, slow: Slow)
    requires OneWord(name) && name[0] != '.' as int && name[0] != '*' as int && DomainVerdict(name) == NotAscii
    ensures ParseLine(name, Domains, slow) ==
            if slow(name).Some? then Line(true, [Entry(Suffix, slow(name).value)]) else Line(false, [])
  {
    hide DomainVerdict, OneWord, StripLeft, StripRight, FindSpace, CutComment;
    FirstOfWord(name);
    WordAlone(name);
  }

  lemma FirstOfWord(b: Bytes)
    requires OneWord(b)
    ensures b != [] && b[0] != 0x23 && b[0] != 0x21
  {
  }

  // ---- Filter rules ----

  /** A filter rule, or with '@@' in front an exception from the rules. */
  function Rule(except: bool, name: Bytes, option: Bytes): (r: Bytes)
  {
    (if except then Codes("@@||") else Codes("||")) + name + Codes("^") + option
  }

  lemma RuleBytes(except: bool, name: Bytes, option: Bytes)
    ensures var b, p := Rule(except, name, option), if except then 2 else 0;
            && |b| == p + 3 + |name| + |option| && b[p..p + 2] == [0x7c, 0x7c] && b[p + 2..p + 2 + |name|] == name
            && b[p + 2 + |name|] == 0x5e && b[p + 3 + |name|..] == option
            && b[0] == (if except then 0x40 else 0x7c) && b[1] == (if except then 0x40 else 0x7c)
  {
    var front: Bytes := if except then [0x40, 0x40, 0x7c, 0x7c] else [0x7c, 0x7c];
    RuleParts(except, name, option);
    hide Rule, Codes;
    var b, n := front + name + [0x5e] + option, |front|;
    assert forall k :: 0 <= k < n ==> b[k] == front[k];
    assert b[n - 2..n] == front[n - 2..];
    assert b[n..n + |name|] == name;
    assert b[n + 1 + |name|..] == option;
  }

  lemma RuleParts(except: bool, name: Bytes, option: Bytes)
    ensures Rule(except, name, option) ==
            (if except then [0x40, 0x40, 0x7c, 0x7c] else [0x7c, 0x7c]) + name + [0x5e] + option
  {
    assert Codes("@@||") == [0x40, 0x40, 0x7c, 0x7c] && Codes("||") == [0x7c, 0x7c] && Codes("^") == [0x5e];
  }

  lemma CaretAt(b: Bytes, i: nat, k: nat)
    requires i <= k < |b| && b[k] == CARET && forall j :: i <= j < k ==> b[j] != CARET
    ensures Find(b, CARET, i) == k
  {
  }

  lemma Ends(b: Bytes)
    requires b != [] && b[0] > 0x20 && b[|b| - 1] > 0x20
    ensures StripRight(StripLeft(b)) == b
  {
  }

  predicate KnownOption(option: Bytes) {
    || option == []
    || option == Codes("$important")
    || option == Codes("$all")
    || option == Codes("$document")
  }

  lemma OptionsAre(option: Bytes)
    ensures IsAdblockOption(option) <==> KnownOption(option)
  {
    assert Codes("$important") == IMPORTANT;
    assert Codes("$all") == ALL;
    assert Codes("$document") == DOCUMENT;
  }

  /** Which options a rule may have, and what the rule then says. */
  lemma RuleLine(except: bool, name: Bytes, option: Bytes, slow: Slow)
    requires DomainVerdict(name).Hash? && (option != [] ==> option[|option| - 1] > 0x20)
    ensures ParseLine(Rule(except, name, option), Adblock, slow) ==
            if KnownOption(option) then Line(true, [Entry(if except then Except else Suffix, DomainVerdict(name).h)])
            else Line(false, [])
  {
    hide DomainVerdict, Codes, Rule, StripLeft, StripRight, Find, IsAdblockOption, KnownOption;
    var b, p := Rule(except, name, option), if except then 2 else 0;
    RuleBytes(except, name, option);
    NameLooks(name);
    OptionsAre(option);
    var caret := p + 2 + |name|;
    assert b[|b| - 1] == if option == [] then b[caret] else b[caret + 1..][|option| - 1];
    Ends(b);
    assert b[p] == b[p..p + 2][0] && b[p + 1] == b[p..p + 2][1];
    forall j | p + 2 <= j < caret
      ensures b[j] != CARET
    {
      assert b[j] == name[j - p - 2];
    }
    CaretAt(b, p + 2, caret);
  }

  // ---- Lines of a hosts file ----

  /** An address in text: hexadecimal digits, '.' and ':'. */
  predicate Address(ip: Bytes) {
    && 2 <= |ip| <= 39
    && forall k :: 0 <= k < |ip| ==>
                     || '0' as int <= ip[k] <= '9' as int || 'a' as int <= ip[k] <= 'f' as int
                     || 'A' as int <= ip[k] <= 'F' as int || ip[k] == '.' as int || ip[k] == ':' as int
  }

  /** A name behind at least one blank. */
  datatype Host = Host(gap: Bytes, name: Bytes)

  predicate HostOk(h: Host) {
    h.gap != [] && Blanks(h.gap) && DomainVerdict(h.name).Hash?
  }

  predicate HostsOk(hs: seq<Host>) {
    forall k :: 0 <= k < |hs| ==> HostOk(hs[k])
  }

  function Listed(hs: seq<Host>): (r: Bytes)
  {
    if hs == [] then [] else hs[0].gap + hs[0].name + Listed(hs[1..])
  }

  /** The names that stand for the machine itself. */
  predicate OwnName(h: nat) {
    || h == Hash53(Codes("localhost.localdomain"))
    || h == Hash53(Codes("local.localdomain"))
    || h == Hash53(Codes("ip6-localhost.localdomain"))
  }

  lemma OwnNames(h: nat)
    ensures IsSkippedHost(h) == OwnName(h)
  {
    hide Hash53, Codes;
    OwnName1();
    OwnName2();
    OwnName3();
  }

  lemma OwnName1()
    ensures Codes("localhost.localdomain") == LOCALHOST
  {
  }

  lemma OwnName2()
    ensures Codes("local.localdomain") == LOCAL
  {
  }

  lemma OwnName3()
    ensures Codes("ip6-localhost.localdomain") == IP6_LOCALHOST
  {
  }

  /** One entry for each name in order, but none for the machine itself. */
  function HostAdds(hs: seq<Host>): (r: seq<Entry>)
    requires HostsOk(hs)
  {
    if hs == [] then [] else
    assert HostOk(hs[0]);
    var h := DomainVerdict(hs[0].name).h;
    (if OwnName(h) then [] else [Entry(Exact, h)]) + HostAdds(hs[1..])
  }

  lemma SpaceAt(b: Bytes, k: nat)
    requires k <= |b| && (k < |b| ==> IsSpace(b[k])) && forall j :: 0 <= j < k ==> !IsSpace(b[j])
    ensures FindSpace(b, 0) == k
  {
  }

  lemma ListedStarts(hs: seq<Host>)
    requires HostsOk(hs) && hs != []
    ensures Listed(hs) != [] && IsSpace(Listed(hs)[0])
  {
    assert HostOk(hs[0]);
  }

  lemma {:induction false} ListedEntries(hs: seq<Host>, slow: Slow)
    requires HostsOk(hs)
    ensures HostEntries(Listed(hs), slow) == HostAdds(hs)
    decreases |hs|
  {
    hide DomainVerdict, IsSkippedHost, OwnName, FindSpace, StripLeft;
    if hs == [] {
      NoBlanks();
    } else {
      assert HostOk(hs[0]);
      var h, rest := hs[0], Listed(hs[1..]);
      ListedEntries(hs[1..], slow);
      NameLooks(h.name);
      var r := h.name + rest;
      StripGap(h.gap, h.name, rest);
      if hs[1..] != [] {
        ListedStarts(hs[1..]);
      }
      SpaceAt(r, |h.name|);
      assert r[..|h.name|] == h.name && r[|h.name|..] == rest;
      OwnNames(DomainVerdict(h.name).h);
    }
  }

  lemma StripGap(gap: Bytes, name: Bytes, rest: Bytes)
    requires Blanks(gap) && name != [] && NameByte(name[0])
    ensures StripLeft(gap + name + rest) == name + rest
  {
    assert gap + name + rest == gap + (name + rest);
    LeftBlanks(gap, name + rest);
  }

  lemma {:induction false} ListedBytes(hs: seq<Host>)
    requires HostsOk(hs)
    ensures '#' as int !in Listed(hs) && (hs != [] ==> Listed(hs) != [] && Listed(hs)[|Listed(hs)| - 1] > 0x20)
  {
    hide DomainVerdict;
    if hs != [] {
      assert HostOk(hs[0]);
      NameLooks(hs[0].name);
      ListedBytes(hs[1..]);
      var a, b := hs[0].gap + hs[0].name, Listed(hs[1..]);
      assert '#' as int !in a;
      assert b == [] ==> a + b == a;
    }
  }

  lemma AddressBytes(ip: Bytes)
    requires Address(ip)
    ensures IsIp(ip) && '#' as int !in ip && ip[0] > 0x20 && ip[0] != '!' as int
    ensures forall k :: 0 <= k < |ip| ==> !IsSpace(ip[k])
  {
  }

  lemma HostsEnds(ip: Bytes, hs: seq<Host>)
    requires Address(ip) && HostsOk(hs)
    ensures var b := ip + Listed(hs);
            && b[|b| - 1] > 0x20 && '#' as int !in b && (|ip| < |b| ==> IsSpace(b[|ip|]))
  {
    hide HostOk;
    AddressBytes(ip);
    ListedBytes(hs);
    if hs != [] {
      ListedStarts(hs);
    }
  }

  lemma NoComment(b: Bytes)
    requires b != [] && '#' as int !in b && b[|b| - 1] > 0x20
    ensures CutComment(b) == b
  {
    assert Find(b, HASH, 0) == |b|;
    assert b[..|b|] == b;
  }

  /** An address and names behind it: exactly these names, without their subdomains. */
  lemma HostsLine(ip: Bytes, hs: seq<Host>, slow: Slow)
    requires Address(ip) && HostsOk(hs)
    ensures ParseLine(ip + Listed(hs), Hosts, slow) == Line(HostAdds(hs) != [], HostAdds(hs))
  {
    hide HostsOk, Listed, Address, IsIp, HostEntries, HostAdds, FindSpace, Find, StripLeft, StripRight;
    var b, rest := ip + Listed(hs), Listed(hs);
    AddressBytes(ip);
    ListedBytes(hs);
    ListedEntries(hs, slow);
    HostsEnds(ip, hs);
    Ends(b);
    NoComment(b);
    SpaceAt(b, |ip|);
    assert b[..|ip|] == ip && b[|ip|..] == rest;
  }

  // ---- Comments ----

  /** A line that starts with '#' or '!', and in filter rules also '[', is no entry and not counted as skipped. */
  lemma CommentLine(gap: Bytes, sign: char, text: Bytes, format: Format, slow: Slow)
    requires Blanks(gap) && (sign in "#!" || (format == Adblock && sign == '['))
    ensures ParseLine(gap + [sign as int] + text, format, slow) == Line(false, [])
    ensures !CountsAsSkipped(gap + [sign as int] + text)
  {
    var b := [sign as int] + text;
    assert gap + [sign as int] + text == gap + b;
    LeftBlanks(gap, b);
    KeepsFirst(b);
  }

  /** Every other line that is not blank counts as skipped if it holds no entry. */
  lemma SkippedExact(gap: Bytes, c: byte, text: Bytes)
    requires Blanks(gap) && !Blank(c)
    ensures CountsAsSkipped(gap + [c] + text) <==> c != '#' as int && c != '!' as int && c != '[' as int
    ensures !CountsAsSkipped(gap)
  {
    assert gap + [c] + text == gap + ([c] + text) && gap + [] == gap;
    LeftBlanks(gap, [c] + text);
    LeftBlanks(gap, []);
  }

  lemma HashAt(b: Bytes, k: nat)
    requires k <= |b| && (k < |b| ==> b[k] == HASH) && forall j :: 0 <= j < k ==> b[j] != HASH
    ensures Find(b, HASH, 0) == k
  {
  }

  lemma {:induction false} CutTrimmed(s: Bytes)
    ensures CutComment(StripRight(s)) == CutComment(s)
    decreases |s|
  {
    if s != [] && IsSpace(s[|s| - 1]) {
      var t := s[..|s| - 1];
      CutTrimmed(t);
      var k := Find(t, HASH, 0);
      if k < |t| {
        HashAt(s, k);
        assert s[..k] == t[..k];
      } else {
        HashAt(s, |s|);
        assert s[..|s|] == s && t[..|t|] == t;
      }
    }
  }

  lemma CutAtHash(s: Bytes, text: Bytes)
    ensures CutComment(s + [HASH] + text) == CutComment(s)
  {
    var k, b := Find(s, HASH, 0), s + [HASH] + text;
    HashAt(b, k);
    assert b[..k] == s[..k];
  }

  /** In a list of domains or hosts a comment behind an entry changes nothing. */
  lemma CommentBehind(line: Bytes, text: Bytes, format: Format, slow: Slow)
    requires format != Adblock
    ensures ParseLine(line + [0x23] + text, format, slow) == ParseLine(line, format, slow)
  {
    hide ParseHosts, ParseDomain, CutComment, StripLeft, StripRight;
    var s, c := StripLeft(line), [0x23] + text;
    assert line + [0x23] + text == line + c;
    StripLeftBefore(line, c);
    KeepsFirst(s);
    if s == [] {
      HashFirst(text);
    } else {
      assert s + c == s + [HASH] + text;
      KeepsFirst(s + c);
      CutTrimmed(s);
      CutTrimmed(s + c);
      CutAtHash(s, text);
    }
  }

  lemma HashFirst(text: Bytes)
    ensures StripLeft([0x23] + text) == [0x23] + text && StripRight([]) == []
    ensures StripRight([0x23] + text) != [] && StripRight([0x23] + text)[0] == 0x23
  {
    KeepsFirst([0x23] + text);
  }
}
