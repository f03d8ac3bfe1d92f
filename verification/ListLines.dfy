/** One line of a block list (parseLineBytes of src/dns/listParser.js).

    The program reads a line in place, inside a larger buffer, and looks at
    bytes next to its end. The function `ParseLine` sees the bytes of the line
    only; the loops are proved to agree with it wherever the line lies. */
module ListLines {
  import opened Bytes
  import opened DomainNames

  datatype Format = Domains | Hosts | Adblock

  datatype Kind = Suffix | Exact | Except

  datatype Entry = Entry(kind: Kind, hash: nat)

  /** Whether the line held an entry, and the entries in order. */
  datatype Line = Line(ok: bool, adds: seq<Entry>)

  /** cleanDomain and hash53 for names that are not ASCII (IDN), outside this model. */
  type Slow = Bytes -> Option<nat>

  const NONE := Line(false, [])

  const NL: byte := 0x0a
  const HASH: byte := 0x23
  const BANG: byte := 0x21
  const BRACKET: byte := 0x5b
  const AT: byte := 0x40
  const PIPE: byte := 0x7c
  const CARET: byte := 0x5e
  const STAR: byte := 0x2a

  predicate IsSpace(c: byte) {
    c == 0x20 || c == 0x09 || c == 0x0d || c == 0x0b || c == 0x0c
  }

  // ---- The line by itself ----

  function StripLeft(b: Bytes): (r: Bytes)
    ensures |r| <= |b| && (r != [] ==> !IsSpace(r[0]))
  {
    if b != [] && IsSpace(b[0]) then StripLeft(b[1..]) else b
  }

  function StripRight(b: Bytes): (r: Bytes)
    ensures r <= b
    ensures r != [] ==> !IsSpace(r[|r| - 1])
  {
    if b != [] && IsSpace(b[|b| - 1]) then StripRight(b[..|b| - 1]) else b
  }

  /** The first `c` from position `i` on, or the length. */
  function Find(b: Bytes, c: byte, i: nat): (k: nat)
    requires i <= |b|
    ensures i <= k <= |b| && (k < |b| ==> b[k] == c) && forall j :: i <= j < k ==> b[j] != c
    decreases |b| - i
  {
    if i == |b| || b[i] == c then i else Find(b, c, i + 1)
  }

  function FindSpace(b: Bytes, i: nat): (k: nat)
    requires i <= |b|
    ensures i <= k <= |b| && (k < |b| ==> IsSpace(b[k])) && forall j :: i <= j < k ==> !IsSpace(b[j])
    decreases |b| - i
  {
    if i == |b| || IsSpace(b[i]) then i else FindSpace(b, i + 1)
  }

  function DomainHash(b: Bytes, slow: Slow): Option<nat> {
    match DomainVerdict(b)
    case Hash(h) => Some(h)
    case Invalid => None
    case NotAscii => slow(b)
  }

  /** A byte of an IP address in text: a hexadecimal digit of either case, '.' or ':'; the
      program sets bit 5 first, so control bytes 0x0e, 0x10..0x1a pass as well. */
  predicate IsIpByte(c: byte) {
    var d := if c / 32 % 2 == 0 then c + 32 else c as int;
    0x30 <= d <= 0x39 || d == 0x2e || d == 0x3a || 0x61 <= d <= 0x66
  }

  predicate IsIp(b: Bytes) {
    2 <= |b| <= 39 && forall i :: 0 <= i < |b| ==> IsIpByte(b[i])
  }

  const LOCALHOST: Bytes :=
    [0x6c, 0x6f, 0x63, 0x61, 0x6c, 0x68, 0x6f, 0x73, 0x74, 0x2e, 0x6c, 0x6f, 0x63, 0x61, 0x6c, 0x64, 0x6f, 0x6d, 0x61,
     0x69, 0x6e]
  const LOCAL: Bytes :=
    [0x6c, 0x6f, 0x63, 0x61, 0x6c, 0x2e, 0x6c, 0x6f, 0x63, 0x61, 0x6c, 0x64, 0x6f, 0x6d, 0x61, 0x69, 0x6e]
  const IP6_LOCALHOST: Bytes :=
    [0x69, 0x70, 0x36, 0x2d, 0x6c, 0x6f, 0x63, 0x61, 0x6c, 0x68, 0x6f, 0x73, 0x74, 0x2e, 0x6c, 0x6f, 0x63, 0x61, 0x6c,
     0x64, 0x6f, 0x6d, 0x61, 0x69, 0x6e]

  predicate IsSkippedHost(h: nat) {
    h == Hash53(LOCALHOST) || h == Hash53(LOCAL) || h == Hash53(IP6_LOCALHOST)
  }

  const IMPORTANT: Bytes := [0x24, 0x69, 0x6d, 0x70, 0x6f, 0x72, 0x74, 0x61, 0x6e, 0x74]
  const ALL: Bytes := [0x24, 0x61, 0x6c, 0x6c]
  const DOCUMENT: Bytes := [0x24, 0x64, 0x6f, 0x63, 0x75, 0x6d, 0x65, 0x6e, 0x74]

  predicate IsAdblockOption(b: Bytes) {
    b == [] || b == IMPORTANT || b == ALL || b == DOCUMENT
  }

  function ParseAdblock(b: Bytes, slow: Slow): Line
    requires b != []
  {
    if b[0] == BANG || b[0] == BRACKET || b[0] == HASH then NONE else
    var except := b[0] == AT && |b| > 1 && b[1] == AT;
    var p := if except then 2 else 0;
    if p + 1 >= |b| || b[p] != PIPE || b[p + 1] != PIPE then NONE else
    var caret := Find(b, CARET, p + 2);
    if caret == |b| || !IsAdblockOption(b[caret + 1..]) then NONE else
    var h := DomainHash(b[p + 2..caret], slow);
    if h.None? then NONE else Line(true, [Entry(if except then Except else Suffix, h.value)])
  }

  function HostEntry(token: Bytes, slow: Slow): seq<Entry> {
    var h := DomainHash(token, slow);
    if h.Some? && !IsSkippedHost(h.value) then [Entry(Exact, h.value)] else []
  }

  /** The entries of the names in `b`, which are separated by spaces. */
  function HostEntries(b: Bytes, slow: Slow): seq<Entry>
    decreases |b|
  {
    var r := StripLeft(b);
    if r == [] then [] else
    var q := FindSpace(r, 0);
    HostEntry(r[..q], slow) + HostEntries(r[q..], slow)
  }

  function ParseHosts(b: Bytes, slow: Slow): Line {
    var p := FindSpace(b, 0);
    if !IsIp(b[..p]) then NONE else
    var adds := HostEntries(b[p..], slow);
    Line(adds != [], adds)
  }

  function ParseDomain(b: Bytes, slow: Slow): Line
    requires b != []
  {
    if FindSpace(b, 0) < |b| then NONE else
    var d := if |b| > 1 && b[0] == STAR && b[1] == DOT then b[2..] else if b[0] == DOT then b[1..] else b;
    var h := DomainHash(d, slow);
    if h.None? then NONE else Line(true, [Entry(Suffix, h.value)])
  }

  /** The line up to a comment. */
  function CutComment(b: Bytes): (r: Bytes)
    ensures b != [] && b[0] != HASH && !IsSpace(b[0]) ==> r != [] && r[0] == b[0]
  {
    KeepsFirst(b[..Find(b, HASH, 0)]);
    StripRight(b[..Find(b, HASH, 0)])
  }

  lemma KeepsFirst(b: Bytes)
    ensures b != [] && !IsSpace(b[0]) ==> StripRight(b) != [] && StripRight(b)[0] == b[0]
  {
  }

  /** What a line says, from its own bytes alone. */
  function ParseLine(line: Bytes, format: Format, slow: Slow): Line
  {
    var b := StripRight(StripLeft(line));
    KeepsFirst(StripLeft(line));
    if b == [] then NONE
    else if format == Adblock then ParseAdblock(b, slow)
    else if b[0] == HASH || b[0] == BANG then NONE
    else if format == Hosts then ParseHosts(CutComment(b), slow)
    else ParseDomain(CutComment(b), slow)
  }

  /** A line without an entry counts as skipped unless it is blank or a comment. */
  predicate CountsAsSkipped(line: Bytes) {
    var b := StripLeft(line);
    b != [] && b[0] != HASH && b[0] != BANG && b[0] != BRACKET
  }
}
