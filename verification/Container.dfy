/** The plugin package inside its compression (src/edge/gcplugin.js): a magic number, files
    with their paths and sizes, and an empty name at the end. */
module Container {
  import opened Bytes
  import opened Splitting
  import opened DomainNames

  const MAGIC: Bytes := [0x47, 0x43, 0x50, 0x4c, 0x55, 0x47, 0x49, 0x4e, 0x00, 0x01]
  const UNPACKED_BYTES := 50 * 1024 * 1024
  const FILE_COUNT := 1000
  const PATH_LENGTH := 200
  const PATH_DEPTH := 12
  const SEGMENT_LENGTH := 100

  const SLASH: byte := 0x2f
  const BACKSLASH: byte := 0x5c

  datatype File = File(path: Bytes, data: Bytes)

  datatype Failure = NotAPackage | TooLarge | Corrupt | BadPath | Duplicate | TooManyFiles

  datatype Result<T> = Ok(value: T) | Err(error: Failure) {
    predicate IsFailure() {
      Err?
    }

    function PropagateFailure<U>(): Result<U>
      requires Err?
    {
      Err(error)
    }

    function Extract(): T
      requires Ok?
    {
      value
    }
  }

  // ---- Paths ----

  predicate Alphanumeric(c: byte) {
    0x30 <= c <= 0x39 || 0x41 <= c <= 0x5a || 0x61 <= c <= 0x7a
  }

  /** A letter, digit, underscore or dash, and further ones or dots. */
  predicate SegmentOk(s: Bytes) {
    && 1 <= |s| <= SEGMENT_LENGTH
    && (Alphanumeric(s[0]) || s[0] == 0x5f || s[0] == 0x2d)
    && forall i :: 1 <= i < |s| ==> Alphanumeric(s[i]) || s[i] == 0x5f || s[i] == 0x2d || s[i] == 0x2e
  }

  function Segments(p: Bytes): (r: seq<Bytes>)
    ensures |r| >= 1
  {
    Split(p, SLASH)
  }

  predicate PathOk(p: Bytes) {
    && p != [] && |p| <= PATH_LENGTH && p[0] != SLASH && BACKSLASH !in p && 0 !in p
    && |Segments(p)| <= PATH_DEPTH && forall k :: 0 <= k < |Segments(p)| ==> SegmentOk(Segments(p)[k])
  }

  // ---- What a package may hold ----

  function Sizes(files: seq<File>): (n: nat)
  {
    if files == [] then 0 else Sizes(files[..|files| - 1]) + |files[|files| - 1].data|
  }

  ghost predicate AllPathsOk(files: seq<File>) {
    forall k :: 0 <= k < |files| ==> PathOk(files[k].path)
  }

  /** No two paths differ only in case. */
  ghost predicate Unlike(files: seq<File>) {
    forall j, k :: 0 <= j < k < |files| ==> LowerAll(files[j].path) != LowerAll(files[k].path)
  }

  ghost predicate Listed(files: seq<File>) {
    AllPathsOk(files) && Unlike(files) && Sizes(files) <= 52_428_800 && |files| <= 1000
  }

  /** `p` lies in the folder `d`. */
  predicate LiesIn(p: Bytes, d: Bytes) {
    |d| < |p| && p[..|d|] == d && p[|d|] == SLASH
  }

  /** No file is also a folder, in any case. */
  ghost predicate NoFileIsFolder(files: seq<File>) {
    forall j, k :: 0 <= j < |files| && 0 <= k < |files| ==> !LiesIn(LowerAll(files[j].path), LowerAll(files[k].path))
  }

  /** Files that can be put into a file system that ignores case. */
  ghost predicate ProperTree(files: seq<File>) {
    Listed(files) && NoFileIsFolder(files)
  }

  // ---- The layout ----

  function EntryBytes(f: File): (b: Bytes)
    requires |f.path| < U16_LIMIT && |f.data| < U32_LIMIT
  {
    U16(|f.path|) + f.path + U32(|f.data|) + f.data
  }

  predicate Writable(f: File) {
    |f.path| < U16_LIMIT && |f.data| < U32_LIMIT
  }

  predicate AllWritable(files: seq<File>) {
    forall k :: 0 <= k < |files| ==> Writable(files[k])
  }

  function Entries(files: seq<File>): (b: Bytes)
    requires AllWritable(files)
  {
    if files == [] then [] else
    assert Writable(files[0]);
    EntryBytes(files[0]) + Entries(files[1..])
  }

  lemma MagicIs()
    ensures MAGIC == Codes("GCPLUGIN") + [0, 1]
  {
  }

  /** The unpacked package with these files in this order. */
  function Package(files: seq<File>): (b: Bytes)
    requires AllWritable(files)
    ensures |b| >= |MAGIC| + 2
    ensures b[..10] == Codes("GCPLUGIN") + [0, 1]
  {
    MagicIs();
    MAGIC + (Entries(files) + [0, 0])
  }

  lemma {:induction false} SizesBound(files: seq<File>)
    ensures forall k :: 0 <= k < |files| ==> |files[k].data| <= Sizes(files)
    decreases |files|
  {
    if files != [] {
      SizesBound(files[..|files| - 1]);
      assert forall k :: 0 <= k < |files| - 1 ==> files[k] == files[..|files| - 1][k];
    }
  }

  lemma ListedWritable(files: seq<File>)
    requires Listed(files)
    ensures AllWritable(files)
  {
    hide Sizes, Unlike;
    SizesBound(files);
    forall k | 0 <= k < |files|
      ensures Writable(files[k])
    {
      assert PathOk(files[k].path);
    }
  }

  // ---- decode ----

  /** One file and where the next one starts. */
  datatype Next = End(off: nat) | One(file: File, off: nat)

  /** The next file; `total` is the size of those before it. */
  function NextAt(raw: Bytes, off: nat, total: nat): (r: Result<Next>)
    ensures r.Ok? ==> off + 2 <= r.value.off <= |raw|
    ensures r.Ok? && r.value.One? ==> off + 2 < r.value.off
  {
    if off + 2 > |raw| then Err(Corrupt) else
    var n := GetU16(raw, off);
    if n == 0 then Ok(End(off + 2))
    else if n > PATH_LENGTH || off + 2 + n + 4 > |raw| then Err(Corrupt)
    else if !PathOk(raw[off + 2..off + 2 + n]) then Err(BadPath)
    else
      var size, data := GetU32(raw, off + 2 + n), off + 2 + n + 4;
      if data + size > |raw| then Err(Corrupt)
      else if total + size > UNPACKED_BYTES then Err(TooLarge)
      else Ok(One(File(raw[off + 2..off + 2 + n], raw[data..data + size]), data + size))
  }

  predicate Seen(files: seq<File>, name: Bytes) {
    exists k :: 0 <= k < |files| && LowerAll(files[k].path) == name
  }

  /** The files from `off` on, after `files`, and where they end. */
  function FilesFrom(raw: Bytes, off: nat, files: seq<File>): (r: Result<(seq<File>, nat)>)
    decreases |raw| - off
  {
    var n :- NextAt(raw, off, Sizes(files));
    if n.End? then Ok((files, n.off))
    else if Seen(files, LowerAll(n.file.path)) then Err(Duplicate)
    else if |files| + 1 > FILE_COUNT then Err(TooManyFiles)
    else FilesFrom(raw, n.off, files + [n.file])
  }

  /** One of the folders of a path is the name of a file. */
  predicate FolderSeen(files: seq<File>, path: Bytes) {
    var segs := Segments(path);
    exists i :: 1 <= i < |segs| && Seen(files, LowerAll(Join(segs[..i], SLASH)))
  }

  predicate Collides(files: seq<File>) {
    exists k :: 0 <= k < |files| && FolderSeen(files, files[k].path)
  }

  function Decode(raw: Bytes): (r: Result<seq<File>>)
  {
    if |raw| < |MAGIC| + 2 || raw[..|MAGIC|] != MAGIC then Err(NotAPackage) else
    var (files, end) :- FilesFrom(raw, |MAGIC|, []);
    if end != |raw| then Err(Corrupt)
    else if Collides(files) then Err(BadPath)
    else Ok(files)
  }

  method CheckPath(p: Bytes) returns (ok: bool)
    ensures ok == PathOk(p)
  {
    hide Split, SegmentOk;
    if p == [] || |p| > PATH_LENGTH || p[0] == SLASH || BACKSLASH in p || 0 in p {
      return false;
    }
    var segs := Segments(p);
    if |segs| > PATH_DEPTH {
      return false;
    }
    for k := 0 to |segs|
      invariant forall j :: 0 <= j < k ==> SegmentOk(segs[j])
    {
      if !SegmentOk(segs[k]) {
        return false;
      }
    }
    ok := true;
  }

  /** `seen` holds the lower-case names of the files. */
  ghost predicate SeenAre(seen: set<Bytes>, files: seq<File>) {
    forall x :: x in seen <==> Seen(files, x)
  }

  /** The loops of decode. */
  method DecodeLoop(raw: Bytes) returns (r: Result<seq<File>>)
    ensures r == Decode(raw)
  {
    hide NextAt, Sizes, LowerAll, Seen, Segments, FolderSeen;
    if |raw| < |MAGIC| + 2 || raw[..|MAGIC|] != MAGIC {
      return Err(NotAPackage);
    }
    var files: seq<File> := [];
    var seen: set<Bytes> := {};
    var off, total := |MAGIC|, 0;
    NothingSeen();
    while true
      invariant off >= 0 && total == Sizes(files) && SeenAre(seen, files)
      invariant FilesFrom(raw, |MAGIC|, []) == FilesFrom(raw, off, files)
      decreases |raw| - off
    {
      var n := NextAt(raw, off, total);
      if n.Err? {
        return Err(n.error);
      }
      if n.value.End? {
        off := n.value.off;
        break;
      }
      var f := n.value.file;
      if LowerAll(f.path) in seen {
        return Err(Duplicate);
      }
      if |files| + 1 > FILE_COUNT {
        return Err(TooManyFiles);
      }
      FileAdded(files, f, seen);
      seen := seen + {LowerAll(f.path)};
      files := files + [f];
      total := total + |f.data|;
      off := n.value.off;
    }
    if off != |raw| {
      return Err(Corrupt);
    }
    for k := 0 to |files|
      invariant forall j :: 0 <= j < k ==> !FolderSeen(files, files[j].path)
    {
      var hit := FolderLoop(files, seen, files[k].path);
      if hit {
        return Err(BadPath);
      }
    }
    r := Ok(files);
  }

  lemma NothingSeen()
    ensures SeenAre({}, []) && Sizes([]) == 0
  {
  }

  lemma FileAdded(files: seq<File>, f: File, seen: set<Bytes>)
    requires SeenAre(seen, files)
    ensures SeenAre(seen + {LowerAll(f.path)}, files + [f]) && Sizes(files + [f]) == Sizes(files) + |f.data|
  {
    hide LowerAll;
    var more := files + [f];
    assert more[..|files|] == files && more[|files|] == f;
    forall x
      ensures x in seen + {LowerAll(f.path)} <==> Seen(more, x)
    {
      if x in seen {
        var k :| 0 <= k < |files| && LowerAll(files[k].path) == x;
        assert more[k] == files[k];
      }
    }
  }

  method FolderLoop(files: seq<File>, seen: set<Bytes>, path: Bytes) returns (hit: bool)
    requires SeenAre(seen, files)
    ensures hit == FolderSeen(files, path)
  {
    hide Seen, Join, LowerAll, Segments;
    var segs := Segments(path);
    for i := 1 to |segs|
      invariant forall j :: 1 <= j < i ==> !Seen(files, LowerAll(Join(segs[..j], SLASH)))
    {
      if LowerAll(Join(segs[..i], SLASH)) in seen {
        return true;
      }
    }
    hit := false;
  }

  // ---- The layout is what decode reads ----

  /** A file that is read stands there as it is written. */
  lemma NextIsEntry(raw: Bytes, off: nat, total: nat)
    requires NextAt(raw, off, total).Ok?
    ensures var n := NextAt(raw, off, total).value;
            if n.End? then Holds(raw, off, [0, 0]) && n.off == off + 2
            else
              && PathOk(n.file.path) && Writable(n.file) && total + |n.file.data| <= UNPACKED_BYTES
              && Holds(raw, off, EntryBytes(n.file)) && n.off == off + |EntryBytes(n.file)|
  {
    hide PathOk;
    var k := GetU16(raw, off);
    WrittenU16(raw, off);
    if k != 0 {
      var f := NextAt(raw, off, total).value.file;
      WrittenU32(raw, off + 2 + k);
      HoldsJoined(raw, off, U16(k), f.path);
      HoldsJoined(raw, off, U16(k) + f.path, U32(|f.data|));
      HoldsJoined(raw, off, U16(k) + f.path + U32(|f.data|), f.data);
    }
  }

  lemma WrittenU16(b: Bytes, i: nat)
    requires i + 2 <= |b|
    ensures Holds(b, i, U16(GetU16(b, i)))
  {
  }

  lemma WrittenU32(b: Bytes, i: nat)
    requires i + 4 <= |b|
    ensures Holds(b, i, U32(GetU32(b, i)))
  {
    var n := GetU32(b, i);
    assert n / 0x1_0000 == GetU16(b, i) && n % 0x1_0000 == GetU16(b, i + 2);
    WrittenU16(b, i);
    WrittenU16(b, i + 2);
    HoldsJoined(b, i, U16(GetU16(b, i)), U16(GetU16(b, i + 2)));
  }

  lemma HoldsJoined(b: Bytes, i: nat, x: Bytes, y: Bytes)
    requires Holds(b, i, x) && Holds(b, i + |x|, y)
    ensures Holds(b, i, x + y)
  {
    assert b[i..i + |x + y|] == b[i..i + |x|] + b[i + |x|..i + |x| + |y|];
  }

  /** And a file that is written is read. */
  lemma EntryIsNext(raw: Bytes, off: nat, total: nat, f: File)
    requires PathOk(f.path) && Writable(f) && total + |f.data| <= UNPACKED_BYTES && Holds(raw, off, EntryBytes(f))
    ensures NextAt(raw, off, total) == Ok(One(f, off + |EntryBytes(f)|))
  {
    hide U16, U32, GetU16, GetU32;
    PathLength(f.path);
    hide PathOk;
    var a, b, c, d := U16(|f.path|), f.path, U32(|f.data|), f.data;
    HoldsBoth(raw, off, a + b + c, d);
    HoldsBoth(raw, off, a + b, c);
    HoldsBoth(raw, off, a, b);
    ReadBackU16(raw, off, |f.path|);
    ReadBackU32(raw, off + 2 + |f.path|, |f.data|);
  }

  lemma PathLength(p: Bytes)
    requires PathOk(p)
    ensures 1 <= |p| <= PATH_LENGTH
  {
  }

  lemma EndIsNext(raw: Bytes, off: nat, total: nat)
    requires Holds(raw, off, [0, 0])
    ensures NextAt(raw, off, total) == Ok(End(off + 2))
  {
    assert raw[off] == raw[off..off + 2][0] && raw[off + 1] == raw[off..off + 2][1];
  }

  lemma ListedGrows(files: seq<File>, f: File)
    requires Listed(files) && PathOk(f.path) && !Seen(files, LowerAll(f.path))
    requires Sizes(files) + |f.data| <= UNPACKED_BYTES && |files| < FILE_COUNT
    ensures Listed(files + [f])
  {
    hide LowerAll, PathOk;
    assert (files + [f])[..|files|] == files;
  }

  /** What is read from `off` on, after `files`. */
  ghost predicate ReadAs(raw: Bytes, off: nat, files: seq<File>, all: seq<File>, end: nat) {
    && Listed(all) && |files| <= |all| && all[..|files|] == files && AllWritable(all[|files|..])
    && Holds(raw, off, Entries(all[|files|..]) + [0, 0]) && end == off + |Entries(all[|files|..])| + 2
  }

  /** The files that decode reads have good and different paths, are not too many or too
      large, and stand one after the other up to the end. */
  lemma {:induction false} FilesAreLaid(raw: Bytes, off: nat, files: seq<File>)
    requires Listed(files) && FilesFrom(raw, off, files).Ok?
    ensures var r := FilesFrom(raw, off, files).value; ReadAs(raw, off, files, r.0, r.1)
    decreases |raw| - off
  {
    hide NextAt, Listed, Holds, EntryBytes, LowerAll, PathOk, Sizes;
    var n := NextAt(raw, off, Sizes(files)).value;
    NextIsEntry(raw, off, Sizes(files));
    if n.End? {
      assert files[|files|..] == [] && [] + [0, 0] == [0, 0];
    } else {
      var f := n.file;
      ListedGrows(files, f);
      FilesAreLaid(raw, n.off, files + [f]);
      var (all, end) := FilesFrom(raw, off, files).value;
      OneEarlier(raw, off, files, f, all, end);
    }
  }

  lemma OneEarlier(raw: Bytes, off: nat, files: seq<File>, f: File, all: seq<File>, end: nat)
    requires Writable(f) && Holds(raw, off, EntryBytes(f)) && ReadAs(raw, off + |EntryBytes(f)|, files + [f], all, end)
    ensures ReadAs(raw, off, files, all, end)
  {
    hide Listed, Holds, EntryBytes;
    var n := |files|;
    var rest, tail := all[n + 1..], all[n..];
    assert all[..n + 1] == files + [f];
    assert all[n] == f by { assert all[n] == all[..n + 1][n]; }
    assert all[..n] == files by { assert all[..n] == all[..n + 1][..n]; }
    assert tail == [f] + rest && tail[1..] == rest;
    assert Entries(tail) == EntryBytes(f) + Entries(rest);
    HoldsJoined(raw, off, EntryBytes(f), Entries(rest) + [0, 0]);
    assert EntryBytes(f) + (Entries(rest) + [0, 0]) == Entries(tail) + [0, 0];
  }

  /** Every such list of files is read as it is laid out. */
  lemma {:induction false} LaidAreRead(raw: Bytes, off: nat, all: seq<File>, k: nat)
    requires Listed(all) && k <= |all| && AllWritable(all[k..]) && Holds(raw, off, Entries(all[k..]) + [0, 0])
    ensures FilesFrom(raw, off, all[..k]) == Ok((all, off + |Entries(all[k..])| + 2))
    decreases |all| - k
  {
    hide NextAt, Listed, Holds, EntryBytes, LowerAll, PathOk, Sizes, Seen;
    if k == |all| {
      assert all[..k] == all && all[k..] == [] && [] + [0, 0] == [0, 0];
      EndIsNext(raw, off, Sizes(all));
    } else {
      var f, rest := all[k], all[k + 1..];
      assert all[k..] == [f] + rest && all[k..][1..] == rest;
      assert Writable(all[k..][0]);
      AllWritableTail(all[k..]);
      assert Entries(all[k..]) + [0, 0] == EntryBytes(f) + (Entries(rest) + [0, 0]);
      HoldsBoth(raw, off, EntryBytes(f), Entries(rest) + [0, 0]);
      ListedAt(all, k);
      EntryIsNext(raw, off, Sizes(all[..k]), f);
      LaidAreRead(raw, off + |EntryBytes(f)|, all, k + 1);
      assert all[..k] + [f] == all[..k + 1];
    }
  }

  lemma AllWritableTail(files: seq<File>)
    requires AllWritable(files) && files != []
    ensures AllWritable(files[1..])
  {
    hide Writable;
  }

  lemma ListedAt(all: seq<File>, k: nat)
    requires Listed(all) && k < |all|
    ensures PathOk(all[k].path) && Sizes(all[..k]) + |all[k].data| <= UNPACKED_BYTES && k + 1 <= FILE_COUNT
    ensures !Seen(all[..k], LowerAll(all[k].path))
  {
    hide PathOk, LowerAll;
    SizesPrefix(all, k + 1);
    assert all[..k + 1][..k] == all[..k] && all[..k + 1][k] == all[k];
  }

  lemma {:induction false} SizesPrefix(all: seq<File>, k: nat)
    requires k <= |all|
    ensures Sizes(all[..k]) <= Sizes(all)
    decreases |all|
  {
    if k == |all| {
      assert all[..k] == all;
    } else {
      SizesPrefix(all[..|all| - 1], k);
      assert all[..|all| - 1][..k] == all[..k];
    }
  }

  // ---- Folders ----

  /** The folders of a path are the ends of its text before a slash. */
  lemma FoldersAre(p: Bytes, d: Bytes)
    ensures LiesIn(p, d) <==> exists i :: 1 <= i < |Segments(p)| && Join(Segments(p)[..i], SLASH) == d
  {
    hide Split, Join;
    if LiesIn(p, d) {
      var rest := p[|d| + 1..];
      assert p == d + [SLASH] + rest;
      SplitConcat(d, rest, SLASH);
      JoinSplit(d, SLASH);
      assert Segments(p)[..|Split(d, SLASH)|] == Split(d, SLASH);
    }
    forall i | 1 <= i < |Segments(p)| && Join(Segments(p)[..i], SLASH) == d
      ensures LiesIn(p, d)
    {
      var segs := Segments(p);
      JoinSplit(p, SLASH);
      assert segs == segs[..i] + segs[i..];
      JoinConcat(segs[..i], segs[i..], SLASH);
      assert p == d + [SLASH] + Join(segs[i..], SLASH);
    }
  }

  /** Lower case keeps the slashes. */
  lemma LiesInLower(p: Bytes, q: Bytes)
    ensures LiesIn(LowerAll(p), LowerAll(q)) <==> |q| < |p| && LowerAll(p[..|q|]) == LowerAll(q) && LiesIn(p, p[..|q|])
  {
    hide LowerAll;
    if |q| < |p| {
      var n := |q|;
      LowerAppend(p[..n], p[n..]);
      assert p == p[..n] + p[n..];
      assert LowerAll(p)[..n] == LowerAll(p[..n]);
      LowerAt(p, n);
    }
  }

  /** The check for folders finds exactly the paths that lie in a file. */
  lemma FolderSeenIs(files: seq<File>, p: Bytes)
    ensures FolderSeen(files, p) <==> exists k :: 0 <= k < |files| && LiesIn(LowerAll(p), LowerAll(files[k].path))
  {
    hide LowerAll, LiesIn, Segments, Join;
    var segs := Segments(p);
    if FolderSeen(files, p) {
      var i :| 1 <= i < |segs| && Seen(files, LowerAll(Join(segs[..i], SLASH)));
      var d := Join(segs[..i], SLASH);
      var k :| 0 <= k < |files| && LowerAll(files[k].path) == LowerAll(d);
      FoldersAre(p, d);
      FolderLies(p, d, files[k].path);
    }
    if k :| 0 <= k < |files| && LiesIn(LowerAll(p), LowerAll(files[k].path)) {
      LiesInLower(p, files[k].path);
      FoldersAre(p, p[..|files[k].path|]);
    }
  }

  lemma FolderLies(p: Bytes, d: Bytes, q: Bytes)
    requires LiesIn(p, d) && LowerAll(q) == LowerAll(d)
    ensures LiesIn(LowerAll(p), LowerAll(q))
  {
    hide LowerAll;
    assert |q| == |LowerAll(q)| == |d|;
    LiesInLower(p, q);
  }

  lemma CollidesIs(files: seq<File>)
    ensures Collides(files) <==> !NoFileIsFolder(files)
  {
    hide FolderSeen, LiesIn, LowerAll;
    forall j | 0 <= j < |files|
      ensures FolderSeen(files, files[j].path) <==>
              exists k :: 0 <= k < |files| && LiesIn(LowerAll(files[j].path), LowerAll(files[k].path))
    {
      FolderSeenIs(files, files[j].path);
    }
  }

  /** Decode accepts exactly the packages of proper file trees, and gives their files: every
      path is good and unique in any case, no file is also a folder, the limits are kept,
      and no byte is left over. */
  lemma DecodeExact(raw: Bytes, files: seq<File>)
    ensures Decode(raw) == Ok(files) <==> ProperTree(files) && AllWritable(files) && raw == Package(files)
  {
    hide Listed, FilesFrom, Entries, Collides, NoFileIsFolder, AllWritable;
    CollidesIs(files);
    if Decode(raw) == Ok(files) {
      NothingListed();
      FilesAreLaid(raw, |MAGIC|, []);
      WholeIs(raw, files);
    }
    if ProperTree(files) && AllWritable(files) && raw == Package(files) {
      assert raw[..|MAGIC|] == MAGIC;
      assert files[0..] == files && files[..0] == [];
      PackageHolds(files);
      LaidAreRead(raw, |MAGIC|, files, 0);
    }
  }

  lemma NothingListed()
    ensures Listed([])
  {
  }

  lemma WholeIs(raw: Bytes, files: seq<File>)
    requires |raw| >= |MAGIC| && raw[..|MAGIC|] == MAGIC && ReadAs(raw, |MAGIC|, [], files, |raw|)
    ensures Listed(files) && AllWritable(files) && raw == Package(files)
  {
    hide Listed, Entries;
    assert files[0..] == files;
    var body := Entries(files) + [0, 0];
    assert raw[|MAGIC|..|MAGIC| + |body|] == raw[|MAGIC|..];
    assert raw == raw[..|MAGIC|] + raw[|MAGIC|..];
  }

  lemma PackageHolds(files: seq<File>)
    requires AllWritable(files)
    ensures Holds(Package(files), |MAGIC|, Entries(files) + [0, 0])
  {
  }
}
