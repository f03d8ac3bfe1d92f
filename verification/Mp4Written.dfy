/** Media segments written out from what they carry, and what tfdtsOf and rebase
    of src/cameras/fmp4.js make of them.

    The writer follows the layouts of ISO/IEC 14496-12 (4.2 for boxes, 8.8.7 for
    tfhd, 8.8.12 for tfdt) and shares nothing with the reader, so that the two
    laws below say what the bytes mean that rebase patches. */
module Mp4Written {
  import opened Bytes
  import opened Mp4Boxes
  import opened Mp4Init
  import opened Mp4Segment
  import opened Sequences

  /** One track fragment: its track, the tfdt version and number, what else
      tfhd holds, and the boxes behind tfdt (trun and others). */
  datatype Fragment = Fragment(track: int, wide: bool, time: nat, more: Bytes, rest: seq<Bytes>)

  /** The parts of a segment, in order. */
  datatype Piece =
    | Index(sidx: bool, info: Bytes)
    | Moof(first: Bytes, fragments: seq<Fragment>)
    | Other(box: Bytes)

  function Atom(kind: string, body: Bytes): (r: Bytes)
    requires |kind| == 4 && forall k :: 0 <= k < 4 ==> kind[k] as int < 256
    requires |body| < 0xffff_fff8
  {
    U32(8 + |body|) + Codes(kind) + body
  }

  function Tfhd(f: Fragment): (r: Bytes)
    requires FragmentOk(f)
  {
    Atom("tfhd", [0, 0, 0, 0] + U32(f.track) + f.more)
  }

  function Tfdt(f: Fragment): (r: Bytes)
    requires FragmentOk(f)
  {
    Atom("tfdt", if f.wide then [1, 0, 0, 0] + U64(f.time) else [0, 0, 0, 0] + U32(f.time))
  }

  predicate FragmentOk(f: Fragment) {
    && 0 <= f.track < 0x1_0000_0000 && f.time < (if f.wide then 0x1_0000_0000_0000_0000 else 0x1_0000_0000)
    && |f.more| + |Concat(f.rest)| < 0xffff_ff00
    && Chain(f.rest)
  }

  function Traf(f: Fragment): (r: Bytes)
    requires FragmentOk(f)
  {
    Atom("traf", Tfhd(f) + Tfdt(f) + Concat(f.rest))
  }

  predicate AllFragments(fs: seq<Fragment>) {
    forall k :: 0 <= k < |fs| ==> FragmentOk(fs[k])
  }

  function Trafs(fs: seq<Fragment>): (r: seq<Bytes>)
    requires AllFragments(fs)
    ensures |r| == |fs|
  {
    seq(|fs|, k requires 0 <= k < |fs| => Traf(fs[k]))
  }

  /** The movie fragment header. */
  function Mfhd(first: Bytes): (r: Bytes)
    requires |first| < 0xffff_fff0
    ensures |r| == 8 + |first|
  {
    Atom("mfhd", first)
  }

  predicate PieceOk(p: Piece) {
    match p
    case Index(_, info) => |info| < 0xffff_fff8
    case Moof(first, fs) =>
      && AllFragments(fs)
      && |first| + |Concat(Trafs(fs))| < 0xffff_fff0
    case Other(box) =>
      && IsBox(box) && !OpenEnded(box)
      && box[4..8] != Codes("moof") && box[4..8] != Codes("styp") && box[4..8] != Codes("sidx")
  }

  function BytesOf(p: Piece): (r: Bytes)
    requires PieceOk(p)
  {
    match p
    case Index(sidx, info) => Atom(if sidx then "sidx" else "styp", info)
    case Moof(first, fs) => Atom("moof", Mfhd(first) + Concat(Trafs(fs)))
    case Other(box) => box
  }

  predicate AllOk(ps: seq<Piece>) {
    forall k :: 0 <= k < |ps| ==> PieceOk(ps[k])
  }

  function Pieces(ps: seq<Piece>): (r: seq<Bytes>)
    requires AllOk(ps)
    ensures |r| == |ps|
  {
    seq(|ps|, k requires 0 <= k < |ps| => BytesOf(ps[k]))
  }

  /** A media segment. */
  function Segment(ps: seq<Piece>): (r: Bytes)
    requires AllOk(ps)
  {
    Concat(Pieces(ps))
  }

  // ---- One track fragment ----

  lemma AtomBox(kind: string, body: Bytes)
    requires |kind| == 4 && forall k :: 0 <= k < 4 ==> kind[k] as int < 256
    requires |body| < 0xffff_fff8
    ensures var p := Atom(kind, body);
            IsBox(p) && !OpenEnded(p) && Kind(p) == Codes(kind) && Head(p) == 8 && Body(p) == body && |p| == 8 + |body|
  {
    PlainBox(Codes(kind), body);
  }

  function Kids(f: Fragment): (r: seq<Bytes>)
    requires FragmentOk(f)
  {
    [Tfhd(f), Tfdt(f)] + f.rest
  }

  lemma TfhdIs(f: Fragment)
    requires FragmentOk(f)
    ensures var p := Tfhd(f);
            && IsBox(p) && !OpenEnded(p) && Kind(p) == TFHD && Head(p) == 8
            && |p| == 16 + |f.more| && GetU32(p, 12) == f.track
  {
    Mp4Segment.KindNames();
    var body := [0, 0, 0, 0] + U32(f.track) + f.more;
    AtomBox("tfhd", body);
    hide U32, GetU32, HeaderAt, Codes;
    var p := Tfhd(f);
    assert p[12..16] == p[8..][4..8] == body[4..8] == U32(f.track);
    ReadBackU32(p, 12, f.track);
  }

  function Version(f: Fragment): byte {
    if f.wide then 1 else 0
  }

  lemma TfdtIs(f: Fragment)
    requires FragmentOk(f)
    ensures var p := Tfdt(f);
            && IsBox(p) && !OpenEnded(p) && Kind(p) == TFDT && Head(p) == 8
            && |p| == 12 + Width(Version(f)) && p[8] == Version(f) && GetNumber(p, 12, Version(f)) == f.time
            && p[12..] == Number(Version(f), f.time)
  {
    Mp4Segment.KindNames();
    var number := if f.wide then U64(f.time) else U32(f.time);
    var body := [Version(f), 0, 0, 0] + number;
    AtomBox("tfdt", body);
    hide U32, U64, GetU32, GetU64, HeaderAt, Codes;
    var p := Tfdt(f);
    assert p[8..] == body && p[8] == body[0];
    assert p[12..] == body[4..] == number;
    if f.wide {
      assert p[12..20] == number;
      ReadBackU64(p, 12, f.time);
    } else {
      assert p[12..16] == number;
      ReadBackU32(p, 12, f.time);
    }
  }

  lemma KidsLaid(f: Fragment)
    requires FragmentOk(f)
    ensures Laid(Tfhd(f) + Tfdt(f) + Concat(f.rest), Kids(f), []) && AllBoxes(Kids(f))
    ensures Before(Kids(f), 1) == |Tfhd(f)|
  {
    TfhdIs(f);
    TfdtIs(f);
    hide Tfhd, Tfdt, HeaderAt, IsBox, GetU32, GetNumber, Number, Kind, Head;
    var ks := Kids(f);
    MehdChain(Tfdt(f), f.rest);
    MehdChain(Tfhd(f), [Tfdt(f)] + f.rest);
    assert ks == [Tfhd(f)] + ([Tfdt(f)] + f.rest);
    ConcatCons(Tfhd(f), [Tfdt(f)] + f.rest);
    ConcatCons(Tfdt(f), f.rest);
    assert Concat(ks) + [] == Tfhd(f) + Tfdt(f) + Concat(f.rest);
    assert ks[..1] == [Tfhd(f)];
    assert Concat([Tfhd(f)]) == Tfhd(f);
  }

  lemma TrafReads(f: Fragment)
    requires FragmentOk(f)
    ensures |Tfhd(f)| == 16 + |f.more|
    ensures TrafWith(Traf(f), Kids(f), [], 0, 1)
    ensures TimeIn(Traf(f), Kids(f), [], 0, 1) == Time(f.track, 8 + |Tfhd(f)| + 12, Version(f), f.time)
  {
    Mp4Segment.KindNames();
    TfhdIs(f);
    TfdtIs(f);
    KidsLaid(f);
    hide Tfhd, Tfdt, U32, U64, GetU32, HeaderAt, GetNumber, Codes, Chain, OpenEnded;
    var ks := Kids(f);
    AtomBox("traf", Tfhd(f) + Tfdt(f) + Concat(f.rest));
    assert ks[0] == Tfhd(f) && ks[1] == Tfdt(f);
    FirstIs(ks, TFHD, 0);
    FirstIs(ks, TFDT, 1);
  }

  /** The time lowered by the base of its track, but never below 0. */
  function Lowered(f: Fragment, base: Base): (g: Fragment)
    ensures FragmentOk(f) ==> FragmentOk(g)
  {
    if f.track !in base then f
    else f.(time := if f.time >= base[f.track] then f.time - base[f.track] else 0)
  }

  function LoweredAll(fs: seq<Fragment>, base: Base): (gs: seq<Fragment>)
    ensures |gs| == |fs| && forall k :: 0 <= k < |fs| ==> gs[k] == Lowered(fs[k], base)
  {
    seq(|fs|, k requires 0 <= k < |fs| => Lowered(fs[k], base))
  }

  /** The bytes of a traf in front of its time. */
  function TrafFront(f: Fragment): (r: Bytes)
    requires FragmentOk(f)
    ensures |r| == 8 + |Tfhd(f)| + 12
  {
    U32(8 + |Tfhd(f)| + |Tfdt(f)| + |Concat(f.rest)|) + Codes("traf") + Tfhd(f) + Tfdt(f)[..12]
  }

  lemma TrafAround(f: Fragment)
    requires FragmentOk(f)
    ensures Traf(f) == TrafFront(f) + Number(Version(f), f.time) + Concat(f.rest)
  {
    TfdtIs(f);
    hide Tfhd, Tfdt, Number, Concat, U32, Codes;
    assert Tfdt(f) == Tfdt(f)[..12] + Tfdt(f)[12..];
  }

  lemma FrontOfLowered(f: Fragment, base: Base)
    requires FragmentOk(f)
    ensures FragmentOk(Lowered(f, base)) && TrafFront(Lowered(f, base)) == TrafFront(f)
  {
    var g := Lowered(f, base);
    hide U32, U64, Codes;
    assert Tfhd(g) == Tfhd(f);
    assert Tfdt(g)[..12] == Tfdt(f)[..12];
    hide Tfhd, Tfdt;
  }

  lemma TrafMoves(f: Fragment, base: Base)
    requires FragmentOk(f)
    ensures Rebox(Traf(f), TrafTimes, base) == Traf(Lowered(f, base))
  {
    hide HeaderAt, TrafWith, TrafTimes, TrafFront, Number, Concat, Traf, Splice, FragmentOk, Tfhd, Tfdt;
    TrafReads(f);
    TrafTimesFrom(Traf(f), Kids(f), [], 0, 1);
    var t := TimeIn(Traf(f), Kids(f), [], 0, 1);
    WriteOne(Traf(f), t, base);
    TrafAround(f);
    FrontOfLowered(f, base);
    TrafAround(Lowered(f, base));
    if f.track in base {
      var w := Number(Version(f), Lowered(f, base).time);
      SpliceInside(TrafFront(f), Number(Version(f), f.time), Concat(f.rest), 0, w);
      SpliceWhole(Number(Version(f), f.time), w);
    }
  }

  lemma SpliceWhole(b: Bytes, w: Bytes)
    requires |w| == |b|
    ensures Splice(b, 0, w) == w
  {
  }

  // ---- One movie fragment ----

  lemma TrafKid(f: Fragment)
    requires FragmentOk(f)
    ensures var p := Traf(f);
            IsBox(p) && !OpenEnded(p) && Kind(p) == TRAF && TrafOk(p) && KidOk(p)
    ensures TrafTimes(Traf(f)) == [Time(f.track, 8 + |Tfhd(f)| + 12, Version(f), f.time)]
  {
    Mp4Segment.KindNames();
    AtomBox("traf", Tfhd(f) + Tfdt(f) + Concat(f.rest));
    hide HeaderAt, TrafWith, TrafTimes, TrafOk, Tfhd, Tfdt, Concat, Codes;
    TrafReads(f);
    TrafTimesFrom(Traf(f), Kids(f), [], 0, 1);
  }

  lemma MfhdKid(first: Bytes)
    requires |first| < 0xffff_fff0
    ensures IsBox(Mfhd(first)) && !OpenEnded(Mfhd(first)) && Kind(Mfhd(first)) != TRAF
    ensures KidOk(Mfhd(first)) && TrafTimes(Mfhd(first)) == []
  {
    AtomBox("mfhd", first);
    assert Codes("mfhd")[0] == 0x6d && TRAF[0] == 0x74;
  }

  function MoofKids(first: Bytes, fs: seq<Fragment>): (r: seq<Bytes>)
    requires |first| < 0xffff_fff0 && AllFragments(fs)
    ensures |r| == |fs| + 1
  {
    [Mfhd(first)] + Trafs(fs)
  }

  lemma MoofKidIs(first: Bytes, fs: seq<Fragment>, k: nat)
    requires |first| < 0xffff_fff0 && AllFragments(fs) && k <= |fs|
    ensures var p := MoofKids(first, fs)[k]; IsBox(p) && !OpenEnded(p) && KidOk(p)
  {
    hide HeaderAt, Mfhd, Traf, FragmentOk, KidOk, OpenEnded, IsBox;
    if k == 0 {
      MfhdKid(first);
    } else {
      assert MoofKids(first, fs)[k] == Traf(fs[k - 1]);
      TrafKid(fs[k - 1]);
    }
  }

  lemma MoofKidsFit(first: Bytes, fs: seq<Fragment>)
    requires |first| < 0xffff_fff0 && AllFragments(fs)
    ensures Chain(MoofKids(first, fs))
    ensures forall k :: 0 <= k < |MoofKids(first, fs)| ==> KidOk(MoofKids(first, fs)[k])
    ensures Concat(MoofKids(first, fs)) == Mfhd(first) + Concat(Trafs(fs))
  {
    var ks := MoofKids(first, fs);
    ConcatCons(Mfhd(first), Trafs(fs));
    hide HeaderAt, IsBox, OpenEnded, KidOk, Concat, MoofKids, AllFragments;
    forall k | 0 <= k < |ks|
      ensures IsBox(ks[k]) && !OpenEnded(ks[k]) && KidOk(ks[k])
    {
      MoofKidIs(first, fs, k);
    }
  }

  lemma MoofIsBox(p: Piece)
    requires p.Moof? && PieceOk(p)
    ensures var b, c := BytesOf(p), Mfhd(p.first) + Concat(Trafs(p.fragments));
            IsBox(b) && !OpenEnded(b) && Kind(b) == MOOF && Head(b) == 8 && Body(b) == c
  {
    hide HeaderAt, Concat, Atom, Trafs, Codes, IsBox, OpenEnded, Kind, Head, Body, Mfhd, AllFragments;
    Mp4Segment.KindNames();
    AtomBox("moof", Mfhd(p.first) + Concat(Trafs(p.fragments)));
  }

  lemma MoofReads(p: Piece)
    requires p.Moof? && PieceOk(p)
    ensures var b := BytesOf(p);
            && IsBox(b) && !OpenEnded(b) && Kind(b) == MOOF && Head(b) == 8
            && Parts(Body(b)) == Some(MoofKids(p.first, p.fragments)) && Leftover(Body(b)) == []
            && MoofOk(b) && Body(b) == Concat(MoofKids(p.first, p.fragments))
  {
    hide HeaderAt, Concat, Parts, Leftover, KidOk, MoofKids, Trafs, IsBox, OpenEnded, Mfhd, AllFragments, BytesOf,
         Kind, Head, Body, Chain;
    var ks, c := MoofKids(p.first, p.fragments), Concat(MoofKids(p.first, p.fragments));
    MoofIsBox(p);
    MoofKidsFit(p.first, p.fragments);
    assert c + [] == c;
    NoSlack(ks);
    PartsOfLaid(c, ks, []);
  }

  lemma NoSlack(ks: seq<Bytes>)
    ensures Slack(ks, [])
  {
  }

  lemma MoofMoves(p: Piece, base: Base)
    requires p.Moof? && PieceOk(p)
    ensures PieceOk(p.(fragments := LoweredAll(p.fragments, base)))
    ensures Rebox(BytesOf(p), MoofTimes, base) == BytesOf(p.(fragments := LoweredAll(p.fragments, base)))
  {
    hide HeaderAt, Concat, Parts, Leftover, KidOk, MoofOk, WriteAll, MoofKids, Atom, MoofTimes, FragmentOk, BytesOf,
         Trafs, IsBox, OpenEnded, Kind, Head, Body, Mfhd;
    var b, gs := BytesOf(p), LoweredAll(p.fragments, base);
    assert AllFragments(gs) by { LoweredFit(p.fragments, base); }
    MoofReads(p);
    KidsMove(p.first, p.fragments, base);
    MoofBody(b, base);
    var q := Rebox(b, MoofTimes, base);
    var c := Concat(MoofKids(p.first, gs));
    assert Body(q) == c by { assert c + [] == c; }
    PlainIs(q);
    MoofKidsFit(p.first, gs);
    MoofKidsFit(p.first, p.fragments);
    PlainIs(b);
    MoofBytes(p, q, gs);
  }

  lemma LoweredFit(fs: seq<Fragment>, base: Base)
    requires AllFragments(fs)
    ensures AllFragments(LoweredAll(fs, base))
  {
    hide FragmentOk;
  }

  lemma PlainIs(q: Bytes)
    requires IsBox(q) && Head(q) == 8 && !OpenEnded(q)
    ensures |Body(q)| + 8 == |q| < 0x1_0000_0000 && q == U32(|q|) + Kind(q) + Body(q)
  {
    hide HeaderAt;
    BoxExactly(q, Kind(q), 8, Body(q));
  }

  lemma MoofBytes(p: Piece, q: Bytes, gs: seq<Fragment>)
    requires p.Moof? && PieceOk(p) && AllFragments(gs)
    requires |Concat(Trafs(gs))| == |Concat(Trafs(p.fragments))|
    requires |q| < 0x1_0000_0000 && q == U32(|q|) + MOOF + (Mfhd(p.first) + Concat(Trafs(gs)))
    ensures PieceOk(p.(fragments := gs)) && BytesOf(p.(fragments := gs)) == q
  {
    hide Concat, Trafs, Mfhd, AllFragments;
    Mp4Segment.KindNames();
  }

  lemma KidsMove(first: Bytes, fs: seq<Fragment>, base: Base)
    requires |first| < 0xffff_fff0 && AllFragments(fs) && AllFragments(LoweredAll(fs, base))
    ensures ReboxAll(MoofKids(first, fs), TrafTimes, base) == MoofKids(first, LoweredAll(fs, base))
  {
    var ks, gs := MoofKids(first, fs), LoweredAll(fs, base);
    hide MoofKids, AllFragments, Rebox;
    forall k | 0 <= k < |ks|
      ensures Rebox(ks[k], TrafTimes, base) == MoofKids(first, gs)[k]
    {
      KidMoves(first, fs, base, k);
    }
  }

  lemma KidMoves(first: Bytes, fs: seq<Fragment>, base: Base, k: nat)
    requires |first| < 0xffff_fff0 && AllFragments(fs) && AllFragments(LoweredAll(fs, base)) && k <= |fs|
    ensures Rebox(MoofKids(first, fs)[k], TrafTimes, base) == MoofKids(first, LoweredAll(fs, base))[k]
  {
    hide Mfhd, Traf, FragmentOk, Rebox, Lowered;
    if k == 0 {
      MfhdStays(first, base);
    } else {
      var f := fs[k - 1];
      assert FragmentOk(f);
      TrafMoves(f, base);
      assert LoweredAll(fs, base)[k - 1] == Lowered(f, base);
    }
  }

  lemma MfhdStays(first: Bytes, base: Base)
    requires |first| < 0xffff_fff0
    ensures Rebox(Mfhd(first), TrafTimes, base) == Mfhd(first)
  {
    hide Mfhd, TrafTimes, KidOk;
    MfhdKid(first);
    WriteNone(Mfhd(first), base);
  }

  // ---- The whole segment ----

  lemma PieceReads(p: Piece)
    requires PieceOk(p)
    ensures IsBox(BytesOf(p)) && !OpenEnded(BytesOf(p)) && MoofOk(BytesOf(p))
    ensures (Kind(BytesOf(p)) == MOOF) == p.Moof?
    ensures (Kind(BytesOf(p)) == STYP || Kind(BytesOf(p)) == SIDX) == p.Index?
  {
    Mp4Segment.KindNames();
    hide HeaderAt, IsBox, OpenEnded, Head, Body, Atom;
    match p
    case Index(sidx, info) => AtomBox(if sidx then "sidx" else "styp", info);
    case Moof(_, _) => hide BytesOf, MoofOk, PieceOk; MoofReads(p);
    case Other(_) =>
  }

  lemma PiecesFit(ps: seq<Piece>)
    requires AllOk(ps)
    ensures Chain(Pieces(ps)) && Parts(Segment(ps)) == Some(Pieces(ps)) && SegmentOk(Segment(ps))
  {
    hide HeaderAt, OpenEnded, BytesOf, PieceOk, MoofOk, Parts, Concat;
    forall k | 0 <= k < |ps|
      ensures IsBox(Pieces(ps)[k]) && !OpenEnded(Pieces(ps)[k]) && MoofOk(Pieces(ps)[k])
    {
      PieceReads(ps[k]);
    }
    PartsOfConcat(Pieces(ps));
  }

  function RebuiltOne(p: Piece, base: Base): (r: seq<Piece>)
    ensures |r| == if p.Index? then 0 else 1
  {
    match p
    case Index(_, _) => []
    case Moof(first, fs) => [Moof(first, LoweredAll(fs, base))]
    case Other(box) => [Other(box)]
  }

  /** The pieces of the rebased segment: no index, and every time lowered. */
  function Rebuilt(ps: seq<Piece>, base: Base): (r: seq<Piece>)
  {
    if ps == [] then [] else RebuiltOne(ps[0], base) + Rebuilt(ps[1..], base)
  }

  lemma PieceMoves(p: Piece, base: Base)
    requires PieceOk(p) && !p.Index?
    ensures var q := RebuiltOne(p, base)[0];
            PieceOk(q) && Rebox(BytesOf(p), MoofTimes, base) == BytesOf(q)
  {
    hide HeaderAt, IsBox, OpenEnded, LoweredAll;
    match p
    case Moof(first, fs) => hide PieceOk, BytesOf; MoofMoves(p, base);
    case Other(box) => PieceReads(p); hide PieceOk; WriteNone(box, base);
  }

  lemma {:induction false} KeptPieces(ps: seq<Piece>, base: Base)
    requires AllOk(ps) && AllBoxes(Pieces(ps))
    ensures AllOk(Rebuilt(ps, base))
    ensures ReboxAll(Kept(Pieces(ps)), MoofTimes, base) == Pieces(Rebuilt(ps, base))
  {
    hide HeaderAt, IsBox, OpenEnded, PieceOk, BytesOf, Rebox, Kept, RebuiltOne, Kind;
    if ps == [] {
      KeptNone();
    } else {
      var p, rest := ps[0], ps[1..];
      var bs := Pieces(rest);
      assert Pieces(ps) == [BytesOf(p)] + bs;
      assert AllBoxes(bs) by { assert forall k :: 0 <= k < |bs| ==> bs[k] == Pieces(ps)[k + 1]; }
      KeptPieces(rest, base);
      PieceReads(p);
      KeptCons(BytesOf(p), bs);
      if !p.Index? {
        PieceMoves(p, base);
        OnePieceMore(p, rest, Kept(bs), base);
        assert [p] + rest == ps && Kept(Pieces(ps)) == [BytesOf(p)] + Kept(bs);
      } else {
        assert Rebuilt(ps, base) == Rebuilt(rest, base);
        assert Kept(Pieces(ps)) == Kept(bs);
      }
    }
  }

  lemma OnePieceMore(p: Piece, rest: seq<Piece>, kept: seq<Bytes>, base: Base)
    requires PieceOk(p) && !p.Index? && AllOk(Rebuilt(rest, base))
    requires var q := RebuiltOne(p, base)[0]; PieceOk(q) && Rebox(BytesOf(p), MoofTimes, base) == BytesOf(q)
    requires ReboxAll(kept, MoofTimes, base) == Pieces(Rebuilt(rest, base))
    ensures AllOk(Rebuilt([p] + rest, base))
    ensures ReboxAll([BytesOf(p)] + kept, MoofTimes, base) == Pieces(Rebuilt([p] + rest, base))
  {
    hide PieceOk, BytesOf, Rebox, RebuiltOne;
    var q, r := RebuiltOne(p, base)[0], Rebuilt(rest, base);
    assert ([p] + rest)[1..] == rest;
    assert Rebuilt([p] + rest, base) == [q] + r;
    assert Pieces([q] + r) == [BytesOf(q)] + Pieces(r);
  }

  lemma KeptNone()
    ensures Kept([]) == []
  {
  }

  lemma KeptCons(p: Bytes, ps: seq<Bytes>)
    requires IsBox(p) && AllBoxes(ps)
    ensures AllBoxes([p] + ps)
    ensures Kept([p] + ps) == (if Kind(p) == STYP || Kind(p) == SIDX then [] else [p]) + Kept(ps)
  {
    hide HeaderAt;
    var all, rest := [p] + ps, Without(ps, STYP);
    assert all[1..] == ps && all[0] == p;
    if Kind(p) == STYP {
      assert Without(all, STYP) == rest;
    } else {
      assert Without(all, STYP) == [p] + rest && ([p] + rest)[1..] == rest;
    }
  }

  /** Rebasing a written segment gives the segment written without index and with the lowered times. */
  lemma RebasedIsWritten(ps: seq<Piece>, base: Base)
    requires AllOk(ps)
    ensures SegmentOk(Segment(ps)) && AllOk(Rebuilt(ps, base))
    ensures Rebased(Segment(ps), base) == Segment(Rebuilt(ps, base))
  {
    hide HeaderAt, IsBox, OpenEnded, PieceOk, BytesOf, Rebox, Kept, Pieces, Concat;
    PiecesFit(ps);
    KeptPieces(ps, base);
  }

  // ---- The times of a written segment ----

  /** The track fragments of a segment, in order. */
  function Carried(ps: seq<Piece>): (fs: seq<Fragment>)
  {
    if ps == [] then [] else (if ps[0].Moof? then ps[0].fragments else []) + Carried(ps[1..])
  }

  /** The times that are read are those of the fragments. */
  predicate TimesAre(ts: seq<Time>, fs: seq<Fragment>) {
    && |ts| == |fs|
    && forall k :: 0 <= k < |fs| ==>
                     && ts[k].track == fs[k].track && ts[k].value == fs[k].time
                     && ts[k].version == (if fs[k].wide then 1 else 0)
  }

  lemma TimesAppend(ts: seq<Time>, at: nat, fs: seq<Fragment>, us: seq<Time>, gs: seq<Fragment>)
    requires TimesAre(ts, fs) && TimesAre(us, gs)
    ensures TimesAre(Shift(ts, at) + us, fs + gs)
  {
  }

  lemma TrafCarries(f: Fragment)
    requires FragmentOk(f)
    ensures TimesAre(TrafTimes(Traf(f)), [f])
  {
    hide HeaderAt, Traf, Tfhd, FragmentOk, TrafTimes;
    TrafKid(f);
  }

  lemma {:induction false} TrafsCarry(fs: seq<Fragment>, at: nat)
    requires AllFragments(fs)
    ensures TimesAre(Gather(Trafs(fs), TrafTimes, at), fs)
    decreases |fs|
  {
    hide Traf, FragmentOk, AllFragments, Trafs, TrafTimes, Shift;
    if fs == [] {
      assert Gather(Trafs(fs), TrafTimes, at) == [];
    } else {
      hide TimesAre;
      TrafsTail(fs);
      var f, n := fs[0], at + |Traf(fs[0])|;
      TrafsCarry(fs[1..], n);
      TrafCarries(f);
      var ts, us := TrafTimes(Traf(f)), Gather(Trafs(fs[1..]), TrafTimes, n);
      assert Gather(Trafs(fs), TrafTimes, at) == Shift(ts, at) + us;
      TimesAppend(ts, at, [f], us, fs[1..]);
      assert [f] + fs[1..] == fs;
    }
  }

  lemma TrafsTail(fs: seq<Fragment>)
    requires AllFragments(fs) && fs != []
    ensures FragmentOk(fs[0]) && AllFragments(fs[1..])
    ensures Trafs(fs)[0] == Traf(fs[0]) && Trafs(fs)[1..] == Trafs(fs[1..])
  {
    hide Traf, FragmentOk;
  }

  lemma MoofCarries(p: Piece)
    requires p.Moof? && PieceOk(p)
    ensures TimesAre(MoofTimes(BytesOf(p)), p.fragments)
  {
    hide HeaderAt, IsBox, OpenEnded, Mfhd, Trafs, AllFragments, BytesOf, Concat, TrafTimes, Parts, Leftover;
    MoofReads(p);
    MfhdKid(p.first);
    var ks := MoofKids(p.first, p.fragments);
    assert ks[0] == Mfhd(p.first) && ks[1..] == Trafs(p.fragments);
    TrafsCarry(p.fragments, 8 + |Mfhd(p.first)|);
    assert Shift(TrafTimes(ks[0]), 8) == [];
    assert Gather(ks, TrafTimes, 8) == Gather(Trafs(p.fragments), TrafTimes, 8 + |Mfhd(p.first)|);
  }

  lemma {:induction false} PiecesCarry(ps: seq<Piece>, at: nat)
    requires AllOk(ps)
    ensures TimesAre(Gather(Pieces(ps), MoofTimes, at), Carried(ps))
    decreases |ps|
  {
    if ps != [] {
      hide HeaderAt, PieceOk, MoofTimes, TimesAre, BytesOf, IsBox;
      var p, b, n := ps[0], BytesOf(ps[0]), at + |BytesOf(ps[0])|;
      assert PieceOk(p);
      assert Pieces(ps)[0] == b && Pieces(ps)[1..] == Pieces(ps[1..]);
      PiecesCarry(ps[1..], n);
      PieceCarries(p);
      TimesAppend(MoofTimes(b), at, if p.Moof? then p.fragments else [],
                  Gather(Pieces(ps[1..]), MoofTimes, n), Carried(ps[1..]));
    }
  }

  lemma PieceCarries(p: Piece)
    requires PieceOk(p)
    ensures TimesAre(MoofTimes(BytesOf(p)), if p.Moof? then p.fragments else [])
  {
    hide HeaderAt, PieceOk, BytesOf;
    if p.Moof? {
      MoofCarries(p);
    } else {
      PieceReads(p);
    }
  }

  /** tfdtsOf reads exactly what was written: track, width and number of every fragment, in order. */
  lemma WrittenTimes(ps: seq<Piece>)
    requires AllOk(ps)
    ensures SegmentOk(Segment(ps)) && TimesAre(Times(Segment(ps)), Carried(ps))
  {
    hide HeaderAt, MoofTimes, Gather, Parts, Concat, Pieces;
    PiecesFit(ps);
    PiecesCarry(ps, 0);
  }
}
