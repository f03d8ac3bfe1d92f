/** The page bitmap of PWG raster (PWG 5102.4) and Apple raster, as
    packLine and packPage of src/print/convert.js compress it.

    A line is a list of packets: a control byte 0..127 repeats the next pixel,
    129..255 copies pixels literally. The decoder below is the reading the
    format gives these bytes; the compressor is proved against it. */
module RasterPack {
  import opened Bytes
  import PagePixels

  function Repeat(px: Bytes, n: nat): (r: Bytes)
  {
    if n == 0 then [] else Repeat(px, n - 1) + px
  }

  // ---- The decoder ----

  datatype Unpacked = Unpacked(pixels: Bytes, rest: Bytes)

  /** `n` pixels of `unit` bytes from the front of `b`, and what follows them. */
  function UnpackLine(b: Bytes, unit: nat, n: nat): (r: Option<Unpacked>)
    decreases n
  {
    if n == 0 then Some(Unpacked([], b))
    else if b == [] || b[0] == 128 then None
    else
      var count := if b[0] < 128 then b[0] as int + 1 else 257 - b[0] as int;
      var size := if b[0] < 128 then unit else count * unit;
      if count > n || size < 0 || 1 + size > |b| then None else
      var px := b[1..1 + size];
      var tail :- UnpackLine(b[1 + size..], unit, n - count);
      Some(Unpacked((if b[0] < 128 then Repeat(px, count) else px) + tail.pixels, tail.rest))
  }

  /** `rows` lines of `n` pixels: each group is a repeat byte and one packed line. */
  function UnpackPage(b: Bytes, unit: nat, n: nat, rows: nat): (r: Option<Unpacked>)
    decreases rows
  {
    if rows == 0 then Some(Unpacked([], b))
    else if b == [] || b[0] as int + 1 > rows then None
    else
      var line :- UnpackLine(b[1..], unit, n);
      var tail :- UnpackPage(line.rest, unit, n, rows - (b[0] as int + 1));
      Some(Unpacked(Repeat(line.pixels, b[0] as int + 1) + tail.pixels, tail.rest))
  }

  /** `out` is read back as exactly `line`, whatever follows it. */
  ghost predicate PacksLine(out: Bytes, line: Bytes, unit: nat, n: nat) {
    forall rest :: UnpackLine(out + rest, unit, n) == Some(Unpacked(line, rest))
  }

  // ---- Packets ----

  datatype Packet = Run(px: Bytes, count: nat) | Literal(pixels: Bytes, count: nat)

  predicate ValidPacket(p: Packet, unit: nat) {
    match p
    case Run(px, count) => |px| == unit && 1 <= count <= 128
    case Literal(pixels, count) => |pixels| == count * unit && 2 <= count <= 128
  }

  function Emitted(p: Packet, unit: nat): (b: Bytes)
    requires ValidPacket(p, unit)
    ensures |b| >= 1 && b[0] != 128
  {
    match p
    case Run(px, count) => [count - 1] + px
    case Literal(pixels, count) => [257 - count] + pixels
  }

  function Drawn(p: Packet): Bytes {
    match p
    case Run(px, count) => Repeat(px, count)
    case Literal(pixels, _) => pixels
  }

  predicate ValidPackets(ps: seq<Packet>, unit: nat) {
    forall k :: 0 <= k < |ps| ==> ValidPacket(ps[k], unit)
  }

  function EmittedAll(ps: seq<Packet>, unit: nat): (b: Bytes)
    requires ValidPackets(ps, unit)
  {
    if ps == [] then [] else
    assert ValidPacket(ps[|ps| - 1], unit);
    EmittedAll(ps[..|ps| - 1], unit) + Emitted(ps[|ps| - 1], unit)
  }

  function DrawnAll(ps: seq<Packet>): Bytes {
    if ps == [] then [] else DrawnAll(ps[..|ps| - 1]) + Drawn(ps[|ps| - 1])
  }

  function CountAll(ps: seq<Packet>): nat {
    if ps == [] then 0 else CountAll(ps[..|ps| - 1]) + ps[|ps| - 1].count
  }

  lemma UnpackPacket(p: Packet, unit: nat, rest: Bytes, m: nat)
    requires ValidPacket(p, unit)
    ensures var u := UnpackLine(rest, unit, m);
            UnpackLine(Emitted(p, unit) + rest, unit, p.count + m) ==
            if u.None? then None else Some(Unpacked(Drawn(p) + u.value.pixels, u.value.rest))
  {
    hide Repeat;
    var e := Emitted(p, unit);
    PacketCut(e, rest);
    if p.Run? {
      assert e[1..] == p.px;
    } else {
      assert e[1..] == p.pixels;
    }
  }

  lemma PacketCut(e: Bytes, rest: Bytes)
    requires |e| >= 1
    ensures var b := e + rest; b != [] && b[0] == e[0] && b[1..|e|] == e[1..] && b[|e|..] == rest
  {
  }

  /** Packets are read back in order. */
  lemma {:induction false} UnpackPackets(ps: seq<Packet>, unit: nat, rest: Bytes, m: nat)
    requires ValidPackets(ps, unit)
    ensures var u := UnpackLine(rest, unit, m);
            UnpackLine(EmittedAll(ps, unit) + rest, unit, CountAll(ps) + m) ==
            if u.None? then None else Some(Unpacked(DrawnAll(ps) + u.value.pixels, u.value.rest))
    decreases |ps|
  {
    hide UnpackLine, Emitted, Drawn;
    if ps == [] {
      assert [] + rest == rest;
      var u := UnpackLine(rest, unit, m);
      assert u.Some? ==> [] + u.value.pixels == u.value.pixels;
    } else {
      var qs, p := ps[..|ps| - 1], ps[|ps| - 1];
      assert ValidPacket(p, unit);
      var a, e := EmittedAll(qs, unit), Emitted(p, unit);
      assert (a + e) + rest == a + (e + rest);
      UnpackPackets(qs, unit, e + rest, p.count + m);
      UnpackPacket(p, unit, rest, m);
      var u := UnpackLine(rest, unit, m);
      assert u.Some? ==> DrawnAll(qs) + (Drawn(p) + u.value.pixels) == (DrawnAll(qs) + Drawn(p)) + u.value.pixels;
    }
  }

  lemma PacketsPackLine(ps: seq<Packet>, unit: nat, line: Bytes, n: nat)
    requires ValidPackets(ps, unit) && DrawnAll(ps) == line && CountAll(ps) == n
    ensures PacksLine(EmittedAll(ps, unit), line, unit, n)
  {
    forall rest
      ensures UnpackLine(EmittedAll(ps, unit) + rest, unit, n) == Some(Unpacked(line, rest))
    {
      UnpackPackets(ps, unit, rest, 0);
      assert line + [] == line;
    }
  }

  lemma PushPacket(ps: seq<Packet>, p: Packet, unit: nat)
    requires ValidPackets(ps, unit) && ValidPacket(p, unit)
    ensures ValidPackets(ps + [p], unit)
    ensures EmittedAll(ps + [p], unit) == EmittedAll(ps, unit) + Emitted(p, unit)
    ensures DrawnAll(ps + [p]) == DrawnAll(ps) + Drawn(p)
    ensures CountAll(ps + [p]) == CountAll(ps) + p.count
  {
    assert (ps + [p])[..|ps|] == ps;
  }

  // ---- packLine ----

  lemma MulLess(a: nat, b: nat, unit: nat)
    requires a <= b
    ensures a * unit <= b * unit
  {
  }

  /** Pixel `k` of a line. */
  function Pixel(line: Bytes, unit: nat, n: nat, k: nat): (px: Bytes)
    requires |line| == n * unit && k < n
    ensures |px| == unit
  {
    MulLess(k + 1, n, unit);
    line[k * unit..k * unit + unit]
  }

  /** The pixels from `a` up to `b`. */
  function Pixels(line: Bytes, unit: nat, n: nat, a: nat, b: nat): (r: Bytes)
    requires |line| == n * unit && a <= b <= n
    ensures |r| == (b - a) * unit
  {
    MulLess(a, b, unit);
    MulLess(b, n, unit);
    line[a * unit..b * unit]
  }

  lemma MorePixels(line: Bytes, unit: nat, n: nat, a: nat, b: nat, c: nat)
    requires |line| == n * unit && a <= b <= c <= n
    ensures Pixels(line, unit, n, a, b) + Pixels(line, unit, n, b, c) == Pixels(line, unit, n, a, c)
  {
    MulLess(a, b, unit);
    MulLess(b, c, unit);
    MulLess(c, n, unit);
  }

  lemma OnePixel(line: Bytes, unit: nat, n: nat, a: nat)
    requires |line| == n * unit && a < n
    ensures Pixels(line, unit, n, a, a + 1) == Pixel(line, unit, n, a)
  {
    assert (a + 1) * unit == a * unit + unit;
  }

  /** Two pixels are the same: byte by byte. */
  method Same(line: Bytes, unit: nat, n: nat, a: nat, b: nat) returns (same: bool)
    requires |line| == n * unit && a < n && b < n
    ensures same == (Pixel(line, unit, n, a) == Pixel(line, unit, n, b))
  {
    MulLess(a + 1, n, unit);
    MulLess(b + 1, n, unit);
    var x, y := a * unit, b * unit;
    ghost var p, q := Pixel(line, unit, n, a), Pixel(line, unit, n, b);
    for c := 0 to unit
      invariant p[..c] == q[..c]
    {
      assert p[c] == line[x + c] && q[c] == line[y + c];
      if line[x + c] != line[y + c] {
        return false;
      }
    }
    assert p[..unit] == p && q[..unit] == q;
    same := true;
  }

  /** How often pixel `i` repeats: as often as the line says, at most 128 times. */
  method RunLength(line: Bytes, unit: nat, n: nat, i: nat) returns (run: nat)
    requires |line| == n * unit && i < n
    ensures 1 <= run <= 128 && i + run <= n
    ensures Pixels(line, unit, n, i, i + run) == Repeat(Pixel(line, unit, n, i), run)
    ensures run == 128 || i + run == n || Pixel(line, unit, n, i + run) != Pixel(line, unit, n, i)
  {
    hide Pixels, Pixel;
    run := 1;
    ghost var px := Pixel(line, unit, n, i);
    OnePixel(line, unit, n, i);
    assert Repeat(px, 1) == px;
    while i + run < n && run < 128
      invariant 1 <= run <= 128 && i + run <= n
      invariant Pixels(line, unit, n, i, i + run) == Repeat(px, run)
    {
      var same := Same(line, unit, n, i, i + run);
      if !same {
        return;
      }
      OnePixel(line, unit, n, i + run);
      MorePixels(line, unit, n, i, i + run, i + run + 1);
      run := run + 1;
    }
  }

  /** Where a literal that starts at `start` ends: before the next repeated pixel, after at most 128 pixels. */
  method LiteralEnd(line: Bytes, unit: nat, n: nat, start: nat) returns (i: nat)
    requires |line| == n * unit && start < n
    ensures start < i <= n && i - start <= 128
    ensures i == n || i - start == 128 || (i + 1 < n && Pixel(line, unit, n, i) == Pixel(line, unit, n, i + 1))
  {
    hide Pixel;
    i := start + 1;
    while i < n && i - start < 128
      invariant start < i <= n && i - start <= 128
    {
      if i + 1 < n {
        var same := Same(line, unit, n, i, i + 1);
        if same {
          return;
        }
      }
      i := i + 1;
    }
  }

  /** A control byte and the bytes line[a, b) at `o` of the output buffer. */
  method Emit(buf: array<byte>, o: nat, control: byte, line: Bytes, a: nat, b: nat)
    requires a <= b <= |line| && o + 1 + (b - a) <= buf.Length
    modifies buf
    ensures buf[..o + 1 + (b - a)] == old(buf[..o]) + [control] + line[a..b]
  {
    buf[o] := control;
    for k := 0 to b - a
      invariant buf[..o + 1 + k] == old(buf[..o]) + [control] + line[a..a + k]
    {
      buf[o + 1 + k] := line[a + k];
      assert line[a..a + k] + [line[a + k]] == line[a..a + (k + 1)];
    }
  }

  lemma RoomFor(i: nat, count: nat, n: nat, unit: nat)
    requires i + count <= n && 1 <= count
    ensures i * unit + i + 1 + count * unit <= (i + count) * unit + (i + count) <= n * unit + n
    ensures unit <= count * unit
  {
    assert (i + count) * unit == i * unit + count * unit;
    MulLess(i + count, n, unit);
    MulLess(1, count, unit);
  }

  /** The packet for the pixels from `i` on, its control byte and how many bytes of the line follow it. */
  method Choose(line: Bytes, unit: nat, n: nat, i: nat) returns (count: nat, control: byte, size: nat, ghost p: Packet)
    requires |line| == n * unit && i < n
    ensures i + count <= n && 1 <= count == p.count && ValidPacket(p, unit)
            && Drawn(p) == Pixels(line, unit, n, i, i + count)
    ensures size <= count * unit && i * unit + size <= |line|
    ensures Emitted(p, unit) == [control] + line[i * unit..i * unit + size]
  {
    hide Pixels, Pixel, Emitted, Drawn, Repeat, ValidPacket;
    var run := RunLength(line, unit, n, i);
    count, control, size := run, run - 1, unit;
    p := Run(Pixel(line, unit, n, i), run);
    if run > 1 || i + 1 >= n {
      RunAt(line, unit, n, i, run);
    } else {
      var stop := LiteralEnd(line, unit, n, i);
      count := stop - i;
      if count > 1 {
        control, size := 257 - count, count * unit;
        p := Literal(Pixels(line, unit, n, i, stop), count);
        LiteralAt(line, unit, n, i, count);
      } else {
        RunAt(line, unit, n, i, run);
      }
    }
    RoomFor(i, count, n, unit);
    DrawnOf(p);
  }

  /** One round of packLine: the packet for the pixels from `i` goes to `o` of the buffer. */
  method PackNext(line: Bytes, unit: nat, n: nat, i: nat, buf: array<byte>, o: nat)
    returns (next: nat, end: nat, ghost p: Packet)
    requires |line| == n * unit && i < n && o <= i * unit + i && n * unit + n <= buf.Length
    modifies buf
    ensures i < next <= n && ValidPacket(p, unit) && p.count == next - i
    ensures Drawn(p) == Pixels(line, unit, n, i, next)
    ensures end <= next * unit + next <= buf.Length && o <= buf.Length
    ensures buf[..end] == old(buf[..o]) + Emitted(p, unit)
  {
    hide Pixels, Emitted, Drawn, ValidPacket;
    var count, control, size;
    count, control, size, p := Choose(line, unit, n, i);
    RoomFor(i, count, n, unit);
    Emit(buf, o, control, line, i * unit, i * unit + size);
    next, end := i + count, o + 1 + size;
  }

  /** packLine: never past the buffer it allocates, never the control byte
      128, and read back as the line it was given. */
  method PackLine(line: Bytes, unit: nat) returns (out: Bytes)
    requires unit >= 1 && |line| % unit == 0
    ensures PacksLine(out, line, unit, |line| / unit)
    ensures |out| <= |line| + |line| / unit
  {
    hide Pixels, Emitted, Drawn, PacksLine, ValidPacket;
    var n := |line| / unit;
    assert |line| == n * unit;
    var buf := new byte[n * unit + (n + 127) / 128 * 2 + 2 + n];
    var o: nat, i: nat := 0, 0;
    ghost var ps: seq<Packet> := [];
    NoPixels(line, unit, n);
    while i < n
      invariant i <= n && o <= i * unit + i <= n * unit + n <= buf.Length
      invariant ValidPackets(ps, unit) && CountAll(ps) == i
      invariant buf[..o] == EmittedAll(ps, unit) && Pixels(line, unit, n, 0, i) == DrawnAll(ps)
    {
      var next, end, p := PackNext(line, unit, n, i, buf, o);
      MorePixels(line, unit, n, 0, i, next);
      PushPacket(ps, p, unit);
      MulLess(next, n, unit);
      ps := ps + [p];
      i, o := next, end;
    }
    AllPixels(line, unit, n);
    PacketsPackLine(ps, unit, line, n);
    out := buf[..o];
  }

  lemma NoPixels(line: Bytes, unit: nat, n: nat)
    requires |line| == n * unit
    ensures Pixels(line, unit, n, 0, 0) == []
  {
  }

  lemma AllPixels(line: Bytes, unit: nat, n: nat)
    requires |line| == n * unit
    ensures Pixels(line, unit, n, 0, n) == line
  {
  }

  /** A run of pixel `i`: what it writes. */
  lemma RunAt(line: Bytes, unit: nat, n: nat, i: nat, run: nat)
    requires |line| == n * unit && 1 <= run <= 128 && i + run <= n
    ensures var p := Run(Pixel(line, unit, n, i), run);
            && ValidPacket(p, unit) && i * unit + unit <= |line|
            && Emitted(p, unit) == [run - 1] + line[i * unit..i * unit + unit]
  {
    MulLess(i + 1, n, unit);
  }

  /** The pixels from `i` literally: what they write. */
  lemma LiteralAt(line: Bytes, unit: nat, n: nat, i: nat, count: nat)
    requires |line| == n * unit && 2 <= count <= 128 && i + count <= n
    ensures var p := Literal(Pixels(line, unit, n, i, i + count), count);
            && ValidPacket(p, unit) && i * unit + count * unit <= |line|
            && Emitted(p, unit) == [257 - count] + line[i * unit..i * unit + count * unit]
  {
    assert (i + count) * unit == i * unit + count * unit;
    MulLess(i + count, n, unit);
  }

  lemma DrawnOf(p: Packet)
    ensures p.Run? ==> Drawn(p) == Repeat(p.px, p.count)
    ensures p.Literal? ==> Drawn(p) == p.pixels
  {
  }

  // ---- packPage ----

  /** A page for the printer: `row` is the length of a line in bytes, 0 for width * bpp; `bpp` 0 is the 1-bit raster. */
  datatype Raster = Raster(img: PagePixels.Image, row: nat)

  function RowBytes(p: Raster): nat {
    if p.row != 0 then p.row else p.img.width * p.img.bpp
  }

  function Unit(p: Raster): (u: nat)
    ensures u >= 1
  {
    if p.img.bpp != 0 then p.img.bpp else 1
  }

  predicate ValidRaster(p: Raster) {
    |p.img.data| == p.img.height * RowBytes(p) && RowBytes(p) % Unit(p) == 0
  }

  datatype Group = Group(count: nat, line: Bytes, packed: Bytes)

  ghost predicate ValidGroup(g: Group, unit: nat, n: nat) {
    1 <= g.count <= 256 && PacksLine(g.packed, g.line, unit, n)
  }

  ghost predicate ValidGroups(gs: seq<Group>, unit: nat, n: nat) {
    forall k :: 0 <= k < |gs| ==> ValidGroup(gs[k], unit, n)
  }

  function GroupBytes(gs: seq<Group>): Bytes
    requires forall k :: 0 <= k < |gs| ==> 1 <= gs[k].count <= 256
  {
    if gs == [] then [] else
    assert 1 <= gs[|gs| - 1].count <= 256;
    GroupBytes(gs[..|gs| - 1]) + ([gs[|gs| - 1].count - 1] + gs[|gs| - 1].packed)
  }

  function GroupLines(gs: seq<Group>): Bytes {
    if gs == [] then [] else GroupLines(gs[..|gs| - 1]) + Repeat(gs[|gs| - 1].line, gs[|gs| - 1].count)
  }

  function GroupRows(gs: seq<Group>): nat {
    if gs == [] then 0 else GroupRows(gs[..|gs| - 1]) + gs[|gs| - 1].count
  }

  lemma UnpackGroup(g: Group, unit: nat, n: nat, rest: Bytes, m: nat)
    requires ValidGroup(g, unit, n)
    ensures var u := UnpackPage(rest, unit, n, m);
            UnpackPage(([g.count - 1] + g.packed) + rest, unit, n, g.count + m) ==
            if u.None? then None else Some(Unpacked(Repeat(g.line, g.count) + u.value.pixels, u.value.rest))
  {
    hide UnpackLine, Repeat;
    var b := ([g.count - 1] + g.packed) + rest;
    assert b[1..] == g.packed + rest;
    assert UnpackLine(g.packed + rest, unit, n) == Some(Unpacked(g.line, rest));
  }

  /** Groups are read back in order. */
  lemma {:induction false} UnpackGroups(gs: seq<Group>, unit: nat, n: nat, rest: Bytes, m: nat)
    requires ValidGroups(gs, unit, n)
    ensures var u := UnpackPage(rest, unit, n, m);
            UnpackPage(GroupBytes(gs) + rest, unit, n, GroupRows(gs) + m) ==
            if u.None? then None else Some(Unpacked(GroupLines(gs) + u.value.pixels, u.value.rest))
    decreases |gs|
  {
    hide UnpackPage, PacksLine, Repeat;
    if gs == [] {
      assert [] + rest == rest;
      var u := UnpackPage(rest, unit, n, m);
      assert u.Some? ==> [] + u.value.pixels == u.value.pixels;
    } else {
      var hs, g := gs[..|gs| - 1], gs[|gs| - 1];
      assert ValidGroup(g, unit, n);
      var a, e := GroupBytes(hs), [g.count - 1] + g.packed;
      assert (a + e) + rest == a + (e + rest);
      UnpackGroups(hs, unit, n, e + rest, g.count + m);
      UnpackGroup(g, unit, n, rest, m);
      var u := UnpackPage(rest, unit, n, m);
      var x, y := GroupLines(hs), Repeat(g.line, g.count);
      assert u.Some? ==> x + (y + u.value.pixels) == (x + y) + u.value.pixels;
    }
  }

  lemma PushGroup(gs: seq<Group>, g: Group, unit: nat, n: nat)
    requires ValidGroups(gs, unit, n) && ValidGroup(g, unit, n)
    ensures ValidGroups(gs + [g], unit, n)
    ensures GroupBytes(gs + [g]) == GroupBytes(gs) + ([g.count - 1] + g.packed)
    ensures GroupLines(gs + [g]) == GroupLines(gs) + Repeat(g.line, g.count)
    ensures GroupRows(gs + [g]) == GroupRows(gs) + g.count
  {
    assert (gs + [g])[..|gs|] == gs;
  }

  /** How many lines after line `y` equal it, at most 255. */
  method RepeatCount(data: Bytes, row: nat, height: nat, y: nat) returns (rep: nat)
    requires |data| == height * row && y < height
    ensures rep <= 255 && y + rep < height
    ensures Pixels(data, row, height, y, y + rep + 1) == Repeat(Pixel(data, row, height, y), rep + 1)
  {
    hide Pixels, Pixel;
    rep := 0;
    ghost var line := Pixel(data, row, height, y);
    OnePixel(data, row, height, y);
    assert Repeat(line, 1) == line;
    while y + rep + 1 < height && rep < 255 && Pixel(data, row, height, y + rep + 1) == Pixel(data, row, height, y)
      invariant rep <= 255 && y + rep < height
      invariant Pixels(data, row, height, y, y + rep + 1) == Repeat(line, rep + 1)
    {
      OnePixel(data, row, height, y + rep + 1);
      MorePixels(data, row, height, y, y + rep + 1, y + rep + 2);
      rep := rep + 1;
    }
  }

  /** packPage: the whole page is read back, line by line, with nothing left over. */
  method PackPage(p: Raster) returns (out: Bytes)
    requires ValidRaster(p)
    ensures UnpackPage(out, Unit(p), RowBytes(p) / Unit(p), p.img.height) == Some(Unpacked(p.img.data, []))
  {
    hide Pixels, Pixel, UnpackPage, PacksLine, Repeat;
    var img := p.img;
    var row, unit, h := RowBytes(p), Unit(p), img.height;
    var n := row / unit;
    ghost var gs: seq<Group> := [];
    var y := 0;
    out := [];
    NoPixels(img.data, row, h);
    while y < h
      invariant y <= h && ValidGroups(gs, unit, n) && GroupRows(gs) == y
      invariant out == GroupBytes(gs) && Pixels(img.data, row, h, 0, y) == GroupLines(gs)
    {
      var line := Pixel(img.data, row, h, y);
      var rep := RepeatCount(img.data, row, h, y);
      var packed := PackLine(line, unit);
      MorePixels(img.data, row, h, 0, y, y + rep + 1);
      ghost var g := Group(rep + 1, line, packed);
      PushGroup(gs, g, unit, n);
      gs := gs + [g];
      out := out + ([rep] + packed);
      y := y + rep + 1;
    }
    AllPixels(img.data, row, h);
    UnpackGroups(gs, unit, n, [], 0);
    NothingLeft(out, unit, n, GroupLines(gs));
  }

  lemma NothingLeft(out: Bytes, unit: nat, n: nat, lines: Bytes)
    ensures out + [] == out && lines + [] == lines
    ensures UnpackPage([], unit, n, 0) == Some(Unpacked([], []))
  {
  }
}
