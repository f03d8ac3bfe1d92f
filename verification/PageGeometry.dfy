/** How pages come onto paper (layout, rotate90, onSheet and backSide of src/print/convert.js). */
module PageGeometry {
  import opened Bytes
  import opened PagePixels

  // ---- Turning ----

  /** `b` is `a` turned by 90 degrees against the clock: the top row becomes the left column. */
  ghost predicate IsTurned(a: Image, b: Image) {
    && ValidImage(a) && ValidImage(b) && b.width == a.height && b.height == a.width && b.bpp == a.bpp
    && forall x, y :: Inside(b, x, y) ==>
         Inside(a, a.width - 1 - y, x) && Pixel(b, x, y) == Pixel(a, a.width - 1 - y, x)
  }

  /** A map from the pixels of an image to places of a buffer for `n` pixels. */
  ghost predicate Places(img: Image, to: (int, int) -> nat, n: nat) {
    && (forall x, y :: Inside(img, x, y) ==> to(x, y) < n)
    && forall x, y, x2, y2 :: Inside(img, x, y) && Inside(img, x2, y2) && to(x, y) == to(x2, y2) ==> x == x2 && y == y2
  }

  /** The pixel is in its place. */
  ghost predicate Placed(out: Bytes, n: nat, img: Image, to: (int, int) -> nat, x: int, y: int)
    requires ValidImage(img) && Inside(img, x, y) && |out| == n * img.bpp
  {
    to(x, y) < n && (ByteRange(to(x, y), img.bpp, n); PixelAt(out, img.bpp, to(x, y)) == Pixel(img, x, y))
  }

  /** All pixels in front of (x, y) are in their places. */
  ghost predicate PlacedTo(out: Bytes, n: nat, img: Image, to: (int, int) -> nat, x: int, y: int)
    requires ValidImage(img) && |out| == n * img.bpp
  {
    forall i, j :: Inside(img, i, j) && (j < y || (j == y && i < x)) ==> Placed(out, n, img, to, i, j)
  }

  lemma PlaceNext(out: Bytes, n: nat, img: Image, to: (int, int) -> nat, x: int, y: int)
    requires ValidImage(img) && Inside(img, x, y) && |out| == n * img.bpp && Places(img, to, n)
             && PlacedTo(out, n, img, to, x, y)
    ensures to(x, y) * img.bpp + img.bpp <= |out|
    ensures PlacedTo(Splice(out, to(x, y) * img.bpp, Pixel(img, x, y)), n, img, to, x + 1, y)
  {
    hide Pixel, PixelAt, Splice;
    ByteRange(to(x, y), img.bpp, n);
    var next := Splice(out, to(x, y) * img.bpp, Pixel(img, x, y));
    forall i, j | Inside(img, i, j) && (j < y || (j == y && i < x + 1))
      ensures Placed(next, n, img, to, i, j)
    {
      SplicePixel(out, img.bpp, n, to(x, y), Pixel(img, x, y), to(i, j));
    }
  }

  lemma RowDone(out: Bytes, n: nat, img: Image, to: (int, int) -> nat, y: int)
    requires ValidImage(img) && |out| == n * img.bpp && PlacedTo(out, n, img, to, img.width, y)
    ensures PlacedTo(out, n, img, to, 0, y + 1)
  {
    hide Placed;
  }

  ghost function TurnPlace(w: nat, h: nat, x: int, y: int): nat {
    if 0 <= x < w && 0 <= y then Spot(h, y, w - 1 - x) else 0
  }

  lemma TurnPlaces(img: Image)
    ensures Places(img, (x, y) => TurnPlace(img.width, img.height, x, y), img.width * img.height)
  {
    hide Spot;
    var w, h := img.width, img.height;
    forall x, y | Inside(img, x, y)
      ensures TurnPlace(w, h, x, y) < w * h
    {
      SpotInside(h, w, y, w - 1 - x);
    }
    forall x, y, x2, y2 | Inside(img, x, y) && Inside(img, x2, y2) && TurnPlace(w, h, x, y) == TurnPlace(w, h, x2, y2)
      ensures x == x2 && y == y2
    {
      if x != x2 || y != y2 {
        SpotsDiffer(h, y, w - 1 - x, y2, w - 1 - x2);
      }
    }
  }

  /** The source pixel, read as the loops read it. */
  lemma PixelRead(img: Image, x: nat, y: nat)
    requires ValidImage(img) && Inside(img, x, y)
    ensures var src := (y * img.width + x) * img.bpp;
            src + img.bpp <= |img.data| && img.data[src..src + img.bpp] == Pixel(img, x, y)
  {
    InsideFits(img, x, y);
  }

  /** One pixel goes to its turned place. */
  lemma TurnNext(out: Bytes, img: Image, x: nat, y: nat)
    requires ValidImage(img) && Inside(img, x, y) && |out| == img.width * img.height * img.bpp
    requires PlacedTo(out, img.width * img.height, img, (x, y) => TurnPlace(img.width, img.height, x, y), x, y)
    ensures var w, h, bpp := img.width, img.height, img.bpp;
            var src, dst := (y * w + x) * bpp, ((w - 1 - x) * h + y) * bpp;
            && 0 <= src && src + bpp <= |img.data| && 0 <= dst && dst + bpp <= |out|
            && PlacedTo(Splice(out, dst, img.data[src..src + bpp]), w * h, img,
                        (x, y) => TurnPlace(w, h, x, y), x + 1, y)
  {
    hide Places, PlacedTo, Pixel, Splice;
    TurnPlaces(img);
    PixelRead(img, x, y);
    PlaceNext(out, img.width * img.height, img, (x, y) => TurnPlace(img.width, img.height, x, y), x, y);
  }

  method Rotate90(img: Image) returns (r: Image)
    requires ValidImage(img)
    ensures IsTurned(img, r)
  {
    hide PlacedTo, IsTurned, Splice, TurnPlace;
    var w, h, bpp := img.width, img.height, img.bpp;
    var out := new byte[w * h * bpp];
    ghost var n, to := w * h, (x, y) => TurnPlace(w, h, x, y);
    NonePlaced(out[..], n, img, to);
    for y := 0 to h
      invariant PlacedTo(out[..], n, img, to, 0, y)
    {
      for x := 0 to w
        invariant PlacedTo(out[..], n, img, to, x, y)
      {
        var src := (y * w + x) * bpp;
        var dst := ((w - 1 - x) * h + y) * bpp;
        TurnNext(out[..], img, x, y);
        Overwrite(out, dst, img.data[src..src + bpp]);
      }
      RowDone(out[..], n, img, to, y);
    }
    r := Image(h, w, bpp, out[..]);
    TurnDone(img, r);
  }

  lemma NonePlaced(out: Bytes, n: nat, img: Image, to: (int, int) -> nat)
    requires ValidImage(img) && |out| == n * img.bpp
    ensures PlacedTo(out, n, img, to, 0, 0)
  {
  }

  lemma TurnDone(a: Image, b: Image)
    requires ValidImage(a) && b.width == a.height && b.height == a.width && b.bpp == a.bpp
             && |b.data| == a.width * a.height * a.bpp
    requires PlacedTo(b.data, a.width * a.height, a, (x, y) => TurnPlace(a.width, a.height, x, y), 0, a.height)
    ensures IsTurned(a, b)
  {
    hide PixelAt, Spot;
    SameArea(a.width, a.height, a.bpp);
    var to := (x, y) => TurnPlace(a.width, a.height, x, y);
    forall x, y | Inside(b, x, y)
      ensures Inside(a, a.width - 1 - y, x) && Pixel(b, x, y) == Pixel(a, a.width - 1 - y, x)
    {
      assert Placed(b.data, a.width * a.height, a, to, a.width - 1 - y, x);
    }
  }

  lemma SameArea(w: nat, h: nat, bpp: nat)
    ensures w * h * bpp == h * w * bpp
  {
  }

  // ---- The back side ----

  datatype Back = Normal | Rotated | Flipped

  /** Where the pixel (x, y) of the back comes from. */
  function FromX(back: Back, w: int, x: int): int {
    if back == Rotated then w - 1 - x else x
  }

  /** `b` is the back of `a`; a normal back is the page itself. */
  ghost predicate IsBack(a: Image, b: Image, back: Back) {
    if back == Normal then ValidImage(a) && b == a else IsMirrored(a, b, back)
  }

  ghost predicate IsMirrored(a: Image, b: Image, back: Back) {
    && ValidImage(a) && ValidImage(b) && b.width == a.width && b.height == a.height && b.bpp == a.bpp
    && forall x, y :: Inside(b, x, y) ==>
         var from := if back == Rotated then a.width - 1 - x else x;
         Inside(a, from, a.height - 1 - y) && Pixel(b, x, y) == Pixel(a, from, a.height - 1 - y)
  }

  ghost function BackPlace(back: Back, w: nat, h: nat, x: int, y: int): nat {
    if 0 <= x < w && 0 <= y < h then Spot(w, FromX(back, w, x), h - 1 - y) else 0
  }

  lemma BackPlaces(img: Image, back: Back)
    ensures Places(img, (x, y) => BackPlace(back, img.width, img.height, x, y), img.width * img.height)
  {
    hide Spot;
    var w, h := img.width, img.height;
    forall x, y | Inside(img, x, y)
      ensures BackPlace(back, w, h, x, y) < w * h
    {
      SpotInside(w, h, FromX(back, w, x), h - 1 - y);
    }
    forall x, y, x2, y2 | Inside(img, x, y) && Inside(img, x2, y2)
        && BackPlace(back, w, h, x, y) == BackPlace(back, w, h, x2, y2)
      ensures x == x2 && y == y2
    {
      if x != x2 || y != y2 {
        SpotsDiffer(w, FromX(back, w, x), h - 1 - y, FromX(back, w, x2), h - 1 - y2);
      }
    }
  }

  lemma RotatedSpot(w: nat, h: nat, bpp: nat, x: nat, y: nat)
    requires x < w && y < h
    ensures (h - 1 - y) * (w * bpp) + (w - 1 - x) * bpp == BackPlace(Rotated, w, h, x, y) * bpp
  {
  }

  lemma SameRow(w: nat, bpp: nat, y: nat)
    ensures y * (w * bpp) == y * w * bpp && (y + 1) * (w * bpp) == (y * w + w) * bpp
  {
  }

  /** A whole row goes to its place. */
  lemma FlipRow(out: Bytes, img: Image, y: nat)
    requires ValidImage(img) && y < img.height && |out| == |img.data|
    requires PlacedTo(out, img.width * img.height, img, (x, y) => BackPlace(Flipped, img.width, img.height, x, y), 0, y)
    ensures var row, dst := img.width * img.bpp, (img.height - 1 - y) * (img.width * img.bpp);
            && 0 <= y * row <= (y + 1) * row <= |img.data| && (y + 1) * row - y * row == row && 0 <= dst
               && dst + row <= |out|
            && PlacedTo(Splice(out, dst, img.data[y * row..(y + 1) * row]), img.width * img.height, img,
                        (x, y) => BackPlace(Flipped, img.width, img.height, x, y), 0, y + 1)
  {
    hide Splice, PixelAt, Pixel;
    var w, h, bpp := img.width, img.height, img.bpp;
    var n, to := w * h, (x, y) => BackPlace(Flipped, w, h, x, y);
    RowRead(img, y, w);
    SameRow(w, bpp, y);
    SameRow(w, bpp, h - 1 - y);
    var row := img.data[y * w * bpp..(y * w + w) * bpp];
    var p := Spot(w, 0, h - 1 - y);
    RowFits(w, h, 0, h - 1 - y, w);
    RowRange(p, w, n, bpp);
    var next := Splice(out, p * bpp, row);
    forall i, j | Inside(img, i, j) && (j < y + 1 || (j == y + 1 && i < 0))
      ensures Placed(next, n, img, to, i, j)
    {
      SpotInside(w, h, i, h - 1 - j);
      SpliceRow(out, bpp, n, p, w, row, Spot(w, i, h - 1 - j));
      InRow(w, 0, h - 1 - y, w, i, h - 1 - j);
      if j == y {
        assert RowPixel(img, y, row, i);
      } else {
        assert Placed(out, n, img, to, i, j);
      }
    }
  }

  /** One pixel goes to its place. */
  lemma RotateNext(out: Bytes, img: Image, x: nat, y: nat)
    requires ValidImage(img) && Inside(img, x, y) && |out| == |img.data|
    requires PlacedTo(out, img.width * img.height, img, (x, y) => BackPlace(Rotated, img.width, img.height, x, y), x, y)
    ensures var w, h, bpp := img.width, img.height, img.bpp;
            var src, dst := (y * w + x) * bpp, (h - 1 - y) * (w * bpp) + (w - 1 - x) * bpp;
            && 0 <= src && src + bpp <= |img.data| && 0 <= dst && dst + bpp <= |out|
            && PlacedTo(Splice(out, dst, img.data[src..src + bpp]), w * h, img,
                        (x, y) => BackPlace(Rotated, w, h, x, y), x + 1, y)
  {
    hide Places, PlacedTo, Pixel, Splice, Spot, BackPlace;
    var w, h, bpp := img.width, img.height, img.bpp;
    BackPlaces(img, Rotated);
    RotatedSpot(w, h, bpp, x, y);
    PixelRead(img, x, y);
    PlaceNext(out, w * h, img, (x, y) => BackPlace(Rotated, w, h, x, y), x, y);
  }

  /** One row, from its last pixel to its first. */
  method RotateRow(out: array<byte>, img: Image, y: nat)
    requires ValidImage(img) && y < img.height && out.Length == |img.data|
    requires PlacedTo(out[..], img.width * img.height, img,
                      (x, y) => BackPlace(Rotated, img.width, img.height, x, y), 0, y)
    modifies out
    ensures PlacedTo(out[..], img.width * img.height, img,
                     (x, y) => BackPlace(Rotated, img.width, img.height, x, y), 0, y + 1)
  {
    hide Places, PlacedTo, Pixel, Splice, Spot, BackPlace;
    var w, h, bpp := img.width, img.height, img.bpp;
    ghost var n, to := w * h, (x, y) => BackPlace(Rotated, w, h, x, y);
    for x := 0 to w
      invariant PlacedTo(out[..], n, img, to, x, y)
    {
      var src := (y * w + x) * bpp;
      var dst := (h - 1 - y) * (w * bpp) + (w - 1 - x) * bpp;
      RotateNext(out[..], img, x, y);
      Overwrite(out, dst, img.data[src..src + bpp]);
    }
    RowDone(out[..], n, img, to, y);
  }

  /** Rotated by 180 degrees or with its rows from bottom to top, for printing on both sides. */
  method BackSide(img: Image, back: Back) returns (r: Image)
    requires ValidImage(img)
    ensures IsBack(img, r, back)
  {
    hide PlacedTo, IsBack, Splice;
    if back == Normal {
      NormalBack(img);
      return img;
    }
    var w, h := img.width, img.height;
    var row := w * img.bpp;
    var out := new byte[|img.data|];
    ghost var to := (x, y) => BackPlace(back, w, h, x, y);
    NonePlaced(out[..], w * h, img, to);
    for y := 0 to h
      invariant PlacedTo(out[..], w * h, img, to, 0, y)
    {
      if back == Flipped {
        FlipRow(out[..], img, y);
        Overwrite(out, (h - 1 - y) * row, img.data[y * row..(y + 1) * row]);
      } else {
        RotateRow(out, img, y);
      }
    }
    r := Image(w, h, img.bpp, out[..]);
    BackDone(img, r, back);
  }

  lemma NormalBack(a: Image)
    requires ValidImage(a)
    ensures IsBack(a, a, Normal)
  {
  }

  lemma BackDone(a: Image, b: Image, back: Back)
    requires back != Normal && ValidImage(a) && b.width == a.width && b.height == a.height && b.bpp == a.bpp
             && |b.data| == |a.data|
    requires PlacedTo(b.data, a.width * a.height, a, (x, y) => BackPlace(back, a.width, a.height, x, y), 0, a.height)
    ensures IsBack(a, b, back)
  {
    hide PixelAt, Spot;
    var to := (x, y) => BackPlace(back, a.width, a.height, x, y);
    forall x, y | Inside(b, x, y)
      ensures Inside(a, FromX(back, a.width, x), a.height - 1 - y)
              && Pixel(b, x, y) == Pixel(a, FromX(back, a.width, x), a.height - 1 - y)
    {
      assert Placed(b.data, a.width * a.height, a, to, FromX(back, a.width, x), a.height - 1 - y);
    }
  }

  /** The back of the back is the page. */
  lemma BackTwice(a: Image, b: Image, c: Image, back: Back)
    requires IsBack(a, b, back) && IsBack(b, c, back)
    ensures c == a
  {
    if back != Normal {
      MirroredTwice(a, b, c, back);
    }
  }

  lemma MirroredTwice(a: Image, b: Image, c: Image, back: Back)
    requires IsMirrored(a, b, back) && IsMirrored(b, c, back)
    ensures c == a
  {
    hide Pixel, ValidImage;
    forall x, y | Inside(a, x, y)
      ensures Pixel(a, x, y) == Pixel(c, x, y)
    {
      assert Pixel(c, x, y) == Pixel(b, FromX(back, a.width, x), a.height - 1 - y);
    }
    SamePixels(a, c);
  }

  /** Two turns make a rotated back. */
  lemma TwoTurns(a: Image, b: Image, c: Image)
    requires IsTurned(a, b) && IsTurned(b, c)
    ensures IsBack(a, c, Rotated)
  {
    hide Pixel, ValidImage;
    forall x, y | Inside(c, x, y)
      ensures Inside(a, a.width - 1 - x, a.height - 1 - y)
              && Pixel(c, x, y) == Pixel(a, a.width - 1 - x, a.height - 1 - y)
    {
      assert Pixel(c, x, y) == Pixel(b, a.height - 1 - y, x);
    }
  }

  /** Four turns give the page back. */
  lemma FourTurns(a: Image, b: Image, c: Image, d: Image, e: Image)
    requires IsTurned(a, b) && IsTurned(b, c) && IsTurned(c, d) && IsTurned(d, e)
    ensures e == a
  {
    TwoTurns(a, b, c);
    TwoTurns(c, d, e);
    BackTwice(a, c, e, Rotated);
  }

  // ---- The sheet ----

  function White(bpp: nat): Bytes {
    seq(bpp, _ => 0xff)
  }

  /** `r` is a white sheet with `img` on it, its corner at (x0, y0); what does not fit is cut off. */
  ghost predicate IsOnSheet(img: Image, r: Image, x0: int, y0: int) {
    && ValidImage(img) && ValidImage(r) && r.bpp == img.bpp
    && forall x, y :: Inside(r, x, y) ==>
         Pixel(r, x, y) == if Inside(img, x - x0, y - y0) then Pixel(img, x - x0, y - y0) else White(img.bpp)
  }

  /** The sheet with the rows in front of `rows` on it. */
  ghost predicate SheetTo(out: Bytes, img: Image, W: nat, H: nat, x0: int, y0: int, rows: int) {
    && ValidImage(img) && |out| == W * H * img.bpp
    && forall x, y :: 0 <= x < W && 0 <= y < H ==> SheetPixel(out, img, W, H, x0, y0, rows, x, y)
  }

  ghost predicate SheetPixel(out: Bytes, img: Image, W: nat, H: nat, x0: int, y0: int, rows: int, x: nat, y: nat)
    requires ValidImage(img) && |out| == W * H * img.bpp && x < W && y < H
  {
    SpotInside(W, H, x, y);
    ByteRange(Spot(W, x, y), img.bpp, W * H);
    PixelAt(out, img.bpp, Spot(W, x, y)) ==
    if Inside(img, x - x0, y - y0) && y - y0 < rows then Pixel(img, x - x0, y - y0) else White(img.bpp)
  }

  lemma WhiteSheet(out: Bytes, img: Image, W: nat, H: nat, x0: int, y0: int)
    requires ValidImage(img) && |out| == W * H * img.bpp && forall i :: 0 <= i < |out| ==> out[i] == 0xff
    ensures SheetTo(out, img, W, H, x0, y0, 0)
  {
    hide Spot, Pixel;
    forall x, y | 0 <= x < W && 0 <= y < H
      ensures SheetPixel(out, img, W, H, x0, y0, 0, x, y)
    {
      SpotInside(W, H, x, y);
      ByteRange(Spot(W, x, y), img.bpp, W * H);
      assert PixelAt(out, img.bpp, Spot(W, x, y)) == White(img.bpp);
    }
  }

  lemma RowOnSheet(out: Bytes, img: Image, W: nat, H: nat, x0: nat, y0: nat, j: nat, cw: nat)
    requires SheetTo(out, img, W, H, x0, y0, j) && x0 <= W && j < img.height && j + y0 < H
    requires cw == if img.width < W - x0 then img.width else W - x0
    ensures var src, end, dst := j * img.width * img.bpp, (j * img.width + cw) * img.bpp, ((j + y0) * W + x0) * img.bpp;
            && 0 <= src <= end <= |img.data| && 0 <= dst && dst + (end - src) <= |out|
            && SheetTo(Splice(out, dst, img.data[src..end]), img, W, H, x0, y0, j + 1)
  {
    hide PixelAt, Pixel, Splice;
    RowRead(img, j, cw);
    var bpp, p := img.bpp, Spot(W, x0, j + y0);
    var row := img.data[j * img.width * bpp..(j * img.width + cw) * bpp];
    RowFits(W, H, x0, j + y0, cw);
    RowRange(p, cw, W * H, bpp);
    var next, done := Splice(out, p * bpp, row), j + 1;
    forall x, y | 0 <= x < W && 0 <= y < H
      ensures SheetPixel(next, img, W, H, x0, y0, done, x, y)
    {
      assert SheetPixel(out, img, W, H, x0, y0, j, x, y);
      SpotInside(W, H, x, y);
      SpliceRow(out, bpp, W * H, p, cw, row, Spot(W, x, y));
      InRow(W, x0, j + y0, cw, x, y);
      if y == j + y0 && x0 <= x < x0 + cw {
        assert RowPixel(img, j, row, x - x0);
      }
    }
  }

  lemma RowFits(W: nat, H: nat, x0: nat, y: nat, cw: nat)
    requires x0 + cw <= W && y < H
    ensures Spot(W, x0, y) + cw <= W * H
  {
    RowsMultiply(y + 1, H, W);
  }

  /** Which pixels of the sheet a row covers. */
  lemma InRow(W: nat, x0: nat, y0: nat, cw: nat, x: nat, y: nat)
    requires x0 + cw <= W && x < W
    ensures Spot(W, x0, y0) <= Spot(W, x, y) < Spot(W, x0, y0) + cw <==> y == y0 && x0 <= x < x0 + cw
    ensures y == y0 ==> Spot(W, x, y) - Spot(W, x0, y0) == x - x0
  {
    RowsMultiply(y + 1, y0, W);
    RowsMultiply(y0 + 1, y, W);
  }

  method OnSheet(img: Image, W: nat, H: nat, x0: nat, y0: nat) returns (r: Image)
    requires ValidImage(img) && x0 <= W
    ensures if img.width == W && img.height == H then r == img
            else r.width == W && r.height == H && IsOnSheet(img, r, x0, y0)
  {
    hide Pixel, SheetTo, Splice, IsOnSheet;
    if img.width == W && img.height == H {
      return img;
    }
    var bpp := img.bpp;
    var out := new byte[W * H * bpp](_ => 0xff);
    var cw := if img.width < W - x0 then img.width else W - x0;
    var y := 0;
    WhiteSheet(out[..], img, W, H, x0, y0);
    while y < img.height && y + y0 < H
      invariant 0 <= y <= img.height && SheetTo(out[..], img, W, H, x0, y0, y)
    {
      RowOnSheet(out[..], img, W, H, x0, y0, y, cw);
      Overwrite(out, ((y + y0) * W + x0) * bpp, img.data[y * img.width * bpp..(y * img.width + cw) * bpp]);
      y := y + 1;
    }
    r := Image(W, H, bpp, out[..]);
    SheetDone(img, r, x0, y0, y);
  }

  lemma SheetDone(img: Image, r: Image, x0: int, y0: int, rows: int)
    requires r.bpp == img.bpp && SheetTo(r.data, img, r.width, r.height, x0, y0, rows)
    requires rows >= img.height || rows + y0 >= r.height
    ensures IsOnSheet(img, r, x0, y0)
  {
    hide Spot;
    forall x, y | Inside(r, x, y)
      ensures Pixel(r, x, y) == if Inside(img, x - x0, y - y0) then Pixel(img, x - x0, y - y0) else White(img.bpp)
    {
      assert SheetPixel(r.data, img, r.width, r.height, x0, y0, rows, x, y);
    }
  }

  // ---- layout ----

  datatype Size = Size(w: real, h: real)

  datatype Layout = Layout(rw: int, rh: int, turn: bool, W: int, H: int, x: int, y: int) {
    /** The size of the rendered page after turning. */
    function Width(): int {
      if turn then rh else rw
    }

    function Height(): int {
      if turn then rw else rh
    }
  }

  function Px(pt: real, dpi: nat): (n: int)
    ensures n >= 1
  {
    var n := (pt / 72.0 * dpi as real + 0.5).Floor;
    if n < 1 then 1 else n
  }

  /** min(1, a / b), where b may be 0. */
  function Shrink(a: real, b: real): (s: real)
    requires 0.0 < a && 0.0 <= b
    ensures 0.0 < s <= 1.0 && s * b <= a
  {
    if a < b then (Quotient(a, b); a / b) else 1.0
  }

  lemma Quotient(a: real, b: real)
    requires 0.0 < a < b
    ensures 0.0 < a / b < 1.0 && a / b * b == a
  {
    QuotientIs(a / b, a, b);
  }

  lemma QuotientIs(q: real, a: real, b: real)
    requires 0.0 < a < b && q * b == a
    ensures 0.0 < q < 1.0
  {
    FactorAtLeastOne(q, b);
  }

  lemma FactorAtLeastOne(q: real, b: real)
    requires 0.0 < b
    ensures q >= 1.0 ==> q * b >= b
    ensures q <= 0.0 ==> q * b <= 0.0
  {
  }

  function Minimum(a: real, b: real): real {
    if a < b then a else b
  }

  function Least(a: int, b: int): int {
    if a < b then a else b
  }

  function Differ(a: real, b: real): real {
    if a < b then b - a else a - b
  }

  /** A page is turned if it lies and the sheet stands, or the other way round. */
  predicate Turns(page: Size, media: Size) {
    (page.w > page.h) != (media.w > media.h) && Differ(page.w, page.h) > 1.0
  }

  /** The page as it lies on the sheet. */
  function Turned(page: Size, turn: bool): Size {
    if turn then Size(page.h, page.w) else page
  }

  /** Too large pages are made smaller. */
  function Scale(f: Size, media: Size): (s: real)
    requires 0.0 < media.w && 0.0 < media.h && 0.0 <= f.w && 0.0 <= f.h
    ensures 0.0 < s <= 1.0
  {
    Minimum(Shrink(media.w, f.w), Shrink(media.h, f.h))
  }

  /** The pixels that a length takes on the sheet. */
  function Fitted(f: real, m: real, s: real, dpi: nat): int {
    Least(Px(m, dpi), Px(f * s, dpi))
  }

  function LayoutOf(page: Size, media: Size, dpi: nat): (l: Layout)
    requires 0.0 < media.w && 0.0 < media.h && 0.0 <= page.w && 0.0 <= page.h
  {
    var W, H := Px(media.w, dpi), Px(media.h, dpi);
    var turn := Turns(page, media);
    var f := Turned(page, turn);
    var s := Scale(f, media);
    var ow, oh := Fitted(f.w, media.w, s, dpi), Fitted(f.h, media.h, s, dpi);
    Layout(if turn then oh else ow, if turn then ow else oh, turn, W, H, (W - ow) / 2, (H - oh) / 2)
  }

  /** `n` is the whole number of pixels next to the length, but at least 1; an inch has 72 points. */
  predicate Nearest(n: int, pt: real, dpi: nat) {
    || 72.0 * (n as real - 0.5) <= pt * dpi as real < 72.0 * (n as real + 0.5)
    || (n == 1 && pt * dpi as real < 36.0)
  }

  lemma PxNearest(pt: real, dpi: nat)
    ensures Nearest(Px(pt, dpi), pt, dpi) && Px(pt, dpi) >= 1
  {
    var d := dpi as real;
    var v := pt / 72.0 * d;
    assert v * 72.0 == pt * d;
  }

  /** The largest factor up to 1 with which the page fits. */
  predicate BestFit(s: real, f: Size, media: Size) {
    && 0.0 < s <= 1.0 && s * f.w <= media.w && s * f.h <= media.h
    && (s == 1.0 || s * f.w == media.w || s * f.h == media.h)
  }

  lemma OneBestFit(s: real, t: real, f: Size, media: Size)
    requires 0.0 < media.w && 0.0 < media.h && 0.0 <= f.w && 0.0 <= f.h && BestFit(s, f, media) && BestFit(t, f, media)
    ensures s == t
  {
    hide BestFit;
    NoLarger(s, t, f, media);
    NoLarger(t, s, f, media);
  }

  lemma NoLarger(s: real, t: real, f: Size, media: Size)
    requires 0.0 < media.w && 0.0 < media.h && 0.0 <= f.w && 0.0 <= f.h && BestFit(s, f, media) && BestFit(t, f, media)
    ensures s >= t
  {
    var a, b, c, d := s * f.w, t * f.w, s * f.h, t * f.h;
    assert b <= media.w && d <= media.h && (s == 1.0 || a == media.w || c == media.h);
    if s < t {
      Larger(s, t, f.w);
      Larger(s, t, f.h);
    }
  }

  lemma Larger(s: real, t: real, a: real)
    requires 0.0 < s < t && 0.0 <= a
    ensures 0.0 < s * a ==> s * a < t * a
  {
  }

  lemma ScaleFits(f: Size, media: Size)
    requires 0.0 < media.w && 0.0 < media.h && 0.0 <= f.w && 0.0 <= f.h
    ensures BestFit(Scale(f, media), f, media)
  {
    ShrinkIs(media.w, f.w);
    ShrinkIs(media.h, f.h);
    var a, b := Shrink(media.w, f.w), Shrink(media.h, f.h);
    Less(b, a, f.w);
    Less(a, b, f.h);
  }

  lemma ShrinkIs(a: real, b: real)
    requires 0.0 < a && 0.0 <= b
    ensures Shrink(a, b) == 1.0 || Shrink(a, b) * b == a
  {
    if a < b {
      Quotient(a, b);
    }
  }

  lemma Less(s: real, t: real, a: real)
    requires 0.0 <= a
    ensures s <= t ==> s * a <= t * a
  {
  }

  /** How the page stands on the sheet: turned only if its sides differ by more than a point, and
      then so that it lies if the sheet lies. */
  predicate StandsAlike(page: Size, media: Size, turn: bool) {
    && (-1.0 <= page.w - page.h <= 1.0 ==> !turn)
    && (page.w - page.h > 1.0 ==> turn == (media.w <= media.h))
    && (page.h - page.w > 1.0 ==> turn == (media.w > media.h))
  }

  /** The page lies on the sheet, in its middle up to one pixel, standing as the sheet does, and is not
      enlarged; one that fits is not made smaller either. */
  lemma LayoutFits(page: Size, media: Size, dpi: nat)
    requires 0.0 < media.w && 0.0 < media.h && 0.0 <= page.w && 0.0 <= page.h
    ensures var l := LayoutOf(page, media, dpi);
            var f := if l.turn then Size(page.h, page.w) else page;
            && 1 <= l.Width() && 0 <= l.x && l.x + l.Width() <= l.W && 0 <= l.W - l.Width() - 2 * l.x <= 1
            && 1 <= l.Height() && 0 <= l.y && l.y + l.Height() <= l.H && 0 <= l.H - l.Height() - 2 * l.y <= 1
            && l.Width() <= Px(f.w, dpi) && l.Height() <= Px(f.h, dpi)
            && (f.w <= media.w && f.h <= media.h ==> l.Width() == Px(f.w, dpi) && l.Height() == Px(f.h, dpi))
            && StandsAlike(page, media, l.turn) && Nearest(l.W, media.w, dpi) && Nearest(l.H, media.h, dpi)
  {
    hide Px, Shrink, Turns, Fitted, Nearest, StandsAlike, Scale;
    var l := LayoutOf(page, media, dpi);
    TurnsAlike(page, media);
    var f := Turned(page, l.turn);
    var t := Scale(f, media);
    OneDirection(f.w, media.w, t, dpi);
    OneDirection(f.h, media.h, t, dpi);
    ScaleOne(f, media);
    PxNearest(media.w, dpi);
    PxNearest(media.h, dpi);
  }

  /** The image of the page, scaled by `s`. */
  predicate ScaledBy(l: Layout, f: Size, s: real, dpi: nat) {
    Nearest(l.Width(), s * f.w, dpi) && Nearest(l.Height(), s * f.h, dpi)
  }

  /** Width and height are scaled alike, by the largest factor with which the page fits, to the nearest pixel. */
  lemma LayoutScales(page: Size, media: Size, dpi: nat, s: real)
    requires 0.0 < media.w && 0.0 < media.h && 0.0 <= page.w && 0.0 <= page.h
    requires BestFit(s, if LayoutOf(page, media, dpi).turn then Size(page.h, page.w) else page, media)
    ensures var l := LayoutOf(page, media, dpi);
            ScaledBy(l, if l.turn then Size(page.h, page.w) else page, s, dpi)
  {
    hide Px, Turns, Fitted, BestFit, Scale, ScaledBy;
    var l := LayoutOf(page, media, dpi);
    var f := Turned(page, l.turn);
    var t := Scale(f, media);
    ScaleFits(f, media);
    OneBestFit(s, t, f, media);
    assert l.Width() == Fitted(f.w, media.w, s, dpi) && l.Height() == Fitted(f.h, media.h, s, dpi);
    FittedScales(l, f, media, s, dpi);
  }

  lemma FittedScales(l: Layout, f: Size, media: Size, s: real, dpi: nat)
    requires BestFit(s, f, media)
    requires l.Width() == Fitted(f.w, media.w, s, dpi) && l.Height() == Fitted(f.h, media.h, s, dpi)
    ensures ScaledBy(l, f, s, dpi)
  {
    hide Px, Fitted;
    var a, b := s * f.w, s * f.h;
    BestFits(f, media, s);
    FittedIs(f.w, media.w, s, a, dpi);
    FittedIs(f.h, media.h, s, b, dpi);
    assert Nearest(l.Width(), a, dpi) && Nearest(l.Height(), b, dpi);
  }

  lemma BestFits(f: Size, media: Size, s: real)
    requires BestFit(s, f, media)
    ensures s * f.w <= media.w && s * f.h <= media.h
  {
  }

  /** What fits is not cut. */
  lemma FittedIs(f: real, m: real, s: real, v: real, dpi: nat)
    requires v == f * s && v <= m
    ensures Nearest(Fitted(f, m, s, dpi), v, dpi)
  {
    hide Px, Nearest;
    PxRises(v, m, dpi);
    PxNearest(v, dpi);
  }

  lemma TurnsAlike(page: Size, media: Size)
    ensures StandsAlike(page, media, Turns(page, media))
  {
  }

  lemma ScaleOne(f: Size, media: Size)
    requires 0.0 < media.w && 0.0 < media.h && 0.0 <= f.w && 0.0 <= f.h
    ensures f.w <= media.w && f.h <= media.h ==> Scale(f, media) == 1.0
  {
  }

  /** Width and height are laid out alike. */
  lemma OneDirection(f: real, m: real, s: real, dpi: nat)
    requires 0.0 <= f && 0.0 < m && 0.0 < s <= 1.0
    ensures var W := Px(m, dpi);
            var o := Fitted(f, m, s, dpi);
            var x := (W - o) / 2;
            && 1 <= o && 0 <= x && x + o <= W && 0 <= W - o - 2 * x <= 1
            && o <= Px(f, dpi) && (f <= m && s == 1.0 ==> o == Px(f, dpi))
  {
    hide Px;
    Scaled(f, s);
    PxRises(f * s, f, dpi);
    if f <= m {
      PxRises(f, m, dpi);
    }
  }

  lemma Scaled(a: real, s: real)
    requires 0.0 <= a && 0.0 <= s <= 1.0
    ensures a * s <= a && (s == 1.0 ==> a * s == a)
  {
  }

  lemma PxRises(a: real, b: real, dpi: nat)
    requires a <= b
    ensures Px(a, dpi) <= Px(b, dpi)
  {
    RisesBy(a / 72.0, b / 72.0, dpi as real);
  }

  lemma RisesBy(a: real, b: real, d: real)
    requires a <= b && 0.0 <= d
    ensures a * d <= b * d && (a * d + 0.5).Floor <= (b * d + 0.5).Floor
  {
  }

  /** A page rendered in the size that layout asks for lies on the sheet with all its pixels, in
      its place, and the rest is white; also if it fills the whole sheet. */
  lemma PageOnSheet(page: Size, media: Size, dpi: nat, img: Image, r: Image)
    requires 0.0 < media.w && 0.0 < media.h && 0.0 <= page.w && 0.0 <= page.h && ValidImage(img)
    requires var l := LayoutOf(page, media, dpi);
             && img.width == l.Width() && img.height == l.Height()
             && if img.width == l.W && img.height == l.H then r == img
                else r.width == l.W && r.height == l.H && IsOnSheet(img, r, l.x, l.y)
    ensures var l := LayoutOf(page, media, dpi);
            && r.width == l.W && r.height == l.H && IsOnSheet(img, r, l.x, l.y)
            && forall x, y :: Inside(img, x, y) ==>
                 Inside(r, x + l.x, y + l.y) && Pixel(r, x + l.x, y + l.y) == Pixel(img, x, y)
  {
    hide LayoutOf, Pixel, ValidImage;
    LayoutFits(page, media, dpi);
    var l := LayoutOf(page, media, dpi);
    if img.width == l.W && img.height == l.H {
      assert l.x == 0 && l.y == 0;
    }
    forall x, y | Inside(img, x, y)
      ensures Inside(r, x + l.x, y + l.y) && Pixel(r, x + l.x, y + l.y) == Pixel(img, x, y)
    {
    }
  }
}
