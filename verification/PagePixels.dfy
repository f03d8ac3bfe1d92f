/** Pixels in image buffers: what one place of a buffer holds, and what writing a pixel changes. */
module PagePixels {
  import opened Bytes

  /** A raster image: rows of `width` pixels of `bpp` bytes each. */
  datatype Image = Image(width: nat, height: nat, bpp: nat, data: Bytes)

  ghost predicate ValidImage(img: Image) {
    img.bpp >= 1 && |img.data| == img.width * img.height * img.bpp
  }

  /** The number of a pixel in its image. */
  function Spot(width: nat, x: nat, y: nat): nat {
    y * width + x
  }

  lemma SpotInside(width: nat, height: nat, x: nat, y: nat)
    requires x < width && y < height
    ensures Spot(width, x, y) < width * height
  {
    assert (y + 1) * width <= height * width;
  }

  lemma SpotsDiffer(width: nat, x: nat, y: nat, x2: nat, y2: nat)
    requires x < width && x2 < width && (x != x2 || y != y2)
    ensures Spot(width, x, y) != Spot(width, x2, y2)
  {
    if y < y2 {
      assert (y + 1) * width <= y2 * width;
    } else if y2 < y {
      assert (y2 + 1) * width <= y * width;
    }
  }

  /** Every place of the buffer belongs to a pixel. */
  lemma SpotOf(width: nat, height: nat, p: nat) returns (x: nat, y: nat)
    requires p < width * height
    ensures x < width && y < height && p == Spot(width, x, y)
  {
    assert width > 0;
    x, y := p % width, p / width;
    assert p == y * width + x;
    RowsMultiply(height, y, width);
  }

  lemma RowsMultiply(a: nat, b: nat, width: nat)
    ensures a <= b ==> a * width <= b * width
  {
  }

  lemma ByteRange(p: nat, bpp: nat, n: nat)
    requires p < n
    ensures 0 <= p * bpp && (p + 1) * bpp <= n * bpp && (p + 1) * bpp == p * bpp + bpp
  {
  }

  /** The bytes of the pixel number `p`. */
  function PixelAt(data: Bytes, bpp: nat, p: nat): (r: Bytes)
    requires p * bpp + bpp <= |data|
    ensures |r| == bpp
  {
    data[p * bpp..p * bpp + bpp]
  }

  ghost predicate Inside(img: Image, x: int, y: int) {
    0 <= x < img.width && 0 <= y < img.height
  }

  lemma InsideFits(img: Image, x: nat, y: nat)
    requires ValidImage(img) && Inside(img, x, y)
    ensures Spot(img.width, x, y) * img.bpp + img.bpp <= |img.data|
  {
    SpotInside(img.width, img.height, x, y);
    ByteRange(Spot(img.width, x, y), img.bpp, img.width * img.height);
  }

  /** The pixel in column `x` of row `y`. */
  ghost function Pixel(img: Image, x: int, y: int): (r: Bytes)
    requires ValidImage(img) && Inside(img, x, y)
    ensures |r| == img.bpp
  {
    InsideFits(img, x, y);
    PixelAt(img.data, img.bpp, Spot(img.width, x, y))
  }

  /** Writing one pixel changes that pixel and no other. */
  lemma SplicePixel(data: Bytes, bpp: nat, n: nat, p: nat, px: Bytes, q: nat)
    requires |data| == n * bpp && p < n && q < n && |px| == bpp
    ensures p * bpp + bpp <= |data| && q * bpp + bpp <= |data|
    ensures PixelAt(Splice(data, p * bpp, px), bpp, q) == if q == p then px else PixelAt(data, bpp, q)
  {
    ByteRange(p, bpp, n);
    ByteRange(q, bpp, n);
    if q < p {
      ByteRange(q, bpp, p);
    } else if p < q {
      ByteRange(p, bpp, q);
    }
    SpliceOther(data, p * bpp, px, q * bpp);
  }

  lemma SpliceOther(data: Bytes, i: nat, px: Bytes, j: nat)
    requires i + |px| <= |data| && j + |px| <= |data| && (i == j || i + |px| <= j || j + |px| <= i)
    ensures Splice(data, i, px)[j..j + |px|] == if i == j then px else data[j..j + |px|]
  {
    var s := Splice(data, i, px);
    if i == j {
      assert s[j..j + |px|] == px;
    } else if i + |px| <= j {
      assert s[j..j + |px|] == data[j..j + |px|];
    } else {
      assert s[j..j + |px|] == data[j..j + |px|];
    }
  }

  /** Two images of one size with the same pixels are the same. */
  lemma SamePixels(a: Image, b: Image)
    requires ValidImage(a) && ValidImage(b) && a.width == b.width && a.height == b.height && a.bpp == b.bpp
    requires forall x, y :: Inside(a, x, y) ==> Pixel(a, x, y) == Pixel(b, x, y)
    ensures a == b
  {
    hide Spot;
    var n := a.width * a.height;
    forall i | 0 <= i < |a.data|
      ensures a.data[i] == b.data[i]
    {
      SameByte(a, b, i);
    }
    assert a.data == b.data;
  }

  lemma SameByte(a: Image, b: Image, i: nat)
    requires ValidImage(a) && ValidImage(b) && a.width == b.width && a.height == b.height && a.bpp == b.bpp
    requires forall x, y :: Inside(a, x, y) ==> Pixel(a, x, y) == Pixel(b, x, y)
    requires i < |a.data|
    ensures i < |b.data| && a.data[i] == b.data[i]
  {
    hide Spot;
    var c, p := SpotOf(a.bpp, a.width * a.height, i);
    var x, y := SpotOf(a.width, a.height, p);
    assert Inside(a, x, y);
    assert Pixel(a, x, y) == Pixel(b, x, y);
    ByteIn(a, x, y, c, i);
    ByteIn(b, x, y, c, i);
  }

  lemma ByteIn(img: Image, x: nat, y: nat, c: nat, i: nat)
    requires ValidImage(img) && Inside(img, x, y) && c < img.bpp
             && i == Spot(img.bpp, c, Spot(img.width, x, y)) < |img.data|
    ensures img.data[i] == Pixel(img, x, y)[c]
  {
    InsideFits(img, x, y);
  }

  /** Writing `k` pixels in a row changes those and no others. */
  lemma SpliceRow(data: Bytes, bpp: nat, n: nat, p: nat, k: nat, row: Bytes, q: nat)
    requires |data| == n * bpp && p + k <= n && q < n && |row| == k * bpp
    ensures p * bpp + |row| <= |data| && q * bpp + bpp <= |data|
    ensures p <= q < p + k ==> (q - p) * bpp + bpp <= |row|
    ensures PixelAt(Splice(data, p * bpp, row), bpp, q) ==
            if p <= q < p + k then PixelAt(row, bpp, q - p) else PixelAt(data, bpp, q)
  {
    RowRange(p, k, n, bpp);
    ByteRange(q, bpp, n);
    if q < p {
      ByteRange(q, bpp, p);
      SpliceBelow(data, p * bpp, row, q * bpp, bpp);
    } else if q < p + k {
      ByteRange(q - p, bpp, k);
      RowRange(p, q - p, n, bpp);
      SpliceWithin(data, p * bpp, row, (q - p) * bpp, bpp);
    } else {
      RowsMultiply(p + k, q, bpp);
      SpliceAbove(data, p * bpp, row, q * bpp, bpp);
    }
  }

  lemma RowRange(p: nat, k: nat, n: nat, bpp: nat)
    requires p + k <= n
    ensures (p + k) * bpp == p * bpp + k * bpp <= n * bpp
  {
    RowsMultiply(p + k, n, bpp);
  }

  lemma SpliceBelow(data: Bytes, i: nat, row: Bytes, j: nat, n: nat)
    requires i + |row| <= |data| && j + n <= i
    ensures Splice(data, i, row)[j..j + n] == data[j..j + n]
  {
  }

  lemma SpliceWithin(data: Bytes, i: nat, row: Bytes, j: nat, n: nat)
    requires i + |row| <= |data| && j + n <= |row|
    ensures Splice(data, i, row)[i + j..i + j + n] == row[j..j + n]
  {
    var s := Splice(data, i, row);
    assert s[i..i + |row|] == row;
    SliceOfSlice(s, i, i + |row|, j, j + n);
  }

  lemma SpliceAbove(data: Bytes, i: nat, row: Bytes, j: nat, n: nat)
    requires i + |row| <= j && j + n <= |data|
    ensures Splice(data, i, row)[j..j + n] == data[j..j + n]
  {
  }

  /** The first `k` pixels of a row, as the loops take them. */
  lemma RowRead(img: Image, y: nat, k: nat)
    requires ValidImage(img) && y < img.height && k <= img.width
    ensures var src, end := y * img.width * img.bpp, (y * img.width + k) * img.bpp;
            && 0 <= src <= end <= |img.data| && end - src == k * img.bpp
            && forall x :: 0 <= x < k ==> RowPixel(img, y, img.data[src..end], x)
  {
    RowsMultiply(y + 1, img.height, img.width);
    RowRange(y * img.width, k, img.width * img.height, img.bpp);
    hide RowPixel;
    var row := img.data[y * img.width * img.bpp..(y * img.width + k) * img.bpp];
    forall x | 0 <= x < k
      ensures RowPixel(img, y, row, x)
    {
      RowPixelRead(img, y, k, x);
    }
  }

  lemma RowPixelRead(img: Image, y: nat, k: nat, x: nat)
    requires ValidImage(img) && y < img.height && x < k <= img.width
    requires y * img.width * img.bpp <= (y * img.width + k) * img.bpp <= |img.data|
    ensures RowPixel(img, y, img.data[y * img.width * img.bpp..(y * img.width + k) * img.bpp], x)
  {
    hide ValidImage, PixelAt;
    InsideFits(img, x, y);
    CutPixel(img.data, img.bpp, y * img.width, k, x);
  }

  /** Pixel `x` of the `k` pixels cut out from pixel `p` on. */
  lemma CutPixel(data: Bytes, bpp: nat, p: nat, k: nat, x: nat)
    requires x < k && p * bpp <= (p + k) * bpp <= |data| && (p + x) * bpp + bpp <= |data|
    ensures var row := data[p * bpp..(p + k) * bpp];
            x * bpp + bpp <= |row| && PixelAt(row, bpp, x) == PixelAt(data, bpp, p + x)
  {
    var a, b, c := p * bpp, (p + k) * bpp, x * bpp;
    Offsets(bpp, p, k, x);
    SliceOfSlice(data, a, b, c, c + bpp);
  }

  lemma Offsets(bpp: nat, p: nat, k: nat, x: nat)
    requires x < k
    ensures (p + x) * bpp == p * bpp + x * bpp && (p + k) * bpp == p * bpp + k * bpp && x * bpp + bpp <= k * bpp
  {
    ByteRange(x, bpp, k);
  }

  ghost predicate RowPixel(img: Image, y: nat, row: Bytes, x: nat)
    requires ValidImage(img) && Inside(img, x, y)
  {
    x * img.bpp + img.bpp <= |row| && PixelAt(row, img.bpp, x) == Pixel(img, x, y)
  }
}
