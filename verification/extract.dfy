/**
  The pixel loop of backend/utils.js `extractPixels`. The image decoder is outside the
  model: its result is a `Raster`, the metadata width and height together with the raw
  buffer, read as RGBA with four bytes per pixel.

  The loop walks rows top to bottom and each row left to right, skips samples whose alpha
  byte is zero, and emits `{x, y, color}` for every other sample. `RowPixels` and
  `ImagePixels` are the reference reading of that walk; `ExtractPixels` is the loop itself.
 */
module Extract {
  import opened Hex

  /** One emitted entry `{x, y, color}`. */
  datatype Pixel = Pixel(x: nat, y: nat, color: string)

  /** A decoded image: its width and height and its raw RGBA buffer. */
  datatype Raster = Raster(width: nat, height: nat, raw: seq<byte>)

  /**
    `width * height`, written as repeated addition so that proofs about the loop stay in
    linear arithmetic; `AreaIsProduct` connects it to the product.
   */
  function Area(width: nat, height: nat): nat {
    if height == 0 then 0 else Area(width, height - 1) + width
  }

  lemma {:induction false} AreaIsProduct(width: nat, height: nat)
    ensures Area(width, height) == width * height
  {
    if height > 0 {
      AreaIsProduct(width, height - 1);
      assert width * (height - 1) + width == width * height;
    }
  }

  /** The decoder hands over exactly four bytes per pixel. */
  predicate Valid(img: Raster) {
    |img.raw| == 4 * Area(img.width, img.height)
  }

  /**
    Index of the red byte of sample (x, y) in a buffer of rows `width` pixels wide,
    counted row by row; `OffsetIsRowMajor` gives the closed form `(y * width + x) * 4`.
   */
  function Offset(width: nat, x: nat, y: nat): nat {
    if y == 0 then 4 * x else Offset(width, x, y - 1) + 4 * width
  }

  lemma {:induction false} OffsetIsRowMajor(width: nat, x: nat, y: nat)
    ensures Offset(width, x, y) == (y * width + x) * 4
  {
    if y > 0 {
      OffsetIsRowMajor(width, x, y - 1);
      assert ((y - 1) * width + x) * 4 + 4 * width == (y * width + x) * 4;
    }
  }

  /** The four bytes of every sample inside the image lie inside the buffer. */
  lemma {:induction false} SampleInBuffer(img: Raster, x: nat, y: nat)
    requires Valid(img) && x < img.width && y < img.height
    ensures Offset(img.width, x, y) + 3 < |img.raw|
  {
    OffsetBelowArea(img.width, x, y, img.height);
  }

  lemma {:induction false} OffsetBelowArea(width: nat, x: nat, y: nat, height: nat)
    requires x < width && y < height
    ensures Offset(width, x, y) + 4 <= 4 * Area(width, height)
    decreases height
  {
    if y < height - 1 {
      OffsetBelowArea(width, x, y, height - 1);
    } else if y > 0 {
      OffsetBelowArea(width, x, y - 1, height - 1);
    }
  }

  /** The alpha byte of sample (x, y). */
  function Alpha(img: Raster, x: nat, y: nat): byte
    requires Valid(img) && x < img.width && y < img.height
  {
    SampleInBuffer(img, x, y);
    img.raw[Offset(img.width, x, y) + 3]
  }

  /** The colour string of sample (x, y): its red, green and blue bytes; alpha is not read. */
  function ColorAt(img: Raster, x: nat, y: nat): string
    requires Valid(img) && x < img.width && y < img.height
  {
    SampleInBuffer(img, x, y);
    var i := Offset(img.width, x, y);
    RgbToHex(img.raw[i], img.raw[i + 1], img.raw[i + 2])
  }

  /** What one step of the loop contributes for sample (x, y): nothing when it is fully transparent. */
  function Emit(img: Raster, x: nat, y: nat): seq<Pixel>
    requires Valid(img) && x < img.width && y < img.height
  {
    if Alpha(img, x, y) == 0 then [] else [Pixel(x, y, ColorAt(img, x, y))]
  }

  /** The entries the loop emits for the first `n` samples of row `y`, at most one per column. */
  function RowPixels(img: Raster, y: nat, n: nat): (ps: seq<Pixel>)
    requires Valid(img) && y < img.height && n <= img.width
    ensures |ps| <= n
    decreases n
  {
    if n == 0 then [] else RowPixels(img, y, n - 1) + Emit(img, n - 1, y)
  }

  /** The entries the loop emits for the first `m` rows, at most `width` per row. */
  function ImagePixels(img: Raster, m: nat): (ps: seq<Pixel>)
    requires Valid(img) && m <= img.height
    ensures |ps| <= Area(img.width, m)
    decreases m
  {
    if m == 0 then [] else ImagePixels(img, m - 1) + RowPixels(img, m - 1, img.width)
  }

  /** The entries of row `y` left of column `n` all lie in row `y` and left of column `n`. */
  lemma {:induction false} RowPixelsPositions(img: Raster, y: nat, n: nat)
    requires Valid(img) && y < img.height && n <= img.width
    ensures forall i :: 0 <= i < |RowPixels(img, y, n)| ==> RowPixels(img, y, n)[i].y == y && RowPixels(img, y, n)[i].x < n
    decreases n
  {
    if n > 0 {
      var prev: seq<Pixel>, e: seq<Pixel> := RowPixels(img, y, n - 1), Emit(img, n - 1, y);
      assert RowPixels(img, y, n) == prev + e;
      RowPixelsPositions(img, y, n - 1);
      forall i | 0 <= i < |prev + e|
        ensures (prev + e)[i].y == y && (prev + e)[i].x < n
      {
        if i >= |prev| {
          assert (prev + e)[i] == e[i - |prev|];
        }
      }
    }
  }

  /** The entries of the first `m` rows all lie inside the image and above row `m`. */
  lemma {:induction false} ImagePixelsPositions(img: Raster, m: nat)
    requires Valid(img) && m <= img.height
    ensures forall i :: 0 <= i < |ImagePixels(img, m)| ==> ImagePixels(img, m)[i].y < m && ImagePixels(img, m)[i].x < img.width
    decreases m
  {
    if m > 0 {
      var prev: seq<Pixel>, row: seq<Pixel> := ImagePixels(img, m - 1), RowPixels(img, m - 1, img.width);
      assert ImagePixels(img, m) == prev + row;
      ImagePixelsPositions(img, m - 1);
      RowPixelsPositions(img, m - 1, img.width);
      forall i | 0 <= i < |prev + row|
        ensures (prev + row)[i].y < m && (prev + row)[i].x < img.width
      {
        if i >= |prev| {
          assert (prev + row)[i] == row[i - |prev|];
        }
      }
    }
  }

  lemma AppendAssoc<T>(a: seq<T>, b: seq<T>, c: seq<T>)
    ensures (a + b) + c == a + (b + c)
  {
  }

  /** Row-major order: `p` comes strictly before `q`, by row and then by column. */
  predicate Precedes(p: Pixel, q: Pixel) {
    p.y < q.y || (p.y == q.y && p.x < q.x)
  }

  /** Every entry precedes every later one; in particular no position occurs twice. */
  predicate RowMajor(ps: seq<Pixel>) {
    forall i, j :: 0 <= i < j < |ps| ==> Precedes(ps[i], ps[j])
  }

  /** Some entry of `ps` sits at position (x, y). */
  predicate HasEntryAt(ps: seq<Pixel>, x: nat, y: nat) {
    exists i :: 0 <= i < |ps| && ps[i].x == x && ps[i].y == y
  }

  /**
    Every entry lies inside the image, on a sample whose alpha is non-zero, and carries
    that sample's colour.
   */
  predicate Faithful(img: Raster, ps: seq<Pixel>)
    requires Valid(img)
  {
    forall i :: 0 <= i < |ps| ==>
      && ps[i].x < img.width && ps[i].y < img.height
      && Alpha(img, ps[i].x, ps[i].y) != 0
      && ps[i].color == ColorAt(img, ps[i].x, ps[i].y)
  }

  lemma FaithfulAppend(img: Raster, a: seq<Pixel>, b: seq<Pixel>)
    requires Valid(img) && Faithful(img, a) && Faithful(img, b)
    ensures Faithful(img, a + b)
  {
    forall i | 0 <= i < |a + b|
      ensures (a + b)[i] == if i < |a| then a[i] else b[i - |a|]
    {
    }
  }

  lemma RowMajorAppend(a: seq<Pixel>, b: seq<Pixel>)
    requires RowMajor(a) && RowMajor(b)
    requires forall i, j :: 0 <= i < |a| && 0 <= j < |b| ==> Precedes(a[i], b[j])
    ensures RowMajor(a + b)
  {
    forall i, j | 0 <= i < j < |a + b|
      ensures Precedes((a + b)[i], (a + b)[j])
    {
      if j < |a| {
        assert (a + b)[i] == a[i] && (a + b)[j] == a[j];
      } else if i < |a| {
        assert (a + b)[i] == a[i] && (a + b)[j] == b[j - |a|];
      } else {
        assert (a + b)[i] == b[i - |a|] && (a + b)[j] == b[j - |a|];
      }
    }
  }

  /** Appending what one step emits at column `x` keeps a row ordered. */
  lemma AppendColumn(prev: seq<Pixel>, e: seq<Pixel>, x: nat, y: nat)
    requires RowMajor(prev)
    requires forall i :: 0 <= i < |prev| ==> prev[i].y == y && prev[i].x < x
    requires |e| <= 1 && forall j :: 0 <= j < |e| ==> e[j].y == y && e[j].x == x
    ensures RowMajor(prev + e)
  {
    RowMajorAppend(prev, e);
  }

  /** Appending an ordered row below all earlier rows keeps the list ordered. */
  lemma AppendRow(prev: seq<Pixel>, row: seq<Pixel>, y: nat)
    requires RowMajor(prev) && RowMajor(row)
    requires forall i :: 0 <= i < |prev| ==> prev[i].y < y
    requires forall j :: 0 <= j < |row| ==> row[j].y == y
    ensures RowMajor(prev + row)
  {
    RowMajorAppend(prev, row);
  }

  lemma HasEntryAppend(a: seq<Pixel>, b: seq<Pixel>, x: nat, y: nat)
    requires HasEntryAt(a, x, y) || HasEntryAt(b, x, y)
    ensures HasEntryAt(a + b, x, y)
  {
    if HasEntryAt(a, x, y) {
      var i :| 0 <= i < |a| && a[i].x == x && a[i].y == y;
      assert (a + b)[i] == a[i];
    } else {
      var i :| 0 <= i < |b| && b[i].x == x && b[i].y == y;
      assert (a + b)[|a| + i] == b[i];
    }
  }

  /** The entries of one row are faithful samples. */
  lemma {:induction false} RowPixelsFaithful(img: Raster, y: nat, n: nat)
    requires Valid(img) && y < img.height && n <= img.width
    ensures Faithful(img, RowPixels(img, y, n))
    decreases n
  {
    if n > 0 {
      RowPixelsFaithful(img, y, n - 1);
      FaithfulAppend(img, RowPixels(img, y, n - 1), Emit(img, n - 1, y));
    }
  }

  /** The entries of one row go strictly left to right. */
  lemma {:induction false} RowPixelsOrdered(img: Raster, y: nat, n: nat)
    requires Valid(img) && y < img.height && n <= img.width
    ensures RowMajor(RowPixels(img, y, n))
    decreases n
  {
    if n > 0 {
      RowPixelsOrdered(img, y, n - 1);
      RowPixelsPositions(img, y, n - 1);
      AppendColumn(RowPixels(img, y, n - 1), Emit(img, n - 1, y), n - 1, y);
    }
  }

  /** Every non-transparent sample of the row left of column `n` has an entry. */
  lemma {:induction false} RowPixelsComplete(img: Raster, y: nat, n: nat)
    requires Valid(img) && y < img.height && n <= img.width
    ensures forall x :: 0 <= x < n && Alpha(img, x, y) != 0 ==> HasEntryAt(RowPixels(img, y, n), x, y)
    decreases n
  {
    if n > 0 {
      RowPixelsComplete(img, y, n - 1);
      forall x | 0 <= x < n && Alpha(img, x, y) != 0
        ensures HasEntryAt(RowPixels(img, y, n), x, y)
      {
        if x == n - 1 {
          assert Emit(img, x, y)[0].x == x;
        }
        HasEntryAppend(RowPixels(img, y, n - 1), Emit(img, n - 1, y), x, y);
      }
    }
  }

  /** The entries of the first `m` rows are faithful samples. */
  lemma {:induction false} ImagePixelsFaithful(img: Raster, m: nat)
    requires Valid(img) && m <= img.height
    ensures Faithful(img, ImagePixels(img, m))
    decreases m
  {
    if m > 0 {
      ImagePixelsFaithful(img, m - 1);
      RowPixelsFaithful(img, m - 1, img.width);
      FaithfulAppend(img, ImagePixels(img, m - 1), RowPixels(img, m - 1, img.width));
    }
  }

  /** The entries of the first `m` rows are in row-major order. */
  lemma {:induction false} ImagePixelsOrdered(img: Raster, m: nat)
    requires Valid(img) && m <= img.height
    ensures RowMajor(ImagePixels(img, m))
    decreases m
  {
    if m > 0 {
      var prev: seq<Pixel>, row: seq<Pixel> := ImagePixels(img, m - 1), RowPixels(img, m - 1, img.width);
      assert ImagePixels(img, m) == prev + row;
      assert RowMajor(prev) by { ImagePixelsOrdered(img, m - 1); }
      assert RowMajor(row) by { RowPixelsOrdered(img, m - 1, img.width); }
      ImagePixelsPositions(img, m - 1);
      RowPixelsPositions(img, m - 1, img.width);
      AppendRow(prev, row, m - 1);
    }
  }

  /** Every non-transparent sample of the first `m` rows has an entry. */
  lemma {:induction false} ImagePixelsComplete(img: Raster, m: nat)
    requires Valid(img) && m <= img.height
    ensures forall x, y :: 0 <= x < img.width && 0 <= y < m && Alpha(img, x, y) != 0 ==> HasEntryAt(ImagePixels(img, m), x, y)
    decreases m
  {
    if m > 0 {
      ImagePixelsComplete(img, m - 1);
      RowPixelsComplete(img, m - 1, img.width);
      forall x, y | 0 <= x < img.width && 0 <= y < m && Alpha(img, x, y) != 0
        ensures HasEntryAt(ImagePixels(img, m), x, y)
      {
        HasEntryAppend(ImagePixels(img, m - 1), RowPixels(img, m - 1, img.width), x, y);
      }
    }
  }

  /**
    The whole scan, as `extractPixels` promises it: an entry sits at (x, y) exactly when
    that sample's alpha byte is non-zero, it carries the sample's colour, entries come in
    row-major order (so no position repeats), and there are at most `width * height`.
   */
  lemma ImagePixelsSpec(img: Raster, ps: seq<Pixel>)
    requires Valid(img) && ps == ImagePixels(img, img.height)
    ensures Faithful(img, ps)
    ensures forall x, y :: 0 <= x < img.width && 0 <= y < img.height ==> (HasEntryAt(ps, x, y) <==> Alpha(img, x, y) != 0)
    ensures RowMajor(ps)
    ensures |ps| <= img.width * img.height
  {
    ImagePixelsFaithful(img, img.height);
    ImagePixelsOrdered(img, img.height);
    ImagePixelsComplete(img, img.height);
    forall x, y | 0 <= x < img.width && 0 <= y < img.height && HasEntryAt(ps, x, y)
      ensures Alpha(img, x, y) != 0
    {
      var i :| 0 <= i < |ps| && ps[i].x == x && ps[i].y == y;
    }
    AreaIsProduct(img.width, img.height);
  }

  /**
    The body of the inner loop of backend/utils.js `extractPixels` at sample (x, y): reads
    the four bytes at `(y * width + x) * 4` and appends `{x, y, color}` to `pixels` unless
    the alpha byte is zero.
   */
  method ScanSample(img: Raster, x: nat, y: nat, pixels: seq<Pixel>) returns (pixels': seq<Pixel>)
    requires Valid(img) && x < img.width && y < img.height
    ensures pixels' == pixels + Emit(img, x, y)
  {
    var idx := (y * img.width + x) * 4;
    assert idx == Offset(img.width, x, y) && idx + 3 < |img.raw| by {
      OffsetIsRowMajor(img.width, x, y);
      SampleInBuffer(img, x, y);
    }
    var r, g, b, a := img.raw[idx], img.raw[idx + 1], img.raw[idx + 2], img.raw[idx + 3];
    if a != 0 {
      pixels' := pixels + [Pixel(x, y, RgbToHex(r, g, b))];
    } else {
      pixels' := pixels;
      assert pixels + [] == pixels;
    }
  }

  /** The inner loop of backend/utils.js `extractPixels`: row `y`, left to right, appended to `acc`. */
  method ScanRow(img: Raster, y: nat, acc: seq<Pixel>) returns (pixels: seq<Pixel>)
    requires Valid(img) && y < img.height
    ensures pixels == acc + RowPixels(img, y, img.width)
  {
    pixels := acc;
    var x := 0;
    while x < img.width
      invariant 0 <= x <= img.width
      invariant pixels == acc + RowPixels(img, y, x)
    {
      ghost var row := RowPixels(img, y, x);
      ghost var e := Emit(img, x, y);
      pixels := ScanSample(img, x, y, pixels);
      assert pixels == acc + (row + e) by { AppendAssoc(acc, row, e); }
      x := x + 1;
    }
  }

  /**
    backend/utils.js `extractPixels`, the loop over the raw buffer. The result is the
    row-major list of the non-transparent samples: an entry sits at (x, y) exactly when the
    alpha byte at `(y * width + x) * 4 + 3` is non-zero, it carries the colour of the three
    bytes before it, no position repeats, and there are at most `width * height` entries.
    Width and height are passed through unchanged.
   */
  method ExtractPixels(img: Raster) returns (pixels: seq<Pixel>, width: nat, height: nat)
    requires Valid(img)
    ensures width == img.width && height == img.height
    ensures pixels == ImagePixels(img, img.height)
    ensures Faithful(img, pixels)
    ensures forall x, y :: 0 <= x < img.width && 0 <= y < img.height ==> (HasEntryAt(pixels, x, y) <==> Alpha(img, x, y) != 0)
    ensures RowMajor(pixels)
    ensures |pixels| <= img.width * img.height
  {
    width, height := img.width, img.height;
    pixels := [];
    var y := 0;
    while y < height
      invariant 0 <= y <= height
      invariant pixels == ImagePixels(img, y)
    {
      pixels := ScanRow(img, y, pixels);
      y := y + 1;
    }
    ImagePixelsSpec(img, pixels);
  }

  /** Position (x, y) of `img` and of `img'` holds the same red, green and blue bytes. */
  predicate SameRgb(img: Raster, img': Raster, x: nat, y: nat)
    requires Valid(img) && Valid(img') && img.width == img'.width
    requires x < img.width && y < img.height && y < img'.height
  {
    SampleInBuffer(img, x, y);
    SampleInBuffer(img', x, y);
    var i := Offset(img.width, x, y);
    img.raw[i] == img'.raw[i] && img.raw[i + 1] == img'.raw[i + 1] && img.raw[i + 2] == img'.raw[i + 2]
  }

  /**
    Two images of the same size that differ at most in alpha values, and never in whether
    an alpha value is zero.
   */
  predicate DifferOnlyInAlpha(img: Raster, img': Raster) {
    && Valid(img) && Valid(img')
    && img.width == img'.width && img.height == img'.height
    && forall x, y :: 0 <= x < img.width && 0 <= y < img.height ==>
         SameRgb(img, img', x, y) && (Alpha(img, x, y) == 0 <==> Alpha(img', x, y) == 0)
  }

  lemma EmitAgrees(img: Raster, img': Raster, x: nat, y: nat)
    requires Valid(img) && Valid(img') && img.width == img'.width && img.height == img'.height
    requires x < img.width && y < img.height
    requires SameRgb(img, img', x, y) && (Alpha(img, x, y) == 0 <==> Alpha(img', x, y) == 0)
    ensures Emit(img, x, y) == Emit(img', x, y)
  {
  }

  /** Rows built from samples that emit the same entries are equal. */
  lemma {:induction false} RowsEqual(img: Raster, img': Raster, y: nat, n: nat)
    requires Valid(img) && Valid(img') && img.width == img'.width && img.height == img'.height
    requires y < img.height && n <= img.width
    requires forall x :: 0 <= x < n ==> Emit(img, x, y) == Emit(img', x, y)
    ensures RowPixels(img, y, n) == RowPixels(img', y, n)
    decreases n
  {
    if n > 0 {
      RowsEqual(img, img', y, n - 1);
    }
  }

  /** Images whose rows emit the same entries extract to the same list. */
  lemma {:induction false} ImagesEqual(img: Raster, img': Raster, m: nat)
    requires Valid(img) && Valid(img') && img.width == img'.width && img.height == img'.height
    requires m <= img.height
    requires forall y :: 0 <= y < m ==> RowPixels(img, y, img.width) == RowPixels(img', y, img.width)
    ensures ImagePixels(img, m) == ImagePixels(img', m)
    decreases m
  {
    if m > 0 {
      ImagesEqual(img, img', m - 1);
    }
  }

  /**
    Images that differ only in alpha values that are both non-zero (or both zero) extract
    to the same entries: the alpha byte decides whether a sample appears, never its colour.
   */
  lemma AlphaDecidesPresenceOnly(img: Raster, img': Raster)
    requires DifferOnlyInAlpha(img, img')
    ensures ImagePixels(img, img.height) == ImagePixels(img', img'.height)
  {
    forall x, y | 0 <= x < img.width && 0 <= y < img.height
      ensures Emit(img, x, y) == Emit(img', x, y)
    {
      EmitAgrees(img, img', x, y);
    }
    forall y | 0 <= y < img.height
      ensures RowPixels(img, y, img.width) == RowPixels(img', y, img.width)
    {
      RowsEqual(img, img', y, img.width);
    }
    ImagesEqual(img, img', img.height);
  }
}
