/**
  The channel layout of the buffer that backend/utils.js `extractPixels` reads. The decoder
  hands over one byte per channel, and its channel count follows the image: three for an
  image without an alpha channel, four for one with it. The loop, however, always reads
  four bytes at `(y * width + x) * 4`.

  `RgbBufferOverrun` and `RedGreenMisread` show what that reading does to a three-channel
  buffer. `SmallRgbAsWritten` shows that a three-channel buffer of at most one pixel reads
  as if opaque. `ToRgba` is the buffer the loop is written for: every pixel of a
  three-channel image gets an opaque alpha byte. The source does not widen. The widening is
  the proposed correction, which `Store.HandleUploadWithAlpha` applies.
 */
module Channels {
  import opened Hex
  import opened Extract

  /** The decoder's raw output: `channels` bytes per pixel, row by row. */
  datatype Buffer = Buffer(width: nat, height: nat, channels: nat, raw: seq<byte>)

  /** Three or four channels, and exactly that many bytes for every pixel. */
  predicate WellSized(buf: Buffer) {
    if buf.channels == 4 then |buf.raw| == 4 * Area(buf.width, buf.height)
    else buf.channels == 3 && |buf.raw| == 3 * Area(buf.width, buf.height)
  }

  lemma {:induction false} AreaPositive(width: nat, height: nat)
    requires 0 < Area(width, height)
    ensures 0 < width && 0 < height
    decreases height
  {
    if height > 0 && width == 0 {
      AreaPositive(width, height - 1);
    }
  }

  /** The offset of the last sample, as the loop computes it: four bytes before the end of an RGBA buffer. */
  lemma {:induction false} LastOffset(width: nat, height: nat)
    requires 0 < width && 0 < height
    ensures Offset(width, width - 1, height - 1) + 4 == 4 * Area(width, height)
    decreases height
  {
    if height > 1 {
      LastOffset(width, height - 1);
    }
  }

  /**
    As written, the loop reads a three-channel buffer of two or more pixels past its end:
    the blue byte it reads for the last sample lies beyond the buffer. JavaScript yields
    `undefined` for it, and `undefined.toString(16)` throws.
   */
  lemma RgbBufferOverrun(buf: Buffer)
    requires WellSized(buf) && buf.channels == 3
    requires 2 <= Area(buf.width, buf.height)
    ensures 0 < buf.width && 0 < buf.height
    ensures |buf.raw| <= Offset(buf.width, buf.width - 1, buf.height - 1) + 2
  {
    AreaPositive(buf.width, buf.height);
    LastOffset(buf.width, buf.height);
  }

  /**
    A 2 by 1 opaque image without alpha, red then green. The loop reads the first sample's
    alpha from green's red byte, which is zero, so it skips the red pixel. For the second
    sample it reads the blue and alpha bytes past the end of the buffer.
   */
  lemma RedGreenMisread()
    ensures var buf := Buffer(2, 1, 3, [255, 0, 0, 0, 255, 0]);
      && WellSized(buf)
      && buf.raw[Offset(2, 0, 0) + 3] == 0
      && |buf.raw| <= Offset(2, 1, 0) + 2
  {
    assert Area(2, 1) == 2;
  }

  /** Appends an opaque alpha byte after every three bytes of a buffer of `n` RGB pixels. */
  function AddAlpha(s: seq<byte>, n: nat): (r: seq<byte>)
    requires |s| == 3 * n
    ensures |r| == 4 * n
    decreases n
  {
    if n == 0 then [] else s[..3] + [255] + AddAlpha(s[3..], n - 1)
  }

  /** Pixel `p` of the widened buffer holds the three bytes of pixel `p` of the input, then 255. */
  lemma {:induction false} AddAlphaAt(s: seq<byte>, n: nat, p: nat)
    requires |s| == 3 * n && p < n
    ensures AddAlpha(s, n)[4 * p] == s[3 * p]
    ensures AddAlpha(s, n)[4 * p + 1] == s[3 * p + 1]
    ensures AddAlpha(s, n)[4 * p + 2] == s[3 * p + 2]
    ensures AddAlpha(s, n)[4 * p + 3] == 255
    decreases p
  {
    var r := AddAlpha(s, n);
    assert r == s[..3] + [255] + AddAlpha(s[3..], n - 1);
    if p > 0 {
      AddAlphaAt(s[3..], n - 1, p - 1);
    }
  }

  /**
    The RGBA buffer the loop is written for: a four-channel buffer as it is, and a
    three-channel one with an opaque alpha byte after every pixel.
   */
  function ToRgba(buf: Buffer): (img: Raster)
    requires WellSized(buf)
    ensures Valid(img)
    ensures img.width == buf.width && img.height == buf.height
    ensures buf.channels == 4 ==> img.raw == buf.raw
  {
    if buf.channels == 4 then Raster(buf.width, buf.height, buf.raw)
    else Raster(buf.width, buf.height, AddAlpha(buf.raw, Area(buf.width, buf.height)))
  }

  /** Pixel `y * width + x` of a three-channel buffer: its three bytes lie inside the buffer. */
  lemma RgbPixelInBuffer(buf: Buffer, x: nat, y: nat)
    requires WellSized(buf) && buf.channels == 3 && x < buf.width && y < buf.height
    ensures 3 * (y * buf.width + x) + 2 < |buf.raw|
    ensures y * buf.width + x < Area(buf.width, buf.height)
  {
    var img := ToRgba(buf);
    OffsetIsRowMajor(buf.width, x, y);
    SampleInBuffer(img, x, y);
  }

  /** The colour of pixel (x, y) of a three-channel buffer, read with a stride of three bytes. */
  function RgbColorAt(buf: Buffer, x: nat, y: nat): string
    requires WellSized(buf) && buf.channels == 3 && x < buf.width && y < buf.height
  {
    RgbPixelInBuffer(buf, x, y);
    var p := y * buf.width + x;
    RgbToHex(buf.raw[3 * p], buf.raw[3 * p + 1], buf.raw[3 * p + 2])
  }

  /** Sample (x, y) of a widened three-channel buffer is opaque and keeps the pixel's colour. */
  lemma RgbSampleOpaque(buf: Buffer, x: nat, y: nat)
    requires WellSized(buf) && buf.channels == 3 && x < buf.width && y < buf.height
    ensures Alpha(ToRgba(buf), x, y) == 255
    ensures ColorAt(ToRgba(buf), x, y) == RgbColorAt(buf, x, y)
  {
    var p := y * buf.width + x;
    RgbPixelInBuffer(buf, x, y);
    assert Offset(buf.width, x, y) == 4 * p by { OffsetIsRowMajor(buf.width, x, y); }
    AddAlphaAt(buf.raw, Area(buf.width, buf.height), p);
  }

  /**
    Once widened, an image without alpha yields an entry at every position, each with the
    colour of its pixel's three bytes.
   */
  lemma RgbImageFullyPresent(buf: Buffer)
    requires WellSized(buf) && buf.channels == 3
    ensures var ps := ImagePixels(ToRgba(buf), buf.height);
      && (forall x, y :: 0 <= x < buf.width && 0 <= y < buf.height ==> HasEntryAt(ps, x, y))
      && (forall i :: 0 <= i < |ps| ==>
            ps[i].x < buf.width && ps[i].y < buf.height && ps[i].color == RgbColorAt(buf, ps[i].x, ps[i].y))
  {
    var img := ToRgba(buf);
    var ps := ImagePixels(img, img.height);
    ImagePixelsSpec(img, ps);
    forall x, y | 0 <= x < buf.width && 0 <= y < buf.height
      ensures Alpha(img, x, y) != 0 && ColorAt(img, x, y) == RgbColorAt(buf, x, y)
    {
      RgbSampleOpaque(buf, x, y);
    }
  }

  /**
    As written, a three-channel buffer of at most one pixel is read like its widened form.
    With no pixel the loop reads nothing. With one pixel it reads red, green and blue at
    indices 0 to 2 and alpha at index 3, one past the end. `undefined === 0` is false, so
    the pixel is emitted with the colour of its three bytes, as an opaque sample would be.
   */
  lemma SmallRgbAsWritten(buf: Buffer)
    requires WellSized(buf) && buf.channels == 3 && Area(buf.width, buf.height) <= 1
    ensures Area(buf.width, buf.height) == 0 ==> ImagePixels(ToRgba(buf), buf.height) == []
    ensures Area(buf.width, buf.height) == 1 ==>
      && buf.width == 1 && buf.height == 1
      && Offset(1, 0, 0) + 3 == |buf.raw|
      && ImagePixels(ToRgba(buf), buf.height) == [Pixel(0, 0, RgbToHex(buf.raw[0], buf.raw[1], buf.raw[2]))]
  {
    var img := ToRgba(buf);
    if Area(buf.width, buf.height) == 1 {
      AreaPositive(buf.width, buf.height);
      assert Area(buf.width, buf.height) == Area(buf.width, buf.height - 1) + buf.width;
      assert buf.width == 1;
      AreaIsProduct(1, buf.height);
      RgbSampleOpaque(buf, 0, 0);
      assert ImagePixels(img, 1) == ImagePixels(img, 0) + RowPixels(img, 0, 1);
      assert RowPixels(img, 0, 1) == RowPixels(img, 0, 0) + Emit(img, 0, 0);
    }
  }
}
