/** Pixel data as PIL and numpy hand it to the sprite-sheet gridding code. */
module ImageModel {

  /** One uint8 channel value. */
  type Byte = x: int | 0 <= x < 256

  /** A pixel: one value per channel (3 for RGB, 4 for RGBA, 1 for grayscale). */
  type Pixel = seq<Byte>

  /** A block of pixels indexed [y][x], the way numpy indexes the array of an image. */
  type Raster = seq<seq<Pixel>>

  /** A crop box as PIL takes it: left and top inclusive, right and bottom exclusive. */
  datatype Box = Box(left: int, top: int, right: int, bottom: int) {

    predicate Inside(width: int, height: int) {
      0 <= left <= right <= width && 0 <= top <= bottom <= height
    }

    predicate Contains(x: int, y: int) {
      left <= x < right && top <= y < bottom
    }
  }

  /** An image of `width` x `height` pixels, each of `channels` channels. */
  datatype Image = Image(width: nat, height: nat, channels: nat, pixels: Raster) {

    ghost predicate Valid() {
      && width > 0 && height > 0 && channels > 0
      && |pixels| == height
      && (forall y :: 0 <= y < height ==> |pixels[y]| == width)
      && (forall y, x :: 0 <= y < height && 0 <= x < width ==> |pixels[y][x]| == channels)
    }
  }

  /** Every pixel of `region` has as many channels as `bg`. */
  ghost predicate ChannelsMatch(region: Raster, bg: Pixel) {
    forall y, x :: 0 <= y < |region| && 0 <= x < |region[y]| ==> |region[y][x]| == |bg|
  }

  /** Every row of `region` is `w` pixels long. */
  ghost predicate RowsOfWidth(region: Raster, w: nat) {
    forall y :: 0 <= y < |region| ==> |region[y]| == w
  }

  /** `Image.crop(box)` for a box inside the image: the pixels the box covers. */
  function Crop(img: Image, box: Box): Raster
    requires img.Valid() && box.Inside(img.width, img.height)
  {
    seq(box.bottom - box.top, y requires 0 <= y < box.bottom - box.top =>
      img.pixels[box.top + y][box.left..box.right])
  }

  /**
   * A crop is `bottom - top` rows of `right - left` pixels of the image's
   * channel count, and its pixel (y, x) is the image's pixel (top + y, left + x).
   */
  lemma CropFacts(img: Image, box: Box)
    requires img.Valid() && box.Inside(img.width, img.height)
    ensures |Crop(img, box)| == box.bottom - box.top
    ensures RowsOfWidth(Crop(img, box), box.right - box.left)
    ensures forall y, x :: 0 <= y < |Crop(img, box)| && 0 <= x < |Crop(img, box)[y]| ==>
              |Crop(img, box)[y][x]| == img.channels
    ensures forall y, x :: 0 <= y < box.bottom - box.top && 0 <= x < box.right - box.left ==>
              Crop(img, box)[y][x] == img.pixels[box.top + y][box.left + x]
  {
  }

  /**
   * One channel of `frame_array - background_color` on uint8 arrays: numpy
   * wraps the difference modulo 256, so the `np.abs` applied to it changes nothing.
   */
  function ChannelDiff(p: Byte, b: Byte): (d: Byte)
    ensures p >= b ==> d == p - b
    ensures p < b ==> d == p - b + 256
  {
    (p - b) % 256
  }

  /** Sum over the channels of one pixel of its wrapped difference from `bg`. */
  function PixelDiff(p: Pixel, bg: Pixel): (d: nat)
    requires |p| == |bg|
    ensures d <= 255 * |p|
    ensures d == 0 <==> p == bg
    decreases |p|
  {
    if |p| == 0 then 0
    else
      assert p == [p[0]] + p[1..] && bg == [bg[0]] + bg[1..];
      ChannelDiff(p[0], bg[0]) + PixelDiff(p[1..], bg[1..])
  }

  /** Sum of the wrapped differences over one row of pixels. */
  function RowDiff(row: seq<Pixel>, bg: Pixel): (d: nat)
    requires forall x :: 0 <= x < |row| ==> |row[x]| == |bg|
    ensures d <= 255 * |bg| * |row|
    decreases |row|
  {
    if |row| == 0 then 0
    else
      var rest := RowDiff(row[1..], bg);
      assert 255 * |bg| * |row| == 255 * |bg| + 255 * |bg| * (|row| - 1);
      PixelDiff(row[0], bg) + rest
  }

  /** A row sums to zero exactly when every pixel of it equals `bg`. */
  lemma {:induction false} RowDiffZero(row: seq<Pixel>, bg: Pixel)
    requires forall x :: 0 <= x < |row| ==> |row[x]| == |bg|
    ensures RowDiff(row, bg) == 0 <==> forall x :: 0 <= x < |row| ==> row[x] == bg
    decreases |row|
  {
    if |row| > 0 {
      RowDiffZero(row[1..], bg);
      assert forall x :: 1 <= x < |row| ==> row[x] == row[1..][x - 1];
    }
  }

  /**
   * The sum of `np.abs(frame_array - background_color)` over a whole region:
   * what `np.mean` divides by the number of elements.
   */
  function RasterDiff(region: Raster, bg: Pixel): (d: nat)
    requires ChannelsMatch(region, bg)
    decreases |region|
  {
    if |region| == 0 then 0
    else
      assert forall y :: 1 <= y < |region| ==> region[y] == region[1..][y - 1];
      RowDiff(region[0], bg) + RasterDiff(region[1..], bg)
  }

  /** A region sums to zero exactly when every pixel of it equals `bg`. */
  lemma {:induction false} RasterDiffZero(region: Raster, bg: Pixel)
    requires ChannelsMatch(region, bg)
    ensures RasterDiff(region, bg) == 0 <==>
      forall y, x :: 0 <= y < |region| && 0 <= x < |region[y]| ==> region[y][x] == bg
    decreases |region|
  {
    if |region| > 0 {
      assert forall y :: 1 <= y < |region| ==> region[y] == region[1..][y - 1];
      RowDiffZero(region[0], bg);
      RasterDiffZero(region[1..], bg);
    }
  }

  /**
   * The same sum taken straight from the image, row by row over the box,
   * without building the crop.
   */
  function RegionDiff(img: Image, box: Box, bg: Pixel): nat
    requires img.Valid() && box.Inside(img.width, img.height) && |bg| == img.channels
    decreases box.bottom - box.top
  {
    if box.top == box.bottom then 0
    else
      RowDiff(img.pixels[box.top][box.left..box.right], bg) +
      RegionDiff(img, Box(box.left, box.top + 1, box.right, box.bottom), bg)
  }

  /** A crop's first row is the box's top row and the rest is the crop one row lower. */
  lemma CropSplit(img: Image, box: Box)
    requires img.Valid() && box.Inside(img.width, img.height) && box.top < box.bottom
    ensures Crop(img, box)[0] == img.pixels[box.top][box.left..box.right]
    ensures Crop(img, box)[1..] == Crop(img, Box(box.left, box.top + 1, box.right, box.bottom))
  {
  }

  /** Summing the box's rows in place is summing the crop. */
  lemma {:induction false} RegionDiffIsCropDiff(img: Image, box: Box, bg: Pixel)
    requires img.Valid() && box.Inside(img.width, img.height) && |bg| == img.channels
    ensures ChannelsMatch(Crop(img, box), bg)
    ensures RegionDiff(img, box, bg) == RasterDiff(Crop(img, box), bg)
    decreases box.bottom - box.top
  {
    CropFacts(img, box);
    if box.top < box.bottom {
      CropSplit(img, box);
      RegionDiffIsCropDiff(img, Box(box.left, box.top + 1, box.right, box.bottom), bg);
    }
  }

  /** The mean difference lies within 0..255: the sum is at most 255 per element. */
  lemma {:induction false} RasterDiffBound(region: Raster, bg: Pixel, w: nat)
    requires ChannelsMatch(region, bg) && RowsOfWidth(region, w)
    ensures RasterDiff(region, bg) <= 255 * |bg| * w * |region|
    decreases |region|
  {
    if |region| > 0 {
      var tail := region[1..];
      assert ChannelsMatch(tail, bg) && RowsOfWidth(tail, w) by {
        assert forall y :: 0 <= y < |tail| ==> tail[y] == region[y + 1];
      }
      RasterDiffBound(tail, bg, w);
      var k := 255 * |bg| * w;
      assert RowDiff(region[0], bg) <= k;
      MulSucc(k, |tail|);
    }
  }

  lemma MulSucc(k: int, n: int)
    ensures k * (n + 1) == k + k * n
  {
  }
}
