/**
 * The background difference of `count_occupied_frames` and `save_frames`
 * compared with the absolute difference it is meant to be. On uint8 arrays
 * `frame_array - background_color` wraps modulo 256 before `np.abs` sees it,
 * so a channel darker than the background by `d` counts as `256 - d`: black
 * content on a white sheet differs by 1 per channel, far below the default
 * threshold. The absolute difference `|p - b|` counts it as 255.
 */
module AbsoluteDifference {
  import opened ImageModel
  import opened CellGeometry
  import opened Occupancy

  const Black: Pixel := [0, 0, 0]
  const White: Pixel := [255, 255, 255]

  /** The intended per-channel difference: the distance between the two values. */
  function AbsChannelDiff(p: Byte, b: Byte): (d: Byte)
    ensures p >= b ==> d == p - b
    ensures p < b ==> d == b - p
  {
    if p >= b then p - b else b - p
  }

  /**
   * The wrapped difference agrees with the absolute one exactly when the
   * channel is not darker than the background, or darker by exactly 128.
   */
  lemma WrappedAgreesWithAbsolute(p: Byte, b: Byte)
    ensures ChannelDiff(p, b) == AbsChannelDiff(p, b) <==> p >= b || b - p == 128
  {
  }

  /** Sum over the channels of one pixel of its absolute difference from `bg`. */
  function AbsPixelDiff(p: Pixel, bg: Pixel): (d: nat)
    requires |p| == |bg|
    ensures d <= 255 * |p|
    ensures d == 0 <==> p == bg
    decreases |p|
  {
    if |p| == 0 then 0
    else
      assert p == [p[0]] + p[1..] && bg == [bg[0]] + bg[1..];
      AbsChannelDiff(p[0], bg[0]) + AbsPixelDiff(p[1..], bg[1..])
  }

  /** Sum of the absolute differences over one row of pixels. */
  function AbsRowDiff(row: seq<Pixel>, bg: Pixel): nat
    requires forall x :: 0 <= x < |row| ==> |row[x]| == |bg|
    decreases |row|
  {
    if |row| == 0 then 0 else AbsPixelDiff(row[0], bg) + AbsRowDiff(row[1..], bg)
  }

  /** Sum of the absolute differences over a whole region. */
  function AbsRasterDiff(region: Raster, bg: Pixel): nat
    requires ChannelsMatch(region, bg)
    decreases |region|
  {
    if |region| == 0 then 0
    else
      assert forall y :: 1 <= y < |region| ==> region[y] == region[1..][y - 1];
      AbsRowDiff(region[0], bg) + AbsRasterDiff(region[1..], bg)
  }

  /** The intended occupancy test: mean absolute difference strictly above the threshold. */
  predicate AbsIsOccupied(scan: Scan, p: Pos)
    requires scan.Valid() && InGrid(p, scan.rows, scan.cols)
  {
    CellPixelsShape(scan, p);
    AbsRasterDiff(CellPixels(scan, p), scan.background) > scan.threshold * CellElements(scan)
  }

  /** Every pixel of `region` is `q`. */
  ghost predicate AllPixels(region: Raster, q: Pixel) {
    forall y, x :: 0 <= y < |region| && 0 <= x < |region[y]| ==> region[y][x] == q
  }

  /** A row of `q` pixels sums to `|row|` times the wrapped difference of `q`. */
  lemma {:induction false} UniformRowDiff(row: seq<Pixel>, q: Pixel, bg: Pixel)
    requires |q| == |bg| && forall x :: 0 <= x < |row| ==> row[x] == q
    ensures RowDiff(row, bg) == PixelDiff(q, bg) * |row|
    decreases |row|
  {
    if |row| > 0 {
      UniformRowDiff(row[1..], q, bg);
      MulSucc(PixelDiff(q, bg), |row| - 1);
    }
  }

  /** A region of `q` pixels, `w` to a row, sums to `w * |region|` wrapped differences of `q`. */
  lemma {:induction false} UniformRasterDiff(region: Raster, q: Pixel, bg: Pixel, w: nat)
    requires |q| == |bg| && AllPixels(region, q) && RowsOfWidth(region, w)
    ensures ChannelsMatch(region, bg)
    ensures RasterDiff(region, bg) == PixelDiff(q, bg) * w * |region|
    decreases |region|
  {
    if |region| > 0 {
      var tail := region[1..];
      assert forall y :: 0 <= y < |tail| ==> tail[y] == region[y + 1];
      UniformRasterDiff(tail, q, bg, w);
      UniformRowDiff(region[0], q, bg);
      MulSucc(PixelDiff(q, bg) * w, |tail|);
    }
  }

  /** A row of `q` pixels sums to `|row|` times the absolute difference of `q`. */
  lemma {:induction false} AbsUniformRowDiff(row: seq<Pixel>, q: Pixel, bg: Pixel)
    requires |q| == |bg| && forall x :: 0 <= x < |row| ==> row[x] == q
    ensures AbsRowDiff(row, bg) == AbsPixelDiff(q, bg) * |row|
    decreases |row|
  {
    if |row| > 0 {
      AbsUniformRowDiff(row[1..], q, bg);
      MulSucc(AbsPixelDiff(q, bg), |row| - 1);
    }
  }

  /** A region of `q` pixels, `w` to a row, sums to `w * |region|` absolute differences of `q`. */
  lemma {:induction false} AbsUniformRasterDiff(region: Raster, q: Pixel, bg: Pixel, w: nat)
    requires |q| == |bg| && AllPixels(region, q) && RowsOfWidth(region, w)
    ensures ChannelsMatch(region, bg)
    ensures AbsRasterDiff(region, bg) == AbsPixelDiff(q, bg) * w * |region|
    decreases |region|
  {
    if |region| > 0 {
      var tail := region[1..];
      assert forall y :: 0 <= y < |tail| ==> tail[y] == region[y + 1];
      AbsUniformRasterDiff(tail, q, bg, w);
      AbsUniformRowDiff(region[0], q, bg);
      MulSucc(AbsPixelDiff(q, bg) * w, |tail|);
    }
  }

  /**
   * As written: a non-empty cell of black pixels on a white sheet has a mean
   * wrapped difference of exactly 1, so at the default threshold it is not
   * occupied.
   */
  lemma WrappedBlackOnWhiteIsEmpty(scan: Scan, p: Pos)
    requires scan.Valid() && InGrid(p, scan.rows, scan.cols) && CellElements(scan) > 0
    requires scan.background == White && scan.threshold == DefaultThreshold
    requires AllPixels(CellPixels(scan, p), Black)
    ensures RegionDiff(scan.img, ScanBox(scan, p), scan.background) == CellElements(scan)
    ensures !IsOccupied(scan, p)
  {
    var w, h := scan.img.width / scan.cols, scan.img.height / scan.rows;
    CellPixelsShape(scan, p);
    RegionDiffIsCropDiff(scan.img, ScanBox(scan, p), scan.background);
    BlackOnWhitePixel();
    UniformRasterDiff(CellPixels(scan, p), Black, White, w);
    CellCount(w, h);
  }

  /**
   * Corrected: with the absolute difference the same cell has a mean
   * difference of 255 and is occupied.
   */
  lemma AbsoluteBlackOnWhiteIsOccupied(scan: Scan, p: Pos)
    requires scan.Valid() && InGrid(p, scan.rows, scan.cols) && CellElements(scan) > 0
    requires scan.background == White && scan.threshold == DefaultThreshold
    requires AllPixels(CellPixels(scan, p), Black)
    ensures AbsRasterDiff(CellPixels(scan, p), scan.background) == 255 * CellElements(scan)
    ensures AbsIsOccupied(scan, p)
  {
    var w, h := scan.img.width / scan.cols, scan.img.height / scan.rows;
    CellPixelsShape(scan, p);
    BlackOnWhitePixel();
    AbsUniformRasterDiff(CellPixels(scan, p), Black, White, w);
    CellCount(w, h);
  }

  /**
   * The finding on a concrete input: a one-pixel black sheet scanned as one
   * cell against a white background is empty as written and occupied as
   * intended.
   */
  lemma BlackOnWhiteExample()
    ensures var scan := Scan(Image(1, 1, 3, [[Black]]), 1, 1, White, DefaultThreshold);
      scan.Valid() && !IsOccupied(scan, Pos(0, 0)) && AbsIsOccupied(scan, Pos(0, 0))
  {
    var scan := Scan(Image(1, 1, 3, [[Black]]), 1, 1, White, DefaultThreshold);
    assert CellElements(scan) == 3;
    CropFacts(scan.img, ScanBox(scan, Pos(0, 0)));
    WrappedBlackOnWhiteIsEmpty(scan, Pos(0, 0));
    AbsoluteBlackOnWhiteIsOccupied(scan, Pos(0, 0));
  }

  /** A black pixel differs from a white one by 1 per channel wrapped, by 255 absolutely. */
  lemma BlackOnWhitePixel()
    ensures PixelDiff(Black, White) == 3
    ensures AbsPixelDiff(Black, White) == 765
  {
    assert Black[1..] == [0, 0] && White[1..] == [255, 255];
    assert Black[1..][1..] == [0] && White[1..][1..] == [255];
  }

  lemma CellCount(w: nat, h: nat)
    ensures 3 * w * h == h * w * 3
    ensures 765 * w * h == 255 * (h * w * 3)
  {
  }

  /** A region's absolute differences sum to zero exactly when every pixel of it equals `bg`. */
  lemma {:induction false} AbsRasterDiffZero(region: Raster, bg: Pixel)
    requires ChannelsMatch(region, bg)
    ensures AbsRasterDiff(region, bg) == 0 <==> AllPixels(region, bg)
    decreases |region|
  {
    if |region| > 0 {
      assert forall y :: 1 <= y < |region| ==> region[y] == region[1..][y - 1];
      AbsRowDiffZero(region[0], bg);
      AbsRasterDiffZero(region[1..], bg);
    }
  }

  /** A row sums to zero exactly when every pixel of it equals `bg`. */
  lemma {:induction false} AbsRowDiffZero(row: seq<Pixel>, bg: Pixel)
    requires forall x :: 0 <= x < |row| ==> |row[x]| == |bg|
    ensures AbsRowDiff(row, bg) == 0 <==> forall x :: 0 <= x < |row| ==> row[x] == bg
    decreases |row|
  {
    if |row| > 0 {
      AbsRowDiffZero(row[1..], bg);
      assert forall x :: 1 <= x < |row| ==> row[x] == row[1..][x - 1];
    }
  }
}
