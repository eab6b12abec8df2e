/**
 * The background sample and the occupancy scan of dataset-gridding.py
 * (`get_background_color` and `count_occupied_frames`).
 */
module Occupancy {
  import opened ImageModel
  import opened CellGeometry

  /** The default `threshold` of `count_occupied_frames` and `save_frames`. */
  const DefaultThreshold: int := 10

  /** `get_background_color`: the top-left pixel is taken to be background. */
  function BackgroundColor(img: Image): (bg: Pixel)
    requires img.Valid()
    ensures |bg| == img.channels
    ensures bg == img.pixels[0][0]
  {
    img.pixels[0][0]
  }

  /** The inputs of one occupancy scan: image, grid shape, background colour and threshold. */
  datatype Scan = Scan(img: Image, rows: nat, cols: nat, background: Pixel, threshold: int) {

    ghost predicate Valid() {
      img.Valid() && rows > 0 && cols > 0 && |background| == img.channels
    }
  }

  /** The crop box of cell `p` in the scan's grid. */
  function ScanBox(scan: Scan, p: Pos): Box
    requires scan.Valid()
  {
    CellBox(scan.img.width, scan.img.height, scan.rows, scan.cols, p)
  }

  /** The pixels of cell `p`: `image.crop((left, top, right, bottom))`. */
  function CellPixels(scan: Scan, p: Pos): Raster
    requires scan.Valid() && InGrid(p, scan.rows, scan.cols)
  {
    Crop(scan.img, ScanBox(scan, p))
  }

  /** A cell is `height // rows` rows of `width // cols` pixels with the background's channel count. */
  lemma CellPixelsShape(scan: Scan, p: Pos)
    requires scan.Valid() && InGrid(p, scan.rows, scan.cols)
    ensures ChannelsMatch(CellPixels(scan, p), scan.background)
    ensures RowsOfWidth(CellPixels(scan, p), scan.img.width / scan.cols)
    ensures |CellPixels(scan, p)| == scan.img.height / scan.rows
  {
    CropFacts(scan.img, ScanBox(scan, p));
  }

  /** How many values `np.mean` averages over one cell: its pixels times the channels. */
  function CellElements(scan: Scan): nat
    requires scan.Valid()
  {
    (scan.img.height / scan.rows) * (scan.img.width / scan.cols) * scan.img.channels
  }

  /**
   * `np.mean(np.abs(frame_array - background_color)) > threshold`, with the
   * mean's division moved to the other side of the comparison and the sum
   * taken over the cell's box in the image.
   */
  predicate IsOccupied(scan: Scan, p: Pos)
    requires scan.Valid() && InGrid(p, scan.rows, scan.cols)
  {
    RegionDiff(scan.img, ScanBox(scan, p), scan.background) > scan.threshold * CellElements(scan)
  }

  /**
   * The integer test is the mean test: a cell is occupied exactly when its mean
   * difference is strictly above the threshold (so a mean equal to the threshold
   * is not occupied), and a cell with no pixels, whose mean numpy reports as
   * NaN, is never occupied.
   */
  lemma OccupiedIffMeanAboveThreshold(scan: Scan, p: Pos)
    requires scan.Valid() && InGrid(p, scan.rows, scan.cols)
    ensures CellElements(scan) > 0 ==>
      (IsOccupied(scan, p) <==>
        (RasterDiff(CellPixels(scan, p), scan.background) as real) / (CellElements(scan) as real)
          > scan.threshold as real)
    ensures CellElements(scan) == 0 ==> !IsOccupied(scan, p)
  {
    CellPixelsShape(scan, p);
    RegionDiffIsCropDiff(scan.img, ScanBox(scan, p), scan.background);
    var region := CellPixels(scan, p);
    var sum := RasterDiff(region, scan.background);
    var n := CellElements(scan);
    var fw, fh, c := scan.img.width / scan.cols, scan.img.height / scan.rows, scan.img.channels;
    if n > 0 {
      MeanAbove(sum, n, scan.threshold);
    } else {
      RasterDiffBound(region, scan.background, fw);
      assert fh == 0 || fw == 0 by {
        if fh != 0 && fw != 0 {
          PositiveProduct(fh, fw, c);
        }
      }
      assert 255 * c * fw * fh == 0;
    }
  }

  lemma MeanAbove(sum: nat, n: nat, t: int)
    requires n > 0
    ensures sum > t * n <==> (sum as real) / (n as real) > t as real
  {
    var mean := (sum as real) / (n as real);
    assert mean * (n as real) == sum as real;
    assert (t * n) as real == (t as real) * (n as real);
  }

  lemma PositiveProduct(a: nat, b: nat, c: nat)
    requires a > 0 && b > 0 && c > 0
    ensures a * b * c > 0
  {
  }

  /** The occupancy test as the scan applies it to the cells of its grid. */
  function OccupancyTest(scan: Scan): Pos -> bool
    requires scan.Valid()
  {
    p => InGrid(p, scan.rows, scan.cols) && IsOccupied(scan, p)
  }

  /** The `frame_positions` list of `count_occupied_frames`: the occupied cells in scan order. */
  function OccupiedCells(scan: Scan): seq<Pos>
    requires scan.Valid()
  {
    KeptInRows(OccupancyTest(scan), scan.cols, scan.rows)
  }

  /**
   * What `count_occupied_frames` promises of `frame_positions`: the positions
   * lie in the grid, each is occupied, every occupied cell is listed, and the
   * list is in strictly increasing row-major order, so it has no duplicates.
   */
  lemma OccupiedCellsSpec(scan: Scan)
    requires scan.Valid()
    ensures |OccupiedCells(scan)| <= scan.rows * scan.cols
    ensures forall i :: 0 <= i < |OccupiedCells(scan)| ==>
      InGrid(OccupiedCells(scan)[i], scan.rows, scan.cols) && IsOccupied(scan, OccupiedCells(scan)[i])
    ensures forall p: Pos :: InGrid(p, scan.rows, scan.cols) && IsOccupied(scan, p) ==> p in OccupiedCells(scan)
    ensures forall i, j :: 0 <= i < j < |OccupiedCells(scan)| ==>
      Before(OccupiedCells(scan)[i], OccupiedCells(scan)[j])
    ensures forall i, j :: 0 <= i < j < |OccupiedCells(scan)| ==>
      OccupiedCells(scan)[i] != OccupiedCells(scan)[j]
  {
    var keep := OccupancyTest(scan);
    KeptInRowsFacts(keep, scan.rows, scan.cols, scan.rows);
    forall p: Pos | InGrid(p, scan.rows, scan.cols) && IsOccupied(scan, p)
      ensures p in OccupiedCells(scan)
    {
      assert keep(p);
    }
  }

  /**
   * `count_occupied_frames`: scans the cells row by row with the occupancy
   * test and lists the occupied ones; the count it returns is the length of
   * that list.
   */
  method CountOccupiedFrames(img: Image, rows: nat, cols: nat, background: Pixel, threshold: int)
    returns (occupiedFrames: nat, framePositions: seq<Pos>)
    requires img.Valid() && rows > 0 && cols > 0 && |background| == img.channels
    ensures framePositions == OccupiedCells(Scan(img, rows, cols, background, threshold))
    ensures occupiedFrames == |framePositions|
  {
    var scan := Scan(img, rows, cols, background, threshold);
    occupiedFrames, framePositions := ScanCells(OccupancyTest(scan), rows, cols);
  }

  /**
   * On a sheet whose every pixel equals the top-left one, no cell of any grid
   * is occupied when the threshold is not negative.
   */
  lemma UniformSheetHasNoOccupiedCells(scan: Scan)
    requires scan.Valid() && scan.threshold >= 0
    requires scan.background == BackgroundColor(scan.img)
    requires forall y, x :: 0 <= y < scan.img.height && 0 <= x < scan.img.width ==>
      scan.img.pixels[y][x] == scan.img.pixels[0][0]
    ensures OccupiedCells(scan) == []
  {
    var keep := OccupancyTest(scan);
    forall p: Pos | InGrid(p, scan.rows, scan.cols)
      ensures !keep(p)
    {
      UniformCellIsEmpty(scan, p);
    }
    KeptInRowsNone(keep, scan.rows, scan.cols, scan.rows);
  }

  /** A cell of a single-coloured sheet differs nowhere from the background. */
  lemma UniformCellIsEmpty(scan: Scan, p: Pos)
    requires scan.Valid() && scan.threshold >= 0 && InGrid(p, scan.rows, scan.cols)
    requires scan.background == BackgroundColor(scan.img)
    requires forall y, x :: 0 <= y < scan.img.height && 0 <= x < scan.img.width ==>
      scan.img.pixels[y][x] == scan.img.pixels[0][0]
    ensures !IsOccupied(scan, p)
  {
    CellPixelsShape(scan, p);
    var region := CellPixels(scan, p);
    var box := ScanBox(scan, p);
    RegionDiffIsCropDiff(scan.img, box, scan.background);
    CropFacts(scan.img, box);
    forall y, x | 0 <= y < |region| && 0 <= x < |region[y]|
      ensures region[y][x] == scan.background
    {
      assert region[y][x] == scan.img.pixels[box.top + y][box.left + x];
    }
    RasterDiffZero(region, scan.background);
    NonNegativeProduct(scan.threshold, CellElements(scan));
  }

  lemma NonNegativeProduct(a: int, b: nat)
    requires a >= 0
    ensures a * b >= 0
  {
  }
}
