/**
 * `save_frames` of dataset-gridding.py: the occupied cells of the chosen
 * grid, in scan order, cropped and numbered until `frame_count` of them
 * have been saved.
 */
module FrameExtraction {
  import opened ImageModel
  import opened CellGeometry
  import opened Occupancy
  import opened GridSelection

  /**
   * The file a frame is written to: `frame_{i}.png` for the i-th saved
   * occupied frame, `frame_{row}_{col}.png` for the cell at (row, col).
   */
  datatype FrameName = Numbered(index: nat) | AtCell(row: nat, col: nat)

  /** One written frame: its file name and the pixels of its crop. */
  datatype SavedFrame = SavedFrame(name: FrameName, pixels: Raster)

  /**
   * `save_frames`: scans the cells row by row; each inner loop breaks once
   * `frame_count` frames have been saved, and every occupied cell met before
   * that is cropped and saved as `frame_{valid_frames}`. Returns the number
   * saved and the frames in the order they are written.
   */
  method SaveFrames(img: Image, rows: nat, cols: nat, frameCount: int, background: Pixel, threshold: int)
    returns (validFrames: nat, saved: seq<SavedFrame>)
    requires img.Valid() && rows > 0 && cols > 0 && |background| == img.channels
    ensures validFrames == |saved|
    ensures validFrames == Capped(|OccupiedCells(Scan(img, rows, cols, background, threshold))|, frameCount)
    ensures forall i :: 0 <= i < |saved| ==>
      var p := OccupiedCells(Scan(img, rows, cols, background, threshold))[i];
      && saved[i].name == Numbered(i)
      && InGrid(p, rows, cols)
      && saved[i].pixels == CellPixels(Scan(img, rows, cols, background, threshold), p)
  {
    var scan := Scan(img, rows, cols, background, threshold);
    var kept;
    validFrames, kept := ScanFirstCells(OccupancyTest(scan), rows, cols, frameCount);
    OccupiedCellsSpec(scan);
    saved := seq(|kept|, i requires 0 <= i < |kept| =>
      SavedFrame(Numbered(i), CellPixels(scan, kept[i])));
  }

  /**
   * Every saved frame is an occupied cell of the grid, and the frames come
   * in strictly increasing row-major order of their cells.
   */
  lemma SavedFramesAreOccupied(img: Image, rows: nat, cols: nat, frameCount: int, background: Pixel, threshold: int,
                               i: nat, j: nat)
    requires img.Valid() && rows > 0 && cols > 0 && |background| == img.channels
    requires i < j < Capped(|OccupiedCells(Scan(img, rows, cols, background, threshold))|, frameCount)
    ensures var scan := Scan(img, rows, cols, background, threshold);
      var cells := OccupiedCells(scan);
      && InGrid(cells[i], rows, cols) && IsOccupied(scan, cells[i])
      && InGrid(cells[j], rows, cols) && IsOccupied(scan, cells[j])
      && Before(cells[i], cells[j])
  {
    var scan := Scan(img, rows, cols, background, threshold);
    OccupiedCellsSpec(scan);
  }

  /**
   * With the grid and frame count `detect_grid` chose from its catalog, the
   * background of the top-left pixel and the default threshold,
   * `save_frames` saves exactly `frame_count` frames: the limit is never
   * what stops it short.
   */
  lemma SavesEveryDetectedFrame(img: Image)
    requires img.Valid()
    ensures var g := ChosenGrid(SheetOccupancy(img));
      g != SingleCell ==>
        && g.rows > 0 && g.cols > 0
        && Capped(|OccupiedCells(Scan(img, g.rows, g.cols, BackgroundColor(img), DefaultThreshold))|, g.frameCount)
           == g.frameCount
  {
    var occupancy := SheetOccupancy(img);
    var g := ChosenGrid(occupancy);
    ChosenGridSpec(occupancy);
    CatalogShapesValid();
    if g != SingleCell {
      var k :| 0 <= k < |Catalog| && Selected(occupancy, k) &&
        Catalog[k] == Shape(g.rows, g.cols) && g.frameCount == FrameCount(occupancy, Catalog[k]);
      var shape := Catalog[k];
      assert occupancy(shape) == OccupiedCells(SheetScan(img, shape));
    }
  }
}
