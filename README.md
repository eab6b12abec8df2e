# Sprite-sheet grid inference, modelled in Dafny

This project models the grid-inference core of two Python scripts that cut
1024 x 1024 sprite sheets into animation frames.

`dataset-gridding.py` has four parts:

- `get_background_color` takes the top-left pixel as the background.
- `count_occupied_frames` cuts the sheet into `rows x cols` equal cells by
  floor division. It scans the cells row by row and lists those whose mean
  per-channel difference from the background is strictly above a threshold.
- `detect_grid` scores five catalog grids by occupied count plus
  continuity. It keeps the first strictly best grid with 4..25 occupied
  cells, and falls back to `(1, 1, 1)` otherwise.
- `save_frames` scans again and numbers the occupied cells until
  `frame_count` of them are saved.

`dataset-testing.py` has a line-based variant. Its `detect_grid` counts
the nearly horizontal and nearly vertical segments from a line detector and
adds one to each count. Its `save_frames` writes every cell of that grid
under its (row, col) name.

Modules, one per part of the system:

- `ImageModel` (`image.dfy`) holds the image, crop boxes and crops.
  - The per-channel difference is the uint8 one: numpy wraps
    `frame_array - background_color` modulo 256, so the `np.abs` after it
    changes nothing.
  - The sums of those differences over a cell are defined here too.
- `CellGeometry` (`geometry.dfy`) holds the floor-division cell partition
  shared by both scripts.
  - Its lemmas show the cells lie inside the image, are pairwise disjoint
    and cover `[0, cols*fw) x [0, rows*fh)`.
  - It has the row-major scan twice: `ScanCells` runs to the end, and
    `ScanFirstCells` breaks each inner loop once a limit is reached.
    Both take the cell test as a parameter.
- `Occupancy` (`occupancy.dfy`) holds `get_background_color` and
  `count_occupied_frames`.
  - `np.mean(...) > threshold` becomes the exact integer test
    `sum > threshold * elements`. A lemma proves it equal to the test on
    the exact (real-valued) mean. That numpy's float64 mean gives the same
    verdict is argued under "## Left out", not proved.
- `GridSelection` (`selection.dfy`) holds `detect_grid`: the catalog, the
  continuity score and the exact score `count + continuity / max(1, count)`
  (a Dafny `real`), plus the first-strict-maximum selection.
  - The selection theory is stated for any map from shapes to occupied
    cells and applied to the sheet's own.
- `FrameExtraction` (`frames.dfy`) holds `save_frames` of
  `dataset-gridding.py`.
- `LineGrid` (`linegrid.dfy`) holds `detect_grid` and `save_frames` of
  `dataset-testing.py`.
- `AbsoluteDifference` (`absdiff.dfy`) compares the wrapped difference
  with the absolute difference `abs(p - b)` for the finding below. The rest of
  the model keeps the wrapped difference, because that is what the program
  computes.

Saving a frame is modelled as appending a `SavedFrame` to the returned
sequence. It records the file name, `Numbered(i)` for `frame_{i}.png` or
`AtCell(row, col)` for `frame_{row}_{col}.png`, and the cropped pixels.

## Model

| member | source | states |
|---|---|---|
| ImageModel.ChannelDiff | dataset-gridding.py:37 | One channel of `frame_array - background_color` on uint8: `p - b` when `p >= b`, `p - b + 256` when it wraps. |
| ImageModel.PixelDiff | dataset-gridding.py:37 | A pixel's summed channel difference is at most 255 per channel, and zero exactly when the pixel equals the background. |
| ImageModel.RowDiffZero | dataset-gridding.py:37 | A row's summed difference is zero exactly when every pixel in it equals the background. |
| ImageModel.RasterDiffZero | dataset-gridding.py:37 | A region's summed difference is zero exactly when every pixel in it equals the background. |
| ImageModel.RasterDiffBound | dataset-gridding.py:37 | The summed difference is at most 255 x channels x pixels, so the mean lies in 0..255. |
| ImageModel.CropFacts | dataset-gridding.py:29-33 | `image.crop((left, top, right, bottom))` is `bottom - top` rows of `right - left` pixels, and crop pixel (y, x) is image pixel (top + y, left + x). |
| ImageModel.RegionDiffIsCropDiff | dataset-gridding.py:33-37 | Summing differences over the box straight in the image equals summing them over the crop. |
| CellGeometry.CellBox | dataset-gridding.py:20-32 | Every cell box is `W // cols` wide and `H // rows` high, and a cell of the grid lies inside the image. |
| CellGeometry.CellOfPoint | dataset-gridding.py:20-32 | A point in cell (row, col) lies in `[0, cols*fw) x [0, rows*fh)`, and floor-dividing its coordinates by the cell size gives back (row, col). |
| CellGeometry.PointInCell | dataset-gridding.py:20-32 | Every point of `[0, cols*fw) x [0, rows*fh)` lies in some cell of the grid. |
| CellGeometry.CellsDisjoint | dataset-gridding.py:20-32 | Two different cells share no pixel. |
| CellGeometry.DroppedMargin | dataset-gridding.py:21-22 | Floor division drops fewer than `cols` columns and fewer than `rows` rows of pixels. |
| CellGeometry.CellIndexRoundTrip | dataset-gridding.py:27-28 | Numbering a cell by its step in the row-major scan and looking the step up again gives back the cell; the number is below `rows*cols`. |
| CellGeometry.CellAtRoundTrip | dataset-gridding.py:27-28 | Every step below `rows*cols` visits a cell of the grid, and that cell's number is the step. |
| CellGeometry.BeforeIsIndexOrder | dataset-gridding.py:27-28 | Row-major order of two cells is the order of their scan numbers. |
| CellGeometry.KeptInRowsFacts | dataset-gridding.py:27-40 | The row-major scan lists exactly the accepted cells of the grid, each in the grid, at most `rows*cols` of them, in strictly increasing row-major order. |
| CellGeometry.KeptInRowsNone | dataset-gridding.py:27-40 | A scan that accepts no cell of the grid lists nothing. |
| CellGeometry.ScanCells | dataset-gridding.py:24-42 | The nested row/column loop that counts and appends accepted cells ends with the full row-major list, and its count is that list's length. |
| CellGeometry.Capped | dataset-gridding.py:92-96 | The number a scan that stops at `limit` takes from `n`: at most `n`, at most a non-negative `limit`, all `n` when `limit >= n`, none when `limit <= 0`. |
| CellGeometry.FirstOf | dataset-gridding.py:92-96 | The first `Capped(n, limit)` entries: a prefix of the list of that length. |
| CellGeometry.FirstOfSettled | dataset-gridding.py:95-96 | Once `limit` entries are taken, scanning further changes nothing. This is why breaking only the inner loop is enough. |
| CellGeometry.ScanFirstCells | dataset-gridding.py:92-107 | The nested loop whose inner loop breaks once `valid_frames >= frame_count` takes exactly the first `Capped(n, frame_count)` accepted cells of the full scan. |
| Occupancy.BackgroundColor | dataset-gridding.py:12-16 | The background is exactly the pixel at (0, 0), with the image's channel count. |
| Occupancy.CellPixelsShape | dataset-gridding.py:20-34 | A cell's array is `H // rows` rows of `W // cols` pixels with the background's channel count. |
| Occupancy.OccupiedIffMeanAboveThreshold | dataset-gridding.py:37-38 | The integer test holds exactly when the mean difference is strictly greater than `threshold`, so a mean equal to it is not occupied; an empty cell is never occupied. |
| Occupancy.OccupiedCellsSpec | dataset-gridding.py:27-40 | `frame_positions` lie in the grid and are occupied. Every occupied cell is listed. The list is strictly increasing in row-major order, so it has no duplicates, and it has at most `rows*cols` entries. |
| Occupancy.CountOccupiedFrames | dataset-gridding.py:19-42 | `count_occupied_frames` returns the occupied cells in scan order, and a count equal to their number. |
| Occupancy.UniformSheetHasNoOccupiedCells | dataset-gridding.py:27-40 | On a sheet whose every pixel equals the top-left one, no cell of any grid is occupied (threshold >= 0). |
| Occupancy.UniformCellIsEmpty | dataset-gridding.py:33-38 | Each cell of such a sheet has difference sum 0 and is not occupied. |
| GridSelection.CatalogShapesValid | dataset-gridding.py:55-61 | Every catalog grid has at least one row and one column, and none is 1 x 1. |
| GridSelection.ContinuityScore | dataset-gridding.py:71-73 | The continuity score is 0 for fewer than two positions and at most `count - 1`. |
| GridSelection.ContinuityFullIffAllAdjacent | dataset-gridding.py:71-73 | Continuity is `count - 1` exactly when every consecutive pair of positions is adjacent. |
| GridSelection.ContinuityZeroIffNoneAdjacent | dataset-gridding.py:71-73 | Continuity is 0 exactly when no consecutive pair is adjacent. |
| GridSelection.ScoreBounds | dataset-gridding.py:74 | The score lies in `[count, count + 1)`. |
| GridSelection.ScoreOrder | dataset-gridding.py:74-75 | One score beats another exactly when its count is higher, or the counts are equal and its continuity is higher. |
| GridSelection.MeasurementsUpToFacts | dataset-gridding.py:67-68 | Entry `j` of the loop's measurements is the count and score of catalog shape `j`. |
| GridSelection.LeadsUnique | dataset-gridding.py:75-78 | At most one entry is the first strict maximum among entries with a count in 4..25. |
| GridSelection.ChosenIsLeader | dataset-gridding.py:63-78 | The entry the loop keeps is the first strict maximum in range. It keeps none exactly when no count is in 4..25. |
| GridSelection.SelectedIffFirstBest | dataset-gridding.py:63-78 | The kept catalog grid is the one that qualifies, scores strictly above every earlier qualifying grid, and is not strictly beaten by any later one. |
| GridSelection.SelectedUnique | dataset-gridding.py:63-78 | At most one catalog grid is kept. |
| GridSelection.ChosenGridSpec | dataset-gridding.py:63-84 | The answer is `(1, 1, 1)` exactly when no catalog grid qualifies. Otherwise it is a kept catalog grid with its `count_occupied_frames` count, which lies in 4..25. |
| GridSelection.MeasureShape | dataset-gridding.py:68-74 | One shape's `frame_count` and `score`, computed from `count_occupied_frames` and the continuity; the score lies in `[count, count + 1)`. |
| GridSelection.VisitShape | dataset-gridding.py:67-78 | One pass of the catalog loop's body keeps `best_grid`, `best_frame_count` and `best_score` equal to the entry the first-strict-maximum rule picks. The initial best score of 0 never blocks a qualifying grid. |
| GridSelection.CatalogLoop | dataset-gridding.py:63-84 | The catalog loop and its fallback answer the grid `ChosenGridSpec` describes. |
| GridSelection.DetectGrid | dataset-gridding.py:45-84 | A sheet that is not 1024 x 1024 gives `(1, 1, 1)`; otherwise the answer is the catalog loop's choice. |
| GridSelection.UniformSheetQualifiesNowhere | dataset-gridding.py:45-84 | On a single-coloured sheet no catalog grid qualifies, and `detect_grid` falls back to `(1, 1, 1)`. |
| FrameExtraction.SaveFrames | dataset-gridding.py:87-109 | `save_frames` saves `min(frame_count, occupied)` frames (none when `frame_count <= 0`). The i-th is named `frame_{i}` and holds the crop of the i-th occupied cell in scan order; it returns that number. |
| FrameExtraction.SavedFramesAreOccupied | dataset-gridding.py:93-107 | Every saved frame is an occupied cell, and the saved frames are in strictly increasing row-major order. |
| FrameExtraction.SavesEveryDetectedFrame | dataset-gridding.py:68-84 | With the grid and `frame_count` that `detect_grid` chose from its catalog, the early stop never cuts `save_frames` short: exactly `frame_count` frames are saved. |
| LineGrid.ClassifiedSegments | dataset-testing.py:24-29 | A segment is in the horizontal list exactly when `abs(y1 - y2) < 10`. It is in the vertical list exactly when it is not horizontal and `abs(x1 - x2) < 10`. It is never in both, and together the lists hold at most as many segments as were reported. |
| LineGrid.ClassifySnoc | dataset-testing.py:26-29 | Classifying one more segment appends it to at most one list. |
| LineGrid.ClassifyLine | dataset-testing.py:25-29 | The inner loop over one line's segments extends both lists to the classification of everything seen so far. |
| LineGrid.DetectGridByLines | dataset-testing.py:21-33 | `rows` is the number of horizontal segments plus one, and `cols` the number of vertical segments plus one. |
| LineGrid.LineGridBounds | dataset-testing.py:31-33 | `rows + cols` is at most the number of segments plus 2; with no segments the grid is 1 x 1. |
| LineGrid.CellFrame | dataset-testing.py:44-49 | The frame written for a cell is named `AtCell(row, col)` and is `H // rows` rows of `W // cols` pixels. |
| LineGrid.SaveAllCells | dataset-testing.py:36-49 | Exactly `rows*cols` frames are written: the k-th is the cell at scan step k, and every cell of the grid is written at its scan number. |
| LineGrid.CellNamesDistinct | dataset-testing.py:49 | Different scan steps write different `frame_{row}_{col}` files. |

| AbsoluteDifference.WrappedAgreesWithAbsolute | dataset-gridding.py:37 | The wrapped channel difference equals `abs(p - b)` exactly when `p >= b` or `b - p == 128`. |
| AbsoluteDifference.WrappedBlackOnWhiteIsEmpty | dataset-gridding.py:37-38 | A non-empty cell of black pixels on a white background has a mean wrapped difference of exactly 1, so it is not occupied at the default threshold 10. |
| AbsoluteDifference.AbsPixelDiff | dataset-gridding.py:37 | The intended per-pixel absolute difference is at most 255 per channel, and zero exactly when the pixel equals the background. |
| AbsoluteDifference.AbsRasterDiffZero | dataset-gridding.py:37 | A region's absolute differences sum to zero exactly when every pixel equals the background. |
| AbsoluteDifference.AbsoluteBlackOnWhiteIsOccupied | dataset-gridding.py:37-38 | With the absolute difference the same black cell has a mean difference of 255 and is occupied. |
| AbsoluteDifference.BlackOnWhiteExample | dataset-gridding.py:37-38 | On a concrete one-pixel black sheet scanned as one cell against white, the cell is empty as written and occupied as intended. |

## Left out

- Dataset download (`download_dataset`), both `main` drivers, directory creation, the log file, the description lookup and every `print`: these are I/O and batch control, not grid inference.
- Writing PNG files: `frame.save` is modelled as appending the named crop to a returned sequence. Whether PIL can save a zero-sized crop is not modelled.
- `cv2.imread`, `cv2.Canny` and `cv2.HoughLinesP` are foreign code. The detected segments are an input: a sequence of lines, each a sequence of `(x1, y1, x2, y2)` segments. When OpenCV finds no line it returns `None`, and iterating it raises; that case is not part of this model. An empty sequence gives the 1 x 1 grid. The code has no fallback for that case, so none is modelled.
- `LineGrid.DetectGridByLines`: the segment coordinates are unbounded integers. OpenCV's 32-bit `abs(y1 - y2)` cannot overflow for coordinates inside an image.
- `Occupancy.IsOccupied`: `np.mean` is a float64 mean. The model uses the exact test `sum > threshold * elements`. The float mean of integer sums below 2^53 gives the same verdict, because a sum one above `threshold * elements` moves the mean by at least `1 / elements`, which is far more than rounding.
- `GridSelection.Score`: the float score is modelled as an exact `real`. With at most 25 cells, the fractional part is at most 24/25, and two continuities over the same count differ by at least 1/25. Float rounding therefore does not change any comparison the loop makes.
- `CellGeometry.ScanCells` and `CellGeometry.ScanFirstCells` take the cell test as a parameter. In the source the test is inlined in the loop body, and the crop of each cell is built inside the loop.
- `FrameExtraction.SaveFrames` lists the occupied cells first and crops them afterwards. The source crops every cell it visits before the limit is reached (dataset-gridding.py:101), tests the crop, and saves it only when it is occupied. The saved crops and their order are the same.
- `GridSelection.CatalogLoop` and `GridSelection.VisitShape` split the body of `detect_grid`'s loop into its own method. The source also skips the continuity computation when `frame_count == 0`; the model computes it and then fails the same `frame_count > 0` test.
- Image modes other than 8-bit channels (1-bit, 16-bit, float) are not modelled: pixels are sequences of 0..255 values with one channel count per image.
- `rows` and `cols` must be positive. The source divides by them and raises on zero; every caller passes positive values.
- matplotlib is imported by `dataset-testing.py` but never used.

## Findings

| source | as written | input that shows it | evidently intended | confidence | as-written member | corrected member |
|---|---|---|---|---|---|---|
| dataset-gridding.py:37 | `np.abs(frame_array - background_color)` on uint8 arrays: the subtraction wraps modulo 256 before `np.abs`, so a channel darker than the background by `d` counts as `256 - d` | a cell of black `[0, 0, 0]` pixels on a white `[255, 255, 255]` sheet: the mean difference is 1, the cell is not occupied at threshold 10, so black sprites on white are never found | the mean absolute difference `abs(p - b)`, which is 255 for that cell and marks it occupied | high, not executed | AbsoluteDifference.WrappedBlackOnWhiteIsEmpty, AbsoluteDifference.BlackOnWhiteExample | AbsoluteDifference.AbsoluteBlackOnWhiteIsOccupied |
