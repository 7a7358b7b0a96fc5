# Per-cell fluorescence traces from a time-lapse video

The script `src/segmentation.py` measures the fluorescence of individual
cells over a microscopy video. It works in three stages:

1. It scans every frame once and keeps the brightest one as the
   reference. Brightest means the highest mean pixel value; on a tie the
   first such frame wins.
2. It asks a segmentation model for one label mask of the reference frame.
   In the mask, 0 is background and every other value names a cell. It then
   replays the video and, for every processed frame, does the following:
   - applies that one mask;
   - writes the binary mask image `mask_NNNN.png` and the contour overlay
     `frame_NNNN.png`;
   - appends each cell's mean intensity to that cell's list in a
     dictionary. Before appending, it back-fills the list with NaN
     ("missing") up to the current frame index.
3. After the loop, or after a cooperative stop request, it pads every list
   to the number of processed frames. It then writes a CSV file. The header
   is `cell_id, frame_0, ..., frame_{n-1}`, and there is one row per cell,
   in the dictionary's insertion order.

This project models those three stages and proves what they promise. The
modules are:

- `Intensity` holds the pixel grids and the per-cell operations:
  - `np.unique`;
  - boolean-mask selection;
  - the mean;
  - the `(mask > 0) * 255` image.
- `Naming` holds the decimal rendering and `{n:04d}` zero-padding used in
  file and column names.
- `ReferenceFrame` holds the brightness scan, written as a loop.
- `Fluorescence` holds the dictionary of lists as the class
  `FluorescenceTable`. Its methods update the table in place:
  - `ProcessFrame` is one iteration of the frame loop;
  - `Export` is the padding loop and the row construction.

  The class's invariant says that, after any number of frames, each list
  matches the frame history. Entry `j` of a cell's list is its mean at
  frame `j` when the mask contains that cell, and "missing" otherwise. The
  keys are the labels seen, in order of first appearance.
- `CsvExport` holds the header, the row dictionaries and the order in
  which a dictionary writer lays a row out.
- `Pipeline.Run` puts the stages together. The segmentation model and the
  stop request are function parameters.

NaN appears in two roles, and the model handles each differently:
- The "missing" marker is the constructor `Intensity.Entry.Missing`.
- For brightness, numpy's mean of an empty frame is NaN, and NaN never
  compares greater than the running maximum. `Pipeline.FrameBrightness`
  uses -1.0 for such a frame, which behaves the same in the strict `>`
  test.

Two details of the code are easy to misread:
- A frame with no cells leaves the other cells' lists alone. The missing
  entry for that frame is added only later: by the back-fill when the cell
  reappears, or by the export padding. The final table is the same either
  way.
- The "no cells" warning fires when `np.unique` returns at most one value,
  and that count includes the background.

## Model

| member | source | states |
|---|---|---|
| ReferenceFrame.SelectReference | src/segmentation.py:89-117 | No reference frame exactly when no brightness exceeds the initial -1; otherwise the returned index holds the maximum brightness and every earlier frame is strictly darker, so later ties never replace it |
| ReferenceFrame.NonNegativeScanFindsReference | src/segmentation.py:89-104 | Any non-empty scan whose brightnesses are all non-negative cannot end with no reference frame |
| ReferenceFrame.TieKeepsFirst | src/segmentation.py:102-104 | For brightnesses 10, 55, 30, 55 the first 55 (index 1) is the first maximum and the later tie (index 3) is not |
| Pipeline.FrameBrightness | src/segmentation.py:101 | The brightness compared by the scan is -1 only for a frame without samples, and within [0, 255] for every other frame |
| Naming.Decimal | src/segmentation.py:193 | `str(n)` is a non-empty string of decimal digits with no leading zero except for 0 itself |
| Naming.DecimalRoundTrip | src/segmentation.py:193 | Reading back the decimal rendering of n gives n |
| Naming.ZeroPad4 | src/segmentation.py:160 | `{n:04d}` is all decimal digits, four wide for indices below 10000 and as wide as the digits otherwise |
| Naming.ZeroPad4RoundTrip | src/segmentation.py:160 | The `{n:04d}` rendering of a frame index reads back as that index |
| Naming.ZeroPad4Width | src/segmentation.py:160 | The padded index is at least four characters wide, and exactly four characters for indices below 10000 |
| Naming.ArtifactNameRoundTrip | src/segmentation.py:160 | Parsing the file name built for frame n with its prefix gives back n |
| Naming.MaskFileName | src/segmentation.py:160 | Frame n's mask image name `mask_{n:04d}.png` parses back, with the `mask_` prefix, to n |
| Naming.OverlayFileName | src/segmentation.py:181 | Frame n's overlay name `frame_{n:04d}.png` parses back, with the `frame_` prefix, to n |
| Naming.ArtifactNamesDistinct | src/segmentation.py:160-181 | Distinct frames get distinct mask files and distinct overlay files, and a mask file name never equals an overlay file name |
| Naming.FirstArtifactNames | src/segmentation.py:160 | The first processed frame writes `mask_0000.png` and `frame_0000.png` |
| Intensity.Unique | src/segmentation.py:156 | `np.unique` of the mask is strictly ascending and holds exactly the values that occur in the mask |
| Intensity.Cells | src/segmentation.py:165-167 | The labels the cell loop handles are ascending and are exactly the non-zero values of the mask |
| Intensity.Select | src/segmentation.py:168-169 | `frame[masks == l]` is non-empty exactly when l occurs in the mask, holds only samples at positions labelled l, has one sample per such position, and sums to the total of the samples there |
| Intensity.Mean | src/segmentation.py:169 | A cell's mean over uint8 samples lies within [0, 255], and it is defined for every label that occurs (no division by zero) |
| Intensity.Average | src/segmentation.py:169 | `np.mean` of a non-empty sequence of uint8 samples lies within [0, 255] |
| Intensity.AverageWithin | src/segmentation.py:169 | If every sample lies in [lo, hi], so does their mean |
| Intensity.MeanIsSumOverCount | src/segmentation.py:168-169 | A cell's mean is the sum of the frame samples at the positions labelled l divided by the number of such positions, which is positive |
| Intensity.MeanCountsEveryPixel | src/segmentation.py:168-169 | A cell of three pixels with samples 0, 0 and 255 has mean 85: every labelled pixel counts once |
| Intensity.MeanWithin | src/segmentation.py:169 | If every pixel of the cell lies in [lo, hi], so does its mean |
| Intensity.MeanOfUniformCell | src/segmentation.py:169 | A cell whose pixels all have value v has mean v |
| Intensity.BinaryMask | src/segmentation.py:160 | The mask image has the mask's shape, with 255 where the label is positive and 0 where it is background |
| Intensity.ForegroundIsCells | src/segmentation.py:160 | A pixel of the mask image is 255 exactly when its label is one of the cells, and 0 exactly when it is not |
| Intensity.Brightness | src/segmentation.py:101 | The mean over all samples of a frame that has samples lies within [0, 255] |
| Intensity.NewLabels | src/segmentation.py:170-171 | The labels appended as new keys while handling one frame are exactly the non-zero labels of the frame that are not yet keys, in ascending order |
| Fluorescence.FirstAppearance | src/segmentation.py:170-171 | The key order the loop builds; FirstAppearanceSpec and FirstAppearanceOrder prove it repeats no key, omits the background, holds every label seen, and orders labels by first frame, ascending within a frame |
| Fluorescence.FirstAppearanceSpec | src/segmentation.py:165-171 | The dictionary's keys never repeat, never include the background 0, and are exactly the non-zero labels of some processed mask |
| Fluorescence.FirstAppearanceOrder | src/segmentation.py:156-171 | Keys come in order of the frame where each label first appears; labels that first appear in the same frame come in ascending order |
| Fluorescence.KeyCountIsLabelCount | src/segmentation.py:197-203 | The number of keys, and so of CSV rows, equals the number of distinct non-zero labels seen over all frames |
| Fluorescence.FirstSeen | src/segmentation.py:170-171 | The frame where a label first appears contains the label, and no earlier frame does |
| Fluorescence.Padded | src/segmentation.py:173-174 | Back-filling keeps every existing entry, adds only missing markers, and reaches the requested length |
| Fluorescence.LeadingMissing | src/segmentation.py:170-175 | A label first seen at frame k has exactly k missing markers before its first value, and that value is its mean at frame k |
| Fluorescence.PaddedIsTrace | src/segmentation.py:197-200 | Padding a list that matches the history yields the full trace: frame j's mean where the label occurs, missing elsewhere |
| Fluorescence.Recorded | src/segmentation.py:165-175 | The dictionary after the cell loop of one frame; RecordedSpec proves its keys gain exactly the frame's non-zero labels, each holding its back-filled list plus the frame's mean, and no other list changes |
| Fluorescence.RecordedSpec | src/segmentation.py:165-175 | After the loop over one frame's ascending labels, the keys gained are exactly the non-zero labels; each such label holds its back-filled list plus this frame's mean; every other list is unchanged |
| Fluorescence.StepLengths | src/segmentation.py:170-175 | Before a frame every list is at most frame_num long. Afterwards every label in the frame has exactly frame_num + 1 entries, the last being this frame's mean and the earlier ones kept. The background is never a key |
| Fluorescence.BackgroundOnlyFrame | src/segmentation.py:163-167 | A frame whose mask holds no cell adds no key, and so no row |
| Fluorescence.StepKeepsInvariant | src/segmentation.py:165-184 | One frame's updates keep the table invariant: keys are the labels seen, in first-appearance order, and every list matches the history |
| Fluorescence.PaddingKeepsInvariant | src/segmentation.py:197-200 | Padding every list to frame_num keeps the invariant and makes each list the cell's full trace |
| Fluorescence.ExportRowsAreTraces | src/segmentation.py:197-202 | The first frame_num values of each padded list are the cell's full trace |
| Fluorescence.FluorescenceTable.constructor | src/segmentation.py:81-82 | The table starts with frame_num 0, no keys and no history |
| Fluorescence.FluorescenceTable.PadSeries | src/segmentation.py:173-174 | The loop appends missing markers to one list in place until it has n entries, changing no other list |
| Fluorescence.FluorescenceTable.Record | src/segmentation.py:170-175 | The list is created (and the key appended) only for a new label, back-filled to frame_num, then extended by the mean |
| Fluorescence.FluorescenceTable.HandleLabel | src/segmentation.py:166-175 | One pass of the cell loop skips label 0 and records any other label, so the dictionary and key order equal Recorded and NewLabels over one more of the frame's labels |
| Fluorescence.FluorescenceTable.RecordAll | src/segmentation.py:165-175 | The loop over `np.unique` leaves the dictionary and key order as the ascending one-label-at-a-time updates prescribe |
| Fluorescence.FluorescenceTable.ProcessFrame | src/segmentation.py:156-184 | The invariant is kept and frame_num grows by one. New keys are the frame's new labels, ascending. Each label of the frame holds its back-filled list plus its mean. Absent labels' lists are unchanged |
| Fluorescence.FluorescenceTable.PadOne | src/segmentation.py:199-202 | One pass of the export loop pads the next key's list in place to frame_num, leaves the other lists alone and appends that key's row with its first frame_num entries |
| Fluorescence.FluorescenceTable.PadAndBuildRows | src/segmentation.py:197-202 | Each list is padded in place to frame_num. One row per key, in insertion order, carries the first frame_num entries |
| Fluorescence.FluorescenceTable.Export | src/segmentation.py:193-203 | The header is `cell_id` and frame_0 through frame_{frame_num-1}. Each list is right-padded in place, so it keeps its entries. Row q is key q in insertion order with its full trace of frame_num entries |
| CsvExport.Header | src/segmentation.py:193-194 | The header has frame_num + 1 names: `cell_id` first, then `frame_i` at position i + 1 |
| CsvExport.HeaderDistinct | src/segmentation.py:193-194 | No field name occurs twice in the header |
| CsvExport.ColumnName | src/segmentation.py:193 | Column `frame_i` is the prefix `frame_` followed by digits that read back as i |
| CsvExport.FrameFields | src/segmentation.py:202 | The dictionary comprehension over frames; FrameFieldsSpec proves its keys are frame_0 .. frame_{n-1} with frame_i mapped to values[i] |
| CsvExport.FrameFieldsSpec | src/segmentation.py:202 | The comprehension's keys are exactly frame_0 .. frame_{n-1}, and frame_i maps to values[i] |
| CsvExport.RowFor | src/segmentation.py:201-202 | The row dictionary; RowForFields proves its keys are exactly the header's, with the label under `cell_id` and values[i] under frame_i |
| CsvExport.RowForFields | src/segmentation.py:201-202 | A row dictionary has exactly the header's keys: `cell_id` holds the label and frame_i holds values[i] |
| CsvExport.RowLine | src/segmentation.py:203 | The writer's layout of a row along the field names; RowLineOrder proves it is the label followed by the n entries in frame order |
| CsvExport.RowLineOrder | src/segmentation.py:195-203 | Laid out along the header, a written row is the label followed by its n entries in ascending frame order |
| Pipeline.Scan | src/segmentation.py:97-113 | One brightness per frame, in frame order |
| Pipeline.StopsAtUnique | src/segmentation.py:133-137 | There is exactly one frame count at which the main loop can end for a given stop request |
| Pipeline.NoStopBeforeSpec | src/segmentation.py:135-137 | The one-frame-at-a-time stop record holds exactly when no stop was requested before frame k |
| Pipeline.Repeated | src/segmentation.py:154 | Every processed frame sees the one saved mask |
| Pipeline.FirstAppearanceRepeated | src/segmentation.py:154-171 | With one mask for every frame, the keys are that mask's cells in ascending order, or none when no frame was processed |
| Pipeline.TraceRepeated | src/segmentation.py:154-175 | With one mask for every frame, a cell's trace holds its mean in every frame, with no missing entries |
| Pipeline.RowsOfRepeated | src/segmentation.py:154-203 | The export of such a table has one row per cell of the mask, ascending, each holding the cell's mean in every processed frame |
| Pipeline.MaskImages | src/segmentation.py:160 | Frame i's mask image is named `mask_{i:04d}.png` and holds the binary mask |
| Pipeline.OverlayNames | src/segmentation.py:181-182 | Frame i's overlay is named `frame_{i:04d}.png` |
| Pipeline.Iterate | src/segmentation.py:149-184 | One pass of the main loop writes one more mask image and overlay, and extends the table's history by the saved mask and this frame |
| Pipeline.ProcessFrames | src/segmentation.py:133-184 | The main loop stops at the first frame before which a stop is requested, or at the end of the video. The table then holds exactly the frames processed, each seen through the saved mask |
| Pipeline.Aggregate | src/segmentation.py:133-203 | After the loop and the export there is one image and one overlay per processed frame, the header for that many frames, and one row per cell of the mask with its mean in each frame |
| Pipeline.Run | src/segmentation.py:89-203 | The run fails exactly when no frame has samples. Otherwise the mask is the segmentation of the first brightest frame, the loop stops as requested, and the artifacts, header and rows are as Aggregate states |

## Left out

- The parameter and plot dialogs, the plotting itself, and the log and warning prints: user interface and logging, with no effect on the table.
- Loading the segmentation model and calling it: it is the function parameter `segment`, assumed to return a mask of the frame's shape.
- Reading ND2 and video files, the path and permission checks, the loop's `frame is None` end test, and `cv2.normalize`: I/O and library numerics. Frames are given as a sequence of 8-bit grids, so the video ends where the sequence ends.
- Colour video: frames are single-channel grids. The scan's use of channel 1, and the mean over all channels of the selected pixels, are not modelled.
- The debug image, contour finding and drawing: foreign drawing calls. Only the overlay file names are modelled.
- The bytes of the CSV file and of the PNG files: the model stops at the header, the row values, the row dictionaries and the writer's field order.
- The `stop` lookup by global name: it is modelled as a predicate `stop` on the frame index, asked before each frame.
- Intensity.Mean: the result is the exact arithmetic mean. The rounding to 4 decimal places is floating point and is not modelled.
- Pipeline.FrameBrightness: NaN is represented by -1.0. Only the fact that NaN never compares greater than the running maximum is captured.
- Fluorescence.FluorescenceTable.Export: rows are the value `Row(cellId, values)`. The per-row dictionary the source builds is modelled separately by `CsvExport.RowFor` and `CsvExport.RowLineOrder`.
- Side effects such as creating the output directory, and releasing the video handle.
- Pipeline.Run: requires every frame to have the reference frame's shape, as the frames of one video file do. The IndexError that a frame of another shape would raise at the boolean selection is not modelled.
