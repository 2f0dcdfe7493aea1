# Membrane-based single-cell segmentation: the discrete back half of `run_pipeline`

The repository segments confocal images of membrane-labelled cells. It has two
near-identical copies of one function, `run_pipeline`:

- the tutorial solution works on a two-channel image;
- the batch script works on a single-channel image.

The first half of the pipeline is numeric library work: smoothing, local-mean
background, hole filling, closing, distance transform, peak finding and
watershed. The second half is discrete logic on integer label maps. This
project models that second half in Dafny and proves what it promises. It also
models the integer pieces of the first half:

- **Disk structuring element** (`Disk`). The i×i mask is built from
  `np.mgrid` and is true where (r-⌊i/2⌋)² + (c-⌊i/2⌋)² ≤ ⌊i/2⌋². With true
  division, `i/2` is a float such as 15.5, and `np.floor` of it is the whole
  number ⌊i/2⌋ (15.0). Every term is then a whole number, so this is plain
  integer arithmetic. The
  sizes used are 31, 15 and 10. For even sizes the disk is clipped on one side.
- **Adaptive threshold** (`Threshold`). The tutorial uses `smooth >= bg` and
  the batch script uses `smooth > bg`. The background `bg` is an input.
- **Reflect padding and crop** (`Padding`). `np.pad(m, p, mode='reflect')`
  mirrors about the outermost rows and columns. The crop is Python's
  `x[p:-p, p:-p]`, with `p = i+1 = 16`. The closing between the two is an
  input.
- **Image-border ring** (`Morphology`). The tutorial builds it as the negation
  of an erosion of an all-true mask with border value 0. The batch script
  builds it as a dilation of an all-false mask with border value 1. Both use
  scipy's 4-connected cross.
- **Border-cell removal** (`BorderCleaner`). This is a loop over the distinct
  labels of the watershed map `ws`. It zeroes, in a copy, every label with a
  pixel on the ring. Decisions read only `ws`.
- **Relabelling** (`Relabel`). This is an in-place loop over
  `np.unique(clean_ws)[1:]` that writes `k+1` over the k-th value.
- **Cell-edge extraction** (`Edges`). For each cell, the loop erodes the
  cell's mask once, XORs the result with the mask, and writes the cell ID into
  a zeroed array.
- **Results table** (`Measurements`). There is one entry per cell in every
  list. Each mean `np.mean(img[mask])` is kept as the pair (sum, pixel count).
- **The composition** (`Pipeline`). Each variant runs removal, relabelling,
  edges and measurement in the source's order.

Images are `seq<seq<T>>` grids (`Grids.Grid`) where the source computes
whole-array expressions. They are `array2<int>` where the source updates an
array in place (`clean_ws`, `edges`). `Grids.Snap` reads an array as a grid.
`Grids.SetWhere` is numpy's masked assignment `a[mask] = v`, and
`Grids.Select` is the image it leaves. The other whole-array expressions are
`Grids.EqMask` (`ws == cell_ID`), `Grids.And` (`np.logical_and`), `Grids.Not`
(`np.logical_not`), `Grids.Xor` (`np.logical_xor`), `Grids.Full` (`np.ones`
and `np.zeros`), `Grids.Count` (`np.sum` of a mask) and `Grids.SumWhere` (the
sum of `img[mask]`). `Labels.Unique` is `np.unique`, the sorted distinct
values. Each loop is a method proved
against a function of its inputs. Lemmas then relate those functions to what
the pipeline promises: contiguous IDs 1..N, order preservation, border
exclusion, edges inside their cells, equal-length ascending results, and
idempotence.

Notes on the code:

- The closing's pad width is `i+1 = 16` for the 15×15 disk
  (`Padding.ClosingPad`).
- Both variants erode each cell's mask exactly once. The batch script's
  explicit `iterations=1` is scipy's default, so the variants agree here.
- The threshold comparison differs between the variants. A signal equal to
  its background gives an all-false mask only under the batch script's `>`.
  Under the tutorial's `>=` it gives an all-true mask (`Threshold.FlatSignal`).
- An image with no surviving cell yields N = 0 and empty result lists; no
  error is raised.

## Model

| member | source | states |
|---|---|---|
| Disk.DiskElementAt | main_tutorial/tutorial_pipeline_solutions_batch.py:70-71 | definitional: unfolds `DiskElement` at one pixel, true exactly where the squared distance to (⌊i/2⌋, ⌊i/2⌋) is at most ⌊i/2⌋² |
| Disk.DiskElement | main_tutorial/tutorial_pipeline_solutions_batch.py:104 | the element for size i has i rows of i columns |
| Disk.DiskContainsCentre | batch_processing_solution.py:61-62 | every non-empty disk contains its centre pixel |
| Disk.DiskTransposeSymmetric | batch_processing_solution.py:74-75 | swapping row and column maps the disk onto itself |
| Disk.OddDiskMirrorSymmetric | main_tutorial/tutorial_pipeline_solutions_batch.py:103-104 | for odd sizes (31, 15), flipping the rows maps the disk onto itself |
| Disk.EvenDiskClipped | main_tutorial/tutorial_pipeline_solutions_batch.py:140-141 | for even sizes ≥ 4, a last-row pixel is in the disk while its row mirror in the first row is not, so the disk is clipped on one side |
| Disk.SeedDilationDiskClipped | main_tutorial/tutorial_pipeline_solutions_batch.py:140-142 | the size-10 footprint of the maximum filter contains (9, 6) but not (0, 6) |
| Threshold.MembraneAtLeast | main_tutorial/tutorial_pipeline_solutions_batch.py:89 | the tutorial's mask has the signal's shape and is true exactly where signal ≥ background |
| Threshold.MembraneAbove | batch_processing_solution.py:67 | the batch mask has the signal's shape and is true exactly where signal > background |
| Threshold.StrictMaskWithinInclusive | batch_processing_solution.py:67 | the strict mask lies within the inclusive one, and they differ exactly where the signal equals the background |
| Threshold.FlatSignal | main_tutorial/tutorial_pipeline_solutions_batch.py:89 | a signal equal to its background is all membrane under `>=` and no membrane under `>` |
| Padding.ReflectIndex | main_tutorial/tutorial_pipeline_solutions_batch.py:106 | a padded index reads a source index inside the axis, and an index already inside reads itself |
| Padding.ReflectAboutFirst | main_tutorial/tutorial_pipeline_solutions_batch.py:106 | index -j reads what index j reads (mirroring about the first entry, without repeating it) |
| Padding.ReflectAboutLast | main_tutorial/tutorial_pipeline_solutions_batch.py:106 | index n-1+j reads what index n-1-j reads (mirroring about the last entry) |
| Padding.ReflectPeriodic | main_tutorial/tutorial_pipeline_solutions_batch.py:106 | padding wider than the image repeats with period 2(n-1) |
| Padding.Pad | main_tutorial/tutorial_pipeline_solutions_batch.py:106 | padding by p gives an (h+2p)×(w+2p) image |
| Padding.PadInterior | main_tutorial/tutorial_pipeline_solutions_batch.py:106 | the image sits unchanged at offset (p, p) inside its padding |
| Padding.PadAt | batch_processing_solution.py:78 | definitional: unfolds `Pad` at one pixel, which is the image pixel named by its two reflected indices |
| Padding.PadMirrorsRows | batch_processing_solution.py:78 | the k-th padded row before the first row equals the k-th row after it, and likewise around the last row |
| Padding.PadMirrorsColumns | batch_processing_solution.py:78 | the k-th padded column before the first column equals the k-th column after it, and likewise around the last column |
| Padding.SliceInner | main_tutorial/tutorial_pipeline_solutions_batch.py:108 | `s[p:-p]` drops p entries at each end when p ≥ 1 and 2p ≤ \|s\|, and is empty when p = 0 or 2p ≥ \|s\| |
| Padding.Crop | main_tutorial/tutorial_pipeline_solutions_batch.py:108 | `x[p:-p, p:-p]` keeps the rows `SliceInner(x, p)` and cuts each kept row r+p of x to `SliceInner(x[r+p], p)` |
| Padding.CropShape | main_tutorial/tutorial_pipeline_solutions_batch.py:108 | cropping an (h+2p)×(w+2p) image by p ≥ 1 gives the h×w image at offset (p, p) |
| Padding.CropAfterPad | main_tutorial/tutorial_pipeline_solutions_batch.py:105-108 | cropping the reflect-padded mask by the same p ≥ 1 returns the mask exactly |
| Padding.ClosingCropKeepsShape | batch_processing_solution.py:77-80 | the pad size is 16, and any same-shaped result of the closing is cropped back to the mask's height and width |
| Morphology.Erode | main_tutorial/tutorial_pipeline_solutions_batch.py:177 | `ndi.binary_erosion` once with the cross keeps the image's shape and only removes pixels |
| Morphology.Dilate | batch_processing_solution.py:104 | `ndi.binary_dilation` once with the cross keeps the image's shape and only adds pixels |
| Morphology.ErosionRing | main_tutorial/tutorial_pipeline_solutions_batch.py:176-177 | the tutorial's `boundary_mask` has the image's height and width (its pixels: `ErosionRingIsRing`) |
| Morphology.DilationRing | batch_processing_solution.py:103-104 | the batch script's `border_mask` has the image's height and width (its pixels: `DilationRingIsRing`) |
| Morphology.ErosionRingAt | main_tutorial/tutorial_pipeline_solutions_batch.py:177 | at each pixel, eroding an all-true image with border value 0 fails exactly when a 4-neighbour lies outside the image |
| Morphology.ErosionRingIsRing | main_tutorial/tutorial_pipeline_solutions_batch.py:176-177 | the tutorial's `boundary_mask` is true exactly on row 0, row H-1, column 0 and column W-1 |
| Morphology.DilationRingAt | batch_processing_solution.py:104 | at each pixel, dilating an all-false image with border value 1 succeeds exactly when a 4-neighbour lies outside the image |
| Morphology.DilationRingIsRing | batch_processing_solution.py:103-104 | the batch script's `border_mask` is true exactly on the outermost one-pixel ring |
| Morphology.BorderMasksAgree | batch_processing_solution.py:103-104 | the two variants' border masks are equal |
| Grids.SetWhere | main_tutorial/tutorial_pipeline_solutions_batch.py:194 | `a[mask] = v` writes v where the mask (evaluated before the write) is true and leaves every other pixel unchanged |
| Grids.CountPositive | main_tutorial/tutorial_pipeline_solutions_batch.py:190-193 | `np.sum(mask) > 0` holds exactly when some pixel of the mask is true |
| Grids.CountMono | main_tutorial/tutorial_pipeline_solutions_batch.py:262-263 | a mask contained in another has no larger pixel count |
| Labels.SkipFirst | main_tutorial/tutorial_pipeline_solutions_batch.py:197 | `u[1:]` is u without its first entry, and empty for an empty u |
| Labels.Unique | main_tutorial/tutorial_pipeline_solutions_batch.py:183 | `np.unique` is strictly increasing and holds exactly the values that occur in the map |
| Labels.IncreasingUnique | main_tutorial/tutorial_pipeline_solutions_batch.py:183 | two strictly increasing sequences with the same values are equal, so `np.unique` is determined by the value set |
| Labels.IncreasingFromZero | main_tutorial/tutorial_pipeline_solutions_batch.py:197-198 | when the sorted distinct values start at 0, the k-th is at least k |
| Labels.RankMapValues | main_tutorial/tutorial_pipeline_solutions_batch.py:197-198 | the rank map's values are exactly 0..(number of distinct labels)-1 |
| Labels.RankMapOrder | main_tutorial/tutorial_pipeline_solutions_batch.py:197-198 | the rank map preserves both the order and the equality of labels, in both directions |
| Labels.RankMapKeepsZero | main_tutorial/tutorial_pipeline_solutions_batch.py:197-198 | when 0 is the smallest label, a pixel has rank 0 exactly when its label is 0 |
| Labels.ZeroFirst | main_tutorial/tutorial_pipeline_solutions_batch.py:197 | the first distinct value is 0 exactly when 0 occurs and no label is negative |
| Labels.UniqueOfContiguous | batch_processing_solution.py:115-116 | a map whose values are exactly 0..n-1 has those values, in order, as its distinct values |
| Labels.RankMapFixesContiguous | batch_processing_solution.py:115-116 | the rank map leaves a map with values exactly 0..n-1 unchanged |
| Labels.RankMapIdempotent | batch_processing_solution.py:115-116 | ranking a rank map changes nothing |
| BorderCleaner.Copy | main_tutorial/tutorial_pipeline_solutions_batch.py:180 | `np.copy(ws)` is a fresh array equal to `ws` |
| BorderCleaner.RemoveStep | main_tutorial/tutorial_pipeline_solutions_batch.py:186-194 | one iteration zeroes the label in the copy exactly when the label touches the mask, and otherwise changes nothing |
| BorderCleaner.RemoveIfTouching | main_tutorial/tutorial_pipeline_solutions_batch.py:186-194 | the loop body, using overlap count > 0, moves the copy from "labels so far" to "labels so far plus this one" |
| BorderCleaner.RemovedAll | main_tutorial/tutorial_pipeline_solutions_batch.py:183-194 | after every distinct label has been examined, the copy is the cleaned map |
| BorderCleaner.RemoveBorderCells | main_tutorial/tutorial_pipeline_solutions_batch.py:180-194 | the removal loop returns a fresh array equal to `ws` with every label touching the mask zeroed; decisions read `ws` only |
| BorderCleaner.RemovalPerLabel | main_tutorial/tutorial_pipeline_solutions_batch.py:180-194 | a label with a ring pixel loses all its pixels, and a label with no ring pixel keeps all of them |
| BorderCleaner.RingCleared | main_tutorial/tutorial_pipeline_solutions_batch.py:176-194 | every ring pixel of the cleaned map is 0 |
| BorderCleaner.RemovalKeepsOrZeroes | batch_processing_solution.py:106-113 | each pixel of the cleaned map keeps its label or becomes 0, so background stays background |
| BorderCleaner.ZeroTurnNoOp | batch_processing_solution.py:108-113 | the loop's turn on label 0 writes 0 over pixels that already hold 0, leaving the partly cleaned copy unchanged |
| BorderCleaner.ZeroIsSmallestAfterRemoval | main_tutorial/tutorial_pipeline_solutions_batch.py:197 | on a non-empty map with non-negative labels, 0 is present after removal and is the first distinct value |
| BorderCleaner.OnlyBackgroundTouches | batch_processing_solution.py:106-113 | after removal, only label 0 has a pixel on the mask |
| BorderCleaner.RemovalIdempotent | batch_processing_solution.py:106-113 | removing border cells a second time changes nothing |
| Relabel.RelabelSteps | main_tutorial/tutorial_pipeline_solutions_batch.py:197-198 | the map after n iterations of the loop as written has the map's shape |
| Relabel.StepsRange | main_tutorial/tutorial_pipeline_solutions_batch.py:197-198 | after n iterations every pixel holds its original label or one of the written IDs 1..n |
| Relabel.StepAt | main_tutorial/tutorial_pipeline_solutions_batch.py:198 | definitional: unfolds `RelabelSteps` at one pixel; iteration n writes n exactly over the pixels that hold the n-th listed value after the earlier iterations |
| Relabel.RankStep | main_tutorial/tutorial_pipeline_solutions_batch.py:197-198 | when the distinct values start at 0, iteration n matches a pixel of rank i exactly when i = n |
| Relabel.InPlaceRelabel | main_tutorial/tutorial_pipeline_solutions_batch.py:197-198 | the finished loop as written leaves every pixel with its label or an ID below the number of distinct labels |
| Relabel.RelabelInPlace | main_tutorial/tutorial_pipeline_solutions_batch.py:197-198 | the in-place loop leaves the array equal to the as-written fold over `np.unique(clean_ws)[1:]` |
| Relabel.NoCollision | main_tutorial/tutorial_pipeline_solutions_batch.py:197-198 | when 0 comes first, iteration k writes k+1 ≤ the label it replaces, and k+1 equals no later label |
| Relabel.StepsAt | main_tutorial/tutorial_pipeline_solutions_batch.py:197-198 | after n iterations, pixels whose label has rank 1..n carry that rank and all others keep their label |
| Relabel.InPlaceAt | main_tutorial/tutorial_pipeline_solutions_batch.py:197-198 | when 0 is the smallest label, the finished loop leaves at each pixel the rank of its label |
| Relabel.InPlaceIsRankMap | main_tutorial/tutorial_pipeline_solutions_batch.py:197-198 | when 0 is the smallest label, the in-place loop computes the rank map |
| Relabel.RelabelContiguous | batch_processing_solution.py:115-116 | after relabelling, 0 occurs and the non-zero values are exactly 1..N |
| Relabel.RelabelIdempotent | batch_processing_solution.py:115-116 | relabelling its own output changes nothing |
| Relabel.SkippingNonZeroMerges | main_tutorial/tutorial_pipeline_solutions_batch.py:197 | on `[[1, 2]]`, a map without 0, `[1:]` skips cell 1 and the loop merges both cells into `[[1, 1]]` |
| Edges.CellEdgeMask | main_tutorial/tutorial_pipeline_solutions_batch.py:217-221 | the XOR of a cell's mask and its erosion has the map's shape and lies inside the cell |
| Edges.CellEdgeMaskAt | main_tutorial/tutorial_pipeline_solutions_batch.py:217-221 | the XOR of a cell's mask and its erosion is exactly the cell's pixels with a 4-neighbour outside the cell or the image |
| Edges.EdgeStep | main_tutorial/tutorial_pipeline_solutions_batch.py:214-225 | one iteration writes the ID exactly on that cell's edge |
| Edges.AddCellEdge | main_tutorial/tutorial_pipeline_solutions_batch.py:217-225 | the loop body moves `edges` from "cells so far" to "cells so far plus this one" |
| Edges.ExtractEdges | main_tutorial/tutorial_pipeline_solutions_batch.py:210-225 | the edge loop returns a fresh array holding the edges of the cells in `np.unique(clean_ws)[1:]` |
| Edges.LoopGivesEdgeMap | main_tutorial/tutorial_pipeline_solutions_batch.py:214 | when 0 is the smallest label, the loop covers exactly the non-zero cells |
| Edges.EdgeMapAt | batch_processing_solution.py:121-127 | a non-zero edge pixel carries the segmentation's ID there, and cell id's edge pixels are exactly its boundary pixels |
| Edges.EdgeNonEmpty | batch_processing_solution.py:124-127 | every non-zero cell has an edge pixel in each column it occupies, at or above any of its pixels |
| Measurements.MeanOver | main_tutorial/tutorial_pipeline_solutions_batch.py:258-261 | `np.mean(img[mask])` as (sum, count), whose count is positive (the mean is not NaN) exactly when the mask selects a pixel |
| Measurements.CellIds | main_tutorial/tutorial_pipeline_solutions_batch.py:250 | `np.unique(clean_ws)[1:]` is strictly increasing and holds exactly the labels that occur other than the smallest |
| Measurements.MeasureTwoChannel | main_tutorial/tutorial_pipeline_solutions_batch.py:239-263 | all seven lists have one entry per ID of `np.unique(clean_ws)[1:]`, in order, with green and red sums and counts over the cell and its edge, area and edge count |
| Measurements.MeasureOneChannel | batch_processing_solution.py:132-145 | all five lists have one entry per ID of `np.unique(clean_ws)[1:]`, in order, with intensity sums and counts over the cell and its edge, area and edge count |
| Measurements.CellIdsAscending | main_tutorial/tutorial_pipeline_solutions_batch.py:250 | on a map whose values are exactly 0..N, the measured IDs are 1, 2, ..., N |
| Measurements.AreaPositive | main_tutorial/tutorial_pipeline_solutions_batch.py:262 | a cell that occurs has an area of at least one pixel |
| Measurements.EdgeWithinArea | main_tutorial/tutorial_pipeline_solutions_batch.py:262-263 | a cell's edge count is at most its area |
| Measurements.EdgeCountPositive | main_tutorial/tutorial_pipeline_solutions_batch.py:260-263 | a non-zero cell has at least one edge pixel, so the edge mean divides by a positive count |
| Pipeline.Cleaned | main_tutorial/tutorial_pipeline_solutions_batch.py:180-194 | `clean_ws` after the removal loop is an h×w map in which every pixel keeps its `ws` label or becomes 0 (which labels go: `BorderCleaner.RemovalPerLabel`, `BorderCleaner.RingCleared`) |
| Pipeline.Segment | batch_processing_solution.py:106-116 | `clean_ws` as returned, after removal and relabelling, is an h×w map in which every pixel keeps its cleaned label or holds an ID below the number of distinct cleaned labels (the full promise: `SegmentProperties`) |
| Pipeline.SegmentNumbering | main_tutorial/tutorial_pipeline_solutions_batch.py:180-198 | on a non-empty map with non-negative labels, the returned segmentation contains 0 as its smallest label and numbers its cells 1..N without gaps |
| Pipeline.SegmentPixel | main_tutorial/tutorial_pipeline_solutions_batch.py:176-198 | at each pixel, a ring pixel is background, and a pixel keeps a cell exactly when its `ws` label is non-zero and has no pixel on the ring |
| Pipeline.SegmentOrderAt | main_tutorial/tutorial_pipeline_solutions_batch.py:197-198 | two surviving pixels compare (by < and by ==) after relabelling exactly as their `ws` labels did |
| Pipeline.SegmentProperties | main_tutorial/tutorial_pipeline_solutions_batch.py:173-198 | the returned map has background 0 and cells 1..N, no cell on the ring, a cell exactly where `ws` has a non-zero label off the ring, and preserves the order and identity of surviving labels |
| Pipeline.EdgeCountsBounded | batch_processing_solution.py:138-145 | in a map numbered 1..N, each cell's edge count is between 1 and its area |
| Pipeline.TwoChannelTableFacts | main_tutorial/tutorial_pipeline_solutions_batch.py:239-263 | on a segmentation numbered 1..N with 0 as its smallest label, the tutorial's table lists cells 1..N in ascending order, one entry per list each, with edge count between 1 and the area |
| Pipeline.OneChannelTableFacts | batch_processing_solution.py:36-40 | on a segmentation numbered 1..N with 0 as its smallest label, entry j of every list refers to cell `cell_id[j] = j+1`, with edge count between 1 and the area |
| Pipeline.TutorialBackHalf | main_tutorial/tutorial_pipeline_solutions_batch.py:175-273 | from `ws` and channels 0 and 1, returns the segmentation and a table with equal-length lists; on a non-empty, non-negative `ws`, both have the properties above |
| Pipeline.BatchBackHalf | batch_processing_solution.py:101-149 | the same for the batch script's dilation ring and single-channel table |
| Pipeline.VariantsAgree | batch_processing_solution.py:103-113 | both variants remove exactly the same cells from the same `ws` |
| Pipeline.CleanedFixesSegment | batch_processing_solution.py:106-113 | removing border cells from the returned segmentation changes nothing |
| Pipeline.SegmentIdempotent | batch_processing_solution.py:106-116 | running removal and relabelling again on the returned segmentation changes nothing |

## Left out

- Image loading, path handling and reporting are file I/O and console output. They are left out, and so are the commented-out plots.
- Gaussian smoothing and the Euclidean distance transform are left out. They are floating-point numerics.
- `rank.mean`, `binary_fill_holes`, `binary_closing`, `maximum_filter`, `peak_local_max`, `ndi.label` and `watershed` are library primitives whose code is not part of this model. Their outputs enter as inputs: the background `bg`, the closed mask and the watershed map `ws`.
- The unused connected-components call at main_tutorial/tutorial_pipeline_solutions_batch.py:120 is left out.
- main_tutorial/ipynb_images/fig_gen.py only draws tutorial figures and is not part of this model.
- The numpy error for reflect-padding an empty image is not modelled. `Padding.Pad` requires a non-empty image.
- Measurements.MeasureTwoChannel: each mean is kept as (sum, count) rather than as a float quotient. The count is proved positive for every listed cell, so no NaN arises.
- Measurements.MeasureOneChannel: each mean is kept as (sum, count), as above.
- Pipeline.TutorialBackHalf: it starts from `ws` and the two channels. The properties of the segmentation are promised only for a non-empty image with non-negative labels, which is what watershed returns.
- Pipeline.BatchBackHalf: the same scope as the tutorial's back half.
- The means are exact (sum, count) pairs; numpy accumulates them in float64.
