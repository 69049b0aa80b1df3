# chromosight pattern detection, modelled in Dafny

This project models the pattern-detection core of chromosight and of its two
predecessors, chromovision and declooptor. These programs find loops and
borders in Hi-C contact maps. Each one correlates a kernel with the map,
picks the foci of high correlation, keeps the foci whose surrounding window
is well covered, and feeds the kept windows into the next detection pass.
In chromovision and declooptor the windows are piled up into a pixelwise
median pattern, and that pattern becomes the next kernel. chromosight's
explore_patterns instead passes the stack of kept windows itself, as
pattern_detector returns it, to the next pass; no median is taken on that
path. The exploration model keeps the kernel type abstract, so it covers
both.

The correlation itself, the detrending and the median absolute deviation are
numerics that the model takes as inputs. Everything that works on their
results is modelled, with its branches and constants. Most error cases are
modelled as error results; the few that are taken as preconditions instead
are listed under "Left out":

- **The picker** (`Picker`). It computes the threshold, the candidate pixels
  and the best pixel of each focus, with a filler row (0, 0) for every label
  removed as too small.
- **The connected-pixel labelling** (`Labelling`). It covers the transitions
  between consecutive pixels and the adjacency filled from them in row and in
  column order. The connected components are built by a depth-first search
  over arrays. Foci with fewer than `min_focus_size` pixels are then removed.
- **Window validation** (`Validation`). It covers the bounds check, the
  missing-pixel estimate and the blacklist.
- **The pile-up** (`Pileup`): a pixelwise median.
- **chromosight's pattern_detector** (`Detection`), with its two `None`
  returns.
- **chromosight's explore_patterns and remove_smears** (`Exploration`).
  Both use a first-come deduplication by grid cell (`Buckets`).
- **The detection step shared by chromovision and declooptor** (`Legacy`),
  with the presets and the dispatcher.
- **The two legacy exploration drivers** (`Chromovision`, `Declooptor`).

Stateful code is modelled as methods with loops: the picker's per-focus loop,
adjacency filling on a 2-D array, the component search, the validation loop,
the agglomeration loops and the pass loops. Each method is proved against a
specification function, and the properties of that function are proved as
lemmas.

Two of the modelled behaviours differ from what the code's own comments say.
The model follows the code in both cases:

- **8-adjacency in the labelling.** The docstring of
  label_connected_pixels_sparse promises 8-way adjacency. The code only links
  pixels that are consecutive in row order or in column order.
  `LabellingExamples.DiagonalNeighboursSeparated` shows two diagonal
  neighbours that end up in different foci.
- **Passes in chromosight's explore_patterns.** Its comments describe several
  passes. The code never updates the count its stop rule compares, so only
  the first pass runs. `Exploration.ExplorePatterns` states exactly that
  outcome.

In two other places the code as written fails, or does not do what its
comments say. There the model states both the code as written and the
intended behaviour, and the rest of the model uses the intended one. The
three rows of "## Findings" record them:

- **remove_smears** groups by the raw bins instead of the win_size cells.
  `Exploration.RemoveSmearsAsWritten` is the code as written, and
  `Exploration.RemoveSmears` the intended grouping.
- **declooptor's neighbourhood cleaning** never drops a record, and it
  raises KeyError on the first found record of a chromosome that has no
  list yet. `Declooptor.AsWrittenNeverDrops` and
  `Declooptor.AsWrittenKeepsDuplicate` are the code as written.
  `Declooptor.Fresh` is the intended test, and the declooptor driver
  (`Declooptor.StoreCleaned`, `Declooptor.RunPass`,
  `Declooptor.ExplorePatterns`) runs on it.

## Model

| member | source | states |
|---|---|---|
| `Numeric.Sort` | chromosight/utils/detection.py:132 | the result is sorted and is a permutation of the input |
| `Numeric.Median` | chromosight/utils/detection.py:132 | the median is undefined (NaN) exactly for an empty sample |
| `Numeric.MedianWithinRange` | chromosight/utils/detection.py:132 | the median of a non-empty sample lies between its smallest and its largest value |
| `Numeric.MedianPermutationInvariant` | chromosight/utils/detection.py:132 | reordering the sample does not change its median |
| `Numeric.MedianOfConstant` | chromosight/utils/detection.py:132 | the median of a constant sample is that constant |
| `Numeric.SortedUnique` | chromosight/utils/detection.py:132 | two sorted permutations of one sample are equal, so the median is well defined |
| `Sparse.Positions` | chromosight/utils/detection.py:437-438 | the pixel positions of a COO matrix, in storage order |
| `Sparse.ValueAtStored` | chromosight/utils/detection.py:104 | reading a stored pixel of the CSR copy gives its stored value when positions are distinct |
| `Sparse.ValueAtAbsent` | chromosight/utils/detection.py:104 | reading a position that is not stored gives 0 |
| `Labelling.FociTransitions` | chromosight/utils/detection.py:430-452 | one flag per pixel, plus a trailing False: a flag is set exactly when the next pixel differs by at most 1 in both row and column |
| `Labelling.ColumnOrder` | chromosight/utils/detection.py:464-469 | the transposed ids: pixel indices sorted by column, then row |
| `Labelling.ColumnOrderPermutes` | chromosight/utils/detection.py:464-469 | the transposed ids list every pixel index exactly once |
| `Labelling.ColumnSortedUnique` | chromosight/utils/detection.py:467-469 | for distinct pixels the column order is unique, so the model's order is the one scipy produces |
| `Labelling.Transposed` | chromosight/utils/detection.py:460 | the transposed pixels in column order, with row and column swapped |
| `Labelling.AddedByStep` | chromosight/utils/detection.py:480-490 | one step of the fill adds exactly the edge of that step |
| `Labelling.FillAdjacency` | chromosight/utils/detection.py:478-491 | the array afterwards holds its old edges plus exactly the edges of the set flags, from storage ids or from transposed ids |
| `Labelling.RowPassLinks` | chromosight/utils/detection.py:494 | the row pass links u to v exactly when v = u + 1 and the two pixels are 8-adjacent |
| `Labelling.ColumnPassLinks` | chromosight/utils/detection.py:496 | the column pass links exactly the pixels that are consecutive in column order and 8-adjacent |
| `Labelling.EdgeIsLink` | chromosight/utils/detection.py:494-496 | a pair gets an entry from one of the two passes, in either direction, exactly when it is directly linked |
| `Labelling.EdgesAreLinks` | chromosight/utils/detection.py:475-496 | an array holding exactly the entries of both passes has an edge exactly between directly linked pixels |
| `Labelling.BuildAdjacency` | chromosight/utils/detection.py:475-496 | the adjacency holds an edge exactly when two pixels are linked by either pass |
| `Labelling.ScanNeighbours` | chromosight/utils/detection.py:498 | visiting a pixel's neighbours labels them with the current component, keeps the labelling sound and never relabels a pixel |
| `Labelling.Drain` | chromosight/utils/detection.py:498 | emptying the work list leaves the current component closed under edges |
| `Labelling.LabelComponent` | chromosight/utils/detection.py:498 | labelling from a new root adds one closed, sound component |
| `Labelling.ConnectedComponents` | chromosight/utils/detection.py:498 | every vertex gets a component below num; components are numbered by their first vertex; every vertex is reachable from its root; edges never cross components |
| `Labelling.ComponentsAreFoci` | chromosight/utils/detection.py:498-500 | the components plus one are a labelling of the foci: sound, closed under links, numbered from 1 by first pixel |
| `Labelling.FirstPixelFirstLabel` | chromosight/utils/detection.py:499 | a non-empty input has at least one focus, and the first pixel is labelled 1 |
| `Labelling.SameLabelIffConnected` | chromosight/utils/detection.py:386-391 | two pixels share a label exactly when a chain of links joins them |
| `Labelling.FirstOfFocus` | chromosight/utils/detection.py:498-500 | a pixel that no earlier pixel connects to is its focus's first pixel, and its label is one more than the labels before it |
| `Labelling.FociLabellingUnique` | chromosight/utils/detection.py:498-500 | two foci labellings of the same pixels have the same number of foci, the same labels and the same first pixels, so the labels of label_connected_pixels_sparse are fully determined |
| `Labelling.ReachIsConnected` | chromosight/utils/detection.py:498 | reachability in the adjacency is connection by links |
| `Labelling.ClosedSetSeparatesLabels` | chromosight/utils/detection.py:498 | a set of pixels closed under links never shares a label with a pixel outside it |
| `Labelling.Count` | chromosight/utils/detection.py:503 | the size of a focus is positive exactly when the label occurs |
| `Labelling.SmallRemoved` | chromosight/utils/detection.py:502-506 | each label is kept, or set to 0 when its focus is smaller than min_focus_size |
| `Labelling.RemoveSmallFoci` | chromosight/utils/detection.py:502-504 | the loop over focus numbers zeroes exactly the labels of the small foci |
| `Labelling.FociEntries` | chromosight/utils/detection.py:506-513 | the output matrix has at most as many entries as the input |
| `Labelling.FociEntriesSound` | chromosight/utils/detection.py:506-513 | every output entry is an input pixel with its non-zero label |
| `Labelling.FociEntriesComplete` | chromosight/utils/detection.py:506-513 | every pixel with a non-zero label appears in the output with that label |
| `Labelling.LabelConnectedPixels` | chromosight/utils/detection.py:386-514 | num_foci and the labels are a foci labelling of the input pixels, and the output keeps exactly the pixels of foci of at least min_focus_size pixels |
| `LabellingExamples.DocstringColumnOrder` | chromosight/utils/detection.py:411-415 | the column order of the docstring matrix's pixels |
| `LabellingExamples.DocstringJoined` | chromosight/utils/detection.py:411-415 | the direct links among the docstring pixels |
| `LabellingExamples.DocstringSeparated` | chromosight/utils/detection.py:411-415 | no link joins the left column to the right block in the docstring matrix |
| `LabellingExamples.DocstringLabels` | chromosight/utils/detection.py:409-423 | the docstring example has 2 foci, labelled as the docstring shows |
| `LabellingExamples.TwoFociNumbering` | chromosight/utils/detection.py:499 | numbering by first pixel allows only one labelling of the docstring's two foci |
| `LabellingExamples.DiagonalIsolated` | chromosight/utils/detection.py:430-496 | in the four-pixel example, no link touches pixel (0, 1) |
| `LabellingExamples.DiagonalNeighboursSeparated` | chromosight/utils/detection.py:388-391 | two diagonally adjacent pixels can get different labels, despite the promised 8-way adjacency |
| `Picker.Values` | chromosight/utils/detection.py:347 | the stored values, in storage order; the same projection gives the labels of the foci matrix at line 365 |
| `Picker.Threshold` | chromosight/utils/detection.py:347 | median + precision * mad of the stored values; undefined exactly when nothing is stored |
| `Picker.CandidateMask` | chromosight/utils/detection.py:349-351 | the mask is 1 exactly where the value is not below the threshold and not 0, and 0 elsewhere |
| `Picker.Candidates` | chromosight/utils/detection.py:344-352 | the candidate matrix has at most as many entries as the map |
| `Picker.CandidatesExact` | chromosight/utils/detection.py:344-352 | the candidates are exactly the surviving pixels, with value 1 |
| `Picker.MaskedExact` | chromosight/utils/detection.py:349-352 | for any threshold, the masked pixels are exactly the stored pixels that survive it, with value 1 |
| `Picker.Unique` | chromosight/utils/detection.py:365 | the distinct labels, in increasing order |
| `Picker.IndicesOf` | chromosight/utils/detection.py:367 | exactly the increasing positions holding a given label |
| `Picker.ArgMax` | chromosight/utils/detection.py:373 | an index of a largest value, the first such |
| `Picker.Scores` | chromosight/utils/detection.py:373 | one correlation per labelled pixel |
| `Picker.BestOfFocus` | chromosight/utils/detection.py:367-377 | the returned pixel is the first best-scoring pixel of the focus |
| `Picker.FillBest` | chromosight/utils/detection.py:360-380 | row r holds the best pixel of the r-th surviving label; rows past the surviving labels stay (0, 0) |
| `Picker.SurvivingLabelsInRange` | chromosight/utils/detection.py:360-365 | the surviving labels lie in 1..num_foci, so they fit the num_foci rows |
| `Picker.Pick` | chromosight/utils/detection.py:326-383 | None exactly when there are no candidates; otherwise num_foci rows, best pixels of the surviving foci first, then (0, 0) fillers |
| `Picker.PickedPixelsAreCandidates` | chromosight/utils/detection.py:344-380 | every picked pixel is a candidate pixel of the map, in a focus of at least 2 pixels |
| `Validation.Span` | chromosight/utils/detection.py:49-50 | the window side 2 * (k // 2 + 1) - 1 equals k for an odd kernel side |
| `Validation.Canonical` | chromosight/utils/detection.py:67-70 | the coordinates with the smaller one first |
| `Validation.DetectedBinsIsIntersection` | chromosight/utils/detection.py:89-90 | the count of detectable bins in a window range is the size of the set intersection |
| `Validation.ZeroCountBound` | chromosight/utils/detection.py:97 | a window has no more zero pixels than pixels |
| `Validation.UndetectedInRange` | chromosight/utils/detection.py:93-95 | the undetected-pixel estimate stays between 0 and the window area |
| `Validation.UndetectedIsExact` | chromosight/utils/detection.py:92-95 | the estimate equals the number of window pixels whose row or column is undetectable |
| `Validation.WindowOf` | chromosight/utils/detection.py:84 | the dense subwindow has the requested shape |
| `Validation.WindowOrigin` | chromosight/utils/detection.py:79-81 | the window starts at row and column 1 or later |
| `Validation.PatternWindow` | chromosight/utils/detection.py:79-84 | the window of an in-bounds pattern has the kernel's (odd-adjusted) shape |
| `Validation.Missing` | chromosight/utils/detection.py:86-98 | missing pixels are at most the window area |
| `Validation.Validate` | chromosight/utils/detection.py:66-111 | an accepted coordinate gets its correlation as score and a window of the right shape; an out-of-bounds one is rejected |
| `Validation.AcceptedWindowInside` | chromosight/utils/detection.py:72-84 | an accepted pattern's window lies strictly inside the matrix |
| `Validation.SwapKeepsVerdict` | chromosight/utils/detection.py:67-70 | swapping the two coordinates gives the same verdict and the same window |
| `Validation.LargerToleranceKeeps` | chromosight/utils/detection.py:103 | raising max_perc_undetected never rejects an accepted pattern |
| `Validation.ToleranceExtremes` | chromosight/utils/detection.py:103 | above 100% every in-bounds pattern is accepted; at 0% or below none is |
| `Validation.Verdicts` | chromosight/utils/detection.py:66 | one verdict per coordinate, in order |
| `Validation.KeptIndices` | chromosight/utils/detection.py:113-117 | exactly the increasing indices of the accepted coordinates |
| `Validation.KeptAligned` | chromosight/utils/detection.py:113-118 | the filtered rows and windows line up one to one with the accepted coordinates |
| `Validation.Zeros` | chromosight/utils/detection.py:63-65 | the zero window of the kernel's shape |
| `Validation.CheckAll` | chromosight/utils/detection.py:66-111 | the loop records a score and a window for each accepted coordinate and blacklists the others |
| `Validation.BlacklistMask` | chromosight/utils/detection.py:113-116 | the mask is true exactly at the blacklisted indices |
| `Validation.ValidatePatterns` | chromosight/utils/detection.py:12-127 | the filtered rows and windows are those of the accepted coordinates, in order, and every window has the kernel's shape |
| `Validation.KeptWindowsShaped` | chromosight/utils/detection.py:118 | with odd kernel sides every kept window has the kernel's shape |
| `Pileup.Stack` | chromosight/utils/detection.py:132 | the values of one pixel across the stack, window by window |
| `Pileup.PileupPatterns` | chromosight/utils/detection.py:130-132 | the pile-up has the windows' shape |
| `Pileup.MedianRowAt` | chromosight/utils/detection.py:132 | each pixel of a row built left to right is the median of its stack |
| `Pileup.PileupRow` | chromosight/utils/detection.py:130-132 | a row built left to right from the pixel medians is that row of the pile-up |
| `Pileup.PileupWithinRange` | chromosight/utils/detection.py:132 | each pile-up pixel lies between the smallest and largest values of that pixel |
| `Pileup.PileupOfNothing` | chromosight/utils/detection.py:132 | piling up no windows gives NaN everywhere |
| `Pileup.PileupOfOne` | chromosight/utils/detection.py:132 | piling up one window gives that window |
| `Pileup.StackPermutation` | chromosight/utils/detection.py:132 | reordering the windows reorders each pixel's values the same way |
| `Pileup.PileupOrderInvariant` | chromosight/utils/detection.py:130-132 | the pile-up does not depend on the order of the windows |
| `Detection.FillerRejected` | chromosight/utils/detection.py:72-77 | the picker's filler row (0, 0) never passes the bounds check |
| `Detection.PatternDetector` | chromosight/utils/detection.py:135-190 | None exactly when the kernel is not smaller than the map or there are no candidates; otherwise the picker's rows (one per focus: the best pixel of each surviving focus label in increasing order, then (0, 0) fillers up to the number of foci), and the reported patterns and windows are exactly the validated ones among those rows, each the best pixel of a surviving focus |
| `Detection.ReportedArePicked` | chromosight/utils/detection.py:177-190 | every reported pattern is the best pixel of some surviving focus |
| `Buckets.KeysOf` | chromosight/utils/detection.py:281 | the hashed neighbourhoods are exactly the keys of the kept items |
| `Buckets.Dedup` | chromosight/utils/detection.py:272-281 | no more items are kept than seen |
| `Buckets.Kept` | chromosight/utils/detection.py:280 | the kept set holds exactly the kept items |
| `Buckets.DedupOnePerKey` | chromosight/utils/detection.py:273-276 | no two kept items share a key |
| `Buckets.DedupCoversKeys` | chromosight/utils/detection.py:273-281 | every seen item's key is taken by a kept item |
| `Buckets.DedupKeepsItems` | chromosight/utils/detection.py:280 | every kept item was seen |
| `Buckets.DedupFirstWins` | chromosight/utils/detection.py:273-281 | each kept item is the first seen item with its key |
| `Buckets.DedupStep` | chromosight/utils/detection.py:273-281 | one more item is kept, with its key, exactly when its key is free |
| `Buckets.AddNew` | chromosight/utils/detection.py:272-281 | the loop leaves the kept set and the taken keys of the whole stream so far |
| `Exploration.NeighHash` | chromosight/utils/detection.py:250-251 | the grid cell of side `window` that contains the position |
| `Exploration.PatternsOnePerCell` | chromosight/utils/detection.py:272-281 | kept patterns were detected, no two share a cell, and every detected pattern's cell holds a kept one |
| `Exploration.PatternsFirstWins` | chromosight/utils/detection.py:272-281 | each kept pattern is the first detection in its cell |
| `Exploration.PassPileups` | chromosight/utils/detection.py:283 | one pile-up per kernel, in kernel order |
| `Exploration.RunPass` | chromosight/utils/detection.py:266-284 | the pass adds the deduplicated detections of all kernels, appends each pile-up, and counts the last kernel's detections |
| `Exploration.PassStep` | chromosight/utils/detection.py:266-283 | one more kernel appends its detections and its pile-up |
| `Exploration.EmptyPasses` | chromosight/utils/detection.py:255 | one empty kernel list for each pass 1..max_iterations |
| `Exploration.ExplorePatterns` | chromosight/utils/detection.py:193-288 | only the first pass runs: the kept patterns are its deduplicated detections, pass 1 holds its pile-ups, the other passes stay empty, "ori" is dropped, and one count is recorded |
| `Exploration.GroupKeys` | chromosight/utils/detection.py:316 | exactly the keys of the groups that occur |
| `Exploration.IdxMax` | chromosight/utils/detection.py:316 | the first index of a best score in the group, or none for an absent group |
| `Exploration.BestRows` | chromosight/utils/detection.py:316 | idxmax for each group |
| `Exploration.SmearMask` | chromosight/utils/detection.py:317-319 | one flag per pattern |
| `Exploration.MarkedIsGroupBest` | chromosight/utils/detection.py:316-319 | a flagged pattern is the first best of its group |
| `Exploration.GroupBestIsMarked` | chromosight/utils/detection.py:316-319 | the first best pattern of every group is flagged |
| `Exploration.SmearMaskIsGroupBest` | chromosight/utils/detection.py:314-323 | a pattern is kept exactly when it is the first best of its group |
| `Exploration.RemoveSmearsAsWritten` | chromosight/utils/detection.py:310-323 | the mask as the code computes it, grouping by the raw bins; one flag per pattern |
| `Exploration.AsWrittenKeepsCloseNeighbours` | chromosight/utils/detection.py:312-316 | as written, two patterns one bin apart are both kept |
| `Exploration.RemoveSmears` | chromosight/utils/detection.py:291-323 | the mask as intended, grouping by win_size cell; one flag per pattern |
| `Exploration.CellKeyDropsSmear` | chromosight/utils/detection.py:291-295 | as intended, the weaker of two patterns one bin apart is dropped |
| `Exploration.RemoveSmearsOnePerCell` | chromosight/utils/detection.py:291-295 | as intended, no two kept patterns share a win_size cell |
| `Legacy.Dist` | chromovision/detector.py:148 | the distance of a peak from the diagonal |
| `Legacy.Where` | chromovision/detector.py:147-150 | a mask keeps at most as many peaks as given |
| `Legacy.WhereMembers` | chromovision/detector.py:147-150 | a mask keeps exactly the peaks it holds for |
| `Legacy.WhereWhere` | chromovision/detector.py:147-154 | two masks in turn are the mask of their conjunction |
| `Legacy.TypeFilter` | chromovision/detector.py:144-160 | the type filter keeps at most as many peaks as given |
| `Legacy.TypeFilterIsOneMask` | chromovision/detector.py:144-160 | loops keep 2 < distance < 5000, borders keep distance 0, other types keep everything, in order |
| `Legacy.Cut` | chromovision/detector.py:175-180 | the window has side 2 * area + 1 |
| `Legacy.RowOnes` | chromovision/detector.py:182 | a row has no more pixels equal to 1.0 than pixels |
| `Legacy.OnesBound` | chromovision/detector.py:182-183 | a window has no more pixels equal to 1.0 than pixels |
| `Legacy.WindowRuleTolerance` | chromovision/detector.py:181-186 | a larger undetermined_percentage accepts more; 0% or less accepts nothing; above 100% accepts everything |
| `Legacy.Rescaled` | chromovision/detector.py:141-142 | the score map is the upper triangle with negative values clamped to 0 |
| `Legacy.PeakOutcome` | chromovision/detector.py:161-193 | an admitted peak lies in the matrix and has a window of side 2 * area + 1 |
| `Legacy.AdmittedMeans` | chromovision/detector.py:161-190 | a peak's window is admitted exactly when both bins are detectable, the window fits in the matrix and it has few enough 1.0 pixels |
| `Legacy.PeakWindows` | chromovision/detector.py:161-191 | every window of a matrix's admitted peaks has side 2 * area + 1 |
| `Legacy.MatrixWindows` | chromovision/detector.py:144-193 | every window of one matrix has side 2 * area + 1 |
| `Legacy.Windows` | chromovision/detector.py:128-195 | every window of the run has side 2 * area + 1 |
| `Legacy.AfterFirst` | chromovision/detector.py:201 | all windows but the first, in order |
| `Legacy.ScanPeaks` | chromovision/detector.py:161-193 | the loop over the peaks appends the records and windows the peak outcomes give |
| `Legacy.MatrixScan` | chromovision/detector.py:143-194 | the body of the loop over matrices: one NA record when the picker found nothing, otherwise the records and windows of the filtered peaks |
| `Legacy.PixelValues` | chromovision/detector.py:200-202 | the values of one pixel in every window but the first |
| `Legacy.AgglomerateRow` | chromovision/detector.py:199-203 | one row of the median of all windows but the first |
| `Legacy.Agglomerate` | chromovision/detector.py:197-203 | the agglomerated pattern is the pixelwise median of all windows but the first |
| `Legacy.PatternDetector` | chromovision/detector.py:57-206 | the records, the agglomerated pattern and nb_patterns, which is the number of accepted windows |
| `Legacy.FoundOnly` | chromovision/detector.py:189-191 | only the records of accepted windows |
| `Legacy.PeakRecordsSound` | chromovision/detector.py:161-193 | a found record is an admitted peak of the list with its rescaled score; an NA record comes from a rejected window |
| `Legacy.PeakRecordsComplete` | chromovision/detector.py:161-193 | every admitted peak gives its found record; every rejected window gives an NA record |
| `Legacy.MatrixRecordsSound` | chromovision/detector.py:143-194 | a record of one matrix carries its name; a found one is an admitted peak that passed the type filter, with its rescaled score; an NA one comes from "NA" or a rejected window |
| `Legacy.MatrixRecordsComplete` | chromovision/detector.py:143-194 | every filtered peak of one matrix leaves its found record when admitted and an NA record when rejected; "NA" leaves an NA record |
| `Legacy.RecordOrigin` | chromovision/detector.py:128-194 | every record of the run comes from one of the matrices read so far |
| `Legacy.RecordsInclude` | chromovision/detector.py:128-194 | every record of a matrix read so far is among the records of the run |
| `Legacy.PeakWindowsAligned` | chromovision/detector.py:187-191 | the windows line up one to one with the found records |
| `Legacy.RecordsSound` | chromovision/detector.py:128-195 | a found record's peak passed the type filter, is detectable and in bounds, and has few 1.0 pixels; an NA record comes from "NA" peaks or a rejected window |
| `Legacy.RecordsComplete` | chromovision/detector.py:128-195 | every admitted peak of every matrix is recorded, and every rejection or "NA" pick gives an NA record |
| `Legacy.WindowsAligned` | chromovision/detector.py:187-191 | the pattern windows line up one to one with the found records of the whole run |
| `Legacy.AgglomerationSkipsFirst` | chromovision/detector.py:197-203 | the first accepted window never affects the agglomerated pattern; with one window it is NaN; otherwise each pixel lies within the range of the later windows |
| `Legacy.Dispatch` | chromovision/detector.py:299 | "borders" gets the border detector and every other type the loop detector |
| `Legacy.DispatchedFilter` | chromovision/detector.py:208-212 | the dispatched detector filters as borders or as loops; the border preset's 20% accepts every window the loop preset's 1% accepts |
| `Chromovision.NeighHash` | chromovision/detector.py:324-329 | "NA" exactly for NA records; otherwise the chromosome and the grid cell of the bins |
| `Chromovision.NextKernels` | chromovision/detector.py:344-360 | the next pass's kernels: the agglomerated pattern of each kernel, in order |
| `Chromovision.Generation` | chromovision/detector.py:341-360 | every pass runs as many kernels as there are initial kernels |
| `Chromovision.RunPass` | chromovision/detector.py:344-361 | the pass feeds every kernel's records to the kept set, appends every agglomerated pattern, and returns the last kernel's nb_patterns |
| `Chromovision.PassDone` | chromovision/detector.py:341-362 | running generation p appends generation p + 1 and the pass's count to the kernel lists and counts |
| `Chromovision.NextPass` | chromovision/detector.py:341-362 | one pass takes the kernel lists, counts and kept records after p passes to those after p + 1 |
| `Chromovision.Generations` | chromovision/detector.py:316 | the kernel lists of the first n generations |
| `Chromovision.Counts` | chromovision/detector.py:361-362 | the counts of the first n passes |
| `Chromovision.ExplorePatterns` | chromovision/detector.py:314-364 | at most MAX_ITERATIONS passes, and at most `iterations` when given; the kernel lists, counts and kept records of exactly the passes performed; each pass changed the count; it stops on the iteration cap or on an unchanged count |
| `Chromovision.KeptOnePerHash` | chromovision/detector.py:348-359 | kept records have distinct neigh_hashes, so there is one NA record at most, and each is the first detection of its hash |
| `Chromovision.EveryHashKept` | chromovision/detector.py:348-359 | every detected record's neigh_hash is held by a kept record |
| `Declooptor.AsLegacy` | declooptor/detector.py:75-76 | a detrended matrix with its detectable bins (column sum above the threshold) is a well-shaped detector input |
| `Declooptor.AsLegacyAll` | declooptor/detector.py:73-76 | one detector input per matrix, in order |
| `Declooptor.PatternDetector` | declooptor/detector.py:43-162 | the shared detection step over the detrended matrices: its records and the median of all accepted windows but the first |
| `Declooptor.FoundAboveThreshold` | declooptor/detector.py:118-146 | a found record has both bins' column sums above the threshold, an in-bounds window and few 1.0 pixels in the detrended window |
| `Declooptor.DetectedBounded` | declooptor/detector.py:118-131 | records name a given matrix, and their bins lie below its size |
| `Declooptor.Neighbourhood` | declooptor/detector.py:290-294 | exactly the positions within one bin on both axes |
| `Declooptor.FreshMeansApart` | declooptor/detector.py:290-297 | as intended (Findings rows 2 and 3), a record is kept exactly when it is found and every recorded pattern of its chromosome is at least two bins away on some axis |
| `Declooptor.StoreCleaned` | declooptor/detector.py:315-320 | as intended (Findings rows 2 and 3), the loop appends each yielded record, creating the list on a KeyError, with the test re-read after every append |
| `Declooptor.AbsorbKeepsSpread` | declooptor/detector.py:282-297 | as intended (Findings rows 2 and 3), recording one record keeps the patterns of each chromosome pairwise apart |
| `Declooptor.AbsorbAllKeepsSpread` | declooptor/detector.py:282-320 | as intended (Findings rows 2 and 3), a whole pass keeps the patterns of each chromosome pairwise apart |
| `Declooptor.AbsorbAllExtends` | declooptor/detector.py:315-320 | recording only appends: every list keeps its entries in order |
| `Declooptor.AbsorbAllSound` | declooptor/detector.py:315-320 | every recorded entry was there before or is a detected record |
| `Declooptor.AbsorbAllCovers` | declooptor/detector.py:282-320 | as intended (Findings rows 2 and 3), after a pass every found record has a recorded neighbour, itself or an earlier one |
| `Declooptor.AbsorbStep` | declooptor/detector.py:296-320 | as intended (Findings rows 2 and 3), a kept record raises the count by one at a new position; a dropped one changes nothing |
| `Declooptor.AbsorbAllGrows` | declooptor/detector.py:315-323 | a pass never lowers the count; it changes the table exactly when the count grows, and then adds positions |
| `Declooptor.AbsorbAllInBox` | declooptor/detector.py:315-320 | bounded records keep the recorded positions in a bounded box |
| `Declooptor.TotalRemove` | declooptor/detector.py:323 | the count splits over any one chromosome |
| `Declooptor.TotalUpdate` | declooptor/detector.py:323 | replacing one chromosome's list changes the count by the difference in length |
| `Declooptor.TotalCount` | declooptor/detector.py:323 | the loop computes the total number of recorded patterns |
| `Declooptor.AsWrittenNeverDrops` | declooptor/detector.py:282-297 | as written, NA records are passed over; found records are yielded when their chromosome has a list, and otherwise raise KeyError, as on an empty table |
| `Declooptor.AsWrittenKeepsDuplicate` | declooptor/detector.py:290-296 | as written, a record on the very position of a recorded pattern is yielded; the intended test drops it |
| `Declooptor.FirstRecordStarts` | declooptor/detector.py:317-320 | as intended, the first found record of a new chromosome starts its list |
| `Declooptor.PatternsAfter` | declooptor/detector.py:322 | one agglomerated pattern per pass |
| `Declooptor.TotalsAfter` | declooptor/detector.py:323 | one count per pass, plus the initial 0 |
| `Declooptor.PatternsAfterCalls` | declooptor/detector.py:305-322 | pattern i comes from the detector call of pass i + 1: on the last kernel for the first pass, on the previous pattern afterwards |
| `Declooptor.TotalsAfterCounts` | declooptor/detector.py:323 | count i is the total after i passes |
| `Declooptor.TableAfterSpread` | declooptor/detector.py:299-323 | as intended (Findings rows 2 and 3), after any number of passes the patterns of each chromosome are pairwise apart |
| `Declooptor.CallBounded` | declooptor/detector.py:305-314 | every call of the pass chain returns bounded records when the detector does |
| `Declooptor.FirstPass` | declooptor/detector.py:305-309 | the first pass runs the detector on every kernel, and only the last call's result survives |
| `Declooptor.ExploredStep` | declooptor/detector.py:299-323 | as intended (Findings rows 2 and 3), one pass keeps the loop state; an unchanged count means an unchanged table; otherwise a new position is recorded |
| `Declooptor.LoopStep` | declooptor/detector.py:299-323 | as intended (Findings rows 2 and 3), one turn of the while loop keeps the loop state, and either records a new position or leaves the table and count unchanged, which ends the loop |
| `Declooptor.RunPass` | declooptor/detector.py:304-323 | as intended (Findings rows 2 and 3), one pass: the right detector call, the table after its records, and the new count |
| `Declooptor.ExplorePatterns` | declooptor/detector.py:272-325 | as intended (Findings rows 2 and 3), the patterns and table of exactly the passes performed; patterns of a chromosome pairwise apart; no pass when iterations <= 0, at most iterations + 1 passes otherwise; every pass but the last raised the count; it stops on the cap or on an unchanged table |

## Left out

- The numerics are inputs: the correlation (corrcoef2d, xcorr2), the detrending, diag_trim, the median absolute deviation and the standard deviation. Floating point is modelled as exact reals, and NaN is modelled only as `None` for the median of nothing. The zeroing of NaN correlations is not modelled.
- Labelling.ConnectedComponents: scipy's connected_components is modelled by a depth-first search that numbers components by their first vertex. scipy's own numbering is assumed to be this one.
- Exploration.NeighHash, Exploration.ExplorePatterns, Chromovision.NeighHash and Chromovision.ExplorePatterns take the window as positive. With a window of 0 the code raises ZeroDivisionError as soon as one pattern is hashed, and returns normally when no pattern is detected. A negative window runs in the code with Python's floor division; that case is not modelled.
- I/O is not modelled: loading kernels and kernel configurations, the contact-map object, plotting and the command line. Matrix names are their indices, which is the default `labels`.
- Validation.ValidatePatterns and Detection.PatternDetector require odd kernel sides. For a side k the window spans 2 * (k // 2) + 1 bins (chromosight/utils/detection.py:50 and 79-82), so with an even side the window is one pixel longer than the kernel. Storing such a window at line 105 then raises a broadcast ValueError. This happens only for a coordinate that passes both the bounds check and the missing-pixel test; when no coordinate does, the code returns normally.
- Exploration.ExplorePatterns takes a detector that always returns rows. Two cases in the code differ:
  - pattern_detector can return None, and iterating None raises.
  - validate_patterns returns a DataFrame, so iterating it yields column names rather than rows, and neigh_hash would fail on them.
- Exploration.ExplorePatterns, Chromovision.ExplorePatterns and Declooptor.ExplorePatterns require a non-empty kernel list. With no kernel the code reads a variable that was never assigned (NameError).
- Chromovision.ExplorePatterns takes its detector as a parameter. The detrending and detectable-bin computation at chromovision/detector.py:331-332 happen outside it. Legacy.PatternDetector is the detector over their results.
- Declooptor.ExplorePatterns takes its detector as a parameter, with ghost bounds on chromosomes and bins that every detector call must respect. The model needs them to prove that the "auto" loop ends. The bounds restate, for the abstract detector, a property that the real detector has: Declooptor.DetectedBounded proves that pattern_detector records only matrix indices as names and bins below the matrix size (declooptor/detector.py:118-131).
- The dispatcher in declooptor calls `dict.get` with a keyword argument (declooptor/detector.py:255-257), which raises TypeError for every pattern type. The model uses the intended positional fallback (Legacy.Dispatch).
- The legacy detectors' unused accumulators (pattern_sums, n_patterns, indices_max) are not modelled, and neither is the wrapping of a single array into a list.
- Exploration.RemoveSmears and Exploration.RemoveSmearsAsWritten take the rows' index labels to be 0..n-1. The code's idxmax (chromosight/utils/detection.py:316) returns index labels, and line 319 uses them as positions. A DataFrame filtered by validate_patterns (line 117) keeps gapped labels. On such input the code flags the wrong rows, or raises IndexError, which the except at lines 320-322 swallows. Neither case is modelled.
- Declooptor.ExplorePatterns, Declooptor.RunPass and Declooptor.StoreCleaned run the intended neighbourhood test, Declooptor.Fresh, which treats a chromosome with no list as empty. The test as written (declooptor/detector.py:290-296) never drops a found record, and it raises KeyError on the first found record of a chromosome with no list, outside the try at lines 317-320. Declooptor.AsWrittenNeverDrops and Declooptor.AsWrittenKeepsDuplicate model that code, as rows 2 and 3 of "## Findings" record. The driver's contracts therefore describe the intended cleaning, not the written one.
- Labelling.LabelConnectedPixels takes the input's stored positions to be distinct. scipy's `.T.tocsr()` (chromosight/utils/detection.py:460 and 469) sums duplicate entries, so with repeated positions the transposed ids would be sums and the column pass would differ from Labelling.ColumnOrder. The picker's candidate matrix never holds repeated positions when the correlation map it is cut from has none.
- Python's unordered sets and dicts are modelled as Dafny sets and maps. The order of iteration over them is not modelled.

## Findings

| source | as written | input that shows it | evidently intended | confidence | as-written member | corrected member |
|---|---|---|---|---|---|---|
| chromosight/utils/detection.py:312-316 | the cell hashes are stored as attributes `row`/`col` of the DataFrame, and the groupby reads the raw `bin1`/`bin2` columns | rows (0, 0, 1.0) and (0, 1, 2.0), win_size 8: both are kept | keep only the best pattern of each win_size cell | not executed | `Exploration.AsWrittenKeepsCloseNeighbours` | `Exploration.RemoveSmearsOnePerCell` |
| declooptor/detector.py:290-296 | the 3x3 block is a set of (bin, bin) pairs intersected with a list of (bin, bin, score) triples, so the intersection is always empty | chromosome 0 holds [(5, 5, 1.0)] and (0, 5, 5, 2.0) is detected: it is yielded | drop a record when a recorded pattern of its chromosome lies in its 3x3 block | not executed | `Declooptor.AsWrittenKeepsDuplicate` | `Declooptor.AbsorbAllKeepsSpread` |
| declooptor/detector.py:296 | `all_patterns[chromosome]` raises KeyError inside the generator for a chromosome that has no list yet, outside the try at lines 317-320 | the first pass, with all_patterns empty and any found record | start the chromosome's list, as lines 317-320 do | not executed | `Declooptor.AsWrittenNeverDrops` | `Declooptor.FirstRecordStarts` |
