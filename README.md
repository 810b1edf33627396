# CCD calibration of the Messier 67 lab, in Dafny

This project models the calibration stage of the Messier 67 photometry lab
(`Functions/calibration_functions.py`). The stage has four parts:

- It trims the overscan strip off each raw CCD frame.
- It builds master bias, dark and flat frames by averaging the qualifying
  frames of a directory listing.
- It calibrates every science frame as `((data - bias) / EXPTIME - dark) / flat`.
- It repairs columns with line defects (`remove_lines`).

The model proves properties of each part.

Module layout:

- `Results` (`results.dfy`): the failure values. Every exception or fatal
  condition of the pipeline becomes an `Err` result.
- `Stats` (`stats.dfy`): `np.sort`, `np.median`, and `np.percentile` with
  numpy's default linear interpolation, on sequences of reals.
- `Grids` (`grids.dfy`): two-dimensional arrays with their own row and
  column counts, plus the element-wise numpy arithmetic the pipeline uses.
- `Frames` (`frames.dfy`): header keywords, frames and listing entries. It
  also holds `overscan` and `empty_master`, including Python's normalisation
  of a negative slice start.
- `Masters` (`masters.dfy`): `get_bias`, `get_dark` and `get_flat`.
  - A specification function `Fold` walks the listing front to back. Its
    per-entry work is a step function, `StepOf(k)` for master kind `k`,
    which trims and corrects one frame. The lemmas about the fold's
    structure hold for any step, and `StepSkipsUnqualified` links them to
    the real correction.
  - The methods run the same loop with an accumulator and a counter, and are
    proved equal to `Fold`.
  - Lemmas say what the fold computes: the master is the pixel-wise average
    of the corrected frames, in listing order, and non-qualifying entries
    are ignored.
- `Lines` (`lines.dfy`): `remove_lines`.
  - Column totals are flagged when strictly above the upper percentile or
    strictly below the lower one.
  - Flagged columns are repaired in place in an `array2`, bright list first,
    each list in ascending order.
  - Each pixel becomes the median of the values at offsets -5..5 in its row,
    read from the array as it stands. Pixels repaired earlier are therefore
    read with their new values.
  - An index past the end of the row is skipped, because the `IndexError` is
    swallowed. A negative index counts from the end of the row, as numpy
    reads it.
  - The method `RemoveLines` is proved equal to the value-level definition
    `Cleaned`. Lemmas about `Cleaned` cover the window at the edges,
    untouched columns, bounds and uniform images.
- `Science` (`science.dfy`): `get_science`. It resolves the three master
  arguments in the pipeline's order, then reduces each FITS entry with the
  step `Reducer` built from them. Each
  result is recorded with its file name, its save counter and its CRDER2S
  value.

Two properties of the source are worth reading before the table.

First, masters from a listing only work when the shapes happen to agree.
`empty_master` returns an accumulator of shape (NAXIS1 - COVER, NAXIS2 - ROVER).
When the frame has at least two rows, COVER lies in 0..NAXIS1 and ROVER lies
in 0..NAXIS1 - COVER, `overscan` returns
(min(NAXIS2, NAXIS1 - COVER - ROVER), NAXIS1 - COVER)
(`Frames.OverscanShape`). Its row trim is measured from `len(data[0])`, the
column count. Under the same conditions, `Frames.MasterMatchesTrimIff` proves
that the two shapes agree exactly when ROVER is 0 and NAXIS2 = NAXIS1 - COVER.
In the model, where numpy broadcasting is left out, every other case makes the
first `+=` fail with a shape mismatch. numpy itself could broadcast some of
them, for example a frame trimmed to one row into a larger accumulator.

Second, an offset before the first column is not skipped. The code indexes
with a negative number, which numpy reads from the end of the row.
`Lines.NeighbourhoodFirstColumn` shows that column 0 takes the last five
pixels of its row into its median.

## Model

| member | source | states |
|---|---|---|
| `Frames.SliceStart` | Functions/calibration_functions.py:63-64 | Python's start index of `s_[start:]` on an axis of length n: kept as is inside 0..n, clipped to n above it, counted from the end when negative down to -n, 0 below that |
| `Frames.Contains` | Functions/calibration_functions.py:34 | Python's `pat in s` on strings: `pat` occurs in `s` as a contiguous run of characters; `Frames.FirstFits` and `Science.FitsEntries` state what the test selects |
| `Frames.IsFits` | Functions/calibration_functions.py:34 | the test `'fits' in file` every loop of the pipeline applies to a file name |
| `Frames.KeptColumns` | Functions/calibration_functions.py:63 | the columns the first `np.delete` keeps: the slice start len(data[1]) - COVER, normalised against the column count; `Frames.OverscanShape` states its value |
| `Frames.KeptRows` | Functions/calibration_functions.py:64 | the rows the second `np.delete` keeps: the slice start len(data[0]) - ROVER, where len(data[0]) is the kept column count, normalised against the row count; `Frames.OverscanShape` states its value |
| `Frames.Overscan` | Functions/calibration_functions.py:47-65 | fails exactly when the frame has fewer than two rows (`data[1]` raises); otherwise keeps the first NAXIS1 - COVER columns (slice-normalised) and then the rows before (kept columns - ROVER), slice-normalised against NAXIS2, with every kept pixel unchanged |
| `Frames.OverscanShape` | Functions/calibration_functions.py:63-65 | with COVER and ROVER in range, the trimmed frame has NAXIS1 - COVER columns and min(NAXIS2, NAXIS1 - COVER - ROVER) rows, each a prefix of the raw row |
| `Frames.OverscanZeroExtents` | Functions/calibration_functions.py:63-65 | with zero overscan extents, a frame with no more rows than columns is returned unchanged |
| `Frames.FirstFits` | Functions/calibration_functions.py:33-34 | finds a FITS entry of the listing, and finds none exactly when no name contains "fits" |
| `Frames.FirstFitsIsFirst` | Functions/calibration_functions.py:33-34 | the entry found is the first in listing order whose name contains "fits" |
| `Frames.EmptyMaster` | Functions/calibration_functions.py:20-45 | empty_master: zeros from the header of the first FITS entry, or a failure with no FITS entry or a negative dimension; `Frames.EmptyMasterShape` states its result |
| `Frames.EmptyMasterShape` | Functions/calibration_functions.py:20-45 | empty_master fails exactly when there is no FITS entry or a dimension would be negative; otherwise it is all zeros of shape (NAXIS1 - COVER, NAXIS2 - ROVER) of the first FITS entry |
| `Frames.MasterMatchesTrimIff` | Functions/calibration_functions.py:20-65 | the empty master and a trimmed frame have the same shape if and only if ROVER = 0 and NAXIS2 = NAXIS1 - COVER |
| `Grids.Zeros` | Functions/calibration_functions.py:44 | np.zeros: the requested shape, every pixel 0 |
| `Grids.Minimum` | Functions/calibration_functions.py:222 | np.amin: no pixel is smaller, and some pixel equals it |
| `Grids.Add` | Functions/calibration_functions.py:103 | the element-wise `+=` of two arrays of one shape: same shape, each pixel the sum of the two pixels |
| `Grids.Sub` | Functions/calibration_functions.py:156 | the element-wise `data - master_bias` of two arrays of one shape: same shape, each pixel the difference |
| `Grids.Scale` | Functions/calibration_functions.py:156 | an array divided by a non-zero scalar (`/time`, `/count`, `/np.amin(data)`): same shape, each pixel divided |
| `Grids.Divide` | Functions/calibration_functions.py:285 | the element-wise `/ master_flat` by an array of the same shape with no zero pixel: same shape, each pixel the quotient |
| `Masters.DarkCorrected` | Functions/calibration_functions.py:152-156 | get_dark's per-frame correction: the trimmed frame minus the bias, over EXPTIME; `Masters.DarkRate` states when it succeeds and its pixels |
| `Masters.FlatCorrected` | Functions/calibration_functions.py:214-218 | get_flat's per-frame correction before normalising: the dark correction minus the dark master, which must have the same shape |
| `Masters.Normalize` | Functions/calibration_functions.py:222 | data / np.amin(data), failing on an empty frame or a zero minimum; `Masters.NormalizePinsMinimum` states its result |
| `Masters.Qualifies` | Functions/calibration_functions.py:92-95 | the loop's filter: a FITS file name and, for the bias only, an EXPTIME of exactly 0; `Masters.Contribution` and `Masters.QualifyingEntries` state its use |
| `Masters.StepOf` | Functions/calibration_functions.py:92-103 | the loop body for master kind k: skip the entry, or trim and correct its frame; `Masters.StepSkipsUnqualified` states when it skips |
| `Masters.Filter` | Functions/calibration_functions.py:92-95 | the entries a test keeps, in listing order: an entry is kept exactly when it is in the listing and passes the test |
| `Masters.Contributions` | Functions/calibration_functions.py:90-103 | the corrected frames the loop adds, in listing order; `Masters.ContributionsCount` and `Masters.MasterIsAverage` state their number and their mean |
| `Masters.Contribution` | Functions/calibration_functions.py:90-222 | an entry adds nothing, without failing, exactly when it is not a FITS file or (for the bias) has a non-zero EXPTIME |
| `Masters.StepSkipsUnqualified` | Functions/calibration_functions.py:92-95 | the loop body for kind k skips an entry, without failing, exactly when it does not qualify |
| `Masters.Fold` | Functions/calibration_functions.py:90-103 | the accumulate-and-count loop as a front-to-back fold over the listing for any per-entry step; `Masters.FoldIsSum` states what it computes |
| `Masters.Master` | Functions/calibration_functions.py:88-107 | a master: empty_master, the fold with the kind's step, and the sum over the count, with no counted frame a failure; `Masters.MasterIsAverage` states its value |
| `Masters.BiasOf` | Functions/calibration_functions.py:142-143 | a bias argument resolved: a given array as is, a path built by get_bias |
| `Masters.DarkOf` | Functions/calibration_functions.py:204-205 | a dark argument resolved against the resolved bias: a given array as is, a path built by get_dark |
| `Masters.FlatOf` | Functions/calibration_functions.py:270-271 | a flat argument resolved against the resolved bias and dark: a given array as is, a path built by get_flat |
| `Masters.DarkMaster` | Functions/calibration_functions.py:141-162 | get_dark as a value: the bias argument resolved, then the dark master against it; `Masters.GetDark` is proved equal to it |
| `Masters.FlatMaster` | Functions/calibration_functions.py:201-224 | get_flat as a value: bias, then dark against that bias, then the flat master against both; `Masters.GetFlat` is proved equal to it |
| `Masters.QualifyingEntries` | Functions/calibration_functions.py:92-95 | the entries the loop uses: exactly the listing's entries that qualify |
| `Masters.FoldFirst` | Functions/calibration_functions.py:90-103 | one pass of the loop body: a failure ends the fold, a skipped entry leaves the accumulator as it is, and an image is added and counted unless its shape differs |
| `Masters.Accumulate` | Functions/calibration_functions.py:88-105 | the accumulate-and-count loop returns what the fold specification returns, for whatever per-entry step it is given |
| `Masters.Combine` | Functions/calibration_functions.py:88-107 | the accumulator started from empty_master and divided by the count equals the specified master |
| `Masters.GetBias` | Functions/calibration_functions.py:67-114 | get_bias equals the bias master of the listing |
| `Masters.GetDark` | Functions/calibration_functions.py:116-169 | get_dark equals the dark master, with a bias given as a listing built first |
| `Masters.GetFlat` | Functions/calibration_functions.py:171-231 | get_flat equals the flat master, the bias built first and a dark given as a listing built against that bias |
| `Masters.FoldIsSum` | Functions/calibration_functions.py:90-103 | the fold succeeds if and only if every qualifying frame is corrected and every contribution has the accumulator's shape; then it counts them and each pixel is the start value plus the sum of their pixels |
| `Masters.FoldSkips` | Functions/calibration_functions.py:90-100 | for any step, dropping entries the step skips leaves the fold's result unchanged |
| `Masters.FoldSkipsUnqualified` | Functions/calibration_functions.py:90-100 | folding the whole listing equals folding only its qualifying entries |
| `Masters.ContributionsCount` | Functions/calibration_functions.py:88-97 | one contribution per entry the step does not skip, so `count` is the number of qualifying entries |
| `Masters.MasterIsAverage` | Functions/calibration_functions.py:88-107 | the master exists if and only if empty_master succeeds, the fold succeeds and at least one frame qualifies; then each pixel is the mean of that pixel over the contributions |
| `Masters.PixelSumOfEqual` | Functions/calibration_functions.py:103 | adding n contributions that agree on a pixel gives n times that value |
| `Masters.MasterOfUniform` | Functions/calibration_functions.py:103-107 | contributions that are all uniform v average to a uniform master v |
| `Masters.AverageOfUniform` | Functions/calibration_functions.py:103-107 | an image that is the pixel-wise mean of images all uniform v is uniform v |
| `Masters.MeanOfEqual` | Functions/calibration_functions.py:103-107 | the sum over n images of a pixel they share, divided by n, is that value |
| `Masters.DarkRate` | Functions/calibration_functions.py:152-156 | the dark correction succeeds if and only if the frame trims, has the bias's shape and a non-zero EXPTIME; then each pixel is (data - bias) / EXPTIME |
| `Masters.DarkRateExample` | Functions/calibration_functions.py:156 | a frame of 160 counts over a bias of 100 in 60 s gives a rate of 1 count per second in every pixel |
| `Masters.NormalizePinsMinimum` | Functions/calibration_functions.py:222 | data / np.amin(data) exists if and only if the frame has a pixel and its minimum is non-zero; then some pixel is exactly 1, and with a positive minimum every pixel is at least 1 |
| `Masters.NormalizeUniform` | Functions/calibration_functions.py:222 | a uniform non-zero flat normalises to all ones |
| `Stats.Insert` | Functions/calibration_functions.py:346 | one step of the sort np.median applies: `x` placed before the first element that is not smaller; `Stats.InsertSorted` states its result |
| `Stats.InsertAdds` | Functions/calibration_functions.py:346 | inserting adds exactly the new element to the multiset of elements |
| `Stats.Sort` | Functions/calibration_functions.py:346 | np.sort as an insertion sort; `Stats.SortSorted` states that it yields a sorted permutation |
| `Stats.Median` | Functions/calibration_functions.py:346 | np.median: the middle of the sorted values, or the mean of the two middle ones for an even count; `Stats.MedianBetween` bounds it |
| `Stats.Interpolate` | Functions/calibration_functions.py:329-331 | numpy's linear interpolation at a fractional position of sorted values; `Stats.InterpolateBetween` and `Stats.InterpolateMonotone` state its properties |
| `Stats.Lerp` | Functions/calibration_functions.py:329-331 | the point a fraction g of the way from a to b, a + (b - a) * g, as numpy's linear method computes it; `Stats.LerpBetween` and `Stats.LerpMonotone` state its properties |
| `Stats.LerpBetween` | Functions/calibration_functions.py:329-331 | a point between two values lies within any bounds of both |
| `Stats.LerpMonotone` | Functions/calibration_functions.py:329-331 | on a rising segment a larger fraction never gives a smaller point |
| `Stats.Percentile` | Functions/calibration_functions.py:329-331 | np.percentile with the default linear method: the sorted values interpolated at q/100 * (n - 1); `Stats.PercentileBetween` and `Stats.PercentileMonotone` state its properties |
| `Stats.InsertSorted` | Functions/calibration_functions.py:346 | inserting into a sorted sequence keeps it sorted and adds exactly the new element |
| `Stats.SortSorted` | Functions/calibration_functions.py:346 | the sort used by np.median and np.percentile yields a sorted permutation |
| `Stats.SortedElementsFrom` | Functions/calibration_functions.py:346 | every element of the sorted sequence comes from the input |
| `Stats.MedianBetween` | Functions/calibration_functions.py:346 | np.median lies between the smallest and the largest value |
| `Stats.Rank` | Functions/calibration_functions.py:329-331 | the linear-method position q/100 * (n - 1) lies in 0..n-1 |
| `Stats.InterpolateBetween` | Functions/calibration_functions.py:329-331 | interpolating between sorted values stays within any bounds of those values |
| `Stats.PercentileBetween` | Functions/calibration_functions.py:329-331 | np.percentile lies between the smallest and the largest value |
| `Stats.InterpolateMonotone` | Functions/calibration_functions.py:329-331 | on sorted values a later position never interpolates to a smaller value |
| `Stats.PercentileMonotone` | Functions/calibration_functions.py:329-331 | a lower percentile is never above a higher one |
| `Stats.RearrangedUniqueMax` | Functions/calibration_functions.py:329 | in any sorted rearrangement of values whose maximum is unique, that maximum comes last and the value before it is smaller |
| `Stats.RearrangedUniqueMin` | Functions/calibration_functions.py:331 | in any sorted rearrangement of values whose minimum is unique, that minimum comes first and the value after it is larger |
| `Stats.RankBelowTop` | Functions/calibration_functions.py:329 | below the 100th percentile the linear-method position is short of the last position |
| `Stats.RankAboveBottom` | Functions/calibration_functions.py:331 | above the 0th percentile the linear-method position is past the first position |
| `Stats.InterpolateBelowLast` | Functions/calibration_functions.py:329 | short of the last position, interpolation on sorted values whose last value is unique stays below it |
| `Stats.InterpolateAboveFirst` | Functions/calibration_functions.py:331 | past the first position, interpolation on sorted values whose first value is unique stays above it |
| `Stats.PercentileBelowUniqueMax` | Functions/calibration_functions.py:329 | any percentile below the 100th is strictly below a value larger than all others |
| `Stats.PercentileAboveUniqueMin` | Functions/calibration_functions.py:331 | any percentile above the 0th is strictly above a value smaller than all others |
| `Lines.Profile` | Functions/calibration_functions.py:327 | np.sum(axis=0): one total per column |
| `Lines.ColumnSum` | Functions/calibration_functions.py:327 | the total of one column over the first n rows; `Lines.ColumnSumUniform` states it for a uniform image |
| `Lines.IndicesWhere` | Functions/calibration_functions.py:333-334 | the enumerate filter gives exactly the indices whose flag is set, strictly ascending, and none when no flag is set |
| `Lines.BrightColumns` | Functions/calibration_functions.py:329-333 | c is a bright line if and only if c is a column whose total is strictly above the max_lim percentile of the totals; ascending |
| `Lines.DarkColumns` | Functions/calibration_functions.py:331-334 | c is a dark line if and only if c is a column whose total is strictly below the min_lim percentile of the totals; ascending |
| `Lines.Flagged` | Functions/calibration_functions.py:337 | every column in the repair order is a column of the image |
| `Lines.Window` | Functions/calibration_functions.py:340-345 | index_list gains at most one value per offset, and some value once the offset 0 is passed for a column of the row |
| `Lines.WindowStep` | Functions/calibration_functions.py:341-345 | each further offset appends what that offset picks |
| `Lines.PyIndex` | Functions/calibration_functions.py:343 | numpy's reading of an index into a row: inside the row as is, down to -len(row) counted from the end, otherwise an IndexError; `Lines.PickDirect`, `Lines.PickWrapped` and `Lines.PickBeyond` state it |
| `Lines.Pick` | Functions/calibration_functions.py:342-345 | what one `try: index_list.append(data[row][col+n])` adds: the pixel read, or nothing when the index raises |
| `Lines.Neighbourhood` | Functions/calibration_functions.py:341-345 | the values `index_list` holds after all eleven offsets -5..5; `Lines.NeighbourhoodInterior`, `Lines.NeighbourhoodFirstColumn` and `Lines.NeighbourhoodLastColumn` state it |
| `Lines.PickDirect` | Functions/calibration_functions.py:343 | an index inside the row appends that pixel |
| `Lines.PickWrapped` | Functions/calibration_functions.py:343 | a negative index down to -len(row) appends the pixel counted from the row's end |
| `Lines.PickBeyond` | Functions/calibration_functions.py:342-345 | an index past the end appends nothing, the IndexError being swallowed |
| `Lines.RepairPixel` | Functions/calibration_functions.py:346 | repairing one pixel keeps the row's length |
| `Lines.RepairColumn` | Functions/calibration_functions.py:339-346 | repairing a column keeps the image's shape |
| `Lines.RepairAll` | Functions/calibration_functions.py:337-346 | repairing a list of columns in turn keeps the image's shape |
| `Lines.Cleaned` | Functions/calibration_functions.py:326-347 | remove_lines keeps the image's shape |
| `Lines.CollectWindow` | Functions/calibration_functions.py:340-345 | the try/except loop over n in -5..5 collects exactly the specified window of the current row |
| `Lines.RepairPixelInPlace` | Functions/calibration_functions.py:340-346 | data[row][col] becomes the median of its window and no other pixel changes |
| `Lines.RepairColumnInPlace` | Functions/calibration_functions.py:339-346 | the loop over the rows leaves the array holding the image with that column repaired |
| `Lines.RepairedColumnMirrors` | Functions/calibration_functions.py:339-346 | an array whose column holds the row medians and whose other pixels are unchanged holds the repaired image |
| `Lines.RepairColumnsInPlace` | Functions/calibration_functions.py:338-346 | the loop over one line list leaves the array holding the image with those columns repaired in order |
| `Lines.RepairAllAppend` | Functions/calibration_functions.py:337-338 | repairing the bright list and then the dark list equals repairing their concatenation |
| `Lines.CopyIn` | Functions/calibration_functions.py:326 | img.copy(): a fresh array holding the image |
| `Lines.ReadBack` | Functions/calibration_functions.py:347 | the returned array is the image the array holds |
| `Lines.RemoveLines` | Functions/calibration_functions.py:301-347 | the in-place repair returns exactly the specified cleaned image |
| `Lines.FlagsDisjoint` | Functions/calibration_functions.py:329-334 | with min_lim <= max_lim no column is both bright and dark |
| `Lines.DefaultLimitsDisjoint` | Functions/calibration_functions.py:301 | the defaults `max_lim=95` and `min_lim=10` (the constants `Lines.MaxLim` and `Lines.MinLim`) are percentile limits in 0..100 with min_lim <= max_lim, so with them no column is both a bright and a dark line |
| `Lines.BrightestColumnFlagged` | Functions/calibration_functions.py:329-333 | with at least two columns, a column whose total is strictly above every other column's is a bright line at the default max_lim of 95 |
| `Lines.DarkestColumnFlagged` | Functions/calibration_functions.py:331-334 | with at least two columns, a column whose total is strictly below every other column's is a dark line at the default min_lim of 10 |
| `Lines.WindowPrefix` | Functions/calibration_functions.py:341-345 | the values collected up to an offset are a prefix of those collected up to any later offset |
| `Lines.WindowFromRow` | Functions/calibration_functions.py:341-345 | every value in a window is a pixel of the row |
| `Lines.NeighbourhoodHasCentre` | Functions/calibration_functions.py:341-346 | the pixel being repaired is among the values of its median |
| `Lines.WindowInRange` | Functions/calibration_functions.py:341-345 | offsets landing inside the row read the row's consecutive pixels |
| `Lines.WindowWrapped` | Functions/calibration_functions.py:341-345 | negative column indices down to -len(row) read the row's pixels counted from its end |
| `Lines.WindowBeyond` | Functions/calibration_functions.py:342-345 | offsets past the end of the row add nothing (the IndexError is swallowed) |
| `Lines.NeighbourhoodInterior` | Functions/calibration_functions.py:341-345 | at least five columns from both edges, the window is the eleven pixels centred on the column |
| `Lines.NeighbourhoodFirstColumn` | Functions/calibration_functions.py:341-345 | in column 0 the window is the last five pixels of the row followed by the first six |
| `Lines.NeighbourhoodLastColumn` | Functions/calibration_functions.py:341-345 | in the last column the window is the row's last six pixels |
| `Lines.RepairPixelBetween` | Functions/calibration_functions.py:346 | a repaired pixel lies between the smallest and the largest pixel of its row |
| `Lines.RepairColumnBounded` | Functions/calibration_functions.py:339-346 | repairing a column keeps every pixel within any bounds of the image |
| `Lines.RepairAllBounded` | Functions/calibration_functions.py:337-346 | repairing any column list, each repair reading the earlier ones, keeps every pixel within the image's bounds |
| `Lines.RepairAllKeeps` | Functions/calibration_functions.py:337-346 | a column not in the list is left unchanged |
| `Lines.CleanedFacts` | Functions/calibration_functions.py:326-347 | remove_lines keeps pixels within the input's bounds and leaves unchanged every column whose total lies between the two percentiles |
| `Lines.ColumnSumUniform` | Functions/calibration_functions.py:327 | each column of a uniform image totals v times the row count |
| `Lines.UniformProfile` | Functions/calibration_functions.py:327 | every column total of a uniform image is v times the row count |
| `Lines.ConstantPercentile` | Functions/calibration_functions.py:329-331 | every percentile of a constant profile is that constant |
| `Lines.UniformNotFlagged` | Functions/calibration_functions.py:327-334 | a uniform image has no bright or dark line |
| `Lines.CleanedUniform` | Functions/calibration_functions.py:301-347 | remove_lines returns a uniform image unchanged |
| `Science.GetScience` | Functions/calibration_functions.py:265-299 | get_science equals its specification: masters resolved bias, then dark, then flat; then every FITS entry reduced in listing order, stopping at the first failure |
| `Science.Calibrate` | Functions/calibration_functions.py:285 | ((data - bias) / EXPTIME - dark) / flat for one trimmed frame, failing on a shape mismatch, a zero EXPTIME or a zero flat pixel; `Science.CalibrateUniform` and `Science.ReduceExample` state its values |
| `Science.Reducer` | Functions/calibration_functions.py:283-287 | the per-frame work of get_science's loop against fixed masters, as a step for `Science.ScienceFold` and `Science.Records` |
| `Science.Reduce` | Functions/calibration_functions.py:283-287 | one science frame trimmed, calibrated and passed through remove_lines with the default limits; `Science.ReduceUniform` states it for uniform data |
| `Science.ScienceFold` | Functions/calibration_functions.py:273-297 | get_science's loop from the records so far and the next counter, each FITS frame reduced by the step it is given; `Science.ScienceFoldIsRecords` ties it to the reference records |
| `Science.ScienceOf` | Functions/calibration_functions.py:265-299 | get_science as a value: the three masters resolved in order, then the loop from counter 1; `Science.GetScience` is proved equal to it |
| `Science.FitsEntries` | Functions/calibration_functions.py:276 | the entries handled are exactly the listing's FITS entries |
| `Science.FitsTest` | Functions/calibration_functions.py:276 | the test `'fits' in file` as a predicate on listing entries |
| `Science.Records` | Functions/calibration_functions.py:273-297 | reference definition of get_science's result, from the front: one record per FITS entry, numbered on from the counter; `Science.RecordsOk` and `Science.RecordsValue` state it |
| `Science.ScienceFoldIsRecords` | Functions/calibration_functions.py:273-297 | the loop's fold appends the front-to-back reference records to the records done so far, or fails as they do |
| `Science.RecordsOk` | Functions/calibration_functions.py:274-288 | the records exist if and only if every FITS entry reduces |
| `Science.RecordsFirst` | Functions/calibration_functions.py:276-288 | when the listing starts with a FITS entry, the records start with that entry's record and continue with the rest, numbered one higher |
| `Science.NumberedCons` | Functions/calibration_functions.py:276-297 | a record numbered count in front of records numbered from count + 1 gives records numbered from count |
| `Science.RecordsValue` | Functions/calibration_functions.py:273-297 | the k-th record belongs to the k-th FITS entry: its name, its image, counter count + k and its CRDER2S value |
| `Science.ScienceIsPerFrame` | Functions/calibration_functions.py:265-299 | with given masters, get_science succeeds if and only if every FITS frame reduces; then it returns one record per FITS file in listing order, numbered from 1, each with its CRDER2S value and its calibrated, cleaned image |
| `Science.CalibrateUniform` | Functions/calibration_functions.py:280-285 | uniform raw data against uniform masters calibrates to the uniform value ((raw - b) / t - d) / f |
| `Science.ReduceUniform` | Functions/calibration_functions.py:280-288 | such a frame reduces to that uniform value, because remove_lines leaves it unchanged |
| `Science.ReduceExample` | Functions/calibration_functions.py:285-288 | raw 1100, bias 100, a 30 s exposure, dark 1 and flat 1 reduce to 97/3 in every pixel |

## Left out

- FITS input and output are parameters. The header is a record of the four
  keywords read (EXPTIME, COVER, ROVER, CRDER2S). A listing entry carries its
  file name, header and data. `os.listdir` is that listing, in the order
  given.
- The `save_path` writes (`make_dir`, `Bias.fits`, `Dark.fits`, `Flat.fits`,
  `Sci_<n>.fits`) are not modelled. For science frames, the counter `n` and
  the ERROR value of each file are kept in the returned record.
- `make_dir` and the `print` diagnostics are not modelled: the first is file
  system work, the second is output only.
- `sigma_clip(data, 5)` is the identity. It comes from astropy, which is not
  part of this model, and its masked-array result is not modelled.
- The model uses exact reals, not IEEE floating point. numpy turns a division
  by zero into inf or NaN with a warning, but the model reports a failure
  instead. This covers:
  - a count of 0: `NoQualifyingFrames`;
  - an EXPTIME of 0 for a dark, flat or science frame: `ZeroExposure`;
  - a flat frame whose minimum is 0: `ZeroMinimum`;
  - a master flat pixel of 0: `ZeroFlatPixel`.
- numpy broadcasting is not modelled, for example a one-row master against a
  full frame. Any shape difference in `+=`, `-` or `/` is the failure
  `ShapeMismatch`.
- `empty_master` with no FITS file prints and returns `None`. The loop then
  never reaches `+=`, since every entry fails the `'fits' in file` test (lines
  92, 148 and 210). What raises is `master/count` (lines 107, 162 and 224):
  `None / 0` is a TypeError. This is modelled as the failure `NoFitsFile`
  from the start.
- Lines.RemoveLines: requires at least one column and percentile limits in
  0..100. numpy raises for a percentile of an empty profile and for limits
  outside that range. The pipeline always passes 95 and 10, and
  `Science.Reduce` reports an image without columns as `EmptyProfile`.
- `Functions/photometry_functions.py`, `Functions/general_functions.py` and
  `1. Calibration.py` are not part of this model.
