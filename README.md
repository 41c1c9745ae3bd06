# so-fronts core in Dafny

so-fronts clusters Southern Ocean profiles with a Gaussian mixture model. It
computes, for every location and time, the I-metric. This metric measures how
sure the model is that the location sits between two clusters. The project
then finds fronts as the places where the I-metric is high.

This project models the parts of the repository that turn those arrays into
fronts and figures:

- **`ToPairIMetric`** models `src/models/to_pair_i_metric.py`. It splits the
  I-metric by the pair of clusters (a, b) a location sits between:
  - the two cluster labels of every location are sorted;
  - every candidate pair is tried, each one yielding a (time, Y, X) grid that
    holds the metric where the labels are exactly the pair and the metric
    reaches the threshold, and NaN elsewhere;
  - pairs that never fire are dropped;
  - the rest are stacked along a `pair` axis labelled "a+1 to b+1".
- **`RankSort`** models `np.sort` and `np.nanmax` on label vectors. A label is
  `Option<int>`; `None` is NaN, which `np.sort` puts last.
- **`XrValuesLoader`** models `order_indexes` and `_old_order_indexes` in
  `src/data_loading/xr_values_loader.py`. They turn a labelled array into a
  bare array whose axes follow a requested order of names:
  - `order_indexes` matches axes by name;
  - `_old_order_indexes` matches axes by length.
- **`Tensors`** is the n-dimensional array these work on. It is a shape and
  row-major data, with `np.moveaxis` written as a transpose by an axis order.
- **`KoPlot`** models `is_too_far` and `split_into_list_of_lists`. These cut a
  front line into segments wherever two consecutive points are too far apart.
- **`Map`** models `find_isobath`, the scan that outlines the 2000 m isobath
  on the Southern Ocean map.
- **`LatexStyle`** models `tex_escape` and `proper_units`. These rewrite
  attribute strings for LaTeX by single-pass table substitution.
- **`Colors`** models:
  - the palette table;
  - reading `#rrggbb` strings, both as the source does (channels 0 to 255,
    unscaled) and corrected (each channel over 255);
  - the segment data of fading colour maps;
  - cycling a palette into one colour map per cluster, as written and
    corrected.
- **`IoNameConventions`** models the file and folder names built from the
  number of clusters K and the number of principal components.
- **`Common`**, **`Decimal`** and **`Constants`** hold shared pieces:
  - `Option`, `Result` and the Python exceptions;
  - `str(int)` with its parser;
  - the coordinate names and the default depth.

Python's exceptions are `Err` values of a `Result`. Floats are reals. A NaN
is the `None` of an `Option`. Coordinates are represented by their lengths.
Matplotlib colour maps are represented by the segment data they are built
from.

## Model

| member | source | states |
|---|---|---|
| Common.IndexOf | src/data_loading/xr_values_loader.py:19 | `list.index`: the first position holding the value, or none when it is absent |
| Common.IndexOfDistinct | src/data_loading/xr_values_loader.py:19 | in a list without repeats, `index` of the element at position p is p |
| Common.ConcatAppend | src/plot_utils/ko_plot.py:92-93 | flattening a list of lists with one more list appended appends that list's elements |
| Decimal.NatToString | src/data_loading/io_name_conventions.py:15 | `str` of a natural number: a non-empty run of digits that starts with '0' only for zero (no leading zeros) |
| Decimal.NatToStringDigits | src/data_loading/io_name_conventions.py:15 | `str` of a natural number is a non-empty string of digits whose decimal value is the number |
| Decimal.ParseIntToString | src/data_loading/io_name_conventions.py:15 | `str(i)` parses back to `i` for every integer |
| Decimal.IntToStringInjective | src/data_loading/io_name_conventions.py:15 | different integers print differently |
| Decimal.IntToStringShape | src/data_loading/io_name_conventions.py:15 | `str(i)` is non-empty and every character after the first is a digit |
| Decimal.IntToString | src/data_loading/io_name_conventions.py:15 | `str(i)` is non-empty and starts with "-" exactly when i is negative |
| Decimal.SplitAfterInt | src/models/to_pair_i_metric.py:107 | when `str(i) + u == str(j) + v` and u, v start with a non-digit, then i == j and u == v |
| Common.Range | src/data_loading/xr_values_loader.py:22 | `list(range(n))`: the numbers 0 to n - 1 in order |
| Tensors.Inverse | src/data_loading/xr_values_loader.py:22-23 | the inverse of an axis permutation sends each axis back to where it came from |
| Tensors.Transpose | src/data_loading/xr_values_loader.py:23 | a transpose by an axis permutation has axis k as long as input axis `order[k]` |
| Tensors.Offset | src/data_loading/xr_values_loader.py:23 | the row-major position of an in-bounds index lies inside the data |
| Tensors.UnflattenOffset | src/data_loading/xr_values_loader.py:23 | decoding a row-major position gives back the index it was encoded from |
| Tensors.InverseFacts | src/data_loading/xr_values_loader.py:22-23 | the inverse of an axis permutation is a permutation, and composing the two either way gives the identity |
| Tensors.TransposeAt | src/data_loading/xr_values_loader.py:23 | `moveaxis(a, order, range(n))`: the element at index idx is the input element at the index whose axis `order[k]` is `idx[k]` |
| Tensors.TransposeIdentity | src/data_loading/xr_values_loader.py:23 | moving no axis leaves the array unchanged |
| Tensors.TransposeRoundTrip | src/data_loading/xr_values_loader.py:23 | transposing by an order and then by its inverse restores the array |
| Tensors.InverseOfInvolution | src/data_loading/xr_values_loader.py:18-23 | a self-inverse permutation is its own inverse |
| Tensors.UnmovedOfPermutation | src/data_loading/xr_values_loader.py:52 | when every axis is moved to the front, no axis is left behind |
| Tensors.MoveAxisToFront | src/data_loading/xr_values_loader.py:52 | `moveaxis(a, source, range(len(source)))`: AxisError for an out-of-range axis, ValueError for a repeated one, otherwise the source axes in order followed by the others |
| Tensors.MoveAxisToFrontPermutation | src/data_loading/xr_values_loader.py:52 | moving a full permutation to the front is the transpose by it |
| Tensors.MoveAxisFromFront | src/data_loading/xr_values_loader.py:23 | `moveaxis(a, range(n), destination)`: AxisError for an out-of-range axis, ValueError for a repeated one, and otherwise the transpose by the inverse of the destination |
| Tensors.Nest3At | src/models/to_pair_i_metric.py:49 | the nested view of a three-axis array holds its element at (i, j, k) |
| Tensors.Nest4At | src/models/to_pair_i_metric.py:47 | the nested view of a four-axis array holds its element at (i, r, j, k) |
| XrValuesLoader.Positions | src/data_loading/xr_values_loader.py:16-19 | `init_list[k]` is the first position of `dims[k]` in the request, and distinct dims give distinct positions |
| XrValuesLoader.ReorderableFacts | src/data_loading/xr_values_loader.py:18-23 | when every dim is listed within the first n names, the positions form a permutation and request name m is dim `inverse[m]` |
| XrValuesLoader.InitList | src/data_loading/xr_values_loader.py:16-19 | the append loop yields the positions, or ValueError exactly when some dim is not in the request |
| XrValuesLoader.OrderIndexes | src/data_loading/xr_values_loader.py:13-25 | as written: ValueError iff a dim is missing from the request, AxisError iff a position falls outside the axes, otherwise result axis k is input axis `init_list[k]` |
| XrValuesLoader.OrderIndexesCorrected | src/data_loading/xr_values_loader.py:13-25 | the intended reordering: same errors, result axis k is the input axis named `index_list[k]` |
| XrValuesLoader.OrderIndexesNames | src/data_loading/xr_values_loader.py:18-23 | the axes of the as-written result carry the requested names exactly when the permutation is self-inverse |
| XrValuesLoader.OrderIndexesCorrectedNames | src/data_loading/xr_values_loader.py:18-23 | the corrected result's axis k is always named `index_list[k]` |
| XrValuesLoader.OrderIndexesCorrectedShape | src/data_loading/xr_values_loader.py:22-23 | the corrected result's axis k has the length of the input axis named `index_list[k]` |
| XrValuesLoader.OrderIndexesAgreeOnInvolution | src/data_loading/xr_values_loader.py:18-23 | on a self-inverse permutation (a swap) the code as written gives the intended array |
| XrValuesLoader.RankSwapIsInvolution | src/models/to_pair_i_metric.py:71-73 | the request of `pair_i_metric`, (rank, time, YC, XC) to (time, rank, YC, XC), is a swap, so it is self-inverse |
| XrValuesLoader.OrderIndexesThreeCycle | src/data_loading/xr_values_loader.py:16-19 | dims (YC, XC, time) with request (time, YC, XC) give `init_list` [1, 2, 0] |
| XrValuesLoader.OrderIndexesThreeCycleNames | src/data_loading/xr_values_loader.py:22-23 | for that three-cycle the code as written yields axes (XC, time, YC), while the corrected reordering yields (time, YC, XC) |
| XrValuesLoader.OrderIndexesIdentity | src/data_loading/xr_values_loader.py:18-23 | requesting the array's own dims returns it unchanged, as written and corrected |
| XrValuesLoader.OrderIndexesRoundTrip | src/data_loading/xr_values_loader.py:22-23 | reordering the as-written result back to the original dims restores the values: elements are moved, never changed |
| XrValuesLoader.OrderIndexesCorrectedRoundTrip | src/data_loading/xr_values_loader.py:22-23 | the same round trip for the corrected reordering |
| XrValuesLoader.Dedup | src/data_loading/xr_values_loader.py:34 | the keys of an OrderedDict: no repeats and the same elements as the input |
| XrValuesLoader.DedupDistinct | src/data_loading/xr_values_loader.py:34 | a list without repeats keeps its keys as they are |
| XrValuesLoader.Assign | src/data_loading/xr_values_loader.py:34 | setting a key in an ordered dict keeps its place, or appends it when it is new |
| XrValuesLoader.OrderedDictOf | src/data_loading/xr_values_loader.py:34 | an OrderedDict built from pairs has distinct keys |
| XrValuesLoader.OrderedDictOfLookup | src/data_loading/xr_values_loader.py:34 | its keys are the deduplicated keys of the pairs, each with the value of its table entry |
| XrValuesLoader.OrderedDictOfDistinct | src/data_loading/xr_values_loader.py:45 | pairs with distinct keys make a dict equal to the pairs |
| XrValuesLoader.LengthSources | src/data_loading/xr_values_loader.py:42-49 | for each requested coordinate (repeats dropped), the first axis whose length equals the coordinate's length |
| XrValuesLoader.CoordsList | src/data_loading/xr_values_loader.py:30-32 | each requested name with its coordinate's length, or KeyError exactly when a name is not a coordinate |
| XrValuesLoader.LengthPositions | src/data_loading/xr_values_loader.py:38-45 | each key with the first axis of matching length, or ValueError exactly when some length is no axis's length |
| XrValuesLoader.LengthsFoundIff | src/data_loading/xr_values_loader.py:43-44 | every `shape.index` lookup over the dict succeeds exactly when every requested coordinate's length is some axis's length |
| XrValuesLoader.OldOrderIndexes | src/data_loading/xr_values_loader.py:28-56 | `_old_order_indexes` returns or raises what the length-matching specification prescribes |
| XrValuesLoader.OldOrderIndexesEqualLengths | src/data_loading/xr_values_loader.py:42-52 | two different requested coordinates of equal length pick the same axis, and `moveaxis` raises ValueError |
| XrValuesLoader.FullRequestFacts | src/data_loading/xr_values_loader.py:30-45 | a request naming every dim once, all of them coordinates, is reorderable and every lookup succeeds |
| XrValuesLoader.LengthSourcesAreInverse | src/data_loading/xr_values_loader.py:40-52 | when all axis lengths differ, matching by length finds the axes that matching by name would |
| XrValuesLoader.OldOrderIndexesDistinctLengths | src/data_loading/xr_values_loader.py:40-52 | then `_old_order_indexes` returns the intended reordering |
| RankSort.Insert | src/models/to_pair_i_metric.py:74 | inserting a label adds exactly that label |
| RankSort.InsertSorted | src/models/to_pair_i_metric.py:74 | inserting into a sorted vector keeps it sorted, NaN last |
| RankSort.SortRanks | src/models/to_pair_i_metric.py:74 | `np.sort` of a label vector: sorted ascending with NaN last, and a permutation of the input |
| RankSort.SortedUnique | src/models/to_pair_i_metric.py:74 | two sorted vectors with the same elements are equal |
| RankSort.SortRanksOrderFree | src/models/to_pair_i_metric.py:74 | vectors with the same labels in any order sort alike, so (3, 1) and (1, 3) meet the same pair |
| RankSort.SortRanksIdempotent | src/models/to_pair_i_metric.py:74 | sorting a sorted vector changes nothing |
| RankSort.SortRanksPair | src/models/to_pair_i_metric.py:74 | a two-label vector sorts to its two labels in order, NaN last |
| RankSort.NanMax | src/models/to_pair_i_metric.py:80 | `np.nanmax`: NaN exactly when every label is NaN, otherwise a present label no smaller than any other |
| ToPairIMetric.ListNo | src/models/to_pair_i_metric.py:80 | `list_no` is 0, 1, ..., M, and empty when M is negative |
| ToPairIMetric.CartProd | src/models/to_pair_i_metric.py:82-84 | every pair the comprehension yields has a < b, as the filter `a <= b and a != b` demands |
| ToPairIMetric.CandidatePairs | src/models/to_pair_i_metric.py:80-84 | `cart_prod` over `list_no` holds a pair (a, b) exactly when a < b <= M |
| ToPairIMetric.RowPairsRange | src/models/to_pair_i_metric.py:82-84 | for a fixed `a` the comprehension yields (a, a+1), ..., (a, n-1) |
| ToPairIMetric.RowMembers | src/models/to_pair_i_metric.py:82-84 | one outer step of the comprehension yields exactly the pairs (a, b) with a < b < n |
| ToPairIMetric.CartProdMembers | src/models/to_pair_i_metric.py:82-84 | the candidates are exactly the pairs with a < m and a < b < n |
| ToPairIMetric.CartProdIncreasing | src/models/to_pair_i_metric.py:82-84 | candidates come in strictly increasing lexicographic order, a outer and b inner |
| ToPairIMetric.CartProdCount | src/models/to_pair_i_metric.py:82-84 | for m ≤ n there are m(2n - m - 1)/2 candidates |
| ToPairIMetric.CandidatePairsFacts | src/models/to_pair_i_metric.py:80-84 | with M = int(nanmax), the candidates are exactly the pairs 0 ≤ a < b ≤ M, in lexicographic order, M(M+1)/2 of them |
| ToPairIMetric.CandidatePairsCount | src/models/to_pair_i_metric.py:80-84 | M + 1 labels give M(M+1)/2 candidate pairs |
| ToPairIMetric.Fiber | src/models/to_pair_i_metric.py:47 | `sorted_version[i, :, j, k]`: the labels of one location along the rank axis |
| ToPairIMetric.SortRankAxis | src/models/to_pair_i_metric.py:74 | `np.sort(..., axis=1)` keeps the shape |
| ToPairIMetric.SortRankAxisElement | src/models/to_pair_i_metric.py:74 | each element of the sorted array is the corresponding element of its location's sorted vector |
| ToPairIMetric.SortRankAxisAt | src/models/to_pair_i_metric.py:74 | each location's rank vector in the sorted array is sorted and a permutation of the original |
| ToPairIMetric.RankVector | src/models/to_pair_i_metric.py:47 | the rank vector of location (i, j, k) in the nested view |
| ToPairIMetric.Cell | src/models/to_pair_i_metric.py:47-51 | a cell is written iff the sorted vector equals the pair (`Matches`: exactly the two labels, as `np.array_equal`) and the metric is at least the threshold (`AtLeast`: NaN never is), and the written value is the metric |
| ToPairIMetric.MakeOnePairIMetric | src/models/to_pair_i_metric.py:34-53 | a fresh (time, Y, X) grid holding the pair's cell value everywhere (NaN unless written), and a flag true iff some cell was written |
| ToPairIMetric.FillPlane | src/models/to_pair_i_metric.py:45-52 | the loops over Y and X at one time write that time's cells and leave the others NaN |
| ToPairIMetric.FillRow | src/models/to_pair_i_metric.py:46-52 | the loop over X at one (time, Y) writes that row's cells and leaves the others NaN |
| ToPairIMetric.MakeAllPairIMetric | src/models/to_pair_i_metric.py:10-30 | keeps exactly the candidates that fire somewhere, in candidate order, with one grid for each pair that holds that pair's cells |
| ToPairIMetric.KeptPairs | src/models/to_pair_i_metric.py:18-25 | the kept pairs are candidates, and there are no more of them than candidates |
| ToPairIMetric.KeptPairsMembers | src/models/to_pair_i_metric.py:18-25 | a pair is kept iff it is a candidate and fires at some location |
| ToPairIMetric.KeptPairsIncreasing | src/models/to_pair_i_metric.py:18-25 | pruning preserves the candidates' increasing order |
| ToPairIMetric.FiresForOnePair | src/models/to_pair_i_metric.py:44-51 | a location fires for at most one pair, so its value lands in at most one kept grid |
| ToPairIMetric.PairCoverage | src/models/to_pair_i_metric.py:44-51 | a location with sorted labels (a, b), a < b ≤ M, and a metric at least the threshold has its pair kept, and that grid holds its metric |
| ToPairIMetric.OnlyTwoLabelsFire | src/models/to_pair_i_metric.py:47 | a rank axis of length other than 2 never equals a pair, so no pair is kept |
| ToPairIMetric.LabelInjective | src/models/to_pair_i_metric.py:105-108 | different pairs get different "a+1 to b+1" labels (`Label`, the string one pair is shown as) |
| ToPairIMetric.LabelExample | src/models/to_pair_i_metric.py:107 | pair (0, 1) is labelled "1 to 2" |
| ToPairIMetric.Labels | src/models/to_pair_i_metric.py:103-108 | one label per kept pair, in order |
| ToPairIMetric.LabelsDistinct | src/models/to_pair_i_metric.py:103-108 | distinct pairs give a `pair` coordinate without repeats |
| ToPairIMetric.PairLabels | src/models/to_pair_i_metric.py:103-108 | the append loop builds exactly the labels of the pair list |
| ToPairIMetric.StackGrids | src/models/to_pair_i_metric.py:94-101 | a fresh (pair, time, Y, X) array whose slice n is grid n |
| ToPairIMetric.DropAt | src/models/to_pair_i_metric.py:76 | removing one axis from a shape |
| ToPairIMetric.InsertAt | src/models/to_pair_i_metric.py:76 | putting the selected position back into an index |
| ToPairIMetric.InsertAtInBounds | src/models/to_pair_i_metric.py:76 | an index of the sliced array, widened with position 0, is in bounds of the original |
| ToPairIMetric.SliceFirst | src/models/to_pair_i_metric.py:76 | the slice at position 0 of an axis: that axis is dropped and element idx is the original's at idx with 0 inserted |
| ToPairIMetric.UnflattenOffsetAll | src/models/to_pair_i_metric.py:76 | every in-bounds index survives a row-major encode and decode |
| ToPairIMetric.SelectFirst | src/models/to_pair_i_metric.py:76 | `isel(Imetric=0)`: ValueError iff the dim is missing, IndexError iff it is empty, otherwise the first slice with that dim dropped |
| ToPairIMetric.SelectFirstValid | src/models/to_pair_i_metric.py:76 | dropping a dim keeps the dims distinct and the coordinates consistent |
| ToPairIMetric.SelectFirstSizes | src/models/to_pair_i_metric.py:76 | every remaining dim keeps its length |
| ToPairIMetric.RankArray | src/models/to_pair_i_metric.py:71-73 | `A_B_values`, reordered by the corrected `order_indexes`: axis k of the label array has the length of the dim named by request entry k |
| ToPairIMetric.SortedVersion | src/models/to_pair_i_metric.py:74 | `sorted_version` keeps the number of axes |
| ToPairIMetric.GridArray | src/models/to_pair_i_metric.py:75-77 | the first I-metric, reordered by the corrected `order_indexes` to (time, YC, XC): axis k has the length of the dim named by request entry k |
| ToPairIMetric.ComputableShapes | src/models/to_pair_i_metric.py:37-49 | the label array (time, rank, Y, X) and the metric (time, Y, X) agree in time, Y and X, so every index in the loops is in bounds |
| ToPairIMetric.NamedLengthsAgree | src/models/to_pair_i_metric.py:71-77 | dims named alike in the two arrays have equal lengths |
| ToPairIMetric.OutputCoords | src/models/to_pair_i_metric.py:113-118 | the coordinates of the result: the dataset's X, Y and time, plus one label per kept pair |
| ToPairIMetric.PairGrids | src/models/to_pair_i_metric.py:80-101 | the kept pairs of `cart_prod`, in order, and the stacked array whose slice i holds pair i's cells |
| ToPairIMetric.SplitByPair | src/models/to_pair_i_metric.py:80-121 | dims (pair, time, YC, XC), label i from kept pair i, slice i from that pair's grid, and KeyError exactly when a dataset coordinate is missing |
| ToPairIMetric.PairIMetric | src/models/to_pair_i_metric.py:56-121 | every error in the order the code meets it, and otherwise the array described above for the sorted labels, the metric and M = int(nanmax) |
| ToPairIMetric.CoordLengths | src/models/to_pair_i_metric.py:113-116 | each dataset coordinate is as long as the result axis it labels |
| ToPairIMetric.ArraysAsWrittenOnInvolution | src/models/to_pair_i_metric.py:71-77 | when both requested orders are swaps or identities of the stored ones, `order_indexes` as written builds the same two arrays as the corrected one |
| ToPairIMetric.DocumentedLayoutAsWritten | src/models/to_pair_i_metric.py:58-77 | for the stored layout the docstring gives, `A_B` as (rank, time, Y, X) and the metric already (time, YC, XC), `order_indexes` as written swaps the first two label axes and leaves the metric alone, exactly as the corrected one does |
| KoPlot.PositiveLon | src/plot_utils/ko_plot.py:43-46 | a longitude is kept or moved by exactly 360 (the same meridian), and one in [-360, 360) lands in [0, 360) |
| KoPlot.IsTooFar | src/plot_utils/ko_plot.py:39-54 | AssertionError iff a latitude is at or below -90; negative longitudes shifted by 360; false across the meridian; otherwise squared distance > m, strictly |
| KoPlot.IsTooFarSymmetric | src/plot_utils/ko_plot.py:43-54 | swapping the two points does not change the answer |
| KoPlot.IsTooFarWestEquivalent | src/plot_utils/ko_plot.py:43-46 | a longitude and the same meridian written 360 lower are treated alike |
| KoPlot.IsTooFarSamePoint | src/plot_utils/ko_plot.py:54 | a point is never too far from itself |
| KoPlot.IsTooFarAcrossGreenwich | src/plot_utils/ko_plot.py:49-52 | points either side of Greenwich are not too far, although their planar distance exceeds m |
| KoPlot.ValidCutsFacts | src/plot_utils/ko_plot.py:80-91 | break positions are strictly increasing and lie strictly inside the list |
| KoPlot.ValidCutsWiden | src/plot_utils/ko_plot.py:80-91 | breaks valid for a prefix stay valid for a longer list |
| KoPlot.SplitAt | src/plot_utils/ko_plot.py:76-93 | cutting at k breaks gives k + 1 segments |
| KoPlot.SplitAtConcat | src/plot_utils/ko_plot.py:76-93 | the segments concatenate back to the list |
| KoPlot.SplitAtPiece | src/plot_utils/ko_plot.py:88-93 | segment k is the slice between break k - 1 and break k |
| KoPlot.SplitAtLengths | src/plot_utils/ko_plot.py:76-93 | two lists of equal length cut at the same breaks give segments of pairwise equal, non-zero lengths |
| KoPlot.SplitAtAppend | src/plot_utils/ko_plot.py:92-93 | appending a point without a new break extends the last segment |
| KoPlot.SplitAtAppendCut | src/plot_utils/ko_plot.py:88-93 | appending a point after a new break starts a new segment holding just it |
| KoPlot.FarFlags | src/plot_utils/ko_plot.py:80-87 | one too-far flag per consecutive pair of points |
| KoPlot.FarFlagsStep | src/plot_utils/ko_plot.py:80-87 | one more point adds the flag of the newest pair |
| KoPlot.CutsOf | src/plot_utils/ko_plot.py:80-91 | the positions of the true flags are valid breaks |
| KoPlot.CutsOfMembers | src/plot_utils/ko_plot.py:80-91 | p is a break iff flag p - 1 is true |
| KoPlot.CutsOfStep | src/plot_utils/ko_plot.py:80-91 | a new true flag adds a break at the new point |
| KoPlot.Breaks | src/plot_utils/ko_plot.py:80-91 | the breaks among the first n points are valid |
| KoPlot.BreaksMembers | src/plot_utils/ko_plot.py:80-91 | a new segment starts at index i + 1 exactly when point i is too far from point i + 1 |
| KoPlot.BreaksStep | src/plot_utils/ko_plot.py:80-91 | one more point adds a break exactly when it is too far from the one before |
| KoPlot.SplitStep | src/plot_utils/ko_plot.py:88-93 | one loop step keeps the segments equal to the split of the points seen so far |
| KoPlot.SplitError | src/plot_utils/ko_plot.py:76-87 | the exception raised is AssertionError or IndexError |
| KoPlot.LatitudesRunOut | src/plot_utils/ko_plot.py:84-85 | running out of latitudes before any bad one raises IndexError |
| KoPlot.BadLatitudeReached | src/plot_utils/ko_plot.py:39-40 | a latitude at or below -90 reached by the loop raises AssertionError |
| KoPlot.SplitLoopStep | src/plot_utils/ko_plot.py:80-93 | the loop body extends the x and y segments to the split of one more point |
| KoPlot.SplitIntoListOfLists | src/plot_utils/ko_plot.py:57-95 | fails exactly when the input is not splittable, with the exception the loop meets; otherwise x and y are cut at exactly the too-far breaks |
| KoPlot.SplitIntoListOfListsFacts | src/plot_utils/ko_plot.py:76-93 | the x segments concatenate to the longitudes and the y segments to the latitudes; there is one segment more than there are breaks; x and y segments have equal non-zero lengths |
| KoPlot.SegmentStartsAtBreak | src/plot_utils/ko_plot.py:80-91 | every segment after the first begins with a point too far from its predecessor |
| Map.ShallowCount | src/plot_utils/map.py:57-64 | the number of shallow neighbours among up, left, down and right is at most 4 |
| Map.Before | src/plot_utils/map.py:57-59 | the index before i on an axis; for 0 it is the last index, as Python's index -1 |
| Map.Multiplicity | src/plot_utils/map.py:54-64 | a cell is recorded 0 to 4 times, and only when it is scanned and at least as deep as the critical depth |
| Map.RepeatElements | src/plot_utils/map.py:57-64 | a cell appended n times appears as n equal entries |
| Map.AppendCopy | src/plot_utils/map.py:57-64 | appending one more copy of a cell extends its run by one |
| Map.OccurrencesMultiset | src/plot_utils/map.py:57-64 | counting entries agrees with the multiset of the list |
| Map.RepeatCount | src/plot_utils/map.py:57-64 | a run of n copies of a cell holds it n times and no other cell |
| Map.Counts | src/plot_utils/map.py:54-55 | one entry per scanned row and column, all but the last of each |
| Map.CountsAt | src/plot_utils/map.py:54-64 | the entry of a scanned cell is its multiplicity |
| Map.FindIsobath | src/plot_utils/map.py:49-65 | the nested scan with the default depth 2000 records exactly the row-major list of the specification |
| Map.Isobath | src/plot_utils/map.py:52-65 | the list holds at most four records per scanned cell |
| Map.ScanRow | src/plot_utils/map.py:55-64 | the inner loop appends row i's cells, each as often as its multiplicity |
| Map.RecordIfShallower | src/plot_utils/map.py:57-58 | one neighbour test appends the cell exactly when that neighbour is shallower than the critical depth, adding one to its count |
| Map.TestCell | src/plot_utils/map.py:56-64 | the body appends the cell once per shallow neighbour, tested up, left, down, right |
| Map.RowsEntriesExtend | src/plot_utils/map.py:54-64 | scanning one more row extends the record by that row's entries |
| Map.RowEntriesExtend | src/plot_utils/map.py:55-64 | scanning one more cell extends the row's record by its copies |
| Map.RowMajorAppend | src/plot_utils/map.py:54-55 | row-major lists joined in order stay row-major |
| Map.RowEntriesCells | src/plot_utils/map.py:55-56 | a row's record holds only cells of that row with a positive count |
| Map.RowEntriesOrdered | src/plot_utils/map.py:55 | a row's record is ordered by column |
| Map.RowsEntriesCells | src/plot_utils/map.py:54-56 | the record of the first rows holds only counted cells of those rows |
| Map.RowsEntriesOrdered | src/plot_utils/map.py:54-55 | the record of the first rows is in row-major order |
| Map.CountAppend | src/plot_utils/map.py:57-64 | counts add up over a joined list |
| Map.RowEntriesCount | src/plot_utils/map.py:55-64 | each cell of a row appears in its record exactly as often as its count |
| Map.RowsEntriesCount | src/plot_utils/map.py:54-64 | each scanned cell appears exactly as often as its count |
| Map.IsobathCells | src/plot_utils/map.py:54-56 | only cells at least as deep as the critical depth are recorded, never from the last row or the last column |
| Map.IsobathOrdered | src/plot_utils/map.py:54-64 | the output is in row-major scan order |
| Map.IsobathMultiplicity | src/plot_utils/map.py:56-64 | each cell appears exactly once per shallow neighbour |
| Map.IsobathMembers | src/plot_utils/map.py:56-64 | a scanned deep cell with at least one shallow neighbour is recorded |
| Map.IsobathWrapsTopRow | src/plot_utils/map.py:57-58 | a deep cell in row 0 with a shallow last row above it is recorded |
| Map.IsobathWrapsLeftColumn | src/plot_utils/map.py:59-60 | a deep cell in column 0 with a shallow last column left of it is recorded |
| LatexStyle.MatchFrom | src/plotting_utilities/latex_style.py:93-98 | the regex alternation tries the keys in order: the first key from i on that prefixes the text, or none when no key does |
| LatexStyle.Substitute | src/plotting_utilities/latex_style.py:93-98 | every character of the result comes from the text or from a replacement value, and with no value shorter than its key the result is no shorter than the text |
| LatexStyle.SubstituteMatch | src/plotting_utilities/latex_style.py:98 | when key k is the first to match, `re.sub` writes its replacement and continues after the match |
| LatexStyle.SubstituteLongest | src/plotting_utilities/latex_style.py:93-98 | with the keys sorted longest first, the pass replaces the longest key that starts the text and continues after it |
| LatexStyle.SubstituteKeyFree | src/plotting_utilities/latex_style.py:98 | text in which no key occurs is returned unchanged |
| LatexStyle.Image | src/plotting_utilities/latex_style.py:98 | a character no key matches is copied |
| LatexStyle.MatchAtHead | src/plotting_utilities/latex_style.py:98 | with one-character keys only the first character decides the match |
| LatexStyle.SubstituteCons | src/plotting_utilities/latex_style.py:98 | with one-character keys each character is replaced independently |
| LatexStyle.SubstituteAppend | src/plotting_utilities/latex_style.py:98 | with one-character keys substitution distributes over concatenation |
| LatexStyle.TexEscapeAppend | src/plotting_utilities/latex_style.py:79-98 | tex_escape(s + t) = tex_escape(s) + tex_escape(t) |
| LatexStyle.TexKeys | src/plotting_utilities/latex_style.py:79-92 | the table's keys are the twelve characters `& % $ # _ { } ~ ^ \ < >`, one character each |
| LatexStyle.TexSpecialsDistinct | src/plotting_utilities/latex_style.py:79-92 | the twelve special characters are distinct |
| LatexStyle.TexEscapesShape | src/plotting_utilities/latex_style.py:79-92 | every replacement starts with a backslash and the replacements are told apart by a fixed character |
| LatexStyle.TexConvShape | src/plotting_utilities/latex_style.py:79-92 | the facts above about the table together |
| LatexStyle.MatchSpecial | src/plotting_utilities/latex_style.py:93-98 | a special character matches its own table entry |
| LatexStyle.SinglePrefix | src/plotting_utilities/latex_style.py:98 | a one-character key prefixes a one-character text iff the characters are equal |
| LatexStyle.MatchOrdinary | src/plotting_utilities/latex_style.py:93-98 | an ordinary character matches no key |
| LatexStyle.TexEscapeChar | src/plotting_utilities/latex_style.py:79-98 | each special character becomes its fixed replacement and any other character is copied |
| LatexStyle.TexEscape | src/plotting_utilities/latex_style.py:79-98 | the escaped text is no shorter than the text, and holds only the text's characters and those of the replacements |
| LatexStyle.TexEscapePlain | src/plotting_utilities/latex_style.py:93-98 | text without special characters is unchanged |
| LatexStyle.TexEscapeLowercase | src/plotting_utilities/latex_style.py:93-98 | lower-case words are unchanged |
| LatexStyle.TexEscapeSinglePass | src/plotting_utilities/latex_style.py:98 | a single pass: "&" becomes `\&`, and only escaping again escapes the inserted backslash |
| LatexStyle.Inverse | src/plotting_utilities/latex_style.py:79-92 | the table read from replacement to key |
| LatexStyle.MarkPrefix | src/plotting_utilities/latex_style.py:80-91 | a replacement prefixing another shares its distinguishing character |
| LatexStyle.EscapesPrefixFree | src/plotting_utilities/latex_style.py:80-91 | no replacement is a prefix of another |
| LatexStyle.PrefixOfJoin | src/plotting_utilities/latex_style.py:80-91 | a string that is neither a prefix of b nor has b as a prefix is not a prefix of b followed by anything |
| LatexStyle.UnescapeSpecial | src/plotting_utilities/latex_style.py:80-91 | unescaping turns a replacement back into its character |
| LatexStyle.UnescapeOrdinary | src/plotting_utilities/latex_style.py:80-91 | unescaping copies a character other than backslash |
| LatexStyle.UnescapeCons | src/plotting_utilities/latex_style.py:79-98 | unescaping undoes the escape of one character |
| LatexStyle.TexUnescapeEscape | src/plotting_utilities/latex_style.py:79-98 | escaping loses nothing: unescaping restores every text |
| LatexStyle.TexEscapeInjective | src/plotting_utilities/latex_style.py:79-98 | different texts escape differently |
| LatexStyle.UnitConvLongestFirst | src/plotting_utilities/latex_style.py:102-115 | the unit keys are non-empty and tried longest first, ties in dict order |
| LatexStyle.ProperUnits | src/plotting_utilities/latex_style.py:101-116 | the result holds only the label's characters and those of the typeset units |
| LatexStyle.ProperUnitsStep | src/plotting_utilities/latex_style.py:101-116 | at each position the longest unit spelling that starts there is replaced and the pass goes on after it; where none starts, one character is copied |
| LatexStyle.ProperUnitsNoUnit | src/plotting_utilities/latex_style.py:111-116 | text containing no unit key is returned unchanged |
| LatexStyle.ProperUnitsDegC | src/plotting_utilities/latex_style.py:104 | "degC" becomes `$^{\circ}$C` |
| LatexStyle.ProperUnitsIMetric | src/plotting_utilities/latex_style.py:109 | "I metric" becomes `$\mathcal{I}$--metric` |
| LatexStyle.CelsiusWords | src/plotting_utilities/latex_style.py:105 | "degrees_celsius" is two lower-case words around an underscore |
| LatexStyle.EscapeCelsius | src/plotting_utilities/latex_style.py:84 | tex_escape("degrees_celsius") is `degrees\_celsius` |
| LatexStyle.CelsiusNoUnit | src/plotting_utilities/latex_style.py:105 | the unescaped "degrees_celsius" contains no unit key |
| LatexStyle.EscapedCelsius | src/plotting_utilities/latex_style.py:125 | the composition at line 125 turns "degrees_celsius" into `$^{\circ}$C`, while `proper_units` alone leaves it unchanged |
| Colors.ColorTableShape | src/plot_utils/colors.py:26-108 | the table lists palettes for 2 to 13 colours, each of its own length |
| Colors.ReplacementColorList | src/plot_utils/colors.py:110-114 | the palette returned holds 2 to 13 colours, none of them empty, so the modulo of `return_list_of_colormaps` is defined |
| Colors.ReplacementColorListLength | src/plot_utils/colors.py:110-114 | for 2 ≤ n ≤ 13 the palette has n colours; any other count gets the 13-colour palette |
| Colors.FadingChannel | src/plot_utils/colors.py:177-188 | a channel has rows at positions 0 and 1 |
| Colors.FadingSegments | src/plot_utils/colors.py:164-188 | each channel has two rows; the start row holds the colour and the end row white (1) when fading to white, and the other way round otherwise |
| Colors.FadingEnds | src/plot_utils/colors.py:172-188 | fading to white runs from the colour at 0 to 1 at 1, and fading from white runs from 1 at 0 to the colour at 1 |
| Colors.Mirror | src/plot_utils/colors.py:177-188 | a channel read from the other end |
| Colors.FadingMirror | src/plot_utils/colors.py:177-188 | the two fading directions mirror each other |
| Colors.FadingValid | src/plot_utils/colors.py:172-190 | the segment data is a valid colour map iff every channel lies in [0, 1] |
| Colors.LstripHash | src/plot_utils/colors.py:157 | `lstrip("#")` removes exactly the leading '#' characters |
| Colors.Slice | src/plot_utils/colors.py:159 | Python's slice `s[lo:hi]`, clipped at the end of the string |
| Colors.HexDigit | src/plot_utils/colors.py:159 | a hexadecimal digit has a value below 16 |
| Colors.Pow16 | src/plot_utils/colors.py:159 | powers of 16 are positive |
| Colors.HexNumberBound | src/plot_utils/colors.py:159 | k hex digits read as a number below 16^k |
| Colors.Strip | src/plot_utils/colors.py:159 | `int` ignores surrounding whitespace |
| Colors.ParsePair | src/plot_utils/colors.py:159 | `int(piece, 16)` of at most two characters: ValueError or a value in -15..255, and the number itself for hex digits |
| Colors.Byte | src/plot_utils/colors.py:159 | two hex digits read as 16·d1 + d2, at most 255 |
| Colors.PairByte | src/plot_utils/colors.py:159 | `int` of two hex digits is that byte |
| Colors.HexRgbAsWritten | src/plot_utils/colors.py:157-159 | as the source reads it: a `ValueError` when a piece does not parse, otherwise three channel numbers between -15 and 255, unscaled |
| Colors.HexRgbAsWrittenBytes | src/plot_utils/colors.py:157-159 | six hex digits after the '#' read as three channels 0..255 |
| Colors.HexRgbAsWrittenShort | src/plot_utils/colors.py:157-159 | fewer than five characters after the '#' leave an empty piece, and `int` raises ValueError |
| Colors.LstripOneHash | src/plot_utils/colors.py:157 | one leading '#' is removed |
| Colors.ParseNegative | src/plot_utils/colors.py:159 | `int("-h", 16)` is -h |
| Colors.HexRgbAsWrittenSigned | src/plot_utils/colors.py:157-159 | "#-10000" reads as (-1, 0, 0) |
| Colors.HexRgbAsWrittenOutOfUnit | src/plot_utils/colors.py:157-161 | as written, the palette colour "#b8ffeb" gives red 184, so its fading table is not a valid colour map |
| Colors.ScaledRgb | src/plot_utils/colors.py:159 | channels divided by a scale |
| Colors.HexRgb | src/plot_utils/colors.py:157-161 | corrected reader: succeeds exactly when the source's reader does, with each channel times 255 equal to the number the source reads |
| Colors.HexRgbUnit | src/plot_utils/colors.py:151-161 | corrected: six hex digits read as bytes over 255, in [0, 1], so the fading table is valid |
| Colors.HexPair | src/plot_utils/colors.py:159 | a byte written as two hex digits |
| Colors.HexChar | src/plot_utils/colors.py:159 | a digit value written as a hex character reads back as itself |
| Colors.HexPairRoundTrip | src/plot_utils/colors.py:159 | reading a written byte gives the byte back |
| Colors.FormatHex | src/plot_utils/colors.py:157 | `#rrggbb` is seven characters starting with '#' |
| Colors.FormatHexDigits | src/plot_utils/colors.py:157-159 | stripping the '#' from `#rrggbb` leaves the three written bytes |
| Colors.HexRgbAsWrittenRoundTrip | src/plot_utils/colors.py:157-159 | as written: `#rrggbb` written from three bytes reads back as the three bytes, unscaled |
| Colors.HexRgbRoundTrip | src/plot_utils/colors.py:151-161 | corrected reader: `#rrggbb` written from three bytes reads back as each byte over 255 |
| Colors.FadingColormap | src/plot_utils/colors.py:196-214 | as written: a "#" string goes through the source's hex reader, its raw red, green and blue channels 0..255 go into the table (first row when `fade_to_white`, the default, last row otherwise), and succeeds iff that reader does; any other string goes through the name table; errors are `ValueError` |
| Colors.FadingColormapCorrected | src/plot_utils/colors.py:196-214 | corrected: a "#" string goes through `HexRgb`, each channel the read byte over 255; any other string as in `FadingColormap` |
| Colors.FadingColormapDispatch | src/plot_utils/colors.py:207-210 | a string starting with '#' never consults the colour-name table; any other string depends only on its own entry there, and fails iff the name is unknown |
| Colors.CycledColor | src/plot_utils/colors.py:134 | `color_list[i % len(color_list)]` is a palette colour |
| Colors.CycleColormaps | src/plot_utils/colors.py:130-137 | succeeds iff every one of the first `number` cycled colours converts, then has `max(number, 0)` maps with map i made from colour i mod the palette's length; otherwise it raises one of those colours' errors |
| Colors.ReturnListOfColormaps | src/plot_utils/colors.py:118-137 | as written: succeeds iff each of the first `number` cycled palette colours converts through `FadingColormap`, then map i is colour i mod the palette length; otherwise one of those colours' errors |
| Colors.ReturnListOfColormapsCorrected | src/plot_utils/colors.py:118-137 | the same with `FadingColormapCorrected` |
| Colors.SixDigitsOf | src/plot_utils/colors.py:157 | a '#' followed by six hex digits is well formed |
| Colors.SmallPalettesNamed | src/plot_utils/colors.py:27-33 | palettes of 2 to 8 colours hold colour names only |
| Colors.LargePaletteHexes | src/plot_utils/colors.py:34-107 | every '#' entry of the palettes of 9 to 13 colours is a '#' and six hex digits, the first of them not 0 |
| Colors.PaletteHexes | src/plot_utils/colors.py:110-114 | so is every '#' entry of any palette returned |
| Colors.HexRgbAsWrittenAboveUnit | src/plot_utils/colors.py:157-188 | as written: a well-formed hex colour whose first digit is not 0 reads a red channel of at least 16, so its fading table is not a valid one |
| Colors.PaletteHexColormaps | src/plot_utils/colors.py:129-161 | as written: a palette colour in hex always yields a map, but its table holds a channel above 1 and is not a valid one |
| Colors.PaletteHexColormapsCorrected | src/plot_utils/colors.py:129-161 | corrected: a palette colour in hex always yields a map with a valid table |
| IoNameConventions.Tag | src/data_loading/io_name_conventions.py:15 | the "k-K-d-pca" tail is non-empty |
| IoNameConventions.TagInjective | src/data_loading/io_name_conventions.py:15 | the tail determines K and pca |
| IoNameConventions.PrefixedInjective | src/data_loading/io_name_conventions.py:15 | a fixed prefix followed by the tail determines K and pca |
| IoNameConventions.SlashedInjective | src/data_loading/io_name_conventions.py:28-73 | a folder name, tag followed by "/", determines K and pca |
| IoNameConventions.ReturnName | src/data_loading/io_name_conventions.py:15 | `../pyxpcm/nc/i-metric-joint-` followed by the tail |
| IoNameConventions.ReturnPlotFolder | src/data_loading/io_name_conventions.py:28 | `../FBSO-Report/images/i-metric-joint-` followed by the tail and "/" |
| IoNameConventions.ReturnFolder | src/data_loading/io_name_conventions.py:44 | `_return_name` followed by "/" |
| IoNameConventions.ReturnPairName | src/data_loading/io_name_conventions.py:60 | `../pyxpcm/nc/pair-i-metric-` followed by the tail |
| IoNameConventions.ReturnPairFolder | src/data_loading/io_name_conventions.py:73 | `nc/pair-i-metric-` followed by the tail and "/" |
| IoNameConventions.NamesInjective | src/data_loading/io_name_conventions.py:15-73 | each of the five names determines K and pca, so different runs never share a file or folder |
| IoNameConventions.PairFolderIsNotPairNameFolder | src/data_loading/io_name_conventions.py:60-73 | the pair folder lacks the "../pyxpcm/" prefix, so it is not the pair name followed by "/" |
| IoNameConventions.NameNeverPairName | src/data_loading/io_name_conventions.py:15-60 | an I-metric file name is never a pair file name |

## Left out

- `src/data_loading/xr_loader.py` holds `order_indexes` and `_old_order_indexes` line for line as in `xr_values_loader.py` (lines 21-31 and 48-70 there). `XrValuesLoader` models both copies.
- `src/plotting_utilities/ko_plot.py` holds `is_too_far` and `split_into_list_of_lists` with the same logic as `src/plot_utils/ko_plot.py` (lines 30-43 and 54-71 there). `KoPlot` models both copies.
- ToPairIMetric.PairIMetric: raises `IndexError` up front when the reordered label array does not have four axes or the metric does not have three. The source fails later, or not at all, when no location matches a pair.
- ToPairIMetric.PairIMetric: reorders both arrays with the corrected `order_indexes` (see Findings), not the one lines 71-77 call. The two agree whenever each requested order is a swap or the identity of the stored one (ToPairIMetric.ArraysAsWrittenOnInvolution), which covers the layout the docstring gives (ToPairIMetric.DocumentedLayoutAsWritten). For a stored order that needs a three-cycle, the source builds a differently ordered array; the model does not follow it.
- ToPairIMetric.RankArray: is `order_indexes` corrected, not as written; the two agree under the conditions of ToPairIMetric.ArraysAsWrittenOnInvolution.
- ToPairIMetric.GridArray: is `order_indexes` corrected, not as written; the two agree under the same conditions.
- ToPairIMetric.SortedVersion: sorts the corrected `A_B_values`, so it is the source's `sorted_version` only where RankArray agrees with the as-written reordering.
- ToPairIMetric.ComputableShapes: states the shapes of the corrected arrays; as written, the axis lengths can come out permuted by a three-cycle.
- ToPairIMetric.CoordLengths: states the lengths of the corrected arrays, with the same limit.
- ToPairIMetric.SelectFirst: drops the selected coordinate instead of keeping it as a scalar coordinate. Nothing downstream reads it.
- Coordinates are represented by their lengths. Their values (dates, latitudes, longitudes) are not modelled.
- Floats are modelled as reals. There is no float rounding and no NaN arithmetic. NaN appears only as a missing label or metric, and it compares false with the threshold.
- `print` calls, the `timeit` decorator and the numba `@jit` are not modelled. None of them changes a result.
- The `os.makedirs` side effect of the folder functions is not modelled. Only the returned string is.
- `mpl_params`, `ds_for_graphing`, `cluster_colors` and all rendering are not modelled. They are Matplotlib and xarray plumbing; `ds_for_graphing` also writes to the wrong variable at `latex_style.py` line 131.
- Matplotlib's colour-name lookup (`colors.to_rgba`) is a parameter. The model returns segment data instead of `LinearSegmentedColormap` objects.
- The `isinstance(number_of_colors, int)` assertion of `replacement_color_list` cannot fail in the model, because the argument is an `int`.
- Colors.ParsePair: covers pieces of at most two characters, which is all the three slices can be. Surrounding ASCII whitespace, including the separators 0x1C to 0x1F, is stripped as Python's `int` strips it. The underscores, Unicode digits and Unicode spaces that Python's `int` also accepts are not modelled.
- LatexStyle.Substitute: the compiled `regex.sub` is modelled as a scan that tries the keys in order at each position, the way an alternation of escaped literals matches. Python's regex engine itself is not modelled.

## Findings

| source | as written | input that shows it | evidently intended | confidence | as-written member | corrected member |
|---|---|---|---|---|---|---|
| src/data_loading/xr_values_loader.py:18-23 | `np.moveaxis(values, init_list, range(n))` puts input axis `init_list[k]` at position k, so result axis k is named `dims[init_list[k]]` | dims (YC, XC, time) requested as (time, YC, XC): `init_list` is [1, 2, 0] and the result axes are (XC, time, YC) | result axis k is the axis named `index_list[k]`, that is `moveaxis(values, range(n), init_list)`; the two agree on swaps, which covers the stored layout the `pair_i_metric` docstring gives | not executed | XrValuesLoader.OrderIndexesThreeCycleNames | XrValuesLoader.OrderIndexesCorrectedNames |
| src/plot_utils/colors.py:157-161 | `_fading_colormap_hex` passes channels as ints 0..255 to a segment table whose white end is 1 | "#b8ffeb", a colour of the 9- to 13-colour palettes: red is 184, outside [0, 1] | channels divided by 255, as `colors.to_rgba` gives them on the name path | not executed | Colors.PaletteHexColormaps | Colors.PaletteHexColormapsCorrected |
