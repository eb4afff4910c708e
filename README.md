# fretbiosensor correction core in Dafny

This project models the per-frame arithmetic of the fretbiosensor FRET image
pipeline and proves properties of it:

- **FretProcessing** (`fret_processing.dfy`) covers four operations.
  - Conditioning a flatfield image: subtract the darkfield, then optionally
    normalise to mean 1.
  - Correcting a raw frame: subtract the dark current, optionally clip at 0,
    then divide by the flatfield.
  - Background subtraction with a floor of 1. This one works in place on a
    numpy array, so the model is a method over `array2<real>`.
  - The ratio of two channels, with NaN replaced by 0.
- **Utils** (`utils.dfy`) applies a segmentation mask to a frame.
- **FileIo** (`file_io.dfy`) has two parts.
  - Ordering a folder listing: keep the TIFF names, then sort them by the
    integer a pattern extracts from each. As in the source, the sort is done
    in place on an array of (name, integer) pairs, keyed by the position of
    each integer in the sorted integers.
  - Rebinning a frame: average it block by block.
- **Frames** (`frames.dfy`) is the shared frame model: numpy's elementwise
  subtract, divide and `where`, plus sums and means.
- **StableSort** (`stable_sort.dfy`) is a stable sort by integer key. It has
  a functional specification (`SortBy`) and an in-place insertion sort proved
  against it. It also proves that any sorted, stable arrangement equals
  `SortBy`. That is why the model may use this sort where Python's list sort
  runs.

Frames are `seq<seq<real>>` indexed `[row][column]`. Pixel values are exact
reals. The exceptions `rebin` and `sort_with_regex` raise are `Err` values of a
`Result`; the pixel operations take frames of equal shape (see "## Left out"). The regular-expression
search of `sort_with_regex` is a parameter
`extract: string -> Option<int>`. It stands for
`int(search(pattern, name).group(match_group_id))`, and `None` means "no
match".

## Model

| member | source | states |
|---|---|---|
| FretProcessing.CorrectFlatfieldImage | src/fretprocessing.py:93-95 | The result has the flatfield's shape. Without normalization every pixel is flatfield minus darkfield. With normalization every pixel times the mean of (flatfield − darkfield) is flatfield minus darkfield. Normalization requires a non-empty frame whose mean is not 0. |
| FretProcessing.NormalizedFlatfieldMeanIsOne | src/fretprocessing.py:93-95 | With normalization on, the conditioned flatfield has at least one pixel and mean exactly 1. This is the "normalization to mean of 1" of the function's docstring. |
| FretProcessing.UniformFlatfieldNormalizesToOnes | src/fretprocessing.py:93-95 | A uniform flatfield `flat` over a uniform darkfield `dark`, with flat ≠ dark, has dark-subtracted mean flat − dark and normalises to the all-ones frame. |
| FretProcessing.DarkSubtracted | src/fretprocessing.py:126-128 | With clipping, every pixel is max(img − dark, 0): it is ≥ 0, ≥ img − dark, and equal to one of the two. Without clipping, every pixel is img − dark. |
| FretProcessing.FlatfieldCorrection | src/fretprocessing.py:126-129 | Every result pixel times its flatfield pixel is the dark-subtracted (and possibly clipped) pixel. With clipping and a positive flatfield, no pixel is negative. Without clipping, result × flatfield = img − dark. |
| FretProcessing.QuotientsNonNegative | src/fretprocessing.py:127-129 | A clipped (non-negative) frame divided by a positive flatfield has no negative pixel. |
| FretProcessing.UniformFrameCorrection | src/fretprocessing.py:126-129 | A uniform frame `raw`, corrected with a uniform dark current `dark`, clipping, and the all-ones flatfield, is uniform max(raw − dark, 0). |
| FretProcessing.SubtractBg | src/fretprocessing.py:185-187 | The result is a fresh array of the input's dimensions, and the input is unchanged. Without clipping, result + background = input at every pixel, for a scalar or a per-pixel background. With clipping, every pixel is ≥ 1: it is input − background where that is ≥ 1, and 1 elsewhere. |
| FretProcessing.SubtractLevels | src/fretprocessing.py:185 | A fresh array holding input − background at every pixel. |
| FretProcessing.ClipBelowOne | src/fretprocessing.py:187 | In place, every element below 1 becomes 1 and every other element keeps its old value. |
| FretProcessing.TrueDivide | src/fretprocessing.py:209 | A pixel quotient is NaN exactly when the denominator is 0 (0/0). Otherwise it is the value q with q × d = n. |
| FretProcessing.RatioPixel | src/fretprocessing.py:209-211 | For a non-zero denominator, r × d = n. For 0/0 with replacement on, r = 0. |
| FretProcessing.CalculateRatio | src/fretprocessing.py:209-211 | Same shape as the inputs. Where the denominator is non-zero, ratio × denominator = numerator. Where the denominator is 0 (0/0, replacement on), the ratio is 0. |
| Utils.MaskFrame | src/utils.py:24 | Same shape as the frame. Pixels where the mask is 0 become 0, and all others keep the frame's value. |
| Utils.MaskFrameIdempotent | src/utils.py:24 | Masking twice with one mask is the same as masking once. |
| Utils.MaskFrameFullMask | src/utils.py:24 | A mask without zero pixels leaves the frame unchanged. |
| FileIo.TiffNamesCounts | src/fileio.py:55 | About `TiffNames`, the filter of the listing: every kept name ends in `.tif` or `.tiff`. Each TIFF name is kept as often as it occurs in the listing, and no other name is kept. |
| FileIo.TiffNamesAppend | src/fileio.py:55 | Filtering keeps listing order: the TIFF names of a + b are the TIFF names of a followed by those of b. |
| FileIo.TiffNamesWithKey | src/fileio.py:55 | Keeping the TIFF names and keeping the names with a given integer commute. |
| FileIo.TiffMembership | src/fileio.py:55 | A name is kept exactly when it is in the listing and ends in `.tif` or `.tiff`. |
| FileIo.ExtractKeys | src/fileio.py:56 | It succeeds exactly when every name has a match. On success it gives one integer per name, in order. On failure it reports the first name without a match. |
| FileIo.IndexOf | src/fileio.py:59 | `list.index`: the position of the first occurrence of the value. Python raises ValueError for an absent value; the model returns the length instead. That case never arises in `sort_with_regex`, because every key it looks up occurs in the sorted keys (shown in `RankOrdersAsKeys`). |
| FileIo.IndexOfOrdersAsValues | src/fileio.py:57-59 | In the sorted integers, first-occurrence positions of two present values are ordered exactly as the values are, in both directions. |
| FileIo.RankOrdersAsKeys | src/fileio.py:57-59 | For any two (name, integer) pairs, ranking by position in the sorted integers orders them exactly as their integers do. |
| FileIo.RankSortIsKeySort | src/fileio.py:57-60 | Sorting the pairs by rank and keeping the names gives the names sorted by their extracted integers. |
| FileIo.SortWithRegex | src/fileio.py:55-61 | It fails exactly when some TIFF name of the listing has no match, and the error names such a name. On success, the result is the TIFF names stably sorted by extracted integer. |
| FileIo.SortedNames | src/fileio.py:55-61 | The sorted TIFF names are a permutation of the TIFF names. Their integers are non-decreasing, and names with equal integers keep their listing order. |
| FileIo.SortedNamesKeepListingOrder | src/fileio.py:55-60 | Stability against the listing itself: in the sorted TIFF names, the names with integer k appear in the order they have in the original listing. |
| StableSort.SortInPlace | src/fileio.py:59 | The in-place insertion sort leaves exactly `SortBy` of the old contents in the array. |
| StableSort.InsertInPlace | src/fileio.py:59 | One insertion step: the prefix becomes `Insert` of the element into the sorted prefix, and the rest is unchanged. |
| StableSort.SortByPermutes | src/fileio.py:59 | Sorting is a permutation (multiset equality). |
| StableSort.SortBySorted | src/fileio.py:59 | The sorted sequence is non-decreasing in the key. |
| StableSort.SortByStable | src/fileio.py:59 | For every key, the elements with that key keep their relative order. |
| StableSort.StableSortIsSortBy | src/fileio.py:59 | Any arrangement that is sorted and keeps the order within each key equals `SortBy`, so it equals Python's stable sort. |
| StableSort.SortByCongruent | src/fileio.py:59 | Two keys that order the elements alike produce the same sort. |
| StableSort.SortByMap | src/fileio.py:59-60 | Projecting after sorting equals sorting the projections, when the keys agree through the projection. |
| FileIo.Rebin | src/fileio.py:80-86 | It fails exactly when the target shape does not tile the frame. A zero target dimension is ZeroDivision. A negative or non-dividing one is a reshape error. On success, the result has the target shape. |
| FileIo.ReshapeSizeTiles | src/fileio.py:80-86 | The element count of numpy's 4-D reshape matches the frame exactly when both target dimensions divide the frame's dimensions. |
| FileIo.BlockMeanIsAverage | src/fileio.py:86 | The mean of row means of a block is the block's sum divided by its pixel count. |
| FileIo.RebinBlockMean | src/fileio.py:80-86 | Each rebinned pixel is the sum of its block divided by the block's pixel count. |
| FileIo.RebinWithinBlock | src/fileio.py:80-86 | Each rebinned pixel lies within any bounds of the pixels of its block. |
| FileIo.RebinToOwnShape | src/fileio.py:80-86 | Rebinning to the frame's own shape returns the frame unchanged. |
| FileIo.RebinConstant | src/fileio.py:80-86 | A uniform frame rebins to a uniform frame of the same value. |

## Left out

- `load_correction_images` (src/fretprocessing.py:14-35) is not modelled. It only reads image files from disk.
- `filter_darkfield_image` and the median filter step of `correct_flatfield_image` (src/fretprocessing.py:57, 96-97) are not modelled. They call scipy's `median_filter`, which is not part of this model. `CorrectFlatfieldImage` is the function with `median_filter_size` set to `None`.
- The `clip_values` option in the docstring of `correct_flatfield_image` (lines 83-85) is not modelled. The function has no such parameter and does no clipping.
- `bg_calculation` (src/fretprocessing.py:133-166) is not modelled. It uses histograms, percentiles, binary dilation and plotting.
- `smooth_segmentation` (src/utils.py:28-66) and `create_folders` (src/fileio.py:9-33) are not modelled. They are morphology operations from scikit-image/scipy and file-system side effects.
- The regular-expression engine is not modelled. `SortWithRegex` takes the extraction as the parameter `extract`. A match whose group is not an integer (`int()` raising `ValueError`) counts as no match.
- SortWithRegex: the model sorts with a stable insertion sort instead of Python's Timsort. `StableSort.StableSortIsSortBy` shows that every stable sort gives the same list, so only the algorithm differs, not the result.
- Floating point is not modelled: pixels are exact reals, with no rounding, overflow, NaN or infinity. Inputs that would produce NaN or infinity in numpy are excluded by preconditions. These are a zero flatfield pixel (`FlatfieldCorrection`), a normalisation mean of 0 or an empty frame (`CorrectFlatfieldImage`), and x/0 with x ≠ 0 (`CalculateRatio`).
- CalculateRatio: x/0 with x ≠ 0 gives ±inf. `np.nan_to_num` turns that into the largest finite float, not 0 as the docstring (line 202) says. The model follows neither the docstring nor numpy's mapping of ±inf to the largest float: the requires of `CalculateRatio` excludes x/0 with x ≠ 0. Likewise 0/0 with replacement off (a NaN result) is excluded.
- DarkSubtracted: frames with an integer pixel type, such as uint16 TIFF data straight from `io.imread`, are not modelled. On those `np.subtract` wraps around, so the clip `np.where(img < 0, 0, img)` (src/fretprocessing.py:128) never fires and max(img − dark, 0) does not describe the result. The model takes frames as floating point, where the dark current is a float median.
- CorrectFlatfieldImage: the flatfield and darkfield must have the same shape. Unequal shapes are outside the model, whether numpy broadcasts them (a scalar darkfield) or raises ValueError.
- FlatfieldCorrection: the frame, flatfield and dark current must have the same shape. Unequal shapes are outside the model, whether numpy broadcasts them (a scalar dark current) or raises ValueError.
- CalculateRatio: numerator and denominator must have the same shape. Unequal shapes are outside the model, whether numpy broadcasts them or raises ValueError.
- MaskFrame: the frame and mask must have the same shape. Unequal shapes are outside the model, whether numpy broadcasts them (a 1 x n mask) or raises ValueError.
- SubtractBg: numpy broadcasting is modelled only for a scalar background and a per-pixel background of the frame's shape. Row or column backgrounds are not modelled.
- Rebin: the input must be a non-empty two-dimensional frame. Shapes with more axes, and numpy's handling of empty arrays, are not modelled.
