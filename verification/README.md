# ColorImageSort in Dafny

A Dafny model of the arithmetic and selection logic in `sortimages.py`. That script
walks a folder of 16x16 icons and summarises each one by its average colour. It then
arranges the icons on a canvas by that colour, either on a hue/saturation wheel or on a
linear two-channel grid. A second mode lays them side by side on a flat strip.

The model has three modules plus a one-line `Option` type (`wrappers.dfy`):

- `ColorSampler` (`color_sampler.dfy`) models `image_list`:
  - a file is a `FileRecord`: its path, its size, and its RGBA and HSV `getcolors()`
    histograms, each a sequence of `(count, colour)` entries;
  - the acceptance filter is the predicate `Accepted`, with the four guards in program order;
  - the summary expands a histogram by count and takes the truncated mean of each channel
    of `zip(*…)`;
  - `image_list` itself is the method `ImageList`, a loop over the walk's files that skips
    rejected files and appends one `IconRecord` per accepted file. It is proved equal to
    the order-preserving filter-map `Collected`.
- `CoordinateMapper` (`coordinate_mapper.dfy`) models `normal_offset`, its `remap` lambda,
  Python's `round` (half to even) and the `stepxy` grid snap, all over `real`.
- `Composer` (`composer.dfy`) models the rest of `make_image` and `make_image_flat`:
  - the `sort_type` dispatch of `set_xy` and the choice of background shape;
  - where each icon is pasted: skipped for an empty average colour, at the corner for an unknown tag, or at its snapped offset;
  - the averaged strip of `make_image_flat`, as a method that fills a 2-D array slot by slot.

`int(sum(c)/len(c))` on natural channel values is Dafny's floor division `/` on `nat`.
The two agree here because a 16x16 icon has at most 256 pixels of byte channels, so every
sum stays below 2^17. For sums near 2^53, `int()` of the float quotient could exceed the
floor, and past about 10^308 the division overflows; the unbounded `nat`s of the model do
not capture either.
Python's `round` is modelled as round-half-to-even on exact reals.

## Model

| member | source | states |
|---|---|---|
| ColorSampler.EndsWith | sortimages.py:31 | `s.endswith(suffix)`; JpgClauseIsDead and AcceptedIff state what it decides for ".png" and ".jpg" |
| ColorSampler.Contains | sortimages.py:45 | `sub in s`; ContainsIff states it as an occurrence at some index |
| ColorSampler.ContainsIff | sortimages.py:45 | `"debug" in path` holds exactly when "debug" occurs at some index of the path |
| ColorSampler.Transpose | sortimages.py:38-52 | `list(zip(*xs))`: one sequence per channel of the shortest colour; Arity and ArityAttained state how many, TransparentIff and WeightedMean what they hold |
| ColorSampler.Colors | sortimages.py:38 | `list(zip(*histogram))[1]`: the colours of the histogram in order; TransparentIff states what the alpha guard reads from them |
| ColorSampler.Arity | sortimages.py:51-52 | the number of tuples `zip(*xs)` yields is at most the length of every colour, and 0 for an empty list |
| ColorSampler.ArityAttained | sortimages.py:51-52 | for a non-empty list, `zip(*xs)` yields exactly as many tuples as the shortest colour has channels |
| ColorSampler.SkipByExtension | sortimages.py:31 | the extension guard as written; JpgClauseIsDead and AcceptedIff state what it decides |
| ColorSampler.JpgClauseIsDead | sortimages.py:31 | the extension guard skips a path exactly when it does not end in ".png"; the ".jpg" disjunct never decides |
| ColorSampler.HasTransparentPixel | sortimages.py:38 | 0 occurs in the last channel of the transposed colours; TransparentIff states it as "some colour has alpha 0" |
| ColorSampler.TransparentIff | sortimages.py:38 | for a non-empty RGBA histogram, the alpha guard fires exactly when some colour has alpha 0 |
| ColorSampler.Accepted | sortimages.py:31-45 | the four guards in program order; AcceptedIff states which files pass |
| ColorSampler.AcceptedIff | sortimages.py:31-45 | a file is kept exactly when its path ends in ".png", it is 16x16, no colour has alpha 0 and its path has no "debug" |
| ColorSampler.Expand | sortimages.py:48-49 | the expanded pixel list has Σ countᵢ entries, each the colour of an entry with a positive count |
| ColorSampler.Average | sortimages.py:51-52 | the average has one channel per tuple of `zip(*xs)` |
| ColorSampler.WeightedMean | sortimages.py:48-60 | each channel of the average is ⌊Σ countᵢ·channelᵢ / Σ countᵢ⌋, and such a channel exists only when the total count is positive |
| ColorSampler.Summarise | sortimages.py:48-60 | the average of the expanded histogram; WeightedMean, AverageBounds, SummaryArity and UniformColor state its value, range and length |
| ColorSampler.AverageBounds | sortimages.py:48-52 | each averaged channel lies within any bounds that hold for that channel of every colour present |
| ColorSampler.AverageInByteRange | sortimages.py:48-52 | channels in [0, 255] give an average whose channels are in [0, 255] |
| ColorSampler.SummaryArity | sortimages.py:48-52 | colours of `k` channels average to `k` channels, or to the empty tuple when the histogram holds no pixel |
| ColorSampler.UniformColor | sortimages.py:48-52 | a histogram of one colour C averages to exactly C |
| ColorSampler.Record | sortimages.py:61 | the `(average_hsv, image_path, average_rgba)` tuple of a file; the Summarise lemmas state its averages |
| ColorSampler.Collected | sortimages.py:26-61 | the records of the accepted files in walk order; CollectedIsFilterMap, CollectedPrefix and CollectedStep state it |
| ColorSampler.CollectedIsFilterMap | sortimages.py:26-61 | record `k` is the record, with its path, of the `k`-th accepted file; the accepted indices increase and every accepted file appears |
| ColorSampler.CollectedPrefix | sortimages.py:26-61 | files later in the walk never change the records of earlier ones |
| ColorSampler.CollectedStep | sortimages.py:29-61 | a rejected file adds nothing; an accepted one appends exactly its own record |
| ColorSampler.ImageList | sortimages.py:24-62 | the appending loop with `continue` on each rejection returns exactly the filter-map of the walk's files |
| CoordinateMapper.Remap | sortimages.py:16 | the `remap` lambda; RemapEnds, RemapInverse, RemapStrictlyIncreasing and RemapInRange state it |
| CoordinateMapper.RemapEnds | sortimages.py:16 | `remap` sends the old minimum to the new minimum and the old maximum to the new maximum |
| CoordinateMapper.RemapInverse | sortimages.py:16 | remapping back with the ranges swapped returns the input |
| CoordinateMapper.RemapStrictlyIncreasing | sortimages.py:16 | `remap` is strictly increasing when both ranges are increasing |
| CoordinateMapper.RemapInRange | sortimages.py:16 | an input in the old range maps into the new range |
| CoordinateMapper.NormalOffset | sortimages.py:15-21 | `normal_offset`; the NormalOffset lemmas below state its ends, separability, monotonicity, range and inverse |
| CoordinateMapper.NormalOffsetEnds | sortimages.py:15-21 | channel 0 maps to `padding` and channel 255 to `image_size - 2*padding` on both axes |
| CoordinateMapper.NormalOffsetSeparable | sortimages.py:19-20 | x depends only on `xy[0]` and y only on `xy[1]` |
| CoordinateMapper.NormalOffsetStrictlyIncreasing | sortimages.py:16-20 | when `image_size > 3*padding`, each coordinate strictly increases with its own channel, whatever the other channel is |
| CoordinateMapper.NormalOffsetInRange | sortimages.py:15-21 | when `image_size >= 3*padding`, channels in [0, 255] map into [padding, image_size - 2*padding] |
| CoordinateMapper.NormalOffsetInvertible | sortimages.py:15-21 | whenever `image_size != 3*padding`, remapping each coordinate back to [0, 255] recovers its channel |
| CoordinateMapper.RoundHalfEven | sortimages.py:111 | Python's `round`; RoundIsNearest, RoundTiesToEven and RoundOfInteger pin it down |
| CoordinateMapper.RoundIsNearest | sortimages.py:111 | `round` returns an integer within 1/2 of its input and no farther from it than any other integer |
| CoordinateMapper.RoundTiesToEven | sortimages.py:111 | at an exact half, `round` returns the even neighbour |
| CoordinateMapper.RoundOfInteger | sortimages.py:111 | `round` leaves integers unchanged |
| CoordinateMapper.Snap | sortimages.py:111 | one axis of `stepxy`; SnapIsMultiple, SnapWithinHalfStep, SnapIsNearest and SnapIdempotent state it |
| CoordinateMapper.SnapIsMultiple | sortimages.py:111 | the snapped coordinate is a multiple of the step |
| CoordinateMapper.SnapWithinHalfStep | sortimages.py:111 | the snapped coordinate is within half a step of its input |
| CoordinateMapper.SnapIsNearest | sortimages.py:111 | no multiple of the step is nearer to the input than the snapped coordinate |
| CoordinateMapper.SnapIdempotent | sortimages.py:111 | snapping a snapped coordinate returns it unchanged |
| Composer.ParseSortType | sortimages.py:112-117 | which branch of `set_xy` a tag takes; ParseSortTypeInvertsTag states it |
| Composer.ParseSortTypeInvertsTag | sortimages.py:112-117 | "hs", "sv" and "hv" select the three sort types, and every other tag selects none |
| Composer.Dispatch | sortimages.py:112-117 | the mapper and channel pair of each sort type; DispatchReadsTwoChannels states it |
| Composer.DispatchReadsTwoChannels | sortimages.py:112-117 | only "hs" uses the radial mapper, each sort type reads two distinct channels of three, and the unread channel has no effect on the offset |
| Composer.BackgroundFor | sortimages.py:91-96 | the ellipse is drawn exactly for the "hs" tag; every other tag gets the rectangle |
| Composer.SetXy | sortimages.py:110-117 | `set_xy`; SetXyOnGrid, SetXyLinearBounds, SetXyLinearFitsCanvas and DispatchReadsTwoChannels state it |
| Composer.SetXyOnGrid | sortimages.py:110-117 | `set_xy` gives an offset exactly for a known tag, and that offset lies on the step grid on both axes |
| Composer.SetXyLinearBounds | sortimages.py:110-117 | under "sv" and "hv", channels in [0, 255] are placed within half a step of [16, image_size - 32] on both axes |
| Composer.SetXyLinearFitsCanvas | sortimages.py:110-117 | with step 1 under "sv" or "hv", the whole 16x16 icon lies at least 16 pixels inside every edge of the canvas |
| Composer.IconOffset | sortimages.py:98-119 | where one pass of the loop of `make_image` pastes an icon; IconOffsetCases and AcceptedIconIsPlaced state it |
| Composer.IconOffsetCases | sortimages.py:98-119 | only an empty average is skipped; any other icon is pasted at the upper-left corner exactly when the tag is unknown, and otherwise at a point of the step grid |
| Composer.AcceptedIconIsPlaced | sortimages.py:98-117 | an icon with pixels and a three-channel HSV histogram has a three-channel average, is never skipped, and is pasted at an offset exactly when the tag is known |
| Composer.StripWidth | sortimages.py:132-133 | the width `16*n` of a strip; SlotsTileStrip and ColumnOwner state it |
| Composer.SlotStart | sortimages.py:136 | the first column `16*i` of slot `i`; SlotsTileStrip and ColumnOwner state it |
| Composer.SlotsTileStrip | sortimages.py:132-136 | on a strip of `16*n` columns, each of the `n` slots lies inside the strip and distinct slots share no column |
| Composer.ColumnOwner | sortimages.py:132-136 | every column of the strip belongs to exactly one slot, slot `x / 16` |
| Composer.FillBox | sortimages.py:136 | pasting a colour into a box sets every pixel of the box to the colour and leaves every other pixel unchanged |
| Composer.AverageStrip | sortimages.py:132-136 | the averaged strip is a new array of 16 rows by `16*n` columns, and every pixel of slot `i` holds icon `i`'s average RGBA colour |

## Left out

- `radial_offset` (sortimages.py:6-12) uses floating-point sine and cosine. `Composer.SetXy` takes it as a function parameter, so nothing is proved about where the hue-saturation wheel puts an icon beyond its grid snap.
- The image library is not modelled. A file's size and its RGBA and HSV histograms are inputs, and nothing is said about how RGB is converted to HSV. Pasting an icon's original pixels (sortimages.py:100, 119, 137), drawing the background shapes (only the choice of shape is modelled), clipping, and `save` are left out.
- `getcolors()` returns `None` for an image with more than 256 colours. A 16x16 icon has at most 256 pixels, so this cannot happen for files that pass the size guard.
- The directory walk and the existence check (sortimages.py:27-28, 70-73, 126-129) are left out. The walk's files arrive as a sequence, and the missing-folder error path is not modelled.
- The `replace=False` branch of `make_image` (sortimages.py:83-89), which reuses an existing output file as the canvas, is not modelled.
- The output file names built by `output.replace('.png', …)` (sortimages.py:139-140) are not modelled. Neither are the console messages or the interactive `valid_input` prompt script (sortimages.py:145 onwards).
- The loop of `make_image` pastes icons in list order, so a later icon covers an earlier one at the same offset. Only where each icon is pasted is modelled (`Composer.IconOffset`), not the resulting canvas.
- The black-pixel exclusion at sortimages.py:54-59 is commented out, so the model follows the live code: black pixels count in the HSV average.
- Coordinates are exact reals. Floating-point error in `remap` and in `a/step` is not modelled, so a float that lands within rounding error of a half-step tie may round differently from the model.
- CoordinateMapper.Snap requires a non-zero step. With the default `step = 0` of `make_image` (sortimages.py:64), sortimages.py:111 raises a division-by-zero error at the first icon placed under a known tag; that error is not modelled. Under an unknown tag nothing is divided, so `Composer.SetXy` and `Composer.IconOffset` require a non-zero step only for a known tag.
- `make_image` declares `sort_type:int = 0` and its docstring numbers the sort types 0 to 2, but `set_xy` and the background test compare against the strings "hs", "sv" and "hv". A tag is modelled as a string. An integer tag matches no branch. It then gets a rectangular background, and every icon is pasted at the upper-left corner (`Composer.Paste.AtCorner`), since the image library reads the box None as (0, 0).
- Composer.IconOffset requires an average HSV colour of either 0 or at least 3 channels, and it follows the skip at sortimages.py:103 for an empty one. Two earlier errors are not modelled. sortimages.py:99 passes the average as the fill colour of `Image.new` before that skip, and the image library takes only a 1-, 3- or 4-channel colour there, so an empty or 2-channel average would raise at sortimages.py:99 first. A 1-channel average raises an index error at sortimages.py:106-107. None of these arise for an accepted icon with a three-channel HSV histogram (`Composer.AcceptedIconIsPlaced`).
- ColorSampler.HasTransparentPixel treats an RGBA histogram with no channels as having no transparent pixel. In Python, indexing `[-1]` of an empty transposition raises an error at sortimages.py:38; that cannot happen for a 16x16 RGBA image.
