# Criminisi inpainting: the pixel-grid core in Dafny

This project models the pixel-grid core of an exemplar-based (Criminisi-style)
inpainting engine and proves properties of it. The core has two parts.

- **Patch geometry helpers** (`Helpers.cpp`). They build the square region of
  side `2r+1` around a pixel, recover the centre of a region, and test whether
  a region of the mask is entirely zero.
- **Patch matching and masked updates** (`Legacy.cxx`).
  - `FindBestPatchMatch` scores every candidate centre against the query patch
    by the mean CIELAB difference over the query's known pixels. It then blanks
    the unwanted centres and returns the location of the minimum.
  - `SelfPatchMatch` and `ComputeDifferenceImage` are the weighted variant.
    Boundary centres and masked centres are pushed to the largest float.
  - The two `CopySelfPatchIntoValidRegion` variants copy a patch onto another
    patch of the same image, only where the mask is set.
  - `UpdateConfidenceImage` and `UpdateIsophoteImage` do the same masked update
    for the confidence and isophote grids.

Conventions:

- A pixel is `Index(x, y)`, where `x` is the toolkit's first dimension and
  varies fastest in every scan. A grid `a: array2<T>` holds pixel `(x, y)` at
  `a[x, y]`.
- Region iterators become row-major `for` loops.
- A toolkit exception or `exit(-1)` becomes an explicit `Result` or `Outcome`
  error value that leaves the grids unchanged.

Module layout:

| module | file | contents |
|---|---|---|
| `Helpers` | `Helpers.dfy` | indices and regions; the neighbourhood numbering of offsets; `IsValidPatch` |
| `GridScan` | `GridScan.dfy` | whole-grid passes: blank masked cells, replace a value, fill a region, find the first minimum |
| `PatchCopy` | `PatchCopy.dfy` | both self-copy variants; extract, clear and paste for the isophote update |
| `PatchScore` | `PatchScore.dfy` | the per-candidate comparison loop of `FindBestPatchMatch` and its scores |
| `SelfMatch` | `SelfMatch.dfy` | `ComputeDifferenceImage`, `SelfPatchMatch` and the default overload |
| `Criminisi` | `Criminisi.dfy` | class `Inpainting`, which owns the grids and has the three in-place member operations |

The comparison loop of `FindBestPatchMatch` is modelled as written. A
candidate pixel that is masked at a known query position increments `invalid`
and then `continue`s, so the query-patch iterators are not advanced and from
then on trail the candidate index. `Scan` follows that lagging iterator.
`AlignedTally` is the reference that pairs position `i` with position `i`.
`ScanMatchesAligned` proves that the two agree on every accepted candidate.

The overlapping in-place self-copy is also modelled exactly. When the source
patch precedes the destination patch and the two overlap, a written cell can
receive a value that was itself copied earlier in the same pass.
`ChainOrigin` names the cell whose original value ends up in each written
cell. `ChainOriginIsSource` proves that this is plain copying from the source
cell when the two patches do not overlap, when the source patch holds no
masked cell, or when the source centre does not precede the destination
centre in scan order.

The neighbourhood variant of the self-copy counts its steps in unsigned 32-bit
arithmetic, `(patchRadius*2 + 1)*(patchRadius*2 + 1)` (Legacy.cxx:252). The
model keeps that count as `StepCount`. `StepCountExact` proves that below
radius 32768 every written cell is reached. `WrappedStepCount` shows that at
radius 32768 the count wraps to 131073, so the centre row is never reached.

Where this code departs from the published algorithm (Criminisi, Pérez and
Toyama, 2004), the model follows the code:

- **Candidate rejection.** The published algorithm takes exemplars only from
  fully known patches. This code rejects a candidate only when a masked
  candidate pixel lines up with a known query pixel (Legacy.cxx:72-77), and
  it blanks masked centres. See `CandidateAcceptedIff` and `BlankedScore`.
- **No candidate found.** When no candidate qualifies, the code still returns
  a minimum of the blanked grid (the model takes the first in scan order).
  `BestMatchIsAccepted` says when that minimum is a genuine candidate.
- **Confidence values.** The published algorithm gives every filled pixel the
  confidence of the patch centre. This code evaluates `ComputeConfidenceTerm`
  for each filled pixel (Legacy.cxx:195). The model takes that term as a
  function of the pixel.
- **Unweighted distance.** `FindBestPatchMatch` sums unweighted absolute
  differences over the three channels. Only `SelfPatchMatch` takes weights.

## Model

| member | source | states |
|---|---|---|
| Helpers.RegionAroundPixel | Helpers.cpp:23-39 | the region has side 2r+1 in both dimensions, contains the pixel, and contains exactly the pixels within distance r of it in both coordinates |
| Helpers.RegionAroundPixelCount | Helpers.cpp:33-36 | the region around a pixel holds (2r+1)^2 pixels |
| Helpers.RegionCenter | Helpers.cpp:57-64 | the centre (index plus half the size, rounded down) lies in a non-empty region and is as far from the first row/column as from the last, or one further for an even side |
| Helpers.CenterOfRegionAroundPixel | Helpers.cpp:57-64 | the centre of the region built around p is p |
| Helpers.RegionAroundCenter | Helpers.cpp:57-64 | a square region of odd side is the region built around its centre with radius half its side |
| Helpers.PatchInsideIffInterior | Helpers.cpp:28-36 | the patch around c lies in the image iff c is at least r from every border, and then all its pixels are in the image |
| Helpers.Offset | Legacy.cxx:252-257 | the i-th neighbourhood offset lies within distance r of the centre |
| Helpers.OffsetRoundTrip | Legacy.cxx:252-257 | numbering the i-th offset gives back i |
| Helpers.NeighborhoodIndexOrder | Legacy.cxx:252-257 | offset numbers are ordered exactly as the offsets are in scan order |
| Helpers.NeighborhoodIndexRoundTrip | Legacy.cxx:252-257 | every offset of the patch has a number in 0 .. (2r+1)^2-1, and that number's offset is the offset itself |
| Helpers.IsValidPatch | Helpers.cpp:41-55 | an empty region gives true wherever it lies; a non-empty region outside the mask is an error; otherwise the result is true iff every mask value in the region is zero; the mask is not modified |
| GridScan.BlankMasked | Legacy.cxx:116-131 | every cell with a positive mask value becomes the given value, every other cell keeps its value |
| GridScan.ReplaceValue | Legacy.cxx:134 | every cell equal to `from` becomes `to`, every other cell keeps its value |
| GridScan.FillRegion | Legacy.cxx:109-112 | the cells of the region inside the grid get the value, all other cells keep theirs |
| GridScan.MinValueLocation | Legacy.cxx:137-140 | the result is in the grid, its value is at most every value, and strictly below every value earlier in scan order |
| PatchCopy.ChainOrigin | Legacy.cxx:307-316 | the cell whose original value the in-place copy leaves in a written cell lies in the image |
| PatchCopy.ChainOriginUnwritten | Legacy.cxx:307-316 | that origin cell had not been overwritten when the copy read it |
| PatchCopy.ChainOriginIsSource | Legacy.cxx:307-316 | when the patches do not overlap, the source centre does not precede the destination centre, or the source patch holds no masked cell, every written cell receives its own source cell's original value |
| PatchCopy.CopySelfPatchIntoValidRegion | Legacy.cxx:293-325 | both patches inside the image iff Pass; on failure nothing changes; on success exactly the masked destination cells are written, each with its origin cell's original value, and all other cells are unchanged |
| PatchCopy.VisitStep | Legacy.cxx:252-271 | step i of the neighbourhood loop visits exactly the destination cell at offset i, and that cell's origin follows its source cell iff the source cell was visited earlier |
| PatchCopy.VisitBounds | Legacy.cxx:250-276 | nothing is visited before the loop, and every written cell is visited after it |
| PatchCopy.StepCount | Legacy.cxx:252 | the 32-bit step count is at most (2r+1)^2, and equal to it exactly when (2r+1)^2 is below 2^32 |
| PatchCopy.StepCountExact | Legacy.cxx:252 | below radius 32768 the step count does not wrap |
| PatchCopy.WrappedStepCount | Legacy.cxx:252 | at radius 32768 the step count is 131073, and a written centre cell is never visited |
| PatchCopy.CopySelfPatchIntoValidRegionClipped | Legacy.cxx:224-288 | offsets whose source or destination pixel leaves the image are skipped; exactly the in-image masked destination cells among the first StepCount(r) offsets are written, each with its origin cell's original value |
| PatchCopy.ExtractRegion | Legacy.cxx:150-158 | the fresh patch has the region's size and holds the image's values from the region's corner on |
| PatchCopy.ClearMasked | Legacy.cxx:160-178 | patch cells whose image pixel is masked become the blank value, the others are unchanged |
| PatchCopy.ExtractUnmasked | Legacy.cxx:150-178 | the extracted source patch holds the blank value at masked pixels and the image value elsewhere |
| PatchCopy.PasteRegionCentred | Legacy.cxx:180 | the paste region of any patch size is centred at the target pixel |
| PatchCopy.CopyPatchIntoImage | Legacy.cxx:180 | masked image pixels inside the paste region take the matching patch cell; the part of the region outside the image is skipped; all other pixels are unchanged |
| PatchCopy.PasteRegionOfPatch | Legacy.cxx:180 | a patch of side 2r+1 pasted at c covers exactly the region around c |
| PatchCopy.CopyUnmaskedPatch | Legacy.cxx:147-181 | the source patch inside the image iff Pass; on failure nothing changes; on success every masked target pixel gets its source pixel's value, or the blank value when the source pixel is masked; all other pixels are unchanged |
| PatchCopy.PasteOverMasked | Legacy.cxx:180 | pasting the cleared source patch writes exactly the masked target pixels, each with its cleared source value |
| PatchScore.RealAbs | Legacy.cxx:87 | the absolute value is non-negative and zero exactly for zero |
| PatchScore.ColorDistance | Legacy.cxx:84-88 | the summed channel difference is non-negative and zero exactly for equal colours |
| PatchScore.CellDistance | Legacy.cxx:81-88 | the distance between a candidate pixel and a query pixel is non-negative and zero exactly when their colours agree |
| PatchScore.Compare | Legacy.cxx:72-89 | one comparison never decreases `invalid` or the sum, and counts a known query pixel exactly once, as valid or invalid |
| PatchScore.ScanStep | Legacy.cxx:69-93 | the query iterator stays put exactly when an invalid pixel is counted, and advances by one otherwise |
| PatchScore.Scan | Legacy.cxx:66-93 | after n iterations the query position plus the invalid count is n, and the sum is non-negative |
| PatchScore.AlignedTally | Legacy.cxx:69-93 | the reference comparison's sum is non-negative |
| PatchScore.ScanMatchesAligned | Legacy.cxx:72-92 | the loop as written meets an invalid pixel iff the aligned reference does, and otherwise has the same counters |
| PatchScore.AlignedCountsKnown | Legacy.cxx:72-80 | valid plus invalid equals the number of known query pixels |
| PatchScore.AlignedInvalidIff | Legacy.cxx:72-77 | no invalid pixel iff the candidate is unmasked wherever the query is known |
| PatchScore.AlignedSumZeroIff | Legacy.cxx:80-88 | the summed difference is zero iff every compared position has distance zero |
| PatchScore.CompareStep | Legacy.cxx:72-92 | one iteration of the comparison loop over the grids is `ScanStep` on the comparison tables |
| PatchScore.CompareWithCandidate | Legacy.cxx:66-93 | the comparison loop's counters are those of `Scan` after all (2r+1)^2 positions |
| PatchScore.MinValidPixels | Legacy.cxx:47-48 | the minimum is a quarter of (2r+1)^2 rounded down, which is r(r+1) |
| PatchScore.CandidateScore | Legacy.cxx:56-102 | a score is -1 or non-negative |
| PatchScore.ComparisonScore | Legacy.cxx:95-102 | a comparison scores -1 or a non-negative mean; a minimum at or above the number of positions rejects it |
| PatchScore.ComparisonAcceptedIff | Legacy.cxx:95-102 | a comparison is accepted iff more than the minimum of pixels are known and no known pixel is blocked; the score is then the aligned sum over the known count, and non-negative |
| PatchScore.ComparisonZeroIff | Legacy.cxx:95-97 | an accepted comparison scores 0 iff every known position has distance zero |
| PatchScore.CandidateAcceptedIff | Legacy.cxx:47-102 | a candidate avoids -1 iff its patch is in the image, more than a quarter (rounded down) of the query patch is known, and the candidate is unmasked at every known query position; its score is then the mean aligned difference over the known pixels |
| PatchScore.ZeroScoreIff | Legacy.cxx:80-102 | a candidate scores 0 iff it is accepted and matches the query colour at every known pixel |
| PatchScore.QueryMatchesItself | Legacy.cxx:47-102 | the query compared with itself scores 0 when more than a quarter of it is known, and -1 otherwise |
| PatchScore.ScoreCandidate | Legacy.cxx:52-102 | the score written for a candidate is its CandidateScore |
| PatchScore.ScoreRow | Legacy.cxx:50-107 | each centre of the row gets its CandidateScore, other rows are unchanged |
| PatchScore.ScoreAllCandidates | Legacy.cxx:50-107 | every centre of the grid gets its CandidateScore |
| SelfMatch.DifferenceAt | Legacy.cxx:443-465 | a centre whose patch lies in the image gets its patch difference, every other centre the largest float |
| SelfMatch.SelfScore | Legacy.cxx:360-368 | a centre keeps its patch difference only if it is unmasked and its patch lies in the image; otherwise it scores the largest float |
| SelfMatch.ComputeDifferenceImage | Legacy.cxx:410-476 | a fresh grid of the image's size holds the patch difference at non-boundary centres and the largest float on the boundary faces |
| SelfMatch.SelfPatchMatch | Legacy.cxx:333-385 | the result is in the image and has the smallest blanked difference, the first such in scan order |
| SelfMatch.SelfMatchIsUnmaskedInterior | Legacy.cxx:353-376 | a minimum below the largest float is unmasked with its patch in the image; if any such centre differs by less than the largest float, the minimum is such a centre with the least difference among them |
| SelfMatch.UniformWeights | Legacy.cxx:391 | one weight per channel, each 1/n |
| SelfMatch.UniformWeightsSumToOne | Legacy.cxx:391 | the uniform weights sum to 1 |
| SelfMatch.SelfPatchMatchUniform | Legacy.cxx:388-393 | the default overload returns the first minimum under uniform weights |
| Criminisi.Inpainting.constructor | CriminisiInpainting.h:76-84 | the object holds the given grids and radius, and a fresh score grid of the image's size |
| Criminisi.Inpainting.FindBestPatchMatch | Legacy.cxx:19-143 | an error iff the query patch leaves the image (the grid is then unchanged); otherwise the score grid holds every centre's blanked score and the result is its first minimum |
| Criminisi.Inpainting.ScoreQuery | Legacy.cxx:50-134 | after scoring and blanking, the grid holds every centre's blanked score |
| Criminisi.Inpainting.BlankedScore | Legacy.cxx:109-134 | a centre under the blocking patch, masked, or whose patch leaves the image scores the highest value; any other score left is a non-negative accepted candidate score |
| Criminisi.Inpainting.BlankUnwantedCentres | Legacy.cxx:109-134 | centres under the blocking patch, masked centres and -1 entries become the highest value, the rest are unchanged |
| Criminisi.Inpainting.BestMatchIsAccepted | Legacy.cxx:95-140 | a minimum below the highest value is an unmasked, unblocked, accepted candidate with the least score among them; the minimum is below the highest value whenever such a candidate scores below it |
| Criminisi.Inpainting.UpdateConfidenceImage | Legacy.cxx:183-200 | a target patch outside the image is an error that changes nothing; otherwise exactly the masked pixels of the target patch get their confidence term, all other confidences are unchanged |
| Criminisi.Inpainting.UpdateIsophoteImage | Legacy.cxx:147-181 | a source patch outside the image is an error that changes nothing; otherwise each masked target pixel inside the image gets its source pixel's isophote, or zero when that source pixel is masked, and all other isophotes are unchanged |

## Left out

- Floating point: channel values, sums, means and weights are exact reals. IEEE `float` rounding is not modelled. The toolkit's float maximum is the exact real `MaxFloat`.
- Console and debug-image output (`WriteImage`, `WriteScaledScalarImage`, `std::cout`, `std::cerr`) is left out. It has no effect on the grids.
- `exit(-1)` after a toolkit exception becomes an error value with the grids unchanged. The process never ends.
- `something()` (Legacy.cxx:202-216) is an unfinished fragment that refers to undefined names. The masked paste it would perform is `CopyPatchIntoImage`.
- `PatchDifference`, called by `ComputeDifferenceImage`, is not part of this model. It is a function parameter.
- `ComputeConfidenceTerm`, called by `UpdateConfidenceImage`, is not part of this model. It is a function parameter, fixed for the duration of one update.
- `CreateConstantFloatBlockingPatch` is not part of this model, and neither is the size of the blocking patch. Its radius is the field `blockingRadius`, and pasting it is `FillRegion`, clipped to the grid.
- `highestValue` is not declared in CriminisiInpainting.h. It is the field `highestValue`.
- The minimum finder (`GetIndexOfMinimum`, `MinValueLocation`) is not part of this model. Its tie-break is modelled as the first minimum in scan order.
- `CopyPatchIntoImage` is not part of this model. Both of its overloads are modelled as a paste centred at the target pixel and clipped to the image. The blocking paste (Legacy.cxx:112) is `FillRegion`. The masked paste (Legacy.cxx:180) is `PatchCopy.CopyPatchIntoImage`, which writes only where the mask is non-zero. So `UpdateIsophoteImage` fails only where the code shows a failure point: when the source region leaves the image (Legacy.cxx:154-161). If the toolkit rejected a paste region that leaves the image, the isophote update would fail there too.
- The isophote extraction (`RegionOfInterestImageFilter`) is modelled as a copy of the region.
- The mask and the grid a copy or paste writes are assumed to be distinct arrays (`mask as object != image` in `PatchCopy`). A call that passes the mask as its own image is not modelled.
- Mask values are `nat` rather than 8-bit unsigned; only zero versus non-zero matters.
- Helpers.RegionAroundPixel: the side `radius*2 + 1` is computed in unsigned 32-bit arithmetic (Helpers.cpp:33-34), which wraps for radius 2^31 and above. The model takes the side as 2r+1, so it assumes a radius below 2^31.
- PatchScore.MinValidPixels: the pixel count `GetPatchSize()[0] * GetPatchSize()[1]` (Legacy.cxx:47) is an unsigned 32-bit product. The model does not wrap it. That is exact whenever the query patch, which must lie in the image, fits in an image of fewer than 2^32 pixels.
- The other unsigned 32-bit counters (`valid`, `invalid`, loop indices) are unbounded integers. Each is bounded by a pixel count of the patch or the image.
- One patch radius is used for both dimensions (`PatchRadius[0]`), and the CIELAB image is one grid of three-channel colours.
- SelfMatch.ComputeDifferenceImage: the face calculator's split into faces is not modelled. Each centre is classified directly as non-boundary (its whole patch is inside the image) or boundary. The faces' order does not matter because every cell is written once.
- SelfMatch.SelfPatchMatch: the `iteration` argument only names a debug image, so it has no effect. The image must be non-empty, as the minimum finder needs at least one pixel.
- PatchScore.ScoreRow: the scoring loop over all centres is split into one method per row. The scan order and the written values are unchanged.
- Gradient, isophote, normal and priority computation, colour conversion and the inpainting loop itself are outside this core.
