/** The inpainting object of Legacy.cxx: the grids it owns and its three
    in-place operations, best-patch search (FindBestPatchMatch), confidence
    update (UpdateConfidenceImage) and isophote update (UpdateIsophoteImage). */
module Criminisi {
  import opened Helpers
  import opened GridScan
  import opened PatchCopy
  import opened PatchScore

  /** An isophote: a two-component float vector per pixel. */
  datatype Vec2 = Vec2(u: real, v: real)

  class Inpainting {
    /** The image in CIELAB colour, compared by the patch search. */
    const cielab: array2<Lab>
    /** Non-zero on the hole still to be filled. */
    const mask: array2<nat>
    /** Per-centre scores written by the patch search. */
    const meanDifference: array2<real>
    const confidence: array2<real>
    const isophote: array2<Vec2>
    const patchRadius: nat
    /** The score given to centres that must not be chosen. */
    const highestValue: real
    /** The radius of the blocking patch pasted over the query's neighbourhood. */
    const blockingRadius: nat

    /** All grids have the size of the image; the two real-valued grids are
        distinct. */
    predicate Valid() {
      mask.Length0 == cielab.Length0 && mask.Length1 == cielab.Length1 &&
      meanDifference.Length0 == cielab.Length0 && meanDifference.Length1 == cielab.Length1 &&
      confidence.Length0 == cielab.Length0 && confidence.Length1 == cielab.Length1 &&
      isophote.Length0 == cielab.Length0 && isophote.Length1 == cielab.Length1 &&
      confidence != meanDifference
    }

    constructor(cielab: array2<Lab>, mask: array2<nat>, confidence: array2<real>, isophote: array2<Vec2>,
                patchRadius: nat, highestValue: real, blockingRadius: nat)
      requires mask.Length0 == cielab.Length0 && mask.Length1 == cielab.Length1
      requires confidence.Length0 == cielab.Length0 && confidence.Length1 == cielab.Length1
      requires isophote.Length0 == cielab.Length0 && isophote.Length1 == cielab.Length1
      ensures Valid() && fresh(meanDifference)
      ensures this.cielab == cielab && this.mask == mask && this.confidence == confidence && this.isophote == isophote
      ensures this.patchRadius == patchRadius && this.highestValue == highestValue && this.blockingRadius == blockingRadius
    {
      this.cielab := cielab;
      this.mask := mask;
      this.confidence := confidence;
      this.isophote := isophote;
      this.patchRadius := patchRadius;
      this.highestValue := highestValue;
      this.blockingRadius := blockingRadius;
      meanDifference := new real[cielab.Length0, cielab.Length1];
    }

    /** The query patch lies in the image, as the patch search demands. */
    predicate QueryInside(query: Index) {
      InsideGrid(RegionAroundPixel(query, patchRadius), cielab.Length0, cielab.Length1)
    }

    /** The final score of centre `c` in the search for `query`: the highest
        value when `c` is under the blocking patch, masked, or rejected, and the
        candidate's score otherwise. A centre whose patch leaves the image is
        blanked too, and every score left standing is an accepted, non-negative
        candidate score. */
    function BlankedScore(query: Index, c: Index): (s: real)
      requires Valid() && QueryInside(query) && InGrid(c, cielab.Length0, cielab.Length1)
      reads cielab, mask
      ensures s == highestValue || (s >= 0.0 && s == CandidateScore(cielab, mask, query, c, patchRadius))
      ensures (InPatch(c, query, blockingRadius) || mask[c.x, c.y] != 0 ||
               !InsideGrid(RegionAroundPixel(c, patchRadius), cielab.Length0, cielab.Length1)) ==> s == highestValue
    {
      var score := CandidateScore(cielab, mask, query, c, patchRadius);
      if InPatch(c, query, blockingRadius) || mask[c.x, c.y] != 0 || score == -1.0 then highestValue else score
    }

    /** Scores every centre against the query patch, blanks the blocking patch,
        the masked centres and the rejected ones, and returns the location of
        the smallest score. A query patch that leaves the image is an error. */
    method FindBestPatchMatch(query: Index) returns (res: Result<Index>)
      requires Valid()
      modifies meanDifference
      ensures res.Err? <==> !QueryInside(query)
      ensures res.Err? ==> res.error == QueryTooCloseToBorder && unchanged(meanDifference)
      ensures res.Ok? ==>
        InGrid(res.value, cielab.Length0, cielab.Length1) &&
        (forall x, y {:trigger meanDifference[x, y]} :: 0 <= x < cielab.Length0 && 0 <= y < cielab.Length1 ==>
          meanDifference[x, y] == BlankedScore(query, Index(x, y))) &&
        (forall x, y {:trigger BlankedScore(query, Index(x, y))} :: 0 <= x < cielab.Length0 && 0 <= y < cielab.Length1 ==>
          BlankedScore(query, res.value) <= BlankedScore(query, Index(x, y))) &&
        (forall x, y {:trigger BlankedScore(query, Index(x, y))} :: 0 <= x < cielab.Length0 && 0 <= y < cielab.Length1 && RowMajorBefore(Index(x, y), res.value) ==>
          BlankedScore(query, res.value) < BlankedScore(query, Index(x, y)))
    {
      if !QueryInside(query) {
        return Err(QueryTooCloseToBorder);
      }
      ScoreQuery(query);
      var best := MinValueLocation(meanDifference);
      forall x, y | 0 <= x < cielab.Length0 && 0 <= y < cielab.Length1
        ensures BlankedScore(query, Index(x, y)) == meanDifference[x, y]
      {
      }
      return Ok(best);
    }

    /** Scores every centre against the inside query patch and blanks the
        unwanted centres: the grid then holds the blanked score of each centre. */
    method ScoreQuery(query: Index)
      requires Valid() && QueryInside(query)
      modifies meanDifference
      ensures forall x, y {:trigger meanDifference[x, y]} :: 0 <= x < cielab.Length0 && 0 <= y < cielab.Length1 ==>
        meanDifference[x, y] == BlankedScore(query, Index(x, y))
    {
      ScoreAllCandidates(cielab, mask, query, patchRadius, meanDifference);
      BlankUnwantedCentres(query);
    }

    /** Gives the highest value to the centres under the blocking patch around
        `query`, to the masked centres and to the rejected ones (score -1). */
    method BlankUnwantedCentres(query: Index)
      requires Valid()
      modifies meanDifference
      ensures forall x, y {:trigger meanDifference[x, y]} :: 0 <= x < cielab.Length0 && 0 <= y < cielab.Length1 ==>
        meanDifference[x, y] ==
          if InPatch(Index(x, y), query, blockingRadius) || mask[x, y] != 0 || old(meanDifference[x, y]) == -1.0
          then highestValue else old(meanDifference[x, y])
    {
      FillRegion(meanDifference, RegionAroundPixel(query, blockingRadius), highestValue);
      BlankMasked(meanDifference, mask, highestValue);
      ReplaceValue(meanDifference, -1.0, highestValue);
    }

    /** A minimum of the blanked scores that is below the highest value is an
        unmasked, unblocked, accepted candidate with the smallest score among
        all such candidates; and it is below the highest value whenever some
        such candidate scores below it. */
    lemma BestMatchIsAccepted(query: Index, best: Index)
      requires Valid() && QueryInside(query) && InGrid(best, cielab.Length0, cielab.Length1)
      requires forall x, y :: 0 <= x < cielab.Length0 && 0 <= y < cielab.Length1 ==>
        BlankedScore(query, best) <= BlankedScore(query, Index(x, y))
      ensures BlankedScore(query, best) != highestValue ==>
        mask[best.x, best.y] == 0 && !InPatch(best, query, blockingRadius) &&
        CandidateScore(cielab, mask, query, best, patchRadius) >= 0.0 &&
        forall x, y :: (0 <= x < cielab.Length0 && 0 <= y < cielab.Length1 && mask[x, y] == 0 &&
                        !InPatch(Index(x, y), query, blockingRadius) &&
                        CandidateScore(cielab, mask, query, Index(x, y), patchRadius) != -1.0) ==>
          CandidateScore(cielab, mask, query, best, patchRadius) <= CandidateScore(cielab, mask, query, Index(x, y), patchRadius)
      ensures (exists x, y :: 0 <= x < cielab.Length0 && 0 <= y < cielab.Length1 && mask[x, y] == 0 &&
                 !InPatch(Index(x, y), query, blockingRadius) &&
                 CandidateScore(cielab, mask, query, Index(x, y), patchRadius) != -1.0 &&
                 CandidateScore(cielab, mask, query, Index(x, y), patchRadius) < highestValue) ==>
        BlankedScore(query, best) != highestValue
    {
      if exists x, y :: 0 <= x < cielab.Length0 && 0 <= y < cielab.Length1 && mask[x, y] == 0 &&
          !InPatch(Index(x, y), query, blockingRadius) &&
          CandidateScore(cielab, mask, query, Index(x, y), patchRadius) != -1.0 &&
          CandidateScore(cielab, mask, query, Index(x, y), patchRadius) < highestValue {
        var x, y :| 0 <= x < cielab.Length0 && 0 <= y < cielab.Length1 && mask[x, y] == 0 &&
          !InPatch(Index(x, y), query, blockingRadius) &&
          CandidateScore(cielab, mask, query, Index(x, y), patchRadius) != -1.0 &&
          CandidateScore(cielab, mask, query, Index(x, y), patchRadius) < highestValue;
        assert BlankedScore(query, Index(x, y)) < highestValue;
      }
    }

    /** Sets the confidence of every masked pixel of the patch around `target`
        to its confidence term, scanning the patch in order; the rest of the
        confidence grid is unchanged. A patch that leaves the image is the
        region iterator's error. */
    method UpdateConfidenceImage(source: Index, target: Index, confidenceTerm: Index -> real) returns (out: Outcome)
      requires Valid()
      modifies confidence
      ensures out.Pass? <==> InsideGrid(RegionAroundPixel(target, patchRadius), cielab.Length0, cielab.Length1)
      ensures out.Fail? ==> out.error == RegionOutsideImage && unchanged(confidence)
      ensures out.Pass? ==> forall x, y {:trigger confidence[x, y]} :: 0 <= x < cielab.Length0 && 0 <= y < cielab.Length1 ==>
        confidence[x, y] == if InPatch(Index(x, y), target, patchRadius) && mask[x, y] != 0
                            then confidenceTerm(Index(x, y)) else old(confidence[x, y])
    {
      var reg := RegionAroundPixel(target, patchRadius);
      if !InsideGrid(reg, cielab.Length0, cielab.Length1) {
        return Fail(RegionOutsideImage);
      }
      for y := reg.index.y to reg.index.y + reg.size.h
        invariant forall x', y' {:trigger confidence[x', y']} :: 0 <= x' < cielab.Length0 && 0 <= y' < cielab.Length1 ==>
          confidence[x', y'] == if Contains(reg, Index(x', y')) && y' < y && mask[x', y'] != 0
                                then confidenceTerm(Index(x', y')) else old(confidence[x', y'])
      {
        for x := reg.index.x to reg.index.x + reg.size.w
          invariant forall x', y' {:trigger confidence[x', y']} :: 0 <= x' < cielab.Length0 && 0 <= y' < cielab.Length1 ==>
            confidence[x', y'] == if Contains(reg, Index(x', y')) && (y' < y || (y' == y && x' < x)) && mask[x', y'] != 0
                                  then confidenceTerm(Index(x', y')) else old(confidence[x', y'])
        {
          if mask[x, y] != 0 {
            confidence[x, y] := confidenceTerm(Index(x, y));
          }
        }
      }
      return Pass;
    }

    /** Copies the isophotes of the patch around `source` into the masked pixels
        of the patch around `target`, with the source pixels that are themselves
        masked cleared to the zero vector first; target pixels outside the image
        are skipped. The source patch leaving the image is an error and changes
        nothing. */
    method UpdateIsophoteImage(source: Index, target: Index) returns (out: Outcome)
      requires Valid()
      modifies isophote
      ensures out.Pass? <==> InsideGrid(RegionAroundPixel(source, patchRadius), cielab.Length0, cielab.Length1)
      ensures out.Fail? ==> out.error == RegionOutsideImage && unchanged(isophote)
      ensures out.Pass? ==> forall x, y {:trigger isophote[x, y]} :: 0 <= x < cielab.Length0 && 0 <= y < cielab.Length1 ==>
        isophote[x, y] == if InPatch(Index(x, y), target, patchRadius) && mask[x, y] != 0
                          then (var s := SourceOf(Index(x, y), source, target);
                                if mask[s.x, s.y] != 0 then Vec2(0.0, 0.0) else old(isophote[s.x, s.y]))
                          else old(isophote[x, y])
    {
      out := CopyUnmaskedPatch(isophote, mask, source, target, patchRadius, Vec2(0.0, 0.0));
    }
  }
}
