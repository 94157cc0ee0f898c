/** The weighted self-match of Legacy.cxx: a difference grid over all centres
    (ComputeDifferenceImage), masked centres pushed to the largest float, and
    the location of the minimum (SelfPatchMatch and its default overload). */
module SelfMatch {
  import opened Helpers
  import opened GridScan

  /** The largest finite single-precision value, (2 - 2^-23) * 2^127: the
      toolkit's maximum for float pixels. */
  const MaxFloat: real := 340282346638528859811704183484516925440.0

  /** The weighted difference between the patch around the query pixel and the
      patch around a candidate centre, for a radius and a weight per channel. It
      stands for the patch-difference helper, which is not part of this model. */
  type PatchDifference = (Index, Index, nat, seq<real>) -> real

  /** The value of the difference grid at `c`: the patch difference for
      non-boundary centres and the largest float on the boundary faces: the
      centres whose patch lies in the image are exactly the ones compared. */
  function DifferenceAt(pd: PatchDifference, q: Index, c: Index, r: nat, weights: seq<real>, w: int, h: int): (d: real)
    ensures InsideGrid(RegionAroundPixel(c, r), w, h) ==> d == pd(q, c, r, weights)
    ensures !InsideGrid(RegionAroundPixel(c, r), w, h) ==> d == MaxFloat
  {
    if Interior(c, r, w, h) then pd(q, c, r, weights) else MaxFloat
  }

  /** Fills a fresh grid of the image's size: every non-boundary centre gets its
      patch difference, every boundary centre the largest float. Each cell is
      written once, so the order of the toolkit's faces does not matter. */
  method ComputeDifferenceImage<P>(image: array2<P>, q: Index, r: nat, weights: seq<real>, pd: PatchDifference)
    returns (output: array2<real>)
    ensures fresh(output)
    ensures output.Length0 == image.Length0 && output.Length1 == image.Length1
    ensures forall x, y {:trigger output[x, y]} :: 0 <= x < output.Length0 && 0 <= y < output.Length1 ==>
      output[x, y] == DifferenceAt(pd, q, Index(x, y), r, weights, image.Length0, image.Length1)
  {
    output := new real[image.Length0, image.Length1];
    for y := 0 to output.Length1
      invariant forall x', y' {:trigger output[x', y']} :: 0 <= x' < output.Length0 && 0 <= y' < y ==>
        output[x', y'] == DifferenceAt(pd, q, Index(x', y'), r, weights, image.Length0, image.Length1)
    {
      for x := 0 to output.Length0
        invariant forall x', y' {:trigger output[x', y']} :: 0 <= x' < output.Length0 && 0 <= y' < y ==>
          output[x', y'] == DifferenceAt(pd, q, Index(x', y'), r, weights, image.Length0, image.Length1)
        invariant forall x' {:trigger output[x', y]} :: 0 <= x' < x ==>
          output[x', y] == DifferenceAt(pd, q, Index(x', y), r, weights, image.Length0, image.Length1)
      {
        if Interior(Index(x, y), r, image.Length0, image.Length1) {
          output[x, y] := pd(q, Index(x, y), r, weights);
        } else {
          output[x, y] := MaxFloat;
        }
      }
    }
  }

  /** The blanked difference of centre `c`: the largest float for a masked centre,
      its difference otherwise. Only an unmasked centre whose patch lies in the
      image keeps its patch difference. */
  function SelfScore(mask: array2<nat>, pd: PatchDifference, q: Index, c: Index, r: nat, weights: seq<real>): (s: real)
    requires InGrid(c, mask.Length0, mask.Length1)
    reads mask
    ensures s == MaxFloat ||
      (mask[c.x, c.y] == 0 && InsideGrid(RegionAroundPixel(c, r), mask.Length0, mask.Length1) && s == pd(q, c, r, weights))
    ensures mask[c.x, c.y] > 0 || !InsideGrid(RegionAroundPixel(c, r), mask.Length0, mask.Length1) ==> s == MaxFloat
  {
    if mask[c.x, c.y] > 0 then MaxFloat else DifferenceAt(pd, q, c, r, weights, mask.Length0, mask.Length1)
  }

  /** The centre whose patch best matches the query patch: the smallest blanked
      difference, the first in scan order among equals. */
  method SelfPatchMatch<P>(image: array2<P>, mask: array2<nat>, q: Index, r: nat, iteration: nat, weights: seq<real>,
                           pd: PatchDifference) returns (best: Index)
    requires mask.Length0 == image.Length0 && mask.Length1 == image.Length1
    requires image.Length0 > 0 && image.Length1 > 0
    ensures InGrid(best, image.Length0, image.Length1)
    ensures forall x, y {:trigger SelfScore(mask, pd, q, Index(x, y), r, weights)} :: 0 <= x < image.Length0 && 0 <= y < image.Length1 ==>
      SelfScore(mask, pd, q, best, r, weights) <= SelfScore(mask, pd, q, Index(x, y), r, weights)
    ensures forall x, y {:trigger SelfScore(mask, pd, q, Index(x, y), r, weights)} :: 0 <= x < image.Length0 && 0 <= y < image.Length1 && RowMajorBefore(Index(x, y), best) ==>
      SelfScore(mask, pd, q, best, r, weights) < SelfScore(mask, pd, q, Index(x, y), r, weights)
  {
    var difference := ComputeDifferenceImage(image, q, r, weights, pd);
    BlankMasked(difference, mask, MaxFloat);
    assert forall x, y {:trigger difference[x, y]} :: 0 <= x < image.Length0 && 0 <= y < image.Length1 ==>
      difference[x, y] == SelfScore(mask, pd, q, Index(x, y), r, weights);
    best := MinValueLocation(difference);
    forall x, y | 0 <= x < image.Length0 && 0 <= y < image.Length1
      ensures SelfScore(mask, pd, q, Index(x, y), r, weights) == difference[x, y]
    {
    }
  }

  /** When some unmasked centre with its patch inside the image has a difference
      below the largest float, the minimum is such a centre and has the smallest
      difference among them; conversely a minimum below the largest float is
      always such a centre. */
  lemma SelfMatchIsUnmaskedInterior(mask: array2<nat>, pd: PatchDifference, q: Index, r: nat, weights: seq<real>, best: Index)
    requires InGrid(best, mask.Length0, mask.Length1)
    requires forall x, y :: 0 <= x < mask.Length0 && 0 <= y < mask.Length1 ==>
      SelfScore(mask, pd, q, best, r, weights) <= SelfScore(mask, pd, q, Index(x, y), r, weights)
    ensures SelfScore(mask, pd, q, best, r, weights) < MaxFloat ==>
      mask[best.x, best.y] == 0 && Interior(best, r, mask.Length0, mask.Length1)
    ensures (exists x, y :: 0 <= x < mask.Length0 && 0 <= y < mask.Length1 && mask[x, y] == 0 &&
              Interior(Index(x, y), r, mask.Length0, mask.Length1) && pd(q, Index(x, y), r, weights) < MaxFloat) ==>
      mask[best.x, best.y] == 0 && Interior(best, r, mask.Length0, mask.Length1) &&
      forall x, y :: (0 <= x < mask.Length0 && 0 <= y < mask.Length1 && mask[x, y] == 0 &&
                      Interior(Index(x, y), r, mask.Length0, mask.Length1)) ==>
        pd(q, best, r, weights) <= pd(q, Index(x, y), r, weights)
  {
  }

  /** `n` weights of `1/n` each: every channel counts equally. */
  function UniformWeights(n: nat): (weights: seq<real>)
    requires n > 0
    ensures |weights| == n
    ensures forall i :: 0 <= i < n ==> weights[i] == 1.0 / n as real
  {
    seq(n, _ => 1.0 / n as real)
  }

  function Sum(s: seq<real>): real {
    if |s| == 0 then 0.0 else Sum(s[..|s| - 1]) + s[|s| - 1]
  }

  lemma {:induction false} SumOfConstant(s: seq<real>, v: real)
    requires forall i :: 0 <= i < |s| ==> s[i] == v
    ensures Sum(s) == |s| as real * v
  {
    if |s| > 0 {
      SumOfConstant(s[..|s| - 1], v);
    }
  }

  /** The uniform weights add up to one. */
  lemma UniformWeightsSumToOne(n: nat)
    requires n > 0
    ensures Sum(UniformWeights(n)) == 1.0
  {
    SumOfConstant(UniformWeights(n), 1.0 / n as real);
  }

  /** The default overload: iteration 0 and uniform weights over the pixel's
      `channels` components. */
  method SelfPatchMatchUniform<P>(image: array2<P>, mask: array2<nat>, q: Index, r: nat, channels: nat, pd: PatchDifference)
    returns (best: Index)
    requires channels > 0
    requires mask.Length0 == image.Length0 && mask.Length1 == image.Length1
    requires image.Length0 > 0 && image.Length1 > 0
    ensures InGrid(best, image.Length0, image.Length1)
    ensures forall x, y {:trigger SelfScore(mask, pd, q, Index(x, y), r, UniformWeights(channels))} :: 0 <= x < image.Length0 && 0 <= y < image.Length1 ==>
      SelfScore(mask, pd, q, best, r, UniformWeights(channels)) <= SelfScore(mask, pd, q, Index(x, y), r, UniformWeights(channels))
    ensures forall x, y {:trigger SelfScore(mask, pd, q, Index(x, y), r, UniformWeights(channels))} :: 0 <= x < image.Length0 && 0 <= y < image.Length1 && RowMajorBefore(Index(x, y), best) ==>
      SelfScore(mask, pd, q, best, r, UniformWeights(channels)) < SelfScore(mask, pd, q, Index(x, y), r, UniformWeights(channels))
  {
    best := SelfPatchMatch(image, mask, q, r, 0, UniformWeights(channels), pd);
  }
}
