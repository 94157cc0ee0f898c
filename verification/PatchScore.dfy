/** Scoring of candidate patches against the query patch in FindBestPatchMatch
    (Legacy.cxx): per-candidate counters of compared and overlapping pixels, the
    mean CIELAB difference, and the -1 sentinel for rejected candidates. */
module PatchScore {
  import opened Helpers

  /** A CIELAB colour: lightness and the two opponent channels. */
  datatype Lab = Lab(l: real, a: real, b: real)

  function RealAbs(v: real): (m: real)
    ensures m >= 0.0
    ensures m == 0.0 <==> v == 0.0
  {
    if v < 0.0 then -v else v
  }

  /** Sum over the three channels of the absolute channel difference. */
  function ColorDistance(p: Lab, q: Lab): (d: real)
    ensures d >= 0.0
    ensures d == 0.0 <==> p == q
  {
    RealAbs(p.l - q.l) + RealAbs(p.a - q.a) + RealAbs(p.b - q.b)
  }

  /** The counters accumulated while comparing one candidate: the summed colour
      difference, the compared pixels, and the pixels known in the query patch
      but masked in the candidate patch. */
  datatype Tally = Tally(sum: real, valid: nat, invalid: nat)

  /** The counters together with the position of the iterator over the query
      patch, which the comparison loop advances separately. */
  datatype ScanState = ScanState(tally: Tally, fixed: nat)

  /** The i-th pixel, in scan order, of the patch of radius `r` around `c`. */
  function PatchCell(c: Index, r: nat, i: nat): Index
    requires i < PatchPixels(r)
  {
    Translate(c, Offset(i, r))
  }

  lemma PatchCellInGrid(c: Index, r: nat, i: nat, w: int, h: int)
    requires i < PatchPixels(r) && InsideGrid(RegionAroundPixel(c, r), w, h)
    ensures InGrid(PatchCell(c, r, i), w, h)
  {
    PatchInsideIffInterior(c, r, w, h);
  }

  /** Query and candidate patches both lie in the image, and the mask has the
      size of the colour image. */
  predicate Comparable(cielab: array2<Lab>, mask: array2<nat>, q: Index, c: Index, r: nat) {
    mask.Length0 == cielab.Length0 && mask.Length1 == cielab.Length1 &&
    InsideGrid(RegionAroundPixel(q, r), cielab.Length0, cielab.Length1) &&
    InsideGrid(RegionAroundPixel(c, r), cielab.Length0, cielab.Length1)
  }

  /** Pixel `j` of the query patch is known (outside the hole). */
  predicate Known(mask: array2<nat>, q: Index, r: nat, j: nat)
    requires j < PatchPixels(r) && InsideGrid(RegionAroundPixel(q, r), mask.Length0, mask.Length1)
    reads mask
  {
    PatchCellInGrid(q, r, j, mask.Length0, mask.Length1);
    var f := PatchCell(q, r, j);
    mask[f.x, f.y] == 0
  }

  /** Pixel `i` of the candidate patch is masked. */
  predicate Blocked(mask: array2<nat>, c: Index, r: nat, i: nat)
    requires i < PatchPixels(r) && InsideGrid(RegionAroundPixel(c, r), mask.Length0, mask.Length1)
    reads mask
  {
    PatchCellInGrid(c, r, i, mask.Length0, mask.Length1);
    var m := PatchCell(c, r, i);
    mask[m.x, m.y] != 0
  }

  /** The colour difference between candidate pixel `i` and query pixel `j`. */
  function CellDistance(cielab: array2<Lab>, q: Index, c: Index, r: nat, i: nat, j: nat): (d: real)
    requires i < PatchPixels(r) && j < PatchPixels(r)
    requires InsideGrid(RegionAroundPixel(q, r), cielab.Length0, cielab.Length1)
    requires InsideGrid(RegionAroundPixel(c, r), cielab.Length0, cielab.Length1)
    reads cielab
    ensures d >= 0.0
    ensures d == 0.0 <==> cielab[PatchCell(c, r, i).x, PatchCell(c, r, i).y] == cielab[PatchCell(q, r, j).x, PatchCell(q, r, j).y]
  {
    PatchCellInGrid(q, r, j, cielab.Length0, cielab.Length1);
    PatchCellInGrid(c, r, i, cielab.Length0, cielab.Length1);
    var m, f := PatchCell(c, r, i), PatchCell(q, r, j);
    ColorDistance(cielab[m.x, m.y], cielab[f.x, f.y])
  }

  /** What comparing one candidate reads, position by position in scan order:
      whether the query pixel is known, whether the candidate pixel is masked,
      and the colour distance from each candidate pixel to each query pixel. */
  datatype Comparison = Comparison(known: seq<bool>, blocked: seq<bool>, dist: seq<seq<real>>)

  /** The three tables cover the same positions, and distances are non-negative. */
  predicate WellFormed(v: Comparison) {
    |v.blocked| == |v.known| && |v.dist| == |v.known| &&
    forall i :: 0 <= i < |v.dist| ==>
      |v.dist[i]| == |v.known| && forall j :: 0 <= j < |v.dist[i]| ==> v.dist[i][j] >= 0.0
  }

  /** One comparison: candidate pixel `i` against query pixel `j`. A masked query
      pixel counts nowhere; a known one counts as invalid when the candidate
      pixel is masked, and otherwise as valid with its colour difference added. */
  function Compare(v: Comparison, i: nat, j: nat, t: Tally): (u: Tally)
    requires WellFormed(v) && i < |v.known| && j < |v.known|
    ensures u.invalid >= t.invalid && u.sum >= t.sum
    ensures u.valid + u.invalid == t.valid + t.invalid + (if v.known[j] then 1 else 0)
  {
    if !v.known[j] then t
    else if v.blocked[i] then t.(invalid := t.invalid + 1)
    else Tally(t.sum + v.dist[i][j], t.valid + 1, t.invalid)
  }

  /** The comparison loop as written: the query-patch iterator is not advanced
      after an invalid pixel, so from then on it trails the candidate index. */
  function ScanStep(v: Comparison, i: nat, s: ScanState): (u: ScanState)
    requires WellFormed(v) && s.fixed <= i < |v.known|
    ensures u.fixed == s.fixed || u.fixed == s.fixed + 1
    ensures u.fixed == s.fixed <==> u.tally.invalid == s.tally.invalid + 1
  {
    var lags := v.known[s.fixed] && v.blocked[i];
    ScanState(Compare(v, i, s.fixed, s.tally), if lags then s.fixed else s.fixed + 1)
  }

  /** The state after the first `n` iterations of the comparison loop. */
  function Scan(v: Comparison, n: nat): (s: ScanState)
    requires WellFormed(v) && n <= |v.known|
    ensures s.fixed + s.tally.invalid == n
    ensures s.tally.valid <= s.fixed
    ensures s.tally.sum >= 0.0
  {
    if n == 0 then ScanState(Tally(0.0, 0, 0), 0)
    else ScanStep(v, n - 1, Scan(v, n - 1))
  }

  /** The reference comparison, which pairs pixel `i` of the candidate with pixel
      `i` of the query patch throughout. */
  function AlignedTally(v: Comparison, n: nat): (t: Tally)
    requires WellFormed(v) && n <= |v.known|
    ensures t.sum >= 0.0
  {
    if n == 0 then Tally(0.0, 0, 0)
    else Compare(v, n - 1, n - 1, AlignedTally(v, n - 1))
  }

  /** The loop as written agrees with the aligned reference on whether any
      invalid pixel was met, and on all counters when none was: the trailing
      iterator only ever affects candidates that are rejected anyway. */
  lemma {:induction false} ScanMatchesAligned(v: Comparison, n: nat)
    requires WellFormed(v) && n <= |v.known|
    ensures Scan(v, n).tally.invalid == 0 <==> AlignedTally(v, n).invalid == 0
    ensures Scan(v, n).tally.invalid == 0 ==> Scan(v, n).tally == AlignedTally(v, n)
  {
    if n > 0 {
      ScanMatchesAligned(v, n - 1);
      var s, a := Scan(v, n - 1), AlignedTally(v, n - 1);
      if s.tally.invalid == 0 {
        // no lag so far: the query iterator is still aligned with the candidate
        assert s.fixed == n - 1;
      }
    }
  }

  /** The number of known positions among the first `n`. */
  function KnownCount(known: seq<bool>, n: nat): (k: nat)
    requires n <= |known|
    ensures k <= n
  {
    if n == 0 then 0 else KnownCount(known, n - 1) + (if known[n - 1] then 1 else 0)
  }

  /** Every known query pixel is counted exactly once, as valid or as invalid. */
  lemma {:induction false} AlignedCountsKnown(v: Comparison, n: nat)
    requires WellFormed(v) && n <= |v.known|
    ensures AlignedTally(v, n).valid + AlignedTally(v, n).invalid == KnownCount(v.known, n)
  {
    if n > 0 {
      AlignedCountsKnown(v, n - 1);
    }
  }

  /** No invalid pixel is met exactly when the candidate patch is unmasked at
      every position where the query patch is known. */
  lemma {:induction false} AlignedInvalidIff(v: Comparison, n: nat)
    requires WellFormed(v) && n <= |v.known|
    ensures AlignedTally(v, n).invalid == 0 <==> forall i :: 0 <= i < n && v.known[i] ==> !v.blocked[i]
  {
    if n > 0 {
      AlignedInvalidIff(v, n - 1);
    }
  }

  /** The summed difference is zero exactly when the candidate has the query's
      colour at every compared position. */
  lemma {:induction false} AlignedSumZeroIff(v: Comparison, n: nat)
    requires WellFormed(v) && n <= |v.known|
    ensures AlignedTally(v, n).sum == 0.0 <==>
      forall i :: 0 <= i < n && v.known[i] && !v.blocked[i] ==> v.dist[i][i] == 0.0
  {
    if n > 0 {
      AlignedSumZeroIff(v, n - 1);
    }
  }

  /** Which pixels of the query patch are known, in scan order. */
  function KnownFlags(mask: array2<nat>, q: Index, r: nat): (k: seq<bool>)
    requires InsideGrid(RegionAroundPixel(q, r), mask.Length0, mask.Length1)
    reads mask
    ensures |k| == PatchPixels(r)
    ensures forall j :: 0 <= j < |k| ==> k[j] == Known(mask, q, r, j)
  {
    seq(PatchPixels(r), j requires 0 <= j < PatchPixels(r) reads mask => Known(mask, q, r, j))
  }

  /** Which pixels of the candidate patch are masked, in scan order. */
  function BlockedFlags(mask: array2<nat>, c: Index, r: nat): (b: seq<bool>)
    requires InsideGrid(RegionAroundPixel(c, r), mask.Length0, mask.Length1)
    reads mask
    ensures |b| == PatchPixels(r)
    ensures forall i :: 0 <= i < |b| ==> b[i] == Blocked(mask, c, r, i)
  {
    seq(PatchPixels(r), i requires 0 <= i < PatchPixels(r) reads mask => Blocked(mask, c, r, i))
  }

  /** The colour distance of every candidate pixel to every query pixel. */
  function Distances(cielab: array2<Lab>, q: Index, c: Index, r: nat): (d: seq<seq<real>>)
    requires InsideGrid(RegionAroundPixel(q, r), cielab.Length0, cielab.Length1)
    requires InsideGrid(RegionAroundPixel(c, r), cielab.Length0, cielab.Length1)
    reads cielab
    ensures |d| == PatchPixels(r)
    ensures forall i :: 0 <= i < |d| ==> |d[i]| == PatchPixels(r)
    ensures forall i, j :: 0 <= i < |d| && 0 <= j < |d[i]| ==> d[i][j] == CellDistance(cielab, q, c, r, i, j)
  {
    seq(PatchPixels(r), i requires 0 <= i < PatchPixels(r) reads cielab =>
      seq(PatchPixels(r), j requires 0 <= j < PatchPixels(r) reads cielab => CellDistance(cielab, q, c, r, i, j)))
  }

  /** The tables read when comparing the candidate centred at `c`. */
  function ComparisonOf(cielab: array2<Lab>, mask: array2<nat>, q: Index, c: Index, r: nat): (v: Comparison)
    requires Comparable(cielab, mask, q, c, r)
    reads cielab, mask
    ensures WellFormed(v) && |v.known| == PatchPixels(r)
  {
    Comparison(KnownFlags(mask, q, r), BlockedFlags(mask, c, r), Distances(cielab, q, c, r))
  }

  /** One iteration of the comparison loop: a masked query pixel only advances
      the query-patch position; a masked candidate pixel against a known query
      pixel counts as invalid and leaves the position where it is; otherwise the
      pixel is compared and the position advances. */
  method CompareStep(cielab: array2<Lab>, mask: array2<nat>, q: Index, c: Index, r: nat, i: nat, s: ScanState)
    returns (u: ScanState)
    requires Comparable(cielab, mask, q, c, r) && s.fixed <= i < PatchPixels(r)
    ensures u == ScanStep(ComparisonOf(cielab, mask, q, c, r), i, s)
  {
    ghost var v := ComparisonOf(cielab, mask, q, c, r);
    var f, m := PatchCell(q, r, s.fixed), PatchCell(c, r, i);
    PatchCellInGrid(q, r, s.fixed, cielab.Length0, cielab.Length1);
    PatchCellInGrid(c, r, i, cielab.Length0, cielab.Length1);
    assert v.known[s.fixed] <==> mask[f.x, f.y] == 0;
    assert v.blocked[i] <==> mask[m.x, m.y] != 0;
    if mask[f.x, f.y] != 0 {
      return s.(fixed := s.fixed + 1);
    }
    if mask[m.x, m.y] != 0 {
      return s.(tally := s.tally.(invalid := s.tally.invalid + 1));
    }
    assert v.dist[i][s.fixed] == ColorDistance(cielab[m.x, m.y], cielab[f.x, f.y]);
    var t := s.tally;
    return ScanState(Tally(t.sum + ColorDistance(cielab[m.x, m.y], cielab[f.x, f.y]), t.valid + 1, t.invalid), s.fixed + 1);
  }

  /** Mirrors the comparison loop over the candidate patch, one pixel at a time. */
  method CompareWithCandidate(cielab: array2<Lab>, mask: array2<nat>, q: Index, c: Index, r: nat) returns (t: Tally)
    requires Comparable(cielab, mask, q, c, r)
    ensures t == Scan(ComparisonOf(cielab, mask, q, c, r), PatchPixels(r)).tally
  {
    ghost var v := ComparisonOf(cielab, mask, q, c, r);
    var s := ScanState(Tally(0.0, 0, 0), 0);
    for i := 0 to PatchPixels(r)
      invariant s == Scan(v, i)
    {
      s := CompareStep(cielab, mask, q, c, r, i, s);
    }
    t := s.tally;
  }

  /** The smallest number of compared pixels is a quarter of the patch, rounded
      down; a candidate must compare strictly more. For radius `r` that is
      r * (r + 1), just under a quarter. */
  function MinValidPixels(r: nat): (m: nat)
    ensures m == r * (r + 1)
    ensures 4 * m < PatchPixels(r) <= 4 * m + 4
  {
    assert PatchPixels(r) == 4 * (r * (r + 1)) + 1;
    PatchPixels(r) / 4
  }

  /** The score of the candidate centred at `c`: the mean colour difference over
      the compared pixels, or -1 when the candidate patch leaves the image, meets
      an invalid pixel, or compares too few pixels. */
  function CandidateScore(cielab: array2<Lab>, mask: array2<nat>, q: Index, c: Index, r: nat): (s: real)
    requires mask.Length0 == cielab.Length0 && mask.Length1 == cielab.Length1
    requires InsideGrid(RegionAroundPixel(q, r), cielab.Length0, cielab.Length1)
    reads cielab, mask
    ensures s == -1.0 || s >= 0.0
  {
    if !InsideGrid(RegionAroundPixel(c, r), cielab.Length0, cielab.Length1) then -1.0
    else ComparisonScore(ComparisonOf(cielab, mask, q, c, r), MinValidPixels(r))
  }

  /** The outcome of the comparison loop over all positions: the mean difference
      when no invalid pixel was met and more than `minValid` pixels were
      compared, and -1 otherwise. The score is never negative, and a threshold
      of at least the number of positions rejects every comparison. */
  function ComparisonScore(v: Comparison, minValid: nat): (s: real)
    requires WellFormed(v)
    ensures s == -1.0 || s >= 0.0
    ensures |v.known| <= minValid ==> s == -1.0
  {
    var t := Scan(v, |v.known|).tally;
    if t.valid > minValid && t.invalid == 0 then t.sum / t.valid as real else -1.0
  }

  /** The comparison is accepted exactly when more than `minValid` positions are
      known and no known position is blocked; its score is then the mean of the
      aligned differences over the known positions, which is never negative. */
  lemma ComparisonAcceptedIff(v: Comparison, minValid: nat)
    requires WellFormed(v)
    ensures ComparisonScore(v, minValid) != -1.0 <==>
      KnownCount(v.known, |v.known|) > minValid && forall i :: 0 <= i < |v.known| && v.known[i] ==> !v.blocked[i]
    ensures ComparisonScore(v, minValid) != -1.0 ==>
      KnownCount(v.known, |v.known|) > 0 &&
      ComparisonScore(v, minValid) == AlignedTally(v, |v.known|).sum / KnownCount(v.known, |v.known|) as real &&
      ComparisonScore(v, minValid) >= 0.0
  {
    var n := |v.known|;
    var t := Scan(v, n).tally;
    ScanMatchesAligned(v, n);
    AlignedCountsKnown(v, n);
    AlignedInvalidIff(v, n);
    if t.valid > minValid && t.invalid == 0 {
      MeanNonNegative(t.sum, t.valid);
    }
  }

  /** An accepted comparison scores zero exactly when every known position
      has distance zero to itself. */
  lemma ComparisonZeroIff(v: Comparison, minValid: nat)
    requires WellFormed(v)
    ensures ComparisonScore(v, minValid) == 0.0 <==>
      ComparisonScore(v, minValid) != -1.0 && forall i :: 0 <= i < |v.known| && v.known[i] ==> v.dist[i][i] == 0.0
  {
    var n := |v.known|;
    ComparisonAcceptedIff(v, minValid);
    if ComparisonScore(v, minValid) != -1.0 {
      AlignedSumZeroIff(v, n);
      MeanZeroIff(AlignedTally(v, n).sum, KnownCount(v.known, n));
    }
  }

  /** A candidate is scored exactly when its patch is in the image, the query
      patch has more than a quarter of its pixels known, and the candidate is
      unmasked wherever the query is known; its score is then the mean of the
      aligned colour differences over the known pixels. */
  lemma CandidateAcceptedIff(cielab: array2<Lab>, mask: array2<nat>, q: Index, c: Index, r: nat)
    requires mask.Length0 == cielab.Length0 && mask.Length1 == cielab.Length1
    requires InsideGrid(RegionAroundPixel(q, r), cielab.Length0, cielab.Length1)
    ensures CandidateScore(cielab, mask, q, c, r) != -1.0 <==>
      Comparable(cielab, mask, q, c, r) && KnownCount(KnownFlags(mask, q, r), PatchPixels(r)) > MinValidPixels(r) &&
      forall i :: 0 <= i < PatchPixels(r) && Known(mask, q, r, i) ==> !Blocked(mask, c, r, i)
    ensures CandidateScore(cielab, mask, q, c, r) != -1.0 ==>
      Comparable(cielab, mask, q, c, r) &&
      CandidateScore(cielab, mask, q, c, r) ==
        AlignedTally(ComparisonOf(cielab, mask, q, c, r), PatchPixels(r)).sum /
        KnownCount(KnownFlags(mask, q, r), PatchPixels(r)) as real
  {
    if Comparable(cielab, mask, q, c, r) {
      var v := ComparisonOf(cielab, mask, q, c, r);
      ComparisonAcceptedIff(v, MinValidPixels(r));
      assert v.known == KnownFlags(mask, q, r);
      assert (forall i :: 0 <= i < |v.known| && v.known[i] ==> !v.blocked[i]) <==>
        (forall i :: 0 <= i < PatchPixels(r) && Known(mask, q, r, i) ==> !Blocked(mask, c, r, i));
    }
  }

  lemma MeanNonNegative(sum: real, n: nat)
    requires sum >= 0.0 && n > 0
    ensures sum / n as real >= 0.0
  {
  }

  /** A score of zero means an exact match: the candidate is accepted and has the
      query's colour at every known pixel. */
  lemma ZeroScoreIff(cielab: array2<Lab>, mask: array2<nat>, q: Index, c: Index, r: nat)
    requires mask.Length0 == cielab.Length0 && mask.Length1 == cielab.Length1
    requires InsideGrid(RegionAroundPixel(q, r), cielab.Length0, cielab.Length1)
    ensures CandidateScore(cielab, mask, q, c, r) == 0.0 <==>
      CandidateScore(cielab, mask, q, c, r) != -1.0 &&
      forall i :: 0 <= i < PatchPixels(r) && Known(mask, q, r, i) ==> CellDistance(cielab, q, c, r, i, i) == 0.0
  {
    if Comparable(cielab, mask, q, c, r) {
      var v := ComparisonOf(cielab, mask, q, c, r);
      ComparisonZeroIff(v, MinValidPixels(r));
      assert v.known == KnownFlags(mask, q, r) && v.dist == Distances(cielab, q, c, r);
      assert (forall i :: 0 <= i < |v.known| && v.known[i] ==> v.dist[i][i] == 0.0) <==>
        (forall i :: 0 <= i < PatchPixels(r) && Known(mask, q, r, i) ==> CellDistance(cielab, q, c, r, i, i) == 0.0);
    }
  }

  lemma MeanZeroIff(sum: real, n: nat)
    requires n > 0
    ensures sum / n as real == 0.0 <==> sum == 0.0
  {
  }

  /** Compared with itself the query patch meets no invalid pixel and has zero
      difference, so it scores 0 whenever enough of it is known. */
  lemma QueryMatchesItself(cielab: array2<Lab>, mask: array2<nat>, q: Index, r: nat)
    requires mask.Length0 == cielab.Length0 && mask.Length1 == cielab.Length1
    requires InsideGrid(RegionAroundPixel(q, r), cielab.Length0, cielab.Length1)
    ensures CandidateScore(cielab, mask, q, q, r) ==
      if KnownCount(KnownFlags(mask, q, r), PatchPixels(r)) > MinValidPixels(r) then 0.0 else -1.0
  {
    CandidateAcceptedIff(cielab, mask, q, q, r);
    ZeroScoreIff(cielab, mask, q, q, r);
  }

  /** Scores one candidate centre: -1 when its patch leaves the image, and
      otherwise the outcome of the comparison loop. */
  method ScoreCandidate(cielab: array2<Lab>, mask: array2<nat>, q: Index, c: Index, r: nat) returns (score: real)
    requires mask.Length0 == cielab.Length0 && mask.Length1 == cielab.Length1
    requires InsideGrid(RegionAroundPixel(q, r), cielab.Length0, cielab.Length1)
    ensures score == CandidateScore(cielab, mask, q, c, r)
  {
    if !InsideGrid(RegionAroundPixel(c, r), cielab.Length0, cielab.Length1) {
      return -1.0;
    }
    var t := CompareWithCandidate(cielab, mask, q, c, r);
    if t.valid > MinValidPixels(r) && t.invalid == 0 {
      score := t.sum / t.valid as real;
    } else {
      score := -1.0;
    }
  }

  /** Scores the centres of row `y` in order, leaving the other rows alone. */
  method ScoreRow(cielab: array2<Lab>, mask: array2<nat>, q: Index, r: nat, scores: array2<real>, y: nat)
    requires mask.Length0 == cielab.Length0 && mask.Length1 == cielab.Length1
    requires scores.Length0 == cielab.Length0 && scores.Length1 == cielab.Length1 && y < scores.Length1
    requires InsideGrid(RegionAroundPixel(q, r), cielab.Length0, cielab.Length1)
    modifies scores
    ensures forall x {:trigger scores[x, y]} :: 0 <= x < scores.Length0 ==> scores[x, y] == CandidateScore(cielab, mask, q, Index(x, y), r)
    ensures forall x, y' {:trigger scores[x, y']} :: 0 <= x < scores.Length0 && 0 <= y' < scores.Length1 && y' != y ==>
      scores[x, y'] == old(scores[x, y'])
  {
    for x := 0 to scores.Length0
      invariant forall x' {:trigger scores[x', y]} :: 0 <= x' < x ==> scores[x', y] == CandidateScore(cielab, mask, q, Index(x', y), r)
      invariant forall x', y' {:trigger scores[x', y']} :: 0 <= x' < scores.Length0 && 0 <= y' < scores.Length1 && y' != y ==>
        scores[x', y'] == old(scores[x', y'])
    {
      scores[x, y] := ScoreCandidate(cielab, mask, q, Index(x, y), r);
    }
  }

  /** Scores every centre of the image in scan order into `scores`. */
  method ScoreAllCandidates(cielab: array2<Lab>, mask: array2<nat>, q: Index, r: nat, scores: array2<real>)
    requires mask.Length0 == cielab.Length0 && mask.Length1 == cielab.Length1
    requires scores.Length0 == cielab.Length0 && scores.Length1 == cielab.Length1
    requires InsideGrid(RegionAroundPixel(q, r), cielab.Length0, cielab.Length1)
    modifies scores
    ensures forall x, y {:trigger scores[x, y]} :: 0 <= x < scores.Length0 && 0 <= y < scores.Length1 ==>
      scores[x, y] == CandidateScore(cielab, mask, q, Index(x, y), r)
  {
    for y := 0 to scores.Length1
      invariant forall x', y' {:trigger scores[x', y']} :: 0 <= x' < scores.Length0 && 0 <= y' < y ==>
        scores[x', y'] == CandidateScore(cielab, mask, q, Index(x', y'), r)
    {
      ScoreRow(cielab, mask, q, r, scores, y);
    }
  }
}
