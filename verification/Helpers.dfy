/** Pixel indices, square patch regions around a pixel, and the mask test for a
    fully known patch (Helpers.cpp), plus the neighbourhood offsets shared by the
    patch-matching code. */
module Helpers {

  /** A pixel index. `x` is the toolkit's first dimension, which varies fastest
      in a scan; `y` is the second. An image grid `a: array2<T>` holds pixel
      (x, y) at `a[x, y]`, so its width is `a.Length0` and its height `a.Length1`. */
  datatype Index = Index(x: int, y: int)

  datatype Size = Size(w: nat, h: nat)

  /** An axis-aligned region: its lower corner and its extent. */
  datatype Region = Region(index: Index, size: Size)

  datatype Error =
    | QueryTooCloseToBorder  // the query patch of FindBestPatchMatch leaves the image
    | RegionOutsideImage     // a region iterator or extraction over a region outside the image

  datatype Result<T> = Ok(value: T) | Err(error: Error)

  datatype Outcome = Pass | Fail(error: Error)

  function Abs(n: int): nat { if n < 0 then -n else n }

  function Translate(p: Index, o: Index): Index { Index(p.x + o.x, p.y + o.y) }

  function Difference(p: Index, q: Index): Index { Index(p.x - q.x, p.y - q.y) }

  predicate Contains(reg: Region, q: Index) {
    reg.index.x <= q.x < reg.index.x + reg.size.w &&
    reg.index.y <= q.y < reg.index.y + reg.size.h
  }

  function PixelCount(reg: Region): nat { reg.size.w * reg.size.h }

  /** Side length of the square patch of radius `r`. */
  function PatchSide(r: nat): nat { 2 * r + 1 }

  /** Number of pixels in the square patch of radius `r`. */
  function PatchPixels(r: nat): nat { PatchSide(r) * PatchSide(r) }

  /** `q` lies in the square patch of radius `r` centred at `c` (Chebyshev distance at most `r`). */
  predicate InPatch(q: Index, c: Index, r: nat) {
    Abs(q.x - c.x) <= r && Abs(q.y - c.y) <= r
  }

  predicate InGrid(q: Index, w: int, h: int) {
    0 <= q.x < w && 0 <= q.y < h
  }

  /** The region lies entirely inside a `w` by `h` image. */
  predicate InsideGrid(reg: Region, w: int, h: int) {
    0 <= reg.index.x && reg.index.x + reg.size.w <= w &&
    0 <= reg.index.y && reg.index.y + reg.size.h <= h
  }

  /** Scan order of the toolkit's region iterators: row by row, `x` fastest. */
  predicate RowMajorBefore(p: Index, q: Index) {
    p.y < q.y || (p.y == q.y && p.x < q.x)
  }

  /** The square region of side 2r+1 centred at `p`. */
  function RegionAroundPixel(p: Index, r: nat): (reg: Region)
    ensures reg.size == Size(PatchSide(r), PatchSide(r))
    ensures Contains(reg, p)
    ensures forall q :: Contains(reg, q) <==> InPatch(q, p, r)
  {
    Region(Index(p.x - r, p.y - r), Size(r * 2 + 1, r * 2 + 1))
  }

  /** The region around a pixel holds exactly the pixels of its patch. */
  lemma RegionAroundPixelCount(p: Index, r: nat)
    ensures PixelCount(RegionAroundPixel(p, r)) == PatchPixels(r)
  {
  }

  /** The centre of a region: its index plus half its size, rounding down. */
  function RegionCenter(reg: Region): (c: Index)
    ensures reg.size.w > 0 && reg.size.h > 0 ==> Contains(reg, c)
    // the centre is as far from the first column as from the last one, or one
    // further when the width is even; likewise for rows
    ensures reg.size.w > 0 ==>
      (c.x - reg.index.x) - (reg.index.x + reg.size.w - 1 - c.x) == (if reg.size.w % 2 == 0 then 1 else 0)
    ensures reg.size.h > 0 ==>
      (c.y - reg.index.y) - (reg.index.y + reg.size.h - 1 - c.y) == (if reg.size.h % 2 == 0 then 1 else 0)
  {
    Index(reg.index.x + reg.size.w / 2, reg.index.y + reg.size.h / 2)
  }

  /** Recovering the centre of the region built around `p` gives back `p`. */
  lemma CenterOfRegionAroundPixel(p: Index, r: nat)
    ensures RegionCenter(RegionAroundPixel(p, r)) == p
  {
  }

  /** Conversely, a square region of odd side is the region built around its
      centre with radius half its side. */
  lemma RegionAroundCenter(reg: Region)
    requires reg.size.w == reg.size.h && reg.size.w % 2 == 1
    ensures RegionAroundPixel(RegionCenter(reg), reg.size.w / 2) == reg
  {
  }

  /** A pixel of the patch around `c` lies at offsets `0 .. 2r` from the
      region's corner. */
  lemma InPatchCorner(q: Index, c: Index, r: nat)
    requires InPatch(q, c, r)
    ensures var corner := RegionAroundPixel(c, r).index;
      0 <= q.x - corner.x < 2 * r + 1 && 0 <= q.y - corner.y < 2 * r + 1
  {
  }

  /** `c` is at least `r` away from every border of the `w` by `h` image: the
      centres of the toolkit's non-boundary face. */
  predicate Interior(c: Index, r: nat, w: int, h: int) {
    r <= c.x < w - r && r <= c.y < h - r
  }

  /** The patch around `c` fits in the image exactly when `c` is interior. */
  lemma PatchInsideIffInterior(c: Index, r: nat, w: int, h: int)
    ensures InsideGrid(RegionAroundPixel(c, r), w, h) <==> Interior(c, r, w, h)
    ensures InsideGrid(RegionAroundPixel(c, r), w, h) ==>
      forall q :: InPatch(q, c, r) ==> InGrid(q, w, h)
  {
  }

  // ----- Neighbourhood offsets -----------------------------------------------

  lemma MulMonotone(a: int, b: int, n: nat)
    requires a <= b
    ensures a * n <= b * n
  {
  }

  lemma MulSub(a: int, b: int, n: int)
    ensures a * n - b * n == (a - b) * n
  {
  }

  /** A non-zero multiple of `n` is at least `n` away from zero. */
  lemma MulAwayFromZero(d: int, n: nat)
    ensures d >= 1 ==> d * n >= n
    ensures d <= -1 ==> d * n <= -(n as int)
  {
    if d >= 1 {
      MulMonotone(1, d, n);
    } else if d <= -1 {
      MulMonotone(d, -1, n);
    }
  }

  /** The offset that follows `o` in scan order: one step along `x`, or the
      start of the next row after the last column. */
  function NextOffset(o: Index, r: nat): Index {
    if o.x < r then Index(o.x + 1, o.y) else Index(-(r as int), o.y + 1)
  }

  /** The offset from the centre of the i-th pixel of a neighbourhood of radius
      `r`, numbered in scan order from the corner (-r, -r). */
  function Offset(i: nat, r: nat): (o: Index)
    requires i < PatchPixels(r)
    ensures InPatch(o, Index(0, 0), r)
    decreases i, 0
  {
    if i == 0 then Index(-(r as int), -(r as int))
    else
      OffsetRoundTrip(i - 1, r);
      LastOffsetIndex(r);
      NextOffset(Offset(i - 1, r), r)
  }

  /** The position of an offset within the neighbourhood's scan order. */
  function NeighborhoodIndex(o: Index, r: nat): int {
    (o.y + r) * PatchSide(r) + (o.x + r)
  }

  /** The last offset of the neighbourhood comes at position PatchPixels(r) - 1. */
  lemma LastOffsetIndex(r: nat)
    ensures NeighborhoodIndex(Index(r, r), r) == PatchPixels(r) - 1
  {
    var n := PatchSide(r);
    MulSub(n, 1, n);
  }

  /** Numbering the offsets and reading the number back are inverse. */
  lemma {:induction false} OffsetRoundTrip(i: nat, r: nat)
    requires i < PatchPixels(r)
    ensures NeighborhoodIndex(Offset(i, r), r) == i
    decreases i, 1
  {
    if i > 0 {
      OffsetRoundTrip(i - 1, r);
      LastOffsetIndex(r);
      NextOffsetIndex(Offset(i - 1, r), r);
    }
  }

  /** Each step of the scan advances the number by one. */
  lemma NextOffsetIndex(o: Index, r: nat)
    requires InPatch(o, Index(0, 0), r) && o != Index(r, r)
    ensures NeighborhoodIndex(NextOffset(o, r), r) == NeighborhoodIndex(o, r) + 1
  {
    if o.x == r {
      // wrapping to the next row skips no position
      MulSub(o.y + 1 + r, o.y + r, PatchSide(r));
    }
  }

  /** Neighbourhood numbering follows the scan order of the offsets. */
  lemma {:induction false} NeighborhoodIndexOrder(a: Index, b: Index, r: nat)
    requires InPatch(a, Index(0, 0), r) && InPatch(b, Index(0, 0), r)
    ensures NeighborhoodIndex(a, r) < NeighborhoodIndex(b, r) <==> RowMajorBefore(a, b)
  {
    var n := PatchSide(r);
    var d := b.y - a.y;
    MulSub(b.y + r, a.y + r, n);
    assert NeighborhoodIndex(b, r) - NeighborhoodIndex(a, r) == d * n + (b.x - a.x);
    assert -n < b.x - a.x < n;
    MulAwayFromZero(d, n);
    if d == 0 {
      assert d * n == 0;
    }
  }

  /** Every offset of the neighbourhood has a number, and that number's offset
      is the offset itself. */
  lemma {:induction false} NeighborhoodIndexRoundTrip(o: Index, r: nat)
    requires InPatch(o, Index(0, 0), r)
    ensures 0 <= NeighborhoodIndex(o, r) < PatchPixels(r)
    ensures Offset(NeighborhoodIndex(o, r), r) == o
  {
    NeighborhoodIndexOrder(Index(-(r as int), -(r as int)), o, r);
    NeighborhoodIndexOrder(o, Index(r, r), r);
    LastOffsetIndex(r);
    assert NeighborhoodIndex(Index(-(r as int), -(r as int)), r) == 0;
    var i := NeighborhoodIndex(o, r);
    var p := Offset(i, r);
    OffsetRoundTrip(i, r);
    NeighborhoodIndexOrder(o, p, r);
    NeighborhoodIndexOrder(p, o, r);
  }

  // ----- IsValidPatch ---------------------------------------------------------

  /** Every mask value inside the region (and inside the mask) is zero. */
  ghost predicate AllKnown(mask: array2<nat>, reg: Region)
    reads mask
  {
    forall x, y {:trigger mask[x, y]} :: 0 <= x < mask.Length0 && 0 <= y < mask.Length1 && Contains(reg, Index(x, y)) ==> mask[x, y] == 0
  }

  /** Scans the region in order and reports false at the first positive mask
      value; a non-empty region outside the mask is the iterator's error, and
      an empty region is never scanned, wherever it lies. */
  method IsValidPatch(mask: array2<nat>, reg: Region) returns (res: Result<bool>)
    ensures res.Err? <==> PixelCount(reg) > 0 && !InsideGrid(reg, mask.Length0, mask.Length1)
    ensures res.Err? ==> res.error == RegionOutsideImage
    ensures res.Ok? ==> (res.value <==> AllKnown(mask, reg))
  {
    if PixelCount(reg) == 0 {
      return Ok(true);
    }
    if !InsideGrid(reg, mask.Length0, mask.Length1) {
      return Err(RegionOutsideImage);
    }
    var y := reg.index.y;
    while y < reg.index.y + reg.size.h
      invariant reg.index.y <= y <= reg.index.y + reg.size.h
      invariant forall x', y' :: reg.index.x <= x' < reg.index.x + reg.size.w && reg.index.y <= y' < y ==> mask[x', y'] == 0
    {
      var x := reg.index.x;
      while x < reg.index.x + reg.size.w
        invariant reg.index.x <= x <= reg.index.x + reg.size.w
        invariant forall x', y' :: reg.index.x <= x' < reg.index.x + reg.size.w && reg.index.y <= y' < y ==> mask[x', y'] == 0
        invariant forall x' :: reg.index.x <= x' < x ==> mask[x', y] == 0
      {
        if mask[x, y] > 0 {
          return Ok(false);
        }
        x := x + 1;
      }
      y := y + 1;
    }
    return Ok(true);
  }
}
