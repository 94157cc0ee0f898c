/** Masked patch copies over one image (Legacy.cxx, CopySelfPatchIntoValidRegion
    in its two variants) and the patch extraction and masked paste that the
    isophote update relies on. */
module PatchCopy {
  import opened Helpers

  /** The cell a self-copy reads for destination cell `d`: the same offset from
      the source centre as `d` has from the destination centre. */
  function SourceOf(d: Index, src: Index, dst: Index): Index {
    Translate(src, Difference(d, dst))
  }

  /** A self-copy from the patch around `src` to the patch around `dst`, both of
      radius `r`, in a `w` by `h` image whose mask is non-zero exactly at the
      cells of `marked`. */
  datatype SelfCopy = SelfCopy(marked: set<Index>, w: int, h: int, src: Index, dst: Index, r: nat)

  /** The cells of the mask holding a non-zero value. */
  ghost function Marked(mask: array2<nat>): (m: set<Index>)
    reads mask
    ensures forall x, y {:trigger Index(x, y) in m} {:trigger mask[x, y]} :: Index(x, y) in m <==> InGrid(Index(x, y), mask.Length0, mask.Length1) && mask[x, y] != 0
  {
    set x, y | 0 <= x < mask.Length0 && 0 <= y < mask.Length1 && mask[x, y] != 0 :: Index(x, y)
  }

  ghost function SelfCopyOf(mask: array2<nat>, src: Index, dst: Index, r: nat): SelfCopy
    reads mask
  {
    SelfCopy(Marked(mask), mask.Length0, mask.Length1, src, dst, r)
  }

  /** The copy writes cell `d`: `d` is in the destination patch, `d` and its
      source cell are in the image, and the mask is set at `d`. */
  predicate Writes(c: SelfCopy, d: Index) {
    InPatch(d, c.dst, c.r) && InGrid(d, c.w, c.h) && InGrid(SourceOf(d, c.src, c.dst), c.w, c.h) && d in c.marked
  }

  /** Source cell `s` had already been overwritten when destination cell `d` was
      written: `s` is itself a written destination cell and comes first in scan
      order. Only then does the copy read a new value rather than the old one. */
  predicate WrittenBefore(c: SelfCopy, s: Index, d: Index) {
    Writes(c, s) && RowMajorBefore(s, d)
  }

  /** The cell whose ORIGINAL value an in-place self-copy leaves in the written
      cell `d`: the source cell of `d`, or, when that source cell had already
      been overwritten, the origin of that cell in turn. */
  function ChainOrigin(c: SelfCopy, d: Index): (o: Index)
    requires Writes(c, d)
    ensures InGrid(o, c.w, c.h)
    decreases NeighborhoodIndex(Difference(d, c.dst), c.r)
  {
    var s := SourceOf(d, c.src, c.dst);
    if WrittenBefore(c, s, d) then
      NeighborhoodIndexOrder(Difference(s, c.dst), Difference(d, c.dst), c.r);
      NeighborhoodIndexRoundTrip(Difference(s, c.dst), c.r);
      ChainOrigin(c, s)
    else
      s
  }

  /** The origin of a written cell was still unwritten when the copy read it. */
  lemma {:induction false} ChainOriginUnwritten(c: SelfCopy, d: Index)
    requires Writes(c, d)
    ensures var o := ChainOrigin(c, d);
      !WrittenBefore(c, o, Translate(o, Difference(c.dst, c.src)))
    decreases NeighborhoodIndex(Difference(d, c.dst), c.r)
  {
    var s := SourceOf(d, c.src, c.dst);
    if WrittenBefore(c, s, d) {
      NeighborhoodIndexOrder(Difference(s, c.dst), Difference(d, c.dst), c.r);
      NeighborhoodIndexRoundTrip(Difference(s, c.dst), c.r);
      ChainOriginUnwritten(c, s);
    } else {
      assert Translate(s, Difference(c.dst, c.src)) == d;
    }
  }

  /** The chain stops at the source cell itself when the two patches do not
      overlap, when the source patch holds no masked cell, or when the source
      centre does not precede the destination centre in scan order (the copy
      then never reads a cell it has written). */
  lemma ChainOriginIsSource(c: SelfCopy, d: Index)
    requires Writes(c, d)
    requires Abs(c.src.x - c.dst.x) > 2 * c.r || Abs(c.src.y - c.dst.y) > 2 * c.r ||
             !RowMajorBefore(c.src, c.dst) || forall q :: InPatch(q, c.src, c.r) ==> q !in c.marked
    ensures ChainOrigin(c, d) == SourceOf(d, c.src, c.dst)
  {
  }

  /** Copies the patch around `src` onto the patch around `dst` of the same
      image, only where the mask is non-zero, scanning the destination region in
      order. Both patches must lie inside the image; otherwise the region
      iterators fail and nothing is written. */
  method CopySelfPatchIntoValidRegion<T>(image: array2<T>, mask: array2<nat>, src: Index, dst: Index, r: nat)
    returns (out: Outcome)
    requires mask.Length0 == image.Length0 && mask.Length1 == image.Length1
    requires mask as object != image
    modifies image
    ensures out.Pass? <==>
      InsideGrid(RegionAroundPixel(src, r), image.Length0, image.Length1) &&
      InsideGrid(RegionAroundPixel(dst, r), image.Length0, image.Length1)
    ensures out.Fail? ==> out.error == RegionOutsideImage && unchanged(image)
    ensures out.Pass? ==> var c := SelfCopyOf(mask, src, dst, r);
      forall x, y {:trigger image[x, y]} :: 0 <= x < image.Length0 && 0 <= y < image.Length1 ==>
        image[x, y] == if Writes(c, Index(x, y))
                       then var o := ChainOrigin(c, Index(x, y)); old(image[o.x, o.y])
                       else old(image[x, y])
  {
    if !InsideGrid(RegionAroundPixel(src, r), image.Length0, image.Length1) ||
       !InsideGrid(RegionAroundPixel(dst, r), image.Length0, image.Length1) {
      return Fail(RegionOutsideImage);
    }
    ghost var c := SelfCopyOf(mask, src, dst, r);
    for y := dst.y - r to dst.y + r + 1
      invariant forall a, b {:trigger image[a, b]} :: 0 <= a < image.Length0 && 0 <= b < image.Length1 ==>
        image[a, b] == if Writes(c, Index(a, b)) && b < y
                       then var o := ChainOrigin(c, Index(a, b)); old(image[o.x, o.y])
                       else old(image[a, b])
    {
      for x := dst.x - r to dst.x + r + 1
        invariant forall a, b {:trigger image[a, b]} :: 0 <= a < image.Length0 && 0 <= b < image.Length1 ==>
          image[a, b] == if Writes(c, Index(a, b)) && RowMajorBefore(Index(a, b), Index(x, y))
                         then var o := ChainOrigin(c, Index(a, b)); old(image[o.x, o.y])
                         else old(image[a, b])
      {
        var s := SourceOf(Index(x, y), src, dst);
        label before:
        if mask[x, y] != 0 {
          assert Writes(c, Index(x, y));
          ghost var o := ChainOrigin(c, Index(x, y));
          assert image[s.x, s.y] == old(image[o.x, o.y]);
          image[x, y] := image[s.x, s.y];
        } else {
          assert !Writes(c, Index(x, y));
        }
        forall a, b {:trigger image[a, b]} | 0 <= a < image.Length0 && 0 <= b < image.Length1
          ensures image[a, b] == if Writes(c, Index(a, b)) && RowMajorBefore(Index(a, b), Index(x + 1, y))
                                 then var o := ChainOrigin(c, Index(a, b)); old(image[o.x, o.y])
                                 else old(image[a, b])
        {
          if Index(a, b) != Index(x, y) {
            assert image[a, b] == old@before(image[a, b]);
            assert RowMajorBefore(Index(a, b), Index(x + 1, y)) == RowMajorBefore(Index(a, b), Index(x, y));
          }
        }
      }
    }
    assert c == SelfCopyOf(mask, src, dst, r);
    return Pass;
  }

  /** Written cell `q` comes among the first `i` offsets of the neighbourhood
      order, so the neighbourhood variant has written it after `i` steps. */
  predicate Visited(c: SelfCopy, q: Index, i: int) {
    Writes(c, q) && NeighborhoodIndex(Difference(q, c.dst), c.r) < i
  }

  /** Step `i` of the neighbourhood variant visits the destination cell at
      offset `i` and no other, and the origin of that cell follows its source
      cell when the source cell was visited earlier. */
  lemma {:induction false} VisitStep(c: SelfCopy, i: nat, d: Index)
    requires i < PatchPixels(c.r) && d == Translate(c.dst, Offset(i, c.r))
    ensures forall q :: Visited(c, q, i + 1) <==> Visited(c, q, i) || (q == d && Writes(c, d))
    ensures !Visited(c, d, i) && (Visited(c, d, i + 1) <==> Writes(c, d))
    ensures var s := SourceOf(d, c.src, c.dst);
      Writes(c, d) ==> ChainOrigin(c, d) == if Visited(c, s, i) then ChainOrigin(c, s) else s
  {
    var o := Offset(i, c.r);
    var s := SourceOf(d, c.src, c.dst);
    OffsetRoundTrip(i, c.r);
    assert Difference(d, c.dst) == o;
    assert NeighborhoodIndex(Difference(d, c.dst), c.r) == i;
    forall q
      ensures Visited(c, q, i + 1) <==> Visited(c, q, i) || (q == d && Writes(c, d))
    {
      if Writes(c, q) && NeighborhoodIndex(Difference(q, c.dst), c.r) == i {
        NeighborhoodIndexRoundTrip(Difference(q, c.dst), c.r);
        assert Difference(q, c.dst) == o;
      }
    }
    if InPatch(s, c.dst, c.r) {
      NeighborhoodIndexOrder(Difference(s, c.dst), o, c.r);
    }
  }

  /** Before the first step nothing is visited; after the last one every written
      cell is. */
  lemma {:induction false} VisitBounds(c: SelfCopy, q: Index)
    ensures !Visited(c, q, 0)
    ensures Visited(c, q, PatchPixels(c.r)) <==> Writes(c, q)
  {
    if Writes(c, q) {
      NeighborhoodIndexRoundTrip(Difference(q, c.dst), c.r);
    }
  }

  /** The number of steps the neighbourhood variant takes: the neighbourhood's
      pixel count, computed in unsigned 32-bit arithmetic. */
  function StepCount(r: nat): (n: nat)
    ensures n <= PatchPixels(r)
    ensures n == PatchPixels(r) <==> PatchPixels(r) < 0x1_0000_0000
  {
    PatchPixels(r) % 0x1_0000_0000
  }

  /** Below radius 32768 the step count does not wrap, so the neighbourhood
      variant visits every written cell. */
  lemma {:induction false} StepCountExact(r: nat)
    requires r < 32768
    ensures StepCount(r) == PatchPixels(r)
  {
    MulMonotone(PatchSide(r), 65535, PatchSide(r));
    MulMonotone(PatchSide(r), 65535, 65535);
  }

  /** At radius 32768 the step count wraps to 131073: only the first two rows
      of the neighbourhood are visited, and a written cell in its centre row is
      left alone. */
  lemma WrappedStepCount(c: SelfCopy)
    requires c.r == 32768 && Writes(c, c.dst)
    ensures StepCount(c.r) == 131073 < PatchPixels(c.r)
    ensures !Visited(c, c.dst, StepCount(c.r))
  {
    assert PatchSide(c.r) == 65537;
    assert PatchPixels(c.r) == 4295098369;
    assert Difference(c.dst, c.dst) == Index(0, 0);
    assert NeighborhoodIndex(Index(0, 0), c.r) == 2147549184;
  }

  /** The neighbourhood variant: copies offset by offset in neighbourhood order,
      skipping every offset whose source or destination pixel lies outside the
      image; within the image it writes where the mask is non-zero. It takes
      `StepCount(r)` steps, so every written cell is reached when that count
      does not wrap (`StepCountExact`). */
  method CopySelfPatchIntoValidRegionClipped<T>(image: array2<T>, mask: array2<nat>, src: Index, dst: Index, r: nat)
    requires mask.Length0 == image.Length0 && mask.Length1 == image.Length1
    requires mask as object != image
    modifies image
    ensures var c := SelfCopyOf(mask, src, dst, r);
      forall x, y {:trigger image[x, y]} :: 0 <= x < image.Length0 && 0 <= y < image.Length1 ==>
        image[x, y] == if Visited(c, Index(x, y), StepCount(r))
                       then var o := ChainOrigin(c, Index(x, y)); old(image[o.x, o.y])
                       else old(image[x, y])
  {
    ghost var c := SelfCopyOf(mask, src, dst, r);
    forall q { VisitBounds(c, q); }
    for i := 0 to StepCount(r)
      invariant forall a, b {:trigger image[a, b]} :: 0 <= a < image.Length0 && 0 <= b < image.Length1 ==>
        image[a, b] == if Visited(c, Index(a, b), i)
                       then var o := ChainOrigin(c, Index(a, b)); old(image[o.x, o.y])
                       else old(image[a, b])
    {
      var o := Offset(i, r);
      var s, d := Translate(src, o), Translate(dst, o);
      VisitStep(c, i, d);
      assert SourceOf(d, src, dst) == s;
      label before:
      if InGrid(s, image.Length0, image.Length1) && InGrid(d, image.Length0, image.Length1) && mask[d.x, d.y] != 0 {
        assert Writes(c, d);
        image[d.x, d.y] := image[s.x, s.y];
      } else {
        assert !Writes(c, d);
      }
      forall a, b {:trigger image[a, b]} | 0 <= a < image.Length0 && 0 <= b < image.Length1
        ensures image[a, b] == if Visited(c, Index(a, b), i + 1)
                               then var o := ChainOrigin(c, Index(a, b)); old(image[o.x, o.y])
                               else old(image[a, b])
      {
        if Index(a, b) != d {
          assert image[a, b] == old@before(image[a, b]);
          assert Visited(c, Index(a, b), i + 1) == Visited(c, Index(a, b), i);
        } else if Writes(c, d) {
          assert Visited(c, d, i + 1);
          assert image[a, b] == old@before(image[s.x, s.y]);
          if Visited(c, s, i) {
            assert old@before(image[s.x, s.y]) == var o := ChainOrigin(c, s); old(image[o.x, o.y]);
          } else {
            assert old@before(image[s.x, s.y]) == old(image[s.x, s.y]);
          }
        } else {
          assert !Visited(c, d, i + 1);
        }
      }
    }
    assert c == SelfCopyOf(mask, src, dst, r);
  }

  /** A copy of the region of the image, indexed from the region's corner. */
  method ExtractRegion<T(0)>(image: array2<T>, reg: Region) returns (patch: array2<T>)
    requires InsideGrid(reg, image.Length0, image.Length1)
    ensures fresh(patch)
    ensures patch.Length0 == reg.size.w && patch.Length1 == reg.size.h
    ensures forall i, j :: 0 <= i < reg.size.w && 0 <= j < reg.size.h ==>
      patch[i, j] == image[reg.index.x + i, reg.index.y + j]
  {
    patch := new T[reg.size.w, reg.size.h];
    for j := 0 to reg.size.h
      invariant forall i', j' :: 0 <= i' < reg.size.w && 0 <= j' < j ==>
        patch[i', j'] == image[reg.index.x + i', reg.index.y + j']
    {
      for i := 0 to reg.size.w
        invariant forall i', j' :: 0 <= i' < reg.size.w && 0 <= j' < j ==>
          patch[i', j'] == image[reg.index.x + i', reg.index.y + j']
        invariant forall i' :: 0 <= i' < i ==> patch[i', j] == image[reg.index.x + i', reg.index.y + j]
      {
        patch[i, j] := image[reg.index.x + i, reg.index.y + j];
      }
    }
  }

  /** Sets the cells of an extracted patch whose mask value, at the matching
      image cell from `corner` on, is non-zero. */
  method ClearMasked<T>(patch: array2<T>, mask: array2<nat>, corner: Index, value: T)
    requires patch as object != mask
    requires InsideGrid(Region(corner, Size(patch.Length0, patch.Length1)), mask.Length0, mask.Length1)
    modifies patch
    ensures forall i, j :: 0 <= i < patch.Length0 && 0 <= j < patch.Length1 ==>
      patch[i, j] == if mask[corner.x + i, corner.y + j] != 0 then value else old(patch[i, j])
  {
    for j := 0 to patch.Length1
      invariant forall i', j' :: 0 <= i' < patch.Length0 && 0 <= j' < patch.Length1 ==>
        patch[i', j'] == if j' < j && mask[corner.x + i', corner.y + j'] != 0 then value else old(patch[i', j'])
    {
      for i := 0 to patch.Length0
        invariant forall i', j' :: 0 <= i' < patch.Length0 && 0 <= j' < patch.Length1 ==>
          patch[i', j'] == if (j' < j || (j' == j && i' < i)) && mask[corner.x + i', corner.y + j'] != 0
                           then value else old(patch[i', j'])
      {
        if mask[corner.x + i, corner.y + j] != 0 {
          patch[i, j] := value;
        }
      }
    }
  }

  /** Extracts the region and then clears the extracted cells whose image cell
      is masked to `value`. */
  method ExtractUnmasked<T(0)>(image: array2<T>, mask: array2<nat>, reg: Region, value: T) returns (patch: array2<T>)
    requires mask.Length0 == image.Length0 && mask.Length1 == image.Length1
    requires InsideGrid(reg, image.Length0, image.Length1)
    ensures fresh(patch)
    ensures patch.Length0 == reg.size.w && patch.Length1 == reg.size.h
    ensures forall i, j :: 0 <= i < reg.size.w && 0 <= j < reg.size.h ==>
      patch[i, j] == if mask[reg.index.x + i, reg.index.y + j] != 0 then value else image[reg.index.x + i, reg.index.y + j]
  {
    patch := ExtractRegion(image, reg);
    ClearMasked(patch, mask, reg.index, value);
  }

  /** The region a patch covers when it is pasted centred at `center`. */
  function PasteRegion(w: nat, h: nat, center: Index): Region {
    Region(Index(center.x - w / 2, center.y - h / 2), Size(w, h))
  }

  /** The pasted region is centred at `center`, whatever the patch size. */
  lemma PasteRegionCentred(w: nat, h: nat, center: Index)
    ensures RegionCenter(PasteRegion(w, h, center)) == center
  {
  }

  /** Pastes `patch` into the image centred at `center`, writing only the cells
      that lie inside the image and whose mask value is non-zero. */
  method CopyPatchIntoImage<T>(patch: array2<T>, image: array2<T>, mask: array2<nat>, center: Index)
    requires patch != image
    requires mask.Length0 == image.Length0 && mask.Length1 == image.Length1
    requires mask as object != image
    modifies image
    ensures forall x, y {:trigger image[x, y]} :: 0 <= x < image.Length0 && 0 <= y < image.Length1 ==>
      image[x, y] == (var corner := PasteRegion(patch.Length0, patch.Length1, center).index;
                      if Contains(PasteRegion(patch.Length0, patch.Length1, center), Index(x, y)) && mask[x, y] != 0
                      then patch[x - corner.x, y - corner.y]
                      else old(image[x, y]))
  {
    var reg := PasteRegion(patch.Length0, patch.Length1, center);
    var corner := reg.index;
    for j := 0 to patch.Length1
      invariant forall x, y {:trigger image[x, y]} :: 0 <= x < image.Length0 && 0 <= y < image.Length1 ==>
        image[x, y] == if Contains(reg, Index(x, y)) && y < corner.y + j && mask[x, y] != 0
                       then patch[x - corner.x, y - corner.y] else old(image[x, y])
    {
      for i := 0 to patch.Length0
        invariant forall x, y {:trigger image[x, y]} :: 0 <= x < image.Length0 && 0 <= y < image.Length1 ==>
          image[x, y] == if Contains(reg, Index(x, y)) && RowMajorBefore(Index(x, y), Index(corner.x + i, corner.y + j)) && mask[x, y] != 0
                         then patch[x - corner.x, y - corner.y] else old(image[x, y])
      {
        var p := Index(corner.x + i, corner.y + j);
        if InGrid(p, image.Length0, image.Length1) && mask[p.x, p.y] != 0 {
          image[p.x, p.y] := patch[i, j];
        }
      }
    }
  }

  /** A patch of radius `r` pasted centred at `c` covers the patch around `c`. */
  lemma PasteRegionOfPatch(c: Index, r: nat)
    ensures PasteRegion(2 * r + 1, 2 * r + 1, c) == RegionAroundPixel(c, r)
  {
    assert (2 * r + 1) / 2 == r;
  }

  /** Extracts the patch around `source`, clears its cells whose own pixel is
      masked to `cleared`, and pastes it over the masked pixels of the patch
      around `target`, within the image. The source patch leaving the image is
      an error and changes nothing. */
  method CopyUnmaskedPatch<T(0)>(image: array2<T>, mask: array2<nat>, source: Index, target: Index, r: nat, cleared: T)
    returns (out: Outcome)
    requires mask.Length0 == image.Length0 && mask.Length1 == image.Length1
    requires mask as object != image
    modifies image
    ensures out.Pass? <==> InsideGrid(RegionAroundPixel(source, r), image.Length0, image.Length1)
    ensures out.Fail? ==> out.error == RegionOutsideImage && unchanged(image)
    ensures out.Pass? ==> forall x, y {:trigger image[x, y]} :: 0 <= x < image.Length0 && 0 <= y < image.Length1 ==>
      image[x, y] == if InPatch(Index(x, y), target, r) && mask[x, y] != 0
                     then (var s := SourceOf(Index(x, y), source, target);
                           if mask[s.x, s.y] != 0 then cleared else old(image[s.x, s.y]))
                     else old(image[x, y])
  {
    var sourceRegion := RegionAroundPixel(source, r);
    var targetRegion := RegionAroundPixel(target, r);
    if !InsideGrid(sourceRegion, image.Length0, image.Length1) {
      return Fail(RegionOutsideImage);
    }
    var patch := ExtractUnmasked(image, mask, sourceRegion, cleared);
    var corner := targetRegion.index;
    // the patch cell pasted onto target-patch pixel (x, y) holds the cleared
    // value of its source pixel
    forall x, y {:trigger InPatch(Index(x, y), target, r)} | InPatch(Index(x, y), target, r)
      ensures 0 <= x - corner.x < patch.Length0 && 0 <= y - corner.y < patch.Length1 &&
        patch[x - corner.x, y - corner.y] ==
          var s := SourceOf(Index(x, y), source, target);
          if mask[s.x, s.y] != 0 then cleared else image[s.x, s.y]
    {
      InPatchCorner(Index(x, y), target, r);
      assert SourceOf(Index(x, y), source, target) == Translate(sourceRegion.index, Index(x - corner.x, y - corner.y));
    }
    PasteOverMasked(patch, image, mask, source, target, r, cleared);
    return Pass;
  }

  /** Pastes a patch of radius `r`, whose cell for each pixel of the target
      patch holds the cleared value of that pixel's source pixel, over the
      masked pixels of the target patch. */
  method PasteOverMasked<T>(patch: array2<T>, image: array2<T>, mask: array2<nat>, source: Index, target: Index, r: nat, cleared: T)
    requires patch != image
    requires mask.Length0 == image.Length0 && mask.Length1 == image.Length1
    requires mask as object != image
    requires InsideGrid(RegionAroundPixel(source, r), image.Length0, image.Length1)
    requires patch.Length0 == PatchSide(r) && patch.Length1 == PatchSide(r)
    requires var corner := RegionAroundPixel(target, r).index;
      forall x, y {:trigger InPatch(Index(x, y), target, r)} :: InPatch(Index(x, y), target, r) ==>
        patch[x - corner.x, y - corner.y] ==
          var s := SourceOf(Index(x, y), source, target);
          if mask[s.x, s.y] != 0 then cleared else image[s.x, s.y]
    modifies image
    ensures forall x, y {:trigger image[x, y]} :: 0 <= x < image.Length0 && 0 <= y < image.Length1 ==>
      image[x, y] == if InPatch(Index(x, y), target, r) && mask[x, y] != 0
                     then (var s := SourceOf(Index(x, y), source, target);
                           if mask[s.x, s.y] != 0 then cleared else old(image[s.x, s.y]))
                     else old(image[x, y])
  {
    var targetRegion := RegionAroundPixel(target, r);
    var corner := targetRegion.index;
    PasteRegionOfPatch(target, r);
    assert PasteRegion(patch.Length0, patch.Length1, target) == targetRegion;
    CopyPatchIntoImage(patch, image, mask, target);
    forall x, y {:trigger image[x, y]} | 0 <= x < image.Length0 && 0 <= y < image.Length1
      ensures image[x, y] == if InPatch(Index(x, y), target, r) && mask[x, y] != 0
                             then (var s := SourceOf(Index(x, y), source, target);
                                   if mask[s.x, s.y] != 0 then cleared else old(image[s.x, s.y]))
                             else old(image[x, y])
    {
      if InPatch(Index(x, y), target, r) && mask[x, y] != 0 {
        assert Contains(targetRegion, Index(x, y));
        assert image[x, y] == old(patch[x - corner.x, y - corner.y]);
      }
    }
  }
}
