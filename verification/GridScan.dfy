/** Whole-image passes over a score grid that the patch matchers use in place
    of the toolkit's helpers: blanking masked centres, replacing a sentinel
    value, and locating the minimum. Each pass scans in the toolkit's order,
    row by row with `x` fastest. */
module GridScan {
  import opened Helpers

  /** Sets every cell whose mask value is positive to `value`; the others keep
      their score. */
  method BlankMasked(grid: array2<real>, mask: array2<nat>, value: real)
    requires mask.Length0 == grid.Length0 && mask.Length1 == grid.Length1
    modifies grid
    ensures forall x, y {:trigger grid[x, y]} :: 0 <= x < grid.Length0 && 0 <= y < grid.Length1 ==>
      grid[x, y] == if mask[x, y] > 0 then value else old(grid[x, y])
  {
    for y := 0 to grid.Length1
      invariant forall x', y' {:trigger grid[x', y']} :: 0 <= x' < grid.Length0 && 0 <= y' < grid.Length1 ==>
        grid[x', y'] == if y' < y && mask[x', y'] > 0 then value else old(grid[x', y'])
    {
      for x := 0 to grid.Length0
        invariant forall x', y' {:trigger grid[x', y']} :: 0 <= x' < grid.Length0 && 0 <= y' < grid.Length1 ==>
          grid[x', y'] == if (y' < y || (y' == y && x' < x)) && mask[x', y'] > 0 then value else old(grid[x', y'])
      {
        if mask[x, y] > 0 {
          grid[x, y] := value;
        }
      }
    }
  }

  /** Replaces every occurrence of `from` by `to`. */
  method ReplaceValue(grid: array2<real>, from: real, to: real)
    modifies grid
    ensures forall x, y {:trigger grid[x, y]} :: 0 <= x < grid.Length0 && 0 <= y < grid.Length1 ==>
      grid[x, y] == if old(grid[x, y]) == from then to else old(grid[x, y])
  {
    for y := 0 to grid.Length1
      invariant forall x', y' {:trigger grid[x', y']} :: 0 <= x' < grid.Length0 && 0 <= y' < grid.Length1 ==>
        grid[x', y'] == if y' < y && old(grid[x', y']) == from then to else old(grid[x', y'])
    {
      for x := 0 to grid.Length0
        invariant forall x', y' {:trigger grid[x', y']} :: 0 <= x' < grid.Length0 && 0 <= y' < grid.Length1 ==>
          grid[x', y'] == if (y' < y || (y' == y && x' < x)) && old(grid[x', y']) == from then to else old(grid[x', y'])
      {
        if grid[x, y] == from {
          grid[x, y] := to;
        }
      }
    }
  }

  /** Sets every cell of the region that lies in the grid to `value`; cells of
      the region outside the grid are skipped. */
  method FillRegion(grid: array2<real>, reg: Region, value: real)
    modifies grid
    ensures forall x, y {:trigger grid[x, y]} :: 0 <= x < grid.Length0 && 0 <= y < grid.Length1 ==>
      grid[x, y] == if Contains(reg, Index(x, y)) then value else old(grid[x, y])
  {
    for y := reg.index.y to reg.index.y + reg.size.h
      invariant forall x', y' {:trigger grid[x', y']} :: 0 <= x' < grid.Length0 && 0 <= y' < grid.Length1 ==>
        grid[x', y'] == if Contains(reg, Index(x', y')) && y' < y then value else old(grid[x', y'])
    {
      for x := reg.index.x to reg.index.x + reg.size.w
        invariant forall x', y' {:trigger grid[x', y']} :: 0 <= x' < grid.Length0 && 0 <= y' < grid.Length1 ==>
          grid[x', y'] == if Contains(reg, Index(x', y')) && (y' < y || (y' == y && x' < x)) then value else old(grid[x', y'])
      {
        if InGrid(Index(x, y), grid.Length0, grid.Length1) {
          grid[x, y] := value;
        }
      }
    }
  }

  /** The location of the smallest value; among equal minima, the first one in
      scan order. */
  method MinValueLocation(grid: array2<real>) returns (best: Index)
    requires grid.Length0 > 0 && grid.Length1 > 0
    ensures InGrid(best, grid.Length0, grid.Length1)
    ensures forall x, y :: 0 <= x < grid.Length0 && 0 <= y < grid.Length1 ==> grid[best.x, best.y] <= grid[x, y]
    ensures forall x, y {:trigger grid[x, y]} :: 0 <= x < grid.Length0 && 0 <= y < grid.Length1 && RowMajorBefore(Index(x, y), best) ==>
      grid[best.x, best.y] < grid[x, y]
  {
    best := Index(0, 0);
    for y := 0 to grid.Length1
      invariant InGrid(best, grid.Length0, grid.Length1)
      invariant best.y < y || best == Index(0, 0)
      invariant forall x', y' :: 0 <= x' < grid.Length0 && 0 <= y' < y ==> grid[best.x, best.y] <= grid[x', y']
      invariant forall x', y' {:trigger grid[x', y']} :: 0 <= x' < grid.Length0 && 0 <= y' < grid.Length1 && RowMajorBefore(Index(x', y'), best) ==>
        grid[best.x, best.y] < grid[x', y']
    {
      for x := 0 to grid.Length0
        invariant InGrid(best, grid.Length0, grid.Length1)
        invariant forall x', y' :: 0 <= x' < grid.Length0 && 0 <= y' < y ==> grid[best.x, best.y] <= grid[x', y']
        invariant forall x' :: 0 <= x' < x ==> grid[best.x, best.y] <= grid[x', y]
        invariant RowMajorBefore(best, Index(x, y)) || best == Index(0, 0)
        invariant forall x', y' {:trigger grid[x', y']} :: 0 <= x' < grid.Length0 && 0 <= y' < grid.Length1 && RowMajorBefore(Index(x', y'), best) ==>
          grid[best.x, best.y] < grid[x', y']
      {
        if grid[x, y] < grid[best.x, best.y] {
          best := Index(x, y);
        }
      }
    }
  }
}
