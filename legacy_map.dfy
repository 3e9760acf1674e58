/**
 * The older map of the repository root (map.py): no dimension validation, `barriers_count` is
 * whatever the constructor was given, and a colliding draw is retried by self-recursion. The
 * depth at which Python gives up (RecursionError) is the number of draws handed in.
 */
module LegacyMap {
  import opened Grid

  /**
   * A call of `generate_barrier` stamps at most one square: the first free draw, or nothing when
   * every draw collides. On a stamp the square has a side in [1, ceil(min(width, height) / 3)],
   * lies in bounds, was free, and keeps every barrier cell.
   */
  lemma RetryStampsFirstFree(m: Cells, width: int, height: int, colour: int, draws: seq<Draw>)
    requires IsRect(m, width, height)
    requires forall i :: 0 <= i < |draws| ==> Drawable(draws[i], width, height)
    ensures var k := FirstFree(m, draws);
      if k < |draws| then
        var d := draws[k];
        && 1 <= d.side <= MaxSide(width, height)
        && d.x + d.side <= width && d.y + d.side <= height
        && !Collides(m, d)
        && StampFirstFree(m, colour, draws) == Stamp(m, d.x, d.y, d.side, colour)
        && (forall r, c :: 0 <= r < height && 0 <= c < width && m[r][c] > 0 ==>
              StampFirstFree(m, colour, draws)[r][c] == m[r][c])
      else StampFirstFree(m, colour, draws) == m
  {
    var k := FirstFree(m, draws);
    if k < |draws| {
      var d := draws[k];
      FreeSquareFits(m, width, height, d.x, d.y, d.side);
      StampKeepsBarriers(m, width, height, d.x, d.y, d.side, colour);
    }
  }

  class Map {
    var width: int
    var height: int
    var cells: Cells
    var barriersCount: int

    /** The matrix has as many rows as `range(height)` and as many cells per row as `range(width)`. */
    ghost predicate Valid()
      reads this
    {
      IsRect(cells, Extent(width), Extent(height))
    }

    /** `Map(x, y, count)`: zeros, no checks on the dimensions, the counter set to `count`. */
    constructor (x: int, y: int, count: int)
      ensures Valid()
      ensures width == x && height == y && cells == Zeroes(x, y) && barriersCount == count
    {
      width := x;
      height := y;
      cells := Zeroes(x, y);
      barriersCount := count;
    }

    /**
     * Whether the w x h rectangle at (x, y) collides: some cell of it lies past the last row or
     * column or holds a barrier. An empty rectangle never collides.
     */
    method CheckCollisions(x: nat, y: nat, w: int, h: int) returns (hit: bool)
      ensures hit <==> RegionBlocked(cells, x, y, w, h)
      ensures w <= 0 || h <= 0 ==> !hit
    {
      var cy := 0;
      while cy < h
        invariant 0 <= cy && (cy <= h || cy == 0)
        invariant !RegionBlocked(cells, x, y, w, cy)
      {
        var cx := 0;
        while cx < w
          invariant 0 <= cx && (cx <= w || cx == 0)
          invariant !RegionBlocked(cells, x, y, w, cy) && !RegionBlocked(cells, x, y + cy, cx, 1)
        {
          // An IndexError counts as a collision.
          if y + cy >= |cells| || x + cx >= |cells[y + cy]| || cells[y + cy][x + cx] > 0 {
            assert CellBlocked(cells, x + cx, y + cy);
            return true;
          }
          cx := cx + 1;
        }
        cy := cy + 1;
      }
      return false;
    }

    /** Whether the cell (x, y) is empty. */
    function FreePoint(x: nat, y: nat): (free: bool)
      reads this
      requires y < |cells| && x < |cells[y]|
      ensures free <==> cells[y][x] == 0
    {
      cells[y][x] == 0
    }

    /**
     * Places one barrier of id `colour`: takes the first draw; if it collides, recurses on the
     * remaining draws and stamps nothing at this level. With no draw left the recursion gives up.
     * The counter is never touched.
     */
    method GenerateBarrier(colour: int, draws: seq<Draw>)
      requires Valid() && width > 0 && height > 0
      requires forall i :: 0 <= i < |draws| ==> Drawable(draws[i], width, height)
      modifies this`cells
      ensures Valid()
      ensures cells == StampFirstFree(old(cells), colour, draws)
      decreases |draws|
    {
      if |draws| == 0 {
        // The recursion limit was reached: RecursionError is caught and nothing is placed.
        return;
      }
      var x, y, side := draws[0].x, draws[0].y, draws[0].side;
      var hit := CheckCollisions(x, y, side, side);
      if hit {
        GenerateBarrier(colour, draws[1..]);
        return;
      }
      FreeSquareFits(cells, width, height, x, y, side);
      cells := PaintSquare(cells, width, height, x, y, side, colour);
    }

    /** Removes the barrier covering (x, y): every cell holding its id becomes 0; returns the id. */
    method RemoveBarrier(x: nat, y: nat) returns (colour: int)
      requires Valid() && y < height && x < width
      modifies this`cells
      ensures Valid()
      ensures colour == old(cells[y][x])
      ensures cells == Cleared(old(cells), colour)
    {
      colour := cells[y][x];
      ghost var before := cells;
      for r := 0 to height
        invariant SameShape(before, cells)
        invariant forall i, j :: 0 <= i < height && 0 <= j < width ==>
          cells[i][j] == if i < r && before[i][j] == colour then 0 else before[i][j]
      {
        for c := 0 to width
          invariant SameShape(before, cells)
          invariant forall i, j :: 0 <= i < height && 0 <= j < width ==>
            cells[i][j] == if (i < r || (i == r && j < c)) && before[i][j] == colour then 0 else before[i][j]
        {
          if cells[r][c] == colour {
            cells := cells[r := cells[r][c := 0]];
          }
        }
      }
      CellsEqual(cells, Cleared(before, colour));
    }
  }
}
