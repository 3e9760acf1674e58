/**
 * The map of src/map.py: a width x height matrix of barrier ids with validated dimensions and a
 * barrier counter. Random draws are handed in as a sequence of candidates.
 */
module FieldMap {
  import opened Wrappers
  import opened Grid

  /** The ValueError the dimension setters raise; the width is checked first. */
  datatype DimensionError = WidthNotPositive | HeightNotPositive

  /** The validation the width and height setters perform, in the order the constructor runs them. */
  function CheckDimensions(x: int, y: int): (r: Option<DimensionError>)
    ensures r.None? <==> x > 0 && y > 0
    ensures r == Some(WidthNotPositive) <==> x <= 0
    ensures r == Some(HeightNotPositive) <==> x > 0 && y <= 0
  {
    if x <= 0 then Some(WidthNotPositive)
    else if y <= 0 then Some(HeightNotPositive)
    else None
  }

  /**
   * One call of `generate_barrier`: nothing on a full map; otherwise the first free draw is
   * stamped with `colour` and counted. When the draws run out before a free one is found,
   * nothing is stamped.
   */
  ghost function Generate(m: Cells, colour: int, draws: seq<Draw>): (g: Generation)
    ensures g.used <= |draws| && g.placed <= 1 && SameShape(m, g.cells)
  {
    if Full(m) then Generation(m, 0, 0)
    else
      var k := FirstFree(m, draws);
      if k < |draws| then Generation(Stamp(m, draws[k].x, draws[k].y, draws[k].side, colour), 1, k + 1)
      else Generation(m, 0, |draws|)
  }

  /**
   * When a call of `generate_barrier` places a barrier, the square is the last draw it consumed:
   * its side is in [1, ceil(min(width, height) / 3)], it lies inside the grid, it was free, every
   * barrier cell is kept, and the new matrix is that square stamped with `colour`. Otherwise the
   * cells are unchanged.
   */
  lemma GenerateStampsFreeSquare(m: Cells, width: int, height: int, colour: int, draws: seq<Draw>)
    requires IsRect(m, width, height)
    requires forall i :: 0 <= i < |draws| ==> Drawable(draws[i], width, height)
    ensures var g := Generate(m, colour, draws);
      if g.placed == 1 then
        var d := draws[g.used - 1];
        && 1 <= d.side <= MaxSide(width, height)
        && d.x + d.side <= width && d.y + d.side <= height
        && !Collides(m, d)
        && g.cells == Stamp(m, d.x, d.y, d.side, colour)
        && (forall r, c :: 0 <= r < height && 0 <= c < width && m[r][c] > 0 ==> g.cells[r][c] == m[r][c])
      else g.cells == m
  {
    var g := Generate(m, colour, draws);
    if g.placed == 1 {
      var d := draws[g.used - 1];
      FreeSquareFits(m, width, height, d.x, d.y, d.side);
      StampKeepsBarriers(m, width, height, d.x, d.y, d.side, colour);
    }
  }

  /** `generate_barrier` on a full map changes nothing and consumes no draw. */
  lemma GenerateOnFullIsNoOp(m: Cells, colour: int, draws: seq<Draw>)
    requires Full(m)
    ensures Generate(m, colour, draws) == Generation(m, 0, 0)
  {
  }

  /**
   * A map that is not full always offers a free candidate `randint` can draw: the 1 x 1 square on
   * an empty cell. The retry loop of `generate_barrier` therefore stops once such a draw comes up;
   * only a finite supply of draws can make it give up.
   */
  lemma NotFullHasFreeDraw(m: Cells, width: int, height: int)
    requires IsRect(m, width, height) && !Full(m)
    ensures exists d :: Drawable(d, width, height) && !Collides(m, d)
  {
    var r, c :| 0 <= r < |m| && 0 <= c < |m[r]| && m[r][c] == 0;
    var d := Draw(c, r, 1);
    assert forall r': nat, c': nat :: r <= r' < r + 1 && c <= c' < c + 1 ==> !CellBlocked(m, c', r');
    assert Drawable(d, width, height) && !Collides(m, d);
  }

  /** A barrier id that is not negative keeps every cell at 0 or a barrier id. */
  lemma GenerateKeepsNonNegative(m: Cells, colour: int, draws: seq<Draw>)
    requires NonNegative(m) && colour >= 0
    ensures NonNegative(Generate(m, colour, draws).cells)
  {
  }

  class Map {
    var width: int
    var height: int
    var cells: Cells
    var barriersCount: int

    ghost predicate Valid()
      reads this
    {
      width > 0 && height > 0 && IsRect(cells, width, height)
    }

    /** The constructor once both setters accepted the dimensions. */
    constructor (x: int, y: int)
      requires CheckDimensions(x, y).None?
      ensures Valid()
      ensures width == x && height == y && cells == Zeroes(x, y) && barriersCount == 0
    {
      width := x;
      height := y;
      cells := Zeroes(x, y);
      barriersCount := 0;
    }

    /** `Map(x, y)`: the ValueError of the first rejected dimension, or a map of zeros with no barrier. */
    static method Create(x: int, y: int) returns (r: Result<Map, DimensionError>)
      ensures r.Failure? <==> CheckDimensions(x, y).Some?
      ensures r.Failure? ==> Some(r.error) == CheckDimensions(x, y)
      ensures r.Success? ==>
        && fresh(r.value) && r.value.Valid()
        && r.value.width == x && r.value.height == y
        && r.value.cells == Zeroes(x, y) && r.value.barriersCount == 0
    {
      var error := CheckDimensions(x, y);
      if error.Some? {
        return Failure(error.value);
      }
      var m := new Map(x, y);
      return Success(m);
    }

    /**
     * Whether the w x h rectangle at (x, y) collides: some cell of it lies past the last row or
     * column or holds a barrier. An empty rectangle never collides.
     */
    method CheckCollisions(x: nat, y: nat, w: int, h: int) returns (hit: bool)
      ensures hit <==> RegionBlocked(cells, x, y, w, h)
      ensures w <= 0 || h <= 0 ==> !hit
    {
      var cy := 0;
      while cy < h
        invariant 0 <= cy && (cy <= h || cy == 0)
        invariant !RegionBlocked(cells, x, y, w, cy)
      {
        var cx := 0;
        while cx < w
          invariant 0 <= cx && (cx <= w || cx == 0)
          invariant !RegionBlocked(cells, x, y, w, cy) && !RegionBlocked(cells, x, y + cy, cx, 1)
        {
          // An IndexError counts as a collision.
          if y + cy >= |cells| || x + cx >= |cells[y + cy]| || cells[y + cy][x + cx] > 0 {
            assert CellBlocked(cells, x + cx, y + cy);
            return true;
          }
          cx := cx + 1;
        }
        cy := cy + 1;
      }
      return false;
    }

    /** Whether the cell (x, y) is empty. */
    function FreePoint(x: nat, y: nat): (free: bool)
      reads this
      requires y < |cells| && x < |cells[y]|
      ensures free <==> cells[y][x] == 0
    {
      cells[y][x] == 0
    }

    /** Whether no cell is empty, scanning row by row. */
    method IsFull() returns (full: bool)
      requires Valid()
      ensures full <==> Full(cells)
    {
      for y := 0 to height
        invariant forall r, c :: 0 <= r < y && 0 <= c < width ==> cells[r][c] != 0
      {
        for x := 0 to width
          invariant forall r, c :: 0 <= r < y && 0 <= c < width ==> cells[r][c] != 0
          invariant forall c :: 0 <= c < x ==> cells[y][c] != 0
        {
          if cells[y][x] == 0 {
            return false;
          }
        }
      }
      return true;
    }

    /**
     * Places one barrier of id `colour`: retries draws until one is free, stamps it and counts
     * it. Returns how many draws were consumed.
     */
    method GenerateBarrier(colour: int, draws: seq<Draw>) returns (used: nat)
      requires Valid()
      requires forall i :: 0 <= i < |draws| ==> Drawable(draws[i], width, height)
      modifies this`cells, this`barriersCount
      ensures Valid()
      ensures var g := Generate(old(cells), colour, draws);
        cells == g.cells && used == g.used && barriersCount == old(barriersCount) + g.placed
    {
      var full := IsFull();
      if full {
        return 0;
      }
      var x: nat, y: nat, side: nat := 0, 0, 0;
      var flag := true;
      used := 0;
      while flag && used < |draws|
        invariant used <= |draws|
        invariant cells == old(cells) && barriersCount == old(barriersCount)
        invariant forall j :: 0 <= j < (if flag then used else used - 1) ==> Collides(cells, draws[j])
        invariant !flag ==> 0 < used && draws[used - 1] == Draw(x, y, side) && !Collides(cells, draws[used - 1])
      {
        x, y, side := draws[used].x, draws[used].y, draws[used].side;
        used := used + 1;
        var hit := CheckCollisions(x, y, side, side);
        if !hit {
          flag := false;
        }
      }
      if flag {
        // Every draw collided: no barrier is placed.
        assert FirstFree(cells, draws) == |draws|;
        return;
      }
      assert FirstFree(cells, draws) == used - 1;
      FreeSquareFits(cells, width, height, x, y, side);
      barriersCount := barriersCount + 1;
      cells := PaintSquare(cells, width, height, x, y, side, colour);
    }

    /**
     * Removes the barrier covering (x, y): every cell holding its id becomes 0. Returns the id and
     * lowers the counter by one, even when the cell was already empty.
     */
    method RemoveBarrier(x: nat, y: nat) returns (colour: int)
      requires Valid() && y < height && x < width
      modifies this`cells, this`barriersCount
      ensures Valid()
      ensures colour == old(cells[y][x])
      ensures cells == Cleared(old(cells), colour)
      ensures barriersCount == old(barriersCount) - 1
    {
      colour := cells[y][x];
      ghost var before := cells;
      for r := 0 to height
        invariant SameShape(before, cells) && barriersCount == old(barriersCount)
        invariant forall i, j :: 0 <= i < height && 0 <= j < width ==>
          cells[i][j] == if i < r && before[i][j] == colour then 0 else before[i][j]
      {
        for c := 0 to width
          invariant SameShape(before, cells) && barriersCount == old(barriersCount)
          invariant forall i, j :: 0 <= i < height && 0 <= j < width ==>
            cells[i][j] == if (i < r || (i == r && j < c)) && before[i][j] == colour then 0 else before[i][j]
        {
          if cells[r][c] == colour {
            cells := cells[r := cells[r][c := 0]];
          }
        }
      }
      CellsEqual(cells, Cleared(before, colour));
      barriersCount := barriersCount - 1;
    }
  }
}
