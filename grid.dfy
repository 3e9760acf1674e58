/**
 * The occupancy matrix that both map classes own and that the robot's collision query reads.
 * `m[y][x]` is the cell in row y and column x: 0 is empty, a positive value is the id of the
 * barrier covering it. Everything here is a value; the classes in FieldMap and LegacyMap keep
 * such a matrix in a field and are specified by the functions below.
 */
module Grid {

  type Cells = seq<seq<int>>

  /** One candidate of a barrier placement: the upper-left corner and the side of the square. */
  datatype Draw = Draw(x: nat, y: nat, side: nat)

  /** What placing barriers did: the new cells, how many squares were stamped, how many draws were consumed. */
  datatype Generation = Generation(cells: Cells, placed: nat, used: nat)

  /** The number of values in Python's `range(n)`. */
  function Extent(n: int): nat
  {
    if n < 0 then 0 else n
  }

  function Min(a: int, b: int): int
  {
    if a <= b then a else b
  }

  function Max(a: int, b: int): int
  {
    if a <= b then b else a
  }

  /** `m` has `height` rows of `width` cells each. */
  predicate IsRect(m: Cells, width: int, height: int)
  {
    |m| == height && forall r :: 0 <= r < |m| ==> |m[r]| == width
  }

  predicate SameShape(a: Cells, b: Cells)
  {
    |a| == |b| && forall r :: 0 <= r < |a| ==> |a[r]| == |b[r]|
  }

  /** The matrix `[[0 for x in range(width)] for row in range(height)]`. */
  function Zeroes(width: int, height: int): (m: Cells)
    ensures IsRect(m, Extent(width), Extent(height))
    ensures forall r, c :: 0 <= r < |m| && 0 <= c < |m[r]| ==> m[r][c] == 0
  {
    seq(Extent(height), _ => seq(Extent(width), _ => 0))
  }

  /** The largest side a barrier may draw on a width x height map: `ceil(min(width, height) / 3)`. */
  function MaxSide(width: int, height: int): int
  {
    (Min(width, height) + 2) / 3
  }

  /** A candidate `randint` can produce: a corner on the map and a side in [1, MaxSide]. */
  predicate Drawable(d: Draw, width: int, height: int)
  {
    d.x < width && d.y < height && 1 <= d.side <= MaxSide(width, height)
  }

  /**
   * Cell (x, y) stops a rectangle scan: it lies past the last row or past the end of its row
   * (where the source's indexing raises IndexError) or it holds a barrier.
   */
  predicate CellBlocked(m: Cells, x: nat, y: nat)
  {
    y >= |m| || x >= |m[y]| || m[y][x] > 0
  }

  /** Some cell of the w x h rectangle with upper-left corner (x, y) is blocked. */
  ghost predicate RegionBlocked(m: Cells, x: nat, y: nat, w: int, h: int)
  {
    exists r: nat, c: nat :: y <= r < y + h && x <= c < x + w && CellBlocked(m, c, r)
  }

  /** The square a draw proposes collides with the border or with a barrier. */
  ghost predicate Collides(m: Cells, d: Draw)
  {
    RegionBlocked(m, d.x, d.y, d.side, d.side)
  }

  /** A robot may not enter (x, y): it is off the grid on any side or holds a barrier. */
  predicate Obstructed(m: Cells, x: int, y: int)
  {
    x < 0 || y < 0 || y >= |m| || x >= |m[y]| || m[y][x] > 0
  }

  predicate InRect(r: int, c: int, x: int, y: int, w: int, h: int)
  {
    y <= r < y + h && x <= c < x + w
  }

  /** `m` with every cell of the side x side square at (x, y) set to `colour`. */
  function Stamp(m: Cells, x: int, y: int, side: int, colour: int): (s: Cells)
    ensures SameShape(m, s)
  {
    seq(|m|, r requires 0 <= r < |m| =>
      seq(|m[r]|, c requires 0 <= c < |m[r]| =>
        if InRect(r, c, x, y, side, side) then colour else m[r][c]))
  }

  /** `m` with every cell that holds `colour` reset to 0. */
  function Cleared(m: Cells, colour: int): (s: Cells)
    ensures SameShape(m, s)
  {
    seq(|m|, r requires 0 <= r < |m| =>
      seq(|m[r]|, c requires 0 <= c < |m[r]| =>
        if m[r][c] == colour then 0 else m[r][c]))
  }

  /**
   * The nested loops of `generate_barrier` that write `colour` into every cell of the side x side
   * square at (x, y), row by row.
   */
  method PaintSquare(m: Cells, width: int, height: int, x: nat, y: nat, side: nat, colour: int) returns (s: Cells)
    requires IsRect(m, width, height) && x + side <= width && y + side <= height
    ensures s == Stamp(m, x, y, side, colour)
  {
    s := m;
    for cy := 0 to side
      invariant SameShape(m, s)
      invariant forall r, c :: 0 <= r < height && 0 <= c < width ==>
        s[r][c] == if InRect(r, c, x, y, side, cy) then colour else m[r][c]
    {
      for cx := 0 to side
        invariant SameShape(m, s)
        invariant forall r, c :: 0 <= r < height && 0 <= c < width ==>
          s[r][c] == if InRect(r, c, x, y, side, cy) || InRect(r, c, x, y + cy, cx, 1) then colour else m[r][c]
      {
        s := s[y + cy := s[y + cy][x + cx := colour]];
      }
    }
    CellsEqual(s, Stamp(m, x, y, side, colour));
  }

  /** No cell is empty. */
  ghost predicate Full(m: Cells)
  {
    forall r, c :: 0 <= r < |m| && 0 <= c < |m[r]| ==> m[r][c] != 0
  }

  predicate NonNegative(m: Cells)
  {
    forall r, c :: 0 <= r < |m| && 0 <= c < |m[r]| ==> m[r][c] >= 0
  }

  /** The index of the first draw whose square is free, or |draws| when every draw collides. */
  ghost function FirstFree(m: Cells, draws: seq<Draw>): (k: nat)
    ensures k <= |draws|
    ensures k < |draws| ==> !Collides(m, draws[k])
    ensures forall j :: 0 <= j < k ==> Collides(m, draws[j])
    decreases |draws|
  {
    if |draws| == 0 then 0
    else if !Collides(m, draws[0]) then 0
    else 1 + FirstFree(m, draws[1..])
  }

  /** Retrying draws until one is free and stamping that square; nothing when none is free. */
  ghost function StampFirstFree(m: Cells, colour: int, draws: seq<Draw>): Cells
  {
    var k := FirstFree(m, draws);
    if k < |draws| then Stamp(m, draws[k].x, draws[k].y, draws[k].side, colour) else m
  }

  /** The number of positive (barrier) cells of a row. */
  function RowPositive(row: seq<int>): nat
  {
    if row == [] then 0 else (if row[0] > 0 then 1 else 0) + RowPositive(row[1..])
  }

  /** The number of positive (barrier) cells of the matrix. */
  function Positive(m: Cells): nat
  {
    if m == [] then 0 else RowPositive(m[0]) + Positive(m[1..])
  }

  // ---------------------------------------------------------------------------------------------
  // Lemmas

  /** Two matrices of the same shape that agree on every cell are equal. */
  lemma CellsEqual(a: Cells, b: Cells)
    requires SameShape(a, b)
    requires forall r, c :: 0 <= r < |a| && 0 <= c < |a[r]| ==> a[r][c] == b[r][c]
    ensures a == b
  {
    forall r | 0 <= r < |a|
      ensures a[r] == b[r]
    {
      assert forall c :: 0 <= c < |a[r]| ==> a[r][c] == b[r][c];
    }
  }

  /** The robot's single-cell test agrees with a 1 x 1 region scan when the destination is not negative. */
  lemma ObstructedIsUnitRegion(m: Cells, x: nat, y: nat)
    ensures Obstructed(m, x, y) <==> RegionBlocked(m, x, y, 1, 1)
  {
    if Obstructed(m, x, y) {
      assert CellBlocked(m, x, y);
    }
  }

  /**
   * A free square of side at least 1 lies inside the width x height grid and covers no barrier:
   * every one of its cells is at most 0.
   */
  lemma FreeSquareFits(m: Cells, width: int, height: int, x: nat, y: nat, side: int)
    requires IsRect(m, width, height)
    requires side >= 1 && !RegionBlocked(m, x, y, side, side)
    ensures y + side <= height && x + side <= width
    ensures forall r, c :: InRect(r, c, x, y, side, side) ==> 0 <= r < height && 0 <= c < width && m[r][c] <= 0
  {
    var r: nat, c: nat := y + side - 1, x + side - 1;
    if y + side > height {
      assert CellBlocked(m, x, r);
    } else if x + side > width {
      assert CellBlocked(m, c, y);
    }
    forall r, c | InRect(r, c, x, y, side, side)
      ensures 0 <= r < height && 0 <= c < width && m[r][c] <= 0
    {
      var r': nat, c': nat := r, c;
      if m[r][c] > 0 {
        assert CellBlocked(m, c', r');
      }
    }
  }

  /** Stamping a free square overwrites no barrier: barriers never overlap. */
  lemma StampKeepsBarriers(m: Cells, width: int, height: int, x: nat, y: nat, side: int, colour: int)
    requires IsRect(m, width, height)
    requires side >= 1 && !RegionBlocked(m, x, y, side, side)
    ensures forall r, c :: 0 <= r < |m| && 0 <= c < |m[r]| && m[r][c] > 0 ==>
      Stamp(m, x, y, side, colour)[r][c] == m[r][c]
  {
    FreeSquareFits(m, width, height, x, y, side);
  }

  /**
   * Removing a fresh id right after stamping it on a free square gives back the matrix
   * (cells are never negative, and no cell held that id before).
   */
  lemma ClearUndoesStamp(m: Cells, width: int, height: int, x: nat, y: nat, side: int, colour: int)
    requires IsRect(m, width, height) && NonNegative(m)
    requires colour > 0
    requires forall r, c :: 0 <= r < |m| && 0 <= c < |m[r]| ==> m[r][c] != colour
    requires side >= 1 && !RegionBlocked(m, x, y, side, side)
    ensures Cleared(Stamp(m, x, y, side, colour), colour) == m
  {
    FreeSquareFits(m, width, height, x, y, side);
    var s := Cleared(Stamp(m, x, y, side, colour), colour);
    forall r, c | 0 <= r < |m| && 0 <= c < |m[r]|
      ensures s[r][c] == m[r][c]
    {
      if InRect(r, c, x, y, side, side) {
        assert m[r][c] == 0;
      }
    }
    CellsEqual(s, m);
  }

  lemma {:induction false} RowPositiveBound(row: seq<int>)
    ensures RowPositive(row) <= |row|
  {
    if row != [] {
      RowPositiveBound(row[1..]);
    }
  }

  /** A height x width matrix has at most height * width barrier cells. */
  lemma {:induction false} PositiveBound(m: Cells, width: nat)
    requires forall r :: 0 <= r < |m| ==> |m[r]| == width
    ensures Positive(m) <= |m| * width
  {
    if m != [] {
      RowPositiveBound(m[0]);
      PositiveBound(m[1..], width);
      assert |m| * width == width + |m[1..]| * width;
    }
  }

  lemma {:induction false} RowPositiveNone(row: seq<int>)
    requires forall i :: 0 <= i < |row| ==> row[i] <= 0
    ensures RowPositive(row) == 0
  {
    if row != [] {
      RowPositiveNone(row[1..]);
    }
  }

  /** A matrix with no positive cell has no barrier cells. */
  lemma {:induction false} PositiveNone(m: Cells)
    requires forall r, c :: 0 <= r < |m| && 0 <= c < |m[r]| ==> m[r][c] <= 0
    ensures Positive(m) == 0
  {
    if m != [] {
      RowPositiveNone(m[0]);
      assert forall r, c :: 0 <= r < |m[1..]| && 0 <= c < |m[1..][r]| ==> m[1..][r][c] == m[r + 1][c];
      PositiveNone(m[1..]);
    }
  }

  /** A fresh map of zeros holds no barrier cell. */
  lemma ZeroesHaveNoBarriers(width: int, height: int)
    ensures Positive(Zeroes(width, height)) == 0
  {
    PositiveNone(Zeroes(width, height));
  }

  lemma {:induction false} RowPositiveGrows(a: seq<int>, b: seq<int>, k: int)
    requires |a| == |b|
    requires forall i :: 0 <= i < |a| && a[i] > 0 ==> b[i] > 0
    ensures RowPositive(a) <= RowPositive(b)
    ensures 0 <= k < |a| && a[k] <= 0 < b[k] ==> RowPositive(a) < RowPositive(b)
  {
    if a != [] {
      RowPositiveGrows(a[1..], b[1..], k - 1);
    }
  }

  /**
   * If every barrier cell of `a` is a barrier cell of `b`, then `b` has at least as many barrier
   * cells, and strictly more when some cell of `a` that is not a barrier is one in `b`.
   */
  lemma {:induction false} PositiveGrows(a: Cells, b: Cells, r0: int, c0: int)
    requires SameShape(a, b)
    requires forall r, c :: 0 <= r < |a| && 0 <= c < |a[r]| && a[r][c] > 0 ==> b[r][c] > 0
    ensures Positive(a) <= Positive(b)
    ensures 0 <= r0 < |a| && 0 <= c0 < |a[r0]| && a[r0][c0] <= 0 < b[r0][c0] ==> Positive(a) < Positive(b)
  {
    if a != [] {
      assert forall i :: 0 <= i < |a[0]| && a[0][i] > 0 ==> b[0][i] > 0;
      RowPositiveGrows(a[0], b[0], if r0 == 0 then c0 else -1);
      PositiveGrows(a[1..], b[1..], r0 - 1, c0);
    }
  }

  /** Stamping a positive id on a free square adds at least one barrier cell. */
  lemma StampAddsBarrierCells(m: Cells, width: int, height: int, x: nat, y: nat, side: int, colour: int)
    requires IsRect(m, width, height)
    requires colour > 0 && side >= 1 && !RegionBlocked(m, x, y, side, side)
    ensures Positive(m) < Positive(Stamp(m, x, y, side, colour))
  {
    FreeSquareFits(m, width, height, x, y, side);
    StampKeepsBarriers(m, width, height, x, y, side, colour);
    PositiveGrows(m, Stamp(m, x, y, side, colour), y, x);
  }
}
