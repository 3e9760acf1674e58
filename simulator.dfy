/**
 * The glue of main.py: the clamped view rectangle around the robot, one command applied to the
 * robot on a field, and setting up a field with barriers and a free spawn cell.
 */
module Simulator {
  import opened Wrappers
  import opened Grid
  import opened Robots
  import FieldMap

  /** A view rectangle `(x1, x2, y1, y2)`. */
  datatype Zone = Zone(x1: int, x2: int, y1: int, y2: int)

  /**
   * The view rectangle around (cx, cy): each margin shrunk just enough that its edge lands inside
   * [0, width] or [0, height]. The upper edges may equal width or height themselves.
   */
  function ViewZone(width: int, height: int, cx: int, cy: int, left: int, right: int, up: int, down: int): (z: Zone)
    ensures z.x1 == Max(cx - left, 0) && z.x2 == Min(cx + right, width)
    ensures z.y1 == Max(cy - up, 0) && z.y2 == Min(cy + down, height)
    ensures left >= 0 && right >= 0 && 0 <= cx <= width ==> 0 <= z.x1 <= cx <= z.x2 <= width
    ensures up >= 0 && down >= 0 && 0 <= cy <= height ==> 0 <= z.y1 <= cy <= z.y2 <= height
  {
    Zone(cx - Min(left, cx), cx + Min(right, width - cx), cy - Min(up, cy), cy + Min(down, height - cy))
  }

  /** The two view-zone cases of the repository's tests: a 7 x 7 field with margins of 3. */
  lemma ViewZoneExamples()
    ensures ViewZone(7, 7, 3, 3, 3, 3, 3, 3) == Zone(0, 6, 0, 6)
    ensures ViewZone(7, 7, 0, 0, 3, 3, 3, 3) == Zone(0, 3, 0, 3)
  {
  }

  /** `calculate_viewzone`: the margins are lowered one by one until each edge is on the field. */
  method CalculateViewzone(field: FieldMap.Map, robot: Robot, x_1: int, x_2: int, y_1: int, y_2: int)
    returns (zone: Zone)
    ensures zone == ViewZone(field.width, field.height, robot.cx, robot.cy, x_1, x_2, y_1, y_2)
  {
    var left, right, up, down := x_1, x_2, y_1, y_2;
    while robot.cx + right > field.width
      invariant right <= x_2 && (right == x_2 || robot.cx + right >= field.width)
      decreases robot.cx + right - field.width
    {
      right := right - 1;
    }
    while robot.cx - left < 0
      invariant left <= x_1 && (left == x_1 || left >= robot.cx)
      decreases left - robot.cx
    {
      left := left - 1;
    }
    while robot.cy + down > field.height
      invariant down <= y_2 && (down == y_2 || robot.cy + down >= field.height)
      decreases robot.cy + down - field.height
    {
      down := down - 1;
    }
    while robot.cy - up < 0
      invariant up <= y_1 && (up == y_1 || up >= robot.cy)
      decreases up - robot.cy
    {
      up := up - 1;
    }
    zone := Zone(robot.cx - left, robot.cx + right, robot.cy - up, robot.cy + down);
  }

  // ---------------------------------------------------------------------------------------------
  // move_robot

  /** The robot's orientation equals the command: only a directional command can. */
  predicate Faces(o: Orientation, c: Command)
  {
    c.Move? && c.dir == o
  }

  /** How many clockwise quarter turns lead from one facing to another. */
  function Turns(from: Orientation, to: Orientation): (k: nat)
    ensures k <= 3 && ClockwiseN(from, k) == to
    ensures forall j :: 0 <= j < k ==> ClockwiseN(from, j) != to
  {
    if from == to then 0
    else if Clockwise(from) == to then 1
    else if Clockwise(Clockwise(from)) == to then 2
    else 3
  }

  lemma TurnsStep(from: Orientation, to: Orientation)
    requires from != to
    ensures Turns(Clockwise(from), to) == Turns(from, to) - 1
  {
  }

  /** The entries the turning loop writes: the new facing after each quarter turn. */
  function TurnTrace(o: Orientation, k: nat): (t: seq<Event>)
    ensures |t| == k
  {
    if k == 0 then [] else TurnTrace(o, k - 1) + [Turned(ClockwiseN(o, k))]
  }

  /**
   * One command. ROTATE90 and ROTATE180 run `handling_command` once, stay in place and log the
   * new facing. A direction turns clockwise until the robot faces it (at most three turns, each
   * logged), then steps one cell that way unless the destination is off the field or on a
   * barrier; a blocked step still leaves the robot facing the commanded direction.
   */
  method MoveRobot(command: Command, robot: Robot, field: Cells)
    requires robot.Valid()
    modifies robot
    ensures robot.Valid() && robot.step == 1
    ensures command.Move? ==>
      var k := Turns(old(robot.orientation), command.dir);
      var off := Offset(command.dir, old(robot.step));
      var blocked := (off.0 != 0 || off.1 != 0) && Obstructed(field, old(robot.cx) + off.1, old(robot.cy) + off.0);
      && robot.orientation == command.dir
      && robot.angle == QuarterTurns(old(robot.angle), k)
      && robot.cx == old(robot.cx) + (if blocked then 0 else off.1)
      && robot.cy == old(robot.cy) + (if blocked then 0 else off.0)
      && robot.trace == old(robot.trace) + TurnTrace(old(robot.orientation), k) +
           (if blocked then [] else [StateEvent(command.dir, old(robot.cx), old(robot.cy), off.1, off.0)])
    ensures !command.Move? ==>
      && robot.angle == AfterCommand(old(robot.angle), command)
      && Some(robot.orientation) == FacingOf(old(robot.angle) - TurnAmount(command))
      && robot.cx == old(robot.cx) && robot.cy == old(robot.cy)
      && robot.trace == old(robot.trace) + [Turned(robot.orientation)]
    ensures command == Rotate180 ==> robot.orientation != old(robot.orientation)
  {
    HalfTurnChangesFacing(robot.angle, robot.orientation);
    TurnUntilFacing(command, robot);
    StepUnlessBlocked(robot, field);
  }

  /**
   * The turning loop of `move_robot`: a direction is turned towards one quarter at a time, each
   * turn logged; ROTATE90 or ROTATE180 runs `handling_command` once and leaves the loop with the
   * step reset to 0.
   */
  method TurnUntilFacing(command: Command, robot: Robot)
    requires robot.Valid()
    modifies robot`angle, robot`orientation, robot`view, robot`step, robot`trace
    ensures robot.Valid()
    ensures command.Move? ==>
      var k := Turns(old(robot.orientation), command.dir);
      && robot.orientation == command.dir && robot.step == old(robot.step)
      && robot.angle == QuarterTurns(old(robot.angle), k)
      && robot.trace == old(robot.trace) + TurnTrace(old(robot.orientation), k)
    ensures !command.Move? ==>
      && robot.angle == AfterCommand(old(robot.angle), command)
      && Some(robot.orientation) == FacingOf(old(robot.angle) - TurnAmount(command))
      && robot.step == 0 && robot.trace == old(robot.trace)
  {
    ghost var o0, a0, t0, s0 := robot.orientation, robot.angle, robot.trace, robot.step;
    var flag := false;
    ghost var turns: nat := 0;
    while !Faces(robot.orientation, command)
      invariant robot.Valid() && !flag
      invariant robot.step == s0
      invariant command.Move? ==>
        && turns + Turns(robot.orientation, command.dir) == Turns(o0, command.dir)
        && robot.orientation == ClockwiseN(o0, turns)
        && robot.angle == QuarterTurns(a0, turns)
        && robot.trace == t0 + TurnTrace(o0, turns)
      invariant !command.Move? ==> robot.angle == a0 && robot.orientation == o0 && robot.trace == t0
      decreases if command.Move? then Turns(robot.orientation, command.dir) else 0
    {
      ghost var facing, before, logged := robot.orientation, robot.angle, robot.trace;
      var rotation := TurnOnce(command, robot);
      if command.Move? {
        TurnsStep(facing, command.dir);
        TurnAdvances(a0, o0, t0, turns, before, facing, logged, robot.angle, robot.orientation, robot.trace);
      }
      if rotation {
        flag := true;
      }
      turns := turns + 1;
      if flag {
        break;
      }
    }
  }

  /** One more logged quarter turn after `turns` of them is the state of turns + 1 quarter turns. */
  lemma TurnAdvances(a0: int, o0: Orientation, t0: seq<Event>, turns: nat,
                     angle: int, o: Orientation, trace: seq<Event>, angle': int, o': Orientation, trace': seq<Event>)
    requires angle == QuarterTurns(a0, turns) && o == ClockwiseN(o0, turns) && trace == t0 + TurnTrace(o0, turns)
    requires angle' == Folded(angle - 90) && o' == Clockwise(o) && trace' == trace + [Turned(o')]
    ensures angle' == QuarterTurns(a0, turns + 1) && o' == ClockwiseN(o0, turns + 1)
    ensures trace' == t0 + TurnTrace(o0, turns + 1)
  {
  }

  /**
   * One pass of the turning loop: `handling_command`, then a logged turn unless the command is a
   * rotation (the source tests for ROTATE in the command's name).
   */
  method TurnOnce(command: Command, robot: Robot) returns (rotation: bool)
    requires robot.Valid()
    modifies robot`angle, robot`orientation, robot`view, robot`step, robot`trace
    ensures robot.Valid()
    ensures rotation <==> !command.Move?
    ensures command.Move? ==>
      && robot.orientation == Clockwise(old(robot.orientation)) && robot.step == old(robot.step)
      && robot.angle == Folded(old(robot.angle) - 90)
      && robot.trace == old(robot.trace) + [Turned(robot.orientation)]
    ensures !command.Move? ==>
      && robot.angle == AfterCommand(old(robot.angle), command)
      && Some(robot.orientation) == FacingOf(old(robot.angle) - TurnAmount(command))
      && robot.step == 0 && robot.trace == old(robot.trace)
  {
    QuarterTurnIsClockwise(robot.angle, robot.orientation);
    robot.HandlingCommand(command);
    rotation := !command.Move?;
    if !rotation {
      robot.PrintState(0, 0);
    }
  }

  /**
   * The end of `move_robot`: the offset of one step in the current facing, and that step, logged,
   * unless it would leave the field or enter a barrier.
   */
  method StepUnlessBlocked(robot: Robot, field: Cells)
    requires robot.Valid()
    modifies robot
    ensures robot.Valid() && robot.step == 1
    ensures robot.orientation == old(robot.orientation) && robot.angle == old(robot.angle)
    ensures var off := Offset(old(robot.orientation), old(robot.step));
      var blocked := (off.0 != 0 || off.1 != 0) && Obstructed(field, old(robot.cx) + off.1, old(robot.cy) + off.0);
      && robot.cx == old(robot.cx) + (if blocked then 0 else off.1)
      && robot.cy == old(robot.cy) + (if blocked then 0 else off.0)
      && robot.trace == old(robot.trace) +
           (if blocked then [] else [StateEvent(old(robot.orientation), old(robot.cx), old(robot.cy), off.1, off.0)])
  {
    var offY, offX := robot.UpdateOrientation(false);
    if !robot.CheckCollisions(field, offX, offY) {
      robot.PrintState(offX, offY);
      robot.StepForward();
    }
  }

  // ---------------------------------------------------------------------------------------------
  // prepare_field

  /** One more call of `generate_barrier`, on the draws the earlier calls left, added to their tally. */
  ghost function GenerateNext(g: Generation, colour: int, draws: seq<Draw>): (h: Generation)
    requires g.used <= |draws|
    ensures h.used <= |draws| && h.placed <= g.placed + 1 && SameShape(g.cells, h.cells)
  {
    var next := FieldMap.Generate(g.cells, colour, draws[g.used..]);
    Generation(next.cells, g.placed + next.placed, g.used + next.used)
  }

  /** `generate_barrier` called with ids 1..n in order, each call taking its draws where the last stopped. */
  ghost function GenerateAll(m: Cells, n: nat, draws: seq<Draw>): (g: Generation)
    ensures g.used <= |draws| && g.placed <= n && SameShape(m, g.cells)
  {
    if n == 0 then Generation(m, 0, 0) else GenerateNext(GenerateAll(m, n - 1, draws), n, draws)
  }

  /**
   * One call of `generate_barrier` with a positive id keeps the shape and every barrier cell, and
   * a placed barrier adds at least one barrier cell.
   */
  lemma GenerateCountsBarrierCells(m: Cells, width: int, height: int, colour: int, draws: seq<Draw>)
    requires IsRect(m, width, height) && colour > 0
    requires forall i :: 0 <= i < |draws| ==> Drawable(draws[i], width, height)
    ensures var g := FieldMap.Generate(m, colour, draws);
      && IsRect(g.cells, width, height)
      && Positive(m) + g.placed <= Positive(g.cells)
      && forall r, c :: 0 <= r < height && 0 <= c < width && m[r][c] > 0 ==> g.cells[r][c] == m[r][c]
  {
    FieldMap.GenerateStampsFreeSquare(m, width, height, colour, draws);
    var g := FieldMap.Generate(m, colour, draws);
    if g.placed == 1 {
      var d := draws[g.used - 1];
      StampAddsBarrierCells(m, width, height, d.x, d.y, d.side, colour);
    }
  }

  /**
   * Each barrier placed while setting up a field adds at least one barrier cell, and no barrier
   * cell is ever overwritten: barriers never overlap. Hence the number placed is at most the
   * number of barrier cells gained.
   */
  lemma {:induction false} GenerateAllCountsBarrierCells(m: Cells, width: int, height: int, n: nat, draws: seq<Draw>)
    requires IsRect(m, width, height)
    requires forall i :: 0 <= i < |draws| ==> Drawable(draws[i], width, height)
    ensures var g := GenerateAll(m, n, draws);
      && IsRect(g.cells, width, height)
      && Positive(m) + g.placed <= Positive(g.cells)
      && forall r, c :: 0 <= r < height && 0 <= c < width && m[r][c] > 0 ==> g.cells[r][c] == m[r][c]
  {
    if n > 0 {
      GenerateAllCountsBarrierCells(m, width, height, n - 1, draws);
      var prev := GenerateAll(m, n - 1, draws);
      var rest := draws[prev.used..];
      assert forall i :: 0 <= i < |rest| ==> Drawable(rest[i], width, height) by {
        forall i | 0 <= i < |rest| ensures Drawable(rest[i], width, height) {
          assert rest[i] == draws[prev.used + i];
        }
      }
      GenerateCountsBarrierCells(prev.cells, width, height, n, rest);
    }
  }

  /** The ids 1..n are positive, so a matrix of 0s and barrier ids keeps that form. */
  lemma {:induction false} GenerateAllKeepsNonNegative(m: Cells, n: nat, draws: seq<Draw>)
    requires NonNegative(m)
    ensures NonNegative(GenerateAll(m, n, draws).cells)
  {
    if n > 0 {
      GenerateAllKeepsNonNegative(m, n - 1, draws);
      var prev := GenerateAll(m, n - 1, draws);
      FieldMap.GenerateKeepsNonNegative(prev.cells, n, draws[prev.used..]);
    }
  }

  /** However the draws fall, the barriers placed and the barrier cells already there fit the grid. */
  lemma PlacedBound(m: Cells, width: nat, height: int, n: nat, draws: seq<Draw>)
    requires IsRect(m, width, height)
    requires forall i :: 0 <= i < |draws| ==> Drawable(draws[i], width, height)
    ensures Positive(m) + GenerateAll(m, n, draws).placed <= height * width
  {
    var g := GenerateAll(m, n, draws);
    GenerateAllCountsBarrierCells(m, width, height, n, draws);
    PositiveBound(g.cells, width);
  }

  /**
   * Stamps barriers 1..count, then removes the barrier under (x, y) until that cell is free: at
   * most one barrier, the one that covered it, is removed. The counter ends at most
   * width * height above where it started (minus the barrier cells already there).
   */
  method PrepareField(field: FieldMap.Map, x: nat, y: nat, count: int, draws: seq<Draw>)
    requires field.Valid() && x < field.width && y < field.height
    requires forall i :: 0 <= i < |draws| ==> Drawable(draws[i], field.width, field.height)
    modifies field
    ensures field.Valid() && field.width == old(field.width) && field.height == old(field.height)
    ensures var g := GenerateAll(old(field.cells), Extent(count), draws);
      var id := g.cells[y][x];
      && field.cells == (if id == 0 then g.cells else Cleared(g.cells, id))
      && field.barriersCount == old(field.barriersCount) + g.placed - (if id == 0 then 0 else 1)
    ensures field.FreePoint(x, y)
    ensures field.barriersCount + Positive(old(field.cells)) <= old(field.barriersCount) + field.height * field.width
    ensures NonNegative(old(field.cells)) ==> NonNegative(field.cells)
  {
    PlacedBound(field.cells, field.width, field.height, Extent(count), draws);
    if NonNegative(field.cells) {
      GenerateAllKeepsNonNegative(field.cells, Extent(count), draws);
    }
    PlaceBarriers(field, count, draws);
    ClearSpawn(field, x, y);
  }

  /**
   * `test_for_barriers_count`: 30 barriers asked for on a fresh 5 x 5 map leave at most 25
   * counted, and the spawn cell (5 // 2, 5 // 2) free.
   */
  method BarriersCountExample(draws: seq<Draw>) returns (field: FieldMap.Map)
    requires forall i :: 0 <= i < |draws| ==> Drawable(draws[i], 5, 5)
    ensures field.Valid() && field.width == 5 && field.height == 5
    ensures field.barriersCount <= 25 && field.FreePoint(2, 2)
  {
    field := new FieldMap.Map(5, 5);
    ZeroesHaveNoBarriers(5, 5);
    PrepareField(field, 5 / 2, 5 / 2, 30, draws);
  }

  /** The loop of `prepare_field` that calls `generate_barrier` with the ids 1..count. */
  method PlaceBarriers(field: FieldMap.Map, count: int, draws: seq<Draw>)
    requires field.Valid()
    requires forall i :: 0 <= i < |draws| ==> Drawable(draws[i], field.width, field.height)
    modifies field`cells, field`barriersCount
    ensures field.Valid()
    ensures var g := GenerateAll(old(field.cells), Extent(count), draws);
      field.cells == g.cells && field.barriersCount == old(field.barriersCount) + g.placed
  {
    var consumed := 0;
    var index := 1;
    ghost var g := GenerateAll(old(field.cells), 0, draws);
    while index <= count
      invariant 1 <= index <= Extent(count) + 1
      invariant field.Valid()
      invariant g == GenerateAll(old(field.cells), index - 1, draws)
      invariant field.cells == g.cells && field.barriersCount == old(field.barriersCount) + g.placed && consumed == g.used
    {
      var used := PlaceNext(field, index, draws, consumed, g);
      consumed := consumed + used;
      g := GenerateNext(g, index, draws);
      index := index + 1;
    }
    assert index - 1 == Extent(count);
  }

  /** One call of `generate_barrier` inside the loop of `prepare_field`, on the draws not yet consumed. */
  method PlaceNext(field: FieldMap.Map, colour: int, draws: seq<Draw>, consumed: nat, ghost g: Generation) returns (used: nat)
    requires field.Valid() && g.used == consumed <= |draws| && field.cells == g.cells
    requires forall i :: 0 <= i < |draws| ==> Drawable(draws[i], field.width, field.height)
    modifies field`cells, field`barriersCount
    ensures field.Valid()
    ensures var h := GenerateNext(g, colour, draws);
      field.cells == h.cells && field.barriersCount == old(field.barriersCount) + h.placed - g.placed &&
      consumed + used == h.used
  {
    assert forall i :: 0 <= i < |draws[consumed..]| ==> Drawable(draws[consumed..][i], field.width, field.height);
    used := field.GenerateBarrier(colour, draws[consumed..]);
  }

  /**
   * The loop of `prepare_field` that removes the barrier under (x, y) while that cell is not free:
   * one removal clears every cell of that id, so it runs at most once.
   */
  method ClearSpawn(field: FieldMap.Map, x: nat, y: nat)
    requires field.Valid() && x < field.width && y < field.height
    modifies field`cells, field`barriersCount
    ensures field.Valid()
    ensures var id := old(field.cells[y][x]);
      && field.cells == (if id == 0 then old(field.cells) else Cleared(old(field.cells), id))
      && field.barriersCount == old(field.barriersCount) - (if id == 0 then 0 else 1)
    ensures field.FreePoint(x, y)
  {
    ghost var removed := false;
    while !field.FreePoint(x, y)
      invariant field.Valid()
      invariant !removed ==> field.cells == old(field.cells) && field.barriersCount == old(field.barriersCount)
      invariant removed ==>
        && old(field.cells[y][x]) != 0 && field.cells == Cleared(old(field.cells), old(field.cells[y][x]))
        && field.barriersCount == old(field.barriersCount) - 1 && field.cells[y][x] == 0
      decreases if removed then 0 else 1
    {
      var id := field.RemoveBarrier(x, y);
      removed := true;
    }
  }
}
