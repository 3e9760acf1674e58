# Robot simulator — a Dafny model

This project models the core of a console robot simulator. A rectangular field holds square barriers.
Each barrier is a block of cells carrying the barrier's positive id; 0 means empty. A robot stands on
the field with a facing and an accumulated angle, and it obeys the commands `UP`, `DOWN`, `LEFT`,
`RIGHT`, `ROTATE90` and `ROTATE180`. The modules are:

- `Grid` (grid.dfy): the occupancy matrix both map classes own, as a value. It defines:
  - the collision predicates of a rectangle scan and of a robot step;
  - stamping a square and clearing an id;
  - the first free candidate among a sequence of random draws;
  - the count of barrier cells.
- `Robots` (robot.dfy): the `Robot` class of robot.py. Its fields are the ones the source updates in
  place: glyph, facing, coordinates, angle, step and trace. It sits beside the pure rules that classify an
  angle into a facing through the four literal angle lists.
- `FieldMap` (field_map.dfy): the `Map` class of src/map.py. It validates its dimensions, counts
  barriers, and retries draws until one is free.
- `LegacyMap` (legacy_map.dfy): the older `Map` of the repository root (map.py). It takes the counter
  from its caller, does no validation, and retries by recursion.
- `Simulator` (simulator.dfy): the three core functions of main.py:
  - the clamped view rectangle;
  - executing one command;
  - setting up a field with barriers ids 1..count and a free spawn cell.
- `Wrappers` (wrappers.dfy): `Option` and `Result`.

Randomness is a parameter. Every `randint` triple that `generate_barrier` would draw is handed in as
a `Draw(x, y, side)` inside a `seq<Draw>`. A precondition says each draw lies in the range `randint`
can produce: a corner on the map and a side in `[1, ceil(min(width, height) / 3)]`.

Printing is a value. What `print_state` appends to the trace is an `Event`:
- `Turned(facing)` for a zero offset;
- `Arrived(facing, to, from)` for a step.

The console messages of a collision are not modelled.

The model follows the code, including these behaviours a reader might not expect:
- the view rectangle's upper edges may equal the width or height;
- the barrier count handed to `prepare_field` is not clamped to `width * height`;
- `remove_barrier` returns the removed id, not a number of cells;
- `remove_barrier` in src/map.py lowers the counter even when the cell already held 0;
- a blocked move is not logged in the trace; only a console message reports it.

## Model

| member | source | states |
|---|---|---|
| Grid.Zeroes | src/map.py:29-30 | the new matrix has `range(height)` rows of `range(width)` cells, all 0 |
| Grid.PaintSquare | src/map.py:116-118 | the nested stamping loops leave exactly `Stamp(m, x, y, side, colour)`: the square set to the id, every other cell unchanged |
| Grid.FirstFree | src/map.py:109-114 | the retry loop stops at the first draw whose square does not collide; every earlier draw collides |
| Grid.ObstructedIsUnitRegion | robot.py:173-188 | the robot's destination test agrees with the map's 1 x 1 rectangle scan at a non-negative cell |
| Grid.FreeSquareFits | src/map.py:113 | a square that passes the collision scan lies inside the grid and covers no barrier cell |
| Grid.StampKeepsBarriers | src/map.py:116-118 | stamping a square that passed the scan changes no barrier cell: barriers never overlap |
| Grid.ClearUndoesStamp | src/map.py:129-133 | removing a fresh id right after stamping it on a free square gives back the original matrix |
| Grid.ZeroesHaveNoBarriers | src/map.py:29-30 | a fresh map of zeros holds no barrier cell |
| Grid.PositiveBound | src/map.py:29-30 | a height x width matrix has at most height * width barrier cells |
| Grid.PositiveGrows | src/map.py:116-118 | keeping every barrier cell never lowers the barrier-cell count, and turning an empty cell into a barrier raises it |
| Grid.StampAddsBarrierCells | src/map.py:115-118 | stamping a positive id on a free square adds at least one barrier cell |
| Robots.Folded | robot.py:93-96 | the fold keeps the angle mod 360 and mod 90, and brings any angle of (-720, 720) into (-360, 360) |
| Robots.FacingIsCongruenceClass | robot.py:47-52 | an angle is in one of the four lists exactly when it is a multiple of 90 in [-720, 720], and then its facing has its residue mod 360 |
| Robots.FacingByResidue | robot.py:47-52 | two listed angles with the same residue mod 360 are sorted into the same facing |
| Robots.CommandKeepsAngleValid | robot.py:106-115 | from a valid angle, every command yields a valid folded angle whose facing is the one read before the fold |
| Robots.QuarterTurnIsClockwise | robot.py:112-114 | a quarter turn (angle - 90) moves the facing one step clockwise |
| Robots.HalfTurnChangesFacing | robot.py:109-111 | a half turn moves the facing two steps clockwise, so it always changes |
| Robots.QuarterTurnsValid | robot.py:112-115 | k turn-and-fold steps keep the angle valid and turn the facing k steps clockwise |
| Robots.FourQuarterTurnsRestore | robot.py:112-115 | four quarter turns restore the facing and the angle mod 360 |
| Robots.Robot.constructor | robot.py:43-55 | a new robot stands at (center_x, center_y), faces UP with glyph `^`, angle 90, step 1, empty trace |
| Robots.Robot.Turn90 | robot.py:80 | the angle drops by 90, nothing else changes |
| Robots.Robot.Turn180 | robot.py:85 | the angle drops by 180, nothing else changes |
| Robots.Robot.CheckAngle | robot.py:93-96 | the angle becomes its fold: minus 360 at or above 360, plus 360 at or below -360 |
| Robots.Robot.UpdateOrientation | robot.py:143-161 | a rotation resets the step to 0; a listed angle sets facing and glyph and returns the (dy, dx) step in that facing; an unlisted angle leaves both and returns (0, 0) |
| Robots.Robot.HandlingCommand | robot.py:106-115 | the robot stays valid; the angle becomes the folded turn; the facing is that of the unfolded angle; a rotation zeroes the step |
| Robots.Robot.StepForward | robot.py:120-128 | one coordinate moves by the step in the facing (UP lowers y, LEFT lowers x); the step becomes 1 |
| Robots.Robot.CheckCollisions | robot.py:173-188 | a hit exactly when the offset is nonzero and the destination is off the field on any side or holds a barrier |
| Robots.Robot.PrintState | robot.py:199-207 | the trace grows by one entry: a turn for a zero offset, else the arrival with its destination and origin |
| FieldMap.CheckDimensions | src/map.py:37-51 | the error is `WidthNotPositive` exactly when width <= 0, `HeightNotPositive` exactly when width > 0 and height <= 0, none exactly when both are positive |
| FieldMap.GenerateStampsFreeSquare | src/map.py:105-118 | a placed barrier is the last draw consumed: its side is in range, it lies in bounds, it was free, it keeps every barrier cell and is stamped with the id; otherwise nothing changes |
| FieldMap.GenerateOnFullIsNoOp | src/map.py:105-106 | on a full map, generating changes nothing and consumes no draw |
| FieldMap.NotFullHasFreeDraw | src/map.py:105-114 | a map that is not full always has a candidate `randint` can draw that does not collide: the 1 x 1 square on an empty cell |
| FieldMap.GenerateKeepsNonNegative | src/map.py:116-118 | with a non-negative id, generation keeps every cell at 0 or a barrier id |
| FieldMap.Map.constructor | src/map.py:27-31 | accepted dimensions give a map of zeros with no barrier counted |
| FieldMap.Map.Create | src/map.py:27-51 | a ValueError exactly when a dimension is not positive, with the width's error first; otherwise a fresh valid map of zeros with counter 0 |
| FieldMap.Map.CheckCollisions | src/map.py:65-72 | true exactly when some cell of the w x h rectangle lies past the last row or column or holds a barrier |
| FieldMap.Map.FreePoint | src/map.py:83 | true exactly when the cell is 0 |
| FieldMap.Map.IsFull | src/map.py:92-96 | true exactly when no cell of the map is 0 |
| FieldMap.Map.GenerateBarrier | src/map.py:105-118 | the new cells, the draws consumed and the counter's rise are those of `Generate`: nothing on a full map; otherwise the first free draw is stamped and counted |
| FieldMap.Map.RemoveBarrier | src/map.py:129-135 | returns the id at (x, y); every cell with it becomes 0; the counter drops by one |
| LegacyMap.RetryStampsFirstFree | map.py:92-103 | the recursive retry stamps only the first free draw, which is in range, in bounds and keeps every barrier cell; with no free draw nothing changes |
| LegacyMap.Map.constructor | map.py:30-34 | a matrix of `range(height)` rows of `range(width)` zeros, with the counter set to the given count |
| LegacyMap.Map.CheckCollisions | map.py:62-70 | true exactly when some cell of the w x h rectangle lies past the last row or column or holds a barrier |
| LegacyMap.Map.FreePoint | map.py:81 | true exactly when the cell is 0 |
| LegacyMap.Map.GenerateBarrier | map.py:92-103 | the cells become `StampFirstFree`: the first free draw stamped with the id, or unchanged when all draws collide; the counter is untouched |
| LegacyMap.Map.RemoveBarrier | map.py:114-119 | returns the id at (x, y) and turns every cell with it into 0, without a counter |
| Simulator.ViewZone | main.py:35-47 | each edge is shrunk just enough to land in [0, width] or [0, height], and the rectangle contains the robot |
| Simulator.ViewZoneExamples | tests.py:39-49 | on a 7 x 7 field with margins 3: (0, 6, 0, 6) at the centre and (0, 3, 0, 3) at the corner |
| Simulator.CalculateViewzone | main.py:35-47 | the four shrinking loops return `ViewZone` of the field, the robot and the margins |
| Simulator.Turns | main.py:116-122 | at most three clockwise quarter turns lead from the facing to the commanded direction, and no smaller number of turns does |
| Simulator.TurnTrace | main.py:118-119 | the turning loop logs one entry per quarter turn |
| Simulator.TurnOnce | main.py:117-121 | one loop pass: a direction turns a quarter clockwise and logs it; a rotation turns, zeroes the step and logs nothing |
| Simulator.TurnUntilFacing | main.py:115-122 | a direction ends facing the command after `Turns` quarter turns, each logged; a rotation leaves after one pass |
| Simulator.StepUnlessBlocked | main.py:123-126 | the step in the facing is taken and logged unless it leaves the field or enters a barrier; the step becomes 1 |
| Simulator.MoveRobot | main.py:115-127 | a direction ends facing the command after the logged turns, one cell further unless blocked; a rotation keeps position and logs the new facing; ROTATE180 always changes the facing |
| Simulator.GenerateAll | main.py:166-167 | `generate_barrier` called with ids 1..n in order, each call on the draws the last one left |
| Simulator.GenerateCountsBarrierCells | src/map.py:105-118 | one generation with a positive id keeps shape and barrier cells, and a placed barrier adds at least one barrier cell |
| Simulator.GenerateAllCountsBarrierCells | main.py:166-167 | the barriers placed are at most the barrier cells gained; the shape and earlier barrier cells survive |
| Simulator.GenerateAllKeepsNonNegative | main.py:166-167 | the ids 1..n are positive, so every cell stays 0 or a barrier id |
| Simulator.PlacedBound | tests.py:13-16 | the barriers placed plus the barrier cells already there never exceed width * height |
| Simulator.PlaceNext | main.py:167 | one call of `generate_barrier` inside the loop, on the draws left over, advances the tally by one `GenerateNext` step |
| Simulator.PlaceBarriers | main.py:166-167 | the loop leaves the cells and the counter of `GenerateAll` with ids 1..count |
| Simulator.ClearSpawn | main.py:168-169 | the spawn cell ends free; at most one barrier, the one covering it, is removed and counted off |
| Simulator.BarriersCountExample | tests.py:13-16 | 30 barriers asked for on a fresh 5 x 5 map leave at most 25 counted and the spawn cell (2, 2) free |
| Simulator.PrepareField | main.py:166-169 | the field is `GenerateAll` with the spawn's barrier cleared; the counter equals the barriers placed minus the one removed; the spawn cell is free; the counter rises by at most width * height minus the barrier cells already there; a matrix of 0s and barrier ids keeps that form |

## Left out

- Console I/O, rendering (`draw`, `update_picture`, `color_picture` and the `COLORS` table), command reading, input validation and the JSON export of the trace are not modelled. They are outside the core.
- The text of trace entries is not modelled. `print_state` appends an `Event` value, and the console printing of messages is dropped.
- The border-or-barrier wording of a blocked move is not modelled. It is only printed; `check_collisions` returns a plain boolean in both cases.
- Randomness is replaced by a sequence of draws. An exhausted sequence stands in for Python's retry behaviour, as follows.
- FieldMap.Map.GenerateBarrier: the source retries without bound; the model gives up when the draws run out. On a map that is not full the source's retry ends once a free draw comes up, and `FieldMap.NotFullHasFreeDraw` shows one always exists, so running out of draws is the only gap. The method also returns the number of draws consumed, which the source does not.
- LegacyMap.Map.GenerateBarrier: the depth at which Python raises RecursionError is the number of draws handed in. The method requires a positive width and height, because `randint(0, width - 1)` raises ValueError otherwise and the source does not catch it.
- Coordinates passed to the map methods are natural numbers, and `free_point` and `remove_barrier` require the cell to lie inside the grid. Python's negative indexing, which would wrap a negative `x` or `y`, and the IndexError past the last row or column are not modelled. The source calls them only with `randint` results or the robot's spawn cell.
- The getters (`get_x`, `get_map` and the others) are not modelled. The model reads the fields directly.
- The matrix is a `seq<seq<int>>` field that the loops reassign. The aliasing between `field.map` and a caller's reference to it is not captured.
- `prepare_field` is modelled over the map of src/map.py. main.py imports the root map.py, but it calls `Map(x, y)` with two arguments and its tests read `barriers_count` after removals, which matches src/map.py.
- The robot's own glyph on the field picture is not modelled. It belongs to rendering.
