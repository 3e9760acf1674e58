/**
 * The robot: a position, a facing, a raw angle accumulator and a pending step.
 * Commands lower the angle by 90 or 180 degrees; the angle is sorted into a facing through
 * literal lists of congruent values, and the facing gives the offset of the next step.
 */
module Robots {
  import opened Wrappers
  import opened Grid

  datatype Orientation = Up | Down | Left | Right

  /** The commands that reach the robot; QUIT is handled before the robot sees it. */
  datatype Command = Move(dir: Orientation) | Rotate90 | Rotate180

  /** One entry of the robot's trace: a pure turn, or a step from one cell to another. */
  datatype Event =
    | Turned(facing: Orientation)
    | Arrived(facing: Orientation, toX: int, toY: int, fromX: int, fromY: int)

  // The raw angles each facing is recognised by.
  const UP_ANGLES: seq<int> := [-630, -270, 90, 450]
  const DOWN_ANGLES: seq<int> := [-90, -450, 270, 630]
  const RIGHT_ANGLES: seq<int> := [-720, -360, 0, 360, 720]
  const LEFT_ANGLES: seq<int> := [-540, -180, 180, 540]

  /** The facing an angle is sorted into, testing LEFT, RIGHT, UP, DOWN in that order; None if unlisted. */
  function FacingOf(angle: int): Option<Orientation>
  {
    if angle in LEFT_ANGLES then Some(Left)
    else if angle in RIGHT_ANGLES then Some(Right)
    else if angle in UP_ANGLES then Some(Up)
    else if angle in DOWN_ANGLES then Some(Down)
    else None
  }

  /** The angle, mod 360, that stands for a facing. */
  function Residue(o: Orientation): int
  {
    match o
    case Right => 0
    case Up => 90
    case Left => 180
    case Down => 270
  }

  function Glyph(o: Orientation): char
  {
    match o
    case Up => '^'
    case Down => 'v'
    case Left => '<'
    case Right => '>'
  }

  /** The (dy, dx) offset of a step of length `s` in facing `o`: rows grow downwards. */
  function Offset(o: Orientation, s: int): (int, int)
  {
    match o
    case Up => (-s, 0)
    case Down => (s, 0)
    case Left => (0, -s)
    case Right => (0, s)
  }

  /** The facing one quarter turn clockwise from `o`. */
  function Clockwise(o: Orientation): Orientation
  {
    match o
    case Up => Right
    case Right => Down
    case Down => Left
    case Left => Up
  }

  /** The angle after `check_angle`: 360 taken off once or added once. */
  function Folded(angle: int): (r: int)
    ensures r % 360 == angle % 360
    ensures r % 90 == angle % 90
    ensures -720 < angle < 720 ==> -360 < r < 360
  {
    if angle >= 360 then angle - 360
    else if angle <= -360 then angle + 360
    else angle
  }

  /** How far a command lowers the angle. */
  function TurnAmount(c: Command): int
  {
    if c == Rotate180 then 180 else 90
  }

  /** The angle after `handling_command`. */
  function AfterCommand(angle: int, c: Command): int
  {
    Folded(angle - TurnAmount(c))
  }

  /** The angle after `k` quarter turns, each folded as `handling_command` does. */
  function QuarterTurns(angle: int, k: nat): int
  {
    if k == 0 then angle else Folded(QuarterTurns(angle, k - 1) - 90)
  }

  /** The angles the robot's accumulator can hold between commands. */
  predicate ValidAngle(angle: int)
  {
    angle % 90 == 0 && -360 < angle < 360
  }

  /** The trace entry `print_state` writes for an offset. */
  function StateEvent(o: Orientation, x: int, y: int, offX: int, offY: int): Event
  {
    if offX == 0 && offY == 0 then Turned(o) else Arrived(o, x + offX, y + offY, x, y)
  }

  // ---------------------------------------------------------------------------------------------
  // The literal lists are the mod-360 congruence classes of the multiples of 90 in [-720, 720].

  /** An angle is listed exactly when it is a multiple of 90 in [-720, 720], and then its facing's residue is its own. */
  lemma FacingIsCongruenceClass(angle: int)
    ensures FacingOf(angle).Some? <==> -720 <= angle <= 720 && angle % 90 == 0
    ensures FacingOf(angle).Some? ==> angle % 360 == Residue(FacingOf(angle).value)
  {
    if -720 <= angle <= 720 && angle % 90 == 0 {
      var q := angle / 90;
      assert angle == 90 * q;
      assert -8 <= q <= 8;
    }
  }

  /** Two listed angles with the same residue mod 360 have the same facing. */
  lemma FacingByResidue(a: int, b: int)
    requires FacingOf(a).Some? && -720 <= b <= 720 && b % 360 == a % 360
    ensures FacingOf(b) == FacingOf(a)
  {
    FacingIsCongruenceClass(a);
    assert b == 360 * (b / 360) + a % 360 && a == 360 * (a / 360) + a % 360;
    assert b % 90 == 0;
    FacingIsCongruenceClass(b);
    var o, o' := FacingOf(a).value, FacingOf(b).value;
    assert Residue(o) == Residue(o');
  }

  /** Every command keeps the angle valid; the facing read before the fold is the facing of the folded angle. */
  lemma CommandKeepsAngleValid(angle: int, c: Command)
    requires ValidAngle(angle)
    ensures FacingOf(angle - TurnAmount(c)).Some?
    ensures ValidAngle(AfterCommand(angle, c))
    ensures FacingOf(AfterCommand(angle, c)) == FacingOf(angle - TurnAmount(c))
  {
    var raw := angle - TurnAmount(c);
    FacingIsCongruenceClass(raw);
    FacingByResidue(raw, Folded(raw));
  }

  /** A quarter turn moves the facing one step clockwise: UP, RIGHT, DOWN, LEFT, UP. */
  lemma QuarterTurnIsClockwise(angle: int, o: Orientation)
    requires ValidAngle(angle) && FacingOf(angle) == Some(o)
    ensures FacingOf(angle - 90) == Some(Clockwise(o))
  {
    FacingIsCongruenceClass(angle);
    FacingIsCongruenceClass(angle - 90);
    var o' := FacingOf(angle - 90).value;
    assert Residue(o') == (Residue(o) - 90) % 360;
  }

  /** A half turn always changes the facing, to the opposite one. */
  lemma HalfTurnChangesFacing(angle: int, o: Orientation)
    requires ValidAngle(angle) && FacingOf(angle) == Some(o)
    ensures FacingOf(angle - 180) == Some(Clockwise(Clockwise(o)))
    ensures FacingOf(angle - 180) != Some(o)
  {
    FacingIsCongruenceClass(angle);
    FacingIsCongruenceClass(angle - 180);
    var o' := FacingOf(angle - 180).value;
    assert Residue(o') == (Residue(o) - 180) % 360;
  }

  /** The facing `k` quarter turns clockwise from `o`. */
  function ClockwiseN(o: Orientation, k: nat): Orientation
  {
    if k == 0 then o else Clockwise(ClockwiseN(o, k - 1))
  }

  /** k quarter turns from a valid angle give a valid angle whose facing is k steps clockwise. */
  lemma {:induction false} QuarterTurnsValid(angle: int, o: Orientation, k: nat)
    requires ValidAngle(angle) && FacingOf(angle) == Some(o)
    ensures ValidAngle(QuarterTurns(angle, k))
    ensures FacingOf(QuarterTurns(angle, k)) == Some(ClockwiseN(o, k))
  {
    if k > 0 {
      var prev := QuarterTurns(angle, k - 1);
      QuarterTurnsValid(angle, o, k - 1);
      CommandKeepsAngleValid(prev, Rotate90);
      QuarterTurnIsClockwise(prev, ClockwiseN(o, k - 1));
    }
  }

  /** Four ROTATE90 commands give back the facing and an angle congruent to the original. */
  lemma FourQuarterTurnsRestore(angle: int, o: Orientation)
    requires ValidAngle(angle) && FacingOf(angle) == Some(o)
    ensures FacingOf(QuarterTurns(angle, 4)) == Some(o)
    ensures QuarterTurns(angle, 4) % 360 == angle % 360
  {
    QuarterTurnsValid(angle, o, 4);
    FacingIsCongruenceClass(angle);
    FacingIsCongruenceClass(QuarterTurns(angle, 4));
  }

  class Robot {
    var view: char
    var orientation: Orientation
    var cy: int
    var cx: int
    var angle: int
    var step: int
    var trace: seq<Event>

    /** Between commands the angle is valid, the facing and glyph match it, and the step is 0 or 1. */
    ghost predicate Valid()
      reads this
    {
      ValidAngle(angle) && FacingOf(angle) == Some(orientation) && view == Glyph(orientation) &&
      (step == 0 || step == 1)
    }

    constructor (centerX: int, centerY: int)
      ensures Valid()
      ensures cx == centerX && cy == centerY
      ensures orientation == Up && view == '^' && angle == 90 && step == 1 && trace == []
    {
      cx := centerX;
      cy := centerY;
      orientation := Up;
      view := '^';
      angle := 90;
      step := 1;
      trace := [];
    }

    method Turn90()
      modifies this`angle
      ensures angle == old(angle) - 90
    {
      angle := angle - 90;
    }

    method Turn180()
      modifies this`angle
      ensures angle == old(angle) - 180
    {
      angle := angle - 180;
    }

    method CheckAngle()
      modifies this`angle
      ensures angle == Folded(old(angle))
    {
      if angle >= 360 {
        angle := angle - 360;
      } else if angle <= -360 {
        angle := angle + 360;
      }
    }

    /**
     * Sorts the angle into a facing and returns the (dy, dx) offset of a step in it. With
     * `rotation` set the step is first reset to 0, so the offset is (0, 0). An unlisted angle
     * leaves facing and glyph alone and gives (0, 0).
     */
    method UpdateOrientation(rotation: bool) returns (dy: int, dx: int)
      modifies this`orientation, this`view, this`step
      ensures step == if rotation then 0 else old(step)
      ensures FacingOf(angle).Some? ==>
        orientation == FacingOf(angle).value && view == Glyph(orientation) && (dy, dx) == Offset(orientation, step)
      ensures FacingOf(angle).None? ==>
        orientation == old(orientation) && view == old(view) && dy == 0 && dx == 0
    {
      if rotation {
        step := 0;
      }
      if angle in LEFT_ANGLES {
        orientation, view := Left, '<';
        return 0, -step;
      } else if angle in RIGHT_ANGLES {
        orientation, view := Right, '>';
        return 0, step;
      } else if angle in UP_ANGLES {
        orientation, view := Up, '^';
        return -step, 0;
      } else if angle in DOWN_ANGLES {
        orientation, view := Down, 'v';
        return step, 0;
      }
      return 0, 0;
    }

    /**
     * ROTATE90 and ROTATE180 turn without a pending step; any other command turns a quarter and
     * keeps the step. The facing is read before the angle is folded.
     */
    method HandlingCommand(command: Command)
      requires Valid()
      modifies this`angle, this`orientation, this`view, this`step
      ensures Valid()
      ensures angle == AfterCommand(old(angle), command)
      ensures FacingOf(old(angle) - TurnAmount(command)) == Some(orientation)
      ensures step == if command.Move? then old(step) else 0
    {
      CommandKeepsAngleValid(angle, command);
      if command == Rotate90 {
        Turn90();
        var _, _ := UpdateOrientation(true);
      } else if command == Rotate180 {
        Turn180();
        var _, _ := UpdateOrientation(true);
      } else {
        Turn90();
        var _, _ := UpdateOrientation(false);
      }
      CheckAngle();
    }

    /** Moves one coordinate by `step` in the facing (UP lowers cy, LEFT lowers cx), then resets the step to 1. */
    method StepForward()
      modifies this`cx, this`cy, this`step
      ensures cy == old(cy) + Offset(orientation, old(step)).0
      ensures cx == old(cx) + Offset(orientation, old(step)).1
      ensures step == 1
    {
      match orientation {
        case Up => cy := cy - step;
        case Down => cy := cy + step;
        case Left => cx := cx - step;
        case Right => cx := cx + step;
      }
      step := 1;
    }

    /**
     * Whether the move by (offX, offY) would hit something: never for a zero offset; otherwise
     * exactly when the destination is off the field or holds a barrier.
     */
    function CheckCollisions(field: Cells, offX: int, offY: int): (hit: bool)
      reads this
      ensures hit <==> (offX != 0 || offY != 0) && Obstructed(field, cx + offX, cy + offY)
    {
      if offX == 0 && offY == 0 then false
      else if cy + offY < 0 then true
      else if cx + offX < 0 then true
      else if cy + offY >= |field| || cx + offX >= |field[cy + offY]| then true  // IndexError
      else field[cy + offY][cx + offX] > 0
    }

    /** Appends one entry to the trace: a turn for a zero offset, else the step about to be taken. */
    method PrintState(offX: int, offY: int)
      modifies this`trace
      ensures trace == old(trace) + [StateEvent(orientation, cx, cy, offX, offY)]
    {
      trace := trace + [StateEvent(orientation, cx, cy, offX, offY)];
    }
  }
}
