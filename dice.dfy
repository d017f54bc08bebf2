/**
 * The dice of the game (src/components/Dice/Dice.tsx): the value type, the
 * pip pattern drawn on each face, the value printed on each face of the cube
 * and the rotation that brings a value to the front.
 */
module Dice {

  /** `DiceValue = 1 | 2 | 3 | 4 | 5 | 6`. */
  type DiceValue = v: int | 1 <= v <= 6 witness 1

  datatype SideName = Front | Back | Right | Left | Top | Bottom

  datatype Axis = X | Y

  /** A face's rotation about the x and y axes, in degrees. */
  datatype Rotation = Rotation(x: int, y: int)

  /** The `SideValues` enum: which value each face of the cube shows. */
  function SideValue(side: SideName): DiceValue {
    match side
    case Front => 1
    case Back => 6
    case Right => 4
    case Left => 3
    case Top => 5
    case Bottom => 2
  }

  /** The face on the other side of the cube. */
  function Opposite(side: SideName): (o: SideName)
    ensures o != side
  {
    match side
    case Front => Back
    case Back => Front
    case Right => Left
    case Left => Right
    case Top => Bottom
    case Bottom => Top
  }

  /** Front/back, right/left and top/bottom pair up, and each pair adds up to seven. */
  lemma OppositeSidesSumToSeven(side: SideName)
    ensures Opposite(Opposite(side)) == side
    ensures SideValue(side) + SideValue(Opposite(side)) == 7
  {
  }

  /** No value is printed on two faces. */
  lemma SideValuesInjective()
    ensures forall a: SideName, b: SideName :: SideValue(a) == SideValue(b) ==> a == b
  {
  }

  /** The face printed with a given value: together with `SideValuesInjective`,
      every value 1..6 is on exactly one face. */
  function FaceShowing(value: DiceValue): (side: SideName)
    ensures SideValue(side) == value
  {
    match value
    case 1 => Front
    case 2 => Bottom
    case 3 => Left
    case 4 => Right
    case 5 => Top
    case 6 => Back
  }

  /** Number of dot cells (`'.'`) in a grid-areas string, from position `i` on. */
  function DotCount(g: string, i: nat := 0): nat
    decreases |g| - i
  {
    if i >= |g| then 0 else (if g[i] == '.' then 1 else 0) + DotCount(g, i + 1)
  }

  /** The 3x3 `grid-template-areas` string that `Side` uses for a value. */
  function GridAreas(value: DiceValue): (g: string)
    ensures |g| == 9
    ensures DotCount(g) == value
  {
    match value
    case 1 => "    .    "
    case 2 => " .     . "
    case 3 => " .  .  . "
    case 4 => ". .   . ."
    case 5 => ". . . . ."
    case 6 => ". .. .. ."
  }

  /** Number of `true` cells, from position `i` on. */
  function CountTrue(cells: seq<bool>, i: nat := 0): nat
    decreases |cells| - i
  {
    if i >= |cells| then 0 else (if cells[i] then 1 else 0) + CountTrue(cells, i + 1)
  }

  /** The rendered cells have a dot exactly where the grid string has one, so they count the same. */
  lemma {:induction false} CountTrueIsDotCount(g: string, i: nat := 0)
    ensures CountTrue(seq(|g|, j requires 0 <= j < |g| => g[j] == '.'), i) == DotCount(g, i)
    decreases |g| - i
  {
    if i < |g| {
      CountTrueIsDotCount(g, i + 1);
    }
  }

  /** The cells `Side` renders for a face: nine of them, `true` where a dot is drawn. */
  function Side(value: DiceValue): (cells: seq<bool>)
    ensures |cells| == 9
    ensures CountTrue(cells) == value
  {
    var g := GridAreas(value);
    CountTrueIsDotCount(g);
    seq(|g|, j requires 0 <= j < |g| => g[j] == '.')
  }

  /** `faceRotations`: the rotation that shows a value on the front face. */
  function FaceRotation(value: DiceValue): (r: Rotation)
    ensures r.x in {0, 90, 180, 270} && r.y in {0, 90, 180, 270}
  {
    match value
    case 1 => Rotation(0, 0)
    case 2 => Rotation(270, 0)
    case 3 => Rotation(0, 270)
    case 4 => Rotation(0, 90)
    case 5 => Rotation(90, 0)
    case 6 => Rotation(180, 0)
  }

  /** No two values share a rotation, so the value shown after rolling is determined. */
  lemma FaceRotationsDistinct(a: DiceValue, b: DiceValue)
    ensures FaceRotation(a) == FaceRotation(b) ==> a == b
  {
  }

  function Target(value: DiceValue, axis: Axis): (t: int)
    ensures 0 <= t < 360
  {
    match axis
    case X => FaceRotation(value).x
    case Y => FaceRotation(value).y
  }

  /**
   * `nextClosest`: the angle the cube turns to so that `value` faces front,
   * always moving forward from the current angle. The current angle is a
   * tween's rotation taken modulo 360, so it may be fractional.
   */
  function NextClosest(current: real, value: DiceValue, axis: Axis): (r: int)
    ensures r == Target(value, axis) || r == Target(value, axis) + 360
    ensures r % 360 == Target(value, axis)
    ensures -360.0 < current < 360.0 ==> current < r as real
    ensures 0.0 <= current < 360.0 ==> (r - 360) as real <= current
  {
    var target := Target(value, axis);
    if current < target as real then target else target + 360
  }
}
