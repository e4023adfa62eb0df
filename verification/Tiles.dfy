/** The tile grid of the array: columns grow to the east, rows to the north, and row 0 is the shim. */
module Tiles {

  datatype Dir = North | South | East | West

  datatype Tile = Tile(col: int, row: int)

  function Opposite(d: Dir): Dir {
    match d
    case North => South
    case South => North
    case East => West
    case West => East
  }

  /** The tile `n` steps away in direction `d`. */
  function Step(t: Tile, d: Dir, n: int): Tile {
    match d
    case North => Tile(t.col, t.row + n)
    case South => Tile(t.col, t.row - n)
    case East => Tile(t.col + n, t.row)
    case West => Tile(t.col - n, t.row)
  }

  /** Going the opposite way leads back, from any distance; only the opposite way does. */
  lemma StepBack(t: Tile, d: Dir, n: int, e: Dir)
    ensures Opposite(Opposite(d)) == d
    ensures Step(Step(t, d, n), e, n) == t <==> n == 0 || e == Opposite(d)
  {
  }

  /** Steps add up; rows grow to the north and columns to the east. */
  lemma StepsAdd(t: Tile, d: Dir, m: int, n: int)
    ensures Step(Step(t, d, m), d, n) == Step(t, d, m + n)
    ensures Step(t, North, 1) == t.(row := t.row + 1) && Step(t, East, 1) == t.(col := t.col + 1)
  {
  }

  /** Different ways out of a tile lead to different tiles. */
  lemma WaysDiffer(t: Tile, d: Dir, m: int, e: Dir, n: int)
    requires m >= 1 && n >= 1 && Step(t, d, m) == Step(t, e, n)
    ensures d == e && m == n
  {
  }
}
