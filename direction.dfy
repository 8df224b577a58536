/** `io.github.aughtone.geohash.Direction`: the four compass directions of a
    WGS84 projection (top = north, bottom = south, left = west, right = east). */
module Directions {

  datatype Direction = BOTTOM | TOP | LEFT | RIGHT

  /** TOP and BOTTOM move along a meridian; LEFT and RIGHT along a parallel. */
  predicate IsVertical(d: Direction)
  {
    d == BOTTOM || d == TOP
  }

  /** `Direction.opposite()`. The two postconditions pin the result down: of the
      four directions exactly one differs from `d` and shares its axis. */
  function Opposite(d: Direction): (r: Direction)
    ensures r != d
    ensures IsVertical(r) == IsVertical(d)
  {
    match d
    case BOTTOM => TOP
    case TOP => BOTTOM
    case LEFT => RIGHT
    case RIGHT => LEFT
  }

  /** The table of `opposite`, entry by entry. */
  lemma OppositeTable()
    ensures Opposite(BOTTOM) == TOP && Opposite(TOP) == BOTTOM
    ensures Opposite(LEFT) == RIGHT && Opposite(RIGHT) == LEFT
  {
  }

  /** Taking the opposite twice gives the direction back. */
  lemma OppositeInvolution(d: Direction)
    ensures Opposite(Opposite(d)) == d
  {
  }
}
