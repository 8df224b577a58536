/** `com.github.aughtone.geohash.Direction`: the copy of the direction enum kept
    in the legacy package. It is a separate type with the same constants. */
module LegacyDirections {
  import Directions

  datatype Direction = BOTTOM | TOP | LEFT | RIGHT

  predicate IsVertical(d: Direction)
  {
    d == BOTTOM || d == TOP
  }

  /** `Direction.opposite()` of the legacy package. */
  function Opposite(d: Direction): (r: Direction)
    ensures r != d
    ensures IsVertical(r) == IsVertical(d)
  {
    match d
    case BOTTOM => TOP
    case TOP => BOTTOM
    case LEFT => RIGHT
    case RIGHT => LEFT
  }

  lemma OppositeTable()
    ensures Opposite(BOTTOM) == TOP && Opposite(TOP) == BOTTOM
    ensures Opposite(LEFT) == RIGHT && Opposite(RIGHT) == LEFT
  {
  }

  lemma OppositeInvolution(d: Direction)
    ensures Opposite(Opposite(d)) == d
  {
  }

  /** The constant of the current package with the same name. */
  function ToCurrent(d: Direction): Directions.Direction
  {
    match d
    case BOTTOM => Directions.BOTTOM
    case TOP => Directions.TOP
    case LEFT => Directions.LEFT
    case RIGHT => Directions.RIGHT
  }

  /** Both packages' `opposite` agree constant by constant. */
  lemma OppositeAgrees(d: Direction)
    ensures ToCurrent(Opposite(d)) == Directions.Opposite(ToCurrent(d))
  {
  }
}
