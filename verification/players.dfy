/** The two sides of a game and the cell code each one writes on the board. */
module Players {

  datatype Player = Noughts | Crosses

  /** The marker a player leaves in a board cell; 0 is reserved for an empty cell. */
  function AsInt(p: Player): (marker: int)
    ensures 1 <= marker <= 2
  {
    match p
    case Noughts => 1
    case Crosses => 2
  }

  /** Distinct players leave distinct markers, so a cell tells whose it is. */
  lemma AsIntInjective(p: Player, q: Player)
    requires p != q
    ensures AsInt(p) != AsInt(q)
  {
  }
}
