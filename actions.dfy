/** The eight compass directions a path can take, with their coordinate
    deltas and the complement (opposite) of each direction. */
module Actions {

  /** The directions, in the declaration order of the source enum. */
  datatype Action =
    | North | NorthEast | East | SouthEast | South | SouthWest | West | NorthWest

  /** Every action in ordinal order: the order in which an enum set is iterated. */
  const AllActions: seq<Action> :=
    [North, NorthEast, East, SouthEast, South, SouthWest, West, NorthWest]

  /** The x delta of an action (east is +1). */
  function DeltaX(a: Action): (d: int)
    ensures -1 <= d <= 1
  {
    match a
    case North => 0
    case NorthEast => 1
    case East => 1
    case SouthEast => 1
    case South => 0
    case SouthWest => -1
    case West => -1
    case NorthWest => -1
  }

  /** The y delta of an action (north is +1). */
  function DeltaY(a: Action): (d: int)
    ensures -1 <= d <= 1
  {
    match a
    case North => 1
    case NorthEast => 1
    case East => 0
    case SouthEast => -1
    case South => -1
    case SouthWest => -1
    case West => 0
    case NorthWest => 1
  }

  /** The opposite direction. The source fills in the first four pairs and
      then mirrors every entry; the result is this total map. */
  function Complement(a: Action): (c: Action)
    ensures DeltaX(c) == -DeltaX(a) && DeltaY(c) == -DeltaY(a)
  {
    match a
    case North => South
    case NorthEast => SouthWest
    case East => West
    case SouthEast => NorthWest
    case South => North
    case SouthWest => NorthEast
    case West => East
    case NorthWest => SouthEast
  }

  /** Complement is an involution. */
  lemma ComplementInvolution(a: Action)
    ensures Complement(Complement(a)) == a
  {
  }

  /** No action stands still, and distinct actions have distinct deltas. */
  lemma DeltaInjective(a: Action, b: Action)
    ensures DeltaX(a) != 0 || DeltaY(a) != 0
    ensures DeltaX(a) == DeltaX(b) && DeltaY(a) == DeltaY(b) ==> a == b
  {
  }

  /** Every action occurs in AllActions exactly once. */
  lemma AllActionsEnumerates(a: Action)
    ensures a in AllActions
    ensures forall i, j :: 0 <= i < j < |AllActions| ==> AllActions[i] != AllActions[j]
  {
  }
}
