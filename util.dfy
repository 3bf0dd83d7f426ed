/** The move-pruning helper and the two scoring tables. */
module Util {
  import opened Actions
  import opened Locations

  const EastSide: set<Action> := {NorthEast, East, SouthEast}
  const WestSide: set<Action> := {NorthWest, West, SouthWest}
  const NorthSide: set<Action> := {NorthWest, North, NorthEast}
  const SouthSide: set<Action> := {SouthWest, South, SouthEast}

  /** The actions that keep a location on the board: all eight, minus the
      west side in column 0 or the east side in column 3, minus the south side
      in row 0 or the north side in row 3. */
  function InitialActions(c: Cell): set<Action>
  {
    var actions := set a | a in AllActions;
    var actions := if c.x == 0 then actions - WestSide else if c.x == 3 then actions - EastSide else actions;
    if c.y == 0 then actions - SouthSide else if c.y == 3 then actions - NorthSide else actions
  }

  /** Column x allows a step exactly when the step does not leave the board sideways. */
  lemma ColumnStep(c: Cell, a: Action)
    requires InBounds(c)
    ensures 0 <= Step(c, a).x < Size <==> !(c.x == 0 && a in WestSide) && !(c.x == 3 && a in EastSide)
  {
    match a
    case North =>
    case NorthEast =>
    case East =>
    case SouthEast =>
    case South =>
    case SouthWest =>
    case West =>
    case NorthWest =>
  }

  /** Row y allows a step exactly when the step does not leave the board vertically. */
  lemma RowStep(c: Cell, a: Action)
    requires InBounds(c)
    ensures 0 <= Step(c, a).y < Size <==> !(c.y == 0 && a in SouthSide) && !(c.y == 3 && a in NorthSide)
  {
    match a
    case North =>
    case NorthEast =>
    case East =>
    case SouthEast =>
    case South =>
    case SouthWest =>
    case West =>
    case NorthWest =>
  }

  /** An action survives the pruning unless it leaves by a side the location touches. */
  lemma InitialActionsMembers(c: Cell, a: Action)
    ensures a in InitialActions(c) <==>
      !(c.x == 0 && a in WestSide) && !(c.x == 3 && a in EastSide) && !(c.y == 0 && a in SouthSide) && !(c.y == 3 && a in NorthSide)
  {
    var all := set b | b in AllActions;
    assert a in all by {
      AllActionsEnumerates(a);
    }
  }

  /** The pruned set is exactly the set of actions whose target stays on the board. */
  lemma InitialActionsExact(c: Cell, a: Action)
    requires InBounds(c)
    ensures a in InitialActions(c) <==> InBounds(Step(c, a))
  {
    InitialActionsMembers(c, a);
    ColumnStep(c, a);
    RowStep(c, a);
  }

  /** The length bonus of a word of the given length. The source writes the
      cases 8, 7 and 5/6 as a fall-through that adds 5 once per case passed. */
  function LengthBonus(wordLen: int): (r: int)
    ensures wordLen == 1 || wordLen == 2 ==> r == 1
    ensures wordLen == 3 || wordLen == 4 ==> r == 0
    ensures wordLen == 5 || wordLen == 6 ==> r == 5
    ensures wordLen == 7 ==> r == 10
    ensures wordLen == 8 ==> r == 15
    ensures wordLen < 1 || wordLen > 8 ==> r == 0
  {
    match wordLen
    case 1 | 2 => 1
    case 3 | 4 => 0
    case 8 => 5 + 5 + 5
    case 7 => 5 + 5
    case 5 | 6 => 5
    case _ => 0
  }

  /** The value of one letter: every lower-case letter is worth between 1 and 10, anything else 0. */
  function LetterValue(c: char): (r: int)
    ensures 0 <= r <= 10
    ensures r > 0 <==> 'a' <= c <= 'z'
    ensures r == 10 <==> c in "qjxz"
  {
    match c
    case 'a' | 'e' | 'i' | 'n' | 'o' | 'r' | 's' | 't' => 1
    case 'd' | 'u' | 'l' => 2
    case 'g' | 'h' | 'y' => 3
    case 'b' | 'c' | 'f' | 'm' | 'p' | 'w' => 4
    case 'v' | 'k' => 5
    case 'q' | 'j' | 'x' | 'z' => 10
    case _ => 0
  }
}
