/** Tiles, their bonus kinds and the immutable 4x4 board. */
module Boards {
  import opened Actions
  import opened Locations

  /** The bonus a tile may carry. */
  datatype Bonus = NoBonus | DoubleLetter | DoubleWord | TripleLetter | TripleWord

  predicate IsWordBonus(b: Bonus)
  {
    b == DoubleWord || b == TripleWord
  }

  /** How much a bonus multiplies the value of its own tile's letter. */
  function LetterFactor(b: Bonus): nat
  {
    if b == DoubleLetter then 2 else if b == TripleLetter then 3 else 1
  }

  /** How much a bonus multiplies the score of the whole word. */
  function WordFactor(b: Bonus): nat
  {
    if b == DoubleWord then 2 else if b == TripleWord then 3 else 1
  }

  /** Per-kind letter scoring: only the letter bonuses change a letter's value. */
  function ApplyLetterScore(b: Bonus, score: int): (r: int)
    ensures r == LetterFactor(b) * score
    ensures IsWordBonus(b) ==> r == score
  {
    match b
    case NoBonus => score
    case DoubleLetter => score * 2
    case DoubleWord => score
    case TripleLetter => score * 3
    case TripleWord => score
  }

  /** Per-kind word scoring: only the word bonuses change a word's score. */
  function ApplyWordScore(b: Bonus, score: int): (r: int)
    ensures r == WordFactor(b) * score
    ensures !IsWordBonus(b) ==> r == score
  {
    match b
    case NoBonus => score
    case DoubleLetter => score
    case DoubleWord => score * 2
    case TripleLetter => score
    case TripleWord => score * 3
  }

  datatype Tile = Tile(letter: char, bonus: Bonus)

  /** The board: Size rows of Size tiles, indexed [row][column], never changed after it is built. */
  type Board = b: seq<seq<Tile>> | |b| == Size && forall i :: 0 <= i < |b| ==> |b[i]| == Size
    witness seq(4, _ => seq(4, _ => Tile('a', NoBonus)))

  /** The tile at a cell: row y, column x. */
  function TileAt(b: Board, c: Cell): Tile
    requires InBounds(c)
  {
    b[c.y][c.x]
  }

  /** The board is read row by row: an east step moves to the next column of
      the same row, and a north step to the next row in the same column. */
  lemma TileAtAxes(b: Board, c: Cell)
    requires InBounds(c)
    ensures c.x < Size - 1 ==> TileAt(b, Step(c, East)) == b[c.y][c.x + 1]
    ensures c.y < Size - 1 ==> TileAt(b, Step(c, North)) == b[c.y + 1][c.x]
  {
  }
}
