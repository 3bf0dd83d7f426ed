/** A search state: a self-avoiding path with its visited set, word, running
    letter sum and word multiplier, updated in place as the path grows. */
module States {
  import opened Wrappers
  import opened Actions
  import opened Locations
  import opened Boards
  import opened Util
  import opened PathSpec

  /** Every action left after pruning keeps a location on the board. */
  lemma PrunedInBounds(here: Cell, pruned: set<Action>, order: seq<Action>)
    requires InBounds(here) && pruned <= InitialActions(here)
    requires forall a :: a in order <==> a in pruned
    ensures forall k :: 0 <= k < |order| ==> InBounds(Step(here, order[k]))
  {
    forall k | 0 <= k < |order| ensures InBounds(Step(here, order[k])) {
      assert order[k] in order;
      InitialActionsExact(here, order[k]);
    }
  }

  /** The history collected over the iteration order holds exactly the pruned
      actions whose targets are on the path. */
  lemma HistoryExact(p: Path, pruned: set<Action>, order: seq<Action>, history: set<Action>)
    requires p != []
    requires forall a :: a in order <==> a in pruned
    requires forall a :: a in history ==> a in order && Step(Last(p), a) in Elems(p)
    requires forall k :: 0 <= k < |order| && Step(Last(p), order[k]) in Elems(p) ==> order[k] in history
    ensures forall a :: a in history <==> a in pruned && Step(Last(p), a) in p
  {
    forall a | a in pruned && Step(Last(p), a) in p ensures a in history {
      assert a in order;
      var k :| 0 <= k < |order| && order[k] == a;
    }
  }

  /** Removing the complement of the last move and then the visited targets
      from the on-board actions leaves exactly the legal moves. */
  lemma PrunedMoves(p: Path, prev: Option<Action>, pruned: set<Action>, history: set<Action>)
    requires WellFormed(p)
    requires prev.Some? ==> |p| >= 2 && Step(p[|p| - 2], prev.value) == Last(p)
    requires pruned == if prev.Some? then InitialActions(Last(p)) - {Complement(prev.value)}
                       else InitialActions(Last(p))
    requires forall a :: a in history <==> a in pruned && Step(Last(p), a) in p
    ensures pruned - history == Moves(p)
  {
    AllActionsEvery();
    forall a ensures a in pruned - history <==> a in Moves(p) {
      InitialActionsExact(Last(p), a);
      if prev.Some? {
        ComplementTargetVisited(p, prev.value);
      }
    }
  }

  class State {
    var loc: Location
    var visited: set<Cell>
    var prev: Option<Action>
    const board: Board
    var word: string
    var score: int
    var wordBonus: Bonus
    /** The cells visited so far, in order. */
    ghost var path: Path

    /** The fields are the summary of the ghost path. */
    ghost predicate Summarises()
      reads this
    {
      AllInBounds(path)
      && visited == Elems(path)
      && word == WordOf(board, path)
      && score == LetterSum(board, path)
      && wordBonus == WordBonusOf(board, path)
    }

    /** The state invariant: a self-avoiding path ending at loc, reached by prev. */
    ghost predicate Valid()
      reads this, loc
    {
      Summarises()
      && ValidPath(path)
      && loc.Pos() == Last(path)
      && (prev.Some? ==> |path| >= 2 && Step(path[|path| - 2], prev.value) == loc.Pos())
    }

    /** A seed state at one cell: the empty state with that cell added. */
    constructor (b: Board, l: Location)
      requires l.Valid()
      ensures Valid() && board == b && loc == l && prev == None
      ensures path == [l.Pos()]
    {
      loc := l;
      board := b;
      word := [];
      visited := {};
      score := 0;
      wordBonus := NoBonus;
      prev := None;
      path := [];
      new;
      AddLocationToWord();
      assert path == [loc.Pos()];
    }

    /** Copy constructor: an independent copy with its own location object. */
    constructor Copy(rhs: State)
      requires rhs.Valid()
      ensures Valid() && fresh(loc)
      ensures loc.Pos() == rhs.loc.Pos() && visited == rhs.visited && prev == rhs.prev
      ensures board == rhs.board && word == rhs.word && score == rhs.score
      ensures wordBonus == rhs.wordBonus && path == rhs.path
    {
      loc := new Location.Copy(rhs.loc);
      visited := rhs.visited;
      word := rhs.word;
      prev := rhs.prev;
      board := rhs.board;
      score := rhs.score;
      wordBonus := rhs.wordBonus;
      path := rhs.path;
    }

    /** Records the tile under loc: marks the cell visited, adds the tile's
        letter value (letter bonus applied), lets a word-bonus tile overwrite
        the multiplier, and appends the letter ("qu" for 'q'). */
    method AddLocationToWord()
      requires Summarises() && loc.Valid()
      modifies this
      ensures Summarises() && path == old(path) + [loc.Pos()]
      ensures visited == old(visited) + {loc.Pos()}
      ensures score == old(score) + TileScore(TileAt(board, loc.Pos()))
      ensures wordBonus == (if IsWordBonus(TileAt(board, loc.Pos()).bonus)
                            then TileAt(board, loc.Pos()).bonus else old(wordBonus))
      ensures word == old(word) + Letters(TileAt(board, loc.Pos()).letter)
      ensures loc == old(loc) && prev == old(prev)
    {
      var c := loc.Pos();
      AppendCell(board, path, c);
      var tile := TileAt(board, c);
      var ch := tile.letter;
      var bonus := tile.bonus;
      var newBonus := wordBonus;
      if bonus == DoubleWord || bonus == TripleWord {
        newBonus := bonus;
      }
      var letterScore := ApplyLetterScore(bonus, LetterValue(ch));
      var newWord := word + [ch];
      if ch == 'q' {
        newWord := newWord + ['u'];
      }
      visited, wordBonus, score, word, path := visited + {c}, newBonus, score + letterScore, newWord, path + [c];
    }

    function GetWord(): (w: string)
      reads this
      requires Summarises()
      ensures w == WordOf(board, path)
    {
      word
    }

    /** The score of the path so far. */
    function GetScore(): (r: int)
      reads this
      requires Summarises()
      ensures r == PathScore(board, path)
    {
      ApplyWordScore(wordBonus, score) + LengthBonus(|word|)
    }

    /** Whether l's cell is visited. The visited set compares locations by
        their coordinates, so this is membership of l's cell in the path. */
    predicate HasVisited(l: Location)
      reads this, l
      ensures Summarises() ==> (HasVisited(l) <==> exists j :: 0 <= j < |path| && path[j] == l.Pos())
    {
      l.Pos() in visited
    }

    /** The actions in order whose targets are already visited. */
    method VisitedHistory(here: Cell, order: seq<Action>) returns (history: set<Action>)
      requires here == loc.Pos()
      requires forall k :: 0 <= k < |order| ==> InBounds(Step(here, order[k]))
      ensures forall a :: a in history ==> a in order && Step(here, a) in visited
      ensures forall k :: 0 <= k < |order| && Step(here, order[k]) in visited ==> order[k] in history
    {
      history := {};
      for i := 0 to |order|
        invariant forall a :: a in history ==> a in order && Step(here, a) in visited
        invariant forall k :: 0 <= k < i && Step(here, order[k]) in visited ==> order[k] in history
      {
        var nextLoc := loc.Adjacent(order[i]);
        if HasVisited(nextLoc) {
          history := history + {order[i]};
        }
      }
    }

    /** The legal moves: on the board and not yet visited. The removal of
        prev's complement never removes anything else, because that target is
        the previous cell and so already visited. */
    method AvailableActions() returns (actions: set<Action>)
      requires Valid()
      ensures actions == Moves(path)
      ensures forall a :: a in actions <==> InBounds(Step(loc.Pos(), a)) && Step(loc.Pos(), a) !in visited
    {
      var here := loc.Pos();
      actions := InitialActions(here);
      if prev.Some? {
        actions := actions - {Complement(prev.value)};
      }
      var order := InOrder(actions);
      PrunedInBounds(here, actions, order);
      var visitedHistory := VisitedHistory(here, order);
      HistoryExact(path, actions, order, visitedHistory);
      PrunedMoves(path, prev, actions, visitedHistory);
      actions := actions - visitedHistory;
    }

    /** Moves one step to an unvisited board cell and records its tile. */
    method Advance(a: Action)
      requires Valid()
      requires InBounds(Step(loc.Pos(), a)) && Step(loc.Pos(), a) !in visited
      modifies this, loc
      ensures Valid() && loc == old(loc)
      ensures path == old(path) + [Step(old(loc.Pos()), a)]
      ensures prev == Some(a) && loc.Pos() == Step(old(loc.Pos()), a)
      ensures visited == old(visited) + {loc.Pos()} && loc.Pos() !in old(visited)
      ensures score == old(score) + TileScore(TileAt(board, loc.Pos()))
      ensures wordBonus == (if IsWordBonus(TileAt(board, loc.Pos()).bonus)
                            then TileAt(board, loc.Pos()).bonus else old(wordBonus))
      ensures word == old(word) + Letters(TileAt(board, loc.Pos()).letter)
    {
      prev := Some(a);
      loc.Advance(a);
      AddLocationToWord();
    }

    /** A child state: a copy of this state advanced by a; this state is left unchanged. */
    method Next(a: Action) returns (s: State)
      requires Valid()
      requires InBounds(Step(loc.Pos(), a)) && Step(loc.Pos(), a) !in visited
      ensures fresh(s) && fresh(s.loc) && s.Valid() && s.board == board
      ensures s.path == path + [Step(loc.Pos(), a)] && s.prev == Some(a)
      ensures unchanged(this, loc)
    {
      s := new State.Copy(this);
      s.Advance(a);
    }
  }

  /** A valid state's visited set holds its location and one cell per path
      step, and its word has one character per visited cell plus one 'u' per
      'q' tile. */
  lemma StateCounts(s: State)
    requires s.Valid()
    ensures s.loc.Pos() in s.visited
    ensures |s.visited| == |s.path|
    ensures |s.word| == |s.visited| + QCount(s.board, s.path)
  {
    ValidPathIsSelfAvoiding(s.path);
    DistinctCells(s.path);
    WordLength(s.board, s.path);
  }
}
