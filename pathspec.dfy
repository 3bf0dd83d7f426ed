/** What a path state means: the word, letter sum, word multiplier and score
    that a sequence of visited cells determines, and the legal one-step
    extensions of a path. The State class keeps its fields equal to these. */
module PathSpec {
  import opened Actions
  import opened Locations
  import opened Boards
  import opened Util

  /** The cells of a path, in the order they were visited. */
  type Path = seq<Cell>

  function Last<T>(s: seq<T>): T
    requires s != []
  {
    s[|s| - 1]
  }

  /** No element occurs twice. */
  predicate Distinct<T(==)>(s: seq<T>)
  {
    forall i, j :: 0 <= i < j < |s| ==> s[i] != s[j]
  }

  lemma DistinctCons<T>(x: T, s: seq<T>)
    requires x !in s && Distinct(s)
    ensures Distinct([x] + s)
  {
    var r := [x] + s;
    forall i, j | 0 <= i < j < |r| ensures r[i] != r[j] {
      assert r[j] == s[j - 1];
      if i > 0 {
        assert r[i] == s[i - 1];
      }
    }
  }

  function Elems(p: Path): set<Cell>
  {
    set c | c in p
  }

  predicate AllInBounds(p: Path)
  {
    forall i :: 0 <= i < |p| ==> InBounds(p[i])
  }

  /** A non-empty path on the board (what the explorer's worklist holds). */
  predicate WellFormed(p: Path)
  {
    p != [] && AllInBounds(p)
  }

  predicate AllWellFormed(fs: seq<Path>)
  {
    forall i :: 0 <= i < |fs| ==> WellFormed(fs[i])
  }

  /** A self-avoiding path, as the search builds it one cell at a time: each
      new cell is on the board, a neighbour of the previous one, and not yet
      on the path. */
  ghost predicate ValidPath(p: Path)
    decreases |p|
  {
    WellFormed(p)
    && (|p| >= 2 ==>
          ValidPath(p[..|p| - 1]) && IsNeighbour(p[|p| - 2], Last(p)) && Last(p) !in p[..|p| - 1])
  }

  /** The same property stated over positions: no cell twice, consecutive cells neighbours. */
  ghost predicate SelfAvoiding(p: Path)
  {
    WellFormed(p)
    && (forall i, j :: 0 <= i < j < |p| ==> p[i] != p[j])
    && (forall i, j :: 0 <= i < j < |p| && j == i + 1 ==> IsNeighbour(p[i], p[j]))
  }

  lemma {:induction false} ValidPathIsSelfAvoiding(p: Path)
    ensures ValidPath(p) <==> SelfAvoiding(p)
    decreases |p|
  {
    if |p| >= 2 {
      var q := p[..|p| - 1];
      ValidPathIsSelfAvoiding(q);
      assert forall i :: 0 <= i < |q| ==> q[i] == p[i];
      if SelfAvoiding(p) {
        assert SelfAvoiding(q);
        assert IsNeighbour(p[|p| - 2], p[|p| - 1]);
      }
      if ValidPath(p) {
        forall i, j | 0 <= i < j < |p| ensures p[i] != p[j] {
          if j == |p| - 1 {
            assert p[i] in q;
          }
        }
      }
    }
  }

  /** The text a tile adds to the word: the letter, and a 'u' after a 'q'. */
  function Letters(c: char): string
  {
    if c == 'q' then ['q', 'u'] else [c]
  }

  /** The points a tile adds to the running letter sum. */
  function TileScore(t: Tile): int
  {
    ApplyLetterScore(t.bonus, LetterValue(t.letter))
  }

  /** The word spelt by a path. */
  function WordOf(b: Board, p: Path): string
    requires AllInBounds(p)
  {
    if p == [] then [] else WordOf(b, p[..|p| - 1]) + Letters(TileAt(b, Last(p)).letter)
  }

  /** The running letter sum of a path. */
  function LetterSum(b: Board, p: Path): int
    requires AllInBounds(p)
  {
    if p == [] then 0 else LetterSum(b, p[..|p| - 1]) + TileScore(TileAt(b, Last(p)))
  }

  /** The word multiplier of a path: each word-bonus tile overwrites the previous one. */
  function WordBonusOf(b: Board, p: Path): Bonus
    requires AllInBounds(p)
  {
    if p == [] then NoBonus
    else if IsWordBonus(TileAt(b, Last(p)).bonus) then TileAt(b, Last(p)).bonus
    else WordBonusOf(b, p[..|p| - 1])
  }

  /** The score of a path: the word multiplier applied to the letter sum, plus the length bonus. */
  function PathScore(b: Board, p: Path): int
    requires AllInBounds(p)
  {
    ApplyWordScore(WordBonusOf(b, p), LetterSum(b, p)) + LengthBonus(|WordOf(b, p)|)
  }

  /** How many tiles of the path carry a 'q'. */
  function QCount(b: Board, p: Path): nat
    requires AllInBounds(p)
  {
    if p == [] then 0
    else QCount(b, p[..|p| - 1]) + (if TileAt(b, Last(p)).letter == 'q' then 1 else 0)
  }

  /** The actions that lead from the end of a path to a board cell not yet on the path. */
  function Moves(p: Path): set<Action>
    requires p != []
  {
    set a | a in AllActions && InBounds(Step(Last(p), a)) && Step(Last(p), a) !in p
  }

  /** The elements of xs that lie in s, in the order of xs. */
  function Filter(xs: seq<Action>, s: set<Action>): (r: seq<Action>)
    ensures |r| <= |xs|
    ensures forall a :: a in r <==> a in xs && a in s
  {
    if xs == [] then [] else (if xs[0] in s then [xs[0]] else []) + Filter(xs[1..], s)
  }

  /** The iteration order of a set of actions: ordinal order. */
  function InOrder(s: set<Action>): (r: seq<Action>)
    ensures |r| <= |AllActions|
    ensures forall a :: a in r <==> a in s
  {
    AllActionsEvery();
    Filter(AllActions, s)
  }

  lemma AllActionsEvery()
    ensures forall a :: a in AllActions
  {
    forall a ensures a in AllActions {
      AllActionsEnumerates(a);
    }
  }

  /** The one-step extensions of p by the given actions, in the same order. */
  function Extend(p: Path, acts: seq<Action>): (r: seq<Path>)
    requires p != []
    ensures |r| == |acts|
    ensures forall i :: 0 <= i < |r| ==> r[i] == p + [Step(Last(p), acts[i])]
  {
    if acts == [] then []
    else Extend(p, acts[..|acts| - 1]) + [p + [Step(Last(p), Last(acts))]]
  }

  /** The children the explorer creates for a path: none once the word has
      reached maxWordSize characters, else one per legal move, in ordinal order. */
  function Children(b: Board, maxWordSize: int, p: Path): (r: seq<Path>)
    requires WellFormed(p)
    ensures |r| <= |AllActions|
    ensures |WordOf(b, p)| >= maxWordSize ==> r == []
    ensures forall i :: 0 <= i < |r| ==>
      |r[i]| == |p| + 1 && r[i][..|p|] == p && InBounds(Last(r[i])) && Last(r[i]) !in p
  {
    if |WordOf(b, p)| >= maxWordSize then []
    else
      var acts := InOrder(Moves(p));
      var r := Extend(p, acts);
      assert forall i :: 0 <= i < |r| ==>
        r[i][..|p|] == p && Last(r[i]) == Step(Last(p), acts[i]) && acts[i] in Moves(p);
      r
  }

  /** Appending one board cell to a path appends its letters, adds its tile
      score, and lets a word-bonus tile overwrite the multiplier. */
  lemma AppendCell(b: Board, p: Path, c: Cell)
    requires AllInBounds(p) && InBounds(c)
    ensures AllInBounds(p + [c]) && Elems(p + [c]) == Elems(p) + {c}
    ensures WordOf(b, p + [c]) == WordOf(b, p) + Letters(TileAt(b, c).letter)
    ensures LetterSum(b, p + [c]) == LetterSum(b, p) + TileScore(TileAt(b, c))
    ensures WordBonusOf(b, p + [c]) ==
      if IsWordBonus(TileAt(b, c).bonus) then TileAt(b, c).bonus else WordBonusOf(b, p)
  {
    assert (p + [c])[..|p|] == p;
  }

  lemma ExtendStep(p: Path, acts: seq<Action>, i: nat)
    requires p != [] && i < |acts|
    ensures Extend(p, acts[..i + 1]) == Extend(p, acts[..i]) + [p + [Step(Last(p), acts[i])]]
  {
    assert acts[..i + 1][..i] == acts[..i];
  }

  lemma ChildrenByMoves(b: Board, maxWordSize: int, p: Path)
    requires WellFormed(p) && |WordOf(b, p)| < maxWordSize
    ensures Children(b, maxWordSize, p) == Extend(p, InOrder(Moves(p)))
  {
  }

  // ---------------------------------------------------------------------------
  // Properties of the path functions

  /** The word is one character per cell plus one 'u' per 'q' tile. */
  lemma {:induction false} WordLength(b: Board, p: Path)
    requires AllInBounds(p)
    ensures |WordOf(b, p)| == |p| + QCount(b, p)
  {
    if p != [] {
      WordLength(b, p[..|p| - 1]);
    }
  }

  /** A path without repeated cells visits as many distinct cells as it is long. */
  lemma {:induction false} DistinctCells(p: Path)
    requires forall i, j :: 0 <= i < j < |p| ==> p[i] != p[j]
    ensures |Elems(p)| == |p|
  {
    if p != [] {
      var q := p[..|p| - 1];
      DistinctCells(q);
      assert Elems(p) == Elems(q) + {Last(p)};
      assert Last(p) !in Elems(q);
    }
  }

  /** The word multiplier is the bonus of the last word-bonus tile, when one exists. */
  lemma {:induction false} WordBonusIsLast(b: Board, p: Path, j: nat)
    requires AllInBounds(p) && j < |p|
    requires IsWordBonus(TileAt(b, p[j]).bonus)
    requires forall k :: j < k < |p| ==> !IsWordBonus(TileAt(b, p[k]).bonus)
    ensures WordBonusOf(b, p) == TileAt(b, p[j]).bonus
  {
    if j < |p| - 1 {
      WordBonusIsLast(b, p[..|p| - 1], j);
    }
  }

  /** Without word-bonus tiles the multiplier stays at none. */
  lemma {:induction false} NoWordBonus(b: Board, p: Path)
    requires AllInBounds(p)
    requires forall k :: 0 <= k < |p| ==> !IsWordBonus(TileAt(b, p[k]).bonus)
    ensures WordBonusOf(b, p) == NoBonus
  {
    if p != [] {
      NoWordBonus(b, p[..|p| - 1]);
    }
  }

  /** A double-word tile followed later by a triple-word tile scores with x3, not x6. */
  lemma DoubleThenTriple(b: Board, p: Path, i: nat, j: nat)
    requires AllInBounds(p) && i < j < |p|
    requires TileAt(b, p[i]).bonus == DoubleWord && TileAt(b, p[j]).bonus == TripleWord
    requires forall k :: j < k < |p| ==> !IsWordBonus(TileAt(b, p[k]).bonus)
    ensures PathScore(b, p) == 3 * LetterSum(b, p) + LengthBonus(|WordOf(b, p)|)
  {
    WordBonusIsLast(b, p, j);
  }

  /** Words of one or two characters still get the multiplied letter sum; the length bonus is 1. */
  lemma ShortWordScore(b: Board, p: Path)
    requires AllInBounds(p)
    requires |WordOf(b, p)| == 1 || |WordOf(b, p)| == 2
    ensures PathScore(b, p) == WordFactor(WordBonusOf(b, p)) * LetterSum(b, p) + 1
  {
  }

  /** A 'q' tile adds "qu" to the word but only the value of the 'q' to the letter sum. */
  lemma QuAddsOnlyQ(b: Board, p: Path, c: Cell)
    requires AllInBounds(p) && InBounds(c) && TileAt(b, c).letter == 'q'
    ensures AllInBounds(p + [c])
    ensures WordOf(b, p + [c]) == WordOf(b, p) + "qu"
    ensures LetterSum(b, p + [c]) == LetterSum(b, p) + LetterFactor(TileAt(b, c).bonus) * 10
  {
    assert (p + [c])[..|p|] == p;
  }

  /** On tiles that are all a plain 'a', a path of n cells spells n 'a's and scores n plus the length bonus. */
  lemma {:induction false} PlainAScore(b: Board, p: Path)
    requires AllInBounds(p)
    requires forall k :: 0 <= k < |p| ==> TileAt(b, p[k]) == Tile('a', NoBonus)
    ensures WordOf(b, p) == seq(|p|, _ => 'a')
    ensures LetterSum(b, p) == |p|
    ensures PathScore(b, p) == |p| + LengthBonus(|p|)
  {
    if p != [] {
      PlainAScore(b, p[..|p| - 1]);
    }
    NoWordBonus(b, p);
  }

  /** Five plain 'a' tiles score 5 + 5 = 10; four score 4 + 0 = 4. */
  lemma PlainAExamples(b: Board, p: Path)
    requires AllInBounds(p) && (|p| == 4 || |p| == 5)
    requires forall k :: 0 <= k < |p| ==> TileAt(b, p[k]) == Tile('a', NoBonus)
    ensures |p| == 4 ==> PathScore(b, p) == 4
    ensures |p| == 5 ==> PathScore(b, p) == 10
  {
    PlainAScore(b, p);
  }

  /** The previous cell of a path is the complement step from its end, and lies on the path. */
  lemma ComplementTargetVisited(p: Path, a: Action)
    requires |p| >= 2 && Step(p[|p| - 2], a) == Last(p)
    ensures Step(Last(p), Complement(a)) == p[|p| - 2] && p[|p| - 2] in p
  {
    StepComplement(p[|p| - 2], a);
  }

  /** A path one cell longer than p that starts with p is p plus its last cell. */
  lemma OneLonger(p: Path, q: Path)
    requires |q| == |p| + 1 && q[..|p|] == p
    ensures q == p + [Last(q)]
  {
    assert q == q[..|p|] + [q[|p|]];
  }

  /** Every child is a self-avoiding one-cell extension by a neighbour. */
  lemma ChildIsLegalExtension(b: Board, maxWordSize: int, p: Path, q: Path)
    requires WellFormed(p) && q in Children(b, maxWordSize, p)
    ensures |WordOf(b, p)| < maxWordSize && |q| == |p| + 1 && q[..|p|] == p
    ensures InBounds(Last(q)) && Last(q) !in p && IsNeighbour(Last(p), Last(q))
  {
    var acts := InOrder(Moves(p));
    var i :| 0 <= i < |Children(b, maxWordSize, p)| && Children(b, maxWordSize, p)[i] == q;
    assert q == Extend(p, acts)[i];
  }

  /** Every self-avoiding one-cell extension by a neighbour of a path whose
      word is still short is a child. */
  lemma LegalExtensionIsChild(b: Board, maxWordSize: int, p: Path, q: Path)
    requires WellFormed(p) && |WordOf(b, p)| < maxWordSize && |q| == |p| + 1 && q[..|p|] == p
    requires InBounds(Last(q)) && Last(q) !in p && IsNeighbour(Last(p), Last(q))
    ensures q in Children(b, maxWordSize, p)
  {
    var a := ActionTo(Last(p), Last(q));
    AllActionsEnumerates(a);
    assert a in Moves(p);
    var acts := InOrder(Moves(p));
    var i :| 0 <= i < |acts| && acts[i] == a;
    OneLonger(p, q);
    assert Children(b, maxWordSize, p)[i] == q;
  }

  /** The children are exactly the self-avoiding one-cell extensions of a path
      whose word is still shorter than maxWordSize. */
  lemma ChildrenAreLegalExtensions(b: Board, maxWordSize: int, p: Path, q: Path)
    requires WellFormed(p)
    ensures q in Children(b, maxWordSize, p) <==>
      |WordOf(b, p)| < maxWordSize && |q| == |p| + 1 && q[..|p|] == p &&
      InBounds(Last(q)) && Last(q) !in p && IsNeighbour(Last(p), Last(q))
  {
    if q in Children(b, maxWordSize, p) {
      ChildIsLegalExtension(b, maxWordSize, p, q);
    }
    if |WordOf(b, p)| < maxWordSize && |q| == |p| + 1 && q[..|p|] == p &&
      InBounds(Last(q)) && Last(q) !in p && IsNeighbour(Last(p), Last(q))
    {
      LegalExtensionIsChild(b, maxWordSize, p, q);
    }
  }

  /** Adding an unvisited neighbouring board cell keeps a path self-avoiding. */
  lemma ValidSnoc(p: Path, c: Cell)
    requires ValidPath(p) && InBounds(c) && IsNeighbour(Last(p), c) && c !in p
    ensures ValidPath(p + [c])
  {
    var q := p + [c];
    assert q[..|q| - 1] == p;
    assert q[|q| - 2] == Last(p);
    assert forall i :: 0 <= i < |p| ==> q[i] == p[i];
  }

  /** Extending a self-avoiding path by a child keeps it self-avoiding. */
  lemma ChildValid(b: Board, maxWordSize: int, p: Path, q: Path)
    requires ValidPath(p) && q in Children(b, maxWordSize, p)
    ensures ValidPath(q)
  {
    ChildIsLegalExtension(b, maxWordSize, p, q);
    OneLonger(p, q);
    ValidSnoc(p, Last(q));
  }

  /** Filtering a list without repeats keeps it without repeats. */
  lemma {:induction false} FilterDistinct(xs: seq<Action>, s: set<Action>)
    requires Distinct(xs)
    ensures Distinct(Filter(xs, s))
  {
    if xs != [] {
      var rest := xs[1..];
      assert Distinct(rest) by {
        forall i, j | 0 <= i < j < |rest| ensures rest[i] != rest[j] {
          assert rest[i] == xs[i + 1] && rest[j] == xs[j + 1];
        }
      }
      FilterDistinct(rest, s);
      assert xs[0] !in rest by {
        forall i | 0 <= i < |rest| ensures rest[i] != xs[0] {
          assert rest[i] == xs[i + 1];
        }
      }
    }
  }

  /** No two children of a path are the same path. */
  lemma ChildrenDistinct(b: Board, maxWordSize: int, p: Path)
    requires WellFormed(p)
    ensures Distinct(Children(b, maxWordSize, p))
  {
    if |WordOf(b, p)| < maxWordSize {
      var acts := InOrder(Moves(p));
      AllActionsEnumerates(North);
      FilterDistinct(AllActions, Moves(p));
      var cs := Children(b, maxWordSize, p);
      forall i, j | 0 <= i < j < |cs| ensures cs[i] != cs[j] {
        assert Last(cs[i]) == Step(Last(p), acts[i]) && Last(cs[j]) == Step(Last(p), acts[j]);
        DeltaInjective(acts[i], acts[j]);
      }
    }
  }
}
