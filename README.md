# ScrambleSearch in Dafny

ScrambleSearch finds every dictionary word on a 4x4 letter board. A word is a
path of neighbouring tiles, orthogonal or diagonal, that never uses a tile
twice. Tiles can carry a bonus:

- a double or triple letter bonus multiplies that tile's letter value;
- a double or triple word bonus multiplies the whole word. When a path has
  several word bonuses, the last one it crossed wins.

A 'q' tile spells "qu". The score of a word is its word multiplier times the
sum of its letter values, plus a bonus for the word's length.

The search is an explicit worklist:

1. One state is seeded per cell.
2. The loop takes the head state.
3. It hands the state's word and score to a collector when the word is in the
   dictionary and has at least `minWordSize` characters.
4. Unless the word has reached `maxWordSize` characters, it pushes one child
   state per legal move onto the front of the worklist.

The collector keeps the first score seen for each word. Once the worklist is
empty, the collector is drained in score order.

The model follows the Java classes one module at a time:

| module | models |
|---|---|
| `Actions` | the `Action` enum and its `complement` map |
| `Locations` | board cells and the mutable `Location` class |
| `Boards` | `Bonus`, `Tile` and the board; `TileAt` is `getTileAt` |
| `Util` | `initial_actions` and the two `valueOf` tables |
| `PathSpec` | what a path of cells means: its word, letter sum, word multiplier, score, legal moves and children |
| `States` | the mutable `State` class |
| `WordLists` | the collector class `WordList` |
| `Explorer` | the search itself |

The mutable parts stay classes whose methods update their fields:

- `Location` and `State`. Each `State` carries a ghost path, and `Valid()`
  ties every field to a `PathSpec` function of that path.
- `WordList`, which keeps the set of words found and the priority queue's
  contents as a multiset.
- `Scramble`, whose worklist is a `seq<State>` field.

Two functions specify the search:

- `Explorer.Visits` gives the order in which the loop takes paths off the
  worklist. It terminates because the sum of 9^(unvisited cells) over the
  worklist drops at every step.
- `Explorer.Found` gives what the collector holds after a sequence of visits.

The `find_words` loop is proved against these two functions. About them the
model proves that the search is exhaustive and visits nothing twice:

- the paths visited from the seeds are exactly the self-avoiding board paths
  whose proper prefixes all spell words shorter than `maxWordSize`
  (`Explorer.VisitedExactly`), and none is visited twice
  (`Explorer.VisitsOnce`);
- so the collector ends holding a word exactly when such a path spells it,
  it is in the dictionary and it has at least `minWordSize` characters
  (`Explorer.FoundFromSeeds`), with the score of the first such path visited
  (`Explorer.FoundIsFirstArrival`);
- the constructor sets the worklist to the seeds, so `FindWords` returns
  those entries, in ascending score order, and its result holds exactly
  those words (`Explorer.ResultWords`). On a board of plain 'a' tiles whose
  dictionary holds only "aaaa", `FindWords` returns exactly "aaaa" scoring 4
  (`Explorer.PlainAFindsAaaa`, `Explorer.PlainAResult`).

The dictionary is a predicate `isWord` passed to the `Scramble` constructor.

The code's loop is split into small methods, each doing one part of one
iteration: `Search`, `VisitHead`, `Visit`, `Collect`, `Grow`, `GrowChildren`,
`Pop`, `Expand`, `NextStates`, `AppendChild`, `PushChildren` and `PushFront`.
The seeding loop is split the same way, into `Seed` and `SeedState`. Together
they do what the one Java method does, in the same order.

Three behaviours of the code may surprise a reader, and the model follows
the code in each:

- **Short words.** `getScore` is `word_bonus.applyWordScore(score) +
  valueOf(word.size())`. A word of one or two characters gets a length bonus
  of 1 on top of its multiplied letter sum, so its score is not a flat 1
  (`PathSpec.ShortWordScore`).
- **Drain order.** `WordEntry.compareTo` is `this.score - other.score`, and a
  `PriorityQueue` removes its least element. The drain therefore yields
  ascending scores, not descending ones (`Explorer.Drain`).
- **Seeding.** The constructor appends each seed at the tail of the linked
  list, row by row and west to east within a row. `poll` then takes states
  from the head, and children are pushed at the head (`Explorer.Seeds`,
  `Explorer.Visits`).

## Model

| member | source | states |
|---|---|---|
| Actions.DeltaX | src/ScrambleSearchApp.java:39-48 | every x delta is -1, 0 or 1 |
| Actions.DeltaY | src/ScrambleSearchApp.java:39-48 | every y delta is -1, 0 or 1 |
| Actions.Complement | src/ScrambleSearchApp.java:50-62 | the complement of a direction moves by the negated x and y deltas |
| Actions.ComplementInvolution | src/ScrambleSearchApp.java:58-61 | the mirrored map is symmetric: the complement of the complement is the direction itself |
| Actions.DeltaInjective | src/ScrambleSearchApp.java:39 | no direction stands still, and two directions with equal deltas are the same direction |
| Actions.AllActionsEnumerates | src/ScrambleSearchApp.java:39 | the ordinal list holds every direction, each exactly once |
| Locations.Step | src/ScrambleSearchApp.java:145-153 | the target of a step is a different cell touching the start |
| Locations.StepComplement | src/ScrambleSearchApp.java:50-62 | stepping along a direction and then its complement returns to the start cell |
| Locations.Location.constructor | src/ScrambleSearchApp.java:71-78 | a location is built only on the board and holds the given coordinates |
| Locations.Location.Copy | src/ScrambleSearchApp.java:80-84 | the copy has the same coordinates |
| Locations.Location.Advance | src/ScrambleSearchApp.java:119-139 | the location moves by the direction's deltas and stays on the board; moving off the board is excluded |
| Locations.Location.Adjacent | src/ScrambleSearchApp.java:145-174 | a fresh on-board location one step away, with the receiver unchanged |
| Boards.ApplyLetterScore | src/ScrambleSearchApp.java:181-207 | a letter bonus multiplies the letter value by 2 or 3; every other kind leaves it unchanged |
| Boards.ApplyWordScore | src/ScrambleSearchApp.java:181-207 | a word bonus multiplies the word score by 2 or 3; every other kind leaves it unchanged |
| Boards.TileAtAxes | src/ScrambleSearchApp.java:253-259 | the board is indexed [y][x]: an east step reads the next column of the same row, a north step the next row of the same column |
| Util.InitialActionsMembers | src/ScrambleSearchApp.java:290-311 | a direction survives unless it leaves by the west or east side in column 0 or 3, or by the south or north side in row 0 or 3 |
| Util.InitialActionsExact | src/ScrambleSearchApp.java:290-311 | the pruned set is exactly the set of directions whose target stays on the board |
| Util.LengthBonus | src/ScrambleSearchApp.java:316-339 | length 1 or 2 gives 1, length 3 or 4 gives 0, 5 or 6 gives 5, 7 gives 10 and 8 gives 15 (the fall-through), anything else 0 |
| Util.LetterValue | src/ScrambleSearchApp.java:344-384 | every lower-case letter is worth 1 to 10 and nothing else is worth anything; exactly q, j, x and z are worth 10 |
| PathSpec.InOrder | src/ScrambleSearchApp.java:462 | iterating a set of directions visits exactly its members, at most eight |
| PathSpec.ValidPathIsSelfAvoiding | src/ScrambleSearchApp.java:473-479 | a path built one unvisited neighbour at a time has no repeated cell and consecutive cells touch, and conversely |
| PathSpec.AppendCell | src/ScrambleSearchApp.java:419-436 | adding a cell adds it to the visited cells, appends its letters, adds its tile score, and lets a word-bonus tile overwrite the multiplier |
| PathSpec.WordLength | src/ScrambleSearchApp.java:433-435 | the word has one character per cell plus one 'u' per 'q' tile |
| PathSpec.DistinctCells | src/ScrambleSearchApp.java:421 | a path without repeated cells has as many visited cells as it is long |
| PathSpec.WordBonusIsLast | src/ScrambleSearchApp.java:427-428 | the word multiplier is the bonus of the last word-bonus tile on the path |
| PathSpec.NoWordBonus | src/ScrambleSearchApp.java:397 | without word-bonus tiles the multiplier stays at none |
| PathSpec.DoubleThenTriple | src/ScrambleSearchApp.java:427-428 | a double-word tile followed by a triple-word tile scores the letter sum times 3, not times 6 |
| PathSpec.ShortWordScore | src/ScrambleSearchApp.java:448-451 | a word of one or two characters scores its multiplied letter sum plus 1 |
| PathSpec.QuAddsOnlyQ | src/ScrambleSearchApp.java:430-435 | a 'q' tile adds "qu" to the word but only the (bonus-multiplied) value 10 of the 'q' to the letter sum |
| PathSpec.PlainAScore | src/ScrambleSearchApp.java:448-451 | on plain 'a' tiles a path of n cells spells n 'a's and scores n plus the length bonus of n |
| PathSpec.PlainAExamples | src/ScrambleSearchApp.java:316-339 | four plain 'a' tiles score 4 and five score 10 |
| PathSpec.ComplementTargetVisited | src/ScrambleSearchApp.java:457-458 | the complement of the last move leads back to the previous cell, which is on the path |
| PathSpec.Children | src/ScrambleSearchApp.java:673-681 | no children once the word has reached maxWordSize; otherwise at most eight, each the path plus one new board cell |
| PathSpec.ChildrenByMoves | src/ScrambleSearchApp.java:676-681 | below maxWordSize the children are the one-step extensions by the legal moves, in ordinal order |
| PathSpec.ChildIsLegalExtension | src/ScrambleSearchApp.java:673-681 | every child extends the path by one unvisited neighbouring board cell, and only below maxWordSize |
| PathSpec.LegalExtensionIsChild | src/ScrambleSearchApp.java:673-681 | every extension by an unvisited neighbouring board cell below maxWordSize is a child |
| PathSpec.ChildrenAreLegalExtensions | src/ScrambleSearchApp.java:673-681 | the children are exactly the legal one-cell extensions (both directions) |
| PathSpec.FilterDistinct | src/ScrambleSearchApp.java:678 | iterating an enum set yields no direction twice |
| PathSpec.ChildrenDistinct | src/ScrambleSearchApp.java:676-681 | no two children of a path are the same path |
| PathSpec.ChildValid | src/ScrambleSearchApp.java:486-491 | a child of a self-avoiding path is self-avoiding |
| States.PrunedMoves | src/ScrambleSearchApp.java:455-469 | removing the complement of the last move and then the visited targets leaves exactly the legal moves; the complement removal never removes anything else |
| States.State.constructor | src/ScrambleSearchApp.java:410-417 | a seed state is valid, holds the given location, has no previous move, and its path is the one cell |
| States.State.Copy | src/ScrambleSearchApp.java:399-408 | an independent copy: a fresh location with the same position and every other field equal |
| States.State.AddLocationToWord | src/ScrambleSearchApp.java:419-436 | the cell is appended to the path and visited set, the tile's bonus-multiplied letter value is added, a word-bonus tile overwrites the multiplier, and the letter ("qu" for 'q') is appended |
| States.State.GetWord | src/ScrambleSearchApp.java:438-446 | the word is the one spelt by the state's path |
| States.State.GetScore | src/ScrambleSearchApp.java:448-451 | the score is the score of the state's path |
| States.State.HasVisited | src/ScrambleSearchApp.java:481-484 | for a state whose fields summarise its path, a location counts as visited exactly when its coordinates are those of some cell of the path (equality by coordinates, as `equals` at lines 97-102) |
| States.State.VisitedHistory | src/ScrambleSearchApp.java:460-467 | the history holds exactly the iterated actions whose targets are visited |
| States.State.AvailableActions | src/ScrambleSearchApp.java:453-471 | the result is exactly the set of directions whose target is on the board and not yet visited |
| States.State.Advance | src/ScrambleSearchApp.java:473-479 | the state moves to an unvisited board cell, records it as the previous move, and adds its tile as AddLocationToWord does |
| States.State.Next | src/ScrambleSearchApp.java:486-491 | a fresh valid child state whose path is one step longer, with the parent unchanged |
| States.StateCounts | src/ScrambleSearchApp.java:419-436 | a valid state has visited its location, visited one cell per step, and its word is one character per cell plus one per 'q' |
| WordLists.AddEntry | src/ScrambleSearchApp.java:538-545 | adding a word already present changes nothing; a new word is appended with its score; no word is ever held twice |
| WordLists.DistinctWordsPairwise | src/ScrambleSearchApp.java:540-544 | checking each word on arrival is the same as no two entries sharing a word |
| WordLists.AscendingPairwise | src/ScrambleSearchApp.java:532-534 | a sequence in which each entry scores at least its predecessor is ordered pairwise by score |
| WordLists.DistinctOnce | src/ScrambleSearchApp.java:540-544 | each entry of a collector without repeated words occurs exactly once |
| WordLists.SameWords | src/ScrambleSearchApp.java:693-697 | draining the queue in another order keeps the same set of words |
| WordLists.WordList.constructor | src/ScrambleSearchApp.java:510-512 | a new collector is empty |
| WordLists.WordList.Add | src/ScrambleSearchApp.java:538-545 | a word not yet found is recorded and queued with its score; a word already found changes nothing |
| WordLists.WordList.IsEmpty | src/ScrambleSearchApp.java:694 | the queue is empty exactly when it holds no entry; before draining, that is exactly when no word has been admitted |
| WordLists.WordList.Remove | src/ScrambleSearchApp.java:532-534 | removes an entry of least score from the queue and changes nothing else |
| Explorer.StepDecreases | src/ScrambleSearchApp.java:664-688 | one turn of the loop keeps the worklist well-formed and strictly lowers its measure, so the loop ends |
| Explorer.Visits | src/ScrambleSearchApp.java:664-688 | the paths the loop takes, head first with the children pushed in front; every one is non-empty and on the board |
| Explorer.Seeds | src/ScrambleSearchApp.java:653-655 | sixteen single-cell seeds; seed n is the cell of row n / 4 and column n % 4 |
| Explorer.SeedIndex | src/ScrambleSearchApp.java:653-655 | the seed created at row y and column x is appended at position 4y + x |
| Explorer.SeedsCoverBoard | src/ScrambleSearchApp.java:653-655 | every board cell is seeded, and only board cells are |
| Explorer.SeedsDistinct | src/ScrambleSearchApp.java:653-655 | no cell is seeded twice |
| Explorer.Found | src/ScrambleSearchApp.java:669-671 | the collector never holds a word twice and holds only dictionary words of at least minWordSize characters |
| Explorer.FoundStep | src/ScrambleSearchApp.java:669-671 | each visit adds its word and score when admissible, and otherwise changes nothing |
| Explorer.FoundWords | src/ScrambleSearchApp.java:669-671 | the collector holds a word exactly when some visit handed it over |
| Explorer.FoundIsFirstArrival | src/ScrambleSearchApp.java:669-671 | an entry is held exactly when it is the word and score of the first visit that handed that word over |
| Explorer.TakeHead | src/ScrambleSearchApp.java:664 | taking the head moves it from the pending visits to the end of the trace, and the pending visits shrink |
| Explorer.VisitsReachable | src/ScrambleSearchApp.java:673-686 | from reachable start paths the loop visits only reachable paths: self-avoiding, with every proper prefix's word below maxWordSize |
| Explorer.VisitedFromSeeds | src/ScrambleSearchApp.java:646-688 | every path visited from the seeds is self-avoiding, and unless it is a seed its word has at most maxWordSize + 1 characters (a "qu" tile can overshoot by one) |
| Explorer.ChildrenReachable | src/ScrambleSearchApp.java:673-681 | the children of a reachable path are reachable |
| Explorer.DescFirstStep | src/ScrambleSearchApp.java:673-686 | a proper descendant of a path descends from one of its children |
| Explorer.DescOfHead | src/ScrambleSearchApp.java:673-686 | a proper descendant of the head descends from one of the children pushed in its place |
| Explorer.VisitsDesc | src/ScrambleSearchApp.java:664-688 | every descendant of every path on the worklist is visited |
| Explorer.PrefixStep | src/ScrambleSearchApp.java:673-681 | each longer prefix of a reachable path is a child of the shorter one |
| Explorer.ReachableDesc | src/ScrambleSearchApp.java:653-686 | a reachable path descends from the seed at its first cell |
| Explorer.ReachableVisited | src/ScrambleSearchApp.java:646-688 | every reachable path is visited from the seeds |
| Explorer.VisitedExactly | src/ScrambleSearchApp.java:646-688 | a path is visited from the seeds exactly when it is reachable (both directions) |
| Explorer.VisitedExtends | src/ScrambleSearchApp.java:664-688 | every visited path starts with a path of the starting worklist |
| Explorer.ChildApart | src/ScrambleSearchApp.java:673-686 | a child inherits its parent's independence from the other worklist paths |
| Explorer.ReversedApart | src/ScrambleSearchApp.java:683-686 | two different pushed children of the same length do not start with one another |
| Explorer.ChildBesideTail | src/ScrambleSearchApp.java:673-686 | after a turn, a child of the head and a path behind it do not start with one another, in either direction |
| Explorer.TailsApart | src/ScrambleSearchApp.java:686 | after a turn, two paths behind the head still do not start with one another |
| Explorer.PrefixFreeJoin | src/ScrambleSearchApp.java:673-686 | replacing the head by distinct one-cell extensions, pushed in reverse, keeps the worklist free of paths that start with one another |
| Explorer.PrefixFreeStep | src/ScrambleSearchApp.java:673-686 | one turn keeps the worklist free of paths that start with one another |
| Explorer.HeadStartsWithNone | src/ScrambleSearchApp.java:673-686 | after a turn, the old head starts with no path of the worklist |
| Explorer.HeadNotRevisited | src/ScrambleSearchApp.java:664-688 | the head of such a worklist is never visited again |
| Explorer.VisitsDistinct | src/ScrambleSearchApp.java:664-688 | from such a worklist no path is visited twice |
| Explorer.SeedsPrefixFree | src/ScrambleSearchApp.java:653-655 | no seed starts with another |
| Explorer.VisitsOnce | src/ScrambleSearchApp.java:646-688 | the search from the seeds visits no path twice |
| Explorer.FoundFromSeedsSound | src/ScrambleSearchApp.java:646-688 | every collected word is the admissible word of a reachable path |
| Explorer.FoundFromSeedsComplete | src/ScrambleSearchApp.java:646-688 | the admissible word of every reachable path is collected |
| Explorer.FoundFromSeeds | src/ScrambleSearchApp.java:646-688 | a word is collected exactly when a reachable path spells it and it is a dictionary word of at least minWordSize characters |
| Explorer.PlainAFour | src/ScrambleSearchApp.java:448-451 | on plain 'a' tiles a path spelling "aaaa" has four cells and scores 4 |
| Explorer.BottomRow | src/ScrambleSearchApp.java:653-686 | on plain 'a' tiles the bottom row is a reachable path spelling "aaaa" |
| Explorer.PlainAEntry | src/ScrambleSearchApp.java:669-671 | with "aaaa" the only dictionary word on plain 'a' tiles, every collected entry is ("aaaa", 4) |
| Explorer.PlainAFindsAaaa | src/ScrambleSearchApp.java:646-697 | on plain 'a' tiles with "aaaa" the only dictionary word and sizes around 4, the collector holds exactly ("aaaa", 4) |
| Explorer.PlainAResult | src/ScrambleSearchApp.java:693-697 | on that board, whatever FindWords returns after the constructor is exactly [("aaaa", 4)] |
| Explorer.ResultWords | src/ScrambleSearchApp.java:693-697 | a word is in FindWords' result after the constructor exactly when a reachable path spells it and it is an admissible dictionary word |
| Explorer.Scramble.constructor | src/ScrambleSearchApp.java:646-658 | the worklist holds one valid state per cell, in the seed order |
| Explorer.Scramble.Seed | src/ScrambleSearchApp.java:655 | one fresh seed state is appended at the tail of the worklist |
| Explorer.Scramble.SeedState | src/ScrambleSearchApp.java:655 | a fresh valid state holding just the given cell |
| Explorer.Scramble.FindWords | src/ScrambleSearchApp.java:660-697 | the worklist ends empty; the result is ascending by score and holds each entry of the collector specification exactly once, and only dictionary words of at least minWordSize characters |
| Explorer.Scramble.Search | src/ScrambleSearchApp.java:664-688 | the loop empties the worklist and leaves the collector holding what the specification gives for the worklist's visit order |
| Explorer.Scramble.VisitHead | src/ScrambleSearchApp.java:664-686 | one turn of the loop moves the head path to the trace and keeps the trace plus the remaining visits equal to the full visit order |
| Explorer.Scramble.Visit | src/ScrambleSearchApp.java:669-671 | the collector advances by one visit, and the states are unchanged |
| Explorer.Scramble.Collect | src/ScrambleSearchApp.java:669-671 | the collector advances by one visit, as the collector specification says |
| Explorer.Scramble.Pop | src/ScrambleSearchApp.java:664 | takes the head state off the worklist |
| Explorer.Scramble.Grow | src/ScrambleSearchApp.java:673-686 | the worklist becomes the reversed children followed by the rest |
| Explorer.Scramble.GrowChildren | src/ScrambleSearchApp.java:676-686 | below maxWordSize, the worklist becomes the reversed children followed by the rest |
| Explorer.Scramble.Expand | src/ScrambleSearchApp.java:676-681 | one valid state per child path, in order |
| Explorer.Scramble.NextStates | src/ScrambleSearchApp.java:678-681 | one valid child state per action, in the given order |
| Explorer.Scramble.AppendChild | src/ScrambleSearchApp.java:680 | appends the child state for one action |
| Explorer.Scramble.PushChildren | src/ScrambleSearchApp.java:683-686 | pushing the states one by one on the front puts them before the rest in reverse order |
| Explorer.Scramble.PushFront | src/ScrambleSearchApp.java:685 | puts one state on the front of the worklist |
| Explorer.Drain | src/ScrambleSearchApp.java:694-697 | removes every entry; the sequence removed is ascending by score and a permutation of the queue's contents |

## Left out

- Dictionary loading, the `Dictionary` class and `main` are not modelled. Dictionary membership is the predicate `isWord`, passed in.
- The static initializer is not modelled. It reads the board from standard input and `MIN_WORD_SIZE`/`MAX_WORD_SIZE` from the environment. The board and both sizes are constructor parameters instead.
- The initializer's `MIN_WORD_SIZE <= MAX_WORD_SIZE` assertion is not required, because the search is well defined for any sizes.
- Printing is left out:
  - the board print in the `Scramble` constructor;
  - the per-word output and the `SCORE` switch in the drain;
  - the final count, which is the length of the returned sequence.
- The `toString` methods and `getLetterAt` are left out. `getLetterAt` is `TileAt(b, c).letter`.
- `Location.hashCode` and `Location.equals` are left out as members. There, `visited` is a `HashSet<Location>` whose lookups compare coordinates; here it is a set of coordinate pairs, which is the same equality (`States.State.HasVisited`).
- The static `EnumMap` block that fills `complement` is modelled by the total map it leaves behind, not by iterating its entry set.
- The Java `assert` statements become preconditions: in the `Location` constructor, `advance`, `adjacent` and `State.advance`. Java runs with assertions off by default, so a call that broke one would run on. The model proves that no caller breaks one. For example, `AvailableActions` returns only on-board, unvisited moves.
- Java's 32-bit `int` arithmetic is not modelled, because no score can come near overflow. The largest letter sum is 16 × 10 × 3, and the multiplier is at most 3. The `compareTo` subtraction cannot overflow for the same reason.
- WordLists.WordList.Remove: when several entries share the least score, removes any one of them. `PriorityQueue`'s internal tie order is not modelled.
- Explorer.Scramble.FindWords: states the result as ascending and as a permutation of the collected entries, rather than as one exact sequence, because the tie order among equal scores is left open.
