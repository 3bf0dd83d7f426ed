/** The exhaustive search: the worklist of states seeded with one state per
    cell, the order in which states leave it, and the words it collects. */
module Explorer {
  import opened Actions
  import opened Locations
  import opened Boards
  import opened Util
  import opened PathSpec
  import opened States
  import opened WordLists

  function Reverse<T>(s: seq<T>): (r: seq<T>)
    ensures |r| == |s|
  {
    if s == [] then [] else [Last(s)] + Reverse(s[..|s| - 1])
  }

  /** Reverse puts the element i places from the end at place i. */
  lemma {:induction false} ReverseIndex<T>(s: seq<T>)
    ensures forall i :: 0 <= i < |s| ==> Reverse(s)[i] == s[|s| - 1 - i]
    decreases |s|
  {
    if s != [] {
      var q := s[..|s| - 1];
      ReverseIndex(q);
      assert forall i :: 0 <= i < |q| ==> q[i] == s[i];
    }
  }

  /** Pushing the next element on the front extends the reversed prefix. */
  lemma ReverseStep<T>(s: seq<T>, i: nat, tail: seq<T>)
    requires i < |s|
    ensures Reverse(s[..i + 1]) + tail == [s[i]] + (Reverse(s[..i]) + tail)
  {
    assert s[..i + 1][..i] == s[..i];
  }

  // ---------------------------------------------------------------------------
  // Termination: every child has one unvisited cell fewer than its parent, and
  // a parent has at most eight children, so the sum of 9^(unvisited cells)
  // over the worklist drops at every step.

  ghost const AllCells: set<Cell> := set x, y | 0 <= x < Size && 0 <= y < Size :: Cell(x, y)

  ghost function Unvisited(p: Path): nat
  {
    |AllCells - Elems(p)|
  }

  ghost function Pow9(n: nat): (r: nat)
    ensures r >= 1
  {
    if n == 0 then 1 else 9 * Pow9(n - 1)
  }

  ghost function Measure(f: seq<Path>): nat
  {
    if f == [] then 0 else Pow9(Unvisited(f[0])) + Measure(f[1..])
  }

  lemma UnvisitedStep(p: Path, t: Cell)
    requires InBounds(t) && t !in p
    ensures Unvisited(p) >= 1 && Unvisited(p + [t]) == Unvisited(p) - 1
  {
    assert t in AllCells by {
      assert t == Cell(t.x, t.y);
    }
    assert Elems(p + [t]) == Elems(p) + {t};
    var rest := AllCells - Elems(p);
    assert t in rest;
    assert AllCells - Elems(p + [t]) == rest - {t};
    assert rest == (rest - {t}) + {t};
  }

  lemma {:induction false} MeasureAppend(a: seq<Path>, b: seq<Path>)
    ensures Measure(a + b) == Measure(a) + Measure(b)
  {
    if a == [] {
      assert a + b == b;
    } else {
      assert (a + b)[1..] == a[1..] + b;
      MeasureAppend(a[1..], b);
    }
  }

  lemma {:induction false} MeasureReverse(s: seq<Path>)
    ensures Measure(Reverse(s)) == Measure(s)
  {
    if s != [] {
      var q := s[..|s| - 1];
      MeasureReverse(q);
      assert s == q + [Last(s)];
      MeasureAppend(q, [Last(s)]);
      assert Reverse(s)[1..] == Reverse(q);
    }
  }

  /** Paths that each leave u cells unvisited weigh at most n times 9^u together, if there are at most n. */
  lemma {:induction false} MeasureAtMost(s: seq<Path>, u: nat, n: nat)
    requires |s| <= n
    requires forall i :: 0 <= i < |s| ==> Unvisited(s[i]) == u
    ensures Measure(s) <= n * Pow9(u)
  {
    if s != [] {
      MeasureAtMost(s[1..], u, n - 1);
      assert (n - 1) * Pow9(u) + Pow9(u) == n * Pow9(u);
    }
  }

  /** Each child is well-formed and has one unvisited cell fewer than its parent. */
  lemma ChildrenShrink(b: Board, maxWordSize: int, p: Path, cs: seq<Path>)
    requires WellFormed(p) && cs == Children(b, maxWordSize, p)
    ensures AllWellFormed(cs)
    ensures cs != [] ==> Unvisited(p) >= 1
    ensures forall i :: 0 <= i < |cs| ==> Unvisited(cs[i]) == Unvisited(p) - 1
  {
    forall i | 0 <= i < |cs| ensures WellFormed(cs[i]) && Unvisited(p) >= 1 && Unvisited(cs[i]) == Unvisited(p) - 1 {
      OneLonger(p, cs[i]);
      UnvisitedStep(p, Last(cs[i]));
    }
  }

  lemma AllWellFormedJoin(cs: seq<Path>, rest: seq<Path>)
    requires AllWellFormed(cs) && AllWellFormed(rest)
    ensures AllWellFormed(Reverse(cs) + rest)
  {
    ReverseIndex(cs);
  }

  /** At most eight children, each weighing a ninth of their parent. */
  lemma ChildrenLighter(cs: seq<Path>, u: nat)
    requires 1 <= u && |cs| <= 8
    requires forall i :: 0 <= i < |cs| ==> Unvisited(cs[i]) == u - 1
    ensures Measure(cs) < Pow9(u)
  {
    MeasureAtMost(cs, u - 1, 8);
  }

  /** One pop-and-push step keeps the worklist well-formed and lowers its measure. */
  lemma StepDecreases(b: Board, maxWordSize: int, f: seq<Path>)
    requires f != [] && AllWellFormed(f)
    ensures AllWellFormed(Reverse(Children(b, maxWordSize, f[0])) + f[1..])
    ensures Measure(Reverse(Children(b, maxWordSize, f[0])) + f[1..]) < Measure(f)
  {
    var cs := Children(b, maxWordSize, f[0]);
    ChildrenShrink(b, maxWordSize, f[0], cs);
    AllWellFormedJoin(cs, f[1..]);
    MeasureAppend(Reverse(cs), f[1..]);
    MeasureReverse(cs);
    if cs != [] {
      ChildrenLighter(cs, Unvisited(f[0]));
    }
  }

  // ---------------------------------------------------------------------------
  // The order in which the search loop takes states off the worklist

  /** The paths in the order the loop takes them: the head is taken; unless its
      word has reached maxWordSize, its children, built in ordinal order, are
      each pushed on the front, so the last action's child comes next. */
  function Visits(b: Board, maxWordSize: int, fringe: seq<Path>): (r: seq<Path>)
    requires AllWellFormed(fringe)
    ensures AllWellFormed(r)
    decreases Measure(fringe)
  {
    if fringe == [] then []
    else
      StepDecreases(b, maxWordSize, fringe);
      [fringe[0]] + Visits(b, maxWordSize, Reverse(Children(b, maxWordSize, fringe[0])) + fringe[1..])
  }

  /** The seeds, in the order the constructor appends them: row by row, and
      west to east within a row. */
  function SeedCell(n: int): (c: Cell)
    ensures 0 <= n < 16 ==> InBounds(c)
  {
    Cell(n % 4, n / 4)
  }

  function Seeds(): (r: seq<Path>)
    ensures |r| == 16
    ensures forall n :: 0 <= n < |r| ==> r[n] == [SeedCell(n)]
    ensures AllWellFormed(r)
  {
    seq(16, n => [SeedCell(n)])
  }

  /** The seed created for row y, column x sits at position 4y + x. */
  lemma SeedIndex(y: int, x: int)
    requires 0 <= y < 4 && 0 <= x < 4
    ensures Seeds()[..4 * y + x + 1] == Seeds()[..4 * y + x] + [[Cell(x, y)]]
  {
    assert SeedCell(4 * y + x) == Cell(x, y);
  }

  // ---------------------------------------------------------------------------
  // What the collector holds after a sequence of visited states

  /** A visited path whose word is handed to the collector. */
  predicate Admissible(b: Board, isWord: string -> bool, minWordSize: int, p: Path)
    requires AllInBounds(p)
  {
    isWord(WordOf(b, p)) && |WordOf(b, p)| >= minWordSize
  }

  /** The collector's admission order after the given visits. */
  function Found(b: Board, isWord: string -> bool, minWordSize: int, trace: seq<Path>): (r: seq<Entry>)
    requires AllWellFormed(trace)
    ensures DistinctWords(r)
    ensures forall e :: e in r ==> isWord(e.word) && |e.word| >= minWordSize
    decreases |trace|
  {
    if trace == [] then []
    else
      var es := Found(b, isWord, minWordSize, trace[..|trace| - 1]);
      var p := Last(trace);
      if Admissible(b, isWord, minWordSize, p) then AddEntry(es, WordOf(b, p), PathScore(b, p)) else es
  }

  lemma VisitsStep(b: Board, maxWordSize: int, f: seq<Path>)
    requires f != [] && AllWellFormed(f)
    ensures AllWellFormed(Reverse(Children(b, maxWordSize, f[0])) + f[1..])
    ensures Measure(Reverse(Children(b, maxWordSize, f[0])) + f[1..]) < Measure(f)
    ensures Visits(b, maxWordSize, f)
      == [f[0]] + Visits(b, maxWordSize, Reverse(Children(b, maxWordSize, f[0])) + f[1..])
  {
    StepDecreases(b, maxWordSize, f);
  }

  /** Taking the head of the worklist moves it from the pending visits to the end of the trace. */
  lemma TakeHead(b: Board, maxWordSize: int, f: seq<Path>, trace: seq<Path>, all: seq<Path>)
    requires f != [] && AllWellFormed(f) && trace + Visits(b, maxWordSize, f) == all
    ensures AllWellFormed(Reverse(Children(b, maxWordSize, f[0])) + f[1..])
    ensures (trace + [f[0]]) + Visits(b, maxWordSize, Reverse(Children(b, maxWordSize, f[0])) + f[1..]) == all
    ensures |Visits(b, maxWordSize, Reverse(Children(b, maxWordSize, f[0])) + f[1..])| < |Visits(b, maxWordSize, f)|
  {
    VisitsStep(b, maxWordSize, f);
    var rest := Visits(b, maxWordSize, Reverse(Children(b, maxWordSize, f[0])) + f[1..]);
    assert (trace + [f[0]]) + rest == trace + ([f[0]] + rest);
  }

  lemma FoundStep(b: Board, isWord: string -> bool, minWordSize: int, trace: seq<Path>, p: Path)
    requires AllWellFormed(trace) && WellFormed(p)
    ensures AllWellFormed(trace + [p])
    ensures Found(b, isWord, minWordSize, trace + [p])
      == if Admissible(b, isWord, minWordSize, p)
         then AddEntry(Found(b, isWord, minWordSize, trace), WordOf(b, p), PathScore(b, p))
         else Found(b, isWord, minWordSize, trace)
  {
    assert (trace + [p])[..|trace|] == trace;
  }

  // ---------------------------------------------------------------------------
  // Properties of the search

  /** Every cell of the board is seeded, and only board cells are. */
  lemma SeedsCoverBoard(c: Cell)
    ensures InBounds(c) <==> [c] in Seeds()
  {
    if InBounds(c) {
      assert SeedCell(4 * c.y + c.x) == c;
      assert Seeds()[4 * c.y + c.x] == [c];
    }
  }

  /** No cell is seeded twice. */
  lemma SeedsDistinct(i: int, j: int)
    requires 0 <= i < j < 16
    ensures Seeds()[i] != Seeds()[j]
  {
    assert i == 4 * (i / 4) + i % 4 && j == 4 * (j / 4) + j % 4;
    assert SeedCell(i) != SeedCell(j);
  }

  /** Visit j hands the word w to the collector. */
  ghost predicate AdmittedAt(b: Board, isWord: string -> bool, minWordSize: int, trace: seq<Path>, j: int, w: string)
    requires AllWellFormed(trace)
  {
    0 <= j < |trace| && Admissible(b, isWord, minWordSize, trace[j]) && WordOf(b, trace[j]) == w
  }

  /** Visit i is the first visit that hands e's word over, and e is its word and score. */
  ghost predicate FirstArrival(b: Board, isWord: string -> bool, minWordSize: int, trace: seq<Path>, i: int, e: Entry)
    requires AllWellFormed(trace)
  {
    AdmittedAt(b, isWord, minWordSize, trace, i, e.word)
    && e.score == PathScore(b, trace[i])
    && forall j :: 0 <= j < i ==> !AdmittedAt(b, isWord, minWordSize, trace, j, e.word)
  }

  lemma AdmittedPrefix(b: Board, isWord: string -> bool, minWordSize: int, trace: seq<Path>, w: string)
    requires AllWellFormed(trace) && trace != []
    ensures AllWellFormed(trace[..|trace| - 1])
    ensures forall j :: 0 <= j < |trace| - 1 ==>
      (AdmittedAt(b, isWord, minWordSize, trace, j, w) <==> AdmittedAt(b, isWord, minWordSize, trace[..|trace| - 1], j, w))
  {
  }

  lemma AdmittedPrefixAt(b: Board, isWord: string -> bool, minWordSize: int, trace: seq<Path>, j: int, w: string)
    requires AllWellFormed(trace) && 0 <= j < |trace| - 1
    ensures AllWellFormed(trace[..|trace| - 1])
    ensures AdmittedAt(b, isWord, minWordSize, trace, j, w) <==> AdmittedAt(b, isWord, minWordSize, trace[..|trace| - 1], j, w)
  {
  }

  /** One more visit adds its word to the collector's words when it is admissible. */
  lemma FoundWordsStep(b: Board, isWord: string -> bool, minWordSize: int, trace: seq<Path>)
    requires AllWellFormed(trace) && trace != []
    ensures AllWellFormed(trace[..|trace| - 1])
    ensures Words(Found(b, isWord, minWordSize, trace)) ==
      Words(Found(b, isWord, minWordSize, trace[..|trace| - 1]))
      + (if Admissible(b, isWord, minWordSize, Last(trace)) then {WordOf(b, Last(trace))} else {})
  {
  }

  /** A word the collector holds was handed over by some visit. */
  lemma {:induction false} FoundWordsSound(b: Board, isWord: string -> bool, minWordSize: int, trace: seq<Path>, w: string)
    requires AllWellFormed(trace) && w in Words(Found(b, isWord, minWordSize, trace))
    ensures exists j :: AdmittedAt(b, isWord, minWordSize, trace, j, w)
    decreases |trace|
  {
    var q := trace[..|trace| - 1];
    FoundWordsStep(b, isWord, minWordSize, trace);
    if w in Words(Found(b, isWord, minWordSize, q)) {
      FoundWordsSound(b, isWord, minWordSize, q, w);
      var j :| AdmittedAt(b, isWord, minWordSize, q, j, w);
      AdmittedPrefixAt(b, isWord, minWordSize, trace, j, w);
    } else {
      assert AdmittedAt(b, isWord, minWordSize, trace, |q|, w);
    }
  }

  /** A word handed over by visit j is held by the collector. */
  lemma {:induction false} FoundWordsComplete(b: Board, isWord: string -> bool, minWordSize: int, trace: seq<Path>, j: int, w: string)
    requires AllWellFormed(trace) && AdmittedAt(b, isWord, minWordSize, trace, j, w)
    ensures w in Words(Found(b, isWord, minWordSize, trace))
    decreases |trace|
  {
    var q := trace[..|trace| - 1];
    FoundWordsStep(b, isWord, minWordSize, trace);
    if j < |q| {
      AdmittedPrefixAt(b, isWord, minWordSize, trace, j, w);
      FoundWordsComplete(b, isWord, minWordSize, q, j, w);
    }
  }

  /** The collector holds a word exactly when some visit handed it over. */
  lemma FoundWords(b: Board, isWord: string -> bool, minWordSize: int, trace: seq<Path>, w: string)
    requires AllWellFormed(trace)
    ensures w in Words(Found(b, isWord, minWordSize, trace)) <==>
      exists j :: AdmittedAt(b, isWord, minWordSize, trace, j, w)
  {
    if w in Words(Found(b, isWord, minWordSize, trace)) {
      FoundWordsSound(b, isWord, minWordSize, trace, w);
    }
    if exists j :: AdmittedAt(b, isWord, minWordSize, trace, j, w) {
      var j :| AdmittedAt(b, isWord, minWordSize, trace, j, w);
      FoundWordsComplete(b, isWord, minWordSize, trace, j, w);
    }
  }

  /** A first arrival before the last visit is one in the shorter trace. */
  lemma FirstArrivalPrefix(b: Board, isWord: string -> bool, minWordSize: int, trace: seq<Path>, i: int, e: Entry)
    requires AllWellFormed(trace) && 0 <= i < |trace| - 1
    ensures AllWellFormed(trace[..|trace| - 1])
    ensures FirstArrival(b, isWord, minWordSize, trace, i, e) <==>
      FirstArrival(b, isWord, minWordSize, trace[..|trace| - 1], i, e)
  {
    var q := trace[..|trace| - 1];
    assert q[i] == trace[i];
    forall j | 0 <= j <= i
      ensures AdmittedAt(b, isWord, minWordSize, trace, j, e.word) <==> AdmittedAt(b, isWord, minWordSize, q, j, e.word)
    {
      assert q[j] == trace[j];
    }
  }

  /** What one more visit adds to the collector: its entry, when its word is admissible and new. */
  lemma FoundMembers(b: Board, isWord: string -> bool, minWordSize: int, trace: seq<Path>, e: Entry)
    requires AllWellFormed(trace) && trace != []
    ensures AllWellFormed(trace[..|trace| - 1])
    ensures e in Found(b, isWord, minWordSize, trace) <==>
      e in Found(b, isWord, minWordSize, trace[..|trace| - 1])
      || (Admissible(b, isWord, minWordSize, Last(trace))
          && e == Entry(WordOf(b, Last(trace)), PathScore(b, Last(trace)))
          && e.word !in Words(Found(b, isWord, minWordSize, trace[..|trace| - 1])))
  {
  }

  /** The last visit is a first arrival exactly when it hands over a word the
      collector did not yet hold. */
  lemma FirstArrivalLast(b: Board, isWord: string -> bool, minWordSize: int, trace: seq<Path>, e: Entry)
    requires AllWellFormed(trace) && trace != []
    ensures AllWellFormed(trace[..|trace| - 1])
    ensures FirstArrival(b, isWord, minWordSize, trace, |trace| - 1, e) <==>
      Admissible(b, isWord, minWordSize, Last(trace))
      && e == Entry(WordOf(b, Last(trace)), PathScore(b, Last(trace)))
      && e.word !in Words(Found(b, isWord, minWordSize, trace[..|trace| - 1]))
  {
    var q := trace[..|trace| - 1];
    AdmittedPrefix(b, isWord, minWordSize, trace, e.word);
    FoundWords(b, isWord, minWordSize, q, e.word);
    if e.word in Words(Found(b, isWord, minWordSize, q)) {
      var j :| AdmittedAt(b, isWord, minWordSize, q, j, e.word);
      assert AdmittedAt(b, isWord, minWordSize, trace, j, e.word);
    }
  }

  /** The collector holds exactly one entry per admitted word: the word and
      score of the first visit that handed that word over. */
  lemma {:induction false} FoundIsFirstArrival(b: Board, isWord: string -> bool, minWordSize: int, trace: seq<Path>, e: Entry)
    requires AllWellFormed(trace)
    ensures e in Found(b, isWord, minWordSize, trace) <==>
      exists i :: FirstArrival(b, isWord, minWordSize, trace, i, e)
    decreases |trace|
  {
    if trace != [] {
      var q := trace[..|trace| - 1];
      FoundIsFirstArrival(b, isWord, minWordSize, q, e);
      FirstArrivalLast(b, isWord, minWordSize, trace, e);
      FoundMembers(b, isWord, minWordSize, trace, e);
      if e in Found(b, isWord, minWordSize, q) {
        var i :| FirstArrival(b, isWord, minWordSize, q, i, e);
        FirstArrivalPrefix(b, isWord, minWordSize, trace, i, e);
      } else if e in Found(b, isWord, minWordSize, trace) {
        assert FirstArrival(b, isWord, minWordSize, trace, |q|, e);
      }
      if exists i :: FirstArrival(b, isWord, minWordSize, trace, i, e) {
        var i :| FirstArrival(b, isWord, minWordSize, trace, i, e);
        if i < |q| {
          FirstArrivalPrefix(b, isWord, minWordSize, trace, i, e);
        }
      }
    }
  }

  /** Every proper prefix of a path spells a word shorter than maxWordSize:
      each of its ancestors was expanded. */
  ghost predicate ShortPrefixes(b: Board, maxWordSize: int, p: Path)
    requires AllInBounds(p)
  {
    forall k :: 1 <= k < |p| ==> |WordOf(b, p[..k])| < maxWordSize
  }

  /** The paths the search reaches from the seeds: self-avoiding on the board,
      with every proper prefix short enough to have been expanded. */
  ghost predicate Reachable(b: Board, maxWordSize: int, p: Path)
  {
    ValidPath(p) && ShortPrefixes(b, maxWordSize, p)
  }

  ghost predicate AllReachable(b: Board, maxWordSize: int, fs: seq<Path>)
  {
    forall i :: 0 <= i < |fs| ==> Reachable(b, maxWordSize, fs[i])
  }

  /** The children of a reachable path are reachable. */
  lemma ChildrenReachable(b: Board, maxWordSize: int, p: Path, cs: seq<Path>)
    requires Reachable(b, maxWordSize, p) && cs == Children(b, maxWordSize, p)
    ensures AllReachable(b, maxWordSize, cs)
  {
    forall i | 0 <= i < |cs| ensures Reachable(b, maxWordSize, cs[i]) {
      var q := cs[i];
      ChildValid(b, maxWordSize, p, q);
      ChildIsLegalExtension(b, maxWordSize, p, q);
      forall k | 1 <= k < |q| ensures |WordOf(b, q[..k])| < maxWordSize {
        if k == |p| {
          assert q[..k] == p;
        } else {
          assert q[..k] == p[..k];
        }
      }
    }
  }

  lemma AllReachableJoin(b: Board, maxWordSize: int, cs: seq<Path>, rest: seq<Path>)
    requires AllReachable(b, maxWordSize, cs) && AllReachable(b, maxWordSize, rest)
    ensures AllReachable(b, maxWordSize, Reverse(cs) + rest)
  {
    var g := Reverse(cs) + rest;
    ReverseIndex(cs);
    forall i | 0 <= i < |g| ensures Reachable(b, maxWordSize, g[i]) {
      if i < |cs| {
        assert g[i] == cs[|cs| - 1 - i];
      } else {
        assert g[i] == rest[i - |cs|];
      }
    }
  }

  lemma AllReachableCons(b: Board, maxWordSize: int, fs: seq<Path>, rest: seq<Path>)
    requires fs != [] && AllReachable(b, maxWordSize, fs) && AllReachable(b, maxWordSize, rest)
    ensures AllReachable(b, maxWordSize, [fs[0]] + rest)
  {
    var g := [fs[0]] + rest;
    forall i | 0 <= i < |g| ensures Reachable(b, maxWordSize, g[i]) {
      if i > 0 {
        assert g[i] == rest[i - 1];
      }
    }
  }

  /** Starting from reachable paths, the search visits only reachable paths:
      it never leaves the board, never revisits a cell, and never expands a
      path whose word has reached maxWordSize. */
  lemma {:induction false} VisitsReachable(b: Board, maxWordSize: int, f: seq<Path>)
    requires AllWellFormed(f) && AllReachable(b, maxWordSize, f)
    ensures AllReachable(b, maxWordSize, Visits(b, maxWordSize, f))
    decreases Measure(f)
  {
    if f != [] {
      var cs := Children(b, maxWordSize, f[0]);
      var g := Reverse(cs) + f[1..];
      VisitsStep(b, maxWordSize, f);
      ChildrenReachable(b, maxWordSize, f[0], cs);
      AllReachableJoin(b, maxWordSize, cs, f[1..]);
      VisitsReachable(b, maxWordSize, g);
      AllReachableCons(b, maxWordSize, f, Visits(b, maxWordSize, g));
    }
  }

  /** Every seed is reachable. */
  lemma SeedsReachable(b: Board, maxWordSize: int)
    ensures AllWellFormed(Seeds()) && AllReachable(b, maxWordSize, Seeds())
  {
  }

  /** A word grows by at most two characters per cell. */
  lemma WordGrowth(b: Board, p: Path)
    requires AllInBounds(p) && p != []
    ensures |WordOf(b, p)| <= |WordOf(b, p[..|p| - 1])| + 2
  {
  }

  /** Every path the search visits from the seeds is self-avoiding on the
      board and spells a word of at most maxWordSize + 1 characters (a
      two-character "qu" tile can overshoot by one), or is a single seed. */
  lemma VisitedFromSeeds(b: Board, maxWordSize: int, i: int)
    requires 0 <= i < |Visits(b, maxWordSize, Seeds())|
    ensures ValidPath(Visits(b, maxWordSize, Seeds())[i])
    ensures |Visits(b, maxWordSize, Seeds())[i]| == 1
      || |WordOf(b, Visits(b, maxWordSize, Seeds())[i])| <= maxWordSize + 1
  {
    SeedsReachable(b, maxWordSize);
    VisitsReachable(b, maxWordSize, Seeds());
    var q := Visits(b, maxWordSize, Seeds())[i];
    if |q| >= 2 {
      WordGrowth(b, q);
    }
  }

  // ---------------------------------------------------------------------------
  // Completeness: the search visits every reachable path, and each only once

  /** q is p, or is reached from p by taking children again and again. */
  ghost predicate Desc(b: Board, maxWordSize: int, p: Path, q: Path)
  {
    WellFormed(p) && |p| <= |q| && q[..|p|] == p
    && forall k :: |p| <= k < |q| ==> WellFormed(q[..k]) && q[..k + 1] in Children(b, maxWordSize, q[..k])
  }

  /** A proper descendant descends from one of the children. */
  lemma DescFirstStep(b: Board, maxWordSize: int, p: Path, q: Path)
    requires Desc(b, maxWordSize, p, q) && q != p
    ensures q[..|p| + 1] in Children(b, maxWordSize, p)
    ensures Desc(b, maxWordSize, q[..|p| + 1], q)
  {
    assert |q| > |p|;
    var c := q[..|p| + 1];
    assert q[..|p|] == p;
    ChildrenShrink(b, maxWordSize, p, Children(b, maxWordSize, p));
    assert q[..|c|] == c;
  }

  /** The next worklist holds the children, reversed, ahead of the rest. */
  lemma JoinChild(cs: seq<Path>, rest: seq<Path>, j: int)
    requires 0 <= j < |cs|
    ensures (Reverse(cs) + rest)[|cs| - 1 - j] == cs[j]
  {
    ReverseIndex(cs);
  }

  lemma JoinChildAt(cs: seq<Path>, rest: seq<Path>, i: int)
    requires 0 <= i < |cs|
    ensures (Reverse(cs) + rest)[i] == cs[|cs| - 1 - i]
  {
    ReverseIndex(cs);
  }

  lemma JoinTailAt(cs: seq<Path>, f: seq<Path>, i: int)
    requires f != [] && |cs| <= i < |cs| + |f| - 1
    ensures (Reverse(cs) + f[1..])[i] == f[i - |cs| + 1]
  {
    var r, t := Reverse(cs), f[1..];
    assert (r + t)[i] == t[i - |r|];
  }

  /** Position i of the next worklist holds a child of the head, counted from
      the last child, or one of the paths behind the head. */
  lemma NextAt(cs: seq<Path>, f: seq<Path>, i: int)
    requires f != [] && 0 <= i < |Reverse(cs) + f[1..]|
    ensures i < |cs| ==> (Reverse(cs) + f[1..])[i] == cs[|cs| - 1 - i]
    ensures i >= |cs| ==> (Reverse(cs) + f[1..])[i] == f[i - |cs| + 1]
  {
    if i < |cs| {
      JoinChildAt(cs, f[1..], i);
    } else {
      JoinTailAt(cs, f, i);
    }
  }

  /** A proper descendant of the head descends from one of the pushed children. */
  lemma DescOfHead(b: Board, maxWordSize: int, f: seq<Path>, q: Path)
    requires AllWellFormed(f) && f != [] && Desc(b, maxWordSize, f[0], q) && q != f[0]
    ensures exists k :: 0 <= k < |(Reverse(Children(b, maxWordSize, f[0])) + f[1..])| && Desc(b, maxWordSize, (Reverse(Children(b, maxWordSize, f[0])) + f[1..])[k], q)
  {
    var cs := Children(b, maxWordSize, f[0]);
    DescFirstStep(b, maxWordSize, f[0], q);
    var j :| 0 <= j < |cs| && cs[j] == q[..|f[0]| + 1];
    JoinChild(cs, f[1..], j);
    assert Desc(b, maxWordSize, (Reverse(Children(b, maxWordSize, f[0])) + f[1..])[|cs| - 1 - j], q);
  }

  /** Every descendant of a path on the worklist is visited. */
  lemma {:induction false} VisitsDesc(b: Board, maxWordSize: int, f: seq<Path>, i: int, q: Path)
    requires AllWellFormed(f) && 0 <= i < |f| && Desc(b, maxWordSize, f[i], q)
    ensures q in Visits(b, maxWordSize, f)
    decreases Measure(f)
  {
    var cs := Children(b, maxWordSize, f[0]);
    var g := Reverse(cs) + f[1..];
    VisitsStep(b, maxWordSize, f);
    if i > 0 {
      JoinTailAt(cs, f, |cs| + i - 1);
      VisitsDesc(b, maxWordSize, g, |cs| + i - 1, q);
    } else if q != f[0] {
      DescOfHead(b, maxWordSize, f, q);
      var k :| 0 <= k < |g| && Desc(b, maxWordSize, g[k], q);
      VisitsDesc(b, maxWordSize, g, k, q);
    }
  }

  /** A reachable path descends from the seed at its first cell. */
  lemma ReachableDesc(b: Board, maxWordSize: int, q: Path)
    requires Reachable(b, maxWordSize, q)
    ensures Desc(b, maxWordSize, [q[0]], q)
  {
    ValidPathIsSelfAvoiding(q);
    assert q[..1] == [q[0]];
    forall k | 1 <= k < |q|
      ensures WellFormed(q[..k]) && q[..k + 1] in Children(b, maxWordSize, q[..k])
    {
      PrefixStep(b, maxWordSize, q, k);
    }
  }

  /** Each longer prefix of a reachable path is a child of the shorter one. */
  lemma PrefixStep(b: Board, maxWordSize: int, q: Path, k: int)
    requires Reachable(b, maxWordSize, q) && SelfAvoiding(q) && 1 <= k < |q|
    ensures WellFormed(q[..k]) && q[..k + 1] in Children(b, maxWordSize, q[..k])
  {
    var p, c := q[..k], q[..k + 1];
    assert c[..k] == p && Last(c) == q[k] && Last(p) == q[k - 1];
    assert q[k] !in p by {
      forall i | 0 <= i < k ensures p[i] != q[k] {
        assert p[i] == q[i];
      }
    }
    LegalExtensionIsChild(b, maxWordSize, p, c);
  }

  /** Every reachable path is visited by the search from the seeds. */
  lemma ReachableVisited(b: Board, maxWordSize: int, q: Path)
    requires Reachable(b, maxWordSize, q)
    ensures q in Visits(b, maxWordSize, Seeds())
  {
    ReachableDesc(b, maxWordSize, q);
    var n := 4 * q[0].y + q[0].x;
    assert SeedCell(n) == q[0];
    SeedsReachable(b, maxWordSize);
    VisitsDesc(b, maxWordSize, Seeds(), n, q);
  }

  /** The search from the seeds visits exactly the reachable paths. */
  lemma VisitedExactly(b: Board, maxWordSize: int, q: Path)
    ensures q in Visits(b, maxWordSize, Seeds()) <==> Reachable(b, maxWordSize, q)
  {
    if q in Visits(b, maxWordSize, Seeds()) {
      SeedsReachable(b, maxWordSize);
      VisitsReachable(b, maxWordSize, Seeds());
    }
    if Reachable(b, maxWordSize, q) {
      ReachableVisited(b, maxWordSize, q);
    }
  }


  /** q starts with p. */
  predicate Extends(q: Path, p: Path)
  {
    |p| <= |q| && q[..|p|] == p
  }

  lemma ExtendsTrans(r: Path, q: Path, p: Path)
    requires Extends(r, q) && Extends(q, p)
    ensures Extends(r, p)
  {
    assert r[..|p|] == r[..|q|][..|p|];
  }

  /** No path of a worklist starts with another of its paths. */
  ghost predicate PrefixFree(f: seq<Path>)
  {
    forall i, j :: 0 <= i < |f| && 0 <= j < |f| && i != j ==> !Extends(f[j], f[i])
  }

  /** A path that extends a path of the next worklist extends one of the current worklist. */
  lemma ExtendsThroughStep(b: Board, maxWordSize: int, f: seq<Path>, q: Path, i: int)
    requires AllWellFormed(f) && f != []
    requires 0 <= i < |Reverse(Children(b, maxWordSize, f[0])) + f[1..]|
    requires Extends(q, (Reverse(Children(b, maxWordSize, f[0])) + f[1..])[i])
    ensures exists k :: 0 <= k < |f| && Extends(q, f[k])
  {
    var cs := Children(b, maxWordSize, f[0]);
    NextAt(cs, f, i);
    if i < |cs| {
      ExtendsTrans(q, cs[|cs| - 1 - i], f[0]);
    } else {
      assert Extends(q, f[i - |cs| + 1]);
    }
  }

  /** Every path the search visits extends a path of the worklist it starts from. */
  lemma {:induction false} VisitedExtends(b: Board, maxWordSize: int, f: seq<Path>, q: Path)
    requires AllWellFormed(f) && q in Visits(b, maxWordSize, f)
    ensures exists i :: 0 <= i < |f| && Extends(q, f[i])
    decreases Measure(f)
  {
    var g := Reverse(Children(b, maxWordSize, f[0])) + f[1..];
    VisitsStep(b, maxWordSize, f);
    if q == f[0] {
      assert Extends(q, f[0]);
    } else {
      VisitedExtends(b, maxWordSize, g, q);
      var i :| 0 <= i < |g| && Extends(q, g[i]);
      ExtendsThroughStep(b, maxWordSize, f, q, i);
    }
  }

  /** A child of p and a path r with neither of p and r starting with the
      other: neither of the child and r starts with the other. */
  lemma ChildApart(p: Path, c: Path, r: Path)
    requires |c| == |p| + 1 && Extends(c, p)
    requires !Extends(r, p) && !Extends(p, r)
    ensures !Extends(r, c) && !Extends(c, r)
  {
    if Extends(r, c) {
      ExtendsTrans(r, c, p);
    }
  }

  /** Two different paths of the same length in a reversed list: neither starts with the other. */
  lemma ReversedApart(cs: seq<Path>, rest: seq<Path>, len: int, i: int, j: int)
    requires Distinct(cs) && forall k :: 0 <= k < |cs| ==> |cs[k]| == len
    requires 0 <= i < |cs| && 0 <= j < |cs| && i != j
    ensures !Extends((Reverse(cs) + rest)[j], (Reverse(cs) + rest)[i])
  {
    JoinChildAt(cs, rest, i);
    JoinChildAt(cs, rest, j);
    var x, y := |cs| - 1 - i, |cs| - 1 - j;
    assert cs[x] != cs[y] by {
      if x < y {
        assert cs[x] != cs[y];
      } else {
        assert cs[y] != cs[x];
      }
    }
    assert cs[y][..len] == cs[y];
  }

  lemma PrefixFreeAt(f: seq<Path>, x: int, y: int)
    requires PrefixFree(f) && 0 <= x < |f| && 0 <= y < |f| && x != y
    ensures !Extends(f[y], f[x])
  {
  }

  /** A child of the head and a path behind the head: neither starts with the other. */
  lemma ChildBesideTail(cs: seq<Path>, f: seq<Path>, i: int, j: int)
    requires f != [] && PrefixFree(f)
    requires forall k :: 0 <= k < |cs| ==> |cs[k]| == |f[0]| + 1 && cs[k][..|f[0]|] == f[0]
    requires 0 <= i < |cs| <= j < |cs| + |f| - 1
    ensures !Extends((Reverse(cs) + f[1..])[j], (Reverse(cs) + f[1..])[i])
    ensures !Extends((Reverse(cs) + f[1..])[i], (Reverse(cs) + f[1..])[j])
  {
    var n := |cs|;
    JoinChildAt(cs, f[1..], i);
    JoinTailAt(cs, f, j);
    PrefixFreeAt(f, 0, j - n + 1);
    PrefixFreeAt(f, j - n + 1, 0);
    ChildApart(f[0], cs[n - 1 - i], f[j - n + 1]);
  }

  /** Two paths behind the head: neither starts with the other. */
  lemma TailsApart(cs: seq<Path>, f: seq<Path>, i: int, j: int)
    requires f != [] && PrefixFree(f)
    requires |cs| <= i < |cs| + |f| - 1 && |cs| <= j < |cs| + |f| - 1 && i != j
    ensures !Extends((Reverse(cs) + f[1..])[j], (Reverse(cs) + f[1..])[i])
  {
    var n := |cs|;
    JoinTailAt(cs, f, i);
    JoinTailAt(cs, f, j);
    PrefixFreeAt(f, i - n + 1, j - n + 1);
  }

  /** Replacing the head of a prefix-free worklist by distinct one-cell
      extensions of it, pushed in reverse, keeps the worklist prefix-free. */
  lemma PrefixFreeJoin(cs: seq<Path>, f: seq<Path>)
    requires f != [] && PrefixFree(f) && Distinct(cs)
    requires forall k :: 0 <= k < |cs| ==> |cs[k]| == |f[0]| + 1 && cs[k][..|f[0]|] == f[0]
    ensures PrefixFree(Reverse(cs) + f[1..])
  {
    var g := Reverse(cs) + f[1..];
    var n := |cs|;
    forall i, j | 0 <= i < |g| && 0 <= j < |g| && i != j ensures !Extends(g[j], g[i]) {
      if i < n && j < n {
        ReversedApart(cs, f[1..], |f[0]| + 1, i, j);
      } else if i < n {
        ChildBesideTail(cs, f, i, j);
      } else if j < n {
        ChildBesideTail(cs, f, j, i);
      } else {
        TailsApart(cs, f, i, j);
      }
    }
  }

  /** After one step the worklist is still prefix-free: the children differ
      from each other, and from the other paths as their parent does. */
  lemma PrefixFreeStep(b: Board, maxWordSize: int, f: seq<Path>)
    requires AllWellFormed(f) && f != [] && PrefixFree(f)
    ensures PrefixFree(Reverse(Children(b, maxWordSize, f[0])) + f[1..])
  {
    ChildrenDistinct(b, maxWordSize, f[0]);
    PrefixFreeJoin(Children(b, maxWordSize, f[0]), f);
  }

  /** The head of a prefix-free worklist starts with no path of the next
      worklist: not with a child, which is longer, nor with a later path. */
  lemma HeadStartsWithNone(cs: seq<Path>, f: seq<Path>, i: int)
    requires f != [] && PrefixFree(f)
    requires forall k :: 0 <= k < |cs| ==> |cs[k]| == |f[0]| + 1
    requires 0 <= i < |Reverse(cs) + f[1..]|
    ensures !Extends(f[0], (Reverse(cs) + f[1..])[i])
  {
    NextAt(cs, f, i);
    if i >= |cs| {
      PrefixFreeAt(f, i - |cs| + 1, 0);
    }
  }

  /** The head of a prefix-free worklist is not visited again after it is taken. */
  lemma HeadNotRevisited(b: Board, maxWordSize: int, f: seq<Path>)
    requires AllWellFormed(f) && f != [] && PrefixFree(f)
    ensures AllWellFormed(Reverse(Children(b, maxWordSize, f[0])) + f[1..])
    ensures f[0] !in Visits(b, maxWordSize, Reverse(Children(b, maxWordSize, f[0])) + f[1..])
  {
    var cs := Children(b, maxWordSize, f[0]);
    var g := Reverse(cs) + f[1..];
    VisitsStep(b, maxWordSize, f);
    if f[0] in Visits(b, maxWordSize, g) {
      VisitedExtends(b, maxWordSize, g, f[0]);
      var i :| 0 <= i < |g| && Extends(f[0], g[i]);
      HeadStartsWithNone(cs, f, i);
    }
  }

  /** A prefix-free worklist is searched without visiting any path twice. */
  lemma {:induction false} VisitsDistinct(b: Board, maxWordSize: int, f: seq<Path>)
    requires AllWellFormed(f) && PrefixFree(f)
    ensures Distinct(Visits(b, maxWordSize, f))
    decreases Measure(f)
  {
    if f != [] {
      var g := Reverse(Children(b, maxWordSize, f[0])) + f[1..];
      VisitsStep(b, maxWordSize, f);
      PrefixFreeStep(b, maxWordSize, f);
      VisitsDistinct(b, maxWordSize, g);
      HeadNotRevisited(b, maxWordSize, f);
      DistinctCons(f[0], Visits(b, maxWordSize, g));
    }
  }

  /** The seeds are prefix-free: single cells, all different. */
  lemma SeedsPrefixFree()
    ensures PrefixFree(Seeds())
  {
    forall i, j | 0 <= i < 16 && 0 <= j < 16 && i != j ensures !Extends(Seeds()[j], Seeds()[i]) {
      if i < j {
        SeedsDistinct(i, j);
      } else {
        SeedsDistinct(j, i);
      }
    }
  }

  /** The search from the seeds visits no path twice. */
  lemma VisitsOnce(b: Board, maxWordSize: int)
    ensures Distinct(Visits(b, maxWordSize, Seeds()))
  {
    SeedsPrefixFree();
    SeedsReachable(b, maxWordSize);
    VisitsDistinct(b, maxWordSize, Seeds());
  }


  /** Every word the collector ends holding is spelt by a reachable path
      whose word is admissible. */
  lemma FoundFromSeedsSound(b: Board, isWord: string -> bool, minWordSize: int, maxWordSize: int, w: string)
    requires w in Words(Found(b, isWord, minWordSize, Visits(b, maxWordSize, Seeds())))
    ensures exists q :: Reachable(b, maxWordSize, q) && Admissible(b, isWord, minWordSize, q) && WordOf(b, q) == w
  {
    var trace := Visits(b, maxWordSize, Seeds());
    FoundWords(b, isWord, minWordSize, trace, w);
    var j :| AdmittedAt(b, isWord, minWordSize, trace, j, w);
    SeedsReachable(b, maxWordSize);
    VisitsReachable(b, maxWordSize, Seeds());
    assert Reachable(b, maxWordSize, trace[j]);
  }

  /** Every admissible word of a reachable path is collected. */
  lemma FoundFromSeedsComplete(b: Board, isWord: string -> bool, minWordSize: int, maxWordSize: int, q: Path)
    requires Reachable(b, maxWordSize, q) && Admissible(b, isWord, minWordSize, q)
    ensures WordOf(b, q) in Words(Found(b, isWord, minWordSize, Visits(b, maxWordSize, Seeds())))
  {
    var trace := Visits(b, maxWordSize, Seeds());
    ReachableVisited(b, maxWordSize, q);
    var j :| 0 <= j < |trace| && trace[j] == q;
    FoundWordsComplete(b, isWord, minWordSize, trace, j, WordOf(b, q));
  }

  /** The search from the seeds collects a word exactly when some reachable
      path spells it, it is in the dictionary and it has at least minWordSize
      characters. */
  lemma FoundFromSeeds(b: Board, isWord: string -> bool, minWordSize: int, maxWordSize: int, w: string)
    ensures w in Words(Found(b, isWord, minWordSize, Visits(b, maxWordSize, Seeds()))) <==>
      exists q :: Reachable(b, maxWordSize, q) && Admissible(b, isWord, minWordSize, q) && WordOf(b, q) == w
  {
    if w in Words(Found(b, isWord, minWordSize, Visits(b, maxWordSize, Seeds()))) {
      FoundFromSeedsSound(b, isWord, minWordSize, maxWordSize, w);
    }
    if exists q :: Reachable(b, maxWordSize, q) && Admissible(b, isWord, minWordSize, q) && WordOf(b, q) == w {
      var q :| Reachable(b, maxWordSize, q) && Admissible(b, isWord, minWordSize, q) && WordOf(b, q) == w;
      FoundFromSeedsComplete(b, isWord, minWordSize, maxWordSize, q);
    }
  }

  /** What FindWords returns after the constructor seeded every cell: a word
      is in the result exactly when a reachable path spells it and it is a
      dictionary word of at least minWordSize characters. */
  lemma ResultWords(b: Board, isWord: string -> bool, minWordSize: int, maxWordSize: int, result: seq<Entry>, w: string)
    requires multiset(result) == multiset(Found(b, isWord, minWordSize, Visits(b, maxWordSize, Seeds())))
    ensures w in Words(result) <==>
      exists q :: Reachable(b, maxWordSize, q) && Admissible(b, isWord, minWordSize, q) && WordOf(b, q) == w
  {
    SameWords(result, Found(b, isWord, minWordSize, Visits(b, maxWordSize, Seeds())));
    FoundFromSeeds(b, isWord, minWordSize, maxWordSize, w);
  }

  // ---------------------------------------------------------------------------
  // A whole board of plain 'a' tiles

  ghost predicate PlainABoard(b: Board)
  {
    forall c :: InBounds(c) ==> TileAt(b, c) == Tile('a', NoBonus)
  }

  /** On a plain 'a' board, a path spelling "aaaa" has four cells and scores 4. */
  lemma PlainAFour(b: Board, p: Path)
    requires PlainABoard(b) && AllInBounds(p) && WordOf(b, p) == "aaaa"
    ensures |p| == 4 && PathScore(b, p) == 4
  {
    PlainAScore(b, p);
    assert |WordOf(b, p)| == |p|;
  }

  /** The bottom row, west to east, is reachable and spells "aaaa". */
  lemma BottomRow(b: Board, maxWordSize: int) returns (q: Path)
    requires PlainABoard(b) && maxWordSize >= 4
    ensures Reachable(b, maxWordSize, q) && WordOf(b, q) == "aaaa"
  {
    q := [Cell(0, 0), Cell(1, 0), Cell(2, 0), Cell(3, 0)];
    ValidPathIsSelfAvoiding(q);
    forall k | 1 <= k < |q| ensures |WordOf(b, q[..k])| < maxWordSize {
      PlainAScore(b, q[..k]);
    }
    PlainAScore(b, q);
    assert seq(4, _ => 'a') == "aaaa";
  }

  /** Every entry collected on a plain 'a' board with "aaaa" the only
      dictionary word is "aaaa" scoring 4. */
  lemma PlainAEntry(b: Board, isWord: string -> bool, minWordSize: int, maxWordSize: int, e: Entry)
    requires PlainABoard(b) && forall w :: isWord(w) <==> w == "aaaa"
    requires e in Found(b, isWord, minWordSize, Visits(b, maxWordSize, Seeds()))
    ensures e == Entry("aaaa", 4)
  {
    var trace := Visits(b, maxWordSize, Seeds());
    FoundIsFirstArrival(b, isWord, minWordSize, trace, e);
    var i :| FirstArrival(b, isWord, minWordSize, trace, i, e);
    PlainAFour(b, trace[i]);
  }

  /** On a board of plain 'a' tiles whose dictionary holds only "aaaa", with
      minWordSize at most 4 and maxWordSize at least 4, the collector ends
      holding exactly one entry: "aaaa" scoring 4 (letter sum 4, length bonus 0). */
  lemma PlainAFindsAaaa(b: Board, isWord: string -> bool, minWordSize: int, maxWordSize: int)
    requires PlainABoard(b) && forall w :: isWord(w) <==> w == "aaaa"
    requires minWordSize <= 4 <= maxWordSize
    ensures Found(b, isWord, minWordSize, Visits(b, maxWordSize, Seeds())) == [Entry("aaaa", 4)]
  {
    var es := Found(b, isWord, minWordSize, Visits(b, maxWordSize, Seeds()));
    var q := BottomRow(b, maxWordSize);
    FoundFromSeedsComplete(b, isWord, minWordSize, maxWordSize, q);
    assert es != [];
    PlainAEntry(b, isWord, minWordSize, maxWordSize, es[0]);
    if |es| > 1 {
      PlainAEntry(b, isWord, minWordSize, maxWordSize, es[1]);
      DistinctWordsPairwise(es);
      assert false;
    }
  }
  /** On that board FindWords, after the constructor, returns exactly ("aaaa", 4). */
  lemma PlainAResult(b: Board, isWord: string -> bool, minWordSize: int, maxWordSize: int, result: seq<Entry>)
    requires PlainABoard(b) && (forall w :: isWord(w) <==> w == "aaaa")
    requires minWordSize <= 4 <= maxWordSize
    requires multiset(result) == multiset(Found(b, isWord, minWordSize, Visits(b, maxWordSize, Seeds())))
    ensures result == [Entry("aaaa", 4)]
  {
    PlainAFindsAaaa(b, isWord, minWordSize, maxWordSize);
    assert multiset(result) == multiset{Entry("aaaa", 4)};
    assert |result| == 1;
    assert result[0] in multiset(result);
  }


  // ---------------------------------------------------------------------------
  // The search state objects on the worklist

  /** Every state is valid, on board b, and follows the matching ghost path. */
  ghost predicate StatesValid(fs: seq<State>, b: Board, ps: seq<Path>)
    reads fs, set s | s in fs :: s.loc
    ensures StatesValid(fs, b, ps) ==> |ps| == |fs| && AllWellFormed(ps)
  {
    |fs| == |ps| && forall i :: 0 <= i < |fs| ==> fs[i].Valid() && fs[i].board == b && fs[i].path == ps[i]
  }

  lemma StatesValidAppend(fs: seq<State>, b: Board, ps: seq<Path>, s: State)
    requires StatesValid(fs, b, ps) && s.Valid() && s.board == b
    ensures StatesValid(fs + [s], b, ps + [s.path])
  {
    assert forall i :: 0 <= i < |fs| ==> (fs + [s])[i] == fs[i] && (ps + [s.path])[i] == ps[i];
  }

  lemma StatesValidPrepend(fs: seq<State>, b: Board, ps: seq<Path>, s: State, p: Path)
    requires StatesValid(fs, b, ps) && s.Valid() && s.board == b && s.path == p
    ensures StatesValid([s] + fs, b, [p] + ps)
  {
    assert forall i :: 0 < i <= |fs| ==> ([s] + fs)[i] == fs[i - 1] && ([p] + ps)[i] == ps[i - 1];
  }

  lemma StatesValidAt(fs: seq<State>, b: Board, ps: seq<Path>, i: int)
    requires StatesValid(fs, b, ps) && 0 <= i < |fs|
    ensures fs[i].Valid() && fs[i].board == b && fs[i].path == ps[i]
  {
  }

  lemma StatesValidTail(fs: seq<State>, b: Board, ps: seq<Path>)
    requires StatesValid(fs, b, ps) && fs != []
    ensures StatesValid(fs[1..], b, ps[1..])
    ensures fs[0].Valid() && fs[0].board == b && fs[0].path == ps[0]
  {
  }

  class Scramble {
    const board: Board
    const isWord: string -> bool
    const minWordSize: int
    const maxWordSize: int
    /** The worklist (a linked list used as a deque). */
    var fringe: seq<State>
    /** The paths of the worklist's states. */
    ghost var fringePaths: seq<Path>

    /** Seeds the worklist with one state per cell, appended at the tail row by row. */
    constructor (b: Board, dict: string -> bool, minSize: int, maxSize: int)
      ensures board == b && isWord == dict && minWordSize == minSize && maxWordSize == maxSize
      ensures fringePaths == Seeds() && StatesValid(fringe, board, fringePaths)
    {
      board, isWord, minWordSize, maxWordSize := b, dict, minSize, maxSize;
      fringe, fringePaths := [], [];
      new;
      for i := 0 to 4
        invariant fringePaths == Seeds()[..4 * i]
        invariant StatesValid(fringe, board, fringePaths)
      {
        for j := 0 to 4
          invariant fringePaths == Seeds()[..4 * i + j]
          invariant StatesValid(fringe, board, fringePaths)
        {
          SeedIndex(i, j);
          Seed(j, i);
        }
      }
    }

    /** Appends a fresh seed state at cell (x, y) to the tail of the worklist. */
    method Seed(x: int, y: int)
      requires InBounds(Cell(x, y)) && StatesValid(fringe, board, fringePaths)
      modifies this
      ensures StatesValid(fringe, board, fringePaths)
      ensures fringePaths == old(fringePaths) + [[Cell(x, y)]]
    {
      var s := SeedState(x, y);
      assert StatesValid(fringe, board, fringePaths);
      StatesValidAppend(fringe, board, fringePaths, s);
      fringe, fringePaths := fringe + [s], fringePaths + [s.path];
    }

    /** A fresh state holding just the cell (x, y). */
    method SeedState(x: int, y: int) returns (s: State)
      requires InBounds(Cell(x, y))
      ensures fresh(s) && s.Valid() && s.board == board && s.path == [Cell(x, y)]
    {
      var l := new Location(x, y);
      s := new State(board, l);
    }

    /** Runs the search to exhaustion and drains the collector. The result is
        the collector's entries, smallest score first. */
    method FindWords() returns (result: seq<Entry>)
      requires StatesValid(fringe, board, fringePaths)
      modifies this
      ensures fringe == [] && fringePaths == []
      ensures Ascending(result)
      ensures multiset(result) == multiset(Found(board, isWord, minWordSize, Visits(board, maxWordSize, old(fringePaths))))
      ensures forall e :: e in Found(board, isWord, minWordSize, Visits(board, maxWordSize, old(fringePaths))) ==>
        multiset(result)[e] == 1
      ensures forall e :: e in result ==> isWord(e.word) && |e.word| >= minWordSize
    {
      var found := Search();
      result := Drain(found);
      forall e | e in found.order ensures multiset(result)[e] == 1 {
        DistinctOnce(found.order, e);
      }
      forall e | e in result ensures e in found.order {
        assert e in multiset(result);
      }
    }

    /** The worklist loop: takes the head state, hands its word to the
        collector when it is a dictionary word of at least minWordSize
        characters, and unless the word has reached maxWordSize pushes the
        state's children on the front. */
    method Search() returns (found: WordList)
      requires StatesValid(fringe, board, fringePaths)
      modifies this
      ensures fresh(found) && found.Valid()
      ensures found.order == Found(board, isWord, minWordSize, Visits(board, maxWordSize, old(fringePaths)))
      ensures fringe == [] && fringePaths == []
    {
      found := new WordList();
      ghost var start := fringePaths;
      ghost var trace: seq<Path> := [];
      while fringe != []
        invariant StatesValid(fringe, board, fringePaths)
        invariant AllWellFormed(trace)
        invariant trace + Visits(board, maxWordSize, fringePaths) == Visits(board, maxWordSize, start)
        invariant fresh(found) && found.Valid() && found.order == Found(board, isWord, minWordSize, trace)
        decreases |Visits(board, maxWordSize, fringePaths)|
      {
        trace := VisitHead(found, start, trace);
      }
      assert trace == Visits(board, maxWordSize, start) by {
        assert Visits(board, maxWordSize, fringePaths) == [];
      }
    }

    /** One turn of the worklist loop: takes the head state, visits it and
        grows the worklist by its children. */
    method VisitHead(found: WordList, ghost start: seq<Path>, ghost trace: seq<Path>) returns (ghost trace': seq<Path>)
      requires fringe != [] && StatesValid(fringe, board, fringePaths) && AllWellFormed(start)
      requires AllWellFormed(trace)
      requires trace + Visits(board, maxWordSize, fringePaths) == Visits(board, maxWordSize, start)
      requires found.Valid() && found.order == Found(board, isWord, minWordSize, trace)
      modifies this, found
      ensures StatesValid(fringe, board, fringePaths) && AllWellFormed(trace')
      ensures trace' + Visits(board, maxWordSize, fringePaths) == Visits(board, maxWordSize, start)
      ensures |Visits(board, maxWordSize, fringePaths)| < old(|Visits(board, maxWordSize, fringePaths)|)
      ensures found.Valid() && found.order == Found(board, isWord, minWordSize, trace')
    {
      ghost var f := fringePaths;
      TakeHead(board, maxWordSize, f, trace, Visits(board, maxWordSize, start));
      var s := Pop();
      Visit(found, s, trace);
      trace' := trace + [s.path];
      Grow(s);
    }

    /** Hands the state's word and score to the collector when the word is in
        the dictionary and has at least minWordSize characters. */
    method Visit(found: WordList, s: State, ghost trace: seq<Path>)
      requires found.Valid() && AllWellFormed(trace) && found.order == Found(board, isWord, minWordSize, trace)
      requires s.Valid() && s.board == board && StatesValid(fringe, board, fringePaths)
      modifies found
      ensures s.Valid() && StatesValid(fringe, board, fringePaths)
      ensures found.Valid() && AllWellFormed(trace + [s.path])
      ensures found.order == Found(board, isWord, minWordSize, trace + [s.path])
    {
      Collect(found, s.GetWord(), s.GetScore(), trace, s.path);
      assert s.Valid();
      assert StatesValid(fringe, board, fringePaths);
    }

    /** Adds the word w, scoring score, of the visited path p to the collector
        when the word is in the dictionary and has at least minWordSize characters. */
    method Collect(found: WordList, w: string, score: int, ghost trace: seq<Path>, ghost p: Path)
      requires found.Valid() && AllWellFormed(trace) && found.order == Found(board, isWord, minWordSize, trace)
      requires WellFormed(p) && w == WordOf(board, p) && score == PathScore(board, p)
      modifies found
      ensures found.Valid() && AllWellFormed(trace + [p])
      ensures found.order == Found(board, isWord, minWordSize, trace + [p])
    {
      if isWord(w) && |w| >= minWordSize {
        found.Add(w, score);
      }
      FoundStep(board, isWord, minWordSize, trace, p);
    }

    /** Unless the state's word has reached maxWordSize, pushes its children on
        the front of the worklist. */
    method Grow(s: State)
      requires s.Valid() && s.board == board && StatesValid(fringe, board, fringePaths)
      modifies this
      ensures StatesValid(fringe, board, fringePaths)
      ensures fringePaths == Reverse(Children(board, maxWordSize, s.path)) + old(fringePaths)
    {
      if |s.GetWord()| >= maxWordSize {
        return;
      }
      GrowChildren(s);
    }

    /** Pushes the children of a state whose word is still short. */
    method GrowChildren(s: State)
      requires s.Valid() && s.board == board && StatesValid(fringe, board, fringePaths)
      requires |WordOf(board, s.path)| < maxWordSize
      modifies this
      ensures StatesValid(fringe, board, fringePaths)
      ensures fringePaths == Reverse(Children(board, maxWordSize, s.path)) + old(fringePaths)
    {
      ghost var cs := Children(board, maxWordSize, s.path);
      var next := Expand(s);
      PushChildren(next, cs);
    }

    /** Takes the state at the head of the worklist. */
    method Pop() returns (s: State)
      requires StatesValid(fringe, board, fringePaths) && fringe != []
      modifies this
      ensures StatesValid(fringe, board, fringePaths)
      ensures fringe == old(fringe[1..]) && fringePaths == old(fringePaths[1..])
      ensures s.Valid() && s.board == board && s.path == old(fringePaths[0])
    {
      StatesValidTail(fringe, board, fringePaths);
      s := fringe[0];
      fringe := fringe[1..];
      fringePaths := fringePaths[1..];
    }

    /** The children of s, one per available action in ordinal order. */
    method Expand(s: State) returns (next: seq<State>)
      requires s.Valid() && s.board == board && |WordOf(board, s.path)| < maxWordSize
      ensures StatesValid(next, board, Children(board, maxWordSize, s.path))
    {
      var actions := s.AvailableActions();
      var order := InOrder(actions);
      next := NextStates(s, order);
      ChildrenByMoves(board, maxWordSize, s.path);
    }

    /** One child of s per action, in the given order. */
    method NextStates(s: State, order: seq<Action>) returns (next: seq<State>)
      requires s.Valid() && s.board == board
      requires forall k :: 0 <= k < |order| ==> order[k] in Moves(s.path)
      ensures StatesValid(next, board, Extend(s.path, order))
    {
      ghost var p := s.path;
      next := [];
      for i := 0 to |order|
        invariant StatesValid(next, board, Extend(p, order[..i]))
      {
        ExtendStep(p, order, i);
        next := AppendChild(s, next, Extend(p, order[..i]), order[i]);
      }
      assert order[..|order|] == order;
    }

    /** Appends the child of s by a legal move a to a list of valid states. */
    method AppendChild(s: State, next: seq<State>, ghost done: seq<Path>, a: Action) returns (next': seq<State>)
      requires s.Valid() && s.board == board && a in Moves(s.path)
      requires StatesValid(next, board, done)
      ensures StatesValid(next', board, done + [s.path + [Step(Last(s.path), a)]])
    {
      var child := s.Next(a);
      assert StatesValid(next, board, done);
      StatesValidAppend(next, board, done, child);
      next' := next + [child];
    }

    /** Pushes each state on the front of the worklist, in order. */
    method PushChildren(next: seq<State>, ghost children: seq<Path>)
      requires StatesValid(next, board, children) && StatesValid(fringe, board, fringePaths)
      modifies this
      ensures StatesValid(fringe, board, fringePaths)
      ensures fringePaths == Reverse(children) + old(fringePaths)
    {
      ghost var tail := fringePaths;
      for i := 0 to |next|
        invariant StatesValid(next, board, children)
        invariant StatesValid(fringe, board, fringePaths)
        invariant fringePaths == Reverse(children[..i]) + tail
      {
        ReverseStep(children, i, tail);
        StatesValidAt(next, board, children, i);
        PushFront(next[i], children[i]);
      }
      assert children[..|next|] == children;
    }

    /** Pushes one state on the front of the worklist. */
    method PushFront(s: State, ghost p: Path)
      requires s.Valid() && s.board == board && s.path == p
      requires StatesValid(fringe, board, fringePaths)
      modifies this
      ensures StatesValid(fringe, board, fringePaths)
      ensures fringe == [s] + old(fringe) && fringePaths == [p] + old(fringePaths)
    {
      StatesValidPrepend(fringe, board, fringePaths, s, p);
      fringe := [s] + fringe;
      fringePaths := [p] + fringePaths;
    }
  }

  /** Removes the collector's entries one at a time, smallest score first. */
  method Drain(found: WordList) returns (result: seq<Entry>)
    requires found.Valid()
    modifies found
    ensures Ascending(result)
    ensures multiset(result) == old(found.entries) && found.entries == multiset{}
    ensures found.order == old(found.order)
  {
    result := [];
    while !found.IsEmpty()
      invariant multiset(result) + found.entries == old(found.entries)
      invariant found.order == old(found.order)
      invariant Ascending(result)
      invariant result != [] ==> forall f :: f in found.entries ==> Last(result).score <= f.score
      decreases |found.entries|
    {
      var e := found.Remove();
      AscendingSnoc(result, e);
      result := result + [e];
    }
  }
}
