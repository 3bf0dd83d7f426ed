/** The result collector: a set of admitted words and a priority queue of
    (word, score) entries ordered by score, smallest first. */
module WordLists {

  datatype Entry = Entry(word: string, score: int)

  function Words(es: seq<Entry>): set<string>
  {
    set e | e in es :: e.word
  }

  /** Two orderings of the same entries hold the same words. */
  lemma SameWords(xs: seq<Entry>, es: seq<Entry>)
    requires multiset(xs) == multiset(es)
    ensures Words(xs) == Words(es)
  {
    forall e ensures e in xs <==> e in es {
      assert e in xs <==> e in multiset(xs);
      assert e in es <==> e in multiset(es);
    }
  }

  /** No word is admitted twice: each entry's word is new when it is appended. */
  predicate DistinctWords(es: seq<Entry>)
    decreases |es|
  {
    es == [] || (DistinctWords(es[..|es| - 1]) && es[|es| - 1].word !in Words(es[..|es| - 1]))
  }

  /** Entries in non-decreasing score order: each entry scores at least its predecessor. */
  predicate Ascending(es: seq<Entry>)
    decreases |es|
  {
    |es| <= 1 || (Ascending(es[..|es| - 1]) && es[|es| - 2].score <= es[|es| - 1].score)
  }

  lemma {:induction false} DistinctWordsPairwise(es: seq<Entry>)
    ensures DistinctWords(es) <==> forall i, j :: 0 <= i < j < |es| ==> es[i].word != es[j].word
    decreases |es|
  {
    if es != [] {
      var q := es[..|es| - 1];
      DistinctWordsPairwise(q);
      assert forall i :: 0 <= i < |q| ==> q[i] == es[i];
      if DistinctWords(es) {
        forall i, j | 0 <= i < j < |es| ensures es[i].word != es[j].word {
          if j == |es| - 1 {
            assert es[i] in q;
          }
        }
      }
    }
  }

  lemma {:induction false} AscendingPairwise(es: seq<Entry>)
    ensures Ascending(es) <==> forall i, j :: 0 <= i < j < |es| ==> es[i].score <= es[j].score
    decreases |es|
  {
    if |es| > 1 {
      var q := es[..|es| - 1];
      AscendingPairwise(q);
      assert forall i :: 0 <= i < |q| ==> q[i] == es[i];
      if Ascending(es) {
        forall i, j | 0 <= i < j < |es| ensures es[i].score <= es[j].score {
          if j == |es| - 1 && i < j - 1 {
            assert q[i].score <= q[|q| - 1].score;
          }
        }
      }
    }
  }

  /** An entry scoring at least the last one keeps the order ascending. */
  lemma AscendingSnoc(es: seq<Entry>, e: Entry)
    requires Ascending(es) && (es != [] ==> es[|es| - 1].score <= e.score)
    ensures Ascending(es + [e])
  {
    var r := es + [e];
    assert r[..|r| - 1] == es;
    if es != [] {
      assert r[|r| - 2] == es[|es| - 1];
    }
  }

  /** Admission order after adding (word, score): a word already admitted is
      ignored, so the first score added for a word is the one kept. */
  function AddEntry(es: seq<Entry>, word: string, score: int): (r: seq<Entry>)
    ensures Words(r) == Words(es) + {word}
    ensures DistinctWords(es) ==> DistinctWords(r)
    ensures es <= r && |r| <= |es| + 1
    ensures word in Words(es) ==> r == es
    ensures word !in Words(es) ==> r == es + [Entry(word, score)]
  {
    if word in Words(es) then es
    else
      assert (es + [Entry(word, score)])[..|es|] == es;
      es + [Entry(word, score)]
  }

  /** Each entry of a list without repeated words occurs in it exactly once. */
  lemma {:induction false} DistinctOnce(es: seq<Entry>, e: Entry)
    requires DistinctWords(es) && e in es
    ensures multiset(es)[e] == 1
  {
    var q := es[..|es| - 1];
    assert es == q + [es[|es| - 1]];
    if e != es[|es| - 1] {
      DistinctOnce(q, e);
    }
  }

  /** Some entry of a non-empty multiset has the smallest score. */
  lemma {:induction false} MinExists(m: multiset<Entry>)
    requires m != multiset{}
    ensures exists e :: e in m && forall f :: f in m ==> e.score <= f.score
  {
    var x :| x in m;
    var rest := m - multiset{x};
    assert m == rest + multiset{x};
    if rest == multiset{} {
      assert m == multiset{x};
      assert forall f :: f in m ==> x.score <= f.score;
    } else {
      MinExists(rest);
      var y :| y in rest && forall f :: f in rest ==> y.score <= f.score;
      if x.score <= y.score {
        assert forall f :: f in m ==> x.score <= f.score;
      } else {
        assert y in m;
        assert forall f :: f in m ==> y.score <= f.score;
      }
    }
  }

  class WordList {
    var wordsFound: set<string>
    /** The priority queue's contents. */
    var entries: multiset<Entry>
    /** The admission order of the entries. */
    ghost var order: seq<Entry>

    ghost predicate Valid()
      reads this
    {
      wordsFound == Words(order) && entries == multiset(order) && DistinctWords(order)
    }

    constructor ()
      ensures Valid() && order == []
    {
      wordsFound := {};
      entries := multiset{};
      order := [];
    }

    /** Whether the queue is empty; while the collector is valid, that is
        exactly when no word has been admitted. */
    function IsEmpty(): (r: bool)
      reads this
      ensures r <==> entries == multiset{}
      ensures Valid() ==> (r <==> order == [] && wordsFound == {})
    {
      |entries| == 0
    }

    /** Adds an entry unless its word was already added. */
    method Add(word: string, score: int)
      requires Valid()
      modifies this
      ensures Valid() && order == AddEntry(old(order), word, score)
      ensures word in old(wordsFound) ==> wordsFound == old(wordsFound) && entries == old(entries)
      ensures word !in old(wordsFound) ==>
        wordsFound == old(wordsFound) + {word} && entries == old(entries) + multiset{Entry(word, score)}
    {
      if word !in wordsFound {
        wordsFound := wordsFound + {word};
        entries := entries + multiset{Entry(word, score)};
        order := order + [Entry(word, score)];
      }
    }

    /** Removes and returns an entry of smallest score (the queue's head under
        the ordering by score difference); which of several equal scores comes
        first is left open. The admitted-word set is not changed. */
    method Remove() returns (e: Entry)
      requires |entries| > 0
      modifies this
      ensures e in old(entries) && forall f :: f in old(entries) ==> e.score <= f.score
      ensures entries == old(entries) - multiset{e}
      ensures wordsFound == old(wordsFound) && order == old(order)
    {
      MinExists(entries);
      e :| e in entries && forall f :: f in entries ==> e.score <= f.score;
      entries := entries - multiset{e};
    }
  }
}
