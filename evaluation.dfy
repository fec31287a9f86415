/**
 * Agreement counts between a computed and a reference set of concepts:
 * the programs count the computed elements found in the reference set and
 * derive the false positives and false negatives from the two sizes.
 */
module Evaluation {

  /** Counts the elements of computed that gold contains, one element at a time. */
  method CountTruePositives<T(==)>(computed: set<T>, gold: set<T>) returns (truePos: nat)
    ensures truePos == |computed * gold|
  {
    truePos := 0;
    var rest := computed;
    while rest != {}
      invariant rest <= computed
      invariant truePos + |rest * gold| == |computed * gold|
      decreases |rest|
    {
      var s :| s in rest;
      if s in gold {
        truePos := truePos + 1;
      }
      assert rest * gold == if s in gold then (rest - {s}) * gold + {s} else (rest - {s}) * gold;
      rest := rest - {s};
    }
  }

  /** The three counts; false positives and false negatives are size differences, as in the programs. */
  method Counts<T(==)>(computed: set<T>, gold: set<T>) returns (truePos: nat, falsePos: int, falseNeg: int)
    ensures truePos == |computed * gold|
    ensures falsePos == |computed - gold| && falseNeg == |gold - computed|
    ensures truePos + falsePos == |computed| && truePos + falseNeg == |gold|
  {
    truePos := CountTruePositives(computed, gold);
    falsePos := |computed| - truePos;
    falseNeg := |gold| - truePos;
    SplitSizes(computed, gold);
    SplitSizes(gold, computed);
    assert gold * computed == computed * gold;
  }

  /** A set splits into the part inside another set and the part outside it. */
  lemma SplitSizes<T>(a: set<T>, b: set<T>)
    ensures |a * b| + |a - b| == |a|
  {
    assert a == (a * b) + (a - b);
    assert (a * b) * (a - b) == {};
  }
}
