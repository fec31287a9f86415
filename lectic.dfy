/**
 * The lectic order on attribute sets.  A subset of 0 .. k-1 is read as a
 * k-digit binary number whose most significant digit is position 0; A
 * precedes B lectically when the first position where they differ is in B.
 * The rank is both that order and the measure that bounds every run of
 * NextClosure.
 */
module Lectic {
  import opened Lattice

  function Pow2(n: nat): (p: nat)
    ensures p >= 1
  {
    if n == 0 then 1 else 2 * Pow2(n - 1)
  }

  /** A, restricted to positions below k, as a binary number with position 0 the most significant digit. */
  function Rank(A: set<nat>, k: nat): nat {
    if k == 0 then 0 else 2 * Rank(A, k - 1) + (if k - 1 in A then 1 else 0)
  }

  /** A and B hold the same positions below i. */
  predicate AgreeBelow(A: set<nat>, B: set<nat>, i: nat) {
    forall j: nat :: j < i ==> (j in A <==> j in B)
  }

  /** A <_i B: the first position where A and B differ is i, and i is in B. */
  predicate LecticLessAt(A: set<nat>, B: set<nat>, i: nat) {
    AgreeBelow(A, B, i) && i !in A && i in B
  }

  lemma {:induction false} RankBound(A: set<nat>, k: nat)
    ensures Rank(A, k) < Pow2(k)
  {
    if k > 0 {
      RankBound(A, k - 1);
    }
  }

  /** The full set has the largest rank. */
  lemma {:induction false} RankOfRange(k: nat)
    ensures Rank(Range(k), k) == Pow2(k) - 1
  {
    if k > 0 {
      RankOfRange(k - 1);
      RankAgreeing(Range(k), Range(k - 1), k - 1);
    }
  }

  /** The rank only looks at positions below k. */
  lemma {:induction false} RankAgreeing(A: set<nat>, B: set<nat>, k: nat)
    requires AgreeBelow(A, B, k)
    ensures Rank(A, k) == Rank(B, k)
  {
    if k > 0 {
      RankAgreeing(A, B, k - 1);
    }
  }

  /** A <_i B makes A's rank smaller. */
  lemma {:induction false} RankLess(A: set<nat>, B: set<nat>, i: nat, k: nat)
    requires i < k && LecticLessAt(A, B, i)
    ensures Rank(A, k) < Rank(B, k)
  {
    if i == k - 1 {
      RankAgreeing(A, B, k - 1);
    } else {
      RankLess(A, B, i, k - 1);
    }
  }

  /** Adding positions never lowers the rank. */
  lemma {:induction false} RankMonotone(A: set<nat>, B: set<nat>, k: nat)
    requires A <= B
    ensures Rank(A, k) <= Rank(B, k)
  {
    if k > 0 {
      RankMonotone(A, B, k - 1);
    }
  }

  /** Equal ranks mean equal positions below k. */
  lemma {:induction false} RankAgree(A: set<nat>, B: set<nat>, k: nat)
    requires Rank(A, k) == Rank(B, k)
    ensures AgreeBelow(A, B, k)
  {
    if k > 0 {
      RankAgree(A, B, k - 1);
    }
  }

  lemma RankInjective(A: set<nat>, B: set<nat>, k: nat)
    requires A <= Range(k) && B <= Range(k) && Rank(A, k) == Rank(B, k)
    ensures A == B
  {
    RankAgree(A, B, k);
  }

  /** A smaller rank is witnessed by a first difference that lies in B. */
  lemma {:induction false} RankLessWitness(A: set<nat>, B: set<nat>, k: nat)
    requires Rank(A, k) < Rank(B, k)
    ensures exists i: nat :: i < k && LecticLessAt(A, B, i)
  {
    if Rank(A, k - 1) < Rank(B, k - 1) {
      RankLessWitness(A, B, k - 1);
      var i: nat :| i < k - 1 && LecticLessAt(A, B, i);
      assert i < k && LecticLessAt(A, B, i);
    } else {
      RankAgree(A, B, k - 1);
      assert LecticLessAt(A, B, k - 1);
    }
  }

  /** The inner loop of the extending steps: B and A hold the same positions below i. */
  method SameBelow(B: set<nat>, A: set<nat>, i: nat) returns (ok: bool)
    ensures ok <==> AgreeBelow(B, A, i)
  {
    ok := true;
    var j := 0;
    while j < i
      invariant 0 <= j <= i
      invariant forall k: nat :: k < j ==> (k in B <==> k in A)
    {
      if (j in B) != (j in A) {
        ok := false;
        break;
      }
      j := j + 1;
    }
  }
}
