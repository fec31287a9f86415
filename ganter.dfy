/**
 * Ganter's NextClosure step and the runs it produces, as specifications.
 * The programs modelled here try positions i from the last attribute down
 * to 0; at a position not in the current set A they close a candidate and
 * keep the first closure that passes a canonicity test.  They differ in the
 * candidate and in the test, captured by Variant.
 */
module Ganter {
  import opened Wrappers
  import opened Lattice
  import opened Lectic

  datatype Variant =
    | Truncating         // candidate (A ∩ {0..i-1}) ∪ {i}; the closure must agree with A below i
    | Extending          // candidate A ∪ {i}; the closure must agree with A below i
    | ExtendingOneSided  // candidate A ∪ {i}; the closure must add nothing below i

  function Candidate(v: Variant, A: set<nat>, i: nat): set<nat> {
    if v == Truncating then (set j | j in A && j < i) + {i} else A + {i}
  }

  predicate Canonical(v: Variant, B: set<nat>, A: set<nat>, i: nat) {
    if v == ExtendingOneSided then forall j: nat :: j < i && j in B ==> j in A
    else AgreeBelow(B, A, i)
  }

  /** Position i is not in A and the closure of its candidate passes the test. */
  predicate Accepts(ctx: Context, m: nat, A: set<nat>, v: Variant, i: nat) {
    i !in A && Canonical(v, Closure(ctx, m, Candidate(v, A, i)), A, i)
  }

  /** Tries positions k-1 down to 0; the first accepted one gives the result. */
  function Scan(ctx: Context, m: nat, A: set<nat>, v: Variant, k: nat): Option<set<nat>> {
    if k == 0 then None
    else if Accepts(ctx, m, A, v, k - 1) then Some(Closure(ctx, m, Candidate(v, A, k - 1)))
    else Scan(ctx, m, A, v, k - 1)
  }

  /** The step: None stands for the null (or empty) value the programs return at the end. */
  function Next(ctx: Context, m: nat, A: set<nat>, v: Variant): Option<set<nat>> {
    Scan(ctx, m, A, v, m)
  }

  /** One position of the scan. */
  lemma ScanAt(ctx: Context, m: nat, A: set<nat>, v: Variant, i: nat)
    ensures Scan(ctx, m, A, v, i + 1) ==
      if Accepts(ctx, m, A, v, i) then Some(Closure(ctx, m, Candidate(v, A, i))) else Scan(ctx, m, A, v, i)
  {
  }

  /** The test at a position outside A, on the closure B of its candidate. */
  lemma AcceptsAt(ctx: Context, m: nat, A: set<nat>, v: Variant, i: nat, B: set<nat>)
    requires i !in A && B == Closure(ctx, m, Candidate(v, A, i))
    ensures Accepts(ctx, m, A, v, i) <==> Canonical(v, B, A, i)
  {
  }

  /** Scan returns the closure at the highest accepted position below k, and None when there is none. */
  lemma {:induction false} ScanNone(ctx: Context, m: nat, A: set<nat>, v: Variant, k: nat)
    ensures Scan(ctx, m, A, v, k).None? <==> forall i: nat :: i < k ==> !Accepts(ctx, m, A, v, i)
  {
    if k > 0 {
      ScanNone(ctx, m, A, v, k - 1);
    }
  }

  lemma {:induction false} ScanSome(ctx: Context, m: nat, A: set<nat>, v: Variant, k: nat)
    requires Scan(ctx, m, A, v, k).Some?
    ensures exists i: nat ::
              && i < k && Accepts(ctx, m, A, v, i)
              && Scan(ctx, m, A, v, k).value == Closure(ctx, m, Candidate(v, A, i))
              && forall i': nat :: i < i' < k ==> !Accepts(ctx, m, A, v, i')
  {
    var i := k - 1;
    if !Accepts(ctx, m, A, v, i) {
      ScanSome(ctx, m, A, v, i);
      var w: nat :| w < i && Accepts(ctx, m, A, v, w)
        && Scan(ctx, m, A, v, i).value == Closure(ctx, m, Candidate(v, A, w))
        && forall i': nat :: w < i' < i ==> !Accepts(ctx, m, A, v, i');
      assert forall i': nat :: w < i' < k ==> !Accepts(ctx, m, A, v, i');
    }
  }

  lemma ScanFacts(ctx: Context, m: nat, A: set<nat>, v: Variant, k: nat)
    ensures Scan(ctx, m, A, v, k).None? <==> forall i: nat :: i < k ==> !Accepts(ctx, m, A, v, i)
    ensures Scan(ctx, m, A, v, k).Some? ==>
      exists i: nat :: i < k && Accepts(ctx, m, A, v, i)
        && Scan(ctx, m, A, v, k).value == Closure(ctx, m, Candidate(v, A, i))
        && forall i': nat :: i < i' < k ==> !Accepts(ctx, m, A, v, i')
  {
    ScanNone(ctx, m, A, v, k);
    if Scan(ctx, m, A, v, k).Some? {
      ScanSome(ctx, m, A, v, k);
    }
  }

  /**
   * Soundness and progress of every variant: the result is an intent that
   * follows A lectically, so its rank is larger; in particular it is not empty.
   */
  lemma NextSound(ctx: Context, m: nat, A: set<nat>, v: Variant)
    requires Rectangular(ctx, m) && A <= Range(m)
    requires Next(ctx, m, A, v).Some?
    ensures Closed(ctx, m, Next(ctx, m, A, v).value)
    ensures exists i: nat :: i < m && LecticLessAt(A, Next(ctx, m, A, v).value, i)
    ensures Rank(A, m) < Rank(Next(ctx, m, A, v).value, m)
    ensures Next(ctx, m, A, v).value != {}
  {
    ScanFacts(ctx, m, A, v, m);
    var B := Next(ctx, m, A, v).value;
    var i: nat :| i < m && Accepts(ctx, m, A, v, i) && B == Closure(ctx, m, Candidate(v, A, i));
    var C := Candidate(v, A, i);
    ClosureExtensive(ctx, m, C);
    ClosureClosed(ctx, m, C);
    if v != Truncating {
      assert A <= B;
    }
    assert LecticLessAt(A, B, i);
    RankLess(A, B, i, m);
  }

  /** The rule that adds nothing new below i accepts exactly where the agreeing rule does. */
  lemma {:induction false} OneSidedScanSame(ctx: Context, m: nat, A: set<nat>, k: nat)
    requires Rectangular(ctx, m) && A <= Range(m) && k <= m
    ensures Scan(ctx, m, A, ExtendingOneSided, k) == Scan(ctx, m, A, Extending, k)
  {
    if k > 0 {
      OneSidedScanSame(ctx, m, A, k - 1);
      OneSidedScanStep(ctx, m, A, k - 1);
    }
  }

  /** One more position keeps the two scans equal. */
  lemma OneSidedScanStep(ctx: Context, m: nat, A: set<nat>, i: nat)
    requires Rectangular(ctx, m) && A <= Range(m) && i < m
    requires Scan(ctx, m, A, ExtendingOneSided, i) == Scan(ctx, m, A, Extending, i)
    ensures Scan(ctx, m, A, ExtendingOneSided, i + 1) == Scan(ctx, m, A, Extending, i + 1)
  {
    OneSidedAccepts(ctx, m, A, i);
    assert Candidate(ExtendingOneSided, A, i) == Candidate(Extending, A, i);
    ScanAt(ctx, m, A, ExtendingOneSided, i);
    ScanAt(ctx, m, A, Extending, i);
  }

  /** Both extending rules test the same candidate, and agree on it since the closure contains A. */
  lemma OneSidedAccepts(ctx: Context, m: nat, A: set<nat>, i: nat)
    requires Rectangular(ctx, m) && A <= Range(m) && i < m
    ensures Accepts(ctx, m, A, ExtendingOneSided, i) == Accepts(ctx, m, A, Extending, i)
  {
    ClosureExtensive(ctx, m, A + {i});
  }

  lemma OneSidedSame(ctx: Context, m: nat, A: set<nat>)
    requires Rectangular(ctx, m) && A <= Range(m)
    ensures Next(ctx, m, A, ExtendingOneSided) == Next(ctx, m, A, Extending)
  {
    OneSidedScanSame(ctx, m, A, m);
  }

  /** Once every attribute is present no position is left to try. */
  lemma FullSetEnds(ctx: Context, m: nat, v: Variant)
    ensures Next(ctx, m, Range(m), v) == None
  {
    ScanFacts(ctx, m, Range(m), v, m);
  }

  /** If an intent B follows the intent A at i, the truncated candidate at i is accepted and closes inside B. */
  lemma TruncatedCandidateFits(ctx: Context, m: nat, A: set<nat>, B: set<nat>, i: nat)
    requires Rectangular(ctx, m) && Closed(ctx, m, A) && Closed(ctx, m, B)
    requires i < m && LecticLessAt(A, B, i)
    ensures Accepts(ctx, m, A, Truncating, i)
    ensures Closure(ctx, m, Candidate(Truncating, A, i)) <= B
  {
    var C := Candidate(Truncating, A, i);
    assert C <= B;
    ClosureLeast(ctx, m, C, B);
    ClosureExtensive(ctx, m, C);
  }

  /**
   * The truncating step is the lectic successor among intents: from an
   * intent A it returns the intent of least rank above A, and None exactly
   * when no intent lies above A.
   */
  lemma TruncatingIsSuccessor(ctx: Context, m: nat, A: set<nat>)
    requires Rectangular(ctx, m) && Closed(ctx, m, A)
    ensures Next(ctx, m, A, Truncating).None? <==>
      forall B :: Closed(ctx, m, B) ==> Rank(B, m) <= Rank(A, m)
    ensures Next(ctx, m, A, Truncating).Some? ==>
      forall B :: Closed(ctx, m, B) && Rank(A, m) < Rank(B, m) ==>
        Rank(Next(ctx, m, A, Truncating).value, m) <= Rank(B, m)
  {
    ScanFacts(ctx, m, A, Truncating, m);
    var r := Next(ctx, m, A, Truncating);
    if r.None? {
      forall B | Closed(ctx, m, B) ensures Rank(B, m) <= Rank(A, m) {
        if Rank(A, m) < Rank(B, m) {
          RankLessWitness(A, B, m);
          var i: nat :| i < m && LecticLessAt(A, B, i);
          TruncatedCandidateFits(ctx, m, A, B, i);
        }
      }
    } else {
      NextSound(ctx, m, A, Truncating);
      var D := r.value;
      var top: nat :| top < m && Accepts(ctx, m, A, Truncating, top)
        && D == Closure(ctx, m, Candidate(Truncating, A, top))
        && forall i': nat :: top < i' < m ==> !Accepts(ctx, m, A, Truncating, i');
      forall B | Closed(ctx, m, B) && Rank(A, m) < Rank(B, m) ensures Rank(D, m) <= Rank(B, m) {
        RankLessWitness(A, B, m);
        var i: nat :| i < m && LecticLessAt(A, B, i);
        TruncatedCandidateFits(ctx, m, A, B, i);
        if i == top {
          RankMonotone(D, B, m);
        } else {
          assert LecticLessAt(D, B, i);
          RankLess(D, B, i, m);
        }
      }
    }
  }

  /** The sets a run visits, starting from A and stepping until the step returns None. */
  function Chain(ctx: Context, m: nat, A: set<nat>, v: Variant): seq<set<nat>>
    requires Rectangular(ctx, m) && A <= Range(m)
    decreases Pow2(m) - Rank(A, m)
  {
    match Next(ctx, m, A, v)
    case None => [A]
    case Some(B) =>
      NextSound(ctx, m, A, v);
      RankBound(B, m);
      [A] + Chain(ctx, m, B, v)
  }

  /** One step of a run: the run from A is A followed by the run from the step's result. */
  lemma ChainUnfold(ctx: Context, m: nat, A: set<nat>, v: Variant)
    requires Rectangular(ctx, m) && A <= Range(m)
    ensures Next(ctx, m, A, v).None? ==> Chain(ctx, m, A, v) == [A]
    ensures Next(ctx, m, A, v).Some? ==>
      && Next(ctx, m, A, v).value <= Range(m)
      && Rank(A, m) < Rank(Next(ctx, m, A, v).value, m) < Pow2(m)
      && Chain(ctx, m, A, v) == [A] + Chain(ctx, m, Next(ctx, m, A, v).value, v)
  {
    if Next(ctx, m, A, v).Some? {
      NextSound(ctx, m, A, v);
      RankBound(Next(ctx, m, A, v).value, m);
    }
  }

  /** The k-th set of a run and the step taken from it. */
  lemma ChainAt(ctx: Context, m: nat, A: set<nat>, v: Variant, k: nat)
    requires Rectangular(ctx, m) && A <= Range(m)
    ensures var c := Chain(ctx, m, A, v);
      && |c| >= 1 && c[0] == A
      && (k < |c| ==> c[k] <= Range(m))
      && (k < |c| - 1 ==> Next(ctx, m, c[k], v) == Some(c[k + 1]))
      && (k == |c| - 1 ==> Next(ctx, m, c[k], v) == None)
  {
    ChainFacts(ctx, m, A, v);
  }

  /** Both extending variants make the same run from any start. */
  lemma {:induction false} OneSidedSameChain(ctx: Context, m: nat, A: set<nat>)
    requires Rectangular(ctx, m) && A <= Range(m)
    ensures Chain(ctx, m, A, ExtendingOneSided) == Chain(ctx, m, A, Extending)
    decreases Pow2(m) - Rank(A, m)
  {
    OneSidedSame(ctx, m, A);
    if Next(ctx, m, A, Extending).Some? {
      var B := Next(ctx, m, A, Extending).value;
      NextSound(ctx, m, A, Extending);
      RankBound(B, m);
      OneSidedSameChain(ctx, m, B);
    }
  }

  /**
   * What every run visits: it starts at A, each later set is an intent and
   * the step's result on its predecessor, ranks strictly increase (so no set
   * is visited twice), and the step ends the run at the last set.
   */
  lemma {:induction false} ChainFacts(ctx: Context, m: nat, A: set<nat>, v: Variant)
    requires Rectangular(ctx, m) && A <= Range(m)
    ensures var c := Chain(ctx, m, A, v);
      && |c| >= 1 && c[0] == A
      && (forall k :: 0 <= k < |c| ==> c[k] <= Range(m))
      && (forall k :: 0 < k < |c| ==> Closed(ctx, m, c[k]))
      && (forall k :: 0 <= k < |c| - 1 ==> Next(ctx, m, c[k], v) == Some(c[k + 1]))
      && Next(ctx, m, c[|c| - 1], v) == None
      && (forall k, l :: 0 <= k < l < |c| ==> Rank(c[k], m) < Rank(c[l], m))
    decreases Pow2(m) - Rank(A, m)
  {
    var c := Chain(ctx, m, A, v);
    match Next(ctx, m, A, v)
    case None =>
    case Some(B) =>
      NextSound(ctx, m, A, v);
      RankBound(B, m);
      ChainFacts(ctx, m, B, v);
      var t := Chain(ctx, m, B, v);
      assert c == [A] + t;
      forall k, l | 0 <= k < l < |c| ensures Rank(c[k], m) < Rank(c[l], m) {
        if k == 0 && l > 1 {
          assert Rank(t[0], m) < Rank(t[l - 1], m);
        }
      }
  }

  /** A run of the truncating step from an intent A visits every intent whose rank is at least A's. */
  lemma {:induction false} ChainComplete(ctx: Context, m: nat, A: set<nat>, B: set<nat>)
    requires Rectangular(ctx, m) && Closed(ctx, m, A) && Closed(ctx, m, B)
    requires Rank(A, m) <= Rank(B, m)
    ensures B in Chain(ctx, m, A, Truncating)
    decreases Pow2(m) - Rank(A, m)
  {
    if A != B {
      if Rank(A, m) == Rank(B, m) {
        RankInjective(A, B, m);
      }
      TruncatingIsSuccessor(ctx, m, A);
      var D := Next(ctx, m, A, Truncating).value;
      NextSound(ctx, m, A, Truncating);
      RankBound(D, m);
      ChainComplete(ctx, m, D, B);
    }
  }

  /** The run the programs perform: from the closure of the empty set. */
  function Enumeration(ctx: Context, m: nat, v: Variant): seq<set<nat>>
    requires Rectangular(ctx, m)
  {
    Chain(ctx, m, Closure(ctx, m, {}), v)
  }

  /**
   * NextClosure with the truncating step enumerates the intents exactly:
   * every visited set is an intent, every intent is visited, and they come
   * in strictly increasing lectic order, so each exactly once.
   */
  lemma TruncatingEnumerationExact(ctx: Context, m: nat)
    requires Rectangular(ctx, m)
    ensures forall B :: B in Enumeration(ctx, m, Truncating) <==> Closed(ctx, m, B)
    ensures var c := Enumeration(ctx, m, Truncating);
      forall k, l :: 0 <= k < l < |c| ==> Rank(c[k], m) < Rank(c[l], m)
  {
    var A := Closure(ctx, m, {});
    ClosureClosed(ctx, m, {});
    ChainFacts(ctx, m, A, Truncating);
    forall B | Closed(ctx, m, B) ensures B in Enumeration(ctx, m, Truncating) {
      ClosureMonotone(ctx, m, {}, B);
      RankMonotone(A, B, m);
      ChainComplete(ctx, m, A, B);
    }
  }

  /** The other variants are sound: a run from the closure of the empty set visits intents only, each once. */
  lemma EnumerationSound(ctx: Context, m: nat, v: Variant)
    requires Rectangular(ctx, m)
    ensures forall B :: B in Enumeration(ctx, m, v) ==> Closed(ctx, m, B)
    ensures var c := Enumeration(ctx, m, v);
      forall k, l :: 0 <= k < l < |c| ==> Rank(c[k], m) < Rank(c[l], m)
  {
    ClosureClosed(ctx, m, {});
    ChainFacts(ctx, m, Closure(ctx, m, {}), v);
  }
}
