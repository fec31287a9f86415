/**
 * FormalConceptAnalysis_SelfConsistency (and its copy
 * FormalConceptAnalysis_SelfConsistency2): NextClosure over boolean vectors
 * against a boolean matrix, with the two derivation operators written out as
 * "fill with true, then clear" loops.
 */
module SelfConsistency {
  import opened Wrappers
  import opened Lattice
  import opened Lectic
  import opened Ganter
  import opened FormalConcepts

  /** The shape every operation relies on: one row per object, one column per attribute. */
  predicate Shaped(context: Context, nObjects: nat, nAttributes: nat) {
    |context| == nObjects && Rectangular(context, nAttributes)
  }

  /** intent': a vector over the objects marking those that have every marked attribute. */
  method IntentPrime(intent: array<bool>, context: Context, nObjects: nat, nAttributes: nat)
    returns (extent: array<bool>)
    requires Shaped(context, nObjects, nAttributes) && intent.Length == nAttributes
    ensures extent.Length == nObjects
    ensures Members(extent[..]) == Extent(context, Members(intent[..]))
  {
    extent := new bool[nObjects](_ => true);
    for g := 0 to nObjects
      invariant forall h :: 0 <= h < g ==> (extent[h] <==> HasAll(context[h], Members(intent[..])))
      invariant forall h :: g <= h < nObjects ==> extent[h]
    {
      var m := 0;
      while m < nAttributes
        invariant 0 <= m <= nAttributes
        invariant extent[g]
        invariant forall k :: 0 <= k < m && intent[k] ==> context[g][k]
        invariant forall h :: 0 <= h < g ==> (extent[h] <==> HasAll(context[h], Members(intent[..])))
        invariant forall h :: g < h < nObjects ==> extent[h]
      {
        if intent[m] && !context[g][m] {
          extent[g] := false;
          break;
        }
        m := m + 1;
      }
    }
    assert forall g: nat :: g in Members(extent[..]) <==> g < nObjects && HasAll(context[g], Members(intent[..]));
  }

  /** extent': a vector over the attributes marking those every marked object has. */
  method ExtentPrime(extent: array<bool>, context: Context, nObjects: nat, nAttributes: nat)
    returns (intent: array<bool>)
    requires Shaped(context, nObjects, nAttributes) && extent.Length == nObjects
    ensures intent.Length == nAttributes
    ensures Members(intent[..]) == Intent(context, nAttributes, Members(extent[..]))
  {
    ghost var E := Members(extent[..]);
    intent := new bool[nAttributes](_ => true);
    for m := 0 to nAttributes
      invariant forall k :: 0 <= k < m ==> (intent[k] <==> SharedBy(context, E, k))
      invariant forall k :: m <= k < nAttributes ==> intent[k]
    {
      var g := 0;
      while g < nObjects
        invariant 0 <= g <= nObjects
        invariant intent[m]
        invariant forall h :: 0 <= h < g && extent[h] ==> context[h][m]
        invariant forall k :: 0 <= k < m ==> (intent[k] <==> SharedBy(context, E, k))
        invariant forall k :: m < k < nAttributes ==> intent[k]
      {
        if extent[g] && !context[g][m] {
          intent[m] := false;
          break;
        }
        g := g + 1;
      }
    }
    assert forall k: nat :: k in Members(intent[..]) <==> k < nAttributes && SharedBy(context, E, k);
  }

  /** closure(X) = extentPrime(intentPrime(X)). */
  method Closure(X: array<bool>, context: Context, nObjects: nat, nAttributes: nat) returns (c: array<bool>)
    requires Shaped(context, nObjects, nAttributes) && X.Length == nAttributes
    ensures c.Length == nAttributes
    ensures Members(c[..]) == Lattice.Closure(context, nAttributes, Members(X[..]))
  {
    var ext := IntentPrime(X, context, nObjects, nAttributes);
    c := ExtentPrime(ext, context, nObjects, nAttributes);
  }

  /** Ganter's step with the truncated candidate A[0..i-1] + {i}; null at the end. */
  method NextClosure(A: array<bool>, context: Context, nObjects: nat, nAttributes: nat)
    returns (r: array?<bool>)
    requires Shaped(context, nObjects, nAttributes) && A.Length == nAttributes
    ensures var next := Next(context, nAttributes, Members(A[..]), Truncating);
      && (r == null <==> next.None?)
      && (r != null ==> r.Length == nAttributes && Members(r[..]) == next.value)
  {
    ghost var S := Members(A[..]);
    var i := nAttributes - 1;
    while i >= 0
      invariant -1 <= i < nAttributes
      invariant Next(context, nAttributes, S, Truncating) == Scan(context, nAttributes, S, Truncating, i + 1)
    {
      if !A[i] {
        var B := new bool[nAttributes](_ => false);
        forall k | 0 <= k < i {
          B[k] := A[k];
        }
        B[i] := true;
        assert Members(B[..]) == Candidate(Truncating, S, i);
        B := Closure(B, context, nObjects, nAttributes);
        var ok := true;
        var j := 0;
        while j < i
          invariant 0 <= j <= i
          invariant forall k :: 0 <= k < j ==> B[k] == A[k]
        {
          if B[j] != A[j] {
            ok := false;
            break;
          }
          j := j + 1;
        }
        if ok {
          assert AgreeBelow(Members(B[..]), S, i);
          assert Accepts(context, nAttributes, S, Truncating, i);
          assert Scan(context, nAttributes, S, Truncating, i + 1) == Some(Members(B[..]));
          assert S == Members(A[..]);
          return B;
        }
        assert !AgreeBelow(Members(B[..]), S, i) by {
          assert j in Members(B[..]) <==> j !in S;
        }
      }
      i := i - 1;
    }
    return null;
  }

  /** Step 3 of the program: the closed intents, from the closure of the empty vector until null. */
  method ClosedIntents(context: Context, nObjects: nat, nAttributes: nat)
    returns (closedIntents: seq<array<bool>>)
    requires Shaped(context, nObjects, nAttributes)
    ensures var c := Enumeration(context, nAttributes, Truncating);
      && |closedIntents| == |c|
      && forall k :: 0 <= k < |c| ==> closedIntents[k].Length == nAttributes && Members(closedIntents[k][..]) == c[k]
  {
    var empty := new bool[nAttributes](_ => false);
    assert Members(empty[..]) == {};
    var intent: array? := Closure(empty, context, nObjects, nAttributes);
    ghost var all := Enumeration(context, nAttributes, Truncating);
    ChainFacts(context, nAttributes, Lattice.Closure(context, nAttributes, {}), Truncating);
    closedIntents := [];
    while intent != null
      invariant |closedIntents| < |all| || intent == null
      invariant intent != null ==> intent.Length == nAttributes && Members(intent[..]) == all[|closedIntents|]
      invariant intent == null ==> |closedIntents| == |all|
      invariant forall k :: 0 <= k < |closedIntents| ==>
        closedIntents[k].Length == nAttributes && Members(closedIntents[k][..]) == all[k]
      decreases |all| - |closedIntents|
    {
      ghost var k := |closedIntents|;
      ghost var before := closedIntents;
      closedIntents := closedIntents + [intent];
      assert closedIntents[..k] == before && closedIntents[k] == intent;
      intent := NextClosure(intent, context, nObjects, nAttributes);
      if k < |all| - 1 {
        assert Next(context, nAttributes, all[k], Truncating) == Some(all[k + 1]);
      } else {
        assert Next(context, nAttributes, all[k], Truncating) == None;
      }
    }
  }

  /** A closed intent paired with its extent, as the program prints it. */
  datatype Pair = Pair(intent: array<bool>, extent: array<bool>)

  /**
   * Step 5 of FormalConceptAnalysis_SelfConsistency: each closed intent paired
   * with intentPrime of it; the pair is a formal concept (Lattice.ConceptOfIntent).
   */
  method PairWithExtents(closedIntents: seq<array<bool>>, context: Context, nObjects: nat, nAttributes: nat)
    returns (pairs: seq<Pair>)
    requires Shaped(context, nObjects, nAttributes)
    requires forall k :: 0 <= k < |closedIntents| ==> closedIntents[k].Length == nAttributes
    ensures |pairs| == |closedIntents|
    ensures forall k :: 0 <= k < |pairs| ==>
      && pairs[k].intent == closedIntents[k]
      && pairs[k].extent.Length == nObjects
      && Members(pairs[k].extent[..]) == Extent(context, Members(closedIntents[k][..]))
  {
    pairs := [];
    for k := 0 to |closedIntents|
      invariant |pairs| == k
      invariant forall l :: 0 <= l < k ==>
        && pairs[l].intent == closedIntents[l]
        && pairs[l].extent.Length == nObjects
        && Members(pairs[l].extent[..]) == Extent(context, Members(closedIntents[l][..]))
    {
      var extent := IntentPrime(closedIntents[k], context, nObjects, nAttributes);
      pairs := pairs + [Pair(closedIntents[k], extent)];
    }
  }

  /** The concepts NextClosure finds, named: the set computeConcepts returns. */
  function NamedConcepts(context: Context, objectNames: seq<string>, attributeNames: seq<string>): set<FormalConcept>
    requires Shaped(context, |objectNames|, |attributeNames|)
  {
    var c := Enumeration(context, |attributeNames|, Truncating);
    ChainFacts(context, |attributeNames|, Lattice.Closure(context, |attributeNames|, {}), Truncating);
    set k | 0 <= k < |c| :: FormalConcept(Names(objectNames, Extent(context, c[k])), Names(attributeNames, c[k]))
  }

  /** Steps 3 and 4 of computeConcepts: the closed intents, each turned into a named concept. */
  method ComputeConcepts(context: Context, objectNames: seq<string>, attributeNames: seq<string>)
    returns (concepts: set<FormalConcept>)
    requires Shaped(context, |objectNames|, |attributeNames|)
    ensures concepts == NamedConcepts(context, objectNames, attributeNames)
  {
    var nObjects, nAttributes := |objectNames|, |attributeNames|;
    var closedIntents := ClosedIntents(context, nObjects, nAttributes);
    ghost var c := Enumeration(context, nAttributes, Truncating);
    concepts := {};
    for t := 0 to |closedIntents|
      invariant forall k :: 0 <= k < |c| ==> closedIntents[k].Length == nAttributes && Members(closedIntents[k][..]) == c[k]
      invariant concepts == set k | 0 <= k < t :: FormalConcept(Names(objectNames, Extent(context, c[k])), Names(attributeNames, c[k]))
    {
      var ci := closedIntents[t];
      assert Members(ci[..]) == c[t];
      var extent := IntentPrime(ci, context, nObjects, nAttributes);
      var intentSet := MarkedNames(attributeNames, ci);
      var extentSet := MarkedNames(objectNames, extent);
      assert intentSet == Names(attributeNames, c[t]);
      assert extentSet == Names(objectNames, Extent(context, c[t]));
      assert FormalConcept(extentSet, intentSet)
        == FormalConcept(Names(objectNames, Extent(context, c[t])), Names(attributeNames, c[t]));
      assert (set k | 0 <= k < t + 1 :: FormalConcept(Names(objectNames, Extent(context, c[k])), Names(attributeNames, c[k])))
        == (set k | 0 <= k < t :: FormalConcept(Names(objectNames, Extent(context, c[k])), Names(attributeNames, c[k])))
          + {FormalConcept(Names(objectNames, Extent(context, c[t])), Names(attributeNames, c[t]))};
      concepts := concepts + {FormalConcept(extentSet, intentSet)};
    }
  }
}
