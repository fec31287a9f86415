/**
 * FormalConceptAnalyzerCoT: NextClosure over a boolean matrix in which
 * close returns the extent together with the closed intent, and the step
 * extends the current intent by the position it tries.
 */
module AnalyzerCoT {
  import opened Wrappers
  import opened Lattice
  import opened Lectic
  import opened Ganter

  /** The extent of an intent together with its closure. */
  datatype ClosureResult = ClosureResult(extent: array<bool>, intent: array<bool>)

  /** A concept as two boolean masks (the arrays are shared with the ClosureResult, not copied). */
  datatype Concept = Concept(extent: array<bool>, intent: array<bool>)

  /** close: the objects having every marked attribute, and the attributes all of them share. */
  method Close(ctx: Context, intent: array<bool>) returns (cl: ClosureResult)
    requires Rectangular(ctx, intent.Length)
    ensures cl.extent.Length == |ctx| && cl.intent.Length == intent.Length
    ensures Members(cl.extent[..]) == Extent(ctx, Members(intent[..]))
    ensures Members(cl.intent[..]) == Closure(ctx, intent.Length, Members(intent[..]))
  {
    var n, m := |ctx|, intent.Length;
    ghost var A := Members(intent[..]);
    var extent := new bool[n];
    for i := 0 to n
      invariant forall h :: 0 <= h < i ==> (extent[h] <==> HasAll(ctx[h], A))
    {
      var ok := true;
      var j := 0;
      while j < m
        invariant 0 <= j <= m
        invariant forall k :: 0 <= k < j && intent[k] ==> ctx[i][k]
      {
        if intent[j] && !ctx[i][j] {
          ok := false;
          break;
        }
        j := j + 1;
      }
      extent[i] := ok;
    }
    assert Members(extent[..]) == Extent(ctx, A) by {
      assert forall g: nat :: g in Members(extent[..]) <==> g < n && HasAll(ctx[g], A);
    }
    ghost var E := Members(extent[..]);
    ghost var marks := extent[..];
    var newIntent := new bool[m];
    for j := 0 to m
      invariant extent[..] == marks
      invariant forall k :: 0 <= k < j ==> (newIntent[k] <==> SharedBy(ctx, E, k))
    {
      var common := true;
      var i := 0;
      while i < n
        invariant 0 <= i <= n
        invariant forall h :: 0 <= h < i && extent[h] ==> ctx[h][j]
      {
        if extent[i] && !ctx[i][j] {
          common := false;
          break;
        }
        i := i + 1;
      }
      newIntent[j] := common;
    }
    assert forall k: nat :: k in Members(newIntent[..]) <==> k < m && SharedBy(ctx, E, k);
    cl := ClosureResult(extent, newIntent);
  }

  /** nextIntent: the step with the extended candidate B + {i}; null when no position is accepted. */
  method NextIntent(ctx: Context, B: array<bool>) returns (r: array?<bool>)
    requires Rectangular(ctx, B.Length)
    ensures var next := Next(ctx, B.Length, Members(B[..]), Extending);
      && (r == null <==> next.None?)
      && (r != null ==> r.Length == B.Length && Members(r[..]) == next.value)
  {
    var m := B.Length;
    ghost var S := Members(B[..]);
    var i := m - 1;
    while i >= 0
      invariant -1 <= i < m
      invariant Next(ctx, m, S, Extending) == Scan(ctx, m, S, Extending, i + 1)
    {
      if !B[i] {
        var Aplus := new bool[m];
        forall k | 0 <= k < m {
          Aplus[k] := B[k];
        }
        Aplus[i] := true;
        assert Members(Aplus[..]) == Candidate(Extending, S, i);
        var cl := Close(ctx, Aplus);
        var ok := true;
        var j := 0;
        while j < i
          invariant 0 <= j <= i
          invariant forall k :: 0 <= k < j ==> cl.intent[k] == B[k]
        {
          if cl.intent[j] != B[j] {
            ok := false;
            break;
          }
          j := j + 1;
        }
        if ok {
          assert AgreeBelow(Members(cl.intent[..]), S, i);
          assert Accepts(ctx, m, S, Extending, i);
          assert Scan(ctx, m, S, Extending, i + 1) == Some(Members(cl.intent[..]));
          assert S == Members(B[..]);
          return cl.intent;
        }
        assert !AgreeBelow(Members(cl.intent[..]), S, i) by {
          assert j in Members(cl.intent[..]) <==> j !in S;
        }
      }
      i := i - 1;
    }
    return null;
  }

  /** The number of attributes the program reads off the first row (none without rows). */
  function Width(ctx: Context): nat {
    if |ctx| > 0 then |ctx[0]| else 0
  }

  /**
   * computeFormalConcepts: closes the empty mask, then follows nextIntent
   * until null.  The intents it stores are the run of the extending step
   * from the closure of the empty set (all intents, each once, by
   * Ganter.EnumerationSound, though possibly not every intent: see
   * Counterexamples.ExtendingSkipsIntent); each is stored with its extent.
   */
  method ComputeFormalConcepts(ctx: Context) returns (result: seq<Concept>)
    requires Rectangular(ctx, Width(ctx))
    ensures var c := Enumeration(ctx, Width(ctx), Extending);
      && |result| == |c|
      && forall k :: 0 <= k < |c| ==>
        && result[k].intent.Length == Width(ctx) && Members(result[k].intent[..]) == c[k]
        && result[k].extent.Length == |ctx| && Members(result[k].extent[..]) == Extent(ctx, c[k])
    ensures |ctx| == 0 ==> |result| == 1 && result[0].intent.Length == 0
  {
    var n := |ctx|;
    var m := if n > 0 then |ctx[0]| else 0;
    var A: array? := new bool[m](_ => false);
    assert Members(A[..]) == {};
    ghost var all := Enumeration(ctx, m, Extending);
    ChainFacts(ctx, m, Closure(ctx, m, {}), Extending);
    result := [];
    while A != null
      invariant |result| < |all| || A == null
      invariant A != null ==> A.Length == m && Closure(ctx, m, Members(A[..])) == all[|result|]
      invariant A == null ==> |result| == |all|
      invariant forall k :: 0 <= k < |result| ==>
        && result[k].intent.Length == m && Members(result[k].intent[..]) == all[k]
        && result[k].extent.Length == n && Members(result[k].extent[..]) == Extent(ctx, all[k])
      decreases |all| - |result|
    {
      ghost var k := |result|;
      MembersBounded(A[..]);
      var cl := Close(ctx, A);
      ExtentOfClosure(ctx, m, Members(A[..]));
      result := result + [Concept(cl.extent, cl.intent)];
      A := NextIntent(ctx, cl.intent);
      if k < |all| - 1 {
        assert Next(ctx, m, all[k], Extending) == Some(all[k + 1]);
        assert Closed(ctx, m, all[k + 1]);
      } else {
        assert Next(ctx, m, all[k], Extending) == None;
      }
    }
    if n == 0 {
      assert Range(0) == {};
      FullSetEnds(ctx, 0, Extending);
    }
  }
}
