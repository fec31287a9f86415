/**
 * FCAConceptsRolePrompt2: NextClosure over boolean vectors, one per intent,
 * against a context held as a list of boolean rows.  The step truncates the
 * current intent above the position it adds.
 */
module RolePrompt2 {
  import opened Wrappers
  import opened Lattice
  import opened Lectic
  import opened Ganter
  import opened FormalConcepts

  /** The inner loop of closure and computeExtent: does the row have every attribute the vector marks? */
  method RowHasAll(row: seq<bool>, intent: array<bool>) returns (ok: bool)
    requires |row| == intent.Length
    ensures ok <==> HasAll(row, Members(intent[..]))
  {
    ok := true;
    var i := 0;
    while i < intent.Length
      invariant 0 <= i <= intent.Length
      invariant forall k :: 0 <= k < i && intent[k] ==> row[k]
    {
      if intent[i] && !row[i] {
        ok := false;
        break;
      }
      i := i + 1;
    }
  }

  /** The closure intent'' of the marked attributes, as a new vector of the same length. */
  method Closure(intent: array<bool>, ctx: Context) returns (cls: array<bool>)
    requires Rectangular(ctx, intent.Length)
    ensures cls.Length == intent.Length
    ensures Members(cls[..]) == Lattice.Closure(ctx, intent.Length, Members(intent[..]))
  {
    var m := intent.Length;
    ghost var E := Extent(ctx, Members(intent[..]));
    var extent: seq<nat> := [];
    var g := 0;
    while g < |ctx|
      invariant 0 <= g <= |ctx|
      invariant forall x: nat :: x in extent <==> x < g && x in E
      invariant forall k :: 0 <= k < |extent| ==> extent[k] < g
    {
      var ok := RowHasAll(ctx[g], intent);
      if ok {
        extent := extent + [g];
      }
      g := g + 1;
    }
    cls := new bool[m];
    if |extent| == 0 {
      // no object has the intent: the closure is every attribute
      forall k | 0 <= k < m {
        cls[k] := true;
      }
      assert E == {};
      assert forall k: nat :: k < m ==> cls[k];
    } else {
      for i := 0 to m
        invariant forall k :: 0 <= k < i ==> (cls[k] <==> SharedBy(ctx, E, k))
      {
        var common := true;
        var t := 0;
        while t < |extent|
          invariant 0 <= t <= |extent|
          invariant forall u :: 0 <= u < t ==> ctx[extent[u]][i]
        {
          if !ctx[extent[t]][i] {
            common := false;
            break;
          }
          t := t + 1;
        }
        cls[i] := common;
      }
      assert forall k :: 0 <= k < m ==> (cls[k] <==> SharedBy(ctx, E, k));
    }
    assert E == Extent(ctx, Members(intent[..]));
    assert forall k: nat :: k in Members(cls[..]) <==> k < m && SharedBy(ctx, E, k);
    assert forall k: nat :: k in Members(cls[..]) <==> k in Lattice.Closure(ctx, m, Members(intent[..]));
  }

  /** The objects having every marked attribute, in increasing order (a LinkedHashSet filled by ascending g). */
  method ComputeExtent(intent: array<bool>, ctx: Context) returns (extent: seq<nat>)
    requires Rectangular(ctx, intent.Length)
    ensures Ascending(extent)
    ensures SetOf(extent) == Extent(ctx, Members(intent[..]))
    ensures forall u :: 0 <= u < |extent| ==> extent[u] < |ctx|
  {
    extent := [];
    var g := 0;
    while g < |ctx|
      invariant 0 <= g <= |ctx|
      invariant Ascending(extent)
      invariant forall x: nat :: x in extent <==> x < g && x in Extent(ctx, Members(intent[..]))
      invariant forall k :: 0 <= k < |extent| ==> extent[k] < g
    {
      var ok := RowHasAll(ctx[g], intent);
      if ok {
        extent := extent + [g];
      }
      g := g + 1;
    }
  }

  /** The truncating NextClosure step; null when no position is accepted. */
  method NextClosure(curr: array<bool>, ctx: Context) returns (r: array?<bool>)
    requires Rectangular(ctx, curr.Length)
    ensures var next := Next(ctx, curr.Length, Members(curr[..]), Truncating);
      && (r == null <==> next.None?)
      && (r != null ==> r.Length == curr.Length && Members(r[..]) == next.value)
  {
    var m := curr.Length;
    ghost var A := Members(curr[..]);
    var i := m - 1;
    while i >= 0
      invariant -1 <= i < m
      invariant Next(ctx, m, A, Truncating) == Scan(ctx, m, A, Truncating, i + 1)
    {
      ScanAt(ctx, m, A, Truncating, i);
      if !curr[i] {
        assert i !in A;
        var cand := TruncatedCandidate(curr, i);
        var cls := Closure(cand, ctx);
        AcceptsAt(ctx, m, A, Truncating, i, Members(cls[..]));
        var ok := SamePrefix(cls, curr, i);
        if ok {
          return cls;
        }
      } else {
        assert i in A;
      }
      i := i - 1;
    }
    return null;
  }

  /** The candidate of nextClosure: a copy of curr with i set and every later position cleared. */
  method TruncatedCandidate(curr: array<bool>, i: nat) returns (cand: array<bool>)
    requires i < curr.Length
    ensures fresh(cand) && cand.Length == curr.Length
    ensures Members(cand[..]) == Candidate(Truncating, Members(curr[..]), i)
  {
    var m := curr.Length;
    cand := new bool[m];
    forall k | 0 <= k < m {
      cand[k] := curr[k];
    }
    cand[i] := true;
    for j := i + 1 to m
      invariant forall k :: 0 <= k < m ==> cand[k] == (if k < i then curr[k] else k == i || (k >= j && curr[k]))
    {
      cand[j] := false;
    }
  }

  /** The canonicity loop: cls and curr agree on every position below i. */
  method SamePrefix(cls: array<bool>, curr: array<bool>, i: nat) returns (ok: bool)
    requires i <= cls.Length && i <= curr.Length
    ensures ok <==> AgreeBelow(Members(cls[..]), Members(curr[..]), i)
  {
    ok := true;
    var j := 0;
    while j < i
      invariant 0 <= j <= i
      invariant forall k :: 0 <= k < j ==> cls[k] == curr[k]
    {
      if cls[j] != curr[j] {
        ok := false;
        break;
      }
      j := j + 1;
    }
    if !ok {
      assert j in Members(cls[..]) <==> j !in Members(curr[..]);
    }
  }

  /** One concept as the first loop prints it: the extent's object numbers and the intent vector. */
  datatype Printed = Printed(extent: seq<nat>, intent: array<bool>)

  /** The printed entry p is the intent A, as an m-vector, with its extent in ascending order. */
  ghost predicate Shows(p: Printed, ctx: Context, m: nat, A: set<nat>)
    reads p.intent
  {
    && p.intent.Length == m
    && Members(p.intent[..]) == A
    && Ascending(p.extent)
    && SetOf(p.extent) == Extent(ctx, A)
  }

  /**
   * The first loop: starting from the closure of the empty vector, it
   * prints every intent the truncating step reaches, with its extent; by
   * Ganter.TruncatingEnumerationExact these are all the intents, each once.
   */
  method PrintConcepts(ctx: Context, numAttributes: nat) returns (out: seq<Printed>)
    requires Rectangular(ctx, numAttributes)
    ensures var c := Enumeration(ctx, numAttributes, Truncating);
      && |out| == |c|
      && forall k :: 0 <= k < |out| ==>
        && out[k].intent.Length == numAttributes
        && Members(out[k].intent[..]) == c[k]
        && Ascending(out[k].extent)
        && SetOf(out[k].extent) == Extent(ctx, c[k])
  {
    var m := numAttributes;
    var empty := new bool[m](_ => false);
    assert Members(empty[..]) == {};
    var intent: array? := Closure(empty, ctx);
    ghost var all := Enumeration(ctx, m, Truncating);
    ChainFacts(ctx, m, Lattice.Closure(ctx, m, {}), Truncating);
    out := [];
    while intent != null
      invariant |out| < |all| || intent == null
      invariant intent != null ==> intent.Length == m && Members(intent[..]) == all[|out|]
      invariant intent == null ==> |out| == |all|
      invariant forall k :: 0 <= k < |out| ==> Shows(out[k], ctx, m, all[k])
      decreases |all| - |out|
    {
      ghost var k := |out|;
      var extent := ComputeExtent(intent, ctx);
      assert Shows(Printed(extent, intent), ctx, m, all[k]);
      out := out + [Printed(extent, intent)];
      intent := NextClosure(intent, ctx);
      if k < |all| - 1 {
        assert Next(ctx, m, all[k], Truncating) == Some(all[k + 1]);
      } else {
        assert Next(ctx, m, all[k], Truncating) == None;
      }
    }
  }

  /** The object numbers of a list as names (the loop over extentIndices). */
  method IndexNames(names: seq<string>, indices: seq<nat>) returns (r: set<string>)
    requires forall u :: 0 <= u < |indices| ==> indices[u] < |names|
    ensures Indexes(names, SetOf(indices)) && r == Names(names, SetOf(indices))
  {
    r := {};
    for t := 0 to |indices|
      invariant r == Names(names, SetOf(indices[..t]))
    {
      assert SetOf(indices[..t + 1]) == SetOf(indices[..t]) + {indices[t]};
      r := r + {names[indices[t]]};
    }
    assert indices[..|indices|] == indices;
  }

  /**
   * The second loop: the same run, each concept turned into sorted sets of
   * object and attribute names for the comparison with the reference output.
   */
  method CollectConcepts(ctx: Context, objects: seq<string>, attributes: seq<string>)
    returns (myConcepts: seq<FormalConcept>)
    requires |objects| == |ctx| && Rectangular(ctx, |attributes|)
    ensures var c := Enumeration(ctx, |attributes|, Truncating);
      && |myConcepts| == |c|
      && forall k :: 0 <= k < |c| ==>
        && Indexes(attributes, c[k])
        && myConcepts[k] == FormalConcept(Names(objects, Extent(ctx, c[k])), Names(attributes, c[k]))
  {
    var m := |attributes|;
    var empty := new bool[m](_ => false);
    assert Members(empty[..]) == {};
    var currentIntent: array? := Closure(empty, ctx);
    ghost var all := Enumeration(ctx, m, Truncating);
    ChainFacts(ctx, m, Lattice.Closure(ctx, m, {}), Truncating);
    myConcepts := [];
    while currentIntent != null
      invariant |myConcepts| < |all| || currentIntent == null
      invariant currentIntent != null ==> currentIntent.Length == m && Members(currentIntent[..]) == all[|myConcepts|]
      invariant currentIntent == null ==> |myConcepts| == |all|
      invariant forall k :: 0 <= k < |myConcepts| ==>
        && Indexes(attributes, all[k])
        && myConcepts[k] == FormalConcept(Names(objects, Extent(ctx, all[k])), Names(attributes, all[k]))
      decreases |all| - |myConcepts|
    {
      ghost var k := |myConcepts|;
      var extentIndices := ComputeExtent(currentIntent, ctx);
      var extentNames := IndexNames(objects, extentIndices);
      var intentNames := MarkedNames(attributes, currentIntent);
      assert extentNames == Names(objects, Extent(ctx, all[k]));
      assert intentNames == Names(attributes, all[k]);
      myConcepts := myConcepts + [FormalConcept(extentNames, intentNames)];
      currentIntent := NextClosure(currentIntent, ctx);
      if k < |all| - 1 {
        assert Next(ctx, m, all[k], Truncating) == Some(all[k + 1]);
      } else {
        assert Next(ctx, m, all[k], Truncating) == None;
      }
    }
  }

  /** Both loops of main visit the same intents in the same order. */
  method RunBothLoops(ctx: Context, objects: seq<string>, attributes: seq<string>)
    returns (printed: seq<Printed>, myConcepts: seq<FormalConcept>)
    requires |objects| == |ctx| && Rectangular(ctx, |attributes|)
    ensures |printed| == |myConcepts|
    ensures forall k :: 0 <= k < |printed| ==>
      && Indexes(attributes, Members(printed[k].intent[..]))
      && myConcepts[k].intent == Names(attributes, Members(printed[k].intent[..]))
      && Indexes(objects, SetOf(printed[k].extent))
      && myConcepts[k].extent == Names(objects, SetOf(printed[k].extent))
  {
    printed := PrintConcepts(ctx, |attributes|);
    myConcepts := CollectConcepts(ctx, objects, attributes);
    forall k | 0 <= k < |printed| ensures Indexes(objects, SetOf(printed[k].extent)) {
      assert SetOf(printed[k].extent) <= Extent(ctx, Members(printed[k].intent[..]));
    }
  }
}
