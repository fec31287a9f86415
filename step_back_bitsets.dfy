/**
 * FormalConceptsNextClosureStepBack (class NextClosureFCA): NextClosure over
 * BitSets against a boolean matrix, reading the number of attributes off
 * the first row, so that closure and nextClosed need at least one object.
 * The step extends the current intent and returns null when no position is
 * accepted.
 */
module StepBackBitSets {
  import opened Wrappers
  import opened Lattice
  import opened Lectic
  import opened Ganter
  import opened BitSets

  /** What the enumeration loop prints for one intent: its extent and the intent. */
  datatype Concept = Concept(extent: set<nat>, intent: set<nat>)

  /** The output of main: the printed concepts and conceptCount. */
  datatype Output = Output(printed: seq<Concept>, conceptCount: nat)

  /** The matrix main builds: every row has as many cells as the header names attributes. */
  predicate WellFormed(ctx: Context) {
    |ctx| > 0 && Rectangular(ctx, |ctx[0]|)
  }

  /** The hasM loop: the objects having attribute m. */
  method ObjectsWith(ctx: Context, m: nat) returns (hasM: set<nat>)
    requires forall g :: 0 <= g < |ctx| ==> m < |ctx[g]|
    ensures hasM == Extent(ctx, {m})
  {
    hasM := {};
    for g := 0 to |ctx|
      invariant hasM == HavingBefore(ctx, m, g)
    {
      HavingStep(ctx, m, g);
      if ctx[g][m] {
        hasM := hasM + {g};
      }
    }
    HavingAll(ctx, m);
  }

  /** deriveObjects: all objects, narrowed by the objects having m for each m in A. */
  method DeriveObjects(A: set<nat>, ctx: Context) returns (objects: set<nat>)
    requires forall g, a :: 0 <= g < |ctx| && a in A ==> a < |ctx[g]|
    ensures objects == Extent(ctx, A)
  {
    var size := Length(A);
    objects := Range(|ctx|);
    EmptyDerivations(ctx, 0);
    var m := NextSetBit(A, 0, size);
    SeenStart(A, size);
    while m >= 0
      invariant -1 <= m < size
      invariant m >= 0 ==> m in A
      invariant objects == Extent(ctx, Seen(A, m))
      decreases if m >= 0 then size - m else 0
    {
      var hasM := ObjectsWith(ctx, m);
      SeenStep(A, size, m);
      ExtentUnion(ctx, Seen(A, m), {m});
      objects := objects * hasM;
      m := NextSetBit(A, m + 1, size);
    }
  }

  /** The attrs loop: the attributes of object g among the first M. */
  method AttributesOf(ctx: Context, M: nat, g: nat) returns (attrs: set<nat>)
    requires Rectangular(ctx, M) && g < |ctx|
    ensures attrs == Intent(ctx, M, {g})
  {
    attrs := {};
    for m := 0 to M
      invariant forall x: nat :: x in attrs <==> x < m && ctx[g][x]
    {
      if ctx[g][m] {
        attrs := attrs + {m};
      }
    }
    IntentOfObject(ctx, M, g);
  }

  /**
   * closure: A' by the deriveObjects loop (the same code, modelled once),
   * then all M attributes narrowed by the attributes of each object of A'.
   */
  method Closure(A: set<nat>, ctx: Context) returns (closure: set<nat>)
    requires WellFormed(ctx) && A <= Range(|ctx[0]|)
    ensures closure == Lattice.Closure(ctx, |ctx[0]|, A)
  {
    var G, M := |ctx|, |ctx[0]|;
    var objects := DeriveObjects(A, ctx);
    assert forall x :: x in objects ==> x < G;
    closure := Range(M);
    EmptyDerivations(ctx, M);
    var g := NextSetBit(objects, 0, G);
    SeenStart(objects, G);
    while g >= 0
      invariant -1 <= g < G
      invariant g >= 0 ==> g in objects
      invariant closure == Intent(ctx, M, Seen(objects, g))
      decreases if g >= 0 then G - g else 0
    {
      var attrs := AttributesOf(ctx, M, g);
      SeenStep(objects, G, g);
      IntentUnion(ctx, M, Seen(objects, g), {g});
      closure := closure * attrs;
      g := NextSetBit(objects, g + 1, G);
    }
  }

  /** nextClosed: the extending step on a clone of A; None stands for null. */
  method NextClosed(A: set<nat>, ctx: Context) returns (r: Option<set<nat>>)
    requires WellFormed(ctx) && A <= Range(|ctx[0]|)
    ensures r == Next(ctx, |ctx[0]|, A, Extending)
  {
    var M := |ctx[0]|;
    var i := M - 1;
    while i >= 0
      invariant -1 <= i < M
      invariant Next(ctx, M, A, Extending) == Scan(ctx, M, A, Extending, i + 1)
    {
      ScanAt(ctx, M, A, Extending, i);
      if i !in A {
        var temp := A + {i};
        assert temp == Candidate(Extending, A, i);
        var B := Closure(temp, ctx);
        AcceptsAt(ctx, M, A, Extending, i, B);
        var ok := SameBelow(B, A, i);
        if ok {
          return Some(B);
        }
      }
      i := i - 1;
    }
    return None;
  }

  /**
   * The enumeration in main, over the finished matrix with M columns.
   * Without objects, closure fails on the missing first row (None); otherwise
   * the printed intents are the extending run from the closure of the empty
   * set, each with its extent, and conceptCount is their number.
   */
  method Enumerate(ctx: Context, M: nat) returns (r: Option<Output>)
    requires Rectangular(ctx, M)
    ensures r.None? <==> |ctx| == 0
    ensures r.Some? ==> var c := Enumeration(ctx, M, Extending);
      && |r.value.printed| == |c| && r.value.conceptCount == |c|
      && forall k :: 0 <= k < |c| ==> r.value.printed[k] == Concept(Extent(ctx, c[k]), c[k])
  {
    if |ctx| == 0 {
      return None;
    }
    var first := Closure({}, ctx);
    var current: Option<set<nat>> := Some(first);
    ghost var all := Enumeration(ctx, M, Extending);
    ChainFacts(ctx, M, Lattice.Closure(ctx, M, {}), Extending);
    var printed: seq<Concept> := [];
    var conceptCount := 0;
    while current.Some?
      invariant conceptCount == |printed|
      invariant |printed| < |all| || current.None?
      invariant current.Some? ==> current.value == all[|printed|]
      invariant current.None? ==> |printed| == |all|
      invariant forall k :: 0 <= k < |printed| ==> printed[k] == Concept(Extent(ctx, all[k]), all[k])
      decreases |all| - |printed|
    {
      ghost var k := |printed|;
      var extent := DeriveObjects(current.value, ctx);
      printed := printed + [Concept(extent, current.value)];
      conceptCount := conceptCount + 1;
      current := NextClosed(current.value, ctx);
      if k < |all| - 1 {
        assert Next(ctx, M, all[k], Extending) == Some(all[k + 1]);
      } else {
        assert Next(ctx, M, all[k], Extending) == None;
      }
    }
    return Some(Output(printed, conceptCount));
  }
}
