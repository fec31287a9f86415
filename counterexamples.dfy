/**
 * Concrete contexts on which the variants that extend A by i, instead of
 * truncating A below i, fail to enumerate the intents.
 */
module Counterexamples {
  import opened Wrappers
  import opened Lattice
  import opened Lectic
  import opened Ganter

  /** Three objects with attribute sets {1}, {2} and {0, 1, 2}. */
  function Skipping(): Context {
    [[false, true, false], [false, false, true], [true, true, true]]
  }

  lemma SkippingFirstStep()
    ensures Next(Skipping(), 3, {}, Extending) == Some({2})
  {
    var ctx := Skipping();
    assert Candidate(Extending, {}, 2) == {2};
    assert Extent(ctx, {2}) == {1, 2} by {
      assert !HasAll(ctx[0], {2});
    }
    assert Intent(ctx, 3, {1, 2}) == {2} by {
      assert !SharedBy(ctx, {1, 2}, 0) && !SharedBy(ctx, {1, 2}, 1);
    }
    ScanAt(ctx, 3, {}, Extending, 2);
  }

  lemma SkippingSecondStep()
    ensures Next(Skipping(), 3, {2}, Extending) == Some({0, 1, 2})
  {
    var ctx := Skipping();
    NotClosedOneTwo();
    ClosedZeroTwo();
    ScanAt(ctx, 3, {2}, Extending, 2);
    ScanAt(ctx, 3, {2}, Extending, 1);
    ScanAt(ctx, 3, {2}, Extending, 0);
  }

  /** From {2}, position 1 closes to {0, 1, 2}, which adds 0 below 1. */
  lemma NotClosedOneTwo()
    ensures !Accepts(Skipping(), 3, {2}, Extending, 1)
  {
    var ctx := Skipping();
    assert Candidate(Extending, {2}, 1) == {1, 2};
    assert Extent(ctx, {1, 2}) == {2} by {
      assert !HasAll(ctx[0], {1, 2}) && !HasAll(ctx[1], {1, 2});
    }
    TwoIntent();
    assert !AgreeBelow({0, 1, 2}, {2}, 1) by {
      assert 0 in {0, 1, 2} && 0 !in {2};
    }
  }

  /** From {2}, position 0 closes to {0, 1, 2}, which agrees with {2} below 0. */
  lemma ClosedZeroTwo()
    ensures Accepts(Skipping(), 3, {2}, Extending, 0)
    ensures Closure(Skipping(), 3, Candidate(Extending, {2}, 0)) == {0, 1, 2}
  {
    var ctx := Skipping();
    assert Candidate(Extending, {2}, 0) == {0, 2};
    assert Extent(ctx, {0, 2}) == {2} by {
      assert !HasAll(ctx[0], {0, 2}) && !HasAll(ctx[1], {0, 2});
    }
    TwoIntent();
  }

  lemma TwoIntent()
    ensures Intent(Skipping(), 3, {2}) == {0, 1, 2}
  {
  }

  lemma SkippingChain()
    ensures Rectangular(Skipping(), 3)
    ensures Chain(Skipping(), 3, {}, Extending) == [{}, {2}, {0, 1, 2}]
  {
    var ctx := Skipping();
    assert Rectangular(ctx, 3);
    SkippingFirstStep();
    SkippingSecondStep();
    assert Range(3) == {0, 1, 2};
    ThreeSteps(ctx, 3, Extending, {}, {2}, {0, 1, 2});
  }

  /** A run of two steps that reaches the full set. */
  lemma ThreeSteps(ctx: Context, m: nat, v: Variant, a: set<nat>, b: set<nat>, c: set<nat>)
    requires Rectangular(ctx, m) && a <= Range(m) && b <= Range(m) && c == Range(m)
    requires Next(ctx, m, a, v) == Some(b) && Next(ctx, m, b, v) == Some(c)
    ensures Chain(ctx, m, a, v) == [a, b, c]
  {
    ChainUnfold(ctx, m, a, v);
    ChainUnfold(ctx, m, b, v);
    FullSetEnds(ctx, m, v);
    ChainUnfold(ctx, m, c, v);
  }

  /**
   * On this context a run of either extending variant from the closure of
   * the empty set visits {}, {2} and {0, 1, 2}, and never the intent {1}.
   */
  lemma ExtendingSkipsIntent()
    ensures Closed(Skipping(), 3, {1})
    ensures Enumeration(Skipping(), 3, Extending) == [{}, {2}, {0, 1, 2}]
    ensures Enumeration(Skipping(), 3, ExtendingOneSided) == Enumeration(Skipping(), 3, Extending)
    ensures {1} !in Enumeration(Skipping(), 3, Extending)
  {
    SkippingClosures();
    SkippingChain();
    RunFromEmpty(Skipping(), [{}, {2}, {0, 1, 2}]);
    NotVisited();
  }

  lemma NotVisited()
    ensures {1} !in [{}, {2}, {0, 1, 2}]
  {
    assert 1 in {1} && 1 !in {} && 1 !in {2} && 0 in {0, 1, 2} && 0 !in {1};
  }

  /** Where the empty set is closed, both extending runs are the extending chain from it. */
  lemma RunFromEmpty(ctx: Context, run: seq<set<nat>>)
    requires Rectangular(ctx, 3) && Closure(ctx, 3, {}) == {}
    requires Chain(ctx, 3, {}, Extending) == run
    ensures Enumeration(ctx, 3, Extending) == run
    ensures Enumeration(ctx, 3, ExtendingOneSided) == run
  {
    OneSidedSameChain(ctx, 3, {});
  }

  lemma SkippingClosures()
    ensures Closure(Skipping(), 3, {}) == {}
    ensures Closed(Skipping(), 3, {1})
  {
    EmptyClosed();
    OneClosed();
  }

  lemma EmptyClosed()
    ensures Closure(Skipping(), 3, {}) == {}
  {
    var ctx := Skipping();
    assert Extent(ctx, {}) == {0, 1, 2};
    assert !SharedBy(ctx, {0, 1, 2}, 0) && !SharedBy(ctx, {0, 1, 2}, 1) && !SharedBy(ctx, {0, 1, 2}, 2);
  }

  lemma OneClosed()
    ensures Closed(Skipping(), 3, {1})
  {
    OneExtent();
    ZeroTwoIntent();
    assert Range(3) == {0, 1, 2};
  }

  lemma OneExtent()
    ensures Extent(Skipping(), {1}) == {0, 2}
  {
    assert !HasAll(Skipping()[1], {1});
  }

  lemma ZeroTwoIntent()
    ensures Intent(Skipping(), 3, {0, 2}) == {1}
  {
    var ctx := Skipping();
    assert !SharedBy(ctx, {0, 2}, 0) && !SharedBy(ctx, {0, 2}, 2);
  }

  /** One object with the single attribute 0. */
  function AllShare(): Context {
    [[true]]
  }

  /**
   * A run that starts from the empty set rather than from its closure
   * visits the empty set even where it is not an intent.
   */
  lemma EmptyStartNotClosed()
    ensures !Closed(AllShare(), 1, {})
    ensures Chain(AllShare(), 1, {}, ExtendingOneSided) == [{}, {0}]
  {
    var ctx := AllShare();
    assert SharedBy(ctx, {0}, 0);
    assert Extent(ctx, {}) == {0} && Extent(ctx, {0}) == {0};
    assert Closure(ctx, 1, {}) == {0};
    assert Candidate(ExtendingOneSided, {}, 0) == {0};
    assert Closure(ctx, 1, {0}) == {0};
    assert Next(ctx, 1, {}, ExtendingOneSided) == Some({0});
    assert Range(1) == {0};
    FullSetEnds(ctx, 1, ExtendingOneSided);
  }
}
