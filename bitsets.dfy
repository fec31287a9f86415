/**
 * java.util.BitSet iteration as the programs use it: a set of naturals,
 * bounded by a size, walked with nextSetBit from 0 until it returns -1.
 */
module BitSets {
  import opened Lattice

  /** BitSet.nextSetBit within a set bounded by size: the least member at or after from, or -1. */
  function NextSetBit(bs: set<nat>, from: nat, size: nat): (r: int)
    requires forall x :: x in bs ==> x < size
    ensures -1 <= r < size
    ensures r == -1 <==> forall x :: x in bs ==> x < from
    ensures r >= 0 ==> from <= r && r in bs && forall x :: x in bs && from <= x ==> r <= x
    decreases size - from
  {
    if from >= size then -1
    else if from in bs then from
    else NextSetBit(bs, from + 1, size)
  }

  /** BitSet.length: one more than the highest member, 0 for the empty set. */
  method Length(bs: set<nat>) returns (n: nat)
    ensures forall x :: x in bs ==> x < n
    ensures n == 0 <==> bs == {}
    ensures n > 0 ==> n - 1 in bs
  {
    n := 0;
    var rest := bs;
    while rest != {}
      invariant rest <= bs
      invariant forall x :: x in bs && x !in rest ==> x < n
      invariant n == 0 <==> rest == bs
      invariant n > 0 ==> n - 1 in bs
      decreases |rest|
    {
      var x :| x in rest;
      if x + 1 > n {
        n := x + 1;
      }
      rest := rest - {x};
    }
  }

  /** The members of bs a nextSetBit loop has visited when its cursor is at next (all of them once it is -1). */
  function Seen(bs: set<nat>, next: int): set<nat> {
    if next < 0 then bs else set x | x in bs && x < next
  }

  lemma SeenStart(bs: set<nat>, size: nat)
    requires forall x :: x in bs ==> x < size
    ensures Seen(bs, NextSetBit(bs, 0, size)) == {}
  {
  }

  /** Visiting the member at the cursor adds exactly it to what has been seen. */
  lemma SeenStep(bs: set<nat>, size: nat, a: nat)
    requires forall x :: x in bs ==> x < size
    requires a in bs
    ensures Seen(bs, NextSetBit(bs, a + 1, size)) == Seen(bs, a) + {a}
  {
    var next := NextSetBit(bs, a + 1, size);
    forall x | x in bs
      ensures x in Seen(bs, next) <==> x in Seen(bs, a) || x == a
    {
    }
  }

  /** The objects before g with attribute a: objectsHaving[a] after g rows of the index loop. */
  function HavingBefore(ctx: Context, a: nat, g: nat): set<nat> {
    set h: nat | h < g && h < |ctx| && a < |ctx[h]| && ctx[h][a]
  }

  lemma HavingStep(ctx: Context, a: nat, g: nat)
    requires g < |ctx| && a < |ctx[g]|
    ensures HavingBefore(ctx, a, g + 1) == HavingBefore(ctx, a, g) + (if ctx[g][a] then {g} else {})
  {
  }

  lemma HavingAll(ctx: Context, a: nat)
    ensures HavingBefore(ctx, a, |ctx|) == Extent(ctx, {a})
  {
  }
}
