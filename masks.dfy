/**
 * Attribute subsets as int bit masks, as the brute-force programs walk
 * them: mask ranges over 0 .. 2^m - 1 and attribute j is in the subset when
 * (mask & (1 << j)) != 0.  Masks are naturals here; the programs' int
 * masks agree with them for m < 31.
 */
module Masks {
  import opened Lectic

  /** (mask & (1 << j)) != 0 for a non-negative mask: bit j of its binary digits. */
  function Bit(mask: nat, j: nat): bool {
    if j == 0 then mask % 2 == 1 else Bit(mask / 2, j - 1)
  }

  /** The mask whose bits lo .. m-1 (shifted down to 0 .. m-lo-1) are the members of S in that range. */
  function MaskOf(S: set<nat>, lo: nat, m: nat): nat
    decreases m - lo
  {
    if lo >= m then 0 else (if lo in S then 1 else 0) + 2 * MaskOf(S, lo + 1, m)
  }

  /** The mask of S fits in m - lo bits and has bit j exactly when lo + j is in S. */
  lemma {:induction false} MaskOfBits(S: set<nat>, lo: nat, m: nat)
    requires lo <= m
    ensures MaskOf(S, lo, m) < Pow2(m - lo)
    ensures forall j: nat :: lo + j < m ==> (Bit(MaskOf(S, lo, m), j) <==> lo + j in S)
    decreases m - lo
  {
    if lo == m {
      assert Pow2(0) == 1;
    } else {
      MaskOfBits(S, lo + 1, m);
      var x := MaskOf(S, lo, m);
      assert x / 2 == MaskOf(S, lo + 1, m);
      assert Pow2(m - lo) == 2 * Pow2(m - (lo + 1));
      forall j: nat | lo + j < m
        ensures Bit(x, j) <==> lo + j in S
      {
        if j > 0 {
          assert Bit(x, j) == Bit(MaskOf(S, lo + 1, m), j - 1);
          assert (lo + 1) + (j - 1) == lo + j;
        }
      }
    }
  }

  /** Two masks below 2^k with the same k low bits are equal. */
  lemma {:induction false} MaskInjective(x: nat, y: nat, k: nat)
    requires x < Pow2(k) && y < Pow2(k)
    requires forall j: nat :: j < k ==> Bit(x, j) == Bit(y, j)
    ensures x == y
  {
    if k > 0 {
      assert Bit(x, 0) == Bit(y, 0);
      forall j: nat | j < k - 1 ensures Bit(x / 2, j) == Bit(y / 2, j) {
        assert Bit(x, j + 1) == Bit(y, j + 1);
      }
      MaskInjective(x / 2, y / 2, k - 1);
    } else {
      assert Pow2(0) == 1;
    }
  }
}
