/**
 * Formal concepts labelled by object and attribute names, as the programs
 * hand them to the comparison with the reference output: two sorted sets of
 * names, compared by their contents.
 */
module FormalConcepts {
  import opened Lattice

  datatype FormalConcept = FormalConcept(extent: set<string>, intent: set<string>)

  /** Every number in S names a position of names. */
  predicate Indexes(names: seq<string>, S: set<nat>) {
    forall i :: i in S ==> i < |names|
  }

  /** The names at the positions in S. */
  function Names(names: seq<string>, S: set<nat>): set<string>
    requires Indexes(names, S)
  {
    set i | i in S :: names[i]
  }

  /**
   * The marked positions of a boolean vector as names: the loops that turn
   * an intent or extent array into a set of attribute or object names.
   */
  method MarkedNames(names: seq<string>, bits: array<bool>) returns (r: set<string>)
    requires bits.Length == |names|
    ensures Indexes(names, Members(bits[..])) && r == Names(names, Members(bits[..]))
  {
    r := {};
    for i := 0 to bits.Length
      invariant r == Names(names, Members(bits[..i]))
    {
      assert Members(bits[..i + 1]) == Members(bits[..i]) + (if bits[i] then {i} else {});
      if bits[i] {
        r := r + {names[i]};
      }
    }
    assert bits[..bits.Length] == bits[..];
  }
}
