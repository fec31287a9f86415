/**
 * Formal contexts and the two derivation operators of Formal Concept
 * Analysis.  Objects and attributes are numbered from 0; a context is a
 * table whose row g says, for each attribute j, whether object g has j.
 * Sets of objects and sets of attributes are sets of these numbers.
 */
module Lattice {
  type Context = seq<seq<bool>>

  /** Every row of the table has exactly m columns. */
  predicate Rectangular(ctx: Context, m: nat) {
    forall g :: 0 <= g < |ctx| ==> |ctx[g]| == m
  }

  /** The numbers 0 .. n-1. */
  function Range(n: nat): (r: set<nat>)
    ensures forall i: nat :: i in r <==> i < n
    ensures |r| == n
  {
    if n == 0 then {} else Range(n - 1) + {n - 1}
  }

  /** The positions of a boolean vector that hold true. */
  function Members(v: seq<bool>): set<nat> {
    set j: nat | j < |v| && v[j]
  }

  /** The numbers a sequence holds. */
  function SetOf(s: seq<nat>): set<nat> {
    set x | x in s
  }

  /** Strictly increasing, hence also free of duplicates. */
  predicate Ascending(s: seq<nat>) {
    forall p, q :: 0 <= p < q < |s| ==> s[p] < s[q]
  }

  /** The row has every attribute of A. */
  predicate HasAll(row: seq<bool>, A: set<nat>) {
    forall a :: a in A ==> a < |row| && row[a]
  }

  /** A': the objects that have every attribute of A. */
  function Extent(ctx: Context, A: set<nat>): set<nat> {
    set g: nat | g < |ctx| && HasAll(ctx[g], A)
  }

  /** Attribute j belongs to every object of E. */
  predicate SharedBy(ctx: Context, E: set<nat>, j: nat) {
    forall g :: g in E ==> g < |ctx| && j < |ctx[g]| && ctx[g][j]
  }

  /** E': the attributes among 0 .. m-1 shared by every object of E (all of them when E is empty). */
  function Intent(ctx: Context, m: nat, E: set<nat>): set<nat> {
    set j: nat | j < m && SharedBy(ctx, E, j)
  }

  /** A'': the closure of an attribute set. */
  function Closure(ctx: Context, m: nat, A: set<nat>): set<nat> {
    Intent(ctx, m, Extent(ctx, A))
  }

  /** A is an intent: a set of attributes equal to its own closure. */
  predicate Closed(ctx: Context, m: nat, A: set<nat>) {
    A <= Range(m) && Closure(ctx, m, A) == A
  }

  lemma MembersBounded(v: seq<bool>)
    ensures Members(v) <= Range(|v|)
  {
  }

  lemma ExtentAntitone(ctx: Context, A: set<nat>, B: set<nat>)
    requires A <= B
    ensures Extent(ctx, B) <= Extent(ctx, A)
  {
  }

  lemma IntentAntitone(ctx: Context, m: nat, E: set<nat>, F: set<nat>)
    requires E <= F
    ensures Intent(ctx, m, F) <= Intent(ctx, m, E)
  {
  }

  /** Every attribute of A is shared by the objects having all of A. */
  lemma ClosureExtensive(ctx: Context, m: nat, A: set<nat>)
    requires Rectangular(ctx, m) && A <= Range(m)
    ensures A <= Closure(ctx, m, A)
  {
  }

  lemma ClosureMonotone(ctx: Context, m: nat, A: set<nat>, B: set<nat>)
    requires A <= B
    ensures Closure(ctx, m, A) <= Closure(ctx, m, B)
  {
    ExtentAntitone(ctx, A, B);
    IntentAntitone(ctx, m, Extent(ctx, B), Extent(ctx, A));
  }

  /** A''' = A': closing an attribute set does not change its extent. */
  lemma ExtentOfClosure(ctx: Context, m: nat, A: set<nat>)
    requires Rectangular(ctx, m) && A <= Range(m)
    ensures Extent(ctx, Closure(ctx, m, A)) == Extent(ctx, A)
  {
    ClosureExtensive(ctx, m, A);
    ExtentAntitone(ctx, A, Closure(ctx, m, A));
  }

  lemma ClosureIdempotent(ctx: Context, m: nat, A: set<nat>)
    requires Rectangular(ctx, m) && A <= Range(m)
    ensures Closure(ctx, m, Closure(ctx, m, A)) == Closure(ctx, m, A)
  {
    ExtentOfClosure(ctx, m, A);
  }

  /** Every closure is an intent. */
  lemma ClosureClosed(ctx: Context, m: nat, A: set<nat>)
    requires Rectangular(ctx, m) && A <= Range(m)
    ensures Closed(ctx, m, Closure(ctx, m, A))
  {
    ClosureIdempotent(ctx, m, A);
  }

  /** The closure of A is the least intent containing A. */
  lemma ClosureLeast(ctx: Context, m: nat, A: set<nat>, B: set<nat>)
    requires A <= B && Closed(ctx, m, B)
    ensures Closure(ctx, m, A) <= B
  {
    ClosureMonotone(ctx, m, A, B);
  }

  /** An attribute set no object has closes to the set of all attributes. */
  lemma EmptyExtentCloses(ctx: Context, m: nat, A: set<nat>)
    requires Extent(ctx, A) == {}
    ensures Closure(ctx, m, A) == Range(m)
  {
  }

  /** For an intent A, (A', A) is a formal concept: A' is exactly the objects sharing A, and A = A''. */
  lemma ConceptOfIntent(ctx: Context, m: nat, A: set<nat>)
    requires Rectangular(ctx, m) && Closed(ctx, m, A)
    ensures Intent(ctx, m, Extent(ctx, A)) == A
    ensures Extent(ctx, Intent(ctx, m, Extent(ctx, A))) == Extent(ctx, A)
  {
    ExtentOfClosure(ctx, m, A);
  }

  /** Derivation turns unions into intersections. */
  lemma ExtentUnion(ctx: Context, A: set<nat>, B: set<nat>)
    ensures Extent(ctx, A + B) == Extent(ctx, A) * Extent(ctx, B)
  {
  }

  lemma IntentUnion(ctx: Context, m: nat, E: set<nat>, F: set<nat>)
    ensures Intent(ctx, m, E + F) == Intent(ctx, m, E) * Intent(ctx, m, F)
  {
  }

  lemma IntentOfObject(ctx: Context, m: nat, g: nat)
    requires Rectangular(ctx, m) && g < |ctx|
    ensures Intent(ctx, m, {g}) == Members(ctx[g])
  {
  }

  lemma EmptyDerivations(ctx: Context, m: nat)
    ensures Extent(ctx, {}) == Range(|ctx|)
    ensures Intent(ctx, m, {}) == Range(m)
  {
  }
}
