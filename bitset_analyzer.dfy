/**
 * FormalConceptAnalyzer_CoT2 and its earlier copy FormalConceptAnalyzer_CoT:
 * an analyzer object holding the context as bit sets per object and per
 * attribute, which enumerates concepts with the one-sided NextClosure step,
 * starting from the empty intent and stopping at the first empty result.
 * A BitSet is a finite set of naturals here.
 */
module BitSetAnalyzer {
  import opened Wrappers
  import opened Lattice
  import opened Lectic
  import opened Ganter
  import opened BitSets

  /** A stored concept: copies of the two bit sets, so later changes to the loop variable do not reach it. */
  datatype Concept = Concept(extent: set<nat>, intent: set<nat>)

  /** The concepts the enumeration stores for a run of intents: each intent with its extent. */
  function ConceptsOf(ctx: Context, intents: seq<set<nat>>): (r: seq<Concept>)
    ensures |r| == |intents|
  {
    if |intents| == 0 then []
    else ConceptsOf(ctx, intents[..|intents| - 1]) + [Concept(Extent(ctx, intents[|intents| - 1]), intents[|intents| - 1])]
  }

  /** The k-th stored concept pairs the k-th intent with its extent. */
  lemma {:induction false} ConceptsOfAt(ctx: Context, intents: seq<set<nat>>)
    ensures forall k :: 0 <= k < |intents| ==> ConceptsOf(ctx, intents)[k] == Concept(Extent(ctx, intents[k]), intents[k])
  {
    if |intents| > 0 {
      var front := intents[..|intents| - 1];
      ConceptsOfAt(ctx, front);
      forall k | 0 <= k < |intents| ensures ConceptsOf(ctx, intents)[k] == Concept(Extent(ctx, intents[k]), intents[k]) {
        if k < |front| {
          assert front[k] == intents[k];
        }
      }
    }
  }

  /** Concept.toIndexList: the members of a bit set in increasing order. */
  method ToIndexList(bs: set<nat>, size: nat) returns (list: seq<nat>)
    requires forall x :: x in bs ==> x < size
    ensures Ascending(list)
    ensures SetOf(list) == bs
  {
    list := [];
    var i := NextSetBit(bs, 0, size);
    SeenStart(bs, size);
    while i >= 0
      invariant -1 <= i < size
      invariant Ascending(list)
      invariant SetOf(list) == Seen(bs, i)
      invariant i >= 0 ==> i in bs
      decreases if i >= 0 then size - i else 0
    {
      SeenStep(bs, size, i);
      assert forall u :: 0 <= u < |list| ==> list[u] in Seen(bs, i);
      list := list + [i];
      i := NextSetBit(bs, i + 1, size);
    }
  }

  /**
   * index holds the attributes of each object (attributesOf) and inverted
   * the objects of each attribute (objectsHaving), as the rows describe them.
   */
  predicate Indexes(ctx: Context, m: nat, index: seq<set<nat>>, inverted: seq<set<nat>>) {
    && |index| == |ctx| && |inverted| == m
    && (forall g :: 0 <= g < |index| ==> index[g] == Members(ctx[g]))
    && (forall a :: 0 <= a < |inverted| ==> inverted[a] == Extent(ctx, {a}))
  }

  /**
   * The loops of loadContext: one pass over the rows fills attributesOf[g]
   * and adds g to objectsHaving[a] for every attribute a of row g.
   */
  method BuildIndex(input: Context, width: nat) returns (index: seq<set<nat>>, inverted: seq<set<nat>>)
    requires Rectangular(input, width)
    ensures Indexes(input, width, index, inverted)
  {
    index := [];
    inverted := seq(width, _ => {});
    for g := 0 to |input|
      invariant |index| == g && |inverted| == width
      invariant forall h :: 0 <= h < g ==> index[h] == Members(input[h])
      invariant forall b :: 0 <= b < width ==> inverted[b] == HavingBefore(input, b, g)
    {
      var attrSet: set<nat> := {};
      var row := input[g];
      for a := 0 to width
        invariant forall x: nat :: x in attrSet <==> x < a && row[x]
        invariant |inverted| == width
        invariant forall b :: 0 <= b < width ==> inverted[b] == HavingBefore(input, b, if b < a then g + 1 else g)
      {
        HavingStep(input, a, g);
        if row[a] {
          attrSet := attrSet + {a};
          inverted := inverted[a := inverted[a] + {g}];
        }
      }
      assert attrSet == Members(input[g]);
      index := index + [attrSet];
    }
    forall a | 0 <= a < width
      ensures inverted[a] == Extent(input, {a})
    {
      HavingAll(input, a);
    }
  }

  /**
   * The run enumerateConcepts stores: it starts at the empty intent, whose
   * stored extent is every object; every later intent is closed and forms a
   * concept with its extent; the one-sided test gives the same run as the
   * two-sided one; and when the empty set is closed the run is the
   * enumeration from the closure of the empty set.
   */
  lemma RunFromEmpty(ctx: Context, m: nat)
    requires Rectangular(ctx, m)
    ensures var c := Chain(ctx, m, {}, ExtendingOneSided);
      && c == Chain(ctx, m, {}, Extending)
      && |c| >= 1 && ConceptsOf(ctx, c)[0] == Concept(Range(|ctx|), {})
      && (forall k :: 0 < k < |c| ==> Closed(ctx, m, c[k]) && Intent(ctx, m, Extent(ctx, c[k])) == c[k])
      && (Closed(ctx, m, {}) ==> c == Enumeration(ctx, m, Extending))
  {
    var c := Chain(ctx, m, {}, ExtendingOneSided);
    OneSidedSameChain(ctx, m, {});
    ChainFacts(ctx, m, {}, ExtendingOneSided);
    EmptyDerivations(ctx, m);
    ConceptsOfAt(ctx, c);
    forall k | 0 < k < |c| ensures Intent(ctx, m, Extent(ctx, c[k])) == c[k] {
      ConceptOfIntent(ctx, m, c[k]);
    }
  }

  /**
   * One round of enumerateConcepts on the k-th intent of the run: the stored
   * list grows by its concept, and the step returns the next intent, or the
   * empty set exactly at the end of the run.
   */
  lemma RunStep(ctx: Context, m: nat, k: nat, A: set<nat>, r: set<nat>)
    requires Rectangular(ctx, m) && k < |Chain(ctx, m, {}, ExtendingOneSided)|
    requires A == Chain(ctx, m, {}, ExtendingOneSided)[k]
    requires r == match Next(ctx, m, A, ExtendingOneSided)
                  case None => {}
                  case Some(B) => B
    ensures var c := Chain(ctx, m, {}, ExtendingOneSided);
      && ConceptsOf(ctx, c[..k + 1]) == ConceptsOf(ctx, c[..k]) + [Concept(Extent(ctx, c[k]), c[k])]
      && (r == {} <==> k == |c| - 1)
      && (r == {} ==> ConceptsOf(ctx, c[..k + 1]) == ConceptsOf(ctx, c))
      && (k < |c| - 1 ==> r == c[k + 1] && r <= Range(m))
  {
    var c := Chain(ctx, m, {}, ExtendingOneSided);
    ConceptsOfAppend(ctx, c[..k], c[k]);
    assert c[..k + 1] == c[..k] + [c[k]];
    ChainAt(ctx, m, {}, ExtendingOneSided, k);
    if k == |c| - 1 {
      assert c[..k + 1] == c;
    }
    ChainAt(ctx, m, {}, ExtendingOneSided, k + 1);
    if k < |c| - 1 {
      NextSound(ctx, m, c[k], ExtendingOneSided);
    }
  }

  /** The canonicity loop of nextClosure: B holds no position below i that A lacks. */
  method AddsNothingBelow(B: set<nat>, A: set<nat>, i: nat) returns (canonical: bool)
    ensures canonical <==> Canonical(ExtendingOneSided, B, A, i)
  {
    canonical := true;
    var j := 0;
    while j < i && canonical
      invariant 0 <= j <= i
      invariant canonical <==> forall k: nat :: k < j && k in B ==> k in A
    {
      if j in B && j !in A {
        canonical := false;
      }
      j := j + 1;
    }
  }

  lemma ConceptsOfAppend(ctx: Context, intents: seq<set<nat>>, x: set<nat>)
    ensures ConceptsOf(ctx, intents + [x]) == ConceptsOf(ctx, intents) + [Concept(Extent(ctx, x), x)]
  {
    assert (intents + [x])[..|intents|] == intents;
  }

  class Analyzer {
    var objectCount: nat
    var attributeCount: nat
    /** attributesOf[g]: the attributes of object g. */
    var attributesOf: seq<set<nat>>
    /** objectsHaving[a]: the objects with attribute a (the inverted index). */
    var objectsHaving: seq<set<nat>>
    var allObjects: set<nat>
    var allAttributes: set<nat>
    var concepts: seq<Concept>
    /** The boolean rows the index was built from. */
    ghost var rows: Context

    /** Both indexes describe rows, and the two convenience sets are full ranges. */
    ghost predicate Valid()
      reads this`rows, this`objectCount, this`attributeCount, this`attributesOf, this`objectsHaving
      reads this`allObjects, this`allAttributes
    {
      && |rows| == objectCount && Rectangular(rows, attributeCount)
      && Indexes(rows, attributeCount, attributesOf, objectsHaving)
      && allObjects == Range(objectCount) && allAttributes == Range(attributeCount)
    }

    /** The two indexes agree with each other and with the rows. */
    lemma IndexAgrees()
      requires Valid()
      ensures |attributesOf| == objectCount && |objectsHaving| == attributeCount
      ensures forall g, a :: 0 <= g < objectCount && 0 <= a < attributeCount ==>
        && (a in attributesOf[g] <==> rows[g][a])
        && (g in objectsHaving[a] <==> rows[g][a])
      ensures forall g :: 0 <= g < objectCount ==> attributesOf[g] <= allAttributes
      ensures forall a :: 0 <= a < attributeCount ==> objectsHaving[a] <= allObjects
    {
      forall g | 0 <= g < objectCount ensures attributesOf[g] <= allAttributes {
        MembersBounded(rows[g]);
      }
    }

    /** An analyzer before any context is loaded: no objects, no attributes, no concepts. */
    constructor ()
      ensures Valid() && rows == [] && concepts == []
    {
      objectCount, attributeCount := 0, 0;
      attributesOf, objectsHaving := [], [];
      allObjects, allAttributes := {}, {};
      concepts := [];
      rows := [];
    }

    /** The index-building half of loadContext, over rows already read from the file. */
    method LoadContext(input: Context, width: nat)
      requires Rectangular(input, width)
      modifies this`rows, this`objectCount, this`attributeCount, this`attributesOf, this`objectsHaving
      modifies this`allObjects, this`allAttributes
      ensures Valid() && rows == input
      ensures objectCount == |input| && attributeCount == width
      ensures concepts == old(concepts)
    {
      var index, inverted := BuildIndex(input, width);
      attributeCount, objectCount, rows := width, |input|, input;
      attributesOf, objectsHaving := index, inverted;
      allObjects, allAttributes := Range(|input|), Range(width);
    }

    /** extentOf: allObjects narrowed by objectsHaving[a] for each member a of the intent. */
    method ExtentOf(intent: set<nat>) returns (objs: set<nat>)
      requires Valid() && intent <= allAttributes
      ensures objs == Extent(rows, intent)
    {
      assert allAttributes == Range(attributeCount);
      assert forall x :: x in intent ==> x < attributeCount;
      objs := allObjects;
      var a := NextSetBit(intent, 0, attributeCount);
      SeenStart(intent, attributeCount);
      EmptyDerivations(rows, attributeCount);
      while a >= 0
        invariant -1 <= a < attributeCount
        invariant a >= 0 ==> a in intent
        invariant objs == Extent(rows, Seen(intent, a))
        decreases if a >= 0 then attributeCount - a else 0
      {
        SeenStep(intent, attributeCount, a);
        ExtentUnion(rows, Seen(intent, a), {a});
        objs := objs * objectsHaving[a];
        a := NextSetBit(intent, a + 1, attributeCount);
      }
    }

    /** closure: allAttributes narrowed by attributesOf[g] for each object g of the extent. */
    method Closure(intent: set<nat>) returns (attrs: set<nat>)
      requires Valid() && intent <= allAttributes
      ensures attrs == Lattice.Closure(rows, attributeCount, intent)
    {
      var objs := ExtentOf(intent);
      assert forall x :: x in objs ==> x < objectCount;
      attrs := allAttributes;
      var g := NextSetBit(objs, 0, objectCount);
      SeenStart(objs, objectCount);
      EmptyDerivations(rows, attributeCount);
      while g >= 0
        invariant -1 <= g < objectCount
        invariant g >= 0 ==> g in objs
        invariant attrs == Intent(rows, attributeCount, Seen(objs, g))
        decreases if g >= 0 then objectCount - g else 0
      {
        SeenStep(objs, objectCount, g);
        IntentUnion(rows, attributeCount, Seen(objs, g), {g});
        IntentOfObject(rows, attributeCount, g);
        attrs := attrs * attributesOf[g];
        g := NextSetBit(objs, g + 1, objectCount);
      }
    }

    /** nextClosure: the one-sided step on current ∪ {i}; the empty set when no position passes. */
    method NextClosure(current: set<nat>) returns (r: set<nat>)
      requires Valid() && current <= allAttributes
      ensures r == match Next(rows, attributeCount, current, ExtendingOneSided)
                   case None => {}
                   case Some(B) => B
    {
      var A := current;
      var i := attributeCount - 1;
      while i >= 0
        invariant -1 <= i < attributeCount
        invariant Next(rows, attributeCount, A, ExtendingOneSided) == Scan(rows, attributeCount, A, ExtendingOneSided, i + 1)
      {
        ScanAt(rows, attributeCount, A, ExtendingOneSided, i);
        var accepted, B := TryPosition(A, i);
        if accepted {
          return B;
        }
        i := i - 1;
      }
      return {};
    }

    /** One position of the loop of nextClosure: close current ∪ {i} and test it. */
    method TryPosition(A: set<nat>, i: nat) returns (accepted: bool, B: set<nat>)
      requires Valid() && A <= allAttributes && i < attributeCount
      ensures accepted <==> Accepts(rows, attributeCount, A, ExtendingOneSided, i)
      ensures accepted ==> B == Lattice.Closure(rows, attributeCount, Candidate(ExtendingOneSided, A, i))
    {
      accepted, B := false, {};
      if i !in A {
        B := A + {i};
        assert B == Candidate(ExtendingOneSided, A, i) && B <= allAttributes;
        B := Closure(B);
        accepted := AddsNothingBelow(B, A, i);
        AcceptsAt(rows, attributeCount, A, ExtendingOneSided, i, B);
      }
    }

    /**
     * enumerateConcepts: from the empty intent, store (extentOf(intent), intent)
     * and step until the step returns the empty set.  The intents stored are
     * the one-sided run from the empty set.  The concepts of the run are
     * gathered in a local list and appended to the field once, after the
     * last step; no other code observes the field in between.
     */
    method EnumerateConcepts()
      requires Valid()
      modifies this`concepts
      ensures Valid() && rows == old(rows)
      ensures concepts == old(concepts) + ConceptsOf(rows, Chain(rows, attributeCount, {}, ExtendingOneSided))
    {
      var intent: set<nat> := {};
      var found: seq<Concept> := [];
      ghost var all := Chain(rows, attributeCount, {}, ExtendingOneSided);
      ChainAt(rows, attributeCount, {}, ExtendingOneSided, 0);
      ghost var k := 0;
      while true
        invariant rows == old(rows) && attributeCount == old(attributeCount) && concepts == old(concepts)
        invariant k < |all| && intent == all[k] && intent <= Range(attributeCount)
        invariant found == ConceptsOf(rows, all[..k])
        decreases |all| - k
      {
        var extent := ExtentOf(intent);
        found := found + [Concept(extent, intent)];
        ghost var current := intent;
        intent := NextClosure(intent);
        RunStep(rows, attributeCount, k, current, intent);
        if intent == {} {
          assert found == ConceptsOf(rows, all);
          break;
        }
        k := k + 1;
      }
      concepts := concepts + found;
    }
  }
}
