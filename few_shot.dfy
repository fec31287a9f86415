/**
 * The brute-force enumerator over named objects and attributes: every
 * attribute subset, read as a bit mask over the header, is kept when the
 * attributes common to the objects having all of it give it back.  The
 * concepts are then sorted by extent size and extent names, and compared
 * with a reference list as linked hash sets.
 */
module FewShot {
  import opened Wrappers
  import opened Lectic
  import opened Masks
  import opened JavaStrings
  import opened Lists
  import opened Sorting
  import opened JavaHash

  /** A concept by names; two concepts are equal when their extents and intents are equal sets. */
  datatype Concept = Concept(extent: set<string>, intent: set<string>)

  /** Every listed object has a row in the object-to-attributes map, as the CSV reader builds it. */
  predicate Loaded(objects: seq<string>, objToAttrs: map<string, set<string>>) {
    forall o :: o in objects ==> o in objToAttrs
  }

  /** The listed objects whose attribute set contains all of I. */
  function NamedExtent(objects: seq<string>, objToAttrs: map<string, set<string>>, I: set<string>): set<string>
    requires Loaded(objects, objToAttrs)
  {
    set o | o in objects && I <= objToAttrs[o]
  }

  /** The header attributes shared by every object of E; all of them when E is empty. */
  function NamedIntent(attributes: seq<string>, objToAttrs: map<string, set<string>>, E: set<string>): set<string>
    requires forall o :: o in E ==> o in objToAttrs
  {
    set a | a in attributes && forall o :: o in E ==> a in objToAttrs[o]
  }

  /** The attributes at the set bits of mask among the first k header positions. */
  function Picked(attributes: seq<string>, mask: nat, k: nat): set<string>
    requires k <= |attributes|
  {
    if k == 0 then {} else Picked(attributes, mask, k - 1) + (if Bit(mask, k - 1) then {attributes[k - 1]} else {})
  }

  /** The concept a mask yields when its candidate intent is closed. */
  function AtMask(attributes: seq<string>, objects: seq<string>, objToAttrs: map<string, set<string>>, mask: nat): Option<Concept>
    requires Loaded(objects, objToAttrs)
  {
    var I := Picked(attributes, mask, |attributes|);
    var E := NamedExtent(objects, objToAttrs, I);
    var C := NamedIntent(attributes, objToAttrs, E);
    if C == I then Some(Concept(E, C)) else None
  }

  /** The concepts the masks below k yield, in mask order. */
  function Found(attributes: seq<string>, objects: seq<string>, objToAttrs: map<string, set<string>>, k: nat): seq<Concept>
    requires Loaded(objects, objToAttrs)
  {
    if k == 0 then []
    else
      var added := match AtMask(attributes, objects, objToAttrs, k - 1)
        case Some(c) => [c]
        case None => [];
      Found(attributes, objects, objToAttrs, k - 1) + added
  }

  lemma {:induction false} PickedMembers(attributes: seq<string>, mask: nat, k: nat, x: string)
    requires k <= |attributes|
    ensures x in Picked(attributes, mask, k) <==> exists j: nat :: j < k && Bit(mask, j) && attributes[j] == x
  {
    if k > 0 {
      PickedMembers(attributes, mask, k - 1, x);
    }
  }

  // ---------------------------------------------------------------------
  // The mask loop
  // ---------------------------------------------------------------------

  /** The candidate intent: attributes.get(j) for every j whose bit (mask & (1 << j)) is set. */
  method CandidateIntent(attributes: seq<string>, mask: nat) returns (candidate: set<string>)
    requires |attributes| < 31
    ensures candidate == Picked(attributes, mask, |attributes|)
  {
    candidate := {};
    for j := 0 to |attributes|
      invariant candidate == Picked(attributes, mask, j)
    {
      if Bit(mask, j) {
        candidate := candidate + {attributes[j]};
      }
    }
  }

  /** The objects, in list order, whose attribute set containsAll the candidate. */
  method ExtentOfCandidate(objects: seq<string>, objToAttrs: map<string, set<string>>, candidate: set<string>)
    returns (extent: set<string>)
    requires Loaded(objects, objToAttrs)
    ensures extent == NamedExtent(objects, objToAttrs, candidate)
  {
    extent := {};
    for i := 0 to |objects|
      invariant extent == set o | o in objects[..i] && candidate <= objToAttrs[o]
    {
      assert objects[..i + 1] == objects[..i] + [objects[i]];
      if candidate <= objToAttrs[objects[i]] {
        extent := extent + {objects[i]};
      }
    }
    assert objects[..|objects|] == objects;
  }

  /** Start from every header attribute and, when the extent is non-empty, retainAll each extent object's set. */
  method CommonAttributes(attributes: seq<string>, objToAttrs: map<string, set<string>>, extent: set<string>)
    returns (closure: set<string>)
    requires forall o :: o in extent ==> o in objToAttrs
    ensures closure == NamedIntent(attributes, objToAttrs, extent)
  {
    closure := Elements(attributes);
    if extent != {} {
      var rest := extent;
      while rest != {}
        invariant rest <= extent
        invariant closure == NamedIntent(attributes, objToAttrs, extent - rest)
        decreases |rest|
      {
        var o :| o in rest;
        closure := closure * objToAttrs[o];
        rest := rest - {o};
      }
      assert extent - rest == extent;
    } else {
      assert closure == NamedIntent(attributes, objToAttrs, extent);
    }
  }

  /** The mask loop: every mask below 2^m, in increasing order, adding the concept of each closed candidate. */
  method Enumerate(attributes: seq<string>, objects: seq<string>, objToAttrs: map<string, set<string>>)
    returns (concepts: seq<Concept>)
    requires |attributes| < 31 && Loaded(objects, objToAttrs)
    ensures concepts == Found(attributes, objects, objToAttrs, Pow2(|attributes|))
  {
    concepts := [];
    var m := |attributes|;
    for mask := 0 to Pow2(m)
      invariant concepts == Found(attributes, objects, objToAttrs, mask)
    {
      var candidate := CandidateIntent(attributes, mask);
      var extent := ExtentOfCandidate(objects, objToAttrs, candidate);
      var closure := CommonAttributes(attributes, objToAttrs, extent);
      if closure == candidate {
        concepts := concepts + [Concept(extent, closure)];
      }
    }
  }

  // ---------------------------------------------------------------------
  // What the masks yield
  // ---------------------------------------------------------------------

  /** Within the named context: (E, I) is a concept when each is the other's derivation. */
  ghost predicate IsConcept(attributes: seq<string>, objects: seq<string>, objToAttrs: map<string, set<string>>, c: Concept)
    requires Loaded(objects, objToAttrs)
  {
    c.extent == NamedExtent(objects, objToAttrs, c.intent) &&
    c.intent == NamedIntent(attributes, objToAttrs, c.extent)
  }

  lemma {:induction false} FoundFrom(attributes: seq<string>, objects: seq<string>, objToAttrs: map<string, set<string>>, k: nat, c: Concept)
    requires Loaded(objects, objToAttrs) && c in Found(attributes, objects, objToAttrs, k)
    ensures exists mask: nat :: mask < k && AtMask(attributes, objects, objToAttrs, mask) == Some(c)
  {
    if c !in Found(attributes, objects, objToAttrs, k - 1) {
      assert AtMask(attributes, objects, objToAttrs, k - 1) == Some(c);
    } else {
      FoundFrom(attributes, objects, objToAttrs, k - 1, c);
    }
  }

  lemma {:induction false} FoundHas(attributes: seq<string>, objects: seq<string>, objToAttrs: map<string, set<string>>, k: nat, mask: nat)
    requires Loaded(objects, objToAttrs) && mask < k && AtMask(attributes, objects, objToAttrs, mask).Some?
    ensures AtMask(attributes, objects, objToAttrs, mask).value in Found(attributes, objects, objToAttrs, k)
  {
    if mask < k - 1 {
      FoundHas(attributes, objects, objToAttrs, k - 1, mask);
    }
  }

  /** Every concept added is a formal concept of the named context, over listed names. */
  lemma FoundSound(attributes: seq<string>, objects: seq<string>, objToAttrs: map<string, set<string>>, k: nat)
    requires Loaded(objects, objToAttrs)
    ensures forall c :: c in Found(attributes, objects, objToAttrs, k) ==>
      IsConcept(attributes, objects, objToAttrs, c) && c.extent <= Elements(objects) && c.intent <= Elements(attributes)
  {
    forall c | c in Found(attributes, objects, objToAttrs, k)
      ensures IsConcept(attributes, objects, objToAttrs, c) && c.extent <= Elements(objects) && c.intent <= Elements(attributes)
    {
      FoundFrom(attributes, objects, objToAttrs, k, c);
    }
  }

  /** Every formal concept of the named context is added by the loop over all 2^m masks. */
  lemma FoundComplete(attributes: seq<string>, objects: seq<string>, objToAttrs: map<string, set<string>>, c: Concept)
    requires Loaded(objects, objToAttrs) && IsConcept(attributes, objects, objToAttrs, c)
    ensures c in Found(attributes, objects, objToAttrs, Pow2(|attributes|))
  {
    var mask := IntentMask(attributes, c.intent);
    assert AtMask(attributes, objects, objToAttrs, mask) == Some(c);
    FoundHas(attributes, objects, objToAttrs, Pow2(|attributes|), mask);
  }

  /** Every set of header names is picked by some mask. */
  lemma IntentMask(attributes: seq<string>, X: set<string>) returns (mask: nat)
    requires forall x :: x in X ==> x in attributes
    ensures mask < Pow2(|attributes|) && Picked(attributes, mask, |attributes|) == X
  {
    var m := |attributes|;
    var S := set j: nat | j < m && attributes[j] in X;
    mask := MaskOf(S, 0, m);
    MaskOfBits(S, 0, m);
    forall x ensures x in Picked(attributes, mask, m) <==> x in X {
      PickedMembers(attributes, mask, m, x);
      if x in X {
        var j :| 0 <= j < m && attributes[j] == x;
        assert Bit(mask, 0 + j);
      }
    }
  }

  /** With distinct header names, different masks give different candidate intents. */
  lemma PickedInjective(attributes: seq<string>, x: nat, y: nat)
    requires Distinct(attributes) && x < Pow2(|attributes|) && y < Pow2(|attributes|) && x != y
    ensures Picked(attributes, x, |attributes|) != Picked(attributes, y, |attributes|)
  {
    var m := |attributes|;
    if forall j: nat :: j < m ==> Bit(x, j) == Bit(y, j) {
      MaskInjective(x, y, m);
    }
    var j: nat :| j < m && Bit(x, j) != Bit(y, j);
    var a := attributes[j];
    PickedMembers(attributes, x, m, a);
    PickedMembers(attributes, y, m, a);
    if Bit(x, j) {
      assert a in Picked(attributes, x, m) && a !in Picked(attributes, y, m);
    } else {
      assert a in Picked(attributes, y, m) && a !in Picked(attributes, x, m);
    }
  }

  /** With distinct header names no concept is added twice. */
  lemma {:induction false} FoundDistinct(attributes: seq<string>, objects: seq<string>, objToAttrs: map<string, set<string>>, k: nat)
    requires Loaded(objects, objToAttrs) && Distinct(attributes) && k <= Pow2(|attributes|)
    ensures Distinct(Found(attributes, objects, objToAttrs, k))
  {
    if k > 0 {
      var prev := Found(attributes, objects, objToAttrs, k - 1);
      FoundDistinct(attributes, objects, objToAttrs, k - 1);
      var at := AtMask(attributes, objects, objToAttrs, k - 1);
      if at.Some? {
        var c := at.value;
        if c in prev {
          FoundFrom(attributes, objects, objToAttrs, k - 1, c);
          var mask: nat :| mask < k - 1 && AtMask(attributes, objects, objToAttrs, mask) == Some(c);
          PickedInjective(attributes, mask, k - 1);
          assert false;
        }
        var all := prev + [c];
        forall i, j | 0 <= i < j < |all| ensures all[i] != all[j] {
          if j == |prev| { assert all[i] in prev; }
        }
      }
    }
  }

  // ---------------------------------------------------------------------
  // The sort
  // ---------------------------------------------------------------------

  /** The comparator: larger extents first, then sorted extent name lists in compareTo order. */
  ghost function ExtentOrder(c1: Concept, c2: Concept): int {
    if |c2.extent| - |c1.extent| != 0 then |c2.extent| - |c1.extent|
    else LexCompare(SortedList(c1.extent), SortedList(c2.extent))
  }

  lemma ExtentOrderLaws()
    ensures Antisymmetric(ExtentOrder) && Transitive(ExtentOrder)
  {
    forall a, b ensures ExtentOrder(a, b) < 0 <==> ExtentOrder(b, a) > 0 {
      LexCompareAntisymmetric(SortedList(a.extent), SortedList(b.extent));
    }
    forall a, b, c | ExtentOrder(a, b) <= 0 && ExtentOrder(b, c) <= 0 ensures ExtentOrder(a, c) <= 0 {
      if |a.extent| == |b.extent| == |c.extent| {
        var la, lb, lc := SortedList(a.extent), SortedList(b.extent), SortedList(c.extent);
        LexCompareAntisymmetric(la, lb);
        LexCompareAntisymmetric(lb, lc);
        if LexCompare(la, lb) < 0 && LexCompare(lb, lc) < 0 {
          LexLessTransitive(la, lb, lc);
        }
      }
    }
  }

  /** The comparator lambda: the size difference, else the first compareTo difference of the sorted extent lists. */
  method CompareByExtent(c1: Concept, c2: Concept) returns (d: int)
    ensures d == ExtentOrder(c1, c2)
  {
    d := |c2.extent| - |c1.extent|;
    if d != 0 {
      return;
    }
    var e1 := SortedCopy(c1.extent);
    var e2 := SortedCopy(c2.extent);
    SortedListFacts(c1.extent);
    SortedListFacts(c2.extent);
    d := CompareSameLength(e1, e2);
  }

  /** The loop of the comparator over two lists of one length: the first compareTo difference, else 0. */
  method CompareSameLength(e1: seq<string>, e2: seq<string>) returns (d: int)
    requires |e1| == |e2|
    ensures d == LexCompare(e1, e2)
  {
    var i := 0;
    while i < |e1|
      invariant 0 <= i <= |e1|
      invariant LexCompare(e1[i..], e2[i..]) == LexCompare(e1, e2)
    {
      var cmp := StrCompare(e1[i], e2[i]);
      if cmp != 0 {
        return cmp;
      }
      assert e1[i..][1..] == e1[i + 1..] && e2[i..][1..] == e2[i + 1..];
      i := i + 1;
    }
    return 0;
  }

  /** One insertion step: x goes after the last element that does not compare above it. */
  method InsertByExtent(sorted: seq<Concept>, x: Concept) returns (r: seq<Concept>)
    requires Sorted(sorted, ExtentOrder)
    ensures multiset(r) == multiset(sorted) + multiset{x}
    ensures Sorted(r, ExtentOrder)
  {
    var p := |sorted|;
    while p > 0
      invariant 0 <= p <= |sorted|
      invariant forall q :: p <= q < |sorted| ==> ExtentOrder(sorted[q], x) > 0
    {
      var d := CompareByExtent(sorted[p - 1], x);
      if d <= 0 {
        break;
      }
      p := p - 1;
    }
    ExtentOrderLaws();
    InsertAfter(sorted, p, x, ExtentOrder);
    r := sorted[..p] + [x] + sorted[p..];
  }

  /** concepts.sort(comparator): a permutation of the list, ordered by the comparator. */
  method SortByExtent(concepts: seq<Concept>) returns (sorted: seq<Concept>)
    ensures multiset(sorted) == multiset(concepts)
    ensures Sorted(sorted, ExtentOrder)
    ensures forall i, j :: 0 <= i < j < |sorted| ==> |sorted[j].extent| <= |sorted[i].extent|
  {
    sorted := [];
    for n := 0 to |concepts|
      invariant multiset(sorted) == multiset(concepts[..n])
      invariant Sorted(sorted, ExtentOrder)
    {
      assert concepts[..n + 1] == concepts[..n] + [concepts[n]];
      sorted := InsertByExtent(sorted, concepts[n]);
    }
    assert concepts[..|concepts|] == concepts;
    ExtentsNonIncreasing(sorted);
  }

  lemma ExtentsNonIncreasing(s: seq<Concept>)
    requires Sorted(s, ExtentOrder)
    ensures forall i, j :: 0 <= i < j < |s| ==> |s[j].extent| <= |s[i].extent|
  {
    forall i, j | 0 <= i < j < |s| ensures |s[j].extent| <= |s[i].extent| {
      assert ExtentOrder(s[i], s[j]) <= 0;
    }
  }

  // ---------------------------------------------------------------------
  // Evaluation against a reference list
  // ---------------------------------------------------------------------

  /**
   * The predicted and reference lists as linked hash sets; true positives
   * and false positives split the predicted set by membership in the
   * reference set, false negatives are the reference concepts not predicted.
   */
  method EvaluationLists(concepts: seq<Concept>, refConcepts: seq<Concept>)
    returns (truePositives: seq<Concept>, falsePositives: seq<Concept>, falseNegatives: seq<Concept>)
    ensures truePositives == Keep(Dedup(concepts), Elements(refConcepts))
    ensures falsePositives == Drop(Dedup(concepts), Elements(refConcepts))
    ensures falseNegatives == Drop(Dedup(refConcepts), Elements(concepts))
    ensures Elements(truePositives) == Elements(concepts) * Elements(refConcepts)
    ensures |truePositives| + |falsePositives| == |Dedup(concepts)| == |Elements(concepts)|
    ensures |truePositives| + |falseNegatives| == |Dedup(refConcepts)| == |Elements(refConcepts)|
  {
    var predictedSet := LinkedCopy(concepts);
    var referenceSet := LinkedCopy(refConcepts);
    truePositives, falsePositives := [], [];
    for i := 0 to |predictedSet|
      invariant truePositives == Keep(predictedSet[..i], Elements(refConcepts))
      invariant falsePositives == Drop(predictedSet[..i], Elements(refConcepts))
    {
      KeepDropStep(predictedSet, i, Elements(refConcepts));
      if predictedSet[i] in referenceSet {
        truePositives := truePositives + [predictedSet[i]];
      } else {
        falsePositives := falsePositives + [predictedSet[i]];
      }
    }
    falseNegatives := [];
    for i := 0 to |referenceSet|
      invariant falseNegatives == Drop(referenceSet[..i], Elements(concepts))
    {
      KeepDropStep(referenceSet, i, Elements(concepts));
      if referenceSet[i] !in predictedSet {
        falseNegatives := falseNegatives + [referenceSet[i]];
      }
    }
    assert predictedSet[..|predictedSet|] == predictedSet;
    assert referenceSet[..|referenceSet|] == referenceSet;
    KeepDropSizes(predictedSet, Elements(refConcepts));
    KeepDropSizes(referenceSet, Elements(concepts));
    KeepElements(predictedSet, Elements(refConcepts));
    KeepElements(referenceSet, Elements(concepts));
    DistinctSize(predictedSet);
    DistinctSize(referenceSet);
    DistinctSize(truePositives);
    DistinctSize(Keep(referenceSet, Elements(concepts)));
    assert Elements(Keep(referenceSet, Elements(concepts))) == Elements(truePositives);
    KeepDropSizes(referenceSet, Elements(concepts));
  }

  // ---------------------------------------------------------------------
  // equals and hashCode
  // ---------------------------------------------------------------------

  /** order lists the members of S once each: an iteration order of a hash set holding S. */
  predicate Enumerates(order: seq<string>, S: set<string>) {
    Distinct(order) && Elements(order) == S
  }

  /** Concept.hashCode, Objects.hash(extent, intent), under the given iteration orders of the two sets. */
  function HashCode(c: Concept, extentOrder: seq<string>, intentOrder: seq<string>): (h: int)
    requires Enumerates(extentOrder, c.extent) && Enumerates(intentOrder, c.intent)
    ensures -TwoTo31 <= h < TwoTo31
  {
    PairHash(SetHash(extentOrder), SetHash(intentOrder))
  }

  /** Concepts that are equal (equal extents and intents) have equal hash codes, whatever the set iteration orders. */
  lemma HashCodeAgreesWithEquals(c1: Concept, c2: Concept, e1: seq<string>, i1: seq<string>, e2: seq<string>, i2: seq<string>)
    requires Enumerates(e1, c1.extent) && Enumerates(i1, c1.intent)
    requires Enumerates(e2, c2.extent) && Enumerates(i2, c2.intent)
    requires c1 == c2
    ensures HashCode(c1, e1, i1) == HashCode(c2, e2, i2)
  {
    SetHashOrderFree(e1, e2);
    SetHashOrderFree(i1, i2);
  }
}
