/**
 * What List.sort with a comparator promises: the result is a permutation
 * of the list, ordered by the comparator.  The comparators here are
 * antisymmetric and transitive, which the sort needs.
 */
module Sorting {

  ghost predicate Antisymmetric<T(!new)>(cmp: (T, T) -> int) {
    forall a, b :: cmp(a, b) < 0 <==> cmp(b, a) > 0
  }

  ghost predicate Transitive<T(!new)>(cmp: (T, T) -> int) {
    forall a, b, c :: cmp(a, b) <= 0 && cmp(b, c) <= 0 ==> cmp(a, c) <= 0
  }

  ghost predicate Sorted<T>(s: seq<T>, cmp: (T, T) -> int) {
    forall i, j :: 0 <= i < j < |s| ==> cmp(s[i], s[j]) <= 0
  }

  /** Inserting x between a part it follows and a part it precedes keeps a sorted list sorted. */
  lemma InsertSorted<T(!new)>(s: seq<T>, p: nat, x: T, cmp: (T, T) -> int)
    requires Transitive(cmp) && Sorted(s, cmp) && p <= |s|
    requires p > 0 ==> cmp(s[p - 1], x) <= 0
    requires p < |s| ==> cmp(x, s[p]) <= 0
    ensures Sorted(s[..p] + [x] + s[p..], cmp)
  {
    var r := s[..p] + [x] + s[p..];
    forall i, j | 0 <= i < j < |r| ensures cmp(r[i], r[j]) <= 0 {
      if j < p || i > p {
        assert r[i] == s[if i < p then i else i - 1] && r[j] == s[if j < p then j else j - 1];
      } else if i == p {
        assert r[j] == s[j - 1];
        if j - 1 > p { assert cmp(s[p], s[j - 1]) <= 0; }
      } else if j == p {
        assert r[i] == s[i];
        if i < p - 1 { assert cmp(s[i], s[p - 1]) <= 0; }
      } else {
        assert r[i] == s[i] && r[j] == s[j - 1];
        assert cmp(s[i], s[p - 1]) <= 0 || i == p - 1;
      }
    }
  }

  /**
   * Where an insertion scan from the right stops: x follows the element
   * before p and every later element compares above x.  Inserting there
   * keeps the list sorted and adds x to its elements.
   */
  lemma InsertAfter<T(!new)>(s: seq<T>, p: nat, x: T, cmp: (T, T) -> int)
    requires Antisymmetric(cmp) && Transitive(cmp) && Sorted(s, cmp) && p <= |s|
    requires p > 0 ==> cmp(s[p - 1], x) <= 0
    requires forall q :: p <= q < |s| ==> cmp(s[q], x) > 0
    ensures Sorted(s[..p] + [x] + s[p..], cmp)
    ensures multiset(s[..p] + [x] + s[p..]) == multiset(s) + multiset{x}
  {
    if p < |s| {
      assert cmp(s[p], x) > 0;
    }
    InsertSorted(s, p, x, cmp);
    InsertMultiset(s, p, x);
  }

  lemma InsertMultiset<T>(s: seq<T>, p: nat, x: T)
    requires p <= |s|
    ensures multiset(s[..p] + [x] + s[p..]) == multiset(s) + multiset{x}
  {
    assert s == s[..p] + s[p..];
  }
}
