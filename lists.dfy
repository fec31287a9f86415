/**
 * Lists read as Java collections: a LinkedHashSet built from a list keeps
 * the first occurrence of each element, in list order; filtering a list by
 * membership in a set keeps or drops elements in order.
 */
module Lists {

  function Elements<T>(s: seq<T>): set<T> {
    set x | x in s
  }

  /** The positions of s whose element satisfies P. */
  function Positions<T>(s: seq<T>, P: T -> bool): set<nat> {
    set n: nat | n < |s| && P(s[n])
  }

  lemma PositionsStep<T>(s: seq<T>, P: T -> bool)
    requires |s| > 0
    ensures |Positions(s, P)| == |Positions(s[..|s| - 1], P)| + (if P(s[|s| - 1]) then 1 else 0)
  {
    var m := |s| - 1;
    var before := Positions(s[..m], P);
    var extra: set<nat> := if P(s[m]) then {m} else {};
    forall n: nat ensures n in Positions(s, P) <==> n in before + extra {
      if n < m {
        assert s[..m][n] == s[n];
      }
    }
    assert Positions(s, P) == before + extra;
    assert m !in before;
  }

  predicate Distinct<T(==)>(s: seq<T>) {
    forall i, j :: 0 <= i < j < |s| ==> s[i] != s[j]
  }

  /** Dropping the last element of a + b drops it from b. */
  lemma InitAppend<T>(a: seq<T>, b: seq<T>)
    requires |b| > 0
    ensures (a + b)[..|a + b| - 1] == a + b[..|b| - 1] && (a + b)[|a + b| - 1] == b[|b| - 1]
  {
    assert (a + b)[..|a + b| - 1] == a + b[..|b| - 1];
  }

  lemma AppendAssoc<T>(a: seq<T>, b: seq<T>, c: seq<T>)
    ensures (a + b) + c == a + (b + c)
  {
  }

  /** A fresh element keeps a list free of repeats. */
  lemma DistinctAppend<T>(s: seq<T>, x: T)
    requires Distinct(s) && x !in s
    ensures Distinct(s + [x])
  {
    forall i, j | 0 <= i < j < |s| + 1 ensures (s + [x])[i] != (s + [x])[j] {
      if j == |s| { assert (s + [x])[i] in s; }
    }
  }

  /** The index of the first occurrence of x in s. */
  function FirstIndex<T(==)>(s: seq<T>, x: T): (i: nat)
    requires x in s
    ensures i < |s| && s[i] == x && x !in s[..i]
  {
    if s[0] == x then 0 else 1 + FirstIndex(s[1..], x)
  }

  /** The iteration order of `new LinkedHashSet<>(s)`. */
  function Dedup<T(==)>(s: seq<T>): (d: seq<T>)
    ensures Distinct(d) && Elements(d) == Elements(s)
  {
    if |s| == 0 then []
    else
      var d := Dedup(s[..|s| - 1]);
      assert Elements(s) == Elements(s[..|s| - 1]) + {s[|s| - 1]} by {
        assert s == s[..|s| - 1] + [s[|s| - 1]];
      }
      if s[|s| - 1] in d then d else d + [s[|s| - 1]]
  }

  /** The elements of s that lie in S, in order. */
  function Keep<T>(s: seq<T>, S: set<T>): seq<T> {
    if |s| == 0 then [] else (if s[0] in S then [s[0]] else []) + Keep(s[1..], S)
  }

  /** The elements of s that do not lie in S, in order. */
  function Drop<T>(s: seq<T>, S: set<T>): seq<T> {
    if |s| == 0 then [] else (if s[0] in S then [] else [s[0]]) + Drop(s[1..], S)
  }

  /** A duplicate-free list is left as it is. */
  lemma {:induction false} DedupOfDistinct<T>(s: seq<T>)
    requires Distinct(s)
    ensures Dedup(s) == s
  {
    if |s| > 0 {
      var t := s[..|s| - 1];
      DedupOfDistinct(t);
      assert s[|s| - 1] !in t by {
        forall i | 0 <= i < |t| ensures t[i] != s[|s| - 1] { assert t[i] == s[i]; }
      }
      assert s == t + [s[|s| - 1]];
    }
  }

  /** Dedup lists elements in the order of their first occurrence in s. */
  lemma {:induction false} DedupFirstOccurrence<T>(s: seq<T>, p: nat, q: nat)
    requires p < q < |Dedup(s)|
    ensures Dedup(s)[p] in s && Dedup(s)[q] in s
    ensures FirstIndex(s, Dedup(s)[p]) < FirstIndex(s, Dedup(s)[q])
  {
    var t := s[..|s| - 1];
    var d := Dedup(t);
    assert Dedup(s) == if s[|s| - 1] in d then d else d + [s[|s| - 1]];
    var x, y := Dedup(s)[p], Dedup(s)[q];
    assert x in Elements(Dedup(s)) && y in Elements(Dedup(s));
    assert x == d[p] && x in Elements(d);
    FirstIndexPrefix(s, t, x);
    if q < |d| {
      assert y == d[q] && y in Elements(d);
      FirstIndexPrefix(s, t, y);
      DedupFirstOccurrence(t, p, q);
    } else {
      assert y == s[|s| - 1] && y !in d;
      assert y !in Elements(t);
      assert FirstIndex(s, y) == |s| - 1;
    }
  }

  lemma FirstIndexPrefix<T>(s: seq<T>, t: seq<T>, x: T)
    requires |s| > 0 && t == s[..|s| - 1] && x in t
    ensures x in s && FirstIndex(s, x) == FirstIndex(t, x)
  {
    assert s == t + [s[|s| - 1]];
  }

  lemma {:induction false} KeepDropSizes<T>(s: seq<T>, S: set<T>)
    ensures |Keep(s, S)| + |Drop(s, S)| == |s|
  {
    if |s| > 0 {
      KeepDropSizes(s[1..], S);
    }
  }

  lemma {:induction false} KeepElements<T>(s: seq<T>, S: set<T>)
    ensures Elements(Keep(s, S)) == Elements(s) * S
    ensures Distinct(s) ==> Distinct(Keep(s, S))
  {
    if |s| > 0 {
      KeepElements(s[1..], S);
      assert s == [s[0]] + s[1..];
      assert Elements(s) == {s[0]} + Elements(s[1..]);
      var head := if s[0] in S then [s[0]] else [];
      assert Keep(s, S) == head + Keep(s[1..], S);
      assert Elements(Keep(s, S)) == Elements(head) + Elements(Keep(s[1..], S));
      if Distinct(s) {
        assert Distinct(s[1..]) by {
          forall i, j | 0 <= i < j < |s[1..]| ensures s[1..][i] != s[1..][j] {
            assert s[1..][i] == s[i + 1] && s[1..][j] == s[j + 1];
          }
        }
        var k := Keep(s, S);
        if s[0] in S {
          assert k == [s[0]] + Keep(s[1..], S);
          assert s[0] !in Elements(s[1..]) by {
            forall i | 0 <= i < |s[1..]| ensures s[1..][i] != s[0] { assert s[1..][i] == s[i + 1]; }
          }
          forall i, j | 0 <= i < j < |k| ensures k[i] != k[j] {
            assert k[j] == Keep(s[1..], S)[j - 1];
            assert k[j] in Elements(Keep(s[1..], S));
            if i > 0 { assert k[i] == Keep(s[1..], S)[i - 1]; }
          }
        } else {
          assert k == Keep(s[1..], S);
        }
      }
    }
  }

  lemma {:induction false} DistinctSize<T>(s: seq<T>)
    requires Distinct(s)
    ensures |Elements(s)| == |s|
  {
    if |s| > 0 {
      var t := s[1..];
      assert Distinct(t) by {
        forall i, j | 0 <= i < j < |t| ensures t[i] != t[j] { assert t[i] == s[i + 1] && t[j] == s[j + 1]; }
      }
      DistinctSize(t);
      assert s == [s[0]] + t;
      assert Elements(s) == {s[0]} + Elements(t);
      assert s[0] !in Elements(t) by {
        forall i | 0 <= i < |t| ensures t[i] != s[0] { assert t[i] == s[i + 1]; }
      }
    }
  }

  /** `new LinkedHashSet<>(s)`, read back in iteration order. */
  method LinkedCopy<T(==)>(s: seq<T>) returns (d: seq<T>)
    ensures d == Dedup(s)
  {
    d := [];
    for i := 0 to |s|
      invariant d == Dedup(s[..i])
    {
      assert s[..i + 1][..i] == s[..i];
      if s[i] !in d {
        d := d + [s[i]];
      }
    }
    assert s[..|s|] == s;
  }

  /** In a duplicate-free list every element occurs once. */
  lemma {:induction false} DistinctCounts<T>(s: seq<T>, x: T)
    requires Distinct(s)
    ensures multiset(s)[x] == if x in s then 1 else 0
  {
    if |s| > 0 {
      var t := s[..|s| - 1];
      assert Distinct(t) by {
        forall i, j | 0 <= i < j < |t| ensures t[i] != t[j] { assert t[i] == s[i] && t[j] == s[j]; }
      }
      DistinctCounts(t, x);
      assert s == t + [s[|s| - 1]];
      assert s[|s| - 1] !in t by {
        forall i | 0 <= i < |t| ensures t[i] != s[|s| - 1] { assert t[i] == s[i]; }
      }
    }
  }

  /** Two duplicate-free lists of the same elements are permutations of each other. */
  lemma SameElementsPermutation<T>(s: seq<T>, t: seq<T>)
    requires Distinct(s) && Distinct(t) && Elements(s) == Elements(t)
    ensures multiset(s) == multiset(t)
  {
    forall x ensures multiset(s)[x] == multiset(t)[x] {
      DistinctCounts(s, x);
      DistinctCounts(t, x);
      assert x in s <==> x in Elements(s);
      assert x in t <==> x in Elements(t);
    }
  }

  /** Extending the filtered prefix by one element. */
  lemma KeepDropStep<T>(s: seq<T>, i: nat, S: set<T>)
    requires i < |s|
    ensures Keep(s[..i + 1], S) == Keep(s[..i], S) + (if s[i] in S then [s[i]] else [])
    ensures Drop(s[..i + 1], S) == Drop(s[..i], S) + (if s[i] in S then [] else [s[i]])
  {
    assert s[..i + 1] == s[..i] + [s[i]];
    KeepAppend(s[..i], s[i], S);
    DropAppend(s[..i], s[i], S);
  }

  lemma {:induction false} KeepAppend<T>(s: seq<T>, x: T, S: set<T>)
    ensures Keep(s + [x], S) == Keep(s, S) + (if x in S then [x] else [])
  {
    if |s| == 0 {
      assert s + [x] == [x] && [x][1..] == [];
    } else {
      var t := s + [x];
      var head := (if s[0] in S then [s[0]] else []);
      assert t[0] == s[0] && t[1..] == s[1..] + [x];
      assert Keep(t, S) == head + Keep(s[1..] + [x], S);
      KeepAppend(s[1..], x, S);
      assert Keep(s, S) == head + Keep(s[1..], S);
    }
  }

  lemma {:induction false} DropAppend<T>(s: seq<T>, x: T, S: set<T>)
    ensures Drop(s + [x], S) == Drop(s, S) + (if x in S then [] else [x])
  {
    if |s| == 0 {
      assert s + [x] == [x] && [x][1..] == [];
    } else {
      var t := s + [x];
      var head := (if s[0] in S then [] else [s[0]]);
      assert t[0] == s[0] && t[1..] == s[1..] + [x];
      assert Drop(t, S) == head + Drop(s[1..] + [x], S);
      DropAppend(s[1..], x, S);
      assert Drop(s, S) == head + Drop(s[1..], S);
    }
  }
}
