/**
 * The parts of java.lang.String and java.util the programs rely on when
 * they sort and print names: compareTo, the sorted copy a TreeSet or
 * Collections.sort yields, String.join, trim and isBlank.
 */
module JavaStrings {

  /** String.compareTo: the difference of the first differing characters, else of the lengths. */
  function StrCompare(a: string, b: string): int {
    if |a| == 0 || |b| == 0 then |a| - |b|
    else if a[0] != b[0] then a[0] as int - b[0] as int
    else StrCompare(a[1..], b[1..])
  }

  /** compareTo is antisymmetric: swapping the arguments negates the result. */
  lemma {:induction false} StrCompareAntisymmetric(a: string, b: string)
    ensures StrCompare(a, b) == -StrCompare(b, a)
  {
    if |a| > 0 && |b| > 0 && a[0] == b[0] {
      StrCompareAntisymmetric(a[1..], b[1..]);
    }
  }

  /** compareTo returns 0 exactly on equal strings. */
  lemma {:induction false} StrCompareZero(a: string, b: string)
    ensures StrCompare(a, b) == 0 <==> a == b
  {
    if |a| > 0 && |b| > 0 && a[0] == b[0] {
      StrCompareZero(a[1..], b[1..]);
      assert a == [a[0]] + a[1..] && b == [b[0]] + b[1..];
    }
  }

  /** compareTo orders strings transitively. */
  lemma {:induction false} StrLessTransitive(a: string, b: string, c: string)
    requires StrCompare(a, b) < 0 && StrCompare(b, c) < 0
    ensures StrCompare(a, c) < 0
  {
    if |a| > 0 && |b| > 0 && |c| > 0 && a[0] == b[0] && b[0] == c[0] {
      StrLessTransitive(a[1..], b[1..], c[1..]);
    }
  }

  /** Every pair of distinct strings is ordered one way or the other. */
  lemma StrCompareTotal(a: string, b: string)
    ensures StrCompare(a, b) < 0 || StrCompare(b, a) < 0 || a == b
  {
    StrCompareAntisymmetric(a, b);
    StrCompareZero(a, b);
  }

  /** Strictly increasing under compareTo. */
  predicate StrAscending(s: seq<string>) {
    forall i, j :: 0 <= i < j < |s| ==> StrCompare(s[i], s[j]) < 0
  }

  predicate IsLeast(x: string, s: set<string>) {
    x in s && forall y :: y in s ==> StrCompare(x, y) <= 0
  }

  lemma {:induction false} LeastExists(s: set<string>)
    requires s != {}
    ensures exists x :: IsLeast(x, s)
    decreases |s|
  {
    var y :| y in s;
    if s - {y} == {} {
      assert s == {y};
      assert StrCompare(y, y) == 0 by { StrCompareZero(y, y); }
      assert IsLeast(y, s);
    } else {
      LeastExists(s - {y});
      var z :| IsLeast(z, s - {y});
      StrCompareTotal(y, z);
      StrCompareZero(z, z);
      if StrCompare(y, z) < 0 {
        forall w | w in s ensures StrCompare(y, w) <= 0 {
          if w != y {
            if StrCompare(z, w) < 0 {
              StrLessTransitive(y, z, w);
            } else {
              StrCompareZero(z, w);
            }
          } else {
            StrCompareZero(y, y);
          }
        }
        assert IsLeast(y, s);
      } else {
        StrCompareAntisymmetric(y, z);
        assert IsLeast(z, s);
      }
    }
  }

  lemma LeastUnique(x: string, y: string, s: set<string>)
    requires IsLeast(x, s) && IsLeast(y, s)
    ensures x == y
  {
    StrCompareAntisymmetric(x, y);
    StrCompareZero(x, y);
  }

  /** The least member of a non-empty set. */
  ghost function Least(s: set<string>): (x: string)
    requires s != {}
    ensures IsLeast(x, s)
  {
    LeastExists(s);
    var x :| IsLeast(x, s); x
  }

  /** The members of s in increasing order: what a TreeSet iterates, and what Collections.sort makes of a copy. */
  ghost function SortedList(s: set<string>): seq<string>
    decreases |s|
  {
    if s == {} then [] else [Least(s)] + SortedList(s - {Least(s)})
  }

  /** The sorted list is strictly increasing and holds exactly the members of the set. */
  lemma {:induction false} SortedListFacts(s: set<string>)
    ensures StrAscending(SortedList(s))
    ensures forall x :: x in SortedList(s) <==> x in s
    ensures |SortedList(s)| == |s|
    decreases |s|
  {
    if s != {} {
      var x := Least(s);
      var t := SortedList(s - {x});
      SortedListFacts(s - {x});
      forall j | 0 <= j < |t| ensures StrCompare(x, t[j]) < 0 {
        assert t[j] in s - {x};
        StrCompareZero(x, t[j]);
      }
      assert SortedList(s) == [x] + t;
    }
  }

  /** new ArrayList<>(s) followed by Collections.sort: the sorted list of the set. */
  method SortedCopy(s: set<string>) returns (list: seq<string>)
    ensures list == SortedList(s)
  {
    list := [];
    var rest := s;
    while rest != {}
      invariant list + SortedList(rest) == SortedList(s)
      decreases |rest|
    {
      LeastExists(rest);
      var x :| IsLeast(x, rest);
      LeastUnique(x, Least(rest), rest);
      list := list + [x];
      rest := rest - {x};
    }
  }

  /** Integer.compare: -1, 0 or 1. */
  function IntCompare(x: int, y: int): int {
    if x < y then -1 else if x == y then 0 else 1
  }

  /**
   * Lexicographic comparison of name lists by compareTo, a proper prefix
   * first (Integer.compare of the sizes once one list runs out).
   */
  function LexCompare(l1: seq<string>, l2: seq<string>): int {
    if |l1| == 0 || |l2| == 0 then IntCompare(|l1|, |l2|)
    else if StrCompare(l1[0], l2[0]) != 0 then StrCompare(l1[0], l2[0])
    else LexCompare(l1[1..], l2[1..])
  }

  lemma {:induction false} LexCompareAntisymmetric(l1: seq<string>, l2: seq<string>)
    ensures LexCompare(l1, l2) < 0 <==> LexCompare(l2, l1) > 0
    ensures LexCompare(l1, l2) == 0 <==> l1 == l2
  {
    if |l1| > 0 && |l2| > 0 {
      StrCompareAntisymmetric(l1[0], l2[0]);
      StrCompareZero(l1[0], l2[0]);
      if l1[0] == l2[0] {
        LexCompareAntisymmetric(l1[1..], l2[1..]);
        assert l1 == [l1[0]] + l1[1..] && l2 == [l2[0]] + l2[1..];
      }
    }
  }

  lemma {:induction false} LexLessTransitive(a: seq<string>, b: seq<string>, c: seq<string>)
    requires LexCompare(a, b) < 0 && LexCompare(b, c) < 0
    ensures LexCompare(a, c) < 0
  {
    if |a| > 0 && |b| > 0 && |c| > 0 {
      StrCompareZero(a[0], b[0]);
      StrCompareZero(b[0], c[0]);
      if StrCompare(a[0], b[0]) != 0 {
        if StrCompare(b[0], c[0]) != 0 {
          StrLessTransitive(a[0], b[0], c[0]);
        }
      } else if StrCompare(b[0], c[0]) == 0 {
        LexLessTransitive(a[1..], b[1..], c[1..]);
      }
    }
  }

  /** String.join(", ", xs). */
  function Join(sep: string, xs: seq<string>): string {
    if |xs| == 0 then "" else if |xs| == 1 then xs[0] else xs[0] + sep + Join(sep, xs[1..])
  }

  /**
   * setToString over a TreeSet's iteration order.  The empty case is the
   * general one: the output is "{}" exactly for no names or one empty name.
   */
  function SetToString(order: seq<string>): (r: string)
    ensures r == "{" + Join(", ", order) + "}"
    ensures r == "{}" <==> order == [] || order == [""]
  {
    JoinLength(", ", order);
    if |order| == 0 then "{}" else "{" + Join(", ", order) + "}"
  }

  lemma JoinLength(sep: string, xs: seq<string>)
    ensures |xs| >= 2 ==> |Join(sep, xs)| >= |sep|
  {
  }
}
