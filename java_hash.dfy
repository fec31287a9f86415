/**
 * Java's hash codes in 32-bit int arithmetic: String.hashCode,
 * AbstractSet.hashCode (the sum of the element hashes, in iteration order)
 * and Objects.hash over two values.
 */
module JavaHash {
  import opened Lists

  const TwoTo31: int := 0x8000_0000
  const TwoTo32: int := 0x1_0000_0000

  /** The Java int that x denotes: x reduced modulo 2^32 into [-2^31, 2^31). */
  function Wrap(x: int): (r: int)
    ensures -TwoTo31 <= r < TwoTo31
    ensures (r - x) % TwoTo32 == 0
  {
    (x + TwoTo31) % TwoTo32 - TwoTo31
  }

  /** Wrapping a partial result does not change what a later wrap gives. */
  lemma WrapAdd(a: int, b: int)
    ensures Wrap(Wrap(a) + b) == Wrap(a + b)
  {
  }

  /** String.hashCode: h = 31 * h + c over the characters, in int arithmetic. */
  function StringHash(s: string): int {
    if |s| == 0 then 0 else Wrap(31 * StringHash(s[..|s| - 1]) + s[|s| - 1] as int)
  }

  /** AbstractSet.hashCode over the given iteration order. */
  function SetHash(order: seq<string>): int {
    WrappedSum(order, StringHash)
  }

  /** h = h + hash(x) over the elements in order, in int arithmetic. */
  function WrappedSum(order: seq<string>, h: string -> int): int {
    if |order| == 0 then 0 else Wrap(WrappedSum(order[..|order| - 1], h) + h(order[|order| - 1]))
  }

  /** The sum of the element hashes h without the wrap. */
  function HashSum(order: seq<string>, h: string -> int): int {
    if |order| == 0 then 0 else HashSum(order[..|order| - 1], h) + h(order[|order| - 1])
  }

  /** Objects.hash(x, y) = 31 * (31 * 1 + x.hashCode()) + y.hashCode(). */
  function PairHash(hx: int, hy: int): int {
    Wrap(31 * Wrap(31 + hx) + hy)
  }

  /** Wrapping after every addition is wrapping the sum once. */
  lemma {:induction false} WrappedSumWrapsSum(order: seq<string>, h: string -> int)
    ensures WrappedSum(order, h) == Wrap(HashSum(order, h))
  {
    if |order| > 0 {
      var init := order[..|order| - 1];
      var a, b := HashSum(init, h), h(order[|order| - 1]);
      WrappedSumWrapsSum(init, h);
      WrapAdd(a, b);
    }
  }

  lemma {:induction false} HashSumConcat(a: seq<string>, b: seq<string>, h: string -> int)
    ensures HashSum(a + b, h) == HashSum(a, h) + HashSum(b, h)
  {
    if |b| > 0 {
      HashSumConcat(a, b[..|b| - 1], h);
      assert (a + b)[..|a + b| - 1] == a + b[..|b| - 1];
      assert (a + b)[|a + b| - 1] == b[|b| - 1];
    } else {
      assert a + b == a;
    }
  }

  lemma HashSumRemove(t: seq<string>, k: nat, h: string -> int)
    requires k < |t|
    ensures HashSum(t, h) == HashSum(t[..k] + t[k + 1..], h) + h(t[k])
  {
    var front, x, back := t[..k], t[k], t[k + 1..];
    SplitAround(t, k);
    HashSumConcat(front, [x] + back, h);
    HashSumConcat([x], back, h);
    HashSumConcat(front, back, h);
    HashSumSingle(x, h);
  }

  lemma SplitAround(t: seq<string>, k: nat)
    requires k < |t|
    ensures t == t[..k] + ([t[k]] + t[k + 1..])
  {
    assert t == t[..k] + ([t[k]] + t[k + 1..]);
  }

  lemma HashSumSingle(x: string, h: string -> int)
    ensures HashSum([x], h) == h(x)
  {
    assert [x][..0] == [];
  }

  lemma MultisetRemove(t: seq<string>, k: nat)
    requires k < |t|
    ensures multiset(t[..k] + t[k + 1..]) == multiset(t) - multiset{t[k]}
  {
    assert t == t[..k] + [t[k]] + t[k + 1..];
  }

  lemma {:induction false} HashSumPermutation(s: seq<string>, t: seq<string>, h: string -> int)
    requires multiset(s) == multiset(t)
    ensures HashSum(s, h) == HashSum(t, h)
  {
    if |s| > 0 {
      var x := s[|s| - 1];
      var init := s[..|s| - 1];
      assert s == init + [x];
      assert multiset(init) == multiset(s) - multiset{x};
      assert x in multiset(t);
      var k :| 0 <= k < |t| && t[k] == x;
      HashSumRemove(t, k, h);
      MultisetRemove(t, k);
      HashSumPermutation(init, t[..k] + t[k + 1..], h);
    }
  }

  /** A hash set's hash code does not depend on its iteration order. */
  lemma SetHashOrderFree(s: seq<string>, t: seq<string>)
    requires Distinct(s) && Distinct(t) && Elements(s) == Elements(t)
    ensures SetHash(s) == SetHash(t)
  {
    SameElementsPermutation(s, t);
    HashSumPermutation(s, t, StringHash);
    WrappedSumWrapsSum(s, StringHash);
    WrappedSumWrapsSum(t, StringHash);
  }
}
