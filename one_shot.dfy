/**
 * The one-shot brute-force enumerator: the input lines are trimmed and
 * blank ones dropped, every attribute subset of the boolean table is read
 * as a bit mask, and a subset is kept when removing every attribute that
 * some extent object lacks leaves exactly that subset.  Objects are looked
 * up by name (the first row carrying it).  The concepts are sorted by
 * three keys: extent size down, intent size up, sorted extent names.
 */
module OneShot {
  import opened Wrappers
  import opened Lattice
  import opened Lectic
  import opened Masks
  import opened JavaStrings
  import opened Lists
  import opened Sorting

  /** Extent and intent as the TreeSets the concept stores. */
  datatype Concept = Concept(extent: set<string>, intent: set<string>)

  // ---------------------------------------------------------------------
  // Reading the lines
  // ---------------------------------------------------------------------

  /** String.trim strips characters up to U+0020 from both ends. */
  predicate Blank(c: char) {
    c <= ' '
  }

  function LeadingBlanks(s: string): (n: nat)
    ensures n <= |s| && (forall k :: 0 <= k < n ==> Blank(s[k])) && (n < |s| ==> !Blank(s[n]))
  {
    if |s| == 0 || !Blank(s[0]) then 0 else 1 + LeadingBlanks(s[1..])
  }

  function TrailingBlanks(s: string): (n: nat)
    ensures n <= |s| && (forall k :: |s| - n <= k < |s| ==> Blank(s[k])) && (n < |s| ==> !Blank(s[|s| - n - 1]))
  {
    if |s| == 0 || !Blank(s[|s| - 1]) then 0 else 1 + TrailingBlanks(s[..|s| - 1])
  }

  function Trim(s: string): string {
    var lead := LeadingBlanks(s);
    if lead == |s| then "" else s[lead..|s| - TrailingBlanks(s)]
  }

  /** The trimmed lines that are not empty, in input order. */
  function KeptLines(raw: seq<string>): seq<string> {
    if |raw| == 0 then []
    else
      var t := Trim(raw[|raw| - 1]);
      KeptLines(raw[..|raw| - 1]) + (if |t| > 0 then [t] else [])
  }

  /** What trim returns: the line without blanks at either end, and empty only for an all-blank line. */
  lemma TrimFacts(s: string)
    ensures |Trim(s)| > 0 ==> !Blank(Trim(s)[0]) && !Blank(Trim(s)[|Trim(s)| - 1])
    ensures |Trim(s)| == 0 <==> forall k :: 0 <= k < |s| ==> Blank(s[k])
    ensures Trim(Trim(s)) == Trim(s)
  {
    var lead, trail := LeadingBlanks(s), TrailingBlanks(s);
    if lead < |s| {
      assert !Blank(s[lead]);
      assert lead < |s| - trail;
      var t := Trim(s);
      assert t[0] == s[lead] && t[|t| - 1] == s[|s| - trail - 1];
      NoBlankEnds(t);
    }
  }

  /** A line with no blank at either end is its own trim. */
  lemma NoBlankEnds(t: string)
    requires |t| > 0 && !Blank(t[0]) && !Blank(t[|t| - 1])
    ensures Trim(t) == t
  {
    assert LeadingBlanks(t) == 0;
    assert TrailingBlanks(t) == 0;
    assert t[0..|t|] == t;
  }

  /** A line as trim leaves it: non-empty, no blank at either end, a fixed point of trim. */
  predicate Tidy(l: string) {
    |l| > 0 && !Blank(l[0]) && !Blank(l[|l| - 1]) && Trim(l) == l
  }

  /** Every kept line is tidy. */
  lemma {:induction false} KeptLinesTidy(raw: seq<string>)
    ensures forall l :: l in KeptLines(raw) ==> Tidy(l)
  {
    if |raw| > 0 {
      var init := raw[..|raw| - 1];
      var t := Trim(raw[|raw| - 1]);
      KeptLinesTidy(init);
      TrimFacts(raw[|raw| - 1]);
      var added := if |t| > 0 then [t] else [];
      assert KeptLines(raw) == KeptLines(init) + added;
      assert |t| > 0 ==> Tidy(t);
      forall l | l in KeptLines(raw) ensures Tidy(l) {
        if l !in KeptLines(init) {
          assert l in added;
        }
      }
    }
  }

  /** At most one kept line per raw line. */
  lemma {:induction false} KeptLinesBound(raw: seq<string>)
    ensures |KeptLines(raw)| <= |raw|
  {
    if |raw| > 0 {
      KeptLinesBound(raw[..|raw| - 1]);
    }
  }

  /** Nothing is kept exactly when every line is blank. */
  lemma {:induction false} KeptLinesNone(raw: seq<string>)
    ensures KeptLines(raw) == [] <==> forall i :: 0 <= i < |raw| ==> |Trim(raw[i])| == 0
  {
    if |raw| > 0 {
      var init := raw[..|raw| - 1];
      var t := Trim(raw[|raw| - 1]);
      KeptLinesNone(init);
      var added := if |t| > 0 then [t] else [];
      assert KeptLines(raw) == KeptLines(init) + added;
      if KeptLines(raw) == [] {
        forall i | 0 <= i < |raw| ensures |Trim(raw[i])| == 0 {
          if i < |raw| - 1 { assert raw[i] == init[i]; }
        }
      } else if |t| == 0 {
        var i :| 0 <= i < |init| && |Trim(init[i])| > 0;
        assert raw[i] == init[i];
      }
    }
  }

  /** The reading loop: trim each line and keep it when non-empty. */
  method ReadLines(raw: seq<string>) returns (lines: seq<string>)
    ensures lines == KeptLines(raw)
  {
    lines := [];
    for i := 0 to |raw|
      invariant lines == KeptLines(raw[..i])
    {
      assert raw[..i + 1][..i] == raw[..i];
      var line := Trim(raw[i]);
      if |line| > 0 {
        lines := lines + [line];
      }
    }
    assert raw[..|raw|] == raw;
  }

  // ---------------------------------------------------------------------
  // The mask loop
  // ---------------------------------------------------------------------

  /** The table has one row per object and one column per attribute. */
  predicate Table(attributes: seq<string>, objects: seq<string>, context: Context) {
    |context| == |objects| && Rectangular(context, |attributes|)
  }

  /** The attribute positions whose bit is set in mask. */
  function Bits(mask: nat, m: nat): set<nat> {
    set j: nat | j < m && Bit(mask, j)
  }

  /** The names at the given positions. */
  function Names(names: seq<string>, idx: set<nat>): set<string>
    requires forall i :: i in idx ==> i < |names|
  {
    set i | i in idx :: names[i]
  }

  lemma NamesAdd(names: seq<string>, idx: set<nat>, i: nat)
    requires forall k :: k in idx ==> k < |names|
    requires i < |names|
    ensures Names(names, idx + {i}) == Names(names, idx) + {names[i]}
  {
  }

  /** The attribute names some extent object lacks, each object read from the first row of its name. */
  function Dropped(attributes: seq<string>, objects: seq<string>, context: Context, E: set<string>): set<string>
    requires Table(attributes, objects, context)
  {
    set o, j | o in E && o in objects && 0 <= j < |attributes| && !context[FirstIndex(objects, o)][j] :: attributes[j]
  }

  /** The concept a mask yields when its candidate intent survives the removals. */
  function AtMask(attributes: seq<string>, objects: seq<string>, context: Context, mask: nat): Option<Concept>
    requires Table(attributes, objects, context)
  {
    var B := Bits(mask, |attributes|);
    var intentA := Names(attributes, B);
    var extent := Names(objects, Extent(context, B));
    var intentClos := Elements(attributes) - Dropped(attributes, objects, context, extent);
    if intentClos == intentA then Some(Concept(extent, intentClos)) else None
  }

  /** The concepts the masks below k yield, in mask order. */
  function Found(attributes: seq<string>, objects: seq<string>, context: Context, k: nat): seq<Concept>
    requires Table(attributes, objects, context)
  {
    if k == 0 then []
    else
      var added := match AtMask(attributes, objects, context, k - 1)
        case Some(c) => [c]
        case None => [];
      Found(attributes, objects, context, k - 1) + added
  }

  /** intentA: attributes.get(j) for every set bit j. */
  method MaskIntent(attributes: seq<string>, mask: nat) returns (intentA: set<string>)
    ensures intentA == Names(attributes, Bits(mask, |attributes|))
  {
    intentA := {};
    for j := 0 to |attributes|
      invariant intentA == Names(attributes, Bits(mask, j))
    {
      assert Bits(mask, j + 1) == Bits(mask, j) + (if Bit(mask, j) then {j} else {});
      NamesAdd(attributes, Bits(mask, j), j);
      if Bit(mask, j) {
        intentA := intentA + {attributes[j]};
      }
    }
  }

  /** The `all` loop: row i has every attribute whose bit is set. */
  method RowHasMask(row: seq<bool>, mask: nat) returns (all: bool)
    ensures all <==> HasAll(row, Bits(mask, |row|))
  {
    all := true;
    for j := 0 to |row|
      invariant all <==> forall j': nat :: j' < j && Bit(mask, j') ==> row[j']
    {
      if Bit(mask, j) && !row[j] {
        all := false;
        break;
      }
    }
  }

  /** The names of the rows that have every attribute of the mask, collected in row order. */
  method MaskExtent(attributes: seq<string>, objects: seq<string>, context: Context, mask: nat) returns (extent: set<string>)
    requires Table(attributes, objects, context)
    ensures extent == Names(objects, Extent(context, Bits(mask, |attributes|)))
  {
    var B := Bits(mask, |attributes|);
    extent := {};
    for i := 0 to |objects|
      invariant extent == Names(objects, set g: nat | g < i && HasAll(context[g], B))
    {
      var all := RowHasMask(context[i], mask);
      if all {
        extent := extent + {objects[i]};
      }
      assert (set g: nat | g < i + 1 && HasAll(context[g], B)) ==
        (set g: nat | g < i && HasAll(context[g], B)) + (if all then {i} else {});
    }
    assert (set g: nat | g < |objects| && HasAll(context[g], B)) == Extent(context, B);
  }

  /** The attribute names missing from one row. */
  function Lacking(attributes: seq<string>, row: seq<bool>): set<string>
    requires |row| == |attributes|
  {
    set j | 0 <= j < |attributes| && !row[j] :: attributes[j]
  }

  /** The inner loop: remove attributes.get(j) for every column the row lacks. */
  method RemoveLacking(attributes: seq<string>, row: seq<bool>, intentClos: set<string>) returns (r: set<string>)
    requires |row| == |attributes|
    ensures r == intentClos - Lacking(attributes, row)
  {
    r := intentClos;
    for j := 0 to |attributes|
      invariant r == intentClos - set j' | 0 <= j' < j && !row[j'] :: attributes[j']
    {
      if !row[j] {
        r := r - {attributes[j]};
      }
    }
  }

  lemma DroppedStep(attributes: seq<string>, objects: seq<string>, context: Context, F: set<string>, o: string)
    requires Table(attributes, objects, context) && o in objects
    ensures Dropped(attributes, objects, context, F + {o}) ==
      Dropped(attributes, objects, context, F) + Lacking(attributes, context[FirstIndex(objects, o)])
  {
  }

  /** intentClos: every attribute, minus what each extent object (found by indexOf) lacks. */
  method ClosureByNames(attributes: seq<string>, objects: seq<string>, context: Context, extent: set<string>)
    returns (intentClos: set<string>)
    requires Table(attributes, objects, context) && extent <= Elements(objects)
    ensures intentClos == Elements(attributes) - Dropped(attributes, objects, context, extent)
  {
    intentClos := Elements(attributes);
    var rest := extent;
    while rest != {}
      invariant rest <= extent
      invariant intentClos == Elements(attributes) - Dropped(attributes, objects, context, extent - rest)
      decreases |rest|
    {
      var obj :| obj in rest;
      assert obj in Elements(objects);
      var idx := FirstIndex(objects, obj);
      DroppedStep(attributes, objects, context, extent - rest, obj);
      intentClos := RemoveLacking(attributes, context[idx], intentClos);
      assert (extent - rest) + {obj} == extent - (rest - {obj});
      rest := rest - {obj};
    }
    assert extent - rest == extent;
  }

  /** The mask loop over 0 .. 2^m - 1. */
  method Enumerate(attributes: seq<string>, objects: seq<string>, context: Context) returns (concepts: seq<Concept>)
    requires Table(attributes, objects, context) && |attributes| < 31
    ensures concepts == Found(attributes, objects, context, Pow2(|attributes|))
  {
    var m := |attributes|;
    concepts := [];
    for mask := 0 to Pow2(m)
      invariant concepts == Found(attributes, objects, context, mask)
    {
      var intentA := MaskIntent(attributes, mask);
      var extent := MaskExtent(attributes, objects, context, mask);
      assert extent <= Elements(objects);
      var intentClos := ClosureByNames(attributes, objects, context, extent);
      if intentClos == intentA {
        concepts := concepts + [Concept(extent, intentClos)];
      }
    }
  }

  // ---------------------------------------------------------------------
  // What the masks yield, for distinct names
  // ---------------------------------------------------------------------

  /** The concept of an attribute-position set B, by names. */
  function ConceptOf(attributes: seq<string>, objects: seq<string>, context: Context, B: set<nat>): Concept
    requires Table(attributes, objects, context) && B <= Range(|attributes|)
  {
    Concept(Names(objects, Extent(context, B)), Names(attributes, B))
  }

  lemma FirstIndexDistinct<T>(s: seq<T>, g: nat)
    requires Distinct(s) && g < |s|
    ensures FirstIndex(s, s[g]) == g
  {
  }

  /** With distinct names, different position sets name different attribute sets. */
  lemma NamesInjective(names: seq<string>, X: set<nat>, Y: set<nat>)
    requires Distinct(names) && X <= Range(|names|) && Y <= Range(|names|)
    requires Names(names, X) == Names(names, Y)
    ensures X == Y
  {
    NamesIncluded(names, X, Y);
    NamesIncluded(names, Y, X);
  }

  lemma NamesIncluded(names: seq<string>, X: set<nat>, Y: set<nat>)
    requires Distinct(names) && X <= Range(|names|) && Y <= Range(|names|)
    requires Names(names, X) <= Names(names, Y)
    ensures X <= Y
  {
    forall j | j in X ensures j in Y {
      assert names[j] in Names(names, Y);
      var k :| k in Y && names[k] == names[j];
    }
  }

  /** With distinct names, removing what each extent object lacks leaves the names of the closure. */
  lemma ClosureByNamesMeaning(attributes: seq<string>, objects: seq<string>, context: Context, B: set<nat>)
    requires Table(attributes, objects, context) && Distinct(objects) && Distinct(attributes)
    ensures Elements(attributes) - Dropped(attributes, objects, context, Names(objects, Extent(context, B))) ==
      Names(attributes, Closure(context, |attributes|, B))
  {
    var m := |attributes|;
    var E := Extent(context, B);
    var extent := Names(objects, E);
    forall x ensures x in Elements(attributes) - Dropped(attributes, objects, context, extent) <==>
      x in Names(attributes, Closure(context, m, B))
    {
      if x in Elements(attributes) {
        var jx :| 0 <= jx < m && attributes[jx] == x;
        assert forall j :: 0 <= j < m && attributes[j] == x ==> j == jx;
        if x in Dropped(attributes, objects, context, extent) {
          var o, j :| o in extent && o in objects && 0 <= j < m && !context[FirstIndex(objects, o)][j] && attributes[j] == x;
          var g :| g in E && objects[g] == o;
          FirstIndexDistinct(objects, g);
          assert !SharedBy(context, E, jx);
        } else {
          forall g | g in E ensures g < |context| && jx < |context[g]| && context[g][jx] {
            FirstIndexDistinct(objects, g);
            assert objects[g] in extent;
          }
          assert jx in Closure(context, m, B);
        }
      }
    }
  }

  /** With distinct names a mask yields a concept exactly when its positions form a closed set, and then it is that set's concept. */
  lemma AtMaskMeaning(attributes: seq<string>, objects: seq<string>, context: Context, mask: nat)
    requires Table(attributes, objects, context) && Distinct(objects) && Distinct(attributes)
    ensures AtMask(attributes, objects, context, mask) ==
      if Closed(context, |attributes|, Bits(mask, |attributes|))
      then Some(ConceptOf(attributes, objects, context, Bits(mask, |attributes|)))
      else None
  {
    var m := |attributes|;
    var B := Bits(mask, m);
    ClosureByNamesMeaning(attributes, objects, context, B);
    var C := Closure(context, m, B);
    assert C <= Range(m);
    if Names(attributes, C) == Names(attributes, B) {
      NamesInjective(attributes, C, B);
    }
  }

  lemma {:induction false} FoundFrom(attributes: seq<string>, objects: seq<string>, context: Context, k: nat, c: Concept)
    requires Table(attributes, objects, context) && c in Found(attributes, objects, context, k)
    ensures exists mask: nat :: mask < k && AtMask(attributes, objects, context, mask) == Some(c)
  {
    if c !in Found(attributes, objects, context, k - 1) {
      assert AtMask(attributes, objects, context, k - 1) == Some(c);
    } else {
      FoundFrom(attributes, objects, context, k - 1, c);
    }
  }

  lemma {:induction false} FoundHas(attributes: seq<string>, objects: seq<string>, context: Context, k: nat, mask: nat)
    requires Table(attributes, objects, context) && mask < k && AtMask(attributes, objects, context, mask).Some?
    ensures AtMask(attributes, objects, context, mask).value in Found(attributes, objects, context, k)
  {
    if mask < k - 1 {
      FoundHas(attributes, objects, context, k - 1, mask);
    }
  }

  /** Every concept found is the concept of a closed set of attribute positions. */
  lemma FoundSound(attributes: seq<string>, objects: seq<string>, context: Context, k: nat)
    requires Table(attributes, objects, context) && Distinct(objects) && Distinct(attributes)
    ensures forall c :: c in Found(attributes, objects, context, k) ==>
      exists B :: (B <= Range(|attributes|) && Closed(context, |attributes|, B) &&
        c == ConceptOf(attributes, objects, context, B))
  {
    forall c | c in Found(attributes, objects, context, k)
      ensures exists B :: (B <= Range(|attributes|) && Closed(context, |attributes|, B) &&
        c == ConceptOf(attributes, objects, context, B))
    {
      FoundFrom(attributes, objects, context, k, c);
      var mask: nat :| mask < k && AtMask(attributes, objects, context, mask) == Some(c);
      AtMaskMeaning(attributes, objects, context, mask);
      var B := Bits(mask, |attributes|);
      assert B <= Range(|attributes|) && Closed(context, |attributes|, B);
    }
  }

  /** The loop over all 2^m masks finds the concept of every closed set of attribute positions. */
  lemma FoundComplete(attributes: seq<string>, objects: seq<string>, context: Context, B: set<nat>)
    requires Table(attributes, objects, context) && Distinct(objects) && Distinct(attributes)
    requires B <= Range(|attributes|) && Closed(context, |attributes|, B)
    ensures ConceptOf(attributes, objects, context, B) in Found(attributes, objects, context, Pow2(|attributes|))
  {
    var m := |attributes|;
    var mask := MaskOf(B, 0, m);
    MaskOfBits(B, 0, m);
    assert Bits(mask, m) == B by {
      forall j: nat | j < m ensures Bit(mask, j) <==> j in B {
        assert Bit(mask, 0 + j) <==> 0 + j in B;
      }
    }
    AtMaskMeaning(attributes, objects, context, mask);
    FoundHas(attributes, objects, context, Pow2(m), mask);
  }

  /** With distinct names no concept is found twice. */
  lemma {:induction false} FoundDistinct(attributes: seq<string>, objects: seq<string>, context: Context, k: nat)
    requires Table(attributes, objects, context) && Distinct(objects) && Distinct(attributes)
    requires k <= Pow2(|attributes|)
    ensures Distinct(Found(attributes, objects, context, k))
  {
    if k > 0 {
      var prev := Found(attributes, objects, context, k - 1);
      FoundDistinct(attributes, objects, context, k - 1);
      var at := AtMask(attributes, objects, context, k - 1);
      if at.Some? {
        FoundFresh(attributes, objects, context, k - 1);
        DistinctAppend(prev, at.value);
      }
    }
  }

  /** The concept of a new mask is not among those of the lower masks. */
  lemma FoundFresh(attributes: seq<string>, objects: seq<string>, context: Context, k: nat)
    requires Table(attributes, objects, context) && Distinct(objects) && Distinct(attributes)
    requires k < Pow2(|attributes|) && AtMask(attributes, objects, context, k).Some?
    ensures AtMask(attributes, objects, context, k).value !in Found(attributes, objects, context, k)
  {
    var m := |attributes|;
    var c := AtMask(attributes, objects, context, k).value;
    if c in Found(attributes, objects, context, k) {
      FoundFrom(attributes, objects, context, k, c);
      var mask: nat :| mask < k && AtMask(attributes, objects, context, mask) == Some(c);
      AtMaskMeaning(attributes, objects, context, mask);
      AtMaskMeaning(attributes, objects, context, k);
      NamesInjective(attributes, Bits(mask, m), Bits(k, m));
      BitsInjective(mask, k, m);
      assert false;
    }
  }

  lemma BitsInjective(x: nat, y: nat, m: nat)
    requires x < Pow2(m) && y < Pow2(m) && Bits(x, m) == Bits(y, m)
    ensures x == y
  {
    forall j: nat | j < m ensures Bit(x, j) == Bit(y, j) {
      assert Bit(x, j) <==> j in Bits(x, m);
    }
    MaskInjective(x, y, m);
  }

  // ---------------------------------------------------------------------
  // The three-key sort
  // ---------------------------------------------------------------------

  /** |extent| descending, then |intent| ascending, then the sorted extent lists in lexicographic order. */
  ghost function KeyOrder(c1: Concept, c2: Concept): int {
    if IntCompare(|c2.extent|, |c1.extent|) != 0 then IntCompare(|c2.extent|, |c1.extent|)
    else if IntCompare(|c1.intent|, |c2.intent|) != 0 then IntCompare(|c1.intent|, |c2.intent|)
    else LexCompare(SortedList(c1.extent), SortedList(c2.extent))
  }

  lemma KeyOrderLaws()
    ensures Antisymmetric(KeyOrder) && Transitive(KeyOrder)
  {
    forall a, b ensures KeyOrder(a, b) < 0 <==> KeyOrder(b, a) > 0 {
      LexCompareAntisymmetric(SortedList(a.extent), SortedList(b.extent));
    }
    forall a, b, c | KeyOrder(a, b) <= 0 && KeyOrder(b, c) <= 0 ensures KeyOrder(a, c) <= 0 {
      if |a.extent| == |b.extent| == |c.extent| && |a.intent| == |b.intent| == |c.intent| {
        var la, lb, lc := SortedList(a.extent), SortedList(b.extent), SortedList(c.extent);
        LexCompareAntisymmetric(la, lb);
        LexCompareAntisymmetric(lb, lc);
        if LexCompare(la, lb) < 0 && LexCompare(lb, lc) < 0 {
          LexLessTransitive(la, lb, lc);
        }
      }
    }
  }

  /** The list comparator: compareTo on the common prefix, then Integer.compare of the sizes. */
  method CompareLists(l1: seq<string>, l2: seq<string>) returns (d: int)
    ensures d == LexCompare(l1, l2)
  {
    var n := if |l1| < |l2| then |l1| else |l2|;
    for i := 0 to n
      invariant LexCompare(l1[i..], l2[i..]) == LexCompare(l1, l2)
    {
      var cmp := StrCompare(l1[i], l2[i]);
      if cmp != 0 {
        return cmp;
      }
      assert l1[i..][1..] == l1[i + 1..] && l2[i..][1..] == l2[i + 1..];
    }
    return IntCompare(|l1|, |l2|);
  }

  /** The chained comparator, with extentList() the TreeSet's ascending order. */
  method CompareByKeys(c1: Concept, c2: Concept) returns (d: int)
    ensures d == KeyOrder(c1, c2)
  {
    d := IntCompare(|c2.extent|, |c1.extent|);
    if d != 0 {
      return;
    }
    d := IntCompare(|c1.intent|, |c2.intent|);
    if d != 0 {
      return;
    }
    var l1 := SortedCopy(c1.extent);
    var l2 := SortedCopy(c2.extent);
    d := CompareLists(l1, l2);
  }

  /** One insertion step of the sort. */
  method InsertByKeys(sorted: seq<Concept>, x: Concept) returns (r: seq<Concept>)
    requires Sorted(sorted, KeyOrder)
    ensures multiset(r) == multiset(sorted) + multiset{x}
    ensures Sorted(r, KeyOrder)
  {
    var p := |sorted|;
    while p > 0
      invariant 0 <= p <= |sorted|
      invariant forall q :: p <= q < |sorted| ==> KeyOrder(sorted[q], x) > 0
    {
      var d := CompareByKeys(sorted[p - 1], x);
      if d <= 0 {
        break;
      }
      p := p - 1;
    }
    KeyOrderLaws();
    InsertAfter(sorted, p, x, KeyOrder);
    r := sorted[..p] + [x] + sorted[p..];
  }

  /** concepts.sort(comparator): a permutation ordered by the three keys. */
  method SortByKeys(concepts: seq<Concept>) returns (sorted: seq<Concept>)
    ensures multiset(sorted) == multiset(concepts)
    ensures Sorted(sorted, KeyOrder)
  {
    sorted := [];
    for n := 0 to |concepts|
      invariant multiset(sorted) == multiset(concepts[..n])
      invariant Sorted(sorted, KeyOrder)
    {
      assert concepts[..n + 1] == concepts[..n] + [concepts[n]];
      sorted := InsertByKeys(sorted, concepts[n]);
    }
    assert concepts[..|concepts|] == concepts;
  }

  /** What sortedness by the three keys means for any two positions. */
  lemma SortedByKeys(s: seq<Concept>, i: nat, j: nat)
    requires Sorted(s, KeyOrder) && i < j < |s|
    ensures |s[j].extent| <= |s[i].extent|
    ensures |s[j].extent| == |s[i].extent| ==> |s[i].intent| <= |s[j].intent|
    ensures |s[j].extent| == |s[i].extent| && |s[i].intent| == |s[j].intent| ==>
      LexCompare(SortedList(s[i].extent), SortedList(s[j].extent)) <= 0
  {
    assert KeyOrder(s[i], s[j]) <= 0;
  }
}
