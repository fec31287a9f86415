/**
 * NextClosureFCAStepBack: NextClosure over attribute index sets (a HashSet
 * of Integer, iterated in an unspecified order) against a boolean matrix
 * of nObj rows and nAttr columns.  The step extends the current intent by
 * the position it tries and returns null when no position is accepted.
 */
module StepBackSets {
  import opened Wrappers
  import opened Lattice
  import opened Lectic
  import opened Ganter

  /** What the enumeration loop prints for one intent: its extent and the intent. */
  datatype Concept = Concept(extent: set<nat>, intent: set<nat>)

  /** The matrix the program builds: nObj rows, each of nAttr cells. */
  predicate Shaped(rel: Context, nObj: nat, nAttr: nat) {
    |rel| == nObj && Rectangular(rel, nAttr)
  }

  /** The hasAll loop: walks the set in any order and stops at the first attribute the row lacks. */
  method RowHasAll(row: seq<bool>, current: set<nat>) returns (hasAll: bool)
    requires forall a :: a in current ==> a < |row|
    ensures hasAll <==> HasAll(row, current)
  {
    hasAll := true;
    var rest := current;
    while rest != {}
      invariant rest <= current
      invariant forall a :: a in current && a !in rest ==> row[a]
      decreases |rest|
    {
      var a :| a in rest;
      if !row[a] {
        hasAll := false;
        break;
      }
      rest := rest - {a};
    }
  }

  /** The inAll loop: walks the extent in any order and stops at the first object lacking attribute j. */
  method ColumnInAll(rel: Context, extent: set<nat>, j: nat) returns (inAll: bool)
    requires forall i :: i in extent ==> i < |rel| && j < |rel[i]|
    ensures inAll <==> SharedBy(rel, extent, j)
  {
    inAll := true;
    var rest := extent;
    while rest != {}
      invariant rest <= extent
      invariant forall i :: i in extent && i !in rest ==> rel[i][j]
      decreases |rest|
    {
      var i :| i in rest;
      if !rel[i][j] {
        inAll := false;
        break;
      }
      rest := rest - {i};
    }
  }

  /** computeExtent: the objects among the nObj rows having every attribute of the intent. */
  method ComputeExtent(intent: set<nat>, rel: Context, nObj: nat) returns (extent: set<nat>)
    requires nObj == |rel|
    requires forall g, a :: 0 <= g < |rel| && a in intent ==> a < |rel[g]|
    ensures extent == Extent(rel, intent)
  {
    extent := {};
    for i := 0 to nObj
      invariant forall g: nat :: g in extent <==> g < i && HasAll(rel[g], intent)
    {
      var hasAll := RowHasAll(rel[i], intent);
      if hasAll {
        extent := extent + {i};
      }
    }
  }

  /**
   * closure: its first phase is the loop of computeExtent (the same code,
   * modelled once); the second keeps the attributes below nAttr that every
   * object of the extent has.
   */
  method Closure(current: set<nat>, rel: Context, nObj: nat, nAttr: nat) returns (closure: set<nat>)
    requires Shaped(rel, nObj, nAttr) && current <= Range(nAttr)
    ensures closure == Lattice.Closure(rel, nAttr, current)
  {
    var extent := ComputeExtent(current, rel, nObj);
    closure := {};
    for j := 0 to nAttr
      invariant forall k: nat :: k in closure <==> k < j && SharedBy(rel, extent, k)
    {
      var inAll := ColumnInAll(rel, extent, j);
      if inAll {
        closure := closure + {j};
      }
    }
  }

  /** nextClosure: the extending step; None stands for null. The current set is copied, not changed. */
  method NextClosure(current: set<nat>, rel: Context, nObj: nat, nAttr: nat) returns (r: Option<set<nat>>)
    requires Shaped(rel, nObj, nAttr) && current <= Range(nAttr)
    ensures r == Next(rel, nAttr, current, Extending)
  {
    var j := nAttr - 1;
    while j >= 0
      invariant -1 <= j < nAttr
      invariant Next(rel, nAttr, current, Extending) == Scan(rel, nAttr, current, Extending, j + 1)
    {
      ScanAt(rel, nAttr, current, Extending, j);
      if j !in current {
        var candidate := current + {j};
        assert candidate == Candidate(Extending, current, j);
        var closed := Closure(candidate, rel, nObj, nAttr);
        AcceptsAt(rel, nAttr, current, Extending, j, closed);
        var ok := SameBelow(closed, current, j);
        if ok {
          return Some(closed);
        }
      }
      j := j - 1;
    }
    return None;
  }

  /**
   * The enumeration loop of main: from closure(∅), print each intent with
   * its extent, count it, and step until null.  The printed intents are the
   * extending run from the closure of the empty set, and count is their number.
   */
  method Enumerate(rel: Context, nObj: nat, nAttr: nat) returns (printed: seq<Concept>, count: nat)
    requires Shaped(rel, nObj, nAttr)
    ensures var c := Enumeration(rel, nAttr, Extending);
      && |printed| == |c| && count == |c|
      && forall k :: 0 <= k < |c| ==> printed[k] == Concept(Extent(rel, c[k]), c[k])
  {
    var first := Closure({}, rel, nObj, nAttr);
    var intent: Option<set<nat>> := Some(first);
    ghost var all := Enumeration(rel, nAttr, Extending);
    ChainFacts(rel, nAttr, Lattice.Closure(rel, nAttr, {}), Extending);
    printed, count := [], 0;
    while intent.Some?
      invariant count == |printed|
      invariant |printed| < |all| || intent.None?
      invariant intent.Some? ==> intent.value == all[|printed|]
      invariant intent.None? ==> |printed| == |all|
      invariant forall k :: 0 <= k < |printed| ==> printed[k] == Concept(Extent(rel, all[k]), all[k])
      decreases |all| - |printed|
    {
      ghost var k := |printed|;
      var extent := ComputeExtent(intent.value, rel, nObj);
      printed := printed + [Concept(extent, intent.value)];
      count := count + 1;
      intent := NextClosure(intent.value, rel, nObj, nAttr);
      if k < |all| - 1 {
        assert Next(rel, nAttr, all[k], Extending) == Some(all[k + 1]);
      } else {
        assert Next(rel, nAttr, all[k], Extending) == None;
      }
    }
  }
}
