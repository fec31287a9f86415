# Formal concept enumeration and FCA4J lattice parsing, in Dafny

The repository holds several Java programs that compute the formal concepts of
a binary context. A context is a table of objects by attributes; a formal
concept is a pair (extent, intent) where the intent is the set of attributes
shared by every object of the extent, and the extent is the set of objects
having every attribute of the intent. The programs fall into three groups:

- NextClosure enumerators. RolePrompt2, the two SelfConsistency programs, the
  two BitSet CoT analyzers, the two StepBack programs and AnalyzerCoT all
  follow Ganter's NextClosure. They start from a first intent and keep asking
  for the lectically next closed attribute set.
- Brute-force enumerators. FewShot and OneShot test every attribute mask
  `0 .. 2^m - 1` and keep the masks whose candidate intent equals its own
  closure. They then sort the concepts by extent.
- Parsers. Five parsers read the DOT file written by FCA4J. Each keeps the
  lines whose first character is a digit, cuts out the label between the
  first `|` and the first `}`, splits it into an intent field and an extent
  field, and splits each field into names at the `\` escapes.

## How the model is built

- `Lattice` holds the specification layer: derivation, closure and closed
  sets.
- `Lectic` holds the lectic order as a rank (a binary number).
- `Ganter` defines one NextClosure step `Next`. It is parameterised by the
  candidate each program builds:
  - `Truncating` is `(A ∩ {0..i-1}) ∪ {i}` with the test "agrees with A below
    i";
  - `Extending` is `A ∪ {i}` with the same test;
  - `ExtendingOneSided` is `A ∪ {i}` with the test "adds nothing below i".
- `Ganter.Chain` and `Ganter.Enumeration` are the runs of that step.
- Each program's loops are imperative Dafny methods over arrays, sets or
  sequences, proved against those functions. The lemmas in `Lattice`,
  `Lectic` and `Ganter` then state what the runs produce:
  - the truncating run lists exactly the closed sets, in strictly increasing
    lectic order;
  - the extending runs list only closed sets, in that order.
- The brute-force programs are proved equal to a function over the masks.
  Lemmas show that this function lists each concept exactly once.
- Each parser is proved equal to a function over its lines. The shared
  label-splitting code is proved to invert the `\`-escaping of name lists.
- The BitSet analyzer (`BitSetAnalyzer.Analyzer`) is a class whose fields
  (`rows`, `attributesOf`, `objectsHaving`, `allObjects`, `allAttributes`,
  `concepts`) mirror the Java object. Its methods state the new state.
- Where the source wraps a Java `int`, the model writes the wrap-around out:
  `JavaHash.Wrap` in `hashCode`, and the mask loops require fewer than 31
  attributes.

## Model

| member | source | states |
|---|---|---|
| Lattice.ClosureExtensive | Code/Code_Oscar/Utils/FCAConceptsRolePrompt2.java:120-152 | every attribute set is contained in its closure A'' |
| Lattice.ClosureMonotone | Code/Code_Oscar/Utils/FCAConceptsRolePrompt2.java:120-152 | A ⊆ B implies A'' ⊆ B'' |
| Lattice.ClosureIdempotent | Code/Code_Oscar/Utils/FCAConceptsRolePrompt2.java:120-152 | closing twice gives the same set as closing once |
| Lattice.ClosureClosed | Code/Code_Oscar/Utils/FCAConceptsRolePrompt2.java:120-152 | the closure of any attribute set within range is a closed set (an intent) |
| Lattice.ClosureLeast | Code/Code_Oscar/Utils/FCAConceptsRolePrompt2.java:120-152 | the closure is the least closed set containing A |
| Lattice.ExtentOfClosure | Code/Code_Oscar/Utils/FCAConceptsRolePrompt2.java:155-169 | A and A'' have the same extent, so the extent printed beside an intent is the concept's extent |
| Lattice.EmptyExtentCloses | Code/Code_Oscar/Utils/FCAConceptsRolePrompt2.java:136-138 | when no object has all of A, the closure is the full attribute set (the "fill" branch) |
| Lattice.ConceptOfIntent | Code/Code_Oscar/Utils/FCAConceptsRolePrompt2.java:75-102 | for a closed A, (A', A) is a formal concept: A' derives back to A and A'' has extent A' |
| Lattice.IntentOfObject | Code/FormalConceptsNextClosureStepBack.java:104-114 | the intent of one object is the set of positions its row marks |
| Lattice.ExtentUnion | Code/Code_Oscar/Utils/FormalConceptAnalyzer_CoT2.java:105-111 | the extent of A ∪ B is the intersection of their extents (the `and` loop) |
| Lattice.IntentUnion | Code/Code_Oscar/Utils/FormalConceptAnalyzer_CoT2.java:113-120 | the intent of E ∪ F is the intersection of their intents |
| Lattice.EmptyDerivations | Code/FormalConceptsNextClosureStepBack.java:90-92 | the empty intent has every object and the empty extent has every attribute (the `set(0, n)` starts) |
| Lectic.RankBound | Code/Code_Oscar/Utils/FCAConceptsRolePrompt2.java:172-198 | the rank of a subset of m attributes is below 2^m, which bounds every run |
| Lectic.RankOfRange | Code/Code_Oscar/Utils/FCAConceptsRolePrompt2.java:172-198 | the full attribute set has the largest rank, 2^m - 1 |
| Lectic.RankLess | Code/Code_Oscar/Utils/FCAConceptsRolePrompt2.java:185-191 | A <_i B (first difference at i, and i in B) implies rank A < rank B |
| Lectic.RankLessWitness | Code/Code_Oscar/Utils/FCAConceptsRolePrompt2.java:185-191 | conversely, rank A < rank B has a first difference that lies in B |
| Lectic.RankMonotone | Code/Code_Oscar/Utils/FCAConceptsRolePrompt2.java:172-198 | adding attributes never lowers the rank |
| Lectic.RankInjective | Code/Code_Oscar/Utils/FCAConceptsRolePrompt2.java:172-198 | two subsets of the m attributes with equal rank are equal |
| Lectic.SameBelow | Code/FormalConceptsNextClosureStepBack.java:150-156 | the inner check returns true exactly when B and A hold the same positions below i |
| Ganter.ScanFacts | Code/Code_Oscar/Utils/FCAConceptsRolePrompt2.java:172-198 | the downward scan returns nothing iff no position is accepted; otherwise it returns the closure at the highest accepted position |
| Ganter.NextSound | Code/Code_Oscar/Utils/FCAConceptsRolePrompt2.java:172-198 | every step of every variant returns a non-empty closed set that is lectically greater than its input |
| Ganter.OneSidedSame | Code/Code_Oscar/Utils/FormalConceptAnalyzer_CoT2.java:129-132 | on a set within range, the "adds nothing below i" test makes the same step as the "agrees below i" test |
| Ganter.OneSidedSameChain | Code/Code_Oscar/Utils/FormalConceptAnalyzer_CoT2.java:122-137 | from any start, the runs of the two extending variants are the same sequence |
| Ganter.FullSetEnds | Code/Code_Oscar/Utils/FCAConceptsRolePrompt2.java:172-198 | no variant has a step after the full attribute set |
| Ganter.TruncatedCandidateFits | Code/Code_Oscar/Utils/FCAConceptsRolePrompt2.java:177-191 | for closed A <_i B, position i is accepted from A and its closure lies within B |
| Ganter.TruncatingIsSuccessor | Code/Code_Oscar/Utils/FCAConceptsRolePrompt2.java:172-198 | from a closed A, the truncating step returns nothing iff no closed set ranks above A; otherwise it returns the closed set of least rank above A |
| Ganter.ChainFacts | Code/Code_Oscar/Utils/FCAConceptsRolePrompt2.java:56-71 | a run starts at its start, links every element to the next by one step, ends where the step returns nothing, and strictly increases in rank; every element after the first is closed |
| Ganter.ChainComplete | Code/Code_Oscar/Utils/FCAConceptsRolePrompt2.java:56-71 | the truncating run from a closed A reaches every closed set of rank at least A's |
| Ganter.TruncatingEnumerationExact | Code/Code_Oscar/Utils/FCAConceptsRolePrompt2.java:56-71 | the truncating run from the closure of the empty set lists a set iff it is closed, in strictly increasing lectic order (all concepts, each once) |
| Ganter.EnumerationSound | Code/Code_Oscar/ChatGPT/NextClosureFCAStepBack.java:66-79 | every variant's run from the closure of the empty set lists only closed sets, each once, in strictly increasing lectic order |
| Counterexamples.ExtendingSkipsIntent | Code/Code_Oscar/FormalConceptAnalyzerCoT.java:142-165 | on objects {1}, {2}, {0,1,2} both extending runs are [{}, {2}, {0,1,2}] and miss the closed set {1} |
| Counterexamples.EmptyStartNotClosed | Code/Code_Oscar/Utils/FormalConceptAnalyzer_CoT2.java:95-102 | on one object with attribute 0 the run from the empty set lists {}, which is not closed |
| RolePrompt2.RowHasAll | Code/Code_Oscar/Utils/FCAConceptsRolePrompt2.java:126-131 | the inner loop answers true iff the row has every attribute marked in the intent array |
| RolePrompt2.Closure | Code/Code_Oscar/Utils/FCAConceptsRolePrompt2.java:120-152 | the array returned marks exactly the closure of the attributes marked in the input |
| RolePrompt2.ComputeExtent | Code/Code_Oscar/Utils/FCAConceptsRolePrompt2.java:155-169 | the list returned is ascending and holds exactly the objects having every marked attribute |
| RolePrompt2.TruncatedCandidate | Code/Code_Oscar/Utils/FCAConceptsRolePrompt2.java:177-181 | the fresh array marks (A ∩ {0..i-1}) ∪ {i} |
| RolePrompt2.SamePrefix | Code/Code_Oscar/Utils/FCAConceptsRolePrompt2.java:185-191 | true iff the two arrays mark the same positions below i |
| RolePrompt2.NextClosure | Code/Code_Oscar/Utils/FCAConceptsRolePrompt2.java:172-198 | null iff the truncating step has no successor; otherwise an array marking exactly that successor |
| RolePrompt2.PrintConcepts | Code/Code_Oscar/Utils/FCAConceptsRolePrompt2.java:56-71 | the first loop visits exactly the truncating enumeration, and each visited intent is printed with its ascending extent |
| RolePrompt2.IndexNames | Code/Code_Oscar/Utils/FCAConceptsRolePrompt2.java:80-83 | the set built holds exactly the names at the listed indices |
| FormalConcepts.MarkedNames | Code/Code_Oscar/Utils/FCAConceptsRolePrompt2.java:86-91 | the set built holds exactly the names at the marked positions (also the two conversion loops at FormalConceptAnalysis_SelfConsistency2.java lines 65-71) |
| RolePrompt2.CollectConcepts | Code/Code_Oscar/Utils/FCAConceptsRolePrompt2.java:75-102 | the second loop stores, for the k-th intent of the enumeration, the named extent and named intent of that concept |
| RolePrompt2.RunBothLoops | Code/Code_Oscar/Utils/FCAConceptsRolePrompt2.java:56-102 | the two loops see the same concepts, in the same order, the k-th stored concept naming the k-th printed one |
| SelfConsistency.IntentPrime | Code/Code_Oscar/Utils/FormalConceptAnalysis_SelfConsistency2.java:80-94 | the array returned marks exactly the extent of the marked attributes |
| SelfConsistency.ExtentPrime | Code/Code_Oscar/Utils/FormalConceptAnalysis_SelfConsistency2.java:97-111 | the array returned marks exactly the attributes shared by the marked objects |
| SelfConsistency.Closure | Code/Code_Oscar/Utils/FormalConceptAnalysis_SelfConsistency2.java:114-119 | the array returned marks exactly the closure of the marked attributes |
| SelfConsistency.NextClosure | Code/Code_Oscar/Utils/FormalConceptAnalysis_SelfConsistency2.java:122-140 | null iff the truncating step has no successor; otherwise an array marking exactly that successor |
| SelfConsistency.ClosedIntents | Code/Code_Oscar/Utils/FormalConceptAnalysis_SelfConsistency2.java:49-55 | the list collected is element by element the truncating enumeration |
| SelfConsistency.PairWithExtents | Code/Code_Oscar/ChatGPT/FormalConceptAnalysis_SelfConsistency.java:55-61 | each intent is paired with an array marking exactly its extent |
| SelfConsistency.ComputeConcepts | Code/Code_Oscar/Utils/FormalConceptAnalysis_SelfConsistency2.java:49-74 | the set of named concepts computed is the set of (named extent, named intent) over the enumeration |
| StepBackSets.RowHasAll | Code/Code_Oscar/ChatGPT/NextClosureFCAStepBack.java:92-96 | true iff the row has every attribute of the set |
| StepBackSets.ColumnInAll | Code/Code_Oscar/ChatGPT/NextClosureFCAStepBack.java:101-105 | true iff every object of the extent has attribute j |
| StepBackSets.ComputeExtent | Code/Code_Oscar/ChatGPT/NextClosureFCAStepBack.java:139-151 | the set returned is the extent of the intent |
| StepBackSets.Closure | Code/Code_Oscar/ChatGPT/NextClosureFCAStepBack.java:85-108 | the set returned is the closure of the input |
| StepBackSets.NextClosure | Code/Code_Oscar/ChatGPT/NextClosureFCAStepBack.java:113-134 | the result is the extending NextClosure step (none when nothing is accepted) |
| StepBackSets.Enumerate | Code/Code_Oscar/ChatGPT/NextClosureFCAStepBack.java:66-79 | the printed concepts are element by element (extent, intent) over the extending enumeration, and the count is its length |
| StepBackBitSets.ObjectsWith | Code/FormalConceptsNextClosureStepBack.java:124-128 | the set built holds exactly the objects having attribute m |
| StepBackBitSets.DeriveObjects | Code/FormalConceptsNextClosureStepBack.java:119-133 | the set returned is the extent of A |
| StepBackBitSets.AttributesOf | Code/FormalConceptsNextClosureStepBack.java:107-112 | the set built holds exactly the attributes of object g |
| StepBackBitSets.Closure | Code/FormalConceptsNextClosureStepBack.java:86-116 | the set returned is the closure of A, with the width read from the first row |
| StepBackBitSets.NextClosed | Code/FormalConceptsNextClosureStepBack.java:139-163 | the result is the extending NextClosure step |
| StepBackBitSets.Enumerate | Code/FormalConceptsNextClosureStepBack.java:55-82 | nothing (the program fails on `context[0]`) iff there are no objects; otherwise the printed concepts are (extent, intent) over the extending enumeration and the count is its length |
| AnalyzerCoT.Close | Code/Code_Oscar/FormalConceptAnalyzerCoT.java:112-139 | the result holds arrays marking exactly the extent and the closure of the input |
| AnalyzerCoT.NextIntent | Code/Code_Oscar/FormalConceptAnalyzerCoT.java:142-165 | null iff the extending step has no successor; otherwise an array marking exactly that successor |
| AnalyzerCoT.ComputeFormalConcepts | Code/Code_Oscar/FormalConceptAnalyzerCoT.java:82-99 | the stored concepts are element by element (extent, intent) arrays over the extending enumeration at the width of the first row; with no rows there is one concept with the empty intent |
| BitSetAnalyzer.ToIndexList | Code/Code_Oscar/Utils/FormalConceptAnalyzer_CoT2.java:192-198 | the list returned is ascending and holds exactly the members of the bit set |
| BitSetAnalyzer.BuildIndex | Code/Code_Oscar/Utils/FormalConceptAnalyzer_CoT2.java:77-87 | the index gives each object's attribute set, and the inverted index each attribute's object set |
| BitSetAnalyzer.RunFromEmpty | Code/Code_Oscar/Utils/FormalConceptAnalyzer_CoT2.java:95-102 | the run from {} is the same for both extending tests; its first concept is (all objects, {}); its later intents are closed and are the intents of their extents; when {} is closed it is the enumeration |
| BitSetAnalyzer.RunStep | Code/Code_Oscar/Utils/FormalConceptAnalyzer_CoT2.java:95-102 | one pass of the `do` loop appends the k-th concept, and the step returns the empty set exactly at the end of the run |
| BitSetAnalyzer.AddsNothingBelow | Code/Code_Oscar/Utils/FormalConceptAnalyzer_CoT2.java:129-132 | true iff B has no position below i that A lacks |
| BitSetAnalyzer.ConceptsOfAt | Code/Code_Oscar/Utils/FormalConceptAnalyzer_CoT2.java:180-190 | the k-th concept built from a list of intents is (extent of the k-th intent, that intent) |
| BitSetAnalyzer.Analyzer.constructor | Code/Code_Oscar/Utils/FormalConceptAnalyzer_CoT2.java:29-45 | a new analyzer is consistent and holds no rows and no concepts |
| BitSetAnalyzer.Analyzer.IndexAgrees | Code/Code_Oscar/Utils/FormalConceptAnalyzer_CoT2.java:29-42 | in a consistent analyzer, `attributesOf[g]` and `objectsHaving[a]` both agree with the row table, and lie within `allAttributes` and `allObjects` |
| BitSetAnalyzer.Analyzer.LoadContext | Code/Code_Oscar/Utils/FormalConceptAnalyzer_CoT2.java:71-92 | after loading, the analyzer is consistent with the rows read, the counts are the table's shape, and the concepts are unchanged |
| BitSetAnalyzer.Analyzer.ExtentOf | Code/Code_Oscar/Utils/FormalConceptAnalyzer_CoT2.java:105-111 | the set returned is the extent of the intent |
| BitSetAnalyzer.Analyzer.Closure | Code/Code_Oscar/Utils/FormalConceptAnalyzer_CoT2.java:113-120 | the set returned is the closure of the intent |
| BitSetAnalyzer.Analyzer.TryPosition | Code/Code_Oscar/Utils/FormalConceptAnalyzer_CoT2.java:125-134 | position i is accepted iff the one-sided test accepts it, and then B is the closure of A ∪ {i} |
| BitSetAnalyzer.Analyzer.NextClosure | Code/Code_Oscar/Utils/FormalConceptAnalyzer_CoT2.java:122-137 | the result is the one-sided extending step, or the empty set when there is none |
| BitSetAnalyzer.Analyzer.EnumerateConcepts | Code/Code_Oscar/Utils/FormalConceptAnalyzer_CoT2.java:95-102 | the concepts field gains the concepts of the run from {}, in order |
| BitSets.NextSetBit | Code/Code_Oscar/Utils/FormalConceptAnalyzer_CoT2.java:194 | -1 iff no member is at or after `from`; otherwise the least such member |
| BitSets.Length | Code/FormalConceptsNextClosureStepBack.java:122 | bounds every member, is 0 iff the set is empty, and is otherwise one past the largest member |
| BitSets.SeenStep | Code/FormalConceptsNextClosureStepBack.java:122 | one step of the `nextSetBit` loop adds exactly the current member to the members seen |
| BitSets.HavingAll | Code/FormalConceptsNextClosureStepBack.java:124-128 | the objects having attribute a, collected over all rows, are the extent of {a} |
| Evaluation.Counts | Code/Code_Oscar/Utils/FormalConceptAnalyzer_CoT2.java:159-162 | truePos is the size of the intersection, falsePos and falseNeg the sizes of the two differences |
| Evaluation.SplitSizes | Code/Code_Oscar/Utils/FormalConceptAnalysis_SelfConsistency2.java:156-163 | the shared part and the part only in the first set add up to the first set |
| Masks.MaskOfBits | Code/Code_Oscar/Utils/FCAConceptsFewShot.java:48-54 | the mask of a set of positions is below 2^m and has bit j set iff position j is in the set |
| Masks.MaskInjective | Code/Code_Oscar/Utils/FCAConceptsFewShot.java:48-54 | two masks below 2^k with the same bits are equal |
| FewShot.PickedMembers | Code/Code_Oscar/Utils/FCAConceptsFewShot.java:49-54 | a name is in the candidate intent iff its position's bit is set |
| FewShot.CandidateIntent | Code/Code_Oscar/Utils/FCAConceptsFewShot.java:49-54 | the candidate built is the set of attributes whose bits are set in the mask |
| FewShot.ExtentOfCandidate | Code/Code_Oscar/Utils/FCAConceptsFewShot.java:55-60 | the set built holds exactly the objects whose attribute set contains the candidate |
| FewShot.CommonAttributes | Code/Code_Oscar/Utils/FCAConceptsFewShot.java:61-66 | the set built holds exactly the attributes every object of the extent has |
| FewShot.Enumerate | Code/Code_Oscar/Utils/FCAConceptsFewShot.java:48-70 | the list built is the mask-by-mask list of candidates equal to their closure |
| FewShot.FoundSound | Code/Code_Oscar/Utils/FCAConceptsFewShot.java:48-70 | every concept found is a formal concept over the listed objects and attributes |
| FewShot.FoundComplete | Code/Code_Oscar/Utils/FCAConceptsFewShot.java:48-70 | every formal concept is found once all 2^m masks are tried |
| FewShot.FoundDistinct | Code/Code_Oscar/Utils/FCAConceptsFewShot.java:48-70 | with distinct attribute names, no concept is found twice |
| FewShot.IntentMask | Code/Code_Oscar/Utils/FCAConceptsFewShot.java:49-54 | every set of listed attributes is the candidate of some mask below 2^m |
| FewShot.PickedInjective | Code/Code_Oscar/Utils/FCAConceptsFewShot.java:49-54 | with distinct names, different masks give different candidates |
| FewShot.ExtentOrderLaws | Code/Code_Oscar/Utils/FCAConceptsFewShot.java:73-85 | the comparator (larger extent first, then sorted extents compared name by name) is antisymmetric and transitive |
| FewShot.CompareByExtent | Code/Code_Oscar/Utils/FCAConceptsFewShot.java:73-85 | the comparator returns the value of that order |
| FewShot.CompareSameLength | Code/Code_Oscar/Utils/FCAConceptsFewShot.java:80-83 | the element loop over two lists of equal length gives their lexicographic comparison |
| FewShot.InsertByExtent | Code/Code_Oscar/Utils/FCAConceptsFewShot.java:73-85 | inserting into a sorted list keeps it sorted and adds exactly the new element |
| FewShot.SortByExtent | Code/Code_Oscar/Utils/FCAConceptsFewShot.java:73-85 | the result is a sorted permutation of the input, with extent sizes non-increasing |
| FewShot.ExtentsNonIncreasing | Code/Code_Oscar/Utils/FCAConceptsFewShot.java:73-75 | in a list sorted by the comparator, extent sizes never increase |
| FewShot.EvaluationLists | Code/Code_Oscar/Utils/FCAConceptsFewShot.java:107-119 | the true positives are the distinct computed concepts that are in the reference, in first-seen order; the false positives and false negatives are the two differences; the counts add up to the distinct sizes |
| FewShot.HashCode | Code/Code_Oscar/Utils/FCAConceptsFewShot.java:165-168 | the hash is a 32-bit value |
| FewShot.HashCodeAgreesWithEquals | Code/Code_Oscar/Utils/FCAConceptsFewShot.java:157-168 | equal concepts have equal hash codes, whatever order their hash sets iterate in |
| JavaHash.Wrap | Code/Code_Oscar/Utils/FCAConceptsFewShot.java:165-168 | the result is a 32-bit signed value congruent to the input modulo 2^32 |
| JavaHash.WrappedSumWrapsSum | Code/Code_Oscar/Utils/FCAConceptsFewShot.java:165-168 | summing with wrap-around at each step equals wrapping the exact sum |
| JavaHash.HashSumPermutation | Code/Code_Oscar/Utils/FCAConceptsFewShot.java:165-168 | the exact sum of hashes depends only on the multiset of elements |
| JavaHash.SetHashOrderFree | Code/Code_Oscar/Utils/FCAConceptsFewShot.java:165-168 | a set's hash (wrapped sum of string hashes) is the same for any iteration order of its elements |
| JavaStrings.StrCompareAntisymmetric | Code/Code_Oscar/FCAConceptsOneShot.java:89 | `compareTo(a, b)` is the negation of `compareTo(b, a)` |
| JavaStrings.StrCompareZero | Code/Code_Oscar/FCAConceptsOneShot.java:89 | `compareTo` is zero iff the strings are equal |
| JavaStrings.StrLessTransitive | Code/Code_Oscar/FCAConceptsOneShot.java:89 | `compareTo` below zero is transitive |
| JavaStrings.SortedListFacts | Code/Code_Oscar/Utils/FCAConceptsFewShot.java:76-79 | a sorted copy of a set is strictly ascending, has the same members and the same size |
| JavaStrings.SortedCopy | Code/Code_Oscar/Utils/FCAConceptsFewShot.java:76-79 | copying the set and sorting the list gives the sorted list of its members |
| JavaStrings.LexCompareAntisymmetric | Code/Code_Oscar/FCAConceptsOneShot.java:86-93 | the list comparison is antisymmetric and is zero only on equal lists |
| JavaStrings.LexLessTransitive | Code/Code_Oscar/FCAConceptsOneShot.java:86-93 | the list comparison's "less" is transitive |
| JavaStrings.SetToString | Code/Code_Oscar/FCAConceptsOneShot.java:109-114 | the text is the names joined by ", " in braces, and is "{}" only for no names (or one empty name) |
| Sorting.InsertAfter | Code/Code_Oscar/Utils/FCAConceptsFewShot.java:73 | inserting after the last element not above x keeps a list sorted and adds exactly x |
| Lists.Dedup | Code/Code_Oscar/Utils/FCAConceptsFewShot.java:107-108 | removing repeats keeps every element once |
| Lists.DedupOfDistinct | Code/Code_Oscar/Utils/FCAConceptsFewShot.java:107-108 | a list without repeats is its own de-duplication |
| Lists.DedupFirstOccurrence | Code/Code_Oscar/Utils/FCAConceptsFewShot.java:107-108 | the de-duplicated list keeps the order of first occurrence (LinkedHashSet order) |
| Lists.LinkedCopy | Code/Code_Oscar/Utils/FCAConceptsFewShot.java:107-108 | copying a list into a LinkedHashSet gives its de-duplication |
| Lists.KeepDropSizes | Code/Code_Oscar/Utils/FCAConceptsFewShot.java:111-114 | the kept and dropped parts of a list add up to its length |
| Lists.KeepElements | Code/Code_Oscar/Utils/FCAConceptsFewShot.java:111-114 | the kept part has exactly the elements in the filter set, and stays without repeats |
| Lists.DistinctSize | Code/Code_Oscar/Utils/FCAConceptsFewShot.java:121-123 | a list without repeats is as long as its set of elements |
| Lists.SameElementsPermutation | Code/Code_Oscar/Utils/FCAConceptsFewShot.java:165-168 | two lists without repeats over the same set are permutations of each other |
| OneShot.TrimFacts | Code/Code_Oscar/FCAConceptsOneShot.java:14-19 | a trimmed line is empty iff the line is all blanks, otherwise it starts and ends with a non-blank; trimming is idempotent |
| OneShot.KeptLinesTidy | Code/Code_Oscar/FCAConceptsOneShot.java:14-19 | every line kept is non-empty and already trimmed |
| OneShot.KeptLinesNone | Code/Code_Oscar/FCAConceptsOneShot.java:22-25 | no line is kept iff every input line trims to empty (the "empty" branch) |
| OneShot.KeptLinesBound | Code/Code_Oscar/FCAConceptsOneShot.java:14-19 | no more lines are kept than were read |
| OneShot.ReadLines | Code/Code_Oscar/FCAConceptsOneShot.java:14-19 | the reading loop keeps exactly the trimmed non-empty lines, in order |
| OneShot.MaskIntent | Code/Code_Oscar/FCAConceptsOneShot.java:50-55 | the candidate built names exactly the attributes whose bits are set |
| OneShot.RowHasMask | Code/Code_Oscar/FCAConceptsOneShot.java:58-64 | true iff the row has every attribute whose bit is set |
| OneShot.MaskExtent | Code/Code_Oscar/FCAConceptsOneShot.java:56-66 | the set built names exactly the extent of the mask's attributes |
| OneShot.RemoveLacking | Code/Code_Oscar/FCAConceptsOneShot.java:70-74 | one pass removes exactly the attributes the row lacks |
| OneShot.ClosureByNames | Code/Code_Oscar/FCAConceptsOneShot.java:67-75 | the closure by names is every attribute minus those some extent object lacks (the object's row found with `indexOf`) |
| OneShot.ClosureByNamesMeaning | Code/Code_Oscar/FCAConceptsOneShot.java:67-75 | with distinct names, that closure by names is the name set of the closure |
| OneShot.AtMaskMeaning | Code/Code_Oscar/FCAConceptsOneShot.java:48-79 | with distinct names, a mask contributes a concept iff its positions form a closed set, and then it contributes that set's concept |
| OneShot.Enumerate | Code/Code_Oscar/FCAConceptsOneShot.java:48-79 | the list built is the mask-by-mask list of candidates equal to their closure |
| OneShot.FoundSound | Code/Code_Oscar/FCAConceptsOneShot.java:48-79 | with distinct names, every concept found names a closed set and its extent |
| OneShot.FoundComplete | Code/Code_Oscar/FCAConceptsOneShot.java:48-79 | with distinct names, every closed set's concept is found after 2^m masks |
| OneShot.FoundDistinct | Code/Code_Oscar/FCAConceptsOneShot.java:48-79 | with distinct names, no concept is found twice |
| OneShot.BitsInjective | Code/Code_Oscar/FCAConceptsOneShot.java:50-55 | two masks below 2^m with the same bit positions are equal |
| OneShot.NamesInjective | Code/Code_Oscar/FCAConceptsOneShot.java:116-126 | with distinct names, equal name sets come from equal position sets |
| OneShot.KeyOrderLaws | Code/Code_Oscar/FCAConceptsOneShot.java:82-95 | the comparator (larger extent, then smaller intent, then sorted extents compared name by name) is antisymmetric and transitive |
| OneShot.CompareLists | Code/Code_Oscar/FCAConceptsOneShot.java:86-93 | the list comparator returns the lexicographic comparison |
| OneShot.CompareByKeys | Code/Code_Oscar/FCAConceptsOneShot.java:82-95 | the composed comparator returns the value of that order |
| OneShot.InsertByKeys | Code/Code_Oscar/FCAConceptsOneShot.java:82-95 | inserting into a sorted list keeps it sorted and adds exactly the new element |
| OneShot.SortByKeys | Code/Code_Oscar/FCAConceptsOneShot.java:82-95 | the result is a sorted permutation of the input |
| OneShot.SortedByKeys | Code/Code_Oscar/FCAConceptsOneShot.java:82-95 | in the sorted list extent sizes never increase; among equal extents intent sizes never decrease; among equal sizes extents are in name order |
| DotLabels.IndexOf | Code/Code_Oscar/Utils/FCA4JParserStepBack.java:50-51 | -1 iff the character is absent; otherwise the position of its first occurrence |
| DotLabels.LabelSpan | Code/Code_Oscar/Utils/FCA4JParserStepBack.java:50-54 | the span found, when there is one, lies within the line with `|` before `}` |
| DotLabels.BodyHasNoBrace | Code/Code_Oscar/Utils/FCA4JParserStepBack.java:50-54 | the label body never holds `}` |
| DotLabels.LabelBodyOf | Code/Code_Oscar/Utils/FCA4JParserStepBack.java:50-54 | the body of `prefix|body}suffix` is `body` |
| DotLabels.SplitFields | Code/Code_Oscar/Utils/FCA4JParserStepBack.java:57-69 | the flag loop yields the text before the first `|`, and the text after it without `|` or `}` |
| DotLabels.FieldsRoundTrip | Code/Code_Oscar/Utils/FCA4JParserStepBack.java:57-69 | splitting `a|b` gives back a and b |
| DotLabels.SplitLabels | Code/Code_Oscar/Utils/FCA4JParserStepBack.java:102-121 | the loop that skips each `\` and the character after it yields the specified name list |
| DotLabels.SplitEscaped | Code/Code_Oscar/Utils/FCA4JParser_CoT.java:67-82 | the loop that keeps a final lone `\` yields the specified name list |
| DotLabels.LabelsRoundTrip | Code/Code_Oscar/Utils/FCA4JParserStepBack.java:102-121 | splitting names joined by `\x` gives the names back (for names without `\`, the last one non-empty) |
| DotLabels.LabelsCount | Code/Code_Oscar/Utils/FCA4JParserStepBack.java:102-121 | a split yields one name per separator, plus one for a non-empty tail |
| DotLabels.TrailingBackslash | Code/Code_Oscar/Utils/FCA4JParser_CoT.java:71 | a final lone `\` is kept as text by the CoT splitter and dropped by the others |
| DotLabels.SeparateTerminated | Code/Code_Oscar/Utils/FCA4JParserStepBack.java:102-121 | names each followed by `\x` split back into those names |
| ParserOneShot.CopyFields | Code/Code_Oscar/Utils/FCA4JParserOneShot.java:53-66 | the intent text is the text before the first `|`; the extent text concatenates, for each `|`, the text after it without `}` |
| ParserOneShot.TailsOneBar | Code/Code_Oscar/Utils/FCA4JParserOneShot.java:58-65 | with the one `|` of the intent/extent split, the extent text is the second field |
| ParserOneShot.TailsTwoBars | Code/Code_Oscar/Utils/FCA4JParserOneShot.java:58-65 | with two `|` in the body, the extent text is `b|c` followed by `c` again |
| ParserOneShot.SplitNames | Code/Code_Oscar/Utils/FCA4JParserOneShot.java:68-81 | the names added are exactly those followed by a `\` escape (the tail is never added) |
| ParserOneShot.ParseLine | Code/Code_Oscar/Utils/FCA4JParserOneShot.java:48-98 | an empty line or a line without a proper `|...}` span raises (Failure); a line not starting with a digit is skipped; others give the concept modelled by the line function |
| ParserOneShot.ParseFCA4J | Code/Code_Oscar/Utils/FCA4JParserOneShot.java:41-105 | the parse is the line-by-line fold, stopping at the first exception |
| ParserOneShot.FailureStays | Code/Code_Oscar/Utils/FCA4JParserOneShot.java:41-105 | once a line raises, later lines change nothing |
| ParserOneShot.LineShape | Code/Code_Oscar/Utils/FCA4JParserOneShot.java:48-98 | a digit line `p|a|b}s` gives the concept of the names terminated by escapes in b and in a |
| ParserOneShot.LineOfTerminatedNames | Code/Code_Oscar/Utils/FCA4JParserOneShot.java:48-98 | names each followed by an escape are read back exactly |
| ParserOneShot.LineOfJoinedNames | Code/Code_Oscar/Utils/FCA4JParserOneShot.java:48-98 | for names joined by escapes (no escape after the last name), the last name of each list is not read; names each terminated by an escape are read exactly (LineOfTerminatedNames) |
| ParserStepBack.ListIndexOf | Code/Code_Oscar/Utils/FCA4JParserStepBack.java:78 | `indexOf` is -1 iff the name is absent, otherwise a position holding it |
| ParserStepBack.MapNames | Code/Code_Oscar/Utils/FCA4JParserStepBack.java:76-89 | the index set is the first positions of the listed names that are known |
| ParserStepBack.IndicesMeaning | Code/Code_Oscar/Utils/FCA4JParserStepBack.java:76-89 | with distinct names, i is in the index set iff the name at i was listed |
| ParserStepBack.ParseLine | Code/Code_Oscar/Utils/FCA4JParserStepBack.java:47-91 | skipped lines give nothing; others give the index sets of their two fields |
| ParserStepBack.ParseFCA4J | Code/Code_Oscar/Utils/FCA4JParserStepBack.java:40-97 | the concepts are the line-by-line fold of the line function |
| ParserStepBack.ParsedInRange | Code/Code_Oscar/Utils/FCA4JParserStepBack.java:76-89 | every index parsed is a valid attribute or object position |
| ParserStepBack.ParsedCount | Code/Code_Oscar/Utils/FCA4JParserStepBack.java:40-97 | one concept is produced per accepted line |
| ParserStepBack.LineOfNames | Code/Code_Oscar/Utils/FCA4JParserStepBack.java:40-97 | a label written from two name lists parses to the index sets of those names |
| ParserSelfConsistency.ParseLine | Code/Code_Oscar/Utils/FCA4JParserSelfConsistency.java:45-102 | an empty or non-digit line is skipped; a digit line without a proper span raises; others give the named concept |
| ParserSelfConsistency.ParseFCA4J | Code/Code_Oscar/Utils/FCA4JParserSelfConsistency.java:40-108 | the set parsed is the line-by-line fold, stopping at the first exception |
| ParserSelfConsistency.ParsedMembers | Code/Code_Oscar/Utils/FCA4JParserSelfConsistency.java:40-108 | on success, a concept is parsed iff some line yields it |
| ParserSelfConsistency.RepeatedLineIdle | Code/Code_Oscar/Utils/FCA4JParserSelfConsistency.java:100-102 | repeating a line adds nothing to the parsed set |
| ParserSelfConsistency.FailureLine | Code/Code_Oscar/Utils/FCA4JParserSelfConsistency.java:40-108 | any raising line makes the whole parse fail |
| ParserSelfConsistency.FailureStays | Code/Code_Oscar/Utils/FCA4JParserSelfConsistency.java:40-108 | once a prefix fails, the whole parse fails with that error |
| ParserSelfConsistency.LineOfNames | Code/Code_Oscar/Utils/FCA4JParserSelfConsistency.java:45-102 | a label written from two name lists parses to the concept of their name sets |
| ParserCoT.ParseLine | Code/Code_Oscar/Utils/FCA4JParser_CoT.java:33-59 | blank and non-digit lines and lines without a proper span give nothing; others give the two split name lists |
| ParserCoT.ParseFCA4J | Code/Code_Oscar/Utils/FCA4JParser_CoT.java:27-65 | the concepts are the line-by-line fold, and the count printed is their number |
| ParserCoT.ParsedAppend | Code/Code_Oscar/Utils/FCA4JParser_CoT.java:27-65 | parsing two blocks of lines is parsing each and concatenating |
| ParserCoT.LineOfNames | Code/Code_Oscar/Utils/FCA4JParser_CoT.java:33-59 | a label written from two name lists parses to exactly those lists |
| ParserFewShot.CopyFields | Code/Code_Oscar/Utils/FCA4JParserFewShot.java:31-43 | the intent text is the text before the first `|`, the extent text the rest without `|` (this copy keeps `}`) |
| ParserFewShot.ExtentTextOfBody | Code/Code_Oscar/Utils/FCA4JParserFewShot.java:31-43 | on a label body, keeping `}` makes no difference, since the body holds none |
| ParserFewShot.ParseLine | Code/Code_Oscar/Utils/FCA4JParserFewShot.java:20-78 | non-digit lines and lines without a proper span give nothing; others give the concept of the two name sets |
| ParserFewShot.ParseFCA4J | Code/Code_Oscar/Utils/FCA4JParserFewShot.java:13-86 | the concepts are the line-by-line fold of the line function |
| ParserFewShot.LineOfNames | Code/Code_Oscar/Utils/FCA4JParserFewShot.java:20-78 | a label written from two name lists parses to the concept of their name sets |

## Left out

- Reading CSV and DOT files, `BufferedReader`, the hard-coded paths and `IOException` handling are not modelled. Files are given as sequences of lines; a context is given as a table of booleans.
- Printing and formatting are not modelled: `printf`, `format`, the name lists printed beside each concept, `toString` of BitSets and sets. `JavaStrings.SetToString` is the only printer modelled.
- Precision, recall and F1 are not modelled, being floating-point divisions of the modelled counts.
- Cell parsing (`"1"`, `"x"`, `"true"`, `trim()`, `equalsIgnoreCase`) is not modelled. The context enters every model already as booleans.
- `GenerateCSV.java`, `FCA4JParserOriginal.java`, the files under `Code/Code_Valentino` and any shared `ConceptComparator` are not part of this model.
- Unicode: `Character.isDigit` is modelled as ASCII `0`-`9`. `isBlank` is modelled by `Character.isWhitespace` restricted to ASCII (space, `\t` to `\r`, U+001C to U+001F). `String.trim` needs no approximation: it strips every character up to U+0020, as `OneShot.Blank` states.
- FormalConcepts.FormalConcept: the class `shared.FormalConcept` is not part of this model. The model takes it to be a value whose equality (and hash code) is that of its extent and intent name sets. The `HashSet` collection in `FCA4JParserSelfConsistency.java` and the `retainAll`/`removeAll` comparison in `SelfConsistency2.java` depend on that; under identity equality, every parsed line would add a new element and no predicted concept would match a reference one.
- The DOT layout FCA4J itself writes is not part of this model. The parsers are stated for both layouts a name field can take (names joined by an escape, or each terminated by one), and the one-shot parser keeps only names an escape follows.
- `String.compareTo` compares UTF-16 code units. The model compares Dafny characters (Unicode scalar values), which agree only within the Basic Multilingual Plane.
- FewShot.CandidateIntent: requires fewer than 31 attributes. With 31 or more, `1 << m` wraps in Java `int` arithmetic and the mask loop runs a different number of times; that is not modelled. FewShot.Enumerate and OneShot.Enumerate share this bound.
- OneShot.FoundSound: the correspondence between masks and closed sets is proved only for distinct object and attribute names. With repeated names, `indexOf` picks the first row; the model computes that, but only the distinct case is related to `Lattice`.
- FewShot.SortByExtent: `List.sort` is stable, and so is the insertion sort; but the contract states only "sorted permutation", not stability. OneShot.SortByKeys is stated the same way.
- The iteration order of `HashSet` is not modelled. Sets of names are Dafny sets, and `LinkedHashSet` copies are `Lists.Dedup` (first-occurrence order).
- BitSetAnalyzer.ToIndexList: requires a known upper bound on the members, which a Java `BitSet` always has.
- SelfConsistency.IntentPrime: requires the context to have the shape `nObjects` × `nAttributes`. The programs always build it that way; other shapes would throw `ArrayIndexOutOfBoundsException`, which is not modelled. The same `Shaped` requirement holds across SelfConsistency and StepBackSets.
- BitSetAnalyzer.Analyzer.EnumerateConcepts: gathers the run in a local list and appends it to `concepts` once; the Java code appends one concept per pass. No other code reads the field in between.
- ParserStepBack stores the index sets themselves in `Concept`, as the Java constructor stores references. Later mutation is not modelled since nothing mutates them.
- `FCA4JParserOneShot`'s `extentList()` and the `Concept.toString` methods of the parsers are not modelled.

## Findings

| source | as written | input that shows it | evidently intended | confidence | as-written member | corrected member |
|---|---|---|---|---|---|---|
| Code/Code_Oscar/FormalConceptAnalyzerCoT.java:142-165 | the next candidate is `A ∪ {i}` rather than `(A ∩ {0..i-1}) ∪ {i}` (the same in both StepBack programs and both BitSet analyzers) | three attributes; objects with attribute sets {1}, {2}, {0,1,2}: the run is {}, {2}, {0,1,2} and skips the intent {1} | NextClosure truncates A below i, so the run lists every intent | not executed | Counterexamples.ExtendingSkipsIntent | Ganter.TruncatingEnumerationExact |
| Code/Code_Oscar/Utils/FormalConceptAnalyzer_CoT2.java:95-102 | enumeration starts from the empty attribute set, not from its closure (also the CoT analyzer under ChatGPT) | one object with the single attribute 0: the first concept printed has intent {}, which is not closed | the run starts from the closure of the empty set, so everything listed is a concept | not executed | Counterexamples.EmptyStartNotClosed | Ganter.EnumerationSound |
