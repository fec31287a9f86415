/**
 * The DOT reader of the step-back experiment: names in the labels are
 * looked up in the attribute and object lists, and each accepted line
 * becomes a concept of index sets.  Lines it cannot read are skipped.
 */
module ParserStepBack {
  import opened Wrappers
  import opened Lists
  import opened DotLabels

  /** A concept as index sets, built as (intent, extent). */
  datatype Concept = Concept(intent: set<nat>, extent: set<nat>)

  /** List.indexOf: the first position of name, or -1. */
  function ListIndexOf(universe: seq<string>, name: string): (r: int)
    ensures r == -1 <==> name !in universe
    ensures r >= 0 ==> r < |universe| && universe[r] == name
  {
    if name in universe then FirstIndex(universe, name) else -1
  }

  /** The positions of the names found in universe, each at its first occurrence; unknown names are dropped. */
  function Indices(names: seq<string>, universe: seq<string>): set<nat> {
    set n | n in names && n in universe :: FirstIndex(universe, n)
  }

  /** The loop mapping names to indices. */
  method MapNames(names: seq<string>, universe: seq<string>) returns (idx: set<nat>)
    ensures idx == Indices(names, universe)
    ensures forall i :: i in idx ==> i < |universe|
  {
    idx := {};
    for n := 0 to |names|
      invariant idx == Indices(names[..n], universe)
    {
      assert names[..n + 1] == names[..n] + [names[n]];
      var i := ListIndexOf(universe, names[n]);
      if i >= 0 {
        idx := idx + {i};
      }
    }
    assert names[..|names|] == names;
  }

  /** With distinct names in universe, position i is found exactly when its name is listed. */
  lemma IndicesMeaning(names: seq<string>, universe: seq<string>, i: nat)
    requires Distinct(universe)
    ensures i in Indices(names, universe) <==> i < |universe| && universe[i] in names
  {
    if i < |universe| && universe[i] in names {
      FirstIndexDistinct(universe, i);
    }
  }

  lemma FirstIndexDistinct(universe: seq<string>, i: nat)
    requires Distinct(universe) && i < |universe|
    ensures FirstIndex(universe, universe[i]) == i
  {
    var k := FirstIndex(universe, universe[i]);
    assert universe[k] == universe[i];
  }

  /** The concept of a line, or None for a line that is skipped. */
  function LineConcept(line: string, attributes: seq<string>, objects: seq<string>): Option<Concept> {
    if |line| == 0 || !IsDigit(line[0]) then None
    else match LabelBody(line)
      case None => None
      case Some(body) =>
        Some(Concept(Indices(Labels(IntentField(body), false), attributes),
                     Indices(Labels(ExtentField(body), false), objects)))
  }

  method ParseLine(line: string, attributes: seq<string>, objects: seq<string>) returns (r: Option<Concept>)
    ensures r == LineConcept(line, attributes, objects)
  {
    if |line| == 0 || !IsDigit(line[0]) {
      return None;
    }
    var start, end := IndexOf(line, '|'), IndexOf(line, '}');
    if start < 0 || end < 0 || end <= start {
      return None;
    }
    var substring := line[start + 1..end];
    BodySpan(line, start, end);
    var rawIntent, rawExtent := SplitFields(substring);
    var intentNames := SplitLabels(rawIntent);
    var extentNames := SplitLabels(rawExtent);
    var intentIdx := MapNames(intentNames, attributes);
    var extentIdx := MapNames(extentNames, objects);
    r := Some(Concept(intentIdx, extentIdx));
  }

  /** The concepts of the accepted lines, in file order. */
  function Parsed(lines: seq<string>, attributes: seq<string>, objects: seq<string>): seq<Concept> {
    if |lines| == 0 then []
    else
      var done := Parsed(lines[..|lines| - 1], attributes, objects);
      match LineConcept(lines[|lines| - 1], attributes, objects)
      case None => done
      case Some(c) => done + [c]
  }

  method ParseFCA4J(lines: seq<string>, attributes: seq<string>, objects: seq<string>) returns (concepts: seq<Concept>)
    ensures concepts == Parsed(lines, attributes, objects)
  {
    concepts := [];
    for n := 0 to |lines|
      invariant concepts == Parsed(lines[..n], attributes, objects)
    {
      assert lines[..n + 1][..n] == lines[..n];
      var one := ParseLine(lines[n], attributes, objects);
      if one.Some? {
        concepts := concepts + [one.value];
      }
    }
    assert lines[..|lines|] == lines;
  }

  /** Every index of every parsed concept lies within its list. */
  lemma {:induction false} ParsedInRange(lines: seq<string>, attributes: seq<string>, objects: seq<string>)
    ensures forall c :: c in Parsed(lines, attributes, objects) ==>
      (forall i :: i in c.intent ==> i < |attributes|) && (forall i :: i in c.extent ==> i < |objects|)
  {
    if |lines| > 0 {
      ParsedInRange(lines[..|lines| - 1], attributes, objects);
    }
  }

  /** A line that the reader turns into a concept. */
  predicate Accepted(line: string, attributes: seq<string>, objects: seq<string>) {
    LineConcept(line, attributes, objects).Some?
  }

  /** One concept per accepted line. */
  lemma {:induction false} ParsedCount(lines: seq<string>, attributes: seq<string>, objects: seq<string>)
    ensures |Parsed(lines, attributes, objects)| == |Positions(lines, line => Accepted(line, attributes, objects))|
  {
    if |lines| > 0 {
      ParsedCount(lines[..|lines| - 1], attributes, objects);
      PositionsStep(lines, line => Accepted(line, attributes, objects));
    }
  }

  /** A line `prefix|intent names|extent names}suffix` gives the positions of the listed names. */
  lemma LineOfNames(prefix: string, intent: seq<string>, extent: seq<string>, e: char, suffix: string,
                    attributes: seq<string>, objects: seq<string>)
    requires |prefix| > 0 && IsDigit(prefix[0]) && '|' !in prefix && '}' !in prefix
    requires NamesFit(intent) && NamesFit(extent) && e != '|' && e != '}'
    requires |intent| > 0 ==> |intent[|intent| - 1]| > 0
    requires |extent| > 0 ==> |extent[|extent| - 1]| > 0
    ensures LineConcept(prefix + "|" + Escaped(intent, e) + "|" + Escaped(extent, e) + "}" + suffix, attributes, objects) ==
      Some(Concept(Indices(intent, attributes), Indices(extent, objects)))
  {
    var a, b := Escaped(intent, e), Escaped(extent, e);
    EscapedFits(intent, e);
    EscapedFits(extent, e);
    var line := prefix + "|" + a + "|" + b + "}" + suffix;
    assert line == prefix + "|" + (a + "|" + b) + "}" + suffix;
    LabelBodyOf(prefix, a + "|" + b, suffix);
    FieldsRoundTrip(a, b);
    LabelsRoundTrip(intent, e, false);
    LabelsRoundTrip(extent, e, false);
  }
}
