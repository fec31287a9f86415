/**
 * The DOT reader of the chain-of-thought experiment: blank lines and
 * lines it cannot read are skipped, names stay in label order, and the
 * concepts are counted as they are added.
 */
module ParserCoT {
  import opened Wrappers
  import opened DotLabels
  import opened Lists

  /** A concept with its names as lists; the getters hand out copies, so the lists are values. */
  datatype Concept = Concept(extent: seq<string>, intent: seq<string>)

  /** Character.isWhitespace on the ASCII range. */
  predicate Whitespace(c: char) {
    c == ' ' || '\t' <= c <= '\r' || '\U{1C}' <= c <= '\U{1F}'
  }

  /** String.isBlank: empty or whitespace only. */
  predicate Blank(line: string) {
    forall j :: 0 <= j < |line| ==> Whitespace(line[j])
  }

  /** The concept of a line, or None for a line that is skipped. */
  function LineConcept(line: string): Option<Concept> {
    if Blank(line) || !IsDigit(line[0]) then None
    else match LabelBody(line)
      case None => None
      case Some(body) => Some(Concept(Labels(ExtentField(body), true), Labels(IntentField(body), true)))
  }

  method ParseLine(line: string) returns (r: Option<Concept>)
    ensures r == LineConcept(line)
  {
    var blank := true;
    for j := 0 to |line|
      invariant blank <==> forall q :: 0 <= q < j ==> Whitespace(line[q])
    {
      if !Whitespace(line[j]) {
        blank := false;
      }
    }
    if blank {
      return None;
    }
    if !IsDigit(line[0]) {
      return None;
    }
    var startIndex, endIndex := IndexOf(line, '|'), IndexOf(line, '}');
    if startIndex < 0 || endIndex < 0 || endIndex <= startIndex {
      return None;
    }
    var substring := line[startIndex..endIndex];
    BodySpan(line, startIndex, endIndex);
    assert substring[1..] == line[startIndex + 1..endIndex];
    var unformattedIntent, unformattedExtent := SplitFields(substring[1..]);
    var intent := SplitEscaped(unformattedIntent);
    var extent := SplitEscaped(unformattedExtent);
    r := Some(Concept(extent, intent));
  }

  /** The concepts of the accepted lines, in file order, duplicates kept. */
  function Parsed(lines: seq<string>): seq<Concept> {
    if |lines| == 0 then []
    else
      var done := Parsed(lines[..|lines| - 1]);
      match LineConcept(lines[|lines| - 1])
      case None => done
      case Some(c) => done + [c]
  }

  /** parseFCA4J, returning the concepts and the count it prints. */
  method ParseFCA4J(lines: seq<string>) returns (concepts: seq<Concept>, numberOfConcepts: nat)
    ensures concepts == Parsed(lines)
    ensures numberOfConcepts == |concepts|
  {
    concepts := [];
    numberOfConcepts := 0;
    for n := 0 to |lines|
      invariant concepts == Parsed(lines[..n])
      invariant numberOfConcepts == |concepts|
    {
      assert lines[..n + 1][..n] == lines[..n];
      var one := ParseLine(lines[n]);
      if one.Some? {
        concepts := concepts + [one.value];
        numberOfConcepts := numberOfConcepts + 1;
      }
    }
    assert lines[..|lines|] == lines;
  }

  /** A line `prefix|intent names|extent names}suffix` gives the listed names in order. */
  lemma LineOfNames(prefix: string, intent: seq<string>, extent: seq<string>, e: char, suffix: string)
    requires |prefix| > 0 && IsDigit(prefix[0]) && '|' !in prefix && '}' !in prefix
    requires NamesFit(intent) && NamesFit(extent) && e != '|' && e != '}'
    requires |intent| > 0 ==> |intent[|intent| - 1]| > 0
    requires |extent| > 0 ==> |extent[|extent| - 1]| > 0
    ensures LineConcept(prefix + "|" + Escaped(intent, e) + "|" + Escaped(extent, e) + "}" + suffix) ==
      Some(Concept(extent, intent))
  {
    var a, b := Escaped(intent, e), Escaped(extent, e);
    EscapedFits(intent, e);
    EscapedFits(extent, e);
    var line := prefix + "|" + a + "|" + b + "}" + suffix;
    assert line == prefix + "|" + (a + "|" + b) + "}" + suffix;
    assert !Whitespace(line[0]);
    LabelBodyOf(prefix, a + "|" + b, suffix);
    FieldsRoundTrip(a, b);
    LabelsRoundTrip(intent, e, true);
    LabelsRoundTrip(extent, e, true);
  }

  /** Appending lines appends their concepts: order and duplicates are kept. */
  lemma {:induction false} ParsedAppend(lines: seq<string>, more: seq<string>)
    ensures Parsed(lines + more) == Parsed(lines) + Parsed(more)
    decreases |more|
  {
    if |more| == 0 {
      assert lines + more == lines;
    } else {
      var m := |more| - 1;
      InitAppend(lines, more);
      ParsedAppend(lines, more[..m]);
      match LineConcept(more[m])
      case None =>
      case Some(c) => AppendAssoc(Parsed(lines), Parsed(more[..m]), [c]);
    }
  }
}
