/**
 * The DOT reader of the few-shot experiment: lines it cannot read are
 * skipped, and each accepted line becomes a concept of name sets, the
 * concept type of the few-shot enumerator.
 */
module ParserFewShot {
  import opened Wrappers
  import opened Lists
  import opened DotLabels
  import FewShot

  /** The extent text of this reader: every character after the first '|' except bars; braces are kept. */
  function ExtentText(body: string): string {
    var k := IndexOf(body, '|');
    if k < 0 then "" else Without(body[k + 1..], {'|'})
  }

  /** The flag loop of this reader. */
  method CopyFields(body: string) returns (rawIntent: string, rawExtent: string)
    ensures rawIntent == IntentField(body) && rawExtent == ExtentText(body)
  {
    rawIntent, rawExtent := "", "";
    var copyIntent := true;
    ghost var k := IndexOf(body, '|');
    for i := 0 to |body|
      invariant copyIntent <==> (k < 0 || i <= k)
      invariant rawIntent == IntentSoFar(body, k, i) && rawExtent == ExtentSoFar(body, k, i, {'|'})
    {
      var c := body[i];
      CopyStep(body, k, i, {'|'});
      if copyIntent {
        if c == '|' {
          copyIntent := false;
        } else {
          rawIntent := rawIntent + [c];
        }
      } else {
        if c != '|' {
          rawExtent := rawExtent + [c];
        }
      }
    }
    CopyEnd(body, k, {'|'});
  }

  /** On a label body, which never holds a brace, keeping braces changes nothing. */
  lemma ExtentTextOfBody(line: string)
    requires LabelBody(line).Some?
    ensures ExtentText(LabelBody(line).value) == ExtentField(LabelBody(line).value)
  {
    BodyHasNoBrace(line);
    ExtentTextNoBrace(LabelBody(line).value);
  }

  lemma ExtentTextNoBrace(body: string)
    requires '}' !in body
    ensures ExtentText(body) == ExtentField(body)
  {
    var k := IndexOf(body, '|');
    if k >= 0 {
      NotInSuffix(body, k + 1, '}');
      KeptBraceIdle(body[k + 1..]);
    }
  }

  lemma {:induction false} KeptBraceIdle(s: string)
    requires '}' !in s
    ensures Without(s, {'|'}) == Without(s, Marks)
  {
    if |s| > 0 {
      assert s == [s[0]] + s[1..];
      KeptBraceIdle(s[1..]);
    }
  }

  /** The concept of a line, or None for a line that is skipped. */
  function LineConcept(line: string): Option<FewShot.Concept> {
    if |line| == 0 || !IsDigit(line[0]) then None
    else match LabelBody(line)
      case None => None
      case Some(body) =>
        Some(FewShot.Concept(Elements(Labels(ExtentText(body), false)), Elements(Labels(IntentField(body), false))))
  }

  method ParseLine(line: string) returns (r: Option<FewShot.Concept>)
    ensures r == LineConcept(line)
  {
    if |line| == 0 || !IsDigit(line[0]) {
      return None;
    }
    var startIndex, endIndex := IndexOf(line, '|'), IndexOf(line, '}');
    if startIndex == -1 || endIndex == -1 || endIndex <= startIndex {
      return None;
    }
    var substring := line[startIndex..endIndex];
    BodySpan(line, startIndex, endIndex);
    assert substring[1..] == line[startIndex + 1..endIndex];
    var unformattedIntent, unformattedExtent := CopyFields(substring[1..]);
    // both splitting loops of this reader are the loop of splitLabels
    var intentList := SplitLabels(unformattedIntent);
    var extentList := SplitLabels(unformattedExtent);
    // the LinkedHashSets iterate in first-occurrence order, Dedup of the lists
    var intentSet := LinkedCopy(intentList);
    var extentSet := LinkedCopy(extentList);
    r := Some(FewShot.Concept(Elements(extentSet), Elements(intentSet)));
  }

  /** The concepts of the accepted lines, in file order. */
  function Parsed(lines: seq<string>): seq<FewShot.Concept> {
    if |lines| == 0 then []
    else
      var done := Parsed(lines[..|lines| - 1]);
      match LineConcept(lines[|lines| - 1])
      case None => done
      case Some(c) => done + [c]
  }

  method ParseFCA4J(lines: seq<string>) returns (concepts: seq<FewShot.Concept>)
    ensures concepts == Parsed(lines)
  {
    concepts := [];
    for n := 0 to |lines|
      invariant concepts == Parsed(lines[..n])
    {
      assert lines[..n + 1][..n] == lines[..n];
      var one := ParseLine(lines[n]);
      if one.Some? {
        concepts := concepts + [one.value];
      }
    }
    assert lines[..|lines|] == lines;
  }

  /** A line `prefix|intent names|extent names}suffix` gives the sets of the listed names. */
  lemma LineOfNames(prefix: string, intent: seq<string>, extent: seq<string>, e: char, suffix: string)
    requires |prefix| > 0 && IsDigit(prefix[0]) && '|' !in prefix && '}' !in prefix
    requires NamesFit(intent) && NamesFit(extent) && e != '|' && e != '}'
    requires |intent| > 0 ==> |intent[|intent| - 1]| > 0
    requires |extent| > 0 ==> |extent[|extent| - 1]| > 0
    ensures LineConcept(prefix + "|" + Escaped(intent, e) + "|" + Escaped(extent, e) + "}" + suffix) ==
      Some(FewShot.Concept(Elements(extent), Elements(intent)))
  {
    var a, b := Escaped(intent, e), Escaped(extent, e);
    EscapedFits(intent, e);
    EscapedFits(extent, e);
    var line := prefix + "|" + a + "|" + b + "}" + suffix;
    LineBodyOf(prefix, a, b, suffix);
    FieldsConcept(line, intent, extent, e);
  }

  /** The label body of such a line is both fields with the bar between them. */
  lemma LineBodyOf(prefix: string, a: string, b: string, suffix: string)
    requires |prefix| > 0 && '|' !in prefix && '}' !in prefix && '}' !in a && '}' !in b
    ensures LabelBody(prefix + "|" + a + "|" + b + "}" + suffix) == Some(a + "|" + b)
    ensures (prefix + "|" + a + "|" + b + "}" + suffix)[0] == prefix[0]
  {
    var body := a + "|" + b;
    assert prefix + "|" + a + "|" + b + "}" + suffix == prefix + "|" + body + "}" + suffix;
    LabelBodyOf(prefix, body, suffix);
  }

  /** A line whose body holds the two escaped lists reads back as the concept of those names. */
  lemma FieldsConcept(line: string, intent: seq<string>, extent: seq<string>, e: char)
    requires |line| > 0 && IsDigit(line[0])
    requires NamesFit(intent) && NamesFit(extent) && e != '|' && e != '}'
    requires |intent| > 0 ==> |intent[|intent| - 1]| > 0
    requires |extent| > 0 ==> |extent[|extent| - 1]| > 0
    requires LabelBody(line) == Some(Escaped(intent, e) + "|" + Escaped(extent, e))
    ensures LineConcept(line) == Some(FewShot.Concept(Elements(extent), Elements(intent)))
  {
    var a, b := Escaped(intent, e), Escaped(extent, e);
    EscapedFits(intent, e);
    EscapedFits(extent, e);
    FieldsRoundTrip(a, b);
    ExtentTextOfBody(line);
    LabelsRoundTrip(intent, e, false);
    LabelsRoundTrip(extent, e, false);
    LineConceptOf(line, a + "|" + b);
  }

  lemma LineConceptOf(line: string, body: string)
    requires |line| > 0 && IsDigit(line[0]) && LabelBody(line) == Some(body)
    ensures LineConcept(line) ==
      Some(FewShot.Concept(Elements(Labels(ExtentText(body), false)), Elements(Labels(IntentField(body), false))))
  {
  }
}
