/**
 * The DOT reader of the self-consistency experiment: lines that start
 * with a digit must carry a label (the substring is taken unguarded), and
 * the concepts are gathered into a hash set.
 */
module ParserSelfConsistency {
  import opened Wrappers
  import opened Lists
  import opened DotLabels
  import opened FormalConcepts

  /** What one line yields: nothing when skipped, a failure where substring throws. */
  function LineConcept(line: string): Result<Option<FormalConcept>> {
    if |line| == 0 || !IsDigit(line[0]) then Success(None)
    else match LabelBody(line)
      case None => Failure("StringIndexOutOfBoundsException")
      case Some(body) =>
        Success(Some(FormalConcept(Elements(Labels(ExtentField(body), false)),
                                   Elements(Labels(IntentField(body), false)))))
  }

  method ParseLine(line: string) returns (r: Result<Option<FormalConcept>>)
    ensures r == LineConcept(line)
  {
    if |line| == 0 || !IsDigit(line[0]) {
      return Success(None);
    }
    var startIndex, endIndex := IndexOf(line, '|'), IndexOf(line, '}');
    if startIndex < 0 || endIndex < 0 || endIndex < startIndex {
      return Failure("StringIndexOutOfBoundsException");
    }
    var substring := line[startIndex..endIndex];
    BodySpan(line, startIndex, endIndex);
    assert substring[1..] == line[startIndex + 1..endIndex];
    var unformattedIntent, unformattedExtent := SplitFields(substring[1..]);
    // the two splitting loops of this reader are the loop of splitLabels
    var intentList := SplitLabels(unformattedIntent);
    var extentList := SplitLabels(unformattedExtent);
    r := Success(Some(FormalConcept(Elements(extentList), Elements(intentList))));
  }

  /** The set of what the lines yield, or the failure of the first line that fails. */
  function Collect<L, C>(lines: seq<L>, f: L -> Result<Option<C>>): Result<set<C>> {
    if |lines| == 0 then Success({})
    else match Collect(lines[..|lines| - 1], f)
      case Failure(e) => Failure(e)
      case Success(done) =>
        match f(lines[|lines| - 1])
        case Failure(e) => Failure(e)
        case Success(None) => Success(done)
        case Success(Some(c)) => Success(done + {c})
  }

  /** The set of concepts of a file, or the failure of its first bad line. */
  function Parsed(lines: seq<string>): Result<set<FormalConcept>> {
    Collect(lines, LineConcept)
  }

  lemma CollectStep<L, C>(lines: seq<L>, f: L -> Result<Option<C>>, n: nat)
    requires n < |lines|
    ensures Collect(lines[..n + 1], f) ==
      match Collect(lines[..n], f)
      case Failure(e) => Failure(e)
      case Success(done) =>
        match f(lines[n])
        case Failure(e) => Failure(e)
        case Success(None) => Success(done)
        case Success(Some(c)) => Success(done + {c})
  {
    assert lines[..n + 1][..n] == lines[..n];
  }

  lemma {:induction false} FailureStays<L, C>(lines: seq<L>, f: L -> Result<Option<C>>, n: nat)
    requires n <= |lines| && Collect(lines[..n], f).Failure?
    ensures Collect(lines, f) == Collect(lines[..n], f)
    decreases |lines| - n
  {
    if n < |lines| {
      CollectStep(lines, f, n);
      FailureStays(lines, f, n + 1);
    } else {
      assert lines[..n] == lines;
    }
  }

  method ParseFCA4J(lines: seq<string>) returns (r: Result<set<FormalConcept>>)
    ensures r == Parsed(lines)
  {
    var concepts: set<FormalConcept> := {};
    for n := 0 to |lines|
      invariant Collect(lines[..n], LineConcept) == Success(concepts)
    {
      CollectStep(lines, LineConcept, n);
      var one := ParseLine(lines[n]);
      match one {
        case Failure(e) =>
          FailureStays(lines, LineConcept, n + 1);
          return Failure(e);
        case Success(None) =>
        case Success(Some(c)) =>
          concepts := concepts + {c};
      }
    }
    assert lines[..|lines|] == lines;
    return Success(concepts);
  }

  /** A successful collection holds exactly what the lines yield. */
  lemma {:induction false} CollectMembers<L, C>(lines: seq<L>, f: L -> Result<Option<C>>, c: C)
    requires Collect(lines, f).Success?
    ensures c in Collect(lines, f).value <==> exists n :: 0 <= n < |lines| && f(lines[n]) == Success(Some(c))
  {
    if |lines| > 0 {
      var m := |lines| - 1;
      var init := lines[..m];
      CollectMembers(init, f, c);
      if c in Collect(lines, f).value {
        if c in Collect(init, f).value {
          var n :| 0 <= n < m && f(init[n]) == Success(Some(c));
          assert init[n] == lines[n];
        }
      } else {
        forall n | 0 <= n < m ensures f(lines[n]) != Success(Some(c)) {
          assert init[n] == lines[n];
        }
      }
    }
  }

  /** A line that fails makes the whole collection fail. */
  lemma {:induction false} FailureLine<L, C>(lines: seq<L>, f: L -> Result<Option<C>>, n: nat)
    requires n < |lines| && f(lines[n]).Failure?
    ensures Collect(lines, f).Failure?
  {
    var m := |lines| - 1;
    if n < m {
      assert lines[..m][n] == lines[n];
      FailureLine(lines[..m], f, n);
    }
  }

  /** Repeating a line adds nothing. */
  lemma CollectRepeat<L, C>(lines: seq<L>, f: L -> Result<Option<C>>, n: nat)
    requires n < |lines| && Collect(lines, f).Success?
    ensures Collect(lines + [lines[n]], f) == Collect(lines, f)
  {
    var more := lines + [lines[n]];
    assert more[..|lines|] == lines;
    if f(lines[n]).Failure? {
      FailureLine(lines, f, n);
      assert false;
    }
    var done := Collect(lines, f).value;
    match f(lines[n]).value {
      case None =>
      case Some(c) =>
        CollectMembers(lines, f, c);
        assert done + {c} == done;
    }
  }

  /** A successful parse holds exactly the concepts of the concept lines. */
  lemma ParsedMembers(lines: seq<string>, c: FormalConcept)
    requires Parsed(lines).Success?
    ensures c in Parsed(lines).value <==> exists n :: 0 <= n < |lines| && LineConcept(lines[n]) == Success(Some(c))
  {
    CollectMembers(lines, LineConcept, c);
  }

  /** A line repeating an earlier one adds nothing: identical labels collapse into one concept. */
  lemma RepeatedLineIdle(lines: seq<string>, n: nat)
    requires n < |lines| && Parsed(lines).Success?
    ensures Parsed(lines + [lines[n]]) == Parsed(lines)
  {
    CollectRepeat(lines, LineConcept, n);
  }

  /** A line `prefix|intent names|extent names}suffix` gives the sets of the listed names. */
  lemma LineOfNames(prefix: string, intent: seq<string>, extent: seq<string>, e: char, suffix: string)
    requires |prefix| > 0 && IsDigit(prefix[0]) && '|' !in prefix && '}' !in prefix
    requires NamesFit(intent) && NamesFit(extent) && e != '|' && e != '}'
    requires |intent| > 0 ==> |intent[|intent| - 1]| > 0
    requires |extent| > 0 ==> |extent[|extent| - 1]| > 0
    ensures LineConcept(prefix + "|" + Escaped(intent, e) + "|" + Escaped(extent, e) + "}" + suffix) ==
      Success(Some(FormalConcept(Elements(extent), Elements(intent))))
  {
    var a, b := Escaped(intent, e), Escaped(extent, e);
    EscapedFits(intent, e);
    EscapedFits(extent, e);
    var line := prefix + "|" + a + "|" + b + "}" + suffix;
    assert line == prefix + "|" + (a + "|" + b) + "}" + suffix;
    LabelBodyOf(prefix, a + "|" + b, suffix);
    FieldsRoundTrip(a, b);
    LabelsRoundTrip(intent, e, false);
    LabelsRoundTrip(extent, e, false);
  }
}
