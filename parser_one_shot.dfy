/**
 * The DOT reader of the one-shot experiment: every line that starts with
 * a digit carries a concept label; an empty line, or a concept line
 * without a well-placed label, throws.
 */
module ParserOneShot {
  import opened Wrappers
  import opened Lists
  import opened DotLabels

  /** A concept with its names kept in TreeSets. */
  datatype Concept = Concept(extent: set<string>, intent: set<string>)

  /**
   * The extent text as this reader collects it: at every '|' of the body,
   * everything after that bar, braces dropped, is appended once more.
   */
  function Tails(body: string, i: nat): string
    requires i <= |body|
  {
    Gathered(body, i, Unbraced)
  }

  function Unbraced(s: string): string {
    Without(s, {'}'})
  }

  /** f of the text after every bar among the first i characters, in order. */
  function Gathered(body: string, i: nat, f: string -> string): string
    requires i <= |body|
  {
    if i == 0 then ""
    else Gathered(body, i - 1, f) + (if body[i - 1] == '|' then f(body[i..]) else "")
  }

  /** The two fields of a body: the intent up to the first bar, the extent as the repeated tails. */
  method CopyFields(body: string) returns (rawIntent: string, rawExtent: string)
    ensures rawIntent == IntentField(body) && rawExtent == Tails(body, |body|)
  {
    rawIntent, rawExtent := "", "";
    var copy := true;
    ghost var k := IndexOf(body, '|');
    for i := 0 to |body|
      invariant copy <==> (k < 0 || i <= k)
      invariant copy ==> rawIntent == body[..i]
      invariant !copy ==> rawIntent == body[..k]
      invariant rawExtent == Tails(body, i)
    {
      var c := body[i];
      if copy {
        IntentStep(body, i, k, rawIntent);
      }
      if c != '|' && copy {
        rawIntent := rawIntent + [c];
      }
      if c == '|' {
        copy := false;
        rawExtent := AppendUnbraced(rawExtent, body, i + 1);
      }
    }
    assert body[..|body|] == body;
  }

  /** The inner loop of the copy: the text from position start on, braces dropped, appended to acc. */
  method AppendUnbraced(acc: string, body: string, start: nat) returns (r: string)
    requires start <= |body|
    ensures r == acc + Unbraced(body[start..])
  {
    r := acc;
    for j := start to |body|
      invariant r == acc + Without(body[start..j], {'}'})
    {
      FieldStep(body, start, j, {'}'});
      if body[j] != '}' {
        AppendAssoc(acc, Without(body[start..j], {'}'}), [body[j]]);
        r := r + [body[j]];
      }
    }
    assert body[start..] == body[start..|body|];
  }

  /** The names the loop of SplitNames commits from position i on, with current buffered. */
  ghost function Scanned(raw: string, i: nat, current: string): seq<string>
    requires i <= |raw|
    decreases |raw| - i
  {
    if i == |raw| then []
    else if raw[i] == '\\' then [current] + Scanned(raw, Resume(raw, i), "")
    else Scanned(raw, i + 1, current + [raw[i]])
  }

  /** With no backslash buffered, those names are the items of splitting what is left. */
  lemma {:induction false} ScannedSeparate(raw: string, i: nat, current: string)
    requires i <= |raw| && Plain(current)
    ensures Scanned(raw, i, current) == Separate(current + raw[i..], false).items
    decreases |raw| - i
  {
    if i == |raw| {
      assert current + raw[i..] == current;
      NoSeparator(current, false);
    } else if raw[i] == '\\' {
      var r := Resume(raw, i);
      SeparateStep(current, raw[i..], false);
      assert Skip(raw[i..], 0) == "" + raw[r..];
      ScannedSeparate(raw, r, "");
    } else {
      CharacterStep(current, raw, i);
      ScannedSeparate(raw, i + 1, current + [raw[i]]);
    }
  }

  /** The names of a field: each backslash commits one and skips a character; text after the last one is discarded. */
  method SplitNames(raw: string) returns (names: set<string>)
    ensures names == Elements(Separate(raw, false).items)
  {
    names := {};
    ghost var list: seq<string> := [];
    var current := "";
    var i := 0;
    while i < |raw|
      invariant 0 <= i <= |raw|
      invariant forall x :: x in names <==> x in list
      invariant Scanned(raw, 0, "") == list + Scanned(raw, i, current)
      decreases |raw| - i
    {
      if raw[i] == '\\' {
        assert list + ([current] + Scanned(raw, Resume(raw, i), "")) == (list + [current]) + Scanned(raw, Resume(raw, i), "");
        list := list + [current];
        names := names + {current};
        current := "";
        // i += 2 in the source, which leaves the loop when it passes the end
        i := Resume(raw, i);
      } else {
        current := current + [raw[i]];
        i := i + 1;
      }
    }
    assert list + [] == list;
    ScannedSeparate(raw, 0, "");
    assert "" + raw[0..] == raw;
    assert names == Elements(list);
  }

  /** What one line yields: nothing for a line that does not start with a digit, a failure where the source throws. */
  function LineConcept(line: string): Result<Option<Concept>> {
    if |line| == 0 then Failure("StringIndexOutOfBoundsException")
    else if !IsDigit(line[0]) then Success(None)
    else match LabelBody(line)
      case None => Failure("StringIndexOutOfBoundsException")
      case Some(body) =>
        Success(Some(Concept(Elements(Separate(Tails(body, |body|), false).items),
                             Elements(Separate(IntentField(body), false).items))))
  }

  method ParseLine(line: string) returns (r: Result<Option<Concept>>)
    ensures r == LineConcept(line)
  {
    if |line| == 0 {
      return Failure("StringIndexOutOfBoundsException");
    }
    if !IsDigit(line[0]) {
      return Success(None);
    }
    var startIndex, endIndex := IndexOf(line, '|'), IndexOf(line, '}');
    if startIndex < 0 || endIndex < 0 || endIndex <= startIndex {
      return Failure("StringIndexOutOfBoundsException");
    }
    var substring := line[startIndex..endIndex];
    BodySpan(line, startIndex, endIndex);
    assert substring[1..] == line[startIndex + 1..endIndex];
    var rawIntent, rawExtent := CopyFields(substring[1..]);
    var intent := SplitNames(rawIntent);
    var extent := SplitNames(rawExtent);
    r := Success(Some(Concept(extent, intent)));
  }

  /** The concepts of a file, in line order, or the failure of its first bad line. */
  function Parsed(lines: seq<string>): Result<seq<Concept>> {
    if |lines| == 0 then Success([])
    else match Parsed(lines[..|lines| - 1])
      case Failure(e) => Failure(e)
      case Success(done) =>
        match LineConcept(lines[|lines| - 1])
        case Failure(e) => Failure(e)
        case Success(None) => Success(done)
        case Success(Some(c)) => Success(done + [c])
  }

  /** parseFCA4J over the lines of the file. */
  method ParseFCA4J(lines: seq<string>) returns (r: Result<seq<Concept>>)
    ensures r == Parsed(lines)
  {
    var concepts: seq<Concept> := [];
    for n := 0 to |lines|
      invariant Parsed(lines[..n]) == Success(concepts)
    {
      ParsedStep(lines, n);
      var one := ParseLine(lines[n]);
      match one {
        case Failure(e) =>
          FailureStays(lines, n + 1);
          return Failure(e);
        case Success(None) =>
        case Success(Some(c)) =>
          concepts := concepts + [c];
      }
    }
    assert lines[..|lines|] == lines;
    return Success(concepts);
  }

  lemma ParsedStep(lines: seq<string>, n: nat)
    requires n < |lines|
    ensures Parsed(lines[..n + 1]) ==
      match Parsed(lines[..n])
      case Failure(e) => Failure(e)
      case Success(done) =>
        match LineConcept(lines[n])
        case Failure(e) => Failure(e)
        case Success(None) => Success(done)
        case Success(Some(c)) => Success(done + [c])
  {
    assert lines[..n + 1][..n] == lines[..n];
  }

  /** A failure is final: no later line undoes it. */
  lemma {:induction false} FailureStays(lines: seq<string>, n: nat)
    requires n <= |lines| && Parsed(lines[..n]).Failure?
    ensures Parsed(lines) == Parsed(lines[..n])
    decreases |lines| - n
  {
    if n < |lines| {
      ParsedStep(lines, n);
      FailureStays(lines, n + 1);
    } else {
      assert lines[..n] == lines;
    }
  }

  // ---------------------------------------------------------------------
  // What the reader makes of well-formed labels
  // ---------------------------------------------------------------------

  /** A body with a single bar: the extent is the text after it. */
  lemma TailsOneBar(a: string, b: string)
    requires '|' !in a && '|' !in b && '}' !in b
    ensures Tails(a + "|" + b, |a + "|" + b|) == b
  {
    var body := a + "|" + b;
    var p := |a|;
    assert body[..p] == a && body[p + 1..] == b && body[p] == '|';
    NoBar(body, 0, p, a);
    NoBar(body, p + 1, |body|, b);
    WithoutNone(b, {'}'});
    GatheredAtBar(body, p, Unbraced);
  }

  /** A second bar in the body makes the text after it come twice, the bar included once. */
  lemma TailsTwoBars(a: string, b: string, c: string)
    requires '|' !in a && '|' !in b && '|' !in c && '}' !in b && '}' !in c
    ensures Tails(a + "|" + b + "|" + c, |a + "|" + b + "|" + c|) == b + "|" + c + c
  {
    var body := a + "|" + b + "|" + c;
    var p, q := |a|, |a| + 1 + |b|;
    assert body[..p] == a && body[p + 1..q] == b && body[q + 1..] == c;
    assert body[p + 1..] == b + "|" + c;
    assert body[p] == '|' && body[q] == '|';
    NoBar(body, 0, p, a);
    NoBar(body, p + 1, q, b);
    NoBar(body, q + 1, |body|, c);
    WithoutNone(b + "|" + c, {'}'});
    WithoutNone(c, {'}'});
    GatheredAtBars(body, p, q, Unbraced);
  }

  /** A bar at p only: f of the text after it. */
  lemma GatheredAtBar(body: string, p: nat, f: string -> string)
    requires p < |body| && body[p] == '|'
    requires forall j :: 0 <= j < p ==> body[j] != '|'
    requires forall j :: p + 1 <= j < |body| ==> body[j] != '|'
    ensures Gathered(body, |body|, f) == f(body[p + 1..])
  {
    GatheredFirst(body, p, f);
    GatheredAfter(body, p + 1, f);
  }

  /** Up to and including the first bar, at p, only f of the text after it is gathered. */
  lemma GatheredFirst(body: string, p: nat, f: string -> string)
    requires p < |body| && body[p] == '|'
    requires forall j :: 0 <= j < p ==> body[j] != '|'
    ensures Gathered(body, p + 1, f) == f(body[p + 1..])
  {
    GatheredBefore(body, p, f);
    assert "" + f(body[p + 1..]) == f(body[p + 1..]);
  }

  /** Bars at p and q only: f of the text after p, then f of the text after q. */
  lemma GatheredAtBars(body: string, p: nat, q: nat, f: string -> string)
    requires p < q < |body| && body[p] == '|' && body[q] == '|'
    requires forall j :: 0 <= j < p ==> body[j] != '|'
    requires forall j :: p + 1 <= j < q ==> body[j] != '|'
    requires forall j :: q + 1 <= j < |body| ==> body[j] != '|'
    ensures Gathered(body, |body|, f) == f(body[p + 1..]) + f(body[q + 1..])
  {
    GatheredFirst(body, p, f);
    GatheredBetween(body, p + 1, q, f);
    GatheredAfter(body, q + 1, f);
  }

  /** The positions lo .. hi-1 of body spell x, which has no bar. */
  lemma NoBar(body: string, lo: nat, hi: nat, x: string)
    requires lo <= hi <= |body| && body[lo..hi] == x && '|' !in x
    ensures forall j :: lo <= j < hi ==> body[j] != '|'
  {
    forall j | lo <= j < hi ensures body[j] != '|' {
      assert x[j - lo] == body[j];
    }
  }

  lemma {:induction false} GatheredBetween(body: string, i: nat, j: nat, f: string -> string)
    requires 0 < i <= j <= |body| && forall q :: i <= q < j ==> body[q] != '|'
    ensures Gathered(body, j, f) == Gathered(body, i, f)
    decreases j - i
  {
    if i < j {
      GatheredBetween(body, i, j - 1, f);
    }
  }

  lemma {:induction false} GatheredBefore(body: string, i: nat, f: string -> string)
    requires i <= |body| && forall j :: 0 <= j < i ==> body[j] != '|'
    ensures Gathered(body, i, f) == ""
  {
    if i > 0 {
      GatheredBefore(body, i - 1, f);
    }
  }

  lemma {:induction false} GatheredAfter(body: string, i: nat, f: string -> string)
    requires 0 < i <= |body| && forall j :: i <= j < |body| ==> body[j] != '|'
    ensures Gathered(body, |body|, f) == Gathered(body, i, f)
    decreases |body| - i
  {
    if i < |body| {
      GatheredAfter(body, i + 1, f);
    }
  }

  /**
   * A line `prefix|intent names|extent names}suffix`, names joined by a
   * backslash and e: the reader keeps every name but the last of each field.
   */
  lemma LineOfJoinedNames(prefix: string, intent: seq<string>, extent: seq<string>, e: char, suffix: string)
    requires |prefix| > 0 && IsDigit(prefix[0]) && '|' !in prefix && '}' !in prefix
    requires |intent| > 0 && |extent| > 0 && NamesFit(intent) && NamesFit(extent) && e != '|' && e != '}'
    ensures LineConcept(prefix + "|" + Escaped(intent, e) + "|" + Escaped(extent, e) + "}" + suffix) ==
      Success(Some(Concept(Elements(extent[..|extent| - 1]), Elements(intent[..|intent| - 1]))))
  {
    var a, b := Escaped(intent, e), Escaped(extent, e);
    EscapedFits(intent, e);
    EscapedFits(extent, e);
    LineShape(prefix, a, b, suffix);
    SeparateEscaped(intent, e, false);
    SeparateEscaped(extent, e, false);
  }

  /** With every name terminated by a backslash and e, the reader keeps all names. */
  lemma LineOfTerminatedNames(prefix: string, intent: seq<string>, extent: seq<string>, e: char, suffix: string)
    requires |prefix| > 0 && IsDigit(prefix[0]) && '|' !in prefix && '}' !in prefix
    requires NamesFit(intent) && NamesFit(extent) && e != '|' && e != '}'
    ensures LineConcept(prefix + "|" + Terminated(intent, e) + "|" + Terminated(extent, e) + "}" + suffix) ==
      Success(Some(Concept(Elements(extent), Elements(intent))))
  {
    var a, b := Terminated(intent, e), Terminated(extent, e);
    TerminatedFits(intent, e);
    TerminatedFits(extent, e);
    LineShape(prefix, a, b, suffix);
    SeparateTerminated(intent, e, false);
    SeparateTerminated(extent, e, false);
  }

  lemma LineShape(prefix: string, a: string, b: string, suffix: string)
    requires |prefix| > 0 && IsDigit(prefix[0]) && '|' !in prefix && '}' !in prefix
    requires '|' !in a && '}' !in a && '|' !in b && '}' !in b
    ensures LineConcept(prefix + "|" + a + "|" + b + "}" + suffix) ==
      Success(Some(Concept(Elements(Separate(b, false).items), Elements(Separate(a, false).items))))
  {
    var line := prefix + "|" + a + "|" + b + "}" + suffix;
    assert line == prefix + "|" + (a + "|" + b) + "}" + suffix;
    LabelBodyOf(prefix, a + "|" + b, suffix);
    FieldsRoundTrip(a, b);
    TailsOneBar(a, b);
  }
}
