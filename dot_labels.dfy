/**
 * The DOT record labels the parsers read.  A concept line starts with a
 * digit and carries a label `...|intent names|extent names}...`; inside each
 * field a backslash and one escape character mark the ends of names.  Two
 * layouts of a field are stated: names joined by the escape (Escaped) and
 * names each terminated by it (Terminated); what each splitter reads from
 * each is proved below.
 */
module DotLabels {
  import opened Wrappers

  /** Character.isDigit and the regex \d, read as the ASCII digits. */
  predicate IsDigit(c: char) {
    '0' <= c <= '9'
  }

  /** String.indexOf(c): the first position of c, or -1. */
  function IndexOf(s: string, c: char): (r: int)
    ensures -1 <= r < |s|
    ensures r == -1 <==> c !in s
    ensures r >= 0 ==> s[r] == c && c !in s[..r]
  {
    if |s| == 0 then -1
    else if s[0] == c then 0
    else
      var r := IndexOf(s[1..], c);
      assert s == [s[0]] + s[1..];
      if r == -1 then -1
      else
        assert s[..r + 1] == [s[0]] + s[1..][..r];
        r + 1
  }

  lemma IndexOfAfter(p: string, s: string, c: char)
    requires c !in p && |s| > 0 && s[0] == c
    ensures IndexOf(p + s, c) == |p|
  {
    var r := IndexOf(p + s, c);
    assert (p + s)[|p|] == c;
  }

  // ---------------------------------------------------------------------
  // The label and its two fields
  // ---------------------------------------------------------------------

  /**
   * The positions of the first '|' and the first '}', when the first '|'
   * comes before the first '}'; None when either is missing or '}' comes
   * first (the guard `start < 0 || end < 0 || end <= start`).
   */
  function LabelSpan(line: string): (r: Option<(nat, nat)>)
    ensures r.Some? ==> r.value.0 < r.value.1 <= |line|
  {
    var start, end := IndexOf(line, '|'), IndexOf(line, '}');
    if start < 0 || end < 0 || end <= start then None else Some((start, end))
  }

  /** The text after the label's opening '|' and before the first '}'. */
  function LabelBody(line: string): Option<string> {
    match LabelSpan(line)
    case None => None
    case Some((start, end)) => Some(line[start + 1..end])
  }

  /** The intent field: the body up to its first '|'. */
  function IntentField(body: string): string {
    var k := IndexOf(body, '|');
    if k < 0 then body else body[..k]
  }

  /** s without the characters in drop. */
  function Without(s: string, drop: set<char>): string {
    if |s| == 0 then "" else Kept(s[0], drop) + Without(s[1..], drop)
  }

  const Marks: set<char> := {'|', '}'}

  /** The extent field: every character after the body's first '|' other than '|' and '}'. */
  function ExtentField(body: string): string {
    var k := IndexOf(body, '|');
    if k < 0 then "" else Without(body[k + 1..], Marks)
  }

  /** The flag loop shared by several parsers: before the first '|' into the intent, after it into the extent, bars and braces dropped. */
  method SplitFields(body: string) returns (rawIntent: string, rawExtent: string)
    ensures rawIntent == IntentField(body) && rawExtent == ExtentField(body)
  {
    rawIntent, rawExtent := "", "";
    var readingIntent := true;
    ghost var k := IndexOf(body, '|');
    for i := 0 to |body|
      invariant readingIntent <==> (k < 0 || i <= k)
      invariant rawIntent == IntentSoFar(body, k, i) && rawExtent == ExtentSoFar(body, k, i, Marks)
    {
      var c := body[i];
      CopyStep(body, k, i, Marks);
      if readingIntent {
        if c == '|' {
          readingIntent := false;
        } else {
          rawIntent := rawIntent + [c];
        }
      } else {
        if c != '|' && c != '}' {
          rawExtent := rawExtent + [c];
        }
      }
    }
    CopyEnd(body, k, Marks);
  }

  /** What a copy loop that switches fields at the first bar, at k, holds in its intent after i characters. */
  ghost function IntentSoFar(body: string, k: int, i: nat): string
    requires i <= |body| && k < |body|
  {
    if k < 0 || i <= k then body[..i] else body[..k]
  }

  /** What such a loop holds in its extent after i characters, the characters in drop left out. */
  ghost function ExtentSoFar(body: string, k: int, i: nat, drop: set<char>): string
    requires i <= |body|
  {
    if k < 0 || i <= k then "" else Without(body[k + 1..i], drop)
  }

  /** One character of the copy loop: the intent grows before the bar, the extent after it. */
  lemma CopyStep(body: string, k: int, i: nat, drop: set<char>)
    requires i < |body| && k == IndexOf(body, '|')
    ensures (k < 0 || i <= k) ==> (body[i] == '|' <==> i == k)
    ensures IntentSoFar(body, k, i + 1) ==
      if k < 0 || i < k then IntentSoFar(body, k, i) + [body[i]] else IntentSoFar(body, k, i)
    ensures ExtentSoFar(body, k, i + 1, drop) ==
      if k < 0 || i <= k || body[i] in drop then ExtentSoFar(body, k, i, drop) else ExtentSoFar(body, k, i, drop) + [body[i]]
  {
    if k < 0 || i <= k {
      BarAt(body, i, k);
      PrefixStep(body, i);
      if i == k {
        assert body[k + 1..i + 1] == "";
      }
    } else {
      FieldStep(body, k + 1, i, drop);
    }
  }

  /** After the last character the two fields are complete. */
  lemma CopyEnd(body: string, k: int, drop: set<char>)
    requires k == IndexOf(body, '|')
    ensures IntentSoFar(body, k, |body|) == IntentField(body)
    ensures ExtentSoFar(body, k, |body|, drop) == if k < 0 then "" else Without(body[k + 1..], drop)
  {
    if k < 0 {
      assert body[..|body|] == body;
    } else {
      assert body[k + 1..|body|] == body[k + 1..];
    }
  }

  /** One character of a copy loop that stops at the first bar: the bar ends the copy, anything else extends it. */
  lemma IntentStep(body: string, i: nat, k: int, rawIntent: string)
    requires i < |body| && k == IndexOf(body, '|') && (k < 0 || i <= k) && rawIntent == body[..i]
    ensures body[i] == '|' ==> i == k && rawIntent == body[..k] && body[k + 1..i + 1] == ""
    ensures body[i] != '|' ==> (k < 0 || i + 1 <= k) && rawIntent + [body[i]] == body[..i + 1]
  {
    BarAt(body, i, k);
    PrefixStep(body, i);
  }

  /** Up to the first bar, at k, a position holds a bar exactly when it is k. */
  lemma BarAt(body: string, i: nat, k: int)
    requires i < |body| && k == IndexOf(body, '|') && (k < 0 || i <= k)
    ensures body[i] == '|' <==> i == k
  {
    if k < 0 {
      assert body[i] in body;
    } else if i < k {
      assert body[..k][i] == body[i];
    }
  }

  lemma PrefixStep(body: string, i: nat)
    requires i < |body|
    ensures body[..i + 1] == body[..i] + [body[i]]
  {
    assert body[..i + 1] == body[..i] + [body[i]];
  }

  /** One more character of a copy loop that drops the characters in drop from position start on. */
  lemma FieldStep(body: string, start: nat, i: nat, drop: set<char>)
    requires start <= i < |body|
    ensures Without(body[start..i + 1], drop) ==
      if body[i] in drop then Without(body[start..i], drop) else Without(body[start..i], drop) + [body[i]]
  {
    WithoutAppend(body[start..i], body[i], drop);
    assert body[start..i + 1] == body[start..i] + [body[i]];
  }

  function Kept(c: char, drop: set<char>): string {
    if c in drop then "" else [c]
  }

  lemma {:induction false} WithoutAppend(s: string, c: char, drop: set<char>)
    ensures Without(s + [c], drop) == Without(s, drop) + Kept(c, drop)
  {
    if |s| == 0 {
      assert s + [c] == [c];
      assert Without([c], drop) == Kept(c, drop) + Without([c][1..], drop);
      assert [c][1..] == "";
    } else {
      var t := s + [c];
      assert t[0] == s[0];
      assert t[1..] == s[1..] + [c];
      assert Without(t, drop) == Kept(s[0], drop) + Without(t[1..], drop);
      assert Without(s, drop) == Kept(s[0], drop) + Without(s[1..], drop);
      WithoutAppend(s[1..], c, drop);
    }
  }

  /** Fields free of bars and braces come back out of a body `intent|extent`. */
  lemma FieldsRoundTrip(a: string, b: string)
    requires '|' !in a && '|' !in b && '}' !in b
    ensures IntentField(a + "|" + b) == a && ExtentField(a + "|" + b) == b
  {
    IndexOfAfter(a, "|" + b, '|');
    assert a + "|" + b == a + ("|" + b);
    assert (a + "|" + b)[|a| + 1..] == b;
    WithoutNone(b, Marks);
  }

  /** Dropping characters that do not occur changes nothing. */
  lemma {:induction false} WithoutNone(s: string, drop: set<char>)
    requires forall j :: 0 <= j < |s| ==> s[j] !in drop
    ensures Without(s, drop) == s
  {
    if |s| > 0 {
      assert s == [s[0]] + s[1..];
      WithoutNone(s[1..], drop);
    }
  }

  /** The cut label never holds a '}', so dropping braces from it is idle. */
  lemma BodyHasNoBrace(line: string)
    requires LabelBody(line).Some?
    ensures '}' !in LabelBody(line).value
  {
    var (start, end) := LabelSpan(line).value;
    assert line[start + 1..end] == line[..end][start + 1..];
  }

  /** A line `prefix|body}suffix` whose prefix holds neither '|' nor '}' yields that body. */
  lemma LabelBodyOf(prefix: string, body: string, suffix: string)
    requires '|' !in prefix && '}' !in prefix && '}' !in body
    ensures LabelBody(prefix + "|" + body + "}" + suffix) == Some(body)
  {
    var line := prefix + "|" + body + "}" + suffix;
    var head := prefix + "|" + body;
    LineParts(prefix, body, suffix);
    IndexOfAfter(prefix, "|" + body + "}" + suffix, '|');
    NotInConcat(prefix + "|", body, '}');
    IndexOfAfter(head, "}" + suffix, '}');
    LabelBodyAt(line, |prefix|, |head|);
  }

  /** The ways the line `prefix|body}suffix` splits. */
  lemma LineParts(prefix: string, body: string, suffix: string)
    ensures prefix + "|" + body + "}" + suffix == prefix + ("|" + body + "}" + suffix)
    ensures prefix + "|" + body + "}" + suffix == (prefix + "|" + body) + ("}" + suffix)
    ensures (prefix + "|" + body + "}" + suffix)[|prefix| + 1..|prefix| + 1 + |body|] == body
  {
    var line := prefix + "|" + body + "}" + suffix;
    assert line == prefix + ("|" + body + "}" + suffix);
    assert line[|prefix| + 1..|prefix| + 1 + |body|] == body;
  }

  lemma NotInSuffix(s: string, k: nat, c: char)
    requires k <= |s| && c !in s
    ensures c !in s[k..]
  {
  }

  lemma NotInConcat(a: string, b: string, c: char)
    requires c !in a && c !in b
    ensures c !in a + b
  {
  }

  /** The first '|' and the first '}' of a line, the bar not after the brace, delimit its body. */
  lemma BodySpan(line: string, start: int, end: int)
    requires 0 <= start <= end && start == IndexOf(line, '|') && end == IndexOf(line, '}')
    ensures start < end && LabelBody(line) == Some(line[start + 1..end])
  {
  }

  /** The first '|' at p and the first '}' at q > p delimit the body. */
  lemma LabelBodyAt(line: string, p: nat, q: nat)
    requires p < q && IndexOf(line, '|') == p && IndexOf(line, '}') == q
    ensures LabelBody(line) == Some(line[p + 1..q])
  {
  }

  // ---------------------------------------------------------------------
  // Splitting a field into names
  // ---------------------------------------------------------------------

  /** The names a field splits into, and the text after the last separator. */
  datatype Split = Split(items: seq<string>, tail: string)

  /**
   * Cutting s at backslashes: a separating backslash ends the current name
   * and the character after it is skipped.  With lastLiteral, a backslash
   * in the last position is an ordinary character.
   */
  function Separate(s: string, lastLiteral: bool): Split
    decreases |s|
  {
    var k := IndexOf(s, '\\');
    if k < 0 || (lastLiteral && k == |s| - 1) then Split([], s)
    else Prepend([s[..k]], Separate(Skip(s, k), lastLiteral))
  }

  /** What follows the separator at k and the character it escapes. */
  function Skip(s: string, k: nat): (r: string)
    requires k < |s|
    ensures |r| < |s| - k
  {
    if k + 2 <= |s| then s[k + 2..] else ""
  }

  /** Names found before a split. */
  function Prepend(names: seq<string>, sp: Split): Split {
    Split(names + sp.items, sp.tail)
  }

  /** The names with a non-empty tail kept as the last one. */
  function Labels(s: string, lastLiteral: bool): seq<string> {
    var sp := Separate(s, lastLiteral);
    sp.items + (if |sp.tail| > 0 then [sp.tail] else [])
  }

  /** No name holds a backslash; only with lastLiteral may the tail end in one. */
  lemma {:induction false} SeparatePlain(s: string, lastLiteral: bool)
    ensures forall x :: x in Separate(s, lastLiteral).items ==> '\\' !in x
    ensures !lastLiteral ==> '\\' !in Separate(s, lastLiteral).tail
    ensures forall j :: 0 <= j < |Separate(s, lastLiteral).tail| - 1 ==> Separate(s, lastLiteral).tail[j] != '\\'
    decreases |s|
  {
    var k := IndexOf(s, '\\');
    if k >= 0 && !(lastLiteral && k == |s| - 1) {
      SeparatePlain(Skip(s, k), lastLiteral);
    } else if k >= 0 {
      forall j | 0 <= j < |s| - 1 ensures s[j] != '\\' {
        assert s[..k][j] == s[j];
      }
    }
  }

  /**
   * The separating backslashes of s, counted left to right, each one
   * hiding the character after it.
   */
  function Separators(s: string, lastLiteral: bool): nat
    decreases |s|
  {
    if |s| == 0 then 0
    else if s[0] == '\\' && !(lastLiteral && |s| == 1) then 1 + Separators(Skip(s, 0), lastLiteral)
    else Separators(s[1..], lastLiteral)
  }

  lemma {:induction false} SeparatorsPlainPrefix(s: string, k: nat, lastLiteral: bool)
    requires k <= |s| && forall j :: 0 <= j < k ==> s[j] != '\\'
    ensures Separators(s, lastLiteral) == Separators(s[k..], lastLiteral)
    decreases k
  {
    if k > 0 {
      assert s[1..][k - 1..] == s[k..];
      SeparatorsPlainPrefix(s[1..], k - 1, lastLiteral);
    }
  }

  /** One name per separator, and the tail once more when it is not empty. */
  lemma LabelsCount(s: string, lastLiteral: bool)
    ensures |Separate(s, lastLiteral).items| == Separators(s, lastLiteral)
    ensures |Labels(s, lastLiteral)| == Separators(s, lastLiteral) + (if |Separate(s, lastLiteral).tail| > 0 then 1 else 0)
  {
    ItemsCount(s, lastLiteral);
  }

  lemma {:induction false} ItemsCount(s: string, lastLiteral: bool)
    ensures |Separate(s, lastLiteral).items| == Separators(s, lastLiteral)
    decreases |s|
  {
    var k := IndexOf(s, '\\');
    if k < 0 {
      SeparatorsPlainPrefix(s, |s|, lastLiteral);
      assert s[|s|..] == "";
    } else {
      PlainBefore(s, k);
      SeparatorsAt(s, k, lastLiteral);
      if !(lastLiteral && k == |s| - 1) {
        ItemsCount(Skip(s, k), lastLiteral);
      }
    }
  }

  /** No backslash comes before the first one, at k. */
  lemma PlainBefore(s: string, k: int)
    requires k == IndexOf(s, '\\') && k >= 0
    ensures forall j :: 0 <= j < k ==> s[j] != '\\'
  {
    forall j | 0 <= j < k ensures s[j] != '\\' {
      assert s[..k][j] == s[j];
    }
  }

  /** Counting from the first backslash, at k: one for it unless it is a literal last character. */
  lemma SeparatorsAt(s: string, k: nat, lastLiteral: bool)
    requires k < |s| && s[k] == '\\' && forall j :: 0 <= j < k ==> s[j] != '\\'
    ensures Separators(s, lastLiteral) ==
      if lastLiteral && k == |s| - 1 then 0 else 1 + Separators(Skip(s, k), lastLiteral)
  {
    SeparatorsPlainPrefix(s, k, lastLiteral);
    var r := s[k..];
    assert r[0] == '\\' && |r| == |s| - k;
    if !(lastLiteral && k == |s| - 1) {
      assert Skip(r, 0) == Skip(s, k);
    } else {
      assert r[1..] == "";
    }
  }

  /** A lone backslash at the end is a character for splitEscaped and a separator for splitLabels. */
  lemma TrailingBackslash(x: string)
    requires |x| > 0 && Plain(x)
    ensures Labels(x + "\\", true) == [x + "\\"]
    ensures Labels(x + "\\", false) == [x]
  {
    IndexOfAfter(x, "\\", '\\');
    assert (x + "\\")[..|x|] == x;
    assert Skip(x + "\\", |x|) == "";
    assert Separate("", false) == Split([], "");
  }

  /** Names joined by a backslash and the escape character e: what the splitters undo. */
  function Escaped(names: seq<string>, e: char): string {
    if |names| == 0 then ""
    else if |names| == 1 then names[0]
    else names[0] + ['\\', e] + Escaped(names[1..], e)
  }

  /** A name holds no backslash. */
  predicate Plain(x: string) {
    '\\' !in x
  }

  predicate AllPlain(names: seq<string>) {
    forall j :: 0 <= j < |names| ==> Plain(names[j])
  }

  /** A name that can sit in a label field: no backslash, bar or brace. */
  predicate Fits(x: string) {
    '\\' !in x && '|' !in x && '}' !in x
  }

  predicate NamesFit(names: seq<string>) {
    forall j :: 0 <= j < |names| ==> Fits(names[j])
  }

  lemma NamesFitTail(names: seq<string>)
    requires |names| > 0 && NamesFit(names)
    ensures Fits(names[0]) && NamesFit(names[1..])
  {
    assert Fits(names[0]);
    forall j | 0 <= j < |names| - 1 ensures Fits(names[1..][j]) {
      assert names[1..][j] == names[j + 1];
    }
  }

  /** Escaping names that fit, with an escape character other than a bar or a brace, gives a field. */
  lemma {:induction false} EscapedFits(names: seq<string>, e: char)
    requires NamesFit(names) && e != '|' && e != '}'
    ensures AllPlain(names)
    ensures '|' !in Escaped(names, e) && '}' !in Escaped(names, e)
  {
    if |names| > 0 {
      NamesFitTail(names);
      EscapedFits(names[1..], e);
    }
  }

  lemma {:induction false} TerminatedFits(names: seq<string>, e: char)
    requires NamesFit(names) && e != '|' && e != '}'
    ensures AllPlain(names)
    ensures '|' !in Terminated(names, e) && '}' !in Terminated(names, e)
  {
    if |names| > 0 {
      NamesFitTail(names);
      TerminatedFits(names[1..], e);
    }
  }

  lemma DropLast<T>(s: seq<T>)
    requires |s| >= 2
    ensures [s[0]] + s[1..][..|s| - 2] == s[..|s| - 1]
  {
  }

  /** Splitting an escaped list gives every name but the last as a separated name, and the last as the tail. */
  lemma {:induction false} SeparateEscaped(names: seq<string>, e: char, lastLiteral: bool)
    requires |names| > 0 && AllPlain(names)
    ensures Separate(Escaped(names, e), lastLiteral) == Split(names[..|names| - 1], names[|names| - 1])
  {
    if |names| == 1 {
      assert Plain(names[0]);
      assert IndexOf(names[0], '\\') == -1;
    } else {
      var rest := Escaped(names[1..], e);
      var sep := ['\\', e] + rest;
      assert Escaped(names, e) == names[0] + sep;
      assert Plain(names[0]);
      SeparateStep(names[0], sep, lastLiteral);
      assert Skip(sep, 0) == rest;
      assert AllPlain(names[1..]) by {
        forall j | 0 <= j < |names| - 1 ensures Plain(names[1..][j]) {
          assert names[1..][j] == names[j + 1];
        }
      }
      SeparateEscaped(names[1..], e, lastLiteral);
      DropLast(names);
    }
  }

  /** Names free of backslashes, the last non-empty, come back out of the escaped list. */
  lemma LabelsRoundTrip(names: seq<string>, e: char, lastLiteral: bool)
    requires AllPlain(names)
    requires |names| > 0 ==> |names[|names| - 1]| > 0
    ensures Labels(Escaped(names, e), lastLiteral) == names
  {
    if |names| > 0 {
      SeparateEscaped(names, e, lastLiteral);
      assert names == names[..|names| - 1] + [names[|names| - 1]];
    } else {
      assert Escaped(names, e) == "";
    }
  }

  /** Names each followed by a backslash and e: the escaped list with an empty last name. */
  function Terminated(names: seq<string>, e: char): string {
    if |names| == 0 then "" else names[0] + ['\\', e] + Terminated(names[1..], e)
  }

  lemma {:induction false} TerminatedEscaped(names: seq<string>, e: char)
    ensures Terminated(names, e) == Escaped(names + [""], e)
  {
    if |names| > 0 {
      assert (names + [""])[1..] == names[1..] + [""];
      TerminatedEscaped(names[1..], e);
    }
  }

  /** A terminated list splits into all its names and an empty tail. */
  lemma SeparateTerminated(names: seq<string>, e: char, lastLiteral: bool)
    requires AllPlain(names)
    ensures Separate(Terminated(names, e), lastLiteral) == Split(names, "")
    ensures Labels(Terminated(names, e), lastLiteral) == names
  {
    TerminatedEscaped(names, e);
    assert AllPlain(names + [""]) by {
      forall j | 0 <= j < |names| + 1 ensures Plain((names + [""])[j]) {
        if j < |names| {
          assert (names + [""])[j] == names[j];
        }
      }
    }
    SeparateEscaped(names + [""], e, lastLiteral);
    assert (names + [""])[..|names|] == names;
  }

  lemma SeparateStep(current: string, rest: string, lastLiteral: bool)
    requires '\\' !in current && |rest| > 0 && rest[0] == '\\'
    requires !(lastLiteral && |rest| == 1)
    ensures Separate(current + rest, lastLiteral) == Prepend([current], Separate(Skip(rest, 0), lastLiteral))
  {
    var s := current + rest;
    IndexOfAfter(current, rest, '\\');
    assert s[..|current|] == current;
    assert Skip(s, |current|) == Skip(rest, 0);
  }

  /** Where the scan resumes after a separator at i: past the escaped character. */
  function Resume(s: string, i: nat): nat
    requires i < |s|
  {
    if i + 2 <= |s| then i + 2 else |s|
  }

  /** One separator of the loop: the buffered name is committed. */
  lemma SeparatorStep(list: seq<string>, current: string, s: string, i: nat, lastLiteral: bool)
    requires i < |s| && s[i] == '\\' && Plain(current) && !(lastLiteral && i == |s| - 1)
    ensures Prepend(list, Separate(current + s[i..], lastLiteral)) ==
      Prepend(list + [current], Separate("" + s[Resume(s, i)..], lastLiteral))
  {
    SeparateStep(current, s[i..], lastLiteral);
    SkipResume(s, i);
    PrependTwice(list, [current], Separate("" + s[Resume(s, i)..], lastLiteral));
  }

  /** Skipping the separator at the head of s[i..] leaves the text from Resume(s, i) on. */
  lemma SkipResume(s: string, i: nat)
    requires i < |s|
    ensures Skip(s[i..], 0) == "" + s[Resume(s, i)..]
  {
    assert Skip(s[i..], 0) == "" + s[Resume(s, i)..];
  }

  /** One ordinary character of the loop: the text still to split is unchanged. */
  lemma CharacterStep(current: string, s: string, i: nat)
    requires i < |s|
    ensures current + s[i..] == (current + [s[i]]) + s[i + 1..]
    ensures Plain(current) && s[i] != '\\' ==> Plain(current + [s[i]])
  {
    assert s[i..] == [s[i]] + s[i + 1..];
  }

  /** The end of the loop: what is buffered is the tail, kept when it is not empty. */
  lemma Finish(list: seq<string>, current: string, s: string, lastLiteral: bool)
    requires Plain(current) || (lastLiteral && Last(current) == '\\' && Plain(current[..|current| - 1]))
    requires Separate(s, lastLiteral) == Prepend(list, Separate(current + s[|s|..], lastLiteral))
    ensures Labels(s, lastLiteral) == list + (if |current| > 0 then [current] else [])
  {
    assert current + s[|s|..] == current;
    NoSeparator(current, lastLiteral);
  }

  /** The end of the loop: the committed names are the items, whatever is buffered. */
  lemma Committed(list: seq<string>, current: string, s: string, lastLiteral: bool)
    requires Plain(current) || (lastLiteral && Last(current) == '\\' && Plain(current[..|current| - 1]))
    requires Separate(s, lastLiteral) == Prepend(list, Separate(current + s[|s|..], lastLiteral))
    ensures Separate(s, lastLiteral).items == list
  {
    assert current + s[|s|..] == current;
    NoSeparator(current, lastLiteral);
  }

  lemma NoSeparator(current: string, lastLiteral: bool)
    requires Plain(current) || (lastLiteral && Last(current) == '\\' && Plain(current[..|current| - 1]))
    ensures Separate(current, lastLiteral) == Split([], current)
  {
    if !Plain(current) {
      IndexOfAfter(current[..|current| - 1], current[|current| - 1..], '\\');
      assert current == current[..|current| - 1] + current[|current| - 1..];
    } else {
      assert IndexOf(current, '\\') == -1;
    }
  }

  /** splitLabels: each backslash commits the current name and skips one character; a non-empty tail is kept. */
  method SplitLabels(raw: string) returns (list: seq<string>)
    ensures list == Labels(raw, false)
  {
    list := [];
    if |raw| == 0 {
      return;
    }
    var current := "";
    var i := 0;
    assert current + raw[i..] == raw;
    while i < |raw|
      invariant 0 <= i <= |raw| && Plain(current)
      invariant Separate(raw, false) == Prepend(list, Separate(current + raw[i..], false))
      decreases |raw| - i
    {
      if raw[i] == '\\' {
        SeparatorStep(list, current, raw, i, false);
        list := list + [current];
        current := "";
        i := Resume(raw, i);
      } else {
        CharacterStep(current, raw, i);
        current := current + [raw[i]];
        i := i + 1;
      }
    }
    Finish(list, current, raw, false);
    if |current| > 0 {
      list := list + [current];
    }
  }

  /** splitEscaped: as splitLabels, but a backslash in the last position is kept as a character. */
  method SplitEscaped(input: string) returns (parts: seq<string>)
    ensures parts == Labels(input, true)
  {
    parts := [];
    var current := "";
    var i := 0;
    assert current + input[i..] == input;
    while i < |input|
      invariant 0 <= i <= |input|
      invariant i < |input| ==> Plain(current)
      invariant i == |input| ==> Plain(current) || (Last(current) == '\\' && Plain(current[..|current| - 1]))
      invariant Separate(input, true) == Prepend(parts, Separate(current + input[i..], true))
      decreases |input| - i
    {
      if input[i] == '\\' && i + 1 < |input| {
        SeparatorStep(parts, current, input, i, true);
        parts := parts + [current];
        current := "";
        i := i + 2;
      } else {
        CharacterStep(current, input, i);
        assert (current + [input[i]])[..|current|] == current;
        current := current + [input[i]];
        i := i + 1;
      }
    }
    Finish(parts, current, input, true);
    if |current| > 0 {
      parts := parts + [current];
    }
  }

  lemma PrependTwice(a: seq<string>, b: seq<string>, sp: Split)
    ensures Prepend(a, Prepend(b, sp)) == Prepend(a + b, sp)
  {
    assert a + (b + sp.items) == (a + b) + sp.items;
  }

  function Last(s: string): char
    requires |s| > 0
  {
    s[|s| - 1]
  }
}
