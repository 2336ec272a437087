/**
 * The submission gate and the parsing of the questions text block
 * (slack_app.py lines 98 and 106).
 */
module Questions {
  import opened PyStr

  /** A question as the parser hands it on: non-empty, stripped, on one line. */
  predicate IsQuestion(q: string) {
    q != "" && IsStripped(q) && '\n' !in q
  }

  /** `[l.strip() for l in lines if l.strip()]`. */
  function Clean(lines: seq<string>): (qs: seq<string>)
    ensures |qs| <= |lines|
    ensures forall i :: 0 <= i < |qs| ==> qs[i] != "" && IsStripped(qs[i])
    ensures (forall i :: 0 <= i < |lines| ==> '\n' !in lines[i]) ==>
              forall i :: 0 <= i < |qs| ==> '\n' !in qs[i]
  {
    if lines == [] then []
    else
      var q := Strip(lines[0]);
      StripKeepsAbsence(lines[0], '\n');
      if q == "" then Clean(lines[1..]) else [q] + Clean(lines[1..])
  }

  /** The question list built from the text area: one question per non-blank line. */
  function ParseQuestions(input: string): (qs: seq<string>)
    ensures forall i :: 0 <= i < |qs| ==> IsQuestion(qs[i])
  {
    Clean(SplitLines(input))
  }

  /** The submit handler does any work only with a file and a questions text that is not blank. */
  predicate ShouldProcess(filePresent: bool, questionsInput: string): (b: bool)
    ensures b <==> filePresent && !AllSpace(questionsInput)
  {
    filePresent && Strip(questionsInput) != ""
  }

  lemma {:induction false} CleanAppend(a: seq<string>, b: seq<string>)
    ensures Clean(a + b) == Clean(a) + Clean(b)
    decreases |a|
  {
    if a == [] {
      assert a + b == b;
    } else {
      assert (a + b)[0] == a[0];
      assert (a + b)[1..] == a[1..] + b;
      CleanAppend(a[1..], b);
    }
  }

  /** A text holding no newline yields its stripped self as the only question, or none when blank. */
  lemma ParseSingleLine(line: string)
    requires '\n' !in line
    ensures ParseQuestions(line) == if Strip(line) == "" then [] else [Strip(line)]
  {
    SplitLinesJoin([line]);
  }

  /**
   * Cutting the text at a newline cuts the question list at the same place:
   * questions keep the order of their lines.
   */
  lemma ParseConcat(a: string, b: string)
    ensures ParseQuestions(a + "\n" + b) == ParseQuestions(a) + ParseQuestions(b)
  {
    SplitLinesConcat(a, b);
    CleanAppend(SplitLines(a), SplitLines(b));
  }

  lemma {:induction false} CleanKeepsQuestions(qs: seq<string>)
    requires forall i :: 0 <= i < |qs| ==> IsQuestion(qs[i])
    ensures Clean(qs) == qs
    decreases |qs|
  {
    if qs != [] {
      CleanKeepsQuestions(qs[1..]);
    }
  }

  /** Writing questions one per line and parsing the text gives the same questions back. */
  lemma ParseRoundTrip(qs: seq<string>)
    requires forall i :: 0 <= i < |qs| ==> IsQuestion(qs[i])
    ensures ParseQuestions(Join("\n", qs)) == qs
  {
    if qs == [] {
      assert SplitLines("") == [""];
    } else {
      SplitLinesJoin(qs);
      CleanKeepsQuestions(qs);
    }
  }

  predicate AllBlank(lines: seq<string>) {
    forall i :: 0 <= i < |lines| ==> AllSpace(lines[i])
  }

  lemma {:induction false} CleanEmptyIffAllBlank(lines: seq<string>)
    ensures Clean(lines) == [] <==> AllBlank(lines)
    decreases |lines|
  {
    if lines != [] {
      CleanEmptyIffAllBlank(lines[1..]);
      assert forall i :: 1 <= i < |lines| ==> lines[i] == lines[1..][i - 1];
    }
  }

  lemma AllSpaceAroundNewline(a: string, b: string)
    ensures AllSpace(a + "\n" + b) <==> AllSpace(a) && AllSpace(b)
  {
    var s := a + "\n" + b;
    assert IsSpace('\n');
    assert forall j :: 0 <= j < |a| ==> s[j] == a[j];
    assert forall j :: 0 <= j < |b| ==> s[|a| + 1 + j] == b[j];
    assert forall j :: 0 <= j < |s| ==> j < |a| || j == |a| || s[j] == b[j - |a| - 1];
  }

  lemma {:induction false} AllSpaceSplit(s: string)
    ensures AllSpace(s) <==> AllBlank(SplitLines(s))
    decreases |s|
  {
    var k := IndexOf(s, '\n');
    if k < |s| {
      var a, b := s[..k], s[k + 1..];
      AllSpaceSplit(b);
      assert s == a + "\n" + b;
      AllSpaceAroundNewline(a, b);
      var rest := SplitLines(b);
      var lines := SplitLines(s);
      assert lines == [a] + rest;
      assert AllBlank(lines) <==> AllSpace(a) && AllBlank(rest) by {
        assert lines[0] == a;
        assert forall i :: 0 <= i < |rest| ==> lines[i + 1] == rest[i];
      }
    } else {
      assert SplitLines(s) == [s];
      assert SplitLines(s)[0] == s;
    }
  }

  /**
   * The questions text is non-blank exactly when it yields at least one question, so
   * the gate lets a submission through exactly when there is a file and a question.
   */
  lemma GateMeansQuestions(filePresent: bool, questionsInput: string)
    ensures ShouldProcess(filePresent, questionsInput) <==>
              filePresent && ParseQuestions(questionsInput) != []
  {
    AllSpaceSplit(questionsInput);
    CleanEmptyIffAllBlank(SplitLines(questionsInput));
  }
}
