/** The Slack message built from the answers (slack_app.py line 112). */
module Format {
  import opened PyStr
  import opened PyDict

  /** `f"Q: {q}\nA: {a}"`. */
  function Block(question: string, answer: string): (b: string)
    ensures |b| == |question| + |answer| + 7
  {
    "Q: " + question + "\nA: " + answer
  }

  /** A block is `Q: `, the question, a newline, `A: ` and the answer, in that order. */
  lemma BlockParts(question: string, answer: string)
    ensures var b := Block(question, answer);
            && b[..3] == "Q: " && b[3..3 + |question|] == question
            && b[3 + |question|..7 + |question|] == "\nA: " && b[7 + |question|..] == answer
  {
  }

  function Blocks(items: seq<(string, string)>): (blocks: seq<string>)
    ensures |blocks| == |items|
  {
    seq(|items|, i requires 0 <= i < |items| => Block(items[i].0, items[i].1))
  }

  /** `"\n".join(...)` of one block per dict entry, in the dict's order. */
  function FormatAnswers(answers: Dict<string, string>): (message: string)
    requires answers.Valid()
    ensures message == "" <==> answers.keys == []
  {
    var blocks := Blocks(answers.Items());
    assert blocks != [] ==> |blocks[0]| >= 3;
    Join("\n", blocks)
  }

  /** The lines a reader sees: a "Q: " line then an "A: " line for each entry. */
  function QALines(items: seq<(string, string)>): (lines: seq<string>)
    ensures |lines| == 2 * |items|
    ensures forall i :: 0 <= i < |items| ==>
              lines[2 * i] == "Q: " + items[i].0 && lines[2 * i + 1] == "A: " + items[i].1
  {
    if items == [] then []
    else
      var rest := QALines(items[1..]);
      var lines := ["Q: " + items[0].0, "A: " + items[0].1] + rest;
      assert forall i :: 1 <= i < |items| ==>
               lines[2 * i] == "Q: " + items[i].0 && lines[2 * i + 1] == "A: " + items[i].1 by {
        forall i | 1 <= i < |items|
          ensures lines[2 * i] == "Q: " + items[i].0 && lines[2 * i + 1] == "A: " + items[i].1
        {
          var m := i - 1;
          assert items[i] == items[1..][m];
          assert 2 * i == 2 * m + 2;
          assert lines[2 * m + 2] == rest[2 * m] && lines[2 * m + 3] == rest[2 * m + 1];
        }
      }
      lines
  }

  /** Joining `q + "\n" + a` in front of some parts reads as joining `q` and `a` in front of them. */
  lemma JoinTwoLines(q: string, a: string, blocks: seq<string>, lines: seq<string>)
    requires blocks == [] <==> lines == []
    requires Join("\n", blocks) == Join("\n", lines)
    ensures Join("\n", [q + "\n" + a] + blocks) == Join("\n", [q, a] + lines)
  {
    JoinCons("\n", q + "\n" + a, blocks);
    JoinCons("\n", a, lines);
    assert [q, a] + lines == [q] + ([a] + lines);
    JoinCons("\n", q, [a] + lines);
  }

  /**
   * The message is the newline join of one `Q: ` line and one `A: ` line per entry, in
   * the dict's order, whatever the questions and answers contain.
   */
  lemma FormatAsLines(answers: Dict<string, string>)
    requires answers.Valid()
    ensures FormatAnswers(answers) == Join("\n", QALines(answers.Items()))
  {
    if answers.keys != [] {
      BlocksAsLines(answers.Items());
    }
  }

  lemma {:induction false} BlocksAsLines(items: seq<(string, string)>)
    requires |items| > 0
    ensures Join("\n", Blocks(items)) == Join("\n", QALines(items))
    decreases |items|
  {
    var q, a := "Q: " + items[0].0, "A: " + items[0].1;
    var rest := items[1..];
    assert Blocks(items) == [q + "\n" + a] + Blocks(rest) by {
      assert Block(items[0].0, items[0].1) == q + "\n" + a;
    }
    assert QALines(items) == [q, a] + QALines(rest);
    if rest != [] {
      BlocksAsLines(rest);
    }
    JoinTwoLines(q, a, Blocks(rest), QALines(rest));
  }

  predicate NoNewlineIn(items: seq<(string, string)>) {
    forall i :: 0 <= i < |items| ==> '\n' !in items[i].0 && '\n' !in items[i].1
  }

  lemma PrefixedNoNewline(prefix: string, s: string)
    requires '\n' !in prefix && '\n' !in s
    ensures '\n' !in prefix + s
  {
    assert forall j :: 0 <= j < |prefix + s| ==> (prefix + s)[j] == if j < |prefix| then prefix[j] else s[j - |prefix|];
    assert forall j :: 0 <= j < |prefix| ==> prefix[j] in prefix;
    assert forall j :: 0 <= j < |s| ==> s[j] in s;
  }

  lemma {:induction false} QALinesNoNewline(items: seq<(string, string)>)
    requires NoNewlineIn(items)
    ensures forall j :: 0 <= j < |QALines(items)| ==> '\n' !in QALines(items)[j]
    decreases |items|
  {
    if items != [] {
      assert NoNewlineIn(items[1..]) by {
        assert forall i :: 0 <= i < |items| - 1 ==> items[1..][i] == items[i + 1];
      }
      QALinesNoNewline(items[1..]);
      PrefixedNoNewline("Q: ", items[0].0);
      PrefixedNoNewline("A: ", items[0].1);
      var lines := QALines(items);
      assert lines == ["Q: " + items[0].0, "A: " + items[0].1] + QALines(items[1..]);
    }
  }

  /**
   * When no question and no answer holds a newline, the message reads as exactly one
   * "Q: " line and one "A: " line per entry, in the dict's order, with no trailing line.
   */
  lemma MessageLines(answers: Dict<string, string>)
    requires answers.Valid() && answers.keys != []
    requires forall k :: k in answers.values ==> '\n' !in k && '\n' !in answers.values[k]
    ensures var lines := SplitLines(FormatAnswers(answers));
            var keys := answers.keys;
            |lines| == 2 * |keys|
            && forall i :: 0 <= i < |keys| ==>
                 lines[2 * i] == "Q: " + keys[i] && lines[2 * i + 1] == "A: " + answers.values[keys[i]]
  {
    var items := answers.Items();
    var lines := QALines(items);
    assert SplitLines(FormatAnswers(answers)) == lines by {
      assert NoNewlineIn(items);
      BlocksAsLines(items);
      QALinesNoNewline(items);
      SplitLinesJoin(lines);
    }
    forall i | 0 <= i < |answers.keys|
      ensures lines[2 * i] == "Q: " + answers.keys[i] && lines[2 * i + 1] == "A: " + answers.values[answers.keys[i]]
    {
      assert items[i] == (answers.keys[i], answers.values[answers.keys[i]]);
    }
  }
}
