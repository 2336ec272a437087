/**
 * The submit handler of the Streamlit page (slack_app.py lines 97-119): gate, parse,
 * extract, answer, format, post to the fixed channel, report.
 */
module App {
  import opened Wrappers
  import opened PyStr
  import opened PyDict
  import opened Questions
  import opened Answers
  import opened PdfText
  import opened Notifier
  import opened Format

  const ChannelName := "aiagent"
  const SuccessNote := "Answers posted to Slack!"

  /** What the page shows after the button is pressed. */
  datatype Status = NothingShown | SuccessShown(note: string) | ErrorShown(note: string)

  /**
   * One press of the Submit button. The file upload and the staging write are not
   * modelled; `pdf` is what the reader finds in the staged file.
   */
  method HandleSubmission(filePresent: bool, questionsInput: string, pdf: PdfSource,
                          complete: Oracle, listing: Listing, delivery: Delivery)
    returns (status: Status, requests: seq<Request>, posts: seq<Post>)
    ensures !ShouldProcess(filePresent, questionsInput) ==>
              status == NothingShown && requests == [] && posts == []
    ensures ShouldProcess(filePresent, questionsInput) && ExtractText(pdf).Failure? ==>
              status == ErrorShown("Error: " + ExtractText(pdf).error) && requests == [] && posts == []
    ensures ShouldProcess(filePresent, questionsInput) && ExtractText(pdf).Success? ==>
              var pdfText := ExtractText(pdf).value;
              var questions := ParseQuestions(questionsInput);
              var message := FormatAnswers(AnswersFor(pdfText, questions, complete));
              && status == SuccessShown(SuccessNote)
              && 1 <= |requests| == |questions|
              && (forall i :: 0 <= i < |questions| ==> requests[i] == RequestFor(pdfText, questions[i]))
              && (posts != [] <==> Destination(listing, ChannelName).Some?)
              && (posts != [] ==> posts == [Post(Destination(listing, ChannelName).value, message)])
  {
    status, requests, posts := NothingShown, [], [];
    if ShouldProcess(filePresent, questionsInput) {
      var questions := ParseQuestions(questionsInput);
      GateMeansQuestions(filePresent, questionsInput);
      assert |questions| >= 1;
      var extracted := ReadPdf(pdf);
      match extracted {
        case Failure(cause) =>
          status := ErrorShown("Error: " + cause);
        case Success(pdfText) =>
          requests, posts := AnswerAndPost(pdfText, questions, complete, listing, delivery);
          status := SuccessShown(SuccessNote);
      }
    }
  }

  /** The success path: answer every question, format the dict and post it. */
  method AnswerAndPost(pdfText: string, questions: seq<string>, complete: Oracle,
                       listing: Listing, delivery: Delivery)
    returns (requests: seq<Request>, posts: seq<Post>)
    ensures |requests| == |questions|
    ensures forall i :: 0 <= i < |questions| ==> requests[i] == RequestFor(pdfText, questions[i])
    ensures posts != [] <==> Destination(listing, ChannelName).Some?
    ensures posts != [] ==>
              posts == [Post(Destination(listing, ChannelName).value,
                             FormatAnswers(AnswersFor(pdfText, questions, complete)))]
  {
    var answers, sent := GenerateAnswers(pdfText, questions, complete);
    requests := sent;
    var message := FormatAnswers(answers);
    var outcome;
    posts, outcome := PostToSlack(ChannelName, message, listing, delivery);
  }

  lemma OneEntryMessage(d: Dict<string, string>, q: string, a: string)
    requires d.keys == [q] && d.values == map[q := a]
    ensures d.Valid() && FormatAnswers(d) == Block(q, a)
  {
    assert d.Items() == [(q, a)];
    assert Blocks([(q, a)]) == [Block(q, a)];
  }

  /** A single question gives a single entry, holding the answer to its call. */
  lemma SingleQuestion(pdfText: string, q: string, complete: Oracle)
    ensures var d := AnswersFor(pdfText, [q], complete);
            var a := AnswerOf(complete(0, RequestFor(pdfText, q)));
            d.keys == [q] && d.values == map[q := a] && FormatAnswers(d) == Block(q, a)
  {
    var d := AnswersFor(pdfText, [q], complete);
    var a := AnswerOf(complete(0, RequestFor(pdfText, q)));
    AnswersForLast(pdfText, [q], complete);
    assert [q][..0] == [];
    assert AnswersFor(pdfText, [], complete) == Empty();
    assert d.keys == [q] && d.values == map[q := a];
    OneEntryMessage(d, q, a);
  }

  /**
   * The worked example: one question about a one-line document, answered with one
   * candidate, gives a one-entry dict and a two-line message.
   */
  lemma RevenueExample(complete: Oracle)
    requires complete(0, RequestFor("Revenue was $5M in 2023.", "What was the revenue?"))
             == Choices(["The revenue was $5M."])
    ensures var d := AnswersFor("Revenue was $5M in 2023.", ["What was the revenue?"], complete);
            && d.keys == ["What was the revenue?"]
            && d.values == map["What was the revenue?" := "The revenue was $5M."]
            && FormatAnswers(d) == "Q: " + "What was the revenue?" + "\nA: " + "The revenue was $5M."
  {
    var q, a := "What was the revenue?", "The revenue was $5M.";
    assert IsStripped(a);
    assert AnswerOf(Choices([a])) == a;
    SingleQuestion("Revenue was $5M in 2023.", q, complete);
  }

  /** The same question asked twice gives one entry, holding the answer to the second call. */
  lemma RepeatedQuestionCollapses(pdfText: string, q: string, complete: Oracle)
    ensures var d := AnswersFor(pdfText, [q, q], complete);
            var a := AnswerOf(complete(1, RequestFor(pdfText, q)));
            d.keys == [q] && d.values == map[q := a] && FormatAnswers(d) == Block(q, a)
  {
    var d := AnswersFor(pdfText, [q, q], complete);
    var a := AnswerOf(complete(1, RequestFor(pdfText, q)));
    SingleQuestion(pdfText, q, complete);
    AnswersForLast(pdfText, [q, q], complete);
    assert [q, q][..1] == [q];
    assert d.keys == [q] && d.values == map[q := a];
    OneEntryMessage(d, q, a);
  }
}
