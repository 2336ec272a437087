/**
 * Answer generation (`generate_answers`, slack_app.py lines 47-61): one completion
 * request per question, each answer stored in an insertion-ordered dict.
 */
module Answers {
  import opened PyStr
  import opened PyDict

  const Engine := "gpt-3.5-turbo-0125"
  const MaxTokens := 150
  const Sentinel := "Data Not Available"
  const PromptHead := "Answer the following question based on the provided text:\n\nText: "
  const PromptMid := "\n\nQuestion: "

  /** One completion request as the program builds it. */
  datatype Request = Request(engine: string, prompt: string, maxTokens: nat)

  /**
   * What one completion call comes back with: an exception of any kind (network,
   * malformed response, ...) or the list of candidate texts, possibly empty.
   */
  datatype Completion = Failed(reason: string) | Choices(texts: seq<string>)

  /** The completion service: the reply to the n-th call (from 0) carrying a request. */
  type Oracle = (nat, Request) -> Completion

  /**
   * The request sent for one question: the fixed model and length bound, and a
   * prompt as long as the instruction, the document text and the question together.
   */
  function RequestFor(pdfText: string, question: string): (r: Request)
    ensures r.engine == Engine && r.maxTokens == MaxTokens
    ensures |r.prompt| == |PromptHead| + |pdfText| + |PromptMid| + |question|
  {
    Request(Engine, PromptHead + pdfText + PromptMid + question, MaxTokens)
  }

  /**
   * The prompt starts with the fixed instruction, carries the whole document text
   * right after it, and ends with the question.
   */
  lemma RequestCarriesTextAndQuestion(pdfText: string, question: string)
    ensures var p := RequestFor(pdfText, question).prompt;
            && p[..|PromptHead|] == PromptHead
            && p[|PromptHead|..|PromptHead| + |pdfText|] == pdfText
            && p[|PromptHead| + |pdfText|..|p| - |question|] == PromptMid
            && p[|p| - |question|..] == question
  {
    var p := RequestFor(pdfText, question).prompt;
    assert p == PromptHead + (pdfText + (PromptMid + question));
  }

  /**
   * The dict entry a reply produces (the `try` body and its `except` branch): the
   * first candidate stripped, or the sentinel. Either way it is a stripped text.
   */
  function AnswerOf(c: Completion): (a: string)
    ensures IsStripped(a)
    ensures c.Failed? ==> a == Sentinel
    ensures a != Sentinel ==> c.Choices? && c.texts != [] && a == Strip(c.texts[0])
  {
    match c
    case Failed(_) => Sentinel
    case Choices(texts) => if |texts| > 0 then Strip(texts[0]) else Sentinel
  }

  /**
   * The dict `generate_answers` returns for the questions, the call for `questions[n]`
   * being the n-th completion call.
   */
  function AnswersFor(pdfText: string, questions: seq<string>, complete: Oracle): (d: Dict<string, string>)
    ensures d.Valid()
    ensures forall q :: q in d.values <==> q in questions
    decreases |questions|
  {
    if questions == [] then Empty()
    else
      var n := |questions| - 1;
      var earlier := AnswersFor(pdfText, questions[..n], complete);
      assert forall q :: q in questions <==> q in questions[..n] || q == questions[n] by {
        assert questions == questions[..n] + [questions[n]];
      }
      earlier.Set(questions[n], AnswerOf(complete(n, RequestFor(pdfText, questions[n]))))
  }

  lemma AnswersForStep(pdfText: string, questions: seq<string>, complete: Oracle, i: nat)
    requires i < |questions|
    ensures AnswersFor(pdfText, questions[..i + 1], complete)
            == AnswersFor(pdfText, questions[..i], complete).Set(
                 questions[i], AnswerOf(complete(i, RequestFor(pdfText, questions[i]))))
  {
    assert questions[..i + 1][..i] == questions[..i];
    assert questions[..i + 1][i] == questions[i];
  }

  /** The dict for a non-empty list is the dict for all but the last question, updated by the last one. */
  lemma AnswersForLast(pdfText: string, questions: seq<string>, complete: Oracle)
    requires questions != []
    ensures var n := |questions| - 1;
            AnswersFor(pdfText, questions, complete)
            == AnswersFor(pdfText, questions[..n], complete).Set(
                 questions[n], AnswerOf(complete(n, RequestFor(pdfText, questions[n]))))
  {
  }

  /**
   * One pass of the loop body: build the request for the question and make the
   * n-th call. A reply with candidates gives the first one stripped; a reply with
   * none gives the sentinel, and so does the `except` branch for a failed call.
   */
  method AskOne(pdfText: string, question: string, n: nat, complete: Oracle)
    returns (request: Request, answer: string)
    ensures request == RequestFor(pdfText, question)
    ensures var reply := complete(n, request);
            (reply.Failed? || reply.texts == []) ==> answer == Sentinel
    ensures var reply := complete(n, request);
            reply.Choices? && reply.texts != [] ==> answer == Strip(reply.texts[0])
    ensures answer == AnswerOf(complete(n, request))
  {
    request := RequestFor(pdfText, question);
    var response := complete(n, request);
    answer := AnswerOf(response);
  }

  /** The requests sent for the questions, in order. */
  function RequestsFor(pdfText: string, questions: seq<string>): seq<Request>
    decreases |questions|
  {
    if questions == [] then []
    else
      var n := |questions| - 1;
      RequestsFor(pdfText, questions[..n]) + [RequestFor(pdfText, questions[n])]
  }

  lemma RequestsForStep(pdfText: string, questions: seq<string>, i: nat)
    requires i < |questions|
    ensures RequestsFor(pdfText, questions[..i + 1])
            == RequestsFor(pdfText, questions[..i]) + [RequestFor(pdfText, questions[i])]
  {
    assert questions[..i + 1][..i] == questions[..i];
    assert questions[..i + 1][i] == questions[i];
  }

  /** One request per question, the i-th built from the document text and the i-th question. */
  lemma {:induction false} RequestsForEach(pdfText: string, questions: seq<string>)
    ensures |RequestsFor(pdfText, questions)| == |questions|
    ensures forall i :: 0 <= i < |questions| ==>
              RequestsFor(pdfText, questions)[i] == RequestFor(pdfText, questions[i])
    decreases |questions|
  {
    if questions != [] {
      var n := |questions| - 1;
      RequestsForEach(pdfText, questions[..n]);
      assert forall i :: 0 <= i < n ==> questions[..n][i] == questions[i];
    }
  }

  /** `generate_answers`: asks once per question, in order, and fills the dict. */
  method GenerateAnswers(pdfText: string, questions: seq<string>, complete: Oracle)
    returns (answers: Dict<string, string>, sent: seq<Request>)
    ensures answers == AnswersFor(pdfText, questions, complete)
    ensures |sent| == |questions|
    ensures forall i :: 0 <= i < |questions| ==> sent[i] == RequestFor(pdfText, questions[i])
  {
    answers := Empty();
    sent := [];
    for i := 0 to |questions|
      invariant answers == AnswersFor(pdfText, questions[..i], complete)
      invariant sent == RequestsFor(pdfText, questions[..i])
    {
      var request, answer := AskOne(pdfText, questions[i], i, complete);
      AnswersForStep(pdfText, questions, complete, i);
      RequestsForStep(pdfText, questions, i);
      answers := answers.Set(questions[i], answer);
      sent := sent + [request];
    }
    assert questions[..|questions|] == questions;
    RequestsForEach(pdfText, questions);
  }

  function FirstIndex<T(==)>(s: seq<T>, x: T): (i: nat)
    requires x in s
    ensures i < |s| && s[i] == x
    ensures forall j :: 0 <= j < i ==> s[j] != x
  {
    if s[0] == x then 0 else 1 + FirstIndex(s[1..], x)
  }

  function LastIndex<T(==)>(s: seq<T>, x: T): (i: nat)
    requires x in s
    ensures i < |s| && s[i] == x
    ensures forall j :: i < j < |s| ==> s[j] != x
  {
    var n := |s| - 1;
    if s[n] == x then n
    else
      assert x in s[..n] by { var k :| 0 <= k < |s| && s[k] == x; assert s[..n][k] == x; }
      LastIndex(s[..n], x)
  }

  lemma FirstIndexInPrefix<T>(s: seq<T>, n: nat, x: T)
    requires n <= |s| && x in s[..n]
    ensures x in s && FirstIndex(s, x) == FirstIndex(s[..n], x)
  {
    var k := FirstIndex(s[..n], x);
    assert s[k] == x;
    assert forall j :: 0 <= j < k ==> s[j] == s[..n][j];
  }

  /** `keys` lists questions of `qs` ordered by where each first appears in `qs`. */
  ghost predicate InFirstAppearanceOrder(keys: seq<string>, qs: seq<string>) {
    && (forall k :: k in keys ==> k in qs)
    && forall i, j :: 0 <= i < j < |keys| ==>
         keys[i] in qs && keys[j] in qs && FirstIndex(qs, keys[i]) < FirstIndex(qs, keys[j])
  }

  lemma OrderExtendsToLongerList(keys: seq<string>, qs: seq<string>, n: nat)
    requires n <= |qs|
    requires InFirstAppearanceOrder(keys, qs[..n])
    ensures InFirstAppearanceOrder(keys, qs)
  {
    forall k | k in keys ensures k in qs && FirstIndex(qs, k) == FirstIndex(qs[..n], k) {
      FirstIndexInPrefix(qs, n, k);
    }
    forall i, j | 0 <= i < j < |keys|
      ensures FirstIndex(qs, keys[i]) < FirstIndex(qs, keys[j])
    {
      assert keys[i] in keys && keys[j] in keys;
    }
  }

  lemma OrderAppendNewQuestion(keys: seq<string>, qs: seq<string>)
    requires |qs| > 0
    requires InFirstAppearanceOrder(keys, qs[..|qs| - 1])
    requires qs[|qs| - 1] !in qs[..|qs| - 1]
    ensures InFirstAppearanceOrder(keys + [qs[|qs| - 1]], qs)
  {
    var n := |qs| - 1;
    var x := qs[n];
    OrderExtendsToLongerList(keys, qs, n);
    assert FirstIndex(qs, x) == n by {
      assert forall j :: 0 <= j < n ==> qs[j] == qs[..n][j];
    }
    forall k | k in keys ensures FirstIndex(qs, k) < n {
      FirstIndexInPrefix(qs, n, k);
    }
    var keys' := keys + [x];
    forall i, j | 0 <= i < j < |keys'|
      ensures FirstIndex(qs, keys'[i]) < FirstIndex(qs, keys'[j])
    {
      assert keys'[i] == keys[i] && keys[i] in keys;
      if j < |keys| {
        assert keys'[j] == keys[j];
      }
    }
  }

  /** The keys are the distinct questions in the order of their first appearance. */
  lemma {:induction false} KeysInFirstAppearanceOrder(pdfText: string, questions: seq<string>, complete: Oracle)
    ensures InFirstAppearanceOrder(AnswersFor(pdfText, questions, complete).keys, questions)
    decreases |questions|
  {
    if questions != [] {
      var n := |questions| - 1;
      var p := questions[..n];
      var earlier := AnswersFor(pdfText, p, complete);
      KeysInFirstAppearanceOrder(pdfText, p, complete);
      if questions[n] in earlier.values {
        OrderExtendsToLongerList(earlier.keys, questions, n);
      } else {
        OrderAppendNewQuestion(earlier.keys, questions);
      }
    }
  }

  /** Each answer comes from the reply to the LAST call made for its question. */
  lemma {:induction false} ValueFromLastOccurrence(pdfText: string, questions: seq<string>, complete: Oracle)
    ensures var d := AnswersFor(pdfText, questions, complete);
            forall q :: q in d.values ==>
              d.values[q] == AnswerOf(complete(LastIndex(questions, q), RequestFor(pdfText, q)))
    decreases |questions|
  {
    if questions != [] {
      var n := |questions| - 1;
      ValueFromLastOccurrence(pdfText, questions[..n], complete);
    }
  }

  /**
   * The entry for a question: the sentinel when its call failed or brought back no
   * candidate, and otherwise the first candidate with whitespace stripped.
   */
  lemma EntryForQuestion(pdfText: string, questions: seq<string>, complete: Oracle, q: string)
    requires q in questions
    ensures var d := AnswersFor(pdfText, questions, complete);
            var reply := complete(LastIndex(questions, q), RequestFor(pdfText, q));
            q in d.values
            && ((reply.Failed? || reply.texts == []) ==> d.values[q] == Sentinel)
            && (reply.Choices? && reply.texts != [] ==> d.values[q] == Strip(reply.texts[0]))
  {
    ValueFromLastOccurrence(pdfText, questions, complete);
  }

  /** Which questions end up as keys depends on the questions alone. */
  lemma {:induction false} KeysIndependentOfReplies(pdfText: string, questions: seq<string>, c1: Oracle, c2: Oracle)
    ensures AnswersFor(pdfText, questions, c1).keys == AnswersFor(pdfText, questions, c2).keys
    decreases |questions|
  {
    if questions != [] {
      KeysIndependentOfReplies(pdfText, questions[..|questions| - 1], c1, c2);
    }
  }

  /**
   * Failure isolation: whatever the i-th call comes back with (a failure included),
   * the keys and every other question's entry stay the same.
   */
  lemma FailureIsolation(pdfText: string, questions: seq<string>, c1: Oracle, c2: Oracle, i: nat)
    requires i < |questions|
    requires forall n, r :: n != i ==> c1(n, r) == c2(n, r)
    ensures var d1 := AnswersFor(pdfText, questions, c1);
            var d2 := AnswersFor(pdfText, questions, c2);
            d1.keys == d2.keys
            && forall q :: q in d1.values && q != questions[i] ==> q in d2.values && d1.values[q] == d2.values[q]
  {
    KeysIndependentOfReplies(pdfText, questions, c1, c2);
    ValueFromLastOccurrence(pdfText, questions, c1);
    ValueFromLastOccurrence(pdfText, questions, c2);
  }

  lemma {:induction false} DistinctCount<T>(s: seq<T>)
    requires forall i, j :: 0 <= i < j < |s| ==> s[i] != s[j]
    ensures |set x | x in s| == |s|
    decreases |s|
  {
    if s != [] {
      var n := |s| - 1;
      DistinctCount(s[..n]);
      assert (set x | x in s) == (set x | x in s[..n]) + {s[n]} by {
        assert s == s[..n] + [s[n]];
      }
      assert s[n] !in s[..n];
    }
  }

  /** The dict has one entry per distinct question. */
  lemma EntryCount(pdfText: string, questions: seq<string>, complete: Oracle)
    ensures |AnswersFor(pdfText, questions, complete).keys| == |set q | q in questions|
  {
    var d := AnswersFor(pdfText, questions, complete);
    DistinctCount(d.keys);
    assert (set q | q in d.keys) == (set q | q in questions);
  }
}
