/**
 * Text extraction (`read_pdf`, slack_app.py lines 34-44): the page texts of the
 * document concatenated in page order; any failure of the reader is re-raised.
 */
module PdfText {
  import opened Wrappers
  import opened PyStr

  /** What extracting one page gives: its text, or the exception the reader raised. */
  datatype PageText = Extracted(text: string) | ExtractFailed(cause: string)

  /** The staged file as the PDF reader sees it: unreadable, or its pages in order. */
  datatype PdfSource = Unreadable(cause: string) | Pages(pages: seq<PageText>)

  predicate AllExtracted(pages: seq<PageText>) {
    forall i :: 0 <= i < |pages| ==> pages[i].Extracted?
  }

  function PageTexts(pages: seq<PageText>): (texts: seq<string>)
    requires AllExtracted(pages)
    ensures |texts| == |pages|
  {
    seq(|pages|, i requires 0 <= i < |pages| => pages[i].text)
  }

  /** Index of the first page whose extraction fails. */
  function FirstFailure(pages: seq<PageText>): (k: nat)
    requires !AllExtracted(pages)
    ensures k < |pages| && pages[k].ExtractFailed?
    ensures AllExtracted(pages[..k])
  {
    if pages[0].ExtractFailed? then 0
    else
      var k := FirstFailure(pages[1..]);
      assert pages[..k + 1] == [pages[0]] + pages[1..][..k];
      k + 1
  }

  /** What `read_pdf` returns or raises, as a value: `"".join` of the page texts, or the first failure. */
  function ExtractText(source: PdfSource): (r: Result<string, string>)
    ensures source.Unreadable? ==> r == Failure(source.cause)
    ensures source.Pages? ==> (r.Success? <==> AllExtracted(source.pages))
  {
    match source
    case Unreadable(cause) => Failure(cause)
    case Pages(pages) =>
      if AllExtracted(pages) then Success(Join("", PageTexts(pages)))
      else Failure(pages[FirstFailure(pages)].cause)
  }

  lemma FirstFailureAt(pages: seq<PageText>, i: nat)
    requires i < |pages| && pages[i].ExtractFailed? && AllExtracted(pages[..i])
    ensures !AllExtracted(pages) && FirstFailure(pages) == i
  {
    var k := FirstFailure(pages);
    assert forall j :: 0 <= j < i ==> pages[..i][j] == pages[j];
    assert forall j :: 0 <= j < k ==> pages[..k][j] == pages[j];
  }

  lemma PageTextsAppend(pages: seq<PageText>, i: nat)
    requires i < |pages| && pages[i].Extracted? && AllExtracted(pages[..i])
    ensures AllExtracted(pages[..i + 1])
    ensures PageTexts(pages[..i + 1]) == PageTexts(pages[..i]) + [pages[i].text]
  {
    assert pages[..i + 1] == pages[..i] + [pages[i]];
  }

  /** `read_pdf`: appends each page's text in turn; an exception ends the loop and propagates. */
  method ReadPdf(source: PdfSource) returns (r: Result<string, string>)
    ensures r == ExtractText(source)
  {
    match source {
      case Unreadable(cause) =>
        return Failure(cause);
      case Pages(pages) =>
        var text := "";
        for i := 0 to |pages|
          invariant AllExtracted(pages[..i])
          invariant text == Join("", PageTexts(pages[..i]))
        {
          match pages[i] {
            case ExtractFailed(cause) =>
              FirstFailureAt(pages, i);
              return Failure(cause);
            case Extracted(t) =>
              PageTextsAppend(pages, i);
              JoinAppend("", PageTexts(pages[..i]), t);
              text := text + t;
          }
        }
        assert pages[..|pages|] == pages;
        r := Success(text);
    }
  }

  /** An extraction error of a readable document is the error of a page, and every page before it was extracted. */
  lemma ErrorComesFromFirstFailingPage(pages: seq<PageText>)
    requires ExtractText(Pages(pages)).Failure?
    ensures exists i :: 0 <= i < |pages| && pages[i] == ExtractFailed(ExtractText(Pages(pages)).error)
                        && AllExtracted(pages[..i])
  {
    var i := FirstFailure(pages);
    assert pages[i] == ExtractFailed(ExtractText(Pages(pages)).error);
  }

  /** A document with no page gives the empty text, not an error. */
  lemma NoPagesGiveEmptyText()
    ensures ExtractText(Pages([])) == Success("")
  {
  }

  /** The text of a document is the text of its first pages followed by the text of the rest. */
  lemma TextFollowsPageOrder(a: seq<PageText>, b: seq<PageText>)
    requires AllExtracted(a) && AllExtracted(b)
    ensures AllExtracted(a + b)
    ensures Join("", PageTexts(a + b)) == Join("", PageTexts(a)) + Join("", PageTexts(b))
  {
    assert PageTexts(a + b) == PageTexts(a) + PageTexts(b);
    JoinEmptyConcat(PageTexts(a), PageTexts(b));
  }
}
