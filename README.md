# PDF Q&A to Slack — a Dafny model

`slack_app.py` is a small Streamlit page. A user uploads a PDF and types questions,
one per line. On Submit the page:

1. checks that a file is present and the questions text is not blank;
2. extracts the PDF's text page by page;
3. asks a completion model one question at a time, with the whole text in each prompt;
4. collects the answers in a dict keyed by question;
5. formats them as `Q: …` / `A: …` blocks joined by newlines;
6. posts the message to the Slack channel named `aiagent`, after looking its id up in the channel listing;
7. reports success or the error on the page.

The model is split into modules, each matching a part of the program:

| module | what it models |
|---|---|
| `PyStr` | the Python string operations the program relies on: `str.isspace`, `strip()`, `split("\n")` and `sep.join`, with Python's whitespace set |
| `PyDict` | a Python dict as a value: keys in insertion order, plus the key-to-value map; re-assigning a key keeps its place |
| `Questions` | the submit gate (line 98) and the question list comprehension (line 106) |
| `PdfText` | `read_pdf` (lines 34-44): a loop that appends each page's text and lets the first failure propagate |
| `Answers` | `generate_answers` (lines 47-61): a loop that sends one request per question and fills the dict |
| `Notifier` | `post_to_slack` (lines 64-83): channel lookup by name, one post, every exception caught and logged |
| `Format` | the message built at line 112 |
| `App` | the submit handler (lines 97-119) |

The loops of `read_pdf`, `generate_answers` and the channel lookup are modelled as methods with loops. Each method is proved equal to a specification function. The properties are lemmas about those functions.

Everything outside the program is an input:

- The completion service is an oracle. It maps the call number and the request to the reply. Because the call number is part of the input, a repeated question can get a different reply on each call, and the model can say which reply wins.
- The channel listing, the post acknowledgement and the PDF's pages are input values, each with its failure cases.
- Slack posts are returned as a sequence of recorded `Post` events.

## Model

| member | source | states |
|---|---|---|
| PyStr.IsSpace | slack_app.py:98 | the whitespace `str.isspace()` recognises, which `strip()` removes; every such code point lies between U+0009 and U+3000 |
| PyStr.IsSpaceAscii | slack_app.py:98 | within ASCII, whitespace is exactly space, tab, line feed, vertical tab, form feed, carriage return and 0x1C-0x1F |
| PyStr.SkipSpace | slack_app.py:106 | the scan behind `strip()`: every character it skips is whitespace, and it stops at the first non-whitespace character or at the end |
| PyStr.SkipSpaceBack | slack_app.py:106 | the backward scan behind `strip()`: everything it cuts from the end is whitespace, and the last character it keeps is not |
| PyStr.Strip | slack_app.py:98 | `strip()`: the result has no whitespace at either end; it is empty exactly when the text is all whitespace; a text with no outer whitespace is left unchanged |
| PyStr.StripRemovesOnlyOuterSpace | slack_app.py:106 | `strip()` keeps a contiguous slice of the text; everything before and after that slice is whitespace |
| PyStr.StripKeepsAbsence | slack_app.py:106 | a character absent from a line is absent from the stripped line, so stripping never introduces a newline |
| PyStr.StripIdempotent | slack_app.py:106 | stripping twice equals stripping once |
| PyStr.IndexOf | slack_app.py:106 | the position of the first occurrence of a character, or the length of the text when there is none |
| PyStr.IndexOfAt | slack_app.py:106 | in `p + t`, where `p` lacks the character and `t` starts with it, the first occurrence is right after `p` |
| PyStr.IndexOfIs | slack_app.py:106 | a position that holds the character, with no earlier occurrence, is the result of `IndexOf` |
| PyStr.SplitLines | slack_app.py:106 | `split("\n")` always gives at least one piece, and no piece contains a newline |
| PyStr.Join | slack_app.py:112 | `sep.join` of no parts is the empty string; the first part is a prefix of the result |
| PyStr.JoinCons | slack_app.py:112 | joining a part in front of others puts the separator between them, and no separator after a lone part |
| PyStr.JoinAppend | slack_app.py:40 | appending a part adds the separator and that part at the end |
| PyStr.JoinEmptyConcat | slack_app.py:38-41 | joining with the empty separator distributes over concatenation of the part lists |
| PyStr.JoinSplitLines | slack_app.py:106 | joining the pieces of `split("\n")` with newlines gives back the original text |
| PyStr.SplitLinesJoin | slack_app.py:106 | splitting a newline join of newline-free pieces gives back those pieces |
| PyStr.SplitLinesAfterLine | slack_app.py:106 | a newline-free line followed by a newline splits into that line followed by the lines of the rest |
| PyStr.SplitLinesFirstInside | slack_app.py:106 | when the first part already contains a newline, the first piece is cut inside it |
| PyStr.SplitLinesConcat | slack_app.py:106 | splitting `a + "\n" + b` gives the lines of `a` followed by the lines of `b` |
| PyDict.Dict.Set | slack_app.py:57 | `d[k] = v` keeps the dict well formed and maps `k` to `v`; a key already present keeps its position, and a new key is appended last |
| PyDict.Dict.Items | slack_app.py:112 | `d.items()` gives one pair per key, in insertion order; each pair holds the key and its current value |
| PyDict.Dict.ItemsCoverEntries | slack_app.py:112 | every entry of the dict appears among its items |
| PyDict.Empty | slack_app.py:48 | `{}` is a well-formed dict with no keys and no values |
| Questions.Clean | slack_app.py:106 | the comprehension keeps at most one question per line; each kept question is non-empty and stripped; if no line holds a newline, no question does |
| Questions.ParseQuestions | slack_app.py:106 | every parsed question is non-empty, stripped and on one line |
| Questions.ShouldProcess | slack_app.py:98 | the gate passes exactly when a file is present and the questions text is not all whitespace |
| Questions.CleanAppend | slack_app.py:106 | the comprehension distributes over concatenation of line lists |
| Questions.ParseSingleLine | slack_app.py:106 | a text without a newline yields its stripped self as the only question, or no question when it is blank |
| Questions.ParseConcat | slack_app.py:106 | parsing `a + "\n" + b` gives the questions of `a` followed by those of `b`, so questions keep their line order |
| Questions.CleanKeepsQuestions | slack_app.py:106 | lines that are already valid questions pass through the comprehension unchanged |
| Questions.ParseRoundTrip | slack_app.py:106 | writing valid questions one per line and parsing the text gives the same list back |
| Questions.CleanEmptyIffAllBlank | slack_app.py:106 | the comprehension yields nothing exactly when every line is whitespace only |
| Questions.AllSpaceAroundNewline | slack_app.py:98 | `a + "\n" + b` is all whitespace exactly when both `a` and `b` are |
| Questions.AllSpaceSplit | slack_app.py:98 | a text is all whitespace exactly when every piece of its `split("\n")` is |
| Questions.GateMeansQuestions | slack_app.py:98-106 | the gate passes exactly when a file is present and parsing yields at least one question, in both directions |
| PdfText.ExtractText | slack_app.py:34-44 | what `read_pdf` returns or raises: the open or read error for an unreadable file; for a readable one, a text exactly when every page extracts |
| PdfText.ErrorComesFromFirstFailingPage | slack_app.py:39-44 | the error raised for a readable document is the error of one of its pages, and every page before that one was extracted |
| PdfText.PageTexts | slack_app.py:39-40 | one text per page, in page order |
| PdfText.FirstFailure | slack_app.py:39-44 | the first page whose extraction raises; every page before it was extracted |
| PdfText.FirstFailureAt | slack_app.py:39-44 | a failing page whose predecessors all succeeded is the first failure |
| PdfText.PageTextsAppend | slack_app.py:39-40 | extracting one more page appends its text to the list of page texts |
| PdfText.ReadPdf | slack_app.py:34-44 | the loop's result equals `ExtractText`: the reader's error for an unreadable file, the concatenated page texts when every page extracts, and otherwise the error of the first failing page |
| PdfText.NoPagesGiveEmptyText | slack_app.py:38-41 | a document with no pages gives the empty text, not an error |
| PdfText.TextFollowsPageOrder | slack_app.py:39-40 | the text of `a + b` is the text of `a` followed by the text of `b` |
| Answers.RequestFor | slack_app.py:51-55 | each request names model `gpt-3.5-turbo-0125` with a limit of 150 tokens; its prompt is exactly as long as the instruction, the document text, the separator and the question together |
| Answers.RequestCarriesTextAndQuestion | slack_app.py:53 | the prompt is the fixed instruction, then the whole document text, then the `\n\nQuestion: ` separator, then the question, with nothing else in between |
| Answers.AnswerOf | slack_app.py:56-60 | the entry for a reply is always a stripped text; a failed call gives `Data Not Available`; any other entry is the first candidate stripped |
| Answers.RequestsForStep | slack_app.py:49-55 | handling question `i` appends its request to the requests sent for the first `i` questions |
| Answers.RequestsForEach | slack_app.py:49-55 | one request per question, the i-th built from the document text and the i-th question |
| Answers.AnswersFor | slack_app.py:47-61 | the dict is well formed, and its keys are exactly the questions asked |
| Answers.AnswersForStep | slack_app.py:49-60 | handling question `i` updates the dict of the first `i` questions with that question's answer |
| Answers.AnswersForLast | slack_app.py:49-60 | the dict for a non-empty list is the dict for all but the last question, updated by the last |
| Answers.AskOne | slack_app.py:50-60 | one pass of the loop body: the request for the question; the entry is `Data Not Available` when the call raised or returned no candidate, and otherwise the first candidate stripped |
| Answers.GenerateAnswers | slack_app.py:47-61 | the loop's dict equals `AnswersFor`, with one request per question, in order, each built from the text and that question |
| Answers.FirstIndex | slack_app.py:57 | the first position of an element in a list |
| Answers.LastIndex | slack_app.py:57 | the last position of an element in a list |
| Answers.FirstIndexInPrefix | slack_app.py:57 | an element's first position in a list is its first position in any prefix that contains it |
| Answers.OrderExtendsToLongerList | slack_app.py:57 | first-appearance order with respect to a prefix still holds for the whole list |
| Answers.OrderAppendNewQuestion | slack_app.py:57 | appending a question not seen before, as a new last key, keeps first-appearance order |
| Answers.KeysInFirstAppearanceOrder | slack_app.py:48-57 | the dict's keys are the distinct questions in the order each first appears |
| Answers.ValueFromLastOccurrence | slack_app.py:57-60 | a repeated question's entry comes from the reply to its last call |
| Answers.EntryForQuestion | slack_app.py:56-60 | each asked question has an entry: `Data Not Available` when its last call raised or returned no candidate, otherwise the first candidate stripped |
| Answers.KeysIndependentOfReplies | slack_app.py:57-60 | which keys the dict has and their order do not depend on the replies |
| Answers.FailureIsolation | slack_app.py:58-60 | changing only the i-th reply, a failure included, leaves the keys and every other question's entry unchanged |
| Answers.DistinctCount | slack_app.py:57 | a list without repeats has as many elements as its set |
| Answers.EntryCount | slack_app.py:48-57 | the dict has one entry per distinct question |
| Notifier.NotFoundReason | slack_app.py:75 | the not-found error text quotes the channel name and adds 21 fixed characters around it |
| Notifier.Resolve | slack_app.py:67-72 | no id exactly when no channel has the name; otherwise the id of a channel with the name that no earlier channel shares |
| Notifier.Destination | slack_app.py:67-75 | no destination when the listing call raised; a destination is the resolved id and is never empty; with a listing but no destination, the lookup found nothing or an empty id |
| Notifier.FirstMatch | slack_app.py:69-72 | the index of the first channel carrying the name, or none when no channel does |
| Notifier.ResolveChannel | slack_app.py:67-72 | the loop's channel id equals `Resolve`; it examines channels up to and including the first match, and all of them when there is no match |
| Notifier.FirstMatchIs | slack_app.py:69-72 | a matching channel with no match before it is the first match |
| Notifier.FirstMatchNone | slack_app.py:69-72 | with no channel of that name there is no match |
| Notifier.PostToSlack | slack_app.py:64-83 | at most one post; a post happens exactly when the listing succeeded and the first channel with the name has a non-empty id; the post goes to that id with the message; the outcome records the handler that caught the error: a Slack API error's code, the not-found error, or another error's reason |
| Notifier.DestinationIsFirstMatch | slack_app.py:67-75 | the message goes to `id` exactly when the first channel with the name has that id and the id is not empty |
| Notifier.LaterChannelsIrrelevant | slack_app.py:69-72 | channels listed after the first match do not affect the result |
| Format.Block | slack_app.py:112 | a block is 7 characters longer than its question and answer together |
| Format.BlockParts | slack_app.py:112 | a block is `Q: `, the question, a newline, `A: ` and the answer, in that order |
| Format.JoinTwoLines | slack_app.py:112 | a block `q + "\n" + a` joined in front of other parts reads as the two lines `q` and `a` joined in front of the matching lines |
| Format.Blocks | slack_app.py:112 | one block per dict item |
| Format.FormatAnswers | slack_app.py:112 | the message is empty exactly when the dict is empty |
| Format.QALines | slack_app.py:112 | for each entry in order, a `Q: ` line followed by an `A: ` line |
| Format.FormatAsLines | slack_app.py:112 | for every well-formed dict, the message is the newline join of a `Q: ` line and an `A: ` line per entry, in dict order, even when questions or answers span several lines |
| Format.BlocksAsLines | slack_app.py:112 | joining the blocks with newlines gives the same text as joining the `Q:`/`A:` lines |
| Format.PrefixedNoNewline | slack_app.py:112 | adding a newline-free prefix to a newline-free text keeps it newline-free |
| Format.QALinesNoNewline | slack_app.py:112 | when no question or answer contains a newline, no line of the message does |
| Format.MessageLines | slack_app.py:112 | when no question or answer contains a newline, the message reads as exactly two lines per entry, `Q: question` then `A: answer`, in dict order, with no extra line |
| App.HandleSubmission | slack_app.py:97-119 | no file or a blank text: nothing is shown, requested or posted; an extraction error: `Error: ` plus the cause is shown, and nothing is requested or posted; otherwise: one request per parsed question (at least one), the formatted dict posted at most once to the `aiagent` destination, and the success note shown whether or not the post got through |
| App.AnswerAndPost | slack_app.py:109-115 | the success path asks once per question, in order, and posts the formatted answers exactly when a destination exists |
| App.OneEntryMessage | slack_app.py:112 | a one-entry dict formats as that entry's single block |
| App.SingleQuestion | slack_app.py:47-61 | a single question gives one entry, holding the answer to call 0, and a one-block message |
| App.RevenueExample | slack_app.py:47-61 | the worked example: the question `What was the revenue?`, answered `The revenue was $5M.`, gives one entry and the message `Q: What was the revenue?` newline `A: The revenue was $5M.` |
| App.RepeatedQuestionCollapses | slack_app.py:49-57 | asking the same question twice gives one entry, holding the reply to the second call |

## Left out

- The Streamlit page itself (title, uploader, text area, button) is not modelled. Its inputs become the parameters of `HandleSubmission`: whether a file is present, and the questions text.
- Loading the environment and credentials, and the start-up `ValueError`s (lines 11-31), are not modelled. Neither is the Slack webhook URL, which the program reads but never uses.
- Writing the upload to `uploaded_pdf.pdf` (lines 101-105) is not modelled, and neither is the race between two sessions sharing that file. The reader's view of the staged file is the `PdfSource` input.
- PyPDF2's parsing is not modelled. A page either yields a text or raises, as an input value. A page whose `extract_text()` returns `None` is covered by the raising case, because `+=` on `None` raises.
- The OpenAI and Slack calls are inputs: the completion oracle, the `Listing` and the `Delivery`. The network, time-outs and retries are not modelled.
- Logging is kept only as the `Outcome` tag of `PostToSlack`. The log lines in `read_pdf` and `generate_answers` are not modelled.
- Notifier.PostToSlack: a channel record without a `name` or `id` field (a `KeyError`, which the catch-all handler would log) is not modelled. Every listed channel has both fields.
- App.RevenueExample: the message is stated as the concatenation of its literal pieces, `"Q: " + q + "\nA: " + a`, rather than as one literal.
- `Error: {e}` shows the exception's text. The model carries that text as the cause string of the failure.
- `Strip` handles whitespace by code point, as `str.isspace` does. Nothing else about Unicode is modelled.
- An invalid submission (no file, or blank questions) shows nothing, because line 98 has no `else` branch. `HandleSubmission` returns `NothingShown` in that case.
