# PDF Q&A: client state and question routing

This project models the two cores of the PDF Q&A application.

**The client.** The React `App` component holds eight pieces of state:
`pdfFile`, `question`, `extractedText`, `errors`, `loading`, `answer`,
`previousAnswers` and `formattedText`. The model is the class
`App.AppState`, with one field per state hook. Four handlers change that
state:

- the file picker's `handleFileChange` (`FileUpload.HandleFileChange`);
- the question field's `handleQuestionChange` (`QuestionInput.HandleQuestionChange`);
- `handleSubmit`, split at its one `await`:
  - `BeginSubmit` runs validation, builds the request and sets `loading`;
  - `FinishSubmit` handles the answer or the failure, then the `finally`;
- `handleClear` (`Clear`).

Each handler runs as one atomic step. The submit button is disabled while
loading, so `BeginSubmit` requires `!loading`. `Valid()` is the invariant
every handler keeps:

- `extractedText` is always empty;
- a held file is always a PDF;
- `errors` uses only the keys `pdfFile`, `question` and `general`.

`Scenarios` drives the handlers through three short sessions.

**The backend.** `backend/app.py` routes a question in `ask_question`:

- 400 for a missing pdf or an empty question;
- otherwise a general question gets an overview of the whole text;
- otherwise a page-by-page question gets one answer per page;
- otherwise the first section relevant to the question's keywords is used, and 404 is returned when there is none or its content is empty.

A language-model call that raises gives 500. `Backend.AskQuestion`
dispatches to one method per branch. The supporting functions are modelled
as well: the keyword predicates, `extract_keywords`,
`find_relevant_section`, the section-pairing loop and the page numbering.

Python's dict is modelled by `PyDict` as the list its `items()` yields, in
insertion order. Assigning to a present key keeps its position and replaces
its value; a new key is appended.

The foreign pieces are parameters of the model:

- the page texts PyMuPDF extracts (`Upload.pageTexts`);
- NLTK's tokenizer (`tokenize`) and stopword set (`stopwords`);
- the `re.split` at headings (`splitHeadings`), whose result has odd length, as the split with one capture group has;
- the model call `client.predict` (`predict`); its `None` stands for an exception.

An upload whose file name is empty counts as missing, since werkzeug treats
it as false.

## Model

| member | source | states |
|---|---|---|
| Text.TrimStartSpec | frontend/src/App.jsx:35 | `trim` (and `strip`, on its own whitespace) drops exactly the leading whitespace: the part removed is blank and what is kept does not start with whitespace |
| Text.TrimEndSpec | frontend/src/App.jsx:35 | `trim` (and `strip`, on its own whitespace) drops exactly the trailing whitespace: the part removed is blank and what is kept does not end with whitespace |
| Text.TrimEmptyIffBlank | frontend/src/App.jsx:35 | `s.trim() === ''` holds if and only if every character of `s` is whitespace |
| Text.PythonStripsMore | backend/app.py:39-40 | Python's `strip` clears every string JavaScript's `trim` clears, and also clears U+001C, which `trim` keeps |
| Text.Lower | backend/app.py:64 | lower-casing keeps the length |
| Text.LowerAt | backend/app.py:64 | lower-casing maps each character on its own: capital ASCII letters to lower case, everything else to itself |
| Text.LowerIdempotent | backend/app.py:83 | lower-casing a lower-cased string changes nothing |
| Text.ContainsFromSpec | backend/app.py:83 | the scan from `start` succeeds if and only if the pattern occurs at some index at or after `start` |
| Text.ContainsSpec | backend/app.py:83 | `pattern in text` holds if and only if the pattern occurs contiguously somewhere in the text |
| Text.ContainsAny | backend/app.py:82-85 | the loop with early return is true if and only if some listed pattern is a substring of the text |
| PyDict.PutAppends | backend/app.py:41 | assigning to a key not yet present appends one entry at the end |
| PyDict.PutReplaces | backend/app.py:41 | assigning to a present key keeps the length and replaces that key's value in place, leaving every other entry as it was |
| PyDict.PutDistinct | backend/app.py:41 | assignment never produces a repeated key |
| PyDict.GetPut | backend/app.py:41 | after `d[k] = v`, `k` reads `v` and every other key reads as before |
| PyDict.KeysPut | backend/app.py:41 | after `d[k] = v` the key order is unchanged if `k` was present, and `k` is appended otherwise |
| PyDict.FromPairsDistinct | backend/app.py:37-41 | a dict filled by a loop of assignments has each key once |
| PyDict.FromPairsSnoc | backend/app.py:38-41 | one more loop step is one more assignment |
| PyDict.FromPairsGet | backend/app.py:38-41 | after the loop, each key reads as the value of its last pair: a later duplicate overwrites |
| PyDict.FromPairsKeys | backend/app.py:38-41 | after the loop the keys come in order of first occurrence: a duplicate keeps its first position |
| Backend.IsGeneralQuestion | backend/app.py:77-85 | true if and only if one of the seven general keywords is a substring of the lower-cased question |
| Backend.IsPageByPageQuestion | backend/app.py:87-95 | true if and only if one of the four page phrases is a substring of the lower-cased question |
| Backend.ClassificationIgnoresCase | backend/app.py:83 | lower-casing the question first changes neither classification |
| Backend.ExtractKeywords | backend/app.py:57-65 | there are never more keywords than tokens |
| Backend.ExtractKeywordsSpec | backend/app.py:64 | every keyword is lower case, longer than 2 and not a stopword; a word is a keyword if and only if some token passes the filter and lower-cases to it |
| Backend.ExtractKeywordsAppend | backend/app.py:64 | the filter works token by token: it distributes over concatenation, so token order is kept |
| Backend.RelevantSpec | backend/app.py:73 | a section is relevant if and only if some keyword is a substring of its lower-cased title or of its lower-cased content |
| Backend.FindRelevantFromSpec | backend/app.py:71-75 | the scan from `start` returns the first relevant section at or after `start`, and `None` if and only if there is none |
| Backend.FindRelevantSection | backend/app.py:67-75 | the result is the first relevant pair in insertion order; it is `(None, None)` if and only if no pair is relevant |
| Backend.NoKeywordsNoSection | backend/app.py:71-75 | with no keywords no section is found |
| Backend.PairsUpTo | backend/app.py:38 | the first `i` parts of the split hold `(i - 1) / 2` title-content pairs |
| Backend.PairsAt | backend/app.py:38-40 | pair `n` is the stripped title at position `2n + 1` with the stripped content after it |
| Backend.PairSections | backend/app.py:37-43 | the loop builds the dict that assigns the pairs in order |
| Backend.SectionTitleLastWins | backend/app.py:38-41 | a title maps to the stripped content that follows its last occurrence |
| Backend.PageOccursInJoin | backend/app.py:29-32 | each page's text appears in the joined text right after the text of the pages before it |
| Backend.PageTextInAllText | backend/app.py:110-118 | the context of a general question contains every page's text |
| Backend.ExtractAllText | backend/app.py:29-32 | the loop returns the concatenation of the page texts in page order |
| Backend.ExtractPdfSections | backend/app.py:24-43 | the sections are the pairs of the split of the joined text, assigned in order, each title once |
| Backend.ExtractTextByPage | backend/app.py:45-55 | one entry per page, in order, where page `i` (from 0) is numbered `i + 1` and carries its own text |
| Backend.DecimalStringSpec | backend/app.py:140 | the page number in the prompt is written in plain decimal: digits only, no leading zero, denoting the number |
| Backend.OverviewPrompt | backend/app.py:118 | the general system message starts with its request line and carries the whole text right after it |
| Backend.PagePrompt | backend/app.py:140 | the page system message carries the page number in decimal and, after it, the page's text |
| Backend.SectionPrompt | backend/app.py:169 | the section system message carries the section title and, after it, the section content |
| Backend.Provided | backend/app.py:100-103 | an upload counts as present only if there is one and its file name is not empty, as werkzeug's truth test has it |
| Backend.AnswerPageByPage | backend/app.py:132-152 | succeeds if and only if every page's model call succeeds; then there is one answer per page, in page order, each with its page number |
| Backend.StatusCode | backend/app.py:103-179 | 400 exactly for missing input, 404 exactly for no relevant section, 500 exactly for an exception, and 200 for every other reply |
| Backend.AnswerOverview | backend/app.py:107-125 | the overview is the model's answer to the question with the whole text as context, or a failure if the call raises |
| Backend.AnswerEachPage | backend/app.py:128-152 | either a failure, or one answer per page numbered from 1, the answers present exactly when every page's call succeeds |
| Backend.AnswerFromSections | backend/app.py:154-176 | 404 if and only if no section is relevant or the first relevant one has empty content; otherwise the answer for that section, or a failure if the call raises |
| Backend.AskQuestion | backend/app.py:97-179 | 400 if and only if the pdf or the question is missing; a general question is answered as such even when it also asks page by page; a page-by-page question gets per-page answers if and only if every page's call succeeds, and 500 otherwise; any other question gets 404 if and only if no section is relevant or the first relevant one is empty, and otherwise that section's answer, or 500 if the call raises; each kind of reply comes only from its own branch |
| App.SubmitErrors | frontend/src/App.jsx:26-38 | the `pdfFile` error exactly when no file is held and no text is extracted, the `question` error exactly when the question is blank, with their messages and no other key |
| App.AppState.UploadShown | frontend/src/App.jsx:109 | the file picker is shown in every reachable state |
| App.AppState.constructor | frontend/src/App.jsx:8-15 | the initial state is valid and cleared, and not loading |
| App.AppState.BeginSubmit | frontend/src/App.jsx:21-50 | errors are rebuilt from nothing by the two checks; a request is sent if and only if both pass, that is, a file is held and the question is not blank; it carries the file and the question; `loading` is set exactly when a request is sent; nothing else changes |
| App.AppState.FinishSubmit | frontend/src/App.jsx:53-74 | on success the answer and formatted text are stored, the history grows by (the question sent, the answer) and the question is emptied; on failure only the `general` error is set; `loading` is false on both paths |
| App.AppState.Clear | frontend/src/App.jsx:79-100 | every field but `loading` is back at its initial value |
| FileUpload.Selected | frontend/src/components/FileUpload.jsx:6 | the file of a change event is the first selected file, and there is none exactly when nothing was selected |
| FileUpload.Accepts | frontend/src/components/FileUpload.jsx:7 | a file is accepted only if there is one and its declared type is `application/pdf` |
| FileUpload.HandleFileChange | frontend/src/components/FileUpload.jsx:5-14 | a PDF is held and its error set to null; anything else, no file included, drops the held file and sets the invalid-file message; no other field or error key changes |
| QuestionInput.HandleQuestionChange | frontend/src/components/QuestionInput.jsx:5-13 | the raw input becomes the question; its error is null if the input has a non-whitespace character and the empty-question message otherwise; no other field or error key changes |

## Left out

- The HTTP layer: axios, FormData, Flask routing, CORS and `MAX_CONTENT_LENGTH`. The backend's answer reaches the client as `Success(formattedText, answer)` or `Failure`.
- Two mismatches between client and backend are noted here and not modelled. The backend never returns `formattedText`, and it needs the pdf on every call.
- `clear_state`: it uses a `saved_state` that is never defined, so every call fails. The client only logs the outcome of that call.
- PyMuPDF, `re.split`, NLTK and `client.predict` are parameters. A document that PyMuPDF cannot open, which gives 500, is not modelled.
- The model-call settings (`max_tokens`, `temperature`, `top_p`, `api_name`) and the constant `content` field of the overview reply.
- Whitespace and `lower` are modelled on ASCII only. `trim` removes the six ASCII whitespace characters; `strip` also removes U+001C to U+001F. Non-ASCII whitespace (such as U+00A0) and non-ASCII case mapping are not modelled.
- Logging, the `fileInputRef` reset of the file input and the `dangerouslySetInnerHTML` rendering of `formattedText`.
- Races between a pending submit and other handlers, and React's batching of updates. Each handler is one atomic step.
- The model follows the code:
  - the client's error key for the file is `pdfFile`;
  - a rejected file drops a PDF already held;
  - `extractedText` is never set to a non-empty value.
- The `not question` test of `ask_question` does not strip. A question of spaces only passes the 400 check.
