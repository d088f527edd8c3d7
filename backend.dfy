/**
 * The question-routing logic of the Flask backend (backend/app.py).
 *
 * The foreign pieces are parameters: the per-page text PyMuPDF extracts
 * (`Upload.pageTexts`), NLTK's tokenizer (`tokenize`) and stopword set
 * (`stopwords`), the heading split done by `re.split` (`splitHeadings`) and
 * the language-model call `client.predict` (`predict`, whose None stands for
 * an exception it raises).
 */
module Backend {
  import opened Wrappers
  import opened Text
  import opened PyDict

  // ---------------------------------------------------------------------------
  // Question classification

  const GeneralKeywords: seq<string> :=
    ["summarize", "overview", "general", "conclusion", "purpose", "about", "content"]

  const PageKeywords: seq<string> :=
    ["page by page", "each page", "analyze page", "go through pages"]

  /** `is_general_question`: some general keyword is a substring of the lower-cased question. */
  function IsGeneralQuestion(question: string): (r: bool)
    ensures r <==> exists k :: k in GeneralKeywords && Contains(Lower(question), k)
  {
    ContainsAny(Lower(question), GeneralKeywords)
  }

  /** `is_page_by_page_question`: some page phrase is a substring of the lower-cased question. */
  function IsPageByPageQuestion(question: string): (r: bool)
    ensures r <==> exists k :: k in PageKeywords && Contains(Lower(question), k)
  {
    ContainsAny(Lower(question), PageKeywords)
  }

  /** Both classifications ignore letter case. */
  lemma ClassificationIgnoresCase(question: string)
    ensures IsGeneralQuestion(Lower(question)) == IsGeneralQuestion(question)
    ensures IsPageByPageQuestion(Lower(question)) == IsPageByPageQuestion(question)
  {
    LowerIdempotent(question);
  }

  // ---------------------------------------------------------------------------
  // Keywords and section search

  /** The filter of `extract_keywords`: the lower-cased token is no stopword and the token is longer than 2. */
  predicate IsKeyword(token: string, stopwords: set<string>) {
    Lower(token) !in stopwords && |token| > 2
  }

  /** `extract_keywords`: the lower-cased tokens that pass the filter, in token order. */
  function ExtractKeywords(tokens: seq<string>, stopwords: set<string>): (keywords: seq<string>)
    ensures |keywords| <= |tokens|
  {
    if tokens == [] then []
    else
      var rest := ExtractKeywords(tokens[1..], stopwords);
      if IsKeyword(tokens[0], stopwords) then [Lower(tokens[0])] + rest else rest
  }

  /**
   * Every keyword is lower case, longer than 2 and no stopword, and the
   * keywords are exactly the lower-cased forms of the tokens that pass the filter.
   */
  lemma {:induction false} ExtractKeywordsSpec(tokens: seq<string>, stopwords: set<string>)
    ensures forall w :: w in ExtractKeywords(tokens, stopwords) ==> Lower(w) == w && |w| > 2 && w !in stopwords
    ensures forall w :: w in ExtractKeywords(tokens, stopwords) <==>
      exists t :: t in tokens && IsKeyword(t, stopwords) && w == Lower(t)
  {
    if tokens != [] {
      ExtractKeywordsSpec(tokens[1..], stopwords);
      LowerIdempotent(tokens[0]);
      assert forall t :: t in tokens <==> t == tokens[0] || t in tokens[1..];
    }
  }

  /** Keyword extraction works token by token: it distributes over concatenation, so order is kept. */
  lemma {:induction false} ExtractKeywordsAppend(a: seq<string>, b: seq<string>, stopwords: set<string>)
    ensures ExtractKeywords(a + b, stopwords) == ExtractKeywords(a, stopwords) + ExtractKeywords(b, stopwords)
  {
    if a == [] {
      assert a + b == b;
    } else {
      assert (a + b)[0] == a[0];
      assert (a + b)[1..] == a[1..] + b;
      ExtractKeywordsAppend(a[1..], b, stopwords);
    }
  }

  /**
   * The `any(...)` test of `find_relevant_section`: some keyword is in the
   * lower-cased title or the lower-cased content, keywords tried in order.
   */
  function Relevant(section: (string, string), keywords: seq<string>): bool {
    if keywords == [] then false
    else if Contains(Lower(section.0), keywords[0]) || Contains(Lower(section.1), keywords[0]) then true
    else Relevant(section, keywords[1..])
  }

  /** A section is relevant exactly when some keyword occurs in its lower-cased title or content. */
  lemma {:induction false} RelevantSpec(section: (string, string), keywords: seq<string>)
    ensures Relevant(section, keywords) <==>
      exists k :: k in keywords && (Contains(Lower(section.0), k) || Contains(Lower(section.1), k))
  {
    if keywords != [] {
      RelevantSpec(section, keywords[1..]);
      assert keywords[0] in keywords;
      assert forall k :: k in keywords <==> k == keywords[0] || k in keywords[1..];
    }
  }

  /** i is the first relevant position of sections at or after start. */
  ghost predicate FirstRelevantFrom(sections: Dict, keywords: seq<string>, start: nat, i: int) {
    start <= i < |sections| && Relevant(sections[i], keywords)
    && forall j :: start <= j < i ==> !Relevant(sections[j], keywords)
  }

  function FindRelevantFrom(sections: Dict, keywords: seq<string>, start: nat): Option<(string, string)>
    decreases |sections| - start
  {
    if start >= |sections| then None
    else if Relevant(sections[start], keywords) then Some(sections[start])
    else FindRelevantFrom(sections, keywords, start + 1)
  }

  /** The scan from start returns the first relevant section at or after start, and None only when there is none. */
  lemma {:induction false} FindRelevantFromSpec(sections: Dict, keywords: seq<string>, start: nat)
    ensures var r := FindRelevantFrom(sections, keywords, start);
      && (r.None? <==> forall i :: start <= i < |sections| ==> !Relevant(sections[i], keywords))
      && (r.Some? ==> exists i :: FirstRelevantFrom(sections, keywords, start, i) && sections[i] == r.value)
    decreases |sections| - start
  {
    if start >= |sections| {
    } else if Relevant(sections[start], keywords) {
      assert FirstRelevantFrom(sections, keywords, start, start);
    } else {
      FindRelevantFromSpec(sections, keywords, start + 1);
      var r := FindRelevantFrom(sections, keywords, start + 1);
      if r.Some? {
        var i :| FirstRelevantFrom(sections, keywords, start + 1, i) && sections[i] == r.value;
        assert FirstRelevantFrom(sections, keywords, start, i);
      }
    }
  }

  /**
   * `find_relevant_section`: the first (title, content) pair in insertion order
   * that is relevant; None stands for the `(None, None)` it returns otherwise.
   */
  function FindRelevantSection(sections: Dict, keywords: seq<string>): (r: Option<(string, string)>)
    ensures r.None? <==> forall i :: 0 <= i < |sections| ==> !Relevant(sections[i], keywords)
    ensures r.Some? ==> exists i :: FirstRelevantFrom(sections, keywords, 0, i) && sections[i] == r.value
  {
    FindRelevantFromSpec(sections, keywords, 0);
    FindRelevantFrom(sections, keywords, 0)
  }

  /** Without keywords no section is relevant. */
  lemma NoKeywordsNoSection(sections: Dict)
    ensures FindRelevantSection(sections, []) == None
  {
  }

  // ---------------------------------------------------------------------------
  // Sections

  /**
   * The (title, content) pairs among the first i parts of a `re.split` result
   * with one capture group: the odd positions are titles, each followed by its
   * content, and both are stripped.
   */
  function PairsUpTo(parts: seq<string>, i: nat): (ps: seq<(string, string)>)
    requires i % 2 == 1 && i <= |parts|
    ensures 2 * |ps| + 1 == i
  {
    if i == 1 then []
    else PairsUpTo(parts, i - 2) + [(Trim(Python, parts[i - 2]), Trim(Python, parts[i - 1]))]
  }

  /** All the (title, content) pairs of a split. */
  function Pairs(parts: seq<string>): seq<(string, string)>
    requires |parts| % 2 == 1
  {
    PairsUpTo(parts, |parts|)
  }

  /** Pair n is the stripped title at position 2n + 1 with the stripped content after it. */
  lemma {:induction false} PairsAt(parts: seq<string>, i: nat, n: nat)
    requires i % 2 == 1 && i <= |parts| && 2 * n + 2 < i
    ensures PairsUpTo(parts, i)[n] == (Trim(Python, parts[2 * n + 1]), Trim(Python, parts[2 * n + 2]))
  {
    if 2 * n + 2 < i - 2 {
      PairsAt(parts, i - 2, n);
    }
  }

  /** The section-pairing loop of `extract_pdf_sections`: `section_dict[title.strip()] = content.strip()`. */
  method PairSections(parts: seq<string>) returns (sectionDict: Dict)
    requires |parts| % 2 == 1
    ensures sectionDict == FromPairs(Pairs(parts))
  {
    sectionDict := [];
    var i := 1;
    while i < |parts|
      invariant i % 2 == 1 && i <= |parts|
      invariant sectionDict == FromPairs(PairsUpTo(parts, i))
    {
      var title, content := Trim(Python, parts[i]), Trim(Python, parts[i + 1]);
      FromPairsSnoc(PairsUpTo(parts, i), title, content);
      sectionDict := Put(sectionDict, title, content);
      i := i + 2;
    }
  }

  /** A title that occurs in the split maps to the content after its last occurrence. */
  lemma SectionTitleLastWins(parts: seq<string>, n: nat)
    requires |parts| % 2 == 1 && 2 * n + 2 < |parts|
    requires forall m :: n < m && 2 * m + 2 < |parts| ==> Trim(Python, parts[2 * m + 1]) != Trim(Python, parts[2 * n + 1])
    ensures Get(FromPairs(Pairs(parts)), Trim(Python, parts[2 * n + 1])) == Some(Trim(Python, parts[2 * n + 2]))
  {
    var ps := Pairs(parts);
    PairsAt(parts, |parts|, n);
    forall m | n < m < |ps| ensures ps[m].0 != ps[n].0 {
      PairsAt(parts, |parts|, m);
    }
    FromPairsGet(ps, Trim(Python, parts[2 * n + 1]));
    LastValueAt(ps, n);
  }

  /** A pair that no later pair overrides gives the last value of its key. */
  lemma {:induction false} LastValueAt(ps: seq<(string, string)>, n: nat)
    requires n < |ps|
    requires forall m :: n < m < |ps| ==> ps[m].0 != ps[n].0
    ensures LastValue(ps, ps[n].0) == Some(ps[n].1)
  {
    if n < |ps| - 1 {
      LastValueAt(ps[..|ps| - 1], n);
    }
  }

  /** The concatenation of the page texts, the `all_text` of the source. */
  function Join(texts: seq<string>): string {
    if texts == [] then "" else Join(texts[..|texts| - 1]) + texts[|texts| - 1]
  }

  /** Page n's text occurs in the joined text, right after the pages before it. */
  lemma {:induction false} PageOccursInJoin(texts: seq<string>, n: nat)
    requires n < |texts|
    ensures OccursAt(Join(texts), texts[n], |Join(texts[..n])|)
  {
    var init := texts[..|texts| - 1];
    if n == |texts| - 1 {
      assert texts[..n] == init;
      assert (Join(init) + texts[n])[|Join(init)|..|Join(init)| + |texts[n]|] == texts[n];
    } else {
      PageOccursInJoin(init, n);
      assert init[..n] == texts[..n];
      OccursInPrefix(Join(init), texts[|texts| - 1], texts[n], |Join(texts[..n])|);
    }
  }

  /** Every page's text is part of the full text the model is given. */
  lemma PageTextInAllText(texts: seq<string>, n: nat)
    requires n < |texts|
    ensures Contains(Join(texts), texts[n])
  {
    PageOccursInJoin(texts, n);
    ContainsSpec(Join(texts), texts[n]);
  }

  /** The page loop that builds `all_text`. */
  method ExtractAllText(pageTexts: seq<string>) returns (allText: string)
    ensures allText == Join(pageTexts)
  {
    allText := "";
    for pageNum := 0 to |pageTexts|
      invariant allText == Join(pageTexts[..pageNum])
    {
      assert pageTexts[..pageNum + 1][..pageNum] == pageTexts[..pageNum];
      allText := allText + pageTexts[pageNum];
    }
    assert pageTexts[..|pageTexts|] == pageTexts;
  }

  /** The dict `extract_pdf_sections` returns for a document. */
  function SectionsOf(pageTexts: seq<string>, splitHeadings: string -> seq<string>): Dict
    requires |splitHeadings(Join(pageTexts))| % 2 == 1
  {
    FromPairs(Pairs(splitHeadings(Join(pageTexts))))
  }

  /** `extract_pdf_sections`: join the pages, split at headings, pair titles with contents. */
  method ExtractPdfSections(pageTexts: seq<string>, splitHeadings: string -> seq<string>) returns (sectionDict: Dict)
    requires forall text :: |splitHeadings(text)| % 2 == 1
    ensures sectionDict == SectionsOf(pageTexts, splitHeadings)
    ensures DistinctKeys(sectionDict)
  {
    var allText := ExtractAllText(pageTexts);
    sectionDict := PairSections(splitHeadings(allText));
    FromPairsDistinct(Pairs(splitHeadings(allText)));
  }

  // ---------------------------------------------------------------------------
  // Pages

  datatype Page = Page(number: nat, text: string)

  /** `extract_text_by_page`: one entry per page, numbered from 1 in page order. */
  method ExtractTextByPage(pageTexts: seq<string>) returns (pages: seq<Page>)
    ensures |pages| == |pageTexts|
    ensures forall i :: 0 <= i < |pages| ==> pages[i] == Page(i + 1, pageTexts[i])
  {
    pages := [];
    for pageNum := 0 to |pageTexts|
      invariant |pages| == pageNum
      invariant forall i :: 0 <= i < pageNum ==> pages[i] == Page(i + 1, pageTexts[i])
    {
      pages := pages + [Page(pageNum + 1, pageTexts[pageNum])];
    }
  }

  datatype PageAnswer = PageAnswer(pageNumber: nat, answer: string)

  /** Python's `str` of a natural number, as the page-number placeholder of the page prompt renders it. */
  function DecimalString(n: nat): string {
    var digit := ['0' + (n % 10) as char];
    if n < 10 then digit else DecimalString(n / 10) + digit
  }

  predicate IsDigit(c: char) {
    '0' <= c <= '9'
  }

  /** The number a string of decimal digits denotes, most significant digit first. */
  function DigitsValue(s: string): int {
    if s == [] then 0 else DigitsValue(s[..|s| - 1]) * 10 + (s[|s| - 1] as int - '0' as int)
  }

  /** The rendering is the usual decimal notation: digits only, no leading zero, denoting n. */
  lemma {:induction false} DecimalStringSpec(n: nat)
    ensures var s := DecimalString(n);
      && |s| > 0
      && (forall i :: 0 <= i < |s| ==> IsDigit(s[i]))
      && (s[0] == '0' ==> n == 0)
      && DigitsValue(s) == n
  {
    if n >= 10 {
      DecimalStringSpec(n / 10);
      var s := DecimalString(n);
      assert s[..|s| - 1] == DecimalString(n / 10);
    }
  }

  const OverviewIntro := "Based on the following text from the PDF document:\n"
  const OverviewOutro := "\nPlease answer the question with a general overview or conclusion."

  /** The system message of a general question: the whole text, framed by the overview request. */
  function OverviewPrompt(allText: string): (prompt: string)
    ensures |prompt| == |OverviewIntro| + |allText| + |OverviewOutro|
    ensures prompt[..|OverviewIntro|] == OverviewIntro
    ensures OccursAt(prompt, allText, |OverviewIntro|)
  {
    var prompt := OverviewIntro + allText + OverviewOutro;
    assert prompt[|OverviewIntro|..|OverviewIntro| + |allText|] == allText;
    prompt
  }

  const PageIntro := "Analyze the following text from page "
  const PageMiddle := " of a PDF document:\n"
  const PageOutro := "\nPlease answer the question."

  /** The system message for one page: its number in decimal, then its text. */
  function PagePrompt(page: Page): (prompt: string)
    ensures |prompt| == |PageIntro| + |DecimalString(page.number)| + |PageMiddle| + |page.text| + |PageOutro|
    ensures prompt[..|PageIntro|] == PageIntro
    ensures OccursAt(prompt, DecimalString(page.number), |PageIntro|)
    ensures OccursAt(prompt, page.text, |PageIntro| + |DecimalString(page.number)| + |PageMiddle|)
  {
    var number := DecimalString(page.number);
    var prompt := PageIntro + number + PageMiddle + page.text + PageOutro;
    assert prompt[|PageIntro|..|PageIntro| + |number|] == number;
    assert prompt[|PageIntro| + |number| + |PageMiddle|..][..|page.text|] == page.text;
    prompt
  }

  const SectionIntro := "Based on the following text from the '"
  const SectionMiddle := "' section of the PDF:\n"
  const SectionOutro := "\nPlease answer the question and provide relevant references from the PDF."

  /** The system message of a section question: the section's title in quotes, then its content. */
  function SectionPrompt(title: string, content: string): (prompt: string)
    ensures |prompt| == |SectionIntro| + |title| + |SectionMiddle| + |content| + |SectionOutro|
    ensures prompt[..|SectionIntro|] == SectionIntro
    ensures OccursAt(prompt, title, |SectionIntro|)
    ensures OccursAt(prompt, content, |SectionIntro| + |title| + |SectionMiddle|)
  {
    var prompt := SectionIntro + title + SectionMiddle + content + SectionOutro;
    assert prompt[|SectionIntro|..|SectionIntro| + |title|] == title;
    assert prompt[|SectionIntro| + |title| + |SectionMiddle|..][..|content|] == content;
    prompt
  }

  /**
   * The page-by-page loop of `ask_question`: one model call per page, in page
   * order; the first call that raises ends the request (None).
   */
  method AnswerPageByPage(question: string, pages: seq<Page>, predict: (string, string) -> Option<string>)
    returns (responses: Option<seq<PageAnswer>>)
    ensures responses.Some? <==> forall i :: 0 <= i < |pages| ==> predict(question, PagePrompt(pages[i])).Some?
    ensures responses.Some? ==> |responses.value| == |pages|
    ensures responses.Some? ==> forall i :: 0 <= i < |pages| ==>
      responses.value[i] == PageAnswer(pages[i].number, predict(question, PagePrompt(pages[i])).value)
  {
    var allResponses := [];
    for n := 0 to |pages|
      invariant |allResponses| == n
      invariant forall i :: 0 <= i < n ==> predict(question, PagePrompt(pages[i])).Some?
      invariant forall i :: 0 <= i < n ==>
        allResponses[i] == PageAnswer(pages[i].number, predict(question, PagePrompt(pages[i])).value)
    {
      var result := predict(question, PagePrompt(pages[n]));
      if result.None? {
        return None;
      }
      allResponses := allResponses + [PageAnswer(pages[n].number, result.value)];
    }
    responses := Some(allResponses);
  }

  // ---------------------------------------------------------------------------
  // The ask-question endpoint

  /** The uploaded `pdf` form field; werkzeug treats an upload with an empty file name as absent. */
  datatype Upload = Upload(filename: string, pageTexts: seq<string>)

  /** `not pdf_file` is false: there is a `pdf` part and its file name is not empty. */
  function Provided(pdf: Option<Upload>): (present: bool)
    ensures present ==> pdf.Some?
    ensures pdf.Some? ==> (present <==> |pdf.value.filename| > 0)
  {
    pdf.Some? && pdf.value.filename != ""
  }

  /** The JSON replies of `ask_question`, one per return statement. */
  datatype Reply =
    | MissingInput
    | Overview(answer: string)
    | PerPage(responses: seq<PageAnswer>)
    | SectionAnswer(answer: string, section: string, content: string)
    | NoRelevantSection
    | Failed

  /** The HTTP status of each reply: 400 for missing input, 404 for no section, 500 for an exception, 200 otherwise. */
  function StatusCode(reply: Reply): (code: int)
    ensures code == 400 <==> reply.MissingInput?
    ensures code == 404 <==> reply.NoRelevantSection?
    ensures code == 500 <==> reply.Failed?
    ensures code == 200 || code == 400 || code == 404 || code == 500
  {
    match reply
    case MissingInput => 400
    case NoRelevantSection => 404
    case Failed => 500
    case _ => 200
  }

  /** The general branch of `ask_question`: one model call with the whole text of the document. */
  method AnswerOverview(question: string, pageTexts: seq<string>, predict: (string, string) -> Option<string>)
    returns (reply: Reply)
    ensures reply == match predict(question, OverviewPrompt(Join(pageTexts)))
                     case Some(answer) => Overview(answer)
                     case None => Failed
  {
    var allText := ExtractAllText(pageTexts);
    var result := predict(question, OverviewPrompt(allText));
    if result.None? {
      return Failed;
    }
    return Overview(result.value);
  }

  /**
   * The page-by-page branch of `ask_question`: one answer per page, numbered
   * from 1 in page order, unless one of the model calls raises.
   */
  method AnswerEachPage(question: string, pageTexts: seq<string>, predict: (string, string) -> Option<string>)
    returns (reply: Reply)
    ensures reply.Failed? || reply.PerPage?
    ensures reply.PerPage? <==>
      forall i :: 0 <= i < |pageTexts| ==> predict(question, PagePrompt(Page(i + 1, pageTexts[i]))).Some?
    ensures reply.PerPage? ==> |reply.responses| == |pageTexts|
    ensures reply.PerPage? ==> forall i :: 0 <= i < |pageTexts| ==>
      reply.responses[i] == PageAnswer(i + 1, predict(question, PagePrompt(Page(i + 1, pageTexts[i]))).value)
  {
    var pages := ExtractTextByPage(pageTexts);
    var responses := AnswerPageByPage(question, pages, predict);
    if responses.None? {
      return Failed;
    }
    return PerPage(responses.value);
  }

  /**
   * The section branch of `ask_question`: the first relevant section decides;
   * none, or one whose stripped content is empty, gives 404.
   */
  method AnswerFromSections(
    question: string, pageTexts: seq<string>,
    tokenize: string -> seq<string>, stopwords: set<string>,
    splitHeadings: string -> seq<string>, predict: (string, string) -> Option<string>)
    returns (reply: Reply)
    requires forall text :: |splitHeadings(text)| % 2 == 1
    ensures var found := FindRelevantSection(SectionsOf(pageTexts, splitHeadings),
                                             ExtractKeywords(tokenize(question), stopwords));
      && (reply.NoRelevantSection? <==> found.None? || found.value.1 == "")
      && (reply.NoRelevantSection? || reply.Failed? || reply.SectionAnswer?)
      && (found.Some? && found.value.1 != "" ==>
            reply == match predict(question, SectionPrompt(found.value.0, found.value.1))
                     case Some(answer) => SectionAnswer(answer, found.value.0, found.value.1)
                     case None => Failed)
  {
    var sectionDict := ExtractPdfSections(pageTexts, splitHeadings);
    var keywords := ExtractKeywords(tokenize(question), stopwords);
    var found := FindRelevantSection(sectionDict, keywords);
    if found.None? || found.value.1 == "" {
      return NoRelevantSection;
    }
    var result := predict(question, SectionPrompt(found.value.0, found.value.1));
    if result.None? {
      return Failed;
    }
    return SectionAnswer(result.value, found.value.0, found.value.1);
  }

  /**
   * `ask_question`. Its checks are tried in order: a missing pdf or an empty
   * (untrimmed) question gives 400 before anything else; a general question
   * is answered as such even if it also asks page by page; only a question
   * that is neither goes to the section search.
   */
  method AskQuestion(
    pdf: Option<Upload>, question: string,
    tokenize: string -> seq<string>, stopwords: set<string>,
    splitHeadings: string -> seq<string>, predict: (string, string) -> Option<string>)
    returns (reply: Reply)
    requires forall text :: |splitHeadings(text)| % 2 == 1
    ensures reply.MissingInput? <==> !Provided(pdf) || question == ""
    ensures Provided(pdf) && question != "" && IsGeneralQuestion(question) ==>
      reply == match predict(question, OverviewPrompt(Join(pdf.value.pageTexts)))
               case Some(answer) => Overview(answer)
               case None => Failed
    ensures reply.Overview? ==> IsGeneralQuestion(question)
    ensures Provided(pdf) && question != "" && !IsGeneralQuestion(question) && IsPageByPageQuestion(question) ==>
      && (reply.Failed? || reply.PerPage?)
      && (reply.PerPage? <==> forall i :: 0 <= i < |pdf.value.pageTexts| ==>
            predict(question, PagePrompt(Page(i + 1, pdf.value.pageTexts[i]))).Some?)
      && (reply.PerPage? ==> |reply.responses| == |pdf.value.pageTexts|)
    ensures reply.PerPage? ==> !IsGeneralQuestion(question) && IsPageByPageQuestion(question)
    ensures reply.PerPage? ==> forall i :: 0 <= i < |reply.responses| ==>
      Some(reply.responses[i].answer) == predict(question, PagePrompt(Page(i + 1, pdf.value.pageTexts[i])))
      && reply.responses[i].pageNumber == i + 1
    ensures reply.NoRelevantSection? || reply.SectionAnswer? ==>
      !IsGeneralQuestion(question) && !IsPageByPageQuestion(question)
    ensures Provided(pdf) && question != "" && !IsGeneralQuestion(question) && !IsPageByPageQuestion(question) ==>
      var found := FindRelevantSection(SectionsOf(pdf.value.pageTexts, splitHeadings),
                                       ExtractKeywords(tokenize(question), stopwords));
      && (reply.NoRelevantSection? <==> found.None? || found.value.1 == "")
      && (found.Some? && found.value.1 != "" ==>
            reply == match predict(question, SectionPrompt(found.value.0, found.value.1))
                     case Some(answer) => SectionAnswer(answer, found.value.0, found.value.1)
                     case None => Failed)
    ensures reply.SectionAnswer? ==>
      var found := FindRelevantSection(SectionsOf(pdf.value.pageTexts, splitHeadings),
                                       ExtractKeywords(tokenize(question), stopwords));
      && found == Some((reply.section, reply.content)) && reply.content != ""
      && Some(reply.answer) == predict(question, SectionPrompt(reply.section, reply.content))
  {
    if !Provided(pdf) || question == "" {
      return MissingInput;
    }
    if IsGeneralQuestion(question) {
      reply := AnswerOverview(question, pdf.value.pageTexts, predict);
      return;
    }
    if IsPageByPageQuestion(question) {
      reply := AnswerEachPage(question, pdf.value.pageTexts, predict);
      return;
    }
    reply := AnswerFromSections(question, pdf.value.pageTexts, tokenize, stopwords, splitHeadings, predict);
  }
}
