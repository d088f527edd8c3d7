/**
 * The client state of the React `App` component (frontend/src/App.jsx) and
 * its submit and clear handlers.
 *
 * Each `useState` hook is a field of `AppState`; each setter call is an
 * assignment. `handleSubmit` is split at its one `await`: `BeginSubmit` runs
 * up to the request, `FinishSubmit` runs the rest once the answer (or the
 * failure) is known. Every handler runs as one atomic step.
 */
module App {
  import opened Wrappers
  import opened Text

  /** A file picked in the browser, with its declared media type. */
  datatype File = File(name: string, mediaType: string)

  const PdfMediaType := "application/pdf"

  /** The keys of the `errors` object. */
  const PdfKey := "pdfFile"
  const QuestionKey := "question"
  const GeneralKey := "general"
  const ErrorKeys := {PdfKey, QuestionKey, GeneralKey}

  const MissingPdfMessage := "Please upload a PDF file"
  const EmptyQuestionMessage := "Question cannot be empty"
  const SubmitFailedMessage := "An error occurred during submission."

  /** The `errors` object: a present key may hold null (None) or a message. */
  type Errors = map<string, Option<string>>

  /** The form data of a request: the pdf part is present only when a file is held. */
  datatype Payload = Payload(pdf: Option<File>, question: string)

  /** The outcome of the POST to /api/ask-question. */
  datatype Response = Success(formattedText: string, answer: string) | Failure

  /**
   * The errors the submit-time validation leaves behind, built from an empty
   * object: `pdfFile` when no file is held and no text was extracted,
   * `question` when the question is blank.
   */
  function SubmitErrors(pdfFile: Option<File>, extractedText: string, question: string): (errors: Errors)
    ensures PdfKey in errors <==> pdfFile.None? && extractedText == ""
    ensures QuestionKey in errors <==> Blank(JavaScript, question)
    ensures errors.Keys <= {PdfKey, QuestionKey}
    ensures PdfKey in errors ==> errors[PdfKey] == Some(MissingPdfMessage)
    ensures QuestionKey in errors ==> errors[QuestionKey] == Some(EmptyQuestionMessage)
  {
    TrimEmptyIffBlank(JavaScript, question);
    var afterPdf: Errors := if pdfFile.None? && extractedText == "" then map[PdfKey := Some(MissingPdfMessage)] else map[];
    if Trim(JavaScript, question) == "" then afterPdf[QuestionKey := Some(EmptyQuestionMessage)] else afterPdf
  }

  class AppState {
    var pdfFile: Option<File>
    var question: string
    var extractedText: string
    var errors: Errors
    var loading: bool
    var answer: string
    var previousAnswers: seq<(string, string)>
    var formattedText: string

    /**
     * What holds in every reachable state: no handler ever writes a non-empty
     * `extractedText`, a held file is always a PDF, and `errors` uses only its
     * three keys.
     */
    ghost predicate Valid()
      reads this
    {
      && extractedText == ""
      && (pdfFile.Some? ==> pdfFile.value.mediaType == PdfMediaType)
      && errors.Keys <= ErrorKeys
    }

    /**
     * The file picker is rendered while no text has been extracted; since
     * `extractedText` stays empty, it is rendered in every reachable state.
     */
    function UploadShown(): (shown: bool)
      reads this
      ensures Valid() ==> shown
    {
      extractedText == ""
    }

    /** The initial values of the hooks, other than `loading`. */
    ghost predicate Cleared()
      reads this
    {
      && pdfFile == None
      && question == ""
      && extractedText == ""
      && answer == ""
      && formattedText == ""
      && previousAnswers == []
      && errors == map[]
    }

    constructor ()
      ensures Valid() && Cleared() && !loading
    {
      pdfFile := None;
      question := "";
      extractedText := "";
      errors := map[];
      loading := false;
      answer := "";
      previousAnswers := [];
      formattedText := "";
    }

    /**
     * `handleSubmit` up to the request. The button is disabled while loading,
     * so it runs only when `loading` is false. Errors are rebuilt from an empty
     * object by the two checks; when both pass, `loading` is set and the
     * request is returned, carrying the question and, if one is held, the file.
     */
    method BeginSubmit() returns (sent: Option<Payload>)
      requires Valid() && !loading
      modifies this
      ensures Valid()
      ensures errors == SubmitErrors(pdfFile, extractedText, question)
      ensures PdfKey in errors <==> pdfFile.None?
      ensures sent.Some? <==> errors == map[]
      ensures sent.Some? <==> pdfFile.Some? && !Blank(JavaScript, question)
      ensures sent.Some? ==> sent.value == Payload(pdfFile, question)
      ensures loading <==> sent.Some?
      ensures pdfFile == old(pdfFile) && question == old(question) && extractedText == old(extractedText)
      ensures answer == old(answer) && formattedText == old(formattedText)
      ensures previousAnswers == old(previousAnswers)
    {
      TrimEmptyIffBlank(JavaScript, question);
      var valid := true;
      errors := map[];
      if pdfFile.None? && extractedText == "" {
        errors := errors[PdfKey := Some(MissingPdfMessage)];
        valid := false;
      }
      if Trim(JavaScript, question) == "" {
        errors := errors[QuestionKey := Some(EmptyQuestionMessage)];
        valid := false;
      }
      if valid {
        loading := true;
        sent := Some(Payload(pdfFile, question));
      } else {
        sent := None;
      }
    }

    /**
     * `handleSubmit` after the request: `sent` is the request `BeginSubmit`
     * returned (the closure keeps the question it was built with). On success
     * the answer is stored and appended to the history under that question and
     * the question field is emptied; on failure only the general error is set.
     * `loading` is cleared on both paths.
     */
    method FinishSubmit(sent: Payload, response: Response)
      requires Valid()
      modifies this
      ensures Valid()
      ensures !loading
      ensures pdfFile == old(pdfFile) && extractedText == old(extractedText)
      ensures response.Success? ==>
        && formattedText == response.formattedText
        && answer == response.answer
        && previousAnswers == old(previousAnswers) + [(sent.question, response.answer)]
        && question == ""
        && errors == old(errors)
      ensures response.Failure? ==>
        && errors == old(errors)[GeneralKey := Some(SubmitFailedMessage)]
        && formattedText == old(formattedText)
        && answer == old(answer)
        && previousAnswers == old(previousAnswers)
        && question == old(question)
    {
      match response {
        case Success(text, newAnswer) =>
          formattedText := text;
          answer := newAnswer;
          previousAnswers := previousAnswers + [(sent.question, newAnswer)];
          question := "";
        case Failure =>
          errors := errors[GeneralKey := Some(SubmitFailedMessage)];
      }
      loading := false;
    }

    /**
     * `handleClear`: every field but `loading` goes back to its initial value
     * before the backend is asked to clear; the outcome of that call is only
     * logged, so it changes nothing here.
     */
    method Clear()
      requires Valid()
      modifies this
      ensures Valid() && Cleared()
      ensures loading == old(loading)
    {
      pdfFile := None;
      question := "";
      extractedText := "";
      answer := "";
      formattedText := "";
      previousAnswers := [];
      errors := map[];
    }
  }
}
