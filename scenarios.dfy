/**
 * Three user sessions driven through the handlers; each assertion follows
 * from the handlers' contracts alone.
 */
module Scenarios {
  import opened Wrappers
  import opened App
  import opened FileUpload
  import opened QuestionInput

  /** Pick a PDF, type a question, submit, and receive an answer. */
  method AskAboutReport() {
    var app := new AppState();
    HandleFileChange(app, [File("report.pdf", "application/pdf")]);
    HandleQuestionChange(app, "What is the total?");
    var sent := app.BeginSubmit();
    assert sent == Some(Payload(Some(File("report.pdf", "application/pdf")), "What is the total?"));
    app.FinishSubmit(sent.value, Success("<p>Total: 42</p>", "42"));
    assert app.previousAnswers == [("What is the total?", "42")];
    assert app.question == "" && !app.loading;
  }

  /** Submitting an empty question sends nothing and reports the empty question. */
  method SubmitEmptyQuestion() {
    var app := new AppState();
    var sent := app.BeginSubmit();
    assert sent == None && !app.loading;
    assert app.errors[QuestionKey] == Some(EmptyQuestionMessage);
    assert app.errors[PdfKey] == Some(MissingPdfMessage);
  }

  /** A PNG is refused, and refusing it also drops a PDF picked before. */
  method PickImage() {
    var app := new AppState();
    HandleFileChange(app, [File("report.pdf", "application/pdf")]);
    HandleFileChange(app, [File("image.png", "image/png")]);
    assert app.pdfFile == None;
    assert app.errors[PdfKey] == Some(InvalidPdfMessage);
    app.Clear();
    assert app.errors == map[];
  }
}
