/**
 * The question field (frontend/src/components/QuestionInput.jsx). It receives
 * the `question` and `errors` setters of `App`, so its handler updates the
 * `AppState` it is given.
 */
module QuestionInput {
  import opened Wrappers
  import opened Text
  import opened App

  /**
   * `handleQuestionChange`: the raw input, untrimmed, becomes the question;
   * the `question` error is null when the input has a non-whitespace
   * character and the empty-question message otherwise. No other field and
   * no other error key changes.
   */
  method HandleQuestionChange(app: AppState, input: string)
    requires app.Valid()
    modifies app
    ensures app.Valid()
    ensures app.question == input
    ensures app.errors == old(app.errors)[QuestionKey := if Blank(JavaScript, input) then Some(EmptyQuestionMessage) else None]
    ensures app.pdfFile == old(app.pdfFile) && app.extractedText == old(app.extractedText)
    ensures app.loading == old(app.loading) && app.answer == old(app.answer)
    ensures app.previousAnswers == old(app.previousAnswers) && app.formattedText == old(app.formattedText)
  {
    TrimEmptyIffBlank(JavaScript, input);
    app.question := input;
    if Trim(JavaScript, input) != "" {
      app.errors := app.errors[QuestionKey := None];
    } else {
      app.errors := app.errors[QuestionKey := Some(EmptyQuestionMessage)];
    }
  }
}
