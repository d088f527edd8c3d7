/**
 * The file picker (frontend/src/components/FileUpload.jsx). It receives the
 * `pdfFile` and `errors` setters of `App`, so its handler updates the
 * `AppState` it is given.
 */
module FileUpload {
  import opened Wrappers
  import opened App

  const InvalidPdfMessage := "Please upload a valid PDF file"

  /** The file a change event carries: the first of the selected files, if any. */
  function Selected(files: seq<File>): (file: Option<File>)
    ensures file.None? <==> files == []
    ensures file.Some? ==> file.value == files[0]
  {
    if |files| > 0 then Some(files[0]) else None
  }

  /** A selection is accepted only if there is a file and its declared type is PDF. */
  function Accepts(file: Option<File>): (accepted: bool)
    ensures accepted ==> file.Some? && file.value.mediaType == PdfMediaType
    ensures file.None? ==> !accepted
    ensures file.Some? && file.value.mediaType != PdfMediaType ==> !accepted
  {
    file.Some? && file.value.mediaType == PdfMediaType
  }

  /**
   * `handleFileChange`: an accepted file is held and its error set to null;
   * anything else, an empty selection included, drops the held file and sets
   * the error. No other field and no other error key changes.
   */
  method HandleFileChange(app: AppState, files: seq<File>)
    requires app.Valid()
    modifies app
    ensures app.Valid()
    ensures Accepts(Selected(files)) ==>
      app.pdfFile == Selected(files) && app.errors == old(app.errors)[PdfKey := None]
    ensures !Accepts(Selected(files)) ==>
      app.pdfFile == None && app.errors == old(app.errors)[PdfKey := Some(InvalidPdfMessage)]
    ensures app.question == old(app.question) && app.extractedText == old(app.extractedText)
    ensures app.loading == old(app.loading) && app.answer == old(app.answer)
    ensures app.previousAnswers == old(app.previousAnswers) && app.formattedText == old(app.formattedText)
  {
    var file := Selected(files);
    if file.Some? && file.value.mediaType == PdfMediaType {
      app.pdfFile := file;
      app.errors := app.errors[PdfKey := None];
    } else {
      app.errors := app.errors[PdfKey := Some(InvalidPdfMessage)];
      app.pdfFile := None;
    }
  }
}
