/**
  The add-bookmark form's submit handler as a decision over the form
  state: the synchronous validation that either rejects the submit or
  starts an insert, then the state update and side effects once the
  awaited insert settles. URL parsing is a parameter.
 */
module AddBookmarkForm {
  import opened Wrappers
  import opened Bookmarks
  import JsStrings

  /** The four pieces of component state. */
  datatype Form = Form(title: string, url: string, loading: bool, error: string)

  const Blank: Form := Form("", "", false, "")

  const MissingFieldsError: string := "Please fill in both title and URL."
  const InvalidUrlError: string := "Please enter a valid URL (e.g., https://example.com)."
  const UnexpectedError: string := "Something went wrong. Please try again."

  /** The object passed to the insert call. */
  datatype NewRow = NewRow(title: string, url: string, userId: string)

  /** Where the synchronous part of the handler stops: an early return
      with an error, or an insert in flight. */
  datatype Submission = Rejected(form: Form) | Inserting(form: Form, row: NewRow)

  /** How the awaited insert settled: a row (or `null`) came back, the
      store returned an error object, or the call threw. */
  datatype InsertOutcome = Inserted(data: Option<Bookmark>) | InsertFailed(message: string) | InsertThrew

  datatype Finished = Finished(form: Form, effects: seq<Effect>)

  /** A blank field, as `!s.trim()` decides it. */
  predicate IsBlank(s: string) {
    JsStrings.Trim(s) == []
  }

  /** Up to the insert: clear the error, reject blank fields, then reject a
      URL the parser refuses (the raw text, not the trimmed one), else
      start loading and build the trimmed row for the owner. */
  function BeginSubmit(f: Form, userId: string, isValidUrl: string -> bool): (s: Submission)
    ensures s.form.title == f.title && s.form.url == f.url
    ensures s.Rejected? <==>
              JsStrings.AllWhitespace(f.title) || JsStrings.AllWhitespace(f.url) || !isValidUrl(f.url)
    ensures s.Rejected? ==> s.form.loading == f.loading
    ensures JsStrings.AllWhitespace(f.title) || JsStrings.AllWhitespace(f.url) ==>
              s.form.error == MissingFieldsError
    ensures s.Rejected? && !JsStrings.AllWhitespace(f.title) && !JsStrings.AllWhitespace(f.url) ==>
              s.form.error == InvalidUrlError
    ensures s.Inserting? ==> s.form.loading && s.form.error == ""
    ensures s.Inserting? ==> s.row.userId == userId
    ensures s.Inserting? ==> s.row.title == JsStrings.Trim(f.title) && s.row.url == JsStrings.Trim(f.url)
    ensures s.Inserting? ==> |s.row.title| > 0 && |s.row.url| > 0
  {
    var cleared := f.(error := "");
    if IsBlank(f.title) || IsBlank(f.url) then Rejected(cleared.(error := MissingFieldsError))
    else if !isValidUrl(f.url) then Rejected(cleared.(error := InvalidUrlError))
    else Inserting(cleared.(loading := true), NewRow(JsStrings.Trim(f.title), JsStrings.Trim(f.url), userId))
  }

  /** After the insert: on success clear both fields and, when a row came
      back, broadcast it to the owner's other tabs and hand it to the
      callback if one was given; on a returned error show its message; on
      a throw show the generic message. Loading ends on every path. */
  function FinishSubmit(f: Form, userId: string, outcome: InsertOutcome, hasCallback: bool): (r: Finished)
    ensures !r.form.loading
    ensures outcome.Inserted? ==> r.form.title == "" && r.form.url == "" && r.form.error == f.error
    ensures !outcome.Inserted? ==> r.form.title == f.title && r.form.url == f.url
    ensures outcome.InsertFailed? ==> r.form.error == outcome.message
    ensures outcome.InsertThrew? ==> r.form.error == UnexpectedError
    ensures r.effects != [] <==> outcome.Inserted? && outcome.data.Some?
    ensures outcome.Inserted? && outcome.data.Some? ==>
              r.effects == [Broadcast(AddedMessage(userId, outcome.data.value))]
                           + (if hasCallback then [NotifyAdded(outcome.data.value)] else [])
  {
    match outcome
    case InsertFailed(message) => Finished(f.(error := message, loading := false), [])
    case InsertThrew => Finished(f.(error := UnexpectedError, loading := false), [])
    case Inserted(data) =>
      var cleared := f.(title := "", url := "", loading := false);
      match data
      case None => Finished(cleared, [])
      case Some(row) =>
        Finished(cleared, [Broadcast(AddedMessage(userId, row))]
                          + (if hasCallback then [NotifyAdded(row)] else []))
  }

  /** The outcome of one submit from start to finish. */
  datatype SubmitResult = SubmitResult(form: Form, insert: Option<NewRow>, effects: seq<Effect>)

  /** The whole handler, with the insert's outcome supplied as a parameter. */
  function Submit(f: Form, userId: string, isValidUrl: string -> bool, outcome: InsertOutcome, hasCallback: bool): (r: SubmitResult)
    ensures !r.form.loading || (f.loading && r.insert.None?)
    ensures r.insert.None? ==> r.effects == [] && r.form.title == f.title && r.form.url == f.url
    ensures r.insert.Some? <==> !IsBlank(f.title) && !IsBlank(f.url) && isValidUrl(f.url)
  {
    match BeginSubmit(f, userId, isValidUrl)
    case Rejected(g) => SubmitResult(g, None, [])
    case Inserting(g, row) =>
      var done := FinishSubmit(g, userId, outcome, hasCallback);
      SubmitResult(done.form, Some(row), done.effects)
  }

  /** Emptiness is checked before URL validity: blank fields give the
      fill-in message whatever the parser would say. */
  lemma BlankFieldsCheckedFirst(f: Form, userId: string, isValidUrl: string -> bool, outcome: InsertOutcome, hasCallback: bool)
    requires IsBlank(f.title) || IsBlank(f.url)
    ensures Submit(f, userId, isValidUrl, outcome, hasCallback) == SubmitResult(f.(error := MissingFieldsError), None, [])
  {
  }

  /** A successful submit ends with empty fields, no error (the one shown
      before was cleared at the start), loading off, exactly one broadcast
      of the returned row on the owner's topic, and then the callback with
      that row when a callback was given. */
  lemma SuccessfulSubmit(f: Form, userId: string, isValidUrl: string -> bool, row: Bookmark, hasCallback: bool)
    requires !IsBlank(f.title) && !IsBlank(f.url) && isValidUrl(f.url)
    ensures var r := Submit(f, userId, isValidUrl, Inserted(Some(row)), hasCallback);
            && r.form == Blank
            && r.insert == Some(NewRow(JsStrings.Trim(f.title), JsStrings.Trim(f.url), userId))
            && r.effects == [Broadcast(AddedMessage(userId, row))]
                            + (if hasCallback then [NotifyAdded(row)] else [])
  {
  }

  /** A failed or throwing insert keeps what the user typed so they can
      resubmit, and reports the failure. */
  lemma FailedInsertKeepsFields(f: Form, userId: string, isValidUrl: string -> bool, outcome: InsertOutcome, hasCallback: bool)
    requires !IsBlank(f.title) && !IsBlank(f.url) && isValidUrl(f.url)
    requires !outcome.Inserted?
    ensures var r := Submit(f, userId, isValidUrl, outcome, hasCallback);
            && r.form.title == f.title && r.form.url == f.url && !r.form.loading
            && r.effects == []
            && r.form.error == (if outcome.InsertThrew? then UnexpectedError else outcome.message)
  {
  }
}
