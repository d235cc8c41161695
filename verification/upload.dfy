/** The upload page: picking a PDF, validating the form, and writing a pending note that
    waits for an administrator. */
module Upload {
  import opened Types
  import opened JsString
  import opened Tags
  import SubjectDetail
  import Admin

  // ---------------------------------------------------------------- form

  /** The values of the semester selector: one per entry of `BANGLA_SEMESTERS`, `1` to `12`. */
  type SemesterOption = s: string | s in {"1", "2", "3", "4", "5", "6", "7", "8", "9", "10", "11", "12"}
    witness "1"

  /** `Number(formData.semester)` for a value of the selector. */
  function SemesterValue(s: SemesterOption): (n: nat)
    ensures 1 <= n <= 12
    ensures DecimalText(n) == s
  {
    if s == "1" then 1 else if s == "2" then 2 else if s == "3" then 3 else if s == "4" then 4
    else if s == "5" then 5 else if s == "6" then 6 else if s == "7" then 7 else if s == "8" then 8
    else if s == "9" then 9 else if s == "10" then 10 else if s == "11" then 11 else 12
  }

  datatype UploadForm = UploadForm(
    title: string,
    kind: NoteKind,
    departmentId: string,
    semester: SemesterOption,
    uploadedBy: string,
    description: string,
    courseCode: string,
    tags: string,
    videoURL: string)

  /** The empty form: a PDF note for semester 1. Submitting successfully resets to it. */
  const BlankForm := UploadForm("", Pdf, "", "1", "", "", "", "", "")

  /** The form as the page first shows it: the empty form, signed with the account's display
      name when it has a non-empty one. */
  function InitialForm(user: Option<User>): (f: UploadForm)
    ensures f.uploadedBy != "" <==> user.Some? && user.value.displayName.Some? && user.value.displayName.value != ""
    ensures user.Some? && user.value.displayName.Some? ==> f.uploadedBy == user.value.displayName.value
    ensures f.(uploadedBy := "") == BlankForm
  {
    var name := if user.Some? && user.value.displayName.Some? then user.value.displayName.value else "";
    UploadForm("", Pdf, "", "1", name, "", "", "", "")
  }

  /** The messages the page shows in its error banner. */
  datatype Message = NotPdf | TooLarge | NoFile | NoVideoUrl | UploadFailed

  /** A file picked in the browser: its media type and its size in bytes. */
  datatype FileInfo = FileInfo(mime: string, size: nat)

  const PdfMime := "application/pdf"

  /** Ten megabytes. */
  const MaxFileSize: nat := 10 * 1024 * 1024

  /** Everything the page keeps: the form, the picked file, the banner (`None` for the empty
      message) and whether the thank-you screen is showing. */
  datatype PageState = PageState(form: UploadForm, file: Option<FileInfo>, error: Option<Message>, success: bool)

  function InitialPage(user: Option<User>): PageState {
    PageState(InitialForm(user), None, None, false)
  }

  // ---------------------------------------------------------------- picking a file

  predicate Acceptable(f: FileInfo) {
    f.mime == PdfMime && f.size <= MaxFileSize
  }

  /** The page never holds a file it would refuse. */
  predicate HoldsAcceptableFile(st: PageState) {
    st.file.Some? ==> Acceptable(st.file.value)
  }

  /** `handleFileChange`: a PDF of at most ten megabytes replaces the held file and clears the
      banner; any other file leaves the held file as it was and shows why; closing the picker
      without a file changes nothing. */
  function FileChange(picked: Option<FileInfo>, st: PageState): (st': PageState)
    ensures picked.None? ==> st' == st
    ensures picked.Some? && Acceptable(picked.value) ==> st' == st.(file := picked, error := None)
    ensures picked.Some? && !Acceptable(picked.value) ==>
      && st' == st.(error := st'.error)
      && (st'.error == Some(NotPdf) <==> picked.value.mime != PdfMime)
      && (st'.error == Some(TooLarge) <==> picked.value.mime == PdfMime && picked.value.size > MaxFileSize)
    ensures HoldsAcceptableFile(st) ==> HoldsAcceptableFile(st')
  {
    match picked
    case None => st
    case Some(f) =>
      if f.mime != PdfMime then st.(error := Some(NotPdf))
      else if f.size > MaxFileSize then st.(error := Some(TooLarge))
      else st.(file := picked, error := None)
  }

  /** The file held after a picker event is the picked file exactly when it is acceptable,
      or the same file was already held. */
  lemma FileHeldIffAcceptable(picked: FileInfo, st: PageState)
    ensures FileChange(Some(picked), st).file == Some(picked) <==> Acceptable(picked) || st.file == Some(picked)
  {
  }

  // ---------------------------------------------------------------- submitting

  /** `user?.uid || null`: the uploader's account id, absent when signed out. */
  function Owner(user: Option<User>): (r: Option<Id>)
    ensures r.Some? <==> user.Some? && user.value.uid != ""
    ensures r.Some? ==> r.value == user.value.uid
  {
    if user.Some? && user.value.uid != "" then Some(user.value.uid) else None
  }

  /** The document written for a submission: `url` is the link of the uploaded PDF or the video
      link, `id` the id the store assigns and `now` the server timestamp. */
  function UploadRecord(f: UploadForm, user: Option<User>, url: string, id: Id, now: int): (n: Note)
    ensures n.id == id && n.kind == f.kind && n.status == Pending
    ensures n.title == f.title && n.fileURL == url && n.departmentId == f.departmentId
    ensures n.semester == SemesterValue(f.semester) && 1 <= n.semester <= 12
    ensures n.tags == Some(ParseTags(f.tags)) && n.userId == Owner(user)
    ensures n.downloads == Some(0) && n.createdAt == Some(now)
  {
    Note(
      id := id,
      title := f.title,
      kind := f.kind,
      departmentId := f.departmentId,
      subjectId := None,
      courseCode := Some(f.courseCode),
      tags := Some(ParseTags(f.tags)),
      semester := SemesterValue(f.semester),
      description := f.description,
      fileURL := url,
      uploadedBy := f.uploadedBy,
      userId := Owner(user),
      status := Pending,
      downloads := Some(0),
      rating := None,
      commentCount := None,
      createdAt := Some(now))
  }

  datatype SubmitResult = SubmitResult(outcome: Outcome, page: PageState, store: Store)

  /** The link stored for a submission: the secure link the file host returned for a PDF,
      the typed link for a video. */
  function FinalUrl(f: UploadForm, uploaded: Option<string>): Option<string> {
    if f.kind == Pdf then uploaded else Some(f.videoURL)
  }

  /** The submission has what its kind needs: a held file the host accepted for a PDF, a
      non-empty link for a video. */
  predicate Ready(st: PageState, uploaded: Option<string>) {
    && (st.form.kind == Pdf ==> st.file.Some? && uploaded.Some?)
    && (st.form.kind == Video ==> st.form.videoURL != "")
  }

  /** `handleSubmit`. A PDF note needs a file and a video note a link; the PDF goes to the file
      host first (`uploaded` is the link it returns, `None` when the request fails), then the note
      is written as pending (`ok` says whether the write was accepted). Only success clears the
      form and the file and shows the thank-you screen; a failure shows a banner and keeps what
      was typed. */
  function Submit(user: Option<User>, st: PageState, uploaded: Option<string>, s: Store, newId: Id, now: int, ok: bool)
    : (r: SubmitResult)
    requires newId !in s.notes
    ensures st.form.kind == Pdf && st.file.None? ==>
      r == SubmitResult(Skipped(MissingFile), st.(error := Some(NoFile)), s)
    ensures st.form.kind == Video && st.form.videoURL == "" ==>
      r == SubmitResult(Skipped(MissingVideoUrl), st.(error := Some(NoVideoUrl)), s)
    ensures r.outcome == Succeeded <==> Ready(st, uploaded) && ok
    ensures r.outcome == Succeeded ==>
      && r.store.notes == s.notes[newId := UploadRecord(st.form, user, FinalUrl(st.form, uploaded).value, newId, now)]
      && r.store.users == s.users && r.store.comments == s.comments
      && r.page == PageState(BlankForm, None, None, true)
    ensures r.outcome == Failed ==> r == SubmitResult(Failed, st.(error := Some(UploadFailed)), s)
    ensures WellFormed(s) ==> WellFormed(r.store)
  {
    if st.form.kind == Pdf && st.file.None? then SubmitResult(Skipped(MissingFile), st.(error := Some(NoFile)), s)
    else if st.form.kind == Video && st.form.videoURL == "" then
      SubmitResult(Skipped(MissingVideoUrl), st.(error := Some(NoVideoUrl)), s)
    else
      match FinalUrl(st.form, uploaded)
      case None => SubmitResult(Failed, st.(error := Some(UploadFailed)), s)
      case Some(url) =>
        if !ok then SubmitResult(Failed, st.(error := Some(UploadFailed)), s)
        else
          var note := UploadRecord(st.form, user, url, newId, now);
          SubmitResult(Succeeded, PageState(BlankForm, None, None, true), s.(notes := s.notes[newId := note]))
  }

  /** "Upload another": leaves the thank-you screen, keeping the cleared form. */
  function UploadAnother(st: PageState): (st': PageState)
    ensures !st'.success && st'.form == st.form && st'.file == st.file
  {
    st.(success := false)
  }

  /** After a success and "upload another" the page is the one a signed-out visitor first sees:
      the uploader name is cleared too, even for a signed-in account. */
  lemma SecondUploadStartsBlank(user: Option<User>, st: PageState, uploaded: Option<string>, s: Store, newId: Id, now: int)
    requires newId !in s.notes && Ready(st, uploaded)
    ensures UploadAnother(Submit(user, st, uploaded, s, newId, now, true).page) == InitialPage(None)
  {
  }

  // ---------------------------------------------------------------- moderation

  /** A submitted note stays off every subject page and out of the popular list until an
      administrator approves it; once approved it is listed under its department and
      semester. */
  lemma UploadWaitsForApproval(user: Option<User>, st: PageState, uploaded: Option<string>, s: Store, newId: Id, now: int)
    requires newId !in s.notes && Ready(st, uploaded)
    ensures var s1 := Submit(user, st, uploaded, s, newId, now, true).store;
      && newId in s1.notes
      && (forall d, sem :: !SubjectDetail.InScope(s1.notes[newId], d, sem))
      && var s2 := Admin.Approve(true, s1, newId, true).1;
         SubjectDetail.InScope(s2.notes[newId], st.form.departmentId, SubjectDetail.SemesterNumber(st.form.semester))
  {
    var s1 := Submit(user, st, uploaded, s, newId, now, true).store;
    assert s1.notes[newId].semester == SemesterValue(st.form.semester);
    assert SubjectDetail.SemesterNumber(st.form.semester) == Some(SemesterValue(st.form.semester));
  }
}
