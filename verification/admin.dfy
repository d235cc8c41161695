/** The administrator dashboard: the counters, the moderation list with its tabs and search,
    approval, deletion, and the form that adds a video lecture directly. */
module Admin {
  import opened Types
  import opened Seqs
  import opened JsString
  import opened Tags
  import opened Firestore
  import SubjectDetail

  // ---------------------------------------------------------------- counters

  datatype Stats = Stats(total: nat, approved: nat, pending: nat)

  predicate IsApproved(n: Note) { n.status == Approved }
  predicate IsPending(n: Note) { n.status == Pending }

  /** The status of each note, in order. */
  function StatusesOf(notes: seq<Note>): (r: seq<Status>)
    ensures |r| == |notes| && forall i :: 0 <= i < |notes| ==> r[i] == notes[i].status
  {
    seq(|notes|, i requires 0 <= i < |notes| => notes[i].status)
  }

  /** The counters recomputed on every snapshot of the notes collection: each counter is how
      many times its status occurs among the notes. */
  function ComputeStats(notes: seq<Note>): (st: Stats)
    ensures st.total == |notes|
    ensures st.approved == multiset(StatusesOf(notes))[Approved]
    ensures st.pending == multiset(StatusesOf(notes))[Pending]
    ensures st.approved == |Filter(notes, IsApproved)| && st.pending == |Filter(notes, IsPending)|
  {
    CountStatus(notes, Approved, IsApproved);
    CountStatus(notes, Pending, IsPending);
    Stats(|notes|, |Filter(notes, IsApproved)|, |Filter(notes, IsPending)|)
  }

  /** Filtering by a status keeps as many notes as that status occurs. */
  lemma {:induction false} CountStatus(notes: seq<Note>, s: Status, p: Note -> bool)
    requires forall n :: p(n) <==> n.status == s
    ensures |Filter(notes, p)| == multiset(StatusesOf(notes))[s]
    decreases |notes|
  {
    if |notes| == 0 {
      assert StatusesOf(notes) == [];
    } else {
      CountStatus(notes[1..], s, p);
      assert StatusesOf(notes) == [notes[0].status] + StatusesOf(notes[1..]);
    }
  }

  /** Every note is either approved or pending, so the two counters add up to the total. */
  lemma StatsAddUp(notes: seq<Note>)
    ensures var st := ComputeStats(notes); st.approved + st.pending == st.total
  {
    FilterPartition(notes, IsApproved, IsPending);
  }

  // ---------------------------------------------------------------- moderation list

  datatype Tab = PendingTab | ApprovedTab | AllTab

  predicate MatchesTab(n: Note, tab: Tab) {
    match tab
    case AllTab => true
    case PendingTab => n.status == Pending
    case ApprovedTab => n.status == Approved
  }

  /** Title or uploader name contains the search term, ignoring case. */
  predicate MatchesTerm(n: Note, term: string) {
    Includes(Lower(n.title), Lower(term)) || Includes(Lower(n.uploadedBy), Lower(term))
  }

  function RowFilter(tab: Tab, term: string): Note -> bool {
    n => MatchesTab(n, tab) && MatchesTerm(n, term)
  }

  /** `filteredNotes`: the rows of the moderation table, in snapshot order. */
  function Rows(notes: seq<Note>, tab: Tab, term: string): (r: seq<Note>)
    ensures forall n :: n in r <==> n in notes && MatchesTab(n, tab) && MatchesTerm(n, term)
    ensures IsSubsequence(r, notes)
  {
    FilterIsSubsequence(notes, RowFilter(tab, term));
    Filter(notes, RowFilter(tab, term))
  }

  /** With an empty search the row count of each tab equals the counter on its button. */
  lemma TabCountsMatchStats(notes: seq<Note>)
    ensures |Rows(notes, PendingTab, "")| == ComputeStats(notes).pending
    ensures |Rows(notes, ApprovedTab, "")| == ComputeStats(notes).approved
    ensures |Rows(notes, AllTab, "")| == ComputeStats(notes).total
  {
    forall n | true ensures MatchesTerm(n, "") {
      IncludesEmpty(Lower(n.title));
    }
    FilterSameAs(notes, RowFilter(PendingTab, ""), IsPending);
    FilterSameAs(notes, RowFilter(ApprovedTab, ""), IsApproved);
    assert Rows(notes, AllTab, "") == notes;
  }

  lemma {:induction false} FilterSameAs(xs: seq<Note>, p: Note -> bool, q: Note -> bool)
    requires forall x :: p(x) == q(x)
    ensures Filter(xs, p) == Filter(xs, q)
    decreases |xs|
  {
    if |xs| > 0 {
      FilterSameAs(xs[1..], p, q);
    }
  }

  // ---------------------------------------------------------------- approve and delete

  /** The approve button appears on pending rows only. */
  predicate ShowsApproveButton(n: Note) { n.status == Pending }

  /** `handleApprove(id)`: sets the status to approved; fails when the note is gone. The page
      renders no controls unless the viewer is an administrator. */
  function Approve(isAdmin: bool, s: Store, id: Id, ok: bool): (r: (Outcome, Store))
    ensures !isAdmin ==> r == (Skipped(Unauthorized), s)
    ensures r.0 == Succeeded <==> isAdmin && ok && id in s.notes
    ensures r.0 == Succeeded ==>
      && OnlyNoteChanged(s, r.1, id)
      && r.1.notes[id] == s.notes[id].(status := Approved)
    ensures r.0 != Succeeded ==> r.1 == s
    ensures WellFormed(s) ==> WellFormed(r.1)
  {
    if !isAdmin then (Skipped(Unauthorized), s)
    else if ok && id in s.notes then (Succeeded, s.(notes := s.notes[id := s.notes[id].(status := Approved)]))
    else (Failed, s)
  }

  /** Approving twice is the same as approving once. */
  lemma ApproveIdempotent(s: Store, id: Id)
    ensures Approve(true, Approve(true, s, id, true).1, id, true).1 == Approve(true, s, id, true).1
  {
    if id in s.notes {
      var s1 := Approve(true, s, id, true).1;
      assert s1.notes[id].(status := Approved) == s1.notes[id];
      assert s1.notes[id := s1.notes[id]] == s1.notes;
    }
  }

  /** After an approval the row loses its approve button and the note enters the subject page
      of its department and semester. */
  lemma ApproveMakesVisible(s: Store, id: Id)
    requires id in s.notes
    ensures var s' := Approve(true, s, id, true).1;
      && !ShowsApproveButton(s'.notes[id])
      && SubjectDetail.InScope(s'.notes[id], s.notes[id].departmentId, Some(s.notes[id].semester))
  {
  }

  /** `handleDelete(id)` after the confirmation dialog. Deleting a missing note succeeds. */
  function Delete(isAdmin: bool, s: Store, id: Id, confirmed: bool, ok: bool): (r: (Outcome, Store))
    ensures !isAdmin ==> r == (Skipped(Unauthorized), s)
    ensures isAdmin && !confirmed ==> r == (Skipped(NotConfirmed), s)
    ensures r.0 == Succeeded <==> isAdmin && confirmed && ok
    ensures r.0 == Succeeded ==>
      && r.1.notes.Keys == s.notes.Keys - {id}
      && (forall k :: k in r.1.notes ==> r.1.notes[k] == s.notes[k])
      && r.1.users == s.users && r.1.comments == s.comments
    ensures r.0 != Succeeded ==> r.1 == s
    ensures WellFormed(s) ==> WellFormed(r.1)
  {
    if !isAdmin then (Skipped(Unauthorized), s)
    else if !confirmed then (Skipped(NotConfirmed), s)
    else if ok then (Succeeded, s.(notes := s.notes - {id}))
    else (Failed, s)
  }

  // ---------------------------------------------------------------- add video

  /** The values of the semester selector: `1` to `8`. */
  type SemesterOption = s: string | s in {"1", "2", "3", "4", "5", "6", "7", "8"} witness "1"

  /** `Number(newVideo.semester)` for a value of the selector. */
  function SemesterValue(s: SemesterOption): (n: nat)
    ensures 1 <= n <= 8
    ensures DecimalText(n) == s
  {
    if s == "1" then 1 else if s == "2" then 2 else if s == "3" then 3 else if s == "4" then 4
    else if s == "5" then 5 else if s == "6" then 6 else if s == "7" then 7 else 8
  }

  datatype VideoForm = VideoForm(
    title: string,
    videoURL: string,
    departmentId: string,
    semester: SemesterOption,
    courseCode: string,
    tags: string,
    uploadedBy: string)

  /** The form as the page first shows it, and as it is reset after a successful submission. */
  const EmptyVideoForm := VideoForm("", "", "", "1", "", "", "Admin")

  const AdminDescription := "অ্যাডমিন কর্তৃক সরাসরি যুক্ত করা হয়েছে।"

  /** The document written for a submitted form; `id` is the id the store assigns and `now`
      the server timestamp. */
  function VideoRecord(f: VideoForm, id: Id, now: int): (n: Note)
    ensures n.id == id && n.kind == Video && n.status == Approved
    ensures n.title == f.title && n.fileURL == f.videoURL && n.departmentId == f.departmentId
    ensures n.semester == SemesterValue(f.semester) && 1 <= n.semester <= 8
    ensures n.tags == Some(ParseTags(f.tags))
    ensures n.downloads == Some(0) && n.userId.None? && n.createdAt == Some(now)
  {
    Note(
      id := id,
      title := f.title,
      kind := Video,
      departmentId := f.departmentId,
      subjectId := None,
      courseCode := Some(f.courseCode),
      tags := Some(ParseTags(f.tags)),
      semester := SemesterValue(f.semester),
      description := AdminDescription,
      fileURL := f.videoURL,
      uploadedBy := f.uploadedBy,
      userId := None,
      status := Approved,
      downloads := Some(0),
      rating := None,
      commentCount := None,
      createdAt := Some(now))
  }

  datatype AddResult = AddResult(outcome: Outcome, form: VideoForm, formOpen: bool, store: Store)

  /** `handleAddVideo`: title, link and department are required; the video is stored already
      approved, and the form is cleared and closed only after the write succeeds. */
  function AddVideo(isAdmin: bool, f: VideoForm, s: Store, newId: Id, now: int, ok: bool): (r: AddResult)
    requires newId !in s.notes
    ensures !isAdmin ==> r == AddResult(Skipped(Unauthorized), f, true, s)
    ensures isAdmin && (f.title == "" || f.videoURL == "" || f.departmentId == "") ==>
      r == AddResult(Skipped(MissingFields), f, true, s)
    ensures r.outcome == Succeeded <==>
      isAdmin && f.title != "" && f.videoURL != "" && f.departmentId != "" && ok
    ensures r.outcome == Succeeded ==>
      && r.store.notes == s.notes[newId := VideoRecord(f, newId, now)]
      && r.store.users == s.users && r.store.comments == s.comments
      && r.form == EmptyVideoForm && !r.formOpen
    ensures r.outcome != Succeeded ==> r.store == s && r.form == f && r.formOpen
    ensures WellFormed(s) ==> WellFormed(r.store)
  {
    if !isAdmin then AddResult(Skipped(Unauthorized), f, true, s)
    else if f.title == "" || f.videoURL == "" || f.departmentId == "" then
      AddResult(Skipped(MissingFields), f, true, s)
    else if !ok then AddResult(Failed, f, true, s)
    else
      AddResult(Succeeded, EmptyVideoForm, false,
                s.(notes := s.notes[newId := VideoRecord(f, newId, now)]))
  }

  /** A video added by an administrator is visible at once on the subject page of its
      department and semester, with its tags in the tag bar. */
  lemma AddedVideoIsListed(f: VideoForm, s: Store, newId: Id, now: int, docs: seq<Note>)
    requires newId !in s.notes
    requires f.title != "" && f.videoURL != "" && f.departmentId != ""
    requires VideoRecord(f, newId, now) in docs
    ensures var listed := SubjectDetail.LoadNotes(docs, f.departmentId, f.semester);
      listed.Some? && VideoRecord(f, newId, now) in listed.value
    ensures forall t :: t in ParseTags(f.tags) ==>
      t in SubjectDetail.AllTags(SubjectDetail.LoadNotes(docs, f.departmentId, f.semester).value)
  {
    var n := VideoRecord(f, newId, now);
    assert SubjectDetail.SemesterNumber(f.semester) == Some(n.semester);
    var listed := SubjectDetail.LoadNotes(docs, f.departmentId, f.semester).value;
    assert n in listed;
  }
}
