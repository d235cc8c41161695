/** The note detail dialog: the comment list of a note, the star rating and comment form,
    and the footer button that opens the resource. */
module NoteDetailModal {
  import opened Types
  import opened Seqs
  import opened Sorting
  import opened JsString
  import NoteCard

  // ---------------------------------------------------------------- comment list

  function CommentTime(c: Comment): int { c.createdAt }

  predicate IsCommentOn(c: Comment, noteId: Id) { c.noteId == noteId }

  function IsCommentOnOf(noteId: Id): Comment -> bool {
    c => IsCommentOn(c, noteId)
  }

  /** The comment listener of an open dialog: the comments on the note, newest first (`docs` is
      the collection in the order the store delivers it). */
  function CommentsOf(docs: seq<Comment>, noteId: Id): (r: seq<Comment>)
    ensures forall c :: c in r <==> c in docs && c.noteId == noteId
    ensures multiset(r) == multiset(Filter(docs, IsCommentOnOf(noteId)))
    ensures NonIncreasing(r, CommentTime)
  {
    var r := SortDesc(Filter(docs, IsCommentOnOf(noteId)), CommentTime);
    assert forall c :: c in r <==> c in multiset(r);
    r
  }

  // ---------------------------------------------------------------- comment form

  /** A value of the five star buttons. */
  type Stars = r: int | 1 <= r <= 5 witness 5

  datatype CommentForm = CommentForm(text: string, rating: Stars)

  /** The form as the dialog opens it, and as a successful post leaves it: no text, five stars. */
  const EmptyCommentForm := CommentForm("", 5)

  /** A star button sets the rating and keeps the text. */
  function ClickStar(f: CommentForm, k: Stars): (f': CommentForm)
    ensures f'.text == f.text && f'.rating == k
  {
    f.(rating := k)
  }

  /** Star `k` is drawn filled when it does not exceed the rating. */
  predicate Lit(k: Stars, rating: int) { k <= rating }

  /** After clicking star `k` the filled stars are exactly the first `k`. */
  lemma ClickLightsPrefix(f: CommentForm, k: Stars)
    ensures forall j: Stars :: Lit(j, ClickStar(f, k).rating) <==> j <= k
  {
  }

  /** The send button is enabled, and the handler goes past its guard, for a signed-in user
      with text that is not only whitespace. */
  predicate CanPost(user: Option<User>, text: string) {
    user.Some? && Trim(text) != ""
  }

  /** The document written for a comment; the text is stored as typed, untrimmed. */
  function CommentRecord(u: User, noteId: Id, f: CommentForm, now: int): (c: Comment)
    ensures c.noteId == noteId && c.userId == u.uid && c.text == f.text
    ensures c.userName == u.displayName && c.userPhoto == u.photoURL
    ensures 1 <= c.rating <= 5 && c.rating == f.rating && c.createdAt == now
  {
    Comment(noteId, u.uid, u.displayName, u.photoURL, f.text, f.rating, now)
  }

  /** The comment counter of a note; an absent counter reads as zero. */
  function CommentCount(s: Store, id: Id): nat
    requires id in s.notes
  {
    s.notes[id].commentCount.GetOr(0)
  }

  datatype PostResult = PostResult(outcome: Outcome, form: CommentForm, store: Store)

  /** The two writes of a post that passed the guard: the comment (`addOk`), then the
      increment of the note's comment counter (`updateOk`; the update also fails when the note is
      gone). The writes are separate: when the second fails the comment stays but the counter
      does not move. The form is cleared only when both succeed. */
  function WriteComment(u: User, noteId: Id, f: CommentForm, s: Store, newId: Id, now: int,
                        addOk: bool, updateOk: bool): (r: PostResult)
    requires newId !in s.comments
    ensures r.outcome == Succeeded || r.outcome == Failed
    ensures r.outcome == Succeeded <==> addOk && updateOk && noteId in s.notes
    ensures addOk ==> r.store.comments == s.comments[newId := CommentRecord(u, noteId, f, now)]
    ensures !addOk ==> r.store == s
    ensures r.outcome == Succeeded ==>
      && r.form == EmptyCommentForm
      && r.store.users == s.users
      && r.store.notes.Keys == s.notes.Keys
      && (forall k :: k in s.notes && k != noteId ==> r.store.notes[k] == s.notes[k])
      && r.store.notes[noteId] == s.notes[noteId].(commentCount := Some(CommentCount(s, noteId) + 1))
    ensures r.outcome == Failed ==> r.form == f && r.store.notes == s.notes && r.store.users == s.users
    ensures WellFormed(s) ==> WellFormed(r.store)
  {
    if !addOk then PostResult(Failed, f, s)
    else
      var s1 := s.(comments := s.comments[newId := CommentRecord(u, noteId, f, now)]);
      if updateOk && noteId in s.notes then
        var n := s.notes[noteId];
        PostResult(Succeeded, EmptyCommentForm,
                   s1.(notes := s.notes[noteId := n.(commentCount := Some(n.commentCount.GetOr(0) + 1))]))
      else PostResult(Failed, f, s1)
  }

  /** `handleSubmitComment`: nothing is written without an account or for text that is only
      whitespace; otherwise the two writes follow. */
  function PostComment(user: Option<User>, noteId: Id, f: CommentForm, s: Store, newId: Id, now: int,
                       addOk: bool, updateOk: bool): (r: PostResult)
    requires newId !in s.comments
    ensures user.None? ==> r == PostResult(Skipped(Unauthenticated), f, s)
    ensures user.Some? && !CanPost(user, f.text) ==> r == PostResult(Skipped(EmptyComment), f, s)
    ensures CanPost(user, f.text) ==> r == WriteComment(user.value, noteId, f, s, newId, now, addOk, updateOk)
    ensures r.outcome == Succeeded <==> CanPost(user, f.text) && addOk && updateOk && noteId in s.notes
  {
    if user.None? then PostResult(Skipped(Unauthenticated), f, s)
    else if !CanPost(user, f.text) then PostResult(Skipped(EmptyComment), f, s)
    else WriteComment(user.value, noteId, f, s, newId, now, addOk, updateOk)
  }

  // ---------------------------------------------------------------- counter and comments agree

  /** The ids of the comment documents about a note. */
  function CommentIds(s: Store, noteId: Id): set<Id> {
    set k | k in s.comments && s.comments[k].noteId == noteId
  }

  /** The note's counter equals the number of comments written about it. */
  ghost predicate CountAgrees(s: Store, noteId: Id) {
    noteId in s.notes && CommentCount(s, noteId) == |CommentIds(s, noteId)|
  }

  lemma CommentIdsAdd(s: Store, noteId: Id, newId: Id, c: Comment)
    requires newId !in s.comments && c.noteId == noteId
    ensures CommentIds(s.(comments := s.comments[newId := c]), noteId) == CommentIds(s, noteId) + {newId}
    ensures |CommentIds(s.(comments := s.comments[newId := c]), noteId)| == |CommentIds(s, noteId)| + 1
  {
    var s' := s.(comments := s.comments[newId := c]);
    assert CommentIds(s', noteId) == CommentIds(s, noteId) + {newId};
    assert newId !in CommentIds(s, noteId);
  }

  /** A post that succeeds keeps the counter in step with the comments; a post whose counter
      update fails leaves the counter one short. */
  lemma PostKeepsCount(user: Option<User>, noteId: Id, f: CommentForm, s: Store, newId: Id, now: int, updateOk: bool)
    requires newId !in s.comments && CountAgrees(s, noteId) && CanPost(user, f.text)
    ensures var r := PostComment(user, noteId, f, s, newId, now, true, updateOk);
      if updateOk then CountAgrees(r.store, noteId)
      else noteId in r.store.notes && CommentCount(r.store, noteId) + 1 == |CommentIds(r.store, noteId)|
  {
    var r := PostComment(user, noteId, f, s, newId, now, true, updateOk);
    CommentIdsAdd(s, noteId, newId, CommentRecord(user.value, noteId, f, now));
    assert CommentIds(r.store, noteId) == CommentIds(s.(comments := r.store.comments), noteId);
  }

  /** A posted comment shows up in the dialog's list once the listener delivers the
      collection (`docs` holds every stored comment). */
  lemma PostedCommentIsListed(user: Option<User>, noteId: Id, f: CommentForm, s: Store, newId: Id, now: int,
                              updateOk: bool, docs: seq<Comment>)
    requires newId !in s.comments && CanPost(user, f.text)
    requires var m := PostComment(user, noteId, f, s, newId, now, true, updateOk).store.comments;
      forall k :: k in m ==> m[k] in docs
    ensures CommentRecord(user.value, noteId, f, now) in CommentsOf(docs, noteId)
  {
    var m := PostComment(user, noteId, f, s, newId, now, true, updateOk).store.comments;
    assert newId in m;
  }

  // ---------------------------------------------------------------- footer

  /** The footer button: closes the dialog and opens the file in a new tab, through the
      attachment link for files on the file host. Unlike the card it records no download. */
  function Footer(note: Note, s: Store): (r: (NoteCard.View, Store))
    ensures r.1 == s
    ensures r.0 == NoteCard.TabOpened(NoteCard.DownloadUrl(note.fileURL))
  {
    (NoteCard.TabOpened(NoteCard.DownloadUrl(note.fileURL)), s)
  }

  /** For a PDF the footer opens the same link as the card's button, which also counts a
      download; for a video the footer opens the link in a tab instead of the player. */
  lemma FooterAgreesWithCard(note: Note, s: Store, ok: bool)
    ensures note.kind == Pdf ==> Footer(note, s).0 == NoteCard.HandleAction(note, s, ok).0
    ensures note.kind == Pdf && ok && note.id in s.notes ==>
      NoteCard.Downloads(NoteCard.HandleAction(note, s, ok).1, note.id) == NoteCard.Downloads(Footer(note, s).1, note.id) + 1
    ensures note.kind == Video ==> Footer(note, s).0 != NoteCard.HandleAction(note, s, ok).0
  {
  }
}
