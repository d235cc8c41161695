/** The profile page: the signed-in account's own uploads and its bookmarked notes. */
module Profile {
  import opened Types
  import opened Seqs
  import NoteCard
  import Upload

  // ---------------------------------------------------------------- uploads

  predicate OwnedBy(n: Note, uid: Id) { n.userId == Some(uid) }

  function OwnedByOf(uid: Id): Note -> bool {
    n => OwnedBy(n, uid)
  }

  /** The uploads query: every note whose owner is the account, pending or approved, in the
      order the store delivers them (`docs` is the notes collection as delivered). */
  function Uploads(docs: seq<Note>, uid: Id): (r: seq<Note>)
    ensures forall n :: n in r <==> n in docs && n.userId == Some(uid)
    ensures IsSubsequence(r, docs)
  {
    FilterIsSubsequence(docs, OwnedByOf(uid));
    Filter(docs, OwnedByOf(uid))
  }

  // ---------------------------------------------------------------- bookmarks

  function PresentIn(notes: map<Id, Note>): Id -> bool {
    k => k in notes
  }

  /** The bookmarked notes: one per bookmarked id whose note still exists, in bookmark order;
      ids of deleted notes are skipped. */
  function Resolve(ids: seq<Id>, notes: map<Id, Note>): (r: seq<Note>)
    ensures var found := Filter(ids, PresentIn(notes));
      && |r| == |found|
      && forall i :: 0 <= i < |r| ==> found[i] in notes && r[i] == notes[found[i]]
    ensures |r| <= |ids|
    ensures (forall k :: k in ids ==> k in notes) ==> |r| == |ids|
    decreases |ids|
  {
    if |ids| == 0 then []
    else
      var init := ids[..|ids| - 1];
      var last := ids[|ids| - 1];
      assert ids == init + [last];
      FilterAppend(init, [last], PresentIn(notes));
      var r0 := Resolve(init, notes);
      if last in notes then r0 + [notes[last]] else r0
  }

  /** Every bookmarked id whose note exists contributes that note. */
  lemma ResolveHas(ids: seq<Id>, notes: map<Id, Note>, k: Id)
    requires k in ids && k in notes
    ensures notes[k] in Resolve(ids, notes)
  {
    var found := Filter(ids, PresentIn(notes));
    assert k in found;
    var i :| 0 <= i < |found| && found[i] == k;
    assert Resolve(ids, notes)[i] == notes[k];
  }

  /** Every resolved note is the note of some bookmarked id. */
  lemma ResolveOnlyBookmarked(ids: seq<Id>, notes: map<Id, Note>, n: Note)
    requires n in Resolve(ids, notes)
    ensures exists k :: k in ids && k in notes && notes[k] == n
  {
    var r := Resolve(ids, notes);
    var i :| 0 <= i < |r| && r[i] == n;
    var found := Filter(ids, PresentIn(notes));
    assert found[i] in found;
  }

  /** The fetch loop: one read per bookmarked id, keeping the notes that exist. */
  method ResolveBookmarks(ids: seq<Id>, notes: map<Id, Note>) returns (r: seq<Note>)
    ensures r == Resolve(ids, notes)
    ensures |r| <= |ids|
  {
    r := [];
    for i := 0 to |ids|
      invariant r == Resolve(ids[..i], notes)
    {
      assert ids[..i + 1][..i] == ids[..i];
      if ids[i] in notes {
        r := r + [notes[ids[i]]];
      }
    }
    assert ids[..|ids|] == ids;
  }

  // ---------------------------------------------------------------- loading the page

  /** The two lists the page shows. They live as long as the page, across sign-out and
      sign-in. */
  datatype ProfileState = ProfileState(uploads: seq<Note>, bookmarks: seq<Note>)

  const EmptyProfile := ProfileState([], [])

  /** The fetch effect as written: nothing without an account or when a read fails (`ok`); the
      bookmarked list is replaced only when the account's profile lists at least one id, so
      otherwise it keeps whatever it showed before. */
  function LoadAsWritten(user: Option<User>, st: ProfileState, docs: seq<Note>, s: Store, ok: bool): (st': ProfileState)
    ensures user.None? || !ok ==> st' == st
    ensures user.Some? && ok ==> st'.uploads == Uploads(docs, user.value.uid)
    ensures user.Some? && ok && |NoteCard.BookmarksOf(s, user.value.uid)| > 0 ==>
      st'.bookmarks == Resolve(NoteCard.BookmarksOf(s, user.value.uid), s.notes)
    ensures user.Some? && ok && NoteCard.BookmarksOf(s, user.value.uid) == [] ==> st'.bookmarks == st.bookmarks
  {
    match user
    case None => st
    case Some(u) =>
      if !ok then st
      else
        var ids := NoteCard.BookmarksOf(s, u.uid);
        ProfileState(Uploads(docs, u.uid), if |ids| > 0 then Resolve(ids, s.notes) else st.bookmarks)
  }

  /** The fetch effect with the bookmarked list always replaced: an account without bookmarks
      sees an empty list. */
  function Load(user: Option<User>, st: ProfileState, docs: seq<Note>, s: Store, ok: bool): (st': ProfileState)
    ensures user.None? || !ok ==> st' == st
    ensures user.Some? && ok ==>
      && st'.uploads == Uploads(docs, user.value.uid)
      && st'.bookmarks == Resolve(NoteCard.BookmarksOf(s, user.value.uid), s.notes)
  {
    match user
    case None => st
    case Some(u) =>
      if !ok then st
      else ProfileState(Uploads(docs, u.uid), Resolve(NoteCard.BookmarksOf(s, u.uid), s.notes))
  }

  /** After a successful load the page shows the account's own lists, whatever it showed
      before, and agrees with the code as written whenever the account has bookmarks. */
  lemma LoadForgetsPrevious(u: User, st1: ProfileState, st2: ProfileState, docs: seq<Note>, s: Store)
    ensures Load(Some(u), st1, docs, s, true) == Load(Some(u), st2, docs, s, true)
    ensures |NoteCard.BookmarksOf(s, u.uid)| > 0 ==>
      Load(Some(u), st1, docs, s, true) == LoadAsWritten(Some(u), st1, docs, s, true)
  {
  }

  /** As written, an account with no bookmarks that signs in on a page that showed another
      account's bookmarks keeps seeing them; the corrected load shows none. */
  lemma StaleBookmarksAsWritten(a: User, b: User, s: Store, docs: seq<Note>)
    requires a.uid in s.users && |s.users[a.uid].bookmarks| > 0 && s.users[a.uid].bookmarks[0] in s.notes
    requires NoteCard.BookmarksOf(s, b.uid) == []
    ensures var shown := LoadAsWritten(Some(a), EmptyProfile, docs, s, true);
      && |LoadAsWritten(Some(b), shown, docs, s, true).bookmarks| > 0
      && Load(Some(b), shown, docs, s, true).bookmarks == []
  {
    var ids := s.users[a.uid].bookmarks;
    ResolveHas(ids, s.notes, ids[0]);
  }

  // ---------------------------------------------------------------- links to other pages

  /** A note submitted on the upload page by a signed-in account shows among that account's
      uploads at once, while it is still pending. */
  lemma SubmittedNoteInUploads(u: User, page: Upload.PageState, uploaded: Option<string>, s: Store, newId: Id,
                               now: int, docs: seq<Note>)
    requires newId !in s.notes && u.uid != "" && Upload.Ready(page, uploaded)
    requires var s1 := Upload.Submit(Some(u), page, uploaded, s, newId, now, true).store;
      forall k :: k in s1.notes ==> s1.notes[k] in docs
    ensures var s1 := Upload.Submit(Some(u), page, uploaded, s, newId, now, true).store;
      && s1.notes[newId] in Load(Some(u), EmptyProfile, docs, s1, true).uploads
      && s1.notes[newId].status == Pending
  {
    var s1 := Upload.Submit(Some(u), page, uploaded, s, newId, now, true).store;
    assert newId in s1.notes;
  }

  /** A note bookmarked from its card shows among the bookmarks the next time the profile
      loads, as long as the note exists. */
  lemma BookmarkedNoteInProfile(u: User, noteId: Id, s: Store, docs: seq<Note>, st: ProfileState)
    requires u.uid in s.users && noteId in s.notes
    ensures var s1 := NoteCard.ToggleBookmark(Some(u), false, noteId, s, true).store;
      s.notes[noteId] in Load(Some(u), st, docs, s1, true).bookmarks
  {
    var s1 := NoteCard.ToggleBookmark(Some(u), false, noteId, s, true).store;
    assert noteId in NoteCard.BookmarksOf(s1, u.uid);
    ResolveHas(NoteCard.BookmarksOf(s1, u.uid), s1.notes, noteId);
  }
}
