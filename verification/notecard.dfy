/** The note card: its preview image, the download link it opens, the download counter,
    the bookmark toggle and the delete button. */
module NoteCard {
  import opened Types
  import opened JsString
  import opened YouTube
  import opened Firestore
  import opened VideoModal

  // ---------------------------------------------------------------- preview image

  function PlaceholderUrl(noteId: Id): string {
    "https://picsum.photos/seed/" + noteId + "/600/400"
  }

  function YouTubeThumbnailUrl(videoId: string): string {
    "https://img.youtube.com/vi/" + videoId + "/maxresdefault.jpg"
  }

  const CloudinaryHost := "cloudinary.com"
  const UploadSegment := "/upload/"
  /** The transformation inserted after `/upload/` to render the first page as a 600x400 image. */
  const PreviewTransform := "c_fill,h_400,w_600,pg_1,f_auto/"
  /** The flag inserted after `/upload/` to make the file download as an attachment. */
  const AttachmentFlag := "fl_attachment/"

  lemma PlaceholderIsNotThumbnail(noteId: Id, videoId: string)
    ensures PlaceholderUrl(noteId) != YouTubeThumbnailUrl(videoId)
  {
    assert PlaceholderUrl(noteId)[8] == 'p';
    assert YouTubeThumbnailUrl(videoId)[8] == 'i';
  }

  /** A Cloudinary PDF rendered as an image: the first `.pdf` becomes `.jpg` (same length),
      then the preview transformation goes in after the first `/upload/`. */
  function CloudinaryPreviewUrl(url: string): (r: string)
    ensures var jpg := ReplaceFirst(url, ".pdf", ".jpg");
      && |jpg| == |url|
      && (!Includes(jpg, UploadSegment) ==> r == jpg)
      && (Includes(jpg, UploadSegment) ==>
            var i := IndexOf(jpg, UploadSegment).value;
            && |r| == |url| + |PreviewTransform|
            && IndexOf(r, UploadSegment) == Some(i)
            && r[i + |UploadSegment|..i + |UploadSegment| + |PreviewTransform|] == PreviewTransform
            && r[..i + |UploadSegment|] + r[i + |UploadSegment| + |PreviewTransform|..] == jpg)
  {
    var jpg := ReplaceFirst(url, ".pdf", ".jpg");
    var r := ReplaceFirst(jpg, UploadSegment, UploadSegment + PreviewTransform);
    if Includes(jpg, UploadSegment) then
      ReplaceFirstByExtension(jpg, UploadSegment, PreviewTransform);
      r
    else r
  }

  /** `getThumbnailUrl(url, type)` for the card of note `noteId`. */
  function ThumbnailUrl(url: string, kind: NoteKind, noteId: Id): (r: string)
    ensures kind == Video ==> (r == PlaceholderUrl(noteId) <==> GetYouTubeId(url).None?)
    ensures kind == Video && GetYouTubeId(url).Some? ==> r == YouTubeThumbnailUrl(GetYouTubeId(url).value)
    ensures kind == Pdf ==> (r == PlaceholderUrl(noteId) <==> !Includes(url, CloudinaryHost) || CloudinaryPreviewUrl(url) == PlaceholderUrl(noteId))
    ensures kind == Pdf && Includes(url, CloudinaryHost) ==> r == CloudinaryPreviewUrl(url)
  {
    match kind
    case Video =>
      (match GetYouTubeId(url)
       case Some(id) =>
         PlaceholderIsNotThumbnail(noteId, id);
         YouTubeThumbnailUrl(id)
       case None => PlaceholderUrl(noteId))
    case Pdf =>
      if Includes(url, CloudinaryHost) then CloudinaryPreviewUrl(url) else PlaceholderUrl(noteId)
  }

  /** A short YouTube link gets the video's own thumbnail. */
  lemma ShortLinkThumbnail(id: string, noteId: Id)
    requires IsVideoId(id)
    ensures ThumbnailUrl("https://youtu.be/" + id, Video, noteId) == YouTubeThumbnailUrl(id)
  {
    ShortLinkExtracted(id);
  }

  /** A video card shows the video's own thumbnail exactly when its player would render: the
      card and the player extract the id with the same expression. */
  lemma ThumbnailIffPlayable(url: string, noteId: Id)
    ensures ThumbnailUrl(url, Video, noteId) != PlaceholderUrl(noteId) <==> Renders(true, url)
  {
  }

  // ---------------------------------------------------------------- download

  /** The link a PDF card opens: for Cloudinary URLs `fl_attachment/` goes in after the first
      `/upload/`, so the browser downloads the file instead of displaying it. */
  function DownloadUrl(url: string): (r: string)
    ensures !Includes(url, CloudinaryHost) || !Includes(url, UploadSegment) ==> r == url
    ensures Includes(url, CloudinaryHost) && Includes(url, UploadSegment) ==>
      var i := IndexOf(url, UploadSegment).value;
      && |r| == |url| + |AttachmentFlag|
      && IndexOf(r, UploadSegment) == Some(i)
      && r[i + |UploadSegment|..i + |UploadSegment| + |AttachmentFlag|] == AttachmentFlag
      && r[..i + |UploadSegment|] + r[i + |UploadSegment| + |AttachmentFlag|..] == url
  {
    if Includes(url, CloudinaryHost) then
      var r := ReplaceFirst(url, UploadSegment, UploadSegment + AttachmentFlag);
      if Includes(url, UploadSegment) then
        ReplaceFirstByExtension(url, UploadSegment, AttachmentFlag);
        r
      else r
    else url
  }

  /** The number of downloads recorded for a note; an absent counter reads as zero. */
  function Downloads(s: Store, id: Id): nat
    requires id in s.notes
  {
    s.notes[id].downloads.GetOr(0)
  }

  /** `updateDoc(noteRef, { downloads: increment(1) })`: fails when the note is gone. */
  function IncrementDownloads(s: Store, id: Id, ok: bool): (s': Store)
    ensures ok && id in s.notes ==>
      && OnlyNoteChanged(s, s', id)
      && Downloads(s', id) == Downloads(s, id) + 1
      && s'.notes[id] == s.notes[id].(downloads := s'.notes[id].downloads)
    ensures !ok || id !in s.notes ==> s' == s
    ensures WellFormed(s) ==> WellFormed(s')
  {
    if ok && id in s.notes then
      var n := s.notes[id];
      s.(notes := s.notes[id := n.(downloads := Some(n.downloads.GetOr(0) + 1))])
    else s
  }

  /** What the card shows after its main action. */
  datatype View = VideoModalOpened | TabOpened(url: string)

  /** `handleAction`: a video opens the player; a PDF opens its download link and the
      download counter is bumped. `ok` is whether the store accepted the write. */
  function HandleAction(note: Note, s: Store, ok: bool): (r: (View, Store))
    ensures note.kind == Video ==> r.0 == VideoModalOpened && r.1 == s
    ensures note.kind == Pdf ==> r.0 == TabOpened(DownloadUrl(note.fileURL))
    ensures note.kind == Pdf && ok && note.id in s.notes ==>
      OnlyNoteChanged(s, r.1, note.id) && Downloads(r.1, note.id) == Downloads(s, note.id) + 1
    ensures note.kind == Pdf && !(ok && note.id in s.notes) ==> r.1 == s
  {
    match note.kind
    case Video => (VideoModalOpened, s)
    case Pdf => (TabOpened(DownloadUrl(note.fileURL)), IncrementDownloads(s, note.id, ok))
  }

  // ---------------------------------------------------------------- bookmarks

  /** The bookmark list stored for `uid`; a missing list reads as empty. */
  function BookmarksOf(s: Store, uid: Id): seq<Id> {
    if uid in s.users then s.users[uid].bookmarks else []
  }

  /** The `checkBookmark` effect: the heart is filled when the user's profile lists the note.
      Without a user, or without a profile document, the flag keeps its current value. */
  function CheckBookmark(user: Option<User>, s: Store, noteId: Id, current: bool): (flag: bool)
    ensures user.Some? && user.value.uid in s.users ==> (flag <==> noteId in BookmarksOf(s, user.value.uid))
    ensures user.None? || user.value.uid !in s.users ==> flag == current
  {
    match user
    case None => current
    case Some(u) => if u.uid in s.users then noteId in s.users[u.uid].bookmarks else current
  }

  datatype ToggleResult = ToggleResult(outcome: Outcome, bookmarked: bool, store: Store)

  /** `toggleBookmark`: removes the note from the user's bookmarks when the heart is filled,
      adds it otherwise. The update fails when the profile document does not exist. */
  function ToggleBookmark(user: Option<User>, bookmarked: bool, noteId: Id, s: Store, ok: bool): (r: ToggleResult)
    ensures user.None? ==> r == ToggleResult(Skipped(Unauthenticated), bookmarked, s)
    ensures user.Some? && !(ok && user.value.uid in s.users) ==> r == ToggleResult(Failed, bookmarked, s)
    ensures r.outcome == Succeeded <==> user.Some? && ok && user.value.uid in s.users
    ensures r.outcome == Succeeded ==>
      var uid := user.value.uid;
      && r.bookmarked == !bookmarked
      && (r.bookmarked <==> noteId in BookmarksOf(r.store, uid))
      && r.store.notes == s.notes && r.store.comments == s.comments
      && r.store.users.Keys == s.users.Keys
      && (forall k :: k in s.users && k != uid ==> r.store.users[k] == s.users[k])
      && r.store.users[uid].role == s.users[uid].role
      && (forall x :: x != noteId ==> (x in BookmarksOf(r.store, uid) <==> x in BookmarksOf(s, uid)))
  {
    match user
    case None => ToggleResult(Skipped(Unauthenticated), bookmarked, s)
    case Some(u) =>
      if !(ok && u.uid in s.users) then ToggleResult(Failed, bookmarked, s)
      else
        var d := s.users[u.uid];
        var marks := if bookmarked then ArrayRemove(d.bookmarks, noteId) else ArrayUnion(d.bookmarks, noteId);
        ToggleResult(Succeeded, !bookmarked, s.(users := s.users[u.uid := d.(bookmarks := marks)]))
  }

  /** Two successful toggles starting from an accurate, empty heart leave the bookmark list
      exactly as it was. */
  lemma ToggleTwiceRestores(u: User, noteId: Id, s: Store)
    requires u.uid in s.users && noteId !in s.users[u.uid].bookmarks
    ensures var r1 := ToggleBookmark(Some(u), false, noteId, s, true);
      var r2 := ToggleBookmark(Some(u), r1.bookmarked, noteId, r1.store, true);
      r2.bookmarked == false && r2.store == s
  {
    var d := s.users[u.uid];
    RemoveUndoesUnion(d.bookmarks, noteId);
    var r1 := ToggleBookmark(Some(u), false, noteId, s, true);
    assert r1.store.users[u.uid] == d.(bookmarks := d.bookmarks + [noteId]);
    var r2 := ToggleBookmark(Some(u), r1.bookmarked, noteId, r1.store, true);
    assert r2.store.users[u.uid] == d;
    assert r2.store.users == s.users;
  }

  /** After a successful toggle the heart agrees with the store, even when it did not before:
      a stale flag is corrected by the next click rather than compounded. */
  lemma ToggleThenCheckAgrees(u: User, bookmarked: bool, noteId: Id, s: Store)
    requires u.uid in s.users
    ensures var r := ToggleBookmark(Some(u), bookmarked, noteId, s, true);
      CheckBookmark(Some(u), r.store, noteId, r.bookmarked) == r.bookmarked
  {
  }

  // ---------------------------------------------------------------- delete

  /** The condition under which the card shows its delete button: an administrator, or the
      signed-in uploader. */
  predicate ShowsDeleteButton(isAdmin: bool, user: Option<User>, note: Note) {
    isAdmin || (user.Some? && note.userId == Some(user.value.uid))
  }

  /** The early return of `handleDelete`: not an administrator, and either signed out or not
      the uploader. */
  predicate DeleteRefused(isAdmin: bool, user: Option<User>, note: Note) {
    !isAdmin && (user.None? || note.userId != Some(user.value.uid))
  }

  /** The handler refuses exactly the users for whom the button is hidden. */
  lemma DeleteGuardMatchesButton(isAdmin: bool, user: Option<User>, note: Note)
    ensures DeleteRefused(isAdmin, user, note) <==> !ShowsDeleteButton(isAdmin, user, note)
  {
  }

  /** `handleDelete`: after the permission check and the confirmation dialog the note document
      is deleted. Deleting a document that no longer exists succeeds. */
  function HandleDelete(isAdmin: bool, user: Option<User>, note: Note, confirmed: bool, s: Store, ok: bool): (r: (Outcome, Store))
    ensures DeleteRefused(isAdmin, user, note) ==> r == (Skipped(Unauthorized), s)
    ensures !DeleteRefused(isAdmin, user, note) && !confirmed ==> r == (Skipped(NotConfirmed), s)
    ensures r.0 == Succeeded <==> ShowsDeleteButton(isAdmin, user, note) && confirmed && ok
    ensures r.0 == Succeeded ==>
      note.id !in r.1.notes && r.1.users == s.users && r.1.comments == s.comments
      && (forall k :: k in s.notes && k != note.id ==> k in r.1.notes && r.1.notes[k] == s.notes[k])
      && r.1.notes.Keys == s.notes.Keys - {note.id}
    ensures r.0 != Succeeded ==> r.1 == s
    ensures WellFormed(s) ==> WellFormed(r.1)
  {
    if DeleteRefused(isAdmin, user, note) then (Skipped(Unauthorized), s)
    else if !confirmed then (Skipped(NotConfirmed), s)
    else if ok then (Succeeded, s.(notes := s.notes - {note.id}))
    else (Failed, s)
  }
}
