/** The sign-in side effect on the profile collection, and the administrator flag the pages read
    from the authentication context. */
module Auth {
  import opened Types
  import NoteCard
  import Admin

  /** The profile document written for an account seen for the first time. */
  function NewProfile(u: User): (d: UserDoc)
    ensures d.uid == u.uid && d.role == Student && d.bookmarks == []
  {
    UserDoc(u.uid, Student, [])
  }

  /** The auth-state listener for a signed-in account: reads `users/{uid}` and creates it when
      missing (`ok` is whether both reads and the write go through). When a call fails the
      listener stops before publishing the account, so the app keeps its previous user `prev`. */
  function SignedIn(u: User, prev: Option<User>, s: Store, ok: bool): (r: (Option<User>, Store))
    ensures !ok ==> r == (prev, s)
    ensures ok ==>
      && r.0 == Some(u)
      && u.uid in r.1.users
      && r.1.notes == s.notes && r.1.comments == s.comments
      && (forall k :: k in s.users ==> k in r.1.users && r.1.users[k] == s.users[k])
      && (u.uid !in s.users ==> r.1.users[u.uid] == NewProfile(u))
      && r.1.users.Keys == s.users.Keys + {u.uid}
  {
    if !ok then (prev, s)
    else if u.uid in s.users then (Some(u), s)
    else (Some(u), s.(users := s.users[u.uid := NewProfile(u)]))
  }

  /** Once an account is signed in its bookmark flags follow the store: the card's check never
      falls back to its previous value. */
  lemma SignedInHeartFollowsStore(u: User, prev: Option<User>, s: Store, noteId: Id, current: bool)
    ensures var r := SignedIn(u, prev, s, true);
      NoteCard.CheckBookmark(r.0, r.1, noteId, current) <==> noteId in NoteCard.BookmarksOf(r.1, u.uid)
  {
  }

  // ---------------------------------------------------------------- the administrator flag

  /** `isAdmin` as the pages receive it: the context value has no such field, so it reads as
      `undefined`, which is falsy, for every account. */
  function ProvidedIsAdmin(user: Option<User>, s: Store): (r: bool)
    ensures !r
  {
    false
  }

  /** The flag the pages evidently expect: the signed-in account's profile has the administrator
      role. */
  function IsAdmin(user: Option<User>, s: Store): (r: bool)
    ensures r <==> user.Some? && user.value.uid in s.users && s.users[user.value.uid].role == Admin
  {
    match user
    case None => false
    case Some(u) => u.uid in s.users && s.users[u.uid].role == Types.Admin
  }

  /** As written no account can moderate: approval is always refused, and a card deletes a note
      only for its own uploader. */
  lemma NobodyModeratesAsWritten(user: Option<User>, s: Store, note: Note, confirmed: bool, ok: bool)
    ensures Admin.Approve(ProvidedIsAdmin(user, s), s, note.id, ok) == (Skipped(Unauthorized), s)
    ensures NoteCard.HandleDelete(ProvidedIsAdmin(user, s), user, note, confirmed, s, ok).0 == Succeeded ==>
      user.Some? && note.userId == Some(user.value.uid)
  {
  }

  /** With the intended flag an account with the administrator role approves any existing note
      and deletes any note from its card; a newly created account is never an administrator. */
  lemma AdministratorsModerate(u: User, s: Store, note: Note, prev: Option<User>)
    requires u.uid in s.users && s.users[u.uid].role == Types.Admin && note.id in s.notes
    ensures Admin.Approve(IsAdmin(Some(u), s), s, note.id, true).0 == Succeeded
    ensures NoteCard.HandleDelete(IsAdmin(Some(u), s), Some(u), note, true, s, true).0 == Succeeded
    ensures forall v: User :: v.uid !in s.users ==> !IsAdmin(Some(v), SignedIn(v, prev, s, true).1)
  {
  }
}
