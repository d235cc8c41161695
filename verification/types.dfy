/** Entities of the notes hub: the `Note` record of `src/types.ts`, the comment and
    user-profile documents, and the remote document store they live in. */
module Types {

  /** An optional value: `undefined`/`null` in the application is `None`. */
  datatype Option<+T> = None | Some(value: T) {
    /** `x || fallback` for a field that is either absent or present. */
    function GetOr(fallback: T): T {
      match this
      case Some(v) => v
      case None => fallback
    }
  }

  /** Document ids and user ids are opaque strings assigned by the store / auth provider. */
  type Id = string

  datatype NoteKind = Pdf | Video

  datatype Status = Pending | Approved

  /** A note document as the application reads it. Optional fields of the TypeScript
      interface are `Option`s; `createdAt` is the `seconds` part of the server timestamp. */
  datatype Note = Note(
    id: Id,
    title: string,
    kind: NoteKind,
    departmentId: string,
    subjectId: Option<string>,
    courseCode: Option<string>,
    tags: Option<seq<string>>,
    semester: int,
    description: string,
    fileURL: string,
    uploadedBy: string,
    userId: Option<Id>,
    status: Status,
    downloads: Option<nat>,
    rating: Option<real>,
    commentCount: Option<nat>,
    createdAt: Option<int>)

  /** The signed-in account as the auth provider reports it. */
  datatype User = User(uid: Id, displayName: Option<string>, photoURL: Option<string>)

  datatype Role = Student | Admin

  /** The `users/{uid}` profile document; `bookmarks` is a Firestore array of note ids. */
  datatype UserDoc = UserDoc(uid: Id, role: Role, bookmarks: seq<Id>)

  /** A `comments` document. */
  datatype Comment = Comment(
    noteId: Id,
    userId: Id,
    userName: Option<string>,
    userPhoto: Option<string>,
    text: string,
    rating: int,
    createdAt: int)

  /** The remote document store: one map per collection, keyed by document id. */
  datatype Store = Store(notes: map<Id, Note>, users: map<Id, UserDoc>, comments: map<Id, Comment>)

  /** Every note document carries its own document id (`{ id: doc.id, ...doc.data() }`). */
  ghost predicate WellFormed(s: Store) {
    forall k :: k in s.notes ==> s.notes[k].id == k
  }

  /** Why a handler returned before calling the store. */
  datatype Reason =
    | Unauthenticated
    | Unauthorized
    | NotConfirmed
    | EmptyComment
    | MissingFields
    | MissingFile
    | MissingVideoUrl

  /** What one user action did to the store. */
  datatype Outcome = Skipped(reason: Reason) | Succeeded | Failed
}
