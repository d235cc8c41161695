# campusbondhu notes hub — a Dafny model of its front-end logic

The notes hub is a React single-page site. Students browse lecture notes (PDF files kept on
Cloudinary) and video lectures (YouTube links) by department and semester. They can upload
notes for moderation, bookmark notes and comment on them. Administrators approve, delete and
add videos. Every piece of data lives in a hosted document store with three collections:
`notes`, `users` and `comments`.

This project models the logic embedded in the components, as pure Dafny functions over
immutable data:

- **Types**: the `Note` record of `src/types.ts`, the user-profile and comment documents, and
  the document store, written as one map per collection. Every store write takes an `ok` flag
  that says whether the write went through; reads take the documents they return as
  parameters. `updateDoc` on a missing document fails.
  `deleteDoc` on a missing document succeeds.
- **JsString, JsNumber, Seqs, Sorting, Firestore**: the JavaScript and store primitives the
  components rely on. These are `toLowerCase`, `trim`, `indexOf`/`includes`, `replace` with a
  string pattern (first occurrence only), `split`/`join`, `Number` on strings (the
  StringToNumber operation of section 7.1.4.1.1 of ECMA-262), a stable sort in
  non-increasing key order, `Set`-based de-duplication, `slice`, and the store's `arrayUnion`
  and `arrayRemove`.
- **YouTube**: the id extractor `getYouTubeId`. It appears twice with identical text and is
  modelled once. The regular expression is modelled branch by branch: greedy `^.*` before the
  first line terminator, six alternatives, the `[^#&?]*` capture, and the eleven-character
  check. Lengths count characters rather than UTF-16 code units (see "Left out").
- **Tags**: parsing the comma-separated tag field, shared by the upload page and the admin form.
- **NoteCard, VideoModal, NoteDetailModal**: preview images, the download link, the download
  counter, bookmarks, card deletion, the embedded player, comments with the comment counter,
  and the dialog's footer.
- **SubjectDetail, Home, Admin, Upload, Profile**: the listing pages, the moderation
  dashboard, the upload form and the profile page.
- **Auth**: the profile document created at sign-in, and the `isAdmin` flag the pages read.

Snapshots and query results are sequences of notes, in the order the store delivers them.
`serverTimestamp()` is a `now` parameter. The Cloudinary upload is represented by the link it
returns, or by `None` when it fails. Window confirmations are a `confirmed` flag.

## Model

| member | source | states |
|---|---|---|
| JsString.Lower | src/pages/SubjectDetail.tsx:64 | `toLowerCase` keeps the length, lowers every ASCII capital, leaves other characters alone, and produces text with no capitals |
| JsString.LowerOfLowerCase | src/pages/SubjectDetail.tsx:64 | lowering text that has no capitals changes nothing |
| JsString.Trim | src/components/NoteDetailModal.tsx:76 | `trim` yields a slice of the input that starts and ends with non-whitespace and drops only whitespace on both sides |
| JsString.TrimOfTrimmed | src/pages/Upload.tsx:82 | trimming text that is already trimmed changes nothing |
| JsString.IndexOf | src/components/NoteCard.tsx:99 | `indexOf` finds the first occurrence of the pattern, or reports that there is none |
| JsString.IncludesIffOccurs | src/components/NoteCard.tsx:98 | `includes` holds exactly when the pattern occurs somewhere |
| JsString.IncludesEmpty | src/pages/SubjectDetail.tsx:64 | every text includes the empty text, so an empty search matches everything |
| JsString.ReplaceFirst | src/components/NoteCard.tsx:99 | `replace` with a string pattern rewrites only the first occurrence and returns the input unchanged when the pattern is absent |
| JsString.ReplaceFirstByExtension | src/components/NoteCard.tsx:99 | replacing a present `p` by `p + ext` grows the text by `ext`, keeps the first occurrence where it was, places `ext` right after it, and removing `ext` gives back the input |
| JsString.Split | src/pages/Upload.tsx:82 | `split(',')` gives at least one piece, and no piece contains a comma |
| JsString.JoinSplit | src/pages/Upload.tsx:82 | joining the pieces of a split with the separator gives back the input |
| JsString.SplitJoin | src/pages/Upload.tsx:82 | splitting a join of comma-free pieces gives back the pieces |
| JsString.DecimalRoundTrip | src/pages/Upload.tsx:89 | the digits of the decimal text of `n` have the value `n` |
| JsString.SplitAtSeparator | src/pages/Upload.tsx:82 | splitting `a + sep + b` gives the pieces of `a` followed by the pieces of `b` |
| JsNumber.IntegerOf | src/pages/SubjectDetail.tsx:28 | a number equals a stored integer exactly when it is finite and whole, and then it is that integer |
| JsNumber.NumberOfDigits | src/pages/SubjectDetail.tsx:28 | `Number` of a run of decimal digits is the value of the digits |
| JsNumber.NumberOfDecimal | src/pages/Upload.tsx:89 | `Number` of the decimal text of `n` is `n` |
| JsNumber.NumberIgnoresPadding | src/pages/SubjectDetail.tsx:28 | whitespace around the text does not change what `Number` returns |
| JsNumber.NumberOfSigned | src/pages/SubjectDetail.tsx:28 | a leading `+` keeps the value of a digit run and a leading `-` negates it |
| JsNumber.NumberOfZeroFraction | src/pages/SubjectDetail.tsx:28 | a point followed only by zeros, or by nothing, does not change the value |
| JsNumber.NumberOfExponent | src/pages/SubjectDetail.tsx:28 | `t + "e" + x` is the value of `t` times ten to the value of `x` |
| JsNumber.NumberOfHex | src/pages/SubjectDetail.tsx:28 | a `0x` literal is read in radix sixteen |
| JsNumber.AppendZeros | src/pages/SubjectDetail.tsx:28 | appending `k` zeros to a digit run multiplies its value by ten to the `k` |
| Seqs.Dedupe | src/pages/SubjectDetail.tsx:54-60 | collecting into a `Set` and back keeps each element once and loses none |
| Seqs.DedupeFirstOccurrenceOrder | src/pages/SubjectDetail.tsx:54-60 | the de-duplicated elements come in the order of their first occurrence |
| Seqs.Take | src/pages/Home.tsx:289 | `slice(0, n)` is the prefix of length `min(n, length)` |
| Sorting.SortDesc | src/pages/SubjectDetail.tsx:38-42 | sorting with comparator `key(b) - key(a)` yields a permutation in non-increasing key order, and equal keys keep their input order |
| Sorting.SortDescUnique | src/pages/SubjectDetail.tsx:38-42 | any non-increasing, order-keeping rearrangement is the sort's result, so the order is fully determined |
| Firestore.ArrayUnion | src/components/NoteCard.tsx:63 | `arrayUnion` appends the id only when absent: the id is present afterwards, the old list is a prefix, the length grows by at most one, and a duplicate-free list stays duplicate-free |
| Firestore.ArrayRemove | src/components/NoteCard.tsx:60 | `arrayRemove` deletes every copy of the id and keeps the rest in order |
| Firestore.RemoveUndoesUnion | src/components/NoteCard.tsx:60-63 | removing an id that was just added to a list without it restores the list |
| Firestore.UnionUndoesRemove | src/components/NoteCard.tsx:60-63 | removing the last id of a duplicate-free list and adding it back restores the list |
| Tags.ParseTags | src/pages/Upload.tsx:81-83 | every parsed tag is non-empty, trimmed, lowercase and comma-free; empty input gives no tags; there are no more tags than comma-separated pieces |
| Tags.ParseAppend | src/pages/Upload.tsx:81-83 | parsing `a + "," + b` gives the tags of `a` followed by the tags of `b`, so no tag spans a comma and input order and duplicates are kept |
| Tags.ParseTagsMembers | src/pages/Admin.tsx:107-109 | a text is a parsed tag exactly when it is non-empty and is the trimmed, lowered form of some comma-separated piece |
| Tags.ParseJoin | src/pages/Upload.tsx:81-83 | parsing the comma-join of clean tags gives back those tags |
| Tags.ParseIdempotent | src/pages/Upload.tsx:81-83 | re-parsing the comma-join of parsed tags gives the same tags |
| YouTube.TokenAt | src/components/NoteCard.tsx:73 | the alternative chosen at a position matches there and no earlier-listed alternative does; none is chosen only when none matches |
| YouTube.AtMostOneToken | src/components/NoteCard.tsx:73 | the six alternatives start with distinct characters, so at most one matches at any position |
| YouTube.LastTokenPos | src/components/NoteCard.tsx:73 | the greedy `^.*` backs off to the last position, before the first line terminator, at which an alternative matches |
| YouTube.RunEnd | src/components/NoteCard.tsx:73 | the capture `[^#&?]*` ends at the first `#`, `&` or `?`, or at the end of the URL |
| YouTube.GetYouTubeId | src/components/NoteCard.tsx:72-76 | an extracted id has exactly eleven characters, none of them `#`, `&` or `?` |
| YouTube.GetYouTubeIdSpec | src/components/NoteCard.tsx:72-76 | the extractor returns `id` exactly when the regular expression matches and its second group is `id` with length eleven |
| YouTube.RegexMatchUnique | src/components/NoteCard.tsx:73 | the regular expression matches in at most one way |
| YouTube.NoTokenNoId | src/components/VideoModal.tsx:13-17 | a URL in which no alternative occurs yields no id |
| YouTube.IdExtracted | src/components/NoteCard.tsx:72-76 | an eleven-character id right after the last alternative, ended by `#`, `&`, `?` or the end of the URL, is what the extractor returns |
| YouTube.ShortLinkExtracted | src/components/VideoModal.tsx:13-17 | `https://youtu.be/<id>` yields `<id>` |
| YouTube.WatchLinkExtracted | src/components/NoteCard.tsx:72-76 | `https://www.youtube.com/watch?v=<id>` yields `<id>` |
| YouTube.TimedWatchLinkExtracted | src/components/NoteCard.tsx:73-75 | `https://www.youtube.com/watch?v=<id>&t=10` yields `<id>`, because the capture stops at `&` |
| VideoModal.EmbedUrl | src/components/VideoModal.tsx:19-20 | the player link is empty exactly when no id is found; otherwise it is the embed address of that id with autoplay |
| VideoModal.RendersIffEmbed | src/components/VideoModal.tsx:22 | an open player shows exactly when its embed link is non-empty |
| VideoModal.EmbedRoundTrip | src/components/VideoModal.tsx:13-20 | extracting the id from the embed link of a valid id gives that id back |
| VideoModal.EmbedKeepsId | src/components/VideoModal.tsx:13-20 | for every URL from which an id is extracted, whatever characters the id holds, extracting again from the embed link gives the same id |
| NoteCard.PlaceholderIsNotThumbnail | src/components/NoteCard.tsx:82 | the placeholder image can never be taken for a video thumbnail |
| NoteCard.CloudinaryPreviewUrl | src/components/NoteCard.tsx:86 | the first `.pdf` becomes `.jpg` with the length unchanged; the preview transformation goes in right after the first `/upload/`, and removing it restores the `.jpg` link |
| NoteCard.ThumbnailUrl | src/components/NoteCard.tsx:79-89 | a video shows its YouTube thumbnail, or the placeholder exactly when no id is found; a PDF on Cloudinary shows its preview; any other PDF shows the placeholder |
| NoteCard.ShortLinkThumbnail | src/components/NoteCard.tsx:80-82 | a short link shows the thumbnail of its id |
| NoteCard.ThumbnailIffPlayable | src/components/NoteCard.tsx:80-82 | a video card shows a real thumbnail exactly when its player would open |
| NoteCard.DownloadUrl | src/components/NoteCard.tsx:98-100 | a link is unchanged unless it names `cloudinary.com` and contains `/upload/`; otherwise `fl_attachment/` goes in after the first `/upload/`, the length grows by 14, and nothing else changes |
| NoteCard.IncrementDownloads | src/components/NoteCard.tsx:104-107 | a successful increment raises that note's download count by exactly one and changes nothing else; a failed one changes nothing |
| NoteCard.HandleAction | src/components/NoteCard.tsx:91-110 | a video opens the player and never touches the counter; a PDF opens its download link and counts one download |
| NoteCard.CheckBookmark | src/components/NoteCard.tsx:21-32 | with a profile document the heart is filled exactly when the profile lists the note; otherwise it keeps its value |
| NoteCard.ToggleBookmark | src/components/NoteCard.tsx:50-69 | without an account there is no store call; after a successful toggle the heart is flipped and agrees with the stored list, only this note's membership changed, and everything else is untouched; a failure changes nothing |
| NoteCard.ToggleTwiceRestores | src/components/NoteCard.tsx:59-65 | bookmarking and then un-bookmarking restores the store |
| NoteCard.ToggleThenCheckAgrees | src/components/NoteCard.tsx:21-32 | after a successful toggle the card's bookmark check agrees with the heart, even when the heart was stale |
| NoteCard.DeleteGuardMatchesButton | src/components/NoteCard.tsx:36 | the handler refuses exactly the viewers for whom the delete button is hidden |
| NoteCard.HandleDelete | src/components/NoteCard.tsx:34-48 | only an administrator or the signed-in uploader gets past the guard, and only after confirming; a note without an owner is deletable by an administrator only; success removes exactly that note |
| SubjectDetail.SemesterNumber | src/pages/SubjectDetail.tsx:28 | the semester compared against is present exactly when `Number(semesterId)` is a finite whole number, and then equals it; the decimal text of `n` gives `n` |
| SubjectDetail.SemesterSpellings | src/pages/SubjectDetail.tsx:28 | a leading blank, a `+`, a `.0` or an `e0` around the decimal text of `n` still gives semester `n`, and a `-` gives `-n` |
| SubjectDetail.HexSemester | src/pages/SubjectDetail.tsx:28 | the parameter `0x3` gives semester 3 |
| SubjectDetail.LoadNotes | src/pages/SubjectDetail.tsx:21-45 | an empty route parameter loads nothing; otherwise the page holds exactly the approved notes of that department and semester, newest first, with missing times counted as zero and ties in delivery order |
| SubjectDetail.NonIntegralSemesterIsEmpty | src/pages/SubjectDetail.tsx:28 | a semester parameter that `Number` reads as `NaN`, an infinity or a fraction loads an empty page |
| SubjectDetail.Flatten | src/pages/SubjectDetail.tsx:56-58 | a tag is collected exactly when some loaded note lists it; notes without tags contribute nothing |
| SubjectDetail.AllTags | src/pages/SubjectDetail.tsx:54-60 | the tag bar lists each tag of the loaded notes exactly once |
| SubjectDetail.AllTagsOrder | src/pages/SubjectDetail.tsx:54-60 | the tag bar is in order of first appearance |
| SubjectDetail.FilteredNotes | src/pages/SubjectDetail.tsx:62-70 | a note is shown exactly when its lowered title, description or course code contains the lowered query and no tag is selected or the note carries it; the result keeps the loaded order |
| SubjectDetail.InitialShowsAll | src/pages/SubjectDetail.tsx:62-70 | with an empty query and no tag, every loaded note is shown in order |
| SubjectDetail.TagButtonNeverEmpty | src/pages/SubjectDetail.tsx:115 | picking a tag from the tag bar with an empty query always shows at least one note |
| SubjectDetail.TagNarrows | src/pages/SubjectDetail.tsx:67 | selecting a tag shows exactly the unselected view's notes that carry it |
| SubjectDetail.ClickTag | src/pages/SubjectDetail.tsx:115 | a tag button selects its tag, or clears the selection when that tag was selected, and keeps the query |
| SubjectDetail.ClickTagTwice | src/pages/SubjectDetail.tsx:115 | clicking the same tag twice restores the state exactly when no other tag was selected |
| SubjectDetail.ClickAllTags | src/pages/SubjectDetail.tsx:103 | the "all" button clears the tag and keeps the query |
| SubjectDetail.ClickAllTagsWidens | src/pages/SubjectDetail.tsx:103 | clearing the tag never hides a shown note |
| SubjectDetail.ShowAll | src/pages/SubjectDetail.tsx:153 | the reset button clears both the query and the tag, which makes every loaded note visible |
| Home.FilteredDepartments | src/pages/Home.tsx:9-12 | a department is listed exactly when its lowered name or code contains the lowered query, in the listed order; an empty query lists all three |
| Home.CodeSearchIgnoresCase | src/pages/Home.tsx:9-12 | searching `CSE` finds the computer science department |
| Home.ApprovedNotes | src/pages/Home.tsx:278-281 | the query returns exactly the approved notes |
| Home.Popular | src/pages/Home.tsx:287-296 | the popular list has `min(3, approved)` notes, and is empty when the read fails |
| Home.PopularIsTopThree | src/pages/Home.tsx:287-289 | the popular list holds approved notes, most downloaded first with missing counts as zero, and no approved note left out has more downloads than a shown one |
| Home.PopularKeepsTieOrder | src/pages/Home.tsx:288 | among notes with equal download counts, the shown ones are the first fetched, in fetched order |
| Admin.ComputeStats | src/pages/Admin.tsx:70-74 | the total is the number of notes, and each other counter is how many times its status occurs among the notes |
| Admin.StatsAddUp | src/pages/Admin.tsx:70-74 | approved plus pending equals total |
| Admin.Rows | src/pages/Admin.tsx:161-166 | a row is shown exactly when the tab is "all" or the note's status, and the lowered title or uploader contains the lowered term; rows keep the snapshot order |
| Admin.TabCountsMatchStats | src/pages/Admin.tsx:161-166 | with an empty search each tab shows as many rows as its counter, and "all" shows every note |
| Admin.Approve | src/pages/Admin.tsx:80-86 | approval writes only the status of that note and fails on a missing note; a non-administrator gets no store call |
| Admin.ApproveIdempotent | src/pages/Admin.tsx:82 | approving twice equals approving once |
| Admin.ApproveMakesVisible | src/pages/Admin.tsx:472-480 | an approved row loses its approve button, and the note enters its department and semester page |
| Admin.Delete | src/pages/Admin.tsx:88-96 | deletion happens only after confirmation, and removes exactly that note id |
| Admin.SemesterValue | src/pages/Admin.tsx:327 | the selector's values are the numbers 1 to 8, written in decimal |
| Admin.VideoRecord | src/pages/Admin.tsx:111-124 | the added video is approved, has no owner, zero downloads, the numeric semester, the parsed tags and the typed link |
| Admin.AddVideo | src/pages/Admin.tsx:98-143 | nothing is written unless title, link and department are non-empty; success adds exactly the record, resets the form to its defaults and closes it; a failure keeps the form |
| Admin.AddedVideoIsListed | src/pages/Admin.tsx:111-124 | an added video at once appears on its department and semester page, with its tags in the tag bar |
| Upload.SemesterValue | src/pages/Upload.tsx:222-223 | the selector's values are the numbers 1 to 12, one per semester name, written in decimal |
| Upload.InitialForm | src/pages/Upload.tsx:16-26 | the form opens empty, for a PDF in semester 1, signed with the account's display name when it has one |
| Upload.FileChange | src/pages/Upload.tsx:33-47 | a PDF of at most 10·1024·1024 bytes replaces the held file and clears the banner; any other file sets the matching error and keeps the held file; the page never holds a refused file |
| Upload.FileHeldIffAcceptable | src/pages/Upload.tsx:36-45 | after a pick the page holds the picked file exactly when it is acceptable or was already held |
| Upload.Owner | src/pages/Upload.tsx:90 | the stored owner is the account id, or none when signed out |
| Upload.UploadRecord | src/pages/Upload.tsx:85-99 | the submitted note is pending, has zero downloads, the numeric semester, the parsed tags, the uploader's id and the given link |
| Upload.Submit | src/pages/Upload.tsx:49-120 | a PDF without a file or a video without a link writes nothing; the stored link is the upload's for a PDF and the typed one for a video; success adds exactly the record, clears form and file and shows the thank-you screen; a failure keeps the form and shows the error |
| Upload.UploadAnother | src/pages/Upload.tsx:136 | leaving the thank-you screen keeps the form and file |
| Upload.SecondUploadStartsBlank | src/pages/Upload.tsx:101-113 | after a success the next form is the signed-out default; even the uploader name is cleared |
| Upload.UploadWaitsForApproval | src/pages/Upload.tsx:94 | a submitted note is on no subject page until approved, and is listed under its department and semester once approved |
| NoteDetailModal.CommentsOf | src/components/NoteDetailModal.tsx:54-72 | the dialog lists exactly the comments on the note, newest first |
| NoteDetailModal.ClickStar | src/components/NoteDetailModal.tsx:192-196 | a star button sets the rating to its value in 1..5 and keeps the text |
| NoteDetailModal.ClickLightsPrefix | src/components/NoteDetailModal.tsx:199 | after clicking star `k`, exactly stars 1..k are filled |
| NoteDetailModal.CommentRecord | src/components/NoteDetailModal.tsx:80-88 | the comment carries the note id, the account's id, name and photo, the untrimmed text and the rating in 1..5 |
| NoteDetailModal.PostComment | src/components/NoteDetailModal.tsx:74-76 | without an account, or with whitespace-only text, nothing is written and the form is kept; otherwise the outcome is that of the two writes, and the post succeeds exactly when the text is not blank, both writes go through and the note exists |
| NoteDetailModal.WriteComment | src/components/NoteDetailModal.tsx:78-102 | the comment document is added whenever the first write goes through; the note's counter rises by exactly one, and nothing else in the notes changes, only when the second write also goes through; the form resets to empty text and five stars only on full success and is kept otherwise |
| NoteDetailModal.CommentIdsAdd | src/components/NoteDetailModal.tsx:80-88 | writing a comment adds exactly one comment to that note's count |
| NoteDetailModal.PostKeepsCount | src/components/NoteDetailModal.tsx:80-94 | a successful post keeps the counter equal to the number of comments; if the counter update fails, the counter falls one short |
| NoteDetailModal.PostedCommentIsListed | src/components/NoteDetailModal.tsx:54-88 | a posted comment appears in the dialog's list |
| NoteDetailModal.Footer | src/components/NoteDetailModal.tsx:268-274 | the footer opens the attachment link of the file and changes nothing in the store |
| NoteDetailModal.FooterAgreesWithCard | src/components/NoteDetailModal.tsx:268-274 | for a PDF the footer opens the same link as the card's button, but the card counts one more download |
| Profile.Uploads | src/pages/Profile.tsx:32-38 | the uploads list is exactly the notes owned by the account, pending ones included, in delivery order |
| Profile.Resolve | src/pages/Profile.tsx:44-53 | the bookmarked list has one note per bookmarked id whose note exists, in bookmark order; it is no longer than the id list, and the same length when every note exists |
| Profile.ResolveHas | src/pages/Profile.tsx:47-51 | every bookmarked id whose note exists contributes its note |
| Profile.ResolveOnlyBookmarked | src/pages/Profile.tsx:47-51 | every listed note belongs to a bookmarked id |
| Profile.ResolveBookmarks | src/pages/Profile.tsx:46-52 | the fetch loop builds exactly the resolved list |
| Profile.LoadAsWritten | src/pages/Profile.tsx:25-64 | without an account or after a failed read nothing changes; the uploads are replaced; the bookmarks are replaced only when the profile lists some id, otherwise kept |
| Profile.Load | src/pages/Profile.tsx:25-64 | as above, but the bookmarks are always replaced by the account's own |
| Profile.LoadForgetsPrevious | src/pages/Profile.tsx:43-55 | the corrected load does not depend on what the page showed before, and agrees with the code whenever the account has bookmarks |
| Profile.StaleBookmarksAsWritten | src/pages/Profile.tsx:45 | as written, an account without bookmarks keeps seeing the previous account's bookmarks |
| Profile.SubmittedNoteInUploads | src/pages/Profile.tsx:32-37 | a note just submitted by the account shows in its uploads while still pending |
| Profile.BookmarkedNoteInProfile | src/pages/Profile.tsx:44-51 | a note bookmarked on its card shows in the profile's bookmarks on the next load |
| Auth.NewProfile | src/context/AuthContext.tsx:33-41 | a new profile is a student with no bookmarks |
| Auth.SignedIn | src/context/AuthContext.tsx:26-46 | after sign-in the account has a profile document; existing profiles are untouched; a failed read or write keeps the previous user |
| Auth.SignedInHeartFollowsStore | src/context/AuthContext.tsx:32-42 | once signed in, the card's bookmark check always reads the store |
| Auth.ProvidedIsAdmin | src/context/AuthContext.tsx:85 | the flag the pages receive is false for every account |
| Auth.IsAdmin | src/pages/Admin.tsx:36 | the intended flag holds exactly for a signed-in account whose profile has the administrator role |
| Auth.NobodyModeratesAsWritten | src/pages/Admin.tsx:147 | as written, approval is always refused, and a card deletes a note only for its uploader |
| Auth.AdministratorsModerate | src/components/NoteCard.tsx:162 | with the intended flag an administrator approves and deletes any note, and a new account is never an administrator |

## Left out

- Layout, styling, animation, routing and the static pages: they carry no logic.
- Network I/O and live subscriptions (`onSnapshot`, `getDocs`, `getDoc`, unsubscribing): each read is a sequence or map parameter, and each write takes an `ok` flag.
- The Cloudinary HTTP upload: it is a foreign call, so its result is the link it returns or `None`.
- The Google sign-in popup, sign-out and their error alerts: these belong to the auth provider.
- `window.confirm`, `alert`, `window.open` and the loading spinners: these are UI side effects. Confirmation is a boolean, and an opened tab is a `View` value.
- Concurrency and the order of overlapping writes. Examples are the comment write followed by the counter update, and the download increment that `handleAction` does not await. They are modelled as sequential steps that may each fail.
- Browser `required` validation of the form inputs: it runs before the handlers and is not part of them.
- Hard-coded display strings and dates.
- JsString.Lower: lowers ASCII capitals only, because full Unicode case mapping is a table outside the model.
- JsNumber.ToNumber: values are exact reals. IEEE-754 rounding is not modelled (`"3.0000000000000001"` is 3 in JavaScript but not here), nor is overflow of long literals to `Infinity`, nor `-0`.
- SubjectDetail.SemesterNumber: it inherits the exact-real reading of `Number`, so a parameter that JavaScript rounds to a whole number, such as `"3.0000000000000001"`, loads an empty page here.
- YouTube.GetYouTubeId: the eleven-character check and the regular expression count characters. JavaScript counts UTF-16 code units, so a capture holding a character outside the Basic Multilingual Plane is measured differently.
- Types.Note: `createdAt` is the seconds of the server timestamp, and `rating` is carried but never computed, because the source never computes it.
- Profile.LoadAsWritten: a single `ok` flag covers the whole fetch. A failure after the uploads read, which would update the uploads only, is not modelled.
- SubjectDetail.LoadNotes: the store's delivery order is an input, so the model states only what the client-side sort guarantees about it.
- NoteDetailModal.CommentsOf: sorted on the client by the comment time. The store's `orderBy('createdAt', 'desc')` yields the same order only up to ties.

## Findings

| source | as written | input that shows it | evidently intended | confidence | as-written member | corrected member |
|---|---|---|---|---|---|---|
| src/pages/Profile.tsx:45-54 | the bookmarked list is replaced only when the profile lists at least one id, and the page state outlives sign-out | account A with one bookmark loads the page, signs out, and account B with no bookmarks signs in on the same page | B sees an empty bookmarks list | medium, not executed | Profile.LoadAsWritten, Profile.StaleBookmarksAsWritten | Profile.Load, Profile.LoadForgetsPrevious |
| src/context/AuthContext.tsx:85 | the context value has no `isAdmin`, so the admin page and the card's delete guard read `undefined` | any account, including one whose profile has role `admin` | an account with the administrator role may moderate | medium, not executed | Auth.ProvidedIsAdmin, Auth.NobodyModeratesAsWritten | Auth.IsAdmin, Auth.AdministratorsModerate |
