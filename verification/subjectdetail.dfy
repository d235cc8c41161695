/** The notes page of one department and semester: the live query, the newest-first order,
    the tag bar and the search/tag filter. */
module SubjectDetail {
  import opened Types
  import opened Seqs
  import opened Sorting
  import opened JsString
  import opened JsNumber

  // ---------------------------------------------------------------- query and order

  /** `Number(semesterId)` for the route parameter, as the integer a stored semester would
      have to equal; `NaN`, an infinity or a fractional value equals no stored semester. */
  function SemesterNumber(semesterId: string): (r: Option<int>)
    ensures r.Some? <==> IsIntegral(ToNumber(semesterId))
    ensures r.Some? ==> ToNumber(semesterId) == Finite(r.value as real)
    ensures forall n: nat :: semesterId == DecimalText(n) ==> r == Some(n)
  {
    (forall n: nat | semesterId == DecimalText(n) ensures IntegerOf(ToNumber(semesterId)) == Some(n) {
       NumberOfDecimal(n);
     }
     IntegerOf(ToNumber(semesterId)))
  }

  /** The route parameter is read the way `Number` reads it: surrounding blanks, a sign, a
      zero fraction and an exponent do not change the semester. */
  lemma SemesterSpellings(n: nat)
    ensures SemesterNumber(" " + DecimalText(n)) == Some(n)
    ensures SemesterNumber("+" + DecimalText(n)) == Some(n)
    ensures SemesterNumber("-" + DecimalText(n)) == Some(-(n as int))
    ensures SemesterNumber(DecimalText(n) + "." + "0") == Some(n)
    ensures SemesterNumber(DecimalText(n) + "e" + "0") == Some(n)
  {
    PaddedSemester(n);
    SignedSemester(n);
    ZeroFractionSemester(n);
    ExponentSemester(n);
  }

  lemma PaddedSemester(n: nat)
    ensures SemesterNumber(" " + DecimalText(n)) == Some(n)
  {
    var t := DecimalText(n);
    NumberOfDecimal(n);
    assert IsWhitespace(' ');
    NumberIgnoresPadding(t, " ", "");
    assert " " + t + "" == " " + t;
  }

  lemma SignedSemester(n: nat)
    ensures SemesterNumber("+" + DecimalText(n)) == Some(n)
    ensures SemesterNumber("-" + DecimalText(n)) == Some(-(n as int))
  {
    DecimalRoundTrip(n);
    NumberOfSigned(DecimalText(n));
    NegativeIntegral(n);
  }

  lemma NegativeIntegral(n: nat)
    ensures IntegerOf(Finite(-(n as real))) == Some(-(n as int))
  {
    assert -(n as real) == (-(n as int)) as real;
  }

  lemma ZeroFractionSemester(n: nat)
    ensures SemesterNumber(DecimalText(n) + "." + "0") == Some(n)
  {
    DecimalRoundTrip(n);
    NumberOfZeroFraction(DecimalText(n), "0");
  }

  lemma ExponentSemester(n: nat)
    ensures SemesterNumber(DecimalText(n) + "e" + "0") == Some(n)
  {
    DecimalRoundTrip(n);
    assert IsDecimal("0") && DecimalValue("0") == 0;
    NumberOfExponent(DecimalText(n), "0");
    assert Pow10(0) == 1;
  }

  /** A `0x` parameter is a hexadecimal semester. */
  lemma HexSemester()
    ensures SemesterNumber("0x3") == Some(3)
  {
    NumberOfHex("3");
    assert "0x" + "3" == "0x3";
  }

  /** The three equality filters of the query. */
  predicate InScope(note: Note, deptId: string, semester: Option<int>) {
    note.departmentId == deptId && semester == Some(note.semester) && note.status == Approved
  }

  function InScopeOf(deptId: string, semester: Option<int>): Note -> bool {
    note => InScope(note, deptId, semester)
  }

  /** `a.createdAt?.seconds || 0`. */
  function CreatedKey(note: Note): int {
    note.createdAt.GetOr(0)
  }

  /** The snapshot handler: the documents the query selects (`docs` is the collection in the
      order the store delivers it), newest first; equal times keep the delivery order. Route
      parameters that are empty make the effect return before querying. */
  function LoadNotes(docs: seq<Note>, deptId: string, semesterId: string): (r: Option<seq<Note>>)
    ensures r.None? <==> deptId == "" || semesterId == ""
    ensures r.Some? ==>
      var scope := InScopeOf(deptId, SemesterNumber(semesterId));
      && multiset(r.value) == multiset(Filter(docs, scope))
      && NonIncreasing(r.value, CreatedKey)
      && Stable(r.value, Filter(docs, scope), CreatedKey)
      && (forall n :: n in r.value <==> n in docs && InScope(n, deptId, SemesterNumber(semesterId)))
  {
    if deptId == "" || semesterId == "" then None
    else
      var scope := InScopeOf(deptId, SemesterNumber(semesterId));
      var r := SortDesc(Filter(docs, scope), CreatedKey);
      assert forall n :: n in r <==> n in multiset(r);
      Some(r)
  }

  /** A semester parameter that `Number` reads as `NaN`, an infinity or a fraction loads an
      empty page. */
  lemma NonIntegralSemesterIsEmpty(docs: seq<Note>, deptId: string, semesterId: string)
    requires deptId != "" && semesterId != "" && !IsIntegral(ToNumber(semesterId))
    ensures LoadNotes(docs, deptId, semesterId) == Some([])
  {
    assert SemesterNumber(semesterId) == None;
    FilterNone(docs, InScopeOf(deptId, None));
  }

  // ---------------------------------------------------------------- tag bar

  /** Every tag of the loaded notes, in the order the notes list them. */
  function Flatten(notes: seq<Note>): (r: seq<string>)
    ensures forall t :: t in r <==> exists n :: n in notes && n.tags.Some? && t in n.tags.value
  {
    if |notes| == 0 then []
    else
      var rest := Flatten(notes[1..]);
      assert forall n :: n in notes <==> n == notes[0] || n in notes[1..];
      notes[0].tags.GetOr([]) + rest
  }

  /** `allTags`: the distinct tags, each listed once, in order of first appearance. */
  function AllTags(notes: seq<Note>): (r: seq<string>)
    ensures NoDuplicates(r)
    ensures forall t :: t in r <==> exists n :: n in notes && n.tags.Some? && t in n.tags.value
  {
    Dedupe(Flatten(notes))
  }

  lemma AllTagsOrder(notes: seq<Note>)
    ensures var flat := Flatten(notes); var r := AllTags(notes);
      forall i, j :: 0 <= i < j < |r| ==> FirstIndex(flat, r[i]) < FirstIndex(flat, r[j])
  {
    DedupeFirstOccurrenceOrder(Flatten(notes));
  }

  // ---------------------------------------------------------------- filter

  /** The search box and the selected tag. */
  datatype ListingState = ListingState(searchQuery: string, selectedTag: Option<string>)

  const Initial := ListingState("", None)

  /** Title, description or course code contains the query, ignoring case. */
  predicate MatchesSearch(note: Note, searchQuery: string) {
    var q := Lower(searchQuery);
    || Includes(Lower(note.title), q)
    || Includes(Lower(note.description), q)
    || (note.courseCode.Some? && Includes(Lower(note.courseCode.value), q))
  }

  /** `!selectedTag || note.tags?.includes(selectedTag)`: an empty tag is falsy and filters
      nothing. */
  predicate MatchesTag(note: Note, selectedTag: Option<string>) {
    match selectedTag
    case None => true
    case Some(t) => t == "" || (note.tags.Some? && t in note.tags.value)
  }

  predicate Shown(st: ListingState, note: Note) {
    MatchesSearch(note, st.searchQuery) && MatchesTag(note, st.selectedTag)
  }

  function ShownBy(st: ListingState): Note -> bool {
    note => Shown(st, note)
  }

  /** `filteredNotes`: the loaded notes that pass both filters, in the loaded order. */
  function FilteredNotes(notes: seq<Note>, st: ListingState): (r: seq<Note>)
    ensures forall n :: n in r <==> n in notes && MatchesSearch(n, st.searchQuery) && MatchesTag(n, st.selectedTag)
    ensures IsSubsequence(r, notes)
  {
    FilterIsSubsequence(notes, ShownBy(st));
    Filter(notes, ShownBy(st))
  }

  /** With an empty search and no tag every loaded note is shown. */
  lemma InitialShowsAll(notes: seq<Note>)
    ensures FilteredNotes(notes, Initial) == notes
  {
    forall i | 0 <= i < |notes| ensures Shown(Initial, notes[i]) {
      IncludesEmpty(Lower(notes[i].title));
    }
  }

  /** Selecting a tag that appears in the tag bar, with an empty search, never empties the page. */
  lemma TagButtonNeverEmpty(notes: seq<Note>, t: string)
    requires t in AllTags(notes)
    ensures |FilteredNotes(notes, ListingState("", Some(t)))| > 0
  {
    var n :| n in notes && n.tags.Some? && t in n.tags.value;
    IncludesEmpty(Lower(n.title));
    assert n in FilteredNotes(notes, ListingState("", Some(t)));
  }

  /** Selecting a tag only narrows the page: the shown notes are those shown without the tag
      that carry it. */
  lemma TagNarrows(notes: seq<Note>, q: string, t: string)
    requires t != ""
    ensures forall n :: n in FilteredNotes(notes, ListingState(q, Some(t))) <==>
      n in FilteredNotes(notes, ListingState(q, None)) && n.tags.Some? && t in n.tags.value
  {
  }

  // ---------------------------------------------------------------- tag bar clicks

  /** A tag button: selects the tag, or clears the selection when it was already selected. */
  function ClickTag(st: ListingState, t: string): (st': ListingState)
    ensures st'.searchQuery == st.searchQuery
    ensures st'.selectedTag == Some(t) <==> st.selectedTag != Some(t)
    ensures st'.selectedTag.Some? ==> st'.selectedTag == Some(t)
  {
    st.(selectedTag := if st.selectedTag == Some(t) then None else Some(t))
  }

  /** Clicking the same tag twice restores the state exactly when no other tag was selected. */
  lemma ClickTagTwice(st: ListingState, t: string)
    ensures ClickTag(ClickTag(st, t), t) == st <==> st.selectedTag == None || st.selectedTag == Some(t)
  {
  }

  /** The "all tags" button. */
  function ClickAllTags(st: ListingState): (st': ListingState)
    ensures st'.searchQuery == st.searchQuery && st'.selectedTag.None?
  {
    st.(selectedTag := None)
  }

  /** The "show all notes" button under an empty result: clears both filters. */
  function ShowAll(st: ListingState): (st': ListingState)
    ensures st'.searchQuery == "" && st'.selectedTag == None
    ensures forall notes :: FilteredNotes(notes, st') == notes
  {
    forall notes: seq<Note> ensures FilteredNotes(notes, Initial) == notes {
      InitialShowsAll(notes);
    }
    Initial
  }

  /** Clearing the tag never hides a note that the tag filter showed. */
  lemma ClickAllTagsWidens(notes: seq<Note>, st: ListingState)
    ensures forall n :: n in FilteredNotes(notes, st) ==> n in FilteredNotes(notes, ClickAllTags(st))
  {
  }
}
