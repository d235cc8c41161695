/** The home page: the department search and the three most downloaded approved notes. */
module Home {
  import opened Types
  import opened Seqs
  import opened Sorting
  import opened JsString

  datatype Department = Department(id: string, name: string, code: string)

  /** `DEPARTMENTS`: the three departments the site lists. */
  const Departments: seq<Department> := [
    Department("cse", "কম্পিউটার সায়েন্স", "CSE"),
    Department("eee", "ইলেকট্রিক্যাল ইঞ্জিনিয়ারিং", "EEE"),
    Department("civil", "সিভিল ইঞ্জিনিয়ারিং", "CE")
  ]

  /** The department name or code contains the query, ignoring case. */
  predicate DepartmentMatches(d: Department, searchQuery: string) {
    Includes(Lower(d.name), Lower(searchQuery)) || Includes(Lower(d.code), Lower(searchQuery))
  }

  function DepartmentMatchesOf(searchQuery: string): Department -> bool {
    d => DepartmentMatches(d, searchQuery)
  }

  /** `filteredDepartments`: the matching departments in their listed order; an empty query
      lists them all. */
  function FilteredDepartments(searchQuery: string): (r: seq<Department>)
    ensures forall d :: d in r <==> d in Departments && DepartmentMatches(d, searchQuery)
    ensures IsSubsequence(r, Departments)
    ensures searchQuery == "" ==> r == Departments
  {
    FilterIsSubsequence(Departments, DepartmentMatchesOf(searchQuery));
    if searchQuery == "" then
      forall i | 0 <= i < |Departments| ensures DepartmentMatches(Departments[i], "") {
        IncludesEmpty(Lower(Departments[i].name));
      }
      Filter(Departments, DepartmentMatchesOf(searchQuery))
    else Filter(Departments, DepartmentMatchesOf(searchQuery))
  }

  lemma LowerCse()
    ensures Lower("CSE") == "cse"
  {
  }

  /** Searching a department code in capitals finds it. */
  lemma CodeSearchIgnoresCase()
    ensures Departments[0] in FilteredDepartments("CSE")
  {
    LowerCse();
    assert OccursAt("cse", "cse", 0);
    assert Includes(Lower(Departments[0].code), Lower("CSE"));
  }

  // ---------------------------------------------------------------- popular notes

  /** `b.downloads || 0`. */
  function DownloadsKey(note: Note): int {
    note.downloads.GetOr(0)
  }

  predicate IsApproved(note: Note) { note.status == Approved }

  function ApprovedNotes(docs: seq<Note>): (r: seq<Note>)
    ensures forall n :: n in r <==> n in docs && IsApproved(n)
  {
    Filter(docs, IsApproved)
  }

  const PopularCount := 3

  /** `PopularNotes`: the approved notes, most downloaded first, cut to three. When the read
      fails the list stays empty. */
  function Popular(docs: seq<Note>, ok: bool): (r: seq<Note>)
    ensures !ok ==> r == []
    ensures ok ==> |r| == if |ApprovedNotes(docs)| < PopularCount then |ApprovedNotes(docs)| else PopularCount
  {
    if !ok then [] else Take(SortDesc(ApprovedNotes(docs), DownloadsKey), PopularCount)
  }

  /** The popular list holds approved notes, most downloaded first, and no approved note left
      out has more downloads than any note shown. */
  lemma PopularIsTopThree(docs: seq<Note>)
    ensures var r := Popular(docs, true);
      && (forall i :: 0 <= i < |r| ==> r[i] in docs && IsApproved(r[i]))
      && NonIncreasing(r, DownloadsKey)
      && multiset(r) <= multiset(ApprovedNotes(docs))
      && (forall x, i :: x in multiset(ApprovedNotes(docs)) - multiset(r) && 0 <= i < |r| ==>
            DownloadsKey(x) <= DownloadsKey(r[i]))
  {
    var approved := ApprovedNotes(docs);
    var sorted := SortDesc(approved, DownloadsKey);
    var r := Popular(docs, true);
    assert r == sorted[..|r|];
    TopOfSorted(sorted, |r|);
    forall i | 0 <= i < |r| ensures r[i] in docs && IsApproved(r[i]) {
      assert r[i] == sorted[i];
      assert sorted[i] in multiset(approved);
    }
  }

  /** Notes with equal download counts appear in the popular list in the order they were
      fetched: for every count, the shown notes with that count are the first ones fetched. */
  lemma PopularKeepsTieOrder(docs: seq<Note>, k: int)
    ensures var r := Popular(docs, true); var approved := ApprovedNotes(docs);
      && |WithKey(r, DownloadsKey, k)| <= |WithKey(approved, DownloadsKey, k)|
      && WithKey(approved, DownloadsKey, k)[..|WithKey(r, DownloadsKey, k)|] == WithKey(r, DownloadsKey, k)
  {
    var approved := ApprovedNotes(docs);
    var sorted := SortDesc(approved, DownloadsKey);
    var r := Popular(docs, true);
    assert sorted == r + sorted[|r|..];
    WithKeyAppend(r, sorted[|r|..], DownloadsKey, k);
    assert WithKey(sorted, DownloadsKey, k) == WithKey(approved, DownloadsKey, k);
  }

  /** The first `k` elements of a non-increasing sequence are at least as large as every
      element left out. */
  lemma TopOfSorted(sorted: seq<Note>, k: nat)
    requires k <= |sorted| && NonIncreasing(sorted, DownloadsKey)
    ensures multiset(sorted[..k]) <= multiset(sorted)
    ensures forall x, i :: x in multiset(sorted) - multiset(sorted[..k]) && 0 <= i < k ==>
      DownloadsKey(x) <= DownloadsKey(sorted[i])
  {
    assert sorted == sorted[..k] + sorted[k..];
    assert multiset(sorted) == multiset(sorted[..k]) + multiset(sorted[k..]);
    forall x, i | x in multiset(sorted) - multiset(sorted[..k]) && 0 <= i < k
      ensures DownloadsKey(x) <= DownloadsKey(sorted[i])
    {
      assert x in multiset(sorted[k..]);
      var j :| k <= j < |sorted| && sorted[j] == x;
    }
  }
}
