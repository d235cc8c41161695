/** What a single write does to the document store: the "nothing else changes" frame of a
    one-document update, and the two array transforms the application sends when it edits a
    user's bookmark list. */
module Firestore {
  import opened Types
  import opened Seqs

  /** Only note `id` may differ between the two stores; users and comments are untouched. */
  ghost predicate OnlyNoteChanged(s: Store, s': Store, id: Id) {
    && s'.users == s.users
    && s'.comments == s.comments
    && s'.notes.Keys == s.notes.Keys
    && forall k :: k in s.notes && k != id ==> s'.notes[k] == s.notes[k]
  }

  /** `arrayUnion(x)` applied to the stored array: `x` is appended unless already present. */
  function ArrayUnion(arr: seq<Id>, x: Id): (r: seq<Id>)
    ensures forall y :: y in r <==> y in arr || y == x
    ensures x in arr ==> r == arr
    ensures |arr| <= |r| <= |arr| + 1 && r[..|arr|] == arr
    ensures NoDuplicates(arr) ==> NoDuplicates(r)
  {
    if x in arr then arr else arr + [x]
  }

  function NotEqual(x: Id): Id -> bool {
    y => y != x
  }

  /** `arrayRemove(x)` applied to the stored array: every occurrence of `x` is removed and the
      rest keeps its order. */
  function ArrayRemove(arr: seq<Id>, x: Id): (r: seq<Id>)
    ensures forall y :: y in r <==> y in arr && y != x
    ensures x !in arr ==> r == arr
    ensures IsSubsequence(r, arr)
  {
    FilterIsSubsequence(arr, NotEqual(x));
    Filter(arr, NotEqual(x))
  }

  /** Removing an element that a union has just added gives back the original array. */
  lemma RemoveUndoesUnion(arr: seq<Id>, x: Id)
    requires x !in arr
    ensures ArrayRemove(ArrayUnion(arr, x), x) == arr
  {
    FilterAppend(arr, [x], NotEqual(x));
    assert Filter([x], NotEqual(x)) == [];
  }

  /** Adding back an element that was last in a duplicate-free array restores it. */
  lemma UnionUndoesRemove(arr: seq<Id>, x: Id)
    requires NoDuplicates(arr) && |arr| > 0 && arr[|arr| - 1] == x
    ensures ArrayUnion(ArrayRemove(arr, x), x) == arr
  {
    var init := arr[..|arr| - 1];
    assert arr == init + [x];
    assert x !in init;
    FilterAppend(init, [x], NotEqual(x));
    assert Filter([x], NotEqual(x)) == [];
  }
}
