/** `Array.prototype.sort` with a comparator `(a, b) => key(b) - key(a)`: a stable sort
    into non-increasing key order, as used for the recency and popularity orderings. */
module Sorting {

  predicate NonIncreasing<T>(xs: seq<T>, key: T -> int) {
    forall i, j :: 0 <= i < j < |xs| ==> key(xs[i]) >= key(xs[j])
  }

  /** The elements of `xs` whose key is `k`, in their order in `xs`. Two orderings of
      the same elements that agree on every `WithKey` keep equal keys in the same order. */
  function WithKey<T>(xs: seq<T>, key: T -> int, k: int): seq<T> {
    if |xs| == 0 then []
    else (if key(xs[0]) == k then [xs[0]] else []) + WithKey(xs[1..], key, k)
  }

  /** The stability condition: every run of equal keys keeps the order it had in `xs`. */
  ghost predicate Stable<T>(r: seq<T>, xs: seq<T>, key: T -> int) {
    forall k :: WithKey(r, key, k) == WithKey(xs, key, k)
  }

  lemma {:induction false} WithKeyMembers<T>(xs: seq<T>, key: T -> int, k: int, y: T)
    requires y in WithKey(xs, key, k)
    ensures y in xs && key(y) == k
    decreases |xs|
  {
    if key(xs[0]) != k || y != xs[0] {
      WithKeyMembers(xs[1..], key, k, y);
    }
  }

  /** `WithKey` distributes over concatenation. */
  lemma {:induction false} WithKeyAppend<T>(a: seq<T>, b: seq<T>, key: T -> int, k: int)
    ensures WithKey(a + b, key, k) == WithKey(a, key, k) + WithKey(b, key, k)
    decreases |a|
  {
    if |a| == 0 {
      assert a + b == b;
    } else {
      var head := if key(a[0]) == k then [a[0]] else [];
      var ab := a + b;
      assert ab[0] == a[0];
      assert ab[1..] == a[1..] + b;
      assert WithKey(ab, key, k) == head + WithKey(a[1..] + b, key, k);
      WithKeyAppend(a[1..], b, key, k);
      assert WithKey(a, key, k) == head + WithKey(a[1..], key, k);
    }
  }

  /** Places `x` in front of the first element whose key is not greater than its own. */
  function Insert<T>(x: T, s: seq<T>, key: T -> int): (r: seq<T>)
    ensures multiset(r) == multiset(s) + multiset{x}
    ensures |r| == |s| + 1
  {
    if |s| == 0 then [x]
    else if key(s[0]) <= key(x) then [x] + s
    else
      assert s == [s[0]] + s[1..];
      [s[0]] + Insert(x, s[1..], key)
  }

  lemma {:induction false} InsertKeepsOrder<T>(x: T, s: seq<T>, key: T -> int)
    requires NonIncreasing(s, key)
    ensures NonIncreasing(Insert(x, s, key), key)
    decreases |s|
  {
    if |s| > 0 && key(s[0]) > key(x) {
      var r' := Insert(x, s[1..], key);
      InsertKeepsOrder(x, s[1..], key);
      forall y | y in r' ensures key(y) <= key(s[0]) {
        assert y in multiset(r');
        assert y in multiset(s[1..]) || y == x;
      }
      var r := [s[0]] + r';
      forall i, j | 0 <= i < j < |r| ensures key(r[i]) >= key(r[j]) {
        if i > 0 {
          assert r[i] == r'[i - 1] && r[j] == r'[j - 1];
        } else {
          assert r[j] in r';
        }
      }
    }
  }

  /** `x` goes before every element of `s` that has its key, and moves nothing else. */
  lemma {:induction false} InsertWithKey<T>(x: T, s: seq<T>, key: T -> int, k: int)
    ensures WithKey(Insert(x, s, key), key, k) == (if key(x) == k then [x] else []) + WithKey(s, key, k)
    decreases |s|
  {
    if |s| > 0 && key(s[0]) > key(x) {
      var r' := Insert(x, s[1..], key);
      InsertWithKey(x, s[1..], key, k);
      var r := [s[0]] + r';
      assert r[1..] == r';
      var h := if key(s[0]) == k then [s[0]] else [];
      calc {
        WithKey(r, key, k);
        h + WithKey(r', key, k);
        h + ((if key(x) == k then [x] else []) + WithKey(s[1..], key, k));
        { assert key(s[0]) > key(x); }
        (if key(x) == k then [x] else []) + (h + WithKey(s[1..], key, k));
      }
    } else if |s| > 0 {
      var r := [x] + s;
      assert r[1..] == s;
    }
  }

  /** Stable sort into non-increasing key order. */
  function SortDesc<T>(xs: seq<T>, key: T -> int): (r: seq<T>)
    ensures multiset(r) == multiset(xs)
    ensures |r| == |xs|
    ensures NonIncreasing(r, key)
    ensures Stable(r, xs, key)
  {
    if |xs| == 0 then []
    else
      var rest := SortDesc(xs[1..], key);
      assert xs == [xs[0]] + xs[1..];
      assert multiset(xs) == multiset{xs[0]} + multiset(xs[1..]);
      InsertKeepsOrder(xs[0], rest, key);
      var r := Insert(xs[0], rest, key);
      assert forall k :: WithKey(r, key, k) == WithKey(xs, key, k) by {
        forall k ensures WithKey(r, key, k) == WithKey(xs, key, k) {
          InsertWithKey(xs[0], rest, key, k);
        }
      }
      r
  }

  /** The three properties pin the result down: any permutation of `xs` that is
      non-increasing and stable is exactly `SortDesc(xs, key)`. */
  lemma SortDescUnique<T>(r: seq<T>, xs: seq<T>, key: T -> int)
    requires NonIncreasing(r, key) && Stable(r, xs, key)
    ensures r == SortDesc(xs, key)
  {
    var s := SortDesc(xs, key);
    forall k ensures WithKey(r, key, k) == WithKey(s, key, k) {
      assert WithKey(r, key, k) == WithKey(xs, key, k);
    }
    OrderedByKeyUnique(r, s, key);
  }

  lemma HeadKeyPresent<T>(xs: seq<T>, key: T -> int)
    requires |xs| > 0
    ensures WithKey(xs, key, key(xs[0])) != []
  {
  }

  lemma {:induction false} OrderedByKeyUnique<T>(a: seq<T>, b: seq<T>, key: T -> int)
    requires NonIncreasing(a, key) && NonIncreasing(b, key)
    requires forall k :: WithKey(a, key, k) == WithKey(b, key, k)
    ensures a == b
    decreases |a|
  {
    if |a| == 0 || |b| == 0 {
      if |a| > 0 {
        HeadKeyPresent(a, key);
      } else if |b| > 0 {
        HeadKeyPresent(b, key);
      }
    } else {
      var ka, kb := key(a[0]), key(b[0]);
      assert a[0] in WithKey(a, key, ka);
      WithKeyMembers(b, key, ka, a[0]);
      assert b[0] in WithKey(b, key, kb);
      WithKeyMembers(a, key, kb, b[0]);
      assert ka == kb;
      assert a[0] == b[0] by {
        assert WithKey(a, key, ka)[0] == a[0];
        assert WithKey(b, key, ka)[0] == b[0];
      }
      forall k ensures WithKey(a[1..], key, k) == WithKey(b[1..], key, k) {
        var h := if ka == k then [a[0]] else [];
        assert WithKey(a, key, k) == h + WithKey(a[1..], key, k);
        assert WithKey(b, key, k) == h + WithKey(b[1..], key, k);
        assert WithKey(a[1..], key, k) == WithKey(a, key, k)[|h|..];
        assert WithKey(b[1..], key, k) == WithKey(b, key, k)[|h|..];
      }
      OrderedByKeyUnique(a[1..], b[1..], key);
      assert a == [a[0]] + a[1..] && b == [b[0]] + b[1..];
    }
  }
}
