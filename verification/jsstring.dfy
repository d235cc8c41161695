/** The JavaScript string operations the components rely on: `toLowerCase` (over ASCII),
    `trim`, `includes`, `indexOf`, `replace` with a string pattern, `split` on a one-character
    separator, `join`, and the decimal text of a number. */
module JsString {
  import opened Types

  // ---------------------------------------------------------------- case

  predicate IsUpper(c: char) { 'A' <= c <= 'Z' }

  function LowerChar(c: char): char {
    if IsUpper(c) then (c as int + 32) as char else c
  }

  predicate IsLowerCase(s: string) {
    forall i :: 0 <= i < |s| ==> !IsUpper(s[i])
  }

  /** `s.toLowerCase()` restricted to the ASCII letters. */
  function Lower(s: string): (r: string)
    ensures |r| == |s|
    ensures IsLowerCase(r)
    ensures forall i :: 0 <= i < |s| ==> r[i] == s[i] || (IsUpper(s[i]) && r[i] as int == s[i] as int + 32)
  {
    seq(|s|, i requires 0 <= i < |s| => LowerChar(s[i]))
  }

  lemma LowerOfLowerCase(s: string)
    requires IsLowerCase(s)
    ensures Lower(s) == s
  {
  }

  /** Lowering introduces no character outside the lower-case letters. */
  lemma LowerWithin(s: string, c: char)
    requires c !in s && !('a' <= c <= 'z')
    ensures c !in Lower(s)
  {
    forall i | 0 <= i < |s| ensures Lower(s)[i] != c {
      assert s[i] in s;
    }
  }

  // ---------------------------------------------------------------- trim

  /** The ECMAScript LineTerminator characters. */
  predicate IsLineTerminator(c: char) {
    c == '\n' || c == '\r' || c == '\U{2028}' || c == '\U{2029}'
  }

  /** The characters `String.prototype.trim` removes: WhiteSpace (TAB, VT, FF, ZWNBSP and the
      Unicode space separators) and LineTerminator. */
  predicate IsWhitespace(c: char) {
    || c == '\t' || c == '\U{000B}' || c == '\U{000C}' || c == ' ' || c == '\U{00A0}'
    || c == '\U{FEFF}' || c == '\U{1680}' || ('\U{2000}' <= c <= '\U{200A}')
    || c == '\U{202F}' || c == '\U{205F}' || c == '\U{3000}'
    || IsLineTerminator(c)
  }

  /** Neither end of `s` is a whitespace character. */
  predicate IsTrimmed(s: string) {
    |s| == 0 || (!IsWhitespace(s[0]) && !IsWhitespace(s[|s| - 1]))
  }

  /** The index of the first character at or after `i` that is not whitespace (`|s|` if none). */
  function SkipLeading(s: string, i: nat): (a: nat)
    requires i <= |s|
    ensures i <= a <= |s|
    ensures forall j :: i <= j < a ==> IsWhitespace(s[j])
    ensures a == |s| || !IsWhitespace(s[a])
    decreases |s| - i
  {
    if i < |s| && IsWhitespace(s[i]) then SkipLeading(s, i + 1) else i
  }

  /** The end of `s[a..b]` once its trailing whitespace is cut off. */
  function SkipTrailing(s: string, a: nat, b: nat): (e: nat)
    requires a <= b <= |s|
    ensures a <= e <= b
    ensures forall j :: e <= j < b ==> IsWhitespace(s[j])
    ensures e == a || !IsWhitespace(s[e - 1])
    decreases b
  {
    if a < b && IsWhitespace(s[b - 1]) then SkipTrailing(s, a, b - 1) else b
  }

  /** `r` is `s` with the whitespace before index `a` and after `a + |r|` cut off. */
  ghost predicate TrimmedAt(s: string, r: string, a: int) {
    && 0 <= a <= |s| - |r|
    && s[a..a + |r|] == r
    && (forall i :: 0 <= i < a ==> IsWhitespace(s[i]))
    && (forall i :: a + |r| <= i < |s| ==> IsWhitespace(s[i]))
  }

  /** `s.trim()`: `s` is `r` with whitespace only around it, and `r` has none at its ends. */
  function Trim(s: string): (r: string)
    ensures IsTrimmed(r)
    ensures exists a :: TrimmedAt(s, r, a)
  {
    var a := SkipLeading(s, 0);
    var e := SkipTrailing(s, a, |s|);
    assert TrimmedAt(s, s[a..e], a);
    s[a..e]
  }

  /** Every character of `Trim(s)` comes from `s`. */
  lemma TrimWithin(s: string)
    ensures forall c :: c in Trim(s) ==> c in s
  {
    var r := Trim(s);
    var a :| TrimmedAt(s, r, a);
    forall c | c in r ensures c in s {
      var i :| 0 <= i < |r| && r[i] == c;
      assert s[a + i] == c;
    }
  }

  /** A string has one trimmed core: two trimmed slices that each leave only whitespace
      around them are the same slice. */
  lemma TrimmedAtUnique(x: string, r: string, i: int, r': string, j: int)
    requires IsTrimmed(r) && TrimmedAt(x, r, i)
    requires IsTrimmed(r') && TrimmedAt(x, r', j)
    ensures r == r'
  {
    if |r| > 0 && |r'| > 0 {
      assert x[i] == r[0] && x[j] == r'[0];
      assert i == j;
      assert x[i + |r| - 1] == r[|r| - 1] && x[j + |r'| - 1] == r'[|r'| - 1];
      assert |r| == |r'|;
    }
  }

  /** The whitespace before and after the core of `s` stays whitespace inside `a + s + b`. */
  lemma PaddedTrimmedAt(s: string, a: string, b: string, r: string, j: int)
    requires forall i :: 0 <= i < |a| ==> IsWhitespace(a[i])
    requires forall i :: 0 <= i < |b| ==> IsWhitespace(b[i])
    requires TrimmedAt(s, r, j)
    ensures TrimmedAt(a + s + b, r, |a| + j)
  {
    var x := a + s + b;
    assert forall i :: 0 <= i < |s| ==> x[|a| + i] == s[i];
    assert x[|a| + j..|a| + j + |r|] == s[j..j + |r|];
    PaddedBefore(s, a, b, j);
    PaddedAfter(s, a, b, j + |r|);
  }

  lemma PaddedBefore(s: string, a: string, b: string, j: int)
    requires forall i :: 0 <= i < |a| ==> IsWhitespace(a[i])
    requires 0 <= j <= |s| && forall i :: 0 <= i < j ==> IsWhitespace(s[i])
    ensures forall i :: 0 <= i < |a| + j ==> IsWhitespace((a + s + b)[i])
  {
    var x := a + s + b;
    forall i | 0 <= i < |a| + j ensures IsWhitespace(x[i]) {
      if i >= |a| {
        assert x[i] == s[i - |a|];
      } else {
        assert x[i] == a[i];
      }
    }
  }

  lemma PaddedAfter(s: string, a: string, b: string, e: int)
    requires forall i :: 0 <= i < |b| ==> IsWhitespace(b[i])
    requires 0 <= e <= |s| && forall i :: e <= i < |s| ==> IsWhitespace(s[i])
    ensures forall i :: |a| + e <= i < |a + s + b| ==> IsWhitespace((a + s + b)[i])
  {
    var x := a + s + b;
    forall i | |a| + e <= i < |x| ensures IsWhitespace(x[i]) {
      if i < |a| + |s| {
        assert x[i] == s[i - |a|];
      } else {
        assert x[i] == b[i - |a| - |s|];
      }
    }
  }

  /** Whitespace added around a string does not change what `trim` returns. */
  lemma TrimOfPadded(s: string, a: string, b: string)
    requires forall i :: 0 <= i < |a| ==> IsWhitespace(a[i])
    requires forall i :: 0 <= i < |b| ==> IsWhitespace(b[i])
    ensures Trim(a + s + b) == Trim(s)
  {
    var x := a + s + b;
    var r := Trim(s);
    var j :| TrimmedAt(s, r, j);
    PaddedTrimmedAt(s, a, b, r, j);
    var k :| TrimmedAt(x, Trim(x), k);
    TrimmedAtUnique(x, Trim(x), k, r, |a| + j);
  }

  lemma TrimOfTrimmed(s: string)
    requires IsTrimmed(s)
    ensures Trim(s) == s
  {
  }

  /** Lowering a trimmed string keeps it trimmed: no ASCII letter is whitespace. */
  lemma LowerKeepsTrimmed(s: string)
    requires IsTrimmed(s)
    ensures IsTrimmed(Lower(s))
  {
    if |s| > 0 {
      assert Lower(s)[0] == LowerChar(s[0]);
      assert Lower(s)[|s| - 1] == LowerChar(s[|s| - 1]);
    }
  }

  // ---------------------------------------------------------------- search

  /** `p` occurs in `s` starting at index `i`. */
  predicate OccursAt(s: string, p: string, i: int) {
    0 <= i && i + |p| <= |s| && s[i..i + |p|] == p
  }

  function IndexOfFrom(s: string, p: string, from: nat): (r: Option<nat>)
    ensures r.Some? ==> from <= r.value && OccursAt(s, p, r.value)
    ensures r.Some? ==> forall j :: from <= j < r.value ==> !OccursAt(s, p, j)
    ensures r.None? ==> forall j :: from <= j ==> !OccursAt(s, p, j)
    decreases |s| - from
  {
    if from + |p| > |s| then None
    else if s[from..from + |p|] == p then Some(from)
    else IndexOfFrom(s, p, from + 1)
  }

  /** `s.indexOf(p)`, with `-1` as `None`: the first index where `p` occurs. */
  function IndexOf(s: string, p: string): (r: Option<nat>)
    ensures r.Some? ==> OccursAt(s, p, r.value) && forall j :: 0 <= j < r.value ==> !OccursAt(s, p, j)
    ensures r.None? ==> forall j :: !OccursAt(s, p, j)
  {
    IndexOfFrom(s, p, 0)
  }

  /** `s.includes(p)`. */
  predicate Includes(s: string, p: string) {
    IndexOf(s, p).Some?
  }

  lemma IncludesIffOccurs(s: string, p: string)
    ensures Includes(s, p) <==> exists j :: OccursAt(s, p, j)
  {
    if Includes(s, p) {
      assert OccursAt(s, p, IndexOf(s, p).value);
    }
  }

  /** Every string includes the empty string. */
  lemma IncludesEmpty(s: string)
    ensures Includes(s, "")
  {
    assert OccursAt(s, "", 0);
  }

  /** `s.replace(p, rep)` with a string pattern: only the first occurrence of `p` is
      replaced, and the text on either side of it is kept. */
  function ReplaceFirst(s: string, p: string, rep: string): (r: string)
    ensures IndexOf(s, p).None? ==> r == s
    ensures IndexOf(s, p).Some? ==>
      var i := IndexOf(s, p).value;
      && |r| == |s| - |p| + |rep|
      && r[..i] == s[..i]
      && r[i..i + |rep|] == rep
      && r[i + |rep|..] == s[i + |p|..]
  {
    match IndexOf(s, p)
    case None => s
    case Some(i) => s[..i] + rep + s[i + |p|..]
  }

  /** When the replacement starts with the pattern, the first occurrence stays where it
      was, and cutting out the inserted tail gives back the original string. */
  lemma ReplaceFirstByExtension(s: string, p: string, ext: string)
    requires Includes(s, p)
    ensures IndexOf(ReplaceFirst(s, p, p + ext), p) == IndexOf(s, p)
    ensures var i := IndexOf(s, p).value;
      var r := ReplaceFirst(s, p, p + ext);
      && |r| == |s| + |ext|
      && r[i + |p|..i + |p| + |ext|] == ext
      && r[..i + |p|] + r[i + |p| + |ext|..] == s
  {
    var i := IndexOf(s, p).value;
    var r := ReplaceFirst(s, p, p + ext);
    assert r[..i + |p|] == s[..i + |p|];
    forall j | 0 <= j < i ensures !OccursAt(r, p, j) {
      assert !OccursAt(s, p, j);
      assert r[j..j + |p|] == s[j..j + |p|];
    }
    assert OccursAt(r, p, i);
    var k := IndexOf(r, p).value;
    assert k == i;
    assert r[i..i + |p| + |ext|] == p + ext;
    assert r[i + |p|..i + |p| + |ext|] == (p + ext)[|p|..];
    assert s == s[..i + |p|] + s[i + |p|..];
  }

  // ---------------------------------------------------------------- split / join

  /** `s.split(sep)` for a one-character separator. */
  function Split(s: string, sep: char): (r: seq<string>)
    ensures |r| > 0
    ensures forall i :: 0 <= i < |r| ==> sep !in r[i]
  {
    if |s| == 0 then [""]
    else
      var rest := Split(s[1..], sep);
      if s[0] == sep then [""] + rest
      else [[s[0]] + rest[0]] + rest[1..]
  }

  /** Splitting at a separator splits each side on its own: `(a + sep + b).split(sep)` is
      `a.split(sep)` followed by `b.split(sep)`. */
  lemma {:induction false} SplitAtSeparator(a: string, b: string, sep: char)
    ensures Split(a + [sep] + b, sep) == Split(a, sep) + Split(b, sep)
    decreases |a|
  {
    if |a| == 0 {
      assert a + [sep] + b == [sep] + b;
      SplitCons(sep, b, sep);
    } else {
      var c, rest := a[0], a[1..];
      assert a + [sep] + b == [c] + (rest + [sep] + b);
      assert a == [c] + rest;
      SplitAtSeparator(rest, b, sep);
      SplitCons(c, rest + [sep] + b, sep);
      SplitCons(c, rest, sep);
      ExtendFirst([c], Split(rest, sep), Split(b, sep));
    }
  }

  /** Gluing a prefix onto the first piece commutes with appending more pieces. */
  lemma ExtendFirst(c: string, left: seq<string>, right: seq<string>)
    requires |left| > 0
    ensures [c + (left + right)[0]] + (left + right)[1..] == ([c + left[0]] + left[1..]) + right
  {
    assert (left + right)[1..] == left[1..] + right;
  }

  lemma SplitCons(c: char, t: string, sep: char)
    ensures Split([c] + t, sep) ==
      if c == sep then [""] + Split(t, sep) else [[c] + Split(t, sep)[0]] + Split(t, sep)[1..]
  {
    assert ([c] + t)[0] == c;
    assert ([c] + t)[1..] == t;
  }

  /** `parts.join(sep)`. */
  function Join(parts: seq<string>, sep: char): string {
    if |parts| == 0 then ""
    else if |parts| == 1 then parts[0]
    else parts[0] + [sep] + Join(parts[1..], sep)
  }

  /** A join starts with its first piece. */
  lemma {:induction false} JoinStartsWithFirst(parts: seq<string>, sep: char)
    requires |parts| > 0
    ensures |parts[0]| <= |Join(parts, sep)| && Join(parts, sep)[..|parts[0]|] == parts[0]
  {
    if |parts| > 1 {
      var j := Join(parts, sep);
      assert j == parts[0] + ([sep] + Join(parts[1..], sep));
    }
  }

  /** Joining the pieces of a split gives back the string. */
  lemma {:induction false} JoinSplit(s: string, sep: char)
    ensures Join(Split(s, sep), sep) == s
    decreases |s|
  {
    if |s| > 0 {
      JoinSplit(s[1..], sep);
      var rest := Split(s[1..], sep);
      if s[0] == sep {
        assert Split(s, sep) == [""] + rest;
        assert ([""] + rest)[1..] == rest;
      } else {
        var r := [[s[0]] + rest[0]] + rest[1..];
        assert r[1..] == rest[1..];
        if |rest| > 1 {
          assert rest == [rest[0]] + rest[1..];
        }
        assert s == [s[0]] + s[1..];
      }
    }
  }

  /** Splitting a join of separator-free pieces gives back the pieces. */
  lemma {:induction false} SplitJoin(parts: seq<string>, sep: char)
    requires |parts| > 0
    requires forall i :: 0 <= i < |parts| ==> sep !in parts[i]
    ensures Split(Join(parts, sep), sep) == parts
    decreases |parts|
  {
    if |parts| == 1 {
      SplitWithoutSep(parts[0], "", sep);
      assert Split("", sep) == [""];
      assert parts[0] + "" == parts[0];
    } else {
      SplitJoin(parts[1..], sep);
      var tail := Join(parts[1..], sep);
      SplitAfterSep(tail, sep);
      SplitWithoutSep(parts[0], [sep] + tail, sep);
      var pieces := Split([sep] + tail, sep);
      assert pieces[0] == "" && pieces[1..] == Split(tail, sep);
      assert parts[0] + pieces[0] == parts[0];
      assert parts[0] + [sep] + tail == parts[0] + ([sep] + tail);
      assert parts == [parts[0]] + parts[1..];
    }
  }

  lemma SplitAfterSep(t: string, sep: char)
    ensures Split([sep] + t, sep) == [""] + Split(t, sep)
  {
    assert ([sep] + t)[1..] == t;
  }

  /** A separator-free prefix glues onto the first piece. */
  lemma {:induction false} SplitWithoutSep(a: string, t: string, sep: char)
    requires sep !in a
    ensures Split(a + t, sep) == [a + Split(t, sep)[0]] + Split(t, sep)[1..]
    decreases |a|
  {
    if |a| > 0 {
      SplitWithoutSep(a[1..], t, sep);
      assert (a + t)[1..] == a[1..] + t;
      assert [a[0]] + (a[1..] + Split(t, sep)[0]) == a + Split(t, sep)[0];
    } else {
      var r := Split(t, sep);
      assert a + t == t;
      assert r == [r[0]] + r[1..];
      assert a + r[0] == r[0];
    }
  }

  // ---------------------------------------------------------------- decimal numbers

  predicate IsDigit(c: char) { '0' <= c <= '9' }

  /** A non-empty run of decimal digits: what `String(n)` produces for a natural `n`. */
  predicate IsDecimal(s: string) {
    |s| > 0 && forall i :: 0 <= i < |s| ==> IsDigit(s[i])
  }

  /** `Number(s)` for a string of decimal digits. */
  function DecimalValue(s: string): nat
    requires forall i :: 0 <= i < |s| ==> IsDigit(s[i])
  {
    if |s| == 0 then 0
    else
      assert IsDigit(s[|s| - 1]);
      DecimalValue(s[..|s| - 1]) * 10 + (s[|s| - 1] as int - '0' as int)
  }

  /** `String(n)`: the decimal text of `n`. */
  function DecimalText(n: nat): (r: string)
    ensures IsDecimal(r)
  {
    var d := ['0' + (n % 10) as char];
    if n < 10 then d else DecimalText(n / 10) + d
  }

  /** `Number(String(n)) == n`. */
  lemma {:induction false} DecimalRoundTrip(n: nat)
    ensures DecimalValue(DecimalText(n)) == n
  {
    var t := DecimalText(n);
    if n >= 10 {
      DecimalRoundTrip(n / 10);
      assert t[..|t| - 1] == DecimalText(n / 10);
    }
  }
}
