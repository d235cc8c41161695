// The YouTube id extraction shared by the note card and the video player:
//
//   url.match(/^.*(youtu.be\/|v\/|u\/\w\/|embed\/|watch\?v=|&v=)([^#&?]*).*/)
//
// accepted only when the second group has exactly eleven characters.
//
// The regular expression has no flags, so `.` matches any character except a line
// terminator and `^` anchors at the start of the input. Its leading `.*` is greedy: the
// engine tries the alternatives at the largest position first and backs off one character
// at a time, so the match uses the LAST position (before the first line terminator) at
// which some alternative matches. The capture `[^#&?]*` is greedy too and the trailing `.*`
// accepts anything, so once an alternative matches there is no further backtracking: the
// capture is the longest run of characters other than `#`, `&` and `?` after it.
module YouTube {
  import opened Types
  import opened JsString

  predicate IsWordChar(c: char) {
    ('a' <= c <= 'z') || ('A' <= c <= 'Z') || ('0' <= c <= '9') || c == '_'
  }

  /** The six alternatives of the first group, in the order the regular expression lists
      them: `youtu.be/` (whose `.` is any character but a line terminator), `v/`, `u/\w/`,
      `embed/`, `watch?v=` and `&v=`. */
  datatype Token = YoutuBe | VSlash | USlash | EmbedSlash | WatchV | AmpV

  function TokenLength(t: Token): nat {
    match t
    case YoutuBe => 9
    case VSlash => 2
    case USlash => 4
    case EmbedSlash => 6
    case WatchV => 8
    case AmpV => 3
  }

  /** The position of the alternative in the regular expression. */
  function Rank(t: Token): nat {
    match t
    case YoutuBe => 0
    case VSlash => 1
    case USlash => 2
    case EmbedSlash => 3
    case WatchV => 4
    case AmpV => 5
  }

  /** Alternative `t` matches the characters of `s` starting at `p`. */
  predicate MatchesAt(s: string, p: nat, t: Token) {
    p + TokenLength(t) <= |s| &&
    match t
    case YoutuBe =>
      s[p] == 'y' && s[p + 1] == 'o' && s[p + 2] == 'u' && s[p + 3] == 't' && s[p + 4] == 'u'
      && !IsLineTerminator(s[p + 5]) && s[p + 6] == 'b' && s[p + 7] == 'e' && s[p + 8] == '/'
    case VSlash => s[p] == 'v' && s[p + 1] == '/'
    case USlash => s[p] == 'u' && s[p + 1] == '/' && IsWordChar(s[p + 2]) && s[p + 3] == '/'
    case EmbedSlash =>
      s[p] == 'e' && s[p + 1] == 'm' && s[p + 2] == 'b' && s[p + 3] == 'e' && s[p + 4] == 'd'
      && s[p + 5] == '/'
    case WatchV =>
      s[p] == 'w' && s[p + 1] == 'a' && s[p + 2] == 't' && s[p + 3] == 'c' && s[p + 4] == 'h'
      && s[p + 5] == '?' && s[p + 6] == 'v' && s[p + 7] == '='
    case AmpV => s[p] == '&' && s[p + 1] == 'v' && s[p + 2] == '='
  }

  /** The alternative the engine commits to at position `p`: the first one, in the order
      written, that matches there. */
  function TokenAt(s: string, p: nat): (r: Option<Token>)
    ensures r.Some? ==> MatchesAt(s, p, r.value)
    ensures r.Some? ==> forall t :: Rank(t) < Rank(r.value) ==> !MatchesAt(s, p, t)
    ensures r.None? ==> forall t :: !MatchesAt(s, p, t)
  {
    if MatchesAt(s, p, YoutuBe) then Some(YoutuBe)
    else if MatchesAt(s, p, VSlash) then Some(VSlash)
    else if MatchesAt(s, p, USlash) then Some(USlash)
    else if MatchesAt(s, p, EmbedSlash) then Some(EmbedSlash)
    else if MatchesAt(s, p, WatchV) then Some(WatchV)
    else if MatchesAt(s, p, AmpV) then Some(AmpV)
    else None
  }

  /** The alternatives start with six different characters, so at most one matches at any
      position and the order in which they are written never decides anything. */
  lemma AtMostOneToken(s: string, p: nat, t: Token, u: Token)
    requires MatchesAt(s, p, t) && MatchesAt(s, p, u)
    ensures t == u
  {
  }

  /** The end of the first line: the leading `.*` cannot run past a line terminator. */
  function LineEnd(s: string): (e: nat)
    ensures e <= |s|
    ensures forall i :: 0 <= i < e ==> !IsLineTerminator(s[i])
    ensures e < |s| ==> IsLineTerminator(s[e])
  {
    if |s| == 0 || IsLineTerminator(s[0]) then 0 else 1 + LineEnd(s[1..])
  }

  predicate IsCaptureStop(c: char) { c == '#' || c == '&' || c == '?' }

  /** Where the greedy `[^#&?]*` starting at `q` stops. */
  function RunEnd(s: string, q: nat): (e: nat)
    requires q <= |s|
    ensures q <= e <= |s|
    ensures forall i :: q <= i < e ==> !IsCaptureStop(s[i])
    ensures e < |s| ==> IsCaptureStop(s[e])
    decreases |s| - q
  {
    if q == |s| || IsCaptureStop(s[q]) then q else RunEnd(s, q + 1)
  }

  /** The largest position at most `hi` at which some alternative matches. */
  function LastTokenPos(s: string, hi: nat): (r: Option<nat>)
    ensures r.Some? ==> r.value <= hi && TokenAt(s, r.value).Some?
    ensures r.Some? ==> forall q :: r.value < q <= hi ==> TokenAt(s, q).None?
    ensures r.None? ==> forall q :: 0 <= q <= hi ==> TokenAt(s, q).None?
  {
    if TokenAt(s, hi).Some? then Some(hi)
    else if hi == 0 then None
    else LastTokenPos(s, hi - 1)
  }

  /** The declarative reading of the regular expression: the leading `.*` covers `s[..p]`
      (so `p` does not pass the first line terminator), alternative `t` matches at `p`, it is
      the first alternative that does, and no alternative matches at any later position the
      leading `.*` could reach. */
  ghost predicate IsRegexMatch(s: string, p: nat, t: Token) {
    && p <= LineEnd(s)
    && MatchesAt(s, p, t)
    && (forall u :: Rank(u) < Rank(t) ==> !MatchesAt(s, p, u))
    && (forall q, u :: p < q <= LineEnd(s) ==> !MatchesAt(s, q, u))
  }

  /** The second group of the match that commits to `t` at `p`. */
  function Capture(s: string, p: nat, t: Token): (g: string)
    requires MatchesAt(s, p, t)
    ensures forall i :: 0 <= i < |g| ==> !IsCaptureStop(g[i])
  {
    var q := p + TokenLength(t);
    s[q..RunEnd(s, q)]
  }

  /** `getYouTubeId(url)`: the captured id when it has exactly eleven characters, `null`
      otherwise (no match, or a capture of another length). */
  function GetYouTubeId(url: string): (r: Option<string>)
    ensures r.Some? ==> |r.value| == 11
    ensures r.Some? ==> forall i :: 0 <= i < 11 ==> !IsCaptureStop(r.value[i])
  {
    match LastTokenPos(url, LineEnd(url))
    case None => None
    case Some(p) =>
      var g := Capture(url, p, TokenAt(url, p).value);
      if |g| == 11 then Some(g) else None
  }

  /** There is at most one regex match: the greedy reading fixes both the position and the
      alternative. */
  lemma {:induction false} RegexMatchUnique(s: string, p: nat, t: Token, p': nat, t': Token)
    requires IsRegexMatch(s, p, t) && IsRegexMatch(s, p', t')
    ensures p == p' && t == t'
  {
    if p < p' {
      assert false;
    } else if p' < p {
      assert false;
    } else {
      AtMostOneToken(s, p, t, t');
    }
  }

  /** `GetYouTubeId` agrees with the declarative reading in both directions: it returns an id
      exactly when the regular expression matches and its second group has eleven
      characters, and then the id is that group. */
  lemma GetYouTubeIdSpec(url: string, id: string)
    ensures GetYouTubeId(url) == Some(id) <==>
      exists p: nat, t :: IsRegexMatch(url, p, t) && Capture(url, p, t) == id && |id| == 11
  {
    var e := LineEnd(url);
    if exists p: nat, t :: IsRegexMatch(url, p, t) && Capture(url, p, t) == id && |id| == 11 {
      var p: nat, t :| IsRegexMatch(url, p, t) && Capture(url, p, t) == id && |id| == 11;
      AtMostOneTokenIsFirst(url, p, t);
      LastTokenPosIs(url, e, p);
    }
    if GetYouTubeId(url) == Some(id) {
      var p := LastTokenPos(url, e).value;
      var t := TokenAt(url, p).value;
      forall q, u | p < q <= e ensures !MatchesAt(url, q, u) {
        assert TokenAt(url, q).None?;
      }
      assert IsRegexMatch(url, p, t);
    }
  }

  /** A URL without any of the alternatives yields no id. */
  lemma NoTokenNoId(url: string)
    requires forall p: nat, t :: !MatchesAt(url, p, t)
    ensures GetYouTubeId(url).None?
  {
    assert LastTokenPos(url, LineEnd(url)).None?;
  }

  // ---------------------------------------------------------------- canonical links

  /** The characters of a YouTube video id. */
  predicate IsIdChar(c: char) { IsWordChar(c) || c == '-' }

  predicate IsVideoId(id: string) {
    |id| == 11 && forall i :: 0 <= i < |id| ==> IsIdChar(id[i])
  }

  predicate IsSeparator(c: char) { c == '/' || c == '?' || c == '&' }

  /** Where, inside each alternative, sits a `/`, `?` or `&`, none of which can occur in an id. */
  function SeparatorOffset(t: Token): (k: nat)
    ensures k < TokenLength(t)
  {
    match t
    case YoutuBe => 8
    case VSlash => 1
    case USlash => 1
    case EmbedSlash => 5
    case WatchV => 5
    case AmpV => 0
  }

  lemma MatchHasSeparator(s: string, p: nat, t: Token)
    requires MatchesAt(s, p, t)
    ensures p + SeparatorOffset(t) < |s| && IsSeparator(s[p + SeparatorOffset(t)])
  {
  }

  /** The characters an alternative matches are never line terminators. */
  lemma TokenHasNoLineTerminator(s: string, p: nat, t: Token)
    ensures MatchesAt(s, p, t) ==> forall i :: p <= i < p + TokenLength(t) ==> !IsLineTerminator(s[i])
  {
  }

  /** Whether an alternative matches depends only on the characters it covers. */
  lemma MatchWindow(s: string, a: nat, s': string, b: nat, t: Token)
    requires a + TokenLength(t) <= |s| && b + TokenLength(t) <= |s'|
    requires s'[b..b + TokenLength(t)] == s[a..a + TokenLength(t)]
    ensures MatchesAt(s, a, t) ==> MatchesAt(s', b, t)
  {
    var n := TokenLength(t);
    var x, y := s[a..a + n], s'[b..b + n];
    assert s[a] == x[0] && s[a + 1] == x[1] && s'[b] == y[0] && s'[b + 1] == y[1];
    if n > 2 {
      assert s[a + 2] == x[2] && s'[b + 2] == y[2];
    }
    if n > 3 {
      assert s[a + 3] == x[3] && s'[b + 3] == y[3];
    }
    if n > 5 {
      assert s[a + 4] == x[4] && s'[b + 4] == y[4] && s[a + 5] == x[5] && s'[b + 5] == y[5];
    }
    if n > 7 {
      assert s[a + 6] == x[6] && s'[b + 6] == y[6] && s[a + 7] == x[7] && s'[b + 7] == y[7];
    }
    if n > 8 {
      assert s[a + 8] == x[8] && s'[b + 8] == y[8];
    }
  }

  /** The first line reaches at least as far as the characters known not to end it. */
  lemma LineEndAtLeast(s: string, k: nat)
    requires k <= |s|
    requires forall i :: 0 <= i < k ==> !IsLineTerminator(s[i])
    ensures k <= LineEnd(s)
  {
  }

  /** No alternative can match wholly inside a run of id characters. */
  lemma NoTokenInIdRun(s: string, lo: nat, q: nat, t: Token)
    requires lo <= q
    requires forall i :: lo <= i < |s| ==> IsIdChar(s[i])
    ensures !MatchesAt(s, q, t)
  {
    if MatchesAt(s, q, t) {
      MatchHasSeparator(s, q, t);
      assert false;
    }
  }

  /** `LastTokenPos` is pinned down by its contract: the last position at most `hi` that
      carries a token. */
  lemma {:induction false} LastTokenPosIs(s: string, hi: nat, p: nat)
    requires p <= hi && TokenAt(s, p).Some?
    requires forall q :: p < q <= hi ==> TokenAt(s, q).None?
    ensures LastTokenPos(s, hi) == Some(p)
    decreases hi
  {
    if p < hi {
      assert TokenAt(s, hi).None?;
      LastTokenPosIs(s, hi - 1, p);
    }
  }

  /** When the URL is some line-terminator-free text, then an alternative, then a video id
      that is the end of the URL or is cut off by `#`, `&` or `?`, and no alternative matches
      after the first one, the id is extracted. */
  lemma IdExtracted(pre: string, t: Token, rest: string, id: string)
    requires forall i :: 0 <= i < |pre| ==> !IsLineTerminator(pre[i])
    requires forall i :: 0 <= i < |rest| ==> !IsLineTerminator(rest[i])
    requires MatchesAt(rest, 0, t)
    requires forall q: nat, u :: 0 < q ==> !MatchesAt(rest, q, u)
    requires IsVideoId(id)
    requires TokenLength(t) + 11 <= |rest| && rest[TokenLength(t)..TokenLength(t) + 11] == id
    requires TokenLength(t) + 11 == |rest| || IsCaptureStop(rest[TokenLength(t) + 11])
    ensures GetYouTubeId(pre + rest) == Some(id)
  {
    var url := pre + rest;
    var p := |pre|;
    var n := TokenLength(t);
    CleanConcat(pre, rest);
    LineEndOfClean(url);
    LastTokenOfPrefixed(pre, rest, t);
    assert url[p + n..p + n + 11] == id;
    CaptureOfId(url, p + n, id);
    assert Capture(url, p, t) == id;
  }

  lemma CleanConcat(pre: string, rest: string)
    requires forall i :: 0 <= i < |pre| ==> !IsLineTerminator(pre[i])
    requires forall i :: 0 <= i < |rest| ==> !IsLineTerminator(rest[i])
    ensures forall i :: 0 <= i < |pre + rest| ==> !IsLineTerminator((pre + rest)[i])
  {
    var url := pre + rest;
    assert forall i :: |pre| <= i < |url| ==> url[i] == rest[i - |pre|];
  }

  lemma LastTokenOfPrefixed(pre: string, rest: string, t: Token)
    requires MatchesAt(rest, 0, t)
    requires forall q: nat, u :: 0 < q ==> !MatchesAt(rest, q, u)
    ensures LastTokenPos(pre + rest, |pre + rest|) == Some(|pre|)
    ensures TokenAt(pre + rest, |pre|) == Some(t)
  {
    var url := pre + rest;
    var p := |pre|;
    ShiftedMatch(pre, rest, 0, t);
    forall q | p < q <= |url| ensures TokenAt(url, q).None? {
      forall u ensures !MatchesAt(url, q, u) {
        ShiftedNoMatch(pre, rest, q - p, u);
      }
    }
    AtMostOneTokenIsFirst(url, p, t);
    LastTokenPosIs(url, |url|, p);
  }

  lemma CaptureOfId(url: string, q: nat, id: string)
    requires IsVideoId(id)
    requires q + 11 <= |url| && url[q..q + 11] == id
    requires q + 11 == |url| || IsCaptureStop(url[q + 11])
    ensures RunEnd(url, q) == q + 11
  {
    assert forall i :: q <= i < q + 11 ==> url[i] == id[i - q];
    RunEndAt(url, q, q + 11);
  }

  lemma AtMostOneTokenIsFirst(s: string, p: nat, t: Token)
    requires MatchesAt(s, p, t)
    ensures TokenAt(s, p) == Some(t)
  {
    if TokenAt(s, p).Some? {
      AtMostOneToken(s, p, t, TokenAt(s, p).value);
    }
  }

  /** A match in `rest` at `q` is a match in `pre + rest` at `|pre| + q`. */
  lemma ShiftedMatch(pre: string, rest: string, q: nat, u: Token)
    requires MatchesAt(rest, q, u)
    ensures MatchesAt(pre + rest, |pre| + q, u)
  {
    var s := pre + rest;
    assert forall i :: 0 <= i < |rest| ==> s[|pre| + i] == rest[i];
  }

  /** Without a match in `rest` at `q` there is none in `pre + rest` at `|pre| + q`. */
  lemma ShiftedNoMatch(pre: string, rest: string, q: nat, u: Token)
    requires !MatchesAt(rest, q, u)
    ensures !MatchesAt(pre + rest, |pre| + q, u)
  {
    var s := pre + rest;
    assert forall i :: 0 <= i < |rest| ==> s[|pre| + i] == rest[i];
  }

  lemma LineEndOfClean(s: string)
    requires forall i :: 0 <= i < |s| ==> !IsLineTerminator(s[i])
    ensures LineEnd(s) == |s|
  {
  }

  lemma {:induction false} RunEndAt(s: string, q: nat, e: nat)
    requires q <= e <= |s|
    requires forall i :: q <= i < e ==> !IsCaptureStop(s[i])
    requires e == |s| || IsCaptureStop(s[e])
    ensures RunEnd(s, q) == e
    decreases e - q
  {
    if q < e {
      RunEndAt(s, q + 1, e);
    }
  }

  /** `https://youtu.be/<id>` yields `<id>`. */
  lemma ShortLinkExtracted(id: string)
    requires IsVideoId(id)
    ensures GetYouTubeId("https://youtu.be/" + id) == Some(id)
  {
    var pre, tail := "https://", "youtu.be/";
    var rest := tail + id;
    assert "https://youtu.be/" + id == pre + rest;
    forall q: nat, u | 0 < q ensures !MatchesAt(rest, q, u) {
      if q < |tail| {
        assert rest[q] == tail[q];
      } else {
        NoTokenInIdRun(rest, |tail|, q, u);
      }
    }
    IdExtracted(pre, YoutuBe, rest, id);
  }

  /** `https://www.youtube.com/watch?v=<id>` yields `<id>`. */
  lemma WatchLinkExtracted(id: string)
    requires IsVideoId(id)
    ensures GetYouTubeId("https://www.youtube.com/watch?v=" + id) == Some(id)
  {
    var pre, tail := "https://www.youtube.com/", "watch?v=";
    var rest := tail + id;
    assert "https://www.youtube.com/watch?v=" + id == pre + rest;
    forall q: nat, u | 0 < q ensures !MatchesAt(rest, q, u) {
      if q < |tail| {
        assert rest[q] == tail[q];
      } else {
        NoTokenInIdRun(rest, |tail|, q, u);
      }
    }
    IdExtracted(pre, WatchV, rest, id);
  }

  /** No alternative matches inside an id that is followed by a `&t=` time parameter. */
  lemma NoTokenBeforeTime(s: string, lo: nat, q: nat, t: Token)
    requires lo <= q < lo + 11 && lo + 14 <= |s|
    requires forall i :: lo <= i < lo + 11 ==> IsIdChar(s[i])
    requires s[lo + 11] == '&' && s[lo + 12] == 't' && s[lo + 13] == '='
    ensures !MatchesAt(s, q, t)
  {
    if MatchesAt(s, q, t) {
      MatchHasSeparator(s, q, t);
      assert false;
    }
  }

  /** `https://www.youtube.com/watch?v=<id>&t=10` yields `<id>`: the capture stops at `&`. */
  lemma TimedWatchLinkExtracted(id: string)
    requires IsVideoId(id)
    ensures GetYouTubeId("https://www.youtube.com/watch?v=" + id + "&t=10") == Some(id)
  {
    var pre, tail, time := "https://www.youtube.com/", "watch?v=", "&t=10";
    var rest := tail + id + time;
    assert "https://www.youtube.com/watch?v=" + id + "&t=10" == pre + rest;
    assert rest[|tail| + 11..] == time;
    forall q: nat, u | 0 < q ensures !MatchesAt(rest, q, u) {
      if q < |tail| {
        assert rest[q] == tail[q];
      } else if q < |tail| + 11 {
        NoTokenBeforeTime(rest, |tail|, q, u);
      } else if q < |rest| {
        assert rest[q] == time[q - |tail| - 11];
      }
    }
    assert rest[|tail|..|tail| + 11] == id;
    IdExtracted(pre, WatchV, rest, id);
  }
}
