/** The video player dialog: it embeds the id extracted from the note's link and renders
    nothing when it is closed or when no id can be extracted. */
module VideoModal {
  import opened Types
  import opened JsString
  import opened YouTube

  const EmbedPrefix := "https://www.youtube.com/embed/"
  const AutoplaySuffix := "?autoplay=1"

  function EmbedUrlFor(videoId: string): string {
    EmbedPrefix + videoId + AutoplaySuffix
  }

  /** `embedUrl`: the autoplaying embed address of the extracted id, or `''` without one. */
  function EmbedUrl(videoURL: string): (r: string)
    ensures r == "" <==> GetYouTubeId(videoURL).None?
    ensures GetYouTubeId(videoURL).Some? ==> r == EmbedUrlFor(GetYouTubeId(videoURL).value)
  {
    match GetYouTubeId(videoURL)
    case Some(id) => EmbedUrlFor(id)
    case None => ""
  }

  /** The dialog renders only when it is open and an id was extracted. */
  predicate Renders(isOpen: bool, videoURL: string) {
    isOpen && GetYouTubeId(videoURL).Some?
  }

  /** An open dialog renders exactly when it has an embed address to show. */
  lemma RendersIffEmbed(videoURL: string)
    ensures Renders(true, videoURL) <==> EmbedUrl(videoURL) != ""
  {
  }

  /** The embed address leads back to the same id: the player shows the video the link named. */
  lemma EmbedRoundTrip(id: string)
    requires IsVideoId(id)
    ensures GetYouTubeId(EmbedUrlFor(id)) == Some(id)
  {
    var pre, tail := "https://www.youtube.com/", "embed/";
    var rest := tail + id + AutoplaySuffix;
    assert EmbedUrlFor(id) == pre + rest;
    forall q: nat, u | 0 < q ensures !MatchesAt(rest, q, u) {
      if q < |tail| {
        assert rest[q] == tail[q];
      } else {
        NoTokenBeforeAutoplay(rest, |tail|, q, u);
      }
    }
    assert rest[|tail|..|tail| + 11] == id;
    assert rest[|tail| + 11] == '?';
    IdExtracted(pre, EmbedSlash, rest, id);
  }

  /** No alternative matches inside an id followed by `?autoplay=1`: each alternative needs a
      `/`, `?` or `&`, and the only one there, the `?`, is not followed by `v=`. */
  lemma NoTokenBeforeAutoplay(s: string, lo: nat, q: nat, u: Token)
    requires lo <= q
    requires |s| >= lo + 11 + |AutoplaySuffix|
    requires forall i :: lo <= i < |s| - |AutoplaySuffix| ==> IsIdChar(s[i])
    requires s[|s| - |AutoplaySuffix|..] == AutoplaySuffix
    ensures !MatchesAt(s, q, u)
  {
    var hi := |s| - |AutoplaySuffix|;
    assert forall i :: hi <= i < |s| ==> s[i] == AutoplaySuffix[i - hi];
    if MatchesAt(s, q, u) {
      MatchHasSeparator(s, q, u);
      assert false;
    }
  }

  /** Re-extracting from the embed address gives the id the dialog started from, whatever
      characters the captured group holds. */
  lemma EmbedKeepsId(videoURL: string)
    requires GetYouTubeId(videoURL).Some?
    ensures GetYouTubeId(EmbedUrl(videoURL)) == GetYouTubeId(videoURL)
  {
    var u := videoURL;
    var p := LastTokenPos(u, LineEnd(u)).value;
    var t := TokenAt(u, p).value;
    var q0 := p + TokenLength(t);
    var g := GetYouTubeId(u).value;
    assert g == u[q0..q0 + 11];
    CleanThroughToken(u, p, t);
    EmbedOfCapture(u, p, q0, g);
  }

  /** The first line of `u` runs at least through the alternative matched at `p`. */
  lemma CleanThroughToken(u: string, p: nat, t: Token)
    requires p <= LineEnd(u) && TokenAt(u, p) == Some(t)
    ensures forall i :: 0 <= i < p + TokenLength(t) ==> !IsLineTerminator(u[i])
  {
    TokenHasNoLineTerminator(u, p, t);
  }

  /** The layout of an embed address: the fixed prefix ending in `embed/`, the id at 30 to
      41, then `?autoplay=1`. */
  lemma EmbedShape(g: string)
    requires |g| == 11
    ensures var w := EmbedUrlFor(g);
      && |w| == 52
      && (forall i :: 0 <= i < 30 ==> !IsLineTerminator(w[i]))
      && w[24..30] == "embed/" && w[30..41] == g && w[41..] == AutoplaySuffix
  {
    var w := EmbedUrlFor(g);
    assert forall i :: 0 <= i < 30 ==> w[i] == EmbedPrefix[i];
    assert w[24..30] == EmbedPrefix[24..30];
  }

  /** The embed address of the capture `g = u[q0..q0 + 11]`, taken after the last alternative
      (at `p`) of the first line of `u`, yields `g` again. */
  lemma EmbedOfCapture(u: string, p: nat, q0: nat, g: string)
    requires p < q0 && q0 + 11 <= |u| && u[q0..q0 + 11] == g
    requires forall i :: 0 <= i < q0 ==> !IsLineTerminator(u[i])
    requires forall q :: p < q <= LineEnd(u) ==> TokenAt(u, q).None?
    requires forall i :: 0 <= i < |g| ==> !IsCaptureStop(g[i])
    ensures GetYouTubeId(EmbedUrlFor(g)) == Some(g)
  {
    var w := EmbedUrlFor(g);
    EmbedShape(g);
    EmbedMatch(w);
    LaterTokensNone(u, p, q0, g, w);
    CaptureInEmbed(w, g);
    ExtractAfterEmbed(w);
  }

  /** An address whose last alternative on its first line is the `embed/` at 24, with a
      capture running to 41, yields `w[30..41]`. */
  lemma ExtractAfterEmbed(w: string)
    requires |w| == 52 && MatchesAt(w, 24, EmbedSlash) && 30 <= LineEnd(w)
    requires forall q :: 24 < q <= LineEnd(w) ==> TokenAt(w, q).None?
    requires RunEnd(w, 30) == 41
    ensures GetYouTubeId(w) == Some(w[30..41])
  {
    AtMostOneTokenIsFirst(w, 24, EmbedSlash);
    LastTokenPosIs(w, LineEnd(w), 24);
  }

  lemma LaterTokensNone(u: string, p: nat, q0: nat, g: string, w: string)
    requires p < q0 && q0 + 11 <= |u| && u[q0..q0 + 11] == g
    requires forall i :: 0 <= i < q0 ==> !IsLineTerminator(u[i])
    requires forall q :: p < q <= LineEnd(u) ==> TokenAt(u, q).None?
    requires |w| == 52 && w[24..30] == "embed/" && w[30..41] == g && w[41..] == AutoplaySuffix
    ensures forall q :: 24 < q <= LineEnd(w) ==> TokenAt(w, q).None?
  {
    forall q | 24 < q <= LineEnd(w) ensures TokenAt(w, q).None? {
      forall v ensures !MatchesAt(w, q, v) {
        NoLaterToken(u, p, q0, g, w, q, v);
      }
    }
  }

  lemma EmbedMatch(w: string)
    requires |w| == 52 && w[24..30] == "embed/"
    requires forall i :: 0 <= i < 30 ==> !IsLineTerminator(w[i])
    ensures MatchesAt(w, 24, EmbedSlash) && 30 <= LineEnd(w)
  {
    assert forall k :: 0 <= k < 6 ==> w[24 + k] == w[24..30][k];
  }

  lemma CaptureInEmbed(w: string, g: string)
    requires |w| == 52 && w[30..41] == g && w[41..] == AutoplaySuffix
    requires forall i :: 0 <= i < |g| ==> !IsCaptureStop(g[i])
    ensures RunEnd(w, 30) == 41
  {
    assert forall i :: 30 <= i < 41 ==> w[i] == g[i - 30];
    assert w[41] == AutoplaySuffix[0];
    RunEndAt(w, 30, 41);
  }

  /** No alternative matches in the embed address after its `embed/`, up to its line end. */
  lemma NoLaterToken(u: string, p: nat, q0: nat, g: string, w: string, q: nat, v: Token)
    requires p < q0 && q0 + 11 <= |u| && u[q0..q0 + 11] == g
    requires forall i :: 0 <= i < q0 ==> !IsLineTerminator(u[i])
    requires forall q :: p < q <= LineEnd(u) ==> TokenAt(u, q).None?
    requires |w| == 52 && w[24..30] == "embed/" && w[30..41] == g && w[41..] == AutoplaySuffix
    requires 24 < q <= LineEnd(w)
    ensures !MatchesAt(w, q, v)
  {
    if q < 30 {
      NoTokenInEmbed(w, q, v);
    } else if q + TokenLength(v) <= 41 {
      NoTokenInCapture(u, p, q0, w, q, v);
    } else {
      NoTokenReachingAutoplay(w, 41, q, v);
    }
  }

  /** Inside `embed/` no alternative starts after the `e`: `m`, `b`, `d` and `/` start none,
      and the second `e` is followed by `d`, not `m`. */
  lemma NoTokenInEmbed(w: string, q: nat, v: Token)
    requires 30 < |w| && w[24..30] == "embed/"
    requires 24 < q < 30
    ensures !MatchesAt(w, q, v)
  {
    assert forall k :: 0 <= k < 6 ==> w[24 + k] == "embed/"[k];
  }

  /** An alternative inside the copied capture would also match in `u` past `p` and before
      its line end, where `u` has none. */
  lemma NoTokenInCapture(u: string, p: nat, q0: nat, w: string, q: nat, v: Token)
    requires p < q0 && q0 + 11 <= |u|
    requires forall i :: 0 <= i < q0 ==> !IsLineTerminator(u[i])
    requires forall q :: p < q <= LineEnd(u) ==> TokenAt(u, q).None?
    requires |w| == 52 && w[30..41] == u[q0..q0 + 11]
    requires 30 <= q && q + TokenLength(v) <= 41 && q <= LineEnd(w)
    ensures !MatchesAt(w, q, v)
  {
    var q' := q0 + q - 30;
    CopiedWindow(u, q0, w, q, TokenLength(v));
    MatchWindow(w, q, u, q', v);
    CleanUpTo(u, q0, w, q);
    assert TokenAt(u, q').None?;
  }

  /** `w[30..41]` is a copy of `u[q0..q0 + 11]`, so so is every window inside it. */
  lemma CopiedWindow(u: string, q0: nat, w: string, q: nat, n: nat)
    requires q0 + 11 <= |u| && |w| == 52 && w[30..41] == u[q0..q0 + 11]
    requires 30 <= q && q + n <= 41
    ensures u[q0 + q - 30..q0 + q - 30 + n] == w[q..q + n]
  {
    var x, y := u[q0 + q - 30..q0 + q - 30 + n], w[q..q + n];
    forall i | 0 <= i < n ensures x[i] == y[i] {
      assert y[i] == w[30..41][q - 30 + i];
      assert x[i] == u[q0..q0 + 11][q - 30 + i];
    }
  }

  /** Up to the copy of `w[30..q]`, the first line of `u` runs unbroken: its line end is no
      earlier than that point. */
  lemma CleanUpTo(u: string, q0: nat, w: string, q: nat)
    requires q0 + 11 <= |u| && |w| == 52 && w[30..41] == u[q0..q0 + 11]
    requires forall i :: 0 <= i < q0 ==> !IsLineTerminator(u[i])
    requires 30 <= q <= 41 && q <= LineEnd(w)
    ensures q0 + q - 30 <= LineEnd(u)
  {
    CleanCopy(u, q0, w, q);
    LineEndAtLeast(u, q0 + q - 30);
  }

  /** The copy in `u` of the part of `w[30..41]` before `w`'s line end holds no line
      terminator. */
  lemma CleanCopy(u: string, q0: nat, w: string, q: nat)
    requires q0 + 11 <= |u| && |w| == 52 && w[30..41] == u[q0..q0 + 11]
    requires 30 <= q <= 41 && q <= LineEnd(w)
    ensures forall i :: q0 <= i < q0 + q - 30 ==> !IsLineTerminator(u[i])
  {
    forall i | q0 <= i < q0 + q - 30 ensures !IsLineTerminator(u[i]) {
      var j := i - q0;
      assert u[i] == u[q0..q0 + 11][j];
      assert w[30 + j] == w[30..41][j];
    }
  }

  /** No alternative that reaches into a trailing `?autoplay=1` matches: each ends in `/` or
      `=`, and the only `=` there follows `y`, not `v`. */
  lemma NoTokenReachingAutoplay(s: string, hi: nat, q: nat, v: Token)
    requires hi + |AutoplaySuffix| == |s| && s[hi..] == AutoplaySuffix
    requires hi < q + TokenLength(v)
    ensures !MatchesAt(s, q, v)
  {
    assert forall i :: hi <= i < |s| ==> s[i] == AutoplaySuffix[i - hi];
  }
}
