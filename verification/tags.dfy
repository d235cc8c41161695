/** Tag parsing at submission time, written identically in the upload form and the admin
    add-video form: split on commas, trim, lowercase, drop empty entries. */
module Tags {
  import opened JsString
  import opened Seqs

  /** `tag.trim().toLowerCase()`. */
  function Normalize(t: string): string {
    Lower(Trim(t))
  }

  function NormalizeAll(pieces: seq<string>): (r: seq<string>)
    ensures |r| == |pieces|
    ensures forall i :: 0 <= i < |r| ==> r[i] == Normalize(pieces[i])
  {
    seq(|pieces|, i requires 0 <= i < |pieces| => Normalize(pieces[i]))
  }

  predicate NonEmpty(t: string) { t != "" }

  /** What a parsed tag looks like: non-empty, trimmed, lower-case and free of commas. */
  predicate IsCleanTag(t: string) {
    t != "" && IsTrimmed(t) && IsLowerCase(t) && ',' !in t
  }

  /** A comma-free piece normalizes to a trimmed, lower-case, comma-free string. */
  lemma NormalizeClean(piece: string)
    requires ',' !in piece
    ensures NonEmpty(Normalize(piece)) ==> IsCleanTag(Normalize(piece))
  {
    var t := Trim(piece);
    TrimWithin(piece);
    LowerKeepsTrimmed(t);
    LowerWithin(t, ',');
  }

  /** `input ? input.split(',').map(tag => tag.trim().toLowerCase()).filter(tag => tag !== '') : []`. */
  function ParseTags(input: string): (tags: seq<string>)
    ensures input == "" ==> tags == []
    ensures forall i :: 0 <= i < |tags| ==> IsCleanTag(tags[i])
    ensures |tags| <= |Split(input, ',')|
  {
    if input == "" then []
    else
      var pieces := Split(input, ',');
      var normalized := NormalizeAll(pieces);
      forall i | 0 <= i < |pieces| ensures NonEmpty(normalized[i]) ==> IsCleanTag(normalized[i]) {
        NormalizeClean(pieces[i]);
      }
      Filter(normalized, NonEmpty)
  }

  /** A list of clean tags survives a comma-join and a re-parse unchanged. */
  lemma ParseJoin(tags: seq<string>)
    requires forall i :: 0 <= i < |tags| ==> IsCleanTag(tags[i])
    ensures ParseTags(Join(tags, ',')) == tags
  {
    if |tags| > 0 {
      var joined := Join(tags, ',');
      SplitJoin(tags, ',');
      JoinStartsWithFirst(tags, ',');
      assert joined != "" by {
        assert |tags[0]| > 0;
      }
      assert NormalizeAll(tags) == tags by {
        forall i | 0 <= i < |tags| ensures Normalize(tags[i]) == tags[i] {
          TrimOfTrimmed(tags[i]);
          LowerOfLowerCase(tags[i]);
        }
      }
      assert ParseTags(joined) == Filter(NormalizeAll(tags), NonEmpty);
    }
  }

  /** Parsing is idempotent: re-parsing the comma-join of parsed tags gives the same list. */
  lemma ParseIdempotent(input: string)
    ensures ParseTags(Join(ParseTags(input), ',')) == ParseTags(input)
  {
    ParseJoin(ParseTags(input));
  }

  /** The parsed tags are exactly the non-empty normalizations of the comma-separated pieces. */
  lemma ParseTagsMembers(input: string, t: string)
    ensures t in ParseTags(input) <==> t != "" && exists p :: p in Split(input, ',') && Normalize(p) == t
  {
    var pieces := Split(input, ',');
    ParsePieces(input);
    NormalizeAllMembers(pieces, t);
  }

  /** The empty-input guard changes nothing: `"".split(',')` is `[""]`, which normalizes to a
      single empty entry that the filter drops. */
  lemma ParsePieces(input: string)
    ensures ParseTags(input) == Filter(NormalizeAll(Split(input, ',')), NonEmpty)
  {
    if input == "" {
      TrimOfTrimmed("");
      assert NormalizeAll([""]) == [""];
    }
  }

  /** Parsing a comma-join of two inputs parses each on its own: a tag never spans a comma
      and each side keeps its order. */
  lemma ParseAppend(a: string, b: string)
    ensures ParseTags(a + "," + b) == ParseTags(a) + ParseTags(b)
  {
    var pa := Split(a, ',');
    var pb := Split(b, ',');
    assert a + "," + b == a + [','] + b;
    SplitAtSeparator(a, b, ',');
    ParsePieces(a + "," + b);
    ParsePieces(a);
    ParsePieces(b);
    NormalizeAllAppend(pa, pb);
    FilterAppend(NormalizeAll(pa), NormalizeAll(pb), NonEmpty);
  }

  lemma NormalizeAllAppend(a: seq<string>, b: seq<string>)
    ensures NormalizeAll(a + b) == NormalizeAll(a) + NormalizeAll(b)
  {
  }

  lemma NormalizeAllMembers(pieces: seq<string>, t: string)
    ensures t in NormalizeAll(pieces) <==> exists p :: p in pieces && Normalize(p) == t
  {
    var normalized := NormalizeAll(pieces);
    if t in normalized {
      var i :| 0 <= i < |normalized| && normalized[i] == t;
      assert pieces[i] in pieces;
    }
    if exists p :: p in pieces && Normalize(p) == t {
      var p :| p in pieces && Normalize(p) == t;
      var i :| 0 <= i < |pieces| && pieces[i] == p;
      assert normalized[i] == t;
    }
  }
}
