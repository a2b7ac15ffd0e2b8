/** Tags stored inside a bookmark title, as `title #k1, k2, ...`.

    The encoder is the `addBookmark` branch of the background service; the
    decoder is `parseBookmarkTitle`, which the main page and the popup define
    identically and which this module defines once. The decoder matches
    `/^(.+?)\s*#(.+)$/`: a lazy first group of one or more characters other
    than line terminators, a greedy run of white space, a `#`, and a second
    group of one or more characters other than line terminators that reaches
    the end of the title. */
module TitleCodec {
  import opened Wrappers
  import opened Text
  import opened Seqs

  // ---------------------------------------------------------------------------
  // The regular expression
  // ---------------------------------------------------------------------------

  /** `/^(.+?)\s*#(.+)$/` matches `s` with the first group `s[..k]`, the white
      space `s[k..j]`, the `#` at `j` and the second group `s[j + 1..]`. */
  ghost predicate MatchesAt(s: string, k: int, j: int) {
    && 1 <= k <= j && j + 1 < |s|
    && NoLineTerminator(s[..k])
    && AllWhitespace(s[k..j])
    && s[j] == '#'
    && NoLineTerminator(s[j + 1..])
  }

  /** A match, read character by character. */
  lemma MatchChars(s: string, k: int, j: int)
    requires MatchesAt(s, k, j)
    ensures forall i :: 0 <= i < k ==> !IsLineTerminator(s[i])
    ensures forall i :: k <= i < j ==> IsWhitespace(s[i])
    ensures forall i :: j < i < |s| ==> !IsLineTerminator(s[i])
  {
    assert forall i :: 0 <= i < k ==> s[..k][i] == s[i];
    assert forall i :: k <= i < j ==> s[k..j][i - k] == s[i];
    assert forall i :: j < i < |s| ==> s[j + 1..][i - j - 1] == s[i];
  }

  /** The match the regular expression engine reports: the lazy first group
      makes it the one with the least `k`. */
  ghost predicate FirstMatch(s: string, k: int, j: int) {
    MatchesAt(s, k, j) && forall k', j' :: 0 <= k' < k ==> !MatchesAt(s, k', j')
  }

  /** For a given first group the `#` is the first character after the white
      space that follows it, so there is at most one match per first group. */
  lemma MatchGap(s: string, k: int, j: int)
    requires MatchesAt(s, k, j)
    ensures j == SkipWhitespace(s, k)
  {
    assert forall i :: 0 <= i < j - k ==> s[k..j][i] == s[k + i];
  }

  /** Whether the first group can be `s[..k]`. */
  predicate TagAfter(s: string, k: nat)
    requires 1 <= k <= |s|
  {
    var j := SkipWhitespace(s, k);
    j + 1 < |s| && s[j] == '#' && NoLineTerminator(s[j + 1..])
  }

  lemma TagAfterMatches(s: string, k: nat)
    requires 1 <= k <= |s| && NoLineTerminator(s[..k])
    ensures TagAfter(s, k) <==> MatchesAt(s, k, SkipWhitespace(s, k))
  {
    var j := SkipWhitespace(s, k);
    assert forall i :: 0 <= i < j - k ==> s[k..j][i] == s[k + i];
  }

  lemma NoMatchAt(s: string, k: nat)
    requires 1 <= k <= |s| && NoLineTerminator(s[..k]) && !TagAfter(s, k)
    ensures forall j :: !MatchesAt(s, k, j)
  {
    forall j | MatchesAt(s, k, j) ensures false {
      MatchGap(s, k, j);
      TagAfterMatches(s, k);
    }
  }

  /** The engine's search: first groups `s[..k]`, `s[..k + 1]`, ... until one
      is followed by a match or would have to contain a line terminator. */
  function SearchFrom(s: string, k: nat): (r: Option<(nat, nat)>)
    requires 1 <= k <= |s|
    requires NoLineTerminator(s[..k - 1])
    ensures r.Some? ==> k <= r.value.0 && FirstMatchFrom(s, k, r.value.0, r.value.1)
    ensures r.None? ==> forall k', j' :: k <= k' ==> !MatchesAt(s, k', j')
    decreases |s| - k
  {
    if IsLineTerminator(s[k - 1]) then
      assert forall k', j' :: k <= k' && MatchesAt(s, k', j') ==> s[..k'][k - 1] == s[k - 1];
      None
    else
      assert s[..k] == s[..k - 1] + [s[k - 1]];
      NoLineTerminatorAppend(s[..k - 1], [s[k - 1]]);
      TagAfterMatches(s, k);
      if TagAfter(s, k) then
        Some((k, SkipWhitespace(s, k)))
      else
        NoMatchAt(s, k);
        if k == |s| then None else SearchFrom(s, k + 1)
  }

  /** `MatchesAt(s, k, j)` and no match has a first group of a length in
      `[from, k)`. */
  ghost predicate FirstMatchFrom(s: string, from: int, k: int, j: int) {
    MatchesAt(s, k, j) && forall k', j' :: from <= k' < k ==> !MatchesAt(s, k', j')
  }

  // ---------------------------------------------------------------------------
  // Decoder
  // ---------------------------------------------------------------------------

  /** The display title and the keyword list of a stored title. */
  datatype ParsedTitle = ParsedTitle(title: string, keywords: seq<string>)

  /** There is at most one first match. */
  lemma FirstMatchUnique(s: string, k: int, j: int, k': int, j': int)
    requires FirstMatch(s, k, j) && FirstMatch(s, k', j')
    ensures k == k' && j == j'
  {
    MatchGap(s, k, j);
    MatchGap(s, k', j');
  }

  /** The engine's search over the whole title: the first match, if any. */
  function Search(s: string): (r: Option<(nat, nat)>)
    ensures r.None? ==> forall k, j :: !MatchesAt(s, k, j)
    ensures r.Some? ==> FirstMatch(s, r.value.0, r.value.1)
  {
    if |s| == 0 then None
    else
      assert s[..0] == [];
      SearchFrom(s, 1)
  }

  /** The decoder's result for the match `m` of `s`: on a match, the first
      group trimmed and the second group split on `,` with every piece
      trimmed and empty pieces dropped; otherwise the title itself,
      untrimmed, with no keywords. */
  function Decoded(s: string, m: Option<(nat, nat)>): ParsedTitle
    requires m.Some? ==> m.value.0 <= m.value.1 < |s|
  {
    match m
    case None => ParsedTitle(s, [])
    case Some((k, j)) => ParsedTitle(Trim(s[..k]), TrimmedPieces(s[j + 1..], ','))
  }

  /** `parseBookmarkTitle`. */
  function ParseBookmarkTitle(s: string): ParsedTitle {
    Decoded(s, Search(s))
  }

  /** The search finds the first match. */
  lemma SearchFinds(s: string, k: nat, j: nat)
    requires FirstMatch(s, k, j)
    ensures Search(s) == Some((k, j))
  {
    assert MatchesAt(s, k, j);
    var r := Search(s);
    FirstMatchUnique(s, k, j, r.value.0, r.value.1);
  }

  /** A title the regular expression does not match comes back verbatim,
      untrimmed, with no keywords. */
  lemma DecodeNoMatch(s: string)
    requires forall k, j :: !MatchesAt(s, k, j)
    ensures ParseBookmarkTitle(s) == ParsedTitle(s, [])
  {
  }

  /** At the first match, the display title is the first group trimmed and
      the keywords are the trimmed, non-empty comma pieces of the second. */
  lemma DecodeFirstMatch(s: string, k: nat, j: nat)
    requires FirstMatch(s, k, j)
    ensures ParseBookmarkTitle(s) == ParsedTitle(Trim(s[..k]), TrimmedPieces(s[j + 1..], ','))
  {
    SearchFinds(s, k, j);
    assert ParseBookmarkTitle(s) == Decoded(s, Some((k, j)));
  }

  /** Every keyword the decoder returns is nonempty, trimmed and free of
      commas. */
  lemma KeywordsAreClean(s: string)
    ensures forall i :: 0 <= i < |ParseBookmarkTitle(s).keywords| ==>
              var w := ParseBookmarkTitle(s).keywords[i]; w != "" && IsTrimmed(w) && ',' !in w
  {
    match Search(s)
    case None =>
    case Some((k, j)) =>
      var p := TrimmedPieces(s[j + 1..], ',');
      assert ParseBookmarkTitle(s) == Decoded(s, Some((k, j)));
  }

  /** A title without a `#` at an index of at least 1 that has text after it
      does not match, and comes back unchanged with no keywords. */
  lemma DecodeVerbatim(s: string)
    requires forall h :: 1 <= h < |s| - 1 ==> s[h] != '#'
    ensures ParseBookmarkTitle(s) == ParsedTitle(s, [])
  {
    forall k, j ensures !MatchesAt(s, k, j) {
    }
    DecodeNoMatch(s);
  }

  /** A line terminator anywhere except in the white space right before the
      separating `#` prevents the match: the title comes back unchanged. */
  lemma DecodeLineBreak(s: string, p: nat)
    requires p < |s| && IsLineTerminator(s[p])
    requires SkipWhitespace(s, p) == |s| || s[SkipWhitespace(s, p)] != '#'
    ensures ParseBookmarkTitle(s) == ParsedTitle(s, [])
  {
    forall k, j | MatchesAt(s, k, j) ensures false {
      MatchChars(s, k, j);
    }
    DecodeNoMatch(s);
  }

  /** A line break inside the white space before the `#` does not prevent the
      match: `"a\n#b"` decodes to the title `"a"` and the keyword `"b"`. */
  lemma LineBreakInGap(s: string)
    requires s == "a\n#b"
    ensures ParseBookmarkTitle(s) == ParsedTitle("a", ["b"])
  {
    GapMatch(s);
    DecodeFirstMatch(s, 1, 2);
    var a, b := s[..1], s[3..];
    TrimOfTrimmed(a);
    TrimmedPiecesOfJoin("", [b]);
    assert "" + Join([b], ", ") == b;
  }

  lemma GapMatch(s: string)
    requires s == "a\n#b"
    ensures FirstMatch(s, 1, 2) && s[..1] == "a" && s[3..] == "b"
  {
    assert s[..1] == "a" && s[1..2] == "\n" && s[3..] == "b";
  }

  /** Without line terminators, the first match ends its first group where
      the white space before the first qualifying `#` begins (but not before
      index 1). */
  lemma MatchAtHash(s: string, h: nat) returns (k0: nat)
    requires NoLineTerminator(s)
    requires 1 <= h < |s| - 1 && s[h] == '#'
    requires forall i :: 1 <= i < h ==> s[i] != '#'
    ensures 1 <= k0 <= h && AllWhitespace(s[k0..h]) && FirstMatch(s, k0, h)
  {
    var b := BackOverWhitespace(s, h);
    k0 := if b >= 1 then b else 1;
    forall i | 0 <= i < h - k0 ensures IsWhitespace(s[k0..h][i]) {
      assert s[k0..h][i] == s[k0 + i];
    }
    assert s == s[..k0] + s[k0..];
    NoLineTerminatorAppend(s[..k0], s[k0..]);
    assert s == s[..h + 1] + s[h + 1..];
    NoLineTerminatorAppend(s[..h + 1], s[h + 1..]);
    assert MatchesAt(s, k0, h);
    forall k', j' | 0 <= k' < k0 ensures !MatchesAt(s, k', j') {
      if MatchesAt(s, k', j') {
        MatchChars(s, k', j');
      }
    }
  }

  /** Trailing white space does not change the trimmed text. */
  lemma TrimBeforeGap(s: string, k: nat, h: nat)
    requires k <= h <= |s| && AllWhitespace(s[k..h])
    ensures Trim(s[..k]) == Trim(s[..h])
  {
    assert s[..h] == "" + s[..k] + s[k..h];
    TrimPadded("", s[..k], s[k..h]);
  }

  /** Without line terminators, the title is split at the first `#` at an
      index of at least 1 that has text after it: the display title is the
      trimmed text before it, the keywords are the cleaned pieces after it. */
  lemma DecodeAtFirstHash(s: string, h: nat)
    requires NoLineTerminator(s)
    requires 1 <= h < |s| - 1 && s[h] == '#'
    requires forall i :: 1 <= i < h ==> s[i] != '#'
    ensures ParseBookmarkTitle(s) == ParsedTitle(Trim(s[..h]), TrimmedPieces(s[h + 1..], ','))
  {
    var k0 := MatchAtHash(s, h);
    DecodeFirstMatch(s, k0, h);
    TrimBeforeGap(s, k0, h);
  }

  // ---------------------------------------------------------------------------
  // Encoder
  // ---------------------------------------------------------------------------

  /** `${title} #${keywords.join(", ")}`. */
  function TagLine(title: string, keywords: seq<string>): string {
    title + " #" + Join(keywords, ", ")
  }

  /** The stored title of a new bookmark: the title followed by at most five
      keywords, or the title alone when there are none. */
  function EncodeTitle(title: string, keywords: seq<string>): (r: string)
    ensures |keywords| == 0 ==> r == title
    ensures |keywords| > 0 ==> r == TagLine(title, Take(keywords, 5))
  {
    if |keywords| > 0 then TagLine(title, Take(keywords, 5)) else title
  }

  /** A title the codec stores faithfully: trimmed, free of `#` and of line
      terminators. */
  predicate IsPlainTitle(t: string) {
    IsTrimmed(t) && '#' !in t && NoLineTerminator(t)
  }

  /** Keywords the codec stores faithfully. */
  predicate AreListItems(kws: seq<string>) {
    forall i :: 0 <= i < |kws| ==> IsListItem(kws[i], ',')
  }

  lemma TagLineShape(t: string, ks: seq<string>)
    requires IsPlainTitle(t) && AreListItems(ks) && |ks| > 0
    ensures var s := TagLine(t, ks);
      && NoLineTerminator(s) && |t| + 1 < |s| - 1 && s[|t| + 1] == '#'
      && (forall i :: 1 <= i < |t| + 1 ==> s[i] != '#')
      && s[..|t| + 1] == t + " " && s[|t| + 2..] == Join(ks, ", ")
  {
    var j := Join(ks, ", ");
    assert |j| >= |ks[0]| by {
      if |ks| > 1 {
        assert j == ks[0] + ", " + Join(ks[1..], ", ");
      }
    }
    JoinNoLineTerminator(ks, ", ");
    NoLineTerminatorAppend(t, " #");
    NoLineTerminatorAppend(t + " #", j);
    var s := TagLine(t, ks);
    assert s == (t + " ") + "#" + j;
    forall i | 1 <= i < |t| + 1 ensures s[i] != '#' {
      if i < |t| {
        assert s[i] == t[i];
      }
    }
  }

  /** A tag line decodes to its title before the separating space and the
      trimmed, non-empty pieces of its joined keywords. */
  lemma TagLineDecodes(t: string, ks: seq<string>)
    requires IsPlainTitle(t) && AreListItems(ks) && |ks| > 0
    ensures ParseBookmarkTitle(TagLine(t, ks)) == ParsedTitle(Trim(t + " "), TrimmedPieces(Join(ks, ", "), ','))
  {
    TagLineShape(t, ks);
    DecodeAtFirstHash(TagLine(t, ks), |t| + 1);
  }

  /** Trimming undoes the space the encoder puts before the `#`. */
  lemma TrimSeparatingSpace(t: string)
    requires IsTrimmed(t)
    ensures Trim(t + " ") == t
  {
    TrimPadded("", t, " ");
    assert "" + t + " " == t + " ";
    TrimOfTrimmed(t);
  }

  /** Splitting the joined keywords gives them back. */
  lemma SplitJoinedKeywords(ks: seq<string>)
    requires AreListItems(ks)
    ensures TrimmedPieces(Join(ks, ", "), ',') == ks
  {
    TrimmedPiecesOfJoin("", ks);
    assert "" + Join(ks, ", ") == Join(ks, ", ");
  }

  /** A tag line decodes to its title and its keywords. */
  lemma TagLineRoundTrip(t: string, ks: seq<string>)
    requires IsPlainTitle(t) && AreListItems(ks) && |ks| > 0
    ensures ParseBookmarkTitle(TagLine(t, ks)) == ParsedTitle(t, ks)
  {
    TagLineDecodes(t, ks);
    TrimSeparatingSpace(t);
    SplitJoinedKeywords(ks);
  }

  /** Round trip: decoding a stored title gives back the title and the first
      five keywords. */
  lemma RoundTrip(t: string, kws: seq<string>)
    requires IsPlainTitle(t) && AreListItems(kws)
    ensures ParseBookmarkTitle(EncodeTitle(t, kws)) == ParsedTitle(t, Take(kws, 5))
  {
    if |kws| == 0 {
      DecodeVerbatim(t);
    } else {
      var ks := Take(kws, 5);
      assert AreListItems(ks);
      TagLineRoundTrip(t, ks);
    }
  }
}
