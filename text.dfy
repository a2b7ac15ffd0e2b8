/** String operations of the JavaScript standard library that the extension
    relies on, written over `seq<char>`: white space and line terminators as
    ECMAScript defines them, `trim`, `split` on one character, `join`,
    `includes`, `startsWith`, `replace` of the first occurrence, ASCII
    `toLowerCase`, and maximal runs of a character class (what a global
    `match(/[...]+/g)` and a `split(/[...]+/)` produce). */
module Text {
  import opened Wrappers
  import opened Seqs

  // ---------------------------------------------------------------------------
  // Character classes
  // ---------------------------------------------------------------------------

  /** The characters that `.` in a regular expression does not match. */
  predicate IsLineTerminator(c: char) {
    c == '\n' || c == '\r' || c == '\U{2028}' || c == '\U{2029}'
  }

  /** White space in the sense of `\s` and of `String.prototype.trim`:
      the WhiteSpace and LineTerminator productions of ECMAScript. */
  predicate IsWhitespace(c: char) {
    || c == '\t' || c == '\U{B}' || c == '\U{C}' || c == ' ' || c == '\U{A0}'
    || c == '\U{1680}' || ('\U{2000}' <= c <= '\U{200A}') || c == '\U{202F}'
    || c == '\U{205F}' || c == '\U{3000}' || c == '\U{FEFF}'
    || IsLineTerminator(c)
  }

  predicate AllWhitespace(s: string) {
    forall i :: 0 <= i < |s| ==> IsWhitespace(s[i])
  }

  predicate NoLineTerminator(s: string) {
    forall i :: 0 <= i < |s| ==> !IsLineTerminator(s[i])
  }

  lemma AllWhitespaceAppend(a: string, b: string)
    ensures AllWhitespace(a + b) <==> AllWhitespace(a) && AllWhitespace(b)
  {
    if AllWhitespace(a + b) {
      forall i | 0 <= i < |a| ensures IsWhitespace(a[i]) {
        assert a[i] == (a + b)[i];
      }
      forall i | 0 <= i < |b| ensures IsWhitespace(b[i]) {
        assert b[i] == (a + b)[|a| + i];
      }
    }
  }

  lemma NoLineTerminatorAppend(a: string, b: string)
    ensures NoLineTerminator(a + b) <==> NoLineTerminator(a) && NoLineTerminator(b)
  {
    if NoLineTerminator(a + b) {
      forall i | 0 <= i < |a| ensures !IsLineTerminator(a[i]) {
        assert a[i] == (a + b)[i];
      }
      forall i | 0 <= i < |b| ensures !IsLineTerminator(b[i]) {
        assert b[i] == (a + b)[|a| + i];
      }
    }
  }

  // ---------------------------------------------------------------------------
  // trim
  // ---------------------------------------------------------------------------

  /** The first index at or after `i` that does not hold white space. */
  function SkipWhitespace(s: string, i: nat): (r: nat)
    requires i <= |s|
    ensures i <= r <= |s|
    ensures forall k :: i <= k < r ==> IsWhitespace(s[k])
    ensures r < |s| ==> !IsWhitespace(s[r])
    decreases |s| - i
  {
    if i < |s| && IsWhitespace(s[i]) then SkipWhitespace(s, i + 1) else i
  }

  /** The start of the white space that ends at index `j`. */
  function BackOverWhitespace(s: string, j: nat): (r: nat)
    requires j <= |s|
    ensures r <= j
    ensures forall k :: r <= k < j ==> IsWhitespace(s[k])
    ensures r > 0 ==> !IsWhitespace(s[r - 1])
  {
    if j > 0 && IsWhitespace(s[j - 1]) then BackOverWhitespace(s, j - 1) else j
  }

  /** `String.prototype.trim`: the part of `s` between its leading and its
      trailing white space. */
  function Trim(s: string): string {
    var a := SkipWhitespace(s, 0);
    var b := BackOverWhitespace(s, |s|);
    if a < b then s[a..b] else ""
  }

  /** A string `trim` leaves alone: empty, or starting and ending with a
      character that is not white space. */
  predicate IsTrimmed(s: string) {
    |s| == 0 || (!IsWhitespace(s[0]) && !IsWhitespace(s[|s| - 1]))
  }

  /** A string trims to nothing exactly when it is all white space. */
  lemma TrimEmpty(s: string)
    ensures Trim(s) == "" <==> AllWhitespace(s)
  {
    var a := SkipWhitespace(s, 0);
    var b := BackOverWhitespace(s, |s|);
    assert a < |s| ==> b > a;
  }

  /** `trim` of a trimmed core padded with white space is the core. */
  lemma TrimPaddedCore(w1: string, t: string, w2: string)
    requires AllWhitespace(w1) && AllWhitespace(w2) && IsTrimmed(t) && t != ""
    ensures Trim(w1 + t + w2) == t
  {
    var s := w1 + t + w2;
    assert forall k :: 0 <= k < |w1| ==> s[k] == w1[k];
    assert forall k :: 0 <= k < |t| ==> s[|w1| + k] == t[k];
    assert forall k :: 0 <= k < |w2| ==> s[|w1| + |t| + k] == w2[k];
    var a := SkipWhitespace(s, 0);
    var b := BackOverWhitespace(s, |s|);
    assert a == |w1|;
    assert b == |w1| + |t|;
    assert s[a..b] == t;
  }

  /** `trim` yields a trimmed string that sits inside `s` between white space. */
  lemma TrimSpec(s: string)
    ensures IsTrimmed(Trim(s))
    ensures Trim(s) == "" || exists i :: 0 <= i <= |s| - |Trim(s)| && Trim(s) == s[i..i + |Trim(s)|]
                                          && AllWhitespace(s[..i]) && AllWhitespace(s[i + |Trim(s)|..])
  {
    var a := SkipWhitespace(s, 0);
    var b := BackOverWhitespace(s, |s|);
    if a < b {
      assert s[a..b][0] == s[a];
      assert s[a..b][b - a - 1] == s[b - 1];
      assert AllWhitespace(s[..a]);
      assert AllWhitespace(s[b..]);
      assert s[a..a + |Trim(s)|] == Trim(s);
    }
  }

  /** The characters of `trim(s)` are characters of `s`. */
  lemma TrimSubset(s: string, c: char)
    requires c !in s
    ensures c !in Trim(s)
  {
  }

  /** `trim` leaves exactly the trimmed strings unchanged. */
  lemma TrimOfTrimmed(s: string)
    ensures Trim(s) == s <==> IsTrimmed(s)
  {
    TrimSpec(s);
    if IsTrimmed(s) && s != "" {
      TrimPaddedCore("", s, "");
      assert "" + s + "" == s;
    }
  }

  /** A string that is all white space stays so when padded. */
  lemma PaddedWhitespace(w1: string, x: string, w2: string)
    requires AllWhitespace(w1) && AllWhitespace(x) && AllWhitespace(w2)
    ensures AllWhitespace(w1 + x + w2)
  {
    AllWhitespaceAppend(w1, x);
    AllWhitespaceAppend(w1 + x, w2);
  }

  /** `x` cut around its trimmed core. */
  lemma TrimDecompose(x: string) returns (u: string, v: string)
    requires Trim(x) != ""
    ensures x == u + Trim(x) + v && AllWhitespace(u) && AllWhitespace(v)
  {
    var a := SkipWhitespace(x, 0);
    var b := BackOverWhitespace(x, |x|);
    u, v := x[..a], x[b..];
    LeadingWhitespace(x);
    TrailingWhitespace(x);
    CutInThree(x, a, b);
  }

  lemma LeadingWhitespace(x: string)
    ensures AllWhitespace(x[..SkipWhitespace(x, 0)])
  {
    var a := SkipWhitespace(x, 0);
    assert forall k :: 0 <= k < a ==> x[..a][k] == x[k];
  }

  lemma TrailingWhitespace(x: string)
    ensures AllWhitespace(x[BackOverWhitespace(x, |x|)..])
  {
    var b := BackOverWhitespace(x, |x|);
    assert forall k :: 0 <= k < |x| - b ==> x[b..][k] == x[b + k];
  }

  lemma CutInThree(x: string, a: nat, b: nat)
    requires a <= b <= |x|
    ensures x == x[..a] + x[a..b] + x[b..]
  {
    assert x[a..] == x[a..b] + x[b..];
    assert x == x[..a] + x[a..];
  }

  /** White space padded with white space trims to nothing. */
  lemma TrimPaddedBlank(w1: string, x: string, w2: string)
    requires AllWhitespace(w1) && AllWhitespace(w2) && Trim(x) == ""
    ensures Trim(w1 + x + w2) == ""
  {
    TrimEmpty(x);
    PaddedWhitespace(w1, x, w2);
    TrimEmpty(w1 + x + w2);
  }

  /** White space around a string does not change what `trim` returns. */
  lemma TrimPadded(w1: string, x: string, w2: string)
    requires AllWhitespace(w1) && AllWhitespace(w2)
    ensures Trim(w1 + x + w2) == Trim(x)
  {
    var t := Trim(x);
    if t == "" {
      TrimPaddedBlank(w1, x, w2);
    } else {
      var u, v := TrimDecompose(x);
      assert w1 + x + w2 == (w1 + u) + t + (v + w2);
      AllWhitespaceAppend(w1, u);
      AllWhitespaceAppend(v, w2);
      TrimSpec(x);
      TrimPaddedCore(w1 + u, t, v + w2);
    }
  }

  // ---------------------------------------------------------------------------
  // split, join and the "split, trim every piece, drop empty pieces" chain
  // ---------------------------------------------------------------------------

  /** `s.split(sep)` for a one-character separator: the pieces between
      separators, including empty ones; `"".split(",")` is `[""]`. */
  function Split(s: string, sep: char): (r: seq<string>)
    ensures |r| >= 1
    ensures forall i :: 0 <= i < |r| ==> sep !in r[i]
  {
    if s == [] then [""]
    else
      var rest := Split(s[1..], sep);
      if s[0] == sep then [""] + rest
      else [[s[0]] + rest[0]] + rest[1..]
  }

  /** `ps.join(sep)`. */
  function Join(ps: seq<string>, sep: string): string
  {
    if |ps| == 0 then ""
    else if |ps| == 1 then ps[0]
    else ps[0] + sep + Join(ps[1..], sep)
  }

  /** Joining the pieces with the separator gives the string back. */
  lemma {:induction false} JoinSplit(s: string, sep: char)
    ensures Join(Split(s, sep), [sep]) == s
  {
    if s != [] {
      var rest := Split(s[1..], sep);
      JoinSplit(s[1..], sep);
      assert s == [s[0]] + s[1..];
      if s[0] == sep {
        assert Split(s, sep) == [""] + rest;
        assert ([""] + rest)[1..] == rest;
      } else {
        var r := Split(s, sep);
        assert r == [[s[0]] + rest[0]] + rest[1..];
        if |rest| == 1 {
          assert r == [[s[0]] + rest[0]];
        } else {
          assert r[1..] == rest[1..];
          assert Join(rest, [sep]) == rest[0] + [sep] + Join(rest[1..], [sep]);
        }
      }
    }
  }

  /** A separator-free prefix followed by a separator is the first piece. */
  lemma {:induction false} SplitAfter(a: string, sep: char, b: string)
    requires sep !in a
    ensures Split(a + [sep] + b, sep) == [a] + Split(b, sep)
    decreases |a|
  {
    if a == [] {
      assert a + [sep] + b == [sep] + b;
      assert ([sep] + b)[1..] == b;
    } else {
      assert (a + [sep] + b)[1..] == a[1..] + [sep] + b;
      SplitAfter(a[1..], sep, b);
      assert [a[0]] + a[1..] == a;
    }
  }

  /** A separator-free string is a single piece. */
  lemma {:induction false} SplitNone(a: string, sep: char)
    requires sep !in a
    ensures Split(a, sep) == [a]
    decreases |a|
  {
    if a != [] {
      SplitNone(a[1..], sep);
      assert [a[0]] + a[1..] == a;
    }
  }

  /** The pieces of `ps`, each trimmed, with the empty ones dropped:
      `ps.map((k) => k.trim()).filter((k) => k)`. */
  function CleanPieces(ps: seq<string>): (r: seq<string>)
    ensures |r| <= |ps|
    ensures forall i :: 0 <= i < |r| ==> r[i] != "" && IsTrimmed(r[i])
  {
    if |ps| == 0 then []
    else
      var rest := CleanPieces(ps[1..]);
      var t := Trim(ps[0]);
      TrimSpec(ps[0]);
      if t == "" then rest else [t] + rest
  }

  /** `ps.map((k) => k.trim())`. */
  function TrimAll(ps: seq<string>): (r: seq<string>)
    ensures |r| == |ps| && forall i :: 0 <= i < |ps| ==> r[i] == Trim(ps[i])
  {
    seq(|ps|, i requires 0 <= i < |ps| => Trim(ps[i]))
  }

  /** The truthiness of a string. */
  predicate IsNonBlank(w: string) {
    w != ""
  }

  /** Cleaning the pieces is trimming each and then dropping the empty ones. */
  lemma {:induction false} CleanPiecesSpec(ps: seq<string>)
    ensures CleanPieces(ps) == Filter(IsNonBlank, TrimAll(ps))
    decreases |ps|
  {
    if |ps| > 0 {
      CleanPiecesSpec(ps[1..]);
      assert TrimAll(ps) == [Trim(ps[0])] + TrimAll(ps[1..]);
      FilterCons(IsNonBlank, Trim(ps[0]), TrimAll(ps[1..]));
    }
  }

  /** The trimmed non-blank pieces are, in order and with their
      multiplicities, the trimmed pieces that are not blank. */
  lemma TrimmedNonBlank(ps: seq<string>, r: seq<string>)
    requires r == Filter(IsNonBlank, TrimAll(ps))
    ensures IsSubsequence(r, TrimAll(ps))
    ensures forall k :: 0 <= k < |r| ==> exists i :: 0 <= i < |ps| && r[k] == Trim(ps[i])
    ensures forall i :: 0 <= i < |ps| && Trim(ps[i]) != "" ==> Trim(ps[i]) in r
    ensures forall w :: w != "" ==> Count(r, w) == Count(TrimAll(ps), w)
  {
    var t := TrimAll(ps);
    FilterIsSubsequence(IsNonBlank, t);
    NonBlankCounts(t, r);
    TrimmedFromPieces(ps, t, r);
    NonBlankPiecesKept(ps, t, r);
  }

  lemma NonBlankCounts(t: seq<string>, r: seq<string>)
    requires r == Filter(IsNonBlank, t)
    ensures forall w :: w != "" ==> Count(r, w) == Count(t, w)
  {
    FilterCount(IsNonBlank, t);
    forall w | w != "" ensures Count(r, w) == Count(t, w) {
      assert IsNonBlank(w);
    }
  }

  lemma TrimmedFromPieces(ps: seq<string>, t: seq<string>, r: seq<string>)
    requires t == TrimAll(ps) && r == Filter(IsNonBlank, t)
    ensures forall k :: 0 <= k < |r| ==> exists i :: 0 <= i < |ps| && r[k] == Trim(ps[i])
  {
    forall k | 0 <= k < |r| ensures exists i :: 0 <= i < |ps| && r[k] == Trim(ps[i]) {
      var i :| 0 <= i < |t| && t[i] == r[k];
    }
  }

  lemma NonBlankPiecesKept(ps: seq<string>, t: seq<string>, r: seq<string>)
    requires t == TrimAll(ps) && r == Filter(IsNonBlank, t)
    ensures forall i :: 0 <= i < |ps| && Trim(ps[i]) != "" ==> Trim(ps[i]) in r
  {
    forall i | 0 <= i < |ps| && Trim(ps[i]) != "" ensures Trim(ps[i]) in r {
      assert IsNonBlank(t[i]);
    }
  }

  lemma {:induction false} CleanPiecesAppend(a: seq<string>, b: seq<string>)
    ensures CleanPieces(a + b) == CleanPieces(a) + CleanPieces(b)
    decreases |a|
  {
    if |a| > 0 {
      assert (a + b)[1..] == a[1..] + b;
      CleanPiecesAppend(a[1..], b);
    } else {
      assert a + b == b;
    }
  }

  lemma {:induction false} CleanPiecesFreeOf(ps: seq<string>, c: char)
    requires forall i :: 0 <= i < |ps| ==> c !in ps[i]
    ensures forall i :: 0 <= i < |CleanPieces(ps)| ==> c !in CleanPieces(ps)[i]
    decreases |ps|
  {
    if |ps| > 0 {
      CleanPiecesFreeOf(ps[1..], c);
      TrimSubset(ps[0], c);
    }
  }

  /** `s.split(sep).map((k) => k.trim()).filter((k) => k)`. */
  function TrimmedPieces(s: string, sep: char): (r: seq<string>)
    ensures forall i :: 0 <= i < |r| ==> r[i] != "" && IsTrimmed(r[i]) && sep !in r[i]
  {
    CleanPiecesFreeOf(Split(s, sep), sep);
    CleanPieces(Split(s, sep))
  }

  /** A piece as `join` lays it out (nonempty, trimmed, free of the separator
      and of line breaks). */
  predicate IsListItem(k: string, sep: char) {
    k != "" && IsTrimmed(k) && sep !in k && NoLineTerminator(k)
  }

  lemma TrimLeftPadded(w: string, k: string)
    requires AllWhitespace(w) && IsTrimmed(k)
    ensures Trim(w + k) == k
  {
    TrimPadded(w, k, "");
    assert w + k + "" == w + k;
    TrimOfTrimmed(k);
  }

  /** A string without the separator is one piece. */
  lemma TrimmedPiecesOfPiece(p: string, sep: char)
    requires sep !in p
    ensures TrimmedPieces(p, sep) == CleanPieces([p])
  {
    SplitNone(p, sep);
  }

  /** The pieces of `p` followed by the separator and `rest`. */
  lemma TrimmedPiecesAfterPiece(p: string, sep: char, rest: string)
    requires sep !in p
    ensures TrimmedPieces(p + [sep] + rest, sep) == CleanPieces([p]) + TrimmedPieces(rest, sep)
  {
    SplitAfter(p, sep, rest);
    CleanPiecesAppend([p], Split(rest, sep));
  }

  /** A list item after white space cleans to the item. */
  lemma CleanPaddedItem(w: string, k: string)
    requires AllWhitespace(w) && IsListItem(k, ',')
    ensures CleanPieces([w + k]) == [k]
  {
    TrimLeftPadded(w, k);
    assert [w + k][1..] == [];
  }

  /** White space alone cleans to nothing. */
  lemma CleanBlank(w: string)
    requires AllWhitespace(w)
    ensures CleanPieces([w]) == []
  {
    TrimEmpty(w);
    assert [w][1..] == [];
  }

  /** `w` followed by a list of at least two items: the first item, a comma,
      and the rest of the list after a space. */
  lemma JoinCons(w: string, ks: seq<string>)
    requires |ks| >= 2
    ensures w + Join(ks, ", ") == (w + ks[0]) + [','] + (" " + Join(ks[1..], ", "))
  {
    assert Join(ks, ", ") == ks[0] + ", " + Join(ks[1..], ", ");
  }

  /** Splitting a list written as `k1, k2, ...` (after optional white space)
      gives the items back: the comma-list round trip. */
  lemma {:induction false} TrimmedPiecesOfJoin(w: string, ks: seq<string>)
    requires AllWhitespace(w) && ',' !in w
    requires forall i :: 0 <= i < |ks| ==> IsListItem(ks[i], ',')
    ensures TrimmedPieces(w + Join(ks, ", "), ',') == ks
    decreases |ks|
  {
    if |ks| == 0 {
      assert w + Join(ks, ", ") == w;
      TrimmedPiecesOfPiece(w, ',');
      CleanBlank(w);
    } else if |ks| == 1 {
      assert w + Join(ks, ", ") == w + ks[0];
      CleanPaddedItem(w, ks[0]);
      TrimmedPiecesOfPiece(w + ks[0], ',');
    } else {
      TrimmedPiecesCons(w, ks);
      TrimmedPiecesOfJoin(" ", ks[1..]);
      assert [ks[0]] + ks[1..] == ks;
    }
  }

  /** One step of the comma-list round trip. */
  lemma TrimmedPiecesCons(w: string, ks: seq<string>)
    requires AllWhitespace(w) && ',' !in w
    requires |ks| >= 2 && IsListItem(ks[0], ',')
    ensures TrimmedPieces(w + Join(ks, ", "), ',') == [ks[0]] + TrimmedPieces(" " + Join(ks[1..], ", "), ',')
  {
    var head := w + ks[0];
    assert ',' !in head;
    CleanPaddedItem(w, ks[0]);
    JoinCons(w, ks);
    TrimmedPiecesAfterPiece(head, ',', " " + Join(ks[1..], ", "));
  }

  lemma {:induction false} JoinNoLineTerminator(ks: seq<string>, sep: string)
    requires NoLineTerminator(sep)
    requires forall i :: 0 <= i < |ks| ==> NoLineTerminator(ks[i])
    ensures NoLineTerminator(Join(ks, sep))
    decreases |ks|
  {
    if |ks| > 1 {
      JoinNoLineTerminator(ks[1..], sep);
      NoLineTerminatorAppend(ks[0], sep);
      NoLineTerminatorAppend(ks[0] + sep, Join(ks[1..], sep));
    }
  }

  // ---------------------------------------------------------------------------
  // Search in strings
  // ---------------------------------------------------------------------------

  /** `pat` occurs in `s` at index `i`. */
  predicate OccursAt(s: string, pat: string, i: int) {
    0 <= i && i + |pat| <= |s| && s[i..i + |pat|] == pat
  }

  /** `s.includes(sub)`. */
  predicate Contains(s: string, sub: string) {
    exists i :: 0 <= i <= |s| && OccursAt(s, sub, i)
  }

  /** Every string includes the empty string. */
  lemma ContainsEmpty(s: string)
    ensures Contains(s, "")
  {
    assert OccursAt(s, "", 0);
  }

  /** `s.startsWith(p)`. */
  predicate StartsWith(s: string, p: string) {
    OccursAt(s, p, 0)
  }

  /** The first index at or after `from` where `pat` occurs in `s`. */
  function IndexOfFrom(s: string, pat: string, from: nat): (r: Option<nat>)
    requires from <= |s|
    ensures r.Some? ==> from <= r.value && OccursAt(s, pat, r.value)
    ensures r.Some? ==> forall i :: from <= i < r.value ==> !OccursAt(s, pat, i)
    ensures r.None? ==> forall i :: from <= i ==> !OccursAt(s, pat, i)
    decreases |s| - from
  {
    if |s| - from < |pat| then None
    else if OccursAt(s, pat, from) then Some(from)
    else IndexOfFrom(s, pat, from + 1)
  }

  /** `pat` occurs at `i` and nowhere before. */
  ghost predicate FirstOccurrence(s: string, pat: string, i: int) {
    OccursAt(s, pat, i) && forall j :: 0 <= j < i ==> !OccursAt(s, pat, j)
  }

  /** `s.replace(pat, rep)` with a string pattern: only the first occurrence
      is replaced, and a string without one is returned as it is. */
  function ReplaceFirst(s: string, pat: string, rep: string): (r: string)
    ensures !Contains(s, pat) ==> r == s
    ensures forall i :: FirstOccurrence(s, pat, i) ==> r == s[..i] + rep + s[i + |pat|..]
  {
    match IndexOfFrom(s, pat, 0)
    case None => s
    case Some(i) =>
      assert forall j :: FirstOccurrence(s, pat, j) ==> j == i;
      s[..i] + rep + s[i + |pat|..]
  }

  /** The text before the first `sep`: `s.split(sep)[0]`. */
  function BeforeFirst(s: string, sep: char): (r: string)
    ensures r == Split(s, sep)[0]
    ensures sep !in r && |r| <= |s| && r == s[..|r|]
    ensures |r| < |s| ==> s[|r|] == sep
  {
    if s == [] then ""
    else if s[0] == sep then ""
    else [s[0]] + BeforeFirst(s[1..], sep)
  }

  // ---------------------------------------------------------------------------
  // Case
  // ---------------------------------------------------------------------------

  function LowerChar(c: char): char {
    if 'A' <= c <= 'Z' then (c as int + 32) as char else c
  }

  /** `toLowerCase` on the ASCII letters; every other character is kept. */
  function Lower(s: string): (r: string)
    ensures |r| == |s|
    ensures forall i :: 0 <= i < |s| ==> r[i] == LowerChar(s[i])
  {
    seq(|s|, i requires 0 <= i < |s| => LowerChar(s[i]))
  }

  /** `text.toLowerCase().includes(query.toLowerCase())`. */
  predicate IncludesIgnoringCase(text: string, query: string) {
    Contains(Lower(text), Lower(query))
  }

  /** The empty query is included in every text. */
  lemma IncludesEmptyQuery(text: string)
    ensures IncludesIgnoringCase(text, "")
  {
    assert Lower("") == "";
    ContainsEmpty(Lower(text));
  }

  // ---------------------------------------------------------------------------
  // Maximal runs of a character class
  // ---------------------------------------------------------------------------

  /** The end of the run of class characters that starts at `i`. */
  function RunEnd(s: string, inClass: char -> bool, i: nat): (n: nat)
    requires i <= |s|
    ensures i <= n <= |s|
    ensures forall k :: i <= k < n ==> inClass(s[k])
    ensures n < |s| ==> !inClass(s[n])
    decreases |s| - i
  {
    if i < |s| && inClass(s[i]) then RunEnd(s, inClass, i + 1) else i
  }

  /** `s[i..j]` is a maximal run of class characters: nonempty, all in the
      class, and bounded by the ends of `s` or by characters outside it. */
  ghost predicate IsMaximalRun(s: string, inClass: char -> bool, i: int, j: int) {
    && 0 <= i < j <= |s|
    && (forall k :: i <= k < j ==> inClass(s[k]))
    && (i == 0 || !inClass(s[i - 1]))
    && (j == |s| || !inClass(s[j]))
  }

  /** The maximal runs of class characters in `s[i..]`, left to right. */
  function RunsFrom(s: string, inClass: char -> bool, i: nat): (r: seq<string>)
    requires i <= |s|
    ensures forall k :: 0 <= k < |r| ==> r[k] != ""
    decreases |s| - i
  {
    if i == |s| then []
    else if !inClass(s[i]) then RunsFrom(s, inClass, i + 1)
    else
      var n := RunEnd(s, inClass, i);
      [s[i..n]] + RunsFrom(s, inClass, n)
  }

  /** The maximal runs of class characters in `s`, left to right. */
  function Runs(s: string, inClass: char -> bool): seq<string> {
    RunsFrom(s, inClass, 0)
  }

  /** A maximal run that starts inside the run found at `i` is that run. */
  lemma RunAtStart(s: string, inClass: char -> bool, i: nat, a: int, b: int)
    requires i < |s| && inClass(s[i])
    requires i <= a < RunEnd(s, inClass, i) && IsMaximalRun(s, inClass, a, b)
    ensures a == i && b == RunEnd(s, inClass, i)
  {
  }

  /** The bounds of the runs found from `i` that `keep` accepts, left to
      right. */
  ghost function KeptRunBounds(s: string, inClass: char -> bool, keep: string -> bool, i: nat)
    : (r: seq<(nat, nat)>)
    requires i <= |s|
    ensures forall k :: 0 <= k < |r| ==> i <= r[k].0 < r[k].1 <= |s|
    decreases |s| - i
  {
    if i == |s| then []
    else if !inClass(s[i]) then KeptRunBounds(s, inClass, keep, i + 1)
    else
      var n := RunEnd(s, inClass, i);
      (if keep(s[i..n]) then [(i, n)] else []) + KeptRunBounds(s, inClass, keep, n)
  }

  /** The kept runs are the slices of `s` at those bounds. */
  lemma {:induction false} KeptRunSlices(s: string, inClass: char -> bool, keep: string -> bool, i: nat)
    requires i <= |s|
    ensures |KeptRunBounds(s, inClass, keep, i)| == |Filter(keep, RunsFrom(s, inClass, i))|
    ensures forall k :: 0 <= k < |KeptRunBounds(s, inClass, keep, i)| ==>
      Filter(keep, RunsFrom(s, inClass, i))[k] ==
        s[KeptRunBounds(s, inClass, keep, i)[k].0..KeptRunBounds(s, inClass, keep, i)[k].1]
    decreases |s| - i
  {
    if i < |s| {
      if !inClass(s[i]) {
        KeptRunSlices(s, inClass, keep, i + 1);
        assert KeptRunBounds(s, inClass, keep, i) == KeptRunBounds(s, inClass, keep, i + 1);
        assert RunsFrom(s, inClass, i) == RunsFrom(s, inClass, i + 1);
      } else {
        var n := RunEnd(s, inClass, i);
        KeptRunSlices(s, inClass, keep, n);
        var r', f' := KeptRunBounds(s, inClass, keep, n), Filter(keep, RunsFrom(s, inClass, n));
        assert RunsFrom(s, inClass, i) == [s[i..n]] + RunsFrom(s, inClass, n);
        FilterCons(keep, s[i..n], RunsFrom(s, inClass, n));
        if keep(s[i..n]) {
          KeptSlicesCons(s, (i, n), r', f');
        } else {
          assert KeptRunBounds(s, inClass, keep, i) == r';
          assert Filter(keep, RunsFrom(s, inClass, i)) == f';
        }
      }
    }
  }

  /** Putting one more run in front of bounds and slices that agree. */
  lemma KeptSlicesCons(s: string, h: (nat, nat), r: seq<(nat, nat)>, f: seq<string>)
    requires h.0 <= h.1 <= |s| && |r| == |f|
    requires forall k :: 0 <= k < |r| ==> r[k].0 <= r[k].1 <= |s| && f[k] == s[r[k].0..r[k].1]
    ensures forall k :: 0 <= k < |r| + 1 ==>
      ([h] + r)[k].0 <= ([h] + r)[k].1 <= |s| && ([s[h.0..h.1]] + f)[k] == s[([h] + r)[k].0..([h] + r)[k].1]
  {
    forall k | 0 <= k < |r| + 1
      ensures ([h] + r)[k].0 <= ([h] + r)[k].1 <= |s| && ([s[h.0..h.1]] + f)[k] == s[([h] + r)[k].0..([h] + r)[k].1]
    {
      if k > 0 {
        assert ([h] + r)[k] == r[k - 1];
        assert ([s[h.0..h.1]] + f)[k] == f[k - 1];
      }
    }
  }

  /** From a boundary, every kept run is a maximal run. */
  lemma {:induction false} KeptRunsAreMaximal(s: string, inClass: char -> bool, keep: string -> bool, i: nat)
    requires i <= |s|
    requires i == 0 || i == |s| || !inClass(s[i - 1]) || !inClass(s[i])
    ensures forall k :: 0 <= k < |KeptRunBounds(s, inClass, keep, i)| ==>
      IsMaximalRun(s, inClass, KeptRunBounds(s, inClass, keep, i)[k].0, KeptRunBounds(s, inClass, keep, i)[k].1)
    decreases |s| - i
  {
    if i < |s| {
      if !inClass(s[i]) {
        KeptRunsAreMaximal(s, inClass, keep, i + 1);
        assert KeptRunBounds(s, inClass, keep, i) == KeptRunBounds(s, inClass, keep, i + 1);
      } else {
        var n := RunEnd(s, inClass, i);
        KeptRunsAreMaximal(s, inClass, keep, n);
        assert IsMaximalRun(s, inClass, i, n);
      }
    }
  }

  /** The kept runs come left to right, each ending before the next starts. */
  lemma {:induction false} KeptRunsInOrder(s: string, inClass: char -> bool, keep: string -> bool, i: nat)
    requires i <= |s|
    ensures forall k, l :: 0 <= k < l < |KeptRunBounds(s, inClass, keep, i)| ==>
      KeptRunBounds(s, inClass, keep, i)[k].1 < KeptRunBounds(s, inClass, keep, i)[l].0
    decreases |s| - i
  {
    if i < |s| {
      if !inClass(s[i]) {
        KeptRunsInOrder(s, inClass, keep, i + 1);
        assert KeptRunBounds(s, inClass, keep, i) == KeptRunBounds(s, inClass, keep, i + 1);
      } else {
        var n := RunEnd(s, inClass, i);
        KeptRunsInOrder(s, inClass, keep, n);
        if n < |s| {
          assert KeptRunBounds(s, inClass, keep, n) == KeptRunBounds(s, inClass, keep, n + 1);
        }
      }
    }
  }

  /** Every maximal run starting at or after `i` that `keep` accepts is kept. */
  lemma {:induction false} KeptRunsComplete(s: string, inClass: char -> bool, keep: string -> bool, i: nat)
    requires i <= |s|
    ensures forall a, b :: i <= a && IsMaximalRun(s, inClass, a, b) && keep(s[a..b]) ==>
      (a, b) in KeptRunBounds(s, inClass, keep, i)
    decreases |s| - i
  {
    if i < |s| {
      var r := KeptRunBounds(s, inClass, keep, i);
      if !inClass(s[i]) {
        KeptRunsComplete(s, inClass, keep, i + 1);
        assert r == KeptRunBounds(s, inClass, keep, i + 1);
      } else {
        var n := RunEnd(s, inClass, i);
        KeptRunsComplete(s, inClass, keep, n);
        forall a, b | i <= a && IsMaximalRun(s, inClass, a, b) && keep(s[a..b]) ensures (a, b) in r {
          if a < n {
            RunAtStart(s, inClass, i, a, b);
          }
        }
      }
    }
  }

  /** The runs `keep` accepts are, position for position, the maximal runs
      of `s` it accepts, left to right and all of them. */
  lemma KeptRunsSpec(s: string, inClass: char -> bool, keep: string -> bool) returns (bounds: seq<(nat, nat)>)
    ensures |bounds| == |Filter(keep, Runs(s, inClass))|
    ensures forall k :: 0 <= k < |bounds| ==>
      IsMaximalRun(s, inClass, bounds[k].0, bounds[k].1)
      && Filter(keep, Runs(s, inClass))[k] == s[bounds[k].0..bounds[k].1]
    ensures forall k, l :: 0 <= k < l < |bounds| ==> bounds[k].1 < bounds[l].0
    ensures forall a, b :: IsMaximalRun(s, inClass, a, b) && keep(s[a..b]) ==> (a, b) in bounds
  {
    bounds := KeptRunBounds(s, inClass, keep, 0);
    KeptRunSlices(s, inClass, keep, 0);
    KeptRunsAreMaximal(s, inClass, keep, 0);
    KeptRunsInOrder(s, inClass, keep, 0);
    KeptRunsComplete(s, inClass, keep, 0);
  }

  /** The runs are exactly the maximal runs of class characters of `s`,
      left to right: each is one, and every one is found. */
  lemma RunsSpec(s: string, inClass: char -> bool) returns (bounds: seq<(nat, nat)>)
    ensures |bounds| == |Runs(s, inClass)|
    ensures forall k :: 0 <= k < |bounds| ==>
      IsMaximalRun(s, inClass, bounds[k].0, bounds[k].1) && Runs(s, inClass)[k] == s[bounds[k].0..bounds[k].1]
    ensures forall k, l :: 0 <= k < l < |bounds| ==> bounds[k].1 < bounds[l].0
    ensures forall a, b :: IsMaximalRun(s, inClass, a, b) ==> (a, b) in bounds
  {
    var all: string -> bool := w => true;
    bounds := KeptRunsSpec(s, inClass, all);
    FilterAll(all, Runs(s, inClass));
  }

  /** Every run is a maximal run of class characters of `s`. */
  lemma RunsAreMaximal(s: string, inClass: char -> bool, w: string)
    requires w in Runs(s, inClass)
    ensures exists a, b :: IsMaximalRun(s, inClass, a, b) && s[a..b] == w
  {
    var bounds := RunsSpec(s, inClass);
    var k :| 0 <= k < |Runs(s, inClass)| && Runs(s, inClass)[k] == w;
    assert IsMaximalRun(s, inClass, bounds[k].0, bounds[k].1);
  }

  /** Every maximal run of class characters of `s` is found. */
  lemma RunsComplete(s: string, inClass: char -> bool, a: int, b: int)
    requires IsMaximalRun(s, inClass, a, b)
    ensures s[a..b] in Runs(s, inClass)
  {
    var bounds := RunsSpec(s, inClass);
    var k :| 0 <= k < |bounds| && bounds[k] == (a, b);
    assert Runs(s, inClass)[k] == s[a..b];
  }
}
