/** The content script's page analysis: the fallback keyword extractor (tag
    stripping, tokenising into Chinese and English words, stop-word removal,
    frequency counting, ordering by count), the `keywords` meta tag, and the
    merge of the two keyword lists into the page information. */
module Content {
  import opened Wrappers
  import opened Text
  import opened Seqs
  import Background

  // ---------------------------------------------------------------------------
  // Cleaning the text
  // ---------------------------------------------------------------------------

  /** The range `一-龥`. */
  predicate IsCjk(c: char) {
    '一' <= c <= '龥'
  }

  predicate IsAsciiLetter(c: char) {
    'a' <= c <= 'z' || 'A' <= c <= 'Z'
  }

  predicate IsAsciiDigit(c: char) {
    '0' <= c <= '9'
  }

  /** The characters `[一-龥a-zA-Z0-9\s]` keeps. */
  predicate IsWordChar(c: char) {
    IsCjk(c) || IsAsciiLetter(c) || IsAsciiDigit(c) || IsWhitespace(c)
  }

  /** `replace(/<[^>]*>/g, " ")`: each `<` up to the next `>` becomes one
      space; a `<` with no `>` after it stays, and so does everything after. */
  function StripTags(s: string): (r: string)
    ensures '<' !in s ==> r == s
  {
    if s == [] then []
    else if s[0] == '<' then
      if '>' in s[1..] then " " + StripTags(s[1 + IndexOf(s[1..], '>') + 1..]) else s
    else [s[0]] + StripTags(s[1..])
  }

  /** No `>` follows a `<`: no complete tag is left. */
  predicate NoTag(s: string) {
    forall i, j :: 0 <= i < j < |s| && s[i] == '<' ==> s[j] != '>'
  }

  lemma {:induction false} StripTagsRemovesTags(s: string)
    ensures NoTag(StripTags(s))
    decreases |s|
  {
    if s != [] {
      if s[0] == '<' {
        if '>' in s[1..] {
          var rest := s[1 + IndexOf(s[1..], '>') + 1..];
          StripTagsRemovesTags(rest);
          NoTagPrepend(' ', StripTags(rest));
        } else {
          NoTagWithoutClose(s);
        }
      } else {
        StripTagsRemovesTags(s[1..]);
        NoTagPrepend(s[0], StripTags(s[1..]));
      }
    }
  }

  lemma NoTagPrepend(c: char, x: string)
    requires c != '<' && NoTag(x)
    ensures NoTag([c] + x)
  {
    var s := [c] + x;
    forall i, j | 0 <= i < j < |s| && s[i] == '<' ensures s[j] != '>' {
      assert s[i] == x[i - 1] && s[j] == x[j - 1];
    }
  }

  lemma NoTagWithoutClose(s: string)
    requires |s| > 0 && '>' !in s[1..]
    ensures NoTag(s)
  {
    forall j | 0 < j < |s| ensures s[j] != '>' {
      assert s[j] == s[1..][j - 1];
    }
  }

  /** `replace(/[^一-龥a-zA-Z0-9\s]/g, " ")`. */
  function ReplaceNonWord(s: string): (r: string)
    ensures |r| == |s|
    ensures forall i :: 0 <= i < |s| ==> r[i] == if IsWordChar(s[i]) then s[i] else ' '
  {
    seq(|s|, i requires 0 <= i < |s| => if IsWordChar(s[i]) then s[i] else ' ')
  }

  /** The cleaned text. `toLowerCase` is ASCII folding here, which is exact:
      after the replacement only CJK characters, ASCII letters and digits
      and whitespace are left, and of these only the capital letters change. */
  function Clean(text: string): string {
    Lower(ReplaceNonWord(StripTags(text)))
  }

  /** The cleaned text consists of CJK characters, lower-case ASCII letters,
      digits and whitespace. */
  lemma CleanChars(text: string)
    ensures forall i :: 0 <= i < |Clean(text)| ==>
      var c := Clean(text)[i];
      IsCjk(c) || 'a' <= c <= 'z' || IsAsciiDigit(c) || IsWhitespace(c)
  {
  }

  // ---------------------------------------------------------------------------
  // Tokenising
  // ---------------------------------------------------------------------------

  predicate IsChineseWord(w: string) { |w| >= 2 }

  predicate IsEnglishWord(w: string) { |w| >= 3 }

  /** The length filter applied to all words: more than one and fewer than
      fifteen characters. */
  predicate IsKeptLength(w: string) { 1 < |w| < 15 }

  /** `match(/[一-龥]{2,}/g)`: the maximal CJK runs of length two or
      more. */
  function ChineseWords(clean: string): seq<string> {
    Filter(IsChineseWord, Runs(clean, IsCjk))
  }

  /** `match(/[a-zA-Z]{3,}/g)`: the maximal letter runs of length three or
      more. */
  function EnglishWords(clean: string): seq<string> {
    Filter(IsEnglishWord, Runs(clean, IsAsciiLetter))
  }

  /** All words of the text: the Chinese words, then the English words, of
      acceptable length. */
  function Words(text: string): seq<string> {
    var clean := Clean(text);
    Filter(IsKeptLength, ChineseWords(clean) + EnglishWords(clean))
  }

  const StopWords: set<string> := {
    "的", "了", "是", "在", "有", "和", "就", "不", "人", "都", "一", "一个",
    "the", "and", "or", "but", "in", "on", "at", "to", "for", "of", "with", "by"
  }

  predicate IsCounted(w: string) {
    w !in StopWords
  }

  /** The words that are counted, with repetitions, in text order. */
  function Candidates(text: string): seq<string> {
    Filter(IsCounted, Words(text))
  }

  /** The words are exactly the maximal runs of the cleaned text of at least
      two CJK characters or of at least three lower-case ASCII letters that
      are shorter than fifteen characters. */
  lemma WordsAreRuns(text: string, w: string)
    ensures var clean := Clean(text);
      w in Words(text) <==>
        && 1 < |w| < 15
        && (|| (|w| >= 2 && exists a, b :: IsMaximalRun(clean, IsCjk, a, b) && clean[a..b] == w)
            || (|w| >= 3 && exists a, b :: IsMaximalRun(clean, IsAsciiLetter, a, b) && clean[a..b] == w))
  {
    var clean := Clean(text);
    var all := ChineseWords(clean) + EnglishWords(clean);
    if w in Words(text) {
      assert w in all;
      if w in ChineseWords(clean) {
        RunsAreMaximal(clean, IsCjk, w);
      } else {
        assert w in EnglishWords(clean);
        RunsAreMaximal(clean, IsAsciiLetter, w);
      }
    } else if 1 < |w| < 15 {
      if exists a, b :: IsMaximalRun(clean, IsCjk, a, b) && clean[a..b] == w {
        var a, b :| IsMaximalRun(clean, IsCjk, a, b) && clean[a..b] == w;
        RunsComplete(clean, IsCjk, a, b);
        KeptWord(IsChineseWord, Runs(clean, IsCjk), w);
        assert w in all;
        KeptWord(IsKeptLength, all, w);
      }
      if |w| >= 3 && exists a, b :: IsMaximalRun(clean, IsAsciiLetter, a, b) && clean[a..b] == w {
        var a, b :| IsMaximalRun(clean, IsAsciiLetter, a, b) && clean[a..b] == w;
        RunsComplete(clean, IsAsciiLetter, a, b);
        KeptWord(IsEnglishWord, Runs(clean, IsAsciiLetter), w);
        assert w in all;
        KeptWord(IsKeptLength, all, w);
      }
    }
  }

  /** A word that the filter accepts is kept. */
  lemma KeptWord(p: string -> bool, s: seq<string>, w: string)
    requires w in s && p(w)
    ensures w in Filter(p, s)
  {
    var i :| 0 <= i < |s| && s[i] == w;
  }

  // ---------------------------------------------------------------------------
  // Counting and ordering
  // ---------------------------------------------------------------------------

  /** A word and its number of occurrences. */
  type Entry = (string, nat)

  /** The entries of the count map in insertion order: each counted word once,
      at its first occurrence, with its number of occurrences. */
  function Entries(cands: seq<string>): (r: seq<Entry>)
    ensures |r| == |Dedupe(cands)|
    ensures forall k :: 0 <= k < |r| ==> r[k] == (Dedupe(cands)[k], Count(cands, Dedupe(cands)[k]))
  {
    var keys := Dedupe(cands);
    seq(|keys|, k requires 0 <= k < |keys| => (keys[k], Count(cands, keys[k])))
  }

  /** Inserts `e` after every entry whose count is at least its own. */
  function InsertByCount(s: seq<Entry>, e: Entry): (r: seq<Entry>)
    ensures |r| == |s| + 1
  {
    if |s| == 0 then [e]
    else if s[0].1 >= e.1 then [s[0]] + InsertByCount(s[1..], e)
    else [e] + s
  }

  /** `sort((a, b) => b[1] - a[1])`, a stable sort by descending count. */
  function SortByCount(es: seq<Entry>): (r: seq<Entry>)
    ensures |r| == |es|
  {
    if |es| == 0 then [] else InsertByCount(SortByCount(es[..|es| - 1]), es[|es| - 1])
  }

  predicate SortedByCount(s: seq<Entry>) {
    forall i, j :: 0 <= i < j < |s| ==> s[i].1 >= s[j].1
  }

  /** The insertion adds `e` and keeps everything else. */
  lemma {:induction false} InsertByCountMembers(s: seq<Entry>, e: Entry)
    ensures multiset(InsertByCount(s, e)) == multiset(s) + multiset{e}
    decreases |s|
  {
    if |s| > 0 {
      assert s == [s[0]] + s[1..];
      if s[0].1 >= e.1 {
        InsertByCountMembers(s[1..], e);
      }
    }
  }

  lemma {:induction false} InsertByCountSorted(s: seq<Entry>, e: Entry)
    requires SortedByCount(s)
    ensures SortedByCount(InsertByCount(s, e))
    decreases |s|
  {
    if |s| > 0 && s[0].1 >= e.1 {
      InsertByCountSorted(s[1..], e);
      InsertByCountMembers(s[1..], e);
      var r := InsertByCount(s[1..], e);
      forall k | 0 <= k < |r| ensures s[0].1 >= r[k].1 {
        assert r[k] in multiset(s[1..]) + multiset{e};
      }
    }
  }

  /** The sort orders by count and is a permutation. */
  lemma {:induction false} SortByCountSpec(es: seq<Entry>)
    ensures SortedByCount(SortByCount(es))
    ensures multiset(SortByCount(es)) == multiset(es)
    decreases |es|
  {
    if |es| > 0 {
      var init := es[..|es| - 1];
      SortByCountSpec(init);
      InsertByCountSorted(SortByCount(init), es[|es| - 1]);
      InsertByCountMembers(SortByCount(init), es[|es| - 1]);
      assert es == init + [es[|es| - 1]];
    }
  }

  /** The entries of count `c`. */
  function WithCount(s: seq<Entry>, c: nat): seq<Entry> {
    Filter(HasCount(c), s)
  }

  function HasCount(c: nat): Entry -> bool {
    (e: Entry) => e.1 == c
  }

  lemma NoneWithCount(s: seq<Entry>, c: nat)
    requires forall k :: 0 <= k < |s| ==> s[k].1 < c
    ensures WithCount(s, c) == []
  {
    FilterNone<Entry>(HasCount(c), s);
  }

  lemma SortedTail(s: seq<Entry>)
    requires |s| > 0 && SortedByCount(s)
    ensures SortedByCount(s[1..]) && forall k :: 0 <= k < |s| ==> s[k].1 <= s[0].1
  {
    forall i, j | 0 <= i < j < |s| - 1 ensures s[1..][i].1 >= s[1..][j].1 {
      assert s[1..][i] == s[i + 1] && s[1..][j] == s[j + 1];
    }
  }

  /** Inserting before an entry of smaller count. */
  lemma InsertInFront(s: seq<Entry>, e: Entry, c: nat)
    requires forall k :: 0 <= k < |s| ==> s[k].1 < e.1
    ensures WithCount([e] + s, c) == WithCount(s, c) + (if e.1 == c then [e] else [])
  {
    FilterCons<Entry>(HasCount(c), e, s);
    if e.1 == c {
      NoneWithCount(s, c);
    }
  }

  /** Inserting after an entry `s0`. */
  lemma InsertBehind(s0: seq<Entry>, rest: seq<Entry>, t: seq<Entry>, tl: seq<Entry>, c: nat)
    requires |s0| == 1
    requires WithCount(t, c) == WithCount(rest, c) + tl
    ensures WithCount(s0 + t, c) == WithCount(s0 + rest, c) + tl
  {
    FilterConcat<Entry>(HasCount(c), s0, t);
    FilterConcat<Entry>(HasCount(c), s0, rest);
    var h := WithCount(s0, c);
    assert h + (WithCount(rest, c) + tl) == (h + WithCount(rest, c)) + tl;
  }

  lemma {:induction false} InsertByCountStable(s: seq<Entry>, e: Entry, c: nat)
    requires SortedByCount(s)
    ensures WithCount(InsertByCount(s, e), c) == WithCount(s, c) + (if e.1 == c then [e] else [])
    decreases |s|
  {
    if |s| == 0 {
      InsertInFront(s, e, c);
      assert [e] + s == [e];
    } else {
      SortedTail(s);
      if s[0].1 >= e.1 {
        InsertByCountStable(s[1..], e, c);
        InsertBehind([s[0]], s[1..], InsertByCount(s[1..], e), if e.1 == c then [e] else [], c);
        assert [s[0]] + s[1..] == s;
      } else {
        InsertInFront(s, e, c);
      }
    }
  }

  /** The sort is stable: the entries of any one count keep their order. */
  lemma {:induction false} SortByCountStable(es: seq<Entry>, c: nat)
    ensures WithCount(SortByCount(es), c) == WithCount(es, c)
    decreases |es|
  {
    if |es| > 0 {
      var init, e := es[..|es| - 1], es[|es| - 1];
      SortByCountStable(init, c);
      SortByCountSpec(init);
      InsertByCountStable(SortByCount(init), e, c);
      assert es == init + [e];
      FilterConcat<Entry>(HasCount(c), init, [e]);
      FilterSingle<Entry>(HasCount(c), e);
    }
  }

  /** No word occurs in two entries. */
  predicate DistinctWords(s: seq<Entry>) {
    forall i, j :: 0 <= i < j < |s| ==> s[i].0 != s[j].0
  }

  lemma {:induction false} InsertByCountDistinct(s: seq<Entry>, e: Entry)
    requires DistinctWords(s) && forall k :: 0 <= k < |s| ==> s[k].0 != e.0
    ensures DistinctWords(InsertByCount(s, e))
    decreases |s|
  {
    if |s| > 0 && s[0].1 >= e.1 {
      InsertByCountDistinct(s[1..], e);
      InsertByCountMembers(s[1..], e);
      var r := InsertByCount(s[1..], e);
      forall k | 0 <= k < |r| ensures s[0].0 != r[k].0 {
        assert r[k] in multiset(s[1..]) + multiset{e};
        if r[k] != e {
          var a :| 0 <= a < |s[1..]| && s[1..][a] == r[k];
          assert s[1 + a] == r[k];
        }
      }
    }
  }

  /** Sorting entries with distinct words keeps them distinct. */
  lemma {:induction false} SortByCountDistinct(es: seq<Entry>)
    requires DistinctWords(es)
    ensures DistinctWords(SortByCount(es))
    decreases |es|
  {
    if |es| > 0 {
      var init, e := es[..|es| - 1], es[|es| - 1];
      SortByCountDistinct(init);
      SortByCountSpec(init);
      var sorted := SortByCount(init);
      forall k | 0 <= k < |sorted| ensures sorted[k].0 != e.0 {
        assert sorted[k] in multiset(init);
        var a :| 0 <= a < |init| && init[a] == sorted[k];
        assert es[a] == sorted[k];
      }
      InsertByCountDistinct(sorted, e);
    }
  }

  // ---------------------------------------------------------------------------
  // extractKeywords
  // ---------------------------------------------------------------------------

  function FirstComponents(es: seq<Entry>): (r: seq<string>)
    ensures |r| == |es| && forall k :: 0 <= k < |es| ==> r[k] == es[k].0
  {
    seq(|es|, k requires 0 <= k < |es| => es[k].0)
  }

  /** The extracted keywords: the ten most frequent counted words, ties in
      order of first occurrence; none for an empty text. */
  function Keywords(text: string): seq<string> {
    if text == "" then [] else TopWords(Candidates(text))
  }

  /** The count map after the words `seen`: its keys in insertion order are
      the distinct counted words, and each maps to its number of
      occurrences. */
  ghost predicate CountsOf(seen: seq<string>, order: seq<string>, counts: map<string, nat>) {
    && order == Dedupe(seen)
    && (forall w :: w in counts <==> w in order)
    && (forall w :: w in counts ==> counts[w] == Count(seen, w))
  }

  /** Counting one more word: a new key goes last, a known one keeps its
      place. */
  lemma CountsOfSnoc(seen: seq<string>, order: seq<string>, counts: map<string, nat>, w: string,
                     order': seq<string>, counts': map<string, nat>)
    requires CountsOf(seen, order, counts)
    requires order' == if w in order then order else order + [w]
    requires counts' == counts[w := (if w in counts then counts[w] else 0) + 1]
    ensures CountsOf(seen + [w], order', counts')
  {
    assert order' == Dedupe(seen + [w]) by {
      DedupeSnoc(seen, w);
      assert w in order <==> w in seen;
    }
    assert forall x :: x in counts' <==> x in order';
    forall x | x in counts' ensures counts'[x] == Count(seen + [w], x) {
      CountSnoc(seen, w, x);
    }
  }

  /** The counting loop: each word that is not a stop word is added to the
      map, a new key at the end of the key order. */
  method CountWords(words: seq<string>) returns (order: seq<string>, counts: map<string, nat>)
    ensures CountsOf(Filter(IsCounted, words), order, counts)
  {
    counts := map[];
    order := [];
    ghost var seen: seq<string> := [];
    for i := 0 to |words|
      invariant seen == Filter(IsCounted, words[..i])
      invariant CountsOf(seen, order, counts)
    {
      var w := words[i];
      FilterPrefixStep(IsCounted, words, i);
      if IsCounted(w) {
        var count := if w in counts then counts[w] else 0;
        CountsOfSnoc(seen, order, counts, w, if w in order then order else order + [w], counts[w := count + 1]);
        counts := counts[w := count + 1];
        if w !in order {
          order := order + [w];
        }
        seen := seen + [w];
      }
    }
    assert words[..|words|] == words;
  }

  /** The count map's entries, in insertion order. */
  lemma EntriesOfCounts(seen: seq<string>, order: seq<string>, counts: map<string, nat>)
    requires CountsOf(seen, order, counts)
    ensures forall k :: 0 <= k < |order| ==> order[k] in counts
    ensures seq(|order|, k requires 0 <= k < |order| => (order[k], counts[order[k]])) == Entries(seen)
  {
  }

  /** `extractKeywords` without a segmentation library: counts the words in
      a map, keeping its keys in insertion order, then orders the entries by
      count and keeps the first ten words. */
  method ExtractKeywords(text: string) returns (r: seq<string>)
    ensures r == Keywords(text)
  {
    if text == "" {
      return [];
    }
    var order, counts := CountWords(Words(text));
    EntriesOfCounts(Candidates(text), order, counts);
    var entries := seq(|order|, k requires 0 <= k < |order| => (order[k], counts[order[k]]));
    var top := Take(SortByCount(entries), 10);
    r := seq(|top|, k requires 0 <= k < |top| => top[k].0);
  }

  /** The ordered entries: a permutation of the count-map entries, ordered by
      count, each word a distinct candidate with its own count. */
  lemma SortedEntries(cands: seq<string>)
    ensures var sorted := SortByCount(Entries(cands));
      && SortedByCount(sorted)
      && DistinctWords(sorted)
      && (forall k :: 0 <= k < |sorted| ==> sorted[k].0 in cands && sorted[k].1 == Count(cands, sorted[k].0))
      && (forall w :: w in cands ==> (w, Count(cands, w)) in sorted)
  {
    var es := Entries(cands);
    var sorted := SortByCount(es);
    SortByCountSpec(es);
    SortByCountDistinct(es);
    forall k | 0 <= k < |sorted|
      ensures sorted[k].0 in cands && sorted[k].1 == Count(cands, sorted[k].0)
    {
      assert sorted[k] in multiset(es);
    }
    forall w | w in cands ensures (w, Count(cands, w)) in sorted {
      var keys := Dedupe(cands);
      var a :| 0 <= a < |cands| && cands[a] == w;
      var b :| 0 <= b < |keys| && keys[b] == w;
      assert es[b] == (w, Count(cands, w));
      assert es[b] in multiset(sorted);
    }
  }

  /** The ten most frequent candidates, distinct and by non-increasing
      count. */
  function TopWords(cands: seq<string>): seq<string> {
    FirstComponents(Take(SortByCount(Entries(cands)), 10))
  }

  lemma TopWordsSpec(cands: seq<string>)
    ensures var r := TopWords(cands);
      && |r| == (if |Dedupe(cands)| <= 10 then |Dedupe(cands)| else 10)
      && NoDuplicates(r)
      && (forall k :: 0 <= k < |r| ==> r[k] in cands)
      && (forall i, j :: 0 <= i < j < |r| ==> Count(cands, r[i]) >= Count(cands, r[j]))
  {
    SortedEntries(cands);
    var sorted := SortByCount(Entries(cands));
    var r := TopWords(cands);
    forall k | 0 <= k < |r| ensures r[k] == sorted[k].0 {
    }
  }

  /** With at most ten distinct candidates, every candidate is returned. */
  lemma TopWordsComplete(cands: seq<string>, w: string)
    requires |Dedupe(cands)| <= 10 && w in cands
    ensures w in TopWords(cands)
  {
    SortedEntries(cands);
    var sorted := SortByCount(Entries(cands));
    var p :| 0 <= p < |sorted| && sorted[p] == (w, Count(cands, w));
    assert TopWords(cands)[p] == w;
  }

  /** What the extracted keywords are: ten distinct counted words of the
      text, or all of them when there are fewer, none a stop word, ordered
      by non-increasing count. */
  lemma KeywordsSpec(text: string)
    ensures text == "" ==> Keywords(text) == []
    ensures text != "" ==>
      |Keywords(text)| == if |Dedupe(Candidates(text))| <= 10 then |Dedupe(Candidates(text))| else 10
    ensures |Keywords(text)| <= 10
    ensures NoDuplicates(Keywords(text))
    ensures forall k :: 0 <= k < |Keywords(text)| ==>
      Keywords(text)[k] in Words(text) && Keywords(text)[k] !in StopWords
    ensures forall i, j :: 0 <= i < j < |Keywords(text)| ==>
      Count(Candidates(text), Keywords(text)[i]) >= Count(Candidates(text), Keywords(text)[j])
  {
    if text != "" {
      var cands := Candidates(text);
      assert Keywords(text) == TopWords(cands);
      TopWordsSpec(cands);
    }
  }

  /** With at most ten distinct counted words, every one is a keyword. */
  lemma KeywordsComplete(text: string, w: string)
    requires text != "" && |Dedupe(Candidates(text))| <= 10 && w in Candidates(text)
    ensures w in Keywords(text)
  {
    TopWordsComplete(Candidates(text), w);
  }

  /** A counted word left out occurs no more often than any word kept. */
  lemma KeywordsAreMostFrequent(text: string, w: string)
    requires w in Candidates(text) && w !in Keywords(text)
    ensures forall k :: 0 <= k < |Keywords(text)| ==>
      Count(Candidates(text), Keywords(text)[k]) >= Count(Candidates(text), w)
  {
    var cands := Candidates(text);
    SortedEntries(cands);
    var sorted := SortByCount(Entries(cands));
    var p :| 0 <= p < |sorted| && sorted[p] == (w, Count(cands, w));
    var r := Keywords(text);
    assert p >= |r|;
  }

  // ---------------------------------------------------------------------------
  // Meta keywords and the page information
  // ---------------------------------------------------------------------------

  /** `getMetaKeywords`: the comma-separated pieces of the tag's content,
      trimmed, empty ones dropped; nothing without the tag. */
  function MetaKeywords(content: Option<string>): (r: seq<string>)
    ensures content.None? ==> r == []
    ensures content.Some? ==> r == Filter(IsNonBlank, TrimAll(Split(content.value, ',')))
    ensures forall k :: 0 <= k < |r| ==> r[k] != "" && IsTrimmed(r[k]) && ',' !in r[k]
  {
    if content.None? then []
    else
      CleanPiecesSpec(Split(content.value, ','));
      TrimmedPieces(content.value, ',')
  }

  /** The meta keywords of a tag's content: the content is made of the
      comma-free pieces joined by commas, and the keywords are those pieces
      trimmed, in order, each non-blank one as often as it occurs, the blank
      ones dropped. */
  lemma MetaKeywordsSpec(c: string, pieces: seq<string>, r: seq<string>)
    requires pieces == Split(c, ',') && r == MetaKeywords(Some(c))
    ensures Join(pieces, ",") == c && forall i :: 0 <= i < |pieces| ==> ',' !in pieces[i]
    ensures IsSubsequence(r, TrimAll(pieces))
    ensures forall k :: 0 <= k < |r| ==> exists i :: 0 <= i < |pieces| && r[k] == Trim(pieces[i])
    ensures forall i :: 0 <= i < |pieces| && Trim(pieces[i]) != "" ==> Trim(pieces[i]) in r
    ensures forall w :: w != "" ==> Count(r, w) == Count(TrimAll(pieces), w)
  {
    JoinSplit(c, ',');
    TrimmedNonBlank(pieces, r);
  }

  /** The keyword list of the page: meta keywords, then extracted ones,
      duplicates removed at their later occurrences, at most fifteen. */
  function MergeKeywords(meta: seq<string>, extracted: seq<string>): seq<string> {
    Take(Dedupe(meta + extracted), 15)
  }

  /** At most fifteen distinct keywords from the two lists, in the order of
      their first occurrence in meta, then extracted; the distinct meta
      keywords come first, as far as the cap allows. A keyword of either list
      is left out only when fifteen are kept, all occurring before it. */
  lemma MergeKeywordsSpec(meta: seq<string>, extracted: seq<string>)
    ensures var r := MergeKeywords(meta, extracted);
      && |r| <= 15
      && NoDuplicates(r)
      && (forall k :: 0 <= k < |r| ==> r[k] in meta || r[k] in extracted)
      && Take(Dedupe(meta), 15) == Take(r, |Dedupe(meta)|)
    ensures |Dedupe(meta + extracted)| <= 15 ==> MergeKeywords(meta, extracted) == Dedupe(meta + extracted)
    ensures var r, all := MergeKeywords(meta, extracted), meta + extracted;
      && (forall i, j :: 0 <= i < j < |r| ==> IndexOf(all, r[i]) < IndexOf(all, r[j]))
      && (forall x :: x in all && x !in r ==>
            |r| == 15 && forall k :: 0 <= k < |r| ==> IndexOf(all, r[k]) < IndexOf(all, x))
  {
    MergeFirstOccurrences(meta, extracted, MergeKeywords(meta, extracted), meta + extracted);
    var d := Dedupe(meta + extracted);
    DedupePrefix(meta, extracted);
    TakeNoDuplicates(d, 15);
    TakeOfPrefix(Dedupe(meta), d, 15);
    var r := Take(d, 15);
    forall k | 0 <= k < |r| ensures r[k] in meta || r[k] in extracted {
      assert r[k] == d[k] && d[k] in meta + extracted;
    }
  }

  /** The merge keeps the earliest distinct keywords, in order. */
  lemma MergeFirstOccurrences(meta: seq<string>, extracted: seq<string>, r: seq<string>, all: seq<string>)
    requires all == meta + extracted && r == MergeKeywords(meta, extracted)
    ensures forall k :: 0 <= k < |r| ==> r[k] in all
    ensures forall i, j :: 0 <= i < j < |r| ==> IndexOf(all, r[i]) < IndexOf(all, r[j])
    ensures forall x :: x in all && x !in r ==>
      |r| == 15 && forall k :: 0 <= k < |r| ==> IndexOf(all, r[k]) < IndexOf(all, x)
  {
    var d := Dedupe(all);
    DedupeFirstOccurrences(all);
    forall x | x in all && x !in r
      ensures |r| == 15 && forall k :: 0 <= k < |r| ==> IndexOf(all, r[k]) < IndexOf(all, x)
    {
      var p :| 0 <= p < |d| && d[p] == x;
      assert p >= 15;
    }
  }

  /** Up to fifteen distinct meta keywords all come first, in their order. */
  lemma MergeKeepsMeta(meta: seq<string>, extracted: seq<string>)
    requires NoDuplicates(meta) && |meta| <= 15
    ensures |meta| <= |MergeKeywords(meta, extracted)| && MergeKeywords(meta, extracted)[..|meta|] == meta
  {
    DedupePrefix(meta, extracted);
    DedupeOfDistinct(meta);
  }

  /** The page information the content script reports: the page's address,
      title, description and icon, the merged keywords and the content. */
  function PageInfo(url: string, title: string, description: string, favicon: string,
                    content: string, metaContent: Option<string>): (r: Background.PageInfo)
    ensures r.keywords == MergeKeywords(MetaKeywords(metaContent), Keywords(content))
    ensures r.url == Some(url) && r.content == content
  {
    Background.PageInfo(Some(url), Some(title), Some(favicon), description,
                        MergeKeywords(MetaKeywords(metaContent), Keywords(content)), content)
  }
}
