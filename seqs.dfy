/** Array operations of the JavaScript standard library used by the extension:
    `filter`, `slice(0, n)`, `indexOf`, de-duplication (`[...new Set(a)]` and
    `a.filter((x, i) => a.indexOf(x) === i)`, which agree), and occurrence
    counts. The recursive definitions peel the LAST element, so that a loop
    over a prefix `s[..i]` can state its invariant as `acc == F(s[..i])`. */
module Seqs {

  /** `s.filter(p)`. */
  function Filter<T>(p: T -> bool, s: seq<T>): (r: seq<T>)
    ensures |r| <= |s|
    ensures forall i :: 0 <= i < |r| ==> r[i] in s && p(r[i])
    ensures forall i :: 0 <= i < |s| && p(s[i]) ==> s[i] in r
  {
    if |s| == 0 then []
    else Filter(p, s[..|s| - 1]) + (if p(s[|s| - 1]) then [s[|s| - 1]] else [])
  }

  lemma {:induction false} FilterConcat<T>(p: T -> bool, a: seq<T>, b: seq<T>)
    ensures Filter(p, a + b) == Filter(p, a) + Filter(p, b)
    decreases |b|
  {
    if |b| == 0 {
      assert a + b == a;
    } else {
      assert (a + b)[..|a + b| - 1] == a + b[..|b| - 1];
      FilterConcat(p, a, b[..|b| - 1]);
    }
  }

  lemma FilterSingle<T>(p: T -> bool, x: T)
    ensures Filter(p, [x]) == if p(x) then [x] else []
  {
    assert [x][..0] == [];
  }

  lemma FilterCons<T>(p: T -> bool, x: T, s: seq<T>)
    ensures Filter(p, [x] + s) == (if p(x) then [x] else []) + Filter(p, s)
  {
    FilterConcat(p, [x], s);
    FilterSingle(p, x);
  }

  /** Filtering one more element of a prefix. */
  lemma FilterPrefixStep<T>(p: T -> bool, s: seq<T>, i: nat)
    requires i < |s|
    ensures Filter(p, s[..i + 1]) == Filter(p, s[..i]) + if p(s[i]) then [s[i]] else []
  {
    assert s[..i + 1][..i] == s[..i];
  }

  /** Filtering with a predicate that holds nowhere keeps nothing. */
  lemma {:induction false} FilterNone<T>(p: T -> bool, s: seq<T>)
    requires forall i :: 0 <= i < |s| ==> !p(s[i])
    ensures Filter(p, s) == []
    decreases |s|
  {
    if |s| > 0 {
      FilterNone(p, s[..|s| - 1]);
    }
  }

  /** Filtering with a predicate that holds everywhere keeps everything. */
  lemma {:induction false} FilterAll<T>(p: T -> bool, s: seq<T>)
    requires forall i :: 0 <= i < |s| ==> p(s[i])
    ensures Filter(p, s) == s
    decreases |s|
  {
    if |s| > 0 {
      FilterAll(p, s[..|s| - 1]);
      assert s[..|s| - 1] + [s[|s| - 1]] == s;
    }
  }

  /** `a` is `b` with some elements left out, the rest in their order. */
  predicate IsSubsequence<T(==)>(a: seq<T>, b: seq<T>)
    decreases |b|
  {
    if |a| == 0 then true
    else if |b| == 0 then false
    else if a[|a| - 1] == b[|b| - 1] then IsSubsequence(a[..|a| - 1], b[..|b| - 1])
    else IsSubsequence(a, b[..|b| - 1])
  }

  /** Appending to the longer sequence keeps a subsequence one. */
  lemma {:induction false} SubsequenceSnoc<T>(a: seq<T>, b: seq<T>, y: T)
    requires IsSubsequence(a, b)
    ensures IsSubsequence(a, b + [y])
    decreases |b|, 1
  {
    assert (b + [y])[..|b|] == b;
    if |a| > 0 && a[|a| - 1] == y {
      SubsequenceInit(a, b);
    }
  }

  /** Dropping the last element of a subsequence keeps it one. */
  lemma {:induction false} SubsequenceInit<T>(a: seq<T>, b: seq<T>)
    requires |a| > 0 && IsSubsequence(a, b)
    ensures IsSubsequence(a[..|a| - 1], b)
    decreases |b|, 0
  {
    var a', b' := a[..|a| - 1], b[..|b| - 1];
    assert b' + [b[|b| - 1]] == b;
    if a[|a| - 1] != b[|b| - 1] {
      SubsequenceInit(a, b');
    }
    SubsequenceSnoc(a', b', b[|b| - 1]);
  }

  /** A filter keeps the order of what it keeps. */
  lemma {:induction false} FilterIsSubsequence<T>(p: T -> bool, s: seq<T>)
    ensures IsSubsequence(Filter(p, s), s)
    decreases |s|
  {
    if |s| > 0 {
      var init := s[..|s| - 1];
      FilterIsSubsequence(p, init);
      var f := Filter(p, init);
      if p(s[|s| - 1]) {
        assert (f + [s[|s| - 1]])[..|f|] == f;
      } else {
        assert Filter(p, s) == f;
        assert init + [s[|s| - 1]] == s;
        SubsequenceSnoc(f, init, s[|s| - 1]);
      }
    }
  }

  /** A filter keeps every occurrence of what it keeps: an element the
      predicate accepts occurs as often as in the input, any other not at
      all. With `FilterIsSubsequence` this determines the result. */
  lemma {:induction false} FilterCount<T>(p: T -> bool, s: seq<T>)
    ensures forall x :: Count(Filter(p, s), x) == if p(x) then Count(s, x) else 0
    decreases |s|
  {
    if |s| > 0 {
      var init, y := s[..|s| - 1], s[|s| - 1];
      FilterCount(p, init);
      assert init + [y] == s;
      var f := Filter(p, init);
      assert Filter(p, s) == f + if p(y) then [y] else [];
      forall x ensures Count(Filter(p, s), x) == if p(x) then Count(s, x) else 0 {
        CountSnoc(init, y, x);
        if p(y) {
          CountSnoc(f, y, x);
        } else {
          assert f + [] == f;
        }
      }
    }
  }

  /** `a.slice(0, n)`. */
  function Take<T>(s: seq<T>, n: nat): (r: seq<T>)
    ensures |r| == if n <= |s| then n else |s|
    ensures forall i :: 0 <= i < |r| ==> r[i] == s[i]
  {
    if n <= |s| then s[..n] else s
  }

  predicate NoDuplicates<T(==)>(s: seq<T>) {
    forall i, j :: 0 <= i < j < |s| ==> s[i] != s[j]
  }

  /** A prefix of a list without duplicates has none. */
  lemma TakeNoDuplicates<T>(s: seq<T>, n: nat)
    requires NoDuplicates(s)
    ensures NoDuplicates(Take(s, n))
  {
  }

  /** Capping a list that starts with `a` keeps `a` capped at its front. */
  lemma TakeOfPrefix<T>(a: seq<T>, s: seq<T>, n: nat)
    requires |a| <= |s| && s[..|a|] == a
    ensures Take(a, n) == Take(Take(s, n), |a|)
  {
    var x, y := Take(a, n), Take(Take(s, n), |a|);
    assert |x| == |y|;
    forall i | 0 <= i < |x| ensures x[i] == y[i] {
      assert x[i] == a[i] == s[..|a|][i];
    }
  }

  /** `s.indexOf(x)` for an element that occurs. */
  function IndexOf<T(==)>(s: seq<T>, x: T): (r: nat)
    requires x in s
    ensures r < |s| && s[r] == x && x !in s[..r]
  {
    if s[0] == x then 0
    else
      assert x in s[1..];
      1 + IndexOf(s[1..], x)
  }

  lemma IndexOfAppend<T>(s: seq<T>, t: seq<T>, x: T)
    requires x in s
    ensures IndexOf(s + t, x) == IndexOf(s, x)
  {
    if s[0] != x {
      assert (s + t)[1..] == s[1..] + t;
      IndexOfAppend(s[1..], t, x);
    }
  }

  /** The number of occurrences of `x` in `s`. */
  function Count<T(==)>(s: seq<T>, x: T): (n: nat)
    ensures n <= |s|
    ensures n > 0 <==> x in s
  {
    if |s| == 0 then 0
    else Count(s[..|s| - 1], x) + (if s[|s| - 1] == x then 1 else 0)
  }

  /** One more element is counted when it is the one looked for. */
  lemma CountSnoc<T>(s: seq<T>, y: T, x: T)
    ensures Count(s + [y], x) == Count(s, x) + if y == x then 1 else 0
  {
    assert (s + [y])[..|s|] == s;
  }

  /** One more element is kept when it is new. */
  lemma DedupeSnoc<T>(s: seq<T>, y: T)
    ensures Dedupe(s + [y]) == if y in s then Dedupe(s) else Dedupe(s) + [y]
  {
    assert (s + [y])[..|s|] == s;
    assert y in Dedupe(s) <==> y in s;
  }

  /** The distinct elements of `s` at their first occurrences, in order. */
  function Dedupe<T(==)>(s: seq<T>): (r: seq<T>)
    ensures NoDuplicates(r)
    ensures forall i :: 0 <= i < |r| ==> r[i] in s
    ensures forall i :: 0 <= i < |s| ==> s[i] in r
    ensures |r| <= |s|
  {
    if |s| == 0 then []
    else
      var d := Dedupe(s[..|s| - 1]);
      var x := s[|s| - 1];
      if x in d then d else d + [x]
  }

  /** De-duplication keeps first occurrences: its elements appear in the
      order of their first index in `s`. */
  lemma {:induction false} DedupeFirstOccurrences<T>(s: seq<T>)
    ensures forall i, j :: 0 <= i < j < |Dedupe(s)| ==>
              IndexOf(s, Dedupe(s)[i]) < IndexOf(s, Dedupe(s)[j])
    decreases |s|
  {
    if |s| > 0 {
      var init := s[..|s| - 1];
      var x := s[|s| - 1];
      assert s == init + [x];
      DedupeFirstOccurrences(init);
      var d := Dedupe(init);
      forall y | y in d ensures IndexOf(s, y) == IndexOf(init, y) {
        IndexOfAppend(init, [x], y);
      }
      if x !in d {
        assert forall i :: 0 <= i < |init| ==> s[i] == init[i] != x;
        assert IndexOf(s, x) == |init|;
      }
    }
  }

  /** A sequence without duplicates is its own de-duplication. */
  lemma {:induction false} DedupeOfDistinct<T>(s: seq<T>)
    requires NoDuplicates(s)
    ensures Dedupe(s) == s
    decreases |s|
  {
    if |s| > 0 {
      var init := s[..|s| - 1];
      DedupeOfDistinct(init);
      assert s[|s| - 1] !in init;
      assert init + [s[|s| - 1]] == s;
    }
  }

  /** De-duplicating `a + b` starts with the de-duplication of `a`. */
  lemma {:induction false} DedupePrefix<T>(a: seq<T>, b: seq<T>)
    ensures |Dedupe(a)| <= |Dedupe(a + b)|
    ensures Dedupe(a + b)[..|Dedupe(a)|] == Dedupe(a)
    decreases |b|
  {
    if |b| == 0 {
      assert a + b == a;
    } else {
      var b' := b[..|b| - 1];
      assert (a + b)[..|a + b| - 1] == a + b';
      DedupePrefix(a, b');
    }
  }
}
