/**
 Sequence searches and de-duplication used by the scraper: the
 "first element in document order that matches" lookups of
 BeautifulSoup's `find`/`find_next`, and `list(set(xs))`.
 */
module Seqs {
  import opened Options

  /** Index of the first element of `s` at or after `from` that satisfies `p`. */
  function FirstFrom<T>(s: seq<T>, from: nat, p: T -> bool): (r: Option<nat>)
    requires from <= |s|
    ensures r.Some? ==> from <= r.value < |s| && p(s[r.value])
    ensures r.Some? ==> forall j :: from <= j < r.value ==> !p(s[j])
    ensures r.None? <==> forall j :: from <= j < |s| ==> !p(s[j])
    decreases |s| - from
  {
    if from == |s| then None
    else if p(s[from]) then Some(from)
    else FirstFrom(s, from + 1, p)
  }

  /** `i` is the first index at or after `from` whose element satisfies `p`. */
  ghost predicate IsFirstFrom<T>(s: seq<T>, from: nat, p: T -> bool, i: int) {
    from <= i < |s| && p(s[i]) && forall j :: from <= j < i ==> !p(s[j])
  }

  /** The first match is unique, so the search result is determined by it. */
  lemma FirstFromUnique<T>(s: seq<T>, from: nat, p: T -> bool, i: int)
    requires from <= |s|
    requires IsFirstFrom(s, from, p, i)
    ensures FirstFrom(s, from, p) == Some(i)
  {
  }

  /** No value occurs twice. */
  predicate NoDuplicates<T(==)>(s: seq<T>) {
    forall i, j :: 0 <= i < j < |s| ==> s[i] != s[j]
  }

  /** `list(set(s))`: each value of `s` once. Python leaves the order of the
      result unspecified; this model keeps first occurrences in order. */
  function Dedup<T(==)>(s: seq<T>): (r: seq<T>)
    ensures NoDuplicates(r)
    ensures forall i :: 0 <= i < |s| ==> s[i] in r
    ensures forall i :: 0 <= i < |r| ==> r[i] in s
    ensures |r| <= |s|
  {
    if |s| == 0 then []
    else
      var r := Dedup(s[..|s| - 1]);
      var x := s[|s| - 1];
      assert s == s[..|s| - 1] + [x];
      if x in r then r else r + [x]
  }

  /** A list that already has no duplicates loses nothing: the result has
      as many elements as the input, whatever their order. */
  lemma {:induction false} DedupKeepsDistinct<T>(s: seq<T>)
    requires NoDuplicates(s)
    ensures |Dedup(s)| == |s|
  {
    if |s| > 0 {
      var init := s[..|s| - 1];
      assert NoDuplicates(init);
      DedupKeepsDistinct(init);
      var x := s[|s| - 1];
      assert x !in init;
      assert x !in Dedup(init);
    }
  }

  /** Number of elements of `s` that `f` maps to nothing. */
  function Misses<T, U>(s: seq<T>, f: T -> Option<U>): nat {
    if |s| == 0 then 0 else (if f(s[0]).None? then 1 else 0) + Misses(s[1..], f)
  }

  /** The results `f` gives for the elements of `s`, in order, skipping
      the elements it maps to nothing. */
  function FilterMap<T, U>(s: seq<T>, f: T -> Option<U>): (r: seq<U>)
    ensures |r| == |s| - Misses(s, f)
  {
    if |s| == 0 then []
    else
      var rest := FilterMap(s[1..], f);
      match f(s[0])
      case Some(y) => [y] + rest
      case None => rest
  }

  /** FilterMap distributes over concatenation: it keeps the order of `s`. */
  lemma {:induction false} FilterMapAppend<T, U>(a: seq<T>, b: seq<T>, f: T -> Option<U>)
    ensures FilterMap(a + b, f) == FilterMap(a, f) + FilterMap(b, f)
  {
    if |a| > 0 {
      assert (a + b)[0] == a[0];
      assert (a + b)[1..] == a[1..] + b;
      FilterMapAppend(a[1..], b, f);
    } else {
      assert a + b == b;
    }
  }

  /** The values FilterMap returns are exactly the results `f` gives. */
  lemma {:induction false} FilterMapMembers<T, U>(s: seq<T>, f: T -> Option<U>)
    ensures forall k :: 0 <= k < |s| && f(s[k]).Some? ==> f(s[k]).value in FilterMap(s, f)
    ensures forall y :: y in FilterMap(s, f) ==> exists k :: 0 <= k < |s| && f(s[k]) == Some(y)
  {
    if |s| > 0 {
      FilterMapMembers(s[1..], f);
      assert forall k :: 1 <= k < |s| ==> s[k] == s[1..][k - 1];
    }
  }
}
