/**
 String operations the scraper borrows from Python's `str`: `strip()`,
 `lower()`, the `in` substring test, `startswith`/`endswith`, `split`/`join`
 on a single separator character, `split` on a separator string, and
 `replace(pat, '')`. Strings are sequences of characters.
 */
module Text {

  /* ---------------------------------------------------------------------
     Whitespace and strip()
     --------------------------------------------------------------------- */

  /** The characters Python's `str.isspace()` accepts, which `strip()` removes. */
  const SpaceChars: set<char> := {
    ' ', '\t', '\n', '\r', '\U{B}', '\U{C}', '\U{1C}', '\U{1D}', '\U{1E}', '\U{1F}',
    '\U{85}', '\U{A0}', '\U{1680}',
    '\U{2000}', '\U{2001}', '\U{2002}', '\U{2003}', '\U{2004}', '\U{2005}',
    '\U{2006}', '\U{2007}', '\U{2008}', '\U{2009}', '\U{200A}',
    '\U{2028}', '\U{2029}', '\U{202F}', '\U{205F}', '\U{3000}'
  }

  predicate IsSpace(c: char) {
    c in SpaceChars
  }

  /** Number of whitespace characters at the front of `s`. */
  function LeadingSpaces(s: string): (n: nat)
    ensures n <= |s|
    ensures forall i :: 0 <= i < n ==> IsSpace(s[i])
    ensures n < |s| ==> !IsSpace(s[n])
  {
    if |s| > 0 && IsSpace(s[0]) then 1 + LeadingSpaces(s[1..]) else 0
  }

  /** Number of whitespace characters at the back of `s`. */
  function TrailingSpaces(s: string): (n: nat)
    ensures n <= |s|
    ensures forall i :: |s| - n <= i < |s| ==> IsSpace(s[i])
    ensures n < |s| ==> !IsSpace(s[|s| - n - 1])
  {
    if |s| > 0 && IsSpace(s[|s| - 1]) then 1 + TrailingSpaces(s[..|s| - 1]) else 0
  }

  /** `s.strip()`: `s` without its leading and trailing whitespace. */
  function Strip(s: string): (r: string)
    ensures |r| <= |s|
    ensures r == [] <==> forall i :: 0 <= i < |s| ==> IsSpace(s[i])
    ensures r != [] ==> !IsSpace(r[0]) && !IsSpace(r[|r| - 1])
    ensures LeadingSpaces(s) + |r| <= |s|
    ensures r == s[LeadingSpaces(s)..LeadingSpaces(s) + |r|]
    ensures forall i :: LeadingSpaces(s) + |r| <= i < |s| ==> IsSpace(s[i])
  {
    var a := LeadingSpaces(s);
    if a == |s| then []
    else
      var b := |s| - TrailingSpaces(s);
      assert !IsSpace(s[a]);
      s[a..b]
  }

  /** Stripping twice changes nothing more than stripping once. */
  lemma StripIdempotent(s: string)
    ensures Strip(Strip(s)) == Strip(s)
  {
    var r := Strip(s);
    if r != [] {
      assert LeadingSpaces(r) == 0;
      assert TrailingSpaces(r) == 0;
    }
  }

  /* ---------------------------------------------------------------------
     lower()
     --------------------------------------------------------------------- */

  /** Lower-casing of one character, on the ASCII letters. */
  function LowerChar(c: char): char {
    if 'A' <= c <= 'Z' then (c as int - 'A' as int + 'a' as int) as char else c
  }

  /** `s.lower()` on ASCII letters; every other character is kept. */
  function Lower(s: string): (r: string)
    ensures |r| == |s|
    ensures forall i :: 0 <= i < |s| ==> r[i] == LowerChar(s[i])
  {
    if |s| == 0 then [] else [LowerChar(s[0])] + Lower(s[1..])
  }

  /* ---------------------------------------------------------------------
     Substring tests
     --------------------------------------------------------------------- */

  /** `t` occurs in `s` starting at index `i`. */
  predicate OccursAt(s: string, t: string, i: int) {
    0 <= i && i + |t| <= |s| && s[i..i + |t|] == t
  }

  /** Python's `t in s`. */
  function Contains(s: string, t: string): (b: bool)
    ensures b <==> exists i :: OccursAt(s, t, i)
    decreases |s|
  {
    if |s| < |t| then
      assert forall i :: !OccursAt(s, t, i);
      false
    else if s[..|t|] == t then
      assert OccursAt(s, t, 0);
      true
    else
      var rest := Contains(s[1..], t);
      assert forall i :: 1 <= i ==> (OccursAt(s, t, i) <==> OccursAt(s[1..], t, i - 1));
      assert forall i :: OccursAt(s[1..], t, i) ==> OccursAt(s, t, i + 1);
      rest
  }

  /** An occurrence in the tail of `s` is an occurrence in `s`. */
  lemma ContainsTail(s: string, t: string)
    requires |s| > 0
    ensures Contains(s[1..], t) ==> Contains(s, t)
  {
    if Contains(s[1..], t) {
      var i :| OccursAt(s[1..], t, i);
      assert s[i + 1..i + 1 + |t|] == s[1..][i..i + |t|];
      assert OccursAt(s, t, i + 1);
    }
  }

  /** An occurrence in a suffix of `s` is an occurrence in `s`. */
  lemma ContainsSuffix(s: string, tail: string, t: string)
    requires |tail| <= |s| && s[|s| - |tail|..] == tail
    requires Contains(tail, t)
    ensures Contains(s, t)
  {
    var d := |s| - |tail|;
    var i :| OccursAt(tail, t, i);
    var x, y := s[d + i..d + i + |t|], tail[i..i + |t|];
    assert forall k :: 0 <= k < |t| ==> x[k] == y[k];
    assert OccursAt(s, t, d + i);
  }

  /** Python's `s.startswith(p)`. */
  predicate StartsWith(s: string, p: string) {
    |p| <= |s| && s[..|p|] == p
  }

  /** Python's `s.endswith(p)`. */
  predicate EndsWith(s: string, p: string) {
    |p| <= |s| && s[|s| - |p|..] == p
  }

  /** Whitespace removed by `strip()` never cuts into an occurrence of a word
      whose first and last characters are not whitespace. */
  lemma StripKeepsWord(s: string, t: string)
    requires |t| > 0 && !IsSpace(t[0]) && !IsSpace(t[|t| - 1])
    ensures Contains(Strip(s), t) <==> Contains(s, t)
  {
    var a := LeadingSpaces(s);
    var r := Strip(s);
    var b := a + |r|;
    assert r == s[a..b];
    if Contains(s, t) {
      var i :| OccursAt(s, t, i);
      StripKeepsOccurrence(s, t, i);
    }
    if Contains(r, t) {
      var i :| OccursAt(r, t, i);
      SliceOccurrence(s, t, i, a, b);
    }
  }

  /** One occurrence in `s` of such a word survives `strip()`, shifted by the leading whitespace. */
  lemma StripKeepsOccurrence(s: string, t: string, i: int)
    requires |t| > 0 && !IsSpace(t[0]) && !IsSpace(t[|t| - 1])
    requires OccursAt(s, t, i)
    ensures OccursAt(Strip(s), t, i - LeadingSpaces(s))
  {
    var a := LeadingSpaces(s);
    var b := |s| - TrailingSpaces(s);
    assert s[i] == t[0] by { assert s[i..i + |t|][0] == s[i]; }
    assert s[i + |t| - 1] == t[|t| - 1] by { assert s[i..i + |t|][|t| - 1] == s[i + |t| - 1]; }
    assert a <= i;
    assert i + |t| <= b;
    assert Strip(s) == s[a..b];
    SliceOccurrence(s, t, i - a, a, b);
  }

  /** Occurrences in a slice `s[a..b]` are the occurrences in `s` that lie inside it. */
  lemma SliceOccurrence(s: string, t: string, i: int, a: int, b: int)
    requires 0 <= a <= b <= |s|
    ensures OccursAt(s[a..b], t, i) <==> 0 <= i && a + i + |t| <= b && OccursAt(s, t, a + i)
  {
    if 0 <= i && a + i + |t| <= b {
      var x, y := s[a..b][i..i + |t|], s[a + i..a + i + |t|];
      assert forall k :: 0 <= k < |t| ==> x[k] == y[k];
      assert x == y;
    }
  }

  /* ---------------------------------------------------------------------
     split / join on one separator character
     --------------------------------------------------------------------- */

  /** Number of occurrences of `c` in `s`. */
  function Count(s: string, c: char): nat {
    if |s| == 0 then 0 else (if s[0] == c then 1 else 0) + Count(s[1..], c)
  }

  /** `s.split(c)` for a one-character separator: the maximal pieces of `s`
      between occurrences of `c`, always at least one piece. */
  function Split(s: string, c: char): (parts: seq<string>)
    ensures |parts| == Count(s, c) + 1
    ensures forall i :: 0 <= i < |parts| ==> c !in parts[i]
  {
    if |s| == 0 then [[]]
    else
      var rest := Split(s[1..], c);
      if s[0] == c then [[]] + rest
      else [[s[0]] + rest[0]] + rest[1..]
  }

  /** `c.join(parts)`; the join of no parts is the empty string. */
  function Join(parts: seq<string>, c: char): string {
    if |parts| == 0 then []
    else if |parts| == 1 then parts[0]
    else parts[0] + [c] + Join(parts[1..], c)
  }

  /** Joining the pieces of a split gives back the original string. */
  lemma {:induction false} JoinSplit(s: string, c: char)
    ensures Join(Split(s, c), c) == s
  {
    if |s| > 0 {
      JoinSplit(s[1..], c);
      var rest := Split(s[1..], c);
      if s[0] != c {
        if |rest| == 1 {
          assert Join(rest, c) == rest[0];
        } else {
          assert Join(rest, c) == rest[0] + [c] + Join(rest[1..], c);
        }
      }
    }
  }

  /** Splitting a join of separator-free pieces gives back the pieces. */
  lemma {:induction false} SplitJoin(parts: seq<string>, c: char)
    requires |parts| > 0
    requires forall i :: 0 <= i < |parts| ==> c !in parts[i]
    ensures Split(Join(parts, c), c) == parts
  {
    if |parts| == 1 {
      SplitFree(parts[0], c);
    } else {
      SplitJoin(parts[1..], c);
      SplitCons(parts[0], Join(parts[1..], c), c);
      assert Join(parts, c) == parts[0] + [c] + Join(parts[1..], c);
    }
  }

  /** A string without the separator splits into itself. */
  lemma {:induction false} SplitFree(p: string, c: char)
    requires c !in p
    ensures Split(p, c) == [p]
  {
    if |p| > 0 {
      SplitFree(p[1..], c);
      assert [p[0]] + p[1..] == p;
    }
  }

  /** Splitting `p + c + rest`, with `p` free of `c`, yields `p` and then the pieces of `rest`. */
  lemma {:induction false} SplitCons(p: string, rest: string, c: char)
    requires c !in p
    ensures Split(p + [c] + rest, c) == [p] + Split(rest, c)
  {
    if |p| == 0 {
      assert p + [c] + rest == [c] + rest;
      assert ([c] + rest)[1..] == rest;
    } else {
      SplitCons(p[1..], rest, c);
      assert (p + [c] + rest)[1..] == p[1..] + [c] + rest;
      assert [p[0]] + p[1..] == p;
    }
  }

  /** Joining two non-empty lists of pieces puts one separator between their joins. */
  lemma {:induction false} JoinAppend(a: seq<string>, b: seq<string>, c: char)
    requires |a| > 0 && |b| > 0
    ensures Join(a + b, c) == Join(a, c) + [c] + Join(b, c)
  {
    if |a| == 1 {
      assert (a + b)[1..] == b;
    } else {
      JoinAppend(a[1..], b, c);
      assert (a + b)[1..] == a[1..] + b;
    }
  }

  /** The join of separator-free pieces holds one separator fewer than there are pieces. */
  lemma {:induction false} CountJoin(parts: seq<string>, c: char)
    requires |parts| > 0
    requires forall i :: 0 <= i < |parts| ==> c !in parts[i]
    ensures Count(Join(parts, c), c) == |parts| - 1
  {
    CountFree(parts[0], c);
    if |parts| > 1 {
      CountJoin(parts[1..], c);
      var tail := Join(parts[1..], c);
      CountAppend(parts[0], [c] + tail, c);
      assert ([c] + tail)[1..] == tail;
      assert Count([c] + tail, c) == 1 + Count(tail, c);
      assert Join(parts, c) == parts[0] + ([c] + tail);
    }
  }

  /** A string without `c` holds no occurrence of it. */
  lemma {:induction false} CountFree(p: string, c: char)
    requires c !in p
    ensures Count(p, c) == 0
  {
    if |p| > 0 {
      CountFree(p[1..], c);
    }
  }

  /** Occurrences add up over concatenation. */
  lemma {:induction false} CountAppend(a: string, b: string, c: char)
    ensures Count(a + b, c) == Count(a, c) + Count(b, c)
  {
    if |a| > 0 {
      CountAppend(a[1..], b, c);
      assert (a + b)[1..] == a[1..] + b;
    } else {
      assert a + b == b;
    }
  }

  /* ---------------------------------------------------------------------
     split on a separator string, last piece
     --------------------------------------------------------------------- */

  /** Scanning `s` from index `i` left to right as `s.split(sep)` does,
      with `acc` the end of the last separator matched so far (0 if none):
      the start of the last piece of the split. */
  function LastPieceStart(s: string, sep: string, i: nat, acc: nat): (k: nat)
    requires |sep| > 0
    requires acc <= i <= |s|
    requires acc == 0 || OccursAt(s, sep, acc - |sep|)
    requires forall j :: acc <= j < i ==> !OccursAt(s, sep, j)
    ensures acc <= k <= |s|
    ensures k == 0 || OccursAt(s, sep, k - |sep|)
    ensures forall j :: k <= j ==> !OccursAt(s, sep, j)
    decreases |s| - i
  {
    if i + |sep| > |s| then acc
    else if s[i..i + |sep|] == sep then LastPieceStart(s, sep, i + |sep|, i + |sep|)
    else LastPieceStart(s, sep, i + 1, acc)
  }

  /** `s.split(sep)[-1]`: the text after the last occurrence of `sep`, or all of `s`.
      The contract pins the result only for a separator none of whose proper
      prefixes is also a suffix, such as `Internal ID:`, the one separator
      used here; for `aa` in `aaa` the empty string would meet it as well. */
  function AfterLast(s: string, sep: string): (r: string)
    requires |sep| > 0
    ensures !Contains(r, sep)
    ensures Contains(s, sep) <==> |r| < |s|
    ensures |r| <= |s|
    ensures |r| < |s| ==> EndsWith(s[..|s| - |r|], sep)
    ensures r == s[|s| - |r|..]
  {
    var k := LastPieceStart(s, sep, 0, 0);
    var r := s[k..];
    assert forall j :: OccursAt(r, sep, j) ==> OccursAt(s, sep, k + j) by {
      forall j | OccursAt(r, sep, j) ensures OccursAt(s, sep, k + j) {
        assert s[k + j..k + j + |sep|] == r[j..j + |sep|];
      }
    }
    assert k > 0 ==> EndsWith(s[..k], sep) by {
      if k > 0 {
        assert OccursAt(s, sep, k - |sep|);
        assert s[..k][k - |sep|..] == s[k - |sep|..k];
      }
    }
    r
  }

  /* ---------------------------------------------------------------------
     replace(pat, '')
     --------------------------------------------------------------------- */

  /** `s.replace(pat, '')`: every non-overlapping occurrence of `pat`,
      found left to right, is deleted. */
  function RemoveAll(s: string, pat: string): (r: string)
    requires |pat| > 0
    ensures |r| <= |s|
    decreases |s|
  {
    if |s| == 0 then []
    else if StartsWith(s, pat) then RemoveAll(s[|pat|..], pat)
    else [s[0]] + RemoveAll(s[1..], pat)
  }

  /** Deleting adds no character of its own: every character left is one of `s`. */
  lemma {:induction false} RemoveAllChars(s: string, pat: string)
    requires |pat| > 0
    ensures forall k :: 0 <= k < |RemoveAll(s, pat)| ==> RemoveAll(s, pat)[k] in s
    decreases |s|
  {
    if |s| > 0 {
      if StartsWith(s, pat) {
        RemoveAllChars(s[|pat|..], pat);
        assert forall c :: c in s[|pat|..] ==> c in s;
      } else {
        RemoveAllChars(s[1..], pat);
        assert forall c :: c in s[1..] ==> c in s;
      }
    }
  }

  /** A string with no occurrence of `pat` is left as it is. */
  lemma {:induction false} RemoveAllAbsent(s: string, pat: string)
    requires |pat| > 0
    requires !Contains(s, pat)
    ensures RemoveAll(s, pat) == s
  {
    if |s| > 0 {
      assert !OccursAt(s, pat, 0);
      ContainsTail(s, pat);
      RemoveAllAbsent(s[1..], pat);
      assert [s[0]] + s[1..] == s;
    }
  }

  /** An occurrence in the tail `s[1..]` is an occurrence in `s`, one place later. */
  lemma OccursShift(s: string, t: string, j: nat)
    requires |s| > 0
    ensures OccursAt(s[1..], t, j) <==> OccursAt(s, t, j + 1)
  {
    if j + |t| <= |s[1..]| {
      assert s[1..][j..j + |t|] == s[j + 1..j + 1 + |t|];
    }
  }

  /** One unfolding of `RemoveAll` where `s` does not start with `pat`. */
  lemma RemoveAllKeep(s: string, pat: string)
    requires |pat| > 0 && |s| > 0 && !OccursAt(s, pat, 0)
    ensures RemoveAll(s, pat) == [s[0]] + RemoveAll(s[1..], pat)
  {
    assert !StartsWith(s, pat);
  }

  /** One unfolding of `RemoveAll` where `s` starts with `pat`. */
  lemma RemoveAllDrop(s: string, pat: string)
    requires |pat| > 0 && OccursAt(s, pat, 0)
    ensures RemoveAll(s, pat) == RemoveAll(s[|pat|..], pat)
  {
    assert StartsWith(s, pat);
  }

  /** A first occurrence at `i > 0` is a first occurrence at `i - 1` of the tail. */
  lemma FirstInTail(s: string, pat: string, i: nat)
    requires i > 0 && OccursAt(s, pat, i)
    requires forall j :: 0 <= j < i ==> !OccursAt(s, pat, j)
    ensures OccursAt(s[1..], pat, i - 1)
    ensures forall j :: 0 <= j < i - 1 ==> !OccursAt(s[1..], pat, j)
  {
    OccursShift(s, pat, i - 1);
    forall j | 0 <= j < i - 1 ensures !OccursAt(s[1..], pat, j) {
      OccursShift(s, pat, j);
    }
  }

  /** The inductive step of `RemoveAllFirst`: what holds of the tail holds
      of `s` once its first character is put back. */
  lemma RemoveAllFirstStep(s: string, pat: string, i: nat)
    requires |pat| > 0 && 0 < i && i + |pat| <= |s| && !OccursAt(s, pat, 0)
    requires RemoveAll(s[1..], pat) == s[1..][..i - 1] + RemoveAll(s[1..][i - 1 + |pat|..], pat)
    ensures RemoveAll(s, pat) == s[..i] + RemoveAll(s[i + |pat|..], pat)
  {
    RemoveAllKeep(s, pat);
    assert s[1..][i - 1 + |pat|..] == s[i + |pat|..];
    PutBackFirst(s, i, RemoveAll(s[1..], pat), RemoveAll(s[i + |pat|..], pat));
  }

  /** Putting the first character back in front of a split tail. */
  lemma PutBackFirst(s: string, i: nat, x: string, y: string)
    requires 0 < i <= |s| && x == s[1..][..i - 1] + y
    ensures [s[0]] + x == s[..i] + y
  {
    assert [s[0]] + s[1..][..i - 1] == s[..i];
  }

  /** `replace(pat, '')` around the first occurrence: everything before it
      is kept, the occurrence itself is deleted, and the rest is treated
      afresh. With `RemoveAllAbsent` this fixes the result for every input. */
  lemma {:induction false} RemoveAllFirst(s: string, pat: string, i: nat)
    requires |pat| > 0 && OccursAt(s, pat, i)
    requires forall j :: 0 <= j < i ==> !OccursAt(s, pat, j)
    ensures RemoveAll(s, pat) == s[..i] + RemoveAll(s[i + |pat|..], pat)
    decreases i
  {
    if i == 0 {
      RemoveAllDrop(s, pat);
      assert s[..0] + RemoveAll(s[|pat|..], pat) == RemoveAll(s[|pat|..], pat);
    } else {
      FirstInTail(s, pat, i);
      RemoveAllFirst(s[1..], pat, i - 1);
      RemoveAllFirstStep(s, pat, i);
    }
  }
}
