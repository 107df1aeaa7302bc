/**
 The scraper's URL string handling, written with `split('/')` and
 `'/'.join(...)` rather than a URL library: the scheme-and-host prefix
 of the start page, its parent path, its last segment, the three-case
 resolution of an `href` against it (netsuite_scraper.py:121-128 and
 143-150), and the record id taken from a record page's URL
 (netsuite_scraper.py:50).
 */
module Urls {
  import opened Text

  /** Python's `xs[:k]` for a non-negative `k`. */
  function Take<T>(xs: seq<T>, k: nat): (r: seq<T>)
    ensures |r| == if k < |xs| then k else |xs|
    ensures r == xs[..|r|]
  {
    if k < |xs| then xs[..k] else xs
  }

  /** The first `k` pieces of a split, joined again, are the prefix of the
      string that stops just before its `k`-th separator. */
  lemma JoinFirstPieces(s: string, c: char, k: nat)
    requires 1 <= k <= |Split(s, c)|
    ensures var o := Join(Split(s, c)[..k], c);
      && |o| <= |s| && s[..|o|] == o
      && Count(o, c) == k - 1
      && (k < |Split(s, c)| ==> |o| < |s| && s[|o|] == c)
      && (k == |Split(s, c)| ==> o == s)
  {
    var parts := Split(s, c);
    var o := Join(parts[..k], c);
    JoinSplit(s, c);
    CountJoin(parts[..k], c);
    if k < |parts| {
      assert parts == parts[..k] + parts[k..];
      JoinAppend(parts[..k], parts[k..], c);
      assert s == o + [c] + Join(parts[k..], c);
      assert s[..|o|] == o;
    } else {
      assert parts[..k] == parts;
    }
  }

  /** `'/'.join(url.split('/')[:3])`: for `https://host/...` this is
      `https://host`, the text before the third slash. */
  function Origin(url: string): (o: string)
    ensures |o| <= |url| && url[..|o|] == o
    ensures Count(o, '/') == if Count(url, '/') < 2 then Count(url, '/') else 2
    ensures |o| == |url| || url[|o|] == '/'
  {
    var parts := Split(url, '/');
    var front := Take(parts, 3);
    JoinFirstPieces(url, '/', |front|);
    Join(front, '/')
  }

  /** `url.split('/')[-1]`: the text after the last slash. */
  function LastSegment(url: string): (seg: string)
    ensures '/' !in seg
    ensures |seg| <= |url| && url[|url| - |seg|..] == seg
    ensures |seg| == |url| || url[|url| - |seg| - 1] == '/'
  {
    var parts := Split(url, '/');
    var n := |parts|;
    JoinSplit(url, '/');
    if n == 1 then
      parts[0]
    else
      assert parts == parts[..n - 1] + [parts[n - 1]];
      JoinAppend(parts[..n - 1], [parts[n - 1]], '/');
      assert url == Join(parts[..n - 1], '/') + ['/'] + parts[n - 1];
      parts[n - 1]
  }

  /** `'/'.join(url.split('/')[:-1])`: the URL without its last segment and
      the slash before it; empty when the URL has no slash. */
  function ParentPath(url: string): (p: string)
    ensures '/' in url ==> url == p + "/" + LastSegment(url)
    ensures '/' !in url ==> p == []
  {
    var parts := Split(url, '/');
    var n := |parts|;
    JoinSplit(url, '/');
    if n == 1 then
      assert '/' !in url by { SplitFree(parts[0], '/'); }
      []
    else
      assert parts == parts[..n - 1] + [parts[n - 1]];
      JoinAppend(parts[..n - 1], [parts[n - 1]], '/');
      var p := Join(parts[..n - 1], '/');
      assert url == p + "/" + parts[n - 1];
      assert '/' in url by { assert url[|p|] == '/'; }
      p
  }

  /** The last segment is the one slash-free tail that follows a slash. */
  lemma LastSegmentOf(p: string, seg: string)
    requires '/' !in seg
    ensures LastSegment(p + "/" + seg) == seg
  {
    var url := p + "/" + seg;
    var last := LastSegment(url);
    assert url[|url| - |seg| - 1] == '/';
    assert forall k :: |url| - |last| <= k < |url| ==> url[k] == last[k - (|url| - |last|)];
    assert forall k :: |url| - |seg| <= k < |url| ==> url[k] == seg[k - (|url| - |seg|)];
    assert |last| <= |seg|;
    assert |last| == |seg|;
    assert last == url[|url| - |seg|..] == seg;
  }

  /** The three cases of netsuite_scraper.py:121-128 (repeated at 143-150). */
  function Resolve(start: string, href: string): (u: string)
    ensures StartsWith(href, "http") ==> u == href
    ensures |href| <= |u| && u[|u| - |href|..] == href
    ensures !StartsWith(href, "http") && '/' in start ==>
              |u| - |href| <= |start| && u[..|u| - |href|] == start[..|u| - |href|]
  {
    if StartsWith(href, "http") then href
    else if StartsWith(href, "/") then Origin(start) + href
    else
      var p := ParentPath(start);
      assert '/' in start ==> start[..|p| + 1] == p + "/" by {
        if '/' in start {
          assert start == p + "/" + LastSegment(start);
        }
      }
      p + "/" + href
  }

  /** A root-relative href replaces everything from the third slash of the
      start URL on: the kept prefix stops at that slash, or takes the whole
      URL when it has fewer than three. */
  lemma ResolveRootRelative(start: string, href: string) returns (n: nat)
    requires StartsWith(href, "/")
    ensures n <= |start| && Resolve(start, href) == start[..n] + href
    ensures Count(start[..n], '/') == if Count(start, '/') < 2 then Count(start, '/') else 2
    ensures n == |start| || start[n] == '/'
  {
    var o := Origin(start);
    assert !StartsWith(href, "http") by { assert href[0] == '/'; }
    n := |o|;
  }

  /** Any other href replaces the last segment of the start URL. */
  lemma ResolveRelative(start: string, href: string)
    requires !StartsWith(href, "/") && !StartsWith(href, "http")
    requires '/' in start
    ensures Resolve(start, href) == start[..|start| - |LastSegment(start)|] + href
  {
    var p := ParentPath(start);
    assert start == p + "/" + LastSegment(start);
    assert start[..|start| - |LastSegment(start)|] == p + "/";
  }

  /** The pieces of `scheme//host...` begin with the scheme, an empty piece and the host. */
  lemma SplitSchemeHost(scheme: string, host: string, path: string, c: char)
    requires c !in scheme && c !in host
    requires path == [] || path[0] == c
    ensures |Split(scheme + [c, c] + host + path, c)| >= 3
    ensures Split(scheme + [c, c] + host + path, c)[..3] == [scheme, [], host]
  {
    var rest := SplitHostPath(host, path, c);
    var u2 := [c] + (host + path);
    var w := scheme + [c, c] + host + path;
    assert w == scheme + [c] + u2 by {
      Regroup(scheme, c, host, path);
    }
    assert Split(u2, c) == [[]] + rest by {
      SplitLeadingSep(host + path, c);
    }
    assert Split(w, c) == [scheme] + ([[]] + rest) by {
      SplitCons(scheme, u2, c);
    }
    FrontThree(Split(w, c), scheme, [], rest);
  }

  /** Two separators written together or one after the other. */
  lemma Regroup(a: string, c: char, b: string, d: string)
    ensures a + [c, c] + b + d == a + [c] + ([c] + (b + d))
  {
  }

  /** The first three entries of `[a] + ([b] + rest)`. */
  lemma FrontThree(x: seq<string>, a: string, b: string, rest: seq<string>)
    requires |rest| > 0 && x == [a] + ([b] + rest)
    ensures |x| >= 3 && x[..3] == [a, b, rest[0]]
  {
  }

  /** A leading separator splits off an empty first piece. */
  lemma SplitLeadingSep(rest: string, c: char)
    ensures Split([c] + rest, c) == [[]] + Split(rest, c)
  {
    assert ([c] + rest)[1..] == rest;
  }

  /** The first piece of `host/...` is the host. */
  lemma SplitHostPath(host: string, path: string, c: char) returns (rest: seq<string>)
    requires c !in host
    requires path == [] || path[0] == c
    ensures rest == Split(host + path, c) && rest[0] == host
  {
    if path == [] {
      SplitFree(host, c);
      assert host + path == host;
    } else {
      assert host + path == host + [c] + path[1..];
      SplitCons(host, path[1..], c);
    }
    rest := Split(host + path, c);
  }

  /** For a URL `scheme//host/...` the origin is `scheme//host`. */
  lemma OriginOf(scheme: string, host: string, path: string)
    requires '/' !in scheme && '/' !in host
    requires path == [] || path[0] == '/'
    ensures Origin(scheme + "//" + host + path) == scheme + "//" + host
  {
    var parts := Split(scheme + "//" + host + path, '/');
    assert scheme + "//" + host + path == scheme + ['/', '/'] + host + path;
    SplitSchemeHost(scheme, host, path, '/');
    var front: seq<string> := [scheme, [], host];
    assert Take(parts, 3) == front;
    assert front[1..] == [[], host];
    assert front[1..][1..] == [host];
    assert Join(front[1..], '/') == [] + "/" + host;
    assert Join(front, '/') == scheme + "/" + ([] + "/" + host);
  }

  /** A root-relative href keeps only scheme and host: for instance
      `https://h/a/b/c.html` with `/record/x.html` gives
      `https://h/record/x.html`, and so for any host and any path. */
  lemma ResolveRootRelativeOf(scheme: string, host: string, path: string, href: string)
    requires '/' !in scheme && '/' !in host
    requires path == [] || path[0] == '/'
    requires StartsWith(href, "/")
    ensures Resolve(scheme + "//" + host + path, href) == scheme + "//" + host + href
  {
    OriginOf(scheme, host, path);
    assert !StartsWith(href, "http") by { assert href[0] == '/'; }
  }

  /** A relative href replaces the page name: for instance
      `https://h/a/b/c.html` with `x.html` gives `https://h/a/b/x.html`,
      and so for any directory and page. */
  lemma ResolveRelativeOf(dir: string, page: string, href: string)
    requires '/' !in page
    requires !StartsWith(href, "/") && !StartsWith(href, "http")
    ensures Resolve(dir + "/" + page, href) == dir + "/" + href
  {
    var url := dir + "/" + page;
    LastSegmentOf(dir, page);
    assert url[|dir|] == '/';
    ResolveRelative(url, href);
    assert url[..|url| - |page|] == dir + "/";
  }

  /** `url.split('/')[-1].replace('.html', '')`: the record id the URL gives. */
  function UrlRecordId(url: string): (id: string)
    ensures '/' !in id
    ensures |id| <= |LastSegment(url)|
    ensures forall k :: 0 <= k < |id| ==> id[k] in LastSegment(url)
  {
    RemoveAllChars(LastSegment(url), ".html");
    RemoveAll(LastSegment(url), ".html")
  }

  /** A page named `seg.html`, possibly followed by a `rest` such as `#top`,
      gives `seg` followed by `rest`, when neither holds a slash or `.html`. */
  lemma UrlRecordIdOfPage(p: string, seg: string, rest: string)
    requires '/' !in seg && !Contains(seg, ".html")
    requires '/' !in rest && !Contains(rest, ".html")
    ensures UrlRecordId(p + "/" + seg + ".html" + rest) == seg + rest
  {
    var last := seg + ".html" + rest;
    assert p + "/" + seg + ".html" + rest == p + "/" + last;
    NoSlashInPage(seg, rest);
    LastSegmentOf(p, last);
    RemoveHtmlSuffix(seg, rest);
    RemoveAllAbsent(rest, ".html");
  }

  /** The name `seg.html` followed by `rest` holds no slash when neither part does. */
  lemma NoSlashInPage(seg: string, rest: string)
    requires '/' !in seg && '/' !in rest
    ensures '/' !in seg + ".html" + rest
  {
    assert '/' !in ".html";
  }

  /** Deleting `.html` from `seg.html` followed by `rest` deletes just that
      one occurrence from the front part: no occurrence of `.html` can
      straddle the end of a `seg` that holds none. */
  lemma {:induction false} RemoveHtmlSuffix(seg: string, rest: string)
    requires !Contains(seg, ".html")
    ensures RemoveAll(seg + ".html" + rest, ".html") == seg + RemoveAll(rest, ".html")
  {
    var pat := ".html";
    var s := seg + pat + rest;
    if |seg| == 0 {
      assert s == pat + rest;
      assert OccursAt(s, pat, 0);
      RemoveAllDrop(s, pat);
      assert s[|pat|..] == rest;
    } else {
      assert !OccursAt(s, pat, 0) by {
        if |seg| >= 5 {
          assert s[..5] == seg[..5];
          assert !OccursAt(seg, pat, 0);
        } else {
          assert s[|seg|] == '.';
          assert pat[|seg|] != '.';
        }
      }
      RemoveAllKeep(s, pat);
      ContainsTail(seg, pat);
      RemoveHtmlSuffix(seg[1..], rest);
      assert s[1..] == seg[1..] + pat + rest;
      assert [seg[0]] + seg[1..] == seg;
    }
  }
}
