/**
 The string logic of `get_record_links` (netsuite_scraper.py:94-155):
 choose the navigation container, keep the anchors whose href looks like
 a record page, resolve each against the start URL and drop duplicates.

 The parsed start page is given as the hrefs of all its anchors that carry
 an `href` attribute, in document order, and the candidate containers
 (every `nav`, `aside` and `div` element, in document order) with their
 class tokens and the hrefs of the anchors inside them.
 */
module Links {
  import opened Options
  import opened Text
  import opened Seqs
  import opened Urls

  /** A candidate navigation container. */
  datatype Container = Container(tag: string, classes: seq<string>, hrefs: seq<string>)

  /** The parsed start page. */
  datatype LinkPage = LinkPage(hrefs: seq<string>, containers: seq<Container>)

  /** Class-name fragments that mark a `div` as navigation (netsuite_scraper.py:107). */
  const NavTokens: seq<string> := ["nav", "sidebar", "menu", "toc"]

  predicate IsNavTag(c: Container) {
    c.tag == "nav"
  }

  predicate IsAsideTag(c: Container) {
    c.tag == "aside"
  }

  /** One class token, lower-cased, contains one of the navigation fragments. */
  predicate IsNavClass(cls: string) {
    exists k :: 0 <= k < |NavTokens| && Contains(Lower(cls), NavTokens[k])
  }

  /** A `div` with a navigation-like class. */
  predicate IsNavDiv(c: Container) {
    c.tag == "div" && exists k :: 0 <= k < |c.classes| && IsNavClass(c.classes[k])
  }

  /** Any of the three kinds of navigation container. */
  predicate IsNavContainer(c: Container) {
    IsNavTag(c) || IsAsideTag(c) || IsNavDiv(c)
  }

  /** `soup.find('nav') or soup.find('aside') or soup.find('div', class_=...)`
      (netsuite_scraper.py:104-108). */
  function FindNav(cs: seq<Container>): (r: Option<Container>)
    ensures r.None? <==> forall i :: 0 <= i < |cs| ==> !IsNavContainer(cs[i])
    ensures r.Some? ==> IsNavContainer(r.value) && r.value in cs
  {
    match FirstFrom(cs, 0, IsNavTag)
    case Some(i) => Some(cs[i])
    case None =>
      match FirstFrom(cs, 0, IsAsideTag)
      case Some(i) => Some(cs[i])
      case None =>
        match FirstFrom(cs, 0, IsNavDiv)
        case Some(i) => Some(cs[i])
        case None => None
  }

  /** The first `nav` wins; failing that the first `aside`; failing that the
      first navigation-like `div`. */
  lemma FindNavSpec(cs: seq<Container>)
    ensures forall i :: IsFirstFrom(cs, 0, IsNavTag, i) ==> FindNav(cs) == Some(cs[i])
    ensures (forall j :: 0 <= j < |cs| ==> !IsNavTag(cs[j])) ==>
              forall i :: IsFirstFrom(cs, 0, IsAsideTag, i) ==> FindNav(cs) == Some(cs[i])
    ensures (forall j :: 0 <= j < |cs| ==> !IsNavTag(cs[j]) && !IsAsideTag(cs[j])) ==>
              forall i :: IsFirstFrom(cs, 0, IsNavDiv, i) ==> FindNav(cs) == Some(cs[i])
  {
    forall i | IsFirstFrom(cs, 0, IsNavTag, i) ensures FindNav(cs) == Some(cs[i]) {
      FirstFromUnique(cs, 0, IsNavTag, i);
    }
    forall i | IsFirstFrom(cs, 0, IsAsideTag, i) && (forall j :: 0 <= j < |cs| ==> !IsNavTag(cs[j]))
      ensures FindNav(cs) == Some(cs[i])
    {
      FirstFromUnique(cs, 0, IsAsideTag, i);
    }
    forall i | IsFirstFrom(cs, 0, IsNavDiv, i) && (forall j :: 0 <= j < |cs| ==> !IsNavTag(cs[j]) && !IsAsideTag(cs[j]))
      ensures FindNav(cs) == Some(cs[i])
    {
      FirstFromUnique(cs, 0, IsNavDiv, i);
    }
  }

  /** The whole-page filter (netsuite_scraper.py:119): a non-empty href
      containing `/record/` and ending in `.html`. */
  predicate IsRecordHref(href: string)
    ensures IsRecordHref(href) ==> IsNavHref(href)
  {
    assert EndsWith(href, ".html") ==> OccursAt(href, ".html", |href| - 5);
    href != [] && Contains(href, "/record/") && EndsWith(href, ".html")
  }

  /** The navigation filter (netsuite_scraper.py:141): a non-empty href
      containing `.html`. */
  predicate IsNavHref(href: string)
    ensures EndsWith(href, ".html") ==> IsNavHref(href)
  {
    assert EndsWith(href, ".html") ==> OccursAt(href, ".html", |href| - 5);
    href != [] && Contains(href, ".html")
  }

  /** The resolved URLs of the hrefs that `keep` accepts, in order: a URL
      is collected exactly when some accepted href resolves to it. */
  function ResolveKept(start: string, hrefs: seq<string>, keep: string -> bool): (r: seq<string>)
    ensures |r| <= |hrefs|
    ensures forall u :: u in r <==> exists k :: 0 <= k < |hrefs| && keep(hrefs[k]) && Resolve(start, hrefs[k]) == u
  {
    FilterMapMembers(hrefs, h => if keep(h) then Some(Resolve(start, h)) else None);
    FilterMap(hrefs, h => if keep(h) then Some(Resolve(start, h)) else None)
  }

  /** `get_record_links` after the page is parsed: when a navigation
      container exists only its anchors are scanned, otherwise every anchor
      of the page, and the resolved URLs are de-duplicated. */
  function GetRecordLinks(page: LinkPage, start: string): (links: seq<string>)
    ensures NoDuplicates(links)
  {
    match FindNav(page.containers)
    case Some(c) => Dedup(ResolveKept(start, c.hrefs, IsNavHref))
    case None => Dedup(ResolveKept(start, page.hrefs, IsRecordHref))
  }

  /** With no navigation container a
      URL is among them exactly when some anchor of the page has a record
      href resolving to it; with one, exactly when some anchor of that
      container has an `.html` href resolving to it. */
  lemma GetRecordLinksSpec(page: LinkPage, start: string)
    ensures (forall i :: 0 <= i < |page.containers| ==> !IsNavContainer(page.containers[i])) ==>
              forall u :: u in GetRecordLinks(page, start) <==>
                exists k :: 0 <= k < |page.hrefs| && IsRecordHref(page.hrefs[k]) && Resolve(start, page.hrefs[k]) == u
    ensures forall c :: FindNav(page.containers) == Some(c) ==>
              forall u :: u in GetRecordLinks(page, start) <==>
                exists k :: 0 <= k < |c.hrefs| && IsNavHref(c.hrefs[k]) && Resolve(start, c.hrefs[k]) == u
  {
    FindNavSpec(page.containers);
    var r := GetRecordLinks(page, start);
    match FindNav(page.containers)
    case Some(c) =>
      var all := ResolveKept(start, c.hrefs, IsNavHref);
      assert forall u :: u in r <==> u in all;
    case None =>
      var all := ResolveKept(start, page.hrefs, IsRecordHref);
      assert forall u :: u in r <==> u in all;
  }

  /** Once a navigation container is found, the anchors elsewhere on the
      page play no part: the two passes are never combined. */
  lemma NavPassIgnoresPage(page: LinkPage, other: seq<string>, start: string)
    requires FindNav(page.containers).Some?
    ensures GetRecordLinks(page, start) == GetRecordLinks(LinkPage(other, page.containers), start)
  {
  }

  /** Every link returned names an HTML page: both filters demand `.html`,
      and resolution keeps the href as the link's tail. */
  lemma LinksArePages(page: LinkPage, start: string)
    ensures forall k :: 0 <= k < |GetRecordLinks(page, start)| ==> Contains(GetRecordLinks(page, start)[k], ".html")
  {
    match FindNav(page.containers)
    case Some(c) =>
      var all := ResolveKept(start, c.hrefs, IsNavHref);
      forall u | u in all ensures Contains(u, ".html") {
        var j :| 0 <= j < |c.hrefs| && IsNavHref(c.hrefs[j]) && Resolve(start, c.hrefs[j]) == u;
        ContainsSuffix(u, c.hrefs[j], ".html");
      }
    case None =>
      var all := ResolveKept(start, page.hrefs, IsRecordHref);
      forall u | u in all ensures Contains(u, ".html") {
        var j :| 0 <= j < |page.hrefs| && IsRecordHref(page.hrefs[j]) && Resolve(start, page.hrefs[j]) == u;
        ContainsSuffix(u, page.hrefs[j], ".html");
      }
  }
}
