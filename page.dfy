/**
 * One page visit: `fetch_links_words` turns a fetched page into the URLs to
 * crawl next and its cleaned words; `parse_blog_post` collects the cleaned
 * words of one post. The HTTP response is given as its status and the
 * parsed page's `find`.
 */
module Page {
  import opened Wrappers
  import opened Text
  import opened Words
  import opened Urls
  import opened Registry
  import opened Links

  /** What `fetch_links_words` returns: the URLs to visit next and the page's kept words. */
  datatype PageResult = PageResult(links: set<string>, words: seq<string>)

  /** The URL the crawler builds for a local path found on `domain`. */
  function PageUrl(domain: string, path: string): string
  {
    "http://" + domain + path
  }

  /** The set of URLs built from the local paths, one per distinct path. */
  function ToScrape(domain: string, paths: seq<string>): (r: set<string>)
    ensures |r| <= |paths|
  {
    if paths == [] then {}
    else ToScrape(domain, paths[..|paths| - 1]) + {PageUrl(domain, paths[|paths| - 1])}
  }

  /** A URL is built exactly when it comes from one of the paths. */
  lemma {:induction false} ToScrapeMembership(domain: string, paths: seq<string>, u: string)
    ensures u in ToScrape(domain, paths) <==> exists p :: p in paths && u == PageUrl(domain, p)
    decreases |paths|
  {
    if paths != [] {
      var n := |paths| - 1;
      ToScrapeMembership(domain, paths[..n], u);
      assert paths == paths[..n] + [paths[n]];
    }
  }

  /**
   * Every URL built from the local paths of a page with a network location is
   * on that same network location.
   */
  lemma ToScrapeStaysOnHost(links: seq<string>, domain: string, pattern: string,
                            matches: (string, string) -> bool, paths: seq<string>, u: string)
    requires domain != [] && Clean(domain, NetlocStops)
    requires forall p :: p in paths ==> p in RegexPathsOf(links, domain, pattern, matches)
    requires u in ToScrape(domain, paths)
    ensures Netloc(u) == domain
  {
    ToScrapeMembership(domain, paths, u);
    var p :| p in paths && u == PageUrl(domain, p);
    RegexPathsMembership(links, domain, pattern, matches, p);
    LocalPathsMembership(links, domain, p);
    var i :| 0 <= i < |links| && LocalCandidate(links[i], domain) == Some(p);
    CandidateIsRooted(links[i], domain);
    BuiltUrlNetloc(domain, p);
  }

  /** The URLs `fetch_links_words` collects from the element `e` found on `url`. */
  function VisitLinks(url: string, e: Element, reg: Registry, matches: (string, string) -> bool): set<string>
  {
    set p | p in RegexPathsOf(e.hrefs, Netloc(url), RegexPattern(reg, Netloc(url)), matches) :: PageUrl(Netloc(url), p)
  }

  /** Every URL collected on a page with a network location is on that network location. */
  lemma VisitLinksStayOnHost(url: string, e: Element, reg: Registry, matches: (string, string) -> bool, u: string)
    requires Netloc(url) != []
    requires u in VisitLinks(url, e, reg, matches)
    ensures Netloc(u) == Netloc(url)
  {
    var domain := Netloc(url);
    var pattern := RegexPattern(reg, domain);
    PartsClean(url);
    var p :| p in RegexPathsOf(e.hrefs, domain, pattern, matches) && u == PageUrl(domain, p);
    RegexPathsMembership(e.hrefs, domain, pattern, matches, p);
    LocalPathsMembership(e.hrefs, domain, p);
    var i :| 0 <= i < |e.hrefs| && LocalCandidate(e.hrefs[i], domain) == Some(p);
    CandidateIsRooted(e.hrefs[i], domain);
    BuiltUrlNetloc(domain, p);
  }

  /** The URLs built from exactly the matching local paths, in any order, are the page's collected URLs. */
  lemma ToScrapeIsVisitLinks(url: string, e: Element, reg: Registry, matches: (string, string) -> bool,
                             paths: seq<string>)
    requires forall p :: p in paths <==>
               p in RegexPathsOf(e.hrefs, Netloc(url), RegexPattern(reg, Netloc(url)), matches)
    ensures ToScrape(Netloc(url), paths) == VisitLinks(url, e, reg, matches)
  {
    forall u ensures u in ToScrape(Netloc(url), paths) <==> u in VisitLinks(url, e, reg, matches) {
      ToScrapeMembership(Netloc(url), paths, u);
    }
  }

  /**
   * `fetch_links_words`: find the content element, collect the local paths
   * matching the domain's pattern, build their URLs, and clean the element's
   * words. The response status is not consulted. A registry rule without a
   * class raises `KeyError`; a content element that is not found makes
   * `parse_links` call `find_all` on `None`, an `AttributeError`. Any found
   * element passes the `if html_soup` test, so its `else` branch, which
   * would leave the cleaned words unassigned, is never taken.
   */
  method FetchLinksWords(url: string, find: Selector -> Option<Element>, reg: Registry,
                         matches: (string, string) -> bool, pkgStopWords: seq<string>)
    returns (r: Result<PageResult>)
    ensures GetContentData(reg, find, url).Err? ==> r == Err(GetContentData(reg, find, url).error)
    ensures GetContentData(reg, find, url) == Ok(None) ==> r.Err? && r.error.AttributeError?
    ensures GetContentData(reg, find, url).Ok? && GetContentData(reg, find, url).value.Some? ==>
              var e := GetContentData(reg, find, url).value.value;
              var domain := Netloc(url);
              && r.Ok?
              && r.value.words == KeptWords(e.tokens, MyStopWords, pkgStopWords)
              && r.value.links == VisitLinks(url, e, reg, matches)
              && (forall u :: u in r.value.links <==>
                    exists p :: p in RegexPathsOf(e.hrefs, domain, RegexPattern(reg, domain), matches) &&
                                u == PageUrl(domain, p))
              && (domain != [] ==> forall u :: u in r.value.links ==> Netloc(u) == domain)
  {
    var content := GetContentData(reg, find, url);
    if content.Err? {
      return Err(content.error);
    }
    if content.value.None? {
      return Err(AttributeError("'NoneType' object has no attribute 'find_all'"));
    }
    var htmlSoup := content.value.value;
    var localPaths := GetRegexLocalPaths(htmlSoup.hrefs, url, reg, matches);
    var domainName := Netloc(url);
    var toScrape := ToScrape(domainName, localPaths);
    var cleanWords := CleanUpWords(htmlSoup.tokens, pkgStopWords);
    ToScrapeIsVisitLinks(url, htmlSoup, reg, matches, localPaths);
    if domainName != [] {
      forall u | u in toScrape ensures Netloc(u) == domainName {
        VisitLinksStayOnHost(url, htmlSoup, reg, matches, u);
      }
    }
    return Ok(PageResult(toScrape, cleanWords));
  }

  /** The success test as written: `status in range(200, 299)`, which stops at 298. */
  predicate StatusOkAsWritten(status: int)
  {
    200 <= status < 299
  }

  /** The success test evidently meant: any 2xx status. */
  predicate IsSuccess(status: int)
  {
    200 <= status < 300
  }

  /** The test as written rejects 299, a 2xx status. */
  lemma StatusOkAsWrittenMisses299()
    ensures !StatusOkAsWritten(299) && 299 / 100 == 2
  {
  }

  /** The corrected test accepts exactly the statuses whose hundreds digit is 2. */
  lemma IsSuccessIsTwoHundreds(status: int)
    ensures IsSuccess(status) <==> status / 100 == 2
  {
  }

  /** The two tests differ on 299 alone. */
  lemma StatusTestsDifferOnlyAt299(status: int)
    ensures StatusOkAsWritten(status) != IsSuccess(status) <==> status == 299
  {
  }

  /**
   * The part of `parse_blog_post` after its status test: the cleaned words of
   * the content element of "http://" + domain + path; a content element that
   * is not found is an `AttributeError` on `None.text`.
   */
  function PostWords(path: string, url: string, find: Selector -> Option<Element>,
                     reg: Registry, pkgStopWords: seq<string>): (r: Result<seq<string>>)
    ensures r.Ok? <==> GetContentData(reg, find, PageUrl(Netloc(url), path)).Ok? &&
                       GetContentData(reg, find, PageUrl(Netloc(url), path)).value.Some?
    ensures GetContentData(reg, find, PageUrl(Netloc(url), path)) == Ok(None) ==> r.Err? && r.error.AttributeError?
    ensures r.Ok? ==>
              r.value == KeptWords(GetContentData(reg, find, PageUrl(Netloc(url), path)).value.value.tokens,
                                   MyStopWords, pkgStopWords)
  {
    match GetContentData(reg, find, PageUrl(Netloc(url), path))
    case Err(e) => Err(e)
    case Ok(None) => Err(AttributeError("'NoneType' object has no attribute 'text'"))
    case Ok(Some(e)) => Ok(KeptWords(e.tokens, MyStopWords, pkgStopWords))
  }

  /**
   * `parse_blog_post` as written: when the status fails `range(200, 299)`
   * nothing is assigned to the result, an `UnboundLocalError`.
   */
  function ParseBlogPost(path: string, url: string, status: int, find: Selector -> Option<Element>,
                         reg: Registry, pkgStopWords: seq<string>): (r: Result<seq<string>>)
    ensures !StatusOkAsWritten(status) ==> r == Err(UnboundLocalError("clean_words"))
    ensures r.Ok? <==> StatusOkAsWritten(status) && GetContentData(reg, find, PageUrl(Netloc(url), path)).Ok? &&
                       GetContentData(reg, find, PageUrl(Netloc(url), path)).value.Some?
    ensures r.Ok? ==>
              r.value == KeptWords(GetContentData(reg, find, PageUrl(Netloc(url), path)).value.value.tokens,
                                   MyStopWords, pkgStopWords)
  {
    if !StatusOkAsWritten(status) then Err(UnboundLocalError("clean_words"))
    else PostWords(path, url, find, reg, pkgStopWords)
  }

  /** `parse_blog_post` with the status test it evidently means: every 2xx status. */
  function ParseBlogPostCorrected(path: string, url: string, status: int, find: Selector -> Option<Element>,
                                  reg: Registry, pkgStopWords: seq<string>): (r: Result<seq<string>>)
    ensures !IsSuccess(status) ==> r == Err(UnboundLocalError("clean_words"))
    ensures r.Ok? <==> status / 100 == 2 && GetContentData(reg, find, PageUrl(Netloc(url), path)).Ok? &&
                       GetContentData(reg, find, PageUrl(Netloc(url), path)).value.Some?
    ensures r.Ok? ==>
              r.value == KeptWords(GetContentData(reg, find, PageUrl(Netloc(url), path)).value.value.tokens,
                                   MyStopWords, pkgStopWords)
  {
    IsSuccessIsTwoHundreds(status);
    if !IsSuccess(status) then Err(UnboundLocalError("clean_words"))
    else PostWords(path, url, find, reg, pkgStopWords)
  }

  /** A found post served with status 299 is lost as written and read when corrected. */
  lemma ParseBlogPostRejects299(path: string, url: string, find: Selector -> Option<Element>,
                                reg: Registry, pkgStopWords: seq<string>)
    requires GetContentData(reg, find, PageUrl(Netloc(url), path)).Ok?
    requires GetContentData(reg, find, PageUrl(Netloc(url), path)).value.Some?
    ensures ParseBlogPost(path, url, 299, find, reg, pkgStopWords) == Err(UnboundLocalError("clean_words"))
    ensures ParseBlogPostCorrected(path, url, 299, find, reg, pkgStopWords).Ok?
  {
    StatusOkAsWrittenMisses299();
  }

  /** On every other status the written and corrected versions agree. */
  lemma ParseBlogPostAgreesOff299(path: string, url: string, status: int, find: Selector -> Option<Element>,
                                  reg: Registry, pkgStopWords: seq<string>)
    requires status != 299
    ensures ParseBlogPost(path, url, status, find, reg, pkgStopWords) ==
            ParseBlogPostCorrected(path, url, status, find, reg, pkgStopWords)
  {
    StatusTestsDifferOnlyAt299(status);
  }
}
