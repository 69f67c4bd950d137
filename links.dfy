/**
 * Link discovery: from the hrefs of a page's content element, keep the local
 * ones (same network location, or root-relative), optionally only those
 * matching the domain's post pattern, and drop duplicates.
 */
module Links {
  import opened Wrappers
  import opened Text
  import opened Urls
  import opened Registry

  predicate NoDup(s: seq<string>)
  {
    forall i, j :: 0 <= i < j < |s| ==> s[i] != s[j]
  }

  /**
   * What one href contributes to the local paths of a page on `domain`: its
   * path when its network location is the page's, else the href itself when
   * it starts with '/', else nothing.
   */
  function LocalCandidate(link: string, domain: string): Option<string>
  {
    if Netloc(link) == domain then Some(Path(link))
    else if StartsWith(link, "/") then Some(link)
    else None
  }

  /** The entries an optional path adds to a list: none, or the path itself. */
  function Entries(o: Option<string>): (r: seq<string>)
    ensures |r| <= 1
  {
    if o.Some? then [o.value] else []
  }

  /** The list built by appending, in order, the path each option holds. */
  function Flatten(os: seq<Option<string>>): (r: seq<string>)
    ensures |r| <= |os|
    decreases |os|
  {
    if os == [] then [] else Flatten(os[..|os| - 1]) + Entries(os[|os| - 1])
  }

  /** The flattened list holds exactly the paths some option holds. */
  lemma {:induction false} FlattenMembership(os: seq<Option<string>>, p: string)
    ensures p in Flatten(os) <==> Some(p) in os
    decreases |os|
  {
    if os != [] {
      var n := |os| - 1;
      FlattenMembership(os[..n], p);
      assert os == os[..n] + [os[n]];
    }
  }

  /** What each href yields, in href order. */
  function Candidates(links: seq<string>, domain: string): (r: seq<Option<string>>)
    ensures |r| == |links|
    ensures forall i :: 0 <= i < |links| ==> r[i] == LocalCandidate(links[i], domain)
  {
    seq(|links|, i requires 0 <= i < |links| => LocalCandidate(links[i], domain))
  }

  /** The candidates with those not matching `pattern` turned into nothing. */
  function Filtered(os: seq<Option<string>>, pattern: string, matches: (string, string) -> bool): (r: seq<Option<string>>)
    ensures |r| == |os|
    ensures forall i :: 0 <= i < |os| ==> r[i] == Matching(os[i], pattern, matches)
  {
    seq(|os|, i requires 0 <= i < |os| => Matching(os[i], pattern, matches))
  }

  /** A candidate that survives the pattern filter. */
  function Matching(o: Option<string>, pattern: string, matches: (string, string) -> bool): (r: Option<string>)
    ensures r.Some? <==> o.Some? && matches(o.value, pattern)
    ensures r.Some? ==> r == o
  {
    if o.Some? && matches(o.value, pattern) then o else None
  }

  /** The list `get_local_paths` builds before removing duplicates. */
  function LocalPathsOf(links: seq<string>, domain: string): seq<string>
  {
    Flatten(Candidates(links, domain))
  }

  /** The list `get_regex_local_paths` builds before removing duplicates. */
  function RegexPathsOf(links: seq<string>, domain: string, pattern: string, matches: (string, string) -> bool): seq<string>
  {
    Flatten(Filtered(Candidates(links, domain), pattern, matches))
  }

  /** A path is collected exactly when some href yields it. */
  lemma LocalPathsMembership(links: seq<string>, domain: string, p: string)
    ensures p in LocalPathsOf(links, domain) <==>
            exists i :: 0 <= i < |links| && LocalCandidate(links[i], domain) == Some(p)
  {
    var os := Candidates(links, domain);
    FlattenMembership(os, p);
    if Some(p) in os {
      var i :| 0 <= i < |os| && os[i] == Some(p);
      assert LocalCandidate(links[i], domain) == Some(p);
    }
  }

  /** The pattern filter keeps exactly the local paths that match. */
  lemma RegexPathsMembership(links: seq<string>, domain: string, pattern: string,
                             matches: (string, string) -> bool, p: string)
    ensures p in RegexPathsOf(links, domain, pattern, matches) <==>
            p in LocalPathsOf(links, domain) && matches(p, pattern)
  {
    var os := Candidates(links, domain);
    var fs := Filtered(os, pattern, matches);
    FlattenMembership(os, p);
    FlattenMembership(fs, p);
    if Some(p) in fs {
      var i :| 0 <= i < |fs| && fs[i] == Some(p);
      assert os[i] == Some(p);
    }
    if Some(p) in os && matches(p, pattern) {
      var i :| 0 <= i < |os| && os[i] == Some(p);
      assert fs[i] == Some(p);
    }
  }

  /** On a page with a network location, every local path is empty or starts with '/'. */
  lemma CandidateIsRooted(link: string, domain: string)
    requires domain != []
    requires LocalCandidate(link, domain).Some?
    ensures var p := LocalCandidate(link, domain).value; p == [] || p[0] == '/'
  {
    if Netloc(link) == domain {
      PathIsRooted(link);
    }
  }

  /** The path of a URL with a network location is empty or starts with '/'. */
  lemma PathIsRooted(url: string)
    requires Netloc(url) != []
    ensures Path(url) == [] || Path(url)[0] == '/'
  {
    var rest := AfterScheme(url);
    assert StartsWith(rest, "//");
    var host := Until(rest[2..], NetlocStops);
    UntilShape(rest[2..], NetlocStops);
    var tail := rest[2 + |host|..];
    assert tail == [] || tail[0] in NetlocStops by {
      assert |host| == |rest[2..]| || rest[2..][|host|] in NetlocStops;
    }
    var p := Until(tail, PathStops);
    assert p == Path(url);
    UntilShape(tail, PathStops);
    if p != [] {
      assert p[0] == tail[0] && p[0] !in PathStops;
    }
  }

  /** A scheme-relative href to another host still enters, whole, as a root-relative path. */
  lemma SchemeRelativeOtherHostKept()
    ensures LocalPathsOf(["//other.com/x"], "example.com") == ["//other.com/x"]
  {
    SingleHref("//other.com/x", "example.com");
    SchemeRelativeExample();
    assert StartsWith("//other.com/x", "/");
  }

  /** A page with one href collects what that href yields. */
  lemma SingleHref(link: string, domain: string)
    ensures LocalPathsOf([link], domain) == Entries(LocalCandidate(link, domain))
  {
    var os := Candidates([link], domain);
    assert os == [LocalCandidate(link, domain)];
    assert os[..0] == [];
  }

  /** A relative href such as "about" is dropped on a page with a network location. */
  lemma RelativeHrefDropped(link: string, domain: string)
    requires domain != []
    requires !StartsWith(link, "/") && ':' !in link
    ensures LocalCandidate(link, domain) == None
  {
    NoSlashesNoNetloc(link);
  }

  /** `list(set(xs))`: every distinct element once, in an order the model leaves open. */
  method ListOfSet(xs: seq<string>) returns (r: seq<string>)
    ensures NoDup(r)
    ensures forall x :: x in r <==> x in xs
  {
    var remaining := set x | x in xs;
    r := [];
    while remaining != {}
      invariant NoDup(r)
      invariant forall x :: x in r ==> x in xs && x !in remaining
      invariant forall x :: x in xs ==> x in r || x in remaining
      invariant forall x :: x in remaining ==> x in xs
      decreases |remaining|
    {
      var x :| x in remaining;
      r := r + [x];
      remaining := remaining - {x};
    }
  }

  /** `get_local_paths`: the distinct local paths of the page's hrefs. */
  method GetLocalPaths(links: seq<string>, url: string) returns (paths: seq<string>)
    ensures NoDup(paths)
    ensures forall p :: p in paths <==> p in LocalPathsOf(links, Netloc(url))
  {
    var domainName := Netloc(url);
    var localPaths := CollectLocalPaths(links, domainName);
    paths := ListOfSet(localPaths);
  }

  /** The loop of `get_local_paths`, over the page's domain. */
  method CollectLocalPaths(links: seq<string>, domainName: string) returns (localPaths: seq<string>)
    ensures localPaths == LocalPathsOf(links, domainName)
  {
    localPaths := [];
    ghost var os := Candidates(links, domainName);
    for i := 0 to |links|
      invariant localPaths == Flatten(os[..i])
    {
      var link := links[i];
      var linkDomain := Netloc(link);
      assert os[..i + 1][..i] == os[..i];
      assert Flatten(os[..i + 1]) == Flatten(os[..i]) + Entries(os[i]);
      if linkDomain == domainName {
        var path := Path(link);
        assert os[i] == Some(path);
        localPaths := localPaths + [path];
      } else if StartsWith(link, "/") {
        assert os[i] == Some(link);
        localPaths := localPaths + [link];
      } else {
        assert os[i] == None;
      }
    }
    assert os[..|links|] == os;
  }

  /** `get_regex_local_paths`: the distinct local paths that match the domain's pattern. */
  method GetRegexLocalPaths(links: seq<string>, url: string, reg: Registry, matches: (string, string) -> bool)
    returns (paths: seq<string>)
    ensures NoDup(paths)
    ensures forall p :: p in paths <==>
              p in RegexPathsOf(links, Netloc(url), RegexPattern(reg, Netloc(url)), matches)
  {
    var domainName := Netloc(url);
    var regex := RegexPattern(reg, domainName);
    var localPaths := CollectRegexPaths(links, domainName, regex, matches);
    paths := ListOfSet(localPaths);
  }

  /** The loop of `get_regex_local_paths`, over the page's domain and pattern. */
  method CollectRegexPaths(links: seq<string>, domainName: string, regex: string, matches: (string, string) -> bool)
    returns (localPaths: seq<string>)
    ensures localPaths == RegexPathsOf(links, domainName, regex, matches)
  {
    localPaths := [];
    ghost var os := Candidates(links, domainName);
    ghost var fs := Filtered(os, regex, matches);
    for i := 0 to |links|
      invariant localPaths == Flatten(fs[..i])
    {
      var link := links[i];
      var linkDomain := Netloc(link);
      assert fs[i] == Matching(os[i], regex, matches);
      assert fs[..i + 1][..i] == fs[..i];
      assert Flatten(fs[..i + 1]) == Flatten(fs[..i]) + Entries(fs[i]);
      if linkDomain == domainName {
        var path := Path(link);
        assert os[i] == Some(path);
        if matches(path, regex) {
          localPaths := localPaths + [path];
        }
      } else if StartsWith(link, "/") {
        assert os[i] == Some(link);
        if matches(link, regex) {
          localPaths := localPaths + [link];
        }
      } else {
        assert os[i] == None;
      }
    }
    assert fs[..|links|] == fs;
  }

  /** The pattern-filtered paths are among the unfiltered ones, and match the pattern. */
  lemma RegexPathsAreLocal(links: seq<string>, domain: string, pattern: string, matches: (string, string) -> bool)
    ensures forall p :: p in RegexPathsOf(links, domain, pattern, matches) ==>
              p in LocalPathsOf(links, domain) && matches(p, pattern)
  {
    forall p | p in RegexPathsOf(links, domain, pattern, matches)
      ensures p in LocalPathsOf(links, domain) && matches(p, pattern)
    {
      RegexPathsMembership(links, domain, pattern, matches, p);
    }
  }
}
