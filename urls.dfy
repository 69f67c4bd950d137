/**
 * URL handling: the two parts of Python's `urlparse` the crawler reads
 * (`netloc` and `path`), and the entry normalisation `append_http` /
 * `validate_url`.
 */
module Urls {
  import opened Wrappers
  import opened Text

  /** The longest prefix of `s` holding no character of `stops`. */
  function Until(s: string, stops: set<char>): (r: string)
    ensures |r| <= |s|
    decreases |s|
  {
    if s == [] || s[0] in stops then [] else [s[0]] + Until(s[1..], stops)
  }

  /** `Until` keeps a prefix free of `stops` and ends at the input's end or at a stop. */
  lemma {:induction false} UntilShape(s: string, stops: set<char>)
    ensures var r := Until(s, stops);
      && r == s[..|r|]
      && Clean(r, stops)
      && (|r| == |s| || s[|r|] in stops)
    decreases |s|
  {
    if s != [] && s[0] !in stops {
      UntilShape(s[1..], stops);
      var r := Until(s, stops);
      forall i | 0 <= i < |r| ensures r[i] !in stops {
        if i > 0 {
          assert r[i] == Until(s[1..], stops)[i - 1];
        }
      }
    }
  }

  predicate IsAsciiLetter(c: char)
  {
    'a' <= c <= 'z' || 'A' <= c <= 'Z'
  }

  /** The characters a URL scheme may hold: letters, digits, '+', '-' and '.'. */
  predicate IsSchemeChar(c: char)
  {
    IsAsciiLetter(c) || '0' <= c <= '9' || c == '+' || c == '-' || c == '.'
  }

  /** Every character of `s` may appear in a scheme. */
  predicate AllSchemeChars(s: string)
  {
    s == [] || (IsSchemeChar(s[0]) && AllSchemeChars(s[1..]))
  }

  /**
   * The URL with its scheme and the ':' after it removed. The scheme is what
   * precedes the first ':', provided it is non-empty, starts with a letter
   * and holds only scheme characters; otherwise there is no scheme.
   */
  function AfterScheme(url: string): (r: string)
    ensures |r| <= |url| && r == url[|url| - |r|..]
  {
    var scheme := Until(url, {':'});
    if 0 < |scheme| < |url| && IsAsciiLetter(url[0]) && AllSchemeChars(scheme)
    then url[|scheme| + 1..]
    else url
  }

  /** Delimiters that end the network location. */
  const NetlocStops: set<char> := {'/', '?', '#'}

  /** Delimiters that end the path: the query and the fragment. */
  const PathStops: set<char> := {'?', '#'}

  /** `urlparse(url).netloc`: after "//", up to the first '/', '?' or '#'. */
  function Netloc(url: string): string
  {
    var rest := AfterScheme(url);
    if StartsWith(rest, "//") then Until(rest[2..], NetlocStops) else []
  }

  /** `urlparse(url).path`: what follows the network location, up to a '?' or '#'. */
  function Path(url: string): string
  {
    var rest := AfterScheme(url);
    var tail := if StartsWith(rest, "//") then rest[2 + |Until(rest[2..], NetlocStops)|..] else rest;
    Until(tail, PathStops)
  }

  /** A string free of the characters that delimit a part of the URL it is placed in. */
  predicate Clean(s: string, stops: set<char>)
  {
    forall i :: 0 <= i < |s| ==> s[i] !in stops
  }

  /** The network location holds no '/', '?' or '#', and the path no '?' or '#'. */
  lemma PartsClean(url: string)
    ensures Clean(Netloc(url), NetlocStops)
    ensures Clean(Path(url), PathStops)
  {
    var rest := AfterScheme(url);
    if StartsWith(rest, "//") {
      UntilShape(rest[2..], NetlocStops);
      UntilShape(rest[2 + |Until(rest[2..], NetlocStops)|..], PathStops);
    } else {
      UntilShape(rest, PathStops);
    }
  }

  lemma UntilWhole(s: string, t: string, stops: set<char>)
    requires Clean(s, stops)
    requires t == [] || t[0] in stops
    ensures Until(s + t, stops) == s
    decreases |s|
  {
    if s != [] {
      UntilWhole(s[1..], t, stops);
      assert (s + t)[1..] == s[1..] + t;
    }
  }

  lemma HttpScheme(rest: string)
    ensures AfterScheme("http:" + rest) == rest
  {
    var url := "http:" + rest;
    UntilWhole("http", ":" + rest, {':'});
    assert url == "http" + (":" + rest);
    var scheme := Until(url, {':'});
    assert scheme == "http";
    assert AllSchemeChars(scheme);
  }

  /**
   * Parsing a URL the crawler builds, "http://" + domain + path, gives back
   * the domain as its network location, provided the domain holds no
   * delimiter and the path is empty or starts with '/'.
   */
  lemma BuiltUrlNetloc(domain: string, path: string)
    requires Clean(domain, NetlocStops)
    requires path == [] || path[0] == '/'
    ensures Netloc("http://" + domain + path) == domain
  {
    var url := "http://" + domain + path;
    assert url == "http:" + ("//" + domain + path);
    HttpScheme("//" + domain + path);
    var rest := "//" + domain + path;
    assert rest[2..] == domain + path;
    UntilWhole(domain, path, NetlocStops);
  }

  /** ... and gives back the path too when the path holds no '?' or '#'. */
  lemma BuiltUrlPath(domain: string, path: string)
    requires Clean(domain, NetlocStops)
    requires Clean(path, PathStops)
    requires path == [] || path[0] == '/'
    ensures Path("http://" + domain + path) == path
  {
    var url := "http://" + domain + path;
    assert url == "http:" + ("//" + domain + path);
    HttpScheme("//" + domain + path);
    var rest := "//" + domain + path;
    assert rest[2..] == domain + path;
    UntilWhole(domain, path, NetlocStops);
    assert rest[2 + |domain|..] == path;
    UntilWhole(path, [], PathStops);
    assert path + [] == path;
  }

  /**
   * A scheme-relative reference has the host after "//" as its network
   * location, port included: a leading '/' is not a scheme character, so no
   * scheme is taken off.
   */
  lemma {:induction false} SchemeRelativeParts(host: string, path: string)
    requires Clean(host, NetlocStops) && Clean(path, PathStops)
    requires path == [] || path[0] == '/'
    ensures Netloc("//" + host + path) == host
    ensures Path("//" + host + path) == path
  {
    var url := "//" + host + path;
    assert AfterScheme(url) == url;
    assert url[2..] == host + path;
    UntilWhole(host, path, NetlocStops);
    assert url[2 + |host|..] == path;
    UntilWhole(path, [], PathStops);
    assert path + [] == path;
  }

  /** The href "//other.com/x" has "other.com" as its network location. */
  lemma SchemeRelativeExample()
    ensures Netloc("//other.com/x") == "other.com"
  {
    SchemeRelativeLiterals();
    SchemeRelativeParts("other.com", "/x");
  }

  lemma SchemeRelativeLiterals()
    ensures Clean("other.com", NetlocStops) && Clean("/x", PathStops)
    ensures "//" + "other.com" + "/x" == "//other.com/x"
  {
  }

  /** A port after the host stays part of the network location. */
  lemma SchemeRelativePortExample()
    ensures Netloc("//other.com:8080/x") == "other.com:8080"
  {
    PortLiterals();
    SchemeRelativeParts("other.com:8080", "/x");
  }

  lemma PortLiterals()
    ensures Clean("other.com:8080", NetlocStops) && Clean("/x", PathStops)
    ensures "//" + "other.com:8080" + "/x" == "//other.com:8080/x"
  {
  }

  /** A root-relative or relative reference has no network location. */
  lemma NoSlashesNoNetloc(url: string)
    requires !StartsWith(url, "//")
    requires ':' !in url
    ensures Netloc(url) == []
  {
    UntilWhole(url, [], {':'});
    assert url + [] == url;
  }

  lemma StartsWithSplit(s: string, a: string, b: string)
    ensures StartsWith(s, a + b) <==> StartsWith(s, a) && StartsWith(s[|a|..], b)
  {
    if StartsWith(s, a + b) {
      assert s[..|a|] == (a + b)[..|a|] == a;
      assert s[|a|..][..|b|] == s[..|a + b|][|a|..] == b;
    }
    if StartsWith(s, a) && StartsWith(s[|a|..], b) {
      assert s[..|a + b|] == s[..|a|] + s[|a|..][..|b|];
    }
  }

  /** `append_http`: prefix "http://" unless the input already starts with "http". */
  function AppendHttp(url: string): (r: string)
    ensures StartsWith(r, "http")
    ensures StartsWith(url, "http") ==> r == url
    ensures !StartsWith(url, "http") ==> StartsWith(r, "http://") && r[7..] == url
  {
    if StartsWith(url, "http") then url else "http://" + url
  }

  lemma AppendHttpIdempotent(url: string)
    ensures AppendHttp(AppendHttp(url)) == AppendHttp(url)
  {
  }

  /**
   * The regular expression `^https?://`: "http", an optional "s", then "://",
   * at the start of the string.
   */
  predicate MatchesHttpScheme(url: string)
  {
    StartsWith(url, "http") && (StartsWith(url[4..], "://") || StartsWith(url[4..], "s://"))
  }

  /** `validate_url`: the URL itself when it starts with "http://" or "https://", else `ValueError`. */
  function ValidateUrl(url: string): (r: Result<string>)
    ensures r.Ok? <==> StartsWith(url, "http://") || StartsWith(url, "https://")
    ensures r.Ok? ==> r.value == url
    ensures r.Err? ==> r.error.ValueError?
  {
    StartsWithSplit(url, "http", "://");
    StartsWithSplit(url, "http", "s://");
    assert "http" + "://" == "http://" && "http" + "s://" == "https://";
    if MatchesHttpScheme(url) then Ok(url)
    else Err(ValueError("This url does not start with http:// or https://"))
  }

  /** Whatever is typed without an "http" prefix is accepted once `append_http` has run. */
  lemma AppendedIsValid(url: string)
    requires !StartsWith(url, "http")
    ensures ValidateUrl(AppendHttp(url)) == Ok("http://" + url)
  {
  }

  /** A host name beginning with "http" gets no scheme and is then rejected. */
  lemma HttpNamedHostRejected()
    ensures AppendHttp("httpbin.org") == "httpbin.org"
    ensures ValidateUrl(AppendHttp("httpbin.org")).Err?
  {
    assert "httpbin.org"[4] != ':' && "httpbin.org"[4] != 's';
  }
}
