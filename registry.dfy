/**
 * The domain rule registry `saved_domains`, and the lookups that read it:
 * which element of a page holds its content, and which pattern a local path
 * must match to be followed.
 */
module Registry {
  import opened Wrappers
  import opened Text
  import opened Urls

  /**
   * One registry entry, a dictionary with the optional keys "tag", "class"
   * and "regex". The unregistered case reads as the empty dictionary.
   */
  datatype Rule = Rule(tag: Option<string>, cls: Option<string>, regex: Option<string>)

  const EmptyRule: Rule := Rule(None, None, None)

  type Registry = map<string, Rule>

  /** The three registered domains, with their content element and post pattern. */
  const SavedDomains: Registry := map[
    "tim.blog" := Rule(Some("div"), Some("content-area"), Some(TimBlogPattern)),
    "a-blog-of-interest.com" := Rule(Some("div"), Some("main-container"), Some(BlogPattern)),
    "www.nosolosig.com" := Rule(Some("div"), Some("t3-content"), Some(NosolosigPattern))
  ]

  /**
   * The registered patterns, written around their shared named group
   * `(?P<slug>[\w-]+)`; joined up, each reads as the registry's regex.
   */
  const SlugGroup: string := @"(?P<slug>[\w-]+)"
  const DateGroups: string := @"(?P<year>\d+){4}/(?P<month>\d+){2}/(?P<day>\d+){2}/"
  const TimBlogPattern: string := "^/" + DateGroups + SlugGroup + "/$"
  const BlogPattern: string := "^/blog/" + SlugGroup + "/$"
  const NosolosigPattern: string := "^/libros-geo/" + SlugGroup + "$"

  /** The pattern used for a domain without a registered one: a single slug segment. */
  const GenericPattern: string := "^/" + SlugGroup + "/$"

  /** What the page's `find` is asked for: a bare tag, or a tag with a class. */
  datatype Selector = Tag(name: string) | TagWithClass(name: string, cls: string)

  const BodySelector: Selector := Tag("body")

  /**
   * The part of a parsed page the crawler reads from a found element: the
   * `href` of every `<a>` inside it, in document order, and the
   * whitespace-separated tokens of its text. A found element is true in a
   * Python test whatever it contains; only a missing one (`None`) is false.
   */
  datatype Element = Element(hrefs: seq<string>, tokens: seq<string>)

  /** `get_url_lookup_class`: the rule of the URL's domain, or the empty rule. */
  function LookupRule(reg: Registry, url: string): (r: Rule)
    ensures Netloc(url) in reg ==> r == reg[Netloc(url)]
    ensures Netloc(url) !in reg ==> r == EmptyRule
  {
    var domain := Netloc(url);
    if domain in reg then reg[domain] else EmptyRule
  }

  /**
   * The selector `get_content_data` hands to `find`: `body` when the rule has
   * no tag (in particular when the domain is unregistered), otherwise the
   * tag with the rule's class, which is a `KeyError` when the class is absent.
   */
  function ContentSelector(reg: Registry, url: string): (r: Result<Selector>)
    ensures r == Ok(BodySelector) <==> Netloc(url) !in reg || reg[Netloc(url)].tag.None?
    ensures r.Err? <==> Netloc(url) in reg && reg[Netloc(url)].tag.Some? && reg[Netloc(url)].cls.None?
    ensures r.Err? ==> r.error == KeyError("class")
  {
    var rule := LookupRule(reg, url);
    if rule.tag.None? then Ok(BodySelector)
    else if rule.cls.None? then Err(KeyError("class"))
    else Ok(TagWithClass(rule.tag.value, rule.cls.value))
  }

  /** `get_content_data`: the element the selector finds, if any. */
  function GetContentData(reg: Registry, find: Selector -> Option<Element>, url: string): (r: Result<Option<Element>>)
    ensures r.Err? <==> ContentSelector(reg, url).Err?
    ensures r.Ok? ==> r.value == find(ContentSelector(reg, url).value)
  {
    match ContentSelector(reg, url)
    case Ok(sel) => Ok(find(sel))
    case Err(e) => Err(e)
  }

  /** `get_regex_pattern`: the domain's registered pattern, or the generic one. */
  function RegexPattern(reg: Registry, domain: string): (r: string)
    ensures domain in reg && reg[domain].regex.Some? ==> r == reg[domain].regex.value
    ensures domain !in reg || reg[domain].regex.None? ==> r == GenericPattern
  {
    if domain in reg && reg[domain].regex.Some? then reg[domain].regex.value else GenericPattern
  }

  /** On the shipped registry, content comes from `body` exactly for unregistered domains. */
  lemma SavedBodyIffUnregistered(url: string)
    ensures ContentSelector(SavedDomains, url) == Ok(BodySelector) <==> Netloc(url) !in SavedDomains
    ensures Netloc(url) in SavedDomains ==> ContentSelector(SavedDomains, url).Ok?
  {
  }

  /** On the shipped registry, the generic pattern is used exactly for unregistered domains. */
  lemma SavedGenericIffUnregistered(domain: string)
    ensures RegexPattern(SavedDomains, domain) == GenericPattern <==> domain !in SavedDomains
  {
    if domain in SavedDomains {
      var p := RegexPattern(SavedDomains, domain);
      assert |p| != |GenericPattern|;
    }
  }

  /**
   * The pattern `get_regex_pattern` gives two of the registered domains, and
   * any unregistered one, is character for character the literal regex.
   */
  lemma SavedPatternLiterals(domain: string)
    ensures domain == "a-blog-of-interest.com" ==>
              RegexPattern(SavedDomains, domain) == @"^/blog/(?P<slug>[\w-]+)/$"
    ensures domain == "www.nosolosig.com" ==>
              RegexPattern(SavedDomains, domain) == @"^/libros-geo/(?P<slug>[\w-]+)$"
    ensures domain !in SavedDomains ==> RegexPattern(SavedDomains, domain) == @"^/(?P<slug>[\w-]+)/$"
  {
    PatternLiterals();
  }

  lemma PatternLiterals()
    ensures BlogPattern == @"^/blog/(?P<slug>[\w-]+)/$"
    ensures NosolosigPattern == @"^/libros-geo/(?P<slug>[\w-]+)$"
    ensures GenericPattern == @"^/(?P<slug>[\w-]+)/$"
  {
    assert BlogPattern == @"^/blog/(?P<slug>[\w-]+)/$";
    assert NosolosigPattern == @"^/libros-geo/(?P<slug>[\w-]+)$";
  }

  /** The element whose words are read on each registered domain; `body` elsewhere. */
  lemma SavedSelectors(url: string)
    ensures Netloc(url) == "tim.blog" ==> ContentSelector(SavedDomains, url) == Ok(TagWithClass("div", "content-area"))
    ensures Netloc(url) == "a-blog-of-interest.com" ==>
              ContentSelector(SavedDomains, url) == Ok(TagWithClass("div", "main-container"))
    ensures Netloc(url) == "www.nosolosig.com" ==>
              ContentSelector(SavedDomains, url) == Ok(TagWithClass("div", "t3-content"))
    ensures Netloc(url) !in SavedDomains ==> ContentSelector(SavedDomains, url) == Ok(Tag("body"))
  {
  }

  /** Every pattern in use is anchored at a leading '/' and names a `slug` group. */
  lemma PatternsAnchored(domain: string)
    ensures StartsWith(RegexPattern(SavedDomains, domain), "^/")
    ensures Contains(RegexPattern(SavedDomains, domain), "(?P<slug>")
  {
    var p := RegexPattern(SavedDomains, domain);
    if domain == "tim.blog" {
      assert "^/" + DateGroups + SlugGroup + "/$" == ("^/" + DateGroups) + SlugGroup + "/$";
      SlugPattern("^/" + DateGroups, "/$");
    } else if domain == "a-blog-of-interest.com" {
      SlugPattern("^/blog/", "/$");
    } else if domain == "www.nosolosig.com" {
      SlugPattern("^/libros-geo/", "$");
    } else {
      SlugPattern("^/", "/$");
    }
  }

  lemma SlugPattern(before: string, after: string)
    requires StartsWith(before, "^/")
    ensures StartsWith(before + SlugGroup + after, "^/")
    ensures Contains(before + SlugGroup + after, "(?P<slug>")
  {
    var p := before + SlugGroup + after;
    assert p[..2] == before[..2];
    assert p[|before|..|before| + 9] == SlugGroup[..9];
    assert OccursAt(p, "(?P<slug>", |before|);
  }
}
