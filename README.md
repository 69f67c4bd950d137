# Web-scraping crawler: a Dafny model of the crawl-and-tally core

The crawler starts from a seed page and follows the page's local links, level by level, up to a depth limit. On every page it visits, it extracts the cleaned words of the page's content element. At the end it tallies the words. Everything here models `src/scrape.py`, in eight modules:

- `Wrappers` (`wrappers.dfy`): `Option`, `Result`, and the Python exceptions that the code can raise (`ValueError`, `KeyError`, `AttributeError`, `UnboundLocalError`).
- `Text` (`text.dfy`): the Python `str` operations the code relies on.
  - `replace`: leftmost, non-overlapping.
  - `strip`, `lstrip` and `rstrip`, with Python's `isspace` set as the default.
  - An ASCII `lower`.
- `Words` (`words.dfy`): `clean_word` and `clean_up_words`, with the hand-written noise list entry for entry.
- `Urls` (`urls.dfy`):
  - the `netloc` and `path` parts of `urlparse`;
  - `append_http` and `validate_url`.
- `Registry` (`registry.dfy`): the `saved_domains` table and the lookups that read it: `get_url_lookup_class`, `get_content_data` and `get_regex_pattern`.
- `Links` (`links.dfy`): `get_local_paths` and `get_regex_local_paths`, which include the `list(set(...))` deduplication.
- `Page` (`page.dfy`):
  - `fetch_links_words`, one page visit;
  - `parse_blog_post`, as written, and with its status test corrected;
  - the response-status test.
- `Crawl` (`crawl.dfy`): `scrape_links`, the depth-limited crawl, and the `Counter` tally.

Several things are parameters of the model:

- The HTML parser: `find`, a function from a selector to the element found, if any. An element is given as its `href`s in document order and its text tokens.
- The regular-expression engine: `matches`.
- The package stop-word list: `pkgStopWords`.
- A page visit inside the crawl: `fetch`, which gives a URL's next URLs and words, or its error.

Code that works by updating variables is modelled as methods with loop invariants, proved against specification functions:

- `CleanUpWords` against `KeptWords`;
- `GetLocalPaths` against `LocalPathsOf`;
- `GetRegexLocalPaths` against `RegexPathsOf`;
- `ScrapeLinks` against `CrawlVisited`, `ConcatWords` and `WordsOf`.

The properties themselves are stated as lemmas about those functions.

Behaviour of the code that is easy to misread, which the model reproduces:

- A content element that is not found is not treated as an empty page. `fetch_links_words` raises `AttributeError`, because `parse_links` calls `find_all` on `None`. `parse_blog_post` raises `AttributeError` on `None.text`.
- `if html_soup` in `fetch_links_words` is true for every element found. A BeautifulSoup tag is true even when it has no contents, and a missing one has already raised in `parse_links`. Its `else` branch, which would leave `clean_words` unassigned, is never taken, so a found element always yields links and words.
- `fetch_links_words` does not look at the response status.
- `scrape_links` does not stop on an empty frontier. It keeps recursing until the depth limit, which changes nothing (`Crawl.CrawlVisitedFixpoint`).
- A page whose visit raises ends the whole crawl. It is neither skipped nor marked visited.
- `max_depth` counts levels of the frontier:
  - a call with `current_depth == max_depth` still visits its whole frontier (`Crawl.OneLevel`);
  - a call processes `max_depth - current_depth + 1` levels.
- `clean_word` is not idempotent (`Words.CleanWordNotIdempotent`).
- A token that cleans to `""` is kept (`Words.EmptyTokenKept`).
- The missing comma in the noise list fuses `"we're"` and `'|'` into the single entry `"we're|"`, so the noise list itself lacks `"we're"` (`Words.WereNotListed`). The token `"We're"` survives cleaning only when the package stop-word list lacks `"we're"` too (`Words.WereIsKept`). A standard English list usually contains it.

## Model

| member | source | states |
|---|---|---|
| Text.Replace | src/scrape.py:37-48 | `str.replace` never lengthens a string when the replacement is no longer than the pattern |
| Text.ReplaceChars | src/scrape.py:37-48 | replacing introduces no character beyond those of the input and of the replacement |
| Text.ReplaceRemovesPattern | src/scrape.py:37-48 | after replacing a pattern by a string that shares no character with it, the pattern no longer occurs |
| Text.ReplaceRemovesChar | src/scrape.py:37-45 | replacing a one-character pattern removes that character outright |
| Text.ReplaceAbsent | src/scrape.py:37-48 | a pattern containing a character the input lacks leaves the input unchanged |
| Text.ReplaceKeepsForeignPrefix | src/scrape.py:37-48 | a prefix of the result made of characters foreign to the replacement was already a prefix of the input |
| Text.StripLeft | src/scrape.py:49-52 | `lstrip` never lengthens, and the result does not start with a stripped character |
| Text.StripRight | src/scrape.py:49-52 | `rstrip` never lengthens, and the result does not end with a stripped character |
| Text.Strip | src/scrape.py:49-52 | `strip` never lengthens the string |
| Text.StripLeftShape | src/scrape.py:49-52 | `lstrip` keeps a suffix and drops only characters of the given set |
| Text.StripRightShape | src/scrape.py:49-52 | `rstrip` keeps a prefix and drops only characters of the given set |
| Text.StripEndsOutside | src/scrape.py:49-52 | after `strip`, neither end of the result is in the stripped set |
| Text.StripKeepsClean | src/scrape.py:49-52 | a string whose ends are outside the set is left unchanged by `strip` |
| Text.StripInfix | src/scrape.py:49-52 | the stripped string is an infix of the original |
| Text.StripChars | src/scrape.py:49-52 | stripping adds no character |
| Text.StripKeepsOut | src/scrape.py:49-52 | stripping cannot create an occurrence of a pattern |
| Text.Lower | src/scrape.py:66 | `lower()` keeps the length, moves each ASCII capital 32 code points on to its lower-case letter, keeps every other character, and leaves no ASCII capital |
| Text.LowerChar | src/scrape.py:66 | one character: a capital becomes the letter 32 code points on, anything else is kept |
| Words.ReplaceEach | src/scrape.py:37-48 | the chain of replacements, each of a non-empty pattern by one space, never lengthens the word |
| Words.ReplaceEachRemovesSingle | src/scrape.py:37-47 | a one-character pattern other than a space is absent after the whole chain, whatever replacements follow it |
| Words.ReplaceEachAbsent | src/scrape.py:37-48 | when every pattern holds a character the word lacks, the chain leaves the word unchanged |
| Words.ReplaceEachSplit | src/scrape.py:37-48 | applying the chain `p + q` is applying `p`, then `q` |
| Words.ReplacedLeavesNoPunctuation | src/scrape.py:37-48 | after the replacements, none of `! ? . , : ; ( ) - —` and no `it’s` is left |
| Words.StripEnds | src/scrape.py:49-52 | the four strips never lengthen the word |
| Words.StripEndsKeeps | src/scrape.py:49-52 | the four strips add no character and create no occurrence of a pattern |
| Words.StripEndsKeepsClean | src/scrape.py:49-52 | a word whose ends are outside every stripped set goes through the strips unchanged |
| Words.CleanWord | src/scrape.py:36-53 | `clean_word` never returns a string longer than its input |
| Words.CleanWordSound | src/scrape.py:36-53 | a cleaned word contains no punctuation character of the chain and no `it’s` |
| Words.CleanWordKeepsPlain | src/scrape.py:36-53 | a word made only of letters, digits and `'` is returned unchanged |
| Words.CleanWordNotIdempotent | src/scrape.py:36-53 | the token `"#!a"` cleans to `" a"`, and cleaning that again gives `"a"` |
| Words.KeptWords | src/scrape.py:55-72 | the output of `clean_up_words` is never longer than its input |
| Words.KeptEntry | src/scrape.py:66-71 | one token contributes at most one word |
| Words.CleanUpWords | src/scrape.py:55-72 | the method's loop returns exactly `KeptWords` of the tokens with the module's noise list |
| Words.FilterWords | src/scrape.py:65-72 | the append loop returns exactly `KeptWords` for any pair of stop-word lists |
| Words.KeptWordsSound | src/scrape.py:65-71 | every kept word is the cleaned lowercase form of some token and is in neither stop-word list |
| Words.KeptWordsComplete | src/scrape.py:65-71 | every token whose cleaned form is in neither list contributes that form |
| Words.KeptWordsAppend | src/scrape.py:65-72 | cleaning works token by token, in order and keeping duplicates, so it distributes over concatenation |
| Words.StopWordGroups | src/scrape.py:58-64 | a word is on the noise list exactly when it is on one of the list's source lines |
| Words.ReplyListed | src/scrape.py:58 | `"reply"` is on the noise list |
| Words.GlacierNotListed | src/scrape.py:58-64 | `"glacier"` is not on the noise list |
| Words.WereNotListed | src/scrape.py:58 | `"we're"` is not on the noise list: only the fused `"we're|"` is |
| Words.EmptyNotListed | src/scrape.py:58-64 | `""` is not on the noise list |
| Words.EmptyTokenKept | src/scrape.py:58-71 | the token `"!"` cleans to `""`, which is on no list, so `""` is kept |
| Words.WereIsKept | src/scrape.py:58 | because of the fused entry `"we're|"`, the token `"We're"` is kept as `"we're"` whenever the package list lacks `"we're"` |
| Words.ReplyDroppedGlacierKept | src/scrape.py:58-71 | `["Reply", "Glacier"]` becomes `["glacier"]`, since `"reply"` is a noise word |
| Urls.Until | src/scrape.py:118-122 | the scan for a delimiter never returns more than its input |
| Urls.UntilShape | src/scrape.py:118-122 | the scan returns a delimiter-free prefix that ends at the input's end or at a delimiter |
| Urls.AfterScheme | src/scrape.py:118-122 | removing the scheme leaves a suffix of the URL |
| Urls.PartsClean | src/scrape.py:118-122 | the netloc contains no `/`, `?` or `#`, and the path no `?` or `#` |
| Urls.BuiltUrlNetloc | src/scrape.py:291 | the URL `"http://" + domain + path` has `domain` as its netloc when the domain has no delimiter and the path is empty or rooted |
| Urls.BuiltUrlPath | src/scrape.py:291 | that URL also has `path` as its path when the path has no `?` or `#` |
| Urls.SchemeRelativeParts | src/scrape.py:118-122 | `"//" + host + path` has `host`, port included, as its netloc and `path` as its path |
| Urls.SchemeRelativeExample | src/scrape.py:118-119 | the href `//other.com/x` has `other.com` as its netloc |
| Urls.SchemeRelativePortExample | src/scrape.py:118-119 | the href `//other.com:8080/x` has `other.com:8080` as its netloc |
| Urls.NoSlashesNoNetloc | src/scrape.py:118-119 | a reference without a leading `//` and without `:` has an empty netloc |
| Urls.AppendHttp | src/scrape.py:93-96 | the result starts with `http`; it is the input when the input starts with `http`, else `"http://"` followed by the input |
| Urls.AppendHttpIdempotent | src/scrape.py:93-96 | applying `append_http` twice equals applying it once |
| Urls.ValidateUrl | src/scrape.py:85-91 | returns its argument unchanged if and only if it starts with `http://` or `https://`, else a `ValueError` |
| Urls.AppendedIsValid | src/scrape.py:105-107 | input without an `http` prefix passes validation after `append_http` |
| Urls.HttpNamedHostRejected | src/scrape.py:94 | `httpbin.org` gets no scheme, since the test is for `http` rather than `http://`, and is then rejected |
| Registry.ContentSelector | src/scrape.py:139-142 | the selector is `body` exactly when there is no rule or it has no tag; it is a `KeyError("class")` exactly when the rule has a tag but no class |
| Registry.SavedBodyIffUnregistered | src/scrape.py:11-27 | on the shipped table, content comes from `body` exactly for unregistered domains, and registered domains never raise |
| Registry.SavedGenericIffUnregistered | src/scrape.py:169-175 | on the shipped table, the generic pattern is used exactly for unregistered domains |
| Registry.SavedPatternLiterals | src/scrape.py:11-27 | the pattern for `a-blog-of-interest.com`, for `www.nosolosig.com` and for any unregistered domain (the generic one at line 170) is, character for character, the literal regex of the source |
| Registry.SavedSelectors | src/scrape.py:124-143 | on the shipped table, the content element read is `div.content-area`, `div.main-container` or `div.t3-content` for the three registered domains, and `body` elsewhere |
| Registry.PatternsAnchored | src/scrape.py:11-27 | every pattern in use starts with `^/` and names a `slug` group |
| Registry.SlugPattern | src/scrape.py:11-27 | a pattern built as an anchored prefix, the slug group and a suffix starts with `^/` and names the `slug` group |
| Links.FlattenMembership | src/scrape.py:160-166 | the collected list holds exactly the paths some href yields |
| Links.LocalPathsMembership | src/scrape.py:156-167 | a path is collected exactly when it is the path of a same-netloc href or is a rooted href |
| Links.RegexPathsMembership | src/scrape.py:184-207 | the pattern filter keeps exactly the local paths that match the domain's pattern |
| Links.RegexPathsAreLocal | src/scrape.py:184-207 | every path kept by the pattern filter is a local path of the page and matches the pattern |
| Links.CandidateIsRooted | src/scrape.py:161-166 | on a page with a netloc, every local path is empty or starts with `/` |
| Links.PathIsRooted | src/scrape.py:121-122 | the path of a URL with a netloc is empty or starts with `/` |
| Links.SchemeRelativeOtherHostKept | src/scrape.py:165-166 | the href `//other.com/x` on `example.com` is kept whole, through the rooted branch |
| Links.SingleHref | src/scrape.py:160-166 | one href contributes exactly its own candidate, or nothing |
| Links.RelativeHrefDropped | src/scrape.py:160-166 | a relative href such as `about` yields nothing on a page with a netloc |
| Links.ListOfSet | src/scrape.py:167 | `list(set(xs))` has no duplicates and the same elements as `xs` |
| Links.GetLocalPaths | src/scrape.py:156-167 | a duplicate-free list whose elements are exactly the local paths of the page |
| Links.CollectLocalPaths | src/scrape.py:160-166 | the append loop builds exactly the candidate list |
| Links.GetRegexLocalPaths | src/scrape.py:184-207 | a duplicate-free list whose elements are exactly the local paths matching the domain's pattern |
| Links.CollectRegexPaths | src/scrape.py:194-206 | the append loop builds exactly the filtered candidate list |
| Page.ToScrape | src/scrape.py:291 | one URL per path at most |
| Page.ToScrapeMembership | src/scrape.py:291 | a URL is built exactly when it is `"http://" + domain + p` for a collected path `p` |
| Page.ToScrapeStaysOnHost | src/scrape.py:289-291 | every URL built on a page with a netloc has that same netloc |
| Page.VisitLinksStayOnHost | src/scrape.py:284-291 | every URL collected on a page with a netloc has that netloc |
| Page.ToScrapeIsVisitLinks | src/scrape.py:289-291 | the set built from any list holding exactly the matching local paths is the page's collected URL set |
| Page.FetchLinksWords | src/scrape.py:284-296 | propagates the registry's `KeyError`; raises `AttributeError` on a missing element; for every found element, the words are `KeptWords` of its tokens, the links are `VisitLinks`, exactly the built URLs of the matching local paths, and all of them are on the page's netloc |
| Page.StatusOkAsWrittenMisses299 | src/scrape.py:213 | the test as written, `range(200, 299)`, rejects 299, a 2xx status |
| Page.IsSuccessIsTwoHundreds | src/scrape.py:213 | the corrected test accepts exactly the statuses whose hundreds digit is 2 |
| Page.StatusTestsDifferOnlyAt299 | src/scrape.py:213 | the written and corrected tests disagree on 299 alone |
| Page.ParseBlogPost | src/scrape.py:209-219 | as written: `UnboundLocalError` when the status is outside `range(200, 299)`; succeeds exactly when the status is in that range and the content element is found, and then returns `KeptWords` of its tokens |
| Page.PostWords | src/scrape.py:214-219 | after the status test: `AttributeError` on a missing element, otherwise `KeptWords` of its tokens |
| Page.ParseBlogPostCorrected | src/scrape.py:209-219 | with the corrected status test: succeeds exactly when the status's hundreds digit is 2 and the content element is found |
| Page.ParseBlogPostRejects299 | src/scrape.py:213 | a found post served with status 299 is an `UnboundLocalError` as written and is read when corrected |
| Page.ParseBlogPostAgreesOff299 | src/scrape.py:213 | on every status but 299, the written and corrected versions return the same |
| Crawl.ScrapeLinks | src/scrape.py:298-310 | succeeds exactly when every newly visited page can be fetched, else fails with the error of such a page. On success: the visited set is `CrawlVisited`; the visit log is duplicate-free (no URL fetched twice) and covers exactly the newly visited URLs; the words are the input words followed by each fetched page's words in visiting order, and as a multiset they are the input words plus `WordsOf` the new pages; beyond the limit nothing changes; `max_depth - current_depth + 1` levels are processed |
| Crawl.ScrapeLevel | src/scrape.py:300-307 | one level either fails with the error of an unvisited frontier page, or fetches every unvisited frontier page once, marks the whole frontier visited, and collects their links and words |
| Crawl.FetchStep | src/scrape.py:302-307 | popping an unvisited page whose visit succeeds keeps the level invariant |
| Crawl.SkipStep | src/scrape.py:302-303 | popping an already visited page changes only the frontier |
| Crawl.LevelsJoin | src/scrape.py:309 | the visits of one level followed by those of the deeper levels are duplicate-free and cover the whole crawl |
| Crawl.ConcatWordsMultiset | src/scrape.py:305 | visiting distinct pages in any order yields the same multiset of words |
| Crawl.WordsOfRemove | src/scrape.py:305 | the multiset of a set of pages' words does not depend on which page is counted first |
| Crawl.CrawlVisitedGrows | src/scrape.py:301-307 | the visited set only grows, and within the limit it takes in the whole frontier |
| Crawl.CrawlVisitedFixpoint | src/scrape.py:299-309 | a frontier with nothing new changes nothing, however many levels remain |
| Crawl.CrawlVisitedWithin | src/scrape.py:298-310 | a crawl never leaves a class of URLs that holds its start and is closed under following links |
| Crawl.CrawlStaysOnHost | src/scrape.py:289-309 | when pages on a host link only to that host, a crawl started there stays there |
| Crawl.VisitsStayOnHost | src/scrape.py:284-309 | when every successful visit collects its links as `fetch_links_words` does, a crawl started on a non-empty host visits only that host |
| Crawl.OneLevel | src/scrape.py:299-310 | with `current_depth == max_depth`, the whole frontier is visited but none of its links |
| Crawl.WordCountsAreMultiplicities | src/scrape.py:273 | the tally has one key per distinct word, with the word's number of occurrences as its count |
| Crawl.WordCountsOrderFree | src/scrape.py:273 | the tally depends only on the multiset of words |
| Crawl.WordCountsTotal | src/scrape.py:273-282 | the counts sum to the number of words |

Definitions. These members define what the source computes. Their meaning is carried by the lemmas named beside them.

- `Urls.Netloc` and `Urls.Path` (src/scrape.py:118-122, `get_domain_name` and `get_path_name`): `Urls.PartsClean`, `Urls.BuiltUrlNetloc`, `Urls.BuiltUrlPath`, `Urls.SchemeRelativeParts`, `Urls.NoSlashesNoNetloc`, `Links.PathIsRooted`.
- `Registry.LookupRule` (src/scrape.py:124-132): `Registry.ContentSelector`, `Registry.SavedSelectors`, `Registry.SavedBodyIffUnregistered`.
- `Registry.GetContentData` (src/scrape.py:134-143): `Registry.SavedSelectors`, `Page.FetchLinksWords`, `Page.PostWords`.
- `Registry.RegexPattern` (src/scrape.py:169-175): `Registry.SavedGenericIffUnregistered`, `Registry.SavedPatternLiterals`, `Registry.PatternsAnchored`.
- `Links.LocalCandidate`, `Links.Candidates` and `Links.LocalPathsOf` (src/scrape.py:156-166): `Links.LocalPathsMembership`, `Links.CandidateIsRooted`, `Links.RelativeHrefDropped`, `Links.SingleHref`.
- `Links.Matching`, `Links.Filtered` and `Links.RegexPathsOf` (src/scrape.py:177-206): `Links.RegexPathsMembership`, `Links.RegexPathsAreLocal`.
- `Page.PageUrl` and `Page.VisitLinks` (src/scrape.py:289-291): `Page.ToScrapeMembership`, `Page.ToScrapeIsVisitLinks`, `Page.VisitLinksStayOnHost`.
- `Words.MyStopWords` (src/scrape.py:58-64): `Words.StopWordGroups`, `Words.ReplyListed`, `Words.WereNotListed`, `Words.GlacierNotListed`, `Words.EmptyNotListed`.
- `Words.CleanToken` and `Words.IsStopWord` (src/scrape.py:65-71): `Words.KeptWordsSound`, `Words.KeptWordsComplete`.
- `Crawl.CrawlVisited` (src/scrape.py:298-310): `Crawl.ScrapeLinks`, `Crawl.CrawlVisitedGrows`, `Crawl.CrawlVisitedFixpoint`, `Crawl.CrawlVisitedWithin`, `Crawl.OneLevel`.
- `Crawl.ConcatWords` and `Crawl.WordsOf` (src/scrape.py:305): `Crawl.ScrapeLinks`, `Crawl.ConcatWordsMultiset`, `Crawl.WordsOfRemove`.
- `Crawl.WordCounts` (src/scrape.py:273, `Counter(words)`): `Crawl.WordCountsAreMultiplicities`, `Crawl.WordCountsOrderFree`, `Crawl.WordCountsTotal`.

## Left out

- HTTP (`fetch_url`, `requests`) is left out, and so is the empty response that a connection error produces. A page is given by its status and by the parser's `find`.
- HTML parsing is left out: `get_html_soup`, `parse_links`, and BeautifulSoup's `find`, `find_all`, `.text` and `.split()`. The element found is given as its hrefs and its tokens.
- `match_regex` and the Python regex engine are a parameter, `matches`. The registry patterns are kept as text.
- The `stop_words` package list is a parameter.
- `Text.Lower`: ASCII letters only; Unicode case mapping of `str.lower` is not modelled.
- `Urls.Netloc`: a simplified `urlparse`. It does not model `;params`, the stripping of leading whitespace and control characters, or IPv6 and port validation.
- `Urls.Path`: the same simplified `urlparse`.
- `Page.FetchLinksWords`: the `print` call is left out.
- `Registry.SavedPatternLiterals`: does not cover the 71-character `tim.blog` pattern. That pattern is assembled from the date groups and the slug group, and only its anchoring and its `slug` group are proved (`Registry.PatternsAnchored`).
- `Crawl.ScrapeLinks`:
  - The model returns new values instead of mutating the caller's frontier set, `scrapped` set and `words` list in place. The mutable default `words=[]` is therefore not modelled.
  - The pop order is left open. The order of the words is stated through the ghost visit log rather than as a fixed sequence.
- Interactive input is left out: `get_input`'s prompt loop and `end_program`.
- The entry points `main` and `main_with_depth` are left out, because they hard-code the seed and print. `main` repeats the `range(200, 299)` status test of `parse_blog_post`, at `src/scrape.py:224`.
- CSV writing is left out: `create_csv_path`, `create_csv_words_path`, `save_links_scraped`, and the file part of `save_final_words` with its timestamped name. The tally `Counter(words)` itself is modelled.

## Findings

| source | as written | input that shows it | evidently intended | confidence | as-written member | corrected member |
|---|---|---|---|---|---|---|
| src/scrape.py:213 | `status_code in range(200, 299)` accepts 200 to 298 only | status 299 | every 2xx status, 200 to 299 | not executed | Page.ParseBlogPostRejects299 | Page.ParseBlogPostCorrected |
