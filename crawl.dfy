/**
 * The depth-limited crawl `scrape_links` and the final word tally. A page
 * visit is given as a function from a URL to what `fetch_links_words`
 * returns for it: the page's next URLs and kept words, or the error it
 * raises.
 */
module Crawl {
  import opened Wrappers
  import opened Urls
  import opened Links
  import opened Page
  import opened Registry

  type Fetch = string -> Result<PageResult>

  /** The links of a visited page; a page whose visit fails contributes none. */
  function PageLinks(fetch: Fetch, u: string): set<string>
  {
    if fetch(u).Ok? then fetch(u).value.links else {}
  }

  /** The kept words of a visited page; a page whose visit fails contributes none. */
  function PageWords(fetch: Fetch, u: string): seq<string>
  {
    if fetch(u).Ok? then fetch(u).value.words else []
  }

  /** Every page of `urls` can be visited without an error. */
  ghost predicate Fetchable(urls: set<string>, fetch: Fetch)
  {
    forall u :: u in urls ==> fetch(u).Ok?
  }

  /** The URLs the pages of `urls` link to. */
  function LinksOf(urls: set<string>, fetch: Fetch): set<string>
  {
    set u, l | u in urls && l in PageLinks(fetch, u) :: l
  }

  /**
   * The visited set `scrape_links` returns: nothing more once the depth
   * exceeds the limit; otherwise the frontier joins the visited set and the
   * next frontier is what the frontier's unvisited pages link to.
   */
  function CrawlVisited(frontier: set<string>, visited: set<string>, depth: int, maxDepth: int, fetch: Fetch): set<string>
    decreases if depth <= maxDepth then maxDepth - depth + 1 else 0
  {
    if depth > maxDepth then visited
    else CrawlVisited(LinksOf(frontier - visited, fetch), visited + frontier, depth + 1, maxDepth, fetch)
  }

  /** The words of the pages in `order`, concatenated in that order. */
  function ConcatWords(order: seq<string>, fetch: Fetch): seq<string>
    decreases |order|
  {
    if order == [] then [] else ConcatWords(order[..|order| - 1], fetch) + PageWords(fetch, order[|order| - 1])
  }

  ghost function Pick(s: set<string>): string
    requires s != {}
  {
    var x :| x in s; x
  }

  /** The words of the pages in `urls` as a multiset, which no visiting order changes. */
  ghost function WordsOf(urls: set<string>, fetch: Fetch): multiset<string>
    decreases |urls|
  {
    if urls == {} then multiset{}
    else
      var u := Pick(urls);
      multiset(PageWords(fetch, u)) + WordsOf(urls - {u}, fetch)
  }

  /** Any page of the set can be taken out first. */
  lemma {:induction false} WordsOfRemove(urls: set<string>, x: string, fetch: Fetch)
    requires x in urls
    ensures WordsOf(urls, fetch) == multiset(PageWords(fetch, x)) + WordsOf(urls - {x}, fetch)
    decreases |urls|
  {
    var u := Pick(urls);
    if u != x {
      WordsOfRemove(urls - {u}, x, fetch);
      WordsOfRemove(urls - {x}, u, fetch);
      assert urls - {u} - {x} == urls - {x} - {u};
    }
  }

  /** The elements of a sequence. */
  function Elements(s: seq<string>): set<string>
  {
    set x | x in s
  }

  lemma ElementsAppend(a: seq<string>, b: seq<string>)
    ensures Elements(a + b) == Elements(a) + Elements(b)
  {
  }

  lemma ElementsSnoc(s: seq<string>, x: string)
    ensures Elements(s + [x]) == Elements(s) + {x}
  {
    ElementsAppend(s, [x]);
    assert Elements([x]) == {x};
  }

  lemma ElementsLast(s: seq<string>)
    requires NoDup(s) && s != []
    ensures NoDup(s[..|s| - 1])
    ensures s[|s| - 1] in Elements(s)
    ensures Elements(s) - {s[|s| - 1]} == Elements(s[..|s| - 1])
  {
    var n := |s| - 1;
    assert s == s[..n] + [s[n]];
    forall u | u in s[..n] ensures u != s[n] {
      var i :| 0 <= i < n && s[..n][i] == u;
    }
  }

  /** Visiting distinct pages in any order yields the same words, counted with multiplicity. */
  lemma {:induction false} ConcatWordsMultiset(order: seq<string>, fetch: Fetch)
    requires NoDup(order)
    ensures multiset(ConcatWords(order, fetch)) == WordsOf(Elements(order), fetch)
    decreases |order|
  {
    if order == [] {
      assert Elements(order) == {};
    } else {
      var n := |order| - 1;
      ElementsLast(order);
      ConcatWordsMultiset(order[..n], fetch);
      WordsOfRemove(Elements(order), order[n], fetch);
    }
  }

  lemma ConcatWordsSnoc(order: seq<string>, x: string, fetch: Fetch)
    ensures ConcatWords(order + [x], fetch) == ConcatWords(order, fetch) + PageWords(fetch, x)
  {
    assert (order + [x])[..|order|] == order;
  }

  lemma LinksOfAdd(urls: set<string>, x: string, fetch: Fetch)
    ensures LinksOf(urls + {x}, fetch) == LinksOf(urls, fetch) + PageLinks(fetch, x)
  {
  }

  /** What `scrape_links` returns: the visited set and the accumulated words. */
  datatype Crawled = Crawled(visited: set<string>, words: seq<string>)

  /**
   * `scrape_links`. While the depth is within the limit it processes one
   * level (`ScrapeLevel`) and recurses one level deeper with the pages that
   * level links to. A visit that fails ends the whole crawl with its error.
   * `fetched` records the visits in order and `levels` the levels processed.
   */
  method ScrapeLinks(toScrape: set<string>, scrapped: set<string>, currentDepth: int, maxDepth: int,
                     words: seq<string>, fetch: Fetch)
    returns (r: Result<Crawled>, ghost fetched: seq<string>, ghost levels: nat)
    ensures r.Ok? <==> Fetchable(CrawlVisited(toScrape, scrapped, currentDepth, maxDepth, fetch) - scrapped, fetch)
    ensures r.Err? ==> exists u :: u in CrawlVisited(toScrape, scrapped, currentDepth, maxDepth, fetch) - scrapped &&
                                   fetch(u) == Err(r.error)
    ensures r.Ok? ==> r.value.visited == CrawlVisited(toScrape, scrapped, currentDepth, maxDepth, fetch)
    ensures r.Ok? ==> NoDup(fetched) && Elements(fetched) == r.value.visited - scrapped
    ensures r.Ok? ==> r.value.words == words + ConcatWords(fetched, fetch)
    ensures r.Ok? ==> multiset(r.value.words) == multiset(words) + WordsOf(r.value.visited - scrapped, fetch)
    ensures currentDepth > maxDepth ==> r == Ok(Crawled(scrapped, words))
    ensures r.Ok? ==> levels == if currentDepth <= maxDepth then maxDepth - currentDepth + 1 else 0
    decreases if currentDepth <= maxDepth then maxDepth - currentDepth + 1 else 0
  {
    if currentDepth > maxDepth {
      r, fetched, levels := Ok(Crawled(scrapped, words)), [], 0;
      assert Elements(fetched) == {};
      return;
    }
    var failed, seen, newSetToScrape, wordsSoFar, level := ScrapeLevel(toScrape, scrapped, words, fetch);
    CrawlVisitedGrows(toScrape, scrapped, currentDepth, maxDepth, fetch);
    if failed.Some? {
      r, fetched, levels := Err(failed.value), [], 0;
      return;
    }
    ghost var rest: seq<string>;
    r, rest, levels := ScrapeLinks(newSetToScrape, seen, currentDepth + 1, maxDepth, wordsSoFar, fetch);
    levels := levels + 1;
    CrawlVisitedGrows(newSetToScrape, seen, currentDepth + 1, maxDepth, fetch);
    var visited := CrawlVisited(newSetToScrape, seen, currentDepth + 1, maxDepth, fetch);
    FetchableSplit(scrapped, seen, visited, fetch);
    fetched := level + rest;
    if r.Ok? {
      LevelsJoin(scrapped, seen, visited, level, rest, fetch);
      AppendAssoc(words, ConcatWords(level, fetch), ConcatWords(rest, fetch));
    }
  }

  /** The pages new to a crawl are those new to its first level and those new after it. */
  lemma FetchableSplit(scrapped: set<string>, seen: set<string>, visited: set<string>, fetch: Fetch)
    requires scrapped <= seen <= visited
    ensures visited - scrapped == (seen - scrapped) + (visited - seen)
    ensures Fetchable(visited - scrapped, fetch) <==>
            Fetchable(seen - scrapped, fetch) && Fetchable(visited - seen, fetch)
  {
  }

  lemma AppendAssoc(a: seq<string>, b: seq<string>, c: seq<string>)
    ensures (a + b) + c == a + (b + c)
  {
  }

  /** The visits of one level followed by those of the deeper levels. */
  lemma LevelsJoin(scrapped: set<string>, seen: set<string>, visited: set<string>,
                   level: seq<string>, rest: seq<string>, fetch: Fetch)
    requires scrapped <= seen <= visited
    requires NoDup(level) && Elements(level) == seen - scrapped
    requires NoDup(rest) && Elements(rest) == visited - seen
    ensures NoDup(level + rest) && Elements(level + rest) == visited - scrapped
    ensures ConcatWords(level + rest, fetch) == ConcatWords(level, fetch) + ConcatWords(rest, fetch)
    ensures multiset(ConcatWords(level + rest, fetch)) == WordsOf(visited - scrapped, fetch)
  {
    ConcatWordsAppend(level, rest, fetch);
    NoDupAppend(level, rest, seen);
    ElementsAppend(level, rest);
    ConcatWordsMultiset(level + rest, fetch);
  }

  /**
   * One level of `scrape_links`: it empties the frontier one arbitrary
   * element at a time; an element not yet visited is fetched once, its words
   * appended and its links added to the next frontier; every popped element
   * is marked visited. A visit that fails stops the level with its error.
   */
  method ScrapeLevel(toScrape: set<string>, scrapped: set<string>, words: seq<string>, fetch: Fetch)
    returns (failed: Option<Error>, seen: set<string>, newSetToScrape: set<string>, wordsSoFar: seq<string>,
             ghost level: seq<string>)
    ensures failed.Some? ==> exists u :: u in toScrape - scrapped && fetch(u) == Err(failed.value)
    ensures failed.None? ==> Fetchable(toScrape - scrapped, fetch)
    ensures failed.None? ==> seen == scrapped + toScrape
    ensures failed.None? ==> newSetToScrape == LinksOf(toScrape - scrapped, fetch)
    ensures failed.None? ==> NoDup(level) && Elements(level) == toScrape - scrapped
    ensures failed.None? ==> wordsSoFar == words + ConcatWords(level, fetch)
  {
    var frontier := toScrape;
    seen := scrapped;
    newSetToScrape := {};
    wordsSoFar := words;
    level := [];
    ghost var popped: set<string> := {};
    while frontier != {}
      invariant LevelInv(toScrape, scrapped, words, fetch, frontier, seen, popped, level, newSetToScrape, wordsSoFar)
      decreases |frontier|
    {
      var item :| item in frontier;
      if item !in seen {
        var page := fetch(item);
        if page.Err? {
          failed := Some(page.error);
          return;
        }
        FetchStep(toScrape, scrapped, words, fetch, frontier, seen, popped, level, newSetToScrape, wordsSoFar, item);
        wordsSoFar := wordsSoFar + page.value.words;
        newSetToScrape := newSetToScrape + page.value.links;
        level := level + [item];
        popped := popped + {item};
      } else {
        SkipStep(toScrape, scrapped, words, fetch, frontier, seen, popped, level, newSetToScrape, wordsSoFar, item);
      }
      frontier := frontier - {item};
      seen := seen + {item};
    }
    failed := None;
  }

  /**
   * What holds part way through a level: `frontier` is what is left to pop,
   * `seen` the visited set so far, `popped` the pages fetched in this level,
   * in the order `level`, with the links and words collected from them.
   */
  ghost predicate LevelInv(toScrape: set<string>, scrapped: set<string>, words: seq<string>, fetch: Fetch,
                           frontier: set<string>, seen: set<string>, popped: set<string>, level: seq<string>,
                           newSetToScrape: set<string>, wordsSoFar: seq<string>)
  {
    && frontier <= toScrape
    && seen == scrapped + (toScrape - frontier)
    && popped == (toScrape - frontier) - scrapped
    && Fetchable(popped, fetch)
    && NoDup(level) && Elements(level) == popped
    && newSetToScrape == LinksOf(popped, fetch)
    && wordsSoFar == words + ConcatWords(level, fetch)
  }

  /** Popping a page not yet visited whose visit succeeds: the invariant holds again. */
  lemma FetchStep(toScrape: set<string>, scrapped: set<string>, words: seq<string>, fetch: Fetch,
                  frontier: set<string>, seen: set<string>, popped: set<string>, level: seq<string>,
                  newSetToScrape: set<string>, wordsSoFar: seq<string>, item: string)
    requires LevelInv(toScrape, scrapped, words, fetch, frontier, seen, popped, level, newSetToScrape, wordsSoFar)
    requires item in frontier && item !in seen && fetch(item).Ok?
    ensures LevelInv(toScrape, scrapped, words, fetch, frontier - {item}, seen + {item}, popped + {item},
                     level + [item], newSetToScrape + fetch(item).value.links,
                     wordsSoFar + fetch(item).value.words)
  {
    ConcatWordsSnoc(level, item, fetch);
    AppendAssoc(words, ConcatWords(level, fetch), fetch(item).value.words);
    LinksOfAdd(popped, item, fetch);
    NoDupAppend(level, [item], seen);
    ElementsSnoc(level, item);
  }

  /** Popping a page already visited changes only the frontier. */
  lemma SkipStep(toScrape: set<string>, scrapped: set<string>, words: seq<string>, fetch: Fetch,
                 frontier: set<string>, seen: set<string>, popped: set<string>, level: seq<string>,
                 newSetToScrape: set<string>, wordsSoFar: seq<string>, item: string)
    requires LevelInv(toScrape, scrapped, words, fetch, frontier, seen, popped, level, newSetToScrape, wordsSoFar)
    requires item in frontier && item in seen
    ensures LevelInv(toScrape, scrapped, words, fetch, frontier - {item}, seen + {item}, popped,
                     level, newSetToScrape, wordsSoFar)
  {
  }

  /** Two duplicate-free sequences separated by a set join without duplicates. */
  lemma NoDupAppend(a: seq<string>, b: seq<string>, sep: set<string>)
    requires NoDup(a) && NoDup(b)
    requires Elements(a) <= sep && Elements(b) !! sep
    ensures NoDup(a + b)
  {
    forall i, j | 0 <= i < j < |a + b| ensures (a + b)[i] != (a + b)[j] {
      if j < |a| {
        assert (a + b)[i] == a[i] && (a + b)[j] == a[j];
      } else if i >= |a| {
        assert (a + b)[i] == b[i - |a|] && (a + b)[j] == b[j - |a|];
      } else {
        assert (a + b)[i] == a[i] && a[i] in Elements(a);
        assert (a + b)[j] == b[j - |a|] && b[j - |a|] in Elements(b);
      }
    }
  }

  lemma {:induction false} ConcatWordsAppend(a: seq<string>, b: seq<string>, fetch: Fetch)
    ensures ConcatWords(a + b, fetch) == ConcatWords(a, fetch) + ConcatWords(b, fetch)
    decreases |b|
  {
    if b == [] {
      assert a + b == a;
    } else {
      var n := |b| - 1;
      var init := b[..n];
      var last := PageWords(fetch, b[n]);
      calc {
        ConcatWords(a + b, fetch);
        { assert a + b == (a + init) + [b[n]]; }
        ConcatWords((a + init) + [b[n]], fetch);
        { ConcatWordsSnoc(a + init, b[n], fetch); }
        ConcatWords(a + init, fetch) + last;
        { ConcatWordsAppend(a, init, fetch); }
        (ConcatWords(a, fetch) + ConcatWords(init, fetch)) + last;
        { AppendAssoc(ConcatWords(a, fetch), ConcatWords(init, fetch), last); }
        ConcatWords(a, fetch) + (ConcatWords(init, fetch) + last);
        { ConcatWordsSnoc(init, b[n], fetch); assert init + [b[n]] == b; }
        ConcatWords(a, fetch) + ConcatWords(b, fetch);
      }
    }
  }

  /** The visited set only grows. */
  lemma {:induction false} CrawlVisitedGrows(frontier: set<string>, visited: set<string>, depth: int, maxDepth: int, fetch: Fetch)
    ensures visited <= CrawlVisited(frontier, visited, depth, maxDepth, fetch)
    ensures depth <= maxDepth ==> frontier <= CrawlVisited(frontier, visited, depth, maxDepth, fetch)
    decreases if depth <= maxDepth then maxDepth - depth + 1 else 0
  {
    if depth <= maxDepth {
      CrawlVisitedGrows(LinksOf(frontier - visited, fetch), visited + frontier, depth + 1, maxDepth, fetch);
    }
  }

  /** A frontier with nothing new in it changes nothing, however many levels remain. */
  lemma {:induction false} CrawlVisitedFixpoint(frontier: set<string>, visited: set<string>, depth: int, maxDepth: int, fetch: Fetch)
    requires frontier <= visited
    ensures CrawlVisited(frontier, visited, depth, maxDepth, fetch) == visited
    decreases if depth <= maxDepth then maxDepth - depth + 1 else 0
  {
    if depth <= maxDepth {
      assert frontier - visited == {};
      assert LinksOf({}, fetch) == {};
      assert visited + frontier == visited;
      CrawlVisitedFixpoint({}, visited, depth + 1, maxDepth, fetch);
    }
  }

  /**
   * A crawl never leaves a class of URLs that contains its start and is
   * closed under following links; with "on this host" as the class, a crawl
   * stays on its seed's host.
   */
  lemma {:induction false} CrawlVisitedWithin(frontier: set<string>, visited: set<string>, depth: int, maxDepth: int,
                                              fetch: Fetch, inside: string -> bool)
    requires forall u :: u in frontier ==> inside(u)
    requires forall u :: u in visited ==> inside(u)
    requires forall u, l :: inside(u) && l in PageLinks(fetch, u) ==> inside(l)
    ensures forall u :: u in CrawlVisited(frontier, visited, depth, maxDepth, fetch) ==> inside(u)
    decreases if depth <= maxDepth then maxDepth - depth + 1 else 0
  {
    if depth <= maxDepth {
      CrawlVisitedWithin(LinksOf(frontier - visited, fetch), visited + frontier, depth + 1, maxDepth, fetch, inside);
    }
  }

  /**
   * When every page on `host` links only to pages on `host` (as
   * `fetch_links_words` guarantees for a page with a network location), a
   * crawl started on `host` visits nothing else.
   */
  lemma CrawlStaysOnHost(frontier: set<string>, visited: set<string>, depth: int, maxDepth: int,
                         fetch: Fetch, host: string)
    requires forall u :: u in frontier ==> Netloc(u) == host
    requires forall u :: u in visited ==> Netloc(u) == host
    requires forall u, l :: Netloc(u) == host && l in PageLinks(fetch, u) ==> Netloc(l) == host
    ensures forall u :: u in CrawlVisited(frontier, visited, depth, maxDepth, fetch) ==> Netloc(u) == host
  {
    CrawlVisitedWithin(frontier, visited, depth, maxDepth, fetch, u => Netloc(u) == host);
  }

  /**
   * When every successful visit collects its links as `fetch_links_words`
   * does, from the element found on the page, a crawl started on a host never
   * leaves it.
   */
  lemma VisitsStayOnHost(frontier: set<string>, visited: set<string>, depth: int, maxDepth: int, fetch: Fetch,
                         found: string -> Element, reg: Registry, matches: (string, string) -> bool, host: string)
    requires host != []
    requires forall u :: fetch(u).Ok? ==> fetch(u).value.links == VisitLinks(u, found(u), reg, matches)
    requires forall u :: u in frontier ==> Netloc(u) == host
    requires forall u :: u in visited ==> Netloc(u) == host
    ensures forall u :: u in CrawlVisited(frontier, visited, depth, maxDepth, fetch) ==> Netloc(u) == host
  {
    forall u, l | Netloc(u) == host && l in PageLinks(fetch, u) ensures Netloc(l) == host {
      VisitLinksStayOnHost(u, found(u), reg, matches, l);
    }
    CrawlStaysOnHost(frontier, visited, depth, maxDepth, fetch, host);
  }

  /**
   * With the depth limit equal to the starting depth, one level is processed:
   * the whole frontier is visited, but none of the pages it links to.
   */
  lemma OneLevel(frontier: set<string>, visited: set<string>, depth: int, fetch: Fetch)
    ensures CrawlVisited(frontier, visited, depth, depth, fetch) == visited + frontier
  {
  }

  /**
   * `Counter(words)`: each word of the sequence with its number of
   * occurrences, built the way `Counter` counts, one element after another.
   */
  function WordCounts(words: seq<string>): (counts: map<string, nat>)
    decreases |words|
  {
    if words == [] then map[]
    else
      var counts := WordCounts(words[..|words| - 1]);
      var w := words[|words| - 1];
      counts[w := if w in counts then counts[w] + 1 else 1]
  }

  /** The tally has a key per distinct word, with the word's multiplicity as its count. */
  lemma {:induction false} WordCountsAreMultiplicities(words: seq<string>)
    ensures forall w :: w in WordCounts(words) <==> w in words
    ensures forall w :: w in WordCounts(words) ==> WordCounts(words)[w] == multiset(words)[w]
    decreases |words|
  {
    if words != [] {
      var n := |words| - 1;
      WordCountsAreMultiplicities(words[..n]);
      assert words == words[..n] + [words[n]];
    }
  }

  /** The tally depends only on the multiset of words, not on their order. */
  lemma WordCountsOrderFree(a: seq<string>, b: seq<string>)
    requires multiset(a) == multiset(b)
    ensures WordCounts(a) == WordCounts(b)
  {
    WordCountsAreMultiplicities(a);
    WordCountsAreMultiplicities(b);
    forall w ensures w in a <==> w in b {
      assert w in a <==> w in multiset(a);
      assert w in b <==> w in multiset(b);
    }
  }

  /** The sum of a tally's counts. */
  ghost function Total(counts: map<string, nat>): nat
    decreases |counts|
  {
    if counts == map[] then 0
    else
      var k := Pick(counts.Keys);
      counts[k] + Total(counts - {k})
  }

  /** Any key of the tally can be summed first. */
  lemma {:induction false} TotalRemove(counts: map<string, nat>, x: string)
    requires x in counts
    ensures Total(counts) == counts[x] + Total(counts - {x})
    decreases |counts|
  {
    var k := Pick(counts.Keys);
    if k != x {
      TotalRemove(counts - {k}, x);
      TotalRemove(counts - {x}, k);
      assert counts - {k} - {x} == counts - {x} - {k};
    }
  }

  /** The counts sum to the number of words. */
  lemma {:induction false} WordCountsTotal(words: seq<string>)
    ensures Total(WordCounts(words)) == |words|
    decreases |words|
  {
    if words != [] {
      var n := |words| - 1;
      var counts := WordCounts(words[..n]);
      var w := words[n];
      WordCountsTotal(words[..n]);
      var updated := WordCounts(words);
      TotalRemove(updated, w);
      if w in counts {
        TotalRemove(counts, w);
        assert updated - {w} == counts - {w};
      } else {
        assert updated - {w} == counts;
      }
    }
  }
}
