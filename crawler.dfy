/** `go` of the current crawler: a breadth-first crawl from the catalog's
    start page that indexes every page it fetches, then the two tables it
    writes. HTTP is a map from requested URL to the page answered with
    status 200; a URL the map does not hold answers with another status. */
module Crawler {
  import opened Wrappers
  import opened Seqs
  import opened Dicts
  import opened Blocks
  import opened UrlPolicy
  import opened Indexer

  const START_URL: string := "https://educacionvirtual.javeriana.edu.co/nuestros-programas-nuevo"
  const DOMAIN: string := "educacionvirtual.javeriana.edu.co"

  /** Requested URL -> the page served with status 200. */
  type Web = map<string, Page>

  // ---------------------------------------------------------------------
  // Discovered links
  // ---------------------------------------------------------------------

  /** Where one `href` of the page at `current` goes in the queue, if
      anywhere: its resolved form when that is unvisited and may be followed,
      otherwise the resolved form resolved once more when it names no host
      and is not empty; nothing for a visited link. */
  function LinkTarget(lib: UrlLib, current: string, visited: set<string>, href: string): (r: Option<string>)
    ensures lib.join(current, href) in visited ==> r.None?
    ensures lib.join(current, href) !in visited && IsUrlOkToFollow(lib, lib.join(current, href), DOMAIN)
            ==> r == Some(lib.join(current, href))
    ensures r.Some? && !IsUrlOkToFollow(lib, lib.join(current, href), DOMAIN)
            ==> && !IsAbsoluteUrl(lib, lib.join(current, href))
                && r.value == lib.join(current, lib.join(current, href))
                && r.value != ""
    ensures lib.join(current, href) !in visited && !IsUrlOkToFollow(lib, lib.join(current, href), DOMAIN)
            && !IsAbsoluteUrl(lib, lib.join(current, href)) && lib.join(current, lib.join(current, href)) != ""
            ==> r == Some(lib.join(current, lib.join(current, href)))
  {
    var full := lib.join(current, href);
    if full in visited then None
    else if IsUrlOkToFollow(lib, full, DOMAIN) then Some(full)
    else
      match ConvertIfRelativeUrl(lib, current, full)
      case Some(u) => if u != "" then Some(u) else None
      case None => None
  }

  /** The URLs the links of one page add to the queue, in link order. */
  function LinkTargets(lib: UrlLib, current: string, visited: set<string>, hrefs: seq<string>): seq<string>
  {
    if hrefs == [] then []
    else
      var init := LinkTargets(lib, current, visited, hrefs[..|hrefs| - 1]);
      match LinkTarget(lib, current, visited, hrefs[|hrefs| - 1])
      case Some(u) => init + [u]
      case None => init
  }

  /** A URL is queued exactly when some link of the page leads to it. */
  lemma {:induction false} LinkTargetsIff(lib: UrlLib, current: string, visited: set<string>, hrefs: seq<string>, u: string)
    ensures u in LinkTargets(lib, current, visited, hrefs)
        <==> exists k :: 0 <= k < |hrefs| && LinkTarget(lib, current, visited, hrefs[k]) == Some(u)
  {
    if hrefs != [] {
      var init := hrefs[..|hrefs| - 1];
      LinkTargetsIff(lib, current, visited, init, u);
      if exists k :: 0 <= k < |init| && LinkTarget(lib, current, visited, init[k]) == Some(u) {
        var k :| 0 <= k < |init| && LinkTarget(lib, current, visited, init[k]) == Some(u);
        assert hrefs[k] == init[k];
      }
      if exists k :: 0 <= k < |hrefs| && LinkTarget(lib, current, visited, hrefs[k]) == Some(u) {
        var k :| 0 <= k < |hrefs| && LinkTarget(lib, current, visited, hrefs[k]) == Some(u);
        if k < |init| {
          assert init[k] == hrefs[k];
        }
      }
    }
  }

  /** A link whose resolved form names no host is queued whatever the
      follow policy says: with a `urljoin` that leaves a `mailto:` link as it
      is, the crawl queues that link although it may not be followed. */
  lemma RelativeFallbackBypassesPolicy()
    ensures var lib := UrlLib(u => "", u => "", (base: string, url: string) => "mailto:x");
            && !IsUrlOkToFollow(lib, "mailto:x", DOMAIN)
            && LinkTargets(lib, START_URL, {}, ["mailto:x"]) == ["mailto:x"]
  {
    var lib := UrlLib(u => "", u => "", (base: string, url: string) => "mailto:x");
    assert ["mailto:x"][..0] == [];
    assert LinkTarget(lib, START_URL, {}, "mailto:x") == Some("mailto:x");
  }

  /** The loop over `soup.find_all("a", href=True)`. */
  method DiscoverLinks(lib: UrlLib, current: string, visited: set<string>, hrefs: seq<string>)
    returns (targets: seq<string>)
    ensures targets == LinkTargets(lib, current, visited, hrefs)
  {
    targets := [];
    var k := 0;
    while k < |hrefs|
      invariant 0 <= k <= |hrefs|
      invariant targets == LinkTargets(lib, current, visited, hrefs[..k])
    {
      assert hrefs[..k + 1][..k] == hrefs[..k];
      var fullUrl := lib.join(current, hrefs[k]);
      if fullUrl !in visited {
        if IsUrlOkToFollow(lib, fullUrl, DOMAIN) {
          targets := targets + [fullUrl];
        } else {
          var converted := ConvertIfRelativeUrl(lib, current, fullUrl);
          if converted.Some? && converted.value != "" {
            targets := targets + [converted.value];
          }
        }
      }
      k := k + 1;
    }
    assert hrefs[..|hrefs|] == hrefs;
  }

  // ---------------------------------------------------------------------
  // The crawl
  // ---------------------------------------------------------------------

  /** The state of the crawl loop: the visited set, the queue, the catalog
      built so far, and every URL requested so far, in order. */
  datatype Crawl = Crawl(visited: set<string>, queue: seq<string>, catalog: Catalog, requested: seq<string>)

  /** Requesting an unvisited URL: it becomes visited; a page served with
      status 200 queues its links and is indexed. */
  function Visit(s: Crawl, url: string, courseDict: map<string, string>, web: Web, lib: UrlLib): (r: Result<Crawl, IndexError>)
    requires url !in s.visited
    ensures r.Ok? ==> r.value.visited == s.visited + {url} && r.value.requested == s.requested + [url]
    ensures url !in web ==> r == Ok(Crawl(s.visited + {url}, s.queue, s.catalog, s.requested + [url]))
  {
    var visited := s.visited + {url};
    if url !in web then Ok(Crawl(visited, s.queue, s.catalog, s.requested + [url]))
    else
      var page := web[url];
      var queue := s.queue + LinkTargets(lib, url, visited, page.links);
      match IndexPage(s.catalog, page, courseDict, lib)
      case Err(e) => Err(e)
      case Ok(c) => Ok(Crawl(visited, queue, c, s.requested + [url]))
  }

  /** The `while` loop of `go` from state `s`, for a page budget `n`. */
  function CrawlFrom(n: int, s: Crawl, courseDict: map<string, string>, web: Web, lib: UrlLib): Result<Crawl, IndexError>
    decreases if |s.visited| < n then n - |s.visited| else 0, |s.queue|
  {
    if s.queue == [] || |s.visited| >= n then Ok(s)
    else
      var url := s.queue[0];
      var s1 := s.(queue := s.queue[1..]);
      if url in s.visited then CrawlFrom(n, s1, courseDict, web, lib)
      else
        match Visit(s1, url, courseDict, web, lib)
        case Err(e) => Err(e)
        case Ok(s2) => CrawlFrom(n, s2, courseDict, web, lib)
  }

  function StartCrawl(): Crawl
  {
    Crawl({}, [START_URL], EmptyCatalog(), [])
  }

  /** The whole crawl of `go(n, ...)`. */
  function CrawlSpec(n: int, courseDict: map<string, string>, web: Web, lib: UrlLib): Result<Crawl, IndexError>
  {
    CrawlFrom(n, StartCrawl(), courseDict, web, lib)
  }

  /** The catalog obtained by indexing, in order, the pages that the
      requested URLs answered with status 200. */
  function IndexFetched(urls: seq<string>, courseDict: map<string, string>, web: Web, lib: UrlLib): Result<Catalog, IndexError>
  {
    if urls == [] then Ok(EmptyCatalog())
    else
      match IndexFetched(urls[..|urls| - 1], courseDict, web, lib)
      case Err(e) => Err(e)
      case Ok(c) =>
        var url := urls[|urls| - 1];
        if url in web then IndexPage(c, web[url], courseDict, lib) else Ok(c)
  }

  /** What the crawl state satisfies at every turn of the loop. */
  ghost predicate CrawlInv(s: Crawl, courseDict: map<string, string>, web: Web, lib: UrlLib)
  {
    && Distinct(s.requested)
    && |s.visited| == |s.requested|
    && (forall u :: u in s.visited <==> u in s.requested)
    && IndexFetched(s.requested, courseDict, web, lib) == Ok(s.catalog)
    && Inv(s.catalog)
  }

  lemma VisitKeepsInv(s: Crawl, url: string, courseDict: map<string, string>, web: Web, lib: UrlLib)
    requires url !in s.visited
    requires CrawlInv(s, courseDict, web, lib)
    requires Visit(s, url, courseDict, web, lib).Ok?
    ensures CrawlInv(Visit(s, url, courseDict, web, lib).value, courseDict, web, lib)
  {
    var s' := Visit(s, url, courseDict, web, lib).value;
    assert s'.requested[..|s'.requested| - 1] == s.requested;
    if url in web {
      IndexPageGrows(s.catalog, web[url], courseDict, lib);
    }
  }

  /** The crawl from a state that satisfies the invariant requests each URL
      at most once, never more than `n` in all, indexes exactly the pages it
      requested, in order, and stops only on an empty queue or a spent
      budget. */
  lemma CrawlFromKeepsInv(n: int, s: Crawl, courseDict: map<string, string>, web: Web, lib: UrlLib)
    requires CrawlInv(s, courseDict, web, lib)
    requires CrawlFrom(n, s, courseDict, web, lib).Ok?
    decreases if |s.visited| < n then n - |s.visited| else 0, |s.queue|
    ensures var s' := CrawlFrom(n, s, courseDict, web, lib).value;
            && CrawlInv(s', courseDict, web, lib)
            && IsPrefix(s.requested, s'.requested)
            && |s'.requested| <= (if |s.requested| < n then n else |s.requested|)
            && (s'.queue == [] || |s'.visited| >= n)
  {
    if s.queue != [] && |s.visited| < n {
      var url := s.queue[0];
      var s1 := s.(queue := s.queue[1..]);
      assert CrawlInv(s1, courseDict, web, lib);
      if url in s.visited {
        assert CrawlFrom(n, s, courseDict, web, lib) == CrawlFrom(n, s1, courseDict, web, lib);
        CrawlFromKeepsInv(n, s1, courseDict, web, lib);
      } else {
        var s2 := Visit(s1, url, courseDict, web, lib).value;
        assert CrawlFrom(n, s, courseDict, web, lib) == CrawlFrom(n, s2, courseDict, web, lib);
        VisitKeepsInv(s1, url, courseDict, web, lib);
        assert |s2.requested| == |s.requested| + 1;
        CrawlFromKeepsInv(n, s2, courseDict, web, lib);
        PrefixTransitive(s.requested, s2.requested, CrawlFrom(n, s, courseDict, web, lib).value.requested);
      }
    }
  }

  /** `go(n, ...)` requests at most `n` URLs, none twice, the start page
      first, and its catalog is the one obtained by indexing the pages
      served, in the order they were requested. */
  lemma CrawlRequestsEachUrlOnce(n: int, courseDict: map<string, string>, web: Web, lib: UrlLib)
    requires CrawlSpec(n, courseDict, web, lib).Ok?
    ensures var s := CrawlSpec(n, courseDict, web, lib).value;
            && Distinct(s.requested)
            && |s.requested| <= (if n < 0 then 0 else n)
            && (n > 0 ==> |s.requested| > 0 && s.requested[0] == START_URL)
            && IndexFetched(s.requested, courseDict, web, lib) == Ok(s.catalog)
            && Inv(s.catalog)
  {
    var s0 := StartCrawl();
    assert CrawlInv(s0, courseDict, web, lib);
    CrawlFromKeepsInv(n, s0, courseDict, web, lib);
    if n > 0 {
      var s1 := s0.(queue := []);
      var s2 := Visit(s1, START_URL, courseDict, web, lib).value;
      assert CrawlSpec(n, courseDict, web, lib) == CrawlFrom(n, s2, courseDict, web, lib);
      assert s2.requested == [START_URL];
      VisitKeepsInv(s1, START_URL, courseDict, web, lib);
      CrawlFromKeepsInv(n, s2, courseDict, web, lib);
    }
  }

  /** The crawl loop of `go`. */
  method CrawlSite(n: int, courseDict: map<string, string>, web: Web, lib: UrlLib)
    returns (r: Result<Catalog, IndexError>)
    ensures CrawlSpec(n, courseDict, web, lib).Ok? <==> r.Ok?
    ensures r.Ok? ==> r.value == CrawlSpec(n, courseDict, web, lib).value.catalog
    ensures r.Err? ==> r.error == CrawlSpec(n, courseDict, web, lib).error
  {
    var visited: set<string> := {};
    var queue := [START_URL];
    var catalog := EmptyCatalog();
    ghost var requested: seq<string> := [];
    while queue != [] && |visited| < n
      invariant CrawlFrom(n, Crawl(visited, queue, catalog, requested), courseDict, web, lib)
             == CrawlSpec(n, courseDict, web, lib)
      decreases if |visited| < n then n - |visited| else 0, |queue|
    {
      var current := queue[0];
      queue := queue[1..];
      if current in visited {
        continue;
      }
      visited := visited + {current};
      requested := requested + [current];
      if current in web {
        var page := web[current];
        var found := DiscoverLinks(lib, current, visited, page.links);
        queue := queue + found;
        var step := BuildIndex(catalog, page, courseDict, lib);
        if step.Err? {
          return Err(step.error);
        }
        catalog := step.value;
      }
    }
    r := Ok(catalog);
  }

  // ---------------------------------------------------------------------
  // The two tables `go` writes
  // ---------------------------------------------------------------------

  /** One CSV record, as its list of fields. */
  type Row = seq<string>

  const URL_HEADER: Row := ["Course ID", "URL"]
  const INDEX_HEADER: Row := ["Course ID", "Word"]

  /** `[id, url]` for each course, in dictionary order. */
  function UrlRows(keys: seq<string>, items: map<string, string>): (rows: seq<Row>)
    requires forall k :: k in keys ==> k in items
    ensures |rows| == |keys|
    ensures forall i :: 0 <= i < |keys| ==> rows[i] == [keys[i], items[keys[i]]]
  {
    if keys == [] then []
    else UrlRows(keys[..|keys| - 1], items) + [[keys[|keys| - 1], items[keys[|keys| - 1]]]]
  }

  /** The table written to `data/course_urls.csv`. */
  function UrlTable(urls: CourseUrls): seq<Row>
    requires urls.Valid()
  {
    [URL_HEADER] + UrlRows(urls.keys, urls.items)
  }

  /** `[id, word]` for each word of one course, in list order. */
  function WordRows(id: string, words: seq<string>): (rows: seq<Row>)
    ensures |rows| == |words|
    ensures forall i :: 0 <= i < |words| ==> rows[i] == [id, words[i]]
  {
    seq(|words|, i requires 0 <= i < |words| => [id, words[i]])
  }

  /** The word rows of every course, course after course in dictionary
      order. */
  function IndexRows(keys: seq<string>, items: map<string, seq<string>>): seq<Row>
    requires forall k :: k in keys ==> k in items
  {
    if keys == [] then []
    else IndexRows(keys[..|keys| - 1], items) + WordRows(keys[|keys| - 1], items[keys[|keys| - 1]])
  }

  /** The table written, `|`-delimited, to the output file. */
  function IndexTable(ix: Index): seq<Row>
    requires ix.Valid()
  {
    [INDEX_HEADER] + IndexRows(ix.keys, ix.items)
  }

  /** Every data row of the index table has two fields; the table holds as
      many of them as the index holds words. */
  lemma {:induction false} IndexRowsShape(keys: seq<string>, items: map<string, seq<string>>)
    requires forall k :: k in keys ==> k in items
    ensures forall i :: 0 <= i < |IndexRows(keys, items)| ==>
              |IndexRows(keys, items)[i]| == 2 && IndexRows(keys, items)[i][0] in keys
              && IndexRows(keys, items)[i][1] in items[IndexRows(keys, items)[i][0]]
  {
    if keys != [] {
      var init := keys[..|keys| - 1];
      IndexRowsShape(init, items);
      var rows := IndexRows(keys, items);
      var prefix := IndexRows(init, items);
      forall i | 0 <= i < |rows|
        ensures |rows[i]| == 2 && rows[i][0] in keys && rows[i][1] in items[rows[i][0]]
      {
        if i < |prefix| {
          assert rows[i] == prefix[i];
          assert prefix[i][0] in init;
        } else {
          assert rows[i] == WordRows(keys[|keys| - 1], items[keys[|keys| - 1]])[i - |prefix|];
        }
      }
    }
  }

  /** The first loop that writes `data/course_urls.csv`. */
  method WriteUrlTable(urls: CourseUrls) returns (rows: seq<Row>)
    requires urls.Valid()
    ensures rows == UrlTable(urls)
  {
    rows := [URL_HEADER];
    var i := 0;
    while i < |urls.keys|
      invariant 0 <= i <= |urls.keys|
      invariant rows == [URL_HEADER] + UrlRows(urls.keys[..i], urls.items)
    {
      assert urls.keys[..i + 1][..i] == urls.keys[..i];
      var id := urls.keys[i];
      rows := rows + [[id, urls.items[id]]];
      i := i + 1;
    }
    assert urls.keys[..|urls.keys|] == urls.keys;
  }

  /** The nested loops that write the index table. */
  method WriteIndexTable(ix: Index) returns (rows: seq<Row>)
    requires ix.Valid()
    ensures rows == IndexTable(ix)
  {
    rows := [INDEX_HEADER];
    var i := 0;
    while i < |ix.keys|
      invariant 0 <= i <= |ix.keys|
      invariant rows == [INDEX_HEADER] + IndexRows(ix.keys[..i], ix.items)
    {
      var id := ix.keys[i];
      var words := ix.items[id];
      ghost var written := [INDEX_HEADER] + IndexRows(ix.keys[..i], ix.items);
      var j := 0;
      while j < |words|
        invariant 0 <= j <= |words|
        invariant rows == written + WordRows(id, words[..j])
      {
        WordRowsSnoc(id, words, j);
        AppendAssociative(written, WordRows(id, words[..j]), [[id, words[j]]]);
        rows := rows + [[id, words[j]]];
        j := j + 1;
      }
      assert words[..|words|] == words;
      IndexRowsSnoc(ix.keys, ix.items, i);
      AppendAssociative([INDEX_HEADER], IndexRows(ix.keys[..i], ix.items), WordRows(id, words));
      i := i + 1;
    }
    assert ix.keys[..|ix.keys|] == ix.keys;
  }

  lemma WordRowsSnoc(id: string, words: seq<string>, j: nat)
    requires j < |words|
    ensures WordRows(id, words[..j + 1]) == WordRows(id, words[..j]) + [[id, words[j]]]
  {
  }

  lemma IndexRowsSnoc(keys: seq<string>, items: map<string, seq<string>>, i: nat)
    requires forall k :: k in keys ==> k in items
    requires i < |keys|
    ensures IndexRows(keys[..i + 1], items) == IndexRows(keys[..i], items) + WordRows(keys[i], items[keys[i]])
  {
    assert keys[..i + 1][..i] == keys[..i];
  }

  /** What `go` leaves behind: the course URL table and the index table. */
  datatype Tables = Tables(urlTable: seq<Row>, indexTable: seq<Row>)

  /** `go(n, dictionary, output)`: the crawl, then both tables of the
      catalog it built. */
  method Go(n: int, courseDict: map<string, string>, web: Web, lib: UrlLib)
    returns (r: Result<Tables, IndexError>)
    ensures CrawlSpec(n, courseDict, web, lib).Ok? <==> r.Ok?
    ensures r.Ok? ==> var c := CrawlSpec(n, courseDict, web, lib).value.catalog;
                      c.index.Valid() && c.courseUrls.Valid()
                      && r.value == Tables(UrlTable(c.courseUrls), IndexTable(c.index))
  {
    var crawled := CrawlSite(n, courseDict, web, lib);
    if crawled.Err? {
      return Err(crawled.error);
    }
    CrawlRequestsEachUrlOnce(n, courseDict, web, lib);
    var urlTable := WriteUrlTable(crawled.value.courseUrls);
    var indexTable := WriteIndexTable(crawled.value.index);
    r := Ok(Tables(urlTable, indexTable));
  }
}
