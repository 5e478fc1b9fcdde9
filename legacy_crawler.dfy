/** The first version of the crawler: an inverted index from each word to
    the course ids of the blocks it occurs in, one id per occurrence, and a
    crawl that only ever queues links its follow policy accepts. */
module LegacyCrawler {
  import opened Wrappers
  import opened Seqs
  import opened Text
  import opened Dicts
  import opened Blocks
  import opened Tokenizer
  import opened UrlPolicy
  import opened Indexer
  import opened Crawler

  /** Word -> the course id of every occurrence of the word, in order. */
  type WordIndex = Dict<seq<string>>

  /** `block.find("b", class_="card-title")` found nothing, so `.text`
      raises and the crawl stops. */
  datatype LegacyError = MissingTitle

  /** `identify_common_words(words, threshold)`: the words counted at least
      `threshold` times, once each, in order of first occurrence. */
  function LegacyCommonWords(words: seq<string>, threshold: int): (common: seq<string>)
    ensures Distinct(common)
    ensures forall w :: w in common <==> w in words && multiset(words)[w] >= threshold
  {
    Frequent(AppendNew([], words), words, threshold)
  }

  /** The candidates counted at least `threshold` times in `words`. */
  function Frequent(candidates: seq<string>, words: seq<string>, threshold: int): (r: seq<string>)
    ensures forall w :: w in r <==> w in candidates && multiset(words)[w] >= threshold
    ensures Distinct(candidates) ==> Distinct(r)
  {
    if candidates == [] then []
    else
      var last := candidates[|candidates| - 1];
      Frequent(candidates[..|candidates| - 1], words, threshold)
      + (if multiset(words)[last] >= threshold then [last] else [])
  }

  /** The tokens of a block's title and description under the first
      version's pattern. */
  function BlockTokens(block: Block): seq<string>
  {
    FindAll(Ascii, LowerStr(ExtractCourseTitle(block) + " " + ExtractCourseDescription(block)))
  }

  /** The tokens that survive the block's own common-word filter. */
  function BlockWords(block: Block): seq<string>
  {
    var tokens := BlockTokens(block);
    Without(tokens, set w | w in LegacyCommonWords(tokens, THRESHOLD))
  }

  /** `for word in words: index.setdefault(word, []).append(course_id)`. */
  function AddIds(ix: WordIndex, words: seq<string>, id: string): WordIndex
  {
    if words == [] then ix
    else
      var ix1 := EnsureEntry(AddIds(ix, words[..|words| - 1], id), words[|words| - 1]);
      ix1.Put(words[|words| - 1], ix1.items[words[|words| - 1]] + [id])
  }

  /** One block: its words, each mapped to the block's id, or to
      "ID not found" when its title is not in the course dictionary. */
  function IndexBlock(ix: WordIndex, block: Block, courseDict: map<string, string>): Result<WordIndex, LegacyError>
  {
    if block.titles == [] then Err(MissingTitle)
    else Ok(AddIds(ix, BlockWords(block), LookupId(courseDict, ExtractCourseTitle(block))))
  }

  function IndexBlocks(ix: WordIndex, blocks: seq<Block>, courseDict: map<string, string>): Result<WordIndex, LegacyError>
  {
    if blocks == [] then Ok(ix)
    else
      match IndexBlocks(ix, blocks[..|blocks| - 1], courseDict)
      case Err(e) => Err(e)
      case Ok(ix1) => IndexBlock(ix1, blocks[|blocks| - 1], courseDict)
  }

  /** `k` copies of `id`. */
  function Copies(id: string, k: nat): (r: seq<string>)
    ensures |r| == k && forall i :: 0 <= i < k ==> r[i] == id
  {
    seq(k, i => id)
  }

  /** Mapping words to an id extends the list of every word by one copy of
      the id per occurrence of the word, and leaves other words alone. */
  lemma AddIdsEffect(ix: WordIndex, words: seq<string>, id: string, w: string)
    ensures var r := AddIds(ix, words, id);
            && (ix.Valid() ==> r.Valid())
            && (w in r.items <==> w in ix.items || w in words)
            && (w in r.items ==>
                  r.items[w] == (if w in ix.items then ix.items[w] else []) + Copies(id, multiset(words)[w]))
  {
    if ix.Valid() {
      AddIdsValid(ix, words, id);
    }
    AddIdsContent(ix, words, id, w);
  }

  /** What `AddIds` does to the entry of `w`. */
  predicate AddsCopies(ix: WordIndex, words: seq<string>, id: string, w: string)
  {
    var r := AddIds(ix, words, id);
    && (w in r.items <==> w in ix.items || w in words)
    && (w in r.items ==>
          r.items[w] == (if w in ix.items then ix.items[w] else []) + Copies(id, multiset(words)[w]))
  }

  lemma {:induction false} AddIdsContent(ix: WordIndex, words: seq<string>, id: string, w: string)
    ensures AddsCopies(ix, words, id, w)
  {
    if words != [] {
      AddIdsContent(ix, words[..|words| - 1], id, w);
      AddIdsContentStep(ix, words, id, w);
    }
  }

  lemma AddIdsContentStep(ix: WordIndex, words: seq<string>, id: string, w: string)
    requires words != []
    requires AddsCopies(ix, words[..|words| - 1], id, w)
    ensures AddsCopies(ix, words, id, w)
  {
    var init := words[..|words| - 1];
    var last := words[|words| - 1];
    var before := if w in ix.items then ix.items[w] else [];
    var k := multiset(init)[w];
    var r1 := AddIds(ix, init, id);
    AddIdStep(r1, last, id, w);
    MultisetSnoc(words, w);
    if w in r1.items {
      assert r1.items[w] == before + Copies(id, k);
    } else {
      assert k == 0 && before == [];
    }
    if w == last {
      CopiesSnoc(id, k);
    }
  }

  lemma MultisetSnoc(words: seq<string>, w: string)
    requires words != []
    ensures var init := words[..|words| - 1];
            && (w in words <==> w in init || w == words[|words| - 1])
            && multiset(words)[w] == multiset(init)[w] + (if w == words[|words| - 1] then 1 else 0)
  {
    assert words == words[..|words| - 1] + [words[|words| - 1]];
  }

  lemma CopiesSnoc(id: string, k: nat)
    ensures Copies(id, k) + [id] == Copies(id, k + 1)
  {
  }

  /** Mapping one word to an id. */
  lemma AddIdStep(r1: WordIndex, last: string, id: string, w: string)
    ensures var ix1 := EnsureEntry(r1, last);
            var r := ix1.Put(last, ix1.items[last] + [id]);
            && (w in r.items <==> w in r1.items || w == last)
            && (w in r.items ==>
                  r.items[w] == (if w in r1.items then r1.items[w] else []) + (if w == last then [id] else []))
  {
  }

  lemma {:induction false} AddIdsValid(ix: WordIndex, words: seq<string>, id: string)
    requires ix.Valid()
    ensures AddIds(ix, words, id).Valid()
  {
    if words != [] {
      AddIdsValid(ix, words[..|words| - 1], id);
    }
  }

  /** What one block adds: every token of its title and description is
      mapped to the block's id once per occurrence, unless it occurs at
      least ten times in the block, in which case it is not mapped at all. */
  lemma BlockEffect(ix: WordIndex, block: Block, courseDict: map<string, string>, w: string)
    requires block.titles != []
    ensures var r := IndexBlock(ix, block, courseDict).value;
            var c := multiset(BlockTokens(block))[w];
            var id := LookupId(courseDict, ExtractCourseTitle(block));
            && (ix.Valid() ==> r.Valid())
            && (w in r.items <==> w in ix.items || (w in BlockTokens(block) && c < THRESHOLD))
            && (w in r.items ==>
                  r.items[w] == (if w in ix.items then ix.items[w] else []) + Copies(id, if c < THRESHOLD then c else 0))
  {
    var tokens := BlockTokens(block);
    var common := set u | u in LegacyCommonWords(tokens, THRESHOLD);
    AddIdsEffect(ix, BlockWords(block), LookupId(courseDict, ExtractCourseTitle(block)), w);
    assert w in common <==> w in tokens && multiset(tokens)[w] >= THRESHOLD;
    assert multiset(BlockWords(block))[w] == if w in common then 0 else multiset(tokens)[w];
  }

  /** The loop that maps the words of one block to its id. */
  method MapWords(ix: WordIndex, words: seq<string>, id: string) returns (index: WordIndex)
    ensures index == AddIds(ix, words, id)
  {
    index := ix;
    var k := 0;
    while k < |words|
      invariant 0 <= k <= |words|
      invariant index == AddIds(ix, words[..k], id)
    {
      assert words[..k + 1][..k] == words[..k];
      var word := words[k];
      if word !in index.items {
        index := index.Put(word, []);
      }
      index := index.Put(word, index.items[word] + [id]);
      k := k + 1;
    }
    assert words[..|words|] == words;
  }

  /** The body of the block loop of `build_index`. */
  method AddBlock(ix: WordIndex, block: Block, courseDict: map<string, string>)
    returns (r: Result<WordIndex, LegacyError>)
    ensures r == IndexBlock(ix, block, courseDict)
  {
    if block.titles == [] {
      return Err(MissingTitle);
    }
    var title := ExtractCourseTitle(block);
    var description := ExtractCourseDescription(block);
    var words := FindAll(Ascii, LowerStr(title + " " + description));
    var common := LegacyCommonWords(words, THRESHOLD);
    words := Without(words, set w | w in common);
    var id := LookupId(courseDict, title);
    var index := MapWords(ix, words, id);
    r := Ok(index);
  }

  /** `build_index(index, soup, course_dict)` of the first version. */
  method BuildIndexLegacy(ix: WordIndex, blocks: seq<Block>, courseDict: map<string, string>)
    returns (r: Result<WordIndex, LegacyError>)
    ensures r == IndexBlocks(ix, blocks, courseDict)
  {
    var index := ix;
    var i := 0;
    assert blocks[..0] == [];
    while i < |blocks|
      invariant 0 <= i <= |blocks|
      invariant IndexBlocks(ix, blocks[..i], courseDict) == Ok(index)
    {
      var step := AddBlock(index, blocks[i], courseDict);
      IndexBlocksStep(ix, blocks, i, index, courseDict, step);
      if step.Err? {
        return step;
      }
      index := step.value;
      i := i + 1;
    }
    assert blocks[..|blocks|] == blocks;
    r := Ok(index);
  }

  /** One pass of the block loop: a failure is the overall result, a success
      is the fold over one more block. */
  lemma IndexBlocksStep(ix: WordIndex, blocks: seq<Block>, i: nat, index: WordIndex, courseDict: map<string, string>,
                        step: Result<WordIndex, LegacyError>)
    requires i < |blocks|
    requires IndexBlocks(ix, blocks[..i], courseDict) == Ok(index)
    requires step == IndexBlock(index, blocks[i], courseDict)
    ensures step.Err? ==> IndexBlocks(ix, blocks, courseDict) == step
    ensures step.Ok? ==> IndexBlocks(ix, blocks[..i + 1], courseDict) == step
  {
    IndexBlocksOfPrefix(ix, blocks, i, index, courseDict);
    if step.Err? {
      IndexBlocksErrPersists(ix, blocks, i + 1, courseDict);
    }
  }

  lemma IndexBlocksOfPrefix(ix: WordIndex, blocks: seq<Block>, i: nat, index: WordIndex, courseDict: map<string, string>)
    requires i < |blocks|
    requires IndexBlocks(ix, blocks[..i], courseDict) == Ok(index)
    ensures IndexBlocks(ix, blocks[..i + 1], courseDict) == IndexBlock(index, blocks[i], courseDict)
  {
    assert blocks[..i + 1][..i] == blocks[..i];
  }

  lemma {:induction false} IndexBlocksErrPersists(ix: WordIndex, blocks: seq<Block>, k: nat, courseDict: map<string, string>)
    requires k <= |blocks|
    requires IndexBlocks(ix, blocks[..k], courseDict).Err?
    ensures IndexBlocks(ix, blocks, courseDict) == IndexBlocks(ix, blocks[..k], courseDict)
  {
    if k == |blocks| {
      assert blocks[..k] == blocks;
    } else {
      var init := blocks[..|blocks| - 1];
      assert init[..k] == blocks[..k];
      IndexBlocksErrPersists(ix, init, k, courseDict);
    }
  }

  // ---------------------------------------------------------------------
  // The crawl
  // ---------------------------------------------------------------------

  /** The links that the first version queues: resolved, accepted by the
      follow policy and not yet visited. */
  function FollowedLinks(lib: UrlLib, current: string, visited: set<string>, hrefs: seq<string>): (r: seq<string>)
    ensures forall u :: u in r ==> IsUrlOkToFollow(lib, u, DOMAIN) && u !in visited
  {
    if hrefs == [] then []
    else
      var init := FollowedLinks(lib, current, visited, hrefs[..|hrefs| - 1]);
      var full := lib.join(current, hrefs[|hrefs| - 1]);
      if IsUrlOkToFollow(lib, full, DOMAIN) && full !in visited then init + [full] else init
  }

  /** A resolved link is queued exactly when the policy accepts it and it
      was not visited. */
  lemma {:induction false} FollowedLinksComplete(lib: UrlLib, current: string, visited: set<string>, hrefs: seq<string>, k: nat)
    requires k < |hrefs|
    requires IsUrlOkToFollow(lib, lib.join(current, hrefs[k]), DOMAIN)
    requires lib.join(current, hrefs[k]) !in visited
    ensures lib.join(current, hrefs[k]) in FollowedLinks(lib, current, visited, hrefs)
  {
    if k < |hrefs| - 1 {
      assert hrefs[..|hrefs| - 1][k] == hrefs[k];
      FollowedLinksComplete(lib, current, visited, hrefs[..|hrefs| - 1], k);
    }
  }

  method DiscoverFollowedLinks(lib: UrlLib, current: string, visited: set<string>, hrefs: seq<string>)
    returns (targets: seq<string>)
    ensures targets == FollowedLinks(lib, current, visited, hrefs)
  {
    targets := [];
    var k := 0;
    while k < |hrefs|
      invariant 0 <= k <= |hrefs|
      invariant targets == FollowedLinks(lib, current, visited, hrefs[..k])
    {
      assert hrefs[..k + 1][..k] == hrefs[..k];
      var fullUrl := lib.join(current, hrefs[k]);
      if IsUrlOkToFollow(lib, fullUrl, DOMAIN) && fullUrl !in visited {
        targets := targets + [fullUrl];
      }
      k := k + 1;
    }
    assert hrefs[..|hrefs|] == hrefs;
  }

  datatype LegacyCrawl = LegacyCrawl(visited: set<string>, queue: seq<string>, index: WordIndex, requested: seq<string>)

  function LegacyVisit(s: LegacyCrawl, url: string, courseDict: map<string, string>, web: Web, lib: UrlLib)
    : (r: Result<LegacyCrawl, LegacyError>)
    requires url !in s.visited
    ensures r.Ok? ==> r.value.visited == s.visited + {url} && r.value.requested == s.requested + [url]
    ensures url !in web ==> r == Ok(LegacyCrawl(s.visited + {url}, s.queue, s.index, s.requested + [url]))
  {
    var visited := s.visited + {url};
    if url !in web then Ok(LegacyCrawl(visited, s.queue, s.index, s.requested + [url]))
    else
      var page := web[url];
      var queue := s.queue + FollowedLinks(lib, url, visited, page.links);
      match IndexBlocks(s.index, page.cards, courseDict)
      case Err(e) => Err(e)
      case Ok(ix) => Ok(LegacyCrawl(visited, queue, ix, s.requested + [url]))
  }

  function LegacyCrawlFrom(n: int, s: LegacyCrawl, courseDict: map<string, string>, web: Web, lib: UrlLib)
    : Result<LegacyCrawl, LegacyError>
    decreases if |s.visited| < n then n - |s.visited| else 0, |s.queue|
  {
    if s.queue == [] || |s.visited| >= n then Ok(s)
    else
      var url := s.queue[0];
      var s1 := s.(queue := s.queue[1..]);
      if url in s.visited then LegacyCrawlFrom(n, s1, courseDict, web, lib)
      else
        match LegacyVisit(s1, url, courseDict, web, lib)
        case Err(e) => Err(e)
        case Ok(s2) => LegacyCrawlFrom(n, s2, courseDict, web, lib)
  }

  function LegacyCrawlSpec(n: int, courseDict: map<string, string>, web: Web, lib: UrlLib): Result<LegacyCrawl, LegacyError>
  {
    LegacyCrawlFrom(n, LegacyCrawl({}, [START_URL], EmptyDict(), []), courseDict, web, lib)
  }

  /** Every URL the first version queues or requests, other than the start
      page, is one its follow policy accepts; it requests each at most once
      and no more than the budget. */
  ghost predicate LegacyInv(s: LegacyCrawl, lib: UrlLib)
  {
    && Distinct(s.requested)
    && |s.visited| == |s.requested|
    && (forall u :: u in s.visited <==> u in s.requested)
    && (forall u :: u in s.queue ==> u == START_URL || IsUrlOkToFollow(lib, u, DOMAIN))
    && (forall u :: u in s.requested ==> u == START_URL || IsUrlOkToFollow(lib, u, DOMAIN))
    && s.index.Valid()
  }

  lemma IndexBlocksValid(ix: WordIndex, blocks: seq<Block>, courseDict: map<string, string>)
    requires ix.Valid()
    requires IndexBlocks(ix, blocks, courseDict).Ok?
    ensures IndexBlocks(ix, blocks, courseDict).value.Valid()
  {
    if blocks != [] {
      IndexBlocksValid(ix, blocks[..|blocks| - 1], courseDict);
      var ix1 := IndexBlocks(ix, blocks[..|blocks| - 1], courseDict).value;
      AddIdsValid(ix1, BlockWords(blocks[|blocks| - 1]), LookupId(courseDict, ExtractCourseTitle(blocks[|blocks| - 1])));
    }
  }

  lemma LegacyVisitKeepsInv(s: LegacyCrawl, url: string, courseDict: map<string, string>, web: Web, lib: UrlLib)
    requires url !in s.visited
    requires LegacyInv(s, lib)
    requires url == START_URL || IsUrlOkToFollow(lib, url, DOMAIN)
    requires LegacyVisit(s, url, courseDict, web, lib).Ok?
    ensures LegacyInv(LegacyVisit(s, url, courseDict, web, lib).value, lib)
  {
    var s' := LegacyVisit(s, url, courseDict, web, lib).value;
    assert s'.requested[..|s'.requested| - 1] == s.requested;
    if url in web {
      IndexBlocksValid(s.index, web[url].cards, courseDict);
    }
  }

  lemma LegacyCrawlFromKeepsInv(n: int, s: LegacyCrawl, courseDict: map<string, string>, web: Web, lib: UrlLib)
    requires LegacyInv(s, lib)
    requires LegacyCrawlFrom(n, s, courseDict, web, lib).Ok?
    decreases if |s.visited| < n then n - |s.visited| else 0, |s.queue|
    ensures var s' := LegacyCrawlFrom(n, s, courseDict, web, lib).value;
            && LegacyInv(s', lib)
            && |s'.requested| <= (if |s.requested| < n then n else |s.requested|)
  {
    if s.queue != [] && |s.visited| < n {
      var url := s.queue[0];
      var s1 := s.(queue := s.queue[1..]);
      assert url in s.queue;
      assert LegacyInv(s1, lib);
      if url in s.visited {
        assert LegacyCrawlFrom(n, s, courseDict, web, lib) == LegacyCrawlFrom(n, s1, courseDict, web, lib);
        LegacyCrawlFromKeepsInv(n, s1, courseDict, web, lib);
      } else {
        var s2 := LegacyVisit(s1, url, courseDict, web, lib).value;
        assert LegacyCrawlFrom(n, s, courseDict, web, lib) == LegacyCrawlFrom(n, s2, courseDict, web, lib);
        LegacyVisitKeepsInv(s1, url, courseDict, web, lib);
        LegacyCrawlFromKeepsInv(n, s2, courseDict, web, lib);
      }
    }
  }

  /** The first version stays on the catalog's domain: every URL it
      requests is the start page or one its follow policy accepts, none
      twice, and at most `n` of them. */
  lemma LegacyCrawlStaysInDomain(n: int, courseDict: map<string, string>, web: Web, lib: UrlLib)
    requires LegacyCrawlSpec(n, courseDict, web, lib).Ok?
    ensures var s := LegacyCrawlSpec(n, courseDict, web, lib).value;
            && Distinct(s.requested)
            && |s.requested| <= (if n < 0 then 0 else n)
            && (forall u :: u in s.requested ==> u == START_URL || IsUrlOkToFollow(lib, u, DOMAIN))
            && s.index.Valid()
  {
    var s0 := LegacyCrawl({}, [START_URL], EmptyDict(), []);
    assert LegacyInv(s0, lib);
    LegacyCrawlFromKeepsInv(n, s0, courseDict, web, lib);
  }

  /** The crawl loop of the first version's `go`. */
  method LegacyCrawlSite(n: int, courseDict: map<string, string>, web: Web, lib: UrlLib)
    returns (r: Result<WordIndex, LegacyError>)
    ensures LegacyCrawlSpec(n, courseDict, web, lib).Ok? <==> r.Ok?
    ensures r.Ok? ==> r.value == LegacyCrawlSpec(n, courseDict, web, lib).value.index
  {
    var visited: set<string> := {};
    var queue := [START_URL];
    var index: WordIndex := EmptyDict();
    ghost var requested: seq<string> := [];
    while queue != [] && |visited| < n
      invariant LegacyCrawlFrom(n, LegacyCrawl(visited, queue, index, requested), courseDict, web, lib)
             == LegacyCrawlSpec(n, courseDict, web, lib)
      decreases if |visited| < n then n - |visited| else 0, |queue|
    {
      var current := queue[0];
      queue := queue[1..];
      if current in visited {
        continue;
      }
      visited := visited + {current};
      requested := requested + [current];
      if current in web {
        var page := web[current];
        var found := DiscoverFollowedLinks(lib, current, visited, page.links);
        queue := queue + found;
        var step := BuildIndexLegacy(index, page.cards, courseDict);
        if step.Err? {
          return Err(step.error);
        }
        index := step.value;
      }
    }
    r := Ok(index);
  }

  // ---------------------------------------------------------------------
  // The table
  // ---------------------------------------------------------------------

  const LEGACY_HEADER: Row := ["Word", "Course IDs"]

  /** `[word, ", ".join(ids)]` for each word, in dictionary order. */
  function LegacyRows(keys: seq<string>, items: map<string, seq<string>>): (rows: seq<Row>)
    requires forall k :: k in keys ==> k in items
    ensures |rows| == |keys|
    ensures forall i :: 0 <= i < |keys| ==> rows[i] == [keys[i], Join(", ", items[keys[i]])]
  {
    if keys == [] then []
    else LegacyRows(keys[..|keys| - 1], items) + [[keys[|keys| - 1], Join(", ", items[keys[|keys| - 1]])]]
  }

  function LegacyTable(ix: WordIndex): seq<Row>
    requires ix.Valid()
  {
    [LEGACY_HEADER] + LegacyRows(ix.keys, ix.items)
  }

  method WriteLegacyTable(ix: WordIndex) returns (rows: seq<Row>)
    requires ix.Valid()
    ensures rows == LegacyTable(ix)
  {
    rows := [LEGACY_HEADER];
    var i := 0;
    while i < |ix.keys|
      invariant 0 <= i <= |ix.keys|
      invariant rows == [LEGACY_HEADER] + LegacyRows(ix.keys[..i], ix.items)
    {
      assert ix.keys[..i + 1][..i] == ix.keys[..i];
      var word := ix.keys[i];
      rows := rows + [[word, Join(", ", ix.items[word])]];
      i := i + 1;
    }
    assert ix.keys[..|ix.keys|] == ix.keys;
  }

  /** `go(n, dictionary, output)` of the first version: the crawl, then the
      word table of its index. */
  method LegacyGo(n: int, courseDict: map<string, string>, web: Web, lib: UrlLib)
    returns (r: Result<seq<Row>, LegacyError>)
    ensures LegacyCrawlSpec(n, courseDict, web, lib).Ok? <==> r.Ok?
    ensures r.Ok? ==> var ix := LegacyCrawlSpec(n, courseDict, web, lib).value.index;
                      ix.Valid() && r.value == LegacyTable(ix)
  {
    var crawled := LegacyCrawlSite(n, courseDict, web, lib);
    if crawled.Err? {
      return Err(crawled.error);
    }
    LegacyCrawlStaysInDomain(n, courseDict, web, lib);
    var table := WriteLegacyTable(crawled.value);
    r := Ok(table);
  }
}
