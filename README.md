# course-crawler, modelled in Dafny

The course crawler walks the virtual-education catalog of the Javeriana
University breadth-first from
`https://educacionvirtual.javeriana.edu.co/nuestros-programas-nuevo`. It
fetches at most `n` pages and turns the course cards of every page it fetches
into a course index. Two tables are written from it: course id → URL, and
course id | word. A search ranks the courses by how many query keywords they
list. A comparison gives the Jaccard similarity of the word sets of two
courses. The repository also keeps its first version. That version builds
the inverse index, word → the course ids of each occurrence, and it only
follows links its follow policy accepts.

### Modules

The modules follow the repository's files.

| Module | File | Models |
|---|---|---|
| `Wrappers`, `Seqs`, `Text`, `Dicts` | `wrappers.dfy`, `seqs.dfy`, `text.dfy`, `dicts.dfy` | Option/Result, and the Python idioms the code relies on |
| `UrlPolicy` | `url_policy.dfy` | the URL helpers of `src/util.py` and `util.py` |
| `Blocks` | `blocks.dfy` | `find_sequence`, `extract_course_title`, `extract_course_description` |
| `Tokenizer` | `tokenizer.dfy` | both `word_pattern`s and the current `identify_common_words` |
| `Indexer` | `indexer.dfy` | the current `build_index` |
| `Crawler` | `crawler.dfy` | the current `go`, including its two CSV tables |
| `IndexLoader` | `index_loader.dfy` | `load_index`, along with its round trip against the index table |
| `Search` | `search.dfy` | `search` |
| `Compare` | `compare.dfy` | `compare_courses` |
| `LegacyCrawler` | `legacy_crawler.dfy` | the first version's `identify_common_words`, `build_index` and `go` |

The Python idioms in `Seqs`, `Text` and `Dicts` are:
- `str.strip`, `str.lower`, `" ".join` and `split`;
- insertion-ordered dicts;
- appending only the items that are not yet present;
- list filtering.

The first version's `load_index` and `compare_courses` (`compare.py`) are
the same code as the current ones. They are covered by the same members.

### How the model is built

- **Dictionaries.** A Python dict is a `Dicts.Dict`: its keys in insertion
  order plus a `map`. `Put` keeps the position of a key that is already
  present.
- **Loops.** The code that loops is written as methods with loops:
  - `build_index` (in both versions);
  - `identify_common_words`;
  - the crawl loop of `go`, and the CSV writers;
  - `load_index` and `search`.

  Each such method's postcondition ties its result to a pure function. The
  lemmas beside that function state what the source promises.
- **Values, not in-place updates.** `build_index` updates the caller's
  dicts in place. Its only caller rebinds both names to the result, so the
  model returns the new dicts as values.
- **Parsed HTML.** A course card or nested offering is a `Blocks.Block`
  holding the texts of:
  - its `b.card-title` elements;
  - its `p.card-text` elements;
  - the `div`s directly inside it (`children`), each again a `Block`;
  - the `href` of its first `a`.

  `find_sequence` calls the recursive `find_all("div")`, so it yields every
  `div` below the card at any depth, in document order
  (`Blocks.FindSequence`). A fetched page is a `Page`: its final URL, the
  `href`s of its links and, as its cards, every `div.card-body` at any depth
  in document order.
- **HTTP.** It is a map from the requested URL to the page served with
  status 200. A URL missing from the map is a request that failed or
  answered with another status.
- **`urlparse` and `urljoin`.** They are the fields of a `UrlLib`: arbitrary
  total functions. Every property is proved for all of them.
- **Errors.** The run-time errors of the source are `Result` errors:
  - a card whose course has no URL yet and that has no link
    (`IndexError.MissingCardLink`);
  - a first-version block without a title (`LegacyError.MissingTitle`);
  - an empty index file, or a row that is not two fields
    (`LoadError`);
  - a ranked course without a URL (`SearchError.MissingUrl`).

  Any of them ends the whole run, as the exception does.

### Where the code and the project's description differ

The model follows the code:
- **Current `go` and the follow policy.** The current `go` queues a link
  that `is_url_ok_to_follow` rejects whenever the link names no host. In that
  case it queues `urljoin(current_url, full_url)`; one example is a
  `mailto:` link (`Crawler.RelativeFallbackBypassesPolicy`). Fetching such a
  queued `mailto:` URL makes `requests.get` raise `InvalidSchema`, which ends
  the run; the model treats it as a failed fetch (a URL outside the web
  map), so its run goes on. Staying inside
  the domain is therefore proved only for the first version
  (`LegacyCrawler.LegacyCrawlStaysInDomain`). The current `go` never calls
  `remove_fragment`.
- **One-letter words.** The current pattern needs at least two characters.
  So the card "Intro to X" with the description "x y x z" indexes only
  `intro` and `to` (`Indexer.IntroCardWords`), not `x`, `y` and `z`.
- **Card texts run together.** The description of one card runs into the
  title of the next in the text `identify_common_words` counts
  (`Tokenizer.CardTextsFuse`).
- **Nested offerings.**
  - Only their description is indexed. Their title is used only to look up
    the course id, and its words are never indexed
    (`src/crawler.py:137-155`).
  - Their description words are not filtered against the common words
    (`Indexer.NestedTokensIndexedUnfiltered`).
  - A nested offering never gives its course a URL. A course that appears
    only as a nested offering, and never as a card of a fetched page, has
    index entries but no URL, so a search that ranks it ends with
    `MissingUrl`.
- **Empty entries.** An index entry without words is not written, so
  `load_index` does not read it back (`IndexLoader.EmptyEntryLost`).
- **The first version.**
  - It decides common words per block, from that block's own counts.
  - It maps unknown titles to the id "ID not found".
  - Its imports (`from . import Counter`, `from . import Queue`,
    `from requests import get_request, read_request`) do not resolve. The
    model gives them their evident meaning.

## Model

| member | source | states |
|---|---|---|
| UrlPolicy.ConvertIfRelativeUrl | src/util.py:34-46 | nothing exactly when the link names a host; otherwise the link joined to the page URL |
| UrlPolicy.FollowedUrlsAreAbsolute | src/util.py:22-31 | a URL is absolute iff its parsed host is non-empty, iff it is left unconverted; every URL followed within a named domain is absolute |
| UrlPolicy.RemoveFragment | src/util.py:49-58 | the result is the longest prefix of the URL without `#`: it holds no `#`, it is the whole URL when that has no `#`, and otherwise the URL continues with `#` |
| UrlPolicy.RemoveFragmentIdempotent | util.py:31-40 | removing the fragment twice is removing it once |
| UrlPolicy.IsUrlOkToFollow | src/util.py:61-90 | rejects a URL that does not start with "http", has another host, or holds "@" or "mailto:"; otherwise accepts exactly a path ending in "/" or ".html", or a last segment without "." |
| UrlPolicy.EmptyPathFollowed | src/util.py:83-88 | a URL on the domain with an empty path is followed |
| UrlPolicy.LastSegmentKeepsExtension | src/util.py:87 | a path ending in an extension without "/" has a last segment containing "." |
| UrlPolicy.AssetRejected | util.py:68-77 | a path ending in an extension other than ".html" is never followed |
| Blocks.ExtractCourseTitle | src/util.py:107-126 | the title is the first title element stripped, and empty when there is none; so it is empty iff there is no title element or the first one is all white space, and otherwise starts and ends with non-space |
| Blocks.ExtractCourseDescription | src/util.py:129-148 | the paragraph texts, each stripped, joined by single spaces, and empty when there is no paragraph; empty iff there is no paragraph or a single blank one |
| Blocks.FindSequence | src/util.py:93-104 | `find_all("div")`: every div directly inside the card is found, the result is closed under taking inner divs, everything found is a direct child or inside something found, and the result is empty iff the card holds no div |
| Blocks.FindSequenceUnfolds | src/util.py:93-104 | the search visits a card's divs in document order: the first inner div, then everything inside it, then the divs after it |
| Blocks.WhitespaceParagraphsKeepSeparators | src/util.py:141-148 | k blank paragraphs give k-1 spaces, not the empty description |
| Text.Strip | src/util.py:122 | `str.strip`: the result is a slice of the text with only white space cut off on either side; it is empty iff the text is all white space, and otherwise starts and ends with non-space |
| Text.StripTrimmed | src/util.py:122 | a text that already starts and ends with non-space is unchanged by strip |
| Text.Lower | src/crawler.py:120 | lower-casing leaves no upper-case letter and moves upper-case letters by 0x20 |
| Text.LowerStrAppend | src/crawler.py:80 | lower-casing distributes over concatenation |
| Text.JoinEmpty | src/util.py:144 | joining gives the empty string iff there are no parts or one empty part |
| Seqs.AppendNew | src/crawler.py:133-135 | appending only missing items extends the list, adds exactly the items, and keeps it free of duplicates |
| Seqs.AppendNewFirstOccurrence | src/crawler.py:133-135 | every appended item comes from the items and was not in the list, and the appended items come in the order of their first occurrence among the items |
| Seqs.Without | src/crawler.py:122 | the filtered list holds exactly the words not excluded, each as often as before |
| Tokenizer.RunLength | src/crawler.py:35 | the maximal run of word characters at the start of the text |
| Tokenizer.FindAll | src/crawler.py:35 | every token is a word of the pattern: a letter, then letters, digits or `_`, at least the pattern's minimum length |
| Tokenizer.TokenCharsFromText | src/crawler.py:35 | every character of a token occurs in the text |
| Tokenizer.TokensOfLowerCaseText | src/crawler.py:120 | tokens of lower-cased text have no upper-case letter |
| Tokenizer.SingleLettersOnlyInLegacy | src/crawler.py:35 | on "a bc" the current pattern finds only "bc" and the first version's (crawler.py line 18) finds "a" and "bc" |
| Tokenizer.SingleLettersGiveNoTokens | src/crawler.py:35 | text with no two adjacent word characters has no token under the current pattern |
| Tokenizer.AccentsOnlyInCurrent | crawler.py:18 | "tú" is a token of the current pattern and no token at all of the first version's |
| Tokenizer.WordThenSeparator | src/crawler.py:35 | a word followed by a separator is the next token |
| Tokenizer.SeparatorSkipped | src/crawler.py:35 | a leading separator contributes no token |
| Tokenizer.IntroTokens | src/crawler.py:120 | "intro to x x y x z" has the tokens "intro" and "to" only |
| Tokenizer.CommonWordsMembers | src/crawler.py:38-86 | the preset words are always common; any other word is common iff the page text holds it at least `threshold` times |
| Tokenizer.IdentifyCommonWords | src/crawler.py:63-86 | the loop computes the page's common words |
| Tokenizer.CardTextsFuse | src/crawler.py:78 | cards "ab"/"cd" and "ef" give the page text "ab cdef " whose tokens are "ab" and "cdef" |
| Indexer.EnsureEntry | src/crawler.py:130-131 | afterwards the course has an entry |
| Indexer.AddWordsGrows | src/crawler.py:133-135 | adding words keeps the invariant, keeps the key order, and the course lists exactly its old words and the new ones |
| Indexer.EnsureEntryGrows | src/crawler.py:130-131 | an existing entry is untouched; a new one is empty; the invariant holds |
| Indexer.IndexSequenceGrows | src/crawler.py:137-155 | a nested offering keeps the invariant and only extends the catalog |
| Indexer.IndexSequencesGrows | src/crawler.py:137-155 | all nested offerings of a card keep the invariant and only extend the catalog |
| Indexer.IndexPrimaryGrows | src/crawler.py:114-135 | a card's own entry keeps the invariant and only extends the catalog |
| Indexer.IndexCardGrows | src/crawler.py:106-155 | a card keeps the invariant and only extends the catalog |
| Indexer.IndexCardsGrows | src/crawler.py:106-156 | all cards of a page keep the invariant and only extend the catalog |
| Indexer.IndexCardsErrPersists | src/crawler.py:128-129 | once a card fails, indexing the page fails with that error |
| Indexer.IndexPageGrows | src/crawler.py:101-156 | indexing a page keeps the invariant and extends the catalog: keys and word lists are prefixes of the new ones, existing URLs stay |
| Indexer.IndexCardFailsIff | src/crawler.py:124-129 | a card fails iff its title is known, its course has no URL yet and it has no link |
| Indexer.UnknownTitleAddsNoUrl | src/crawler.py:124-125 | a card whose title is not in the course dictionary succeeds and adds no URL |
| Indexer.PrimaryAddsUncommonTokens | src/crawler.py:114-135 | the course lists exactly its old words and the tokens of the card's text that are not common |
| Indexer.SequenceCardTextIsTitle | src/crawler.py:114-118 | a card with nested offerings contributes only its title |
| Indexer.SequenceTokensIndexed | src/crawler.py:137-155 | every token of a known nested offering's description is listed under its course |
| Indexer.NestedTokensIndexedUnfiltered | src/crawler.py:148-155 | nested offerings' tokens are indexed whatever the common words are |
| Indexer.IndexSequenceEffect | src/crawler.py:137-155 | a nested offering with a title whose course is known gives that course an entry, and a word is then listed under it iff it was before or is a token of the offering's description; every other course's entry is unchanged and no other key appears |
| Indexer.IndexSequencesEffect | src/crawler.py:137-155 | after all nested offerings, a word is listed under a course iff it was listed before or it is a description token of an offering with a title that resolves to that course; courses no offering resolves to are unchanged |
| Indexer.IndexPrimaryEffect | src/crawler.py:114-135 | the card's own course, when known, gains an entry, and a word is then listed under it iff it was before or is an uncommon token of the card's text; every other course's entry is unchanged and no other key appears |
| Indexer.IndexCardEffect | src/crawler.py:106-155 | after a card, a word is listed under a course iff it was listed before, or it is an uncommon token of the card's text and the course is the card's own, or it is a description token of a nested offering resolving to the course; courses the card does not touch keep their entries, and keys appear only for touched courses |
| Indexer.EmptyTitleCardSkipped | src/crawler.py:111-112 | a card with an empty title leaves the catalog as it was |
| Indexer.CardAddsOwnUrl | src/crawler.py:126-129 | existing URLs stay; a new URL belongs to the card's course and is its link joined to the page URL |
| Indexer.NewUrlsComeFromCards | src/crawler.py:106-129 | every URL a page adds comes from a card of the page with a known title and a link |
| Indexer.IntroCardWords | src/crawler.py:114-122 | the card "Intro to X" / "x y x z" indexes exactly "intro" and "to" |
| Indexer.AppendWords | src/crawler.py:133-135 | the loop appends the words the course does not list yet |
| Indexer.AddSequences | src/crawler.py:137-155 | the loop indexes the nested offerings |
| Indexer.AddCard | src/crawler.py:106-155 | one turn of the card loop, error included |
| Indexer.AddCards | src/crawler.py:106-156 | the card loop, stopping at the first failing card |
| Indexer.BuildIndex | src/crawler.py:89-156 | computes the catalog `IndexPage` describes; from a catalog that keeps the invariant it keeps it and extends the catalog |
| Crawler.LinkTarget | src/crawler.py:191-201 | a visited link adds nothing; an unvisited followable link adds itself; anything else added names no host, is non-empty and is the link joined once more; conversely an unvisited link that is not followable, names no host and whose second join is non-empty adds that second join |
| Crawler.LinkTargetsIff | src/crawler.py:191-201 | a URL is queued iff some link of the page leads to it |
| Crawler.RelativeFallbackBypassesPolicy | src/crawler.py:194-201 | a link resolving to "mailto:x" is rejected by the follow policy and still queued |
| Crawler.DiscoverLinks | src/crawler.py:191-201 | the link loop queues exactly the link targets, in order |
| Crawler.Visit | src/crawler.py:181-203 | visiting marks the URL visited and records one request; a URL whose fetch fails changes nothing else: queue and catalog stay as they were |
| Crawler.VisitKeepsInv | src/crawler.py:184-203 | a visit keeps the crawl invariant: requests distinct, visited = requested, the catalog is the fold of the fetched pages |
| Crawler.CrawlFromKeepsInv | src/crawler.py:180-203 | the loop keeps the invariant, only extends the request trace, stays within the budget, and stops only on an empty queue or a spent budget |
| Crawler.CrawlRequestsEachUrlOnce | src/crawler.py:176-203 | each URL is requested at most once, at most n pages are requested, the start page first, and the catalog indexes the fetched pages in request order |
| Crawler.CrawlSite | src/crawler.py:170-203 | the crawl loop succeeds iff the crawl does and returns its catalog or its error |
| Crawler.UrlRows | src/crawler.py:208-209 | one row [id, url] per course, in insertion order |
| Crawler.IndexRowsShape | src/crawler.py:211-216 | every index row has two fields: a course and one of its words |
| Crawler.WriteUrlTable | src/crawler.py:205-209 | the writer emits the URL table |
| Crawler.WriteIndexTable | src/crawler.py:211-216 | the writer emits the index table |
| Crawler.Go | src/crawler.py:159-216 | `go` succeeds iff the crawl does, and then writes the URL table and the index table of the crawled catalog |
| IndexLoader.LoadIndex | src/util.py:151-169 | the loop reads the table as `Load` describes |
| IndexLoader.LoadRowsOkIff | src/util.py:164-165 | loading succeeds iff every row has exactly two fields |
| IndexLoader.LoadRowsReportsFirstBadRow | compare.py:38-39 | the error names the first row without two fields |
| IndexLoader.LoadRowsValid | src/util.py:160-169 | loading well-formed rows gives a well-formed dict |
| IndexLoader.LoadRowsKeys | src/util.py:164-168 | a course is loaded iff it was present or some row names it |
| IndexLoader.LoadRowsWords | src/util.py:164-168 | a course lists its old words followed by its rows' words, in order, repeats kept |
| IndexLoader.LoadedListsNonEmpty | src/util.py:164-168 | every loaded course lists at least one word |
| IndexLoader.LoadWordRowsExisting | src/util.py:166-168 | rows of a present course append their words to it |
| IndexLoader.LoadWordRowsNew | src/util.py:166-168 | rows of a new course create it with their words |
| IndexLoader.LoadRowsConcat | src/util.py:164 | loading two row blocks is loading the second after the first |
| IndexLoader.LoadIndexRows | src/util.py:160-169 | loading the rows of distinct courses with words rebuilds those courses |
| IndexLoader.IndexTableRoundTrip | src/util.py:151-169 | loading the written index table gives back the index, when every course lists a word |
| IndexLoader.EmptyEntryLost | src/crawler.py:214-216 | a course without words does not survive writing and reloading |
| Search.Search | src/search.py:22-46 | the method computes `SearchSpec` |
| Search.ScoreAllIff | src/search.py:36-40 | a course is scored iff it is in the index with a positive score, and with exactly that score |
| Search.ScoreAllDistinct | src/search.py:37-40 | no course is scored twice |
| Search.KeywordsIgnoreCase | src/search.py:34 | lower-casing the query first changes nothing |
| Search.EmptyQueryFindsNothing | src/search.py:34-46 | an empty query returns no course |
| Search.EmptyKeywordsScoreNothing | src/search.py:36-40 | no keyword gives no score |
| Search.InsertDescPermutes | src/search.py:42 | insertion adds exactly the element |
| Search.InsertDescSorted | src/search.py:42 | insertion keeps scores descending |
| Search.InsertDescStable | src/search.py:42 | insertion keeps equal scores in arrival order |
| Search.SortDescPermutes | src/search.py:42 | the sort is a permutation |
| Search.SortDescSorted | src/search.py:42 | the sort orders scores descending |
| Search.SortDescStable | src/search.py:42 | the sort keeps the order of equal scores |
| Search.ResolveIff | src/search.py:44 | URLs resolve iff every ranked course has one; then one URL per course in rank order; otherwise the first course without a URL is named |
| Search.SearchResult | src/search.py:34-46 | the ranking is descending, holds exactly the courses with a positive score, each once, and the result is their URLs in rank order or the missing-URL error |
| Search.RankedIdsDistinct | src/search.py:36-42 | the ranking lists each course at most once |
| Search.TiesKeepIndexOrder | src/search.py:37-42 | courses with equal scores come in index order |
| Search.ExampleScores | src/search.py:38 | the score counts distinct keywords listed: 1 and 2 |
| Search.RankingExample | src/search.py:22-46 | C1: [x] and C2: [x, y] queried with x, y give u2 before u1 |
| Compare.Jaccard | src/compare.py:36-39 | the similarity is between 0 and 1 |
| Compare.IntersectionBelowUnion | src/compare.py:36-37 | the intersection is never larger than the union |
| Compare.CompareSymmetric | compare.py:57-64 | the similarity does not depend on the order of the courses |
| Compare.CompareIsOneIff | src/compare.py:33-39 | the similarity is 1 iff both word sets are equal and non-empty |
| Compare.CompareIsZeroIff | src/compare.py:36-39 | the similarity is 0 iff the courses share no word |
| Compare.MissingCourseIsEmpty | src/compare.py:33-34 | a course not in the index has no words |
| Compare.OnlyWordSetsCount | src/compare.py:33-34 | only the word sets matter, not order or repetition |
| LegacyCrawler.LegacyCommonWords | crawler.py:21-37 | the words counted at least `threshold` times, each once |
| LegacyCrawler.Frequent | crawler.py:35 | the candidates counted at least `threshold` times |
| LegacyCrawler.AddIdsEffect | crawler.py:77-82 | each word's list grows by one copy of the id per occurrence |
| LegacyCrawler.BlockEffect | crawler.py:58-82 | a block adds its id once per occurrence of each of its words counted fewer than 10 times in it |
| LegacyCrawler.MapWords | crawler.py:78-82 | the loop maps every word to the id |
| LegacyCrawler.AddBlock | crawler.py:58-82 | one block, failing without a title |
| LegacyCrawler.BuildIndexLegacy | crawler.py:40-84 | the block loop, stopping at the first block without a title |
| LegacyCrawler.IndexBlocksErrPersists | crawler.py:60 | once a block fails, the page fails with that error |
| LegacyCrawler.FollowedLinks | crawler.py:118-124 | every queued link is followable and unvisited |
| LegacyCrawler.FollowedLinksComplete | crawler.py:118-124 | every followable unvisited link is queued |
| LegacyCrawler.DiscoverFollowedLinks | crawler.py:118-124 | the link loop queues exactly the followed links |
| LegacyCrawler.LegacyVisit | crawler.py:107-126 | visiting marks the URL visited and records one request; a URL whose fetch fails changes nothing else: queue and index stay as they were |
| LegacyCrawler.LegacyVisitKeepsInv | crawler.py:107-126 | a visit keeps the invariant: queued and requested URLs are the start page or followable |
| LegacyCrawler.LegacyCrawlFromKeepsInv | crawler.py:106-126 | the loop keeps the invariant and the budget |
| LegacyCrawler.LegacyCrawlStaysInDomain | crawler.py:100-126 | every requested URL is the start page or followable, each at most once, at most n of them |
| LegacyCrawler.LegacyCrawlSite | crawler.py:96-126 | the loop succeeds iff the crawl does and returns its index |
| LegacyCrawler.LegacyRows | crawler.py:131-132 | one row [word, ids joined by ", "] per word, in insertion order |
| LegacyCrawler.WriteLegacyTable | crawler.py:128-132 | the writer emits the word table |
| LegacyCrawler.LegacyGo | crawler.py:87-132 | `go` succeeds iff the crawl does and writes its table |

## Left out

- Fetching a page is a map from URL to page. The network, headers,
  redirects and raised exceptions are not modelled; `request.url` is the
  page's given URL.
- Crawler.Visit: a `requests.get` that raises, for example `InvalidSchema`
  on a queued `mailto:` URL, ends the Python run. The model treats it as a
  failed fetch, and the crawl goes on.
- HTML parsing is not modelled: cards come as `Block` values and links as
  their `href`s. A card's link is its first `a` with an `href`.
- `urlparse` and `urljoin` are uninterpreted functions. Properties that
  depend on their real behaviour are not proved. One example is that a
  joined URL on the domain starts with "http".
- Reading the course dictionary JSON and the files, and the module-level
  call `go(5, ...)`, are left out. The dictionary is a parameter.
- CSV quoting, delimiters and line breaks are left out. Tables are
  sequences of rows of fields.
- Python's `\w` and `str.lower` are modelled on ASCII and Latin-1 only.
  Other Unicode letters and digits are not word characters here.
- The "×" and "÷" inside the ranges Á-Ú and á-ú are left out, because they
  are not word characters. The lookbehind `(?<![!:.])` never applies, since
  no word character is one of `!:.`.
- Compare.Jaccard: Python's float division is modelled as exact division
  on `real`. There is no rounding.
- Indexer.BuildIndex: mutating the caller's dicts in place, and any aliasing
  of them, is modelled as returning new values. The only caller rebinds
  both.
- Tokenizer.IdentifyCommonWords: the list it returns, with duplicates of
  the preset words, is modelled as a set. It is only used for membership.
- LegacyCrawler.LegacyGo: the first version's unresolvable imports are
  given their evident meaning.
  - `Counter` counts.
  - `Queue` is a FIFO.
  - `get_request` fails on a non-200 answer, and `read_request` returns
    the body.
- `remove_fragment` is modelled, but neither crawl calls it. `is_absolute_url`
  and `convert_if_relative_url` of `util.py` equal those of `src/util.py`.
  They are covered by the same members.
