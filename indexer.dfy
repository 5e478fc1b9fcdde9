/** `build_index` of the current crawler: folds the cards of one fetched
    page into the course -> words index and the course -> URL map. */
module Indexer {
  import opened Wrappers
  import opened Seqs
  import opened Text
  import opened Dicts
  import opened Blocks
  import opened Tokenizer
  import opened UrlPolicy

  /** Course id -> its words, in the order they were first indexed. */
  type Index = Dict<seq<string>>

  /** Course id -> the URL of the course page. */
  type CourseUrls = Dict<string>

  /** The two dictionaries a crawl builds and threads through `build_index`. */
  datatype Catalog = Catalog(index: Index, courseUrls: CourseUrls)

  /** A page fetched with status 200: its final URL (`request.url`, after
      redirects), the `href` of every `a` that has one, in document order,
      and its `div.card-body` cards, in document order. */
  datatype Page = Page(url: string, links: seq<string>, cards: seq<Block>)

  /** `card.find("a", href=True)` found nothing, so `card_a_element["href"]`
      raises and the crawl stops. */
  datatype IndexError = MissingCardLink(pageUrl: string, title: string)

  /** The sentinel `course_dict.get(title, "ID not found")` falls back to. */
  const ID_NOT_FOUND: string := "ID not found"

  /** The threshold `build_index` passes to `identify_common_words`. */
  const THRESHOLD: int := 10

  function LookupId(courseDict: map<string, string>, title: string): string
  {
    if title in courseDict then courseDict[title] else ID_NOT_FOUND
  }

  function EmptyCatalog(): Catalog
  {
    Catalog(EmptyDict(), EmptyDict())
  }

  /** What every catalog a crawl builds satisfies: both dictionaries are
      well formed, no course lists a word twice, and every course with a URL
      has an index entry. */
  ghost predicate Inv(c: Catalog)
  {
    && c.index.Valid()
    && c.courseUrls.Valid()
    && (forall id :: id in c.index.items ==> Distinct(c.index.items[id]))
    && (forall id :: id in c.courseUrls.items ==> id in c.index.items)
  }

  /** `b` extends `a`: no course is dropped or moved, every word list only
      grows at its end, and a recorded URL is never replaced. */
  ghost predicate Grows(a: Catalog, b: Catalog)
  {
    && IsPrefix(a.index.keys, b.index.keys)
    && (forall id :: id in a.index.items ==>
          id in b.index.items && IsPrefix(a.index.items[id], b.index.items[id]))
    && IsPrefix(a.courseUrls.keys, b.courseUrls.keys)
    && (forall id :: id in a.courseUrls.items ==>
          id in b.courseUrls.items && b.courseUrls.items[id] == a.courseUrls.items[id])
  }

  lemma GrowsTransitive(a: Catalog, b: Catalog, c: Catalog)
    requires Grows(a, b) && Grows(b, c)
    ensures Grows(a, c)
  {
    forall id | id in a.index.items
      ensures IsPrefix(a.index.items[id], c.index.items[id])
    {
      assert c.index.items[id][..|b.index.items[id]|][..|a.index.items[id]|]
          == c.index.items[id][..|a.index.items[id]|];
    }
    assert c.index.keys[..|b.index.keys|][..|a.index.keys|] == c.index.keys[..|a.index.keys|];
    assert c.courseUrls.keys[..|b.courseUrls.keys|][..|a.courseUrls.keys|]
        == c.courseUrls.keys[..|a.courseUrls.keys|];
  }

  /** `if course_id not in index: index[course_id] = []`. */
  function EnsureEntry(ix: Index, id: string): (r: Index)
    ensures id in r.items
  {
    if id in ix.items then ix else ix.Put(id, [])
  }

  /** `for word in words: if word not in index[course_id]: index[course_id].append(word)`. */
  function AddWords(ix: Index, id: string, words: seq<string>): Index
    requires id in ix.items
  {
    ix.Put(id, AppendNew(ix.items[id], words))
  }

  /** The tokens a card indexes under its own id: those of its title, and of
      its description only when it has no nested `div`, minus the page's
      common words. */
  function PrimaryWords(card: Block, common: set<string>): seq<string>
  {
    Without(FindAll(Accented, LowerStr(PrimaryText(card))), common)
  }

  /** `combined_text`: the title, followed by the description only for a card
      without nested `div`s. */
  function PrimaryText(card: Block): string
  {
    var title := ExtractCourseTitle(card);
    if |FindSequence(card)| == 0 then title + (" " + ExtractCourseDescription(card)) else title
  }

  /** The card's own entry (lines 114-135 of `build_index`). */
  function IndexPrimary(c: Catalog, card: Block, pageUrl: string, common: set<string>,
                        courseDict: map<string, string>, lib: UrlLib): Result<Catalog, IndexError>
  {
    var title := ExtractCourseTitle(card);
    var words := PrimaryWords(card, common);
    var id := LookupId(courseDict, title);
    if id == ID_NOT_FOUND then Ok(c)
    else if id !in c.courseUrls.items && card.href.None? then Err(MissingCardLink(pageUrl, title))
    else
      var urls := if id in c.courseUrls.items then c.courseUrls
                  else c.courseUrls.Put(id, lib.join(pageUrl, card.href.value));
      Ok(Catalog(AddWords(EnsureEntry(c.index, id), id, words), urls))
  }

  /** One nested offering of a sequence card (lines 137-155): an entry for its
      id even when it has no description, then its description tokens,
      unfiltered. */
  function IndexSequence(ix: Index, sequence: Block, courseDict: map<string, string>): Index
  {
    var title := ExtractCourseTitle(sequence);
    if title == "" then ix
    else
      var id := LookupId(courseDict, title);
      if id == ID_NOT_FOUND then ix
      else
        var ix1 := EnsureEntry(ix, id);
        var description := ExtractCourseDescription(sequence);
        if description == "" then ix1
        else AddWords(ix1, id, FindAll(Accented, LowerStr(description)))
  }

  function IndexSequences(ix: Index, sequences: seq<Block>, courseDict: map<string, string>): Index
  {
    if sequences == [] then ix
    else IndexSequence(IndexSequences(ix, sequences[..|sequences| - 1], courseDict),
                       sequences[|sequences| - 1], courseDict)
  }

  /** One card: nothing at all if its title is empty, else its own entry and
      then its nested offerings. */
  function IndexCard(c: Catalog, card: Block, pageUrl: string, common: set<string>,
                     courseDict: map<string, string>, lib: UrlLib): Result<Catalog, IndexError>
  {
    if ExtractCourseTitle(card) == "" then Ok(c)
    else
      match IndexPrimary(c, card, pageUrl, common, courseDict, lib)
      case Err(e) => Err(e)
      case Ok(c1) => Ok(Catalog(IndexSequences(c1.index, FindSequence(card), courseDict), c1.courseUrls))
  }

  function IndexCards(c: Catalog, cards: seq<Block>, pageUrl: string, common: set<string>,
                      courseDict: map<string, string>, lib: UrlLib): Result<Catalog, IndexError>
  {
    if cards == [] then Ok(c)
    else
      match IndexCards(c, cards[..|cards| - 1], pageUrl, common, courseDict, lib)
      case Err(e) => Err(e)
      case Ok(c1) => IndexCard(c1, cards[|cards| - 1], pageUrl, common, courseDict, lib)
  }

  /** What `build_index` makes of one page: its cards in order, filtered
      against the page's own common words. */
  function IndexPage(c: Catalog, page: Page, courseDict: map<string, string>, lib: UrlLib): Result<Catalog, IndexError>
  {
    IndexCards(c, page.cards, page.url, CommonWords(page.cards, THRESHOLD), courseDict, lib)
  }

  // ---------------------------------------------------------------------
  // The invariant and the growth of the catalog
  // ---------------------------------------------------------------------

  lemma AddWordsGrows(c: Catalog, id: string, words: seq<string>)
    requires Inv(c) && id in c.index.items
    ensures var c' := Catalog(AddWords(c.index, id, words), c.courseUrls);
            Inv(c') && Grows(c, c')
            && c'.index.keys == c.index.keys
            && forall w :: w in c'.index.items[id] <==> w in c.index.items[id] || w in words
  {
  }

  lemma EnsureEntryGrows(c: Catalog, id: string)
    requires Inv(c)
    ensures var c' := Catalog(EnsureEntry(c.index, id), c.courseUrls);
            Inv(c') && Grows(c, c')
            && (id in c.index.items ==> c'.index == c.index)
            && (id !in c.index.items ==> c'.index.items[id] == [])
  {
    if id !in c.index.items {
      var c' := Catalog(EnsureEntry(c.index, id), c.courseUrls);
      assert c'.index.keys[..|c.index.keys|] == c.index.keys;
      assert forall k :: k in c.index.items ==> c'.index.items[k] == c.index.items[k];
    }
  }

  lemma IndexSequenceGrows(c: Catalog, sequence: Block, courseDict: map<string, string>)
    requires Inv(c)
    ensures var c' := Catalog(IndexSequence(c.index, sequence, courseDict), c.courseUrls);
            Inv(c') && Grows(c, c')
  {
    var title := ExtractCourseTitle(sequence);
    if title != "" && LookupId(courseDict, title) != ID_NOT_FOUND {
      var id := LookupId(courseDict, title);
      var c1 := Catalog(EnsureEntry(c.index, id), c.courseUrls);
      EnsureEntryGrows(c, id);
      var description := ExtractCourseDescription(sequence);
      if description != "" {
        AddWordsGrows(c1, id, FindAll(Accented, LowerStr(description)));
        GrowsTransitive(c, c1, Catalog(IndexSequence(c.index, sequence, courseDict), c.courseUrls));
      }
    }
  }

  lemma {:induction false} IndexSequencesGrows(c: Catalog, sequences: seq<Block>, courseDict: map<string, string>)
    requires Inv(c)
    ensures var c' := Catalog(IndexSequences(c.index, sequences, courseDict), c.courseUrls);
            Inv(c') && Grows(c, c')
  {
    if sequences != [] {
      var init := sequences[..|sequences| - 1];
      var c1 := Catalog(IndexSequences(c.index, init, courseDict), c.courseUrls);
      IndexSequencesGrows(c, init, courseDict);
      IndexSequenceGrows(c1, sequences[|sequences| - 1], courseDict);
      GrowsTransitive(c, c1, Catalog(IndexSequences(c.index, sequences, courseDict), c.courseUrls));
    }
  }

  lemma IndexPrimaryGrows(c: Catalog, card: Block, pageUrl: string, common: set<string>,
                          courseDict: map<string, string>, lib: UrlLib)
    requires Inv(c)
    requires IndexPrimary(c, card, pageUrl, common, courseDict, lib).Ok?
    ensures var c' := IndexPrimary(c, card, pageUrl, common, courseDict, lib).value;
            Inv(c') && Grows(c, c')
  {
    var id := LookupId(courseDict, ExtractCourseTitle(card));
    if id != ID_NOT_FOUND {
      var c' := IndexPrimary(c, card, pageUrl, common, courseDict, lib).value;
      var c1 := Catalog(EnsureEntry(c.index, id), c.courseUrls);
      EnsureEntryGrows(c, id);
      var c2 := Catalog(AddWords(c1.index, id, PrimaryWords(card, common)), c.courseUrls);
      AddWordsGrows(c1, id, PrimaryWords(card, common));
      GrowsTransitive(c, c1, c2);
      assert c'.index == c2.index;
      if id !in c.courseUrls.items {
        assert c'.courseUrls.keys[..|c.courseUrls.keys|] == c.courseUrls.keys;
      }
    }
  }

  lemma IndexCardGrows(c: Catalog, card: Block, pageUrl: string, common: set<string>,
                       courseDict: map<string, string>, lib: UrlLib)
    requires Inv(c)
    requires IndexCard(c, card, pageUrl, common, courseDict, lib).Ok?
    ensures var c' := IndexCard(c, card, pageUrl, common, courseDict, lib).value;
            Inv(c') && Grows(c, c')
  {
    if ExtractCourseTitle(card) != "" {
      var c1 := IndexPrimary(c, card, pageUrl, common, courseDict, lib).value;
      IndexPrimaryGrows(c, card, pageUrl, common, courseDict, lib);
      IndexSequencesGrows(c1, FindSequence(card), courseDict);
      GrowsTransitive(c, c1, IndexCard(c, card, pageUrl, common, courseDict, lib).value);
    }
  }

  lemma {:induction false} IndexCardsGrows(c: Catalog, cards: seq<Block>, pageUrl: string, common: set<string>,
                                           courseDict: map<string, string>, lib: UrlLib)
    requires Inv(c)
    requires IndexCards(c, cards, pageUrl, common, courseDict, lib).Ok?
    ensures var c' := IndexCards(c, cards, pageUrl, common, courseDict, lib).value;
            Inv(c') && Grows(c, c')
  {
    if cards != [] {
      var init := cards[..|cards| - 1];
      IndexCardsGrows(c, init, pageUrl, common, courseDict, lib);
      var c1 := IndexCards(c, init, pageUrl, common, courseDict, lib).value;
      IndexCardGrows(c1, cards[|cards| - 1], pageUrl, common, courseDict, lib);
      GrowsTransitive(c, c1, IndexCards(c, cards, pageUrl, common, courseDict, lib).value);
    }
  }

  /** One pass of the card loop: a failure is the overall result, a success
      is the fold over one more card. */
  lemma IndexCardsStep(c: Catalog, cards: seq<Block>, i: nat, current: Catalog, pageUrl: string,
                       common: set<string>, courseDict: map<string, string>, lib: UrlLib,
                       step: Result<Catalog, IndexError>)
    requires i < |cards|
    requires IndexCards(c, cards[..i], pageUrl, common, courseDict, lib) == Ok(current)
    requires step == IndexCard(current, cards[i], pageUrl, common, courseDict, lib)
    ensures step.Err? ==> IndexCards(c, cards, pageUrl, common, courseDict, lib) == step
    ensures step.Ok? ==> IndexCards(c, cards[..i + 1], pageUrl, common, courseDict, lib) == step
  {
    assert cards[..i + 1][..i] == cards[..i];
    if step.Err? {
      IndexCardsErrPersists(c, cards, i + 1, pageUrl, common, courseDict, lib);
    }
  }

  /** A card that fails ends the fold: later cards are never indexed. */
  lemma {:induction false} IndexCardsErrPersists(c: Catalog, cards: seq<Block>, k: nat, pageUrl: string,
                                                 common: set<string>, courseDict: map<string, string>, lib: UrlLib)
    requires k <= |cards|
    requires IndexCards(c, cards[..k], pageUrl, common, courseDict, lib).Err?
    ensures IndexCards(c, cards, pageUrl, common, courseDict, lib)
         == IndexCards(c, cards[..k], pageUrl, common, courseDict, lib)
  {
    if k == |cards| {
      assert cards[..k] == cards;
    } else {
      var init := cards[..|cards| - 1];
      assert init[..k] == cards[..k];
      IndexCardsErrPersists(c, init, k, pageUrl, common, courseDict, lib);
    }
  }

  /** Indexing a page keeps the catalog invariant and only ever extends the
      catalog: entries stay, word lists grow at their end without
      duplicates, and a course's first recorded URL is kept. */
  lemma IndexPageGrows(c: Catalog, page: Page, courseDict: map<string, string>, lib: UrlLib)
    requires Inv(c)
    requires IndexPage(c, page, courseDict, lib).Ok?
    ensures Inv(IndexPage(c, page, courseDict, lib).value)
    ensures Grows(c, IndexPage(c, page, courseDict, lib).value)
  {
    IndexCardsGrows(c, page.cards, page.url, CommonWords(page.cards, THRESHOLD), courseDict, lib);
  }

  // ---------------------------------------------------------------------
  // What one card contributes
  // ---------------------------------------------------------------------

  /** Indexing a card fails exactly when its title resolves to a course that
      has no URL yet and the card has no link to take one from. */
  lemma IndexCardFailsIff(c: Catalog, card: Block, pageUrl: string, common: set<string>,
                          courseDict: map<string, string>, lib: UrlLib)
    ensures IndexCard(c, card, pageUrl, common, courseDict, lib).Err?
        <==> && ExtractCourseTitle(card) != ""
             && LookupId(courseDict, ExtractCourseTitle(card)) != ID_NOT_FOUND
             && LookupId(courseDict, ExtractCourseTitle(card)) !in c.courseUrls.items
             && card.href.None?
  {
  }

  /** A card whose own title is not in the course dictionary never gets an
      index entry or a URL of its own: only its nested offerings can add
      anything, and they add no URL. */
  lemma UnknownTitleAddsNoUrl(c: Catalog, card: Block, pageUrl: string, common: set<string>,
                              courseDict: map<string, string>, lib: UrlLib)
    requires LookupId(courseDict, ExtractCourseTitle(card)) == ID_NOT_FOUND
    ensures IndexCard(c, card, pageUrl, common, courseDict, lib).Ok?
    ensures IndexCard(c, card, pageUrl, common, courseDict, lib).value.courseUrls == c.courseUrls
  {
  }

  /** The card's own entry afterwards holds exactly the words it held before
      and the tokens of its combined text that are not common on the page. */
  lemma PrimaryAddsUncommonTokens(c: Catalog, card: Block, pageUrl: string, common: set<string>,
                                  courseDict: map<string, string>, lib: UrlLib)
    requires IndexPrimary(c, card, pageUrl, common, courseDict, lib).Ok?
    requires LookupId(courseDict, ExtractCourseTitle(card)) != ID_NOT_FOUND
    ensures var id := LookupId(courseDict, ExtractCourseTitle(card));
            var c' := IndexPrimary(c, card, pageUrl, common, courseDict, lib).value;
            && id in c'.index.items
            && forall w :: w in c'.index.items[id] <==>
                 (id in c.index.items && w in c.index.items[id])
                 || (w in FindAll(Accented, LowerStr(PrimaryText(card))) && w !in common)
  {
  }

  /** The description of a card with nested offerings is not indexed under
      the card's own id: only its title is. */
  lemma SequenceCardTextIsTitle(card: Block)
    requires FindSequence(card) != []
    ensures PrimaryText(card) == ExtractCourseTitle(card)
  {
  }

  /** Every resolved nested offering of a card ends up with an entry, even
      without a description, and that entry holds every token of its
      description, whether or not the page counts it as common. */
  lemma {:induction false} SequenceTokensIndexed(ix: Index, sequences: seq<Block>, courseDict: map<string, string>, k: nat)
    requires Inv(Catalog(ix, EmptyDict()))
    requires k < |sequences|
    requires ExtractCourseTitle(sequences[k]) != ""
    requires LookupId(courseDict, ExtractCourseTitle(sequences[k])) != ID_NOT_FOUND
    ensures var id := LookupId(courseDict, ExtractCourseTitle(sequences[k]));
            var ix' := IndexSequences(ix, sequences, courseDict);
            && id in ix'.items
            && forall w :: w in FindAll(Accented, LowerStr(ExtractCourseDescription(sequences[k]))) ==> w in ix'.items[id]
  {
    var init := sequences[..|sequences| - 1];
    var id := LookupId(courseDict, ExtractCourseTitle(sequences[k]));
    var ix1 := IndexSequences(ix, init, courseDict);
    var last := sequences[|sequences| - 1];
    assert IndexSequences(ix, sequences, courseDict) == IndexSequence(ix1, last, courseDict);
    IndexSequencesGrows(Catalog(ix, EmptyDict()), init, courseDict);
    if k < |sequences| - 1 {
      assert init[k] == sequences[k];
      var tokens := FindAll(Accented, LowerStr(ExtractCourseDescription(sequences[k])));
      SequenceTokensIndexed(ix, init, courseDict, k);
      assert id in ix1.items && forall w :: w in tokens ==> w in ix1.items[id];
      IndexSequenceKeepsWord(ix1, last, courseDict, id, "");
      forall w | w in tokens ensures w in IndexSequence(ix1, last, courseDict).items[id] {
        IndexSequenceKeepsWord(ix1, last, courseDict, id, w);
      }
    } else {
      OwnTokensIndexed(ix1, sequences[k], courseDict);
    }
  }

  /** A nested offering keeps every entry and every word already listed. */
  lemma IndexSequenceKeepsWord(ix: Index, sequence: Block, courseDict: map<string, string>, id: string, w: string)
    requires Inv(Catalog(ix, EmptyDict()))
    requires id in ix.items
    ensures id in IndexSequence(ix, sequence, courseDict).items
    ensures w in ix.items[id] ==> w in IndexSequence(ix, sequence, courseDict).items[id]
  {
    var ix' := IndexSequence(ix, sequence, courseDict);
    IndexSequenceGrows(Catalog(ix, EmptyDict()), sequence, courseDict);
    assert ix.items[id] == ix'.items[id][..|ix.items[id]|];
  }

  /** A resolved nested offering lists every token of its own description. */
  lemma OwnTokensIndexed(ix: Index, sequence: Block, courseDict: map<string, string>)
    requires ExtractCourseTitle(sequence) != ""
    requires LookupId(courseDict, ExtractCourseTitle(sequence)) != ID_NOT_FOUND
    ensures var id := LookupId(courseDict, ExtractCourseTitle(sequence));
            && id in IndexSequence(ix, sequence, courseDict).items
            && forall w :: w in FindAll(Accented, LowerStr(ExtractCourseDescription(sequence)))
                 ==> w in IndexSequence(ix, sequence, courseDict).items[id]
  {
  }

  /** The same at the level of a card: the tokens of a nested offering are
      indexed under its id whatever the set of common words. */
  lemma NestedTokensIndexedUnfiltered(c: Catalog, card: Block, pageUrl: string, common: set<string>,
                                      courseDict: map<string, string>, lib: UrlLib, k: nat)
    requires Inv(c)
    requires IndexCard(c, card, pageUrl, common, courseDict, lib).Ok?
    requires ExtractCourseTitle(card) != ""
    requires k < |FindSequence(card)|
    requires ExtractCourseTitle(FindSequence(card)[k]) != ""
    requires LookupId(courseDict, ExtractCourseTitle(FindSequence(card)[k])) != ID_NOT_FOUND
    ensures var id := LookupId(courseDict, ExtractCourseTitle(FindSequence(card)[k]));
            var c' := IndexCard(c, card, pageUrl, common, courseDict, lib).value;
            && id in c'.index.items
            && forall w :: w in FindAll(Accented, LowerStr(ExtractCourseDescription(FindSequence(card)[k]))) ==> w in c'.index.items[id]
  {
    var c1 := IndexPrimary(c, card, pageUrl, common, courseDict, lib).value;
    IndexPrimaryGrows(c, card, pageUrl, common, courseDict, lib);
    assert Inv(Catalog(c1.index, EmptyDict()));
    SequenceTokensIndexed(c1.index, FindSequence(card), courseDict, k);
  }

  // ---------------------------------------------------------------------
  // Exactly what a card adds, and which entries it leaves alone
  // ---------------------------------------------------------------------

  /** The title of `b` looks up the course `id`. */
  ghost predicate ResolvesTo(b: Block, courseDict: map<string, string>, id: string)
  {
    id != ID_NOT_FOUND && LookupId(courseDict, ExtractCourseTitle(b)) == id
  }

  /** A nested offering with a non-empty title that resolves to `id`. */
  ghost predicate SequenceTouches(b: Block, courseDict: map<string, string>, id: string)
  {
    ExtractCourseTitle(b) != "" && ResolvesTo(b, courseDict, id)
  }

  /** `w` is a token of the description of a nested offering of `id`. */
  ghost predicate SequenceAdds(b: Block, courseDict: map<string, string>, id: string, w: string)
  {
    SequenceTouches(b, courseDict, id) && w in FindAll(Accented, LowerStr(ExtractCourseDescription(b)))
  }

  /** Some offering among `bs` touches `id`. */
  ghost predicate AnySequenceTouches(bs: seq<Block>, courseDict: map<string, string>, id: string)
  {
    bs != []
    && (AnySequenceTouches(bs[..|bs| - 1], courseDict, id) || SequenceTouches(bs[|bs| - 1], courseDict, id))
  }

  /** Some offering among `bs` adds `w` under `id`. */
  ghost predicate AnySequenceAdds(bs: seq<Block>, courseDict: map<string, string>, id: string, w: string)
  {
    bs != []
    && (AnySequenceAdds(bs[..|bs| - 1], courseDict, id, w) || SequenceAdds(bs[|bs| - 1], courseDict, id, w))
  }

  /** `w` is a token of the combined text of a card of `id` that the page
      does not count as common. */
  ghost predicate PrimaryAdds(card: Block, common: set<string>, courseDict: map<string, string>, id: string, w: string)
  {
    ResolvesTo(card, courseDict, id) && w in FindAll(Accented, LowerStr(PrimaryText(card))) && w !in common
  }

  /** A card with a non-empty title touches its own course and the courses
      of its nested offerings. */
  ghost predicate CardTouches(card: Block, courseDict: map<string, string>, id: string)
  {
    ExtractCourseTitle(card) != ""
    && (ResolvesTo(card, courseDict, id) || AnySequenceTouches(FindSequence(card), courseDict, id))
  }

  /** The words a card with a non-empty title adds under `id`: its uncommon
      tokens when it is the card's own course, and the description tokens of
      its nested offerings of `id`. */
  ghost predicate CardAdds(card: Block, common: set<string>, courseDict: map<string, string>, id: string, w: string)
  {
    ExtractCourseTitle(card) != ""
    && (PrimaryAdds(card, common, courseDict, id, w) || AnySequenceAdds(FindSequence(card), courseDict, id, w))
  }

  /** Offerings add words only under a course they touch. */
  lemma {:induction false} AddsOnlyWhereTouched(bs: seq<Block>, courseDict: map<string, string>, id: string, w: string)
    ensures AnySequenceAdds(bs, courseDict, id, w) ==> AnySequenceTouches(bs, courseDict, id)
    decreases |bs|
  {
    if bs != [] {
      AddsOnlyWhereTouched(bs[..|bs| - 1], courseDict, id, w);
    }
  }

  /** `EnsureEntry` then `AddWords` for one course: the course gains an entry
      if it had none and exactly the given words; every other entry stays. */
  lemma EntryWordsEffect(ix: Index, id: string, words: seq<string>, ix': Index)
    requires ix' == AddWords(EnsureEntry(ix, id), id, words)
    ensures forall k :: k in ix'.items <==> k in ix.items || k == id
    ensures forall k :: k in ix.items && k != id ==> ix'.items[k] == ix.items[k]
    ensures forall w :: w in ix'.items[id] <==> (id in ix.items && w in ix.items[id]) || w in words
  {
  }

  /** One nested offering creates at most the entry of its own course, adds
      to it exactly the tokens of its description, and leaves every other
      entry as it was. */
  lemma IndexSequenceEffect(ix: Index, sequence: Block, courseDict: map<string, string>)
    ensures var ix' := IndexSequence(ix, sequence, courseDict);
            forall k :: k in ix'.items <==> k in ix.items || SequenceTouches(sequence, courseDict, k)
    ensures var ix' := IndexSequence(ix, sequence, courseDict);
            forall k :: k in ix.items && !SequenceTouches(sequence, courseDict, k) ==> ix'.items[k] == ix.items[k]
    ensures var ix' := IndexSequence(ix, sequence, courseDict);
            forall k, w :: k in ix'.items ==>
              (w in ix'.items[k] <==> (k in ix.items && w in ix.items[k]) || SequenceAdds(sequence, courseDict, k, w))
  {
    var ix' := IndexSequence(ix, sequence, courseDict);
    var title := ExtractCourseTitle(sequence);
    if title == "" || LookupId(courseDict, title) == ID_NOT_FOUND {
      assert ix' == ix;
      assert forall k :: !SequenceTouches(sequence, courseDict, k);
    } else {
      var id := LookupId(courseDict, title);
      var tokens := FindAll(Accented, LowerStr(ExtractCourseDescription(sequence)));
      IndexSequenceResolved(ix, sequence, courseDict);
      assert forall k :: SequenceTouches(sequence, courseDict, k) <==> k == id;
      assert forall k, w :: SequenceAdds(sequence, courseDict, k, w) <==> k == id && w in tokens;
    }
  }

  /** A nested offering that resolves to a course: that course gains an
      entry if it had none and exactly the description tokens. */
  lemma IndexSequenceResolved(ix: Index, sequence: Block, courseDict: map<string, string>)
    requires ExtractCourseTitle(sequence) != ""
    requires LookupId(courseDict, ExtractCourseTitle(sequence)) != ID_NOT_FOUND
    ensures var id := LookupId(courseDict, ExtractCourseTitle(sequence));
            var tokens := FindAll(Accented, LowerStr(ExtractCourseDescription(sequence)));
            var ix' := IndexSequence(ix, sequence, courseDict);
            && (forall k :: k in ix'.items <==> k in ix.items || k == id)
            && (forall k :: k in ix.items && k != id ==> ix'.items[k] == ix.items[k])
            && (forall w :: w in ix'.items[id] <==> (id in ix.items && w in ix.items[id]) || w in tokens)
  {
    var id := LookupId(courseDict, ExtractCourseTitle(sequence));
    var description := ExtractCourseDescription(sequence);
    var ix' := IndexSequence(ix, sequence, courseDict);
    if description == "" {
      assert LowerStr(description) == "";
      assert FindAll(Accented, LowerStr(description)) == [];
      assert ix' == EnsureEntry(ix, id);
    } else {
      EntryWordsEffect(ix, id, FindAll(Accented, LowerStr(description)), ix');
    }
  }

  /** All nested offerings of a card: a course gains an entry only from an
      offering of its own, gains exactly the description tokens of its
      offerings, and a course none of them resolves to keeps its entry. */
  lemma {:induction false} IndexSequencesEffect(ix: Index, sequences: seq<Block>, courseDict: map<string, string>)
    ensures var ix' := IndexSequences(ix, sequences, courseDict);
            forall k :: k in ix'.items <==> k in ix.items || AnySequenceTouches(sequences, courseDict, k)
    ensures var ix' := IndexSequences(ix, sequences, courseDict);
            forall k :: k in ix.items && !AnySequenceTouches(sequences, courseDict, k) ==> ix'.items[k] == ix.items[k]
    ensures var ix' := IndexSequences(ix, sequences, courseDict);
            forall k, w :: k in ix'.items ==>
              (w in ix'.items[k] <==> (k in ix.items && w in ix.items[k]) || AnySequenceAdds(sequences, courseDict, k, w))
  {
    var ix' := IndexSequences(ix, sequences, courseDict);
    if sequences == [] {
      assert ix' == ix;
    } else {
      var init := sequences[..|sequences| - 1];
      var last := sequences[|sequences| - 1];
      var ix1 := IndexSequences(ix, init, courseDict);
      assert ix' == IndexSequence(ix1, last, courseDict);
      IndexSequencesEffect(ix, init, courseDict);
      IndexSequenceEffect(ix1, last, courseDict);
      forall k, w | k in ix'.items
        ensures w in ix'.items[k] <==> (k in ix.items && w in ix.items[k]) || AnySequenceAdds(sequences, courseDict, k, w)
      {
        if k !in ix1.items {
          AddsOnlyWhereTouched(init, courseDict, k, w);
          assert k !in ix.items && !AnySequenceAdds(init, courseDict, k, w);
        }
      }
    }
  }

  /** A card's own entry: the card creates at most the entry of its own
      course, adds to it exactly its uncommon tokens, and leaves every other
      entry as it was. */
  lemma IndexPrimaryEffect(c: Catalog, card: Block, pageUrl: string, common: set<string>,
                           courseDict: map<string, string>, lib: UrlLib)
    requires IndexPrimary(c, card, pageUrl, common, courseDict, lib).Ok?
    ensures var c' := IndexPrimary(c, card, pageUrl, common, courseDict, lib).value;
            forall k :: k in c'.index.items <==> k in c.index.items || ResolvesTo(card, courseDict, k)
    ensures var c' := IndexPrimary(c, card, pageUrl, common, courseDict, lib).value;
            forall k :: k in c.index.items && !ResolvesTo(card, courseDict, k) ==> c'.index.items[k] == c.index.items[k]
    ensures var c' := IndexPrimary(c, card, pageUrl, common, courseDict, lib).value;
            forall k, w :: k in c'.index.items ==>
              (w in c'.index.items[k] <==> (k in c.index.items && w in c.index.items[k]) || PrimaryAdds(card, common, courseDict, k, w))
  {
    var c' := IndexPrimary(c, card, pageUrl, common, courseDict, lib).value;
    var id := LookupId(courseDict, ExtractCourseTitle(card));
    if id == ID_NOT_FOUND {
      assert c' == c;
      assert forall k :: !ResolvesTo(card, courseDict, k);
    } else {
      var words := PrimaryWords(card, common);
      assert forall k :: ResolvesTo(card, courseDict, k) <==> k == id;
      assert forall k, w :: PrimaryAdds(card, common, courseDict, k, w) <==> k == id && w in words;
      EntryWordsEffect(c.index, id, words, c'.index);
    }
  }

  /** What one card does to the index: a course gains an entry only if the
      card touches it; a word is listed under a course afterwards exactly
      when it was before, or the card adds it there; and every course the
      card does not touch keeps its entry unchanged. */
  lemma IndexCardEffect(c: Catalog, card: Block, pageUrl: string, common: set<string>,
                        courseDict: map<string, string>, lib: UrlLib)
    requires IndexCard(c, card, pageUrl, common, courseDict, lib).Ok?
    ensures var c' := IndexCard(c, card, pageUrl, common, courseDict, lib).value;
            forall k :: k in c'.index.items <==> k in c.index.items || CardTouches(card, courseDict, k)
    ensures var c' := IndexCard(c, card, pageUrl, common, courseDict, lib).value;
            forall k :: k in c.index.items && !CardTouches(card, courseDict, k) ==> c'.index.items[k] == c.index.items[k]
    ensures var c' := IndexCard(c, card, pageUrl, common, courseDict, lib).value;
            forall k, w :: k in c'.index.items ==>
              (w in c'.index.items[k] <==> (k in c.index.items && w in c.index.items[k]) || CardAdds(card, common, courseDict, k, w))
  {
    if ExtractCourseTitle(card) != "" {
      var c1 := IndexPrimary(c, card, pageUrl, common, courseDict, lib).value;
      IndexPrimaryEffect(c, card, pageUrl, common, courseDict, lib);
      IndexSequencesEffect(c1.index, FindSequence(card), courseDict);
    }
  }

  /** A card with an empty title is skipped: the catalog stays as it was. */
  lemma EmptyTitleCardSkipped(c: Catalog, card: Block, pageUrl: string, common: set<string>,
                              courseDict: map<string, string>, lib: UrlLib)
    requires ExtractCourseTitle(card) == ""
    ensures IndexCard(c, card, pageUrl, common, courseDict, lib) == Ok(c)
  {
  }

  /** A card records at most one URL: its own, under the id its own title
      resolves to, taken from its link; URLs already recorded stay. */
  lemma CardAddsOwnUrl(c: Catalog, card: Block, pageUrl: string, common: set<string>,
                       courseDict: map<string, string>, lib: UrlLib)
    requires IndexCard(c, card, pageUrl, common, courseDict, lib).Ok?
    ensures var c' := IndexCard(c, card, pageUrl, common, courseDict, lib).value;
            && (forall id :: id in c.courseUrls.items ==>
                  id in c'.courseUrls.items && c'.courseUrls.items[id] == c.courseUrls.items[id])
            && (forall id :: id in c'.courseUrls.items && id !in c.courseUrls.items ==>
                  && LookupId(courseDict, ExtractCourseTitle(card)) == id
                  && card.href.Some?
                  && c'.courseUrls.items[id] == lib.join(pageUrl, card.href.value))
  {
    if ExtractCourseTitle(card) != "" {
      var c1 := IndexPrimary(c, card, pageUrl, common, courseDict, lib).value;
      assert IndexCard(c, card, pageUrl, common, courseDict, lib).value.courseUrls == c1.courseUrls;
      var id := LookupId(courseDict, ExtractCourseTitle(card));
      if id != ID_NOT_FOUND && id !in c.courseUrls.items {
        assert c1.courseUrls.items == c.courseUrls.items[id := lib.join(pageUrl, card.href.value)];
      }
    }
  }

  /** A URL recorded while indexing a page is that of a card on the page
      whose own title resolves to the course: nested offerings never get one. */
  lemma {:induction false} NewUrlsComeFromCards(c: Catalog, cards: seq<Block>, pageUrl: string, common: set<string>,
                                                courseDict: map<string, string>, lib: UrlLib)
    requires IndexCards(c, cards, pageUrl, common, courseDict, lib).Ok?
    ensures var c' := IndexCards(c, cards, pageUrl, common, courseDict, lib).value;
            forall id :: id in c'.courseUrls.items && id !in c.courseUrls.items ==>
              exists k :: && 0 <= k < |cards|
                          && LookupId(courseDict, ExtractCourseTitle(cards[k])) == id
                          && cards[k].href.Some?
                          && c'.courseUrls.items[id] == lib.join(pageUrl, cards[k].href.value)
  {
    if cards != [] {
      var init := cards[..|cards| - 1];
      var last := cards[|cards| - 1];
      NewUrlsComeFromCards(c, init, pageUrl, common, courseDict, lib);
      var c1 := IndexCards(c, init, pageUrl, common, courseDict, lib).value;
      CardAddsOwnUrl(c1, last, pageUrl, common, courseDict, lib);
      var c' := IndexCards(c, cards, pageUrl, common, courseDict, lib).value;
      forall id | id in c'.courseUrls.items && id !in c.courseUrls.items
        ensures exists k :: && 0 <= k < |cards|
                            && LookupId(courseDict, ExtractCourseTitle(cards[k])) == id
                            && cards[k].href.Some?
                            && c'.courseUrls.items[id] == lib.join(pageUrl, cards[k].href.value)
      {
        if id in c1.courseUrls.items {
          var k :| && 0 <= k < |init|
                   && LookupId(courseDict, ExtractCourseTitle(init[k])) == id
                   && init[k].href.Some?
                   && c1.courseUrls.items[id] == lib.join(pageUrl, init[k].href.value);
          assert init[k] == cards[k];
          assert c'.courseUrls.items[id] == c1.courseUrls.items[id];
        } else {
          assert LookupId(courseDict, ExtractCourseTitle(last)) == id;
          assert cards[|cards| - 1] == last;
        }
      }
    }
  }

  // ---------------------------------------------------------------------
  // The method
  // ---------------------------------------------------------------------

  /** The innermost loop of `build_index`: appends the words not yet listed. */
  method AppendWords(index: Index, id: string, words: seq<string>) returns (index': Index)
    requires id in index.items
    ensures index' == AddWords(index, id, words)
  {
    index' := index;
    var k := 0;
    while k < |words|
      invariant 0 <= k <= |words|
      invariant index' == index.Put(id, AppendNew(index.items[id], words[..k]))
    {
      var word := words[k];
      assert words[..k + 1][..k] == words[..k];
      if word !in index'.items[id] {
        index' := index'.Put(id, index'.items[id] + [word]);
      }
      k := k + 1;
    }
    assert words[..|words|] == words;
  }

  /** The loop over the nested offerings of one card. */
  method AddSequences(index: Index, sequences: seq<Block>, courseDict: map<string, string>)
    returns (index': Index)
    ensures index' == IndexSequences(index, sequences, courseDict)
  {
    index' := index;
    var j := 0;
    while j < |sequences|
      invariant 0 <= j <= |sequences|
      invariant index' == IndexSequences(index, sequences[..j], courseDict)
    {
      var sequence := sequences[j];
      assert sequences[..j + 1][..j] == sequences[..j];
      var title := ExtractCourseTitle(sequence);
      if title != "" {
        var id := LookupId(courseDict, title);
        if id != ID_NOT_FOUND {
          if id !in index'.items {
            index' := index'.Put(id, []);
          }
          var description := ExtractCourseDescription(sequence);
          if description != "" {
            var words := FindAll(Accented, LowerStr(description));
            index' := AppendWords(index', id, words);
          }
        }
      }
      j := j + 1;
    }
    assert sequences[..|sequences|] == sequences;
  }

  /** The body of the loop over the cards of the page. */
  method AddCard(c: Catalog, card: Block, pageUrl: string, common: set<string>,
                 courseDict: map<string, string>, lib: UrlLib)
    returns (r: Result<Catalog, IndexError>)
    ensures r == IndexCard(c, card, pageUrl, common, courseDict, lib)
  {
    var sequences := FindSequence(card);
    var title := ExtractCourseTitle(card);
    if title == "" {
      return Ok(c);
    }
    var combined := title;
    if |sequences| == 0 {
      combined := combined + (" " + ExtractCourseDescription(card));
    }
    assert combined == PrimaryText(card);
    var words := Without(FindAll(Accented, LowerStr(combined)), common);
    var index, courseUrls := c.index, c.courseUrls;
    var id := LookupId(courseDict, title);
    if id != ID_NOT_FOUND {
      if id !in courseUrls.items {
        if card.href.None? {
          return Err(MissingCardLink(pageUrl, title));
        }
        courseUrls := courseUrls.Put(id, lib.join(pageUrl, card.href.value));
      }
      if id !in index.items {
        index := index.Put(id, []);
      }
      index := AppendWords(index, id, words);
    }
    assert IndexPrimary(c, card, pageUrl, common, courseDict, lib) == Ok(Catalog(index, courseUrls));
    index := AddSequences(index, sequences, courseDict);
    r := Ok(Catalog(index, courseUrls));
  }

  /** The loop over the cards of the page. */
  method AddCards(c: Catalog, cards: seq<Block>, pageUrl: string, common: set<string>,
                  courseDict: map<string, string>, lib: UrlLib)
    returns (r: Result<Catalog, IndexError>)
    ensures r == IndexCards(c, cards, pageUrl, common, courseDict, lib)
  {
    var current := c;
    var i := 0;
    assert cards[..0] == [];
    while i < |cards|
      invariant 0 <= i <= |cards|
      invariant IndexCards(c, cards[..i], pageUrl, common, courseDict, lib) == Ok(current)
    {
      var step := AddCard(current, cards[i], pageUrl, common, courseDict, lib);
      IndexCardsStep(c, cards, i, current, pageUrl, common, courseDict, lib, step);
      if step.Err? {
        return step;
      }
      current := step.value;
      i := i + 1;
    }
    assert cards[..|cards|] == cards;
    r := Ok(current);
  }

  /** `build_index(index, course_urls, request, course_dict)`: the catalog
      after indexing the page is the one `IndexPage` describes; from a
      catalog that keeps the invariant it keeps it too and extends the
      catalog it was given. It fails only if a card needs a URL and has no
      link. */
  method BuildIndex(c: Catalog, page: Page, courseDict: map<string, string>, lib: UrlLib)
    returns (r: Result<Catalog, IndexError>)
    ensures r == IndexPage(c, page, courseDict, lib)
    ensures Inv(c) && r.Ok? ==> Inv(r.value) && Grows(c, r.value)
  {
    var common := IdentifyCommonWords(page.cards, THRESHOLD);
    r := AddCards(c, page.cards, page.url, common, courseDict, lib);
    if Inv(c) && r.Ok? {
      IndexPageGrows(c, page, courseDict, lib);
    }
  }

  /** A card titled "Intro to X" with the description "x y x z" and no
      nested offerings: only "intro" and "to" are indexed under its id,
      because every other word is a single letter and the current pattern
      wants at least two characters. */
  lemma IntroCardWords(card: Block, common: set<string>)
    requires card == Block(["Intro to X"], ["x y x z"], [], Some("c1.html"))
    requires "intro" !in common && "to" !in common
    ensures PrimaryText(card) == "Intro to X x y x z"
    ensures PrimaryWords(card, common) == ["intro", "to"]
  {
    IntroCardText(card);
    IntroTextLowered();
    IntroTokens();
    IntroWordsKept(["intro", "to"], common);
  }

  lemma IntroWordsKept(words: seq<string>, common: set<string>)
    requires words == ["intro", "to"]
    requires "intro" !in common && "to" !in common
    ensures Without(words, common) == words
  {
    WithoutNothingExcluded(words, common);
  }

  lemma IntroCardText(card: Block)
    requires card == Block(["Intro to X"], ["x y x z"], [], Some("c1.html"))
    ensures PrimaryText(card) == "Intro to X x y x z"
  {
    TrimmedCardTexts(card);
    IntroCardTextJoined(ExtractCourseTitle(card), ExtractCourseDescription(card));
  }

  lemma IntroCardTextJoined(title: string, description: string)
    requires title == "Intro to X" && description == "x y x z"
    ensures title + (" " + description) == "Intro to X x y x z"
  {
  }

  lemma IntroTextLowered()
    ensures LowerStr("Intro to X x y x z") == "intro to x x y x z"
  {
    var lead, word, letter, rest := "I", "ntro to ", "X", " x y x z";
    IntroTextPieces("Intro to X x y x z", lead, word, letter, rest);
    LowerOfFour(lead, word, letter, rest);
    LowerStrOfLowerCase(word);
    LowerStrOfLowerCase(rest);
    LowerOfCapital(lead, 'i');
    LowerOfCapital(letter, 'x');
    IntroTextPieces("intro to x x y x z", "i", word, "x", rest);
  }

  lemma IntroTextPieces(s: string, lead: string, word: string, letter: string, rest: string)
    requires (s == "Intro to X x y x z" && lead == "I" && letter == "X")
          || (s == "intro to x x y x z" && lead == "i" && letter == "x")
    requires word == "ntro to " && rest == " x y x z"
    ensures s == lead + word + letter + rest
  {
  }

  lemma LowerOfFour(a: string, b: string, c: string, d: string)
    ensures LowerStr(a + b + c + d) == LowerStr(a) + LowerStr(b) + LowerStr(c) + LowerStr(d)
  {
    LowerStrAppend(a, b);
    LowerStrAppend(a + b, c);
    LowerStrAppend(a + b + c, d);
  }

  lemma LowerOfCapital(s: string, l: char)
    requires (s == "I" && l == 'i') || (s == "X" && l == 'x')
    ensures LowerStr(s) == [l]
  {
  }
}
