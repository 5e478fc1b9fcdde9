/** `search`: ranks the courses of an index by how many of the query's
    keywords they list, and returns their URLs, best first. */
module Search {
  import opened Wrappers
  import opened Seqs
  import opened Text
  import opened Dicts
  import opened Indexer

  /** `course_urls[course_id]` on a course without a URL raises `KeyError`. */
  datatype SearchError = MissingUrl(id: string)

  /** A course and its similarity score. */
  datatype Scored = Scored(id: string, score: nat)

  /** `set(keyword.lower() for keyword in keywords)`. */
  function Keywords(keywords: seq<string>): (ks: set<string>)
    ensures forall k :: k in ks <==> exists i :: 0 <= i < |keywords| && k == LowerStr(keywords[i])
  {
    set i | 0 <= i < |keywords| :: LowerStr(keywords[i])
  }

  /** `len(keywords.intersection(words))`: the number of distinct keywords
      the course lists. */
  function Similarity(ks: set<string>, words: seq<string>): nat
  {
    |ks * (set w | w in words)|
  }

  /** `similarity_scores` before sorting: the courses with a positive score,
      in dictionary order. */
  function ScoreAll(ks: set<string>, keys: seq<string>, items: map<string, seq<string>>): seq<Scored>
    requires forall k :: k in keys ==> k in items
  {
    if keys == [] then []
    else
      var init := ScoreAll(ks, keys[..|keys| - 1], items);
      var last := keys[|keys| - 1];
      var score := Similarity(ks, items[last]);
      if score > 0 then init + [Scored(last, score)] else init
  }

  /** Inserts `x`, which comes after every element of `sorted` in the
      original order, behind every element whose score is at least its own. */
  function InsertDesc(sorted: seq<Scored>, x: Scored): seq<Scored>
  {
    if sorted == [] then [x]
    else if sorted[|sorted| - 1].score >= x.score then sorted + [x]
    else InsertDesc(sorted[..|sorted| - 1], x) + [sorted[|sorted| - 1]]
  }

  /** `sort(reverse=True, key=lambda x: x[1])`: Python's sort is stable, and
      stays stable when reversed, so equal scores keep their order. */
  function SortDesc(s: seq<Scored>): seq<Scored>
  {
    if s == [] then [] else InsertDesc(SortDesc(s[..|s| - 1]), s[|s| - 1])
  }

  /** `[course_urls[course_id] for course_id, _ in similarity_scores]`. */
  function Resolve(ranked: seq<Scored>, urls: CourseUrls): Result<seq<string>, SearchError>
  {
    if ranked == [] then Ok([])
    else if ranked[0].id !in urls.items then Err(MissingUrl(ranked[0].id))
    else
      match Resolve(ranked[1..], urls)
      case Err(e) => Err(e)
      case Ok(rest) => Ok([urls.items[ranked[0].id]] + rest)
  }

  /** The ranking `search` computes before it resolves URLs. */
  function Rank(keywords: seq<string>, index: Index): seq<Scored>
    requires index.Valid()
  {
    SortDesc(ScoreAll(Keywords(keywords), index.keys, index.items))
  }

  function SearchSpec(keywords: seq<string>, index: Index, urls: CourseUrls): Result<seq<string>, SearchError>
    requires index.Valid()
  {
    Resolve(Rank(keywords, index), urls)
  }

  /** `search(keywords, index, course_urls)`. */
  method Search(keywords: seq<string>, index: Index, urls: CourseUrls) returns (r: Result<seq<string>, SearchError>)
    requires index.Valid()
    ensures r == SearchSpec(keywords, index, urls)
  {
    var ks := Keywords(keywords);
    var scores: seq<Scored> := [];
    var i := 0;
    while i < |index.keys|
      invariant 0 <= i <= |index.keys|
      invariant scores == ScoreAll(ks, index.keys[..i], index.items)
    {
      assert index.keys[..i + 1][..i] == index.keys[..i];
      var id := index.keys[i];
      var similarity := |ks * (set w | w in index.items[id])|;
      if similarity > 0 {
        scores := scores + [Scored(id, similarity)];
      }
      i := i + 1;
    }
    assert index.keys[..|index.keys|] == index.keys;
    var ranked := SortDesc(scores);
    r := Resolve(ranked, urls);
  }

  // ---------------------------------------------------------------------
  // The scores
  // ---------------------------------------------------------------------

  /** The scored courses are exactly the courses with a positive score, each
      paired with its score, once each. */
  lemma {:induction false} ScoreAllIff(ks: set<string>, keys: seq<string>, items: map<string, seq<string>>, x: Scored)
    requires forall k :: k in keys ==> k in items
    ensures x in ScoreAll(ks, keys, items) <==>
              x.id in keys && x.score == Similarity(ks, items[x.id]) && x.score > 0
  {
    if keys != [] {
      var init := keys[..|keys| - 1];
      assert forall k :: k in init ==> k in keys;
      ScoreAllIff(ks, init, items, x);
      assert keys == init + [keys[|keys| - 1]];
    }
  }

  lemma {:induction false} ScoreAllDistinct(ks: set<string>, keys: seq<string>, items: map<string, seq<string>>)
    requires forall k :: k in keys ==> k in items
    requires Distinct(keys)
    ensures forall i, j :: 0 <= i < j < |ScoreAll(ks, keys, items)| ==>
              ScoreAll(ks, keys, items)[i].id != ScoreAll(ks, keys, items)[j].id
  {
    if keys != [] {
      var init := keys[..|keys| - 1];
      var last := keys[|keys| - 1];
      assert forall k :: k in init ==> k in keys;
      ScoreAllDistinct(ks, init, items);
      var prefix := ScoreAll(ks, init, items);
      forall i | 0 <= i < |prefix| ensures prefix[i].id != last {
        ScoreAllIff(ks, init, items, prefix[i]);
      }
    }
  }

  /** Keywords are case-insensitive: lower-casing the query first changes
      nothing. */
  lemma KeywordsIgnoreCase(keywords: seq<string>)
    ensures Keywords(seq(|keywords|, i requires 0 <= i < |keywords| => LowerStr(keywords[i]))) == Keywords(keywords)
  {
    var lowered := seq(|keywords|, i requires 0 <= i < |keywords| => LowerStr(keywords[i]));
    forall i | 0 <= i < |keywords| ensures LowerStr(lowered[i]) == LowerStr(keywords[i]) {
      LowerStrOfLowerCase(LowerStr(keywords[i]));
    }
  }

  /** An empty query matches no course. */
  lemma EmptyQueryFindsNothing(index: Index, urls: CourseUrls)
    requires index.Valid()
    ensures SearchSpec([], index, urls) == Ok([])
  {
    EmptyKeywordsScoreNothing(index.keys, index.items);
  }

  lemma {:induction false} EmptyKeywordsScoreNothing(keys: seq<string>, items: map<string, seq<string>>)
    requires forall k :: k in keys ==> k in items
    ensures ScoreAll({}, keys, items) == []
  {
    if keys != [] {
      assert forall k :: k in keys[..|keys| - 1] ==> k in keys;
      EmptyKeywordsScoreNothing(keys[..|keys| - 1], items);
    }
  }

  // ---------------------------------------------------------------------
  // The sort
  // ---------------------------------------------------------------------

  predicate SortedDesc(s: seq<Scored>)
  {
    forall i, j :: 0 <= i < j < |s| ==> s[i].score >= s[j].score
  }

  /** The elements of `s` with score `v`, in order. */
  function WithScore(s: seq<Scored>, v: nat): seq<Scored>
  {
    if s == [] then []
    else WithScore(s[..|s| - 1], v) + (if s[|s| - 1].score == v then [s[|s| - 1]] else [])
  }

  lemma {:induction false} WithScoreConcat(a: seq<Scored>, b: seq<Scored>, v: nat)
    ensures WithScore(a + b, v) == WithScore(a, v) + WithScore(b, v)
    decreases |b|
  {
    if b == [] {
      assert a + b == a;
    } else {
      assert (a + b)[..|a + b| - 1] == a + b[..|b| - 1];
      WithScoreConcat(a, b[..|b| - 1], v);
    }
  }

  /** Inserting adds `x` and keeps every other element. */
  lemma {:induction false} InsertDescPermutes(sorted: seq<Scored>, x: Scored)
    ensures multiset(InsertDesc(sorted, x)) == multiset(sorted) + multiset{x}
  {
    if sorted != [] && sorted[|sorted| - 1].score < x.score {
      var init := sorted[..|sorted| - 1];
      InsertDescPermutes(init, x);
      InitLast(sorted);
    }
  }

  /** Inserting into a sorted sequence keeps it sorted. */
  lemma {:induction false} InsertDescSorted(sorted: seq<Scored>, x: Scored)
    requires SortedDesc(sorted)
    ensures SortedDesc(InsertDesc(sorted, x))
  {
    if sorted != [] && sorted[|sorted| - 1].score < x.score {
      var init := sorted[..|sorted| - 1];
      var last := sorted[|sorted| - 1];
      InsertDescSorted(init, x);
      InsertDescPermutes(init, x);
      var r := InsertDesc(init, x);
      forall i | 0 <= i < |r| ensures r[i].score >= last.score {
        assert r[i] in multiset(r);
        if r[i] != x {
          assert r[i] in multiset(init);
          var k :| 0 <= k < |init| && init[k] == r[i];
          assert sorted[k] == init[k];
        }
      }
    }
  }

  lemma WithScoreSingleton(x: Scored, v: nat)
    ensures WithScore([x], v) == if x.score == v then [x] else []
  {
    assert [x][..0] == [];
  }

  /** Inserting keeps each score's elements in their order, with `x` last
      among those of its score. */
  lemma {:induction false} InsertDescStable(sorted: seq<Scored>, x: Scored, v: nat)
    ensures WithScore(InsertDesc(sorted, x), v) == WithScore(sorted + [x], v)
  {
    if sorted == [] {
      assert sorted + [x] == [x];
    } else if sorted[|sorted| - 1].score >= x.score {
    } else {
      var init := sorted[..|sorted| - 1];
      var last := sorted[|sorted| - 1];
      assert InsertDesc(sorted, x) == InsertDesc(init, x) + [last];
      InitLast(sorted);
      assert WithScore(InsertDesc(init, x) + [last], v) == WithScore(init + [last] + [x], v) by {
        InsertDescStable(init, x, v);
        WithScoreConcat(InsertDesc(init, x), [last], v);
        OtherScoresCommute(init, x, last, v);
      }
    }
  }

  /** Two elements of different scores can trade places without changing
      what any one score selects. */
  lemma OtherScoresCommute(a: seq<Scored>, y: Scored, z: Scored, v: nat)
    requires y.score != z.score
    ensures WithScore(a + [y], v) + WithScore([z], v) == WithScore(a + [z] + [y], v)
  {
    var wa, wy, wz := WithScore(a, v), WithScore([y], v), WithScore([z], v);
    assert WithScore(a + [y], v) == wa + wy by {
      WithScoreConcat(a, [y], v);
    }
    assert WithScore(a + [z] + [y], v) == wa + wz + wy by {
      WithScoreConcat(a + [z], [y], v);
      WithScoreConcat(a, [z], v);
    }
    assert wy == [] || wz == [] by {
      WithScoreSingleton(y, v);
      WithScoreSingleton(z, v);
    }
    AppendAssociative(wa, wy, wz);
    AppendAssociative(wa, wz, wy);
  }

  /** The sort keeps every element. */
  lemma {:induction false} SortDescPermutes(s: seq<Scored>)
    ensures multiset(SortDesc(s)) == multiset(s)
  {
    if s != [] {
      var init := s[..|s| - 1];
      SortDescPermutes(init);
      InsertDescPermutes(SortDesc(init), s[|s| - 1]);
      MultisetOfSnoc(s);
    }
  }

  /** The sort puts scores in non-increasing order. */
  lemma {:induction false} SortDescSorted(s: seq<Scored>)
    ensures SortedDesc(SortDesc(s))
  {
    if s != [] {
      SortDescSorted(s[..|s| - 1]);
      InsertDescSorted(SortDesc(s[..|s| - 1]), s[|s| - 1]);
    }
  }

  /** The sort keeps the original order among equal scores. */
  lemma {:induction false} SortDescStable(s: seq<Scored>, v: nat)
    ensures WithScore(SortDesc(s), v) == WithScore(s, v)
  {
    if s != [] {
      var init := s[..|s| - 1];
      var last := s[|s| - 1];
      var sortedInit := SortDesc(init);
      assert WithScore(s, v) == WithScore(init, v) + WithScore([last], v) by {
        WithScoreSingleton(last, v);
      }
      assert WithScore(SortDesc(s), v) == WithScore(sortedInit, v) + WithScore([last], v) by {
        InsertDescStable(sortedInit, last, v);
        WithScoreConcat(sortedInit, [last], v);
      }
      SortDescStable(init, v);
    }
  }

  // ---------------------------------------------------------------------
  // Resolving URLs
  // ---------------------------------------------------------------------

  /** URLs resolve exactly when every ranked course has one; the result then
      lists them in rank order, and otherwise the first course without one
      is reported. */
  lemma {:induction false} ResolveIff(ranked: seq<Scored>, urls: CourseUrls)
    ensures Resolve(ranked, urls).Ok? <==> forall i :: 0 <= i < |ranked| ==> ranked[i].id in urls.items
    ensures Resolve(ranked, urls).Ok? ==>
              |Resolve(ranked, urls).value| == |ranked|
              && forall i :: 0 <= i < |ranked| ==> Resolve(ranked, urls).value[i] == urls.items[ranked[i].id]
    ensures Resolve(ranked, urls).Err? ==>
              exists k :: 0 <= k < |ranked| && Resolve(ranked, urls).error == MissingUrl(ranked[k].id)
                          && ranked[k].id !in urls.items
                          && forall j :: 0 <= j < k ==> ranked[j].id in urls.items
  {
    if ranked != [] && ranked[0].id in urls.items {
      ResolveIff(ranked[1..], urls);
      if Resolve(ranked, urls).Ok? {
        forall i | 0 <= i < |ranked| ensures ranked[i].id in urls.items {
          if i > 0 {
            assert ranked[i] == ranked[1..][i - 1];
          }
        }
      } else {
        var k :| 0 <= k < |ranked[1..]| && Resolve(ranked[1..], urls).error == MissingUrl(ranked[1..][k].id)
                 && ranked[1..][k].id !in urls.items
                 && forall j :: 0 <= j < k ==> ranked[1..][j].id in urls.items;
        assert ranked[k + 1] == ranked[1..][k];
        forall j | 0 <= j < k + 1 ensures ranked[j].id in urls.items {
          if j > 0 {
            assert ranked[j] == ranked[1..][j - 1];
          }
        }
      }
    }
  }

  /** What `search` returns: when every matching course has a URL, the URLs
      of exactly the courses that share a keyword with the query, best score
      first; otherwise the error names a matching course without a URL. */
  lemma SearchResult(keywords: seq<string>, index: Index, urls: CourseUrls)
    requires index.Valid()
    ensures var ranked := Rank(keywords, index);
            && SortedDesc(ranked)
            && (forall i, j :: 0 <= i < j < |ranked| ==> ranked[i].id != ranked[j].id)
            && (forall x :: x in ranked <==>
                  x.id in index.items && x.score == Similarity(Keywords(keywords), index.items[x.id]) && x.score > 0)
            && (SearchSpec(keywords, index, urls).Ok? <==> forall x :: x in ranked ==> x.id in urls.items)
            && (SearchSpec(keywords, index, urls).Ok? ==>
                  |SearchSpec(keywords, index, urls).value| == |ranked|
                  && forall i :: 0 <= i < |ranked| ==> SearchSpec(keywords, index, urls).value[i] == urls.items[ranked[i].id])
  {
    SortDescSorted(ScoreAll(Keywords(keywords), index.keys, index.items));
    RankMembers(keywords, index);
    RankedIdsDistinct(keywords, index);
    ResolveRanked(Rank(keywords, index), urls);
  }

  /** Each course is ranked at most once. */
  lemma RankedIdsDistinct(keywords: seq<string>, index: Index)
    requires index.Valid()
    ensures var ranked := Rank(keywords, index);
            forall i, j :: 0 <= i < j < |ranked| ==> ranked[i].id != ranked[j].id
  {
    var ks := Keywords(keywords);
    var scores := ScoreAll(ks, index.keys, index.items);
    var ranked := Rank(keywords, index);
    ScoreAllDistinct(ks, index.keys, index.items);
    assert Distinct(scores);
    SortDescPermutes(scores);
    DistinctPermutation(scores, ranked);
    RankMembers(keywords, index);
    forall i, j | 0 <= i < j < |ranked| ensures ranked[i].id != ranked[j].id {
      assert ranked[i] in ranked && ranked[j] in ranked;
    }
  }

  lemma RankMembers(keywords: seq<string>, index: Index)
    requires index.Valid()
    ensures forall x :: x in Rank(keywords, index) <==>
              x.id in index.items && x.score == Similarity(Keywords(keywords), index.items[x.id]) && x.score > 0
  {
    var ks := Keywords(keywords);
    var scores := ScoreAll(ks, index.keys, index.items);
    var ranked := Rank(keywords, index);
    SortDescPermutes(scores);
    forall x ensures x in ranked <==> x.id in index.items && x.score == Similarity(ks, index.items[x.id]) && x.score > 0 {
      ScoreAllIff(ks, index.keys, index.items, x);
      assert x in ranked <==> x in multiset(ranked);
      assert x in scores <==> x in multiset(scores);
    }
  }

  lemma ResolveRanked(ranked: seq<Scored>, urls: CourseUrls)
    ensures Resolve(ranked, urls).Ok? <==> forall x :: x in ranked ==> x.id in urls.items
    ensures Resolve(ranked, urls).Ok? ==>
              |Resolve(ranked, urls).value| == |ranked|
              && forall i :: 0 <= i < |ranked| ==> Resolve(ranked, urls).value[i] == urls.items[ranked[i].id]
  {
    ResolveIff(ranked, urls);
    assert forall i :: 0 <= i < |ranked| ==> ranked[i] in ranked;
  }

  /** Courses with the same score keep their dictionary order. */
  lemma TiesKeepIndexOrder(keywords: seq<string>, index: Index, v: nat)
    requires index.Valid()
    ensures WithScore(Rank(keywords, index), v) == WithScore(ScoreAll(Keywords(keywords), index.keys, index.items), v)
  {
    SortDescStable(ScoreAll(Keywords(keywords), index.keys, index.items), v);
  }

  lemma ExampleKeywords()
    ensures Keywords(["x", "y"]) == {"x", "y"}
  {
    LowerStrOfLowerCase("x");
    LowerStrOfLowerCase("y");
    var ks := Keywords(["x", "y"]);
    assert LowerStr(["x", "y"][0]) in ks && LowerStr(["x", "y"][1]) in ks;
  }

  lemma ExampleScores()
    ensures Similarity({"x", "y"}, ["x"]) == 1
    ensures Similarity({"x", "y"}, ["x", "y"]) == 2
  {
    assert {"x", "y"} * (set w | w in ["x"]) == {"x"};
    assert {"x", "y"} * (set w | w in ["x", "y"]) == {"x", "y"};
  }

  /** A course sharing two keywords ranks before one sharing a single
      keyword, whatever their dictionary order. */
  lemma RankingExample()
    ensures var index: Index := Dict(["C1", "C2"], map["C1" := ["x"], "C2" := ["x", "y"]]);
            var urls: CourseUrls := Dict(["C1", "C2"], map["C1" := "u1", "C2" := "u2"]);
            index.Valid() && SearchSpec(["x", "y"], index, urls) == Ok(["u2", "u1"])
  {
    var index: Index := Dict(["C1", "C2"], map["C1" := ["x"], "C2" := ["x", "y"]]);
    var urls: CourseUrls := Dict(["C1", "C2"], map["C1" := "u1", "C2" := "u2"]);
    assert index.Valid() by {
      assert Distinct(index.keys) by {
        assert "C1" != "C2";
      }
    }
    ExampleRank(index);
    ExampleResolve(urls);
  }

  lemma ExampleRank(index: Index)
    requires index == Dict(["C1", "C2"], map["C1" := ["x"], "C2" := ["x", "y"]])
    requires index.Valid()
    ensures Rank(["x", "y"], index) == [Scored("C2", 2), Scored("C1", 1)]
  {
    ExampleKeywords();
    ExampleScoreAll(index);
    ExampleSort();
  }

  lemma ExampleScoreAll(index: Index)
    requires index == Dict(["C1", "C2"], map["C1" := ["x"], "C2" := ["x", "y"]])
    ensures ScoreAll({"x", "y"}, index.keys, index.items) == [Scored("C1", 1), Scored("C2", 2)]
  {
    ExampleScores();
    assert index.keys[..1] == ["C1"];
    assert ["C1"][..0] == [];
    assert ScoreAll({"x", "y"}, ["C1"], index.items) == [Scored("C1", 1)];
  }

  lemma ExampleSort()
    ensures SortDesc([Scored("C1", 1), Scored("C2", 2)]) == [Scored("C2", 2), Scored("C1", 1)]
  {
    assert [Scored("C1", 1), Scored("C2", 2)][..1] == [Scored("C1", 1)];
    assert [Scored("C1", 1)][..0] == [];
    assert SortDesc([Scored("C1", 1)]) == [Scored("C1", 1)];
    assert InsertDesc([Scored("C1", 1)], Scored("C2", 2)) == [Scored("C2", 2), Scored("C1", 1)];
  }

  lemma ExampleResolve(urls: CourseUrls)
    requires urls == Dict(["C1", "C2"], map["C1" := "u1", "C2" := "u2"])
    ensures Resolve([Scored("C2", 2), Scored("C1", 1)], urls) == Ok(["u2", "u1"])
  {
    assert [Scored("C2", 2), Scored("C1", 1)][1..] == [Scored("C1", 1)];
    assert [Scored("C1", 1)][1..] == [];
    assert Resolve([], urls) == Ok([]);
    assert urls.items["C1"] == "u1" && urls.items["C2"] == "u2";
    assert [urls.items["C1"]] + [] == ["u1"];
    assert Resolve([Scored("C1", 1)], urls) == Ok(["u1"]);
    assert [urls.items["C2"]] + ["u1"] == ["u2", "u1"];
  }
}
