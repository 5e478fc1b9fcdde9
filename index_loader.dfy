/** `load_index`: reads the `|`-delimited index table back into the
    course -> words dictionary. The file is given as its parsed records; CSV
    quoting is not modelled. */
module IndexLoader {
  import opened Wrappers
  import opened Seqs
  import opened Dicts
  import opened Indexer
  import opened Crawler

  datatype LoadError =
    | MissingHeader   // `next(reader)` on an empty file raises StopIteration
    | BadRow(row: Row) // `course_id, word = row` on a row without exactly two fields

  /** One data row: `index.setdefault(course_id, []).append(word)`. The word
      is appended even if the course already lists it. */
  function AddRow(ix: Index, id: string, word: string): Index
  {
    var ix1 := EnsureEntry(ix, id);
    ix1.Put(id, ix1.items[id] + [word])
  }

  function LoadRows(ix: Index, rows: seq<Row>): Result<Index, LoadError>
    decreases |rows|
  {
    if rows == [] then Ok(ix)
    else if |rows[0]| != 2 then Err(BadRow(rows[0]))
    else LoadRows(AddRow(ix, rows[0][0], rows[0][1]), rows[1..])
  }

  /** What `load_index` returns for a file whose records are `table`: the
      first record is skipped whatever it holds. */
  function Load(table: seq<Row>): Result<Index, LoadError>
  {
    if table == [] then Err(MissingHeader) else LoadRows(EmptyDict(), table[1..])
  }

  /** `load_index(csv_file)`. */
  method LoadIndex(table: seq<Row>) returns (r: Result<Index, LoadError>)
    ensures r == Load(table)
  {
    if table == [] {
      return Err(MissingHeader);
    }
    var index: Index := EmptyDict();
    var i := 1;
    while i < |table|
      invariant 1 <= i <= |table|
      invariant LoadRows(index, table[i..]) == Load(table)
    {
      var row := table[i];
      assert table[i..][1..] == table[i + 1..];
      if |row| != 2 {
        return Err(BadRow(row));
      }
      var courseId, word := row[0], row[1];
      if courseId !in index.items {
        index := index.Put(courseId, []);
      }
      index := index.Put(courseId, index.items[courseId] + [word]);
      i := i + 1;
    }
    r := Ok(index);
  }

  // ---------------------------------------------------------------------
  // What a loaded index holds
  // ---------------------------------------------------------------------

  predicate WellFormed(rows: seq<Row>)
  {
    forall i :: 0 <= i < |rows| ==> |rows[i]| == 2
  }

  /** The words of the rows for `id`, in row order, duplicates kept. */
  function WordsOf(rows: seq<Row>, id: string): seq<string>
    requires WellFormed(rows)
  {
    if rows == [] then []
    else (if rows[0][0] == id then [rows[0][1]] else []) + WordsOf(rows[1..], id)
  }

  /** Loading fails exactly when a data row does not have two fields. */
  lemma {:induction false} LoadRowsOkIff(ix: Index, rows: seq<Row>)
    ensures LoadRows(ix, rows).Ok? <==> WellFormed(rows)
    decreases |rows|
  {
    if rows != [] && |rows[0]| == 2 {
      LoadRowsOkIff(AddRow(ix, rows[0][0], rows[0][1]), rows[1..]);
      if WellFormed(rows[1..]) {
        forall i | 0 <= i < |rows| ensures |rows[i]| == 2 {
          if i > 0 {
            assert rows[i] == rows[1..][i - 1];
          }
        }
      }
    }
  }

  /** A failed load reports the first row without two fields. */
  lemma {:induction false} LoadRowsReportsFirstBadRow(ix: Index, rows: seq<Row>, k: nat)
    requires k < |rows| && |rows[k]| != 2
    requires forall j :: 0 <= j < k ==> |rows[j]| == 2
    ensures LoadRows(ix, rows) == Err(BadRow(rows[k]))
    decreases k
  {
    if k > 0 {
      assert rows[1..][k - 1] == rows[k];
      LoadRowsReportsFirstBadRow(AddRow(ix, rows[0][0], rows[0][1]), rows[1..], k - 1);
    }
  }

  lemma WellFormedTail(rows: seq<Row>)
    requires rows != [] && WellFormed(rows)
    ensures |rows[0]| == 2 && WellFormed(rows[1..])
  {
    forall i | 0 <= i < |rows[1..]| ensures |rows[1..][i]| == 2 {
      assert rows[1..][i] == rows[i + 1];
    }
  }

  /** A load of well-formed rows succeeds and keeps the dictionary well
      formed. */
  lemma {:induction false} LoadRowsValid(ix: Index, rows: seq<Row>)
    requires ix.Valid()
    requires WellFormed(rows)
    decreases |rows|
    ensures LoadRows(ix, rows).Ok? && LoadRows(ix, rows).value.Valid()
  {
    if rows != [] {
      WellFormedTail(rows);
      LoadRowsValid(AddRow(ix, rows[0][0], rows[0][1]), rows[1..]);
    }
  }

  /** The courses after a load are those loaded already and those named by
      a row. */
  lemma {:induction false} LoadRowsKeys(ix: Index, rows: seq<Row>, id: string)
    requires WellFormed(rows)
    decreases |rows|
    ensures LoadRows(ix, rows).Ok?
    ensures id in LoadRows(ix, rows).value.items <==>
              id in ix.items || exists k :: 0 <= k < |rows| && rows[k][0] == id
  {
    if rows != [] {
      WellFormedTail(rows);
      LoadRowsKeys(AddRow(ix, rows[0][0], rows[0][1]), rows[1..], id);
      if exists k :: 0 <= k < |rows[1..]| && rows[1..][k][0] == id {
        var k :| 0 <= k < |rows[1..]| && rows[1..][k][0] == id;
        assert rows[k + 1][0] == id;
      }
      if exists k :: 0 <= k < |rows| && rows[k][0] == id {
        var k :| 0 <= k < |rows| && rows[k][0] == id;
        if k > 0 {
          assert rows[1..][k - 1][0] == id;
        }
      }
    }
  }

  /** After a load, each course has the words of its rows appended, in row
      order and duplicates kept, to what it had. */
  lemma {:induction false} LoadRowsWords(ix: Index, rows: seq<Row>, id: string)
    requires WellFormed(rows)
    decreases |rows|
    ensures LoadRows(ix, rows).Ok?
    ensures id in LoadRows(ix, rows).value.items ==>
              LoadRows(ix, rows).value.items[id]
              == (if id in ix.items then ix.items[id] else []) + WordsOf(rows, id)
  {
    if rows != [] {
      WellFormedTail(rows);
      var ix1 := AddRow(ix, rows[0][0], rows[0][1]);
      var before := if id in ix.items then ix.items[id] else [];
      var own := if rows[0][0] == id then [rows[0][1]] else [];
      var tail := WordsOf(rows[1..], id);
      assert LoadRows(ix, rows) == LoadRows(ix1, rows[1..]);
      assert WordsOf(rows, id) == own + tail;
      LoadRowsWords(ix1, rows[1..], id);
      AddRowEntry(ix, rows[0][0], rows[0][1], id);
      AppendAssociative(before, own, tail);
    }
  }

  /** One row appends its word to its own course and to no other. */
  lemma AddRowEntry(ix: Index, rowId: string, word: string, id: string)
    ensures var ix1 := AddRow(ix, rowId, word);
            && (id in ix1.items <==> id in ix.items || id == rowId)
            && (id in ix1.items ==>
                  ix1.items[id] == (if id in ix.items then ix.items[id] else []) + (if rowId == id then [word] else []))
  {
  }

  /** Every course a loaded file names has at least one word: the index
      table of a course without words has no row for it. */
  lemma LoadedListsNonEmpty(table: seq<Row>)
    requires Load(table).Ok?
    ensures forall id :: id in Load(table).value.items ==> Load(table).value.items[id] != []
  {
    var rows := table[1..];
    LoadRowsOkIff(EmptyDict(), rows);
    var ix := Load(table).value;
    forall id | id in ix.items ensures ix.items[id] != [] {
      LoadRowsKeys(EmptyDict(), rows, id);
      var k :| 0 <= k < |rows| && rows[k][0] == id;
      WordsOfNonEmpty(rows, id, k);
      LoadRowsWords(EmptyDict(), rows, id);
    }
  }

  lemma {:induction false} WordsOfNonEmpty(rows: seq<Row>, id: string, k: nat)
    requires WellFormed(rows)
    requires k < |rows| && rows[k][0] == id
    ensures rows[k][1] in WordsOf(rows, id)
  {
    if k > 0 {
      WordsOfNonEmpty(rows[1..], id, k - 1);
    }
  }

  // ---------------------------------------------------------------------
  // The round trip through the index table
  // ---------------------------------------------------------------------

  /** The rows of one course, loaded on top of an index that already lists
      it, extend its list by exactly its words. */
  lemma {:induction false} LoadWordRowsExisting(ix: Index, id: string, words: seq<string>)
    requires id in ix.items
    ensures LoadRows(ix, WordRows(id, words)) == Ok(ix.Put(id, ix.items[id] + words))
    decreases |words|
  {
    if words == [] {
      assert ix.items[id] + words == ix.items[id];
      PutSame(ix, id);
    } else {
      LoadWordRowsExisting(ix.Put(id, ix.items[id] + [words[0]]), id, words[1..]);
      LoadWordRowsStep(ix, id, words);
    }
  }

  /** The first row of a present course appends its word; the rest append
      theirs after it. */
  lemma LoadWordRowsStep(ix: Index, id: string, words: seq<string>)
    requires id in ix.items && words != []
    requires var ix1 := ix.Put(id, ix.items[id] + [words[0]]);
             LoadRows(ix1, WordRows(id, words[1..])) == Ok(ix1.Put(id, ix1.items[id] + words[1..]))
    ensures LoadRows(ix, WordRows(id, words)) == Ok(ix.Put(id, ix.items[id] + words))
  {
    LoadFirstWordRow(ix, id, words);
    AppendAfterFirst(ix, id, words);
  }

  lemma LoadFirstWordRow(ix: Index, id: string, words: seq<string>)
    requires id in ix.items && words != []
    ensures LoadRows(ix, WordRows(id, words))
         == LoadRows(ix.Put(id, ix.items[id] + [words[0]]), WordRows(id, words[1..]))
  {
    var rows := WordRows(id, words);
    assert rows[1..] == WordRows(id, words[1..]);
    assert rows[0] == [id, words[0]];
  }

  lemma AppendAfterFirst(ix: Index, id: string, words: seq<string>)
    requires id in ix.items && words != []
    ensures var ix1 := ix.Put(id, ix.items[id] + [words[0]]);
            ix1.Put(id, ix1.items[id] + words[1..]) == ix.Put(id, ix.items[id] + words)
  {
    var ix1 := ix.Put(id, ix.items[id] + [words[0]]);
    assert ix1.items[id] + words[1..] == ix.items[id] + words by {
      assert words == [words[0]] + words[1..];
    }
    PutTwice(ix, id, ix.items[id] + [words[0]], ix.items[id] + words);
  }

  /** The rows of a new course with at least one word create its entry at
      the end of the key order with exactly those words. */
  lemma LoadWordRowsNew(ix: Index, id: string, words: seq<string>)
    requires id !in ix.items
    requires words != []
    ensures LoadRows(ix, WordRows(id, words)) == Ok(ix.Put(id, words))
  {
    var rows := WordRows(id, words);
    assert rows[1..] == WordRows(id, words[1..]);
    var ix1 := AddRow(ix, id, words[0]);
    assert [] + [words[0]] == [words[0]];
    assert ix1.items == ix.Put(id, [words[0]]).items;
    assert ix1.keys == ix.Put(id, [words[0]]).keys;
    LoadWordRowsExisting(ix1, id, words[1..]);
    assert [words[0]] + words[1..] == words;
    assert ix1.Put(id, words).items == ix.Put(id, words).items;
    assert ix1.Put(id, words).keys == ix.Put(id, words).keys;
  }

  /** Loading the concatenation of two row lists is loading the first and
      then the second. */
  lemma {:induction false} LoadRowsConcat(ix: Index, a: seq<Row>, b: seq<Row>)
    requires LoadRows(ix, a).Ok?
    ensures LoadRows(ix, a + b) == LoadRows(LoadRows(ix, a).value, b)
    decreases |a|
  {
    if a != [] {
      assert (a + b)[1..] == a[1..] + b;
      LoadRowsConcat(AddRow(ix, a[0][0], a[0][1]), a[1..], b);
    } else {
      assert a + b == b;
    }
  }

  /** The courses of `keys`, in that order, with their lists from `items`. */
  function Restrict(keys: seq<string>, items: map<string, seq<string>>): Index
  {
    Dict(keys, map k | k in keys && k in items :: items[k])
  }

  lemma RestrictSnoc(init: seq<string>, last: string, items: map<string, seq<string>>)
    requires last !in init && last in items
    ensures Restrict(init, items).Put(last, items[last]) == Restrict(init + [last], items)
  {
    var keys := init + [last];
    assert forall k :: k in keys <==> k in init || k == last;
    assert Restrict(init, items).Put(last, items[last]).items == Restrict(keys, items).items;
  }

  lemma {:induction false} LoadIndexRows(keys: seq<string>, items: map<string, seq<string>>)
    requires Distinct(keys)
    requires forall k :: k in keys ==> k in items && items[k] != []
    ensures LoadRows(EmptyDict(), IndexRows(keys, items)) == Ok(Restrict(keys, items))
  {
    if keys == [] {
      assert Restrict(keys, items) == EmptyDict();
    } else {
      var init := keys[..|keys| - 1];
      var last := keys[|keys| - 1];
      assert keys == init + [last];
      assert forall k :: k in init ==> k in keys;
      LoadIndexRows(init, items);
      assert IndexRows(keys, items) == IndexRows(init, items) + WordRows(last, items[last]);
      LoadRowsConcat(EmptyDict(), IndexRows(init, items), WordRows(last, items[last]));
      assert last !in init;
      LoadWordRowsNew(Restrict(init, items), last, items[last]);
      RestrictSnoc(init, last, items);
    }
  }

  /** Writing the index table and loading it back gives the index again,
      provided no course has an empty word list. */
  lemma IndexTableRoundTrip(ix: Index)
    requires ix.Valid()
    requires forall id :: id in ix.items ==> ix.items[id] != []
    ensures Load(IndexTable(ix)) == Ok(ix)
  {
    LoadIndexRows(ix.keys, ix.items);
    IndexTableBody(ix);
    RestrictAll(ix);
  }

  lemma IndexTableBody(ix: Index)
    requires ix.Valid()
    ensures Load(IndexTable(ix)) == LoadRows(EmptyDict(), IndexRows(ix.keys, ix.items))
  {
    assert IndexTable(ix)[1..] == IndexRows(ix.keys, ix.items);
  }

  /** A well-formed dictionary restricted to its own keys is itself. */
  lemma RestrictAll(ix: Index)
    requires ix.Valid()
    ensures Restrict(ix.keys, ix.items) == ix
  {
    assert Restrict(ix.keys, ix.items).items == ix.items;
  }

  /** A course with no words has no row, so it does not come back. */
  lemma EmptyEntryLost()
    ensures var ix: Index := Dict(["C1"], map["C1" := []]);
            ix.Valid() && Load(IndexTable(ix)) == Ok(EmptyDict())
  {
    var ix: Index := Dict(["C1"], map["C1" := []]);
    assert IndexRows(ix.keys, ix.items) == IndexRows([], ix.items) + WordRows("C1", []);
    assert IndexTable(ix)[1..] == [];
  }
}
