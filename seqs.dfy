/** Generic sequence operations used across the model. */
module Seqs {

  predicate Distinct<T(==)>(s: seq<T>)
  {
    forall i, j :: 0 <= i < j < |s| ==> s[i] != s[j]
  }

  predicate IsPrefix<T(==)>(a: seq<T>, b: seq<T>)
  {
    |a| <= |b| && b[..|a|] == a
  }

  lemma PrefixTransitive<T>(a: seq<T>, b: seq<T>, c: seq<T>)
    requires IsPrefix(a, b) && IsPrefix(b, c)
    ensures IsPrefix(a, c)
  {
    assert c[..|b|][..|a|] == c[..|a|];
  }

  /** Appends, in order, each item that is not already present: the effect of
      `for x in items: if x not in list: list.append(x)`. */
  function AppendNew<T(==,!new)>(list: seq<T>, items: seq<T>): (r: seq<T>)
    ensures IsPrefix(list, r)
    ensures forall x :: x in r <==> x in list || x in items
    ensures Distinct(list) ==> Distinct(r)
    decreases |items|
  {
    if items == [] then list
    else
      var l := AppendNew(list, items[..|items| - 1]);
      var x := items[|items| - 1];
      if x in l then l else l + [x]
  }

  /** The items `r` holds beyond `list` are new ones taken from `items`, in
      the order of their first occurrence there: of two added items, the
      earlier one occurs in `items` before any occurrence of the later one. */
  ghost predicate AddedInFirstOccurrenceOrder<T>(list: seq<T>, items: seq<T>, r: seq<T>)
  {
    && (forall i :: |list| <= i < |r| ==> r[i] in items && r[i] !in list)
    && (forall i, j :: |list| <= i < j < |r| ==>
          exists k :: 0 <= k < |items| && items[k] == r[i]
            && forall m :: 0 <= m <= k ==> items[m] != r[j])
  }

  lemma {:induction false} AppendNewFirstOccurrence<T(!new)>(list: seq<T>, items: seq<T>)
    ensures AddedInFirstOccurrenceOrder(list, items, AppendNew(list, items))
    decreases |items|
  {
    if items == [] {
      assert AppendNew(list, items) == list;
    } else {
      var init := items[..|items| - 1];
      var x := items[|items| - 1];
      var l := AppendNew(list, init);
      AppendNewFirstOccurrence(list, init);
      assert items == init + [x];
      assert AppendNew(list, items) == if x in l then l else l + [x];
      AddedInOrderStep(list, init, x, l);
    }
  }

  /** One more item keeps the order: it is added only when new, and then it
      occurs in the items after every earlier addition. */
  lemma AddedInOrderStep<T>(list: seq<T>, init: seq<T>, x: T, l: seq<T>)
    requires AddedInFirstOccurrenceOrder(list, init, l)
    requires x in l <==> x in list || x in init
    ensures AddedInFirstOccurrenceOrder(list, init + [x], if x in l then l else l + [x])
  {
    var items := init + [x];
    var r := if x in l then l else l + [x];
    forall i | |list| <= i < |r| ensures r[i] in items && r[i] !in list {
      if i < |l| {
        assert r[i] == l[i];
      }
    }
    forall i, j | |list| <= i < j < |r|
      ensures exists k :: 0 <= k < |items| && items[k] == r[i]
                && forall m :: 0 <= m <= k ==> items[m] != r[j]
    {
      assert r[i] == l[i];
      if j < |l| {
        var k :| 0 <= k < |init| && init[k] == l[i] && forall m :: 0 <= m <= k ==> init[m] != l[j];
        assert items[k] == r[i];
        assert forall m :: 0 <= m <= k ==> items[m] != r[j] by {
          assert forall m :: 0 <= m <= k ==> items[m] == init[m];
        }
      } else {
        assert r[j] == x && x !in init;
        var k :| 0 <= k < |init| && init[k] == l[i];
        assert items[k] == r[i];
        assert forall m :: 0 <= m <= k ==> items[m] != r[j] by {
          assert forall m :: 0 <= m <= k ==> items[m] == init[m];
        }
      }
    }
    assert AddedInFirstOccurrenceOrder(list, items, r);
  }

  /** No element of a sequence without duplicates occurs in it twice. */
  lemma {:induction false} DistinctAtMostOnce<T>(s: seq<T>, x: T)
    requires Distinct(s)
    ensures multiset(s)[x] <= 1
    decreases |s|
  {
    if s != [] {
      var init := s[..|s| - 1];
      MultisetOfSnoc(s);
      DistinctAtMostOnce(init, x);
    }
  }

  /** A sequence in which no element occurs twice has no duplicates. */
  lemma AtMostOnceDistinct<T>(s: seq<T>)
    requires forall x :: multiset(s)[x] <= 1
    ensures Distinct(s)
  {
    forall i, j | 0 <= i < j < |s| ensures s[i] != s[j] {
      assert s == s[..j] + s[j..];
      assert s[i] in s[..j];
      assert s[j] == s[j..][0];
      assert multiset(s)[s[j]] == multiset(s[..j])[s[j]] + multiset(s[j..])[s[j]];
    }
  }

  /** Reordering keeps a sequence free of duplicates. */
  lemma DistinctPermutation<T>(a: seq<T>, b: seq<T>)
    requires multiset(a) == multiset(b) && Distinct(a)
    ensures Distinct(b)
  {
    forall x ensures multiset(b)[x] <= 1 {
      DistinctAtMostOnce(a, x);
    }
    AtMostOnceDistinct(b);
  }

  /** `[x for x in s if x not in excluded]`. */
  function Without<T(==,!new)>(s: seq<T>, excluded: set<T>): (r: seq<T>)
    ensures forall x :: x in r <==> x in s && x !in excluded
    ensures forall x :: multiset(r)[x] == if x in excluded then 0 else multiset(s)[x]
    decreases |s|
  {
    if s == [] then []
    else
      var init := s[..|s| - 1];
      assert s == init + [s[|s| - 1]];
      Without(init, excluded) + (if s[|s| - 1] in excluded then [] else [s[|s| - 1]])
  }

  lemma AppendAssociative<T>(a: seq<T>, b: seq<T>, c: seq<T>)
    ensures a + b + c == a + (b + c)
  {
  }

  /** A non-empty sequence is all but its last element followed by the last. */
  lemma InitLast<T>(s: seq<T>)
    requires s != []
    ensures s == s[..|s| - 1] + [s[|s| - 1]]
  {
  }

  /** The multiset of a non-empty sequence is that of all but its last
      element plus the last. */
  lemma MultisetOfSnoc<T>(s: seq<T>)
    requires s != []
    ensures multiset(s) == multiset(s[..|s| - 1]) + multiset{s[|s| - 1]}
  {
    assert s == s[..|s| - 1] + [s[|s| - 1]];
  }

  /** Filtering keeps a sequence none of whose elements is excluded as it is. */
  lemma {:induction false} WithoutNothingExcluded<T(!new)>(s: seq<T>, excluded: set<T>)
    requires forall i :: 0 <= i < |s| ==> s[i] !in excluded
    ensures Without(s, excluded) == s
    decreases |s|
  {
    if s != [] {
      var init := s[..|s| - 1];
      assert s == init + [s[|s| - 1]];
      WithoutNothingExcluded(init, excluded);
    }
  }
}
