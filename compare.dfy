/** `compare_courses`: the Jaccard similarity of the word sets of two
    courses. Python's float division is modelled by exact division on
    `real`. */
module Compare {
  import opened Dicts
  import opened Indexer

  /** `set(index.get(course, []))`. */
  function WordSet(index: Index, course: string): set<string>
  {
    set w | w in index.Get(course, [])
  }

  /** `intersection / union if union != 0 else 0`. */
  function Jaccard(a: set<string>, b: set<string>): (r: real)
    ensures 0.0 <= r <= 1.0
  {
    var union := |a + b|;
    IntersectionBelowUnion(a, b);
    if union != 0 then (|a * b| as real) / (union as real) else 0.0
  }

  function CompareCourses(course1: string, course2: string, index: Index): real
  {
    Jaccard(WordSet(index, course1), WordSet(index, course2))
  }

  lemma IntersectionBelowUnion(a: set<string>, b: set<string>)
    ensures |a * b| <= |a + b|
  {
    SubsetNoLarger(a * b, a + b);
  }

  lemma {:induction false} SubsetNoLarger(s: set<string>, t: set<string>)
    requires s <= t
    ensures |s| <= |t|
    decreases |s|
  {
    if s != {} {
      var w :| w in s;
      SubsetNoLarger(s - {w}, t - {w});
    }
  }

  /** The similarity does not depend on the order of the two courses. */
  lemma CompareSymmetric(course1: string, course2: string, index: Index)
    ensures CompareCourses(course1, course2, index) == CompareCourses(course2, course1, index)
  {
    var a, b := WordSet(index, course1), WordSet(index, course2);
    assert a * b == b * a && a + b == b + a;
  }

  /** The similarity is 1 exactly when both courses have the same word set
      and it is not empty. */
  lemma CompareIsOneIff(course1: string, course2: string, index: Index)
    ensures CompareCourses(course1, course2, index) == 1.0
        <==> WordSet(index, course1) == WordSet(index, course2) && WordSet(index, course1) != {}
  {
    var a, b := WordSet(index, course1), WordSet(index, course2);
    if a == b && a != {} {
      assert a * b == a + b;
    }
    if CompareCourses(course1, course2, index) == 1.0 {
      assert |a * b| == |a + b|;
      EqualSizedSubsetIsEqual(a * b, a + b);
      assert a == b by {
        forall w | w in a + b ensures w in a && w in b {
          assert w in a * b;
        }
      }
    }
  }

  lemma EqualSizedSubsetIsEqual(s: set<string>, t: set<string>)
    requires s <= t && |s| == |t|
    ensures s == t
  {
    if s != t {
      var w :| w in t && w !in s;
      SubsetNoLarger(s, t - {w});
    }
  }

  /** The similarity is 0 exactly when the courses share no word; in
      particular a course missing from the index is like a course without
      words. */
  lemma CompareIsZeroIff(course1: string, course2: string, index: Index)
    ensures CompareCourses(course1, course2, index) == 0.0
        <==> WordSet(index, course1) * WordSet(index, course2) == {}
  {
    var a, b := WordSet(index, course1), WordSet(index, course2);
    if a * b != {} {
      var w :| w in a * b;
      assert w in a + b;
      assert |a + b| > 0;
      assert |a * b| > 0;
    }
  }

  lemma MissingCourseIsEmpty(course: string, index: Index)
    requires course !in index.items
    ensures WordSet(index, course) == {}
  {
  }

  /** Only the set of words counts: a course listing its words in another
      order or with repetitions compares the same. */
  lemma OnlyWordSetsCount(course1: string, course2: string, index: Index, index': Index)
    requires WordSet(index, course1) == WordSet(index', course1)
    requires WordSet(index, course2) == WordSet(index', course2)
    ensures CompareCourses(course1, course2, index) == CompareCourses(course1, course2, index')
  {
  }
}
